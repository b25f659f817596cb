/** What was accepted gets done: without new calls both tasks come to rest after boundedly many steps. */
module ConcludeQuiescence {
  import opened Arith
  import opened ConcludeProtocol
  import opened ConcludeInvariants
  import opened ConcludeOrder
  import opened ConcludeTheorems
  import opened ConcludeContents
  import opened ConcludeConclusions
  import opened ConcludeProgress

  // ----- the work that is left

  function JobWork(job: Job): nat {
    match job
    case WritePart(part, _) => 10 + |part.data|
    case Conclude(_, total) => 10 + total
  }

  function QueueWork(queue: seq<Job>): nat {
    if queue == [] then 0 else JobWork(queue[0]) + QueueWork(queue[1..])
  }

  lemma {:induction false} QueueWorkAppend(queue: seq<Job>, job: Job)
    ensures QueueWork(queue + [job]) == QueueWork(queue) + JobWork(job)
  {
    if queue == [] {
      assert queue + [job] == [job] && [job][1..] == [];
    } else {
      QueueWorkAppend(queue[1..], job);
      assert (queue + [job])[1..] == queue[1..] + [job];
    }
  }

  function LoopWork(loop: LoopPc): nat {
    match loop
    case LoopIdle => 0
    case Checking(part) => 13 + |part.data|
    case Copied(part, _) => 12 + |part.data|
    case Charged(part, _) => 11 + |part.data|
    case Refused(part, _) => 4 + |part.data|
    case Uncharged(part, _) => 3 + |part.data|
    case Opening(part) => 2 + |part.data|
    case InlineWriting(part, _, done) => 1 + Max(0, |part.data| - done)
    case Deferring(_, total) => 11 + total
  }

  function WorkerWork(worker: WorkerPc): nat {
    match worker
    case WorkerIdle => 0
    case Choosing(part, _) => 9 + |part.data|
    case Writing(part, _, done) => 8 + Max(0, |part.data| - done)
    case Freeing(_, _) => 3
    case Uncharging(_) => 2
    case Closing(_, total) => 9 + total
    case ReadOpening(_, total) => 8 + total
    case Reading(_, total, _, got) => 7 + Max(0, total - |got|)
    case Discarding(_, _, _) => 6
    case Delivering(_, _, _) => 5
  }

  function Work(s: State): nat {
    QueueWork(s.queue) + |s.deliveries| + LoopWork(s.loop) + WorkerWork(s.worker)
  }

  lemma LoopWorkFalls(bodies: Bodies, s: State, step: LoopStep)
    requires LoopEnabled(bodies, s, step) && !step.HookCall? && !step.DeferCall?
    ensures Work(LoopApply(bodies, s, step)) < Work(s)
  {
    hide Work, LoopApply, LoopEnabled;
    if step.PartSent? { PartSentWorkFalls(bodies, s); }
    else if step.ConcludeSent? { ConcludeSentWorkFalls(bodies, s); }
    else if s.loop.Opening? || s.loop.InlineWriting? { InlineWorkFalls(bodies, s, step); }
    else { OtherLoopWorkFalls(bodies, s, step); }
  }

  lemma PartSentWorkFalls(bodies: Bodies, s: State)
    requires LoopEnabled(bodies, s, PartSent)
    ensures Work(LoopApply(bodies, s, PartSent)) < Work(s)
  {
    hide QueueWork, WorkerWork, Truncated;
    QueueWorkAppend(s.queue, JobOf(s.loop.part, s.loop.copy));
  }

  lemma ConcludeSentWorkFalls(bodies: Bodies, s: State)
    requires LoopEnabled(bodies, s, ConcludeSent)
    ensures Work(LoopApply(bodies, s, ConcludeSent)) < Work(s)
  {
    hide QueueWork, WorkerWork;
    QueueWorkAppend(s.queue, Conclude(s.loop.path, s.loop.total));
  }

  lemma InlineWorkFalls(bodies: Bodies, s: State, step: LoopStep)
    requires LoopEnabled(bodies, s, step) && (s.loop.Opening? || s.loop.InlineWriting?)
    ensures Work(LoopApply(bodies, s, step)) < Work(s)
  {
    hide WriteAt, QueueWork, WorkerWork, MayGive, MayDefer;
    assert step.InlineOpen? || step.InlineWrite? || step.InlineClose?;
  }

  lemma OtherLoopWorkFalls(bodies: Bodies, s: State, step: LoopStep)
    requires LoopEnabled(bodies, s, step) && !step.HookCall? && !step.DeferCall?
    requires !step.PartSent? && !step.ConcludeSent? && !s.loop.Opening? && !s.loop.InlineWriting?
    ensures Work(LoopApply(bodies, s, step)) < Work(s)
  {
    hide WriteAt, QueueWork, WorkerWork, MayGive, MayDefer, Less, JobOf, Created, Written;
  }

  lemma WorkerWorkFalls(s: State, step: WorkerStep)
    requires WorkerEnabled(s, step)
    ensures Work(WorkerApply(s, step)) < Work(s)
  {
    hide Work, WorkerApply, WorkerEnabled;
    if step.Receive? { ReceiveWorkFalls(s); } else { OtherWorkFalls(s, step); }
  }

  lemma ReceiveWorkFalls(s: State)
    requires WorkerEnabled(s, Receive)
    ensures Work(WorkerApply(s, Receive)) < Work(s)
  {
    hide LoopWork;
  }

  lemma OtherWorkFalls(s: State, step: WorkerStep)
    requires WorkerEnabled(s, step) && !step.Receive?
    ensures Work(WorkerApply(s, step)) < Work(s)
  {
    hide LoopWork, QueueWork, WorkerApply;
    if WorkerWrites(s.worker) { WritingMoves(s, step); } else { ConcludingMoves(s, step); }
  }

  /** What a step of the worker does to the work that is left, once it has taken a job. */
  ghost predicate WorkMoves(s: State, s': State, delivered: nat) {
    && s'.queue == s.queue && s'.loop == s.loop && |s'.deliveries| == |s.deliveries| + delivered
    && WorkerWork(s'.worker) + delivered < WorkerWork(s.worker)
  }

  lemma WritingMoves(s: State, step: WorkerStep)
    requires WorkerEnabled(s, step) && WorkerWrites(s.worker)
    ensures WorkMoves(s, WorkerApply(s, step), 0) && !step.Deliver?
  {
    if step.ChooseFd? || step.WorkerWrite? { FileStepKeeps(s, step); }
    else { WritingEnds(s, step); }
    hide WorkerApply;
  }

  lemma WritingEnds(s: State, step: WorkerStep)
    requires WorkerEnabled(s, step) && (step.WriteDone? || step.FreeWritten? || step.UnchargeWritten?)
    ensures WorkMoves(s, WorkerApply(s, step), 0)
  {
    hide Less;
  }

  lemma ConcludingMoves(s: State, step: WorkerStep)
    requires WorkerEnabled(s, step) && WorkerConcludes(s.worker)
    ensures WorkMoves(s, WorkerApply(s, step), if step.Deliver? then 1 else 0)
  {
    hide WriteAt;
  }

  /** Every step that needs nothing from outside leaves less work. */
  lemma WorkFalls(bodies: Bodies, s: State, step: Step)
    requires Internal(step) && Enabled(bodies, s, step)
    ensures Work(Apply(bodies, s, step)) < Work(s)
  {
    hide Work, LoopApply, WorkerApply, LoopEnabled, WorkerEnabled;
    match step
    case OfLoop(l) => LoopWorkFalls(bodies, s, l);
    case OfWorker(w) => WorkerWorkFalls(s, w);
  }

  // ----- no new conclusions

  lemma {:induction false} ConclusionsAppend(queue: seq<Job>, job: Job)
    ensures QueuedConclusions(queue + [job]) == QueuedConclusions(queue) + if job.Conclude? then 1 else 0
  {
    if queue == [] {
      assert queue + [job] == [job] && [job][1..] == [];
    } else {
      ConclusionsAppend(queue[1..], job);
      assert (queue + [job])[1..] == queue[1..] + [job];
    }
  }

  lemma UndrainedLoop(bodies: Bodies, s: State, step: LoopStep)
    requires LoopEnabled(bodies, s, step) && !step.HookCall? && !step.DeferCall?
    ensures Undrained(LoopApply(bodies, s, step)) <= Undrained(s)
  {
    hide WriteAt, QueuedConclusions, WorkerConcludes;
    if step.PartSent? {
      ConclusionsAppend(s.queue, JobOf(s.loop.part, s.loop.copy));
    } else if step.ConcludeSent? {
      ConclusionsAppend(s.queue, Conclude(s.loop.path, s.loop.total));
    }
  }

  lemma UndrainedWorker(s: State, step: WorkerStep)
    requires WorkerEnabled(s, step)
    ensures Undrained(WorkerApply(s, step)) <= Undrained(s)
  {
    hide WriteAt;
  }

  // ----- runs that go on without new calls

  /** From state `k` on nothing is asked of the protocol. */
  ghost predicate LeftAlone(steps: seq<Step>, k: nat) {
    forall i :: k <= i < |steps| ==> Internal(steps[i])
  }

  lemma {:induction false} LeftAloneFalls(bodies: Bodies, states: seq<State>, steps: seq<Step>, k: nat, j: nat)
    requires Run(bodies, states, steps) && LeftAlone(steps, k) && k <= j < |states|
    ensures Work(states[j]) + (j - k) <= Work(states[k])
    ensures Undrained(states[j]) <= Undrained(states[k])
    decreases j
  {
    hide Work, Undrained, Enabled, Apply;
    if j > k {
      LeftAloneFalls(bodies, states, steps, k, j - 1);
      WorkFalls(bodies, states[j - 1], steps[j - 1]);
      UndrainedFalls(bodies, states[j - 1], steps[j - 1]);
    }
  }

  lemma UndrainedFalls(bodies: Bodies, s: State, step: Step)
    requires Internal(step) && Enabled(bodies, s, step)
    ensures Undrained(Apply(bodies, s, step)) <= Undrained(s)
  {
    hide Undrained, LoopApply, WorkerApply, LoopEnabled, WorkerEnabled;
    match step
    case OfLoop(l) => UndrainedLoop(bodies, s, l);
    case OfWorker(w) => UndrainedWorker(s, w);
  }

  /** Left alone, a run makes at most as many steps as there is work left, however the tasks interleave. */
  lemma LeftAloneEnds(bodies: Bodies, states: seq<State>, steps: seq<Step>, k: nat)
    requires Run(bodies, states, steps) && LeftAlone(steps, k) && k < |states|
    ensures |steps| - k <= Work(states[k])
  {
    hide Work, Undrained, Enabled, Apply;
    LeftAloneFalls(bodies, states, steps, k, |steps|);
  }

  /** With at most 49 conclusions undrained it can only end with everything done: every part given is written,
      once for each time it was given, no copy is left, and nothing waits. */
  lemma LeftAloneFinishes(bodies: Bodies, states: seq<State>, steps: seq<Step>, k: nat)
    requires Run(bodies, states, steps) && LeftAlone(steps, k) && k < |states|
    requires Undrained(states[k]) <= 49
    requires !CanProceed(bodies, states[|steps|])
    ensures var end := states[|steps|];
      AtRest(end) && end.written == end.given && end.heap == multiset{} && end.inflight == 0
    ensures PathsOf(states[|steps|].delivered) == states[|steps|].order
    ensures forall d :: d in states[|steps|].delivered ==>
      && d.path in bodies && Whole(states[|steps|], d.path, |bodies[d.path]|, d.got)
      && (Covered(bodies, states[|steps|], d.path) ==> d.got == bodies[d.path])
    ensures OnceEach(states[|steps|]) && forall p :: p in states[|steps|].deferred ==> p !in states[|steps|].names
  {
    hide Work, Undrained, Enabled, Apply, CanProceed, Whole, Covered, OnceEach;
    LeftAloneFalls(bodies, states, steps, k, |steps|);
    FewUndrainedNeverStuck(bodies, states, steps, |steps|);
    QuiescentClean(bodies, states, steps, |steps|);
    AllDelivered(bodies, states, steps, |steps|);
  }

  lemma PlaceInOrder(s: State, p: Path) returns (i: nat)
    requires OnceEach(s) && p in s.deferred && PathsOf(s.delivered) == s.order
    ensures i < |s.delivered| && s.delivered[i].path == p
  {
    assert p in s.order;
    i :| i < |s.order| && s.order[i] == p;
  }

  /** At rest every conclusion has been delivered, in the order of deferral, and its file is gone. */
  lemma AllDelivered(bodies: Bodies, states: seq<State>, steps: seq<Step>, k: nat)
    requires Run(bodies, states, steps) && k < |states| && AtRest(states[k])
    ensures PathsOf(states[k].delivered) == states[k].order && OnceEach(states[k])
    ensures forall p :: p in states[k].deferred ==> p !in states[k].names
    ensures forall d :: d in states[k].delivered ==>
      && d.path in bodies && Whole(states[k], d.path, |bodies[d.path]|, d.got)
      && (Covered(bodies, states[k], d.path) ==> d.got == bodies[d.path])
  {
    hide Enabled, Apply, Whole, Covered, OnceEach, Inv;
    ConclusionsInLine(bodies, states, steps, k);
    assert PathsOf([]) == [];
    forall d | d in states[k].delivered
      ensures d.path in bodies && Whole(states[k], d.path, |bodies[d.path]|, d.got)
      ensures Covered(bodies, states[k], d.path) ==> d.got == bodies[d.path]
    {
      DeliveredWhole(bodies, states, steps, k, d);
    }
    forall p | p in states[k].deferred ensures p !in states[k].names {
      var i := PlaceInOrder(states[k], p);
      DeliveredWhole(bodies, states, steps, k, states[k].delivered[i]);
    }
  }
}
