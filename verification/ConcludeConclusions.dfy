/** No conclusion is lost, repeated or overtaken: each is in one place, from the deferrer to loopTask. */
module ConcludeConclusions {
  import opened ConcludeProtocol
  import opened ConcludeInvariants
  import opened ConcludeOrder

  // ----- the places

  function PathsOf(deliveries: seq<Delivery>): (paths: seq<Path>)
    ensures |paths| == |deliveries|
  {
    seq(|deliveries|, i requires 0 <= i < |deliveries| => deliveries[i].path)
  }

  function WorkerConclusion(worker: WorkerPc): seq<Path> {
    if WorkerConcludes(worker) then [worker.path] else []
  }

  function QueueConclusions(queue: seq<Job>): seq<Path> {
    if queue == [] then [] else
    (if queue[0].Conclude? then [queue[0].path] else []) + QueueConclusions(queue[1..])
  }

  lemma {:induction false} QueueConclusionsAppend(queue: seq<Job>, job: Job)
    ensures QueueConclusions(queue + [job]) == QueueConclusions(queue) + if job.Conclude? then [job.path] else []
  {
    if queue == [] {
      assert queue + [job] == [job] && [job][1..] == [];
    } else {
      QueueConclusionsAppend(queue[1..], job);
      assert (queue + [job])[1..] == queue[1..] + [job];
    }
  }

  function LoopConclusion(loop: LoopPc): seq<Path> {
    if loop.Deferring? then [loop.path] else []
  }

  /** From the oldest place to the newest, the conclusions are those of the deferrer, in order. */
  ghost predicate InLine(s: State) {
    s.order == PathsOf(s.delivered) + PathsOf(s.deliveries) + WorkerConclusion(s.worker) + QueueConclusions(s.queue)
      + LoopConclusion(s.loop)
  }

  /** The deferrer has been called once for each resource it was called for. */
  ghost predicate OnceEach(s: State) {
    && (forall p :: p in s.order <==> p in s.deferred)
    && forall i, j :: 0 <= i < j < |s.order| ==> s.order[i] != s.order[j]
  }

  ghost predicate ConclusionsKept(s: State) {
    InLine(s) && OnceEach(s)
  }

  lemma ConclusionsInit()
    ensures ConclusionsKept(Init())
  {
    assert PathsOf([]) == [];
  }

  // ----- every step keeps them

  lemma ConclusionsLoop(bodies: Bodies, s: State, step: LoopStep)
    requires ConclusionsKept(s) && LoopEnabled(bodies, s, step)
    ensures ConclusionsKept(LoopApply(bodies, s, step))
  {
    hide ConclusionsKept, InLine, OnceEach, LoopApply, LoopEnabled;
    if step.PartSent? || step.ConcludeSent? { ConclusionSent(bodies, s, step); }
    else if step.DeferCall? { ConclusionDeferred(bodies, s, step); }
    else if step.Drain? { ConclusionDrained(bodies, s); }
    else { ConclusionsUntouched(bodies, s, step); }
  }

  lemma ConclusionSent(bodies: Bodies, s: State, step: LoopStep)
    requires ConclusionsKept(s) && LoopEnabled(bodies, s, step) && (step.PartSent? || step.ConcludeSent?)
    ensures ConclusionsKept(LoopApply(bodies, s, step))
  {
    hide QueueConclusions, WorkerConclusion, PathsOf, OnceEach, Truncated;
    var job := if step.PartSent? then JobOf(s.loop.part, s.loop.copy) else Conclude(s.loop.path, s.loop.total);
    QueueConclusionsAppend(s.queue, job);
    assert OnceEach(LoopApply(bodies, s, step)) by { OnceEachOf(s, LoopApply(bodies, s, step)); }
  }

  lemma OnceEachOf(s: State, s': State)
    requires OnceEach(s) && s'.order == s.order && s'.deferred == s.deferred
    ensures OnceEach(s')
  {
  }

  lemma ConclusionDeferred(bodies: Bodies, s: State, step: LoopStep)
    requires ConclusionsKept(s) && LoopEnabled(bodies, s, step) && step.DeferCall?
    ensures ConclusionsKept(LoopApply(bodies, s, step))
  {
    hide QueueConclusions, WorkerConclusion, PathsOf;
    var s' := LoopApply(bodies, s, step);
    assert step.path !in s.deferred && s'.order == s.order + [step.path];
    assert InLine(s');
    hide InLine, LoopApply;
  }

  /** Draining takes the delivery that has waited longest. */
  lemma ConclusionDrained(bodies: Bodies, s: State)
    requires ConclusionsKept(s) && LoopEnabled(bodies, s, Drain)
    ensures ConclusionsKept(LoopApply(bodies, s, Drain))
  {
    hide QueueConclusions, WorkerConclusion, LoopConclusion, OnceEach;
    var s' := LoopApply(bodies, s, Drain);
    assert PathsOf(s'.delivered) + PathsOf(s'.deliveries) == PathsOf(s.delivered) + PathsOf(s.deliveries);
    OnceEachOf(s, s');
  }

  lemma ConclusionsUntouched(bodies: Bodies, s: State, step: LoopStep)
    requires ConclusionsKept(s) && LoopEnabled(bodies, s, step)
    requires !step.PartSent? && !step.ConcludeSent? && !step.DeferCall? && !step.Drain?
    ensures ConclusionsKept(LoopApply(bodies, s, step))
  {
    hide ConclusionsKept;
    HookKeepsConclusions(bodies, s, step);
    hide LoopApply;
    KeptOf(s, LoopApply(bodies, s, step));
  }

  lemma HookKeepsConclusions(bodies: Bodies, s: State, step: LoopStep)
    requires LoopEnabled(bodies, s, step)
    requires !step.PartSent? && !step.ConcludeSent? && !step.DeferCall? && !step.Drain?
    ensures var s' := LoopApply(bodies, s, step);
      && s'.queue == s.queue && s'.worker == s.worker && s'.order == s.order && s'.deferred == s.deferred
      && s'.delivered == s.delivered && s'.deliveries == s.deliveries && !s.loop.Deferring? && !s'.loop.Deferring?
  {
    hide WriteAt, MayGive, MayDefer, Less;
  }

  lemma KeptOf(s: State, s': State)
    requires ConclusionsKept(s)
    requires s'.queue == s.queue && s'.order == s.order && s'.deferred == s.deferred
    requires s'.delivered == s.delivered && s'.deliveries == s.deliveries
    requires LoopConclusion(s'.loop) == LoopConclusion(s.loop)
    requires WorkerConclusion(s'.worker) == WorkerConclusion(s.worker)
    ensures ConclusionsKept(s')
  {
    hide PathsOf, QueueConclusions, LoopConclusion, WorkerConclusion;
  }

  lemma ConclusionsWorker(s: State, step: WorkerStep)
    requires ConclusionsKept(s) && WorkerEnabled(s, step)
    ensures ConclusionsKept(WorkerApply(s, step))
  {
    if step.Receive? { ConclusionReceived(s); }
    else if step.Deliver? { ConclusionDelivered(s); }
    else {
      WorkerKeepsConclusion(s, step);
      hide ConclusionsKept, WorkerApply;
      KeptOf(s, WorkerApply(s, step));
    }
    hide *;
  }

  lemma ConclusionReceived(s: State)
    requires ConclusionsKept(s) && WorkerEnabled(s, Receive)
    ensures ConclusionsKept(WorkerApply(s, Receive))
  {
    hide PathsOf, LoopConclusion, OnceEach;
    OnceEachOf(s, WorkerApply(s, Receive));
    assert WorkerConclusion(s.worker) == [];
  }

  lemma ConclusionDelivered(s: State)
    requires ConclusionsKept(s) && WorkerEnabled(s, Deliver)
    ensures ConclusionsKept(WorkerApply(s, Deliver))
  {
    hide QueueConclusions, LoopConclusion, OnceEach;
    var s' := WorkerApply(s, Deliver);
    assert PathsOf(s'.deliveries) == PathsOf(s.deliveries) + [s.worker.path];
    OnceEachOf(s, s');
  }

  lemma WorkerKeepsConclusion(s: State, step: WorkerStep)
    requires WorkerEnabled(s, step) && !step.Receive? && !step.Deliver?
    ensures var s' := WorkerApply(s, step);
      && s'.queue == s.queue && s'.loop == s.loop && s'.order == s.order && s'.deferred == s.deferred
      && s'.delivered == s.delivered && s'.deliveries == s.deliveries
      && WorkerConclusion(s'.worker) == WorkerConclusion(s.worker)
  {
    if step.ChooseFd? || step.WorkerWrite? {
      FileStepKeeps(s, step);
      hide WorkerApply;
    } else if WorkerWrites(s.worker) {
      WrittenKeepsConclusion(s, step);
      hide WorkerApply;
    } else {
      ReadingKeepsConclusion(s, step);
      hide WorkerApply;
    }
  }

  lemma WrittenKeepsConclusion(s: State, step: WorkerStep)
    requires WorkerEnabled(s, step) && (step.WriteDone? || step.FreeWritten? || step.UnchargeWritten?)
    ensures var s' := WorkerApply(s, step);
      && s'.queue == s.queue && s'.loop == s.loop && s'.order == s.order && s'.deferred == s.deferred
      && s'.delivered == s.delivered && s'.deliveries == s.deliveries
      && WorkerConclusion(s'.worker) == WorkerConclusion(s.worker)
  {
    hide Less;
  }

  lemma ReadingKeepsConclusion(s: State, step: WorkerStep)
    requires WorkerEnabled(s, step) && WorkerConcludes(s.worker) && !step.Deliver?
    ensures var s' := WorkerApply(s, step);
      && s'.queue == s.queue && s'.loop == s.loop && s'.order == s.order && s'.deferred == s.deferred
      && s'.delivered == s.delivered && s'.deliveries == s.deliveries
      && WorkerConclusion(s'.worker) == WorkerConclusion(s.worker)
  {
  }
}
