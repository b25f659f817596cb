/** Who can be stuck: the one deadlock of the protocol, how many undrained conclusions it takes, and a
    run that gets there. */
module ConcludeProgress {
  import opened Wrappers
  import opened ByteFields
  import opened ConcludeProtocol
  import opened ConcludeInvariants
  import opened ConcludeOrder
  import opened ConcludeFiles
  import opened ConcludeContents
  import opened ConcludeTheorems

  function QueuedConclusions(queue: seq<Job>): nat {
    if queue == [] then 0 else (if queue[0].Conclude? then 1 else 0) + QueuedConclusions(queue[1..])
  }

  /** Resources handed to the deferrer and not yet drained. */
  function Undrained(s: State): nat {
    QueuedConclusions(s.queue) + |s.deliveries|
    + (if WorkerConcludes(s.worker) then 1 else 0) + (if s.loop.Deferring? then 1 else 0)
  }

  /** Both tasks wait in a blocking send: each for room that only the other makes. */
  predicate BothStuck(s: State) {
    && s.loop.Deferring? && |s.queue| >= QUEUE_DEPTH
    && s.worker.Delivering? && |s.deliveries| >= QUEUE_DEPTH
  }

  predicate AtRest(s: State) {
    s.loop.LoopIdle? && s.worker.WorkerIdle? && s.queue == [] && s.deliveries == []
  }

  /** A step that needs nothing from outside. */
  predicate Internal(step: Step) {
    step.OfLoop? ==> !step.loop.HookCall? && !step.loop.DeferCall?
  }

  ghost predicate CanProceed(bodies: Bodies, s: State) {
    exists step :: Internal(step) && Enabled(bodies, s, step)
  }

  /** In every state of every run the tasks have something to do, unless they are done or both stuck;
      and both stuck, neither can do anything. */
  lemma DeadlockOnlyBothStuck(bodies: Bodies, states: seq<State>, steps: seq<Step>, k: nat)
    requires Run(bodies, states, steps) && k < |states|
    ensures !CanProceed(bodies, states[k]) <==> AtRest(states[k]) || BothStuck(states[k])
  {
    var s := states[k];
    InvRun(bodies, states, steps, k);
    if AtRest(s) || BothStuck(s) {
      NoStep(bodies, s);
    } else {
      var step := SomeStep(bodies, s);
    }
  }

  lemma NoStep(bodies: Bodies, s: State)
    requires AtRest(s) || BothStuck(s)
    ensures !CanProceed(bodies, s)
  {
    hide MayGive, MayDefer;
  }

  lemma SomeStep(bodies: Bodies, s: State) returns (step: Step)
    requires Inv(bodies, s) && !AtRest(s) && !BothStuck(s)
    ensures Internal(step) && Enabled(bodies, s, step)
  {
    hide CopyHeld, Conserved, Ordered, GivenCut, WrittenStored, PathsShort;
    if LoopReady(s) {
      var l := LoopNext(bodies, s);
      step := OfLoop(l);
    } else {
      var w := WorkerNext(bodies, s);
      step := OfWorker(w);
    }
  }

  predicate LoopReady(s: State) {
    if s.loop.LoopIdle? then s.deliveries != []
    else if s.loop.Deferring? then |s.queue| < QUEUE_DEPTH
    else true
  }

  lemma LoopNext(bodies: Bodies, s: State) returns (step: LoopStep)
    requires NamesFit(s) && InlineFdFits(s) && LoopReady(s)
    ensures LoopEnabled(bodies, s, step) && !step.HookCall? && !step.DeferCall?
  {
    match s.loop
    case LoopIdle => step := Drain;
    case Checking(_) => step := BudgetOver;
    case Copied(_, _) => step := JobMade;
    case Charged(_, _) => step := if |s.queue| < QUEUE_DEPTH then PartSent else PartRefused;
    case Refused(_, _) => step := Uncharge;
    case Uncharged(_, _) => step := FreeRefused;
    case Opening(_) => step := InlineOpen;
    case InlineWriting(part, _, done) => step := if done < |part.data| then InlineWrite(1) else InlineClose;
    case Deferring(_, _) => step := ConcludeSent;
  }

  lemma WorkerNext(bodies: Bodies, s: State) returns (step: WorkerStep)
    requires NamesFit(s) && WorkerFdFits(s) && ReadBack(bodies, s)
    requires !LoopReady(s) && !AtRest(s) && !BothStuck(s) && |s.queue| <= QUEUE_DEPTH
    ensures WorkerEnabled(s, step)
  {
    match s.worker
    case WorkerIdle => step := Receive;
    case Choosing(_, _) => step := ChooseFd;
    case Writing(part, _, done) => step := if done < |part.data| then WorkerWrite(1) else WriteDone;
    case Freeing(_, _) => step := FreeWritten;
    case Uncharging(_) => step := UnchargeWritten;
    case Closing(_, _) => step := CloseFd;
    case ReadOpening(_, _) => step := ReadOpen;
    case Reading(_, total, inode, got) =>
      step := if |got| < total && |got| < |s.files[inode]| then ReadSome(1) else ReadEnd;
    case Discarding(_, _, _) => step := Discard;
    case Delivering(_, _, _) => step := Deliver;
  }

  /** With at most one conclusion more than the queue depth undrained, the sends never block for good. */
  lemma FewUndrainedNeverStuck(bodies: Bodies, states: seq<State>, steps: seq<Step>, k: nat)
    requires Run(bodies, states, steps) && k < |states| && Undrained(states[k]) <= 49
    ensures AtRest(states[k]) || CanProceed(bodies, states[k])
  {
    DeadlockOnlyBothStuck(bodies, states, steps, k);
  }

  // ----- one conclusion more, and both can be stuck

  ghost predicate Reachable(bodies: Bodies, s: State) {
    exists states, steps :: Run(bodies, states, steps) && states[|states| - 1] == s
  }

  lemma ReachInit(bodies: Bodies)
    ensures Reachable(bodies, Init())
  {
    assert Run(bodies, [Init()], []);
  }

  lemma ReachStep(bodies: Bodies, s: State, step: Step)
    requires Reachable(bodies, s) && Enabled(bodies, s, step)
    ensures Reachable(bodies, Apply(bodies, s, step))
  {
    hide Enabled, Apply, Init;
    var states, steps :| Run(bodies, states, steps) && states[|states| - 1] == s;
    var states', steps' := states + [Apply(bodies, s, step)], steps + [step];
    forall i | 0 <= i < |steps'|
      ensures Enabled(bodies, states'[i], steps'[i]) && states'[i + 1] == Apply(bodies, states'[i], steps'[i])
    {
      if i < |steps| { assert states'[i] == states[i] && states'[i + 1] == states[i + 1]; }
    }
    assert Run(bodies, states', steps');
  }

  /** Distinct short paths, one per resource. */
  function Name(i: nat): Path {
    seq(i + 1, _ => 'r')
  }

  /** Fifty-one resources of one byte. */
  function Resources(): Bodies {
    map i | 0 <= i <= 50 :: Name(i) := [0]
  }

  lemma NamesDiffer(i: nat, j: nat)
    ensures Name(i) == Name(j) ==> i == j
  {
    assert |Name(i)| == i + 1 && |Name(j)| == j + 1;
  }

  lemma ResourceAt(i: nat)
    requires i <= 50
    ensures Name(i) in Resources() && Resources()[Name(i)] == [0] && 0 < |Name(i)| < PATH_LEN
  {
  }

  /** The part with all of resource `i`. */
  function WholePart(i: nat): Part {
    Part(Name(i), 0, [0])
  }

  /** Nothing under way; of the resources, the first `k` are deferred, and `n` of them concluded but not drained. */
  ghost predicate Waiting(s: State, k: nat, n: nat) {
    && Reachable(Resources(), s)
    && s.loop.LoopIdle? && s.queue == [] && |s.deliveries| == n
    && s.inflight == 0 && s.heap == multiset{} && s.curFd == None
    && forall j: nat :: k <= j ==> Name(j) !in s.deferred && Name(j) !in s.names
  }

  /** The part of resource `i` is given and queued. */
  lemma PartQueued(s: State, i: nat, copy: nat) returns (s': State)
    requires Reachable(Resources(), s) && i <= 50 && Name(i) !in s.deferred && s.loop.LoopIdle?
    requires copy !in s.heap && s.inflight < INFLIGHT_CAP && |s.queue| < QUEUE_DEPTH
    ensures Reachable(Resources(), s')
    ensures s' == s.(queue := s.queue + [WritePart(WholePart(i), copy)], inflight := s.inflight + 1,
                     heap := s.heap + multiset{copy}, given := s.given + multiset{WholePart(i)})
  {
    hide Reachable, Resources, Name;
    var bodies := Resources();
    ResourceAt(i);
    s' := DoLoop(bodies, s, HookCall(WholePart(i)));
    s' := DoLoop(bodies, s', BudgetOk(copy));
    s' := DoLoop(bodies, s', JobMade);
    s' := DoLoop(bodies, s', PartSent);
  }

  /** The body of resource `k` reaches its file through the queue. */
  lemma BodyWritten(s: State, k: nat) returns (s': State)
    requires k < 50 && Waiting(s, k, k) && s.worker.WorkerIdle?
    ensures Reachable(Resources(), s') && s'.loop.LoopIdle? && s'.worker.WorkerIdle? && s'.queue == []
    ensures s'.deliveries == s.deliveries && s'.deferred == s.deferred && s'.inflight == 0 && s'.heap == multiset{}
    ensures Name(k) in s'.names && s'.names == s.names[Name(k) := s'.names[Name(k)]]
    ensures s'.names[Name(k)] < |s'.files| && |s'.files[s'.names[Name(k)]]| >= 1
  {
    hide Reachable, Resources, Name, WriteAt;
    s' := PartQueued(s, k, 0);
    LongEnough([], 0, [0]);
    s' := WrittenOut(s', WholePart(k), 0);
  }

  /** The worker writes a queued part of one byte to a new file. */
  lemma WrittenOut(s: State, part: Part, copy: nat) returns (s': State)
    requires Reachable(Resources(), s) && s.worker.WorkerIdle? && s.queue == [WritePart(part, copy)]
    requires |part.data| == 1 && part.path !in s.names && s.curFd == None && 1 <= s.inflight < WORD
    ensures Reachable(Resources(), s')
    ensures var file := WriteAt([], part.offset, part.data);
      s'.(curFd := None, curPath := s.curPath)
        == s.(queue := [], names := s.names[part.path := |s.files|], files := s.files + [file],
              written := s.written + multiset{part}, heap := s.heap - multiset{copy}, inflight := s.inflight - 1)
  {
    hide Reachable, Resources, WriteAt;
    var bodies := Resources();
    s' := DoWorker(bodies, s, Receive);
    s' := DoWorker(bodies, s', ChooseFd);
    s' := DoWorker(bodies, s', WorkerWrite(1));
    assert part.data[0..1] == part.data;
    s' := Released(s');
  }

  lemma Released(s: State) returns (s': State)
    requires Reachable(Resources(), s) && s.worker.Writing? && s.worker.done >= |s.worker.part.data|
    requires |s.worker.part.data| <= s.inflight < WORD
    ensures Reachable(Resources(), s')
    ensures var part := s.worker.part;
      s' == s.(worker := WorkerIdle, written := s.written + multiset{part},
               heap := s.heap - multiset{s.worker.copy}, inflight := s.inflight - |part.data|)
  {
    hide Reachable, Resources;
    var bodies := Resources();
    s' := DoWorker(bodies, s, WriteDone);
    s' := DoWorker(bodies, s', FreeWritten);
    s' := DoWorker(bodies, s', UnchargeWritten);
  }

  lemma LongEnough(file: seq<byte>, offset: nat, bytes: seq<byte>)
    ensures |WriteAt(file, offset, bytes)| >= offset + |bytes|
  {
  }

  /** One more resource concludes, up to its delivery. */
  lemma OneMoreConclusion(s: State, k: nat) returns (s': State)
    requires k < 50 && Waiting(s, k, k) && s.worker.WorkerIdle?
    ensures Waiting(s', k + 1, k) && s'.worker.Delivering?
  {
    hide Reachable, Resources, Name, WorkerEnabled, WorkerApply;
    var bodies := Resources();
    ResourceAt(k);
    forall j: nat | k + 1 <= j ensures Name(j) != Name(k) { NamesDiffer(k, j); }
    s' := BodyWritten(s, k);
    s' := DoLoop(bodies, s', DeferCall(Name(k), 1));
    s' := DoLoop(bodies, s', ConcludeSent);
    s' := TakenBack(s', Name(k));
  }

  lemma TakenBack(s: State, path: Path) returns (s': State)
    requires Reachable(Resources(), s) && s.worker.WorkerIdle? && s.queue == [Conclude(path, 1)]
    requires path in s.names && s.names[path] < |s.files| && |s.files[s.names[path]]| >= 1
    ensures Reachable(Resources(), s') && s'.worker.Delivering?
    ensures s'.(worker := s.worker, removed := s.removed)
      == s.(queue := [], curFd := None, curPath := "", names := s.names - {path})
  {
    hide Reachable, Resources, LoopEnabled, LoopApply;
    var bodies := Resources();
    s' := DoWorker(bodies, s, Receive);
    s' := DoWorker(bodies, s', CloseFd);
    s' := DoWorker(bodies, s', ReadOpen);
    s' := DoWorker(bodies, s', ReadSome(1));
    s' := DoWorker(bodies, s', ReadEnd);
    s' := DoWorker(bodies, s', Discard);
  }

  lemma DoLoop(bodies: Bodies, s: State, step: LoopStep) returns (s': State)
    requires Reachable(bodies, s) && LoopEnabled(bodies, s, step)
    ensures Reachable(bodies, s') && s' == LoopApply(bodies, s, step)
  {
    hide LoopApply, LoopEnabled;
    ReachStep(bodies, s, OfLoop(step));
    s' := LoopApply(bodies, s, step);
  }

  lemma DoWorker(bodies: Bodies, s: State, step: WorkerStep) returns (s': State)
    requires Reachable(bodies, s) && WorkerEnabled(s, step)
    ensures Reachable(bodies, s') && s' == WorkerApply(s, step)
  {
    hide WorkerApply, WorkerEnabled;
    ReachStep(bodies, s, OfWorker(step));
    s' := WorkerApply(s, step);
  }

  lemma {:induction false} ManyConclusions(k: nat) returns (s: State)
    requires k <= QUEUE_DEPTH
    ensures Waiting(s, k, k) && s.worker.WorkerIdle?
  {
    hide WriteAt, Reachable, Resources;
    if k == 0 {
      ReachInit(Resources());
      s := Init();
    } else {
      s := ManyConclusions(k - 1);
      s := OneMoreConclusion(s, k - 1);
      s := DoWorker(Resources(), s, Deliver);
    }
  }

  /** The queue full of part writes, with the worker stuck and the delivery queue full. */
  lemma {:induction false} FillQueue(k: nat) returns (s: State)
    requires k <= QUEUE_DEPTH
    ensures Reachable(Resources(), s) && s.loop.LoopIdle? && s.worker.Delivering?
    ensures |s.queue| == k && |s.deliveries| == QUEUE_DEPTH && QueuedConclusions(s.queue) == 0 && s.inflight == k
    ensures forall c :: k <= c ==> s.heap[c] == 0
    ensures Name(49) !in s.deferred && Name(50) !in s.deferred
  {
    hide Reachable, Resources, Name;
    if k == 0 {
      s := ManyConclusions(QUEUE_DEPTH);
      s := OneMoreConclusion(s, QUEUE_DEPTH);
    } else {
      s := FillQueue(k - 1);
      NoConclusionAppended(s.queue, WritePart(WholePart(50), k - 1));
      s := PartQueued(s, 50, k - 1);
    }
  }

  lemma {:induction false} NoConclusionAppended(queue: seq<Job>, job: Job)
    requires job.WritePart?
    ensures QueuedConclusions(queue + [job]) == QueuedConclusions(queue)
  {
    if queue != [] {
      NoConclusionAppended(queue[1..], job);
      assert (queue + [job])[1..] == queue[1..] + [job];
    }
  }

  /** The bound is sharp: with one conclusion more, a run ends with both tasks stuck for good. */
  lemma DeadlockIsReachable() returns (s: State)
    ensures Reachable(Resources(), s) && BothStuck(s) && Undrained(s) == 50
    ensures !CanProceed(Resources(), s)
  {
    hide WriteAt, Reachable, Resources, CanProceed;
    s := FillQueue(QUEUE_DEPTH);
    ResourceAt(49);
    s := DoLoop(Resources(), s, DeferCall(Name(49), 1));
    NoStep(Resources(), s);
  }
}
