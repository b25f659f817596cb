/** The invariant of every run, and what follows from it. */
module ConcludeTheorems {
  import opened ByteFields
  import opened ConcludeProtocol
  import opened ConcludeInvariants
  import opened ConcludeOrder
  import opened ConcludeFiles
  import opened ConcludeContents
  import opened ConcludeConclusions

  lemma WholeLoop(bodies: Bodies, s: State, step: LoopStep, path: Path, total: nat, got: seq<byte>)
    requires LoopEnabled(bodies, s, step) && path in s.deferred && Whole(s, path, total, got)
    ensures Whole(LoopApply(bodies, s, step), path, total, got)
  {
    hide WriteAt, Holds;
  }

  lemma ReadingLoop(bodies: Bodies, s: State, step: LoopStep)
    requires LoopEnabled(bodies, s, step) && NamesFit(s) && InlineFdFits(s) && WorkerFdFits(s) && ConclusionSettled(s)
    requires s.worker.Reading?
    ensures s.worker.inode < |s.files| && s.worker.inode < |LoopApply(bodies, s, step).files|
    ensures LoopApply(bodies, s, step).files[s.worker.inode] == s.files[s.worker.inode]
  {
    hide WriteAt, MayGive, MayDefer;
  }

  lemma ReadBackLoop(bodies: Bodies, s: State, step: LoopStep)
    requires LoopEnabled(bodies, s, step) && NamesFit(s) && InlineFdFits(s) && WorkerFdFits(s) && Ordered(s)
    requires ReadBack(bodies, s)
    ensures ReadBack(bodies, LoopApply(bodies, s, step))
  {
    hide WriteAt, Whole, MayGive, NamesFit, InlineFdFits, WorkerFdFits, Created, Written, Settled, QueueOrdered,
         HookOpen;
    var s' := LoopApply(bodies, s, step);
    LoopFrame(bodies, s, step);
    if s.worker.Reading? { ReadingLoop(bodies, s, step); }
    if s.worker.Discarding? || s.worker.Delivering? {
      WholeLoop(bodies, s, step, s.worker.path, s.worker.total, s.worker.got);
    }
    forall d | d in s.deliveries ensures Whole(s', d.path, d.total, d.got) {
      WholeLoop(bodies, s, step, d.path, d.total, d.got);
    }
    QueueLoop(bodies, s, step);
  }

  lemma QueueLoop(bodies: Bodies, s: State, step: LoopStep)
    requires LoopEnabled(bodies, s, step) && ReadBack(bodies, s)
    ensures var s' := LoopApply(bodies, s, step);
      && (forall i :: 0 <= i < |s'.queue| && s'.queue[i].Conclude? ==>
            s'.queue[i].path in bodies && s'.queue[i].total == |bodies[s'.queue[i].path]|)
      && (s'.loop.Deferring? ==> s'.loop.path in bodies && s'.loop.total == |bodies[s'.loop.path]|)
      && (forall d :: d in s'.deliveries ==> d in s.deliveries)
  {
    hide WriteAt, Whole, MayGive;
  }

  lemma ReadBackWorker(bodies: Bodies, s: State, step: WorkerStep)
    requires WorkerEnabled(s, step) && WorkerFdFits(s) && ConclusionSettled(s) && NamesFit(s)
    requires AllConserved(s) && WrittenStored(s) && GivenCut(bodies, s)
    requires ReadBack(bodies, s)
    ensures ReadBack(bodies, WorkerApply(s, step))
  {
    hide WriteAt, WrittenStored, GivenCut, AllConserved, ConclusionSettled, Whole, NamesFit, WorkerFdFits;
    var s' := WorkerApply(s, step);
    forall path, total: nat, got | Whole(s, path, total, got) ensures Whole(s', path, total, got) {
      WholeWorker(s, step, path, total, got);
    }
    if step.ReadOpen? {
      if s.worker.total == 0 || s.worker.path !in s.names { WholeAfterOpen(bodies, s); }
      else { NameInFiles(s, s.worker.path); }
    } else if step.ReadEnd? {
      WholeAfterRead(bodies, s);
    } else {
      ReadBackOther(bodies, s, step);
    }
  }

  lemma ReadBackOther(bodies: Bodies, s: State, step: WorkerStep)
    requires WorkerEnabled(s, step) && ReadBack(bodies, s) && !step.ReadOpen? && !step.ReadEnd?
    requires forall path, total: nat, got ::
      Whole(s, path, total, got) ==> Whole(WorkerApply(s, step), path, total, got)
    ensures ReadBack(bodies, WorkerApply(s, step))
  {
    hide Whole, ReadBack, WorkerApply, WorkerEnabled;
    if step.Receive? || step.Deliver? {
      ReadBackQueues(bodies, s, step);
    } else {
      ReadBackRest(bodies, s, step);
    }
  }

  lemma ReadBackQueues(bodies: Bodies, s: State, step: WorkerStep)
    requires WorkerEnabled(s, step) && ReadBack(bodies, s) && (step.Receive? || step.Deliver?)
    requires forall path, total: nat, got ::
      Whole(s, path, total, got) ==> Whole(WorkerApply(s, step), path, total, got)
    ensures ReadBack(bodies, WorkerApply(s, step))
  {
    hide Whole;
  }

  lemma ReadBackRest(bodies: Bodies, s: State, step: WorkerStep)
    requires WorkerEnabled(s, step) && ReadBack(bodies, s)
    requires !step.ReadOpen? && !step.ReadEnd? && !step.Receive? && !step.Deliver?
    requires forall path, total: nat, got ::
      Whole(s, path, total, got) ==> Whole(WorkerApply(s, step), path, total, got)
    ensures ReadBack(bodies, WorkerApply(s, step))
  {
    hide Whole, WorkerApply, WorkerEnabled;
    WorkerOnly(s, step);
  }

  /** The steps in which the worker leaves the queues and loopTask alone. */
  lemma WorkerOnly(s: State, step: WorkerStep)
    requires WorkerEnabled(s, step)
    requires !step.ReadOpen? && !step.ReadEnd? && !step.Receive? && !step.Deliver?
    ensures var s' := WorkerApply(s, step);
      && s'.queue == s.queue && s'.deliveries == s.deliveries && s'.loop == s.loop
      && (WorkerConcludes(s'.worker) ==>
           WorkerConcludes(s.worker) && s'.worker.path == s.worker.path && s'.worker.total == s.worker.total)
      && (s'.worker.Reading? ==>
           && s.worker.Reading? && s'.worker.inode == s.worker.inode && s'.files == s.files
           && (s.worker.inode < |s.files| && |s.worker.got| <= s.worker.total
               && s.worker.got <= s.files[s.worker.inode] ==>
                |s'.worker.got| <= s.worker.total && s'.worker.got <= s.files[s.worker.inode]))
      && (s'.worker.Discarding? || s'.worker.Delivering? ==>
           (s.worker.Discarding? || s.worker.Delivering?) && s'.worker.got == s.worker.got)
  {
    WorkerKeepsQueues(s, step);
    WorkerKeepsJob(s, step);
    WorkerReadsOn(s, step);
    hide *;
  }

  lemma WorkerKeepsQueues(s: State, step: WorkerStep)
    requires WorkerEnabled(s, step) && !step.Receive? && !step.Deliver?
    ensures var s' := WorkerApply(s, step);
      s'.queue == s.queue && s'.deliveries == s.deliveries && s'.loop == s.loop
  {
    hide WriteAt, Truncated, Less;
  }

  lemma WorkerKeepsJob(s: State, step: WorkerStep)
    requires WorkerEnabled(s, step) && !step.Receive?
    ensures var s' := WorkerApply(s, step);
      && (WorkerConcludes(s'.worker) ==>
           WorkerConcludes(s.worker) && s'.worker.path == s.worker.path && s'.worker.total == s.worker.total)
      && (!step.ReadOpen? && !step.ReadEnd? && (s'.worker.Discarding? || s'.worker.Delivering?) ==>
           (s.worker.Discarding? || s.worker.Delivering?) && s'.worker.got == s.worker.got)
  {
    if WorkerConcludes(s.worker) {
      hide WriteAt, Truncated;
    } else {
      WritingConcludesNothing(s, step);
      hide WorkerApply, WorkerEnabled;
    }
  }

  lemma WritingConcludesNothing(s: State, step: WorkerStep)
    requires WorkerEnabled(s, step) && !step.Receive? && !WorkerConcludes(s.worker)
    ensures !WorkerConcludes(WorkerApply(s, step).worker)
  {
    hide WriteAt, Truncated, Less;
  }

  lemma WorkerReadsOn(s: State, step: WorkerStep)
    requires WorkerEnabled(s, step) && !step.ReadOpen? && !step.Receive?
    ensures var s' := WorkerApply(s, step);
      s'.worker.Reading? ==>
           && s.worker.Reading? && s'.worker.inode == s.worker.inode && s'.files == s.files
           && (s.worker.inode < |s.files| && |s.worker.got| <= s.worker.total
               && s.worker.got <= s.files[s.worker.inode] ==>
                |s'.worker.got| <= s.worker.total && s'.worker.got <= s.files[s.worker.inode])
  {
    hide WriteAt, Truncated, Less;
  }

  lemma NameInFiles(s: State, path: Path)
    requires NamesFit(s) && path in s.names
    ensures s.names[path] < |s.files|
  {
  }

  lemma WholeWorker(s: State, step: WorkerStep, path: Path, total: nat, got: seq<byte>)
    requires WorkerEnabled(s, step) && Whole(s, path, total, got)
    ensures Whole(WorkerApply(s, step), path, total, got)
  {
    hide WorkerApply, Holds;
    WorkerFrame(s, step);
  }

  // ----- what has been delivered

  /** Every resource delivered had its whole body or what of it was given. */
  ghost predicate DeliveredComplete(bodies: Bodies, s: State) {
    forall d :: d in s.delivered ==>
      && d.path in s.deferred && d.path in s.removed
      && d.path in bodies && d.total == |bodies[d.path]| && Whole(s, d.path, d.total, d.got)
  }

  lemma DeliveredLoop(bodies: Bodies, s: State, step: LoopStep)
    requires DeliveredComplete(bodies, s) && LoopEnabled(bodies, s, step)
    requires ReadBack(bodies, s) && RemovedSettled(s)
    ensures DeliveredComplete(bodies, LoopApply(bodies, s, step))
  {
    hide Whole, Settled, LoopEnabled;
    var s' := LoopApply(bodies, s, step);
    LoopDelivers(bodies, s, step);
    hide LoopApply;
    forall d | d in s'.delivered
      ensures d.path in s'.deferred && d.path in s'.removed && d.path in bodies && d.total == |bodies[d.path]|
      ensures Whole(s', d.path, d.total, d.got)
    {
      assert d in s.delivered || d in s.deliveries;
      WholeLoop(bodies, s, step, d.path, d.total, d.got);
    }
  }

  /** Only draining delivers, and what was next in line. */
  lemma LoopDelivers(bodies: Bodies, s: State, step: LoopStep)
    requires LoopEnabled(bodies, s, step)
    ensures step.Drain? ==> s.deliveries != []
    ensures var s' := LoopApply(bodies, s, step);
      && s'.delivered == s.delivered + (if step.Drain? then [s.deliveries[0]] else [])
      && s.deferred <= s'.deferred && s'.removed == s.removed
  {
    hide WriteAt, MayGive, MayDefer, JobOf, Less;
    if step.InlineOpen? || step.InlineWrite? {
      InlineStepKeeps(bodies, s, step);
      hide LoopApply;
    } else {
      hide Created, Written;
    }
  }

  lemma DeliveredWorker(bodies: Bodies, s: State, step: WorkerStep)
    requires DeliveredComplete(bodies, s) && WorkerEnabled(s, step)
    ensures DeliveredComplete(bodies, WorkerApply(s, step))
  {
    hide Whole, WorkerEnabled, WorkerApply;
    WorkerDelivers(s, step);
    forall d | d in s.delivered ensures Whole(WorkerApply(s, step), d.path, d.total, d.got) {
      WholeWorker(s, step, d.path, d.total, d.got);
    }
  }

  lemma WorkerDelivers(s: State, step: WorkerStep)
    requires WorkerEnabled(s, step)
    ensures WorkerApply(s, step).delivered == s.delivered && WorkerApply(s, step).deferred == s.deferred
    ensures s.removed <= WorkerApply(s, step).removed
  {
    if step.Receive? || step.Deliver? {
      hide Taken;
    } else {
      WorkerKeepsConclusion(s, step);
      WorkerRemoves(s, step);
      hide WorkerApply;
    }
  }

  // ----- the invariant

  ghost predicate Inv(bodies: Bodies, s: State) {
    && Accounting(s) && (forall c :: CopyHeld(s, c))
    && PathsShort(s) && AllConserved(s) && Ordered(s)
    && NamesFit(s) && WorkerFdFits(s) && InlineFdFits(s)
    && GivenCut(bodies, s) && WrittenStored(s) && ReadBack(bodies, s)
    && ConclusionsKept(s) && DeliveredComplete(bodies, s)
    && |s.queue| <= QUEUE_DEPTH && |s.deliveries| <= QUEUE_DEPTH
  }

  lemma InvInit(bodies: Bodies)
    ensures Inv(bodies, Init())
  {
    ConclusionsInit();
    hide ConclusionsKept;
  }

  lemma QueueBoundKept(bodies: Bodies, s: State, step: Step)
    requires Enabled(bodies, s, step) && |s.queue| <= QUEUE_DEPTH && |s.deliveries| <= QUEUE_DEPTH
    ensures |Apply(bodies, s, step).queue| <= QUEUE_DEPTH && |Apply(bodies, s, step).deliveries| <= QUEUE_DEPTH
  {
    match step
    case OfLoop(l) => QueueBoundLoop(bodies, s, l);
    case OfWorker(w) => QueueBoundWorker(s, w);
    hide LoopApply, LoopEnabled, WorkerApply, WorkerEnabled;
  }

  lemma QueueBoundLoop(bodies: Bodies, s: State, step: LoopStep)
    requires LoopEnabled(bodies, s, step) && |s.queue| <= QUEUE_DEPTH && |s.deliveries| <= QUEUE_DEPTH
    ensures |LoopApply(bodies, s, step).queue| <= QUEUE_DEPTH
    ensures |LoopApply(bodies, s, step).deliveries| <= QUEUE_DEPTH
  {
    hide WriteAt, MayGive, MayDefer, JobOf, Less;
  }

  lemma QueueBoundWorker(s: State, step: WorkerStep)
    requires WorkerEnabled(s, step) && |s.queue| <= QUEUE_DEPTH && |s.deliveries| <= QUEUE_DEPTH
    ensures |WorkerApply(s, step).queue| <= QUEUE_DEPTH && |WorkerApply(s, step).deliveries| <= QUEUE_DEPTH
  {
    hide WriteAt, Taken, Less;
  }

  lemma InvLoop(bodies: Bodies, s: State, step: LoopStep)
    requires Inv(bodies, s) && LoopEnabled(bodies, s, step)
    ensures Inv(bodies, LoopApply(bodies, s, step))
  {
    hide Accounting, CopyHeld, ShortPath, Conserved, QueueOrdered, HookOpen, ConclusionSettled, RemovedSettled,
         NamesFit, WorkerFdFits, InlineFdFits, GivenCut, WrittenStored, ReadBack, ConclusionsKept, DeliveredComplete,
         LoopApply, LoopEnabled;
    var s' := LoopApply(bodies, s, step);
    AccountingLoop(bodies, s, step);
    forall c ensures CopyHeld(s', c) { CopyHeldLoop(bodies, s, step, c); }
    PathsShortKept(bodies, s, OfLoop(step));
    forall part ensures Conserved(s', part) { ConservedLoop(bodies, s, step, part); }
    OrderedLoop(bodies, s, step);
    NamesLoop(bodies, s, step);
    WorkerFdLoop(bodies, s, step);
    InlineFdLoop(bodies, s, step);
    GivenCutLoop(bodies, s, step);
    WrittenLoop(bodies, s, step);
    ReadBackLoop(bodies, s, step);
    ConclusionsLoop(bodies, s, step);
    DeliveredLoop(bodies, s, step);
    QueueBoundKept(bodies, s, OfLoop(step));
  }

  lemma GivenCutWorker(bodies: Bodies, s: State, step: WorkerStep)
    requires GivenCut(bodies, s) && WorkerEnabled(s, step)
    ensures GivenCut(bodies, WorkerApply(s, step))
  {
    WorkerFrame(s, step);
  }

  lemma InvWorker(bodies: Bodies, s: State, step: WorkerStep)
    requires Inv(bodies, s) && WorkerEnabled(s, step)
    ensures Inv(bodies, WorkerApply(s, step))
  {
    hide Accounting, CopyHeld, ShortPath, Conserved, QueueOrdered, HookOpen, ConclusionSettled, RemovedSettled,
         NamesFit, WorkerFdFits, InlineFdFits, GivenCut, WrittenStored, ReadBack, ConclusionsKept, DeliveredComplete,
         WorkerApply, WorkerEnabled;
    var s' := WorkerApply(s, step);
    AccountingWorker(s, step);
    forall c ensures CopyHeld(s', c) { CopyHeldWorker(s, step, c); }
    PathsShortKept(bodies, s, OfWorker(step));
    forall part ensures Conserved(s', part) { ConservedWorker(s, step, part); }
    OrderedWorker(s, step);
    NamesWorker(s, step);
    WorkerFdWorker(s, step);
    InlineFdWorker(s, step);
    GivenCutWorker(bodies, s, step);
    WrittenWorker(bodies, s, step);
    ReadBackWorker(bodies, s, step);
    ConclusionsWorker(s, step);
    DeliveredWorker(bodies, s, step);
    QueueBoundKept(bodies, s, OfWorker(step));
  }

  /** The invariant holds in every state of every run. */
  lemma {:induction false} InvRun(bodies: Bodies, states: seq<State>, steps: seq<Step>, k: nat)
    requires Run(bodies, states, steps) && k < |states|
    ensures Inv(bodies, states[k])
  {
    hide Inv, LoopApply, WorkerApply, LoopEnabled, WorkerEnabled;
    if k == 0 {
      InvInit(bodies);
    } else {
      InvRun(bodies, states, steps, k - 1);
      match steps[k - 1]
      case OfLoop(l) => InvLoop(bodies, states[k - 1], l);
      case OfWorker(w) => InvWorker(bodies, states[k - 1], w);
    }
  }

  // ----- what it means

  /** When the worker starts reading a concluded resource back, its file holds every part ever given to
      the hook for it, and none is on its way. */
  lemma ConcludeReadsCompleteFile(bodies: Bodies, states: seq<State>, steps: seq<Step>, k: nat, part: Part)
    requires Run(bodies, states, steps) && k < |states| && states[k].worker.ReadOpening?
    requires part in states[k].given && part.path == states[k].worker.path
    ensures StoredIn(states[k], part.path, part.offset, part.data)
    ensures part in states[k].written && Settled(states[k], part.path)
  {
    hide Holds, Conserved, Settled, WrittenStored;
    InvRun(bodies, states, steps, k);
    CompleteAtReadOpen(bodies, states[k], part);
    SettledWritten(states[k], part);
  }

  /** Parts cover a body when every byte of it is in one of them. */
  ghost predicate Covered(bodies: Bodies, s: State, path: Path)
    requires path in bodies
  {
    forall k: nat :: k < |bodies[path]| ==> CoveredAt(s, path, k)
  }

  ghost predicate CoveredAt(s: State, path: Path, k: nat) {
    exists part :: part in s.given && part.path == path && part.offset <= k < part.offset + |part.data|
  }

  /** What is delivered contains every part; if the parts cover the body, it is the body. */
  lemma DeliveredWhole(bodies: Bodies, states: seq<State>, steps: seq<Step>, k: nat, d: Delivery)
    requires Run(bodies, states, steps) && k < |states|
    requires d in states[k].deliveries || d in states[k].delivered
    ensures Whole(states[k], d.path, d.total, d.got)
    ensures d.path in bodies && d.total == |bodies[d.path]| && d.path !in states[k].names
    ensures Covered(bodies, states[k], d.path) ==> d.got == bodies[d.path]
  {
    var s := states[k];
    InvRun(bodies, states, steps, k);
    if Covered(bodies, s, d.path) {
      CoveredBody(bodies, s, d.path, d.total, d.got);
    }
  }

  lemma CoveredBody(bodies: Bodies, s: State, path: Path, total: nat, got: seq<byte>)
    requires GivenCut(bodies, s) && Whole(s, path, total, got)
    requires path in bodies && total == |bodies[path]| && Covered(bodies, s, path)
    ensures got == bodies[path]
  {
    var body := bodies[path];
    forall k: nat | k < |body| ensures ByteAt(got, k, body[k]) {
      assert CoveredAt(s, path, k);
      var part :| part in s.given && part.path == path && part.offset <= k < part.offset + |part.data|;
      assert ByteAt(got, part.offset + (k - part.offset), part.data[k - part.offset]);
    }
    if total > 0 { assert ByteAt(got, total - 1, body[total - 1]); }
    assert |got| == |body|;
    forall k | 0 <= k < |body| ensures got[k] == body[k] {
      assert ByteAt(got, k, body[k]);
    }
  }

  /** In every state each resource deferred is in just one place: with the deferrer, in the queue, with the worker,
      waiting for loopTask, or delivered; the places in line hold them in the order of deferral. */
  lemma ConclusionsInLine(bodies: Bodies, states: seq<State>, steps: seq<Step>, k: nat)
    requires Run(bodies, states, steps) && k < |states|
    ensures ConclusionsKept(states[k])
    ensures |states[k].delivered| + |states[k].deliveries| <= |states[k].order| == |states[k].deferred|
  {
    InvRun(bodies, states, steps, k);
    hide Inv, Accounting, Ordered, ReadBack, DeliveredComplete, PathsOf;
    SizeOfOrder(states[k].order, states[k].deferred);
  }

  lemma {:induction false} SizeOfOrder(order: seq<Path>, deferred: set<Path>)
    requires forall p :: p in order <==> p in deferred
    requires forall i, j :: 0 <= i < j < |order| ==> order[i] != order[j]
    ensures |order| == |deferred|
  {
    if order != [] {
      var front, last := order[..|order| - 1], order[|order| - 1];
      assert order == front + [last];
      SizeOfOrder(front, deferred - {last});
    } else {
      assert deferred == {};
    }
  }

  /** In-flight memory: the counter is what is charged, and the bytes of all live copies, each held in one place,
      never exceed the cap. */
  lemma InflightExact(bodies: Bodies, states: seq<State>, steps: seq<Step>, k: nat)
    requires Run(bodies, states, steps) && k < |states|
    ensures states[k].inflight
         == QueueCharge(states[k].queue) + LoopCharge(states[k].loop) + WorkerCharge(states[k].worker)
    ensures states[k].inflight <= INFLIGHT_CAP
    ensures LiveBytes(states[k]) <= 0x8_0000
    ensures forall c :: CopyHeld(states[k], c)
    ensures var s := states[k];
      s.inflight + (if s.loop.Copied? || s.loop.Uncharged? then |s.loop.part.data| else 0)
        == LiveBytes(s) + if s.worker.Uncharging? then |s.worker.part.data| else 0
  {
    hide CopyHeld, PathsShort, Conserved, Ordered, NamesFit, WorkerFdFits, InlineFdFits, GivenCut, WrittenStored,
         ReadBack;
    InvRun(bodies, states, steps, k);
    LiveUnderCap(states[k]);
  }

  /** At rest, each part has been written as often as it was given, and no copy is left. */
  lemma QuiescentClean(bodies: Bodies, states: seq<State>, steps: seq<Step>, k: nat)
    requires Run(bodies, states, steps) && k < |states|
    requires states[k].loop.LoopIdle? && states[k].worker.WorkerIdle? && states[k].queue == []
    ensures states[k].written == states[k].given && states[k].heap == multiset{} && states[k].inflight == 0
  {
    hide PathsShort, Ordered, NamesFit, WorkerFdFits, InlineFdFits, GivenCut, WrittenStored, ReadBack;
    var s := states[k];
    InvRun(bodies, states, steps, k);
    forall part ensures s.written[part] == s.given[part] {
      assert Conserved(s, part);
    }
    forall c ensures s.heap[c] == 0 {
      assert CopyHeld(s, c);
    }
  }
}
