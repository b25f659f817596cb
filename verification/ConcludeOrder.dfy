/** One queue in order: when the worker takes up a conclusion, nothing of that resource is left behind. */
module ConcludeOrder {
  import opened ConcludeProtocol
  import opened ConcludeInvariants

  function PathOf(job: Job): Path {
    if job.WritePart? then job.part.path else job.path
  }

  /** The resource loopTask is busy with. */
  predicate LoopOn(loop: LoopPc, path: Path) {
    if loop.LoopIdle? then false else if loop.Deferring? then loop.path == path else loop.part.path == path
  }

  predicate InHook(loop: LoopPc) {
    !loop.LoopIdle? && !loop.Deferring?
  }

  predicate WorkerWrites(worker: WorkerPc) {
    worker.Choosing? || worker.Writing? || worker.Freeing? || worker.Uncharging?
  }

  predicate WorkerConcludes(worker: WorkerPc) {
    worker.Closing? || worker.ReadOpening? || worker.Reading? || worker.Discarding? || worker.Delivering?
  }

  /** Nothing of a resource is queued, written or in the hook. */
  ghost predicate Settled(s: State, path: Path) {
    && !LoopOn(s.loop, path)
    && (WorkerWrites(s.worker) ==> s.worker.part.path != path)
    && (forall i :: 0 <= i < |s.queue| ==> PathOf(s.queue[i]) != path)
  }

  ghost predicate QueueOrdered(s: State) {
    && (forall i, j :: 0 <= i < j < |s.queue| && s.queue[i].Conclude? ==> PathOf(s.queue[j]) != s.queue[i].path)
    && (forall i :: 0 <= i < |s.queue| && s.queue[i].Conclude? ==>
          s.queue[i].path in s.deferred && s.queue[i].path !in s.removed && !LoopOn(s.loop, s.queue[i].path))
  }

  ghost predicate HookOpen(s: State) {
    && (InHook(s.loop) ==> s.loop.part.path !in s.deferred)
    && (s.loop.Deferring? ==> s.loop.path in s.deferred && s.loop.path !in s.removed)
  }

  ghost predicate ConclusionSettled(s: State) {
    WorkerConcludes(s.worker) ==>
      && s.worker.path in s.deferred
      && (s.worker.path in s.removed <==> s.worker.Delivering?)
      && Settled(s, s.worker.path)
  }

  ghost predicate RemovedSettled(s: State) {
    && (forall p :: p in s.removed ==> p in s.deferred && Settled(s, p))
    && (forall d :: d in s.deliveries ==> d.path in s.removed)
  }

  /** First in, first out keeps every conclusion behind the parts of its resource. */
  ghost predicate Ordered(s: State) {
    QueueOrdered(s) && HookOpen(s) && ConclusionSettled(s) && RemovedSettled(s)
  }

  lemma OrderedLoop(bodies: Bodies, s: State, step: LoopStep)
    requires Ordered(s) && ShortPath(s) && LoopEnabled(bodies, s, step)
    ensures Ordered(LoopApply(bodies, s, step))
  {
    hide WriteAt, MayGive;
    OrderedLoopQueue(bodies, s, step);
    OrderedLoopRest(bodies, s, step);
  }

  lemma OrderedLoopQueue(bodies: Bodies, s: State, step: LoopStep)
    requires Ordered(s) && ShortPath(s) && LoopEnabled(bodies, s, step)
    ensures QueueOrdered(LoopApply(bodies, s, step)) && HookOpen(LoopApply(bodies, s, step))
  {
    hide Ordered, ShortPath, LoopApply, LoopEnabled, QueueOrdered, HookOpen;
    if step.PartSent? || step.ConcludeSent? {
      OrderedLoopSends(bodies, s, step);
    } else {
      OrderedLoopOther(bodies, s, step);
    }
  }

  lemma OrderedLoopSends(bodies: Bodies, s: State, step: LoopStep)
    requires Ordered(s) && ShortPath(s) && LoopEnabled(bodies, s, step)
    requires step.PartSent? || step.ConcludeSent?
    ensures QueueOrdered(LoopApply(bodies, s, step)) && HookOpen(LoopApply(bodies, s, step))
  {
    hide Settled, ConclusionSettled, RemovedSettled;
  }

  lemma OrderedLoopOther(bodies: Bodies, s: State, step: LoopStep)
    requires Ordered(s) && LoopEnabled(bodies, s, step)
    requires !step.PartSent? && !step.ConcludeSent?
    ensures QueueOrdered(LoopApply(bodies, s, step)) && HookOpen(LoopApply(bodies, s, step))
  {
    hide Settled, ConclusionSettled, LoopApply, LoopEnabled, LoopOn, InHook;
    LoopMoves(bodies, s, step);
  }

  /** Steps of loopTask that send nothing: it stays with its resource, or takes up one that has not been
      deferred. */
  lemma LoopMoves(bodies: Bodies, s: State, step: LoopStep)
    requires LoopEnabled(bodies, s, step) && !step.PartSent? && !step.ConcludeSent?
    ensures var s' := LoopApply(bodies, s, step);
      && s'.queue == s.queue && s'.removed == s.removed && s.deferred <= s'.deferred
      && (forall p :: LoopOn(s'.loop, p) && p in s.deferred ==> LoopOn(s.loop, p))
      && (InHook(s'.loop) ==>
           && s'.deferred == s.deferred
           && (s'.loop.part.path !in s.deferred || (InHook(s.loop) && s'.loop.part == s.loop.part)))
      && (s'.loop.Deferring? ==>
           && s'.loop.path in s'.deferred
           && (s'.loop.path !in s.deferred || (s.loop.Deferring? && s'.loop.path == s.loop.path)))
  {
    hide WriteAt, Less;
    if step.InlineOpen? || step.InlineWrite? {
      InlineStepKeeps(bodies, s, step);
      hide LoopApply;
    }
  }

  lemma OrderedLoopRest(bodies: Bodies, s: State, step: LoopStep)
    requires Ordered(s) && ShortPath(s) && LoopEnabled(bodies, s, step)
    ensures ConclusionSettled(LoopApply(bodies, s, step)) && RemovedSettled(LoopApply(bodies, s, step))
  {
    hide Settled, LoopApply, LoopEnabled, QueueOrdered, ShortPath;
    var s' := LoopApply(bodies, s, step);
    LoopKeepsWorker(bodies, s, step);
    forall p | p in s.deferred && Settled(s, p) ensures Settled(s', p) {
      SettledLoop(bodies, s, step, p);
    }
  }

  /** What loopTask leaves to the worker. */
  lemma LoopKeepsWorker(bodies: Bodies, s: State, step: LoopStep)
    requires LoopEnabled(bodies, s, step)
    ensures var s' := LoopApply(bodies, s, step);
      s'.worker == s.worker && s'.removed == s.removed && s.deferred <= s'.deferred
      && forall d :: d in s'.deliveries ==> d in s.deliveries
  {
    hide WriteAt, MayGive, MayDefer;
  }

  lemma SettledLoop(bodies: Bodies, s: State, step: LoopStep, p: Path)
    requires HookOpen(s) && ShortPath(s) && LoopEnabled(bodies, s, step)
    requires p in s.deferred && Settled(s, p)
    ensures Settled(LoopApply(bodies, s, step), p)
  {
    hide WriteAt;
  }

  lemma SettledWorker(s: State, step: WorkerStep, p: Path)
    requires WorkerEnabled(s, step) && Settled(s, p)
    ensures Settled(WorkerApply(s, step), p)
  {
    hide WriteAt, LoopOn;
  }

  lemma OrderedWorker(s: State, step: WorkerStep)
    requires Ordered(s) && WorkerEnabled(s, step)
    ensures Ordered(WorkerApply(s, step))
  {
    hide QueueOrdered, HookOpen, ConclusionSettled, RemovedSettled, WorkerApply;
    OrderedWorkerQueue(s, step);
    OrderedWorkerConclusion(s, step);
    OrderedWorkerRemoved(s, step);
  }

  lemma OrderedWorkerQueue(s: State, step: WorkerStep)
    requires QueueOrdered(s) && HookOpen(s) && ConclusionSettled(s) && WorkerEnabled(s, step)
    ensures QueueOrdered(WorkerApply(s, step)) && HookOpen(WorkerApply(s, step))
  {
    hide QueueOrdered, HookOpen, ConclusionSettled, WorkerApply, WorkerEnabled;
    if step.Receive? {
      OrderedWorkerReceive(s);
    } else {
      OrderedWorkerOther(s, step);
    }
  }

  lemma OrderedWorkerReceive(s: State)
    requires QueueOrdered(s) && HookOpen(s) && WorkerEnabled(s, Receive)
    ensures QueueOrdered(WorkerApply(s, Receive)) && HookOpen(WorkerApply(s, Receive))
  {
    hide LoopOn;
  }

  lemma OrderedWorkerOther(s: State, step: WorkerStep)
    requires QueueOrdered(s) && HookOpen(s) && ConclusionSettled(s) && WorkerEnabled(s, step) && !step.Receive?
    ensures QueueOrdered(WorkerApply(s, step)) && HookOpen(WorkerApply(s, step))
  {
    hide WorkerApply, LoopOn;
    WorkerRemoves(s, step);
    LoopOnItsOwn(s.loop);
  }

  lemma LoopOnItsOwn(loop: LoopPc)
    ensures loop.Deferring? ==> LoopOn(loop, loop.path)
  {
  }

  lemma WorkerRemoves(s: State, step: WorkerStep)
    requires WorkerEnabled(s, step) && !step.Receive?
    ensures var s' := WorkerApply(s, step);
      && s'.queue == s.queue && s'.loop == s.loop && s'.deferred == s.deferred
      && s'.removed == if step.Discard? then s.removed + {s.worker.path} else s.removed
  {
    hide WorkerApply;
    if step.ChooseFd? || step.WorkerWrite? { FileStepKeeps(s, step); }
    else if WorkerWrites(s.worker) { WritingKeeps(s, step); }
    else { ConcludingRemoves(s, step); }
  }

  lemma WritingKeeps(s: State, step: WorkerStep)
    requires WorkerEnabled(s, step) && (step.WriteDone? || step.FreeWritten? || step.UnchargeWritten?)
    ensures var s' := WorkerApply(s, step);
      && s'.queue == s.queue && s'.loop == s.loop && s'.deferred == s.deferred && s'.removed == s.removed
  {
    hide Less;
  }

  lemma ConcludingRemoves(s: State, step: WorkerStep)
    requires WorkerEnabled(s, step) && WorkerConcludes(s.worker)
    ensures var s' := WorkerApply(s, step);
      && s'.queue == s.queue && s'.loop == s.loop && s'.deferred == s.deferred
      && s'.removed == if step.Discard? then s.removed + {s.worker.path} else s.removed
  {
  }

  lemma OrderedWorkerConclusion(s: State, step: WorkerStep)
    requires QueueOrdered(s) && ConclusionSettled(s) && WorkerEnabled(s, step)
    ensures ConclusionSettled(WorkerApply(s, step))
  {
    hide QueueOrdered, WorkerApply, WorkerEnabled, ConclusionSettled;
    if step.Receive? {
      ReceiveSettles(s);
    } else {
      SettlementKept(s, step);
    }
  }

  lemma ReceiveSettles(s: State)
    requires QueueOrdered(s) && WorkerEnabled(s, Receive)
    ensures ConclusionSettled(WorkerApply(s, Receive))
  {
    hide LoopOn;
    if s.queue[0].Conclude? {
      forall i | 0 <= i < |s.queue[1..]| ensures PathOf(s.queue[1..][i]) != s.queue[0].path {
        assert s.queue[1..][i] == s.queue[i + 1];
      }
    }
  }

  lemma SettlementKept(s: State, step: WorkerStep)
    requires ConclusionSettled(s) && WorkerEnabled(s, step) && !step.Receive?
    ensures ConclusionSettled(WorkerApply(s, step))
  {
    hide WriteAt, Settled;
    if WorkerConcludes(s.worker) { SettledWorker(s, step, s.worker.path); }
  }

  lemma OrderedWorkerRemoved(s: State, step: WorkerStep)
    requires ConclusionSettled(s) && RemovedSettled(s) && WorkerEnabled(s, step)
    ensures RemovedSettled(WorkerApply(s, step))
  {
    forall p | Settled(s, p) ensures Settled(WorkerApply(s, step), p) {
      SettledWorker(s, step, p);
    }
    hide Settled;
    if !step.Receive? {
      WorkerRemoves(s, step);
      hide WorkerApply;
    }
  }
}
