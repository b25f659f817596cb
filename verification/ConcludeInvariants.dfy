/** What every step of either task keeps. */
module ConcludeInvariants {
  import opened ByteFields
  import opened ConcludeProtocol

  type Bodies = map<Path, seq<byte>>

  // ----- the in-flight counter

  function Charge(job: Job): nat {
    if job.WritePart? then |job.part.data| else 0
  }

  function QueueCharge(queue: seq<Job>): nat {
    if queue == [] then 0 else Charge(queue[0]) + QueueCharge(queue[1..])
  }

  lemma {:induction false} QueueChargeAppend(queue: seq<Job>, job: Job)
    ensures QueueCharge(queue + [job]) == QueueCharge(queue) + Charge(job)
  {
    if queue != [] {
      QueueChargeAppend(queue[1..], job);
      assert (queue + [job])[1..] == queue[1..] + [job];
    }
  }

  function LoopCharge(loop: LoopPc): nat {
    if loop.Charged? || loop.Refused? then |loop.part.data| else 0
  }

  function WorkerCharge(worker: WorkerPc): nat {
    if worker.Choosing? || worker.Writing? || worker.Freeing? || worker.Uncharging? then |worker.part.data| else 0
  }

  /** Steps that only open or write a file. */
  lemma FileStepKeeps(s: State, step: WorkerStep)
    requires WorkerEnabled(s, step) && (step.ChooseFd? || step.WorkerWrite?)
    ensures var s' := WorkerApply(s, step);
      && s'.queue == s.queue && s'.loop == s.loop && s'.deferred == s.deferred && s'.removed == s.removed
      && s'.deliveries == s.deliveries && s'.heap == s.heap && s'.inflight == s.inflight
      && s'.given == s.given && s'.written == s.written && s'.worker.Writing? && s'.worker.part == s.worker.part
      && s'.order == s.order && s'.delivered == s.delivered
      && s'.worker.copy == s.worker.copy
      && (step.WorkerWrite? ==> s'.worker.done == s.worker.done + step.n)
      && (step.ChooseFd? ==> s'.worker.done == 0)
  {
    hide WriteAt, Truncated;
  }

  lemma InlineStepKeeps(bodies: Bodies, s: State, step: LoopStep)
    requires LoopEnabled(bodies, s, step) && (step.InlineOpen? || step.InlineWrite?)
    ensures var s' := LoopApply(bodies, s, step);
      && s'.queue == s.queue && s'.worker == s.worker && s'.deferred == s.deferred && s'.removed == s.removed
      && s'.deliveries == s.deliveries && s'.heap == s.heap && s'.inflight == s.inflight
      && s'.given == s.given && s'.written == s.written && s'.loop.InlineWriting? && s'.loop.part == s.loop.part
      && s'.order == s.order && s'.delivered == s.delivered
      && (step.InlineWrite? ==> s'.loop.done == s.loop.done + step.n)
      && (step.InlineOpen? ==> s'.loop.done == 0)
  {
    hide WriteAt;
  }

  /** The counter is exactly the bytes charged and not yet released, and under the cap. A copy that is not yet
      or no longer charged fits under the cap as well. */
  ghost predicate Accounting(s: State) {
    && s.inflight == QueueCharge(s.queue) + LoopCharge(s.loop) + WorkerCharge(s.worker) <= INFLIGHT_CAP
    && (s.loop.Copied? || s.loop.Uncharged? ==> s.inflight + |s.loop.part.data| <= INFLIGHT_CAP)
    && (s.loop.Checking? ==> |s.loop.part.data| + INFLIGHT_CAP < WORD)
  }

  lemma AccountingLoop(bodies: Bodies, s: State, step: LoopStep)
    requires Accounting(s) && LoopEnabled(bodies, s, step)
    ensures Accounting(LoopApply(bodies, s, step))
  {
    if step.PartSent? || step.ConcludeSent? { AccountingSent(bodies, s, step); }
    else if step.HookCall? || step.BudgetOk? { AccountingBudget(bodies, s, step); }
    else if step.JobMade? || step.Uncharge? { AccountingCharge(bodies, s, step); }
    else { AccountingHook(bodies, s, step); }
    hide *;
  }

  lemma AccountingBudget(bodies: Bodies, s: State, step: LoopStep)
    requires Accounting(s) && LoopEnabled(bodies, s, step) && (step.HookCall? || step.BudgetOk?)
    ensures Accounting(LoopApply(bodies, s, step))
  {
    hide WorkerCharge, QueueCharge;
  }

  /** The steps that change the counter. */
  lemma AccountingCharge(bodies: Bodies, s: State, step: LoopStep)
    requires Accounting(s) && LoopEnabled(bodies, s, step) && (step.JobMade? || step.Uncharge?)
    ensures Accounting(LoopApply(bodies, s, step))
  {
    hide WorkerCharge, QueueCharge;
  }

  lemma AccountingSent(bodies: Bodies, s: State, step: LoopStep)
    requires Accounting(s) && LoopEnabled(bodies, s, step) && (step.PartSent? || step.ConcludeSent?)
    ensures Accounting(LoopApply(bodies, s, step))
  {
    hide WorkerCharge, QueueCharge;
    if step.PartSent? {
      QueueChargeAppend(s.queue, JobOf(s.loop.part, s.loop.copy));
    } else {
      QueueChargeAppend(s.queue, Conclude(s.loop.path, s.loop.total));
    }
  }

  lemma AccountingHook(bodies: Bodies, s: State, step: LoopStep)
    requires Accounting(s) && LoopEnabled(bodies, s, step)
    requires !step.PartSent? && !step.ConcludeSent? && !step.HookCall? && !step.BudgetOk?
    requires !step.JobMade? && !step.Uncharge?
    ensures Accounting(LoopApply(bodies, s, step))
  {
    hide WriteAt, WorkerCharge, QueueCharge, MayGive, MayDefer, Less, WORD;
    if step.InlineOpen? || step.InlineWrite? {
      InlineStepKeeps(bodies, s, step);
      hide LoopApply;
    } else {
      hide Created, Written;
    }
  }

  lemma AccountingWorker(s: State, step: WorkerStep)
    requires Accounting(s) && WorkerEnabled(s, step)
    ensures Accounting(WorkerApply(s, step))
  {
    if step.Receive? { AccountingReceive(s); } else { AccountingOther(s, step); }
    hide *;
  }

  lemma AccountingReceive(s: State)
    requires Accounting(s) && WorkerEnabled(s, Receive)
    ensures Accounting(WorkerApply(s, Receive))
  {
    hide LoopCharge;
  }

  lemma AccountingOther(s: State, step: WorkerStep)
    requires Accounting(s) && WorkerEnabled(s, step) && !step.Receive?
    ensures Accounting(WorkerApply(s, step))
  {
    hide WriteAt, LoopCharge, QueueCharge, Truncated;
    if step.ChooseFd? || step.WorkerWrite? {
      FileStepKeeps(s, step);
      hide WorkerApply;
    }
  }

  /** The 32-bit comparison with the cap is right exactly when the sum does not wrap. */
  lemma BudgetTestExact(inflight: nat, len: nat)
    requires inflight <= INFLIGHT_CAP && len < WORD
    ensures ((inflight + len) % WORD <= INFLIGHT_CAP <==> inflight + len <= INFLIGHT_CAP)
       <==> inflight + len < WORD
  {
  }

  /** So a part passes the test exactly when with it at most 512 KiB are in flight. */
  lemma BudgetTested(bodies: Bodies, s: State, copy: nat)
    requires s.loop.Checking? && copy !in s.heap && s.inflight + |s.loop.part.data| < 0x1_0000_0000
    ensures LoopEnabled(bodies, s, BudgetOk(copy)) <==> s.inflight + |s.loop.part.data| <= 0x8_0000
  {
  }

  /** The worker holds the bus for at most 16 KiB of a file it reads back. */
  lemma SliceBounded(s: State, n: nat)
    requires WorkerEnabled(s, ReadSome(n))
    ensures 1 <= n <= 0x4000 && |s.worker.got| + n <= s.worker.total
  {
  }

  // ----- heap copies

  function LoopHolds(loop: LoopPc, c: nat): nat {
    if (loop.Copied? || loop.Charged? || loop.Refused? || loop.Uncharged?) && loop.copy == c then 1 else 0
  }

  function JobHolds(job: Job, c: nat): nat {
    if job.WritePart? && job.copy == c then 1 else 0
  }

  function QueueHolds(queue: seq<Job>, c: nat): nat {
    if queue == [] then 0 else JobHolds(queue[0], c) + QueueHolds(queue[1..], c)
  }

  lemma {:induction false} QueueHoldsAppend(queue: seq<Job>, job: Job, c: nat)
    ensures QueueHolds(queue + [job], c) == QueueHolds(queue, c) + JobHolds(job, c)
  {
    if queue != [] {
      QueueHoldsAppend(queue[1..], job, c);
      assert (queue + [job])[1..] == queue[1..] + [job];
    }
  }

  function WorkerHolds(worker: WorkerPc, c: nat): nat {
    if (worker.Choosing? || worker.Writing? || worker.Freeing?) && worker.copy == c then 1 else 0
  }

  /** Copy `c` is held in as many places as it is live: in one if it is live, in none otherwise. */
  predicate CopyHeld(s: State, c: nat) {
    s.heap[c] == LoopHolds(s.loop, c) + QueueHolds(s.queue, c) + WorkerHolds(s.worker, c) <= 1
  }

  /** The bytes of the copies held, wherever they are. */
  function LoopBytes(loop: LoopPc): nat {
    if loop.Copied? || loop.Charged? || loop.Refused? || loop.Uncharged? then |loop.part.data| else 0
  }

  function WorkerBytes(worker: WorkerPc): nat {
    if worker.Choosing? || worker.Writing? || worker.Freeing? then |worker.part.data| else 0
  }

  function LiveBytes(s: State): nat {
    LoopBytes(s.loop) + QueueCharge(s.queue) + WorkerBytes(s.worker)
  }

  /** While a copy is not yet or no longer charged, or freed but still charged, the counter is off by it. */
  lemma LiveUnderCap(s: State)
    requires Accounting(s)
    ensures LiveBytes(s) <= INFLIGHT_CAP
    ensures s.inflight + (if s.loop.Copied? || s.loop.Uncharged? then |s.loop.part.data| else 0)
      == LiveBytes(s) + if s.worker.Uncharging? then |s.worker.part.data| else 0
  {
  }

  lemma CopyHeldLoop(bodies: Bodies, s: State, step: LoopStep, c: nat)
    requires CopyHeld(s, c) && LoopEnabled(bodies, s, step)
    ensures CopyHeld(LoopApply(bodies, s, step), c)
    ensures (step.JobFailed? || step.FreeRefused?) && s.loop.copy == c ==> s.heap[c] == 1
  {
    hide CopyHeld, LoopApply, LoopEnabled;
    if step.BudgetOk? || step.JobFailed? || step.FreeRefused? {
      CopyHeldHeap(bodies, s, step, c);
    } else {
      CopyHeldOther(bodies, s, step, c);
    }
  }

  /** Steps that take or free a copy. */
  lemma CopyHeldHeap(bodies: Bodies, s: State, step: LoopStep, c: nat)
    requires CopyHeld(s, c) && LoopEnabled(bodies, s, step)
    requires step.BudgetOk? || step.JobFailed? || step.FreeRefused?
    ensures CopyHeld(LoopApply(bodies, s, step), c)
    ensures (step.JobFailed? || step.FreeRefused?) && s.loop.copy == c ==> s.heap[c] == 1
  {
    hide WorkerHolds, QueueHolds;
  }

  lemma CopyHeldOther(bodies: Bodies, s: State, step: LoopStep, c: nat)
    requires CopyHeld(s, c) && LoopEnabled(bodies, s, step)
    requires !step.BudgetOk? && !step.JobFailed? && !step.FreeRefused?
    ensures CopyHeld(LoopApply(bodies, s, step), c)
  {
    hide WriteAt, WorkerHolds, QueueHolds, MayGive, MayDefer;
    if step.PartSent? {
      QueueHoldsAppend(s.queue, JobOf(s.loop.part, s.loop.copy), c);
    } else if step.ConcludeSent? {
      QueueHoldsAppend(s.queue, Conclude(s.loop.path, s.loop.total), c);
    }
  }

  lemma CopyHeldWorker(s: State, step: WorkerStep, c: nat)
    requires CopyHeld(s, c) && WorkerEnabled(s, step)
    ensures CopyHeld(WorkerApply(s, step), c)
    ensures step.FreeWritten? && s.worker.copy == c ==> s.heap[c] == 1
  {
    hide WriteAt, LoopHolds, Less;
    if step.ChooseFd? || step.WorkerWrite? {
      FileStepKeeps(s, step);
      hide WorkerApply;
    } else if !step.Receive? {
      hide QueueHolds;
    }
  }

  // ----- every part is written once

  function LoopHas(loop: LoopPc, part: Part): nat {
    if !loop.LoopIdle? && !loop.Deferring? && loop.part == part then 1 else 0
  }

  function JobHas(job: Job, part: Part): nat {
    if job.WritePart? && job.part == part then 1 else 0
  }

  function QueueHas(queue: seq<Job>, part: Part): nat {
    if queue == [] then 0 else JobHas(queue[0], part) + QueueHas(queue[1..], part)
  }

  lemma {:induction false} QueueHasAppend(queue: seq<Job>, job: Job, part: Part)
    ensures QueueHas(queue + [job], part) == QueueHas(queue, part) + JobHas(job, part)
  {
    if queue != [] {
      QueueHasAppend(queue[1..], job, part);
      assert (queue + [job])[1..] == queue[1..] + [job];
    }
  }

  lemma {:induction false} QueueHasMember(queue: seq<Job>, i: nat)
    requires i < |queue| && queue[i].WritePart?
    ensures QueueHas(queue, queue[i].part) >= 1
  {
    if i > 0 { QueueHasMember(queue[1..], i - 1); }
  }

  lemma {:induction false} QueueHasSome(queue: seq<Job>, part: Part) returns (i: nat)
    requires QueueHas(queue, part) >= 1
    ensures i < |queue| && queue[i].WritePart? && queue[i].part == part
  {
    if JobHas(queue[0], part) == 1 {
      i := 0;
    } else {
      i := QueueHasSome(queue[1..], part);
      i := i + 1;
    }
  }

  function WorkerHas(worker: WorkerPc, part: Part): nat {
    if (worker.Choosing? || worker.Writing?) && worker.part == part then 1 else 0
  }

  /** As often as the part was given to the hook, it is written, or else queued or being written. */
  predicate Conserved(s: State, part: Part) {
    s.given[part] == s.written[part] + LoopHas(s.loop, part) + QueueHas(s.queue, part) + WorkerHas(s.worker, part)
  }

  /** A job names the file of its part exactly when the path leaves room for a terminator; a longer one is cut,
      and the part would go to another file than the one the inline fallback writes. */
  lemma JobKeepsPathIff(part: Part, copy: nat)
    ensures JobOf(part, copy).part == part <==> |part.path| < 96
  {
    assert |part.path| >= PATH_LEN ==> |Truncated(part.path)| == PATH_LEN - 1;
  }

  /** The part in the hook has a path that a job can hold. */
  ghost predicate ShortPath(s: State) {
    !s.loop.LoopIdle? && !s.loop.Deferring? ==> |s.loop.part.path| < PATH_LEN
  }

  lemma ConservedLoop(bodies: Bodies, s: State, step: LoopStep, part: Part)
    requires ShortPath(s) && Conserved(s, part) && LoopEnabled(bodies, s, step)
    ensures Conserved(LoopApply(bodies, s, step), part)
  {
    if step.PartSent? || step.ConcludeSent? { ConservedSent(bodies, s, step, part); }
    else { ConservedHook(bodies, s, step, part); }
    hide *;
  }

  lemma ConservedSent(bodies: Bodies, s: State, step: LoopStep, part: Part)
    requires ShortPath(s) && Conserved(s, part) && LoopEnabled(bodies, s, step)
    requires step.PartSent? || step.ConcludeSent?
    ensures Conserved(LoopApply(bodies, s, step), part)
  {
    hide WorkerHas, QueueHas;
    if step.PartSent? {
      QueueHasAppend(s.queue, JobOf(s.loop.part, s.loop.copy), part);
    } else {
      QueueHasAppend(s.queue, Conclude(s.loop.path, s.loop.total), part);
    }
  }

  lemma ConservedHook(bodies: Bodies, s: State, step: LoopStep, part: Part)
    requires Conserved(s, part) && LoopEnabled(bodies, s, step) && !step.PartSent? && !step.ConcludeSent?
    ensures Conserved(LoopApply(bodies, s, step), part)
  {
    hide WriteAt, WorkerHas, QueueHas, MayGive, MayDefer, Less;
  }

  lemma ConservedWorker(s: State, step: WorkerStep, part: Part)
    requires Conserved(s, part) && WorkerEnabled(s, step)
    ensures Conserved(WorkerApply(s, step), part)
  {
    hide Conserved, WorkerApply, WorkerEnabled;
    if step.Receive? { ConservedReceive(s, part); }
    else if step.WriteDone? { ConservedWritten(s, part); }
    else { ConservedOther(s, step, part); }
  }

  lemma ConservedReceive(s: State, part: Part)
    requires Conserved(s, part) && WorkerEnabled(s, Receive)
    ensures Conserved(WorkerApply(s, Receive), part)
  {
    hide LoopHas;
  }

  lemma ConservedWritten(s: State, part: Part)
    requires Conserved(s, part) && WorkerEnabled(s, WriteDone)
    ensures Conserved(WorkerApply(s, WriteDone), part)
  {
    hide LoopHas, QueueHas;
  }

  lemma ConservedOther(s: State, step: WorkerStep, part: Part)
    requires Conserved(s, part) && WorkerEnabled(s, step) && !step.Receive? && !step.WriteDone?
    ensures Conserved(WorkerApply(s, step), part)
  {
    hide WriteAt, LoopHas, QueueHas, Truncated, Less;
    if step.ChooseFd? || step.WorkerWrite? {
      FileStepKeeps(s, step);
      hide WorkerApply;
    }
  }
}
