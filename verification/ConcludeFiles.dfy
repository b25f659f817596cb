/** What the files hold: every written part, and so, when a resource concludes, all of it. */
module ConcludeFiles {
  import opened ByteFields
  import opened ConcludeProtocol
  import opened ConcludeInvariants
  import opened ConcludeOrder

  predicate ByteAt(file: seq<byte>, k: nat, b: byte) {
    k < |file| && file[k] == b
  }

  /** The file has `data` at `offset`. */
  ghost predicate Holds(file: seq<byte>, offset: nat, data: seq<byte>) {
    forall i :: 0 <= i < |data| ==> ByteAt(file, offset + i, data[i])
  }

  /** The bytes are those of the body at `offset`. */
  predicate Cut(body: seq<byte>, offset: nat, data: seq<byte>) {
    offset + |data| <= |body| && data == body[offset..offset + |data|]
  }

  lemma WriteHolds(file: seq<byte>, offset: nat, bytes: seq<byte>)
    ensures Holds(WriteAt(file, offset, bytes), offset, bytes)
  {
  }

  /** Writing true bytes leaves true bytes in place. */
  lemma WriteKeeps(body: seq<byte>, file: seq<byte>, offset: nat, bytes: seq<byte>, at: nat, data: seq<byte>)
    requires Cut(body, offset, bytes) && Cut(body, at, data) && Holds(file, at, data)
    ensures Holds(WriteAt(file, offset, bytes), at, data)
  {
    hide WriteAt;
    var file' := WriteAt(file, offset, bytes);
    forall i | 0 <= i < |data| ensures ByteAt(file', at + i, data[i]) {
      assert data[i] == body[at + i] && ByteAt(file, at + i, data[i]);
      WriteAtLength(file, offset, bytes);
      WriteAtByte(file, offset, bytes, at + i);
      if offset <= at + i < offset + |bytes| { assert bytes[at + i - offset] == body[at + i]; }
    }
  }

  /** A write changes its own stretch of the file; what lay before the end stays, and a gap is zero. */
  lemma WriteAtByte(file: seq<byte>, offset: nat, bytes: seq<byte>, k: nat)
    requires k < |WriteAt(file, offset, bytes)|
    ensures WriteAt(file, offset, bytes)[k]
      == if offset <= k < offset + |bytes| then bytes[k - offset] else if k < |file| then file[k] else 0
  {
  }

  lemma WriteAtLength(file: seq<byte>, offset: nat, bytes: seq<byte>)
    ensures |WriteAt(file, offset, bytes)| == if |file| < offset + |bytes| then offset + |bytes| else |file|
  {
  }

  /** The next stretch of a part extends what is written of it. */
  lemma WriteExtends(body: seq<byte>, file: seq<byte>, offset: nat, data: seq<byte>, done: nat, n: nat)
    requires Cut(body, offset, data) && done + n <= |data| && Holds(file, offset, data[..done])
    ensures Holds(WriteAt(file, offset + done, data[done..done + n]), offset, data[..done + n])
  {
    hide WriteAt;
    var more := data[done..done + n];
    var file' := WriteAt(file, offset + done, more);
    WriteHolds(file, offset + done, more);
    var upTo := data[..done + n];
    forall i | 0 <= i < |upTo| ensures ByteAt(file', offset + i, upTo[i]) {
      if i < done {
        assert data[..done][i] == upTo[i];
        WriteAtLength(file, offset + done, more);
        WriteAtByte(file, offset + done, more, offset + i);
      } else {
        assert more[i - done] == upTo[i];
      }
    }
  }

  lemma SubCut(body: seq<byte>, offset: nat, data: seq<byte>, done: nat, n: nat)
    requires Cut(body, offset, data) && done + n <= |data|
    ensures Cut(body, offset + done, data[done..done + n])
  {
    SliceOfSlice(body, offset, |data|, done, n);
  }

  // ----- names and descriptors

  ghost predicate NamesFit(s: State) {
    && (forall p :: p in s.names ==> s.names[p] < |s.files| && p !in s.removed)
    && (forall p, q :: p in s.names && q in s.names && p != q ==> s.names[p] != s.names[q])
  }

  /** No descriptor outlives its file: the worker's cached one is for a file still there. */
  ghost predicate WorkerFdFits(s: State) {
    && (s.curFd.Some? ==> s.curPath in s.names && s.names[s.curPath] == s.curFd.value)
    && (WorkerConcludes(s.worker) && !s.worker.Closing? ==> s.curFd.None?)
    && (s.worker.Writing? ==> s.curFd.Some? && s.curPath == s.worker.part.path && s.worker.done <= |s.worker.part.data|)
    && (s.worker.Reading? ==> s.worker.path in s.names && s.names[s.worker.path] == s.worker.inode)
  }

  ghost predicate InlineFdFits(s: State) {
    s.loop.InlineWriting? ==>
      && s.loop.part.path in s.names && s.names[s.loop.part.path] == s.loop.inode
      && s.loop.done <= |s.loop.part.data|
  }

  /** Paths in jobs are not cut short. */
  ghost predicate PathsShort(s: State) {
    && ShortPath(s)
    && (forall i :: 0 <= i < |s.queue| && s.queue[i].WritePart? ==> |s.queue[i].part.path| < PATH_LEN)
    && (WorkerWrites(s.worker) ==> |s.worker.part.path| < PATH_LEN)
  }

  lemma PathsShortKept(bodies: Bodies, s: State, step: Step)
    requires PathsShort(s) && Enabled(bodies, s, step)
    ensures PathsShort(Apply(bodies, s, step))
  {
    hide PathsShort, LoopApply, WorkerApply, LoopEnabled, WorkerEnabled;
    match step
    case OfLoop(l) => PathsShortLoop(bodies, s, l);
    case OfWorker(w) => PathsShortWorker(s, w);
  }

  lemma PathsShortLoop(bodies: Bodies, s: State, step: LoopStep)
    requires PathsShort(s) && LoopEnabled(bodies, s, step)
    ensures PathsShort(LoopApply(bodies, s, step))
  {
    hide WriteAt, WorkerWrites;
  }

  lemma PathsShortWorker(s: State, step: WorkerStep)
    requires PathsShort(s) && WorkerEnabled(s, step)
    ensures PathsShort(WorkerApply(s, step))
  {
    hide WriteAt;
  }

  lemma NamesLoop(bodies: Bodies, s: State, step: LoopStep)
    requires NamesFit(s) && RemovedSettled(s) && LoopEnabled(bodies, s, step)
    ensures NamesFit(LoopApply(bodies, s, step))
  {
    hide NamesFit, RemovedSettled, LoopApply, LoopEnabled;
    if step.InlineOpen? { NamesInline(bodies, s); } else { NamesOther(bodies, s, step); }
  }

  lemma NamesInline(bodies: Bodies, s: State)
    requires NamesFit(s) && RemovedSettled(s) && LoopEnabled(bodies, s, InlineOpen)
    ensures NamesFit(LoopApply(bodies, s, InlineOpen))
  {
    assert LoopOn(s.loop, s.loop.part.path);
  }

  lemma NamesOther(bodies: Bodies, s: State, step: LoopStep)
    requires NamesFit(s) && LoopEnabled(bodies, s, step) && !step.InlineOpen?
    ensures NamesFit(LoopApply(bodies, s, step))
  {
    hide WriteAt, MayGive;
  }

  lemma NamesWorker(s: State, step: WorkerStep)
    requires NamesFit(s) && RemovedSettled(s) && WorkerEnabled(s, step)
    ensures NamesFit(WorkerApply(s, step))
  {
    hide NamesFit, RemovedSettled, WorkerApply, WorkerEnabled;
    if step.ChooseFd? || step.Discard? { NamesChange(s, step); } else { NamesStay(s, step); }
  }

  lemma NamesChange(s: State, step: WorkerStep)
    requires NamesFit(s) && RemovedSettled(s) && WorkerEnabled(s, step) && (step.ChooseFd? || step.Discard?)
    ensures NamesFit(WorkerApply(s, step))
  {
    hide LoopOn;
  }

  lemma NamesStay(s: State, step: WorkerStep)
    requires NamesFit(s) && WorkerEnabled(s, step) && !step.ChooseFd? && !step.Discard?
    ensures NamesFit(WorkerApply(s, step))
  {
    hide WriteAt;
  }

  lemma WorkerFdLoop(bodies: Bodies, s: State, step: LoopStep)
    requires WorkerFdFits(s) && LoopEnabled(bodies, s, step)
    ensures WorkerFdFits(LoopApply(bodies, s, step))
  {
    hide WriteAt, MayGive, MayDefer;
    var s' := LoopApply(bodies, s, step);
    assert forall p :: p in s.names ==> p in s'.names && s'.names[p] == s.names[p];
  }

  lemma WorkerFdWorker(s: State, step: WorkerStep)
    requires WorkerFdFits(s) && PathsShort(s) && WorkerEnabled(s, step)
    ensures WorkerFdFits(WorkerApply(s, step))
  {
    hide WorkerFdFits, PathsShort, WorkerApply, WorkerEnabled;
    if step.ChooseFd? { WorkerFdChoose(s); } else { WorkerFdOther(s, step); }
  }

  lemma WorkerFdChoose(s: State)
    requires WorkerFdFits(s) && PathsShort(s) && WorkerEnabled(s, ChooseFd)
    ensures WorkerFdFits(WorkerApply(s, ChooseFd))
  {
  }

  lemma WorkerFdOther(s: State, step: WorkerStep)
    requires WorkerFdFits(s) && WorkerEnabled(s, step) && !step.ChooseFd?
    ensures WorkerFdFits(WorkerApply(s, step))
  {
    hide WorkerFdFits, WorkerApply, WorkerEnabled;
    if WorkerWrites(s.worker) || s.worker.WorkerIdle? {
      WorkerFdWrites(s, step);
    } else {
      WorkerFdConcludes(s, step);
    }
  }

  lemma WorkerFdWrites(s: State, step: WorkerStep)
    requires WorkerFdFits(s) && WorkerEnabled(s, step) && !step.ChooseFd?
    requires WorkerWrites(s.worker) || s.worker.WorkerIdle?
    ensures WorkerFdFits(WorkerApply(s, step))
  {
    hide WriteAt;
  }

  lemma WorkerFdConcludes(s: State, step: WorkerStep)
    requires WorkerFdFits(s) && WorkerEnabled(s, step) && WorkerConcludes(s.worker)
    ensures WorkerFdFits(WorkerApply(s, step))
  {
    hide WriteAt;
  }

  lemma InlineFdLoop(bodies: Bodies, s: State, step: LoopStep)
    requires InlineFdFits(s) && LoopEnabled(bodies, s, step)
    ensures InlineFdFits(LoopApply(bodies, s, step))
  {
    hide WriteAt, MayGive, MayDefer;
  }

  lemma InlineFdWorker(s: State, step: WorkerStep)
    requires InlineFdFits(s) && ConclusionSettled(s) && WorkerEnabled(s, step)
    ensures InlineFdFits(WorkerApply(s, step))
  {
    hide WriteAt;
  }
}
