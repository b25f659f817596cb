/** What is in the files at every moment of a run, and what the worker reads back. */
module ConcludeContents {
  import opened ByteFields
  import opened ConcludeProtocol
  import opened ConcludeInvariants
  import opened ConcludeOrder
  import opened ConcludeFiles

  /** Parts given to the hook are cut from their resource's body. */
  ghost predicate GivenCut(bodies: Bodies, s: State) {
    forall part :: part in s.given ==> part.path in bodies && Cut(bodies[part.path], part.offset, part.data)
  }

  ghost predicate StoredIn(s: State, path: Path, offset: nat, data: seq<byte>) {
    path in s.names && s.names[path] < |s.files| && Holds(s.files[s.names[path]], offset, data)
  }

  ghost predicate AllConserved(s: State) {
    forall part :: Conserved(s, part)
  }

  /** What has been written is there until the file is removed, and so is what is half written. */
  ghost predicate WrittenStored(s: State) {
    && (forall part :: part in s.written && part.path !in s.removed ==> StoredIn(s, part.path, part.offset, part.data))
    && (s.worker.Writing? ==> HalfStored(s, s.worker.part, s.worker.done))
    && (s.loop.InlineWriting? ==> HalfStored(s, s.loop.part, s.loop.done))
  }

  ghost predicate HalfStored(s: State, part: Part, done: nat) {
    done <= |part.data| && StoredIn(s, part.path, part.offset, part.data[..done])
  }

  lemma StoredAfterWrite(
    bodies: Bodies, s: State, q: Path, o: nat, bytes: seq<byte>, p: Path, offset: nat, data: seq<byte>)
    requires NamesFit(s) && q in s.names && q in bodies && p in bodies
    requires Cut(bodies[q], o, bytes) && Cut(bodies[p], offset, data) && StoredIn(s, p, offset, data)
    ensures StoredIn(Written(s, s.names[q], o, bytes), p, offset, data)
  {
    hide WriteAt, Holds;
    if p == q {
      WriteKeeps(bodies[q], s.files[s.names[q]], o, bytes, offset, data);
    }
  }

  lemma StoredAfterCreate(s: State, q: Path, p: Path, offset: nat, data: seq<byte>)
    requires NamesFit(s) && StoredIn(s, p, offset, data)
    ensures StoredIn(Created(s, q), p, offset, data)
  {
  }

  lemma LoopPartGiven(s: State)
    requires InHook(s.loop) && Conserved(s, s.loop.part)
    ensures s.loop.part in s.given
  {
  }

  lemma WorkerPartGiven(s: State)
    requires (s.worker.Choosing? || s.worker.Writing?) && Conserved(s, s.worker.part)
    ensures s.worker.part in s.given
  {
  }

  /** A step of loopTask leaves stored what is stored. */
  lemma StoredLoop(bodies: Bodies, s: State, step: LoopStep, p: Path, offset: nat, data: seq<byte>)
    requires NamesFit(s) && InlineFdFits(s) && GivenCut(bodies, s) && AllConserved(s) && LoopEnabled(bodies, s, step)
    requires p in bodies && Cut(bodies[p], offset, data) && StoredIn(s, p, offset, data)
    ensures StoredIn(LoopApply(bodies, s, step), p, offset, data)
  {
    hide WriteAt, Holds, MayGive, MayDefer, Conserved, Written, Created;
    match step
    case InlineOpen => StoredAfterCreate(s, s.loop.part.path, p, offset, data);
    case InlineWrite(n) =>
      var part, done := s.loop.part, s.loop.done;
      LoopPartGiven(s);
      SubCut(bodies[part.path], part.offset, part.data, done, n);
      StoredAfterWrite(bodies, s, part.path, part.offset + done, part.data[done..done + n], p, offset, data);
    case _ =>
  }

  lemma StoredWorker(bodies: Bodies, s: State, step: WorkerStep, p: Path, offset: nat, data: seq<byte>)
    requires NamesFit(s) && WorkerFdFits(s) && GivenCut(bodies, s) && AllConserved(s) && WorkerEnabled(s, step)
    requires p in bodies && Cut(bodies[p], offset, data) && StoredIn(s, p, offset, data)
    requires p !in WorkerApply(s, step).removed
    ensures StoredIn(WorkerApply(s, step), p, offset, data)
  {
    hide WriteAt, Holds, Conserved, Written, Created;
    match step
    case ChooseFd => StoredAfterCreate(s, s.worker.part.path, p, offset, data);
    case WorkerWrite(n) =>
      var part, done := s.worker.part, s.worker.done;
      WorkerPartGiven(s);
      SubCut(bodies[part.path], part.offset, part.data, done, n);
      StoredAfterWrite(bodies, s, part.path, part.offset + done, part.data[done..done + n], p, offset, data);
    case _ =>
  }

  lemma GivenCutLoop(bodies: Bodies, s: State, step: LoopStep)
    requires GivenCut(bodies, s) && LoopEnabled(bodies, s, step)
    ensures GivenCut(bodies, LoopApply(bodies, s, step))
  {
    hide WriteAt;
  }

  lemma GivenOfWritten(bodies: Bodies, s: State, part: Part)
    requires GivenCut(bodies, s) && AllConserved(s) && part in s.written
    ensures part in s.given && part.path in bodies && Cut(bodies[part.path], part.offset, part.data)
  {
    assert Conserved(s, part);
  }

  /** The stretch a task has just written is stored with what it had written before. */
  lemma HalfMore(bodies: Bodies, s: State, part: Part, done: nat, n: nat)
    requires NamesFit(s) && HalfStored(s, part, done) && done + n <= |part.data|
    requires part.path in bodies && Cut(bodies[part.path], part.offset, part.data)
    ensures HalfStored(Written(s, s.names[part.path], part.offset + done, part.data[done..done + n]), part, done + n)
  {
    hide WriteAt, Holds;
    WriteExtends(bodies[part.path], s.files[s.names[part.path]], part.offset, part.data, done, n);
  }

  lemma HalfCut(body: seq<byte>, part: Part, done: nat)
    requires Cut(body, part.offset, part.data) && done <= |part.data|
    ensures Cut(body, part.offset, part.data[..done])
  {
    SubCut(body, part.offset, part.data, 0, done);
  }

  /** loopTask leaves the worker and what it removed alone. */
  lemma LoopFrame(bodies: Bodies, s: State, step: LoopStep)
    requires LoopEnabled(bodies, s, step)
    ensures LoopApply(bodies, s, step).worker == s.worker && LoopApply(bodies, s, step).removed == s.removed
    ensures LoopApply(bodies, s, step).written
         == if step.InlineClose? then s.written + multiset{s.loop.part} else s.written
    ensures !step.InlineOpen? && !step.InlineWrite? ==>
      LoopApply(bodies, s, step).names == s.names && LoopApply(bodies, s, step).files == s.files
  {
    LoopKeepsFiles(bodies, s, step);
    LoopFinishes(bodies, s, step);
    hide LoopApply, LoopEnabled;
  }

  lemma LoopKeepsFiles(bodies: Bodies, s: State, step: LoopStep)
    requires LoopEnabled(bodies, s, step)
    ensures !step.InlineOpen? && !step.InlineWrite? ==>
      LoopApply(bodies, s, step).names == s.names && LoopApply(bodies, s, step).files == s.files
  {
    hide WriteAt, MayGive, MayDefer, JobOf, Less, Written, Created;
  }

  lemma LoopFinishes(bodies: Bodies, s: State, step: LoopStep)
    requires LoopEnabled(bodies, s, step)
    ensures LoopApply(bodies, s, step).worker == s.worker && LoopApply(bodies, s, step).removed == s.removed
    ensures LoopApply(bodies, s, step).written
         == if step.InlineClose? then s.written + multiset{s.loop.part} else s.written
  {
    hide WriteAt, MayGive, MayDefer, JobOf, Less;
  }

  lemma WorkerFrame(s: State, step: WorkerStep)
    requires WorkerEnabled(s, step)
    ensures WorkerApply(s, step).loop == s.loop && WorkerApply(s, step).given == s.given
    ensures WorkerApply(s, step).removed == if step.Discard? then s.removed + {s.worker.path} else s.removed
    ensures WorkerApply(s, step).written
         == if step.WriteDone? then s.written + multiset{s.worker.part} else s.written
  {
    hide WriteAt;
  }

  lemma WrittenLoop(bodies: Bodies, s: State, step: LoopStep)
    requires NamesFit(s) && InlineFdFits(s) && GivenCut(bodies, s) && AllConserved(s) && LoopEnabled(bodies, s, step)
    requires WrittenStored(s)
    ensures WrittenStored(LoopApply(bodies, s, step))
  {
    hide WriteAt, Holds, MayGive, MayDefer, Conserved, LoopApply, Cut, StoredIn, NamesFit;
    var s' := LoopApply(bodies, s, step);
    LoopFrame(bodies, s, step);
    if InHook(s.loop) { LoopPartGiven(s); }
    if step.InlineClose? { assert s.loop.part.data[..s.loop.done] == s.loop.part.data; }
    forall part | part in s'.written && part.path !in s'.removed
      ensures StoredIn(s', part.path, part.offset, part.data)
    {
      if part in s.written {
        GivenOfWritten(bodies, s, part);
      }
      StoredLoop(bodies, s, step, part.path, part.offset, part.data);
    }
    if s'.worker.Writing? {
      WorkerPartGiven(s);
      HalfCut(bodies[s.worker.part.path], s.worker.part, s.worker.done);
      StoredLoop(bodies, s, step, s.worker.part.path, s.worker.part.offset, s.worker.part.data[..s.worker.done]);
    }
    HalfLoop(bodies, s, step);
  }

  lemma HalfLoop(bodies: Bodies, s: State, step: LoopStep)
    requires NamesFit(s) && InlineFdFits(s) && GivenCut(bodies, s) && AllConserved(s) && LoopEnabled(bodies, s, step)
    requires s.loop.InlineWriting? ==> HalfStored(s, s.loop.part, s.loop.done)
    ensures var s' := LoopApply(bodies, s, step);
      s'.loop.InlineWriting? ==> HalfStored(s', s'.loop.part, s'.loop.done)
  {
    hide WriteAt, Holds, MayGive, MayDefer, Conserved, Cut, NamesFit, Written, Created;
    match step
    case InlineWrite(n) =>
      LoopPartGiven(s);
      HalfMore(bodies, s, s.loop.part, s.loop.done, n);
    case InlineOpen => OpenedEmpty(s, s.loop.part);
    case _ =>
  }

  lemma OpenedEmpty(s: State, part: Part)
    requires NamesFit(s)
    ensures HalfStored(Created(s, part.path), part, 0)
  {
  }

  lemma WrittenWorker(bodies: Bodies, s: State, step: WorkerStep)
    requires NamesFit(s) && WorkerFdFits(s) && GivenCut(bodies, s) && AllConserved(s) && WorkerEnabled(s, step)
    requires NamesFit(WorkerApply(s, step)) && InlineFdFits(WorkerApply(s, step))
    requires WrittenStored(s)
    ensures WrittenStored(WorkerApply(s, step))
  {
    hide WriteAt, Holds, Conserved, WorkerApply, Cut, StoredIn;
    var s' := WorkerApply(s, step);
    WorkerFrame(s, step);
    if s.worker.Choosing? || s.worker.Writing? { WorkerPartGiven(s); }
    if step.WriteDone? { assert s.worker.part.data[..s.worker.done] == s.worker.part.data; }
    forall part | part in s'.written && part.path !in s'.removed
      ensures StoredIn(s', part.path, part.offset, part.data)
    {
      if part in s.written {
        GivenOfWritten(bodies, s, part);
      }
      StoredWorker(bodies, s, step, part.path, part.offset, part.data);
    }
    if s'.loop.InlineWriting? {
      LoopPartGiven(s);
      HalfCut(bodies[s.loop.part.path], s.loop.part, s.loop.done);
      StoredWorker(bodies, s, step, s.loop.part.path, s.loop.part.offset, s.loop.part.data[..s.loop.done]);
    }
    HalfWorker(bodies, s, step);
  }

  lemma HalfWorker(bodies: Bodies, s: State, step: WorkerStep)
    requires NamesFit(s) && WorkerFdFits(s) && GivenCut(bodies, s) && AllConserved(s) && WorkerEnabled(s, step)
    requires s.worker.Writing? ==> HalfStored(s, s.worker.part, s.worker.done)
    ensures var s' := WorkerApply(s, step);
      s'.worker.Writing? ==> HalfStored(s', s'.worker.part, s'.worker.done)
  {
    hide WriteAt, Holds, Conserved, Cut, NamesFit, Written, Created;
    match step
    case WorkerWrite(n) =>
      WorkerPartGiven(s);
      HalfMore(bodies, s, s.worker.part, s.worker.done, n);
    case ChooseFd => ChosenEmpty(s);
    case _ =>
  }

  lemma ChosenEmpty(s: State)
    requires NamesFit(s) && WorkerFdFits(s) && s.worker.Choosing?
    ensures HalfStored(WorkerApply(s, ChooseFd), s.worker.part, 0)
  {
  }

  // ----- what is read back

  /** All parts of the resource are among the bytes read, which are no more than its size. */
  ghost predicate Whole(s: State, path: Path, total: nat, got: seq<byte>) {
    |got| <= total && forall part :: part in s.given && part.path == path ==> Holds(got, part.offset, part.data)
  }

  /** A worker that reads has a prefix of the file; once it has read, it has every part. */
  ghost predicate ReadBack(bodies: Bodies, s: State) {
    && (WorkerConcludes(s.worker) ==> s.worker.path in bodies && s.worker.total == |bodies[s.worker.path]|)
    && (s.worker.Reading? ==>
          && s.worker.inode < |s.files| && |s.worker.got| <= s.worker.total
          && s.worker.got <= s.files[s.worker.inode])
    && (s.worker.Discarding? || s.worker.Delivering? ==> Whole(s, s.worker.path, s.worker.total, s.worker.got))
    && (forall d :: d in s.deliveries ==>
          d.path in bodies && d.total == |bodies[d.path]| && Whole(s, d.path, d.total, d.got))
    && (forall i :: 0 <= i < |s.queue| && s.queue[i].Conclude? ==>
          s.queue[i].path in bodies && s.queue[i].total == |bodies[s.queue[i].path]|)
    && (s.loop.Deferring? ==> s.loop.path in bodies && s.loop.total == |bodies[s.loop.path]|)
  }

  /** When nothing of a resource is under way, all its parts are written. */
  lemma SettledWritten(s: State, part: Part)
    requires AllConserved(s) && Settled(s, part.path) && part in s.given
    ensures part in s.written
  {
    assert Conserved(s, part);
    if QueueHas(s.queue, part) >= 1 {
      var i := QueueHasSome(s.queue, part);
    }
  }

  /** When the worker starts to read a resource back, its file holds every part given to the hook. */
  lemma CompleteAtReadOpen(bodies: Bodies, s: State, part: Part)
    requires AllConserved(s) && ConclusionSettled(s) && WrittenStored(s) && s.worker.ReadOpening?
    requires part in s.given && part.path == s.worker.path
    ensures StoredIn(s, part.path, part.offset, part.data)
  {
    SettledWritten(s, part);
  }

  lemma WholeAfterOpen(bodies: Bodies, s: State)
    requires AllConserved(s) && ConclusionSettled(s) && WrittenStored(s) && GivenCut(bodies, s) && ReadBack(bodies, s)
    requires s.worker.ReadOpening?
    requires s.worker.total == 0 || s.worker.path !in s.names
    ensures Whole(s, s.worker.path, s.worker.total, [])
  {
    forall part | part in s.given && part.path == s.worker.path ensures Holds([], part.offset, part.data) {
      CompleteAtReadOpen(bodies, s, part);
    }
  }

  lemma WholeAfterRead(bodies: Bodies, s: State)
    requires AllConserved(s) && ConclusionSettled(s) && WrittenStored(s) && GivenCut(bodies, s) && ReadBack(bodies, s)
    requires WorkerFdFits(s) && WorkerEnabled(s, ReadEnd)
    ensures Whole(s, s.worker.path, s.worker.total, s.worker.got)
  {
    hide Conserved;
    var got, file := s.worker.got, s.files[s.worker.inode];
    forall part | part in s.given && part.path == s.worker.path ensures Holds(got, part.offset, part.data) {
      SettledWritten(s, part);
      forall i | 0 <= i < |part.data| ensures ByteAt(got, part.offset + i, part.data[i]) {
        assert ByteAt(file, part.offset + i, part.data[i]);
        assert got == file[..|got|];
      }
    }
  }
}
