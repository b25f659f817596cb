/** The off-loop receive path: loopTask hands part writes and conclusions to one worker through a
    bounded queue, writes inline when it cannot, and drains a second bounded queue.  One step is one
    access to something the two tasks share: a queue, the in-flight counter, the heap or a file. */
module ConcludeProtocol {
  import opened Wrappers
  import opened Arith
  import opened ByteFields

  const QUEUE_DEPTH := 48
  const INFLIGHT_CAP := 512 * 1024
  const PATH_LEN := 96
  const READ_CHUNK := 16 * 1024
  const WORD := 0x1_0000_0000

  type Path = string

  /** A received part as it is given to the part-write hook. */
  datatype Part = Part(path: Path, offset: nat, data: seq<byte>)

  /** Queued work.  `copy` names the heap block that holds the data. */
  datatype Job =
    | WritePart(part: Part, copy: nat)
    | Conclude(path: Path, total: nat)

  /** Where loopTask is: nowhere in particular, in the part-write hook, or in the deferrer. */
  datatype LoopPc =
    | LoopIdle
    | Checking(part: Part)
    | Copied(part: Part, copy: nat)
    | Charged(part: Part, copy: nat)
    | Refused(part: Part, copy: nat)
    | Uncharged(part: Part, copy: nat)
    | Opening(part: Part)
    | InlineWriting(part: Part, inode: nat, done: nat)
    | Deferring(path: Path, total: nat)

  datatype WorkerPc =
    | WorkerIdle
    | Choosing(part: Part, copy: nat)
    | Writing(part: Part, copy: nat, done: nat)
    | Freeing(part: Part, copy: nat)
    | Uncharging(part: Part)
    | Closing(path: Path, total: nat)
    | ReadOpening(path: Path, total: nat)
    | Reading(path: Path, total: nat, inode: nat, got: seq<byte>)
    | Discarding(path: Path, total: nat, got: seq<byte>)
    | Delivering(path: Path, total: nat, got: seq<byte>)

  /** A concluded resource on its way back to loopTask, with the bytes read from its file. */
  datatype Delivery = Delivery(path: Path, total: nat, got: seq<byte>)

  /** `heap` has the live copies; `names` and `files` are the file system; the rest of the state is that of the
      source. The last six fields record history: parts given to the hook, parts written, resources handed to
      the deferrer, files removed, the resources again in the order in which they were deferred, and what
      `drain_deliveries` has delivered. */
  datatype State = State(
    queue: seq<Job>,
    deliveries: seq<Delivery>,
    inflight: nat,
    heap: multiset<nat>,
    loop: LoopPc,
    worker: WorkerPc,
    curFd: Option<nat>,
    curPath: Path,
    names: map<Path, nat>,
    files: seq<seq<byte>>,
    given: multiset<Part>,
    written: multiset<Part>,
    deferred: set<Path>,
    removed: set<Path>,
    order: seq<Path>,
    delivered: seq<Delivery>)

  function Init(): State {
    State([], [], 0, multiset{}, LoopIdle, WorkerIdle, None, "", map[], [], multiset{}, multiset{}, {}, {}, [], [])
  }

  /** `strncpy` into a path buffer of a job. */
  function Truncated(path: Path): Path {
    if |path| < PATH_LEN then path else path[..PATH_LEN - 1]
  }

  function JobOf(part: Part, copy: nat): Job {
    WritePart(part.(path := Truncated(part.path)), copy)
  }

  /** `open(path, O_WRONLY | O_CREAT)`: the file it opens, and the state after it. */
  function Inode(s: State, path: Path): nat {
    if path in s.names then s.names[path] else |s.files|
  }

  function Created(s: State, path: Path): State {
    if path in s.names then s
    else s.(names := s.names[path := |s.files|], files := s.files + [[]])
  }

  /** A file after `bytes` are written at `offset`; a gap before them reads as zeros. */
  function WriteAt(file: seq<byte>, offset: nat, bytes: seq<byte>): seq<byte> {
    var base := file + Fill(0, offset - |file|);
    base[..offset] + bytes + (if offset + |bytes| < |base| then base[offset + |bytes|..] else [])
  }

  function Written(s: State, inode: nat, offset: nat, bytes: seq<byte>): State
    requires inode < |s.files|
  {
    s.(files := s.files[inode := WriteAt(s.files[inode], offset, bytes)])
  }

  datatype LoopStep =
    // part_write_hook
    | HookCall(part: Part)
    | BudgetOk(copy: nat)          // under the cap, and the copy is allocated
    | BudgetOver                   // over the cap, or no memory for the copy
    | JobMade
    | JobFailed                    // no memory for the job
    | PartSent
    | PartRefused                  // queue full
    | Uncharge
    | FreeRefused
    | InlineOpen
    | InlineWrite(n: nat)          // one `write` call wrote n bytes
    | InlineClose
    // deferrer and drain_deliveries
    | DeferCall(path: Path, total: nat)
    | ConcludeSent
    | Drain

  datatype WorkerStep =
    | Receive
    | ChooseFd
    | WorkerWrite(n: nat)
    | WriteDone
    | FreeWritten
    | UnchargeWritten
    | CloseFd
    | ReadOpen
    | ReadSome(n: nat)
    | ReadEnd
    | Discard
    | Deliver

  datatype Step = OfLoop(loop: LoopStep) | OfWorker(worker: WorkerStep)

  predicate LoopEnabled(bodies: map<Path, seq<byte>>, s: State, step: LoopStep) {
    match step
    case HookCall(part) => s.loop.LoopIdle? && MayGive(bodies, s, part)
    case BudgetOk(copy) =>
      s.loop.Checking? && (s.inflight + |s.loop.part.data|) % WORD <= INFLIGHT_CAP && copy !in s.heap
    case BudgetOver => s.loop.Checking?
    case JobMade => s.loop.Copied?
    case JobFailed => s.loop.Copied?
    case PartSent => s.loop.Charged? && |s.queue| < QUEUE_DEPTH
    case PartRefused => s.loop.Charged? && |s.queue| >= QUEUE_DEPTH
    case Uncharge => s.loop.Refused?
    case FreeRefused => s.loop.Uncharged?
    case InlineOpen => s.loop.Opening?
    case InlineWrite(n) =>
      s.loop.InlineWriting? && s.loop.inode < |s.files| && 1 <= n <= |s.loop.part.data| - s.loop.done
    case InlineClose => s.loop.InlineWriting? && s.loop.done >= |s.loop.part.data|
    case DeferCall(path, total) => s.loop.LoopIdle? && MayDefer(bodies, s, path, total)
    case ConcludeSent => s.loop.Deferring? && |s.queue| < QUEUE_DEPTH
    case Drain => s.loop.LoopIdle? && s.deliveries != []
  }

  /** Assumed of microReticulum: each resource has a path of its own that fits a job, its parts are
      cut from its body, bodies leave room below 4 GiB, and no part follows the conclusion. */
  predicate MayGive(bodies: map<Path, seq<byte>>, s: State, part: Part) {
    && part.path in bodies && |part.path| < PATH_LEN && part.path !in s.deferred
    && part.offset + |part.data| <= |bodies[part.path]|
    && |part.data| + INFLIGHT_CAP < WORD
    && part.data == bodies[part.path][part.offset..part.offset + |part.data|]
  }

  predicate MayDefer(bodies: map<Path, seq<byte>>, s: State, path: Path, total: nat) {
    path in bodies && |path| < PATH_LEN && path !in s.deferred && total == |bodies[path]|
  }

  predicate WorkerEnabled(s: State, step: WorkerStep) {
    match step
    case Receive => s.worker.WorkerIdle? && s.queue != []
    case ChooseFd => s.worker.Choosing?
    case WorkerWrite(n) =>
      && s.worker.Writing? && 1 <= n <= |s.worker.part.data| - s.worker.done
      && s.curFd.Some? && s.curFd.value < |s.files|
    case WriteDone => s.worker.Writing? && s.worker.done >= |s.worker.part.data|
    case FreeWritten => s.worker.Freeing?
    case UnchargeWritten => s.worker.Uncharging?
    case CloseFd => s.worker.Closing?
    case ReadOpen => s.worker.ReadOpening?
    case ReadSome(n) =>
      && s.worker.Reading? && s.worker.inode < |s.files|
      && 1 <= n <= Min(READ_CHUNK, s.worker.total - |s.worker.got|)
      && |s.worker.got| + n <= |s.files[s.worker.inode]|
    case ReadEnd =>
      && s.worker.Reading? && s.worker.inode < |s.files|
      && (|s.worker.got| >= s.worker.total || |s.worker.got| >= |s.files[s.worker.inode]|)
    case Discard => s.worker.Discarding?
    case Deliver => s.worker.Delivering? && |s.deliveries| < QUEUE_DEPTH
  }

  predicate Enabled(bodies: map<Path, seq<byte>>, s: State, step: Step) {
    match step
    case OfLoop(l) => LoopEnabled(bodies, s, l)
    case OfWorker(w) => WorkerEnabled(s, w)
  }

  /** `fetch_sub` on a 32-bit counter. */
  function Less(counter: nat, n: nat): nat {
    (counter - n) % WORD
  }

  function LoopApply(bodies: map<Path, seq<byte>>, s: State, step: LoopStep): State
    requires LoopEnabled(bodies, s, step)
  {
    match step
    case HookCall(part) => s.(loop := Checking(part), given := s.given + multiset{part})
    case BudgetOk(copy) => s.(loop := Copied(s.loop.part, copy), heap := s.heap + multiset{copy})
    case BudgetOver => s.(loop := Opening(s.loop.part))
    case JobMade =>
      s.(loop := Charged(s.loop.part, s.loop.copy), inflight := (s.inflight + |s.loop.part.data|) % WORD)
    case JobFailed => s.(loop := Opening(s.loop.part), heap := s.heap - multiset{s.loop.copy})
    case PartSent => s.(loop := LoopIdle, queue := s.queue + [JobOf(s.loop.part, s.loop.copy)])
    case PartRefused => s.(loop := Refused(s.loop.part, s.loop.copy))
    case Uncharge =>
      s.(loop := Uncharged(s.loop.part, s.loop.copy), inflight := Less(s.inflight, |s.loop.part.data|))
    case FreeRefused => s.(loop := Opening(s.loop.part), heap := s.heap - multiset{s.loop.copy})
    case InlineOpen =>
      Created(s, s.loop.part.path).(loop := InlineWriting(s.loop.part, Inode(s, s.loop.part.path), 0))
    case InlineWrite(n) =>
      var done := s.loop.done;
      Written(s, s.loop.inode, s.loop.part.offset + done, s.loop.part.data[done..done + n])
      .(loop := InlineWriting(s.loop.part, s.loop.inode, done + n))
    case InlineClose => s.(loop := LoopIdle, written := s.written + multiset{s.loop.part})
    case DeferCall(path, total) =>
      s.(loop := Deferring(path, total), deferred := s.deferred + {path}, order := s.order + [path])
    case ConcludeSent => s.(loop := LoopIdle, queue := s.queue + [Conclude(s.loop.path, s.loop.total)])
    case Drain => s.(deliveries := s.deliveries[1..], delivered := s.delivered + [s.deliveries[0]])
  }

  function WorkerApply(s: State, step: WorkerStep): State
    requires WorkerEnabled(s, step)
  {
    match step
    case Receive => s.(queue := s.queue[1..], worker := Taken(s.queue[0]))
    case ChooseFd =>
      var part := s.worker.part;
      if s.curFd.Some? && s.curPath == part.path then s.(worker := Writing(part, s.worker.copy, 0))
      else
        Created(s, part.path)
        .(worker := Writing(part, s.worker.copy, 0),
          curFd := Some(Inode(s, part.path)), curPath := Truncated(part.path))
    case WorkerWrite(n) =>
      var part, done := s.worker.part, s.worker.done;
      Written(s, s.curFd.value, part.offset + done, part.data[done..done + n])
      .(worker := Writing(part, s.worker.copy, done + n))
    case WriteDone =>
      s.(worker := Freeing(s.worker.part, s.worker.copy), written := s.written + multiset{s.worker.part})
    case FreeWritten => s.(worker := Uncharging(s.worker.part), heap := s.heap - multiset{s.worker.copy})
    case UnchargeWritten => s.(worker := WorkerIdle, inflight := Less(s.inflight, |s.worker.part.data|))
    case CloseFd => s.(worker := ReadOpening(s.worker.path, s.worker.total), curFd := None, curPath := "")
    case ReadOpen =>
      var path, total := s.worker.path, s.worker.total;
      if total > 0 && path in s.names then s.(worker := Reading(path, total, s.names[path], []))
      else s.(worker := Discarding(path, total, []))
    case ReadSome(n) =>
      var got, inode := s.worker.got, s.worker.inode;
      s.(worker := Reading(s.worker.path, s.worker.total, inode, got + s.files[inode][|got|..|got| + n]))
    case ReadEnd => s.(worker := Discarding(s.worker.path, s.worker.total, s.worker.got))
    case Discard =>
      s.(worker := Delivering(s.worker.path, s.worker.total, s.worker.got),
         names := s.names - {s.worker.path}, removed := s.removed + {s.worker.path})
    case Deliver =>
      s.(worker := WorkerIdle,
         deliveries := s.deliveries + [Delivery(s.worker.path, s.worker.total, s.worker.got)])
  }

  /** The worker takes a job from the queue. */
  function Taken(job: Job): WorkerPc {
    match job
    case WritePart(part, copy) => Choosing(part, copy)
    case Conclude(path, total) => Closing(path, total)
  }

  function Apply(bodies: map<Path, seq<byte>>, s: State, step: Step): State
    requires Enabled(bodies, s, step)
  {
    match step
    case OfLoop(l) => LoopApply(bodies, s, l)
    case OfWorker(w) => WorkerApply(s, w)
  }

  /** Every state of a run comes from the one before by an enabled step of either task. */
  ghost predicate Run(bodies: map<Path, seq<byte>>, states: seq<State>, steps: seq<Step>) {
    && |states| == |steps| + 1
    && states[0] == Init()
    && forall i :: 0 <= i < |steps| ==>
         Enabled(bodies, states[i], steps[i]) && states[i + 1] == Apply(bodies, states[i], steps[i])
  }
}
