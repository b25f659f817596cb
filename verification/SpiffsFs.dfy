/** The file system under construction: blocks are filled one after the other, and `create_file`
    starts a new index page or a new block whenever the current one is full. */
module SpiffsFs {
  import opened Arith
  import opened ByteFields
  import opened SpiffsConfig
  import opened SpiffsImage
  import opened SpiffsLayout
  import opened SpiffsLookup
  import opened SpiffsPages
  import opened Wrappers

  datatype FsError = SpiffsFull | NameTooLong

  function TotalPages(geo: Geometry, files: seq<Stored>): nat
    requires geo.Valid()
  {
    if files == [] then 0
    else TotalPages(geo, files[..|files| - 1]) + PagesNeeded(geo, |files[|files| - 1].contents|)
  }

  /** The log holds the files' pages and nothing else. */
  ghost predicate Clean(geo: Geometry, log: Log, files: seq<Stored>)
    requires geo.Valid()
  {
    && |log| == TotalPages(geo, files)
    && (forall n :: 0 <= n < |log| ==> 1 <= log[n].objId <= |files|)
  }

  /** What the log says about the files: they have ids 1, 2, ... and are all there; pages of the next
      id are there only if a file did not fit, and then no page is free. */
  ghost predicate Catalog(geo: Geometry, capacity: nat, log: Log, files: seq<Stored>, curObjId: nat)
    requires geo.Valid()
  {
    && curObjId == |files| + 1
    && |log| <= capacity
    && (forall i :: 0 <= i < |files| ==> files[i].id == i + 1 && Complete(geo, log, files[i]))
    && (forall n :: 0 <= n < |log| ==> 1 <= log[n].objId <= curObjId)
    && (Clean(geo, log, files) || |log| == capacity)
  }

  lemma CapacityReached(usable: nat, lim: nat, n: nat, used: nat)
    requires usable >= 1 && 1 <= n <= lim && used <= usable
    ensures (n - 1) * usable + used <= lim * usable
    ensures (n - 1) * usable + used == lim * usable <==> n == lim && used == usable
    ensures (n - 1) * usable + usable == n * usable
  {
    MulLe(n, lim, usable);
    if n < lim { MulLe(n + 1, lim, usable); }
  }

  /** After `d` reads of the stream: the chunk read last, not yet stored, and what is left to read. */
  ghost predicate Reading(geo: Geometry, contents: seq<byte>, d: nat, chunk: seq<byte>, unread: seq<byte>)
    requires geo.Valid()
  {
    && d <= |Chunks(geo, contents)|
    && Chunks(geo, chunk + unread) == Chunks(geo, contents)[d..]
    && |chunk| == Min(geo.contentLen, |chunk + unread|)
  }

  lemma ReadFirst(geo: Geometry, contents: seq<byte>, k: nat)
    requires geo.Valid() && k == Min(geo.contentLen, |contents|)
    ensures Reading(geo, contents, 0, contents[..k], contents[k..])
  {
    assert contents[..k] + contents[k..] == contents;
  }

  lemma ReadNext(geo: Geometry, contents: seq<byte>, d: nat, chunk: seq<byte>, unread: seq<byte>, k: nat)
    requires geo.Valid() && Reading(geo, contents, d, chunk, unread) && chunk != []
    requires k == Min(geo.contentLen, |unread|)
    ensures d < |Chunks(geo, contents)| && Chunks(geo, contents)[d] == chunk
    ensures Reading(geo, contents, d + 1, unread[..k], unread[k..])
  {
    var all := chunk + unread;
    assert all[..|chunk|] == chunk && all[|chunk|..] == unread;
    assert unread[..k] + unread[k..] == unread;
    assert Chunks(geo, all)[0] == chunk;
    assert Chunks(geo, contents)[d + 1..] == Chunks(geo, all)[1..];
  }

  lemma ReadDone(geo: Geometry, contents: seq<byte>, d: nat, unread: seq<byte>)
    requires geo.Valid() && Reading(geo, contents, d, [], unread)
    ensures d == |Chunks(geo, contents)|
  {
  }

  /** What holds of the log between two steps of `create_file`. */
  ghost predicate Progress(geo: Geometry, log0: Log, log: Log, f: Stored)
    requires geo.Valid()
  {
    && Holds(geo, log, f)
    && Extends(log0, log, f.id)
    && |log| == |log0| + |f.datas| + |f.ixs|
    && (|f.ixs| >= 2 ==> First(geo, |f.ixs| - 1) < |Chunks(geo, f.contents)|)
  }

  /** The page allocated last is a data page. */
  predicate EndsInData(log: Log) {
    log != [] && log[|log| - 1].Data?
  }

  lemma ProgressOpen(geo: Geometry, capacity: nat, log: Log, files: seq<Stored>, f: Stored)
    requires geo.Valid() && Catalog(geo, capacity, log, files, f.id)
    requires f.ixs == [] && f.datas == []
    ensures |log| < capacity ==> Progress(geo, log, WithIndex(log, f).0, WithIndex(log, f).1)
    ensures WithIndex(log, f).1 == f.(ixs := [|log|])
    ensures WithIndex(log, f).0 == log + [Index(f.id, 0, |f.contents|, f.name, [])]
    ensures PagesNeeded(geo, |f.contents|) >= 1 && |log| <= capacity && Extends(log, log, f.id)
  {
    if |log| < capacity { BeginFirst(geo, log, f); }
  }

  lemma ProgressBegin(geo: Geometry, log0: Log, log: Log, f: Stored)
    requires geo.Valid() && Progress(geo, log0, log, f)
    requires |log[f.ixs[|f.ixs| - 1]].pages| >= geo.IxLim(|f.ixs| - 1)
    requires |f.datas| < |Chunks(geo, f.contents)|
    ensures Progress(geo, log0, WithIndex(log, f).0, WithIndex(log, f).1)
    ensures |WithIndex(log, f).0| == |log| + 1 && WithIndex(log, f).1 == f.(ixs := WithIndex(log, f).1.ixs)
  {
    RoomInIndex(geo, log, f);
    BeginNext(geo, log, f);
    ExtendsTransitive(log0, log, WithIndex(log, f).0, f.id);
  }

  lemma ProgressData(geo: Geometry, log0: Log, log: Log, f: Stored, chunk: seq<byte>)
    requires geo.Valid() && Progress(geo, log0, log, f)
    requires |log[f.ixs[|f.ixs| - 1]].pages| < geo.IxLim(|f.ixs| - 1)
    requires |f.datas| < |Chunks(geo, f.contents)| && chunk == Chunks(geo, f.contents)[|f.datas|]
    ensures Progress(geo, log0, WithData(geo, log, f, chunk).0, WithData(geo, log, f, chunk).1)
    ensures |WithData(geo, log, f, chunk).0| == |log| + 1
    ensures WithData(geo, log, f, chunk).1 == f.(datas := f.datas + [|log|])
    ensures EndsInData(WithData(geo, log, f, chunk).0)
  {
    RoomInIndex(geo, log, f);
    AppendData(geo, log, f, chunk);
    ExtendsTransitive(log0, log, WithData(geo, log, f, chunk).0, f.id);
  }

  /** All chunks are stored: the file is complete and has taken exactly the pages it needs. */
  lemma ProgressDone(geo: Geometry, log0: Log, log: Log, f: Stored)
    requires geo.Valid() && Progress(geo, log0, log, f)
    requires |f.datas| == |Chunks(geo, f.contents)|
    ensures Complete(geo, log, f) && Extends(log0, log, f.id)
    ensures |log| == |log0| + PagesNeeded(geo, |f.contents|)
    ensures f.contents != [] ==> f.datas != []
  {
    hide CeilDiv, Chunks, HoldsDatas, HoldsNoOthers, Extends;
    FlattenChunks(geo, f.contents);
    LeastIndexPages(geo, |f.datas|, |f.ixs|);
  }

  /** A chunk is left: the file needs more pages than it has. */
  lemma ProgressNotDone(geo: Geometry, log0: Log, log: Log, f: Stored)
    requires geo.Valid() && Progress(geo, log0, log, f)
    requires |f.datas| < |Chunks(geo, f.contents)|
    ensures |log| < |log0| + PagesNeeded(geo, |f.contents|) && Extends(log0, log, f.id)
  {
    hide CeilDiv, Chunks, HoldsDatas, HoldsNoOthers, Extends;
    FlattenChunks(geo, f.contents);
    IndexPagesBound(geo, |Chunks(geo, f.contents)|, |f.ixs|);
  }

  lemma CatalogAfter(geo: Geometry, capacity: nat, log: Log, files: seq<Stored>, id: nat, log': Log, f: Stored)
    requires geo.Valid() && Catalog(geo, capacity, log, files, id)
    requires Extends(log, log', id) && f.id == id && Complete(geo, log', f)
    requires |log'| == |log| + PagesNeeded(geo, |f.contents|) <= capacity
    ensures Catalog(geo, capacity, log', files + [f], id + 1) && Clean(geo, log', files + [f])
  {
    hide Complete;
    var files' := files + [f];
    assert files'[..|files|] == files;
    forall i | 0 <= i < |files'| ensures files'[i].id == i + 1 && Complete(geo, log', files'[i]) {
      if i < |files| { CompleteFrame(geo, log, log', id, files[i]); }
    }
  }

  lemma CatalogFull(geo: Geometry, capacity: nat, log: Log, files: seq<Stored>, id: nat, log': Log)
    requires geo.Valid() && Catalog(geo, capacity, log, files, id)
    requires Extends(log, log', id) && |log'| == capacity
    ensures Catalog(geo, capacity, log', files, id)
  {
    forall i | 0 <= i < |files| ensures files[i].id == i + 1 && Complete(geo, log', files[i]) {
      CompleteFrame(geo, log, log', id, files[i]);
    }
  }

  class SpiffsFS {
    const geo: Geometry
    const objNameLen: nat
    const blocksLim: nat
    var blocks: seq<SpiffsBlock>
    var remainingBlocks: int
    var curObjId: nat
    ghost var refs: seq<PageRef>    // the usable pages of all blocks, in order
    ghost var log: Log              // what they hold
    ghost var files: seq<Stored>
    ghost var repr: set<object>

    ghost function Capacity(): (n: nat)
      ensures n == blocksLim * geo.usable
    {
      blocksLim * geo.usable
    }

    ghost predicate BlockAt(b: nat)
      requires b < |blocks|
      reads this, repr
    {
      var block := blocks[b];
      && block in repr
      && block.geo == geo && block.bix == b && block.Placed() && block.Valid()
      && block.base + |block.pages| <= |refs|
      && block.pages == refs[block.base..block.base + |block.pages|]
      && (b + 1 < |blocks| ==> block.remainingPages == 0)
    }

    ghost predicate Shows(n: nat)
      requires n < |refs| == |log|
      reads this, repr
    {
      match refs[n]
      case Ix(ix) =>
        && ix in repr && ix.pos == n
        && log[n] == Index(ix.objId, ix.spanIx, ix.size, ix.name, ix.pages)
        && ix.pagesLim == geo.IxLim(ix.spanIx) - |ix.pages|
      case Da(offset, objId, spanIx, contents) =>
        log[n] == Data(offset, objId, spanIx, contents)
    }

    /** The blocks hold exactly the log, and every block but the last is full. */
    ghost predicate Structure()
      reads this, repr
    {
      && geo.Valid() && this !in repr
      && remainingBlocks == blocksLim - |blocks| >= 0
      && |refs| == |log|
      && (forall b :: 0 <= b < |blocks| ==> BlockAt(b))
      && (forall n :: 0 <= n < |refs| ==> Shows(n))
      && (if blocks == [] then refs == []
          else BlockAt(|blocks| - 1) && |refs| == blocks[|blocks| - 1].base + |blocks[|blocks| - 1].pages|)
    }

    ghost predicate Valid()
      reads this, repr
    {
      Structure() && Catalog(geo, Capacity(), log, files, curObjId)
    }

    constructor (geo: Geometry, objNameLen: nat, blocksLim: nat)
      requires geo.Valid()
      ensures Valid() && this.geo == geo && this.objNameLen == objNameLen && this.blocksLim == blocksLim
      ensures Empty() && fresh(repr)
    {
      this.geo, this.objNameLen, this.blocksLim := geo, objNameLen, blocksLim;
      blocks := [];
      remainingBlocks := blocksLim;
      curObjId := 1;
      refs, log, files, repr := [], [], [], {};
    }

    ghost predicate Empty()
      reads this
    {
      log == [] && files == [] && curObjId == 1
    }

    lemma EmptyIsClean()
      requires geo.Valid() && Empty()
      ensures Clean(geo, log, files) && log == [] && files == []
    {
    }

    lemma NextId()
      requires Valid()
      ensures curObjId == |files| + 1
    {
    }

    lemma ValidParts()
      requires geo.Valid() && Valid()
      ensures Catalog(geo, blocksLim * geo.usable, log, files, |files| + 1)
    {
    }

    /** Free pages left in the last block and in the blocks not yet made. */
    lemma FreePages()
      requires Structure()
      ensures geo.Valid() && this !in repr && |log| <= Capacity()
      ensures |log| == Capacity() <==>
        remainingBlocks == 0 && (blocks == [] || blocks[|blocks| - 1].remainingPages == 0)
      ensures blocks != [] && blocks[|blocks| - 1].remainingPages == 0 ==> |log| == |blocks| * geo.usable
    {
      if blocks != [] {
        assert BlockAt(|blocks| - 1);
        CapacityReached(geo.usable, blocksLim, |blocks|, |blocks[|blocks| - 1].pages|);
      } else if blocksLim > 0 {
        MulLe(1, blocksLim, geo.usable);
      }
    }

    method CreateBlock() returns (ok: bool)
      requires Structure()
      requires blocks != [] ==> blocks[|blocks| - 1].remainingPages == 0
      modifies `blocks, `remainingBlocks, `repr
      ensures Structure() && old(repr) <= repr && fresh(repr - old(repr))
      ensures ok == (old(remainingBlocks) > 0)
      ensures !ok ==> unchanged(this)
      ensures ok ==>
        && |blocks| == |old(blocks)| + 1 && BlockAt(|old(blocks)|) && blocks[..|old(blocks)|] == old(blocks)
        && remainingBlocks == old(remainingBlocks) - 1
        && fresh(blocks[|old(blocks)|]) && blocks[|old(blocks)|].remainingPages == geo.usable
    {
      hide Capacity, SpiffsBlock.Placed, SpiffsBlock.Valid;
      FreePages();
      ok := remainingBlocks > 0;
      if !ok { return; }
      var block := new SpiffsBlock(|blocks|, geo);
      ghost var n := |blocks|;
      blocks := blocks + [block];
      remainingBlocks := remainingBlocks - 1;
      repr := repr + {block};
      forall b | 0 <= b < |blocks| ensures BlockAt(b) {
        assert b < n ==> old(BlockAt(b));
      }
      forall k | 0 <= k < |refs| ensures Shows(k) {
        assert old(Shows(k));
      }
    }
  
    /** The state between two steps of `create_file`: the current block carries on object `f`. */
    ghost predicate Current(f: Stored)
      reads this, repr
    {
      && blocks != [] && BlockAt(|blocks| - 1)
      && |f.ixs| >= 1 && f.ixs[|f.ixs| - 1] < |refs| == |log|
      && log[f.ixs[|f.ixs| - 1]].Index? && log[f.ixs[|f.ixs| - 1]].spanIx == |f.ixs| - 1
      && var block := blocks[|blocks| - 1];
      && block.curObjIdxPage != null && block.curObjIdxPage in repr
      && refs[f.ixs[|f.ixs| - 1]] == Ix(block.curObjIdxPage)
      && block.curObjId == f.id
      && block.curObjIndexSpanIx == |f.ixs|
      && block.curObjDataSpanIx == |f.datas|
    }

    /** `begin_obj` on the last block. */
    method BeginObj(objIndexSpanIx: nat, objDataSpanIx: nat, id: nat, size: nat, name: seq<byte>, ghost f: Stored)
      returns (ok: bool)
      requires Structure() && blocks != []
      requires id == f.id && size == |f.contents| && name == f.name
      requires objIndexSpanIx == |f.ixs| && objDataSpanIx == |f.datas|
      modifies `refs, `log, `repr, blocks[|blocks| - 1]
      ensures Structure() && old(repr) <= repr && fresh(repr - old(repr))
      ensures ok == (old(blocks[|blocks| - 1].remainingPages) > 0)
      ensures !ok ==> unchanged(this) && unchanged(blocks[|blocks| - 1])
      ensures ok ==> log == WithIndex(old(log), f).0 && Current(WithIndex(old(log), f).1)
    {
      hide LuPagesOf, AtLuPage, EntriesOf, Catalog, SpiffsBlock.Placed, Geometry.Valid;
      ghost var last := |blocks| - 1;
      assert BlockAt(last);
      var block := blocks[|blocks| - 1];
      ok := block.BeginObj(id, size, name, objIndexSpanIx, objDataSpanIx);
      if !ok {
        StillThere();
        return;
      }
      refs := refs + [Ix(block.curObjIdxPage)];
      log := WithIndex(log, f).0;
      repr := repr + {block.curObjIdxPage};
      assert Shows(|refs| - 1) && block.pages == refs[block.base..block.base + |block.pages|];
      forall b | 0 <= b < |blocks| ensures BlockAt(b) {
        assert old(BlockAt(b));
      }
      forall n | 0 <= n < |refs| ensures Shows(n) {
        assert n < |old(refs)| ==> old(Shows(n));
      }
    }

    twostate lemma StillThere()
      requires old(Structure()) && unchanged(this) && unchanged(repr)
      ensures Structure()
    {
      forall b | 0 <= b < |blocks| ensures BlockAt(b) {
        assert old(BlockAt(b));
      }
      forall n | 0 <= n < |refs| ensures Shows(n) {
        assert old(Shows(n));
      }
    }

    /** `update_obj` on the last block. */
    method UpdateObj(chunk: seq<byte>, ghost f: Stored) returns (ok: bool)
      requires Structure() && Current(f)
      modifies `refs, `log, blocks[|blocks| - 1], blocks[|blocks| - 1].curObjIdxPage
      ensures Structure()
      ensures ok == (old(blocks[|blocks| - 1].remainingPages) > 0
                     && |old(log)[f.ixs[|f.ixs| - 1]].pages| < geo.IxLim(|f.ixs| - 1))
      ensures !ok ==> unchanged(this) && unchanged(repr)
      ensures ok ==> log == WithData(geo, old(log), f, chunk).0 && Current(WithData(geo, old(log), f, chunk).1)
    {
      hide LuPagesOf, AtLuPage, EntriesOf, Offset, SpiffsBlock.Placed, SpiffsBlock.Valid, First, Entries;
      ghost var cur := f.ixs[|f.ixs| - 1];
      assert Shows(cur);
      var block := blocks[|blocks| - 1];
      ok := block.UpdateObj(chunk);
      if !ok {
        StillThere();
        return;
      }
      block.OffsetOf(|block.pages| - 1);
      refs := refs + [block.pages[|block.pages| - 1]];
      log := WithData(geo, log, f, chunk).0;
      assert log[cur].Index? && log[cur].spanIx == |f.ixs| - 1 && refs[cur] == Ix(block.curObjIdxPage);
      forall b | 0 <= b < |blocks| ensures BlockAt(b) {
        assert old(BlockAt(b));
      }
      forall n | 0 <= n < |refs| ensures Shows(n) {
        if n < |old(refs)| {
          assert old(Shows(n));
          if n != cur { assert log[n] == old(log)[n]; }
        }
      }
    }

    /** A new block takes over the object the last one was writing. */
    method ContinueInNewBlock(ghost f: Stored) returns (ok: bool)
      requires Structure() && Current(f)
      requires blocks[|blocks| - 1].remainingPages == 0
      modifies `blocks, `remainingBlocks, `repr
      ensures Structure() && old(repr) <= repr && fresh(repr - old(repr))
      ensures ok == (old(remainingBlocks) > 0)
      ensures !ok ==> unchanged(this)
      ensures ok ==> Current(f) && remainingBlocks == old(remainingBlocks) - 1
    {
      hide Structure, Shows, LuPagesOf;
      var prev := blocks[|blocks| - 1];
      ok := CreateBlock();
      if !ok { return; }
      label Created:
      var block := blocks[|blocks| - 1];
      block.TakeOver(prev);
      CursorMoved@Created(block);
    }

    /** The cursor of a block is no part of the structure. */
    twostate lemma CursorMoved(block: SpiffsBlock)
      requires unchanged(`blocks) && unchanged(`remainingBlocks) && unchanged(`refs)
      requires unchanged(`log) && unchanged(`repr)
      requires old(Structure()) && unchanged(old(repr) - {block})
      requires unchanged(block`pages) && unchanged(block`luPages) && unchanged(block`luPos)
      requires unchanged(block`remainingPages)
      ensures Structure()
      ensures blocks != [] ==> BlockAt(|blocks| - 1)
    {
      forall b | 0 <= b < |blocks| ensures BlockAt(b) {
        assert old(BlockAt(b));
      }
      forall n | 0 <= n < |refs| ensures Shows(n) {
        assert old(Shows(n));
      }
    }

    /** The first index page of a new object: in the last block if it has room, or in a new block. */
    method OpenObj(name: seq<byte>, contents: seq<byte>, ghost f: Stored) returns (ok: bool)
      requires Valid()
      requires f == Stored(curObjId, name, contents, [], [])
      modifies `blocks, `remainingBlocks, `refs, `log, `repr, repr
      ensures Structure() && old(repr) <= repr && fresh(repr - old(repr))
      ensures ok == (|old(log)| < Capacity())
      ensures !ok ==> log == old(log)
      ensures ok ==> log == WithIndex(old(log), f).0 && Current(WithIndex(old(log), f).1)
    {
      hide Catalog, Chunks, Holds, Current, Shows, WithIndex;
      FreePages();
      ok := false;
      if blocks != [] {
        assert BlockAt(|blocks| - 1);
        ok := BeginObj(0, 0, curObjId, |contents|, name, f);
      }
      if !ok {
        ok := CreateBlock();
        if !ok { return; }
        ok := BeginObj(0, 0, curObjId, |contents|, name, f);
      }
    }

    /** The handlers of `update_obj` failing: a new block when the block is full, or else another
        index page. */
    method MakeRoom(name: seq<byte>, contents: seq<byte>, ghost f: Stored, ghost log0: Log)
      returns (ok: bool, ghost f': Stored)
      requires Structure() && Current(f) && Progress(geo, log0, log, f)
      requires f.id == curObjId && f.name == name && f.contents == contents
      requires |f.datas| < |Chunks(geo, contents)|
      requires blocks[|blocks| - 1].remainingPages == 0
            || |log[f.ixs[|f.ixs| - 1]].pages| >= geo.IxLim(|f.ixs| - 1)
      modifies `blocks, `remainingBlocks, `refs, `log, `repr, repr
      ensures Structure() && old(repr) <= repr && fresh(repr - old(repr))
      ensures Progress(geo, log0, log, f')
      ensures f'.id == f.id && f'.name == name && f'.contents == contents && f'.datas == f.datas
      ensures ok ==> Current(f')
      ensures ok ==> |log| > |old(log)| || (|log| == |old(log)| && remainingBlocks < old(remainingBlocks))
      ensures !ok ==> |log| == Capacity()
    {
      hide Progress, Chunks, WithIndex, Shows;
      FreePages();
      var block := blocks[|blocks| - 1];
      assert BlockAt(|blocks| - 1);
      f' := f;
      if block.remainingPages <= 0 {
        ok := ContinueInNewBlock(f);
      } else {
        ProgressBegin(geo, log0, log, f);
        f' := WithIndex(log, f).1;
        ok := BeginObj(block.curObjIndexSpanIx, block.curObjDataSpanIx, curObjId, |contents|, name, f);
      }
    }

    /** One round of the loop of `create_file`: stores the chunk, or makes room for it. */
    method TryStore(name: seq<byte>, contents: seq<byte>, chunk: seq<byte>, ghost f: Stored, ghost log0: Log)
      returns (ok: bool, stored: bool, ghost f': Stored)
      requires Structure() && Current(f) && Progress(geo, log0, log, f)
      requires f.id == curObjId && f.name == name && f.contents == contents
      requires |f.datas| < |Chunks(geo, contents)| && chunk == Chunks(geo, contents)[|f.datas|]
      modifies `blocks, `remainingBlocks, `refs, `log, `repr, repr
      ensures Structure() && old(repr) <= repr && fresh(repr - old(repr))
      ensures Progress(geo, log0, log, f')
      ensures f'.id == f.id && f'.name == name && f'.contents == contents
      ensures |f'.datas| == |f.datas| + (if ok && stored then 1 else 0)
      ensures ok && stored ==> EndsInData(log)
      ensures ok ==> Current(f')
      ensures ok ==> |log| > |old(log)| || (|log| == |old(log)| && remainingBlocks < old(remainingBlocks))
      ensures !ok ==> |log| == Capacity()
    {
      hide Progress, Chunks, WithData, EndsInData, Shows, LuPagesOf, AtLuPage, EntriesOf;
      assert BlockAt(|blocks| - 1);
      stored := UpdateObj(chunk, f);
      if stored {
        ok := true;
        ProgressData(geo, log0, old(log), f, chunk);
        f' := WithData(geo, old(log), f, chunk).1;
      } else {
        ok, f' := MakeRoom(name, contents, f, log0);
      }
    }

    /** The loop of `create_file`. */
    method WriteChunks(name: seq<byte>, contents: seq<byte>, ghost f0: Stored, ghost log0: Log)
      returns (ok: bool, ghost f: Stored)
      requires Structure() && Current(f0) && Progress(geo, log0, log, f0)
      requires f0.id == curObjId && f0.name == name && f0.contents == contents && f0.datas == []
      modifies `blocks, `remainingBlocks, `refs, `log, `repr, repr
      ensures Structure() && old(repr) <= repr && fresh(repr - old(repr))
      ensures Progress(geo, log0, log, f) && f.id == f0.id && f.name == name && f.contents == contents
      ensures ok ==> |f.datas| == |Chunks(geo, contents)| && Current(f)
      ensures ok && f.datas != [] ==> EndsInData(log)
      ensures contents == [] ==> log == old(log)
      ensures !ok ==> |f.datas| < |Chunks(geo, contents)| && |log| == Capacity()
    {
      hide Progress, Reading, Chunks, EndsInData, BlockAt, Shows, Current;
      f := f0;
      var k := Min(geo.contentLen, |contents|);
      var chunk, unread := contents[..k], contents[k..];
      ReadFirst(geo, contents, k);
      ok := true;
      while chunk != []
        invariant Structure() && old(repr) <= repr && fresh(repr - old(repr)) && Current(f)
        invariant Progress(geo, log0, log, f)
        invariant f.id == f0.id && f.name == name && f.contents == contents
        invariant Reading(geo, contents, |f.datas|, chunk, unread)
        invariant |f.datas| > 0 && |f.datas| == |Chunks(geo, contents)| ==> EndsInData(log)
        invariant contents == [] ==> chunk == [] && log == old(log)
        decreases Capacity() - |log|, remainingBlocks
      {
        FreePages();
        k := Min(geo.contentLen, |unread|);
        ReadNext(geo, contents, |f.datas|, chunk, unread, k);
        var stored;
        ok, stored, f := TryStore(name, contents, chunk, f, log0);
        if !ok { return; }
        if stored {
          chunk, unread := unread[..k], unread[k..];
        }
      }
      ReadDone(geo, contents, |f.datas|, unread);
    }
  
    /** Stores a file, or says why it cannot: exactly when its pages exceed the free ones, and then
        none is left.  Pages of earlier files are never touched. */
    method CreateFile(name: seq<byte>, contents: seq<byte>) returns (error: Option<FsError>)
      requires Valid()
      modifies this, repr
      ensures Valid() && old(repr) <= repr && fresh(repr - old(repr))
      ensures error == Some(NameTooLong) <==> |name| > objNameLen
      ensures error == Some(SpiffsFull) <==>
        |name| <= objNameLen && |old(log)| + PagesNeeded(geo, |contents|) > Capacity()
      ensures error == Some(NameTooLong) ==> unchanged(this)
      ensures error == Some(SpiffsFull) ==> |log| == Capacity() && files == old(files) && curObjId == old(curObjId)
      ensures error == None ==>
        && curObjId == old(curObjId) + 1
        && Clean(geo, log, files)
        && |log| == |old(log)| + PagesNeeded(geo, |contents|)
        && (if contents != [] then EndsInData(log)
            else log[|old(log)|..] == [Index(old(curObjId), 0, 0, name, [])])
        && (exists ixs, datas :: files == old(files) + [Stored(old(curObjId), name, contents, ixs, datas)])
      ensures Extends(old(log), log, old(curObjId))
    {
      hide Structure, Catalog, Clean, Progress, Holds, Complete, Extends, Chunks, PagesNeeded, Current, EndsInData;
      FreePages();
      if |name| > objNameLen {
        ExtendsSelf(log, curObjId);
        return Some(NameTooLong);
      }
      ghost var log0 := log;
      ghost var f := Stored(curObjId, name, contents, [], []);
      ProgressOpen(geo, Capacity(), log, files, f);
      var ok := OpenObj(name, contents, f);
      if !ok {
        return Some(SpiffsFull);
      }
      FreePages();
      ok, f := WriteChunks(name, contents, WithIndex(log0, f).1, log0);
      if !ok {
        ProgressNotDone(geo, log0, log, f);
        CatalogFull(geo, Capacity(), log0, files, curObjId, log);
        return Some(SpiffsFull);
      }
      ProgressDone(geo, log0, log, f);
      FreePages();
      CatalogAfter(geo, Capacity(), log0, files, curObjId, log, f);
      EndObj(f);
      return None;
    }

    /** `end_obj`, and the next object id. */
    method EndObj(ghost f: Stored)
      requires Structure() && Current(f) && this !in repr
      modifies `curObjId, `files, repr
      ensures Structure()
      ensures curObjId == old(curObjId) + 1 && files == old(files) + [f]
    {
      hide Structure;
      var block := blocks[|blocks| - 1];
      block.Reset();
      curObjId := curObjId + 1;
      files := files + [f];
      CursorMoved(block);
    }
  
    // ----- the image

    /** The blocks from `b` on are as `create_file` left them. */
    ghost predicate Unwritten(b: nat)
      reads this, repr
    {
      && geo.Valid() && this !in repr && |refs| == |log|
      && (forall i :: b <= i < |blocks| ==> BlockAt(i))
      && (forall n :: 0 <= n < |refs| ==> Shows(n))
      && (b < |blocks| ==> BlockAt(|blocks| - 1) && |refs| == blocks[|blocks| - 1].base + |blocks[|blocks| - 1].pages|)
    }

    /** What block `b` holds is its part of the log. */
    lemma BlockValues(b: nat)
      requires Unwritten(b) && b < |blocks|
      ensures |InBlock(geo, log, b)| == |blocks[b].pages|
      ensures forall i :: 0 <= i < |blocks[b].pages| ==> ValueOf(blocks[b].pages[i]) == InBlock(geo, log, b)[i]
    {
      hide LuPagesOf, AtLuPage;
      var block := blocks[b];
      assert BlockAt(b);
      forall i | 0 <= i < |block.pages| ensures ValueOf(block.pages[i]) == log[block.base + i] {
        assert Shows(block.base + i);
      }
    }

    method WriteBlock(cfg: Config, b: nat) returns (part: Option<seq<byte>>)
      requires Unwritten(b) && b < |blocks| <= blocksLim && Matches(cfg, geo)
      modifies repr
      ensures Unwritten(b + 1)
      ensures part == if BlockPacks(cfg, geo, blocksLim, b, InBlock(geo, log, b))
                      then Some(BlockBytes(cfg, geo, blocksLim, b, InBlock(geo, log, b))) else None
    {
      hide BlockPacks, BlockBytes, InBlock, LuPagesOf, AtLuPage, Matches;
      BlockValues(b);
      assert BlockAt(b);
      part := blocks[b].ToBinary(cfg, blocksLim, InBlock(geo, log, b));
      forall i | b < i < |blocks| ensures BlockAt(i) {
        assert old(BlockAt(i));
      }
      forall n | 0 <= n < |refs| ensures Shows(n) {
        assert old(Shows(n));
      }
    }

    /** The blocks in use, one after the other. */
    method UsedBlocks(cfg: Config) returns (img: Option<seq<byte>>)
      requires Unwritten(0) && |blocks| <= blocksLim && Matches(cfg, geo)
      modifies repr
      ensures img == if forall b :: 0 <= b < |blocks| ==> BlockPacks(cfg, geo, blocksLim, b, InBlock(geo, log, b))
                     then Some(Flatten(ImageBlocks(cfg, geo, blocksLim, log)[..|blocks|])) else None
    {
      hide Flatten, BlockPacks, BlockBytes, InBlock, Matches;
      MatchesGeometry(cfg, geo);
      ghost var parts := ImageBlocks(cfg, geo, blocksLim, log);
      assert Flatten(parts[..0]) == [] by { FlattenLength(parts[..0], 0); }
      var all: seq<byte> := [];
      for b := 0 to |blocks|
        invariant all == Flatten(parts[..b])
        invariant Unwritten(b)
        invariant forall i :: 0 <= i < b ==> BlockPacks(cfg, geo, blocksLim, i, InBlock(geo, log, i))
      {
        var part := WriteBlock(cfg, b);
        if part.None? { return None; }
        FlattenSnoc(parts, b);
        all := all + part.value;
      }
      img := Some(all);
    }

    /** Empty blocks with magic numbers, for the blocks not in use. */
    method MagicBlocks(cfg: Config) returns (img: Option<seq<byte>>)
      requires geo.Valid() && Matches(cfg, geo)
      requires forall b :: |blocks| <= b < blocksLim ==> InBlock(geo, log, b) == []
      requires |blocks| <= blocksLim && remainingBlocks == blocksLim - |blocks|
      modifies `remainingBlocks
      ensures img ==
        if forall b :: |blocks| <= b < blocksLim ==> BlockPacks(cfg, geo, blocksLim, b, InBlock(geo, log, b))
        then Some(Flatten(ImageBlocks(cfg, geo, blocksLim, log)[|blocks|..])) else None
      ensures img.Some? ==> remainingBlocks == 0
    {
      hide Flatten, BlockPacks, BlockBytes, InBlock, LuPagesOf, AtLuPage, Matches;
      PagesNotEmpty(cfg, geo);
      var n := |blocks|;
      ghost var parts := ImageBlocks(cfg, geo, blocksLim, log)[n..];
      var bix := n;
      var all: seq<byte> := [];
      assert Flatten(parts[..0]) == [] by { FlattenLength(parts[..0], 0); }
      while remainingBlocks > 0
        invariant n <= bix <= blocksLim && remainingBlocks == blocksLim - bix
        invariant all == Flatten(parts[..bix - n])
        invariant forall b :: n <= b < bix ==> BlockPacks(cfg, geo, blocksLim, b, InBlock(geo, log, b))
      {
        assert InBlock(geo, log, bix) == [];
        var block := new SpiffsBlock(bix, geo);
        var part := block.ToBinary(cfg, blocksLim, []);
        if part.None? { return None; }
        FlattenSnoc(parts, bix - n);
        all := all + part.value;
        remainingBlocks := remainingBlocks - 1;
        bix := bix + 1;
      }
      assert parts[..blocksLim - n] == parts;
      img := Some(all);
    }

    /** Without magic numbers the blocks not in use are one blank stretch. */
    lemma BlankBlocks(cfg: Config, n: nat)
      requires geo.Valid() && Matches(cfg, geo) && !cfg.useMagic && n <= blocksLim
      requires forall b :: n <= b < blocksLim ==> InBlock(geo, log, b) == []
      ensures forall b :: n <= b < blocksLim ==> BlockPacks(cfg, geo, blocksLim, b, InBlock(geo, log, b))
      ensures Flatten(ImageBlocks(cfg, geo, blocksLim, log)[n..])
           == Fill(0xFF, blocksLim * cfg.blockSize - n * cfg.blockSize)
    {
      var parts, size := ImageBlocks(cfg, geo, blocksLim, log), cfg.blockSize;
      hide Flatten, BlockPacks, BlockBytes, InBlock, Fill, ImageBlocks, Geometry.Valid;
      forall b: nat | n <= b < blocksLim
        ensures BlockPacks(cfg, geo, blocksLim, b, InBlock(geo, log, b)) && parts[b] == Fill(0xFF, size)
      {
        BlankBlock(cfg, geo, blocksLim, b);
        ImageBlock(cfg, b);
      }
      hide Matches;
      BlankStretch(parts, n, size);
    }

    lemma BlankStretch(parts: seq<seq<byte>>, n: nat, size: nat)
      requires n <= |parts| && forall b :: n <= b < |parts| ==> parts[b] == Fill(0xFF, size)
      ensures Flatten(parts[n..]) == Fill(0xFF, |parts| * size - n * size)
    {
      hide Flatten, Fill;
      assert parts[n..] == seq(|parts| - n, _ => Fill(0xFF, size));
      FlattenFill(0xFF, size, |parts| - n);
      MulSubtract(|parts|, n, size);
    }

    lemma ImageBlock(cfg: Config, b: nat)
      requires cfg.pageSize > 0 && b < blocksLim
      ensures ImageBlocks(cfg, geo, blocksLim, log)[b] == BlockBytes(cfg, geo, blocksLim, b, InBlock(geo, log, b))
    {
    }

    /** The blocks not in use. */
    method UnusedBlocks(cfg: Config) returns (img: Option<seq<byte>>)
      requires geo.Valid() && |log| <= |blocks| * geo.usable && Matches(cfg, geo)
      requires |blocks| <= blocksLim && remainingBlocks == blocksLim - |blocks|
      modifies `remainingBlocks
      ensures img ==
        if forall b :: |blocks| <= b < blocksLim ==> BlockPacks(cfg, geo, blocksLim, b, InBlock(geo, log, b))
        then Some(Flatten(ImageBlocks(cfg, geo, blocksLim, log)[|blocks|..])) else None
      ensures img.Some? ==> remainingBlocks == if cfg.useMagic then 0 else old(remainingBlocks)
    {
      hide Flatten, BlockPacks, InBlock, Matches, ImageBlocks, Fill;
      forall b | |blocks| <= b < blocksLim ensures InBlock(geo, log, b) == [] {
        EmptyBlock(geo, log, |blocks|, b);
      }
      if cfg.useMagic {
        img := MagicBlocks(cfg);
      } else {
        BlankBlocks(cfg, |blocks|);
        img := Some(Fill(0xFF, blocksLim * cfg.blockSize - |blocks| * cfg.blockSize));
      }
    }

    lemma EmptyBlock(geo: Geometry, log: Log, n: nat, b: nat)
      requires |log| <= n * geo.usable && n <= b
      ensures InBlock(geo, log, b) == []
    {
      MulLe(n, b, geo.usable);
    }

    /** The image, if everything in it can be packed. */
    method ToBinary(cfg: Config) returns (img: Option<seq<byte>>)
      requires Valid() && Matches(cfg, geo)
      modifies repr, `remainingBlocks
      ensures log == old(log)
      ensures img == if ImagePacks(cfg, geo, blocksLim, log) then Some(Image(cfg, geo, blocksLim, log)) else None
    {
      hide Catalog, Flatten, BlockPacks, ImageBlocks, Matches;
      MatchesGeometry(cfg, geo);
      FreePages();
      LogInBlocks();
      var used := UsedBlocks(cfg);
      if used.None? { return None; }
      var rest := UnusedBlocks(cfg);
      if rest.None? { return None; }
      ghost var parts := ImageBlocks(cfg, geo, blocksLim, log);
      assert parts == parts[..|blocks|] + parts[|blocks|..];
      FlattenAppend(parts[..|blocks|], parts[|blocks|..]);
      img := Some(used.value + rest.value);
    }

    lemma LogInBlocks()
      requires Structure()
      ensures |log| <= |blocks| * geo.usable && Unwritten(0)
    {
      if blocks != [] {
        assert BlockAt(|blocks| - 1);
        OneMore(|blocks|, geo.usable);
      }
    }
  }
}
