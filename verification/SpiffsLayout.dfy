/** Where the pages of a file go.  The usable pages of all blocks, in the order in which they are
    allocated, form one log; a stored file names the log positions of its index and data pages. */
module SpiffsLayout {
  import opened Arith
  import opened ByteFields
  import opened SpiffsConfig

  datatype Page =
    | Index(objId: nat, spanIx: nat, size: nat, name: seq<byte>, pages: seq<nat>)
    | Data(offset: nat, objId: nat, spanIx: nat, contents: seq<byte>)

  type Log = seq<Page>

  /** A file in the image: its object id and the log positions of its pages, both in span order. */
  datatype Stored = Stored(id: nat, name: seq<byte>, contents: seq<byte>, ixs: seq<nat>, datas: seq<nat>)

  /** Pages in an image of so many blocks, lookup pages included. */
  function PageCount(geo: Geometry, blocksLim: nat): nat {
    blocksLim * geo.pagesPerBlock
  }

  /** The number, in the whole image, of page `k` of block `bix`. */
  function PageIn(geo: Geometry, bix: nat, k: nat): nat {
    bix * geo.pagesPerBlock + k
  }

  /** The number, in the whole image, of the page at log position `n`. */
  function PageNo(geo: Geometry, n: nat): nat
    requires geo.Valid()
  {
    PageIn(geo, n / geo.usable, geo.luPages + n % geo.usable)
  }

  function Offset(geo: Geometry, n: nat): nat
    requires geo.Valid()
  {
    PageNo(geo, n) * geo.pageSize
  }

  /** The offset a block gives its next page. */
  lemma OffsetInBlock(geo: Geometry, bix: nat, k: nat)
    requires geo.Valid() && k < geo.usable
    ensures Offset(geo, bix * geo.usable + k)
         == bix * (geo.pagesPerBlock * geo.pageSize) + (geo.luPages + k) * geo.pageSize
  {
    DivModUnique(bix * geo.usable + k, geo.usable, bix, k);
    MulDistribute(bix, geo.pagesPerBlock, geo.luPages + k, geo.pageSize);
  }

  lemma MulDistribute(a: nat, b: nat, c: nat, d: nat)
    ensures (a * b + c) * d == a * (b * d) + c * d
  {
  }

  /** What successive `stream.read(OBJ_DATA_PAGE_CONTENT_LEN)` calls return before the empty one. */
  function Chunks(geo: Geometry, contents: seq<byte>): (chunks: seq<seq<byte>>)
    requires geo.contentLen >= 1
    ensures forall c :: c in chunks ==> 1 <= |c| <= geo.contentLen
  {
    if contents == [] then [] else
    var k := Min(geo.contentLen, |contents|);
    [contents[..k]] + Chunks(geo, contents[k..])
  }

  lemma {:induction false} FlattenChunks(geo: Geometry, contents: seq<byte>)
    requires geo.contentLen >= 1
    ensures Flatten(Chunks(geo, contents)) == contents
    ensures |Chunks(geo, contents)| == CeilDiv(|contents|, geo.contentLen)
  {
    var c := geo.contentLen;
    if contents == [] {
      CeilDivUnique(0, c, 0);
    } else {
      var k := Min(c, |contents|);
      FlattenChunks(geo, contents[k..]);
      assert contents == contents[..k] + contents[k..];
      assert Chunks(geo, contents)[1..] == Chunks(geo, contents[k..]);
      OneChunkMore(|contents|, c);
    }
  }

  lemma OneChunkMore(n: nat, c: nat)
    requires n >= 1 && c >= 1
    ensures CeilDiv(n, c) == CeilDiv(n - Min(c, n), c) + 1
  {
    var q := CeilDiv(n - Min(c, n), c);
    CeilDivBounds(n - Min(c, n), c);
    assert (q + 1) * c == q * c + c;
    if n < c { CeilDivUnique(0, c, 0); }
    CeilDivUnique(n, c, q + 1);
  }

  /** The data span that index page `g` starts with: all earlier index pages are full. */
  function First(geo: Geometry, g: nat): nat
    requires geo.Valid()
  {
    if g == 0 then 0 else First(geo, g - 1) + geo.IxLim(g - 1)
  }

  lemma {:induction false} FirstMonotone(geo: Geometry, g: nat, h: nat)
    requires geo.Valid() && g <= h
    ensures First(geo, g) <= First(geo, h)
    decreases h - g
  {
    if g < h {
      FirstMonotone(geo, g + 1, h);
    }
  }

  /** First in closed form: `H + (g - 1) * M`. */
  lemma {:induction false} FirstClosed(geo: Geometry, g: nat)
    requires geo.Valid() && g >= 1
    ensures First(geo, g) == geo.headLim + (g - 1) * geo.lim
  {
    if g == 1 {
      assert First(geo, 0) == 0;
    } else {
      FirstClosed(geo, g - 1);
      assert geo.IxLim(g - 1) == geo.lim;
      assert (g - 1) * geo.lim == (g - 2) * geo.lim + geo.lim;
    }
  }

  /** Index pages a file of `d` data pages needs: the head, and as many more as the rest fills. */
  function IndexPagesNeeded(geo: Geometry, d: nat): nat
    requires geo.Valid()
  {
    1 + (if d <= geo.headLim then 0 else CeilDiv(d - geo.headLim, geo.lim))
  }

  function PagesNeeded(geo: Geometry, size: nat): nat
    requires geo.Valid()
  {
    var d := CeilDiv(size, geo.contentLen);
    d + IndexPagesNeeded(geo, d)
  }

  /** `n` index pages, the last of them begun only because the others were full, are not too many. */
  lemma IndexPagesBound(geo: Geometry, d: nat, n: nat)
    requires geo.Valid() && n >= 1
    requires n >= 2 ==> First(geo, n - 1) < d
    ensures n <= IndexPagesNeeded(geo, d)
  {
    if n >= 2 {
      FirstClosed(geo, n - 1);
      var h, m := geo.headLim, geo.lim;
      MulLe(0, n - 2, m);
      var q := CeilDiv(d - h, m);
      CeilDivBounds(d - h, m);
      if q <= n - 2 {
        MulLe(q, n - 2, m);
      }
    }
  }

  /** The least number of index pages whose limits add up to `d` is the closed formula. */
  lemma LeastIndexPages(geo: Geometry, d: nat, n: nat)
    requires geo.Valid() && n >= 1
    requires d <= First(geo, n)
    requires n >= 2 ==> First(geo, n - 1) < d
    ensures n == IndexPagesNeeded(geo, d)
  {
    IndexPagesBound(geo, d, n);
    FirstClosed(geo, n);
    var h, m := geo.headLim, geo.lim;
    if d > h {
      var q := CeilDiv(d - h, m);
      CeilDivBounds(d - h, m);
      assert n * m == (n - 1) * m + m;
      if n <= q {
        MulLe(n, q, m);
      }
    }
  }

  /** The page offsets index page `g` lists. */
  function Entries(geo: Geometry, f: Stored, g: nat): (offsets: seq<nat>)
    requires geo.Valid() && First(geo, g) <= |f.datas|
  {
    var n := Min(First(geo, g + 1), |f.datas|) - First(geo, g);
    seq<nat>(n, k requires 0 <= k < n => Offset(geo, f.datas[First(geo, g) + k]))
  }

  ghost predicate HoldsDatas(geo: Geometry, log: Log, f: Stored)
    requires geo.Valid()
  {
    var chunks := Chunks(geo, f.contents);
    && |f.datas| <= |chunks|
    && forall d :: 0 <= d < |f.datas| ==>
         f.datas[d] < |log| && log[f.datas[d]] == Data(Offset(geo, f.datas[d]), f.id, d, chunks[d])
  }

  ghost predicate HoldsIndexes(geo: Geometry, log: Log, f: Stored)
    requires geo.Valid()
  {
    && |f.ixs| >= 1
    && First(geo, |f.ixs| - 1) <= |f.datas| <= First(geo, |f.ixs|)
    && forall g :: 0 <= g < |f.ixs| ==>
         && f.ixs[g] < |log|
         && First(geo, g) <= |f.datas|
         && log[f.ixs[g]] == Index(f.id, g, |f.contents|, f.name, Entries(geo, f, g))
  }

  /** Every page that carries the object id is where the file says. */
  ghost predicate HoldsNoOthers(log: Log, f: Stored) {
    forall n :: 0 <= n < |log| && log[n].objId == f.id ==>
      match log[n]
      case Index(_, span, _, _, _) => span < |f.ixs| && f.ixs[span] == n
      case Data(_, _, span, _) => span < |f.datas| && f.datas[span] == n
  }

  /** The log holds the index pages of `f` begun so far and its first `|f.datas|` data pages. */
  ghost predicate Holds(geo: Geometry, log: Log, f: Stored)
    requires geo.Valid()
  {
    HoldsDatas(geo, log, f) && HoldsIndexes(geo, log, f) && HoldsNoOthers(log, f)
  }

  /** The log holds all of `f`, with no index page to spare. */
  ghost predicate Complete(geo: Geometry, log: Log, f: Stored)
    requires geo.Valid()
  {
    && Holds(geo, log, f)
    && |f.datas| == |Chunks(geo, f.contents)|
    && |f.ixs| == IndexPagesNeeded(geo, |f.datas|)
  }

  /** Only pages of object `id` are new or different. */
  ghost predicate Extends(log: Log, log': Log, id: nat) {
    && |log| <= |log'|
    && (forall n :: 0 <= n < |log| ==> log'[n].objId == log[n].objId && (log[n].objId != id ==> log'[n] == log[n]))
    && (forall n :: |log| <= n < |log'| ==> log'[n].objId == id)
  }

  lemma ExtendsSelf(log: Log, id: nat)
    ensures Extends(log, log, id)
  {
  }

  lemma ExtendsTransitive(a: Log, b: Log, c: Log, id: nat)
    requires Extends(a, b, id) && Extends(b, c, id)
    ensures Extends(a, c, id)
  {
    forall n | |a| <= n < |c| ensures c[n].objId == id {
      if n < |b| { assert b[n].objId == id; }
    }
  }

  lemma HoldsFrame(geo: Geometry, log: Log, log': Log, id: nat, f: Stored)
    requires geo.Valid() && Extends(log, log', id) && f.id != id
    requires Holds(geo, log, f)
    ensures Holds(geo, log', f)
  {
    forall d | 0 <= d < |f.datas|
      ensures f.datas[d] < |log'| && log'[f.datas[d]] == log[f.datas[d]]
    {
      assert log[f.datas[d]].objId == f.id;
    }
    forall g | 0 <= g < |f.ixs|
      ensures f.ixs[g] < |log'| && log'[f.ixs[g]] == log[f.ixs[g]]
    {
      assert log[f.ixs[g]].objId == f.id;
    }
    forall n | 0 <= n < |log'| && log'[n].objId == f.id
      ensures n < |log| && log'[n] == log[n]
    {
    }
  }

  lemma CompleteFrame(geo: Geometry, log: Log, log': Log, id: nat, f: Stored)
    requires geo.Valid() && Extends(log, log', id) && f.id != id
    requires Complete(geo, log, f)
    ensures Complete(geo, log', f)
  {
    HoldsFrame(geo, log, log', id, f);
  }

  /** `begin_obj`: one more index page, empty. */
  function WithIndex(log: Log, f: Stored): (Log, Stored) {
    (log + [Index(f.id, |f.ixs|, |f.contents|, f.name, [])], f.(ixs := f.ixs + [|log|]))
  }

  lemma BeginFirst(geo: Geometry, log: Log, f: Stored)
    requires geo.Valid() && f.ixs == [] && f.datas == []
    requires forall n :: 0 <= n < |log| ==> log[n].objId != f.id
    ensures Holds(geo, WithIndex(log, f).0, WithIndex(log, f).1)
    ensures Extends(log, WithIndex(log, f).0, f.id)
  {
    var (log', f') := WithIndex(log, f);
    assert Entries(geo, f', 0) == [];
  }

  lemma BeginNext(geo: Geometry, log: Log, f: Stored)
    requires geo.Valid() && Holds(geo, log, f)
    requires |f.datas| == First(geo, |f.ixs|)
    ensures Holds(geo, WithIndex(log, f).0, WithIndex(log, f).1)
    ensures Extends(log, WithIndex(log, f).0, f.id)
  {
    BeginNextIndexes(geo, log, f);
    BeginNextDatas(geo, log, f);
    hide HoldsIndexes, HoldsDatas, HoldsNoOthers, Extends;
  }

  lemma BeginNextDatas(geo: Geometry, log: Log, f: Stored)
    requires geo.Valid() && HoldsDatas(geo, log, f) && HoldsNoOthers(log, f)
    ensures HoldsDatas(geo, WithIndex(log, f).0, WithIndex(log, f).1)
    ensures HoldsNoOthers(WithIndex(log, f).0, WithIndex(log, f).1)
    ensures Extends(log, WithIndex(log, f).0, f.id)
  {
    hide Chunks;
  }

  lemma BeginNextIndexes(geo: Geometry, log: Log, f: Stored)
    requires geo.Valid() && HoldsIndexes(geo, log, f)
    requires |f.datas| == First(geo, |f.ixs|)
    ensures HoldsIndexes(geo, WithIndex(log, f).0, WithIndex(log, f).1)
  {
    var (log', f') := WithIndex(log, f);
    assert Entries(geo, f', |f.ixs|) == [];
    forall g | 0 <= g < |f'.ixs|
      ensures f'.ixs[g] < |log'| && First(geo, g) <= |f'.datas|
      ensures log'[f'.ixs[g]] == Index(f.id, g, |f.contents|, f.name, Entries(geo, f', g))
    {
      if g < |f.ixs| {
        assert Entries(geo, f', g) == Entries(geo, f, g);
        assert f'.ixs[g] == f.ixs[g];
      }
    }
  }

  /** `update_obj`: one more data page, listed in the current index page. */
  function WithData(geo: Geometry, log: Log, f: Stored, chunk: seq<byte>): (Log, Stored)
    requires geo.Valid() && |f.ixs| >= 1 && f.ixs[|f.ixs| - 1] < |log| && log[f.ixs[|f.ixs| - 1]].Index?
  {
    var cur := f.ixs[|f.ixs| - 1];
    var offset := Offset(geo, |log|);
    (log[cur := log[cur].(pages := log[cur].pages + [offset])] + [Data(offset, f.id, |f.datas|, chunk)],
     f.(datas := f.datas + [|log|]))
  }

  lemma AppendData(geo: Geometry, log: Log, f: Stored, chunk: seq<byte>)
    requires geo.Valid() && Holds(geo, log, f)
    requires |f.datas| < |Chunks(geo, f.contents)| && chunk == Chunks(geo, f.contents)[|f.datas|]
    requires |f.datas| < First(geo, |f.ixs|)
    ensures Holds(geo, WithData(geo, log, f, chunk).0, WithData(geo, log, f, chunk).1)
    ensures Extends(log, WithData(geo, log, f, chunk).0, f.id)
  {
    AppendDataIndexes(geo, log, f, chunk);
    AppendDataDatas(geo, log, f, chunk);
    AppendDataOthers(geo, log, f, chunk);
  }

  lemma AppendDataIndexes(geo: Geometry, log: Log, f: Stored, chunk: seq<byte>)
    requires geo.Valid() && HoldsIndexes(geo, log, f)
    requires |f.datas| < First(geo, |f.ixs|)
    ensures HoldsIndexes(geo, WithData(geo, log, f, chunk).0, WithData(geo, log, f, chunk).1)
  {
    hide Offset, First, Entries;
    var (log', f') := WithData(geo, log, f, chunk);
    var last := |f.ixs| - 1;
    EntriesGrow(geo, f, f', last, |log|);
    forall g | 0 <= g < |f.ixs|
      ensures f'.ixs[g] < |log'| && First(geo, g) <= |f'.datas|
      ensures log'[f'.ixs[g]] == Index(f.id, g, |f.contents|, f.name, Entries(geo, f', g))
    {
      if g < last {
        EntriesKept(geo, f, f', g);
        assert log[f.ixs[g]].spanIx == g && log[f.ixs[last]].spanIx == last;
      }
    }
  }

  /** A full index page lists the same pages when one more data page is added. */
  lemma EntriesKept(geo: Geometry, f: Stored, f': Stored, g: nat)
    requires geo.Valid() && g + 1 < |f.ixs| && First(geo, |f.ixs| - 1) <= |f.datas|
    requires |f.datas| < |f'.datas| && f'.datas[..|f.datas|] == f.datas
    ensures First(geo, g) <= |f.datas| && Entries(geo, f', g) == Entries(geo, f, g)
  {
    hide Offset;
    FirstMonotone(geo, g, |f.ixs| - 1);
    FirstMonotone(geo, g + 1, |f.ixs| - 1);
    forall k | First(geo, g) <= k < First(geo, g + 1) ensures f'.datas[k] == f.datas[k] {
      assert f'.datas[..|f.datas|][k] == f.datas[k];
    }
  }

  lemma EntriesGrow(geo: Geometry, f: Stored, f': Stored, last: nat, n: nat)
    requires geo.Valid() && First(geo, last) <= |f.datas| < First(geo, last + 1)
    requires f'.datas == f.datas + [n]
    ensures Entries(geo, f', last) == Entries(geo, f, last) + [Offset(geo, n)]
  {
    hide Offset, First;
  }

  lemma AppendDataDatas(geo: Geometry, log: Log, f: Stored, chunk: seq<byte>)
    requires geo.Valid() && HoldsIndexes(geo, log, f) && HoldsDatas(geo, log, f)
    requires |f.datas| < |Chunks(geo, f.contents)| && chunk == Chunks(geo, f.contents)[|f.datas|]
    ensures HoldsDatas(geo, WithData(geo, log, f, chunk).0, WithData(geo, log, f, chunk).1)
  {
    hide Chunks, Offset, Entries, First, Geometry.Valid;
    var (log', f') := WithData(geo, log, f, chunk);
    forall d | 0 <= d < |f.datas|
      ensures f'.datas[d] < |log'| && log'[f'.datas[d]] == log[f.datas[d]]
    {
    }
  }

  lemma AppendDataOthers(geo: Geometry, log: Log, f: Stored, chunk: seq<byte>)
    requires geo.Valid() && HoldsIndexes(geo, log, f) && HoldsNoOthers(log, f)
    ensures HoldsNoOthers(WithData(geo, log, f, chunk).0, WithData(geo, log, f, chunk).1)
    ensures Extends(log, WithData(geo, log, f, chunk).0, f.id)
  {
    hide Chunks, Offset, Entries, First, Geometry.Valid;
    var (log', f') := WithData(geo, log, f, chunk);
    forall n | 0 <= n < |log|
      ensures log'[n].objId == log[n].objId && log'[n].spanIx == log[n].spanIx && log'[n].Index? == log[n].Index?
    {
    }
  }

  /** The current index page has room exactly while `|f.datas| < First(|f.ixs|)`. */
  lemma RoomInIndex(geo: Geometry, log: Log, f: Stored)
    requires geo.Valid() && Holds(geo, log, f)
    ensures |log[f.ixs[|f.ixs| - 1]].pages| <= geo.IxLim(|f.ixs| - 1)
    ensures |log[f.ixs[|f.ixs| - 1]].pages| < geo.IxLim(|f.ixs| - 1) <==> |f.datas| < First(geo, |f.ixs|)
  {
    var last := |f.ixs| - 1;
    assert First(geo, last + 1) == First(geo, last) + geo.IxLim(last);
    assert log[f.ixs[last]].pages == Entries(geo, f, last);
  }
}
