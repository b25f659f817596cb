/** The parts of the generator that are filled in place: index pages, and the block that allocates
    pages.  Raising `SpiffsFullError` is returning `false`; failing to pack or to fit is `None`. */
module SpiffsPages {
  import opened ByteFields
  import opened SpiffsConfig
  import opened SpiffsImage
  import opened SpiffsLayout
  import opened SpiffsLookup
  import opened Wrappers

  class SpiffsObjIndexPage {
    const objId: nat
    const spanIx: nat
    const size: nat
    const name: seq<byte>
    ghost const pos: nat  // its position in the log of allocated pages
    var pagesLim: int
    var pages: seq<nat>

    constructor (objId: nat, spanIx: nat, size: nat, name: seq<byte>, geo: Geometry, ghost pos: nat)
      ensures this.objId == objId && this.spanIx == spanIx && this.size == size && this.name == name
      ensures this.pos == pos && pagesLim == geo.IxLim(spanIx) && pages == []
    {
      this.objId, this.spanIx, this.size, this.name, this.pos := objId, spanIx, size, name, pos;
      pagesLim := if spanIx == 0 then geo.headLim else geo.lim;
      pages := [];
    }

    method RegisterPage(offset: nat) returns (ok: bool)
      modifies this
      ensures ok == (old(pagesLim) > 0)
      ensures pages == if ok then old(pages) + [offset] else old(pages)
      ensures pagesLim == if ok then old(pagesLim) - 1 else old(pagesLim)
      ensures !ok ==> unchanged(this)
    {
      ok := pagesLim > 0;
      if ok {
        pages := pages + [offset];
        pagesLim := pagesLim - 1;
      }
    }

    function Value(): Page
      reads this
    {
      Index(objId, spanIx, size, name, pages)
    }

    method ToBinary(cfg: Config) returns (bytes: Option<seq<byte>>)
      requires cfg.pageSize > 0
      ensures bytes == if PagePacks(cfg, Value()) then Some(PageBytes(cfg, Value())) else None
    {
      hide Toggle, Flatten, PageNumbers;
      var header := PackHeader(cfg, Toggle(cfg.objIdLen, objId), spanIx, USED_FINAL_INDEX);
      if header.None? { return None; }
      var img := header.value + Fill(0xFF, cfg.HeaderPad());
      if spanIx == 0 {
        var sizeField := PackField(cfg, IX_SIZE_LEN, size);
        if sizeField.None? { return None; }
        img := img + (sizeField.value + [TYPE_FILE]
                      + name + Fill(0, cfg.objNameLen - |name| + cfg.metaLen + cfg.HeadPad()));
      }
      assert spanIx != 0 ==> img + [] == img;
      var numbers := PackPages(cfg, pages);
      if numbers.None? { return None; }
      bytes := PadPage(cfg, img + numbers.value);
    }
  }

  /** The page numbers of an index page, packed one after the other. */
  method PackPages(cfg: Config, pages: seq<nat>) returns (bytes: Option<seq<byte>>)
    requires cfg.pageSize > 0
    ensures bytes == if forall i :: 0 <= i < |pages| ==> Fits(cfg.pageIxLen, PageShift(cfg.pageSize, pages[i]))
                     then Some(Flatten(PageNumbers(cfg, pages))) else None
  {
    hide Flatten;
    var img := [];
    var parts := PageNumbers(cfg, pages);
    assert Flatten(parts[..0]) == [] by { FlattenLength(parts[..0], 0); }
    for i := 0 to |pages|
      invariant img == Flatten(parts[..i])
      invariant forall k :: 0 <= k < i ==> Fits(cfg.pageIxLen, PageShift(cfg.pageSize, pages[k]))
    {
      var field := PackField(cfg, cfg.pageIxLen, PageShift(cfg.pageSize, pages[i]));
      if field.None? { return None; }
      FlattenSnoc(parts, i);
      img := img + field.value;
    }
    assert parts[..|pages|] == parts;
    bytes := Some(img);
  }

  method PackField(cfg: Config, width: nat, value: nat) returns (bytes: Option<seq<byte>>)
    ensures bytes == if Fits(width, value) then Some(Pack(cfg.order, width, value)) else None
  {
    bytes := if Fits(width, value) then Some(Pack(cfg.order, width, value)) else None;
  }

  method PackHeader(cfg: Config, id: nat, spanIx: nat, flag: byte) returns (bytes: Option<seq<byte>>)
    ensures bytes == if Fits(cfg.objIdLen, id) && Fits(cfg.spanIxLen, spanIx)
                     then Some(Header(cfg, id, spanIx, flag)) else None
  {
    var first := PackField(cfg, cfg.objIdLen, id);
    var second := PackField(cfg, cfg.spanIxLen, spanIx);
    bytes := if first.None? || second.None? then None else Some(first.value + second.value + [flag]);
  }

  /** The padding at the end of every `to_binary` of a page, after its length check. */
  method PadPage(cfg: Config, img: seq<byte>) returns (bytes: Option<seq<byte>>)
    ensures bytes == if |img| <= cfg.pageSize then Some(Padded(cfg.pageSize, img)) else None
  {
    bytes := if |img| <= cfg.pageSize then Some(Padded(cfg.pageSize, img)) else None;
  }

  /** `to_binary` of a lookup page with these ids. */
  method LuToBinary(cfg: Config, ids: seq<LuEntry>) returns (bytes: Option<seq<byte>>)
    ensures bytes == if LuPacks(cfg, ids) then Some(LuBytes(cfg, ids)) else None
  {
    hide Flatten;
    var img := [];
    var parts := EntryParts(cfg, ids);
    assert Flatten(parts[..0]) == [] by { FlattenLength(parts[..0], 0); }
    for i := 0 to |ids|
      invariant img == Flatten(parts[..i])
      invariant forall k :: 0 <= k < i ==> Fits(cfg.objIdLen, EntryValue(cfg, ids[k]))
    {
      var field := PackField(cfg, cfg.objIdLen, EntryValue(cfg, ids[i]));
      if field.None? { return None; }
      FlattenSnoc(parts, i);
      img := img + field.value;
    }
    assert parts[..|ids|] == parts;
    FlattenLength(parts, cfg.objIdLen);
    bytes := PadPage(cfg, img);
  }

  /** `magicfy`, on the last lookup page of a block. */
  method Magicfy(cfg: Config, blocksLim: nat, bix: nat, page: LuPage) returns (page': LuPage)
    requires bix <= blocksLim
    ensures page'.objIds == Magicfied(cfg, blocksLim, bix, page)
  {
    var remaining := page.objIdsLimit;
    page' := page;
    if remaining >= 2 {
      var i := 0;
      while i < remaining - 2
        invariant i <= remaining - 2
        invariant page'.objIds == page.objIds + seq(i, _ => LuEntry(Pow256(cfg.objIdLen) - 1, false))
        invariant page'.objIdsLimit == remaining - i
      {
        page' := LuPage(page'.objIdsLimit - 1, page'.objIds + [LuEntry(Pow256(cfg.objIdLen) - 1, false)]);
        i := i + 1;
      }
      page' := page'.(objIds := page'.objIds + [LuEntry(Magic(cfg, blocksLim, bix), false)]);
    }
  }

  /** A usable page of a block; data pages are never changed after they are made. */
  datatype PageRef =
    | Ix(ix: SpiffsObjIndexPage)
    | Da(offset: nat, objId: nat, spanIx: nat, contents: seq<byte>)

  /** What a page holds. */
  function ValueOf(page: PageRef): Page
    reads if page.Ix? then {page.ix} else {}
  {
    match page
    case Ix(ix) => ix.Value()
    case Da(offset, objId, spanIx, contents) => Data(offset, objId, spanIx, contents)
  }

  method PageToBinary(cfg: Config, page: PageRef) returns (bytes: Option<seq<byte>>)
    requires cfg.pageSize > 0
    ensures bytes == if PagePacks(cfg, ValueOf(page)) then Some(PageBytes(cfg, ValueOf(page))) else None
  {
    match page
    case Ix(ix) => bytes := ix.ToBinary(cfg);
    case Da(_, objId, spanIx, contents) =>
      var header := PackHeader(cfg, objId, spanIx, USED_FINAL);
      if header.None? { return None; }
      bytes := PadPage(cfg, header.value + contents);
  }

  function EntryOf(page: PageRef): LuEntry {
    if page.Ix? then LuEntry(page.ix.objId, true) else LuEntry(page.objId, false)
  }

  function EntriesOf(pages: seq<PageRef>): (entries: seq<LuEntry>)
    ensures |entries| == |pages|
  {
    seq(|pages|, i requires 0 <= i < |pages| => EntryOf(pages[i]))
  }

  class SpiffsBlock {
    const geo: Geometry
    const bix: nat
    const offset: nat
    ghost const base: nat  // log position of the block's first usable page
    var luPages: seq<LuPage>
    var luPos: nat         // the lookup page taken from the iterator last
    var pages: seq<PageRef>  // the pages after the lookup pages
    var remainingPages: int
    var curObjIndexSpanIx: nat
    var curObjDataSpanIx: nat
    var curObjId: nat
    var curObjIdxPage: SpiffsObjIndexPage?

    ghost predicate Valid()
      reads this
    {
      && geo.Valid()
      && remainingPages == geo.usable - |pages| >= 0
      && luPages == LuPagesOf(geo.luLim, geo.luPages, EntriesOf(pages))
      && AtLuPage(luPages, luPos)
    }

    /** Where the constructor puts the block. */
    ghost predicate Placed() {
      && offset == bix * (geo.pagesPerBlock * geo.pageSize)
      && base == bix * geo.usable
    }

    constructor (bix: nat, geo: Geometry)
      requires geo.Valid()
      ensures Valid() && Placed() && this.bix == bix && this.geo == geo
      ensures pages == []
      ensures curObjIdxPage == null && curObjId == 0 && curObjIndexSpanIx == 0 && curObjDataSpanIx == 0
    {
      this.geo := geo;
      this.bix := bix;
      offset := bix * (geo.pagesPerBlock * geo.pageSize);
      base := bix * geo.usable;
      remainingPages := geo.usable;
      luPages := seq(geo.luPages, _ => LuPage(geo.luLim, []));
      luPos := 0;
      pages := [];
      curObjIndexSpanIx, curObjDataSpanIx, curObjId, curObjIdxPage := 0, 0, 0, null;
      EmptyLuPages(geo.luLim, geo.luPages);
    }

    /** `_register_page`, once the current index page has taken a data page. */
    method RegisterPage(page: PageRef)
      requires Valid() && remainingPages > 0
      modifies `luPages, `luPos, `pages
      ensures pages == old(pages) + [page]
      ensures luPages == LuPagesOf(geo.luLim, geo.luPages, EntriesOf(pages)) && AtLuPage(luPages, luPos)
    {
      hide LuPagesOf;
      LookupHasRoom(geo.luLim, geo.luPages, EntriesOf(pages), luPos);
      if luPages[luPos].objIdsLimit == 0 {
        luPos := luPos + 1;
      }
      RegisterKeeps(geo.luLim, geo.luPages, EntriesOf(pages), luPos, EntryOf(page));
      luPages := Registered(luPages, luPos, EntryOf(page));
      assert EntriesOf(pages + [page]) == EntriesOf(pages) + [EntryOf(page)];
      pages := pages + [page];
    }

    method BeginObj(objId: nat, size: nat, name: seq<byte>, objIndexSpanIx: nat, objDataSpanIx: nat)
      returns (ok: bool)
      requires Valid()
      modifies this
      ensures Valid()
      ensures ok == (old(remainingPages) > 0)
      ensures !ok ==> unchanged(this)
      ensures ok ==>
        && curObjIdxPage != null && fresh(curObjIdxPage)
        && pages == old(pages) + [Ix(curObjIdxPage)]
        && curObjIdxPage.objId == objId && curObjIdxPage.spanIx == objIndexSpanIx
        && curObjIdxPage.size == size && curObjIdxPage.name == name
        && curObjIdxPage.pages == [] && curObjIdxPage.pagesLim == geo.IxLim(objIndexSpanIx)
        && curObjIdxPage.pos == base + old(|pages|)
        && curObjId == objId && curObjIndexSpanIx == objIndexSpanIx + 1 && curObjDataSpanIx == objDataSpanIx
    {
      ok := remainingPages > 0;
      if !ok { return; }
      Reset();
      curObjId := objId;
      curObjIndexSpanIx := objIndexSpanIx;
      curObjDataSpanIx := objDataSpanIx;
      var page := new SpiffsObjIndexPage(objId, curObjIndexSpanIx, size, name, geo, base + |pages|);
      RegisterPage(Ix(page));
      curObjIdxPage := page;
      remainingPages := remainingPages - 1;
      curObjIndexSpanIx := curObjIndexSpanIx + 1;
    }

    method UpdateObj(contents: seq<byte>) returns (ok: bool)
      requires Valid() && curObjIdxPage != null
      modifies this, curObjIdxPage
      ensures Valid() && curObjIdxPage == old(curObjIdxPage)
      ensures ok == (old(remainingPages) > 0 && old(curObjIdxPage.pagesLim) > 0)
      ensures !ok ==> unchanged(this) && unchanged(old(curObjIdxPage))
      ensures ok ==>
        var at := offset + (geo.luPages + old(|pages|)) * geo.pageSize;
        && pages == old(pages) + [Da(at, curObjId, old(curObjDataSpanIx), contents)]
        && curObjIdxPage.pages == old(curObjIdxPage.pages) + [at]
        && curObjIdxPage.pagesLim == old(curObjIdxPage.pagesLim) - 1
        && curObjId == old(curObjId) && curObjIndexSpanIx == old(curObjIndexSpanIx)
        && curObjDataSpanIx == old(curObjDataSpanIx) + 1
    {
      ok := remainingPages > 0;
      if !ok { return; }
      var at := offset + (geo.luPages + |pages|) * geo.pageSize;
      ok := curObjIdxPage.RegisterPage(at);
      if !ok { return; }
      RegisterPage(Da(at, curObjId, curObjDataSpanIx, contents));
      curObjDataSpanIx := curObjDataSpanIx + 1;
      remainingPages := remainingPages - 1;
    }

    /** The assignments with which `create_file` carries an object over to this block. */
    method TakeOver(prev: SpiffsBlock)
      requires prev != this
      modifies `curObjIndexSpanIx, `curObjDataSpanIx, `curObjId, `curObjIdxPage
      ensures curObjId == prev.curObjId && curObjIdxPage == prev.curObjIdxPage
      ensures curObjDataSpanIx == prev.curObjDataSpanIx && curObjIndexSpanIx == prev.curObjIndexSpanIx
    {
      curObjId := prev.curObjId;
      curObjIdxPage := prev.curObjIdxPage;
      curObjDataSpanIx := prev.curObjDataSpanIx;
      curObjIndexSpanIx := prev.curObjIndexSpanIx;
    }

    method Reset()
      modifies `curObjIndexSpanIx, `curObjDataSpanIx, `curObjId, `curObjIdxPage
      ensures curObjIndexSpanIx == 0 && curObjDataSpanIx == 0 && curObjId == 0 && curObjIdxPage == null
    {
      curObjIndexSpanIx := 0;
      curObjDataSpanIx := 0;
      curObjId := 0;
      curObjIdxPage := null;
    }

    /** The offset of usable page `n`. */
    lemma OffsetOf(n: nat)
      requires Placed() && geo.Valid() && n < geo.usable
      ensures offset + (geo.luPages + n) * geo.pageSize == Offset(geo, base + n)
    {
      OffsetInBlock(geo, bix, n);
    }

    lemma PagesFit()
      requires Valid()
      ensures |pages| <= geo.usable && geo.luPages + geo.usable == geo.pagesPerBlock
    {
    }

    /** `to_binary`; with magic numbers, the last lookup page is completed on the way. */
    method ToBinary(cfg: Config, blocksLim: nat, ghost values: seq<Page>) returns (bytes: Option<seq<byte>>)
      requires Valid() && Matches(cfg, geo) && bix <= blocksLim
      requires |values| == |pages| && forall i :: 0 <= i < |pages| ==> ValueOf(pages[i]) == values[i]
      modifies `luPages
      ensures bytes == if BlockPacks(cfg, geo, blocksLim, bix, values)
                       then Some(BlockBytes(cfg, geo, blocksLim, bix, values)) else None
    {
      hide *;
      MatchesGeometry(cfg, geo);
      PagesFit();
      BlockPacksWhen(cfg, geo, blocksLim, bix, values);
      var img := LuPagesToBinary(cfg, blocksLim, values);
      if img.None? { return None; }
      var rest := UsedToBinary(cfg, blocksLim, values, img.value);
      if rest.None? { return None; }
      BlockTail(cfg, geo, blocksLim, bix, values);
      bytes := Some(rest.value + Fill(0xFF, cfg.blockSize - |rest.value|));
    }

    method LuPagesToBinary(cfg: Config, blocksLim: nat, ghost values: seq<Page>) returns (bytes: Option<seq<byte>>)
      requires Valid() && Matches(cfg, geo) && bix <= blocksLim
      requires |values| == |pages| && forall i :: 0 <= i < |pages| ==> ValueOf(pages[i]) == values[i]
      modifies `luPages
      ensures bytes ==
        if LookupsPack(cfg, geo, blocksLim, bix, values)
        then Some(Flatten(BlockPages(cfg, geo, blocksLim, bix, values)[..geo.luPages])) else None
    {
      hide Flatten, LuPacks, LuBytes, Magicfied, LuPagesOf, Matches;
      MatchesGeometry(cfg, geo);
      ghost var parts := BlockPages(cfg, geo, blocksLim, bix, values);
      ghost var lus := luPages;
      assert EntriesOfPages(values) == EntriesOf(pages);
      var img := [];
      assert Flatten(parts[..0]) == [] by { FlattenLength(parts[..0], 0); }
      for k := 0 to geo.luPages
        invariant |luPages| == geo.luPages && luPages[k..] == lus[k..]
        invariant img == Flatten(parts[..k])
        invariant forall i :: 0 <= i < k ==> LuPacks(cfg, LuIds(cfg, geo, blocksLim, bix, values, i))
      {
        assert luPages[k] == lus[k];
        if cfg.useMagic && k == geo.luPages - 1 {
          var page := Magicfy(cfg, blocksLim, bix, luPages[k]);
          luPages := luPages[k := page];
        }
        assert luPages[k].objIds == LuIds(cfg, geo, blocksLim, bix, values, k);
        var part := LuToBinary(cfg, luPages[k].objIds);
        if part.None? { return None; }
        FlattenSnoc(parts, k);
        img := img + part.value;
      }
      bytes := Some(img);
    }

    method UsedToBinary(cfg: Config, ghost blocksLim: nat, ghost values: seq<Page>, lu: seq<byte>)
      returns (bytes: Option<seq<byte>>)
      requires cfg.pageSize > 0 && geo.luPages + |pages| <= geo.pagesPerBlock && bix <= blocksLim
      requires |values| == |pages| && forall i :: 0 <= i < |pages| ==> ValueOf(pages[i]) == values[i]
      requires lu == Flatten(BlockPages(cfg, geo, blocksLim, bix, values)[..geo.luPages])
      ensures bytes ==
        if PagesPack(cfg, values)
        then Some(Flatten(BlockPages(cfg, geo, blocksLim, bix, values)[..geo.luPages + |values|])) else None
    {
      hide Flatten, PagePacks, PageBytes, LuPagesOf, LuIds;
      ghost var parts := BlockPages(cfg, geo, blocksLim, bix, values);
      var img := lu;
      for i := 0 to |pages|
        invariant img == Flatten(parts[..geo.luPages + i])
        invariant forall k :: 0 <= k < i ==> PagePacks(cfg, values[k])
      {
        var part := PageToBinary(cfg, pages[i]);
        if part.None? { return None; }
        FlattenSnoc(parts, geo.luPages + i);
        img := img + part.value;
      }
      bytes := Some(img);
    }
  }
}
