/** The build configuration of the SPIFFS image generator and the sizes it derives. */
module SpiffsConfig {
  import opened Arith
  import opened ByteFields

  const FLAG_LEN := 1
  const IX_SIZE_LEN := 4
  const IX_OBJ_TYPE_LEN := 1
  const PAGE_IX_ALIGN := 2

  /** The derived sizes that decide where pages go. */
  datatype Geometry = Geometry(
    pageSize: nat,
    pagesPerBlock: nat,
    luPages: nat,     // lookup pages at the start of every block
    usable: nat,      // the pages after them
    luLim: nat,       // entries in one lookup page
    contentLen: nat,  // file bytes in one data page
    headLim: nat,     // page numbers in the first index page of an object
    lim: nat)         // page numbers in any later index page
  {
    function IxLim(span: nat): nat { if span == 0 then headLim else lim }

    predicate Valid()
    {
      && pageSize >= 1 && luPages >= 1 && usable >= 1 && luLim >= 1 && contentLen >= 1 && lim >= 1
      && luPages + usable == pagesPerBlock
      && luPages * luLim >= pagesPerBlock
    }
  }

  datatype Config = Config(
    pageSize: nat,
    pageIxLen: nat,
    blockSize: nat,
    blockIxLen: nat,
    metaLen: nat,
    objNameLen: nat,
    objIdLen: nat,
    spanIxLen: nat,
    order: Endianness,
    useMagic: bool,
    useMagicLen: bool,
    alignedObjIxTables: bool)
  {
    function PagesPerBlock(): nat
      requires pageSize > 0
    {
      blockSize / pageSize
    }

    function LuPagesPerBlock(): nat
      requires pageSize > 0
    {
      CeilDiv(PagesPerBlock() * objIdLen, pageSize)
    }

    function UsablePagesPerBlock(): int
      requires pageSize > 0
    {
      PagesPerBlock() - LuPagesPerBlock()
    }

    /** Lookup entries that fit one lookup page. */
    function LuLim(): nat
      requires objIdLen > 0
    {
      pageSize / objIdLen
    }

    function DataHeaderLen(): nat { objIdLen + spanIxLen + FLAG_LEN }

    function HeaderPad(): nat
    {
      4 - (if DataHeaderLen() % 4 == 0 then 4 else DataHeaderLen() % 4)
    }

    function DataHeaderLenAligned(): nat { DataHeaderLen() + HeaderPad() }

    function ContentLen(): int { pageSize - DataHeaderLen() }

    function HeadHeaderLen(): nat
    {
      DataHeaderLenAligned() + IX_SIZE_LEN + IX_OBJ_TYPE_LEN + objNameLen + metaLen
    }

    function HeadHeaderLenAligned(): nat
    {
      if alignedObjIxTables then (HeadHeaderLen() + PAGE_IX_ALIGN - 1) / PAGE_IX_ALIGN * PAGE_IX_ALIGN
      else HeadHeaderLen()
    }

    function HeadPad(): (pad: nat)
      ensures HeadHeaderLen() + pad == HeadHeaderLenAligned()
    {
      HeadHeaderLenAligned() - HeadHeaderLen()
    }

    function IxHeaderLen(span: nat): nat {
      if span == 0 then HeadHeaderLenAligned() else DataHeaderLenAligned()
    }

    /** Page numbers that fit index page `span` of an object. */
    function IxLim(span: nat): int
      requires blockIxLen > 0
    {
      (pageSize - IxHeaderLen(span)) / blockIxLen
    }

    /** What the generator asks of its configuration: a page size that is a power of two and a
        multiple of the object id length, widths that `struct` knows, page numbers no wider than
        the width the index limits were computed with, and pages and blocks with room to spare. */
    predicate Valid()
    {
      && pageSize > 0
      && PowerOfTwo(pageSize)
      && objIdLen in {1, 2, 4, 8} && spanIxLen in {1, 2, 4, 8} && pageIxLen in {1, 2, 4, 8}
      && pageIxLen <= blockIxLen
      && pageSize % objIdLen == 0
      && blockSize % pageSize == 0
      && UsablePagesPerBlock() >= 1
      && HeadHeaderLenAligned() <= pageSize
      && IxLim(1) >= 1
    }
  }

  lemma ContentFits(cfg: Config)
    requires cfg.Valid()
    ensures cfg.ContentLen() >= 1
  {
    assert cfg.HeadHeaderLen() <= cfg.HeadHeaderLenAligned();
  }

  lemma LuLimExact(cfg: Config)
    requires cfg.Valid()
    ensures cfg.LuLim() >= 1 && cfg.LuLim() * cfg.objIdLen == cfg.pageSize
  {
    ExactDivision(cfg.pageSize, cfg.objIdLen);
  }

  lemma BlockHoldsPages(cfg: Config)
    requires cfg.Valid()
    ensures cfg.PagesPerBlock() * cfg.pageSize == cfg.blockSize
    ensures cfg.LuPagesPerBlock() >= 1
  {
    ExactDivision(cfg.blockSize, cfg.pageSize);
    MulLe(1, cfg.PagesPerBlock(), cfg.objIdLen);
    CeilDivBounds(cfg.PagesPerBlock() * cfg.objIdLen, cfg.pageSize);
  }

  /** The limit is the greatest number of entries that fit after the header. */
  lemma IxLimIsMost(cfg: Config, span: nat, n: nat)
    requires cfg.Valid()
    ensures cfg.IxLim(span) >= 0
    ensures n <= cfg.IxLim(span) <==> cfg.IxHeaderLen(span) + n * cfg.blockIxLen <= cfg.pageSize
  {
    IxHeaderFits(cfg, span);
    MostThatFit(cfg.pageSize - cfg.IxHeaderLen(span), cfg.blockIxLen, n);
  }

  lemma IxHeaderFits(cfg: Config, span: nat)
    requires cfg.Valid()
    ensures cfg.IxHeaderLen(span) <= cfg.pageSize
  {
    assert cfg.HeadHeaderLen() <= cfg.HeadHeaderLenAligned();
  }

  lemma MostThatFit(room: nat, width: nat, n: nat)
    requires width > 0
    ensures room / width >= 0
    ensures n <= room / width <==> n * width <= room
  {
    DivNonnegative(room, width);
    var q := room / width;
    assert room == q * width + room % width;
    if n <= q { MulLe(n, q, width); } else { MulLe(q + 1, n, width); }
  }

  /** Lookup space never runs out before the pages of a block do. */
  lemma LookupSpaceSuffices(cfg: Config)
    requires cfg.Valid()
    ensures cfg.LuPagesPerBlock() * cfg.LuLim() >= cfg.PagesPerBlock()
  {
    LuLimExact(cfg);
    var d, lim, pages := cfg.objIdLen, cfg.LuLim(), cfg.PagesPerBlock();
    CeilDivBounds(pages * d, cfg.pageSize);
    var k := cfg.LuPagesPerBlock();
    MulAssoc(k, lim, d);
    MulCancelLe(pages, k * lim, d);
  }

  function GeometryOf(cfg: Config): (geo: Geometry)
    requires cfg.Valid()
    ensures geo.Valid()
  {
    ContentFits(cfg);
    LuLimExact(cfg);
    BlockHoldsPages(cfg);
    IxLimIsMost(cfg, 0, 0);
    LookupSpaceSuffices(cfg);
    Geometry(cfg.pageSize, cfg.PagesPerBlock(), cfg.LuPagesPerBlock(), cfg.UsablePagesPerBlock(), cfg.LuLim(),
             cfg.ContentLen(), cfg.IxLim(0), cfg.IxLim(1))
  }

  /** What the bytes of a page need to know about the sizes. */
  predicate Matches(cfg: Config, geo: Geometry) {
    && geo.Valid()
    && cfg.pageSize == geo.pageSize && PowerOfTwo(cfg.pageSize)
    && cfg.objIdLen >= 1 && cfg.spanIxLen >= 1 && cfg.pageIxLen >= 1
    && geo.luLim * cfg.objIdLen == cfg.pageSize
    && cfg.DataHeaderLen() + geo.contentLen == cfg.pageSize
    && cfg.HeadHeaderLenAligned() + geo.headLim * cfg.pageIxLen <= cfg.pageSize
    && cfg.DataHeaderLenAligned() + geo.lim * cfg.pageIxLen <= cfg.pageSize
    && geo.pagesPerBlock * geo.pageSize == cfg.blockSize
  }

  lemma MatchesGeometry(cfg: Config, geo: Geometry)
    requires Matches(cfg, geo)
    ensures geo.Valid() && cfg.pageSize == geo.pageSize
  {
  }

  lemma GeometryMatches(cfg: Config)
    requires cfg.Valid()
    ensures Matches(cfg, GeometryOf(cfg))
  {
    LuLimExact(cfg);
    BlockHoldsPages(cfg);
    IxLimIsMost(cfg, 0, 0);
    LimFits(cfg.pageSize - cfg.HeadHeaderLenAligned(), cfg.blockIxLen, cfg.pageIxLen);
    LimFits(cfg.pageSize - cfg.DataHeaderLenAligned(), cfg.blockIxLen, cfg.pageIxLen);
  }

  lemma LimFits(room: nat, width: nat, narrower: nat)
    requires width > 0 && narrower <= width
    ensures room / width * narrower <= room
  {
    assert room == room / width * width + room % width;
    DivNonnegative(room, width);
    MulLe(narrower, width, room / width);
  }

  lemma MulAssoc(a: int, b: int, c: int)
    ensures a * (b * c) == a * b * c
  {
  }

  /** `page >> int(math.log(page_size, 2))`. */
  function PageShift(pageSize: nat, offset: nat): nat
    requires pageSize > 0
  {
    offset / Pow2(Log2Floor(pageSize))
  }

  /** The shift recovers the number of every page exactly when the page size is a power of two. */
  lemma PageShiftExact(pageSize: nat)
    requires pageSize > 0
    ensures (forall n: nat :: PageShift(pageSize, n * pageSize) == n) <==> PowerOfTwo(pageSize)
  {
    var q := Pow2(Log2Floor(pageSize));
    if q == pageSize {
      forall n: nat ensures PageShift(pageSize, n * pageSize) == n {
        DivExact(n, q);
      }
    } else {
      DivExact(pageSize, q);
      assert q * pageSize == pageSize * q;
      assert PageShift(pageSize, q * pageSize) == pageSize;
    }
  }
}
