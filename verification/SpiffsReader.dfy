/** Reading an image back, as a file system does: from the bytes alone, by way of the lookup pages,
    the index pages of an object and the page numbers they list. */
module SpiffsReader {
  import opened Arith
  import opened ByteFields
  import opened SpiffsConfig
  import opened SpiffsLayout
  import opened SpiffsLookup
  import opened SpiffsImage
  import opened Wrappers

  datatype FileRead = FileRead(name: seq<byte>, contents: seq<byte>)

  function Field(cfg: Config, page: seq<byte>, at: nat, n: nat): nat {
    if at + n <= |page| then Unpack(cfg.order, page[at..at + n]) else 0
  }

  /** The page header carries this id, span index and flag. */
  predicate HeaderIs(cfg: Config, page: seq<byte>, id: nat, spanIx: nat, flag: byte) {
    && cfg.DataHeaderLen() <= |page|
    && Field(cfg, page, 0, cfg.objIdLen) == id
    && Field(cfg, page, cfg.objIdLen, cfg.spanIxLen) == spanIx
    && page[cfg.objIdLen + cfg.spanIxLen] == flag
  }

  /** The lookup entry for page number `p`, which is not a lookup page. */
  function LookupValue(cfg: Config, geo: Geometry, img: seq<byte>, p: nat): nat
    requires geo.Valid() && p % geo.pagesPerBlock >= geo.luPages
  {
    var j := p % geo.pagesPerBlock - geo.luPages;
    EntryAt(cfg, PartOf(geo.pageSize, img, PageIn(geo, p / geo.pagesPerBlock, j / geo.luLim)), j % geo.luLim)
  }

  predicate IsPageAt(cfg: Config, geo: Geometry, img: seq<byte>, p: nat, id: nat, spanIx: nat, flag: byte)
    requires geo.Valid()
  {
    && p % geo.pagesPerBlock >= geo.luPages
    && LookupValue(cfg, geo, img, p) == id
    && HeaderIs(cfg, PartOf(geo.pageSize, img, p), id, spanIx, flag)
  }

  /** The first page from `p` on, below `n`, that is index page `spanIx` of object `id`. */
  function FindIndex(cfg: Config, geo: Geometry, img: seq<byte>, id: nat, spanIx: nat, p: nat, n: nat): Option<nat>
    requires geo.Valid()
    decreases n - p
  {
    if p >= n then None
    else if IsPageAt(cfg, geo, img, p, Toggle(cfg.objIdLen, id), spanIx, USED_FINAL_INDEX) then Some(p)
    else FindIndex(cfg, geo, img, id, spanIx, p + 1, n)
  }

  /** The index page that lists data page `d` of an object, and the slot in it. */
  function IndexOf(geo: Geometry, d: nat): (at: (nat, nat))
    requires geo.Valid()
  {
    if d < geo.headLim then (0, d)
    else
      assert (d - geo.headLim) / geo.lim >= 0 by { DivNonnegative(d - geo.headLim, geo.lim); }
      (1 + (d - geo.headLim) / geo.lim, (d - geo.headLim) % geo.lim)
  }

  function SlotAt(cfg: Config, page: seq<byte>, spanIx: nat, slot: nat): nat {
    var from := if spanIx == 0 then cfg.HeadHeaderLenAligned() else cfg.DataHeaderLenAligned();
    if from <= |page| then Unpack(cfg.order, PartOf(cfg.pageIxLen, page[from..], slot)) else 0
  }

  /** The next `size` bytes of object `id`, from the start of data page `d`. */
  function ReadData(cfg: Config, geo: Geometry, img: seq<byte>, n: nat, id: nat, d: nat, size: nat): Option<seq<byte>>
    requires geo.Valid()
    decreases size
  {
    if size == 0 then Some([]) else
    var (g, slot) := IndexOf(geo, d);
    var ix := FindIndex(cfg, geo, img, id, g, 0, n);
    if ix.None? then None else
    var p := SlotAt(cfg, PartOf(geo.pageSize, img, ix.value), g, slot);
    if !IsPageAt(cfg, geo, img, p, id, d, USED_FINAL) then None else
    var page := PartOf(geo.pageSize, img, p);
    var k := Min(geo.contentLen, size);
    if cfg.DataHeaderLen() + k > |page| then None else
    var rest := ReadData(cfg, geo, img, n, id, d + 1, size - k);
    if rest.None? then None else
    Some(page[cfg.DataHeaderLen()..cfg.DataHeaderLen() + k] + rest.value)
  }

  function ReadFile(cfg: Config, geo: Geometry, img: seq<byte>, n: nat, id: nat): Option<FileRead>
    requires geo.Valid()
  {
    var head := FindIndex(cfg, geo, img, id, 0, 0, n);
    if head.None? then None else
    var page := PartOf(geo.pageSize, img, head.value);
    var at := cfg.DataHeaderLenAligned();
    if at + IX_SIZE_LEN + IX_OBJ_TYPE_LEN + cfg.objNameLen > |page| then None else
    if page[at + IX_SIZE_LEN] != TYPE_FILE then None else
    var nameAt := at + IX_SIZE_LEN + IX_OBJ_TYPE_LEN;
    var contents := ReadData(cfg, geo, img, n, id, 0, Field(cfg, page, at, IX_SIZE_LEN));
    if contents.None? then None
    else Some(FileRead(UpToNul(page[nameAt..nameAt + cfg.objNameLen]), contents.value))
  }

  // ----- what is at a page number

  function HeaderId(cfg: Config, page: Page): nat {
    if page.Index? then Toggle(cfg.objIdLen, page.objId) else page.objId
  }

  function FlagOf(page: Page): byte {
    if page.Index? then USED_FINAL_INDEX else USED_FINAL
  }

  lemma HeaderOfFields(cfg: Config, id: nat, spanIx: nat, flag: byte, rest: seq<byte>)
    requires Fits(cfg.objIdLen, id) && Fits(cfg.spanIxLen, spanIx)
    ensures Field(cfg, Header(cfg, id, spanIx, flag) + rest, 0, cfg.objIdLen) == id
    ensures Field(cfg, Header(cfg, id, spanIx, flag) + rest, cfg.objIdLen, cfg.spanIxLen) == spanIx
    ensures (Header(cfg, id, spanIx, flag) + rest)[cfg.objIdLen + cfg.spanIxLen] == flag
  {
    hide Pack, Unpack;
    var a, b := Pack(cfg.order, cfg.objIdLen, id), Pack(cfg.order, cfg.spanIxLen, spanIx);
    UnpackPack(cfg.order, cfg.objIdLen, id);
    UnpackPack(cfg.order, cfg.spanIxLen, spanIx);
    FiveParts(a, b, flag, rest, []);
    assert Header(cfg, id, spanIx, flag) + rest == a + b + [flag] + rest + [];
  }

  lemma FiveParts(a: seq<byte>, b: seq<byte>, x: byte, c: seq<byte>, d: seq<byte>)
    ensures var s := a + b + [x] + c + d;
      && s[0..|a|] == a
      && s[|a|..|a| + |b|] == b
      && s[|a| + |b|] == x
      && s[|a| + |b| + 1..|a| + |b| + 1 + |c|] == c
  {
  }

  /** A page's header is read back as it was written, and only so. */
  lemma HeaderOfPage(cfg: Config, page: Page, id: nat, spanIx: nat, flag: byte)
    requires cfg.pageSize > 0 && PagePacks(cfg, page)
    ensures HeaderIs(cfg, PageBytes(cfg, page), id, spanIx, flag)
       <==> id == HeaderId(cfg, page) && spanIx == page.spanIx && flag == FlagOf(page)
  {
    hide Toggle, Flatten, PageNumbers, HeadInfo, Pack;
    var fields, img := PageFields(cfg, page), PageBytes(cfg, page);
    var head := Header(cfg, HeaderId(cfg, page), page.spanIx, FlagOf(page));
    assert fields[..|head|] == head;
    assert img == head + img[|head|..];
    HeaderOfFields(cfg, HeaderId(cfg, page), page.spanIx, FlagOf(page), img[|head|..]);
  }

  lemma PageInDivMod(geo: Geometry, b: nat, k: nat)
    requires k < geo.pagesPerBlock
    ensures PageIn(geo, b, k) / geo.pagesPerBlock == b && PageIn(geo, b, k) % geo.pagesPerBlock == k
  {
    DivModUnique(PageIn(geo, b, k), geo.pagesPerBlock, b, k);
  }

  lemma PageNoAt(geo: Geometry, n: nat, b: nat, j: nat)
    requires geo.Valid() && j < geo.usable && n == b * geo.usable + j
    ensures PageNo(geo, n) == PageIn(geo, b, geo.luPages + j)
  {
    DivModUnique(n, geo.usable, b, j);
  }

  lemma LookupValueAt(cfg: Config, geo: Geometry, img: seq<byte>, b: nat, j: nat, k: nat, s: nat)
    requires geo.Valid() && j < geo.usable && s < geo.luLim && j == k * geo.luLim + s
    ensures PageIn(geo, b, geo.luPages + j) % geo.pagesPerBlock == geo.luPages + j
    ensures LookupValue(cfg, geo, img, PageIn(geo, b, geo.luPages + j))
         == EntryAt(cfg, PartOf(geo.pageSize, img, PageIn(geo, b, k)), s)
  {
    hide EntryAt, PartOf, PageIn;
    PageInDivMod(geo, b, geo.luPages + j);
    DivModUnique(j, geo.luLim, k, s);
  }

  /** Slot `s` of lookup page `k` of a block is the id of usable page `j == k * luLim + s`. */
  lemma LookupInBlock(cfg: Config, geo: Geometry, blocksLim: nat, bix: nat, pages: seq<Page>, j: nat, k: nat, s: nat)
    requires bix <= blocksLim && k < geo.luPages && s < geo.luLim
    requires LuPacks(cfg, LuIds(cfg, geo, blocksLim, bix, pages, k))
    requires j == k * geo.luLim + s < |pages|
    ensures EntryAt(cfg, LuBytes(cfg, LuIds(cfg, geo, blocksLim, bix, pages, k)), s) == HeaderId(cfg, pages[j])
  {
    hide LuBytes, EntryAt, Toggle, LuPacks, Magic;
    LuPagesEntry(geo.luLim, geo.luPages, EntriesOfPages(pages), k, s, j);
    LuBytesEntry(cfg, LuIds(cfg, geo, blocksLim, bix, pages, k), s);
  }

  /** What a reader finds at usable page `j` of block `b`. */
  lemma PageInBlock(
    cfg: Config, geo: Geometry, blocksLim: nat, log: Log, b: nat, j: nat, id: nat, spanIx: nat, flag: byte)
    requires Matches(cfg, geo) && ImagePacks(cfg, geo, blocksLim, log)
    requires b < blocksLim && j < |InBlock(geo, log, b)|
    ensures PartOf(geo.pageSize, Image(cfg, geo, blocksLim, log), PageIn(geo, b, geo.luPages + j))
         == PageBytes(cfg, InBlock(geo, log, b)[j])
    ensures PagePacks(cfg, InBlock(geo, log, b)[j])
    ensures var page := InBlock(geo, log, b)[j];
      IsPageAt(cfg, geo, Image(cfg, geo, blocksLim, log), PageIn(geo, b, geo.luPages + j), id, spanIx, flag)
      <==> id == HeaderId(cfg, page) && spanIx == page.spanIx && flag == FlagOf(page)
  {
    hide Image, PartOf, ImageBlocks, InBlock, PageBytes, LuBytes, EntryAt, HeaderIs, LuIds, PageIn, PagePacks,
         HeaderId, FlagOf, LookupValue, LuPacks;
    var pages := InBlock(geo, log, b);
    var k, s := j / geo.luLim, j % geo.luLim;
    DivLt(j, geo.luLim, geo.luPages);
    LookupValueAt(cfg, geo, Image(cfg, geo, blocksLim, log), b, j, k, s);
    ImagePage(cfg, geo, blocksLim, log, b, geo.luPages + j);
    ImagePage(cfg, geo, blocksLim, log, b, k);
    LookupInBlock(cfg, geo, blocksLim, b, pages, j, k, s);
    HeaderOfPage(cfg, pages[j], id, spanIx, flag);
  }

  /** Log position `n` is usable page `n % usable` of block `n / usable`. */
  lemma InBlockAt(geo: Geometry, log: Log, n: nat, b: nat, j: nat)
    requires n < |log| && j < geo.usable && n == b * geo.usable + j
    ensures j < |InBlock(geo, log, b)| && InBlock(geo, log, b)[j] == log[n]
  {
  }

  lemma InBlockBelow(geo: Geometry, log: Log, b: nat, j: nat)
    requires j < |InBlock(geo, log, b)|
    ensures j < geo.usable && 0 <= b * geo.usable + j < |log|
  {
  }

  /** What a reader finds at the page number of log position `n`. */
  lemma PageAtLog(cfg: Config, geo: Geometry, blocksLim: nat, log: Log, n: nat, id: nat, spanIx: nat, flag: byte)
    requires Matches(cfg, geo) && ImagePacks(cfg, geo, blocksLim, log)
    requires n < |log| <= blocksLim * geo.usable
    ensures PartOf(geo.pageSize, Image(cfg, geo, blocksLim, log), PageNo(geo, n)) == PageBytes(cfg, log[n])
    ensures PagePacks(cfg, log[n])
    ensures PageNo(geo, n) < PageCount(geo, blocksLim)
    ensures IsPageAt(cfg, geo, Image(cfg, geo, blocksLim, log), PageNo(geo, n), id, spanIx, flag)
       <==> id == HeaderId(cfg, log[n]) && spanIx == log[n].spanIx && flag == FlagOf(log[n])
  {
    hide Image, PartOf, InBlock, PageBytes, PagePacks, IsPageAt, ImagePacks;
    DivLt(n, geo.usable, blocksLim);
    var b, j := n / geo.usable, n % geo.usable;
    InBlockAt(geo, log, n, b, j);
    PageInBlock(cfg, geo, blocksLim, log, b, j, id, spanIx, flag);
    PageNoBelow(geo, blocksLim, b, j);
  }

  lemma PageNoBelow(geo: Geometry, blocksLim: nat, b: nat, j: nat)
    requires geo.Valid() && b < blocksLim && j < geo.usable
    ensures PageIn(geo, b, geo.luPages + j) < PageCount(geo, blocksLim)
  {
    MulLe(b + 1, blocksLim, geo.pagesPerBlock);
  }

  /** Past the pages in use, a block is blank. */
  lemma BlankPage(
    cfg: Config, geo: Geometry, blocksLim: nat, log: Log, b: nat, k: nat, id: nat, spanIx: nat, flag: byte)
    requires Matches(cfg, geo) && ImagePacks(cfg, geo, blocksLim, log)
    requires b < blocksLim && geo.luPages + |InBlock(geo, log, b)| <= k < geo.pagesPerBlock
    requires flag != 0xFF
    ensures !IsPageAt(cfg, geo, Image(cfg, geo, blocksLim, log), PageIn(geo, b, k), id, spanIx, flag)
  {
    hide Image, PartOf, ImageBlocks, InBlock, PageBytes, LuBytes, LookupValue, LuIds, PageIn, Field;
    ImagePage(cfg, geo, blocksLim, log, b, k);
  }

  /** A page number at which a reader finds a page is that of a log position. */
  lemma PageIsInLog(cfg: Config, geo: Geometry, blocksLim: nat, log: Log, p: nat, id: nat, spanIx: nat, flag: byte)
    returns (n: nat)
    requires Matches(cfg, geo) && ImagePacks(cfg, geo, blocksLim, log)
    requires p < PageCount(geo, blocksLim) && flag != 0xFF
    requires IsPageAt(cfg, geo, Image(cfg, geo, blocksLim, log), p, id, spanIx, flag)
    ensures n < |log| && p == PageNo(geo, n)
  {
    hide Image, PartOf, LookupValue, HeaderIs, ImagePacks, InBlock;
    DivLt(p, geo.pagesPerBlock, blocksLim);
    var b, k := p / geo.pagesPerBlock, p % geo.pagesPerBlock;
    assert p == PageIn(geo, b, k);
    var j := k - geo.luPages;
    if j >= |InBlock(geo, log, b)| {
      BlankPage(cfg, geo, blocksLim, log, b, k, id, spanIx, flag);
    }
    InBlockBelow(geo, log, b, j);
    n := b * geo.usable + j;
    PageNoAt(geo, n, b, j);
  }

  // ----- reading back what was stored

  /** The index page of a stored file is the one a reader finds. */
  lemma {:induction false} FindIndexFinds(
    cfg: Config, geo: Geometry, blocksLim: nat, log: Log, f: Stored, g: nat, p: nat)
    requires Matches(cfg, geo) && ImagePacks(cfg, geo, blocksLim, log) && |log| <= blocksLim * geo.usable
    requires HoldsIndexes(geo, log, f) && HoldsNoOthers(log, f) && g < |f.ixs|
    requires p <= PageNo(geo, f.ixs[g])
    ensures FindIndex(cfg, geo, Image(cfg, geo, blocksLim, log), f.id, g, p, PageCount(geo, blocksLim))
         == Some(PageNo(geo, f.ixs[g]))
    decreases PageNo(geo, f.ixs[g]) - p
  {
    hide Image, IsPageAt, ImagePacks, PageCount, PageNo, Entries, Toggle, PageBytes, PagePacks, Matches;
    MatchesGeometry(cfg, geo);
    OneIndexPage(cfg, geo, blocksLim, log, f, g, p);
    if p < PageNo(geo, f.ixs[g]) {
      FindIndexFinds(cfg, geo, blocksLim, log, f, g, p + 1);
    }
  }

  /** No other page of the image passes for index page `g`. */
  lemma OneIndexPage(cfg: Config, geo: Geometry, blocksLim: nat, log: Log, f: Stored, g: nat, p: nat)
    requires Matches(cfg, geo) && ImagePacks(cfg, geo, blocksLim, log) && |log| <= blocksLim * geo.usable
    requires HoldsIndexes(geo, log, f) && HoldsNoOthers(log, f) && g < |f.ixs| && p <= PageNo(geo, f.ixs[g])
    ensures PageNo(geo, f.ixs[g]) < PageCount(geo, blocksLim)
    ensures IsPageAt(cfg, geo, Image(cfg, geo, blocksLim, log), p, Toggle(cfg.objIdLen, f.id), g, USED_FINAL_INDEX)
      <==> p == PageNo(geo, f.ixs[g])
  {
    hide Image, IsPageAt, ImagePacks, PageCount, PageNo, Entries, Toggle, PageBytes, PagePacks;
    var id := Toggle(cfg.objIdLen, f.id);
    PageAtLog(cfg, geo, blocksLim, log, f.ixs[g], id, g, USED_FINAL_INDEX);
    if p < PageNo(geo, f.ixs[g])
      && IsPageAt(cfg, geo, Image(cfg, geo, blocksLim, log), p, id, g, USED_FINAL_INDEX) {
      var n := PageIsInLog(cfg, geo, blocksLim, log, p, id, g, USED_FINAL_INDEX);
      PageAtLog(cfg, geo, blocksLim, log, n, id, g, USED_FINAL_INDEX);
      SameObject(cfg, geo, log[n], log[f.ixs[g]]);
    }
  }

  lemma SameObject(cfg: Config, geo: Geometry, a: Page, b: Page)
    requires Matches(cfg, geo) && a.Index? && b.Index? && PagePacks(cfg, a) && PagePacks(cfg, b)
    requires HeaderId(cfg, a) == HeaderId(cfg, b)
    ensures a.objId == b.objId
  {
    hide Toggle;
    ToggleInvolution(cfg.objIdLen, a.objId);
    ToggleInvolution(cfg.objIdLen, b.objId);
  }

  /** `IndexOf` agrees with how index pages are filled. */
  lemma IndexOfFirst(geo: Geometry, d: nat, n: nat)
    requires geo.Valid() && n >= 1 && d < First(geo, n)
    ensures var (g, slot) := IndexOf(geo, d);
      g < n && First(geo, g) + slot == d && slot < geo.IxLim(g)
  {
    var (g, slot) := IndexOf(geo, d);
    if d >= geo.headLim {
      FirstClosed(geo, g);
      assert d - geo.headLim == (g - 1) * geo.lim + slot;
      if g >= n {
        FirstMonotone(geo, n, g);
      }
    }
  }

  /** A page number read from an index page is the one that was registered. */
  lemma SlotOfIndex(cfg: Config, page: Page, slot: nat)
    requires cfg.pageSize > 0 && PagePacks(cfg, page) && page.Index? && slot < |page.pages|
    requires page.spanIx == 0 ==> |page.name| <= cfg.objNameLen
    ensures SlotAt(cfg, PageBytes(cfg, page), page.spanIx, slot) == PageShift(cfg.pageSize, page.pages[slot])
  {
    var numbers, fill := PageNumbers(cfg, page.pages), Fill(0xFF, cfg.pageSize - |PageFields(cfg, page)|);
    SlotsOfIndex(cfg, page);
    hide Flatten, PartOf, Pack, Unpack, PageShift, Toggle, PageBytes, PageFields, Fill;
    FlattenSlice(numbers, fill, cfg.pageIxLen, slot);
    UnpackPack(cfg.order, cfg.pageIxLen, PageShift(cfg.pageSize, page.pages[slot]));
  }

  /** The page numbers of an index page follow its header. */
  lemma SlotsOfIndex(cfg: Config, page: Page)
    requires cfg.pageSize > 0 && PagePacks(cfg, page) && page.Index?
    requires page.spanIx == 0 ==> |page.name| <= cfg.objNameLen
    ensures var from := if page.spanIx == 0 then cfg.HeadHeaderLenAligned() else cfg.DataHeaderLenAligned();
      && from <= |PageBytes(cfg, page)|
      && PageBytes(cfg, page)[from..]
         == Flatten(PageNumbers(cfg, page.pages)) + Fill(0xFF, cfg.pageSize - |PageFields(cfg, page)|)
  {
    hide Flatten, Pack, PageShift, Toggle, PageNumbers;
    var numbers := Flatten(PageNumbers(cfg, page.pages));
    var before := Header(cfg, Toggle(cfg.objIdLen, page.objId), page.spanIx, USED_FINAL_INDEX)
      + Fill(0xFF, cfg.HeaderPad()) + if page.spanIx == 0 then HeadInfo(cfg, page.size, page.name) else [];
    assert PageFields(cfg, page) == before + numbers;
    SuffixOfPadded(before, numbers, Fill(0xFF, cfg.pageSize - |PageFields(cfg, page)|));
  }

  lemma SuffixOfPadded(a: seq<byte>, b: seq<byte>, c: seq<byte>)
    ensures (a + b + c)[|a|..] == b + c
  {
  }

  /** The contents of a data page follow its header. */
  lemma ContentsOfData(cfg: Config, page: Page)
    requires cfg.pageSize > 0 && PagePacks(cfg, page) && page.Data?
    ensures var at := cfg.DataHeaderLen();
      at + |page.contents| <= |PageBytes(cfg, page)|
      && PageBytes(cfg, page)[at..at + |page.contents|] == page.contents
  {
    var head := Header(cfg, page.objId, page.spanIx, USED_FINAL);
    var fill := Fill(0xFF, cfg.pageSize - |PageFields(cfg, page)|);
    assert PageBytes(cfg, page) == head + (page.contents + fill);
    MiddleSlice(head, page.contents, fill);
  }

  /** `PageShift` of a page's offset is its number. */
  lemma ShiftOfOffset(cfg: Config, geo: Geometry, n: nat)
    requires Matches(cfg, geo)
    ensures PageShift(cfg.pageSize, Offset(geo, n)) == PageNo(geo, n)
  {
    PageShiftExact(cfg.pageSize);
  }

  lemma HeadOfIndex(cfg: Config, page: Page)
    requires cfg.pageSize > 0 && PagePacks(cfg, page) && page.Index? && page.spanIx == 0
    requires |page.name| <= cfg.objNameLen && 0 !in page.name
    ensures var at, bytes := cfg.DataHeaderLenAligned(), PageBytes(cfg, page);
      && at + 5 + cfg.objNameLen <= |bytes|
      && Field(cfg, bytes, at, 4) == page.size
      && bytes[at + 4] == TYPE_FILE
      && UpToNul(bytes[at + 5..at + 5 + cfg.objNameLen]) == page.name
  {
    hide Flatten, Pack, Unpack, Toggle, PageNumbers, UpToNul, PageFields, Fill;
    var a := Header(cfg, Toggle(cfg.objIdLen, page.objId), 0, USED_FINAL_INDEX) + Fill(0xFF, cfg.HeaderPad());
    var size := Pack(cfg.order, IX_SIZE_LEN, page.size);
    var zeros := Fill(0, cfg.objNameLen - |page.name|);
    var after := HeadLayout(cfg, page);
    FiveParts(a, size, TYPE_FILE, page.name + zeros, after);
    UnpackPack(cfg.order, IX_SIZE_LEN, page.size);
    NameThenZeros(page.name, zeros);
  }

  lemma HeadLayout(cfg: Config, page: Page) returns (after: seq<byte>)
    requires cfg.pageSize > 0 && page.Index? && page.spanIx == 0 && |page.name| <= cfg.objNameLen
    ensures PageBytes(cfg, page)
         == Header(cfg, Toggle(cfg.objIdLen, page.objId), 0, USED_FINAL_INDEX) + Fill(0xFF, cfg.HeaderPad())
            + Pack(cfg.order, IX_SIZE_LEN, page.size) + [TYPE_FILE]
            + (page.name + Fill(0, cfg.objNameLen - |page.name|)) + after
  {
    hide Flatten, Pack, Toggle, PageNumbers, Header, Fill, Config.HeadPad, Config.HeaderPad;
    var name, rest := page.name, cfg.metaLen + cfg.HeadPad();
    var numbers := Flatten(PageNumbers(cfg, page.pages));
    var fill := Fill(0xFF, cfg.pageSize - |PageFields(cfg, page)|);
    ZerosSplit(cfg.objNameLen - |name|, rest);
    after := Fill(0, rest) + (numbers + fill);
    Regroup(Header(cfg, Toggle(cfg.objIdLen, page.objId), 0, USED_FINAL_INDEX), Fill(0xFF, cfg.HeaderPad()),
            Pack(cfg.order, IX_SIZE_LEN, page.size), [TYPE_FILE], name,
            Fill(0, cfg.objNameLen - |name|), Fill(0, rest), numbers, fill);
  }

  lemma ZerosSplit(a: nat, b: nat)
    ensures Fill(0, a + b) == Fill(0, a) + Fill(0, b)
  {
  }

  lemma Regroup(a: seq<byte>, b: seq<byte>, c: seq<byte>, d: seq<byte>, e: seq<byte>, f: seq<byte>, g: seq<byte>,
                h: seq<byte>, i: seq<byte>)
    ensures a + b + (c + d + e + (f + g)) + h + i == a + b + c + d + (e + f) + (g + (h + i))
  {
    assert a + b + (c + d + e + (f + g)) == a + b + c + d + (e + f) + g;
  }

  lemma {:induction false} NameThenZeros(name: seq<byte>, zeros: seq<byte>)
    requires 0 !in name && forall i :: 0 <= i < |zeros| ==> zeros[i] == 0
    ensures UpToNul(name + zeros) == name
  {
    if name != [] {
      assert (name + zeros)[1..] == name[1..] + zeros;
      NameThenZeros(name[1..], zeros);
    }
  }

  /** Data page `d` of a stored file is where its index page says, and holds the next chunk. */
  lemma DataPageFound(cfg: Config, geo: Geometry, blocksLim: nat, log: Log, f: Stored, d: nat)
    requires Matches(cfg, geo) && ImagePacks(cfg, geo, blocksLim, log) && |log| <= blocksLim * geo.usable
    requires Holds(geo, log, f) && d < |f.datas| && |f.name| <= cfg.objNameLen
    ensures var img := Image(cfg, geo, blocksLim, log);
      var (g, slot) := IndexOf(geo, d);
      var p := PageNo(geo, f.datas[d]);
      && g < |f.ixs|
      && SlotAt(cfg, PartOf(geo.pageSize, img, PageNo(geo, f.ixs[g])), g, slot) == p
      && IsPageAt(cfg, geo, img, p, f.id, d, USED_FINAL)
      && PartOf(geo.pageSize, img, p) == PageBytes(cfg, log[f.datas[d]])
      && PagePacks(cfg, log[f.datas[d]])
  {
    hide Image, IsPageAt, ImagePacks, PageBytes, PagePacks, PartOf, PageNo, HoldsNoOthers, Toggle, Chunks,
         SlotAt, Offset, IndexOf, HoldsIndexes, HoldsDatas;
    var (g, slot) := IndexOf(geo, d);
    IndexHasEntry(geo, log, f, d);
    DataIsInLog(geo, log, f, d);
    var ix := log[f.ixs[g]];
    PageAtLog(cfg, geo, blocksLim, log, f.ixs[g], 0, 0, 0);
    PageAtLog(cfg, geo, blocksLim, log, f.datas[d], f.id, d, USED_FINAL);
    SlotOfIndex(cfg, ix, slot);
    ShiftOfOffset(cfg, geo, f.datas[d]);
  }

  /** The index page of a data page has its offset in the data page's slot. */
  lemma IndexHasEntry(geo: Geometry, log: Log, f: Stored, d: nat)
    requires geo.Valid() && HoldsIndexes(geo, log, f) && d < |f.datas|
    ensures var (g, slot) := IndexOf(geo, d);
      && g < |f.ixs| && f.ixs[g] < |log|
      && log[f.ixs[g]].Index? && log[f.ixs[g]].spanIx == g && log[f.ixs[g]].name == f.name
      && slot < |log[f.ixs[g]].pages| && log[f.ixs[g]].pages[slot] == Offset(geo, f.datas[d])
  {
    hide Offset;
    var (g, slot) := IndexOf(geo, d);
    IndexOfFirst(geo, d, |f.ixs|);
    assert First(geo, g + 1) == First(geo, g) + geo.IxLim(g);
  }

  lemma DataIsInLog(geo: Geometry, log: Log, f: Stored, d: nat)
    requires geo.Valid() && HoldsDatas(geo, log, f) && d < |f.datas|
    ensures f.datas[d] < |log| && log[f.datas[d]].Data? && log[f.datas[d]].objId == f.id && log[f.datas[d]].spanIx == d
  {
  }

  lemma NextChunk(geo: Geometry, contents: seq<byte>, d: nat, rest: seq<byte>)
    requires geo.Valid() && d <= |Chunks(geo, contents)| && Chunks(geo, rest) == Chunks(geo, contents)[d..]
    requires rest != []
    ensures var k := Min(geo.contentLen, |rest|);
      && d < |Chunks(geo, contents)| && Chunks(geo, contents)[d] == rest[..k]
      && Chunks(geo, rest[k..]) == Chunks(geo, contents)[d + 1..]
  {
    assert Chunks(geo, rest)[1..] == Chunks(geo, contents)[d..][1..];
  }

  lemma HoldsIndexesOf(geo: Geometry, log: Log, f: Stored, d: nat)
    requires geo.Valid() && HoldsIndexes(geo, log, f) && d < |f.datas|
    ensures IndexOf(geo, d).0 < |f.ixs|
  {
    hide IndexOf;
    IndexOfFirst(geo, d, |f.ixs|);
  }

  lemma ReadNothing(cfg: Config, geo: Geometry, img: seq<byte>, n: nat, id: nat, d: nat)
    requires geo.Valid()
    ensures ReadData(cfg, geo, img, n, id, d, 0) == Some([])
  {
  }

  /** One turn of the reader, with index page `ix` and data page `p`. */
  lemma ReadStep(cfg: Config, geo: Geometry, img: seq<byte>, n: nat, id: nat, d: nat, size: nat, ix: nat, p: nat)
    requires geo.Valid() && size > 0
    requires FindIndex(cfg, geo, img, id, IndexOf(geo, d).0, 0, n) == Some(ix)
    requires SlotAt(cfg, PartOf(geo.pageSize, img, ix), IndexOf(geo, d).0, IndexOf(geo, d).1) == p
    requires IsPageAt(cfg, geo, img, p, id, d, USED_FINAL)
    ensures var page, from, k := PartOf(geo.pageSize, img, p), cfg.DataHeaderLen(), Min(geo.contentLen, size);
      from + k <= |page| && ReadData(cfg, geo, img, n, id, d + 1, size - k).Some? ==>
        ReadData(cfg, geo, img, n, id, d, size)
          == Some(page[from..from + k] + ReadData(cfg, geo, img, n, id, d + 1, size - k).value)
  {
    hide FindIndex, IndexOf, SlotAt, PartOf, IsPageAt;
  }

  lemma {:induction false} ReadDataBack(
    cfg: Config, geo: Geometry, blocksLim: nat, log: Log, f: Stored, d: nat, rest: seq<byte>)
    requires Matches(cfg, geo) && ImagePacks(cfg, geo, blocksLim, log) && |log| <= blocksLim * geo.usable
    requires Complete(geo, log, f) && |f.name| <= cfg.objNameLen
    requires d <= |f.datas| && Chunks(geo, rest) == Chunks(geo, f.contents)[d..]
    ensures ReadData(cfg, geo, Image(cfg, geo, blocksLim, log), PageCount(geo, blocksLim), f.id, d, |rest|)
      == Some(rest)
    decreases |rest|
  {
    hide Image, IsPageAt, ImagePacks, PageBytes, PagePacks, PartOf, PageNo, PageCount, HoldsNoOthers, Toggle, SlotAt,
         FindIndex, IndexOf, Entries, Chunks, First, HoldsIndexes, Matches, ReadData;
    MatchesGeometry(cfg, geo);
    var img, n := Image(cfg, geo, blocksLim, log), PageCount(geo, blocksLim);
    if rest == [] { ReadNothing(cfg, geo, img, n, f.id, d); }
    if rest != [] {
      var k := Min(geo.contentLen, |rest|);
      NextChunk(geo, f.contents, d, rest);
      DataPageFound(cfg, geo, blocksLim, log, f, d);
      HoldsIndexesOf(geo, log, f, d);
      FindIndexFinds(cfg, geo, blocksLim, log, f, IndexOf(geo, d).0, 0);
      ContentsOfData(cfg, log[f.datas[d]]);
      ReadDataBack(cfg, geo, blocksLim, log, f, d + 1, rest[k..]);
      ReadStep(cfg, geo, img, n, f.id, d, |rest|, PageNo(geo, f.ixs[IndexOf(geo, d).0]), PageNo(geo, f.datas[d]));
      assert rest == rest[..k] + rest[k..];
    }
  }

  /** A complete file is read back, name and contents, from the image alone. */
  lemma ReadFileBack(cfg: Config, geo: Geometry, blocksLim: nat, log: Log, f: Stored)
    requires Matches(cfg, geo) && ImagePacks(cfg, geo, blocksLim, log) && |log| <= blocksLim * geo.usable
    requires Complete(geo, log, f) && |f.name| <= cfg.objNameLen && 0 !in f.name
    ensures ReadFile(cfg, geo, Image(cfg, geo, blocksLim, log), PageCount(geo, blocksLim), f.id)
         == Some(FileRead(f.name, f.contents))
  {
    hide Image, IsPageAt, ImagePacks, PageBytes, PagePacks, PartOf, PageNo, PageCount, HoldsNoOthers, Toggle,
         FindIndex, Entries, UpToNul, ReadData, Field;
    FindIndexFinds(cfg, geo, blocksLim, log, f, 0, 0);
    PageAtLog(cfg, geo, blocksLim, log, f.ixs[0], 0, 0, 0);
    HeadOfIndex(cfg, log[f.ixs[0]]);
    ReadDataBack(cfg, geo, blocksLim, log, f, 0, f.contents);
  }
}
