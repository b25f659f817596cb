/** Which files give an image whose fields all fit: an exact condition on the sizes of the files. */
module SpiffsPacks {
  import opened Arith
  import opened ByteFields
  import opened SpiffsConfig
  import opened SpiffsFs
  import opened SpiffsImage
  import opened SpiffsLayout
  import opened SpiffsLookup
  import opened SpiffsReader

  // ----- one file

  /** The id, spans, size and page numbers of a file fit their fields. */
  ghost predicate FileFits(cfg: Config, geo: Geometry, f: Stored)
    requires geo.Valid()
  {
    && Fits(cfg.objIdLen, f.id) && Fits(IX_SIZE_LEN, |f.contents|)
    && |f.datas| <= Pow256(cfg.spanIxLen) && |f.ixs| <= Pow256(cfg.spanIxLen)
    && forall d :: 0 <= d < |f.datas| ==> Fits(cfg.pageIxLen, PageNo(geo, f.datas[d]))
  }

  lemma ToggledFits(width: nat, id: nat)
    requires width >= 1
    ensures Fits(width, Toggle(width, id)) <==> Fits(width, id)
  {
    var p := Pow256(width);
    assert p == 256 * Pow256(width - 1);
    if id < p { DivModUnique(id, p, 0, id); } else if Fits(width, Toggle(width, id)) { ToggleInvolution(width, id); }
  }

  lemma IndexLength(cfg: Config, geo: Geometry, page: Page)
    requires Matches(cfg, geo) && page.Index? && |page.pages| <= geo.IxLim(page.spanIx)
    ensures |page.name| <= cfg.objNameLen ==> |PageFields(cfg, page)| <= cfg.pageSize
  {
    hide Toggle, Flatten, PageNumbers;
    FlattenLength(PageNumbers(cfg, page.pages), cfg.pageIxLen);
    MulLe(|page.pages|, geo.IxLim(page.spanIx), cfg.pageIxLen);
  }

  lemma DataPacksIff(cfg: Config, geo: Geometry, log: Log, f: Stored, d: nat)
    requires Matches(cfg, geo) && HoldsDatas(geo, log, f) && d < |f.datas|
    ensures f.datas[d] < |log|
    ensures PagePacks(cfg, log[f.datas[d]]) <==> Fits(cfg.objIdLen, f.id) && Fits(cfg.spanIxLen, d)
  {
    hide Offset, Fits, Toggle, Flatten, PageNumbers;
    ChunkLength(geo, f.contents, d);
  }

  lemma {:induction false} ChunkLength(geo: Geometry, contents: seq<byte>, d: nat)
    requires geo.contentLen >= 1 && d < |Chunks(geo, contents)|
    ensures 1 <= |Chunks(geo, contents)[d]| <= geo.contentLen
  {
    if d > 0 { ChunkLength(geo, contents[Min(geo.contentLen, |contents|)..], d - 1); }
  }

  /** The numbers of the `n` data pages from `from` on fit. */
  ghost predicate NumbersFit(cfg: Config, geo: Geometry, f: Stored, from: nat, n: nat)
    requires geo.Valid() && from + n <= |f.datas|
  {
    forall d :: from <= d < from + n ==> Fits(cfg.pageIxLen, PageNo(geo, f.datas[d]))
  }

  lemma IndexPacksIff(cfg: Config, geo: Geometry, log: Log, f: Stored, g: nat)
    requires Matches(cfg, geo) && HoldsIndexes(geo, log, f) && g < |f.ixs| && |f.name| <= cfg.objNameLen
    ensures f.ixs[g] < |log| && First(geo, g) + |log[f.ixs[g]].pages| <= |f.datas| && log[f.ixs[g]].Index?
    ensures PagePacks(cfg, log[f.ixs[g]]) <==>
      && Fits(cfg.objIdLen, f.id) && Fits(cfg.spanIxLen, g) && (g == 0 ==> Fits(IX_SIZE_LEN, |f.contents|))
      && NumbersFit(cfg, geo, f, First(geo, g), |log[f.ixs[g]].pages|)
  {
    var page := log[f.ixs[g]];
    EntriesOfIndex(geo, log, f, g);
    IndexLength(cfg, geo, page);
    ToggledFits(cfg.objIdLen, f.id);
    ListFitsIff(cfg, geo, f, First(geo, g), page.pages);
    hide PageFields, Toggle, Fits, PageShift, NumbersFit, First, Entries;
  }

  lemma EntriesOfIndex(geo: Geometry, log: Log, f: Stored, g: nat)
    requires geo.Valid() && HoldsIndexes(geo, log, f) && g < |f.ixs|
    ensures f.ixs[g] < |log| && log[f.ixs[g]] == Index(f.id, g, |f.contents|, f.name, log[f.ixs[g]].pages)
    ensures var pages := log[f.ixs[g]].pages;
      && |pages| <= geo.IxLim(g) && First(geo, g) + |pages| <= |f.datas|
      && forall i :: 0 <= i < |pages| ==> pages[i] == Offset(geo, f.datas[First(geo, g) + i])
  {
    hide *;
    IndexAt(geo, log, f, g);
    EntriesAre(geo, f, g);
  }

  lemma IndexAt(geo: Geometry, log: Log, f: Stored, g: nat)
    requires geo.Valid() && HoldsIndexes(geo, log, f) && g < |f.ixs|
    ensures f.ixs[g] < |log| && First(geo, g) <= |f.datas|
    ensures log[f.ixs[g]] == Index(f.id, g, |f.contents|, f.name, Entries(geo, f, g))
  {
    hide Entries, First;
  }

  lemma EntriesAre(geo: Geometry, f: Stored, g: nat)
    requires geo.Valid() && First(geo, g) <= |f.datas|
    ensures var pages := Entries(geo, f, g);
      && |pages| <= geo.IxLim(g) && First(geo, g) + |pages| <= |f.datas|
      && forall i :: 0 <= i < |pages| ==> pages[i] == Offset(geo, f.datas[First(geo, g) + i])
  {
    hide Offset;
    assert First(geo, g + 1) == First(geo, g) + geo.IxLim(g);
  }

  lemma ListFitsIff(cfg: Config, geo: Geometry, f: Stored, from: nat, pages: seq<nat>)
    requires Matches(cfg, geo) && from + |pages| <= |f.datas|
    requires forall i :: 0 <= i < |pages| ==> pages[i] == Offset(geo, f.datas[from + i])
    ensures NumbersFit(cfg, geo, f, from, |pages|)
      <==> forall i :: 0 <= i < |pages| ==> Fits(cfg.pageIxLen, PageShift(cfg.pageSize, pages[i]))
  {
    hide Offset, PageNo, Fits, PageShift;
    forall d | from <= d < from + |pages|
      ensures PageShift(cfg.pageSize, pages[d - from]) == PageNo(geo, f.datas[d])
    {
      ShiftOfOffset(cfg, geo, f.datas[d]);
    }
    forall i | 0 <= i < |pages|
      ensures PageShift(cfg.pageSize, pages[i]) == PageNo(geo, f.datas[from + i])
    {
      ShiftOfOffset(cfg, geo, f.datas[from + i]);
    }
  }

  /** All pages of `f` pack. */
  ghost predicate FilePacks(cfg: Config, log: Log, f: Stored)
    requires cfg.pageSize > 0
  {
    forall n :: 0 <= n < |log| && log[n].objId == f.id ==> PagePacks(cfg, log[n])
  }

  lemma FilePacksIff(cfg: Config, geo: Geometry, log: Log, f: Stored)
    requires Matches(cfg, geo) && Complete(geo, log, f) && |f.name| <= cfg.objNameLen
    ensures FilePacks(cfg, log, f) <==> FileFits(cfg, geo, f)
  {
    hide PagePacks, Matches, PageNo, Fits;
    MatchesGeometry(cfg, geo);
    if FileFits(cfg, geo, f) {
      forall n | 0 <= n < |log| && log[n].objId == f.id ensures PagePacks(cfg, log[n]) {
        FittingPagePacks(cfg, geo, log, f, n);
      }
    }
    if FilePacks(cfg, log, f) {
      PackedFileFits(cfg, geo, log, f);
    }
  }

  lemma FittingPagePacks(cfg: Config, geo: Geometry, log: Log, f: Stored, n: nat)
    requires Matches(cfg, geo) && Holds(geo, log, f) && |f.name| <= cfg.objNameLen && FileFits(cfg, geo, f)
    requires n < |log| && log[n].objId == f.id
    ensures PagePacks(cfg, log[n])
  {
    hide PagePacks, PageNo, HoldsDatas, HoldsIndexes, Matches;
    match log[n]
    case Data(_, _, span, _) =>
      DataPacksIff(cfg, geo, log, f, span);
    case Index(_, span, _, _, _) =>
      IndexPacksIff(cfg, geo, log, f, span);
  }

  lemma PackedFileFits(cfg: Config, geo: Geometry, log: Log, f: Stored)
    requires Matches(cfg, geo) && Complete(geo, log, f) && |f.name| <= cfg.objNameLen
    requires FilePacks(cfg, log, f)
    ensures FileFits(cfg, geo, f)
  {
    hide PagePacks, PageNo, Offset, Matches, First;
    MatchesGeometry(cfg, geo);
    var last := |f.ixs| - 1;
    IndexPacksIff(cfg, geo, log, f, 0);
    IndexPacksIff(cfg, geo, log, f, last);
    if f.datas != [] { DataPacksIff(cfg, geo, log, f, |f.datas| - 1); }
    forall d | 0 <= d < |f.datas| ensures Fits(cfg.pageIxLen, PageNo(geo, f.datas[d])) {
      ListedFits(cfg, geo, log, f, d);
    }
  }

  /** Every data page is listed in an index page, so its number has to fit. */
  lemma ListedFits(cfg: Config, geo: Geometry, log: Log, f: Stored, d: nat)
    requires Matches(cfg, geo) && Holds(geo, log, f) && FilePacks(cfg, log, f) && d < |f.datas|
    ensures Fits(cfg.pageIxLen, PageNo(geo, f.datas[d]))
  {
    hide PageNo, Offset, PageFields, Toggle, HoldsDatas, HoldsNoOthers, IndexOf;
    IndexHasEntry(geo, log, f, d);
    ShiftOfOffset(cfg, geo, f.datas[d]);
    assert log[f.ixs[IndexOf(geo, d).0]].objId == f.id;
  }

  // ----- the image

  /** Slots left free at the end of the last lookup page of a block with `used` pages in use. */
  function FreeSlots(geo: Geometry, used: nat): int {
    Min(geo.luLim, geo.luPages * geo.luLim - used)
  }

  lemma LookupsPackIff(cfg: Config, geo: Geometry, blocksLim: nat, b: nat, pages: seq<Page>)
    requires Matches(cfg, geo) && b < blocksLim && |pages| <= geo.usable && PagesPack(cfg, pages)
    ensures LookupsPack(cfg, geo, blocksLim, b, pages) <==>
      (cfg.useMagic && FreeSlots(geo, |pages|) >= 2 ==> Fits(cfg.objIdLen, Magic(cfg, blocksLim, b)))
  {
    hide LuPacks, LuIds, PagePacks, Magic, Fits;
    var last := geo.luPages - 1;
    LastLookupPacksIff(cfg, geo, blocksLim, b, pages);
    forall k: nat | k < last ensures LuPacks(cfg, LuIds(cfg, geo, blocksLim, b, pages, k)) {
      LookupIdsFit(cfg, geo, pages, k);
      EarlierIds(cfg, geo, blocksLim, b, pages, k);
    }
    hide Matches, LuPagesOf;
  }

  lemma EarlierIds(cfg: Config, geo: Geometry, blocksLim: nat, b: nat, pages: seq<Page>, k: nat)
    requires b < blocksLim && k < geo.luPages - 1
    ensures LuIds(cfg, geo, blocksLim, b, pages, k)
      == LuPagesOf(geo.luLim, geo.luPages, EntriesOfPages(pages))[k].objIds
  {
  }

  /** The ids listed in lookup page `k` fit. */
  lemma LookupIdsFit(cfg: Config, geo: Geometry, pages: seq<Page>, k: nat)
    requires Matches(cfg, geo) && k < geo.luPages && PagesPack(cfg, pages)
    ensures LuPacks(cfg, LuPagesOf(geo.luLim, geo.luPages, EntriesOfPages(pages))[k].objIds)
  {
    hide Toggle, PageFields, LuPagesOf;
    var entries := EntriesOfPages(pages);
    LuPagesRoom(geo.luLim, geo.luPages, entries, k);
    LuPagesFrom(geo.luLim, geo.luPages, entries, k);
    var ids := LuPagesOf(geo.luLim, geo.luPages, entries)[k].objIds;
    MulLe(|ids|, geo.luLim, cfg.objIdLen);
    forall i | 0 <= i < |ids| ensures Fits(cfg.objIdLen, EntryValue(cfg, ids[i])) {
      assert ids[i] in entries;
    }
  }

  /** Lookup pages list nothing but the entries. */
  lemma {:induction false} LuPagesFrom(lim: nat, count: nat, entries: seq<LuEntry>, k: nat)
    requires k < count
    ensures forall e :: e in LuPagesOf(lim, count, entries)[k].objIds ==> e in entries
  {
    if k > 0 { LuPagesFrom(lim, count - 1, if |entries| <= lim then [] else entries[lim..], k - 1); }
  }

  lemma LastLookupPacksIff(cfg: Config, geo: Geometry, blocksLim: nat, b: nat, pages: seq<Page>)
    requires Matches(cfg, geo) && b < blocksLim && |pages| <= geo.usable && PagesPack(cfg, pages)
    ensures LuPacks(cfg, LuIds(cfg, geo, blocksLim, b, pages, geo.luPages - 1)) <==>
      (cfg.useMagic && FreeSlots(geo, |pages|) >= 2 ==> Fits(cfg.objIdLen, Magic(cfg, blocksLim, b)))
  {
    hide Magic, LuPagesOf, PagePacks, Toggle;
    var entries, last := EntriesOfPages(pages), geo.luPages - 1;
    LookupIdsFit(cfg, geo, pages, last);
    LastLuPageFree(geo.luLim, geo.luPages, entries);
    LuPagesRoom(geo.luLim, geo.luPages, entries, last);
    MagicfiedPacksIff(cfg, geo, blocksLim, b, LuPagesOf(geo.luLim, geo.luPages, entries)[last]);
  }

  lemma MagicfiedPacksIff(cfg: Config, geo: Geometry, blocksLim: nat, b: nat, lu: LuPage)
    requires Matches(cfg, geo) && b < blocksLim && LuPacks(cfg, lu.objIds)
    requires |lu.objIds| + lu.objIdsLimit == geo.luLim
    ensures LuPacks(cfg, Magicfied(cfg, blocksLim, b, lu)) <==>
      (lu.objIdsLimit >= 2 ==> Fits(cfg.objIdLen, Magic(cfg, blocksLim, b)))
  {
    hide Magic, Toggle;
    var ids := Magicfied(cfg, blocksLim, b, lu);
    MulLe(|ids|, geo.luLim, cfg.objIdLen);
    if lu.objIdsLimit >= 2 {
      assert ids[|ids| - 1] == LuEntry(Magic(cfg, blocksLim, b), false);
      forall i | 0 <= i < |lu.objIds| ensures ids[i] == lu.objIds[i] {}
    }
  }

  /** The pages of block `b` that are in use when `total` pages are allocated. */
  function UsedIn(geo: Geometry, total: nat, b: nat): nat {
    Max(0, Min(geo.usable, total - b * geo.usable))
  }

  ghost predicate MagicsFit(cfg: Config, geo: Geometry, blocksLim: nat, total: nat) {
    cfg.useMagic ==> forall b: nat :: b < blocksLim && FreeSlots(geo, UsedIn(geo, total, b)) >= 2 ==>
      Fits(cfg.objIdLen, Magic(cfg, blocksLim, b))
  }

  lemma PagesOfBlocks(geo: Geometry, log: Log, b: nat)
    ensures |InBlock(geo, log, b)| == UsedIn(geo, |log|, b)
  {
  }

  lemma AllPagesPackIff(cfg: Config, geo: Geometry, blocksLim: nat, log: Log)
    requires Matches(cfg, geo) && |log| <= blocksLim * geo.usable
    ensures PagesPack(cfg, log) <==> forall b: nat :: b < blocksLim ==> PagesPack(cfg, InBlock(geo, log, b))
  {
    hide PagePacks, InBlock;
    if PagesPack(cfg, log) {
      forall b: nat | b < blocksLim ensures PagesPack(cfg, InBlock(geo, log, b)) {
        forall i | 0 <= i < |InBlock(geo, log, b)| ensures PagePacks(cfg, InBlock(geo, log, b)[i]) {
          InBlockBelow(geo, log, b, i);
          InBlockAt(geo, log, b * geo.usable + i, b, i);
        }
      }
    }
    if forall b: nat :: b < blocksLim ==> PagesPack(cfg, InBlock(geo, log, b)) {
      forall n | 0 <= n < |log| ensures PagePacks(cfg, log[n]) {
        DivLt(n, geo.usable, blocksLim);
        InBlockAt(geo, log, n, n / geo.usable, n % geo.usable);
      }
    }
  }

  /** An image packs exactly when all its pages do, and its magic numbers where it has them. */
  lemma BlocksPackIff(cfg: Config, geo: Geometry, blocksLim: nat, log: Log)
    requires Matches(cfg, geo) && |log| <= blocksLim * geo.usable
    ensures ImagePacks(cfg, geo, blocksLim, log) <==> PagesPack(cfg, log) && MagicsFit(cfg, geo, blocksLim, |log|)
  {
    hide InBlock, PagesPack, LookupsPack, FreeSlots, UsedIn, Magic, Fits, Matches;
    MatchesGeometry(cfg, geo);
    AllPagesPackIff(cfg, geo, blocksLim, log);
    forall b: nat | b < blocksLim
      ensures BlockPacks(cfg, geo, blocksLim, b, InBlock(geo, log, b)) <==>
        && PagesPack(cfg, InBlock(geo, log, b))
        && (cfg.useMagic && FreeSlots(geo, UsedIn(geo, |log|, b)) >= 2 ==> Fits(cfg.objIdLen, Magic(cfg, blocksLim, b)))
    {
      PagesOfBlocks(geo, log, b);
      if PagesPack(cfg, InBlock(geo, log, b)) { LookupsPackIff(cfg, geo, blocksLim, b, InBlock(geo, log, b)); }
    }
  }

  // ----- the condition on sizes

  function SizesOf(files: seq<Stored>): (sizes: seq<nat>)
    ensures |sizes| == |files|
  {
    seq(|files|, i requires 0 <= i < |files| => |files[i].contents|)
  }

  function PagesOfSizes(geo: Geometry, sizes: seq<nat>): nat
    requires geo.Valid()
  {
    if sizes == [] then 0
    else PagesOfSizes(geo, sizes[..|sizes| - 1]) + PagesNeeded(geo, sizes[|sizes| - 1])
  }

  /** The pages allocated up to the last data page: those of all files up to the last that is not empty. */
  function DataEnd(geo: Geometry, sizes: seq<nat>): nat
    requires geo.Valid()
  {
    if sizes == [] then 0
    else if sizes[|sizes| - 1] == 0 then DataEnd(geo, sizes[..|sizes| - 1])
    else PagesOfSizes(geo, sizes)
  }

  /** The largest id, spans and sizes, the number of the last data page, and the magic numbers fit. */
  ghost predicate FieldsFit(cfg: Config, geo: Geometry, blocksLim: nat, sizes: seq<nat>)
    requires geo.Valid()
  {
    && SizesFit(cfg, geo, sizes)
    && MagicsFit(cfg, geo, blocksLim, PagesOfSizes(geo, sizes))
  }

  /** A file of `size` bytes has a size and spans that fit. */
  predicate SizeFits(cfg: Config, geo: Geometry, size: nat)
    requires geo.Valid()
  {
    var d := CeilDiv(size, geo.contentLen);
    Fits(IX_SIZE_LEN, size) && d <= Pow256(cfg.spanIxLen) && IndexPagesNeeded(geo, d) <= Pow256(cfg.spanIxLen)
  }

  /** `end` pages are allocated up to the last data page. */
  predicate DataEndsAt(log: Log, end: nat) {
    && end <= |log| && (end > 0 ==> log[end - 1].Data?)
    && forall n :: end <= n < |log| ==> log[n].Index?
  }

  lemma {:induction false} PageNoMonotone(geo: Geometry, a: nat, b: nat)
    requires geo.Valid() && a <= b
    ensures PageNo(geo, a) <= PageNo(geo, b)
    decreases b - a
  {
    if a < b {
      hide PageNo;
      PageNoMonotone(geo, a, b - 1);
      PageNoNext(geo, b - 1);
    }
  }

  lemma PageNoNext(geo: Geometry, n: nat)
    requires geo.Valid()
    ensures PageNo(geo, n) < PageNo(geo, n + 1)
  {
    var u, q, m := geo.usable, n / geo.usable, n % geo.usable;
    assert n == q * u + m;
    PageNoAt(geo, n, q, m);
    if m + 1 < u {
      PageNoAt(geo, n + 1, q, m + 1);
    } else {
      OneMore(q + 1, u);
      OneMore(q + 1, geo.pagesPerBlock);
      PageNoAt(geo, n + 1, q + 1, 0);
    }
  }

  /** For the log of `files`, the image packs exactly when the fields fit. */
  lemma PacksIff(cfg: Config, geo: Geometry, blocksLim: nat, log: Log, files: seq<Stored>)
    requires Matches(cfg, geo) && Clean(geo, log, files) && |log| <= blocksLim * geo.usable
    requires forall i :: 0 <= i < |files| ==>
      files[i].id == i + 1 && Complete(geo, log, files[i]) && |files[i].name| <= cfg.objNameLen
    requires DataEndsAt(log, DataEnd(geo, SizesOf(files)))
    ensures ImagePacks(cfg, geo, blocksLim, log) <==> FieldsFit(cfg, geo, blocksLim, SizesOf(files))
  {
    hide Complete, PagePacks, MagicsFit, Matches, FileFits, SizeFits, DataEndsAt, ImagePacks, PageNo, Fits, PagesPack;
    MatchesGeometry(cfg, geo);
    TotalOfSizes(geo, files);
    BlocksPackIff(cfg, geo, blocksLim, log);
    PagesPackIff(cfg, geo, log, files);
    FilesFitIff(cfg, geo, log, files);
    hide PagesOfSizes, DataEnd, TotalPages;
  }

  /** The condition on the files one by one. */
  ghost predicate AllFit(cfg: Config, geo: Geometry, files: seq<Stored>)
    requires geo.Valid()
  {
    forall i :: 0 <= i < |files| ==> FileFits(cfg, geo, files[i])
  }

  /** The condition on their sizes, but for the magic numbers. */
  ghost predicate SizesFit(cfg: Config, geo: Geometry, sizes: seq<nat>)
    requires geo.Valid()
  {
    && Fits(cfg.objIdLen, |sizes|)
    && (forall i :: 0 <= i < |sizes| ==> SizeFits(cfg, geo, sizes[i]))
    && (DataEnd(geo, sizes) > 0 ==> Fits(cfg.pageIxLen, PageNo(geo, DataEnd(geo, sizes) - 1)))
  }

  lemma {:induction false} TotalOfSizes(geo: Geometry, files: seq<Stored>)
    requires geo.Valid()
    ensures TotalPages(geo, files) == PagesOfSizes(geo, SizesOf(files))
  {
    if files != [] {
      var front := files[..|files| - 1];
      assert SizesOf(files)[..|files| - 1] == SizesOf(front);
      TotalOfSizes(geo, front);
    }
  }

  lemma PagesPackIff(cfg: Config, geo: Geometry, log: Log, files: seq<Stored>)
    requires Matches(cfg, geo) && Clean(geo, log, files)
    requires forall i :: 0 <= i < |files| ==>
      files[i].id == i + 1 && Complete(geo, log, files[i]) && |files[i].name| <= cfg.objNameLen
    ensures PagesPack(cfg, log) <==> AllFit(cfg, geo, files)
  {
    hide Complete, PagePacks, FileFits, Matches, TotalPages;
    MatchesGeometry(cfg, geo);
    forall i | 0 <= i < |files| ensures FilePacks(cfg, log, files[i]) <==> FileFits(cfg, geo, files[i]) {
      FilePacksIff(cfg, geo, log, files[i]);
    }
    if AllFit(cfg, geo, files) {
      forall n | 0 <= n < |log| ensures PagePacks(cfg, log[n]) {
        assert FilePacks(cfg, log, files[log[n].objId - 1]);
      }
    }
  }

  lemma FilesFitIff(cfg: Config, geo: Geometry, log: Log, files: seq<Stored>)
    requires Matches(cfg, geo) && Clean(geo, log, files)
    requires forall i :: 0 <= i < |files| ==> files[i].id == i + 1 && Complete(geo, log, files[i])
    requires DataEndsAt(log, DataEnd(geo, SizesOf(files)))
    ensures AllFit(cfg, geo, files) <==> SizesFit(cfg, geo, SizesOf(files))
  {
    hide Complete, FileFits, SizeFits, Matches, PageNo, Fits, TotalPages, DataEnd, DataEndsAt;
    MatchesGeometry(cfg, geo);
    if SizesFit(cfg, geo, SizesOf(files)) {
      forall i | 0 <= i < |files| ensures FileFits(cfg, geo, files[i]) {
        SizesFitFile(cfg, geo, log, files, i);
      }
    }
    if AllFit(cfg, geo, files) {
      forall i | 0 <= i < |files| ensures SizeFits(cfg, geo, SizesOf(files)[i]) {
        FileSizeFits(cfg, geo, log, files[i]);
      }
      LastIdFits(cfg, geo, files);
      EndFits(cfg, geo, log, files, DataEnd(geo, SizesOf(files)));
    }
  }

  lemma FileSizeFits(cfg: Config, geo: Geometry, log: Log, f: Stored)
    requires Matches(cfg, geo) && Complete(geo, log, f) && FileFits(cfg, geo, f)
    ensures SizeFits(cfg, geo, |f.contents|)
  {
    hide Complete, SizeFits, PageNo;
    SizeFitsIff(cfg, geo, log, f);
  }

  lemma LastIdFits(cfg: Config, geo: Geometry, files: seq<Stored>)
    requires geo.Valid() && AllFit(cfg, geo, files)
    requires forall i :: 0 <= i < |files| ==> files[i].id == i + 1
    ensures Fits(cfg.objIdLen, |files|)
  {
    hide PageNo;
    if files != [] { assert FileFits(cfg, geo, files[|files| - 1]); } else { assert Pow256(cfg.objIdLen) > 0; }
  }

  /** The number of the last data page is among those that fit. */
  lemma EndFits(cfg: Config, geo: Geometry, log: Log, files: seq<Stored>, end: nat)
    requires geo.Valid() && Clean(geo, log, files) && AllFit(cfg, geo, files) && DataEndsAt(log, end)
    requires forall i :: 0 <= i < |files| ==> files[i].id == i + 1 && Complete(geo, log, files[i])
    ensures end > 0 ==> Fits(cfg.pageIxLen, PageNo(geo, end - 1))
  {
    hide PageNo, Complete, Fits, TotalPages;
    if end > 0 {
      var f := files[log[end - 1].objId - 1];
      var d := DataPageOf(geo, log, f, end - 1);
      assert FileFits(cfg, geo, f);
    }
  }

  lemma SizesFitFile(cfg: Config, geo: Geometry, log: Log, files: seq<Stored>, i: nat)
    requires Matches(cfg, geo) && SizesFit(cfg, geo, SizesOf(files)) && i < |files|
    requires files[i].id == i + 1 && Complete(geo, log, files[i])
    requires DataEndsAt(log, DataEnd(geo, SizesOf(files)))
    ensures FileFits(cfg, geo, files[i])
  {
    hide PageNo, Complete, SizeFits, DataEnd, DataEndsAt;
    var f, end := files[i], DataEnd(geo, SizesOf(files));
    assert SizeFits(cfg, geo, SizesOf(files)[i]);
    SizeFitsIff(cfg, geo, log, f);
    hide Matches;
    forall d | 0 <= d < |f.datas| ensures Fits(cfg.pageIxLen, PageNo(geo, f.datas[d])) {
      DatasBeforeEnd(geo, log, f, d, end);
      PageNoMonotone(geo, f.datas[d], end - 1);
    }
  }

  lemma SizeFitsIff(cfg: Config, geo: Geometry, log: Log, f: Stored)
    requires Matches(cfg, geo) && Complete(geo, log, f)
    ensures SizeFits(cfg, geo, |f.contents|) <==>
      && Fits(IX_SIZE_LEN, |f.contents|)
      && |f.datas| <= Pow256(cfg.spanIxLen) && |f.ixs| <= Pow256(cfg.spanIxLen)
  {
    hide Holds, IndexPagesNeeded, Chunks, CeilDiv, Pow256;
    FlattenChunks(geo, f.contents);
  }

  lemma DataPageOf(geo: Geometry, log: Log, f: Stored, n: nat) returns (d: nat)
    requires geo.Valid() && Complete(geo, log, f) && n < |log| && log[n].Data? && log[n].objId == f.id
    ensures d < |f.datas| && f.datas[d] == n
  {
    d := log[n].spanIx;
  }

  lemma DatasBeforeEnd(geo: Geometry, log: Log, f: Stored, d: nat, end: nat)
    requires geo.Valid() && Complete(geo, log, f) && d < |f.datas| && DataEndsAt(log, end)
    ensures f.datas[d] < end
  {
    DataIsInLog(geo, log, f, d);
  }
}
