/** The generator as a whole: files in, image out, files back. */
module SpiffsGenerate {
  import opened Arith
  import opened ByteFields
  import opened SpiffsConfig
  import opened SpiffsFs
  import opened SpiffsImage
  import opened SpiffsLayout
  import opened SpiffsLookup
  import opened SpiffsPacks
  import opened SpiffsReader
  import opened Wrappers

  datatype SourceFile = SourceFile(path: seq<byte>, contents: seq<byte>)

  datatype GenerateError = BadImageSize | FileRefused(index: nat, reason: FsError) | CannotPack

  /** Pages that so many files need. */
  function PagesOfFiles(geo: Geometry, files: seq<SourceFile>): nat
    requires geo.Valid()
  {
    if files == [] then 0
    else PagesOfFiles(geo, files[..|files| - 1]) + PagesNeeded(geo, |files[|files| - 1].contents|)
  }

  lemma {:induction false} PagesOfFilesMonotone(geo: Geometry, files: seq<SourceFile>, k: nat)
    requires geo.Valid() && k <= |files|
    ensures PagesOfFiles(geo, files[..k]) <= PagesOfFiles(geo, files)
  {
    if k < |files| {
      PagesOfFilesMonotone(geo, files[..|files| - 1], k);
      assert files[..|files| - 1][..k] == files[..k];
    } else {
      assert files[..k] == files;
    }
  }

  lemma PagesOfFilesNext(geo: Geometry, files: seq<SourceFile>, k: nat)
    requires geo.Valid() && k < |files|
    ensures PagesOfFiles(geo, files[..k + 1]) == PagesOfFiles(geo, files[..k]) + PagesNeeded(geo, |files[k].contents|)
  {
    assert files[..k + 1][..k] == files[..k];
  }

  /** Page numbers, span indexes, ids, sizes and magic numbers of the image all fit their fields. */
  predicate FieldsSuffice(cfg: Config, geo: Geometry, blocksLim: nat)
    requires cfg.pageSize > 0
  {
    && PageCount(geo, blocksLim) <= Pow256(cfg.pageIxLen)
    && PageCount(geo, blocksLim) <= Pow256(cfg.spanIxLen)
    && PageCount(geo, blocksLim) <= Pow256(cfg.objIdLen) / 2
    && PageCount(geo, blocksLim) * geo.pageSize < Pow256(IX_SIZE_LEN)
    && (cfg.useMagic ==> forall b :: 0 <= b < blocksLim ==> Fits(cfg.objIdLen, Magic(cfg, blocksLim, b)))
  }

  /** The stored files are the source files, in order. */
  ghost predicate StoredAll(files: seq<Stored>, sources: seq<SourceFile>) {
    && |files| == |sources|
    && forall i :: 0 <= i < |files| ==> files[i].name == sources[i].path && files[i].contents == sources[i].contents
  }

  lemma {:induction false} TotalOfStored(geo: Geometry, files: seq<Stored>, sources: seq<SourceFile>)
    requires geo.Valid() && StoredAll(files, sources)
    ensures TotalPages(geo, files) == PagesOfFiles(geo, sources)
  {
    if files != [] {
      TotalOfStored(geo, files[..|files| - 1], sources[..|files| - 1]);
    }
  }

  lemma {:induction false} FilePagesBound(geo: Geometry, files: seq<Stored>, i: nat)
    requires geo.Valid() && i < |files|
    ensures PagesNeeded(geo, |files[i].contents|) <= TotalPages(geo, files)
  {
    if i < |files| - 1 {
      FilePagesBound(geo, files[..|files| - 1], i);
    }
  }

  // ----- nothing fails to pack when the fields suffice

  /** A page of a complete file packs. */
  lemma FilePagePacks(cfg: Config, geo: Geometry, blocksLim: nat, log: Log, f: Stored, n: nat)
    requires Matches(cfg, geo) && FieldsSuffice(cfg, geo, blocksLim)
    requires Complete(geo, log, f) && |f.name| <= cfg.objNameLen
    requires PagesNeeded(geo, |f.contents|) <= |log| <= blocksLim * geo.usable
    requires f.id <= |log| && n < |log| && log[n].objId == f.id
    ensures PagePacks(cfg, log[n])
  {
    hide Toggle, Flatten, PageNumbers, PageShift, CeilDiv, First;
    FewPages(geo, blocksLim, |log|);
    assert |f.datas| + |f.ixs| <= |log| by { FlattenChunks(geo, f.contents); }
    SmallId(cfg.objIdLen, f.id);
    match log[n]
    case Data(_, _, span, _) =>
      assert f.datas[span] == n;
    case Index(_, span, _, _, pages) =>
      assert f.ixs[span] == n;
      WholeSizeFits(cfg, geo, blocksLim, log, f);
      EntriesFit(cfg, geo, blocksLim, log, f, span);
  }

  lemma FewPages(geo: Geometry, blocksLim: nat, n: nat)
    requires geo.Valid() && n <= blocksLim * geo.usable
    ensures n <= PageCount(geo, blocksLim)
    ensures n > 0 ==> n < PageCount(geo, blocksLim)
  {
    assert blocksLim == 0 ==> blocksLim * geo.usable == 0;
    MulLt(blocksLim, geo.usable, geo.pagesPerBlock);
  }

  lemma MulLt(a: nat, b: nat, c: nat)
    requires b < c
    ensures a > 0 ==> a * b < a * c
  {
  }

  lemma SmallId(width: nat, id: nat)
    requires width >= 1 && id < Pow256(width) / 2
    ensures Fits(width, id) && Fits(width, Toggle(width, id))
  {
    var p := Pow256(width);
    assert p == 256 * Pow256(width - 1);
    DivModUnique(id, p, 0, id);
  }

  lemma WholeSizeFits(cfg: Config, geo: Geometry, blocksLim: nat, log: Log, f: Stored)
    requires Matches(cfg, geo) && FieldsSuffice(cfg, geo, blocksLim)
    requires Complete(geo, log, f) && PagesNeeded(geo, |f.contents|) <= |log| <= blocksLim * geo.usable
    ensures Fits(IX_SIZE_LEN, |f.contents|)
  {
    hide CeilDiv, Chunks, Holds, Pow256;
    FlattenChunks(geo, f.contents);
    FewPages(geo, blocksLim, |log|);
    var d, c := CeilDiv(|f.contents|, geo.contentLen), geo.contentLen;
    CeilDivBounds(|f.contents|, c);
    MulLe(d, PageCount(geo, blocksLim), c);
    MulLe(c, geo.pageSize, PageCount(geo, blocksLim));
  }

  /** The page numbers in index page `g` fit their fields and the page. */
  lemma EntriesFit(cfg: Config, geo: Geometry, blocksLim: nat, log: Log, f: Stored, g: nat)
    requires Matches(cfg, geo) && FieldsSuffice(cfg, geo, blocksLim) && |log| <= blocksLim * geo.usable
    requires HoldsIndexes(geo, log, f) && HoldsDatas(geo, log, f) && g < |f.ixs|
    ensures |f.name| <= cfg.objNameLen ==> |PageFields(cfg, log[f.ixs[g]])| <= cfg.pageSize
    ensures forall i :: 0 <= i < |log[f.ixs[g]].pages| ==>
      Fits(cfg.pageIxLen, PageShift(cfg.pageSize, log[f.ixs[g]].pages[i]))
  {
    var page := log[f.ixs[g]];
    assert First(geo, g + 1) == First(geo, g) + geo.IxLim(g);
    IndexLength(cfg, geo, page);
    forall i | 0 <= i < |page.pages| ensures Fits(cfg.pageIxLen, PageShift(cfg.pageSize, page.pages[i])) {
      EntryFits(cfg, geo, blocksLim, log, f, g, i);
    }
    hide *;
  }

  lemma EntryFits(cfg: Config, geo: Geometry, blocksLim: nat, log: Log, f: Stored, g: nat, i: nat)
    requires Matches(cfg, geo) && FieldsSuffice(cfg, geo, blocksLim) && |log| <= blocksLim * geo.usable
    requires HoldsIndexes(geo, log, f) && HoldsDatas(geo, log, f) && g < |f.ixs| && i < |log[f.ixs[g]].pages|
    ensures Fits(cfg.pageIxLen, PageShift(cfg.pageSize, log[f.ixs[g]].pages[i]))
  {
    hide PageShift, FieldsSuffice, Offset, Fits;
    var n := f.datas[First(geo, g) + i];
    assert log[f.ixs[g]].pages[i] == Offset(geo, n);
    NumberFits(cfg, geo, blocksLim, n);
  }

  lemma NumberFits(cfg: Config, geo: Geometry, blocksLim: nat, n: nat)
    requires Matches(cfg, geo) && FieldsSuffice(cfg, geo, blocksLim) && n < blocksLim * geo.usable
    ensures Fits(cfg.pageIxLen, PageShift(cfg.pageSize, Offset(geo, n)))
  {
    hide PageShift, PageNo, Offset, Pow256;
    ShiftOfOffset(cfg, geo, n);
    PageNoSmall(geo, blocksLim, n);
  }

  lemma PageNoSmall(geo: Geometry, blocksLim: nat, n: nat)
    requires geo.Valid() && n < blocksLim * geo.usable
    ensures PageNo(geo, n) < PageCount(geo, blocksLim)
  {
    DivLt(n, geo.usable, blocksLim);
    PageNoBelow(geo, blocksLim, n / geo.usable, n % geo.usable);
  }

  /** If all ids and the magic number fit, so does every lookup page. */
  lemma LookupPacks(cfg: Config, geo: Geometry, blocksLim: nat, bix: nat, pages: seq<Page>, k: nat)
    requires Matches(cfg, geo) && bix < blocksLim && k < geo.luPages
    requires forall i :: 0 <= i < |pages| ==> PagePacks(cfg, pages[i])
    requires cfg.useMagic ==> Fits(cfg.objIdLen, Magic(cfg, blocksLim, bix))
    ensures LuPacks(cfg, LuIds(cfg, geo, blocksLim, bix, pages, k))
  {
    hide Toggle, Magic, PageFields;
    var entries := EntriesOfPages(pages);
    LuPagesRoom(geo.luLim, geo.luPages, entries, k);
    LuPagesFrom(geo.luLim, geo.luPages, entries, k);
    var ids := LuIds(cfg, geo, blocksLim, bix, pages, k);
    MulLe(|ids|, geo.luLim, cfg.objIdLen);
    forall i | 0 <= i < |ids| ensures Fits(cfg.objIdLen, EntryValue(cfg, ids[i])) {
      var lu := LuPagesOf(geo.luLim, geo.luPages, entries)[k].objIds;
      if i < |lu| {
        assert ids[i] == lu[i] && lu[i] in entries;
      }
    }
  }

  lemma FieldsSufficePack(cfg: Config, geo: Geometry, blocksLim: nat, log: Log, files: seq<Stored>)
    requires Matches(cfg, geo) && FieldsSuffice(cfg, geo, blocksLim)
    requires Clean(geo, log, files) && |log| <= blocksLim * geo.usable
    requires forall i :: 0 <= i < |files| ==>
      files[i].id == i + 1 && Complete(geo, log, files[i]) && |files[i].name| <= cfg.objNameLen
    ensures ImagePacks(cfg, geo, blocksLim, log)
  {
    hide Complete, PagePacks, FieldsSuffice, PagesNeeded;
    forall n | 0 <= n < |log| ensures PagePacks(cfg, log[n]) {
      var i := log[n].objId - 1;
      FilePagesBound(geo, files, i);
      ManyFiles(geo, files);
      FilePagePacks(cfg, geo, blocksLim, log, files[i], n);
    }
    BlocksPack(cfg, geo, blocksLim, log);
  }

  lemma {:induction false} ManyFiles(geo: Geometry, files: seq<Stored>)
    requires geo.Valid()
    ensures |files| <= TotalPages(geo, files)
  {
    if files != [] { ManyFiles(geo, files[..|files| - 1]); }
  }

  lemma BlocksPack(cfg: Config, geo: Geometry, blocksLim: nat, log: Log)
    requires Matches(cfg, geo) && FieldsSuffice(cfg, geo, blocksLim)
    requires forall n :: 0 <= n < |log| ==> PagePacks(cfg, log[n])
    ensures ImagePacks(cfg, geo, blocksLim, log)
  {
    hide PagePacks, LuPacks, LuIds, InBlock, Magic, PageCount;
    forall b | 0 <= b < blocksLim ensures BlockPacks(cfg, geo, blocksLim, b, InBlock(geo, log, b)) {
      var pages := InBlock(geo, log, b);
      InBlockFrom(geo, log, b);
      forall k: nat | k < geo.luPages ensures LuPacks(cfg, LuIds(cfg, geo, blocksLim, b, pages, k)) {
        LookupPacks(cfg, geo, blocksLim, b, pages, k);
      }
    }
  }

  lemma InBlockFrom(geo: Geometry, log: Log, b: nat)
    ensures forall i :: 0 <= i < |InBlock(geo, log, b)| ==> InBlock(geo, log, b)[i] in log
  {
  }

  // ----- the generator

  /** No name is too long, and the pages suffice. */
  predicate Accepts(cfg: Config, geo: Geometry, blocksLim: nat, sources: seq<SourceFile>)
    requires geo.Valid()
  {
    && (forall i :: 0 <= i < |sources| ==> |sources[i].path| <= cfg.objNameLen)
    && PagesOfFiles(geo, sources) <= blocksLim * geo.usable
  }

  /** Every file is read back from the image under its id, and no other id has a file. */
  ghost predicate ReadsBack(cfg: Config, geo: Geometry, blocksLim: nat, img: seq<byte>, sources: seq<SourceFile>)
    requires geo.Valid()
  {
    && (forall i :: 0 <= i < |sources| && 0 !in sources[i].path ==>
          ReadFile(cfg, geo, img, PageCount(geo, blocksLim), i + 1)
          == Some(FileRead(sources[i].path, sources[i].contents)))
    && (forall id: nat :: id == 0 || id > |sources| ==>
          ReadFile(cfg, geo, img, PageCount(geo, blocksLim), id) == None)
  }

  /** An id that no page carries has no file. */
  lemma {:induction false} NoFile(cfg: Config, geo: Geometry, blocksLim: nat, log: Log, id: nat, p: nat)
    requires Matches(cfg, geo) && ImagePacks(cfg, geo, blocksLim, log) && |log| <= blocksLim * geo.usable
    requires forall n :: 0 <= n < |log| ==> log[n].objId != id
    ensures FindIndex(cfg, geo, Image(cfg, geo, blocksLim, log), id, 0, p, PageCount(geo, blocksLim)) == None
    decreases PageCount(geo, blocksLim) - p
  {
    hide Image, IsPageAt, ImagePacks, PageCount, PageNo, Toggle, PageBytes, PagePacks;
    var value := Toggle(cfg.objIdLen, id);
    if p < PageCount(geo, blocksLim) {
      if IsPageAt(cfg, geo, Image(cfg, geo, blocksLim, log), p, value, 0, USED_FINAL_INDEX) {
        var n := PageIsInLog(cfg, geo, blocksLim, log, p, value, 0, USED_FINAL_INDEX);
        PageAtLog(cfg, geo, blocksLim, log, n, value, 0, USED_FINAL_INDEX);
        OtherObject(cfg, geo, log[n], id);
      }
      NoFile(cfg, geo, blocksLim, log, id, p + 1);
    }
  }

  lemma OtherObject(cfg: Config, geo: Geometry, page: Page, id: nat)
    requires Matches(cfg, geo) && page.Index? && PagePacks(cfg, page)
    requires HeaderId(cfg, page) == Toggle(cfg.objIdLen, id)
    ensures page.objId == id
  {
    hide Toggle;
    ToggleInvolution(cfg.objIdLen, page.objId);
    ToggleInvolution(cfg.objIdLen, id);
  }

  lemma ImageReadsBack(
    cfg: Config, geo: Geometry, blocksLim: nat, log: Log, files: seq<Stored>, sources: seq<SourceFile>)
    requires Matches(cfg, geo) && ImagePacks(cfg, geo, blocksLim, log)
    requires Clean(geo, log, files) && Catalog(geo, blocksLim * geo.usable, log, files, |files| + 1)
    requires StoredAll(files, sources)
    requires forall i :: 0 <= i < |sources| ==> |sources[i].path| <= cfg.objNameLen
    ensures ReadsBack(cfg, geo, blocksLim, Image(cfg, geo, blocksLim, log), sources)
  {
    hide Image, ImagePacks, Complete, ReadFile, PageCount, Matches;
    MatchesGeometry(cfg, geo);
    forall i | 0 <= i < |sources| && 0 !in sources[i].path
      ensures ReadFile(cfg, geo, Image(cfg, geo, blocksLim, log), PageCount(geo, blocksLim), i + 1)
           == Some(FileRead(sources[i].path, sources[i].contents))
    {
      ReadFileBack(cfg, geo, blocksLim, log, files[i]);
    }
    forall id: nat | id == 0 || id > |sources|
      ensures ReadFile(cfg, geo, Image(cfg, geo, blocksLim, log), PageCount(geo, blocksLim), id) == None
    {
      NoFileRead(cfg, geo, blocksLim, log, id);
    }
  }

  lemma NoFileRead(cfg: Config, geo: Geometry, blocksLim: nat, log: Log, id: nat)
    requires Matches(cfg, geo) && ImagePacks(cfg, geo, blocksLim, log) && |log| <= blocksLim * geo.usable
    requires forall n :: 0 <= n < |log| ==> log[n].objId != id
    ensures ReadFile(cfg, geo, Image(cfg, geo, blocksLim, log), PageCount(geo, blocksLim), id) == None
  {
    hide Image, ImagePacks, PageCount;
    NoFile(cfg, geo, blocksLim, log, id, 0);
  }

  lemma AcceptsNone(cfg: Config, geo: Geometry, blocksLim: nat)
    requires geo.Valid()
    ensures Accepts(cfg, geo, blocksLim, []) && PagesOfFiles(geo, []) == 0
  {
  }

  lemma AcceptsNext(cfg: Config, geo: Geometry, blocksLim: nat, sources: seq<SourceFile>, i: nat)
    requires geo.Valid() && i < |sources| && Accepts(cfg, geo, blocksLim, sources[..i])
    ensures PagesOfFiles(geo, sources[..i + 1])
      == PagesOfFiles(geo, sources[..i]) + PagesNeeded(geo, |sources[i].contents|)
    ensures Accepts(cfg, geo, blocksLim, sources[..i + 1]) <==>
      && |sources[i].path| <= cfg.objNameLen
      && PagesOfFiles(geo, sources[..i]) + PagesNeeded(geo, |sources[i].contents|) <= blocksLim * geo.usable
    ensures !Accepts(cfg, geo, blocksLim, sources[..i + 1]) ==> !Accepts(cfg, geo, blocksLim, sources)
  {
    hide PagesNeeded;
    PagesOfFilesNext(geo, sources, i);
    PagesOfFilesMonotone(geo, sources, i + 1);
    assert forall k :: 0 <= k < i ==> sources[..i + 1][k] == sources[..i][k];
  }

  lemma StoredNext(files: seq<Stored>, sources: seq<SourceFile>, i: nat, f: Stored)
    requires i < |sources| && StoredAll(files, sources[..i])
    requires f.name == sources[i].path && f.contents == sources[i].contents
    ensures StoredAll(files + [f], sources[..i + 1])
  {
    assert sources[..i + 1] == sources[..i] + [sources[i]];
  }

  function Sizes(sources: seq<SourceFile>): (sizes: seq<nat>)
    ensures |sizes| == |sources|
  {
    seq(|sources|, i requires 0 <= i < |sources| => |sources[i].contents|)
  }

  /** The last data page of the log, once one more file is stored. */
  lemma DataEndNext(geo: Geometry, log: Log, log': Log, files: seq<Stored>, sources: seq<SourceFile>, i: nat, id: nat)
    requires geo.Valid() && i < |sources| && Clean(geo, log, files) && id > |files| && Extends(log, log', id)
    requires |log| == PagesOfFiles(geo, sources[..i])
    requires DataEndsAt(log, DataEnd(geo, Sizes(sources[..i])))
    requires |log'| == |log| + PagesNeeded(geo, |sources[i].contents|)
    requires if sources[i].contents != [] then EndsInData(log')
      else log'[|log|..] == [Index(id, 0, 0, sources[i].path, [])]
    ensures DataEndsAt(log', DataEnd(geo, Sizes(sources[..i + 1])))
  {
    hide PagesNeeded, TotalPages;
    var sizes := Sizes(sources[..i + 1]);
    assert sizes[..i] == Sizes(sources[..i]) && sizes[i] == |sources[i].contents|;
    PagesOfFilesNext(geo, sources, i);
    PagesAreOfSizes(geo, sources[..i + 1]);
    hide PagesOfFiles, PagesOfSizes;
    forall n | 0 <= n < |log| ensures log'[n] == log[n] { assert log[n].objId <= |files|; }
    if sources[i].contents == [] { assert log'[|log|] == log'[|log|..][0]; }
  }

  lemma {:induction false} PagesAreOfSizes(geo: Geometry, sources: seq<SourceFile>)
    requires geo.Valid()
    ensures PagesOfSizes(geo, Sizes(sources)) == PagesOfFiles(geo, sources)
  {
    if sources != [] {
      var front := sources[..|sources| - 1];
      assert Sizes(sources)[..|sources| - 1] == Sizes(front);
      PagesAreOfSizes(geo, front);
    }
  }

  /** All files, stored in order. */
  method StoreFiles(cfg: Config, fs: SpiffsFS, sources: seq<SourceFile>) returns (error: Option<GenerateError>)
    requires fs.geo.Valid() && fs.Valid() && fs.Empty() && fs.objNameLen == cfg.objNameLen
    modifies fs, fs.repr
    ensures fs.Valid() && fresh(fs.repr - old(fs.repr))
    ensures error == None <==> Accepts(cfg, fs.geo, fs.blocksLim, sources)
    ensures error == None ==> Clean(fs.geo, fs.log, fs.files) && StoredAll(fs.files, sources)
    ensures error == None ==> DataEndsAt(fs.log, DataEnd(fs.geo, Sizes(sources)))
    ensures error == None || (error.value.FileRefused? && error.value.index < |sources|
      && Accepts(cfg, fs.geo, fs.blocksLim, sources[..error.value.index])
      && (error.value.reason == NameTooLong <==> |sources[error.value.index].path| > cfg.objNameLen)
      && !Accepts(cfg, fs.geo, fs.blocksLim, sources[..error.value.index + 1]))
  {
    hide *;
    fs.EmptyIsClean();
    assert sources[..0] == [];
    AcceptsNone(cfg, fs.geo, fs.blocksLim);
    assert StoredAll([], []) by { NoneStored(); }
    NoDataYet(fs.geo);
    for i := 0 to |sources|
      invariant fs.Valid() && old(fs.repr) <= fs.repr && fresh(fs.repr - old(fs.repr))
      invariant Clean(fs.geo, fs.log, fs.files) && StoredAll(fs.files, sources[..i])
      invariant |fs.log| == PagesOfFiles(fs.geo, sources[..i])
      invariant Accepts(cfg, fs.geo, fs.blocksLim, sources[..i])
      invariant DataEndsAt(fs.log, DataEnd(fs.geo, Sizes(sources[..i])))
    {
      AcceptsNext(cfg, fs.geo, fs.blocksLim, sources, i);
      ghost var files, log := fs.files, fs.log;
      fs.NextId();
      var failed := fs.CreateFile(sources[i].path, sources[i].contents);
      if failed.Some? {
        assert failed.value.NameTooLong? || failed.value.SpiffsFull?;
        return Some(FileRefused(i, failed.value));
      }
      StoredNext(files, sources, i, fs.files[|files|]);
      DataEndNext(fs.geo, log, fs.log, files, sources, i, |files| + 1);
    }
    assert sources[..|sources|] == sources;
    error := None;
  }

  lemma NoDataYet(geo: Geometry)
    requires geo.Valid()
    ensures DataEndsAt([], DataEnd(geo, Sizes([])))
  {
  }

  lemma NoneStored()
    ensures StoredAll([], [])
  {
  }

  function BlocksFor(cfg: Config, imgSize: nat): nat
    requires cfg.blockSize > 0
  {
    imgSize / cfg.blockSize
  }

  /** The generator's own conditions on its input: whole blocks, short names, enough pages. */
  predicate Acceptable(cfg: Config, imgSize: nat, sources: seq<SourceFile>)
    requires cfg.Valid()
  {
    BlockSizePositive(cfg);
    imgSize % cfg.blockSize == 0 && Accepts(cfg, GeometryOf(cfg), BlocksFor(cfg, imgSize), sources)
  }

  lemma BlockSizePositive(cfg: Config)
    requires cfg.Valid()
    ensures cfg.blockSize > 0
  {
    BlockHoldsPages(cfg);
  }

  predicate Packable(cfg: Config, imgSize: nat)
    requires cfg.Valid()
  {
    BlockSizePositive(cfg);
    FieldsSuffice(cfg, GeometryOf(cfg), BlocksFor(cfg, imgSize))
  }

  /** All fields of the image fit. */
  ghost predicate AllFieldsFit(cfg: Config, imgSize: nat, sources: seq<SourceFile>)
    requires cfg.Valid()
  {
    BlockSizePositive(cfg);
    FieldsFit(cfg, GeometryOf(cfg), BlocksFor(cfg, imgSize), Sizes(sources))
  }

  lemma AllFieldsFitIff(
    cfg: Config, imgSize: nat, geo: Geometry, log: Log, files: seq<Stored>, sources: seq<SourceFile>)
    requires cfg.Valid() && cfg.blockSize > 0 && Matches(cfg, geo) && geo == GeometryOf(cfg)
    requires Clean(geo, log, files)
    requires Catalog(geo, BlocksFor(cfg, imgSize) * geo.usable, log, files, |files| + 1)
    requires StoredAll(files, sources) && Accepts(cfg, geo, BlocksFor(cfg, imgSize), sources)
    requires DataEndsAt(log, DataEnd(geo, Sizes(sources)))
    ensures AllFieldsFit(cfg, imgSize, sources) <==> ImagePacks(cfg, geo, BlocksFor(cfg, imgSize), log)
  {
    hide ImagePacks, FieldsFit, Complete, PagesOfFiles, GeometryOf, DataEndsAt, DataEnd, Matches;
    assert Sizes(sources) == SizesOf(files);
    PacksIff(cfg, geo, BlocksFor(cfg, imgSize), log, files);
  }

  ghost predicate Faithful(cfg: Config, imgSize: nat, img: seq<byte>, sources: seq<SourceFile>)
    requires cfg.Valid()
  {
    BlockSizePositive(cfg);
    |img| == imgSize && ReadsBack(cfg, GeometryOf(cfg), BlocksFor(cfg, imgSize), img, sources)
  }

  /** A log that stores exactly the sources. */
  ghost predicate Stores(cfg: Config, imgSize: nat, sources: seq<SourceFile>, log: Log)
    requires cfg.Valid()
  {
    BlockSizePositive(cfg);
    var geo := GeometryOf(cfg);
    exists files :: Clean(geo, log, files) && StoredAll(files, sources)
      && Catalog(geo, BlocksFor(cfg, imgSize) * geo.usable, log, files, |files| + 1)
  }

  ghost predicate Packs(cfg: Config, imgSize: nat, log: Log)
    requires cfg.Valid()
  {
    BlockSizePositive(cfg);
    ImagePacks(cfg, GeometryOf(cfg), BlocksFor(cfg, imgSize), log)
  }

  ghost function ImageOf(cfg: Config, imgSize: nat, log: Log): seq<byte>
    requires cfg.Valid()
  {
    BlockSizePositive(cfg);
    Image(cfg, GeometryOf(cfg), BlocksFor(cfg, imgSize), log)
  }

  lemma LogStores(cfg: Config, imgSize: nat, sources: seq<SourceFile>, log: Log, files: seq<Stored>)
    requires cfg.Valid() && cfg.blockSize > 0 && StoredAll(files, sources)
    requires var geo := GeometryOf(cfg);
      Clean(geo, log, files) && Catalog(geo, BlocksFor(cfg, imgSize) * geo.usable, log, files, |files| + 1)
    ensures Stores(cfg, imgSize, sources, log)
    ensures var geo := GeometryOf(cfg);
      && (Packs(cfg, imgSize, log) <==> ImagePacks(cfg, geo, BlocksFor(cfg, imgSize), log))
      && ImageOf(cfg, imgSize, log) == Image(cfg, geo, BlocksFor(cfg, imgSize), log)
  {
    hide Clean, Catalog, StoredAll, ImagePacks, Image, GeometryOf, BlocksFor;
  }

  lemma FaithfulImage(
    cfg: Config, geo: Geometry, imgSize: nat, blocksLim: nat, log: Log, files: seq<Stored>, sources: seq<SourceFile>)
    requires cfg.Valid() && geo == GeometryOf(cfg) && Matches(cfg, geo) && cfg.blockSize > 0
    requires imgSize % cfg.blockSize == 0 && blocksLim == BlocksFor(cfg, imgSize)
    requires ImagePacks(cfg, geo, blocksLim, log)
    requires Clean(geo, log, files) && Catalog(geo, blocksLim * geo.usable, log, files, |files| + 1)
    requires StoredAll(files, sources) && Accepts(cfg, geo, blocksLim, sources)
    ensures Faithful(cfg, imgSize, Image(cfg, geo, blocksLim, log), sources)
  {
    hide Image, ImagePacks, ReadsBack, Clean, Catalog, PagesOfFiles, StoredAll, GeometryOf;
    ImageReadsBack(cfg, geo, blocksLim, log, files, sources);
    ImageLength(cfg, geo, blocksLim, log);
    ExactDivision(imgSize, cfg.blockSize);
  }

  /** The image of the files, or why there is none. */
  method GenerateImage(cfg: Config, imgSize: nat, sources: seq<SourceFile>)
    returns (r: Result<seq<byte>, GenerateError>)
    requires cfg.Valid()
    ensures r.Success? <==> Acceptable(cfg, imgSize, sources) && AllFieldsFit(cfg, imgSize, sources)
    ensures r == Failure(CannotPack) <==> Acceptable(cfg, imgSize, sources) && !AllFieldsFit(cfg, imgSize, sources)
    ensures Packable(cfg, imgSize) ==> r != Failure(CannotPack)
    ensures r == Failure(CannotPack) ==>
      exists log :: Stores(cfg, imgSize, sources, log) && !Packs(cfg, imgSize, log)
    ensures r.Success? ==>
      exists log :: Stores(cfg, imgSize, sources, log) && Packs(cfg, imgSize, log)
        && r.value == ImageOf(cfg, imgSize, log)
    ensures r.Success? ==> Faithful(cfg, imgSize, r.value, sources)
  {
    hide *;
    BlockSizePositive(cfg);
    GeometryMatches(cfg);
    var geo := GeometryOf(cfg);
    if imgSize % cfg.blockSize != 0 {
      NotAcceptable(cfg, imgSize, sources);
      return Failure(BadImageSize);
    }
    AcceptableMeans(cfg, imgSize, sources);
    var blocksLim := BlocksFor(cfg, imgSize);
    var fs := new SpiffsFS(geo, cfg.objNameLen, blocksLim);
    var error := StoreFiles(cfg, fs, sources);
    if error.Some? {
      return Failure(error.value);
    }
    fs.ValidParts();
    ghost var log, files := fs.log, fs.files;
    var img := fs.ToBinary(cfg);
    PackableMeans(cfg, imgSize, geo, log, files, sources);
    AllFieldsFitIff(cfg, imgSize, geo, log, files, sources);
    LogStores(cfg, imgSize, sources, log, files);
    if img.None? {
      return Failure(CannotPack);
    }
    FaithfulImage(cfg, geo, imgSize, blocksLim, log, files, sources);
    r := Success(img.value);
  }

  lemma NotAcceptable(cfg: Config, imgSize: nat, sources: seq<SourceFile>)
    requires cfg.Valid() && cfg.blockSize > 0 && imgSize % cfg.blockSize != 0
    ensures !Acceptable(cfg, imgSize, sources)
  {
    hide Accepts;
  }

  lemma AcceptableMeans(cfg: Config, imgSize: nat, sources: seq<SourceFile>)
    requires cfg.Valid() && cfg.blockSize > 0 && imgSize % cfg.blockSize == 0
    ensures Acceptable(cfg, imgSize, sources) <==> Accepts(cfg, GeometryOf(cfg), BlocksFor(cfg, imgSize), sources)
  {
    hide Accepts;
  }

  lemma PackableMeans(cfg: Config, imgSize: nat, geo: Geometry, log: Log, files: seq<Stored>, sources: seq<SourceFile>)
    requires cfg.Valid() && cfg.blockSize > 0 && Matches(cfg, geo) && geo == GeometryOf(cfg)
    requires Clean(geo, log, files)
    requires Catalog(geo, BlocksFor(cfg, imgSize) * geo.usable, log, files, |files| + 1)
    requires StoredAll(files, sources) && Accepts(cfg, geo, BlocksFor(cfg, imgSize), sources)
    ensures Packable(cfg, imgSize) ==> ImagePacks(cfg, geo, BlocksFor(cfg, imgSize), log)
  {
    hide ImagePacks, FieldsSuffice, Complete, PagesOfFiles, GeometryOf;
    if Packable(cfg, imgSize) {
      FieldsSufficePack(cfg, geo, BlocksFor(cfg, imgSize), log, files);
    }
  }

  /** The options that the generator uses when none are given. */
  function Defaults(order: Endianness, alignedObjIxTables: bool): Config {
    Config(256, 2, 4096, 2, 4, 32, 2, 2, order, true, true, alignedObjIxTables)
  }

  lemma DefaultPages(order: Endianness, aligned: bool)
    ensures var cfg := Defaults(order, aligned);
      cfg.Valid() && GeometryOf(cfg) == Geometry(256, 16, 1, 15, 128, 251, 103, 124)
  {
    var cfg := Defaults(order, aligned);
    assert Pow2(3) == 8 && Pow2(6) == 64 && Pow2(8) == 256;
    LogOf256();
    assert cfg.PagesPerBlock() == 16 && cfg.LuPagesPerBlock() == 1;
  }

  lemma LogOf256()
    ensures PowerOfTwo(256)
  {
    PowerIsPower(8);
    assert Pow2(4) == 16 && Pow2(8) == 256;
  }

  /** With them, all fields of every image of up to 8 MiB pack. */
  lemma DefaultsPack(order: Endianness, aligned: bool, imgSize: nat)
    requires imgSize <= 0x80_0000
    ensures Defaults(order, aligned).Valid() && Packable(Defaults(order, aligned), imgSize)
  {
    hide Pow256, Magic;
    DefaultPages(order, aligned);
    var cfg := Defaults(order, aligned);
    var blocks := BlocksFor(cfg, imgSize);
    assert 0 <= blocks <= 0x800;
    WidthsOfDefaults();
    forall b | 0 <= b < blocks ensures Fits(cfg.objIdLen, Magic(cfg, blocks, b)) {
      MagicFits(cfg, blocks, b);
    }
  }

  lemma WidthsOfDefaults()
    ensures Pow256(2) == 0x1_0000 && Pow256(4) == 0x1_0000_0000
  {
    assert Pow256(1) == 256 && Pow256(3) == 0x100_0000;
  }

  /** The default options with pages of 64 KiB and blocks of 1 MiB. */
  function LargePages(order: Endianness, aligned: bool): Config {
    Defaults(order, aligned).(pageSize := 0x1_0000, blockSize := 0x10_0000)
  }

  lemma LogOf64K()
    ensures PowerOfTwo(0x1_0000)
  {
    hide Log2Floor, PowerOfTwo;
    PowerIsPower(16);
    assert Pow2(4) == 16 && Pow2(8) == 0x100 && Pow2(12) == 0x1000 && Pow2(16) == 0x1_0000;
  }

  lemma LargePagesValid(order: Endianness, aligned: bool)
    ensures var cfg := LargePages(order, aligned);
      cfg.Valid() && GeometryOf(cfg).luPages == 1 && GeometryOf(cfg).luLim == 0x8000
  {
    var cfg := LargePages(order, aligned);
    hide PowerOfTwo, Log2Floor, Pow2;
    LogOf64K();
    assert cfg.PagesPerBlock() == 16 && cfg.LuPagesPerBlock() == 1;
  }

  /** That is a valid configuration, but its magic number does not fit: not even an empty image packs. */
  lemma LargePagesDoNotPack(order: Endianness, aligned: bool, imgSize: nat)
    requires imgSize >= 0x10_0000
    ensures var cfg := LargePages(order, aligned);
      cfg.Valid() && Stores(cfg, imgSize, [], []) && !Packs(cfg, imgSize, [])
  {
    hide Magic, GeometryOf, Pow256, Fits, ImagePacks, Catalog, Clean, StoredAll;
    LargePagesValid(order, aligned);
    var cfg := LargePages(order, aligned);
    hide Config.Valid;
    var geo, blocks := GeometryOf(cfg), BlocksFor(cfg, imgSize);
    assert blocks >= 1;
    assert Stores(cfg, imgSize, [], []) by { NothingStored(geo, blocks); }
    MagicFits(cfg, blocks, blocks - 1);
    if Packs(cfg, imgSize, []) { EmptyBlockPacks(cfg, geo, blocks, blocks - 1); }
  }

  lemma NothingStored(geo: Geometry, blocksLim: nat)
    requires geo.Valid()
    ensures Clean(geo, [], []) && Catalog(geo, blocksLim * geo.usable, [], [], 1) && StoredAll([], [])
  {
  }

  /** An unused block with a single lookup page packs only if its magic number fits. */
  lemma EmptyBlockPacks(cfg: Config, geo: Geometry, blocksLim: nat, b: nat)
    requires cfg.pageSize > 0 && geo.luPages == 1 && geo.luLim >= 2 && cfg.useMagic && b < blocksLim
    requires ImagePacks(cfg, geo, blocksLim, [])
    ensures Fits(cfg.objIdLen, Magic(cfg, blocksLim, b))
  {
    hide Magic, Pow256, Fits;
    var pages := InBlock(geo, [], b);
    assert pages == [] && BlockPacks(cfg, geo, blocksLim, b, pages);
    var lu := LuPage(geo.luLim, []);
    assert LuPagesOf(geo.luLim, 1, []) == [lu] by { assert LuPagesOf(geo.luLim, 0, []) == []; }
    var ids := Magicfied(cfg, blocksLim, b, lu);
    assert EntriesOfPages(pages) == [];
    assert LuIds(cfg, geo, blocksLim, b, pages, 0) == ids && LuPacks(cfg, ids);
    assert ids[|ids| - 1] == LuEntry(Magic(cfg, blocksLim, b), false);
  }
}
