/** The bytes of an image: pages, lookup pages with their magic number, blocks, and the whole. */
module SpiffsImage {
  import opened Arith
  import opened ByteFields
  import opened SpiffsConfig
  import opened SpiffsLayout
  import opened SpiffsLookup

  const USED_FINAL_INDEX: byte := 0xF8
  const USED_FINAL: byte := 0xFC
  const TYPE_FILE: byte := 1
  const MAGIC_SEED := 0x20140529

  /** Bitwise exclusive or. */
  function Xor(a: nat, b: nat): nat {
    if a == 0 && b == 0 then 0 else 2 * Xor(a / 2, b / 2) + (a % 2 + b % 2) % 2
  }

  /** `obj_id ^ (1 << (8 * obj_id_len - 1))`. */
  function Toggle(width: nat, id: nat): nat {
    var bit := Pow256(width) / 2;
    if id % Pow256(width) < bit then id + bit else ModLe(id, Pow256(width)); id - bit
  }

  lemma ModLe(n: nat, m: nat)
    requires m > 0
    ensures n % m <= n
  {
    if n < m { DivModUnique(n, m, 0, n); }
  }

  /** An id that fits once toggled fits, and toggling again restores it. */
  lemma ToggleInvolution(width: nat, id: nat)
    requires width >= 1 && Fits(width, Toggle(width, id))
    ensures Fits(width, id) && Toggle(width, Toggle(width, id)) == id
  {
    var p := Pow256(width);
    assert p == 256 * Pow256(width - 1);
    if id >= p {
      assert id == id / p * p + id % p;
      MulLe(1, id / p, p);
      assert false;
    }
    DivModUnique(id, p, 0, id);
    DivModUnique(Toggle(width, id), p, 0, Toggle(width, id));
  }

  function Padded(pageSize: nat, img: seq<byte>): seq<byte> {
    img + Fill(0xFF, pageSize - |img|)
  }

  /** The fields every page but a lookup page starts with. */
  function Header(cfg: Config, id: nat, spanIx: nat, flag: byte): (bytes: seq<byte>)
    ensures |bytes| == cfg.DataHeaderLen()
  {
    Pack(cfg.order, cfg.objIdLen, id) + Pack(cfg.order, cfg.spanIxLen, spanIx) + [flag]
  }

  /** What the first index page of an object has after the padded header. */
  function HeadInfo(cfg: Config, size: nat, name: seq<byte>): seq<byte> {
    Pack(cfg.order, IX_SIZE_LEN, size) + [TYPE_FILE]
    + name + Fill(0, cfg.objNameLen - |name| + cfg.metaLen + cfg.HeadPad())
  }

  function PageNumbers(cfg: Config, offsets: seq<nat>): (numbers: seq<seq<byte>>)
    requires cfg.pageSize > 0
    ensures |numbers| == |offsets|
    ensures forall p :: p in numbers ==> |p| == cfg.pageIxLen
  {
    seq(|offsets|, i requires 0 <= i < |offsets| =>
      Pack(cfg.order, cfg.pageIxLen, PageShift(cfg.pageSize, offsets[i])))
  }

  /** The bytes `to_binary` puts in a page before padding it. */
  function PageFields(cfg: Config, page: Page): seq<byte>
    requires cfg.pageSize > 0
  {
    match page
    case Data(_, objId, spanIx, contents) =>
      Header(cfg, objId, spanIx, USED_FINAL) + contents
    case Index(objId, spanIx, size, name, pages) =>
      Header(cfg, Toggle(cfg.objIdLen, objId), spanIx, USED_FINAL_INDEX)
      + Fill(0xFF, cfg.HeaderPad())
      + (if spanIx == 0 then HeadInfo(cfg, size, name) else [])
      + Flatten(PageNumbers(cfg, pages))
  }

  function PageBytes(cfg: Config, page: Page): seq<byte>
    requires cfg.pageSize > 0
  {
    Padded(cfg.pageSize, PageFields(cfg, page))
  }

  /** `struct.pack` accepts every field of the page, and the page is not too long. */
  predicate PagePacks(cfg: Config, page: Page)
    requires cfg.pageSize > 0
  {
    && Fits(cfg.spanIxLen, page.spanIx)
    && |PageFields(cfg, page)| <= cfg.pageSize
    && match page
       case Data(_, objId, _, _) => Fits(cfg.objIdLen, objId)
       case Index(objId, spanIx, size, name, pages) =>
         && Fits(cfg.objIdLen, Toggle(cfg.objIdLen, objId))
         && (spanIx == 0 ==> Fits(IX_SIZE_LEN, size))
         && forall i :: 0 <= i < |pages| ==> Fits(cfg.pageIxLen, PageShift(cfg.pageSize, pages[i]))
  }

  lemma PageBytesLength(cfg: Config, page: Page)
    requires cfg.pageSize > 0 && PagePacks(cfg, page)
    ensures |PageBytes(cfg, page)| == cfg.pageSize
  {
  }

  // ----- lookup pages

  /** `_calc_magic`; masking keeps one bit more than an object id has. */
  function Magic(cfg: Config, blocksLim: nat, bix: nat): nat
    requires bix <= blocksLim
  {
    var magic := Xor(MAGIC_SEED, cfg.pageSize);
    (if cfg.useMagicLen then Xor(magic, blocksLim - bix) else magic) % (2 * Pow256(cfg.objIdLen))
  }

  function EntryValue(cfg: Config, entry: LuEntry): nat {
    if entry.isIndex then Toggle(cfg.objIdLen, entry.objId) else entry.objId
  }

  /** The ids of a lookup page after `magicfy`: the magic number is second to last, if two are free. */
  function Magicfied(cfg: Config, blocksLim: nat, bix: nat, page: LuPage): seq<LuEntry>
    requires bix <= blocksLim
  {
    if page.objIdsLimit < 2 then page.objIds else
    page.objIds
    + seq(page.objIdsLimit - 2, _ => LuEntry(Pow256(cfg.objIdLen) - 1, false))
    + [LuEntry(Magic(cfg, blocksLim, bix), false)]
  }

  function EntryParts(cfg: Config, ids: seq<LuEntry>): (parts: seq<seq<byte>>)
    ensures |parts| == |ids|
    ensures forall p :: p in parts ==> |p| == cfg.objIdLen
  {
    seq(|ids|, i requires 0 <= i < |ids| => Pack(cfg.order, cfg.objIdLen, EntryValue(cfg, ids[i])))
  }

  function LuBytes(cfg: Config, ids: seq<LuEntry>): seq<byte> {
    Padded(cfg.pageSize, Flatten(EntryParts(cfg, ids)))
  }

  predicate LuPacks(cfg: Config, ids: seq<LuEntry>) {
    && |ids| * cfg.objIdLen <= cfg.pageSize
    && forall i :: 0 <= i < |ids| ==> Fits(cfg.objIdLen, EntryValue(cfg, ids[i]))
  }

  lemma LuBytesLength(cfg: Config, ids: seq<LuEntry>)
    requires LuPacks(cfg, ids)
    ensures |LuBytes(cfg, ids)| == cfg.pageSize
  {
    FlattenLength(EntryParts(cfg, ids), cfg.objIdLen);
  }

  /** The lookup entry in slot `i` of a lookup page. */
  function EntryAt(cfg: Config, page: seq<byte>, i: nat): nat {
    Unpack(cfg.order, PartOf(cfg.objIdLen, page, i))
  }

  lemma LuBytesEntry(cfg: Config, ids: seq<LuEntry>, i: nat)
    requires LuPacks(cfg, ids) && i < |ids|
    ensures EntryAt(cfg, LuBytes(cfg, ids), i) == EntryValue(cfg, ids[i])
  {
    hide Flatten, Fill;
    var parts := EntryParts(cfg, ids);
    FlattenSlice(parts, Fill(0xFF, cfg.pageSize - |Flatten(parts)|), cfg.objIdLen, i);
    UnpackPack(cfg.order, cfg.objIdLen, EntryValue(cfg, ids[i]));
  }

  // ----- blocks and the image

  function EntryOfPage(page: Page): LuEntry {
    LuEntry(page.objId, page.Index?)
  }

  function EntriesOfPages(pages: seq<Page>): (entries: seq<LuEntry>)
    ensures |entries| == |pages|
  {
    seq(|pages|, i requires 0 <= i < |pages| => EntryOfPage(pages[i]))
  }

  /** The ids written to lookup page `k` of block `bix`, which has the usable pages `pages`. */
  ghost function LuIds(cfg: Config, geo: Geometry, blocksLim: nat, bix: nat, pages: seq<Page>, k: nat): seq<LuEntry>
    requires bix <= blocksLim && k < geo.luPages
  {
    var lu := LuPagesOf(geo.luLim, geo.luPages, EntriesOfPages(pages))[k];
    if cfg.useMagic && k == geo.luPages - 1 then Magicfied(cfg, blocksLim, bix, lu) else lu.objIds
  }

  /** Page `k` of block `bix`: a lookup page, a used page or an unused one. */
  ghost function BlockPage(cfg: Config, geo: Geometry, blocksLim: nat, bix: nat, pages: seq<Page>, k: nat): seq<byte>
    requires bix <= blocksLim && cfg.pageSize > 0
  {
    if k < geo.luPages then LuBytes(cfg, LuIds(cfg, geo, blocksLim, bix, pages, k))
    else if k - geo.luPages < |pages| then PageBytes(cfg, pages[k - geo.luPages])
    else Fill(0xFF, cfg.pageSize)
  }

  ghost function BlockPages(cfg: Config, geo: Geometry, blocksLim: nat, bix: nat, pages: seq<Page>):
    (parts: seq<seq<byte>>)
    requires bix <= blocksLim && cfg.pageSize > 0
    ensures |parts| == geo.pagesPerBlock
  {
    seq(geo.pagesPerBlock, k requires 0 <= k < geo.pagesPerBlock => BlockPage(cfg, geo, blocksLim, bix, pages, k))
  }

  ghost predicate PagesPack(cfg: Config, pages: seq<Page>)
    requires cfg.pageSize > 0
  {
    forall i :: 0 <= i < |pages| ==> PagePacks(cfg, pages[i])
  }

  ghost predicate LookupsPack(cfg: Config, geo: Geometry, blocksLim: nat, bix: nat, pages: seq<Page>)
    requires bix <= blocksLim && cfg.pageSize > 0
  {
    forall k :: 0 <= k < geo.luPages ==> LuPacks(cfg, LuIds(cfg, geo, blocksLim, bix, pages, k))
  }

  /** Neither `struct.pack` nor a length check fails in block `bix`. */
  ghost predicate BlockPacks(cfg: Config, geo: Geometry, blocksLim: nat, bix: nat, pages: seq<Page>)
    requires bix <= blocksLim && cfg.pageSize > 0
  {
    PagesPack(cfg, pages) && LookupsPack(cfg, geo, blocksLim, bix, pages)
  }

  lemma BlockPacksWhen(cfg: Config, geo: Geometry, blocksLim: nat, bix: nat, pages: seq<Page>)
    requires bix <= blocksLim && cfg.pageSize > 0
    ensures BlockPacks(cfg, geo, blocksLim, bix, pages)
      <==> PagesPack(cfg, pages) && LookupsPack(cfg, geo, blocksLim, bix, pages)
  {
  }

  ghost function BlockBytes(cfg: Config, geo: Geometry, blocksLim: nat, bix: nat, pages: seq<Page>): seq<byte>
    requires bix <= blocksLim && cfg.pageSize > 0
  {
    Flatten(BlockPages(cfg, geo, blocksLim, bix, pages))
  }

  /** The part of the log in block `bix`. */
  function InBlock(geo: Geometry, log: Log, bix: nat): (pages: seq<Page>)
    ensures |pages| <= geo.usable
  {
    var from := bix * geo.usable;
    if from >= |log| then [] else log[from..Min(from + geo.usable, |log|)]
  }

  ghost predicate ImagePacks(cfg: Config, geo: Geometry, blocksLim: nat, log: Log)
    requires cfg.pageSize > 0
  {
    forall b :: 0 <= b < blocksLim ==> BlockPacks(cfg, geo, blocksLim, b, InBlock(geo, log, b))
  }

  lemma PagesNotEmpty(cfg: Config, geo: Geometry)
    requires geo.Valid() && Matches(cfg, geo)
    ensures cfg.pageSize > 0 && cfg.pageSize == geo.pageSize
  {
  }

  ghost function ImageBlocks(cfg: Config, geo: Geometry, blocksLim: nat, log: Log): (parts: seq<seq<byte>>)
    requires cfg.pageSize > 0
    ensures |parts| == blocksLim
  {
    seq(blocksLim, b requires 0 <= b < blocksLim => BlockBytes(cfg, geo, blocksLim, b, InBlock(geo, log, b)))
  }

  ghost function Image(cfg: Config, geo: Geometry, blocksLim: nat, log: Log): seq<byte>
    requires cfg.pageSize > 0
  {
    Flatten(ImageBlocks(cfg, geo, blocksLim, log))
  }

  lemma BlockPagesLength(cfg: Config, geo: Geometry, blocksLim: nat, bix: nat, pages: seq<Page>)
    requires bix <= blocksLim && cfg.pageSize > 0
    requires BlockPacks(cfg, geo, blocksLim, bix, pages)
    ensures forall p :: p in BlockPages(cfg, geo, blocksLim, bix, pages) ==> |p| == cfg.pageSize
  {
    forall k: nat ensures |BlockPage(cfg, geo, blocksLim, bix, pages, k)| == cfg.pageSize {
      if k < geo.luPages {
        LuBytesLength(cfg, LuIds(cfg, geo, blocksLim, bix, pages, k));
      } else if k - geo.luPages < |pages| {
        PageBytesLength(cfg, pages[k - geo.luPages]);
      }
    }
  }

  /** Every page is in its place. */
  lemma ImagePage(cfg: Config, geo: Geometry, blocksLim: nat, log: Log, b: nat, k: nat)
    requires Matches(cfg, geo) && ImagePacks(cfg, geo, blocksLim, log)
    requires b < blocksLim && k < geo.pagesPerBlock
    ensures PartOf(geo.pageSize, Image(cfg, geo, blocksLim, log), PageIn(geo, b, k))
         == BlockPage(cfg, geo, blocksLim, b, InBlock(geo, log, b), k)
  {
    PagesNotEmpty(cfg, geo);
    hide BlockPage, BlockPacks, InBlock, Flatten, PartOf, Matches, Geometry.Valid, PageIn;
    ImageLength(cfg, geo, blocksLim, log);
    BlockPagesLength(cfg, geo, blocksLim, b, InBlock(geo, log, b));
    PageOfBlocks(geo, ImageBlocks(cfg, geo, blocksLim, log), BlockPages(cfg, geo, blocksLim, b, InBlock(geo, log, b)),
                 b, k);
  }

  lemma PageOfBlocks(geo: Geometry, blocks: seq<seq<byte>>, pages: seq<seq<byte>>, b: nat, k: nat)
    requires b < |blocks| && |pages| == geo.pagesPerBlock && k < |pages| && blocks[b] == Flatten(pages)
    requires forall p :: p in blocks ==> |p| == geo.pagesPerBlock * geo.pageSize
    requires forall p :: p in pages ==> |p| == geo.pageSize
    ensures PartOf(geo.pageSize, Flatten(blocks), PageIn(geo, b, k)) == pages[k]
  {
    hide Flatten, PartOf;
    NestedSlice(blocks, pages, geo.pageSize, b, k);
  }

  /** The image is made of blocks of the block size, as many as were asked for. */
  lemma ImageLength(cfg: Config, geo: Geometry, blocksLim: nat, log: Log)
    requires Matches(cfg, geo) && ImagePacks(cfg, geo, blocksLim, log)
    ensures forall p :: p in ImageBlocks(cfg, geo, blocksLim, log) ==> |p| == geo.pagesPerBlock * geo.pageSize
    ensures |Image(cfg, geo, blocksLim, log)| == blocksLim * (geo.pagesPerBlock * geo.pageSize)
  {
    hide BlockPages, BlockPacks, InBlock, Flatten, PartOf;
    var blocks := ImageBlocks(cfg, geo, blocksLim, log);
    forall b | 0 <= b < blocksLim ensures |blocks[b]| == geo.pagesPerBlock * geo.pageSize {
      BlockPagesLength(cfg, geo, blocksLim, b, InBlock(geo, log, b));
      FlattenLength(BlockPages(cfg, geo, blocksLim, b, InBlock(geo, log, b)), geo.pageSize);
    }
    FlattenLength(blocks, geo.pagesPerBlock * geo.pageSize);
  }

  /** After the used pages a block is padded to its size. */
  lemma BlockTail(cfg: Config, geo: Geometry, blocksLim: nat, bix: nat, pages: seq<Page>)
    requires Matches(cfg, geo) && bix <= blocksLim && |pages| <= geo.usable
    requires BlockPacks(cfg, geo, blocksLim, bix, pages)
    ensures var used := Flatten(BlockPages(cfg, geo, blocksLim, bix, pages)[..geo.luPages + |pages|]);
      BlockBytes(cfg, geo, blocksLim, bix, pages) == used + Fill(0xFF, cfg.blockSize - |used|)
  {
    hide Flatten, Fill, BlockPacks, PowerOfTwo, BlockPages;
    var m := geo.luPages + |pages|;
    var parts := BlockPages(cfg, geo, blocksLim, bix, pages);
    BlockPagesLength(cfg, geo, blocksLim, bix, pages);
    RestLength(parts, m, geo.pageSize);
    FlattenAppend(parts[..m], parts[m..]);
    assert parts == parts[..m] + parts[m..];
    BlankTail(cfg, geo, blocksLim, bix, pages);
  }

  lemma RestLength(parts: seq<seq<byte>>, m: nat, width: nat)
    requires m <= |parts| && forall p :: p in parts ==> |p| == width
    ensures |parts| * width - |Flatten(parts[..m])| == (|parts| - m) * width
  {
    FlattenLength(parts[..m], width);
    MulSubtract(|parts|, m, width);
  }

  lemma BlankTail(cfg: Config, geo: Geometry, blocksLim: nat, bix: nat, pages: seq<Page>)
    requires Matches(cfg, geo) && bix <= blocksLim && |pages| <= geo.usable
    ensures var m := geo.luPages + |pages|;
      Flatten(BlockPages(cfg, geo, blocksLim, bix, pages)[m..])
      == Fill(0xFF, (geo.pagesPerBlock - m) * geo.pageSize)
  {
    hide Flatten, Fill, LuBytes, PageBytes, PowerOfTwo;
    var parts := BlockPages(cfg, geo, blocksLim, bix, pages);
    var m := geo.luPages + |pages|;
    assert parts[m..] == seq(geo.pagesPerBlock - m, _ => Fill(0xFF, geo.pageSize));
    FlattenFill(0xFF, geo.pageSize, geo.pagesPerBlock - m);
  }

  lemma MulSubtract(a: nat, b: nat, c: nat)
    ensures a * c - b * c == (a - b) * c
  {
  }

  /** A block without pages and without magic number is blank. */
  lemma BlankBlock(cfg: Config, geo: Geometry, blocksLim: nat, bix: nat)
    requires Matches(cfg, geo) && bix <= blocksLim && !cfg.useMagic
    ensures BlockPacks(cfg, geo, blocksLim, bix, [])
    ensures BlockBytes(cfg, geo, blocksLim, bix, []) == Fill(0xFF, geo.pagesPerBlock * geo.pageSize)
  {
    hide Flatten;
    forall k: nat | k < geo.luPages ensures LuIds(cfg, geo, blocksLim, bix, [], k) == [] {
      assert EntriesOfPages([]) == [];
      EmptyLuPages(geo.luLim, geo.luPages);
    }
    var parts := BlockPages(cfg, geo, blocksLim, bix, []);
    forall k | 0 <= k < geo.luPages ensures parts[k] == Fill(0xFF, geo.pageSize) {
      NoEntries(cfg);
    }
    assert parts == seq(geo.pagesPerBlock, _ => Fill(0xFF, geo.pageSize));
    FlattenFill(0xFF, geo.pageSize, geo.pagesPerBlock);
  }

  lemma NoEntries(cfg: Config)
    ensures LuBytes(cfg, []) == Fill(0xFF, cfg.pageSize)
  {
    assert EntryParts(cfg, []) == [];
  }

  // ----- magic numbers

  /** Where a block has two lookup slots to spare, the second to last one has the magic number. */
  lemma MagicInImage(cfg: Config, geo: Geometry, blocksLim: nat, log: Log, b: nat)
    requires Matches(cfg, geo) && ImagePacks(cfg, geo, blocksLim, log) && cfg.useMagic && b < blocksLim
    requires |InBlock(geo, log, b)| + 2 <= geo.luPages * geo.luLim && geo.luLim >= 2
    ensures var last := PartOf(geo.pageSize, Image(cfg, geo, blocksLim, log), PageIn(geo, b, geo.luPages - 1));
      EntryAt(cfg, last, geo.luLim - 2)
         == Magic(cfg, blocksLim, b)
  {
    hide Image, PartOf, InBlock, LuBytes, EntryAt, Magic, LuPacks;
    var pages, k := InBlock(geo, log, b), geo.luPages - 1;
    var entries := EntriesOfPages(pages);
    ImagePage(cfg, geo, blocksLim, log, b, k);
    LastLuPageFree(geo.luLim, geo.luPages, entries);
    LuPagesRoom(geo.luLim, geo.luPages, entries, k);
    LuBytesEntry(cfg, LuIds(cfg, geo, blocksLim, b, pages, k), geo.luLim - 2);
  }

  function Halved(n: nat, times: nat): nat {
    if times == 0 then n else Halved(n / 2, times - 1)
  }

  lemma {:induction false} HalvedTwice(n: nat, k: nat, l: nat)
    ensures Halved(n, k + l) == Halved(Halved(n, k), l)
  {
    if k > 0 { HalvedTwice(n / 2, k - 1, l); }
  }

  lemma Halved4(n: nat)
    ensures Halved(n, 4) == n / 16
  {
    assert Halved(n / 2, 3) == Halved(n / 2 / 2, 2) == Halved(n / 2 / 2 / 2, 1) == n / 2 / 2 / 2 / 2;
  }

  lemma Halved16(n: nat)
    ensures Halved(n, 16) == n / 0x10000
  {
    hide Halved;
    HalvedTwice(n, 4, 12);
    HalvedTwice(Halved(n, 4), 4, 8);
    HalvedTwice(Halved(Halved(n, 4), 4), 4, 4);
    Halved4(n);
    Halved4(n / 16);
    Halved4(n / 256);
    Halved4(n / 4096);
  }

  lemma {:induction false} XorHalved(a: nat, b: nat, k: nat)
    ensures Halved(Xor(a, b), k) == Xor(Halved(a, k), Halved(b, k))
  {
    if k > 0 { XorHalved(a / 2, b / 2, k - 1); }
  }

  /** Bit 16 of an exclusive or. */
  lemma XorBit16(a: nat, b: nat)
    ensures Xor(a, b) / 0x10000 % 2 == (a / 0x10000 % 2 + b / 0x10000 % 2) % 2
  {
    hide Halved;
    XorHalved(a, b, 16);
    Halved16(a);
    Halved16(b);
    Halved16(Xor(a, b));
    XorBit(a / 0x10000, b / 0x10000);
  }

  /** With two-byte ids the magic number fits its slot exactly when bit 16 of the page size and of the
      block distance cancel: the mask lets that bit through. */
  lemma MagicFits(cfg: Config, blocksLim: nat, bix: nat)
    requires cfg.objIdLen == 2 && bix <= blocksLim
    ensures Fits(2, Magic(cfg, blocksLim, bix)) <==>
      (cfg.pageSize / 0x10000 % 2 + (if cfg.useMagicLen then (blocksLim - bix) / 0x10000 % 2 else 0)) % 2 == 0
  {
    hide Xor, Pow256;
    var m := Xor(MAGIC_SEED, cfg.pageSize);
    XorBit16(MAGIC_SEED, cfg.pageSize);
    TwoBytes();
    if cfg.useMagicLen {
      XorBit16(m, blocksLim - bix);
      LowBits(Xor(m, blocksLim - bix));
    } else {
      LowBits(m);
    }
  }

  lemma TwoBytes()
    ensures Pow256(2) == 0x10000
  {
    assert Pow256(1) == 256;
  }

  lemma LowBits(m: nat)
    ensures m % 0x20000 < 0x10000 <==> m / 0x10000 % 2 == 0
  {
  }

  lemma {:induction false} XorBit(a: nat, b: nat)
    ensures Xor(a, b) % 2 == (a % 2 + b % 2) % 2
  {
    if a > 0 || b > 0 { LowBit((a % 2 + b % 2) % 2, Xor(a / 2, b / 2)); }
  }

  lemma LowBit(bit: nat, rest: nat)
    requires bit < 2
    ensures (bit + 2 * rest) % 2 == bit
  {
  }
}
