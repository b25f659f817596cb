/** What stands where in an image, byte by byte and bit by bit. */
module SpiffsBytes {
  import opened Arith
  import opened ByteFields
  import opened SpiffsConfig
  import opened SpiffsImage
  import opened SpiffsLayout
  import opened SpiffsLookup
  import opened SpiffsReader

  // ----- bits

  function Bit(n: nat, k: nat): nat {
    Halved(n, k) % 2
  }

  /** Numbers with the same bits are the same. */
  lemma {:induction false} SameBits(a: nat, b: nat)
    requires forall k: nat :: Bit(a, k) == Bit(b, k)
    ensures a == b
  {
    if a > 0 || b > 0 {
      forall k: nat ensures Bit(a / 2, k) == Bit(b / 2, k) { assert Bit(a, k + 1) == Bit(b, k + 1); }
      SameBits(a / 2, b / 2);
      assert Bit(a, 0) == Bit(b, 0);
    }
  }

  lemma XorBits(a: nat, b: nat, k: nat)
    ensures Bit(Xor(a, b), k) == (Bit(a, k) + Bit(b, k)) % 2
  {
    hide Halved, Xor;
    XorHalved(a, b, k);
    XorBit(Halved(a, k), Halved(b, k));
  }

  lemma {:induction false} ModBits(n: nat, m: nat, k: nat)
    ensures Bit(n % Pow2(m), k) == if k < m then Bit(n, k) else 0
  {
    if m == 0 {
      ZeroBits(k);
    } else {
      ModDouble(n, Pow2(m - 1));
      if k > 0 { ModBits(n / 2, m - 1, k - 1); }
    }
  }

  lemma {:induction false} ZeroBits(k: nat)
    ensures Bit(0, k) == 0
  {
    if k > 0 { ZeroBits(k - 1); }
  }

  lemma ModDouble(n: nat, p: nat)
    requires p >= 1
    ensures n % (2 * p) / 2 == n / 2 % p && n % (2 * p) % 2 == n % 2
  {
    var q, r := n / 2 / p, n / 2 % p;
    assert n / 2 == q * p + r && n == q * (2 * p) + (2 * r + n % 2);
    DivModUnique(n, 2 * p, q, 2 * r + n % 2);
  }

  lemma {:induction false} TopBit(n: nat, m: nat, k: nat)
    requires n < Pow2(m)
    ensures Bit(n, m) == 0
    ensures Bit(n + Pow2(m), k) == if k == m then 1 else Bit(n, k)
  {
    if m == 0 {
      if k > 0 { ZeroBits(k - 1); }
    } else {
      assert (n + Pow2(m)) / 2 == n / 2 + Pow2(m - 1) && (n + Pow2(m)) % 2 == n % 2;
      TopBit(n / 2, m - 1, if k == 0 then 0 else k - 1);
    }
  }

  lemma {:induction false} Pow256Is(width: nat)
    ensures Pow256(width) == Pow2(8 * width)
  {
    if width > 0 {
      Pow256Is(width - 1);
      var n := 8 * width;
      assert Pow2(n) == 2 * Pow2(n - 1) && Pow2(n - 1) == 2 * Pow2(n - 2) && Pow2(n - 2) == 2 * Pow2(n - 3);
      assert Pow2(n - 3) == 2 * Pow2(n - 4) && Pow2(n - 4) == 2 * Pow2(n - 5) && Pow2(n - 5) == 2 * Pow2(n - 6);
      assert Pow2(n - 6) == 2 * Pow2(n - 7) && Pow2(n - 7) == 2 * Pow2(n - 8);
    }
  }

  /** Toggling an id flips its highest bit and no other. */
  lemma ToggleBits(width: nat, id: nat, k: nat)
    requires width >= 1 && Fits(width, id)
    ensures Bit(Toggle(width, id), k) == if k == 8 * width - 1 then 1 - Bit(id, k) else Bit(id, k)
  {
    var m := 8 * width - 1;
    Pow256Is(width);
    assert Pow256(width) == 2 * Pow2(m);
    DivModUnique(id, Pow256(width), 0, id);
    hide Bit, Pow2, Pow256;
    var low := if id < Pow2(m) then id else id - Pow2(m);
    TopBit(low, m, k);
  }

  /** The magic number, bit by bit: those of 0x20140529, of the page size and, if asked for, of the distance to
      the last block, added without carry; bits above the one after the id's are cut off. */
  lemma MagicBits(cfg: Config, blocksLim: nat, bix: nat, k: nat)
    requires bix <= blocksLim
    ensures Bit(Magic(cfg, blocksLim, bix), k) == if k > 8 * cfg.objIdLen then 0 else
      (Bit(0x20140529, k) + Bit(cfg.pageSize, k) + if cfg.useMagicLen then Bit(blocksLim - bix, k) else 0) % 2
  {
    hide *;
    XoredBits(0x20140529, cfg.pageSize, blocksLim - bix, k);
    MaskedBits(cfg, blocksLim, bix, k);
  }

  lemma MaskedBits(cfg: Config, blocksLim: nat, bix: nat, k: nat)
    requires bix <= blocksLim
    ensures var m := Xor(0x20140529, cfg.pageSize);
      Bit(Magic(cfg, blocksLim, bix), k)
        == if k > 8 * cfg.objIdLen then 0 else Bit(if cfg.useMagicLen then Xor(m, blocksLim - bix) else m, k)
  {
    hide Bit, Xor, Pow2, Pow256, Magic;
    MaskIs(cfg, blocksLim, bix);
    var m := Xor(0x20140529, cfg.pageSize);
    ModBits(if cfg.useMagicLen then Xor(m, blocksLim - bix) else m, 8 * cfg.objIdLen + 1, k);
  }

  lemma XoredBits(seed: nat, a: nat, b: nat, k: nat)
    ensures Bit(Xor(seed, a), k) == (Bit(seed, k) + Bit(a, k)) % 2
    ensures Bit(Xor(Xor(seed, a), b), k) == (Bit(seed, k) + Bit(a, k) + Bit(b, k)) % 2
  {
    hide Bit, Xor;
    XorBits(seed, a, k);
    XorBits(Xor(seed, a), b, k);
    Parity(Bit(seed, k), Bit(a, k), Bit(b, k));
  }

  lemma MaskIs(cfg: Config, blocksLim: nat, bix: nat)
    requires bix <= blocksLim
    ensures var m := Xor(0x20140529, cfg.pageSize);
      Magic(cfg, blocksLim, bix)
        == (if cfg.useMagicLen then Xor(m, blocksLim - bix) else m) % Pow2(8 * cfg.objIdLen + 1)
  {
    hide Xor;
    Pow256Is(cfg.objIdLen);
  }

  lemma Parity(a: nat, b: nat, c: nat)
    ensures ((a + b) % 2 + c) % 2 == (a + b + c) % 2
  {
  }

  /** And so it reads in the image. */
  lemma MagicReads(cfg: Config, geo: Geometry, blocksLim: nat, log: Log, b: nat, k: nat)
    requires Matches(cfg, geo) && ImagePacks(cfg, geo, blocksLim, log) && cfg.useMagic && b < blocksLim
    requires |InBlock(geo, log, b)| + 2 <= geo.luPages * geo.luLim && geo.luLim >= 2
    ensures var last := PartOf(geo.pageSize, Image(cfg, geo, blocksLim, log), PageIn(geo, b, geo.luPages - 1));
      Bit(EntryAt(cfg, last, geo.luLim - 2), k) == if k > 8 * cfg.objIdLen then 0 else
        (Bit(0x20140529, k) + Bit(cfg.pageSize, k) + if cfg.useMagicLen then Bit(blocksLim - b, k) else 0) % 2
  {
    hide Image, PartOf, InBlock, EntryAt, Magic, Bit, Matches, ImagePacks, PageIn;
    MagicInImage(cfg, geo, blocksLim, log, b);
    MagicBits(cfg, blocksLim, b, k);
  }

  /** The other slots of that page that no page uses, up to its end, read as the blank id. */
  lemma BlankSlots(cfg: Config, geo: Geometry, blocksLim: nat, log: Log, b: nat, i: nat)
    requires Matches(cfg, geo) && ImagePacks(cfg, geo, blocksLim, log) && cfg.useMagic && b < blocksLim
    requires |InBlock(geo, log, b)| + 2 <= geo.luPages * geo.luLim && geo.luLim >= 2
    requires |InBlock(geo, log, b)| <= (geo.luPages - 1) * geo.luLim + i && i < geo.luLim && i != geo.luLim - 2
    ensures var last := PartOf(geo.pageSize, Image(cfg, geo, blocksLim, log), PageIn(geo, b, geo.luPages - 1));
      PartOf(cfg.objIdLen, last, i) == Fill(0xFF, cfg.objIdLen)
  {
    hide Image, PartOf, InBlock, LuBytes, LuPacks, Fill, PageIn, LuIds, EntriesOfPages;
    var pages, k := InBlock(geo, log, b), geo.luPages - 1;
    ImagePage(cfg, geo, blocksLim, log, b, k);
    var ids := LuIds(cfg, geo, blocksLim, b, pages, k);
    LastIds(cfg, geo, blocksLim, b, pages, i);
    if i < |ids| { BlankEntry(cfg, ids, i); } else { BlankEnd(cfg, ids, i, geo.luLim); }
  }

  lemma LastIds(cfg: Config, geo: Geometry, blocksLim: nat, bix: nat, pages: seq<Page>, i: nat)
    requires bix <= blocksLim && cfg.useMagic && geo.luPages >= 1 && geo.luLim >= 2
    requires |pages| + 2 <= geo.luPages * geo.luLim
    requires |pages| <= (geo.luPages - 1) * geo.luLim + i && i < geo.luLim && i != geo.luLim - 2
    ensures var ids := LuIds(cfg, geo, blocksLim, bix, pages, geo.luPages - 1);
      |ids| == geo.luLim - 1 && (i < |ids| ==> ids[i] == LuEntry(Pow256(cfg.objIdLen) - 1, false))
  {
    hide LuPagesOf, EntriesOfPages, Magic, Pow256;
    var entries := EntriesOfPages(pages);
    LastLuPageFree(geo.luLim, geo.luPages, entries);
    LuPagesRoom(geo.luLim, geo.luPages, entries, geo.luPages - 1);
    OneMore(geo.luPages, geo.luLim);
  }

  lemma BlankEntry(cfg: Config, ids: seq<LuEntry>, i: nat)
    requires i < |ids| && ids[i] == LuEntry(Pow256(cfg.objIdLen) - 1, false)
    ensures PartOf(cfg.objIdLen, LuBytes(cfg, ids), i) == Fill(0xFF, cfg.objIdLen)
  {
    hide Flatten, Fill, PartOf;
    var parts := EntryParts(cfg, ids);
    FlattenSlice(parts, Fill(0xFF, cfg.pageSize - |Flatten(parts)|), cfg.objIdLen, i);
    PackBlank(cfg.order, cfg.objIdLen);
  }

  lemma {:induction false} PackBlank(order: Endianness, width: nat)
    ensures Pack(order, width, Pow256(width) - 1) == Fill(0xFF, width)
  {
    if width > 0 {
      var p := Pow256(width - 1);
      DivModUnique(256 * p - 1, 256, p - 1, 255);
      PackBlank(order, width - 1);
    }
  }

  lemma BlankEnd(cfg: Config, ids: seq<LuEntry>, i: nat, lim: nat)
    requires LuPacks(cfg, ids) && |ids| <= i < lim && lim * cfg.objIdLen == cfg.pageSize
    ensures PartOf(cfg.objIdLen, LuBytes(cfg, ids), i) == Fill(0xFF, cfg.objIdLen)
  {
    hide LuBytes, LuPacks;
    LookupPageLayout(cfg, ids);
    MulLe(|ids|, i, cfg.objIdLen);
    MulLe(i + 1, lim, cfg.objIdLen);
  }

  // ----- pages

  /** A data page: id, span, 0xFC, the contents, and 0xFF to the end. */
  lemma DataPageLayout(cfg: Config, page: Page)
    requires cfg.pageSize > 0 && PagePacks(cfg, page) && page.Data?
    ensures var b, span, flag := PageBytes(cfg, page), cfg.objIdLen, cfg.objIdLen + cfg.spanIxLen;
      var end := flag + 1 + |page.contents|;
      && end <= |b| == cfg.pageSize
      && Unpack(cfg.order, b[..span]) == page.objId && Unpack(cfg.order, b[span..flag]) == page.spanIx
      && b[flag] == 0xFC && b[flag + 1..end] == page.contents
      && forall i :: end <= i < |b| ==> b[i] == 0xFF
  {
    hide Pack, Unpack;
    UnpackPack(cfg.order, cfg.objIdLen, page.objId);
    UnpackPack(cfg.order, cfg.spanIxLen, page.spanIx);
    var b, span, flag := PageBytes(cfg, page), cfg.objIdLen, cfg.objIdLen + cfg.spanIxLen;
    assert b[..span] == Pack(cfg.order, cfg.objIdLen, page.objId);
    assert b[span..flag] == Pack(cfg.order, cfg.spanIxLen, page.spanIx);
  }

  /** The header of an index page: id with its highest bit flipped, span, 0xF8, and 0xFF up to a multiple of 4. */
  lemma IndexHeaderLayout(cfg: Config, page: Page)
    requires cfg.pageSize > 0 && PagePacks(cfg, page) && page.Index?
    ensures var b, span, flag := PageBytes(cfg, page), cfg.objIdLen, cfg.objIdLen + cfg.spanIxLen;
      && 4 * CeilDiv(flag + 1, 4) <= |b| == cfg.pageSize
      && Unpack(cfg.order, b[..span]) == Toggle(cfg.objIdLen, page.objId)
      && Unpack(cfg.order, b[span..flag]) == page.spanIx
      && b[flag] == 0xF8
      && forall i :: flag < i < 4 * CeilDiv(flag + 1, 4) ==> b[i] == 0xFF
  {
    hide *;
    AlignedIs(cfg);
    IndexParts(cfg, page);
    var id, b, flag := Toggle(cfg.objIdLen, page.objId), PageBytes(cfg, page), cfg.objIdLen + cfg.spanIxLen;
    HeaderLayout(cfg, id, page.spanIx, 0xF8, b[flag + 1..]);
    FilledAfter(b, flag + 1, cfg.HeaderPad());
  }

  lemma AlignedIs(cfg: Config)
    ensures cfg.objIdLen + cfg.spanIxLen + 1 + cfg.HeaderPad() == cfg.DataHeaderLenAligned()
      == 4 * CeilDiv(cfg.objIdLen + cfg.spanIxLen + 1, 4)
  {
  }

  lemma FilledAfter(b: seq<byte>, from: nat, pad: nat)
    requires from + pad <= |b| && b[from..] == Fill(0xFF, pad) + b[from + pad..]
    ensures forall i :: from <= i < from + pad ==> b[i] == 0xFF
  {
    forall i | from <= i < from + pad ensures b[i] == 0xFF { assert b[i] == b[from..][i - from]; }
  }

  lemma IndexParts(cfg: Config, page: Page)
    requires cfg.pageSize > 0 && PagePacks(cfg, page) && page.Index?
    ensures Fits(cfg.objIdLen, Toggle(cfg.objIdLen, page.objId)) && Fits(cfg.spanIxLen, page.spanIx)
    ensures var b, flag := PageBytes(cfg, page), cfg.objIdLen + cfg.spanIxLen;
      && flag + 1 + cfg.HeaderPad() <= |b| == cfg.pageSize
      && b == Header(cfg, Toggle(cfg.objIdLen, page.objId), page.spanIx, 0xF8) + b[flag + 1..]
      && b[flag + 1..] == Fill(0xFF, cfg.HeaderPad()) + b[flag + 1 + cfg.HeaderPad()..]
  {
    hide Toggle, Flatten, PageNumbers, HeadInfo, Header;
    var header, pad := Header(cfg, Toggle(cfg.objIdLen, page.objId), page.spanIx, 0xF8), Fill(0xFF, cfg.HeaderPad());
    var b := PageBytes(cfg, page);
    var rest := b[|header| + |pad|..];
    assert b == header + (pad + rest);
  }

  lemma HeaderLayout(cfg: Config, id: nat, spanIx: nat, flag: byte, rest: seq<byte>)
    requires Fits(cfg.objIdLen, id) && Fits(cfg.spanIxLen, spanIx)
    ensures var b, span, at := Header(cfg, id, spanIx, flag) + rest, cfg.objIdLen, cfg.objIdLen + cfg.spanIxLen;
      && |b| > at && Unpack(cfg.order, b[..span]) == id && Unpack(cfg.order, b[span..at]) == spanIx && b[at] == flag
  {
    hide Pack, Unpack;
    UnpackPack(cfg.order, cfg.objIdLen, id);
    UnpackPack(cfg.order, cfg.spanIxLen, spanIx);
    var b, span, at := Header(cfg, id, spanIx, flag) + rest, cfg.objIdLen, cfg.objIdLen + cfg.spanIxLen;
    assert b[..span] == Pack(cfg.order, cfg.objIdLen, id) && b[span..at] == Pack(cfg.order, cfg.spanIxLen, spanIx);
  }

  /** The first index page of a file goes on with the size in four bytes, 1, the name, and zeros up to the page
      numbers; every index page ends in its page numbers and 0xFF. */
  lemma HeadLayoutBytes(cfg: Config, page: Page)
    requires cfg.pageSize > 0 && PagePacks(cfg, page) && page.Index? && page.spanIx == 0
    requires |page.name| <= cfg.objNameLen
    ensures var b, at := PageBytes(cfg, page), 4 * CeilDiv(cfg.objIdLen + cfg.spanIxLen + 1, 4);
      var from := at + 5 + cfg.objNameLen + cfg.metaLen + cfg.HeadPad();
      && from <= |b| && Unpack(cfg.order, b[at..at + 4]) == page.size && b[at + 4] == 1
      && b[at + 5..at + 5 + |page.name|] == page.name
      && forall i :: at + 5 + |page.name| <= i < from ==> b[i] == 0
  {
    hide *;
    AlignedIs(cfg);
    HeadParts(cfg, page);
    UnpackPack(cfg.order, 4, page.size);
    var zeros := Fill(0, cfg.objNameLen - |page.name| + cfg.metaLen + cfg.HeadPad());
    InfoAt(PageBytes(cfg, page), cfg.DataHeaderLenAligned(), Pack(cfg.order, 4, page.size), page.name, zeros);
  }

  lemma InfoAt(b: seq<byte>, at: nat, size: seq<byte>, name: seq<byte>, zeros: seq<byte>)
    requires |size| == 4 && at + 5 + |name| + |zeros| <= |b| && forall i :: 0 <= i < |zeros| ==> zeros[i] == 0
    requires b[at..] == size + [1] + name + zeros + b[at + 5 + |name| + |zeros|..]
    ensures b[at..at + 4] == size && b[at + 4] == 1 && b[at + 5..at + 5 + |name|] == name
    ensures forall i :: at + 5 + |name| <= i < at + 5 + |name| + |zeros| ==> b[i] == 0
  {
    var c := b[at..];
    InfoFields(c, size, name, zeros, b[at + 5 + |name| + |zeros|..]);
    assert b[at..at + 4] == c[..4] && b[at + 4] == c[4] && b[at + 5..at + 5 + |name|] == c[5..5 + |name|];
    forall i | at + 5 + |name| <= i < at + 5 + |name| + |zeros| ensures b[i] == 0 {
      assert b[i] == c[5 + |name| + (i - at - 5 - |name|)];
    }
  }

  lemma InfoFields(c: seq<byte>, size: seq<byte>, name: seq<byte>, zeros: seq<byte>, rest: seq<byte>)
    requires c == size + [1] + name + zeros + rest && |size| == 4
    ensures c[..4] == size && c[4] == 1 && c[5..5 + |name|] == name
    ensures forall i :: 0 <= i < |zeros| ==> c[5 + |name| + i] == zeros[i]
  {
  }

  lemma HeadParts(cfg: Config, page: Page)
    requires cfg.pageSize > 0 && PagePacks(cfg, page) && page.Index? && page.spanIx == 0
    requires |page.name| <= cfg.objNameLen
    ensures Fits(4, page.size)
    ensures var b, at := PageBytes(cfg, page), cfg.DataHeaderLenAligned();
      var zeros := Fill(0, cfg.objNameLen - |page.name| + cfg.metaLen + cfg.HeadPad());
      && at + 5 + |page.name| + |zeros| <= |b|
      && b[at..] == Pack(cfg.order, 4, page.size) + [1] + page.name + zeros + b[at + 5 + |page.name| + |zeros|..]
  {
    hide Toggle, Flatten, PageNumbers, Pack, Header, Fill;
    var header := Header(cfg, Toggle(cfg.objIdLen, page.objId), 0, 0xF8) + Fill(0xFF, cfg.HeaderPad());
    var info, numbers := HeadInfo(cfg, page.size, page.name), Flatten(PageNumbers(cfg, page.pages));
    Middle(header, info, numbers, Fill(0xFF, cfg.pageSize - |header + info + numbers|));
  }

  lemma Middle(a: seq<byte>, b: seq<byte>, c: seq<byte>, d: seq<byte>)
    ensures var all := a + b + c + d; all[|a|..] == b + all[|a| + |b|..]
  {
  }

  /** The flag of every page of the image: 0xF8 for an index page, 0xFC for a data page. */
  lemma FlagInImage(cfg: Config, geo: Geometry, blocksLim: nat, log: Log, n: nat)
    requires Matches(cfg, geo) && ImagePacks(cfg, geo, blocksLim, log)
    requires n < |log| <= blocksLim * geo.usable
    ensures var page := PartOf(geo.pageSize, Image(cfg, geo, blocksLim, log), PageNo(geo, n));
      && |page| == geo.pageSize > cfg.objIdLen + cfg.spanIxLen
      && page[cfg.objIdLen + cfg.spanIxLen] == if log[n].Index? then 0xF8 else 0xFC
  {
    hide Image, PartOf, ImagePacks, PageBytes, PagePacks, PageNo;
    PageAtLog(cfg, geo, blocksLim, log, n, 0, 0, 0);
    if log[n].Index? { IndexHeaderLayout(cfg, log[n]); } else { DataPageLayout(cfg, log[n]); }
  }

  /** After the ids listed, a lookup page is 0xFF. */
  lemma LookupPageLayout(cfg: Config, ids: seq<LuEntry>)
    requires LuPacks(cfg, ids)
    ensures var b := LuBytes(cfg, ids);
      |b| == cfg.pageSize && forall i :: |ids| * cfg.objIdLen <= i < |b| ==> b[i] == 0xFF
  {
    LuBytesLength(cfg, ids);
    FlattenLength(EntryParts(cfg, ids), cfg.objIdLen);
    hide Flatten;
  }

  /** A page that is not in use is 0xFF. */
  lemma UnusedPage(cfg: Config, geo: Geometry, blocksLim: nat, log: Log, b: nat, k: nat)
    requires Matches(cfg, geo) && ImagePacks(cfg, geo, blocksLim, log) && b < blocksLim
    requires geo.luPages + |InBlock(geo, log, b)| <= k < geo.pagesPerBlock
    ensures var page := PartOf(geo.pageSize, Image(cfg, geo, blocksLim, log), PageIn(geo, b, k));
      |page| == geo.pageSize && forall i :: 0 <= i < |page| ==> page[i] == 0xFF
  {
    hide Image, PartOf, ImagePacks, InBlock, PageIn, LuBytes, PageBytes;
    ImagePage(cfg, geo, blocksLim, log, b, k);
  }
}
