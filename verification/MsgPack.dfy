/** The firmware's MessagePack encoders and its two readers. */
module MsgPack {
  import opened ByteFields
  import opened Wrappers
  import opened MsgPackFormat

  // ----- skip_element

  /** No form that `skip_element` does not know: 32-bit counts, and `ext` with a separate size. */
  predicate Narrow(v: Value) {
    match v
    case Ext(_, wide) => !wide
    case Array(items, wide) => !wide && AllNarrow(items)
    case Map(items, wide) => !wide && AllNarrow(items)
    case _ => true
  }

  predicate AllNarrow(values: seq<Value>) {
    values == [] || (Narrow(values[0]) && AllNarrow(values[1..]))
  }

  /** Where the element at `at` ends, when it is complete and all its forms are known. */
  function Extent(data: seq<byte>, at: nat): (end: Option<nat>)
    requires at <= |data|
    ensures end.Some? ==> at < end.value <= |data|
  {
    match Decode(data, at)
    case None => None
    case Some(item) => if Narrow(item.value) then Some(item.next) else None
  }

  function ExtentMany(data: seq<byte>, at: nat, n: nat): (end: Option<nat>)
    requires at <= |data|
    ensures end.Some? ==> at <= end.value <= |data|
  {
    match DecodeMany(data, at, n)
    case None => None
    case Some(items) => if AllNarrow(items.values) then Some(items.next) else None
  }

  lemma ExtentOfHead(data: seq<byte>, at: nat)
    requires at < |data|
    ensures var h := ReadHead(data, at);
      Extent(data, at) ==
        match h
        case Malformed => None
        case Whole(value, next) => if Narrow(value) then Some(next) else None
        case Open(_, _, wide, next) => if wide then None else ExtentMany(data, next, ItemCount(h))
  {
    hide ReadHead;
  }

  lemma ExtentManyStep(data: seq<byte>, at: nat, n: nat)
    requires at <= |data| && n > 0
    ensures ExtentMany(data, at, n) ==
      match Extent(data, at)
      case None => None
      case Some(next) => ExtentMany(data, next, n - 1)
  {
    hide Decode, Narrow;
    match Decode(data, at)
    case None =>
    case Some(first) =>
      match DecodeMany(data, first.next, n - 1)
      case None =>
      case Some(rest) =>
        assert ([first.value] + rest.values)[1..] == rest.values;
  }

  lemma ExtentManyNone(data: seq<byte>, at: nat)
    requires at <= |data|
    ensures ExtentMany(data, at, 0) == Some(at)
  {
  }

  lemma NarrowContents()
    ensures forall kind, bytes :: Narrow(Content(kind, bytes)) <==> kind != ExtKind
  {
  }

  /** Passes over `n` elements: the loops of `skip_element`. */
  method SkipElements(data: seq<byte>, offset: nat, n: nat) returns (ok: bool, next: nat)
    requires offset <= |data|
    ensures ok <==> ExtentMany(data, offset, n).Some?
    ensures ok ==> ExtentMany(data, offset, n) == Some(next)
    decreases |data| - offset, 3
  {
    hide *;
    next := offset;
    for i := 0 to n
      invariant offset <= next <= |data|
      invariant ExtentMany(data, offset, n) == ExtentMany(data, next, n - i)
    {
      ExtentManyStep(data, next, n - i);
      ok, next := SkipElement(data, next);
      if !ok { return false, next; }
    }
    ExtentManyNone(data, next);
    return true, next;
  }

  /** `skip_element`: `offset` is the reference parameter on entry, `next` on return. A mask test is
      written as the range of tags it accepts. */
  method SkipElement(data: seq<byte>, offset: nat) returns (ok: bool, next: nat)
    ensures ok <==> offset <= |data| && Extent(data, offset).Some?
    ensures ok ==> Extent(data, offset) == Some(next) && offset < next <= |data|
    decreases |data| - offset, 2
  {
    hide Extent, ExtentMany, Number, Content, AllNarrow, DecodeMany, Decode, Signed, Bytes, Close;
    NarrowContents();
    if offset >= |data| {
      return false, offset;
    }
    ExtentOfHead(data, offset);
    var tag: int := data[offset];
    next := offset + 1;
    if tag == 0xC0 || tag == 0xC2 || tag == 0xC3 { return true, next; }
    if tag <= 0x7F { return true, next; }
    if tag >= 0xE0 { return true, next; }
    if 0xA0 <= tag < 0xC0 {
      next := next + (tag - 0xA0);
      return next <= |data|, next;
    }
    if 0x90 <= tag < 0xA0 {
      ok, next := SkipElements(data, next, tag - 0x90);
      return ok, next;
    }
    if 0x80 <= tag < 0x90 {
      ok, next := SkipElements(data, next, 2 * (tag - 0x80));
      return ok, next;
    }
    ok, next := SkipTagged(data, offset);
  }

  /** The tags from 0xC1 on that stand for more than themselves. */
  method SkipTagged(data: seq<byte>, offset: nat) returns (ok: bool, next: nat)
    requires offset < |data| && 0xC1 <= data[offset] < 0xE0 && data[offset] !in {0xC2, 0xC3}
    ensures ok <==> Extent(data, offset).Some?
    ensures ok ==> Extent(data, offset) == Some(next)
    decreases |data| - offset, 1
  {
    hide Extent, ExtentMany, Number, Content, AllNarrow, DecodeMany, Decode, Signed, Bytes, Close;
    NarrowContents();
    ExtentOfHead(data, offset);
    var tag: int := data[offset];
    next := offset + 1;
    if tag == 0xCC || tag == 0xD0 { next := next + 1; return next <= |data|, next; }
    if tag == 0xCD || tag == 0xD1 { next := next + 2; return next <= |data|, next; }
    if tag == 0xCE || tag == 0xD2 || tag == 0xCA { next := next + 4; return next <= |data|, next; }
    if tag == 0xCF || tag == 0xD3 || tag == 0xCB { next := next + 8; return next <= |data|, next; }
    if tag == 0xD9 && next < |data| { ok, next := SkipSized(data, next, 1); return ok, next; }
    if tag == 0xDA && next + 1 < |data| { ok, next := SkipSized(data, next, 2); return ok, next; }
    if tag == 0xDB && next + 3 < |data| { ok, next := SkipSized(data, next, 4); return ok, next; }
    if tag == 0xC4 && next < |data| { ok, next := SkipSized(data, next, 1); return ok, next; }
    if tag == 0xC5 && next + 1 < |data| { ok, next := SkipSized(data, next, 2); return ok, next; }
    if tag == 0xC6 && next + 3 < |data| { ok, next := SkipSized(data, next, 4); return ok, next; }
    if 0xD4 <= tag <= 0xD8 || tag >= 0xDC { ok, next := SkipArrayOrExt(data, offset); return ok, next; }
    return false, next;
  }

  method SkipArrayOrExt(data: seq<byte>, offset: nat) returns (ok: bool, next: nat)
    requires offset < |data| && (0xD4 <= data[offset] <= 0xD8 || 0xDC <= data[offset] < 0xE0)
    ensures ok <==> Extent(data, offset).Some?
    ensures ok ==> Extent(data, offset) == Some(next)
    decreases |data| - offset, 0
  {
    hide Extent, ExtentMany, Number, Content, AllNarrow, DecodeMany, Decode, Signed, Bytes, Close;
    NarrowContents();
    ExtentOfHead(data, offset);
    var tag: int := data[offset];
    next := offset + 1;
    if tag == 0xDC && next + 1 < |data| {
      var n := Number(data, next, 2);
      ok, next := SkipElements(data, next + 2, n);
      return ok, next;
    }
    if tag == 0xDE && next + 1 < |data| {
      var n := Number(data, next, 2);
      ok, next := SkipElements(data, next + 2, 2 * n);
      return ok, next;
    }
    if tag == 0xD4 { next := next + 2; return next <= |data|, next; }
    if tag == 0xD5 { next := next + 3; return next <= |data|, next; }
    if tag == 0xD6 { next := next + 5; return next <= |data|, next; }
    if tag == 0xD7 { next := next + 9; return next <= |data|, next; }
    if tag == 0xD8 { next := next + 17; return next <= |data|, next; }
    return false, next;
  }

  /** A size of `width` bytes, and as many bytes. */
  method SkipSized(data: seq<byte>, offset: nat, width: nat) returns (ok: bool, next: nat)
    requires offset + width <= |data|
    ensures next == offset + width + Number(data, offset, width)
    ensures ok <==> next <= |data|
  {
    next := offset + width + Number(data, offset, width);
    ok := next <= |data|;
  }

  // ----- read_bin_or_str

  /** A complete string or binary. */
  predicate IsText(r: Option<Item>) {
    r.Some? && (r.value.value.Str? || r.value.value.Bin?)
  }

  /** Its content, or nothing. */
  function Text(r: Option<Item>): seq<byte> {
    match r
    case Some(Item(Str(text), _)) => text
    case Some(Item(Bin(body), _)) => body
    case _ => []
  }

  lemma TextOfHead(data: seq<byte>, at: nat)
    requires at < |data|
    ensures match ReadHead(data, at)
      case Whole(value, next) => Decode(data, at) == Some(Item(value, next))
      case _ => !IsText(Decode(data, at))
  {
    hide ReadHead, DecodeMany;
  }

  /** `read_bin_or_str`: the empty string stands for every failure, whatever was passed over by then. */
  method ReadBinOrStr(data: seq<byte>, offset: nat) returns (result: seq<byte>, next: nat)
    ensures offset >= |data| ==> result == [] && next == offset
    ensures offset < |data| ==>
      && result == Text(Decode(data, offset))
      && (IsText(Decode(data, offset)) ==> next == Decode(data, offset).value.next)
      && offset < next <= |data|
  {
    hide Number, Decode, Bytes;
    if offset >= |data| { return [], offset; }
    TextOfHead(data, offset);
    var tag: int := data[offset];
    next := offset + 1;
    var size := 0;
    if 0xA0 <= tag < 0xC0 {
      size := tag - 0xA0;
    } else if tag == 0xD9 && next < |data| {
      size, next := Number(data, next, 1), next + 1;
    } else if tag == 0xDA && next + 1 < |data| {
      size, next := Number(data, next, 2), next + 2;
    } else if tag == 0xDB && next + 3 < |data| {
      size, next := Number(data, next, 4), next + 4;
    } else if tag == 0xC4 && next < |data| {
      size, next := Number(data, next, 1), next + 1;
    } else if tag == 0xC5 && next + 1 < |data| {
      size, next := Number(data, next, 2), next + 2;
    } else if tag == 0xC6 && next + 3 < |data| {
      size, next := Number(data, next, 4), next + 4;
    } else {
      return [], next;
    }
    if next + size > |data| { return [], next; }
    result := Bytes(data, next, size);
    next := next + size;
  }
}
