/** The "Formats" section of the MessagePack specification, as a reader of one value. */
module MsgPackFormat {
  import opened ByteFields
  import opened Wrappers

  /** `wide` marks a form that needs a separate type and size (`ext 8/16/32`) or a 32-bit count. The items
      of a map are its keys and values in turn. */
  datatype Value =
    | Nil
    | Bool(flag: bool)
    | Int(number: int)
    | Float(bits: seq<byte>)
    | Str(text: seq<byte>)
    | Bin(data: seq<byte>)
    | Ext(body: seq<byte>, wide: bool)
    | Array(items: seq<Value>, wide: bool)
    | Map(items: seq<Value>, wide: bool)

  datatype Item = Item(value: Value, next: nat)

  datatype Items = Items(values: seq<Value>, next: nat)

  /** What the first bytes of an element announce. */
  datatype Head = Malformed | Whole(value: Value, next: nat) | Open(isMap: bool, count: nat, wide: bool, next: nat)

  function Signed(width: nat, n: nat): int {
    if 2 * n < Pow256(width) then n else n - Pow256(width)
  }

  function Number(data: seq<byte>, at: nat, width: nat): (n: nat)
    requires at + width <= |data|
    ensures n < Pow256(width)
  {
    Unpack(Big, data[at..at + width])
  }

  function Bytes(data: seq<byte>, at: nat, size: nat): seq<byte>
    requires at + size <= |data|
  {
    data[at..at + size]
  }

  datatype Kind = StrKind | BinKind | ExtKind | FixExtKind | FloatKind

  function Content(kind: Kind, bytes: seq<byte>): Value {
    match kind
    case StrKind => Str(bytes)
    case BinKind => Bin(bytes)
    case ExtKind => Ext(bytes, true)
    case FixExtKind => Ext(bytes, false)
    case FloatKind => Float(bytes)
  }

  /** `size` bytes of content. */
  function Run(kind: Kind, data: seq<byte>, at: nat, size: nat): (h: Head)
    requires at <= |data|
    ensures h.Whole? ==> h.next == at + size <= |data|
    ensures !h.Open?
  {
    if at + size <= |data| then Whole(Content(kind, Bytes(data, at, size)), at + size) else Malformed
  }

  /** A size in `width` bytes and as many bytes of content (an `ext` has its type byte besides). */
  function SizedRun(kind: Kind, data: seq<byte>, at: nat, width: nat): (h: Head)
    requires at <= |data|
    ensures h.Whole? ==> at + width <= h.next <= |data|
    ensures !h.Open?
  {
    if at + width <= |data|
    then Run(kind, data, at + width, Number(data, at, width) + if kind.ExtKind? then 1 else 0)
    else Malformed
  }

  function SizedOpen(isMap: bool, data: seq<byte>, at: nat, width: nat): (h: Head)
    requires at <= |data|
    ensures h.Open? ==> h.next == at + width <= |data|
    ensures !h.Whole?
  {
    if at + width <= |data| then Open(isMap, Number(data, at, width), width == 4, at + width) else Malformed
  }

  function ReadNumber(signed: bool, data: seq<byte>, at: nat, width: nat): (h: Head)
    requires at <= |data|
    ensures h.Whole? ==> h.next == at + width <= |data|
    ensures !h.Open?
  {
    if at + width <= |data| then
      var n := Number(data, at, width);
      Whole(Int(if signed then Signed(width, n) else n), at + width)
    else Malformed
  }

  /** The width that the last two bits of a format byte stand for, with `first` the format of width 1. */
  function Width(tag: int, first: int): (w: nat)
    requires first <= tag <= first + 4
    ensures w in {1, 2, 4, 8, 16}
  {
    [1, 2, 4, 8, 16][tag - first]
  }

  function ReadHead(data: seq<byte>, at: nat): (h: Head)
    requires at < |data|
    ensures !h.Malformed? ==> at < h.next <= |data|
  {
    var tag: int := data[at];
    var body := at + 1;
    if tag < 0x80 then Whole(Int(tag), body)
    else if tag < 0x90 then Open(true, tag - 0x80, false, body)
    else if tag < 0xA0 then Open(false, tag - 0x90, false, body)
    else if tag < 0xC0 then Run(StrKind, data, body, tag - 0xA0)
    else if tag == 0xC0 then Whole(Nil, body)
    else if tag == 0xC1 then Malformed
    else if tag < 0xC4 then Whole(Bool(tag == 0xC3), body)
    else if tag < 0xC7 then SizedRun(BinKind, data, body, Width(tag, 0xC4))
    else if tag < 0xCA then SizedRun(ExtKind, data, body, Width(tag, 0xC7))
    else if tag < 0xCC then Run(FloatKind, data, body, 4 * (tag - 0xC9))
    else if tag < 0xD0 then ReadNumber(false, data, body, Width(tag, 0xCC))
    else if tag < 0xD4 then ReadNumber(true, data, body, Width(tag, 0xD0))
    else if tag < 0xD9 then Run(FixExtKind, data, body, 1 + Width(tag, 0xD4))
    else if tag < 0xDC then SizedRun(StrKind, data, body, Width(tag, 0xD9))
    else if tag < 0xDE then SizedOpen(false, data, body, 2 * (tag - 0xDB))
    else if tag < 0xE0 then SizedOpen(true, data, body, 2 * (tag - 0xDD))
    else Whole(Int(tag - 256), body)
  }

  /** Nil, the format never used, the booleans, and the sizes of `fixext`, type byte included. */
  lemma FixedForms(data: seq<byte>, at: nat)
    requires at < |data|
    ensures var h := ReadHead(data, at);
      && (data[at] == 0xC0 ==> h == Whole(Nil, at + 1)) && (data[at] == 0xC1 ==> h == Malformed)
      && (data[at] == 0xC2 ==> h == Whole(Bool(false), at + 1)) && (data[at] == 0xC3 ==> h == Whole(Bool(true), at + 1))
    ensures 0xD4 <= data[at] <= 0xD8 ==>
      var size := [2, 3, 5, 9, 17][data[at] - 0xD4];
      ReadHead(data, at)
        == if at + 1 + size > |data| then Malformed else Whole(Ext(data[at + 1..at + 1 + size], false), at + 1 + size)
  {
  }

  /** How many items follow. */
  function ItemCount(h: Head): nat
    requires h.Open?
  {
    if h.isMap then 2 * h.count else h.count
  }

  function Close(h: Head, values: seq<Value>): Value
    requires h.Open?
  {
    if h.isMap then Map(values, h.wide) else Array(values, h.wide)
  }

  /** The element at `at` and where it ends, if a complete one is there. */
  function Decode(data: seq<byte>, at: nat): (r: Option<Item>)
    requires at <= |data|
    ensures r.Some? ==> at < r.value.next <= |data|
    decreases |data| - at, 0
  {
    if at == |data| then None else
    var h := ReadHead(data, at);
    match h
    case Malformed => None
    case Whole(value, next) => Some(Item(value, next))
    case Open(_, _, _, next) =>
      match DecodeMany(data, next, ItemCount(h))
      case None => None
      case Some(items) => Some(Item(Close(h, items.values), items.next))
  }

  function DecodeMany(data: seq<byte>, at: nat, n: nat): (r: Option<Items>)
    requires at <= |data|
    ensures r.Some? ==> at <= r.value.next <= |data| && |r.value.values| == n
    decreases |data| - at, 1, n
  {
    if n == 0 then Some(Items([], at)) else
    match Decode(data, at)
    case None => None
    case Some(first) =>
      match DecodeMany(data, first.next, n - 1)
      case None => None
      case Some(rest) => Some(Items([first.value] + rest.values, rest.next))
  }
}
