/** The byte form that the encoders give a value, and what a reader makes of it. */
module MsgPackEncode {
  import opened ByteFields
  import opened Wrappers
  import opened MsgPackFormat
  import opened MsgPack

  const INT64 := 0x1_0000_0000_0000_0000

  /** A 64-bit integer as the cast to `uint64_t` gives it. */
  function Unsigned(v: int): nat { v % INT64 }

  predicate IsInt64(v: int) { -(INT64 / 2) <= v < INT64 / 2 }

  function Field(tag: byte, width: nat, n: nat): (bytes: seq<byte>)
    ensures |bytes| == 1 + width
  {
    [tag] + Pack(Big, width, n)
  }

  /** The form and size of an integer: the smallest that holds it. */
  function IntBytes(v: int): (bytes: seq<byte>)
    requires IsInt64(v)
    ensures 1 <= |bytes| <= 9
  {
    var n := Unsigned(v);
    if 0 <= v <= 0x7F then [v]
    else if 0 <= v <= 0xFF then Field(0xCC, 1, n)
    else if 0 <= v <= 0xFFFF then Field(0xCD, 2, n)
    else if 0 <= v <= 0xFFFF_FFFF then Field(0xCE, 4, n)
    else if 0 <= v then Field(0xCF, 8, n)
    else if -32 <= v then [256 + v]
    else if -0x80 <= v then Field(0xD0, 1, n)
    else if -0x8000 <= v then Field(0xD1, 2, n)
    else if -0x8000_0000 <= v then Field(0xD2, 4, n)
    else Field(0xD3, 8, n)
  }

  function StrHeader(n: nat): (bytes: seq<byte>)
    ensures 1 <= |bytes| <= 5
  {
    if n <= 31 then [0xA0 + n]
    else if n <= 0xFF then Field(0xD9, 1, n)
    else if n <= 0xFFFF then Field(0xDA, 2, n)
    else Field(0xDB, 4, n)
  }

  function BinHeader(n: nat): (bytes: seq<byte>)
    ensures 2 <= |bytes| <= 5
  {
    if n <= 0xFF then Field(0xC4, 1, n) else if n <= 0xFFFF then Field(0xC5, 2, n) else Field(0xC6, 4, n)
  }

  function CountHeader(isMap: bool, n: nat): (bytes: seq<byte>)
    ensures 1 <= |bytes| <= 5
  {
    if n <= 15 then [(if isMap then 0x80 else 0x90) + n]
    else if n <= 0xFFFF then Field(if isMap then 0xDE else 0xDC, 2, n)
    else Field(if isMap then 0xDF else 0xDD, 4, n)
  }

  /** A header and the items after it, as a caller of the encoders writes them. */
  function Encode(v: Value): seq<byte>
    requires Encodable(v)
  {
    match v
    case Bool(flag) => [if flag then 0xC3 else 0xC2]
    case Int(number) => IntBytes(number)
    case Float(bits) => [0xCB] + bits
    case Str(text) => StrHeader(|text|) + text
    case Bin(data) => BinHeader(|data|) + data
    case Array(items, _) => CountHeader(false, |items|) + EncodeAll(items)
    case Map(items, _) => CountHeader(true, |items| / 2) + EncodeAll(items)
  }

  function EncodeAll(values: seq<Value>): seq<byte>
    requires AllEncodable(values)
  {
    if values == [] then [] else Encode(values[0]) + EncodeAll(values[1..])
  }

  /** What there are encoders for: no nil and no `ext`, 64-bit integers, and doubles. */
  predicate Encodable(v: Value) {
    match v
    case Nil => false
    case Ext(_, _) => false
    case Int(number) => IsInt64(number)
    case Float(bits) => |bits| == 8
    case Array(items, _) => AllEncodable(items)
    case Map(items, _) => |items| % 2 == 0 && AllEncodable(items)
    case _ => true
  }

  predicate AllEncodable(values: seq<Value>) {
    values == [] || (Encodable(values[0]) && AllEncodable(values[1..]))
  }

  /** Sizes and counts in 32 bits; a count above 65535 takes the wide form. */
  predicate InSize(v: Value) {
    match v
    case Str(text) => |text| <= 0xFFFF_FFFF
    case Bin(data) => |data| <= 0xFFFF_FFFF
    case Array(items, wide) => |items| <= 0xFFFF_FFFF && wide == (|items| > 0xFFFF) && AllInSize(items)
    case Map(items, wide) =>
      |items| / 2 <= 0xFFFF_FFFF && wide == (|items| / 2 > 0xFFFF) && AllInSize(items)
    case _ => true
  }

  predicate AllInSize(values: seq<Value>) {
    values == [] || (InSize(values[0]) && AllInSize(values[1..]))
  }

  // ----- reading back

  /** `bytes` stand at `at`. */
  predicate At(data: seq<byte>, at: nat, bytes: seq<byte>) {
    at + |bytes| <= |data| && data[at..at + |bytes|] == bytes
  }

  lemma AtSplit(data: seq<byte>, at: nat, a: seq<byte>, b: seq<byte>)
    requires At(data, at, a + b)
    ensures At(data, at, a) && At(data, at + |a|, b)
    ensures |a| > 0 ==> data[at] == a[0]
  {
    var s := data[at..at + |a + b|];
    assert data[at..at + |a|] == s[..|a|] == a;
    assert data[at + |a|..at + |a| + |b|] == s[|a|..] == b;
    assert |a| > 0 ==> s[0] == data[at];
  }

  lemma Powers()
    ensures Pow256(1) == 0x100 && Pow256(2) == 0x1_0000 && Pow256(4) == 0x1_0000_0000 && Pow256(8) == INT64
  {
    assert Pow256(3) == 0x100_0000 && Pow256(5) == 0x100_0000_0000;
    assert Pow256(6) == 0x1_0000_0000_0000 && Pow256(7) == 0x100_0000_0000_0000;
  }

  /** A number field reads as the low-order bytes of what was put in. */
  lemma FieldReads(data: seq<byte>, at: nat, tag: byte, width: nat, n: nat)
    requires At(data, at, Field(tag, width, n))
    ensures at + 1 + width <= |data| && data[at] == tag
    ensures Number(data, at + 1, width) == Low(width, n)
    ensures n < Pow256(width) ==> Number(data, at + 1, width) == n
  {
    hide Pack, Unpack, Pow256, Low;
    AtSplit(data, at, [tag], Pack(Big, width, n));
    UnpackLow(Big, width, n);
    LowOfSmall(width, n);
  }

  lemma LowOfSmall(width: nat, n: nat)
    ensures n < Pow256(width) ==> Low(width, n) == n
  {
    hide Pow256;
  }

  lemma ByteReads(data: seq<byte>, at: nat, tag: byte)
    requires At(data, at, [tag])
    ensures at + 1 <= |data| && data[at] == tag
  {
    assert data[at..at + 1][0] == tag;
  }

  lemma LowBytes(v: int, width: nat)
    requires width in {1, 2, 4, 8} && IsInt64(v) && 0 <= 2 * v + Pow256(width) && v < Pow256(width)
    ensures 0 <= v ==> Low(width, Unsigned(v)) == v
    ensures v < 0 ==> Signed(width, Low(width, Unsigned(v))) == v
  {
    hide Pow256;
    Powers();
    if width == 1 { LowPart(v, 0x100); }
    else if width == 2 { LowPart(v, 0x1_0000); }
    else if width == 4 { LowPart(v, 0x1_0000_0000); }
    else { LowPart(v, INT64); }
  }

  lemma LowPart(v: int, p: nat)
    requires p in {0x100, 0x1_0000, 0x1_0000_0000, INT64} && IsInt64(v) && 0 <= v + p && v < p
    ensures v % INT64 % p == if v < 0 then v + p else v
  {
  }

  lemma IntReads(v: int, data: seq<byte>, at: nat)
    requires IsInt64(v) && At(data, at, IntBytes(v))
    ensures at < |data| && ReadHead(data, at) == Whole(Int(v), at + |IntBytes(v)|)
  {
    hide At, Number, Pow256, Signed, Unsigned, Field, Low;
    Powers();
    var n := Unsigned(v);
    if 0 <= v <= 0x7F { ByteReads(data, at, v); }
    else if 0 <= v <= 0xFF { FieldReads(data, at, 0xCC, 1, n); LowBytes(v, 1); }
    else if 0 <= v <= 0xFFFF { FieldReads(data, at, 0xCD, 2, n); LowBytes(v, 2); }
    else if 0 <= v <= 0xFFFF_FFFF { FieldReads(data, at, 0xCE, 4, n); LowBytes(v, 4); }
    else if 0 <= v { FieldReads(data, at, 0xCF, 8, n); LowBytes(v, 8); }
    else if -32 <= v { ByteReads(data, at, 256 + v); }
    else if -0x80 <= v { FieldReads(data, at, 0xD0, 1, n); LowBytes(v, 1); }
    else if -0x8000 <= v { FieldReads(data, at, 0xD1, 2, n); LowBytes(v, 2); }
    else if -0x8000_0000 <= v { FieldReads(data, at, 0xD2, 4, n); LowBytes(v, 4); }
    else { FieldReads(data, at, 0xD3, 8, n); LowBytes(v, 8); }
  }

  lemma StrReads(text: seq<byte>, data: seq<byte>, at: nat)
    requires |text| <= 0xFFFF_FFFF && At(data, at, StrHeader(|text|) + text)
    ensures at < |data| && ReadHead(data, at) == Whole(Str(text), at + |StrHeader(|text|) + text|)
  {
    hide Number, Pow256, Field, Low;
    Powers();
    var n := |text|;
    AtSplit(data, at, StrHeader(n), text);
    if n <= 31 { ByteReads(data, at, 0xA0 + n); }
    else if n <= 0xFF { FieldReads(data, at, 0xD9, 1, n); }
    else if n <= 0xFFFF { FieldReads(data, at, 0xDA, 2, n); }
    else { FieldReads(data, at, 0xDB, 4, n); }
  }

  lemma BinReads(body: seq<byte>, data: seq<byte>, at: nat)
    requires |body| <= 0xFFFF_FFFF && At(data, at, BinHeader(|body|) + body)
    ensures at < |data| && ReadHead(data, at) == Whole(Bin(body), at + |BinHeader(|body|) + body|)
  {
    hide Number, Pow256, Field, Low;
    Powers();
    var n := |body|;
    AtSplit(data, at, BinHeader(n), body);
    if n <= 0xFF { FieldReads(data, at, 0xC4, 1, n); }
    else if n <= 0xFFFF { FieldReads(data, at, 0xC5, 2, n); }
    else { FieldReads(data, at, 0xC6, 4, n); }
  }

  lemma CountReads(isMap: bool, n: nat, data: seq<byte>, at: nat)
    requires n <= 0xFFFF_FFFF && At(data, at, CountHeader(isMap, n))
    ensures at < |data| && ReadHead(data, at) == Open(isMap, n, n > 0xFFFF, at + |CountHeader(isMap, n)|)
  {
    hide At, Number, Pow256, Field, Low;
    Powers();
    if n <= 15 { ByteReads(data, at, (if isMap then 0x80 else 0x90) + n); }
    else if n <= 0xFFFF { FieldReads(data, at, if isMap then 0xDE else 0xDC, 2, n); }
    else { FieldReads(data, at, if isMap then 0xDF else 0xDD, 4, n); }
  }

  lemma FloatReads(bits: seq<byte>, data: seq<byte>, at: nat)
    requires |bits| == 8 && At(data, at, [0xCB] + bits)
    ensures at < |data| && ReadHead(data, at) == Whole(Float(bits), at + 9)
  {
    AtSplit(data, at, [0xCB], bits);
  }

  /** Wherever the bytes of a value stand, whatever surrounds them, a reader finds that value and stops at
      their end. */
  lemma {:induction false} DecodeEncode(v: Value, data: seq<byte>, at: nat)
    requires Encodable(v) && InSize(v) && At(data, at, Encode(v))
    ensures Decode(data, at) == Some(Item(v, at + |Encode(v)|))
    decreases v
  {
    hide At, ReadHead, IntBytes, StrHeader, BinHeader, CountHeader, DecodeMany, EncodeAll, AllEncodable, AllInSize;
    match v
    case Bool(flag) => BoolReads(flag, data, at);
    case Int(number) => IntReads(number, data, at);
    case Float(bits) => FloatReads(bits, data, at);
    case Str(text) => StrReads(text, data, at);
    case Bin(body) => BinReads(body, data, at);
    case Array(items, _) =>
      var header := CountHeader(false, |items|);
      AtSplit(data, at, header, EncodeAll(items));
      CountReads(false, |items|, data, at);
      DecodeEncodeAll(items, data, at + |header|);
    case Map(items, _) =>
      var header := CountHeader(true, |items| / 2);
      AtSplit(data, at, header, EncodeAll(items));
      CountReads(true, |items| / 2, data, at);
      DecodeEncodeAll(items, data, at + |header|);
  }

  lemma BoolReads(flag: bool, data: seq<byte>, at: nat)
    requires At(data, at, [if flag then 0xC3 else 0xC2])
    ensures at < |data| && ReadHead(data, at) == Whole(Bool(flag), at + 1)
  {
    ByteReads(data, at, if flag then 0xC3 else 0xC2);
  }

  lemma {:induction false} DecodeEncodeAll(values: seq<Value>, data: seq<byte>, at: nat)
    requires AllEncodable(values) && AllInSize(values) && At(data, at, EncodeAll(values)) && at <= |data|
    ensures DecodeMany(data, at, |values|) == Some(Items(values, at + |EncodeAll(values)|))
    decreases values
  {
    if values != [] {
      hide At, Decode, Encode;
      var first, rest := Encode(values[0]), EncodeAll(values[1..]);
      assert values == [values[0]] + values[1..];
      AtSplit(data, at, first, rest);
      DecodeEncode(values[0], data, at);
      DecodeEncodeAll(values[1..], data, at + |first|);
    }
  }

  /** The skipper passes over an encoded value exactly when none of its arrays and maps has more than 65535
      entries. */
  lemma SkipEncoded(v: Value, data: seq<byte>, at: nat)
    requires Encodable(v) && InSize(v) && At(data, at, Encode(v))
    ensures at <= |data|
    ensures Extent(data, at) == if Narrow(v) then Some(at + |Encode(v)|) else None
  {
    DecodeEncode(v, data, at);
  }
}
