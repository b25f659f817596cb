/** No encoding of a value is shorter than the one the encoders choose. */
module MsgPackShortest {
  import opened ByteFields
  import opened Wrappers
  import opened MsgPackFormat
  import opened MsgPackEncode

  /** A value without the record of which form it was written in. */
  function Plain(v: Value): Value {
    match v
    case Ext(body, _) => Ext(body, false)
    case Array(items, _) => Array(AllPlain(items), false)
    case Map(items, _) => Map(AllPlain(items), false)
    case _ => v
  }

  function AllPlain(values: seq<Value>): (plain: seq<Value>)
    ensures |plain| == |values|
  {
    if values == [] then [] else [Plain(values[0])] + AllPlain(values[1..])
  }

  lemma PlainCons(first: Value, rest: seq<Value>)
    ensures AllPlain([first] + rest) == [Plain(first)] + AllPlain(rest)
  {
    hide Plain;
    assert ([first] + rest)[1..] == rest;
  }

  /** At least as many bytes stand before the contents of a string, bytes, or the items of a container as the
      encoders write there. */
  predicate LongEnough(h: Head, at: nat) {
    match h
    case Malformed => true
    case Whole(Str(text), next) => next - at >= |StrHeader(|text|)| + |text|
    case Whole(Bin(body), next) => next - at >= |BinHeader(|body|)| + |body|
    case Whole(Float(bits), next) => next - at == 1 + |bits|
    case Whole(value, next) => next - at >= 1 && !value.Array? && !value.Map?
    case Open(isMap, count, _, next) => next - at >= |CountHeader(isMap, count)|
  }

  lemma HeadIsLong(data: seq<byte>, at: nat)
    requires at < |data|
    ensures LongEnough(ReadHead(data, at), at)
  {
    if data[at] < 0xC4 { FixIsLong(data, at); }
    else if data[at] < 0xD9 { BinaryIsLong(data, at); }
    else { StringIsLong(data, at); }
    hide *;
  }

  lemma FixIsLong(data: seq<byte>, at: nat)
    requires at < |data| && data[at] < 0xC4
    ensures LongEnough(ReadHead(data, at), at)
  {
    hide Unpack, Pow256;
  }

  lemma BinaryIsLong(data: seq<byte>, at: nat)
    requires at < |data| && 0xC4 <= data[at] < 0xD9
    ensures LongEnough(ReadHead(data, at), at)
  {
    hide Unpack, Pow256, StrHeader, CountHeader, Signed;
    Powers();
  }

  lemma StringIsLong(data: seq<byte>, at: nat)
    requires at < |data| && data[at] >= 0xD9
    ensures LongEnough(ReadHead(data, at), at)
  {
    hide Unpack, Pow256, BinHeader, Signed;
    Powers();
  }

  lemma IntIsLong(data: seq<byte>, at: nat)
    requires at < |data|
    ensures match ReadHead(data, at)
      case Whole(Int(v), next) => IsInt64(v) ==> next - at >= |IntBytes(v)|
      case _ => true
  {
    hide Unpack, Pow256, Field;
    Powers();
  }

  /** Any bytes that decode to a value take at least as many bytes as its encoding. */
  lemma {:induction false} EncodeIsShortest(v: Value, data: seq<byte>, at: nat)
    requires Encodable(v) && at <= |data| && Decode(data, at).Some? && Plain(Decode(data, at).value.value) == Plain(v)
    ensures Decode(data, at).value.next - at >= |Encode(v)|
    decreases v
  {
    hide IntBytes, StrHeader, BinHeader, CountHeader, ReadHead, DecodeMany, EncodeAll, AllEncodable, AllPlain;
    HeadIsLong(data, at);
    IntIsLong(data, at);
    match ReadHead(data, at)
    case Whole(found, _) =>
      assert v == found;
    case Open(isMap, count, wide, next) =>
      EncodeAllIsShortest(v.items, data, next, DecodeMany(data, next, ItemCount(ReadHead(data, at))));
  }

  lemma {:induction false} EncodeAllIsShortest(values: seq<Value>, data: seq<byte>, at: nat, found: Option<Items>)
    requires AllEncodable(values) && at <= |data| && found == DecodeMany(data, at, |values|)
    requires found.Some? && AllPlain(found.value.values) == AllPlain(values)
    ensures found.value.next - at >= |EncodeAll(values)|
    decreases values
  {
    if values != [] {
      hide Decode, Encode, Plain;
      var first := Decode(data, at).value;
      var rest := DecodeMany(data, first.next, |values| - 1);
      PlainCons(first.value, rest.value.values);
      PlainCons(values[0], values[1..]);
      assert values == [values[0]] + values[1..];
      var p, q := [Plain(first.value)] + AllPlain(rest.value.values), [Plain(values[0])] + AllPlain(values[1..]);
      assert p[0] == q[0] && p[1..] == q[1..];
      EncodeIsShortest(values[0], data, at);
      EncodeAllIsShortest(values[1..], data, first.next, rest);
    }
  }
}
