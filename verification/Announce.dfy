/** The builder of discovery announces: fields are set by tag, and packed as a map. */
module Announce {
  import opened ByteFields
  import opened Wrappers
  import opened MsgPackFormat
  import opened MsgPackEncode
  import opened MsgPackWriter

  const MAX_WIRE_SIZE := 1024
  const STAMP_SIZE := 32

  type bits64 = n: nat | n < INT64 witness 0

  datatype FieldType = StrField | IntField | FloatField | BoolField | BinField

  /** One member for each type; only the one named by `kind` counts. A double is given as its 64 bits. */
  datatype Field = Field(tag: byte, kind: FieldType, s: seq<byte>, i: int64, f: bits64, b: bool, bin: seq<byte>)

  function FieldValue(f: Field): (v: Value)
    ensures Encodable(v)
  {
    match f.kind
    case StrField => Str(f.s)
    case IntField => Int(f.i)
    case FloatField => Float(Pack(Big, 8, f.f))
    case BoolField => Bool(f.b)
    case BinField => Bin(f.bin)
  }

  /** A call of one of the setters. */
  datatype Call = Call(tag: byte, value: Value)

  ghost predicate Sets(calls: seq<Call>, tag: byte) {
    exists k :: 0 <= k < |calls| && calls[k].tag == tag
  }

  /** The first and the last call that set `tag`. */
  ghost predicate First(calls: seq<Call>, tag: byte, k: int) {
    0 <= k < |calls| && calls[k].tag == tag && forall j :: 0 <= j < k ==> calls[j].tag != tag
  }

  ghost predicate Last(calls: seq<Call>, tag: byte, k: int) {
    0 <= k < |calls| && calls[k].tag == tag && forall j :: k < j < |calls| ==> calls[j].tag != tag
  }

  ghost predicate Has(fields: seq<Field>, tag: byte) {
    exists n :: 0 <= n < |fields| && fields[n].tag == tag
  }

  /** The field's value is the one last set for its tag. */
  ghost predicate Holds(calls: seq<Call>, f: Field) {
    exists k :: Last(calls, f.tag, k) && calls[k].value == FieldValue(f)
  }

  /** `fields` has one entry for each tag ever set, in the order in which the tags were first set, and each
      entry has the value last set. */
  ghost predicate Summarises(fields: seq<Field>, calls: seq<Call>) {
    && (forall tag: byte :: Sets(calls, tag) <==> Has(fields, tag))
    && (forall m, n :: 0 <= m < n < |fields| ==> fields[m].tag != fields[n].tag)
    && (forall n :: 0 <= n < |fields| ==> Holds(calls, fields[n]))
    && (forall m, n, j, k :: 0 <= m < n < |fields| && First(calls, fields[m].tag, j) && First(calls, fields[n].tag, k)
         ==> j < k)
  }

  lemma SummariseUpdate(fields: seq<Field>, calls: seq<Call>, n: nat, f: Field)
    requires Summarises(fields, calls) && n < |fields| && f.tag == fields[n].tag
    ensures Summarises(fields[n := f], calls + [Call(f.tag, FieldValue(f))])
  {
    hide FieldValue;
    var call := Call(f.tag, FieldValue(f));
    var fields', calls' := fields[n := f], calls + [call];
    forall tag: byte ensures Sets(calls', tag) <==> Has(fields', tag) {
      SetsMore(calls, call, tag);
      SameTags(fields, n, f, tag);
    }
    forall m | 0 <= m < |fields'| ensures Holds(calls', fields'[m]) {
      if m == n { LastCall(calls, call); } else { EarlierCall(calls, call, fields[m]); }
    }
    forall m, k, j, l | 0 <= m < k < |fields'| && First(calls', fields'[m].tag, j) && First(calls', fields'[k].tag, l)
      ensures j < l
    {
      FirstStays(calls, call, fields[m].tag, j);
      FirstStays(calls, call, fields[k].tag, l);
      assert Has(fields, fields[m].tag) && Has(fields, fields[k].tag);
    }
  }

  lemma SummariseAppend(fields: seq<Field>, calls: seq<Call>, f: Field)
    requires Summarises(fields, calls) && !Has(fields, f.tag)
    ensures Summarises(fields + [f], calls + [Call(f.tag, FieldValue(f))])
  {
    hide FieldValue;
    var call := Call(f.tag, FieldValue(f));
    var fields', calls' := fields + [f], calls + [call];
    forall tag: byte ensures Sets(calls', tag) <==> Has(fields', tag) {
      SetsMore(calls, call, tag);
      MoreTags(fields, f, tag);
    }
    forall m | 0 <= m < |fields'| ensures Holds(calls', fields'[m]) {
      if m == |fields| { LastCall(calls, call); } else { EarlierCall(calls, call, fields[m]); }
    }
    forall m, k, j, l | 0 <= m < k < |fields'| && First(calls', fields'[m].tag, j) && First(calls', fields'[k].tag, l)
      ensures j < l
    {
      assert fields'[m] == fields[m] && Has(fields, fields[m].tag);
      FirstStays(calls, call, fields[m].tag, j);
      if k < |fields| {
        assert Has(fields, fields[k].tag);
        FirstStays(calls, call, fields[k].tag, l);
      } else {
        assert !Sets(calls, f.tag);
        assert l == |calls|;
      }
    }
  }

  lemma SetsMore(calls: seq<Call>, call: Call, tag: byte)
    ensures Sets(calls + [call], tag) <==> Sets(calls, tag) || tag == call.tag
  {
    assert (calls + [call])[|calls|] == call;
    assert forall k :: 0 <= k < |calls| ==> (calls + [call])[k] == calls[k];
  }

  lemma SameTags(fields: seq<Field>, n: nat, f: Field, tag: byte)
    requires n < |fields| && f.tag == fields[n].tag
    ensures Has(fields[n := f], tag) <==> Has(fields, tag)
  {
    assert forall k :: 0 <= k < |fields| ==> fields[n := f][k].tag == fields[k].tag;
  }

  lemma MoreTags(fields: seq<Field>, f: Field, tag: byte)
    ensures Has(fields + [f], tag) <==> Has(fields, tag) || tag == f.tag
  {
    assert (fields + [f])[|fields|] == f;
    assert forall k :: 0 <= k < |fields| ==> (fields + [f])[k] == fields[k];
  }

  lemma LastCall(calls: seq<Call>, call: Call)
    ensures Last(calls + [call], call.tag, |calls|)
  {
  }

  lemma EarlierCall(calls: seq<Call>, call: Call, f: Field)
    requires Holds(calls, f) && f.tag != call.tag
    ensures Holds(calls + [call], f)
  {
    hide FieldValue;
    var k :| Last(calls, f.tag, k) && calls[k].value == FieldValue(f);
    assert Last(calls + [call], f.tag, k);
  }

  lemma FirstStays(calls: seq<Call>, call: Call, tag: byte, k: int)
    requires Sets(calls, tag) && First(calls + [call], tag, k)
    ensures First(calls, tag, k)
  {
    var j :| 0 <= j < |calls| && calls[j].tag == tag;
    assert (calls + [call])[j].tag == tag;
    assert forall i :: 0 <= i < |calls| ==> (calls + [call])[i] == calls[i];
  }

  class Builder {
    var fields: seq<Field>
    ghost var calls: seq<Call>

    ghost predicate Valid()
      reads this
    {
      Summarises(fields, calls)
    }

    constructor ()
      ensures Valid() && calls == []
    {
      fields, calls := [], [];
    }

    /** The place of the field with this tag; a field made for it holds the defaults. */
    method Slot(tag: byte) returns (n: nat)
      modifies `fields
      ensures n < |fields| && fields[n].tag == tag
      ensures fields == old(fields)
        || (fields == old(fields) + [fields[n]] && !Has(old(fields), tag))
    {
      n := 0;
      while n < |fields|
        invariant n <= |fields| && forall m :: 0 <= m < n ==> fields[m].tag != tag
      {
        if fields[n].tag == tag { return n; }
        n := n + 1;
      }
      fields := fields + [Field(tag, StrField, [], 0, 0, false, [])];
    }

    /** What every setter does with the field that it has found. */
    method Store(n: nat, f: Field, ghost before: seq<Field>)
      requires n < |fields| && fields[n].tag == f.tag && Summarises(before, calls)
      requires fields == before || (fields == before + [fields[n]] && !Has(before, f.tag))
      modifies this
      ensures Valid() && calls == old(calls) + [Call(f.tag, FieldValue(f))]
    {
      hide Summarises, FieldValue;
      if fields == before {
        SummariseUpdate(before, calls, n, f);
      } else {
        assert (before + [fields[n]])[n := f] == before + [f];
        SummariseAppend(before, calls, f);
      }
      fields := fields[n := f];
      calls := calls + [Call(f.tag, FieldValue(f))];
    }

    method SetStr(tag: byte, s: seq<byte>)
      requires Valid()
      modifies this
      ensures Valid() && calls == old(calls) + [Call(tag, Str(s))]
    {
      var n := Slot(tag);
      Store(n, fields[n].(kind := StrField, s := s), old(fields));
    }

    method SetInt(tag: byte, v: int64)
      requires Valid()
      modifies this
      ensures Valid() && calls == old(calls) + [Call(tag, Int(v))]
    {
      var n := Slot(tag);
      Store(n, fields[n].(kind := IntField, i := v), old(fields));
    }

    method SetFloat(tag: byte, v: bits64)
      requires Valid()
      modifies this
      ensures Valid() && calls == old(calls) + [Call(tag, Float(Pack(Big, 8, v)))]
    {
      var n := Slot(tag);
      Store(n, fields[n].(kind := FloatField, f := v), old(fields));
    }

    method SetBool(tag: byte, v: bool)
      requires Valid()
      modifies this
      ensures Valid() && calls == old(calls) + [Call(tag, Bool(v))]
    {
      var n := Slot(tag);
      Store(n, fields[n].(kind := BoolField, b := v), old(fields));
    }

    method SetBin(tag: byte, v: seq<byte>)
      requires Valid()
      modifies this
      ensures Valid() && calls == old(calls) + [Call(tag, Bin(v))]
    {
      var n := Slot(tag);
      Store(n, fields[n].(kind := BinField, bin := v), old(fields));
    }

    /** The packed map, or nothing when it does not fit. */
    method SerializeUnstamped() returns (result: seq<byte>)
      ensures result == if |Packed(fields)| <= 1024 then Packed(fields) else []
    {
      hide CountHeader, EntryBytes, Packed, PackedPrefix;
      var buf := new byte[MAX_WIRE_SIZE](_ => 0);
      var n := PackMapHeader(buf, 0, buf.Length, |fields|);
      PrefixNone(fields);
      PrefixFits(fields, 0);
      if n == 0 { return []; }
      var pos := n;
      assert buf[..pos] == buf[0..pos];
      for k := 0 to |fields|
        invariant 0 <= pos <= buf.Length && buf[..pos] == PackedPrefix(fields, k)
      {
        PrefixSnoc(fields, k);
        PrefixFits(fields, k + 1);
        n := PackEntry(buf, pos, buf.Length - pos, fields[k]);
        if n == 0 { return []; }
        assert buf[..pos + n] == buf[..pos] + buf[pos..pos + n];
        pos := pos + n;
      }
      PrefixWhole(fields);
      result := buf[..pos];
    }
  }

  /** One turn of the loop: the tag, then the value. */
  method PackEntry(buf: array<byte>, at: nat, room: nat, f: Field) returns (n: nat)
    requires at + room <= buf.Length
    modifies buf
    ensures n == Returned(room, EntryBytes(f)) && Placed(buf, at, room, EntryBytes(f))
  {
    hide Encode, FieldValue, IntBytes, EntryBytes, Encodable, PlacedIn;
    EntryParts(f);
    ghost var before, a, b := buf[..], IntBytes(f.tag), Encode(FieldValue(f));
    var k := PackUint8(buf, at, room, f.tag);
    ghost var tagged := buf[..];
    if k == 0 {
      NonePlaced(before, tagged, at, room, a, b);
      return 0;
    }
    n := PackContent(buf, at + k, room - k, f);
    TwoPlaced(before, tagged, buf[..], at, room, a, b);
    if n == 0 { return 0; }
    n := k + n;
  }

  /** Without room for the first bytes there is none for all. */
  lemma NonePlaced(before: seq<byte>, after: seq<byte>, at: nat, room: nat, a: seq<byte>, b: seq<byte>)
    requires PlacedIn(before, after, at, room, a) && |a| > room
    ensures PlacedIn(before, after, at, room, a + b)
  {
  }

  /** What is placed after what was placed. */
  lemma TwoPlaced(
    before: seq<byte>, tagged: seq<byte>, after: seq<byte>, at: nat, room: nat, a: seq<byte>, b: seq<byte>)
    requires |a| <= room && PlacedIn(before, tagged, at, room, a)
    requires PlacedIn(tagged, after, at + |a|, room - |a|, b)
    ensures PlacedIn(before, after, at, room, a + b)
  {
    var mid := at + |a|;
    assert after[..at] == after[..mid][..at] && tagged[..at] == tagged[..mid][..at];
    assert after[at..mid] == after[..mid][at..] && tagged[at..mid] == tagged[..mid][at..];
    if |a + b| <= room {
      assert after[at..mid + |b|] == after[at..mid] + after[mid..mid + |b|];
    }
  }

  lemma EntryParts(f: Field)
    ensures EntryBytes(f) == IntBytes(f.tag) + Encode(FieldValue(f))
    ensures |Encode(FieldValue(f))| >= 1
  {
    hide IntBytes;
  }

  /** The announce as a map value. */
  function MapOf(fields: seq<Field>): (v: Value)
    ensures Encodable(v)
  {
    AllEntries(fields);
    Map(Entries(fields), false)
  }

  function Entries(fields: seq<Field>): (items: seq<Value>)
    ensures |items| == 2 * |fields|
  {
    if fields == [] then [] else [Int(fields[0].tag), FieldValue(fields[0])] + Entries(fields[1..])
  }

  lemma {:induction false} AllEntries(fields: seq<Field>)
    ensures AllEncodable(Entries(fields))
  {
    hide FieldValue;
    if fields != [] {
      AllEntries(fields[1..]);
      AllCons(Int(fields[0].tag), FieldValue(fields[0]), Entries(fields[1..]));
    }
  }

  lemma AllCons(a: Value, b: Value, rest: seq<Value>)
    requires Encodable(a) && Encodable(b) && AllEncodable(rest)
    ensures AllEncodable([a, b] + rest)
    ensures EncodeAll([a, b] + rest) == Encode(a) + Encode(b) + EncodeAll(rest)
  {
    hide Encode, Encodable;
    var all := [a, b] + rest;
    assert all[1..] == [b] + rest && all[1..][1..] == rest;
    assert EncodeAll(all) == Encode(a) + (Encode(b) + EncodeAll(rest));
  }

  /** The whole encoding, whether or not it fits. */
  function Packed(fields: seq<Field>): seq<byte> {
    Encode(MapOf(fields))
  }

  function EntryBytes(f: Field): (bytes: seq<byte>)
    ensures |bytes| >= 1
  {
    IntBytes(f.tag) + Encode(FieldValue(f))
  }

  function PackedPrefix(fields: seq<Field>, k: nat): seq<byte>
    requires k <= |fields|
  {
    CountHeader(true, |fields|) + EntriesBytes(fields[..k])
  }

  function EntriesBytes(fields: seq<Field>): seq<byte> {
    if fields == [] then [] else EntriesBytes(fields[..|fields| - 1]) + EntryBytes(fields[|fields| - 1])
  }

  lemma PrefixNone(fields: seq<Field>)
    ensures PackedPrefix(fields, 0) == CountHeader(true, |fields|)
  {
  }

  lemma PrefixSnoc(fields: seq<Field>, k: nat)
    requires k < |fields|
    ensures PackedPrefix(fields, k + 1) == PackedPrefix(fields, k) + EntryBytes(fields[k])
  {
    hide CountHeader, EntryBytes;
    assert fields[..k + 1][..k] == fields[..k];
  }

  lemma {:induction false} EntriesEncode(fields: seq<Field>, k: nat)
    requires k <= |fields|
    ensures AllEncodable(Entries(fields[k..])) && AllEncodable(Entries(fields))
    ensures EntriesBytes(fields[..k]) + EncodeAll(Entries(fields[k..])) == EncodeAll(Entries(fields))
  {
    hide EntryBytes, Encode, FieldValue;
    AllEntries(fields);
    AllEntries(fields[k..]);
    if k == 0 {
      assert fields[0..] == fields;
    } else {
      EntriesEncode(fields, k - 1);
      EntriesCons(fields[k - 1], fields[k..]);
      assert fields[k - 1..] == [fields[k - 1]] + fields[k..];
      assert fields[..k][..k - 1] == fields[..k - 1];
    }
  }

  lemma EntriesCons(f: Field, rest: seq<Field>)
    ensures AllEncodable(Entries(rest)) && AllEncodable(Entries([f] + rest))
    ensures EncodeAll(Entries([f] + rest)) == EntryBytes(f) + EncodeAll(Entries(rest))
  {
    hide FieldValue, EncodeAll, AllEncodable, IntBytes;
    AllEntries(rest);
    AllCons(Int(f.tag), FieldValue(f), Entries(rest));
    assert ([f] + rest)[1..] == rest;
  }

  lemma PrefixFits(fields: seq<Field>, k: nat)
    requires k <= |fields|
    ensures |PackedPrefix(fields, k)| <= |Packed(fields)|
  {
    hide EntriesBytes, Entries, CountHeader, EncodeAll, AllEncodable;
    AllEntries(fields);
    EntriesEncode(fields, k);
  }

  lemma PrefixWhole(fields: seq<Field>)
    ensures PackedPrefix(fields, |fields|) == Packed(fields)
  {
    hide EntriesBytes, Entries, CountHeader, EncodeAll, AllEncodable;
    AllEntries(fields);
    EntriesEncode(fields, |fields|);
    NothingLeft(fields[|fields|..]);
    assert fields[..|fields|] == fields;
  }

  lemma NothingLeft(fields: seq<Field>)
    requires fields == []
    ensures AllEncodable(Entries(fields)) && EncodeAll(Entries(fields)) == []
  {
  }

  /** The switch over the field types. */
  method PackContent(buf: array<byte>, at: nat, room: nat, f: Field) returns (n: nat)
    requires at + room <= buf.Length
    modifies buf
    ensures n == Returned(room, Encode(FieldValue(f))) && Placed(buf, at, room, Encode(FieldValue(f)))
  {
    hide Encode;
    match f.kind
    case StrField => n := PackStr(buf, at, room, f.s);
    case IntField => n := PackInt(buf, at, room, f.i); EncodeInt(f.i);
    case FloatField => n := PackFloat64(buf, at, room, f.f);
    case BoolField => n := PackBool(buf, at, room, f.b);
    case BinField => n := PackBin(buf, at, room, f.bin);
  }

  lemma EncodeInt(v: int64)
    ensures Encode(Int(v)) == IntBytes(v)
  {
  }

  /** The wire frame: flags, the packed map, the stamp. */
  function SerializeWithStamp(unstamped: seq<byte>, stamp: seq<byte>): seq<byte> {
    if |stamp| != STAMP_SIZE then [] else [0x00] + unstamped + stamp
  }

  /** A zero octet, what was packed, and the 32 octets of the stamp; nothing for a stamp of another size. */
  lemma StampedLayout(unstamped: seq<byte>, stamp: seq<byte>)
    ensures var frame, n := SerializeWithStamp(unstamped, stamp), |unstamped|;
      if |stamp| == 32 then
        |frame| == n + 33 && frame[0] == 0 && frame[1..n + 1] == unstamped && frame[n + 1..] == stamp
      else frame == []
  {
  }

  lemma {:induction false} SmallEntries(fields: seq<Field>, room: nat)
    requires AllEncodable(Entries(fields)) && |EncodeAll(Entries(fields))| <= room <= 0xFFFF
    ensures AllInSize(Entries(fields)) && |fields| <= room
  {
    if fields != [] {
      hide EncodeAll;
      var f, rest := fields[0], fields[1..];
      assert fields == [f] + rest;
      EntriesCons(f, rest);
      SmallEntries(rest, room - |EntryBytes(f)|);
      EntryInSize(f);
      var items := Entries(fields);
      assert items[1..][1..] == Entries(rest);
    }
  }

  lemma EntryInSize(f: Field)
    requires |EntryBytes(f)| <= 0xFFFF
    ensures InSize(FieldValue(f))
  {
  }

  lemma SmallMap(fields: seq<Field>)
    requires |Packed(fields)| <= 0xFFFF
    ensures InSize(MapOf(fields))
  {
    hide Entries, EncodeAll, AllEncodable;
    AllEntries(fields);
    SmallEntries(fields, |Packed(fields)|);
  }

  /** A frame whose map fits carries exactly the fields, between the flags and the stamp. */
  lemma FrameReads(fields: seq<Field>, stamp: seq<byte>)
    requires |Packed(fields)| <= MAX_WIRE_SIZE && |stamp| == STAMP_SIZE
    ensures var frame := SerializeWithStamp(Packed(fields), stamp);
      var end := |frame| - STAMP_SIZE;
      && end >= 1
      && Decode(frame, 1) == Some(Item(MapOf(fields), end))
      && frame[end..] == stamp
  {
    var packed := Packed(fields);
    var frame := SerializeWithStamp(packed, stamp);
    hide Entries, EncodeAll, MapOf, InSize, Decode;
    SmallMap(fields);
    assert frame[1..1 + |packed|] == packed;
    DecodeEncode(MapOf(fields), frame, 1);
  }

  /** The bytes that a stamp is computed over decode to the fields, with nothing left over. */
  lemma UnstampedReads(fields: seq<Field>)
    requires |Packed(fields)| <= MAX_WIRE_SIZE
    ensures Decode(Packed(fields), 0) == Some(Item(MapOf(fields), |Packed(fields)|))
  {
    hide Entries, EncodeAll, MapOf, InSize, Decode;
    var packed := Packed(fields);
    SmallMap(fields);
    assert packed[0..|packed|] == packed;
    DecodeEncode(MapOf(fields), packed, 0);
  }

  /** In the decoded map, entry `n` is the tag and the value of field `n`. */
  lemma {:induction false} EntryAt(fields: seq<Field>, n: nat)
    requires n < |fields|
    ensures Entries(fields)[2 * n] == Int(fields[n].tag) && Entries(fields)[2 * n + 1] == FieldValue(fields[n])
  {
    hide FieldValue;
    if n > 0 {
      EntryAt(fields[1..], n - 1);
      assert Entries(fields)[2..] == Entries(fields[1..]);
    }
  }
}
