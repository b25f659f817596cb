/** The `pack_*` functions: each writes one value, or one header, into a part of a caller's buffer. */
module MsgPackWriter {
  import opened ByteFields
  import opened MsgPackFormat
  import opened MsgPackEncode

  type int64 = v: int | IsInt64(v)

  /** What an encoder returns: the bytes written, or 0 where they would not fit. */
  function Returned(room: nat, bytes: seq<byte>): nat {
    if |bytes| <= room then |bytes| else 0
  }

  /** `bytes` are at `at`, and nothing outside the `room` bytes from there has changed. */
  ghost predicate PlacedIn(before: seq<byte>, after: seq<byte>, at: nat, room: nat, bytes: seq<byte>) {
    && at + room <= |before| == |after|
    && (|bytes| <= room ==> after[at..at + |bytes|] == bytes)
    && after[..at] == before[..at]
    && after[at + room..] == before[at + room..]
  }

  twostate predicate Placed(buf: array<byte>, at: nat, room: nat, bytes: seq<byte>)
    requires at + room <= buf.Length
    reads buf
  {
    PlacedIn(old(buf[..]), buf[..], at, room, bytes)
  }

  lemma PackDigit(width: nat, k: nat, n: nat)
    requires k < width
    ensures Pack(Big, k + 1, Shifted(n, width - k - 1))
      == Pack(Big, k, Shifted(n, width - k)) + [Shifted(n, width - k - 1) % 256]
  {
    ShiftedByOne(n, width - k - 1);
  }

  lemma PackDigits(width: nat, n: nat)
    ensures Pack(Big, 0, Shifted(n, width)) == []
    ensures Pack(Big, width, Shifted(n, 0)) == Pack(Big, width, n)
  {
  }

  /** A format byte, and a number with its high-order byte first. */
  method Put(buf: array<byte>, at: nat, tag: byte, width: nat, n: nat)
    requires at + 1 + width <= buf.Length
    modifies buf
    ensures buf[at..at + 1 + width] == Field(tag, width, n)
    ensures buf[..at] == old(buf[..at]) && buf[at + 1 + width..] == old(buf[at + 1 + width..])
  {
    hide Pack, Shifted;
    buf[at] := tag;
    PackDigits(width, n);
    var k := 0;
    while k < width
      invariant k <= width
      invariant buf[at] == tag && buf[at + 1..at + 1 + k] == Pack(Big, k, Shifted(n, width - k))
      invariant buf[..at] == old(buf[..at]) && buf[at + 1 + width..] == old(buf[at + 1 + width..])
    {
      PackDigit(width, k, n);
      buf[at + 1 + k] := Shifted(n, width - k - 1) % 256;
      k := k + 1;
    }
    assert buf[at..at + 1 + width] == [buf[at]] + buf[at + 1..at + 1 + width];
  }

  /** `memcpy` of a whole sequence. */
  method Copy(buf: array<byte>, at: nat, bytes: seq<byte>)
    requires at + |bytes| <= buf.Length
    modifies buf
    ensures buf[at..at + |bytes|] == bytes
    ensures buf[..at] == old(buf[..at]) && buf[at + |bytes|..] == old(buf[at + |bytes|..])
  {
    forall i | 0 <= i < |bytes| {
      buf[at + i] := bytes[i];
    }
  }

  method PackUint8(buf: array<byte>, at: nat, room: nat, v: byte) returns (n: nat)
    requires at + room <= buf.Length
    modifies buf
    ensures n == Returned(room, IntBytes(v)) && Placed(buf, at, room, IntBytes(v))
  {
    if room < 1 { return 0; }
    if v <= 0x7F { buf[at] := v; return 1; }
    if room < 2 { return 0; }
    ByteField(v);
    buf[at], buf[at + 1] := 0xCC, v;
    return 2;
  }

  lemma ByteField(v: byte)
    ensures Pack(Big, 1, v) == [v] && Unsigned(v) == v
  {
    assert Pack(Big, 0, v / 256) == [];
  }

  /** `0xE0 | (v & 0x1F)`. */
  function NegativeFixint(v: int): (b: byte)
    requires -32 <= v < 0
    ensures b == 256 + v
  {
    0xE0 + v % 32
  }

  method PackInt(buf: array<byte>, at: nat, room: nat, v: int64) returns (n: nat)
    requires at + room <= buf.Length
    modifies buf
    ensures n == Returned(room, IntBytes(v)) && Placed(buf, at, room, IntBytes(v))
  {
    hide Field, Unsigned;
    var u := Unsigned(v);
    if v >= 0 {
      if v <= 0x7F { if room < 1 { return 0; } buf[at] := v; return 1; }
      if v <= 0xFF { n := PackField(buf, at, room, 0xCC, 1, u); return n; }
      if v <= 0xFFFF { n := PackField(buf, at, room, 0xCD, 2, u); return n; }
      if v <= 0xFFFF_FFFF { n := PackField(buf, at, room, 0xCE, 4, u); return n; }
      n := PackField(buf, at, room, 0xCF, 8, u);
    } else {
      if v >= -32 { if room < 1 { return 0; } buf[at] := NegativeFixint(v); return 1; }
      if v >= -128 { n := PackField(buf, at, room, 0xD0, 1, u); return n; }
      if v >= -32768 { n := PackField(buf, at, room, 0xD1, 2, u); return n; }
      if v >= -0x8000_0000 { n := PackField(buf, at, room, 0xD2, 4, u); return n; }
      n := PackField(buf, at, room, 0xD3, 8, u);
    }
  }

  /** A field, where there is room for it. */
  method PackField(buf: array<byte>, at: nat, room: nat, tag: byte, width: nat, v: nat) returns (n: nat)
    requires at + room <= buf.Length
    modifies buf
    ensures n == Returned(room, Field(tag, width, v)) && Placed(buf, at, room, Field(tag, width, v))
  {
    hide Field;
    if room < 1 + width { return 0; }
    Put(buf, at, tag, width, v);
    n := 1 + width;
    assert buf[at + room..] == buf[at + n..][room - n..];
    assert old(buf[at + room..]) == old(buf[at + 1 + width..])[room - n..];
  }

  method PackBool(buf: array<byte>, at: nat, room: nat, v: bool) returns (n: nat)
    requires at + room <= buf.Length
    modifies buf
    ensures n == Returned(room, Encode(Bool(v))) && Placed(buf, at, room, Encode(Bool(v)))
  {
    if room < 1 { return 0; }
    buf[at] := if v then 0xC3 else 0xC2;
    return 1;
  }

  /** A double, given as its 64 bits. */
  method PackFloat64(buf: array<byte>, at: nat, room: nat, bits: nat) returns (n: nat)
    requires at + room <= buf.Length
    modifies buf
    ensures var bytes := Encode(Float(Pack(Big, 8, bits)));
      n == Returned(room, bytes) && Placed(buf, at, room, bytes)
  {
    hide Pack;
    n := PackField(buf, at, room, 0xCB, 8, bits);
  }

  method PackBinHeader(buf: array<byte>, at: nat, room: nat, size: nat) returns (n: nat)
    requires at + room <= buf.Length
    modifies buf
    ensures n == Returned(room, BinHeader(size)) && Placed(buf, at, room, BinHeader(size))
  {
    hide Field;
    if size <= 255 { n := PackField(buf, at, room, 0xC4, 1, size); return n; }
    if size <= 0xFFFF { n := PackField(buf, at, room, 0xC5, 2, size); return n; }
    n := PackField(buf, at, room, 0xC6, 4, size);
  }

  method PackBin(buf: array<byte>, at: nat, room: nat, data: seq<byte>) returns (n: nat)
    requires at + room <= buf.Length
    modifies buf
    ensures n == Returned(room, Encode(Bin(data))) && Placed(buf, at, room, Encode(Bin(data)))
  {
    hide BinHeader;
    var pos := PackBinHeader(buf, at, room, |data|);
    if pos == 0 { return 0; }
    if pos + |data| > room { return 0; }
    Append(buf, at, room, BinHeader(|data|), data);
    return pos + |data|;
  }

  /** The content, after a header already in place. */
  method Append(buf: array<byte>, at: nat, room: nat, header: seq<byte>, bytes: seq<byte>)
    requires at + room <= buf.Length && |header| + |bytes| <= room
    requires buf[at..at + |header|] == header
    modifies buf
    ensures Placed(buf, at, room, header + bytes)
  {
    var pos := at + |header|;
    Copy(buf, pos, bytes);
    var end := pos + |bytes|;
    assert buf[at + room..] == buf[end..][at + room - end..];
    assert old(buf[at + room..]) == old(buf[end..])[at + room - end..];
    assert buf[..at] == buf[..pos][..at] && buf[at..pos] == buf[..pos][at..];
    assert buf[at..pos + |bytes|] == buf[at..pos] + buf[pos..pos + |bytes|];
  }

  method PackStr(buf: array<byte>, at: nat, room: nat, s: seq<byte>) returns (n: nat)
    requires at + room <= buf.Length
    modifies buf
    ensures n == Returned(room, Encode(Str(s))) && Placed(buf, at, room, Encode(Str(s)))
  {
    hide Field;
    if |s| <= 31 {
      if 1 + |s| > room { return 0; }
      buf[at] := 0xA0 + |s|;
      n := 1;
    } else if |s| <= 255 {
      if 2 + |s| > room { return 0; }
      n := PackField(buf, at, room, 0xD9, 1, |s|);
    } else if |s| <= 0xFFFF {
      if 3 + |s| > room { return 0; }
      n := PackField(buf, at, room, 0xDA, 2, |s|);
    } else {
      if 5 + |s| > room { return 0; }
      n := PackField(buf, at, room, 0xDB, 4, |s|);
    }
    Append(buf, at, room, StrHeader(|s|), s);
    return n + |s|;
  }

  method PackArrayHeader(buf: array<byte>, at: nat, room: nat, count: nat) returns (n: nat)
    requires at + room <= buf.Length
    modifies buf
    ensures n == Returned(room, CountHeader(false, count)) && Placed(buf, at, room, CountHeader(false, count))
  {
    hide Field;
    if count <= 15 { if room < 1 { return 0; } buf[at] := 0x90 + count; return 1; }
    if count <= 0xFFFF { n := PackField(buf, at, room, 0xDC, 2, count); return n; }
    n := PackField(buf, at, room, 0xDD, 4, count);
  }

  method PackMapHeader(buf: array<byte>, at: nat, room: nat, count: nat) returns (n: nat)
    requires at + room <= buf.Length
    modifies buf
    ensures n == Returned(room, CountHeader(true, count)) && Placed(buf, at, room, CountHeader(true, count))
  {
    hide Field;
    if count <= 15 { if room < 1 { return 0; } buf[at] := 0x80 + count; return 1; }
    if count <= 0xFFFF { n := PackField(buf, at, room, 0xDE, 2, count); return n; }
    n := PackField(buf, at, room, 0xDF, 4, count);
  }
}
