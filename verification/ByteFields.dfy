/** Fixed-width integer fields as `struct.pack` writes them, in either byte order. */
module ByteFields {
  import opened Arith

  type byte = n: int | 0 <= n < 256

  datatype Endianness = Little | Big

  function Pow256(width: nat): (p: nat)
    ensures p >= 1
  {
    if width == 0 then 1 else 256 * Pow256(width - 1)
  }

  /** `value` in `width` bytes; a value that does not fit loses its high bytes (`Fits` says when). */
  function Pack(order: Endianness, width: nat, value: nat): (bytes: seq<byte>)
    ensures |bytes| == width
  {
    if width == 0 then [] else
    match order
    case Little => [value % 256] + Pack(order, width - 1, value / 256)
    case Big => Pack(order, width - 1, value / 256) + [value % 256]
  }

  function Unpack(order: Endianness, bytes: seq<byte>): (value: nat)
    ensures value < Pow256(|bytes|)
  {
    if bytes == [] then 0 else
    match order
    case Little => bytes[0] + 256 * Unpack(order, bytes[1..])
    case Big => 256 * Unpack(order, bytes[..|bytes| - 1]) + bytes[|bytes| - 1]
  }

  predicate Fits(width: nat, value: nat) {
    value < Pow256(width)
  }

  lemma {:induction false} UnpackPack(order: Endianness, width: nat, value: nat)
    requires Fits(width, value)
    ensures Unpack(order, Pack(order, width, value)) == value
  {
    if width > 0 {
      var rest := Pack(order, width - 1, value / 256);
      UnpackPack(order, width - 1, value / 256);
      match order {
        case Little => assert Pack(order, width, value)[1..] == rest;
        case Big => assert Pack(order, width, value)[..width] == Pack(order, width, value);
                    assert Pack(order, width, value)[..width - 1] == rest;
      }
    }
  }

  /** Only the low-order bytes of a value matter. */
  lemma {:induction false} PackModulo(order: Endianness, width: nat, value: nat)
    ensures Pack(order, width, value) == Pack(order, width, value % Pow256(width))
  {
    if width > 0 {
      DivModNested(value, Pow256(width - 1));
      PackModulo(order, width - 1, value / 256);
    }
  }

  function Low(width: nat, value: nat): (low: nat)
    ensures low < Pow256(width)
  {
    value % Pow256(width)
  }

  lemma UnpackLow(order: Endianness, width: nat, value: nat)
    ensures Unpack(order, Pack(order, width, value)) == Low(width, value)
  {
    PackModulo(order, width, value);
    UnpackPack(order, width, value % Pow256(width));
  }

  /** `value` without its `a` low-order bytes. */
  function Shifted(value: nat, a: nat): nat {
    DivNat(value, Pow256(a));
    value / Pow256(a)
  }

  lemma DivNat(v: nat, p: nat)
    requires p >= 1
    ensures v / p >= 0
  {
  }

  lemma ShiftedByOne(value: nat, a: nat)
    ensures Shifted(value, a) / 256 == Shifted(value, a + 1)
  {
    var p := Pow256(a);
    var q, r := value / p, value % p;
    assert value == q * p + r && q == q / 256 * 256 + q % 256;
    assert value == q / 256 * (256 * p) + (q % 256 * p + r);
    MulLe(q % 256 + 1, 256, p);
    DivModUnique(value, 256 * p, q / 256, q % 256 * p + r);
  }

  /** `count` copies of `b`, as Python's `b'..' * count` (nothing for a count below zero). */
  function Fill(b: byte, count: int): (bytes: seq<byte>)
    ensures |bytes| == if count < 0 then 0 else count
    ensures forall i :: 0 <= i < |bytes| ==> bytes[i] == b
  {
    seq(if count < 0 then 0 else count, i => b)
  }

  function Flatten(parts: seq<seq<byte>>): seq<byte> {
    if parts == [] then [] else parts[0] + Flatten(parts[1..])
  }

  lemma {:induction false} FlattenAppend(a: seq<seq<byte>>, b: seq<seq<byte>>)
    ensures Flatten(a + b) == Flatten(a) + Flatten(b)
  {
    hide Flatten;
    if a == [] {
      FlattenNone(a);
      assert a + b == b;
    } else {
      var rest := a[1..];
      FlattenAppend(rest, b);
      FlattenCons(a[0], rest + b);
      FlattenCons(a[0], rest);
      assert a == [a[0]] + rest && a + b == [a[0]] + (rest + b);
    }
  }

  lemma FlattenNone(parts: seq<seq<byte>>)
    requires parts == []
    ensures Flatten(parts) == []
  {
  }

  /** The `width` bytes at position `p * width`, or nothing beyond the end. */
  function PartOf(width: nat, bytes: seq<byte>, p: nat): seq<byte> {
    var at := p * width;
    if at + width <= |bytes| then bytes[at..at + width] else []
  }

  /** Parts of equal width: the `i`-th one is found at `i` times the width. */
  lemma {:induction false} FlattenSlice(parts: seq<seq<byte>>, tail: seq<byte>, width: nat, i: nat)
    requires i < |parts| && forall p :: p in parts ==> |p| == width
    ensures PartOf(width, Flatten(parts) + tail, i) == parts[i]
  {
    hide Flatten;
    FlattenLength(parts[..i], width);
    var rest := Flatten(parts[i + 1..]) + tail;
    FlattenSplit(parts, i);
    assert Flatten(parts) + tail == Flatten(parts[..i]) + (parts[i] + rest);
    MiddleSlice(Flatten(parts[..i]), parts[i], rest);
  }

  lemma FlattenSplit(parts: seq<seq<byte>>, i: nat)
    requires i < |parts|
    ensures Flatten(parts) == Flatten(parts[..i]) + (parts[i] + Flatten(parts[i + 1..]))
  {
    hide Flatten;
    var x, rest := parts[i], parts[i + 1..];
    assert parts == parts[..i] + ([x] + rest);
    FlattenAppend(parts[..i], [x] + rest);
    FlattenCons(x, rest);
  }

  lemma FlattenCons(x: seq<byte>, rest: seq<seq<byte>>)
    ensures Flatten([x] + rest) == x + Flatten(rest)
  {
    assert ([x] + rest)[1..] == rest;
  }

  lemma FlattenSnoc(parts: seq<seq<byte>>, k: nat)
    requires k < |parts|
    ensures Flatten(parts[..k + 1]) == Flatten(parts[..k]) + parts[k]
  {
    assert parts[..k + 1] == parts[..k] + [parts[k]];
    FlattenAppend(parts[..k], [parts[k]]);
    FlattenCons(parts[k], []);
  }

  lemma MiddleSlice(a: seq<byte>, b: seq<byte>, c: seq<byte>)
    ensures (a + (b + c))[|a|..|a| + |b|] == b
  {
  }

  lemma {:induction false} FlattenLength(parts: seq<seq<byte>>, width: nat)
    requires forall p :: p in parts ==> |p| == width
    ensures |Flatten(parts)| == |parts| * width
  {
    if parts != [] {
      FlattenLength(parts[1..], width);
      assert parts[0] in parts;
      OneMore(|parts|, width);
    }
  }

  /** Equal filler parts are one long filler. */
  lemma {:induction false} FlattenFill(b: byte, width: nat, count: nat)
    ensures Flatten(seq(count, _ => Fill(b, width))) == Fill(b, count * width)
  {
    var parts := seq(count, _ => Fill(b, width));
    if count > 0 {
      FlattenFill(b, width, count - 1);
      assert parts[1..] == seq(count - 1, _ => Fill(b, width));
      assert count * width == (count - 1) * width + width;
    }
  }

  lemma SliceOfSlice(s: seq<byte>, a: nat, n: nat, b: nat, m: nat)
    requires a + n <= |s| && b + m <= n
    ensures s[a..a + n][b..b + m] == s[a + b..a + b + m]
  {
    var t, u := s[a..a + n][b..b + m], s[a + b..a + b + m];
    assert |t| == |u|;
    forall i | 0 <= i < m ensures t[i] == u[i] {
      assert t[i] == s[a..a + n][b + i];
    }
  }

  /** Outer parts that are each made of `n` inner parts: inner part `k` of outer part `b` is part
      `b * n + k` of the whole. */
  lemma NestedSlice(outer: seq<seq<byte>>, inner: seq<seq<byte>>, width: nat, b: nat, k: nat)
    requires b < |outer| && k < |inner| && outer[b] == Flatten(inner)
    requires forall p :: p in outer ==> |p| == |inner| * width
    requires forall p :: p in inner ==> |p| == width
    ensures PartOf(width, Flatten(outer), b * |inner| + k) == inner[k]
  {
    hide Flatten, PartOf;
    FlattenSlice(outer, [], |inner| * width, b);
    FlattenSlice(inner, [], width, k);
    assert Flatten(outer) + [] == Flatten(outer) && Flatten(inner) + [] == Flatten(inner);
    PartOfPart(Flatten(outer), width, |inner|, b, k);
  }

  lemma PartOfPart(all: seq<byte>, width: nat, n: nat, b: nat, k: nat)
    requires |PartOf(n * width, all, b)| == n * width && k < n
    ensures PartOf(width, PartOf(n * width, all, b), k) == PartOf(width, all, b * n + k)
  {
    hide PartOf;
    NestedOffset(b, n, k, width);
    var base, size, at, pos := b * (n * width), n * width, k * width, (b * n + k) * width;
    if width > 0 {
      LongPart(size, all, b, base);
      PartAt(width, all[base..base + size], k, at);
      PartAt(width, all, b * n + k, pos);
      SameSlice(all, base, size, at, width, pos);
    } else {
      PartAt(0, all, b * n + k, 0);
      PartAt(0, PartOf(size, all, b), k, 0);
    }
  }

  lemma PartAt(width: nat, all: seq<byte>, p: nat, at: nat)
    requires at == p * width && at + width <= |all|
    ensures PartOf(width, all, p) == all[at..at + width]
  {
  }

  lemma LongPart(width: nat, all: seq<byte>, p: nat, at: nat)
    requires at == p * width && |PartOf(width, all, p)| == width > 0
    ensures at + width <= |all| && PartOf(width, all, p) == all[at..at + width]
  {
  }

  lemma SameSlice(all: seq<byte>, base: nat, size: nat, at: nat, width: nat, pos: nat)
    requires base + size <= |all| && at + width <= size && pos == base + at
    ensures all[base..base + size][at..at + width] == all[pos..pos + width]
  {
    SliceOfSlice(all, base, size, at, width);
  }

  lemma NestedOffset(b: nat, n: nat, k: nat, width: nat)
    requires k < n
    ensures (b * n + k) * width == b * (n * width) + k * width
    ensures k * width + width <= n * width
  {
    MulLe(k + 1, n, width);
  }

  /** A name field up to its first NUL. */
  function UpToNul(bytes: seq<byte>): seq<byte> {
    if bytes == [] || bytes[0] == 0 then [] else [bytes[0]] + UpToNul(bytes[1..])
  }

  /** The number with these four bytes, the first of them the highest. */
  function Weighed(a: int, b: int, c: int, d: int): int {
    0x100_0000 * a + 0x1_0000 * b + 0x100 * c + d
  }

  lemma BigFour(bytes: seq<byte>)
    requires |bytes| == 4
    ensures Unpack(Big, bytes) == Weighed(bytes[0], bytes[1], bytes[2], bytes[3])
  {
    assert Unpack(Big, bytes[..1]) == Weighed(0, 0, 0, bytes[0]) && bytes[..2][..1] == bytes[..1];
    assert Unpack(Big, bytes[..2]) == Weighed(0, 0, bytes[0], bytes[1]) && bytes[..3][..2] == bytes[..2];
    assert Unpack(Big, bytes[..3]) == Weighed(0, bytes[0], bytes[1], bytes[2]);
  }

  lemma LittleFour(bytes: seq<byte>)
    requires |bytes| == 4
    ensures Unpack(Little, bytes) == Weighed(bytes[3], bytes[2], bytes[1], bytes[0])
  {
    assert Unpack(Little, bytes[3..]) == Weighed(0, 0, 0, bytes[3]) && bytes[2..][1..] == bytes[3..];
    assert Unpack(Little, bytes[2..]) == Weighed(0, 0, bytes[3], bytes[2]) && bytes[1..][1..] == bytes[2..];
    assert Unpack(Little, bytes[1..]) == Weighed(0, bytes[3], bytes[2], bytes[1]);
  }

  /** Where the bytes of a number are: the lowest first in little-endian order, last in big-endian order. */
  lemma {:induction false} PackedByte(order: Endianness, width: nat, value: nat, i: nat)
    requires i < width
    ensures Pack(order, width, value)[i] == value / Pow256(if order == Little then i else width - 1 - i) % 256
  {
    var place := if order == Little then i else width - 1 - i;
    if place > 0 {
      PackedByte(order, width - 1, value / 256, if order == Little then i - 1 else i);
      DivModNested(value, Pow256(place - 1));
    }
  }
}
