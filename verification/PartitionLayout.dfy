/** The partition table of a flash chip: entries as read from CSV, and where each of them goes. */
module PartitionLayout {
  import opened Arith
  import opened ByteFields
  import opened Wrappers

  const PARTITION_TABLE_SIZE := 0x1000
  const APP_TYPE := 0x00
  const DATA_TYPE := 0x01

  /** The fields of an entry. Names are ASCII. */
  datatype Definition =
    Definition(name: seq<byte>, ptype: int, subtype: int, offset: Option<int>, size: int, encrypted: bool)

  function Alignment(ptype: int): (pad: int)
    ensures pad > 0
  {
    if ptype == APP_TYPE then 0x10000 else 0x1000
  }

  function End(d: Definition): int
    requires d.offset.Some?
  {
    d.offset.value + d.size
  }

  predicate Aligned(at: int, pad: int)
    requires pad > 0
  {
    at % pad == 0
  }

  ghost predicate LeastAligned(at: int, from: int, pad: int)
    requires pad > 0
  {
    Aligned(at, pad) && from <= at && forall other :: Aligned(other, pad) && from <= other ==> at <= other
  }

  /** Where the entry before entry `i` ends; before the first one stands the table itself. */
  function EndBefore(laid: seq<Definition>, first: int, i: nat): int
    requires i <= |laid| && forall d :: d in laid ==> d.offset.Some?
  {
    if i == 0 then first else End(laid[i - 1])
  }

  /** `d` is entry `e` placed after `from`: a given offset must not lie before it, an omitted one is the next
      aligned address, and a negative size names the address to end at. */
  ghost predicate Placed(e: Definition, d: Definition, from: int) {
    && d.offset.Some?
    && d == e.(offset := d.offset, size := d.size)
    && (e.offset.Some? ==> d.offset == e.offset && e.offset.value >= from)
    && (e.offset.None? ==> LeastAligned(d.offset.value, from, Alignment(e.ptype)))
    && (if e.size >= 0 then d.size == e.size else End(d) == -e.size)
  }

  ghost predicate LaidOut(given: seq<Definition>, laid: seq<Definition>, first: int) {
    && |laid| == |given|
    && (forall d :: d in laid ==> d.offset.Some?)
    && forall i :: 0 <= i < |laid| ==> Placed(given[i], laid[i], EndBefore(laid, first, i))
  }

  class PartitionDefinition {
    const name: seq<byte>
    const ptype: int
    const subtype: int
    var offset: Option<int>
    var size: int
    const encrypted: bool

    function Value(): Definition
      reads this
    {
      Definition(name, ptype, subtype, offset, size, encrypted)
    }

    constructor (d: Definition)
      ensures Value() == d
    {
      name, ptype, subtype := d.name, d.ptype, d.subtype;
      offset, size, encrypted := d.offset, d.size, d.encrypted;
    }
  }

  ghost function Values(table: seq<PartitionDefinition>): (values: seq<Definition>)
    reads table
    ensures |values| == |table| && forall i :: 0 <= i < |table| ==> values[i] == table[i].Value()
  {
    seq(|table|, i requires 0 <= i < |table| reads table => table[i].Value())
  }

  /** The address that an omitted offset becomes. */
  function AlignUp(at: int, pad: int): (r: int)
    requires pad > 0
    ensures Aligned(r, pad) && at <= r < at + pad
  {
    NextMultiple(at, pad);
    if at % pad != 0 then at + (pad - at % pad) else at
  }

  lemma NextMultiple(at: int, pad: int)
    requires pad > 0
    ensures (at + (pad - at % pad)) % pad == 0 && 0 <= at % pad < pad
  {
    assert at == at / pad * pad + at % pad;
    assert (at / pad + 1) * pad == at / pad * pad + pad;
    DivModUnique(at + (pad - at % pad), pad, at / pad + 1, 0);
  }

  lemma AlignUpIsLeast(at: int, pad: int)
    requires pad > 0
    ensures LeastAligned(AlignUp(at, pad), at, pad)
  {
    var r := AlignUp(at, pad);
    forall other | Aligned(other, pad) && at <= other ensures r <= other {
      if other < r {
        Multiple(r, pad);
        Multiple(other, pad);
        NoMultipleBetween(r / pad, other / pad, pad);
      }
    }
  }

  lemma Multiple(n: int, pad: int)
    requires pad > 0 && Aligned(n, pad)
    ensures n / pad * pad == n
  {
    assert n == n / pad * pad + n % pad;
  }

  lemma NoMultipleBetween(a: int, b: int, pad: int)
    requires pad > 0 && b * pad < a * pad
    ensures b * pad <= a * pad - pad
  {
    if b < a { MulLe(b + 1, a, pad); } else { MulLe(a, b, pad); }
  }

  /** The second half of `from_csv`: fills in omitted offsets and negative sizes, in place. The failure is the
      place of an entry that would start before the end of the one before it. */
  method FixUp(table: seq<PartitionDefinition>, tableOffset: int) returns (failed: Option<nat>)
    requires forall i, j :: 0 <= i < j < |table| ==> table[i] != table[j]
    modifies table
    ensures var first := tableOffset + PARTITION_TABLE_SIZE;
      match failed
      case None => LaidOut(old(Values(table)), Values(table), first)
      case Some(i) =>
        && i < |table|
        && LaidOut(old(Values(table))[..i], Values(table)[..i], first)
        && old(table[i].offset).Some?
        && old(table[i].offset).value < EndBefore(Values(table)[..i], first, i)
  {
    hide LaidOut, Placed, EndBefore, AlignUp, Alignment;
    ghost var given := Values(table);
    var first := tableOffset + PARTITION_TABLE_SIZE;
    var lastEnd := first;
    ghost var laid: seq<Definition> := [];
    NothingLaidOut(first);
    for i := 0 to |table|
      invariant |laid| == i && forall d :: d in laid ==> d.offset.Some?
      invariant LaidOut(given[..i], laid, first)
      invariant lastEnd == EndBefore(laid, first, i)
      invariant forall k :: 0 <= k < i ==> table[k].Value() == laid[k]
      invariant forall k :: i <= k < |table| ==> table[k].Value() == given[k]
    {
      var e := table[i];
      ghost var from := lastEnd;
      if e.offset.Some? && e.offset.value < lastEnd {
        assert Values(table)[..i] == laid;
        return Some(i);
      }
      if e.offset.None? {
        var pad := Alignment(e.ptype);
        lastEnd := AlignUp(lastEnd, pad);
        e.offset := Some(lastEnd);
      }
      if e.size < 0 {
        e.size := -e.size - e.offset.value;
      }
      lastEnd := e.offset.value + e.size;
      PlacedByCode(given[i], e.Value(), from);
      LaidOutSnoc(given[..i], laid, given[i], e.Value(), first);
      assert given[..i + 1] == given[..i] + [given[i]];
      laid := laid + [e.Value()];
    }
    assert given[..|table|] == given && laid == Values(table);
    return None;
  }

  lemma NothingLaidOut(first: int)
    ensures LaidOut([], [], first) && EndBefore([], first, 0) == first
  {
  }

  lemma PlacedByCode(e: Definition, d: Definition, from: int)
    requires e.offset.Some? ==> e.offset.value >= from
    requires var at := if e.offset.Some? then e.offset.value else AlignUp(from, Alignment(e.ptype));
      d == e.(offset := Some(at), size := if e.size < 0 then -e.size - at else e.size)
    ensures Placed(e, d, from)
  {
    hide AlignUp, LeastAligned;
    AlignUpIsLeast(from, Alignment(e.ptype));
  }

  lemma LaidOutSnoc(given: seq<Definition>, laid: seq<Definition>, e: Definition, d: Definition, first: int)
    requires LaidOut(given, laid, first) && Placed(e, d, EndBefore(laid, first, |laid|))
    ensures LaidOut(given + [e], laid + [d], first)
    ensures EndBefore(laid + [d], first, |laid| + 1) == End(d)
  {
    hide Placed;
    var given', laid' := given + [e], laid + [d];
    PlacedHasOffset(e, d, EndBefore(laid, first, |laid|));
    forall i | 0 <= i < |laid'| ensures Placed(given'[i], laid'[i], EndBefore(laid', first, i)) {
      assert EndBefore(laid', first, i) == EndBefore(laid, first, i);
    }
  }

  lemma PlacedHasOffset(e: Definition, d: Definition, from: int)
    requires Placed(e, d, from)
    ensures d.offset.Some?
  {
  }

  // ----- what a layout is worth

  /** The layout is determined by the given entries. */
  lemma {:induction false} OneLayout(given: seq<Definition>, a: seq<Definition>, b: seq<Definition>, first: int, i: nat)
    requires LaidOut(given, a, first) && LaidOut(given, b, first) && i < |given|
    ensures a[i] == b[i]
  {
    hide Placed;
    if i > 0 { OneLayout(given, a, b, first, i - 1); }
    OnePlace(given[i], a[i], b[i], EndBefore(a, first, i));
  }

  lemma PrefixLaidOut(given: seq<Definition>, laid: seq<Definition>, first: int, n: nat)
    requires LaidOut(given, laid, first) && n <= |given|
    ensures LaidOut(given[..n], laid[..n], first)
  {
    hide Placed;
    forall k | 0 <= k < n ensures Placed(given[..n][k], laid[..n][k], EndBefore(laid[..n], first, k)) {
      assert Placed(given[k], laid[k], EndBefore(laid, first, k));
    }
  }

  lemma OnePlace(e: Definition, a: Definition, b: Definition, from: int)
    requires Placed(e, a, from) && Placed(e, b, from)
    ensures a == b
  {
  }

  /** Where `FixUp` fails there is no layout. */
  lemma FailureIsFinal(given: seq<Definition>, prefix: seq<Definition>, i: nat, laid: seq<Definition>, first: int)
    requires i < |given| && LaidOut(given[..i], prefix, first)
    requires given[i].offset.Some? && given[i].offset.value < EndBefore(prefix, first, i)
    ensures !LaidOut(given, laid, first)
  {
    hide Placed;
    if LaidOut(given, laid, first) {
      PrefixLaidOut(given, laid, first, i);
      if i > 0 { OneLayout(given[..i], prefix, laid[..i], first, i - 1); }
      PlacedAfter(given[i], laid[i], EndBefore(laid, first, i));
    }
  }

  /** In order and apart, after the table. */
  ghost predicate InOrder(laid: seq<Definition>, first: int)
    requires forall d :: d in laid ==> d.offset.Some?
  {
    && (forall i :: 0 <= i < |laid| ==> first <= laid[i].offset.value <= End(laid[i]))
    && (forall i, j :: 0 <= i < j < |laid| ==> End(laid[i]) <= laid[j].offset.value)
  }

  /** Where entry `i` starts, by the entries alone. */
  function StartOf(given: seq<Definition>, first: int, i: nat): int
    requires i < |given|
    decreases i, 1
  {
    if given[i].offset.Some? then given[i].offset.value
    else AlignUp(EndOf(given, first, i), Alignment(given[i].ptype))
  }

  /** Where the first `n` entries end. */
  function EndOf(given: seq<Definition>, first: int, n: nat): int
    requires n <= |given|
    decreases n, 0
  {
    if n == 0 then first
    else if given[n - 1].size < 0 then -given[n - 1].size
    else StartOf(given, first, n - 1) + given[n - 1].size
  }

  /** A layout puts every entry there. */
  lemma {:induction false} LaidAt(given: seq<Definition>, laid: seq<Definition>, first: int, i: nat)
    requires LaidOut(given, laid, first) && i < |given|
    ensures laid[i].offset == Some(StartOf(given, first, i)) && End(laid[i]) == EndOf(given, first, i + 1)
    ensures EndBefore(laid, first, i) == EndOf(given, first, i)
  {
    hide LeastAligned, AlignUp, Aligned;
    if i > 0 { LaidAt(given, laid, first, i - 1); }
    var from := EndOf(given, first, i);
    assert Placed(given[i], laid[i], from);
    AlignUpIsLeast(from, Alignment(given[i].ptype));
    OneLeast(laid[i].offset.value, AlignUp(from, Alignment(given[i].ptype)), from, Alignment(given[i].ptype));
  }

  /** An omitted offset becomes a multiple of 64 KiB for an app, and of 4 KiB otherwise. */
  lemma LaidOnBoundary(given: seq<Definition>, laid: seq<Definition>, first: int, i: nat)
    requires LaidOut(given, laid, first) && i < |given| && given[i].offset.None?
    ensures laid[i].offset.Some? && laid[i].offset.value % (if given[i].ptype == 0 then 0x1_0000 else 0x1000) == 0
    ensures var from := EndOf(given, first, i);
      from <= laid[i].offset.value < from + if given[i].ptype == 0 then 0x1_0000 else 0x1000
  {
    hide AlignUp;
    LaidAt(given, laid, first, i);
  }

  lemma OneLeast(a: int, b: int, from: int, pad: int)
    requires pad > 0
    ensures LeastAligned(a, from, pad) && LeastAligned(b, from, pad) ==> a == b
  {
  }

  /** A layout is in order and free of overlaps exactly when no entry is told to end before its own start. */
  lemma InOrderIff(given: seq<Definition>, laid: seq<Definition>, first: int)
    requires LaidOut(given, laid, first)
    ensures InOrder(laid, first)
      <==> forall i :: 0 <= i < |given| && given[i].size < 0 ==> StartOf(given, first, i) <= -given[i].size
  {
    hide LeastAligned, StartOf, EndOf;
    forall i | 0 <= i < |given|
      ensures Placed(given[i], laid[i], EndBefore(laid, first, i)) && laid[i] in laid
      ensures laid[i].offset.value == StartOf(given, first, i)
    {
      LaidAt(given, laid, first, i);
    }
    if forall i :: 0 <= i < |given| && given[i].size < 0 ==> StartOf(given, first, i) <= -given[i].size {
      forall i | 0 <= i < |laid| ensures EndBefore(laid, first, i) <= laid[i].offset.value <= End(laid[i]) {
        PlacedAfter(given[i], laid[i], EndBefore(laid, first, i));
      }
      Chain(laid, first);
    }
  }

  lemma PlacedAfter(e: Definition, d: Definition, from: int)
    requires Placed(e, d, from)
    ensures d.offset.Some? && from <= d.offset.value
    ensures e.offset.Some? ==> d.offset == e.offset
    ensures e.size >= 0 ==> d.offset.value <= End(d)
  {
  }

  /** Each entry after the one before it: then each after all before it. */
  lemma Chain(laid: seq<Definition>, first: int)
    requires forall d :: d in laid ==> d.offset.Some?
    requires forall i :: 0 <= i < |laid| ==> EndBefore(laid, first, i) <= laid[i].offset.value <= End(laid[i])
    ensures InOrder(laid, first)
  {
    forall i, j | 0 <= i <= j < |laid|
      ensures (i < j ==> End(laid[i]) <= laid[j].offset.value) && first <= laid[i].offset.value
    {
      ChainFrom(laid, first, i, j);
      ChainFrom(laid, first, 0, i);
    }
  }

  lemma {:induction false} ChainFrom(laid: seq<Definition>, first: int, i: nat, j: nat)
    requires forall d :: d in laid ==> d.offset.Some?
    requires forall i :: 0 <= i < |laid| ==> EndBefore(laid, first, i) <= laid[i].offset.value <= End(laid[i])
    requires i <= j < |laid|
    ensures laid[i].offset.value <= laid[j].offset.value
    ensures i < j ==> End(laid[i]) <= laid[j].offset.value
    ensures i == 0 ==> first <= laid[j].offset.value
    decreases j
  {
    if i < j {
      ChainFrom(laid, first, i, j - 1);
      assert EndBefore(laid, first, j) == End(laid[j - 1]);
    }
  }

  /** An entry told to end at 0x4000 is accepted where the next free address is 0x9000; the entry after it
      then may overlap the one before it. */
  lemma BackwardsEntryOverlaps()
    ensures var nvs := Definition([110], DATA_TYPE, 2, Some(0x9000), 0x4000, false);
      var back := Definition([98], DATA_TYPE, 2, None, -0x4000, false);
      var fat := Definition([102], DATA_TYPE, 0x81, Some(0xA000), 0x1000, false);
      exists laid :: LaidOut([nvs, back, fat], laid, 0x9000) && !InOrder(laid, 0x9000)
        && laid[0] == nvs && laid[2] == fat
  {
    var nvs := Definition([110], DATA_TYPE, 2, Some(0x9000), 0x4000, false);
    var back := Definition([98], DATA_TYPE, 2, None, -0x4000, false);
    var fat := Definition([102], DATA_TYPE, 0x81, Some(0xA000), 0x1000, false);
    var placed := back.(offset := Some(0xD000), size := -0x9000);
    AlignUpIsLeast(0xD000, 0x1000);
    var laid := [nvs, placed, fat];
    assert LaidOut([nvs, back, fat], laid, 0x9000);
    assert End(laid[0]) > laid[2].offset.value;
  }
}
