/** The checks on a partition table, and the size it takes up in flash. */
module PartitionVerify {
  import opened Wrappers
  import opened PartitionLayout

  const OTADATA_SUBTYPE := 0x00

  datatype Fault =
    | NoOffset | OffsetUnaligned | SizeUnaligned | SameNames | BelowTable | Overlap | ManyOtadata | OtadataSize

  predicate Offsets(table: seq<Definition>) {
    forall i :: 0 <= i < |table| ==> table[i].offset.Some?
  }

  // ----- sorting by offset

  /** Entry `i` sorts before entry `j`: Python's sort keeps the order of entries with equal offsets. */
  predicate Before(table: seq<Definition>, i: nat, j: nat)
    requires Offsets(table) && i < |table| && j < |table|
  {
    table[i].offset.value < table[j].offset.value || (table[i].offset == table[j].offset && i < j)
  }

  predicate Places(table: seq<Definition>, order: seq<nat>) {
    forall k :: 0 <= k < |order| ==> order[k] < |table|
  }

  function Insert(table: seq<Definition>, order: seq<nat>, n: nat): (r: seq<nat>)
    requires Offsets(table) && n < |table| && Places(table, order)
    ensures Places(table, r)
    ensures forall i :: i in r <==> i == n || i in order
  {
    if order == [] || Before(table, n, order[0]) then [n] + order
    else [order[0]] + Insert(table, order[1..], n)
  }

  /** `sorted(self, key=lambda x: x.offset)`, as places in the table. */
  function SortedPlaces(table: seq<Definition>, n: nat): (order: seq<nat>)
    requires Offsets(table) && n <= |table|
    ensures forall i: nat :: i in order <==> i < n
    ensures InOrder(table, order)
  {
    if n == 0 then [] else
    var rest := SortedPlaces(table, n - 1);
    InsertKeeps(table, rest, n - 1);
    Insert(table, rest, n - 1)
  }

  predicate InOrder(table: seq<Definition>, order: seq<nat>)
    requires Offsets(table)
  {
    && Places(table, order)
    && forall k, l :: 0 <= k < l < |order| ==> Before(table, order[k], order[l])
  }

  lemma {:induction false} InsertKeeps(table: seq<Definition>, order: seq<nat>, n: nat)
    requires Offsets(table) && n < |table| && InOrder(table, order) && n !in order
    ensures InOrder(table, Insert(table, order, n))
  {
    if order != [] && !Before(table, n, order[0]) {
      var rest := order[1..];
      InsertKeeps(table, rest, n);
      var r := Insert(table, rest, n);
      forall l | 0 <= l < |r| ensures Before(table, order[0], r[l]) {
        assert r[l] in r;
        if r[l] in rest {
          var k :| 0 <= k < |rest| && rest[k] == r[l];
          assert order[k + 1] == r[l];
        } else {
          assert order[0] in order;
        }
      }
    }
  }

  // ----- overlaps

  ghost predicate Covers(d: Definition, at: int)
    requires d.offset.Some?
  {
    d.offset.value <= at < End(d)
  }

  /** Ranges without an address in common. */
  ghost predicate Disjoint(p: Definition, q: Definition)
    requires p.offset.Some? && q.offset.Some?
  {
    forall at: int :: !(Covers(p, at) && Covers(q, at))
  }

  ghost predicate AllDisjoint(table: seq<Definition>)
    requires Offsets(table)
  {
    forall i, j :: 0 <= i < j < |table| ==> Disjoint(table[i], table[j])
  }

  predicate AboveTable(table: seq<Definition>, tableOffset: int)
    requires Offsets(table)
  {
    forall i :: 0 <= i < |table| ==> table[i].offset.value >= tableOffset + PARTITION_TABLE_SIZE
  }

  /** What the check of neighbours amounts to. */
  predicate Separate(table: seq<Definition>)
    requires Offsets(table)
  {
    forall i, j :: 0 <= i < |table| && 0 <= j < |table| && Before(table, i, j) ==>
      End(table[i]) <= table[j].offset.value
  }

  /** Separate entries share no address. */
  lemma SeparateIsDisjoint(table: seq<Definition>)
    requires Offsets(table) && Separate(table)
    ensures AllDisjoint(table)
  {
    forall i, j | 0 <= i < j < |table| ensures Disjoint(table[i], table[j]) {
      assert Before(table, i, j) || Before(table, j, i);
    }
  }

  /** The check agrees with disjointness exactly when no empty entry starts inside one that sorts before it. */
  lemma SeparateIff(table: seq<Definition>)
    requires Offsets(table)
    ensures Separate(table) <==>
      && AllDisjoint(table)
      && forall i, j :: 0 <= i < |table| && 0 <= j < |table| && Before(table, i, j) && table[j].size <= 0
           ==> !Covers(table[i], table[j].offset.value)
  {
    if Separate(table) { SeparateIsDisjoint(table); }
    if AllDisjoint(table) {
      forall i, j | 0 <= i < |table| && 0 <= j < |table| && Before(table, i, j) && table[j].size > 0
        ensures !Covers(table[i], table[j].offset.value)
      {
        assert Covers(table[j], table[j].offset.value);
        assert i < j ==> Disjoint(table[i], table[j]);
        assert j < i ==> Disjoint(table[j], table[i]);
      }
    }
  }

  /** Without empty entries the two are the same. */
  lemma DisjointIsSeparate(table: seq<Definition>)
    requires Offsets(table) && AllDisjoint(table)
    requires forall i :: 0 <= i < |table| ==> table[i].size > 0
    ensures Separate(table)
  {
    hide Separate, AllDisjoint, Before, Covers;
    SeparateIff(table);
  }

  /** An empty entry at the start of another one, listed after it, is reported although the two are disjoint. */
  lemma EmptyEntryReported()
    ensures var a := Definition([97], DATA_TYPE, 2, Some(0x9000), 0x1000, false);
      var z := Definition([122], DATA_TYPE, 2, Some(0x9000), 0, false);
      AllDisjoint([a, z]) && !Separate([a, z]) && Separate([z, a])
  {
    var a := Definition([97], DATA_TYPE, 2, Some(0x9000), 0x1000, false);
    var z := Definition([122], DATA_TYPE, 2, Some(0x9000), 0, false);
    assert Before([a, z], 0, 1) && [a, z][0] == a && [a, z][1] == z;
    assert forall at :: !Covers(z, at);
  }

  /** The loop over the sorted entries. */
  method CheckOverlaps(table: seq<Definition>, tableOffset: int) returns (fault: Option<Fault>)
    requires Offsets(table)
    ensures fault.None? <==> AboveTable(table, tableOffset) && Separate(table)
    ensures fault.None? || fault == Some(BelowTable) || fault == Some(Overlap)
    ensures fault == Some(BelowTable) ==> !AboveTable(table, tableOffset)
    ensures fault == Some(Overlap) ==> !Separate(table)
  {
    hide SortedPlaces, AboveTable, Separate, Before;
    var order := SortedPlaces(table, |table|);
    var last: Option<nat> := None;
    for k := 0 to |order|
      invariant last == if k == 0 then None else Some(order[k - 1])
      invariant forall l :: 0 <= l < k ==> table[order[l]].offset.value >= tableOffset + PARTITION_TABLE_SIZE
      invariant forall l :: 0 < l < k ==> End(table[order[l - 1]]) <= table[order[l]].offset.value
    {
      assert order[k] in order;
      var p := table[order[k]];
      if p.offset.value < tableOffset + PARTITION_TABLE_SIZE {
        NotAbove(table, tableOffset, order[k]);
        return Some(BelowTable);
      }
      if last.Some? && p.offset.value < End(table[last.value]) {
        NotSeparate(table, order, k);
        return Some(Overlap);
      }
      last := Some(order[k]);
    }
    Neighbours(table, tableOffset, order);
    return None;
  }

  lemma NotAbove(table: seq<Definition>, tableOffset: int, i: nat)
    requires Offsets(table) && i < |table| && table[i].offset.value < tableOffset + PARTITION_TABLE_SIZE
    ensures !AboveTable(table, tableOffset)
  {
  }

  lemma NotSeparate(table: seq<Definition>, order: seq<nat>, k: nat)
    requires Offsets(table) && InOrder(table, order) && 0 < k < |order|
    requires table[order[k]].offset.value < End(table[order[k - 1]])
    ensures !Separate(table)
  {
    assert Before(table, order[k - 1], order[k]);
  }

  lemma SortedPair(table: seq<Definition>, order: seq<nat>, k: nat, l: nat)
    requires Offsets(table) && InOrder(table, order) && k < |order| && l < |order|
    ensures l <= k ==> !Before(table, order[k], order[l])
  {
    assert l < k ==> Before(table, order[l], order[k]);
  }

  /** Neighbours apart: all apart. */
  lemma Neighbours(table: seq<Definition>, tableOffset: int, order: seq<nat>)
    requires Offsets(table) && InOrder(table, order) && forall i: nat :: i in order <==> i < |table|
    requires forall l :: 0 <= l < |order| ==> table[order[l]].offset.value >= tableOffset + PARTITION_TABLE_SIZE
    requires forall l :: 0 < l < |order| ==> End(table[order[l - 1]]) <= table[order[l]].offset.value
    ensures AboveTable(table, tableOffset) && Separate(table)
  {
    forall i | 0 <= i < |table| ensures table[i].offset.value >= tableOffset + PARTITION_TABLE_SIZE {
      assert i in order;
    }
    forall i, j | 0 <= i < |table| && 0 <= j < |table| && Before(table, i, j)
      ensures End(table[i]) <= table[j].offset.value
    {
      assert i in order && j in order;
      var k :| 0 <= k < |order| && order[k] == i;
      var l :| 0 <= l < |order| && order[l] == j;
      SortedPair(table, order, k, l);
      var next := k + 1;
      assert End(table[order[next - 1]]) <= table[order[next]].offset.value;
      assert k + 1 < l ==> Before(table, order[k + 1], order[l]);
    }
  }

  // ----- all the checks

  function Otadata(table: seq<Definition>): (found: seq<Definition>) {
    if table == [] then [] else
    (if IsOtadata(table[0]) then [table[0]] else []) + Otadata(table[1..])
  }

  predicate IsOtadata(d: Definition) { d.ptype == DATA_TYPE && d.subtype == OTADATA_SUBTYPE }

  predicate OneOtadata(table: seq<Definition>) {
    forall i, j :: 0 <= i < |table| && 0 <= j < |table| && IsOtadata(table[i]) && IsOtadata(table[j]) ==> i == j
  }

  predicate NoOtadata(table: seq<Definition>) {
    forall i :: 0 <= i < |table| ==> !IsOtadata(table[i])
  }

  lemma OneOtadataCons(d: Definition, rest: seq<Definition>)
    ensures NoOtadata([d] + rest) <==> !IsOtadata(d) && NoOtadata(rest)
    ensures OneOtadata([d] + rest) <==> OneOtadata(rest) && (IsOtadata(d) ==> NoOtadata(rest))
  {
    hide IsOtadata;
    var table := [d] + rest;
    assert table[0] == d;
    forall i | 0 <= i < |rest| ensures table[i + 1] == rest[i] {}
    forall i | 0 < i < |table| ensures rest[i - 1] == table[i] {}
  }

  lemma {:induction false} OtadataFound(table: seq<Definition>)
    ensures forall d :: d in Otadata(table) <==> d in table && IsOtadata(d)
    ensures Otadata(table) == [] <==> NoOtadata(table)
    ensures |Otadata(table)| <= 1 <==> OneOtadata(table)
  {
    if table != [] {
      hide OneOtadata, NoOtadata;
      var rest := table[1..];
      assert table == [table[0]] + rest;
      OtadataFound(rest);
      OneOtadataCons(table[0], rest);
    }
  }

  predicate UniqueNames(table: seq<Definition>) {
    forall i, j :: 0 <= i < j < |table| ==> table[i].name != table[j].name
  }

  predicate OffsetsAligned(table: seq<Definition>)
    requires Offsets(table)
  {
    forall i :: 0 <= i < |table| ==> Aligned(table[i].offset.value, Alignment(table[i].ptype))
  }

  predicate AppsAligned(table: seq<Definition>) {
    forall i :: 0 <= i < |table| && table[i].ptype == APP_TYPE ==> Aligned(table[i].size, Alignment(APP_TYPE))
  }

  /** When a fault may be reported. */
  predicate Present(fault: Fault, table: seq<Definition>, tableOffset: int, secure: bool) {
    match fault
    case NoOffset => !Offsets(table)
    case OffsetUnaligned =>
      exists i :: 0 <= i < |table| && table[i].offset.Some?
        && !Aligned(table[i].offset.value, Alignment(table[i].ptype))
    case SizeUnaligned => secure && !AppsAligned(table)
    case SameNames => !UniqueNames(table)
    case BelowTable => Offsets(table) && !AboveTable(table, tableOffset)
    case Overlap => Offsets(table) && !Separate(table)
    case ManyOtadata => !OneOtadata(table)
    case OtadataSize => exists i :: 0 <= i < |table| && IsOtadata(table[i]) && table[i].size != 0x2000
  }

  predicate Acceptable(table: seq<Definition>, tableOffset: int, secure: bool) {
    && Offsets(table) && OffsetsAligned(table) && (secure ==> AppsAligned(table))
    && UniqueNames(table)
    && AboveTable(table, tableOffset) && Separate(table)
    && OneOtadata(table)
    && forall i :: 0 <= i < |table| && IsOtadata(table[i]) ==> table[i].size == 0x2000
  }

  /** The offsets of an acceptable table: apps on 64 KiB, others on 4 KiB, all past the 4 KiB of the table; with
      secure boot the sizes of apps as well. */
  lemma AcceptableOffsets(table: seq<Definition>, tableOffset: int, secure: bool, i: nat)
    requires Acceptable(table, tableOffset, secure) && i < |table|
    ensures table[i].offset.value % (if table[i].ptype == 0 then 0x1_0000 else 0x1000) == 0
    ensures table[i].offset.value >= tableOffset + 0x1000
    ensures secure && table[i].ptype == 0 ==> table[i].size % 0x1_0000 == 0
  {
  }

  /** And its one entry of type 1 and subtype 0, if any, has 8 KiB. */
  lemma AcceptableOtadata(table: seq<Definition>, tableOffset: int, secure: bool, i: nat, j: nat)
    requires Acceptable(table, tableOffset, secure) && i < |table| && j < |table|
    requires table[i].ptype == table[j].ptype == 1 && table[i].subtype == table[j].subtype == 0
    ensures i == j && table[i].size == 0x2000
  {
    assert IsOtadata(table[i]) && IsOtadata(table[j]);
  }

  /** `PartitionDefinition.verify`. */
  method VerifyEntry(d: Definition, secure: bool) returns (fault: Option<Fault>)
    ensures fault.None? <==>
      && d.offset.Some? && Aligned(d.offset.value, Alignment(d.ptype))
      && (secure && d.ptype == APP_TYPE ==> Aligned(d.size, Alignment(APP_TYPE)))
    ensures fault.None? || fault.value in {NoOffset, OffsetUnaligned, SizeUnaligned}
    ensures fault == Some(NoOffset) ==> d.offset.None?
    ensures fault == Some(OffsetUnaligned) ==> d.offset.Some? && !Aligned(d.offset.value, Alignment(d.ptype))
    ensures fault == Some(SizeUnaligned) ==> secure && d.ptype == APP_TYPE && !Aligned(d.size, Alignment(APP_TYPE))
  {
    if d.offset.None? { return Some(NoOffset); }
    var align := Alignment(d.ptype);
    if d.offset.value % align != 0 { return Some(OffsetUnaligned); }
    if d.size % align != 0 && secure && d.ptype == APP_TYPE { return Some(SizeUnaligned); }
    return None;
  }

  /** `PartitionTable.verify`. */
  method Verify(table: seq<Definition>, tableOffset: int, secure: bool) returns (fault: Option<Fault>)
    ensures fault.None? <==> Acceptable(table, tableOffset, secure)
    ensures fault.Some? ==> Present(fault.value, table, tableOffset, secure)
  {
    hide Separate, AboveTable, OneOtadata, Otadata, Aligned, Alignment;
    for i := 0 to |table|
      invariant forall k :: 0 <= k < i ==>
        table[k].offset.Some? && Aligned(table[k].offset.value, Alignment(table[k].ptype))
      invariant forall k :: 0 <= k < i && secure && table[k].ptype == APP_TYPE ==>
        Aligned(table[k].size, Alignment(APP_TYPE))
    {
      fault := VerifyEntry(table[i], secure);
      if fault.Some? { return fault; }
    }
    var duplicates := set i, j | 0 <= i < j < |table| && table[i].name == table[j].name :: table[i].name;
    if duplicates != {} { return Some(SameNames); }
    forall i, j | 0 <= i < j < |table| ensures table[i].name != table[j].name {
      assert table[i].name !in duplicates;
    }
    fault := CheckOverlaps(table, tableOffset);
    if fault.Some? { return fault; }
    var otadata := Otadata(table);
    OtadataFound(table);
    if |otadata| > 1 { return Some(ManyOtadata); }
    if |otadata| == 1 && otadata[0].size != 0x2000 {
      assert otadata[0] in table;
      return Some(OtadataSize);
    }
    forall i | 0 <= i < |table| && IsOtadata(table[i]) ensures table[i].size == 0x2000 {
      assert table[i] in otadata;
    }
    return None;
  }

  // ----- the flash size

  /** The head of `sorted(self, reverse=True)`: of the entries with the greatest offset, the first listed. */
  function Greatest(table: seq<Definition>): (i: nat)
    requires Offsets(table) && table != []
    ensures i < |table|
    ensures forall j :: 0 <= j < |table| ==> table[j].offset.value <= table[i].offset.value
    ensures forall j :: 0 <= j < i ==> table[j].offset.value < table[i].offset.value
  {
    if |table| == 1 then 0 else
    var front := table[..|table| - 1];
    var i := Greatest(front);
    var last := |table| - 1;
    assert forall j :: 0 <= j < last ==> front[j] == table[j];
    if table[last].offset.value > table[i].offset.value then last else i
  }

  function FlashSize(table: seq<Definition>): int
    requires Offsets(table)
  {
    if table == [] then 0 else End(table[Greatest(table)])
  }

  /** `size` is the end of some entry, and no entry ends later. */
  ghost predicate LastEnd(table: seq<Definition>, size: int)
    requires Offsets(table)
  {
    && (exists i :: 0 <= i < |table| && End(table[i]) == size)
    && forall i :: 0 <= i < |table| ==> End(table[i]) <= size
  }

  /** Let `g` be the first entry at the greatest offset of a table that passes the checks. The flash size is where
      the last entry ends exactly when no later entry at that offset has a positive size; or, where `g` ends before
      its own start, when those at its offset end no later and all others leave as much room below it. */
  lemma FlashSizeIff(table: seq<Definition>)
    requires Offsets(table) && Separate(table) && table != []
    ensures var g := Greatest(table);
      LastEnd(table, FlashSize(table)) <==>
        if table[g].size >= 0 then
          forall j :: g < j < |table| && table[j].offset == table[g].offset ==> table[j].size <= 0
        else
          forall j :: 0 <= j < |table| && j != g ==>
            if table[j].offset == table[g].offset then table[j].size <= table[g].size
            else table[g].offset.value - End(table[j]) >= -table[g].size
  {
    hide Separate;
    var g := Greatest(table);
    forall j | 0 <= j < |table| && j != g
      ensures if table[j].offset == table[g].offset then g < j && table[g].size <= 0
        else End(table[j]) <= table[g].offset.value
    {
      BesideGreatest(table, j);
    }
  }

  lemma BesideGreatest(table: seq<Definition>, j: nat)
    requires Offsets(table) && Separate(table) && j < |table| && j != Greatest(table)
    ensures var g := Greatest(table);
      if table[j].offset == table[g].offset then g < j && table[g].size <= 0
      else End(table[j]) <= table[g].offset.value
  {
    var g := Greatest(table);
    assert Before(table, g, j) || Before(table, j, g);
  }

  /** Without empty entries there is no exception. */
  lemma FlashSizeOfNonEmpty(table: seq<Definition>)
    requires Offsets(table) && Separate(table) && table != []
    requires forall i :: 0 <= i < |table| ==> table[i].size > 0
    ensures LastEnd(table, FlashSize(table))
  {
    FlashSizeIff(table);
    var g := Greatest(table);
    forall j | g < j < |table| ensures table[j].offset != table[g].offset {
      assert table[j].offset == table[g].offset ==> Before(table, g, j);
    }
  }

  lemma FlashSizeTooSmall()
    ensures var z := Definition([122], DATA_TYPE, 2, Some(0x9000), 0, false);
      var a := Definition([97], DATA_TYPE, 2, Some(0x9000), 0x1000, false);
      Acceptable([z, a], 0x8000, false) && FlashSize([z, a]) == 0x9000 && End(a) == 0xA000
  {
    var z := Definition([122], DATA_TYPE, 2, Some(0x9000), 0, false);
    var a := Definition([97], DATA_TYPE, 2, Some(0x9000), 0x1000, false);
    assert [z, a][0] == z && [z, a][1] == a;
    assert Greatest([z, a]) == 0;
  }

  /** An accepted table whose last entry is told to end at 0x4000, below its own start: the flash size is there,
      while the entry before it ends at 0xD000. */
  lemma FlashSizeBackwards()
    ensures var nvs := Definition([110], DATA_TYPE, 2, Some(0x9000), 0x4000, false);
      var back := Definition([98], DATA_TYPE, 2, None, -0x4000, false);
      var placed := back.(offset := Some(0xD000), size := -0x9000);
      && LaidOut([nvs, back], [nvs, placed], 0x9000) && Acceptable([nvs, placed], 0x8000, false)
      && FlashSize([nvs, placed]) == 0x4000 && End(nvs) == 0xD000 && !LastEnd([nvs, placed], 0x4000)
  {
    var nvs := Definition([110], DATA_TYPE, 2, Some(0x9000), 0x4000, false);
    var back := Definition([98], DATA_TYPE, 2, None, -0x4000, false);
    var placed := back.(offset := Some(0xD000), size := -0x9000);
    assert LaidOut([nvs, back], [nvs, placed], 0x9000) by { AlignUpIsLeast(0xD000, 0x1000); }
    hide LaidOut;
    assert [nvs, placed][0] == nvs && [nvs, placed][1] == placed;
    assert Greatest([nvs, placed]) == 1;
  }
}
