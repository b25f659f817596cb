/** The preamble of the SX1280: the modem takes its length as a mantissa and an exponent. */
module Preamble {
  import opened Arith

  const WORD := 0x1_0000_0000
  const LIMIT := 0xF000

  type uint32 = n: int | 0 <= n < WORD

  /** Symbols that a pair stands for; the modem adds 4 to them. */
  function Symbols(e: nat, m: nat): nat { m * Pow2(e) }

  predicate Representable(e: nat, m: nat) { 1 <= e <= 15 && 1 <= m <= 15 }

  /** `target - 4` in 32 bits, after the clamp. */
  function Wanted(target: uint32): uint32 {
    ((if target >= LIMIT then LIMIT else target) - 4) % WORD
  }

  /** The first pair, exponents before mantissas, that reaches the target. */
  ghost predicate First(e: nat, m: nat, wanted: nat) {
    && Representable(e, m) && Symbols(e, m) >= wanted
    && (forall e' :: 1 <= e' < e ==> Symbols(e', 15) < wanted)
    && (forall m' :: 1 <= m' < m ==> Symbols(e, m') < wanted)
  }

  // ----- powers

  lemma {:induction false} Pow2Split(a: nat, b: nat)
    ensures Pow2(a + b) == Pow2(a) * Pow2(b)
  {
    if a > 0 { Pow2Split(a - 1, b); }
  }

  lemma MoreMantissa(e: nat, m: nat, m': nat)
    requires m <= m'
    ensures Symbols(e, m) <= Symbols(e, m')
  {
    MulLe(m, m', Pow2(e));
  }

  lemma Twelve()
    ensures Pow2(12) == 0x1000 && Pow2(15) == 0x8000
  {
    assert Pow2(3) == 8 && Pow2(6) == 64 && Pow2(9) == 512;
  }

  /** A pair with a larger exponent is also a mantissa, perhaps a large one, of the smaller exponent. */
  lemma SameAtSmallerExponent(e: nat, e': nat, m': nat)
    requires e <= e'
    ensures Symbols(e', m') == Symbols(e, m' * Pow2(e' - e))
  {
    Pow2Split(e' - e, e);
    assert m' * (Pow2(e' - e) * Pow2(e)) == m' * Pow2(e' - e) * Pow2(e);
  }

  /** The first pair has the fewest symbols of all pairs that reach the target. */
  lemma FirstIsLeast(e: nat, m: nat, wanted: nat, e': nat, m': nat)
    requires First(e, m, wanted) && Representable(e', m') && Symbols(e', m') >= wanted
    ensures Symbols(e, m) <= Symbols(e', m')
  {
    hide Symbols;
    if e' < e {
      MoreMantissa(e', m', 15);
    } else {
      var n := m' * Pow2(e' - e);
      SameAtSmallerExponent(e, e', m');
      if n >= m {
        MoreMantissa(e, m, n);
      } else {
        AtLeastOne(m', Pow2(e' - e));
      }
    }
  }

  lemma AtLeastOne(a: nat, b: nat)
    requires a >= 1 && b >= 1
    ensures a * b >= 1
  {
  }

  lemma OneFirst(e: nat, m: nat, e': nat, m': nat, wanted: nat)
    requires First(e, m, wanted) && First(e', m', wanted)
    ensures e == e' && m == m'
  {
    hide Symbols;
    if e < e' { MoreMantissa(e, m, 15); } else if e' < e { MoreMantissa(e', m', 15); }
  }

  /** Aiming at what was reached finds the same pair. */
  lemma FirstStays(e: nat, m: nat, wanted: nat)
    requires First(e, m, wanted)
    ensures First(e, m, Symbols(e, m))
  {
    hide Symbols;
    forall m' | 1 <= m' < m ensures Symbols(e, m') < Symbols(e, m) {
      assert Symbols(e, m') < wanted;
    }
  }

  /** An exponent above 12 is never needed. */
  lemma FirstIsSmall(e: nat, m: nat, wanted: nat)
    requires First(e, m, wanted) && wanted <= LIMIT - 4
    ensures e <= 12 && Symbols(e, m) <= LIMIT
  {
    Twelve();
    assert e > 12 ==> Symbols(12, 15) < wanted;
    FirstIsLeast(e, m, wanted, 12, 15);
  }

  lemma WantedOf(target: uint32)
    ensures target >= 4 ==> Wanted(target) == (if target >= 0xF000 then 0xF000 else target) - 4
    ensures target < 4 ==> Wanted(target) == 0x1_0000_0000 + target - 4
  {
  }

  /** What a length comes back to when it is used as a target. */
  lemma LengthAsTarget(e: nat, m: nat, wanted: nat)
    requires First(e, m, wanted) && wanted <= LIMIT - 4
    ensures Symbols(e, m) + 4 < WORD && First(e, m, Wanted(Symbols(e, m) + 4))
  {
    FirstIsSmall(e, m, wanted);
    FirstStays(e, m, wanted);
    WantedOf(Symbols(e, m) + 4);
    if Symbols(e, m) + 4 >= LIMIT {
      hide Symbols;
      forall m' | 1 <= m' < m ensures Symbols(e, m') < LIMIT - 4 {
        assert Symbols(e, m') < wanted;
      }
      forall e' | 1 <= e' < e ensures Symbols(e', 15) < LIMIT - 4 {
        assert Symbols(e', 15) < wanted;
      }
    }
  }

  // ----- the search

  /** No pair up to `(e, m)`, exponents before mantissas, reaches the target. */
  ghost predicate NoneBefore(e: nat, m: nat, wanted: nat) {
    && (forall e' :: 1 <= e' < e ==> Symbols(e', 15) < wanted)
    && (forall m' :: 1 <= m' < m ==> Symbols(e, m') < wanted)
  }

  /** The two nested loops. Where nothing reaches the target they leave the exponent at 16. */
  method Search(wanted: uint32) returns (e: nat, m: nat, calculated: nat)
    ensures wanted <= LIMIT - 4 ==> First(e, m, wanted) && e <= 12 && calculated == Symbols(e, m)
    ensures wanted > Symbols(15, 15) ==> e == 16 && m == 1 && calculated == Symbols(15, 15)
  {
    hide Symbols;
    e, m, calculated := 1, 1, 0;
    while e <= 15
      invariant 1 <= e <= 16 && m == 1 && NoneBefore(e, 1, wanted)
      invariant e > 1 ==> calculated == Symbols(e - 1, 15) < wanted
    {
      while m <= 15
        invariant 1 <= m <= 16 && NoneBefore(e, m, wanted)
        invariant m > 1 ==> calculated == Symbols(e, m - 1) < wanted
      {
        calculated := Symbols(e, m);
        if calculated >= wanted { break; }
        m := m + 1;
      }
      if calculated >= wanted { break; }
      m := 1;
      e := e + 1;
    }
    if e <= 15 {
      FirstBelowAll(e, m, wanted);
      if wanted <= LIMIT - 4 { FirstIsSmall(e, m, wanted); }
    } else {
      TooFar(wanted);
    }
  }

  lemma FirstBelowAll(e: nat, m: nat, wanted: nat)
    requires First(e, m, wanted)
    ensures wanted <= Symbols(15, 15)
  {
    Twelve();
    MoreMantissa(e, m, 15);
    Pow2Split(15 - e, e);
    MulLe(1, Pow2(15 - e), Pow2(e));
    MulLe(Pow2(e), Pow2(15), 15);
  }

  lemma TooFar(wanted: nat)
    requires NoneBefore(16, 1, wanted)
    ensures wanted > LIMIT - 4
  {
    Twelve();
    assert Symbols(12, 15) < wanted;
  }

  /** `(e << 4) | m` in eight bits: the two halves of the byte, for an exponent that fits its half. */
  function ParameterByte(e: nat, m: nat): (b: nat)
    requires m <= 15
    ensures e <= 15 ==> b / 16 == e && b % 16 == m
  {
    (e * 16 + m) % 256
  }

  class Modem {
    var preambleE: nat
    var preambleM: nat
    var lastTarget: uint32
    var preambleLength: uint32
    var lastByte: nat

    /** The pair and the length belong to the last target. */
    ghost predicate Settled()
      reads this
    {
      && lastTarget >= 4
      && First(preambleE, preambleM, Wanted(lastTarget))
      && preambleLength == Symbols(preambleE, preambleM) + 4
    }

    /** The globals as they are before the first call. */
    constructor (length: uint32)
      ensures preambleM == 0 && preambleE == 0 && lastTarget == 0 && preambleLength == length
    {
      preambleE, preambleM, lastTarget, preambleLength, lastByte := 0, 0, 0, length, 0;
    }

    /** `setPacketParams`, as far as the preamble goes; `lastByte` is the first parameter byte sent. */
    method SetPacketParams(target: uint32)
      requires preambleM <= 15
      modifies this
      ensures old(lastTarget) != target && target >= 4 ==>
        && Settled() && preambleE <= 12 && preambleM <= 15
        && Wanted(lastTarget) == Wanted(target)
        && forall e, m :: Representable(e, m) && Symbols(e, m) >= Wanted(target)
             ==> Symbols(preambleE, preambleM) <= Symbols(e, m)
      ensures old(lastTarget) != target && target < 4 ==>
        preambleE == 16 && preambleM == 1 && preambleLength == Symbols(15, 15) + 4
      ensures old(lastTarget) != target ==> lastTarget == if target >= 0xF000 then 0xF000 else target
      ensures old(lastTarget) == target ==>
        preambleE == old(preambleE) && preambleM == old(preambleM) && preambleLength == old(preambleLength)
        && lastTarget == old(lastTarget)
      ensures old(Settled()) && target == old(preambleLength) ==>
        Settled() && preambleE == old(preambleE) && preambleM == old(preambleM) && preambleLength == old(preambleLength)
      ensures preambleM <= 15 && lastByte == ParameterByte(preambleE, preambleM)
    {
      hide Symbols, First, Wanted, ParameterByte;
      if lastTarget != target {
        ghost var e0, m0 := preambleE, preambleM;
        var clamped: uint32 := if target >= LIMIT then LIMIT else target;
        WantedOf(target);
        Ends();
        var e, m, calculated := Search((clamped - 4) % WORD);
        WantedIs(target);
        WantedIs(clamped);
        if old(Settled()) && target == old(preambleLength) {
          WantedOf(old(lastTarget));
          LengthAsTarget(e0, m0, Wanted(old(lastTarget)));
          OneFirst(e, m, e0, m0, Wanted(target));
        }
        if target >= 4 {
          SearchEnds(e, m, Wanted(target));
        }
        lastTarget := clamped;
        preambleLength := calculated + 4;
        preambleE := e;
        preambleM := m;
      }
      lastByte := ParameterByte(preambleE, preambleM);
    }
  }

  lemma WantedIs(target: uint32)
    ensures Wanted(target) == ((if target >= LIMIT then LIMIT else target) - 4) % WORD
  {
  }

  lemma Ends()
    ensures Symbols(15, 15) == 0x7_8000
  {
    Twelve();
  }

  lemma SearchEnds(e: nat, m: nat, wanted: nat)
    requires First(e, m, wanted) && wanted <= LIMIT - 4
    ensures e <= 12 && m <= 15 && Symbols(e, m) <= LIMIT
    ensures forall e', m' :: Representable(e', m') && Symbols(e', m') >= wanted ==> Symbols(e, m) <= Symbols(e', m')
  {
    hide Symbols;
    FirstIsSmall(e, m, wanted);
    forall e': nat, m': nat | Representable(e', m') && Symbols(e', m') >= wanted
      ensures Symbols(e, m) <= Symbols(e', m')
    {
      FirstIsLeast(e, m, wanted, e', m');
    }
  }

  /** A target below 4 wraps around: nothing reaches it, and the length that it leaves, 0x78004, does not stay
      when it is used as a target again. */
  lemma SmallTargetDrifts(e: nat, m: nat)
    requires First(e, m, Wanted(0x7_8004))
    ensures Symbols(15, 15) + 4 == 0x7_8004
    ensures Symbols(e, m) + 4 == 0xF004
  {
    Ends();
    Twelve();
    forall e' | 1 <= e' < 12 ensures Symbols(e', 15) < LIMIT - 4 {
      Below(e');
    }
    assert First(12, 15, LIMIT - 4);
    OneFirst(e, m, 12, 15, LIMIT - 4);
  }

  lemma Below(e: nat)
    requires e < 12
    ensures Symbols(e, 15) <= Symbols(11, 15) == 0x7800
  {
    assert Pow2(3) == 8 && Pow2(6) == 64 && Pow2(9) == 512 && Pow2(11) == 0x800;
    Pow2Split(11 - e, e);
    MulLe(1, Pow2(11 - e), Pow2(e));
    MulLe(Pow2(e), Pow2(11), 15);
  }
}
