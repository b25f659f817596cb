/** The streaming MD5 of the firmware: a context that takes a message in pieces of any size. */
module Md5 {
  import opened Arith
  import opened ByteFields
  import opened Md5Spec

  // ----- one step, as the macros compute it

  function E(x: bits, y: bits, z: bits): bits { z ^ (x & (y ^ z)) }
  function OptimizedG(x: bits, y: bits, z: bits): bits { y ^ (z & (x ^ y)) }

  lemma Select(x: bv32, y: bv32, z: bv32)
    ensures z ^ (x & (y ^ z)) == (x & y) | (!x & z)
  {
  }

  lemma SelectSwapped(x: bv32, y: bv32, z: bv32)
    ensures y ^ (z & (x ^ y)) == (x & z) | (y & !z)
  {
  }

  /** The optimized functions are those of the RFC. */
  lemma EIsF(x: bits, y: bits, z: bits)
    ensures E(x, y, z) == F(x, y, z)
  {
    Select(x, y, z);
  }

  lemma OptimizedGIsG(x: bits, y: bits, z: bits)
    ensures OptimizedG(x, y, z) == G(x, y, z)
  {
    SelectSwapped(x, y, z);
  }

  function RoundFunction(round: nat, x: word, y: word, z: word): word {
    var (x, y, z) := (x as bits, y as bits, z as bits);
    Value(if round == 0 then E(x, y, z) else if round == 1 then OptimizedG(x, y, z)
          else if round == 2 then H(x, y, z) else I(x, y, z))
  }

  /** `(a << s) | (a >> (32 - s))`. */
  function ShiftBits(b: bits, s: nat): bits
    requires 1 <= s <= 31
  {
    (b << s) | (b >> (32 - s))
  }

  function Rotated(a: word, s: nat): word
    requires 1 <= s <= 31
  {
    Value(ShiftBits(a as bits, s))
  }

  lemma RotatedIsRotateLeft(a: word, s: nat)
    requires s in {4, 5, 6, 7, 9, 10, 11, 12, 14, 15, 16, 17, 20, 21, 22, 23}
    ensures Rotated(a, s) == RotateLeft(a, s)
  {
    hide ShiftBits, RotateBits, Value;
    ShiftsRotate(a as bits, s);
  }

  lemma ShiftsRotate(b: bits, s: nat)
    requires s in {4, 5, 6, 7, 9, 10, 11, 12, 14, 15, 16, 17, 20, 21, 22, 23}
    ensures ShiftBits(b, s) == RotateBits(b, s)
  {
    match s
    case 4 => assert (b << 4) | (b >> 28) == b.RotateLeft(4);
    case 5 => assert (b << 5) | (b >> 27) == b.RotateLeft(5);
    case 6 => assert (b << 6) | (b >> 26) == b.RotateLeft(6);
    case 7 => assert (b << 7) | (b >> 25) == b.RotateLeft(7);
    case 9 => assert (b << 9) | (b >> 23) == b.RotateLeft(9);
    case 10 => assert (b << 10) | (b >> 22) == b.RotateLeft(10);
    case 11 => assert (b << 11) | (b >> 21) == b.RotateLeft(11);
    case 12 => assert (b << 12) | (b >> 20) == b.RotateLeft(12);
    case 14 => assert (b << 14) | (b >> 18) == b.RotateLeft(14);
    case 15 => assert (b << 15) | (b >> 17) == b.RotateLeft(15);
    case 16 => assert (b << 16) | (b >> 16) == b.RotateLeft(16);
    case 17 => assert (b << 17) | (b >> 15) == b.RotateLeft(17);
    case 20 => assert (b << 20) | (b >> 12) == b.RotateLeft(20);
    case 21 => assert (b << 21) | (b >> 11) == b.RotateLeft(21);
    case 22 => assert (b << 22) | (b >> 10) == b.RotateLeft(22);
    case 23 => assert (b << 23) | (b >> 9) == b.RotateLeft(23);
  }

  /** The word indexes of the `STEP` lines, a row for each round. */
  const STEP_WORDS: seq<seq<nat>> := [
    [0, 1, 2, 3, 4, 5, 6, 7, 8, 9, 10, 11, 12, 13, 14, 15],
    [1, 6, 11, 0, 5, 10, 15, 4, 9, 14, 3, 8, 13, 2, 7, 12],
    [5, 8, 11, 14, 1, 4, 7, 10, 13, 0, 3, 6, 9, 12, 15, 2],
    [0, 7, 14, 5, 12, 3, 10, 1, 8, 15, 6, 13, 4, 11, 2, 9]]

  /** Their shifts: the four of each round, over and over. */
  const STEP_SHIFTS: seq<seq<nat>> := [[7, 12, 17, 22], [5, 9, 14, 20], [4, 11, 16, 23], [6, 10, 15, 21]]

  /** Their constants, sixteen for each round. */
  const STEP_CONSTANTS: seq<word> := [
    0xd76aa478, 0xe8c7b756, 0x242070db, 0xc1bdceee, 0xf57c0faf, 0x4787c62a, 0xa8304613, 0xfd469501,
    0x698098d8, 0x8b44f7af, 0xffff5bb1, 0x895cd7be, 0x6b901122, 0xfd987193, 0xa679438e, 0x49b40821,
    0xf61e2562, 0xc040b340, 0x265e5a51, 0xe9b6c7aa, 0xd62f105d, 0x02441453, 0xd8a1e681, 0xe7d3fbc8,
    0x21e1cde6, 0xc33707d6, 0xf4d50d87, 0x455a14ed, 0xa9e3e905, 0xfcefa3f8, 0x676f02d9, 0x8d2a4c8a,
    0xfffa3942, 0x8771f681, 0x6d9d6122, 0xfde5380c, 0xa4beea44, 0x4bdecfa9, 0xf6bb4b60, 0xbebfbc70,
    0x289b7ec6, 0xeaa127fa, 0xd4ef3085, 0x04881d05, 0xd9d4d039, 0xe6db99e5, 0x1fa27cf8, 0xc4ac5665,
    0xf4292244, 0x432aff97, 0xab9423a7, 0xfc93a039, 0x655b59c3, 0x8f0ccc92, 0xffeff47d, 0x85845dd1,
    0x6fa87e4f, 0xfe2ce6e0, 0xa3014314, 0x4e0811a1, 0xf7537e82, 0xbd3af235, 0x2ad7d2bb, 0xeb86d391]

  /** They are the sines of the RFC. */
  lemma StepConstantsAreSines()
    ensures STEP_CONSTANTS == SINES && |SINES| == 64
  {
  }

  lemma StepWordsAreRfc(round: nat, j: nat)
    requires round < 4 && j < 16
    ensures STEP_WORDS[round][j] == WordIndex(16 * round + j)
  {
    match j
    case 0 =>
    case 1 =>
    case 2 =>
    case 3 =>
    case 4 =>
    case 5 =>
    case 6 =>
    case 7 =>
    case 8 =>
    case 9 =>
    case 10 =>
    case 11 =>
    case 12 =>
    case 13 =>
    case 14 =>
    case 15 =>
  }

  lemma StepShiftsAreRfc(i: nat)
    requires i < 64
    ensures STEP_SHIFTS[i / 16][i % 4] == Rotation(i)
    ensures Rotation(i) in {4, 5, 6, 7, 9, 10, 11, 12, 14, 15, 16, 17, 20, 21, 22, 23}
  {
  }

  /** What `STEP` leaves in its first register. */
  function StepMix(a: word, b: word, f: word, x: word, t: word, s: nat): word
    requires 1 <= s <= 31
  {
    Add(Rotated(Add(a, Add(Add(f, x), t)), s), b)
  }

  /** `STEP`, with the next step's roles for the registers. */
  function Step(r: Registers, words: seq<word>, i: nat): Registers
    requires |words| == 16 && i < 64
  {
    StepWordsAreRfc(i / 16, i % 16);
    StepShiftsAreRfc(i);
    var f := RoundFunction(i / 16, r.b, r.c, r.d);
    var x := words[STEP_WORDS[i / 16][i % 16]];
    var t := STEP_CONSTANTS[i];
    Registers(r.d, StepMix(r.a, r.b, f, x, t, STEP_SHIFTS[i / 16][i % 4]), r.b, r.c)
  }

  lemma RoundFunctionIsRfc(i: nat, x: word, y: word, z: word)
    requires i < 64
    ensures RoundFunction(i / 16, x, y, z) == Auxiliary(i, x, y, z)
  {
    hide E, F, G, H, I, OptimizedG, Value;
    EIsF(x as bits, y as bits, z as bits);
    OptimizedGIsG(x as bits, y as bits, z as bits);
  }

  lemma StepMixIsMix(a: word, b: word, f: word, x: word, t: word, s: nat)
    requires s in {4, 5, 6, 7, 9, 10, 11, 12, 14, 15, 16, 17, 20, 21, 22, 23}
    ensures StepMix(a, b, f, x, t, s) == Mix(a, b, f, x, t, s)
  {
    hide Rotated, RotateLeft, Add;
    var sum := Add(Add(Add(a, f), x), t);
    SumInAnyOrder(a, f, x, t);
    RotatedIsRotateLeft(sum, s);
    AddCommutes(b, RotateLeft(sum, s));
  }

  lemma SumInAnyOrder(a: word, f: word, x: word, t: word)
    ensures Add(a, Add(Add(f, x), t)) == Add(Add(Add(a, f), x), t)
  {
    hide Add;
    AddAssociates(a, Add(f, x), t);
    AddAssociates(a, f, x);
  }

  lemma AddAssociates(a: word, b: word, c: word)
    ensures Add(a, Add(b, c)) == Add(Add(a, b), c)
  {
  }

  lemma AddCommutes(a: word, b: word)
    ensures Add(a, b) == Add(b, a)
  {
  }

  lemma StepIsOperation(r: Registers, words: seq<word>, i: nat)
    requires |words| == 16 && i < 64
    ensures Step(r, words, i) == Operation(r, words, i)
  {
    hide Auxiliary, RoundFunction, StepMix, Mix, Rotation, WordIndex, SINES, STEP_CONSTANTS, STEP_WORDS, STEP_SHIFTS;
    StepWordsAreRfc(i / 16, i % 16);
    StepConstantsAreSines();
    StepShiftsAreRfc(i);
    RoundFunctionIsRfc(i, r.b, r.c, r.d);
    StepMixIsMix(r.a, r.b, Auxiliary(i, r.b, r.c, r.d), words[WordIndex(i)], SINES[i], Rotation(i));
  }

  lemma SumCommutes(r: Registers, s: Registers)
    ensures Sum(r, s) == Sum(s, r)
  {
    hide Add;
    AddCommutes(r.a, s.a);
    AddCommutes(r.b, s.b);
    AddCommutes(r.c, s.c);
    AddCommutes(r.d, s.d);
  }

  // ----- the context

  class Context {
    var lo: nat
    var hi: nat
    var registers: Registers
    const buffer: array<byte>
    ghost var message: seq<byte>

    /** The counters hold the message length, the buffer its tail, and the registers the rest. */
    ghost predicate Valid()
      reads this, buffer
    {
      && buffer.Length == 64
      && Counts(|message|)
      && buffer[..|message| % 64] == Tail(message)
      && registers == Process(START, Head(message))
    }

    predicate Counts(length: nat)
      reads `lo, `hi
    {
      lo == length % 0x2000_0000 && hi == length / 0x2000_0000 % 0x1_0000_0000
    }

    constructor Init()
      ensures Valid() && message == [] && fresh(buffer)
      ensures registers == Registers(0x67452301, 0xefcdab89, 0x98badcfe, 0x10325476)
    {
      buffer := new byte[64](_ => 0);
      lo, hi := 0, 0;
      registers := START;
      message := [];
    }

    /** `body`: one or more whole blocks. */
    method Body(data: seq<byte>)
      requires |data| > 0 && |data| % 64 == 0
      modifies `registers
      ensures registers == Process(old(registers), data)
    {
      hide Compress, Process;
      var at := 0;
      assert data[0..] == data;
      while at < |data|
        invariant 0 <= at <= |data| && at % 64 == 0
        invariant Process(registers, data[at..]) == Process(old(registers), data)
      {
        NextBlock(registers, data, at);
        Block(data[at..at + 64]);
        at := at + 64;
      }
      LastBlock(registers, data[at..]);
    }

    /** The 64 steps of one block, and the sums after them. */
    method Block(block: seq<byte>)
      requires |block| == 64
      modifies `registers
      ensures registers == Compress(old(registers), block)
    {
      hide Operation, Step, Words, Sum;
      var words := Words(block);
      var saved := registers;
      var r := registers;
      for i := 0 to 64
        invariant r == Operations(saved, words, i)
      {
        StepIsOperation(r, words, i);
        r := Step(r, words, i);
      }
      SumCommutes(saved, r);
      registers := Sum(r, saved);
    }

    /** `memcpy` into the buffer. */
    method Fill(at: nat, data: seq<byte>)
      requires at + |data| <= buffer.Length
      modifies buffer
      ensures buffer[..at] == old(buffer[..at])
      ensures buffer[at..at + |data|] == data
      ensures buffer[at + |data|..] == old(buffer[at + |data|..])
    {
      forall i | 0 <= i < |data| {
        buffer[at + i] := data[i];
      }
    }

    method Update(data: seq<byte>)
      requires Valid()
      modifies this, buffer
      ensures Valid() && message == old(message) + data
    {
      hide Process, Counts;
      var used := lo % 64;
      LowBits(|message|);
      Count(|data|, |message|);
      Absorbed(message, data);
      Absorb(used, Tail(message), data);
      message := message + data;
    }

    lemma LowBits(length: nat)
      requires Counts(length)
      ensures lo % 64 == length % 64
    {
    }

    /** The counters, at the start of `MD5Update`. */
    method Count(size: nat, ghost length: nat)
      requires Counts(length)
      modifies `lo, `hi
      ensures Counts(length + size)
    {
      CountersAdd(length, size);
      CarryAdds(length / 0x2000_0000, if (lo + size) % 0x2000_0000 < lo then 1 else 0, size / 0x2000_0000);
      var savedLo := lo;
      lo := (savedLo + size) % 0x2000_0000;
      if lo < savedLo {
        hi := (hi + 1) % 0x1_0000_0000;
      }
      hi := (hi + size / 0x2000_0000) % 0x1_0000_0000;
    }

    /** The part of `MD5Update` after the counters. */
    method Absorb(used: nat, ghost tail: seq<byte>, data: seq<byte>)
      requires buffer.Length == 64 && used == |tail| < 64 && buffer[..used] == tail
      modifies `registers, buffer
      ensures buffer[..|tail + data| % 64] == Tail(tail + data)
      ensures registers == Process(old(registers), Head(tail + data))
    {
      hide Process, Head, Tail, Compress;
      ghost var start := registers;
      var rest := data;
      if used > 0 {
        var free := 64 - used;
        if |rest| < free {
          Fill(used, rest);
          NoBlock(start, tail + data);
          return;
        }
        Fill(used, rest[..free]);
        rest := rest[free..];
        Body(buffer[..]);
        FirstBlock(start, tail, data, buffer[..]);
      } else {
        assert tail + data == rest;
      }
      if |rest| >= 64 {
        var whole := |rest| - |rest| % 64;
        HeadAndTail(rest);
        Body(rest[..whole]);
        Fill(0, rest[whole..]);
      } else {
        NoBlock(registers, rest);
        Fill(0, rest);
      }
    }

    /** The length in bits, in the last eight bytes of the buffer. */
    method PutLength(ghost length: nat)
      requires buffer.Length == 64 && Counts(length)
      modifies `lo, buffer
      ensures buffer[..56] == old(buffer[..56]) && buffer[56..] == Pack(Little, 8, 8 * length)
    {
      lo := lo * 8 % WORD;
      LengthFields(length);
      Fill(56, Pack(Little, 4, lo));
      Fill(60, Pack(Little, 4, hi));
      assert buffer[56..] == buffer[56..60] + buffer[60..];
    }

    /** The digest; the context is wiped. */
    method Final() returns (result: seq<byte>)
      requires Valid()
      modifies this, buffer
      ensures result == Digest(old(message))
      ensures lo == 0 && hi == 0 && registers == Registers(0, 0, 0, 0)
      ensures forall i :: 0 <= i < 64 ==> buffer[i] == 0
    {
      hide Process, Pack, Counts, Digest, Output, Head;
      ghost var start, tail := registers, Tail(message);
      assert |tail| == |message| % 64;
      hide Tail;
      LowBits(|message|);
      var used := lo % 64;
      Fill(used, [0x80]);
      used := used + 1;
      var free := 64 - used;
      if free < 8 {
        Fill(used, ByteFields.Fill(0, free));
        ghost var block := buffer[..];
        assert block == tail + [0x80] + ByteFields.Fill(0, free);
        Body(buffer[..]);
        Fill(0, ByteFields.Fill(0, 56));
        PutLength(|message|);
        assert buffer[..] == buffer[..56] + buffer[56..];
        TwoBlocks(start, message, block, buffer[..]);
      } else {
        Fill(used, ByteFields.Fill(0, free - 8));
        Front(buffer[..], tail + [0x80], ByteFields.Fill(0, free - 8));
        PutLength(|message|);
        assert buffer[..] == buffer[..56] + buffer[56..];
        OneBlock(start, message, buffer[..]);
      }
      Body(buffer[..]);
      result := Output(registers);
      lo, hi, registers := 0, 0, Registers(0, 0, 0, 0);
      Fill(0, ByteFields.Fill(0, 64));
      message := [];
    }
  }

  lemma {:induction false} PackSplit(a: nat, b: nat, value: nat)
    ensures Pack(Little, a + b, value) == Pack(Little, a, value) + Pack(Little, b, Shifted(value, a))
  {
    if a > 0 {
      DivModNested(value, Pow256(a - 1));
      PackSplit(a - 1, b, value / 256);
    }
  }

  /** Eight bytes are four and four. */
  lemma PackHalves(value: nat)
    ensures Pack(Little, 8, value) == Pack(Little, 4, value % WORD) + Pack(Little, 4, value / WORD)
  {
    hide Pack, Pow256;
    FourBytes();
    PackModulo(Little, 4, value);
    PackSplit(4, 4, value);
  }

  lemma LengthFields(length: nat)
    ensures Pack(Little, 8, 8 * length)
         == Pack(Little, 4, length % 0x2000_0000 * 8 % WORD) + Pack(Little, 4, length / 0x2000_0000 % WORD)
  {
    hide Pack;
    PackHalves(8 * length);
    FourBytes();
    PackModulo(Little, 4, length / 0x2000_0000);
  }

  lemma PaddedMessage(r: Registers, message: seq<byte>)
    requires r == Process(START, Head(message))
    ensures Digest(message) == Output(Process(r, Tail(message) + Padding(|message|)))
  {
    hide Process, Padding, Output;
    var padding := Padding(|message|);
    assert message + padding == Head(message) + (Tail(message) + padding);
    ProcessAppend(START, Head(message), Tail(message) + padding);
  }

  lemma OneBlock(r: Registers, message: seq<byte>, block: seq<byte>)
    requires r == Process(START, Head(message)) && |Tail(message)| <= 55
    requires block == Tail(message) + [0x80] + ByteFields.Fill(0, 55 - |Tail(message)|) + Pack(Little, 8, 8 * |message|)
    ensures Digest(message) == Output(Process(r, block))
  {
    hide Process, Output, Pack;
    PaddedMessage(r, message);
    assert block == Tail(message) + Padding(|message|);
  }

  lemma TwoBlocks(r: Registers, message: seq<byte>, first: seq<byte>, second: seq<byte>)
    requires r == Process(START, Head(message)) && |Tail(message)| > 55
    requires first == Tail(message) + [0x80] + ByteFields.Fill(0, 63 - |Tail(message)|)
    requires second == ByteFields.Fill(0, 56) + Pack(Little, 8, 8 * |message|)
    ensures Digest(message) == Output(Process(Process(r, first), second))
  {
    hide Process, Output, Pack;
    PaddedMessage(r, message);
    var k := 63 - |Tail(message)|;
    assert ByteFields.Fill(0, k) + ByteFields.Fill(0, 56) == ByteFields.Fill(0, k + 56);
    assert first + second == Tail(message) + Padding(|message|);
    ProcessAppend(r, first, second);
  }

  lemma Front(bytes: seq<byte>, a: seq<byte>, b: seq<byte>)
    requires |a| + |b| <= |bytes| && bytes[..|a|] == a && bytes[|a|..|a| + |b|] == b
    ensures bytes[..|a| + |b|] == a + b
  {
  }

  lemma NextBlock(r: Registers, data: seq<byte>, at: nat)
    requires at < |data| && at % 64 == 0 && |data| % 64 == 0
    ensures at + 64 <= |data|
    ensures Process(r, data[at..]) == Process(Compress(r, data[at..at + 64]), data[at + 64..])
  {
    hide Compress;
    assert data[at..][..64] == data[at..at + 64] && data[at..][64..] == data[at + 64..];
  }

  lemma LastBlock(r: Registers, bytes: seq<byte>)
    requires bytes == []
    ensures Process(r, bytes) == r
  {
  }

  lemma NoBlock(r: Registers, bytes: seq<byte>)
    requires |bytes| < 64
    ensures Tail(bytes) == bytes && Process(r, Head(bytes)) == r
  {
  }

  /** The whole blocks of a message, and what is left. */
  function Head(message: seq<byte>): (bytes: seq<byte>)
    ensures |bytes| % 64 == 0
  {
    message[..|message| - |message| % 64]
  }

  function Tail(message: seq<byte>): (bytes: seq<byte>)
    ensures |bytes| == |message| % 64
  {
    message[|message| - |message| % 64..]
  }

  lemma HeadAndTail(bytes: seq<byte>)
    ensures var whole := |bytes| - |bytes| % 64; bytes[..whole] == Head(bytes) && bytes[whole..] == Tail(bytes)
  {
  }

  /** New data joins the tail; the head grows by the whole blocks of both. */
  lemma Absorbed(message: seq<byte>, data: seq<byte>)
    ensures Tail(message + data) == Tail(Tail(message) + data)
    ensures |message + data| % 64 == |Tail(message) + data| % 64
    ensures Head(message + data) == Head(message) + Head(Tail(message) + data)
    ensures Process(START, Head(message + data)) == Process(Process(START, Head(message)), Head(Tail(message) + data))
  {
    hide Process;
    var pending := Tail(message) + data;
    assert message + data == Head(message) + pending;
    assert |message + data| % 64 == |pending| % 64;
    ProcessAppend(START, Head(message), Head(pending));
  }

  lemma FirstBlock(r: Registers, tail: seq<byte>, data: seq<byte>, block: seq<byte>)
    requires |block| == 64 && |tail| < 64 && 64 - |tail| <= |data| && block == tail + data[..64 - |tail|]
    ensures var rest := data[64 - |tail|..];
      && |tail + data| % 64 == |rest| % 64
      && Tail(tail + data) == Tail(rest)
      && Process(r, Head(tail + data)) == Process(Process(r, block), Head(rest))
  {
    hide Process;
    var rest := data[64 - |tail|..];
    assert tail + data == block + rest;
    assert Head(block + rest) == block + Head(rest);
    ProcessAppend(r, block, Head(rest));
  }

  /** The 29-bit low counter with its carry counts the bytes. */
  lemma CountersAdd(n: nat, m: nat)
    ensures var lo := (n % 0x2000_0000 + m) % 0x2000_0000;
      && lo == (n + m) % 0x2000_0000
      && (n / 0x2000_0000 + (if lo < n % 0x2000_0000 then 1 else 0) + m / 0x2000_0000) == (n + m) / 0x2000_0000
  {
    var q, sum := 0x2000_0000, n % 0x2000_0000 + m % 0x2000_0000;
    var carry := if sum < q then 0 else 1;
    DivModUnique(n + m, q, n / q + m / q + carry, sum - carry * q);
    DivModUnique(n % q + m, q, m / q + carry, sum - carry * q);
  }

  lemma CarryAdds(n: nat, carry: nat, m: nat)
    ensures ((n % 0x1_0000_0000 + carry) % 0x1_0000_0000 + m) % 0x1_0000_0000 == (n + carry + m) % 0x1_0000_0000
  {
  }

  /** However a message is split, the digest is that of the RFC on the whole message. */
  method HashParts(parts: seq<seq<byte>>) returns (digest: seq<byte>)
    ensures digest == Digest(Flatten(parts))
  {
    var context := new Context.Init();
    assert Flatten(parts[..0]) == [];
    for i := 0 to |parts|
      invariant context.Valid() && context.message == Flatten(parts[..i])
      invariant fresh(context) && fresh(context.buffer)
    {
      FlattenSnoc(parts, i);
      context.Update(parts[i]);
    }
    assert parts[..|parts|] == parts;
    digest := context.Final();
  }
}
