/** MD5 of a whole message, after sections 3.1 to 3.5 of RFC 1321. */
module Md5Spec {
  import opened ByteFields

  const WORD := 0x1_0000_0000

  /** A 32-bit word; sums are taken modulo 2^32, and bits by way of `bv32`. */
  type word = n: int | 0 <= n < WORD
  type bits = bv32

  datatype Registers = Registers(a: word, b: word, c: word, d: word)

  const START := Registers(0x67452301, 0xefcdab89, 0x98badcfe, 0x10325476)

  /** The table of section 3.4: the integer parts of 4294967296 times abs(sin(i)), i from 1 to 64. */
  const SINES: seq<word> := [
    0xd76aa478, 0xe8c7b756, 0x242070db, 0xc1bdceee, 0xf57c0faf, 0x4787c62a, 0xa8304613, 0xfd469501,
    0x698098d8, 0x8b44f7af, 0xffff5bb1, 0x895cd7be, 0x6b901122, 0xfd987193, 0xa679438e, 0x49b40821,
    0xf61e2562, 0xc040b340, 0x265e5a51, 0xe9b6c7aa, 0xd62f105d, 0x02441453, 0xd8a1e681, 0xe7d3fbc8,
    0x21e1cde6, 0xc33707d6, 0xf4d50d87, 0x455a14ed, 0xa9e3e905, 0xfcefa3f8, 0x676f02d9, 0x8d2a4c8a,
    0xfffa3942, 0x8771f681, 0x6d9d6122, 0xfde5380c, 0xa4beea44, 0x4bdecfa9, 0xf6bb4b60, 0xbebfbc70,
    0x289b7ec6, 0xeaa127fa, 0xd4ef3085, 0x04881d05, 0xd9d4d039, 0xe6db99e5, 0x1fa27cf8, 0xc4ac5665,
    0xf4292244, 0x432aff97, 0xab9423a7, 0xfc93a039, 0x655b59c3, 0x8f0ccc92, 0xffeff47d, 0x85845dd1,
    0x6fa87e4f, 0xfe2ce6e0, 0xa3014314, 0x4e0811a1, 0xf7537e82, 0xbd3af235, 0x2ad7d2bb, 0xeb86d391]

  function F(x: bits, y: bits, z: bits): bits { (x & y) | (!x & z) }
  function G(x: bits, y: bits, z: bits): bits { (x & z) | (y & !z) }
  function H(x: bits, y: bits, z: bits): bits { x ^ y ^ z }
  function I(x: bits, y: bits, z: bits): bits { y ^ (x | !z) }

  function Value(b: bits): word { b as word }

  /** The auxiliary function of step `i`, counted from 0. */
  function Auxiliary(i: nat, x: word, y: word, z: word): word {
    var (x, y, z) := (x as bits, y as bits, z as bits);
    Value(if i < 16 then F(x, y, z) else if i < 32 then G(x, y, z) else if i < 48 then H(x, y, z) else I(x, y, z))
  }

  /** The message word that step `i` uses. */
  function WordIndex(i: nat): (k: nat)
    ensures k < 16
  {
    (if i < 16 then i else if i < 32 then 5 * i + 1 else if i < 48 then 3 * i + 5 else 7 * i) % 16
  }

  function Rotation(i: nat): (s: nat)
    ensures 4 <= s <= 23
  {
    if i < 16 then [7, 12, 17, 22][i % 4]
    else if i < 32 then [5, 9, 14, 20][i % 4]
    else if i < 48 then [4, 11, 16, 23][i % 4]
    else [6, 10, 15, 21][i % 4]
  }

  /** Addition of words, modulo 2^32. */
  function Add(a: word, b: word): word { (a + b) % WORD }

  function RotateBits(b: bits, s: nat): bits
    requires s < 32
  {
    b.RotateLeft(s)
  }

  function RotateLeft(a: word, s: nat): word
    requires s < 32
  {
    Value(RotateBits(a as bits, s))
  }

  /** `b + ((a + f + x + t) <<< s)`. */
  function Mix(a: word, b: word, f: word, x: word, t: word, s: nat): word
    requires s < 32
  {
    Add(b, RotateLeft(Add(Add(Add(a, f), x), t), s))
  }

  /** One operation `a = b + ((a + f(b,c,d) + X[k] + T[i]) <<< s)`; the registers then change roles. */
  function Operation(r: Registers, words: seq<word>, i: nat): Registers
    requires |words| == 16 && i < 64
  {
    Registers(r.d, Mix(r.a, r.b, Auxiliary(i, r.b, r.c, r.d), words[WordIndex(i)], SINES[i], Rotation(i)), r.b, r.c)
  }

  function Operations(r: Registers, words: seq<word>, n: nat): Registers
    requires |words| == 16 && n <= 64
  {
    if n == 0 then r else Operation(Operations(r, words, n - 1), words, n - 1)
  }

  lemma FourBytes()
    ensures Pow256(4) == WORD
  {
    assert Pow256(1) == 256 && Pow256(2) == 0x1_0000;
  }

  /** A word has its low-order byte first. */
  function WordAt(block: seq<byte>, k: nat): word
    requires |block| == 64 && k < 16
  {
    FourBytes();
    Unpack(Little, block[4 * k..4 * k + 4])
  }

  function Words(block: seq<byte>): (words: seq<word>)
    requires |block| == 64
    ensures |words| == 16
  {
    seq(16, k requires 0 <= k < 16 => WordAt(block, k))
  }

  function Sum(r: Registers, s: Registers): Registers {
    Registers(Add(r.a, s.a), Add(r.b, s.b), Add(r.c, s.c), Add(r.d, s.d))
  }

  function Compress(r: Registers, block: seq<byte>): Registers
    requires |block| == 64
  {
    Sum(r, Operations(r, Words(block), 64))
  }

  /** All whole blocks of `bytes`, in order. */
  function Process(r: Registers, bytes: seq<byte>): Registers
    decreases |bytes|
  {
    if |bytes| < 64 then r else Process(Compress(r, bytes[..64]), bytes[64..])
  }

  lemma {:induction false} ProcessAppend(r: Registers, a: seq<byte>, b: seq<byte>)
    requires |a| % 64 == 0
    ensures Process(r, a + b) == Process(Process(r, a), b)
    decreases |a|
  {
    hide Compress;
    if |a| == 0 {
      assert a + b == b;
    } else {
      assert (a + b)[..64] == a[..64] && (a + b)[64..] == a[64..] + b;
      ProcessAppend(Compress(r, a[..64]), a[64..], b);
    }
  }

  /** Section 3.1: a one bit, then zeros up to 8 bytes short of a whole block. */
  function Zeros(length: nat): (n: nat)
    ensures n < 64 && (length + 1 + n + 8) % 64 == 0
  {
    (119 - length % 64) % 64
  }

  /** Section 3.2: the length in bits, low-order 64 bits, low-order byte first. */
  function Padding(length: nat): (bytes: seq<byte>)
    ensures (length + |bytes|) % 64 == 0
  {
    [0x80] + Fill(0, Zeros(length)) + Pack(Little, 8, 8 * length)
  }

  /** Section 3.5. */
  function Output(r: Registers): (bytes: seq<byte>)
    ensures |bytes| == 16
  {
    Pack(Little, 4, r.a) + Pack(Little, 4, r.b) + Pack(Little, 4, r.c) + Pack(Little, 4, r.d)
  }

  function Digest(message: seq<byte>): (bytes: seq<byte>)
    ensures |bytes| == 16
  {
    Output(Process(START, message + Padding(|message|)))
  }

  // ----- the constants and formats, in other words

  /** Section 3.3 gives the initial registers as bytes, low-order first. */
  lemma StartBytes()
    ensures Output(START) == [0x01, 0x23, 0x45, 0x67, 0x89, 0xab, 0xcd, 0xef,
                              0xfe, 0xdc, 0xba, 0x98, 0x76, 0x54, 0x32, 0x10]
  {
    OutputBytes(0x67, 0x45, 0x23, 0x01);
    OutputBytes(0xef, 0xcd, 0xab, 0x89);
    OutputBytes(0x98, 0xba, 0xdc, 0xfe);
    OutputBytes(0x10, 0x32, 0x54, 0x76);
    hide Pack;
  }

  lemma LowestByte(a: byte, b: byte, c: byte, d: byte)
    ensures Weighed(a, b, c, d) == 256 * Weighed(0, a, b, c) + d >= 0
    ensures Weighed(a, b, c, d) % 256 == d && Weighed(a, b, c, d) / 256 == Weighed(0, a, b, c)
  {
  }

  lemma OutputBytes(a: byte, b: byte, c: byte, d: byte)
    ensures Pack(Little, 4, Weighed(a, b, c, d)) == [d, c, b, a]
  {
    hide Weighed;
    LowestByte(a, b, c, d);
    LowestByte(0, a, b, c);
    LowestByte(0, 0, a, b);
    LowestByte(0, 0, 0, a);
    assert Pack(Little, 1, Weighed(0, 0, 0, a)) == [a] && Pack(Little, 2, Weighed(0, 0, a, b)) == [b, a];
    assert Pack(Little, 3, Weighed(0, a, b, c)) == [c, b, a];
  }

  /** A word of a block is four of its bytes, the first of them the lowest. */
  lemma WordBytes(block: seq<byte>, k: nat)
    requires |block| == 64 && k < 16
    ensures WordAt(block, k) == Weighed(block[4 * k + 3], block[4 * k + 2], block[4 * k + 1], block[4 * k])
  {
    LittleFour(block[4 * k..4 * k + 4]);
  }

  /** The auxiliary functions of section 3.4 by their truth tables, one row of which stands in each bit. */
  lemma TruthTables()
    ensures F(0xF0F0F0F0, 0xCCCCCCCC, 0xAAAAAAAA) == 0xCACACACA
    ensures G(0xF0F0F0F0, 0xCCCCCCCC, 0xAAAAAAAA) == 0xE4E4E4E4
    ensures H(0xF0F0F0F0, 0xCCCCCCCC, 0xAAAAAAAA) == 0x96969696
    ensures I(0xF0F0F0F0, 0xCCCCCCCC, 0xAAAAAAAA) == 0x39393939
  {
  }
}
