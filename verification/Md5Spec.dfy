/**
 * One-shot MD5, written from sections 3.1 to 3.5 of RFC 1321: padding, length, the sixteen-word
 * block and the four table-driven rounds.  The streaming code of `Md5` is proved against it.
 */
module Md5Spec {
  import opened Common

  type Byte = bv8
  type Word = bv32

  datatype Regs = Regs(a: Word, b: Word, c: Word, d: Word)

  // ---------- words (section 2) ----------

  function Add(x: Word, y: Word): Word {
    x + y
  }

  function Sub(x: Word, y: Word): Word {
    x - y
  }

  function Rol(x: Word, s: nat): Word
    requires s < 32
  {
    x.RotateLeft(s)
  }

  function Ror(x: Word, s: nat): Word
    requires s < 32
  {
    x.RotateRight(s)
  }

  /** A word is stored low-order byte first. */
  function DecodeWord(b: seq<Byte>): Word
    requires |b| == 4
  {
    (b[3] as Word << 24) | (b[2] as Word << 16) | (b[1] as Word << 8) | b[0] as Word
  }

  function WordByte(w: Word, i: nat): Byte
    requires i < 4
  {
    match i
    case 0 => (w & 0xff) as Byte
    case 1 => ((w >> 8) & 0xff) as Byte
    case 2 => ((w >> 16) & 0xff) as Byte
    case _ => ((w >> 24) & 0xff) as Byte
  }

  function EncodeWord(w: Word): (b: seq<Byte>)
    ensures |b| == 4
  {
    [WordByte(w, 0), WordByte(w, 1), WordByte(w, 2), WordByte(w, 3)]
  }

  lemma EncodeDecodeWord(w: Word)
    ensures DecodeWord(EncodeWord(w)) == w
  {
    assert (((w >> 24) & 0xff) as Byte as Word << 24) | (((w >> 16) & 0xff) as Byte as Word << 16)
           | (((w >> 8) & 0xff) as Byte as Word << 8) | (w & 0xff) as Byte as Word == w;
  }

  // ---------- padding and length (sections 3.1 and 3.2) ----------

  /** How many zero bytes follow the 0x80 byte after a message of `n` bytes. */
  function ZeroCount(n: nat): (k: nat)
    ensures k < 64 && (n + 1 + k) % 64 == 56
  {
    if n % 64 < 56 then 55 - n % 64 else 119 - n % 64
  }

  function Zeros(k: nat): seq<Byte> {
    seq(k, _ => 0)
  }

  function Nibble(n: nat): Byte
    requires n < 16
  {
    match n
    case 0 => 0x0 case 1 => 0x1 case 2 => 0x2 case 3 => 0x3 case 4 => 0x4 case 5 => 0x5 case 6 => 0x6 case 7 => 0x7
    case 8 => 0x8 case 9 => 0x9 case 10 => 0xa case 11 => 0xb case 12 => 0xc case 13 => 0xd case 14 => 0xe
    case _ => 0xf
  }

  /** The byte with the two hexadecimal digits of `v`. */
  function ByteOf(v: nat): Byte
    requires v < 256
  {
    (Nibble(v / 16) << 4) | Nibble(v % 16)
  }

  /** The `n` low-order bytes of `v`, low-order byte first. */
  function LittleEndian(v: nat, n: nat): (b: seq<Byte>)
    ensures |b| == n
  {
    if n == 0 then [] else [ByteOf(v % 256)] + LittleEndian(v / 256, n - 1)
  }

  /** The bit length of a message of `n` bytes, of which only the low-order 64 bits are kept. */
  function BitLength(n: nat): nat {
    8 * n % TWO_TO_THE_64
  }

  function Padding(n: nat): (p: seq<Byte>)
    ensures 1 <= |p| <= 64 && (n + |p|) % 64 == 56
  {
    [0x80] + Zeros(ZeroCount(n))
  }

  function Pad(msg: seq<Byte>): seq<Byte> {
    msg + Padding(|msg|) + LittleEndian(BitLength(|msg|), 8)
  }

  // ---------- the four rounds (section 3.4) ----------

  function F(x: Word, y: Word, z: Word): Word {
    (x & y) | (!x & z)
  }

  function G(x: Word, y: Word, z: Word): Word {
    (x & z) | (y & !z)
  }

  function H(x: Word, y: Word, z: Word): Word {
    x ^ y ^ z
  }

  function I(x: Word, y: Word, z: Word): Word {
    y ^ (x | !z)
  }

  function Aux(i: nat, x: Word, y: Word, z: Word): Word {
    if i < 16 then F(x, y, z) else if i < 32 then G(x, y, z) else if i < 48 then H(x, y, z) else I(x, y, z)
  }

  /** Which word of the block step `i` reads. */
  function Select(i: nat): (k: nat)
    ensures k < 16
  {
    if i < 16 then i else if i < 32 then (5 * i + 1) % 16 else if i < 48 then (3 * i + 5) % 16 else 7 * i % 16
  }

  function Shift(i: nat): (s: nat)
    ensures IsShift(s)
  {
    if i < 16 then (match i % 4 case 0 => 7 case 1 => 12 case 2 => 17 case _ => 22)
    else if i < 32 then (match i % 4 case 0 => 5 case 1 => 9 case 2 => 14 case _ => 20)
    else if i < 48 then (match i % 4 case 0 => 4 case 1 => 11 case 2 => 16 case _ => 23)
    else (match i % 4 case 0 => 6 case 1 => 10 case 2 => 15 case _ => 21)
  }

  predicate IsShift(s: nat) {
    || s == 7 || s == 12 || s == 17 || s == 22
    || s == 5 || s == 9 || s == 14 || s == 20
    || s == 4 || s == 11 || s == 16 || s == 23
    || s == 6 || s == 10 || s == 15 || s == 21
  }

  /** T[4q + 1] to T[4q + 4] of RFC 1321, where T[i] is the integer part of 2^32 times abs(sin(i)). */
  function TableRow(q: nat): (Word, Word, Word, Word) {
    match q
    case 0 => (0xd76aa478, 0xe8c7b756, 0x242070db, 0xc1bdceee)
    case 1 => (0xf57c0faf, 0x4787c62a, 0xa8304613, 0xfd469501)
    case 2 => (0x698098d8, 0x8b44f7af, 0xffff5bb1, 0x895cd7be)
    case 3 => (0x6b901122, 0xfd987193, 0xa679438e, 0x49b40821)
    case 4 => (0xf61e2562, 0xc040b340, 0x265e5a51, 0xe9b6c7aa)
    case 5 => (0xd62f105d, 0x02441453, 0xd8a1e681, 0xe7d3fbc8)
    case 6 => (0x21e1cde6, 0xc33707d6, 0xf4d50d87, 0x455a14ed)
    case 7 => (0xa9e3e905, 0xfcefa3f8, 0x676f02d9, 0x8d2a4c8a)
    case 8 => (0xfffa3942, 0x8771f681, 0x6d9d6122, 0xfde5380c)
    case 9 => (0xa4beea44, 0x4bdecfa9, 0xf6bb4b60, 0xbebfbc70)
    case 10 => (0x289b7ec6, 0xeaa127fa, 0xd4ef3085, 0x04881d05)
    case 11 => (0xd9d4d039, 0xe6db99e5, 0x1fa27cf8, 0xc4ac5665)
    case 12 => (0xf4292244, 0x432aff97, 0xab9423a7, 0xfc93a039)
    case 13 => (0x655b59c3, 0x8f0ccc92, 0xffeff47d, 0x85845dd1)
    case 14 => (0x6fa87e4f, 0xfe2ce6e0, 0xa3014314, 0x4e0811a1)
    case _ => (0xf7537e82, 0xbd3af235, 0x2ad7d2bb, 0xeb86d391)
  }

  function T(i: nat): Word {
    var row := TableRow(i / 4);
    match i % 4 case 0 => row.0 case 1 => row.1 case 2 => row.2 case _ => row.3
  }

  /** a = b + ((a + f + x + t) <<< s) */
  function Turn(a: Word, b: Word, f: Word, x: Word, s: nat, t: Word): Word
    requires s < 32
  {
    Add(b, Rol(Add(Add(Add(a, f), x), t), s))
  }

  /** Step `i`; the registers move one place, so that every step writes the second of the new four. */
  function Step(r: Regs, X: seq<Word>, i: nat): Regs
    requires |X| == 16
  {
    Regs(r.d, Turn(r.a, r.b, Aux(i, r.b, r.c, r.d), X[Select(i)], Shift(i), T(i)), r.b, r.c)
  }

  /** The first `n` steps. */
  function Mix(r: Regs, X: seq<Word>, n: nat): Regs
    requires |X| == 16
  {
    if n == 0 then r else Step(Mix(r, X, n - 1), X, n - 1)
  }

  function BlockWord(block: seq<Byte>, i: nat): Word
    requires |block| == 64 && i < 16
  {
    DecodeWord(block[4 * i..4 * i + 4])
  }

  function Words(block: seq<Byte>): (X: seq<Word>)
    requires |block| == 64
    ensures |X| == 16
  {
    seq(16, i requires 0 <= i < 16 => BlockWord(block, i))
  }

  function Compress(r: Regs, block: seq<Byte>): Regs
    requires |block| == 64
  {
    var m := Mix(r, Words(block), 64);
    Regs(Add(r.a, m.a), Add(r.b, m.b), Add(r.c, m.c), Add(r.d, m.d))
  }

  // ---------- the digest (sections 3.3 and 3.5) ----------

  const INITIAL := Regs(0x67452301, 0xefcdab89, 0x98badcfe, 0x10325476)

  /** The registers after the first `n` blocks of `stream`. */
  function Absorb(stream: seq<Byte>, n: nat): Regs
    requires 64 * n <= |stream|
  {
    if n == 0 then INITIAL else Compress(Absorb(stream, n - 1), stream[64 * (n - 1)..64 * n])
  }

  function FinalRegs(msg: seq<Byte>): Regs {
    Absorb(Pad(msg), |Pad(msg)| / 64)
  }

  function Output(r: Regs): (b: seq<Byte>)
    ensures |b| == 16
  {
    EncodeWord(r.a) + EncodeWord(r.b) + EncodeWord(r.c) + EncodeWord(r.d)
  }

  function Digest(msg: seq<Byte>): (b: seq<Byte>)
    ensures |b| == 16
  {
    Output(FinalRegs(msg))
  }

  // ---------- properties of the specification ----------

  lemma {:induction false} AbsorbPrefix(s: seq<Byte>, more: seq<Byte>, n: nat)
    requires 64 * n <= |s|
    ensures Absorb(s + more, n) == Absorb(s, n)
  {
    hide Compress;
    if n > 0 {
      AbsorbPrefix(s, more, n - 1);
      assert (s + more)[64 * (n - 1)..64 * n] == s[64 * (n - 1)..64 * n];
    }
  }

  /** The bytes between message and length are forced: only one count from 1 to 64 reaches 56 modulo 64. */
  lemma PaddingUnique(n: nat, p: nat)
    requires 1 <= p <= 64
    ensures (n + p) % 64 == 56 <==> p == |Padding(n)|
  {
  }

  lemma NibbleInjective(m: nat, n: nat)
    requires m < 16 && n < 16
    ensures Nibble(n) <= 0xf && (Nibble(m) == Nibble(n) <==> m == n)
  {
  }

  lemma SameNibbles(a: Byte, b: Byte, c: Byte, d: Byte)
    requires a <= 0xf && b <= 0xf && c <= 0xf && d <= 0xf && (a << 4) | b == (c << 4) | d
    ensures a == c && b == d
  {
  }

  lemma ByteOfInjective(v: nat, w: nat)
    requires v < 256 && w < 256 && ByteOf(v) == ByteOf(w)
    ensures v == w
  {
    hide Nibble;
    NibbleInjective(v / 16, w / 16);
    NibbleInjective(w / 16, v / 16);
    NibbleInjective(v % 16, w % 16);
    NibbleInjective(w % 16, v % 16);
    SameNibbles(Nibble(v / 16), Nibble(v % 16), Nibble(w / 16), Nibble(w % 16));
  }

  function Pow256(n: nat): (p: nat)
    ensures p > 0
  {
    if n == 0 then 1 else 256 * Pow256(n - 1)
  }

  /** The padded stream is a whole number of blocks. */
  lemma PadWholeBlocks(msg: seq<Byte>)
    ensures |Pad(msg)| % 64 == 0
  {
    hide LittleEndian, BitLength;
    assert |Pad(msg)| == |msg| + |Padding(|msg|)| + 8;
  }

  lemma {:induction false} LittleEndianInjective(v: nat, w: nat, n: nat)
    requires v < Pow256(n) && w < Pow256(n)
    requires LittleEndian(v, n) == LittleEndian(w, n)
    ensures v == w
  {
    hide ByteOf;
    if n > 0 {
      assert LittleEndian(v, n)[0] == LittleEndian(w, n)[0];
      ByteOfInjective(v % 256, w % 256);
      assert LittleEndian(v, n)[1..] == LittleEndian(v / 256, n - 1);
      assert LittleEndian(w, n)[1..] == LittleEndian(w / 256, n - 1);
      LittleEndianInjective(v / 256, w / 256, n - 1);
    }
  }

  /** The `k` low-order bytes of `lo` below `hi`. */
  function Join(lo: nat, hi: nat, k: nat): nat {
    if k == 0 then hi else lo % 256 + 256 * Join(lo / 256, hi, k - 1)
  }

  lemma {:induction false} JoinWords(lo: nat, hi: nat)
    requires lo < TWO_TO_THE_32
    ensures Join(lo, hi, 4) == lo + TWO_TO_THE_32 * hi
  {
    var c1 := lo / 256;
    var c2 := c1 / 256;
    var c3 := c2 / 256;
    assert c3 / 256 == 0;
    assert Join(c3, hi, 1) == c3 + 256 * Join(c3 / 256, hi, 0);
    assert Join(c2, hi, 2) == c2 % 256 + 256 * Join(c3, hi, 1);
    assert Join(c1, hi, 3) == c1 % 256 + 256 * Join(c2, hi, 2);
  }

  lemma {:induction false} LittleEndianJoin(lo: nat, hi: nat, k: nat, j: nat)
    ensures LittleEndian(Join(lo, hi, k), k + j) == LittleEndian(lo, k) + LittleEndian(hi, j)
  {
    hide ByteOf, LittleEndian, Join;
    JoinStep(lo, hi, k);
    if k == 0 {
      LittleEndianNone(lo);
    } else {
      var rest := Join(lo / 256, hi, k - 1);
      LowByte(lo, rest);
      LittleEndianStep(Join(lo, hi, k), k - 1 + j);
      LittleEndianStep(lo, k - 1);
      LittleEndianJoin(lo / 256, hi, k - 1, j);
      assert [ByteOf(lo % 256)] + LittleEndian(lo / 256, k - 1) + LittleEndian(hi, j)
          == [ByteOf(lo % 256)] + (LittleEndian(lo / 256, k - 1) + LittleEndian(hi, j));
    }
  }

  lemma JoinStep(lo: nat, hi: nat, k: nat)
    ensures Join(lo, hi, k) == if k == 0 then hi else lo % 256 + 256 * Join(lo / 256, hi, k - 1)
  {
  }

  lemma {:induction false} LittleEndianNone(v: nat)
    ensures LittleEndian(v, 0) == []
  {
  }

  lemma {:induction false} LittleEndianStep(v: nat, n: nat)
    ensures LittleEndian(v, n + 1) == [ByteOf(v % 256)] + LittleEndian(v / 256, n)
  {
    hide ByteOf;
  }

  lemma LowByte(lo: nat, h: nat)
    ensures (lo % 256 + 256 * h) % 256 == lo % 256 && (lo % 256 + 256 * h) / 256 == h
  {
  }

  /** A two-word counter, low-order word first, has the bytes of the 64-bit number it stands for. */
  lemma {:induction false} LittleEndianPair(lo: nat, hi: nat)
    requires lo < TWO_TO_THE_32
    ensures LittleEndian(lo + TWO_TO_THE_32 * hi, 8) == LittleEndian(lo, 4) + LittleEndian(hi, 4)
  {
    hide LittleEndian, Join;
    JoinWords(lo, hi);
    LittleEndianJoin(lo, hi, 4, 4);
  }

  /** Two lengths less than 64 apart that agree modulo 2^61 are equal. */
  lemma BitLengthLocallyInjective(n1: nat, n2: nat)
    requires -64 < n1 - n2 < 64 && BitLength(n1) == BitLength(n2)
    ensures n1 == n2
  {
    var q1, q2 := 8 * n1 / TWO_TO_THE_64, 8 * n2 / TWO_TO_THE_64;
    assert 8 * n1 - 8 * n2 == TWO_TO_THE_64 * (q1 - q2);
  }

  /** Distinct messages have distinct padded streams, whatever their lengths. */
  lemma PadInjective(m1: seq<Byte>, m2: seq<Byte>)
    ensures Pad(m1) == Pad(m2) ==> m1 == m2
  {
    hide LittleEndian, BitLength;
    if Pad(m1) == Pad(m2) {
      var p, n := Pad(m1), |Pad(m1)|;
      var v1, v2 := BitLength(|m1|), BitLength(|m2|);
      assert n == |m1| + |Padding(|m1|)| + 8 == |m2| + |Padding(|m2|)| + 8;
      assert p[n - 8..] == LittleEndian(v1, 8) && p[n - 8..] == LittleEndian(v2, 8);
      SixtyFourBits(|m1|);
      SixtyFourBits(|m2|);
      LittleEndianInjective(v1, v2, 8);
      BitLengthLocallyInjective(|m1|, |m2|);
      assert m1 == p[..|m1|] && m2 == p[..|m2|];
    }
  }

  lemma SixtyFourBits(n: nat)
    ensures BitLength(n) < Pow256(8)
  {
    assert Pow256(8) == TWO_TO_THE_64;
  }
}
