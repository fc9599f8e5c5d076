/**
 * What the functions of `Md5Spec` compute, bit by bit and as numbers, in terms that do not refer to their bodies.
 */
module Md5Values {
  import opened Arithmetic
  import opened Common
  import opened Md5Spec

  // ---------- the functions of the four rounds, on each bit ----------

  /** F takes the bits of y where x has ones and those of z elsewhere. */
  lemma FChooses(x: Word, y: Word, z: Word)
    ensures F(x, y, z) & x == y & x && F(x, y, z) & !x == z & !x
  {
  }

  /** G takes the bits of x where z has ones and those of y elsewhere. */
  lemma GChooses(x: Word, y: Word, z: Word)
    ensures G(x, y, z) & z == x & z && G(x, y, z) & !z == y & !z
  {
  }

  lemma HIsParity(x: Word, y: Word, z: Word)
    ensures H(x, y, z) ^ x == y ^ z
  {
  }

  /** I differs from y by x where z has ones, and by one elsewhere. */
  lemma IMeaning(x: Word, y: Word, z: Word)
    ensures I(x, y, z) & z == (x ^ y) & z && I(x, y, z) & !z == !y & !z
  {
  }

  // ---------- sums ----------

  ghost predicate IsSum(x: Word, y: Word, s: bv33) {
    s == x as bv33 + y as bv33
  }

  ghost predicate IsJoin(h: bv1, l: Word, s: bv33) {
    s == (h as bv33 << 32) | l as bv33
  }

  lemma SumValue(x: Word, y: Word, s: bv33)
    requires IsSum(x, y, s)
    ensures s as int == x as int + y as int
  {
  }

  lemma JoinValue(h: bv1, l: Word, s: bv33)
    requires IsJoin(h, l, s)
    ensures s as int == TWO_TO_THE_32 * h as int + l as int
  {
  }

  lemma SumAndCarry(x: Word, y: Word) returns (s: bv33, h: bv1)
    ensures IsSum(x, y, s) && IsJoin(h, Add(x, y), s)
  {
    s := x as bv33 + y as bv33;
    h := (s >> 32) as bv1;
  }

  lemma AddAndCarry(x: Word, y: Word) returns (h: nat)
    ensures x as int + y as int == TWO_TO_THE_32 * h + Add(x, y) as int
  {
    hide Add, IsSum, IsJoin;
    var s, c := SumAndCarry(x, y);
    SumValue(x, y, s);
    JoinValue(c, Add(x, y), s);
    h := c as int;
  }

  lemma LowPart(h: nat, l: nat)
    requires l < TWO_TO_THE_32
    ensures l == (TWO_TO_THE_32 * h + l) % TWO_TO_THE_32
  {
  }

  /** Words are added modulo 2^32. */
  lemma AddValue(x: Word, y: Word)
    ensures Add(x, y) as int == (x as int + y as int) % TWO_TO_THE_32
  {
    hide Add;
    var h := AddAndCarry(x, y);
    LowPart(h, Add(x, y) as int);
  }

  // ---------- bytes and words ----------

  /** The number that some bytes stand for, low-order byte first. */
  function Number(b: seq<Byte>): nat {
    if b == [] then 0 else b[0] as int + 256 * Number(b[1..])
  }

  lemma {:induction false} NumberOfFour(b: seq<Byte>)
    requires |b| == 4
    ensures Number(b) == b[0] as int + 256 * (b[1] as int + 256 * (b[2] as int + 256 * b[3] as int))
  {
    assert b[1..][1..] == b[2..] && b[2..][1..] == b[3..] && b[3..][1..] == [];
    assert Number(b[3..]) == b[3] as int;
    assert Number(b[2..]) == b[2] as int + 256 * Number(b[3..]);
    assert Number(b[1..]) == b[1] as int + 256 * Number(b[2..]);
  }

  lemma ByteOfValue(v: nat)
    requires v < 256
    ensures ByteOf(v) as int == v
  {
  }

  ghost predicate IsFourBytes(b0: Byte, b1: Byte, b2: Byte, b3: Byte, w: Word) {
    w == (b3 as Word << 24) | (b2 as Word << 16) | (b1 as Word << 8) | b0 as Word
  }

  lemma FourBytesValue(b0: Byte, b1: Byte, b2: Byte, b3: Byte, w: Word)
    requires IsFourBytes(b0, b1, b2, b3, w)
    ensures w as int == b0 as int + 256 * (b1 as int + 256 * (b2 as int + 256 * b3 as int))
  {
  }

  lemma DecodeByByte(b: seq<Byte>)
    requires |b| == 4
    ensures IsFourBytes(b[0], b[1], b[2], b[3], DecodeWord(b))
  {
  }

  /** Four bytes are decoded into the number they stand for. */
  lemma {:induction false} DecodeWordValue(b: seq<Byte>)
    requires |b| == 4
    ensures DecodeWord(b) as int == Number(b)
  {
    hide DecodeWord, IsFourBytes, Number;
    DecodeByByte(b);
    FourBytesValue(b[0], b[1], b[2], b[3], DecodeWord(b));
    NumberOfFour(b);
  }

  /** A word is encoded into the bytes of its number. */
  lemma EncodeWordValue(w: Word)
    ensures Number(EncodeWord(w)) == w as int
  {
    hide DecodeWord, EncodeWord;
    EncodeDecodeWord(w);
    DecodeWordValue(EncodeWord(w));
  }

  /** The bytes of a number stand for it, as far as they reach. */
  lemma {:induction false} LittleEndianValue(v: nat, n: nat)
    ensures Number(LittleEndian(v, n)) == v % Pow256(n)
  {
    hide ByteOf;
    if n > 0 {
      var low, rest := v % 256, LittleEndian(v / 256, n - 1);
      assert LittleEndian(v, n)[1..] == rest;
      ByteOfValue(low);
      LittleEndianValue(v / 256, n - 1);
      DigitBelow(v, Pow256(n - 1));
    }
  }

  lemma DigitBelow(v: nat, p: nat)
    requires p > 0
    ensures v % 256 + 256 * (v / 256 % p) == v % (256 * p)
  {
    var q := v / 256;
    assert v == v % 256 + 256 * (q % p) + 256 * (p * (q / p));
    assert 256 * (p * (q / p)) == 256 * p * (q / p);
    assert v % 256 + 256 * (q % p) < 256 * p;
    RemainderUnique(v, 256 * p, v % 256 + 256 * (q % p), q / p);
  }

  /** The words of a block are the numbers in its bytes, four at a time. */
  lemma WordsValue(block: seq<Byte>, i: nat)
    requires |block| == 64 && i < 16
    ensures Words(block)[i] as int == Number(block[4 * i..4 * i + 4])
  {
    hide DecodeWord;
    DecodeWordValue(block[4 * i..4 * i + 4]);
  }

  /** The padded message: itself, one bit, zeros, and its length in bits in the last eight bytes of a block. */
  lemma PadLayout(msg: seq<Byte>)
    ensures
      var n, p := |msg|, Pad(msg);
      && n + 9 <= |p| <= n + 72 && |p| % 64 == 0
      && p[..n] == msg && p[n] as int == 128
      && (forall i | n < i < |p| - 8 :: p[i] as int == 0)
      && Number(p[|p| - 8..]) == 8 * n % 0x1_0000_0000_0000_0000
  {
    hide LittleEndian, Number;
    var n, p := |msg|, Pad(msg);
    assert p[|p| - 8..] == LittleEndian(BitLength(n), 8);
    LittleEndianValue(BitLength(n), 8);
    assert Pow256(8) == 0x1_0000_0000_0000_0000;
    PadWholeBlocks(msg);
  }

  /** The registers before the first block, as section 3.3 of RFC 1321 lists their bytes. */
  lemma OutputOfInitial()
    ensures Output(INITIAL) == [0x01, 0x23, 0x45, 0x67, 0x89, 0xab, 0xcd, 0xef,
                                0xfe, 0xdc, 0xba, 0x98, 0x76, 0x54, 0x32, 0x10]
  {
  }

  /** The output is the numbers of the four registers, one after the other. */
  lemma OutputValue(r: Regs)
    ensures Number(Output(r)[..4]) == r.a as int && Number(Output(r)[4..8]) == r.b as int
    ensures Number(Output(r)[8..12]) == r.c as int && Number(Output(r)[12..]) == r.d as int
  {
    hide EncodeWord, Number;
    EncodeWordValue(r.a);
    EncodeWordValue(r.b);
    EncodeWordValue(r.c);
    EncodeWordValue(r.d);
    var o := Output(r);
    assert o[..4] == EncodeWord(r.a) && o[4..8] == EncodeWord(r.b);
    assert o[8..12] == EncodeWord(r.c) && o[12..] == EncodeWord(r.d);
  }

  lemma Widths()
    ensures TWO_TO_THE_32 == Pow256(4) == 2 * (INT_MAX + 1) && TWO_TO_THE_64 == Pow256(8)
  {
  }
}
