/**
 * The four unrolled rounds of the compression.  The registers stay in place and the roles of a, b, c
 * and d rotate from one SET to the next.
 */
module Md5Rounds {
  import opened Md5Spec

  /** ROTATE_LEFT(x, n) */
  function RotateLeft(x: Word, n: Word): Word
    requires n <= 32
  {
    (x << n) | (x >> (32 - n))
  }

  /** SET(a, b, c, d, k, s, Ti), with `f` the value of the round's function at b, c and d. */
  function Set(a: Word, b: Word, f: Word, x: Word, s: Word, t: Word): Word
    requires s <= 32
  {
    Add(RotateLeft(Add(Add(Add(a, f), x), t), s), b)
  }

  // ---------- one SET is one step of the table ----------

  ghost predicate SameRotation(s: Word, n: nat) {
    && s <= 32 && n < 32
    && forall x: Word {:trigger RotateLeft(x, s)} {:trigger Rol(x, n)} :: RotateLeft(x, s) == Rol(x, n)
  }

  lemma Rotations1()
    ensures SameRotation(7, 7) && SameRotation(12, 12) && SameRotation(17, 17) && SameRotation(22, 22)
  {
  }

  lemma Rotations2()
    ensures SameRotation(5, 5) && SameRotation(9, 9) && SameRotation(14, 14) && SameRotation(20, 20)
  {
  }

  lemma Rotations3()
    ensures SameRotation(4, 4) && SameRotation(11, 11) && SameRotation(16, 16) && SameRotation(23, 23)
  {
  }

  lemma Rotations4()
    ensures SameRotation(6, 6) && SameRotation(10, 10) && SameRotation(15, 15) && SameRotation(21, 21)
  {
  }

  lemma AddCommutes(x: Word, y: Word)
    ensures Add(x, y) == Add(y, x)
  {
  }

  lemma SetIsTurn(a: Word, b: Word, f: Word, x: Word, s: Word, t: Word, n: nat)
    requires SameRotation(s, n)
    ensures Set(a, b, f, x, s, t) == Turn(a, b, f, x, n, t)
  {
    hide RotateLeft, Rol, Add;
    AddCommutes(b, Rol(Add(Add(Add(a, f), x), t), n));
  }

  lemma SameFunction(i: nat)
    requires i % 4 == 0
    ensures forall j: nat, x, y, z {:trigger Aux(j, x, y, z)} | i <= j < i + 4 :: Aux(j, x, y, z) == Aux(i, x, y, z)
  {
    hide F, G, H, I;
  }

  /** Four consecutive SETs bring every register back to its place and are four steps of the table. */
  lemma Quad(r: Regs, X: seq<Word>, i: nat, s0: Word, s1: Word, s2: Word, s3: Word)
    requires |X| == 16 && i % 4 == 0
    requires SameRotation(s0, Shift(i)) && SameRotation(s1, Shift(i + 1))
    requires SameRotation(s2, Shift(i + 2)) && SameRotation(s3, Shift(i + 3))
    ensures
      var q := Mix(r, X, i);
      var a := Set(q.a, q.b, Aux(i, q.b, q.c, q.d), X[Select(i)], s0, T(i));
      var d := Set(q.d, a, Aux(i, a, q.b, q.c), X[Select(i + 1)], s1, T(i + 1));
      var c := Set(q.c, d, Aux(i, d, a, q.b), X[Select(i + 2)], s2, T(i + 2));
      var b := Set(q.b, c, Aux(i, c, d, a), X[Select(i + 3)], s3, T(i + 3));
      Mix(r, X, i + 4) == Regs(a, b, c, d)
  {
    assert s0 <= 32 && s1 <= 32 && s2 <= 32 && s3 <= 32;
    hide Set, Turn, Shift, Aux, T, Select, SameRotation, RotateLeft, Add;
    var q := Mix(r, X, i);
    var a := Set(q.a, q.b, Aux(i, q.b, q.c, q.d), X[Select(i)], s0, T(i));
    var d := Set(q.d, a, Aux(i, a, q.b, q.c), X[Select(i + 1)], s1, T(i + 1));
    var c := Set(q.c, d, Aux(i, d, a, q.b), X[Select(i + 2)], s2, T(i + 2));
    SetIsTurn(q.a, q.b, Aux(i, q.b, q.c, q.d), X[Select(i)], s0, T(i), Shift(i));
    SetIsTurn(q.d, a, Aux(i, a, q.b, q.c), X[Select(i + 1)], s1, T(i + 1), Shift(i + 1));
    SetIsTurn(q.c, d, Aux(i, d, a, q.b), X[Select(i + 2)], s2, T(i + 2), Shift(i + 2));
    SetIsTurn(q.b, c, Aux(i, c, d, a), X[Select(i + 3)], s3, T(i + 3), Shift(i + 3));
    SameFunction(i);
    assert Mix(r, X, i + 1) == Step(q, X, i) == Regs(q.d, a, q.b, q.c);
    assert Mix(r, X, i + 2) == Step(Mix(r, X, i + 1), X, i + 1) == Regs(q.c, d, a, q.b);
    assert Mix(r, X, i + 3) == Step(Mix(r, X, i + 2), X, i + 2) == Regs(q.b, c, d, a);
  }

  // ---------- the rounds ----------

  lemma Functions1(i: nat)
    requires 0 <= i < 16 && i % 4 == 0
    ensures forall x, y, z :: Aux(i, x, y, z) == F(x, y, z)
    ensures SameRotation(7, Shift(i)) && SameRotation(12, Shift(i + 1))
    ensures SameRotation(17, Shift(i + 2)) && SameRotation(22, Shift(i + 3))
  {
    hide F, SameRotation;
    Rotations1();
  }

  lemma Table1()
    ensures
      && Select(0) == 0 && Select(1) == 1 && Select(2) == 2 && Select(3) == 3
      && Select(4) == 4 && Select(5) == 5 && Select(6) == 6 && Select(7) == 7
      && Select(8) == 8 && Select(9) == 9 && Select(10) == 10 && Select(11) == 11
      && Select(12) == 12 && Select(13) == 13 && Select(14) == 14 && Select(15) == 15
    ensures
      && T(0) == 0xd76aa478 && T(1) == 0xe8c7b756 && T(2) == 0x242070db && T(3) == 0xc1bdceee
      && T(4) == 0xf57c0faf && T(5) == 0x4787c62a && T(6) == 0xa8304613 && T(7) == 0xfd469501
      && T(8) == 0x698098d8 && T(9) == 0x8b44f7af && T(10) == 0xffff5bb1 && T(11) == 0x895cd7be
      && T(12) == 0x6b901122 && T(13) == 0xfd987193 && T(14) == 0xa679438e && T(15) == 0x49b40821
  {
  }

  method Round1(a0: Word, b0: Word, c0: Word, d0: Word, X: seq<Word>, ghost r: Regs)
    returns (a: Word, b: Word, c: Word, d: Word)
    requires |X| == 16 && Mix(r, X, 0) == Regs(a0, b0, c0, d0)
    ensures Regs(a, b, c, d) == Mix(r, X, 16)
  {
    hide Set, Mix, T, Select, Shift, Aux, F, SameRotation;
    Table1();
    a, b, c, d := a0, b0, c0, d0;
    a := Set(a, b, F(b, c, d), X[0], 7, 0xd76aa478);
    d := Set(d, a, F(a, b, c), X[1], 12, 0xe8c7b756);
    c := Set(c, d, F(d, a, b), X[2], 17, 0x242070db);
    b := Set(b, c, F(c, d, a), X[3], 22, 0xc1bdceee);
    Functions1(0);
    Quad(r, X, 0, 7, 12, 17, 22);
    a := Set(a, b, F(b, c, d), X[4], 7, 0xf57c0faf);
    d := Set(d, a, F(a, b, c), X[5], 12, 0x4787c62a);
    c := Set(c, d, F(d, a, b), X[6], 17, 0xa8304613);
    b := Set(b, c, F(c, d, a), X[7], 22, 0xfd469501);
    Functions1(4);
    Quad(r, X, 4, 7, 12, 17, 22);
    a := Set(a, b, F(b, c, d), X[8], 7, 0x698098d8);
    d := Set(d, a, F(a, b, c), X[9], 12, 0x8b44f7af);
    c := Set(c, d, F(d, a, b), X[10], 17, 0xffff5bb1);
    b := Set(b, c, F(c, d, a), X[11], 22, 0x895cd7be);
    Functions1(8);
    Quad(r, X, 8, 7, 12, 17, 22);
    a := Set(a, b, F(b, c, d), X[12], 7, 0x6b901122);
    d := Set(d, a, F(a, b, c), X[13], 12, 0xfd987193);
    c := Set(c, d, F(d, a, b), X[14], 17, 0xa679438e);
    b := Set(b, c, F(c, d, a), X[15], 22, 0x49b40821);
    Functions1(12);
    Quad(r, X, 12, 7, 12, 17, 22);
  }

  lemma Functions2(i: nat)
    requires 16 <= i < 32 && i % 4 == 0
    ensures forall x, y, z :: Aux(i, x, y, z) == G(x, y, z)
    ensures SameRotation(5, Shift(i)) && SameRotation(9, Shift(i + 1))
    ensures SameRotation(14, Shift(i + 2)) && SameRotation(20, Shift(i + 3))
  {
    hide G, SameRotation;
    Rotations2();
  }

  lemma Table2()
    ensures
      && Select(16) == 1 && Select(17) == 6 && Select(18) == 11 && Select(19) == 0
      && Select(20) == 5 && Select(21) == 10 && Select(22) == 15 && Select(23) == 4
      && Select(24) == 9 && Select(25) == 14 && Select(26) == 3 && Select(27) == 8
      && Select(28) == 13 && Select(29) == 2 && Select(30) == 7 && Select(31) == 12
    ensures
      && T(16) == 0xf61e2562 && T(17) == 0xc040b340 && T(18) == 0x265e5a51 && T(19) == 0xe9b6c7aa
      && T(20) == 0xd62f105d && T(21) == 0x02441453 && T(22) == 0xd8a1e681 && T(23) == 0xe7d3fbc8
      && T(24) == 0x21e1cde6 && T(25) == 0xc33707d6 && T(26) == 0xf4d50d87 && T(27) == 0x455a14ed
      && T(28) == 0xa9e3e905 && T(29) == 0xfcefa3f8 && T(30) == 0x676f02d9 && T(31) == 0x8d2a4c8a
  {
  }

  method Round2(a0: Word, b0: Word, c0: Word, d0: Word, X: seq<Word>, ghost r: Regs)
    returns (a: Word, b: Word, c: Word, d: Word)
    requires |X| == 16 && Mix(r, X, 16) == Regs(a0, b0, c0, d0)
    ensures Regs(a, b, c, d) == Mix(r, X, 32)
  {
    hide Set, Mix, T, Select, Shift, Aux, G, SameRotation;
    Table2();
    a, b, c, d := a0, b0, c0, d0;
    a := Set(a, b, G(b, c, d), X[1], 5, 0xf61e2562);
    d := Set(d, a, G(a, b, c), X[6], 9, 0xc040b340);
    c := Set(c, d, G(d, a, b), X[11], 14, 0x265e5a51);
    b := Set(b, c, G(c, d, a), X[0], 20, 0xe9b6c7aa);
    Functions2(16);
    Quad(r, X, 16, 5, 9, 14, 20);
    a := Set(a, b, G(b, c, d), X[5], 5, 0xd62f105d);
    d := Set(d, a, G(a, b, c), X[10], 9, 0x02441453);
    c := Set(c, d, G(d, a, b), X[15], 14, 0xd8a1e681);
    b := Set(b, c, G(c, d, a), X[4], 20, 0xe7d3fbc8);
    Functions2(20);
    Quad(r, X, 20, 5, 9, 14, 20);
    a := Set(a, b, G(b, c, d), X[9], 5, 0x21e1cde6);
    d := Set(d, a, G(a, b, c), X[14], 9, 0xc33707d6);
    c := Set(c, d, G(d, a, b), X[3], 14, 0xf4d50d87);
    b := Set(b, c, G(c, d, a), X[8], 20, 0x455a14ed);
    Functions2(24);
    Quad(r, X, 24, 5, 9, 14, 20);
    a := Set(a, b, G(b, c, d), X[13], 5, 0xa9e3e905);
    d := Set(d, a, G(a, b, c), X[2], 9, 0xfcefa3f8);
    c := Set(c, d, G(d, a, b), X[7], 14, 0x676f02d9);
    b := Set(b, c, G(c, d, a), X[12], 20, 0x8d2a4c8a);
    Functions2(28);
    Quad(r, X, 28, 5, 9, 14, 20);
  }

  lemma Functions3(i: nat)
    requires 32 <= i < 48 && i % 4 == 0
    ensures forall x, y, z :: Aux(i, x, y, z) == H(x, y, z)
    ensures SameRotation(4, Shift(i)) && SameRotation(11, Shift(i + 1))
    ensures SameRotation(16, Shift(i + 2)) && SameRotation(23, Shift(i + 3))
  {
    hide H, SameRotation;
    Rotations3();
  }

  lemma Table3()
    ensures
      && Select(32) == 5 && Select(33) == 8 && Select(34) == 11 && Select(35) == 14
      && Select(36) == 1 && Select(37) == 4 && Select(38) == 7 && Select(39) == 10
      && Select(40) == 13 && Select(41) == 0 && Select(42) == 3 && Select(43) == 6
      && Select(44) == 9 && Select(45) == 12 && Select(46) == 15 && Select(47) == 2
    ensures
      && T(32) == 0xfffa3942 && T(33) == 0x8771f681 && T(34) == 0x6d9d6122 && T(35) == 0xfde5380c
      && T(36) == 0xa4beea44 && T(37) == 0x4bdecfa9 && T(38) == 0xf6bb4b60 && T(39) == 0xbebfbc70
      && T(40) == 0x289b7ec6 && T(41) == 0xeaa127fa && T(42) == 0xd4ef3085 && T(43) == 0x04881d05
      && T(44) == 0xd9d4d039 && T(45) == 0xe6db99e5 && T(46) == 0x1fa27cf8 && T(47) == 0xc4ac5665
  {
  }

  method Round3(a0: Word, b0: Word, c0: Word, d0: Word, X: seq<Word>, ghost r: Regs)
    returns (a: Word, b: Word, c: Word, d: Word)
    requires |X| == 16 && Mix(r, X, 32) == Regs(a0, b0, c0, d0)
    ensures Regs(a, b, c, d) == Mix(r, X, 48)
  {
    hide Set, Mix, T, Select, Shift, Aux, H, SameRotation;
    Table3();
    a, b, c, d := a0, b0, c0, d0;
    a := Set(a, b, H(b, c, d), X[5], 4, 0xfffa3942);
    d := Set(d, a, H(a, b, c), X[8], 11, 0x8771f681);
    c := Set(c, d, H(d, a, b), X[11], 16, 0x6d9d6122);
    b := Set(b, c, H(c, d, a), X[14], 23, 0xfde5380c);
    Functions3(32);
    Quad(r, X, 32, 4, 11, 16, 23);
    a := Set(a, b, H(b, c, d), X[1], 4, 0xa4beea44);
    d := Set(d, a, H(a, b, c), X[4], 11, 0x4bdecfa9);
    c := Set(c, d, H(d, a, b), X[7], 16, 0xf6bb4b60);
    b := Set(b, c, H(c, d, a), X[10], 23, 0xbebfbc70);
    Functions3(36);
    Quad(r, X, 36, 4, 11, 16, 23);
    a := Set(a, b, H(b, c, d), X[13], 4, 0x289b7ec6);
    d := Set(d, a, H(a, b, c), X[0], 11, 0xeaa127fa);
    c := Set(c, d, H(d, a, b), X[3], 16, 0xd4ef3085);
    b := Set(b, c, H(c, d, a), X[6], 23, 0x04881d05);
    Functions3(40);
    Quad(r, X, 40, 4, 11, 16, 23);
    a := Set(a, b, H(b, c, d), X[9], 4, 0xd9d4d039);
    d := Set(d, a, H(a, b, c), X[12], 11, 0xe6db99e5);
    c := Set(c, d, H(d, a, b), X[15], 16, 0x1fa27cf8);
    b := Set(b, c, H(c, d, a), X[2], 23, 0xc4ac5665);
    Functions3(44);
    Quad(r, X, 44, 4, 11, 16, 23);
  }

  lemma Functions4(i: nat)
    requires 48 <= i < 64 && i % 4 == 0
    ensures forall x, y, z :: Aux(i, x, y, z) == I(x, y, z)
    ensures SameRotation(6, Shift(i)) && SameRotation(10, Shift(i + 1))
    ensures SameRotation(15, Shift(i + 2)) && SameRotation(21, Shift(i + 3))
  {
    hide I, SameRotation;
    Rotations4();
  }

  lemma Table4()
    ensures
      && Select(48) == 0 && Select(49) == 7 && Select(50) == 14 && Select(51) == 5
      && Select(52) == 12 && Select(53) == 3 && Select(54) == 10 && Select(55) == 1
      && Select(56) == 8 && Select(57) == 15 && Select(58) == 6 && Select(59) == 13
      && Select(60) == 4 && Select(61) == 11 && Select(62) == 2 && Select(63) == 9
    ensures
      && T(48) == 0xf4292244 && T(49) == 0x432aff97 && T(50) == 0xab9423a7 && T(51) == 0xfc93a039
      && T(52) == 0x655b59c3 && T(53) == 0x8f0ccc92 && T(54) == 0xffeff47d && T(55) == 0x85845dd1
      && T(56) == 0x6fa87e4f && T(57) == 0xfe2ce6e0 && T(58) == 0xa3014314 && T(59) == 0x4e0811a1
      && T(60) == 0xf7537e82 && T(61) == 0xbd3af235 && T(62) == 0x2ad7d2bb && T(63) == 0xeb86d391
  {
  }

  method Round4(a0: Word, b0: Word, c0: Word, d0: Word, X: seq<Word>, ghost r: Regs)
    returns (a: Word, b: Word, c: Word, d: Word)
    requires |X| == 16 && Mix(r, X, 48) == Regs(a0, b0, c0, d0)
    ensures Regs(a, b, c, d) == Mix(r, X, 64)
  {
    hide Set, Mix, T, Select, Shift, Aux, I, SameRotation;
    Table4();
    a, b, c, d := a0, b0, c0, d0;
    a := Set(a, b, I(b, c, d), X[0], 6, 0xf4292244);
    d := Set(d, a, I(a, b, c), X[7], 10, 0x432aff97);
    c := Set(c, d, I(d, a, b), X[14], 15, 0xab9423a7);
    b := Set(b, c, I(c, d, a), X[5], 21, 0xfc93a039);
    Functions4(48);
    Quad(r, X, 48, 6, 10, 15, 21);
    a := Set(a, b, I(b, c, d), X[12], 6, 0x655b59c3);
    d := Set(d, a, I(a, b, c), X[3], 10, 0x8f0ccc92);
    c := Set(c, d, I(d, a, b), X[10], 15, 0xffeff47d);
    b := Set(b, c, I(c, d, a), X[1], 21, 0x85845dd1);
    Functions4(52);
    Quad(r, X, 52, 6, 10, 15, 21);
    a := Set(a, b, I(b, c, d), X[8], 6, 0x6fa87e4f);
    d := Set(d, a, I(a, b, c), X[15], 10, 0xfe2ce6e0);
    c := Set(c, d, I(d, a, b), X[6], 15, 0xa3014314);
    b := Set(b, c, I(c, d, a), X[13], 21, 0x4e0811a1);
    Functions4(56);
    Quad(r, X, 56, 6, 10, 15, 21);
    a := Set(a, b, I(b, c, d), X[4], 6, 0xf7537e82);
    d := Set(d, a, I(a, b, c), X[11], 10, 0xbd3af235);
    c := Set(c, d, I(d, a, b), X[2], 15, 0x2ad7d2bb);
    b := Set(b, c, I(c, d, a), X[9], 21, 0xeb86d391);
    Functions4(60);
    Quad(r, X, 60, 6, 10, 15, 21);
  }
}
