/**
 * The digest of the alphabet, a value of the test suite in appendix A.5 of RFC 1321, step by step.
 */
module Md5Example {
  import opened Md5Rounds
  import opened Md5Spec

  /** a to z */
  const ALPHABET: seq<Byte> :=
    [0x61, 0x62, 0x63, 0x64, 0x65, 0x66, 0x67, 0x68, 0x69, 0x6a, 0x6b, 0x6c, 0x6d,
     0x6e, 0x6f, 0x70, 0x71, 0x72, 0x73, 0x74, 0x75, 0x76, 0x77, 0x78, 0x79, 0x7a]

  /** The one block of the padded message. */
  ghost predicate IsBlock(X: seq<Word>) {
    && |X| == 16 && X[0] == 0x64636261 && X[1] == 0x68676665 && X[2] == 0x6c6b6a69 && X[3] == 0x706f6e6d
    && X[4] == 0x74737271 && X[5] == 0x78777675 && X[6] == 0x00807a79 && X[14] == 208
    && forall k | 7 <= k < 16 && k != 14 :: X[k] == 0
  }

  // ---------- the 64 steps, with what each SET delivers ----------

  lemma Sets1()
    ensures Set(0x67452301, 0xefcdab89, F(0xefcdab89, 0x98badcfe, 0x10325476), 0x64636261, 7, 0xd76aa478) == 0xd6d117a6
    ensures Set(0x10325476, 0xd6d117a6, F(0xd6d117a6, 0xefcdab89, 0x98badcfe), 0x68676665, 12, 0xe8c7b756) == 0xaab1aaaa
    ensures Set(0x98badcfe, 0xaab1aaaa, F(0xaab1aaaa, 0xd6d117a6, 0xefcdab89), 0x6c6b6a69, 17, 0x242070db) == 0x227d8cf1
    ensures Set(0xefcdab89, 0x227d8cf1, F(0x227d8cf1, 0xaab1aaaa, 0xd6d117a6), 0x706f6e6d, 22, 0xc1bdceee) == 0x4503b812
    ensures Set(0xd6d117a6, 0x4503b812, F(0x4503b812, 0x227d8cf1, 0xaab1aaaa), 0x74737271, 7, 0xf57c0faf) == 0xfe15f787
    ensures Set(0xaab1aaaa, 0xfe15f787, F(0xfe15f787, 0x4503b812, 0x227d8cf1), 0x78777675, 12, 0x4787c62a) == 0xa811b278
    ensures Set(0x227d8cf1, 0xa811b278, F(0xa811b278, 0xfe15f787, 0x4503b812), 0x00807a79, 17, 0xa8304613) == 0xb71122fc
    ensures Set(0x4503b812, 0xb71122fc, F(0xb71122fc, 0xa811b278, 0xfe15f787), 0, 22, 0xfd469501) == 0xda9bbb0d
    ensures Set(0xfe15f787, 0xda9bbb0d, F(0xda9bbb0d, 0xb71122fc, 0xa811b278), 0, 7, 0x698098d8) == 0xae752899
    ensures Set(0xa811b278, 0xae752899, F(0xae752899, 0xda9bbb0d, 0xb71122fc), 0, 12, 0x8b44f7af) == 0x2bbe757f
    ensures Set(0xb71122fc, 0x2bbe757f, F(0x2bbe757f, 0xae752899, 0xda9bbb0d), 0, 17, 0xffff5bb1) == 0x7d4bd80b
    ensures Set(0xda9bbb0d, 0x7d4bd80b, F(0x7d4bd80b, 0x2bbe757f, 0xae752899), 0, 22, 0x895cd7be) == 0x56cfa5cb
    ensures Set(0xae752899, 0x56cfa5cb, F(0x56cfa5cb, 0x7d4bd80b, 0x2bbe757f), 0, 7, 0x6b901122) == 0x1754a316
    ensures Set(0x2bbe757f, 0x1754a316, F(0x1754a316, 0x56cfa5cb, 0x7d4bd80b), 0, 12, 0xfd987193) == 0x85567d90
    ensures Set(0x7d4bd80b, 0x85567d90, F(0x85567d90, 0x1754a316, 0x56cfa5cb), 0x000000d0, 17, 0xa679438e) == 0x00df74d5
    ensures Set(0x56cfa5cb, 0x00df74d5, F(0x00df74d5, 0x85567d90, 0x1754a316), 0, 22, 0x49b40821) == 0x608d6b7e
  {
  }

  lemma {:induction false} Steps1(X: seq<Word>)
    requires IsBlock(X) && Mix(INITIAL, X, 0) == INITIAL
    ensures Mix(INITIAL, X, 16) == Regs(0x1754a316, 0x608d6b7e, 0x00df74d5, 0x85567d90)
  {
    hide Mix, Set, Aux, F, T, Select, Shift, SameRotation;
    Sets1();
    Table1();
    Functions1(0);
    Quad(INITIAL, X, 0, 7, 12, 17, 22);
    Functions1(4);
    Quad(INITIAL, X, 4, 7, 12, 17, 22);
    Functions1(8);
    Quad(INITIAL, X, 8, 7, 12, 17, 22);
    Functions1(12);
    Quad(INITIAL, X, 12, 7, 12, 17, 22);
  }

  lemma Sets2()
    ensures Set(0x1754a316, 0x608d6b7e, G(0x608d6b7e, 0x00df74d5, 0x85567d90), 0x68676665, 5, 0xf61e2562) == 0x2d8071cc
    ensures Set(0x85567d90, 0x2d8071cc, G(0x2d8071cc, 0x608d6b7e, 0x00df74d5), 0x00807a79, 9, 0xc040b340) == 0x5dcee119
    ensures Set(0x00df74d5, 0x5dcee119, G(0x5dcee119, 0x2d8071cc, 0x608d6b7e), 0, 14, 0x265e5a51) == 0xedfe7e4b
    ensures Set(0x608d6b7e, 0xedfe7e4b, G(0xedfe7e4b, 0x5dcee119, 0x2d8071cc), 0x64636261, 20, 0xe9b6c7aa) == 0x4c2145b3
    ensures Set(0x2d8071cc, 0x4c2145b3, G(0x4c2145b3, 0xedfe7e4b, 0x5dcee119), 0x78777675, 5, 0xd62f105d) == 0x570c43e0
    ensures Set(0x5dcee119, 0x570c43e0, G(0x570c43e0, 0x4c2145b3, 0xedfe7e4b), 0, 9, 0x02441453) == 0x977efd2a
    ensures Set(0xedfe7e4b, 0x977efd2a, G(0x977efd2a, 0x570c43e0, 0x4c2145b3), 0, 14, 0xd8a1e681) == 0xc28ab49d
    ensures Set(0x4c2145b3, 0xc28ab49d, G(0xc28ab49d, 0x977efd2a, 0x570c43e0), 0x74737271, 20, 0xe7d3fbc8) == 0xc9f162d4
    ensures Set(0x570c43e0, 0xc9f162d4, G(0xc9f162d4, 0xc28ab49d, 0x977efd2a), 0, 5, 0x21e1cde6) == 0x25bfae3b
    ensures Set(0x977efd2a, 0x25bfae3b, G(0x25bfae3b, 0xc9f162d4, 0xc28ab49d), 0x000000d0, 9, 0xc33707d6) == 0x89980104
    ensures Set(0xc28ab49d, 0x89980104, G(0x89980104, 0x25bfae3b, 0xc9f162d4), 0x706f6e6d, 14, 0xf4d50d87) == 0xf8c8365f
    ensures Set(0xc9f162d4, 0xf8c8365f, G(0xf8c8365f, 0x89980104, 0x25bfae3b), 0, 20, 0x455a14ed) == 0xe6d3b398
    ensures Set(0x25bfae3b, 0xe6d3b398, G(0xe6d3b398, 0xf8c8365f, 0x89980104), 0, 5, 0xa9e3e905) == 0xf54d8710
    ensures Set(0x89980104, 0xf54d8710, G(0xf54d8710, 0xe6d3b398, 0xf8c8365f), 0x6c6b6a69, 9, 0xfcefa3f8) == 0x927b72e2
    ensures Set(0xf8c8365f, 0x927b72e2, G(0x927b72e2, 0xf54d8710, 0xe6d3b398), 0, 14, 0x676f02d9) == 0x2e69afc7
    ensures Set(0xe6d3b398, 0x2e69afc7, G(0x2e69afc7, 0x927b72e2, 0xf54d8710), 0, 20, 0x8d2a4c8a) == 0xaeb35766
  {
  }

  lemma {:induction false} Steps2(X: seq<Word>)
    requires IsBlock(X) && Mix(INITIAL, X, 16) == Regs(0x1754a316, 0x608d6b7e, 0x00df74d5, 0x85567d90)
    ensures Mix(INITIAL, X, 32) == Regs(0xf54d8710, 0xaeb35766, 0x2e69afc7, 0x927b72e2)
  {
    hide Mix, Set, Aux, G, T, Select, Shift, SameRotation;
    Sets2();
    Table2();
    Functions2(16);
    Quad(INITIAL, X, 16, 5, 9, 14, 20);
    Functions2(20);
    Quad(INITIAL, X, 20, 5, 9, 14, 20);
    Functions2(24);
    Quad(INITIAL, X, 24, 5, 9, 14, 20);
    Functions2(28);
    Quad(INITIAL, X, 28, 5, 9, 14, 20);
  }

  lemma Sets3()
    ensures Set(0xf54d8710, 0xaeb35766, H(0xaeb35766, 0x2e69afc7, 0x927b72e2), 0x78777675, 4, 0xfffa3942) == 0xb4bf680e
    ensures Set(0x927b72e2, 0xb4bf680e, H(0xb4bf680e, 0xaeb35766, 0x2e69afc7), 0, 11, 0x8771f681) == 0x4c8ffa80
    ensures Set(0x2e69afc7, 0x4c8ffa80, H(0x4c8ffa80, 0xb4bf680e, 0xaeb35766), 0, 16, 0x6d9d6122) == 0x2361ed0a
    ensures Set(0xaeb35766, 0x2361ed0a, H(0x2361ed0a, 0x4c8ffa80, 0xb4bf680e), 0x000000d0, 23, 0xfde5380c) == 0x06a5e211
    ensures Set(0xb4bf680e, 0x06a5e211, H(0x06a5e211, 0x2361ed0a, 0x4c8ffa80), 0x68676665, 4, 0xa4beea44) == 0xb9c0c733
    ensures Set(0x4c8ffa80, 0xb9c0c733, H(0xb9c0c733, 0x06a5e211, 0x2361ed0a), 0x74737271, 11, 0x4bdecfa9) == 0xf1e6dc7a
    ensures Set(0x2361ed0a, 0xf1e6dc7a, H(0xf1e6dc7a, 0xb9c0c733, 0x06a5e211), 0, 16, 0xf6bb4b60) == 0x23a9451b
    ensures Set(0x06a5e211, 0x23a9451b, H(0x23a9451b, 0xf1e6dc7a, 0xb9c0c733), 0, 23, 0xbebfbc70) == 0x8d41bf99
    ensures Set(0xb9c0c733, 0x8d41bf99, H(0x8d41bf99, 0x23a9451b, 0xf1e6dc7a), 0, 4, 0x289b7ec6) == 0xa3e88ead
    ensures Set(0xf1e6dc7a, 0xa3e88ead, H(0xa3e88ead, 0x8d41bf99, 0x23a9451b), 0x64636261, 11, 0xeaa127fa) == 0x02c0b11c
    ensures Set(0x23a9451b, 0x02c0b11c, H(0x02c0b11c, 0xa3e88ead, 0x8d41bf99), 0x706f6e6d, 16, 0xd4ef3085) == 0x66f6468d
    ensures Set(0x8d41bf99, 0x66f6468d, H(0x66f6468d, 0x02c0b11c, 0xa3e88ead), 0x00807a79, 23, 0x04881d05) == 0x90a35af5
    ensures Set(0xa3e88ead, 0x90a35af5, H(0x90a35af5, 0x66f6468d, 0x02c0b11c), 0, 4, 0xd9d4d039) == 0xb5d41f9c
    ensures Set(0x02c0b11c, 0xb5d41f9c, H(0xb5d41f9c, 0x90a35af5, 0x66f6468d), 0, 11, 0xe6db99e5) == 0xa04b4904
    ensures Set(0x66f6468d, 0xa04b4904, H(0xa04b4904, 0xb5d41f9c, 0x90a35af5), 0, 16, 0x1fa27cf8) == 0x703d54d8
    ensures Set(0x90a35af5, 0x703d54d8, H(0x703d54d8, 0xa04b4904, 0xb5d41f9c), 0x6c6b6a69, 23, 0xc4ac5665) == 0x71d10367
  {
  }

  lemma {:induction false} Steps3(X: seq<Word>)
    requires IsBlock(X) && Mix(INITIAL, X, 32) == Regs(0xf54d8710, 0xaeb35766, 0x2e69afc7, 0x927b72e2)
    ensures Mix(INITIAL, X, 48) == Regs(0xb5d41f9c, 0x71d10367, 0x703d54d8, 0xa04b4904)
  {
    hide Mix, Set, Aux, H, T, Select, Shift, SameRotation;
    Sets3();
    Table3();
    Functions3(32);
    Quad(INITIAL, X, 32, 4, 11, 16, 23);
    Functions3(36);
    Quad(INITIAL, X, 36, 4, 11, 16, 23);
    Functions3(40);
    Quad(INITIAL, X, 40, 4, 11, 16, 23);
    Functions3(44);
    Quad(INITIAL, X, 44, 4, 11, 16, 23);
  }

  lemma Sets4()
    ensures Set(0xb5d41f9c, 0x71d10367, I(0x71d10367, 0x703d54d8, 0xa04b4904), 0x64636261, 6, 0xf4292244) == 0xfc32dd6e
    ensures Set(0xa04b4904, 0xfc32dd6e, I(0xfc32dd6e, 0x71d10367, 0x703d54d8), 0, 10, 0x432aff97) == 0x65456b34
    ensures Set(0x703d54d8, 0x65456b34, I(0x65456b34, 0xfc32dd6e, 0x71d10367), 0x000000d0, 15, 0xab9423a7) == 0xb35602cb
    ensures Set(0x71d10367, 0xb35602cb, I(0xb35602cb, 0x65456b34, 0xfc32dd6e), 0x78777675, 21, 0xfc93a039) == 0x33edb197
    ensures Set(0xfc32dd6e, 0x33edb197, I(0x33edb197, 0xb35602cb, 0x65456b34), 0, 6, 0x655b59c3) == 0xc1e942f1
    ensures Set(0x65456b34, 0xc1e942f1, I(0xc1e942f1, 0x33edb197, 0xb35602cb), 0x706f6e6d, 10, 0x8f0ccc92) == 0xd9bb987c
    ensures Set(0xb35602cb, 0xd9bb987c, I(0xd9bb987c, 0xc1e942f1, 0x33edb197), 0, 15, 0xffeff47d) == 0x23a68048
    ensures Set(0x33edb197, 0x23a68048, I(0x23a68048, 0xd9bb987c, 0xc1e942f1), 0x68676665, 21, 0x85845dd1) == 0x83877d1b
    ensures Set(0xc1e942f1, 0x83877d1b, I(0x83877d1b, 0x23a68048, 0xd9bb987c), 0, 6, 0x6fa87e4f) == 0x0077c208
    ensures Set(0xd9bb987c, 0x0077c208, I(0x0077c208, 0x83877d1b, 0x23a68048), 0, 10, 0xfe2ce6e0) == 0x847fc2e7
    ensures Set(0x23a68048, 0x847fc2e7, I(0x847fc2e7, 0x0077c208, 0x83877d1b), 0x00807a79, 15, 0xa3014314) == 0xa3e2247f
    ensures Set(0x83877d1b, 0xa3e2247f, I(0xa3e2247f, 0x847fc2e7, 0x0077c208), 0, 21, 0x4e0811a1) == 0x5e6bc930
    ensures Set(0x0077c208, 0x5e6bc930, I(0x5e6bc930, 0xa3e2247f, 0x847fc2e7), 0x74737271, 6, 0xf7537e82) == 0x708ed9c2
    ensures Set(0x847fc2e7, 0x708ed9c2, I(0x708ed9c2, 0x5e6bc930, 0xa3e2247f), 0, 10, 0xbd3af235) == 0x2baf1354
    ensures Set(0xa3e2247f, 0x2baf1354, I(0x2baf1354, 0x708ed9c2, 0x5e6bc930), 0x6c6b6a69, 15, 0x2ad7d2bb) == 0xd38f1e7f
    ensures Set(0x5e6bc930, 0xd38f1e7f, I(0xd38f1e7f, 0x2baf1354, 0x708ed9c2), 0, 21, 0xeb86d391) == 0x1116e6d8
  {
  }

  lemma {:induction false} Steps4(X: seq<Word>)
    requires IsBlock(X) && Mix(INITIAL, X, 48) == Regs(0xb5d41f9c, 0x71d10367, 0x703d54d8, 0xa04b4904)
    ensures Mix(INITIAL, X, 64) == Regs(0x708ed9c2, 0x1116e6d8, 0xd38f1e7f, 0x2baf1354)
  {
    hide Mix, Set, Aux, I, T, Select, Shift, SameRotation;
    Sets4();
    Table4();
    Functions4(48);
    Quad(INITIAL, X, 48, 6, 10, 15, 21);
    Functions4(52);
    Quad(INITIAL, X, 52, 6, 10, 15, 21);
    Functions4(56);
    Quad(INITIAL, X, 56, 6, 10, 15, 21);
    Functions4(60);
    Quad(INITIAL, X, 60, 6, 10, 15, 21);
  }

  // ---------- the padded message ----------

  /** The alphabet, one byte for the bit, then zeros but for one byte near the end. */
  ghost predicate IsPadded(b: seq<Byte>) {
    && |b| == 64 && (forall k | 0 <= k < 26 :: b[k] == ALPHABET[k]) && b[26] == 0x80 && b[56] == 208
    && forall k | 27 <= k < 64 && k != 56 :: b[k] == 0
  }

  lemma {:induction false} NoBytes(n: nat)
    ensures LittleEndian(0, n) == Zeros(n)
  {
    if n > 0 {
      LittleEndianStep(0, n - 1);
      NoBytes(n - 1);
      assert ByteOf(0) == 0;
    }
  }

  lemma {:induction false} Length()
    ensures LittleEndian(BitLength(26), 8) == [208] + Zeros(7)
  {
    hide LittleEndian;
    LittleEndianStep(208, 7);
    NoBytes(7);
    assert ByteOf(208) == 208;
  }

  lemma Padded()
    ensures IsPadded(Pad(ALPHABET))
  {
    hide LittleEndian, BitLength;
    Length();
    assert |Padding(26)| == 30;
  }

  lemma WordsOfAlphabet()
    ensures DecodeWord([0x61, 0x62, 0x63, 0x64]) == 0x64636261 && DecodeWord([0x65, 0x66, 0x67, 0x68]) == 0x68676665
    ensures DecodeWord([0x69, 0x6a, 0x6b, 0x6c]) == 0x6c6b6a69 && DecodeWord([0x6d, 0x6e, 0x6f, 0x70]) == 0x706f6e6d
    ensures DecodeWord([0x71, 0x72, 0x73, 0x74]) == 0x74737271 && DecodeWord([0x75, 0x76, 0x77, 0x78]) == 0x78777675
    ensures DecodeWord([0x79, 0x7a, 0x80, 0]) == 0x00807a79
    ensures DecodeWord([208, 0, 0, 0]) == 208 && DecodeWord([0, 0, 0, 0]) == 0
  {
  }

  lemma WordOf(b: seq<Byte>, i: nat, b0: Byte, b1: Byte, b2: Byte, b3: Byte)
    requires |b| == 64 && i < 16
    requires b[4 * i] == b0 && b[4 * i + 1] == b1 && b[4 * i + 2] == b2 && b[4 * i + 3] == b3
    ensures Words(b)[i] == DecodeWord([b0, b1, b2, b3])
  {
    hide DecodeWord;
    assert b[4 * i..4 * i + 4] == [b0, b1, b2, b3];
  }

  lemma Letters1(b: seq<Byte>)
    requires IsPadded(b)
    ensures Words(b)[0] == 0x64636261 && Words(b)[1] == 0x68676665
  {
    hide DecodeWord, Words;
    WordsOfAlphabet();
    WordOf(b, 0, 0x61, 0x62, 0x63, 0x64);
    WordOf(b, 1, 0x65, 0x66, 0x67, 0x68);
  }

  lemma Letters2(b: seq<Byte>)
    requires IsPadded(b)
    ensures Words(b)[2] == 0x6c6b6a69 && Words(b)[3] == 0x706f6e6d
  {
    hide DecodeWord, Words;
    WordsOfAlphabet();
    WordOf(b, 2, 0x69, 0x6a, 0x6b, 0x6c);
    WordOf(b, 3, 0x6d, 0x6e, 0x6f, 0x70);
  }

  lemma Letters3(b: seq<Byte>)
    requires IsPadded(b)
    ensures Words(b)[4] == 0x74737271 && Words(b)[5] == 0x78777675
  {
    hide DecodeWord, Words;
    WordsOfAlphabet();
    WordOf(b, 4, 0x71, 0x72, 0x73, 0x74);
    WordOf(b, 5, 0x75, 0x76, 0x77, 0x78);
  }

  lemma AfterLetters(b: seq<Byte>)
    requires IsPadded(b)
    ensures Words(b)[6] == 0x00807a79 && Words(b)[14] == 208
    ensures forall k | 7 <= k < 16 && k != 14 :: Words(b)[k] == 0
  {
    hide DecodeWord, Words;
    WordsOfAlphabet();
    WordOf(b, 6, 0x79, 0x7a, 0x80, 0);
    WordOf(b, 14, 208, 0, 0, 0);
    forall k | 7 <= k < 16 && k != 14
      ensures Words(b)[k] == 0
    {
      WordOf(b, k, 0, 0, 0, 0);
    }
  }

  lemma Block(b: seq<Byte>)
    requires IsPadded(b)
    ensures IsBlock(Words(b))
  {
    hide Words;
    Letters1(b);
    Letters2(b);
    Letters3(b);
    AfterLetters(b);
  }

  // ---------- the digest ----------

  lemma {:induction false} Start(X: seq<Word>)
    requires |X| == 16
    ensures Mix(INITIAL, X, 0) == INITIAL
  {
  }

  lemma {:induction false} OneBlock(p: seq<Byte>)
    requires |p| == 64
    ensures Absorb(p, 1) == Compress(INITIAL, p)
  {
    hide Compress;
    assert p[64 * (1 - 1)..64 * 1] == p;
    assert Absorb(p, 0) == INITIAL;
  }

  lemma LastSums(block: seq<Byte>)
    requires |block| == 64
    requires Mix(INITIAL, Words(block), 64) == Regs(0x708ed9c2, 0x1116e6d8, 0xd38f1e7f, 0x2baf1354)
    ensures Compress(INITIAL, block) == Regs(0xd7d3fcc3, 0x00e49261, 0x6c49fb7d, 0x3be167ca)
  {
    hide Mix, Words;
  }

  lemma LastBytes()
    ensures Output(Regs(0xd7d3fcc3, 0x00e49261, 0x6c49fb7d, 0x3be167ca))
         == [0xc3, 0xfc, 0xd3, 0xd7, 0x61, 0x92, 0xe4, 0x00, 0x7d, 0xfb, 0x49, 0x6c, 0xca, 0x67, 0xe1, 0x3b]
  {
  }

  /** MD5("abcdefghijklmnopqrstuvwxyz") is c3fcd3d76192e4007dfb496cca67e13b. */
  lemma DigestOfAlphabet()
    ensures Digest(ALPHABET)
         == [0xc3, 0xfc, 0xd3, 0xd7, 0x61, 0x92, 0xe4, 0x00, 0x7d, 0xfb, 0x49, 0x6c, 0xca, 0x67, 0xe1, 0x3b]
  {
    Padded();
    hide Mix, Words, Pad, Output, IsBlock, Absorb, Compress;
    var p := Pad(ALPHABET);
    Block(p);
    var X := Words(p);
    Start(X);
    Steps1(X);
    Steps2(X);
    Steps3(X);
    Steps4(X);
    LastSums(p);
    OneBlock(p);
    LastBytes();
  }
}
