/**
 * The streaming MD5 state: a two-word bit counter, four registers and a partly filled block.
 * `msg` is the message appended so far; Valid() says what the three real fields hold of it.
 */
module Md5 {
  import opened Common
  import opened Md5Spec
  import opened Md5Rounds
  import opened Arithmetic

  const PAD: seq<Byte> := [0x80] + Zeros(63)

  /** (md5_byte_t)(count >> 8*j) */
  function CounterByte(count: nat, j: nat): Byte
    requires j < 4
  {
    match j
    case 0 => ByteOf(count % 256)
    case 1 => ByteOf(count / 0x100 % 256)
    case 2 => ByteOf(count / 0x1_0000 % 256)
    case _ => ByteOf(count / 0x100_0000 % 256)
  }

  lemma {:induction false} CounterBytes(count: nat)
    ensures LittleEndian(count, 4)
         == [CounterByte(count, 0), CounterByte(count, 1), CounterByte(count, 2), CounterByte(count, 3)]
  {
    hide ByteOf;
    var c1, c2, c3 := count / 256, count / 256 / 256, count / 256 / 256 / 256;
    assert c2 == count / 0x1_0000 && c3 == count / 0x100_0000;
    assert LittleEndian(c3, 1) == [ByteOf(c3 % 256)];
    assert LittleEndian(c2, 2) == [ByteOf(c2 % 256)] + LittleEndian(c3, 1);
    assert LittleEndian(c1, 3) == [ByteOf(c1 % 256)] + LittleEndian(c2, 2);
  }

  method Memcpy(dst: array<Byte>, at: nat, src: seq<Byte>)
    requires at + |src| <= dst.Length
    modifies dst
    ensures dst[..] == old(dst[..at]) + src + old(dst[at + |src|..])
  {
    forall i | 0 <= i < |src| {
      dst[at + i] := src[i];
    }
  }

  class State {
    const count: array<nat>  // message length in bits, low-order word first
    const abcd: array<Word>
    const buf: array<Byte>

    ghost var msg: seq<Byte>

    ghost predicate Shape() {
      && count.Length == 2 && abcd.Length == 4 && buf.Length == 64
      && count as object != abcd && count as object != buf && abcd as object != buf
    }

    function Registers(): Regs
      requires Shape()
      reads abcd
    {
      Regs(abcd[0], abcd[1], abcd[2], abcd[3])
    }

    /** The counter stands for the bit length of `n` bytes. */
    ghost predicate Counts(n: nat)
      requires Shape()
      reads count
    {
      && count[0] < TWO_TO_THE_32 && count[1] < TWO_TO_THE_32
      && count[0] + TWO_TO_THE_32 * count[1] == BitLength(n)
    }

    /** The registers have absorbed `n` blocks of `m` and the buffer holds the `fill` bytes after them. */
    ghost predicate Holds(m: seq<Byte>, n: nat, fill: nat)
      requires Shape()
      reads abcd, buf
    {
      && |m| == 64 * n + fill && fill < 64
      && Registers() == Absorb(m, n)
      && buf[..fill] == m[64 * n..]
    }

    ghost predicate Valid()
      reads this, count, abcd, buf
    {
      Shape() && Counts(|msg|) && Holds(msg, |msg| / 64, |msg| % 64)
    }

    /** md5_init */
    constructor ()
      ensures Valid() && fresh(count) && fresh(abcd) && fresh(buf)
      ensures msg == []
    {
      count := new nat[2](_ => 0);
      abcd := new Word[4];
      buf := new Byte[64];
      msg := [];
      new;
      abcd[0], abcd[1], abcd[2], abcd[3] := 0x67452301, 0xefcdab89, 0x98badcfe, 0x10325476;
    }

    /** md5_process */
    method Process(block: seq<Byte>)
      requires Shape() && |block| == 64
      modifies abcd
      ensures Registers() == Compress(old(Registers()), block)
    {
      hide Mix, Words;
      ghost var r := Registers();
      var X := Words(block);
      assert Mix(r, X, 0) == r by { MixNothing(r, X); }
      var a, b, c, d := Round1(abcd[0], abcd[1], abcd[2], abcd[3], X, r);
      a, b, c, d := Round2(a, b, c, d, X, r);
      a, b, c, d := Round3(a, b, c, d, X, r);
      a, b, c, d := Round4(a, b, c, d, X, r);
      abcd[0] := Add(abcd[0], a);
      abcd[1] := Add(abcd[1], b);
      abcd[2] := Add(abcd[2], c);
      abcd[3] := Add(abcd[3], d);
    }

    /** The length update of md5_append: the low word carries into the high word, the high word wraps. */
    method UpdateLength(nbytes: nat, ghost n: nat)
      requires Shape() && Counts(n)
      modifies count
      ensures Counts(n + nbytes)
    {
      hide BitLength, Wrap;
      var nbits := Wrap(8 * nbytes);
      count[1] := Wrap(count[1] + nbytes / 0x2000_0000);
      count[0] := Wrap(count[0] + nbits);
      if count[0] < nbits {
        count[1] := Wrap(count[1] + 1);
      }
      CounterCarries(old(count[0]), old(count[1]), n, nbytes, count[0], count[1]);
    }

    /** The low word gives the fill of the buffer, whatever has been lost above 64 bits. */
    lemma FillFromCounter(n: nat)
      requires Shape() && Counts(n)
      ensures count[0] / 8 % 64 == n % 64
    {
      hide BitLength;
      FillOfLowWord(count[0], count[1], n);
    }

    /** memcpy(pms->buf + offset, p, copy), for a buffer that holds the first bytes of `block`. */
    method FillBuffer(offset: nat, bytes: seq<Byte>, ghost block: seq<Byte>)
      requires Shape() && offset + |bytes| <= 64
      requires block == buf[..offset] + bytes
      modifies buf
      ensures buf[..|block|] == block
    {
      Memcpy(buf, offset, bytes);
    }

    /** The full blocks of md5_append: they bypass the buffer. */
    method ProcessBlocks(data: seq<Byte>, start: nat, ghost m: seq<Byte>, ghost n: nat)
      returns (p: nat, left: nat, ghost k: nat)
      requires Shape() && 64 * n <= |m| && Registers() == Absorb(m, n)
      requires start <= |data| && data[start..] == m[64 * n..]
      modifies abcd
      ensures left < 64 && p + left == |data|
      ensures |m| == 64 * k + left && data[p..] == m[64 * k..]
      ensures Registers() == Absorb(m, k)
    {
      hide Compress, Absorb;
      p, left := start, |data| - start;
      k := n;
      while left >= 64
        invariant p + left == |data| && n <= k && p - start == 64 * (k - n)
        invariant 64 * k <= |m| && Registers() == Absorb(m, k)
        invariant data[p..] == m[64 * k..]
      {
        assert data[p..p + 64] == data[p..][..64] == m[64 * k..][..64] == m[64 * k..64 * k + 64];
        Process(data[p..p + 64]);
        AbsorbNext(m, k);
        assert data[p + 64..] == data[p..][64..] == m[64 * k..][64..] == m[64 * k + 64..];
        p := p + 64;
        left := left - 64;
        k := k + 1;
      }
    }

    /** The initial partial block of md5_append; `full` says that it was completed and processed. */
    method TopUp(data: seq<Byte>, offset: nat, ghost was: seq<Byte>, ghost n: nat) returns (full: bool, p: nat)
      requires Shape() && Holds(was, n, offset) && offset > 0
      modifies abcd, buf
      ensures !full ==> Holds(was + data, n, offset + |data|)
      ensures full ==>
        var m := was + data;
        && p <= |data| && 64 * (n + 1) <= |m| && data[p..] == m[64 * (n + 1)..]
        && Registers() == Absorb(m, n + 1)
    {
      hide Compress, Absorb;
      ghost var m := was + data;
      AbsorbPrefix(was, data, n);
      var copy := if offset + |data| > 64 then 64 - offset else |data|;
      assert m[64 * n..64 * n + offset + copy] == was[64 * n..] + data[..copy];
      FillBuffer(offset, data[..copy], m[64 * n..64 * n + offset + copy]);
      p := copy;
      full := offset + copy >= 64;
      if full {
        assert buf[..] == buf[..64] == m[64 * n..64 * n + 64];
        Process(buf[..]);
        AbsorbNext(m, n);
      } else {
        assert m[64 * n..64 * n + offset + copy] == m[64 * n..];
      }
    }

    /** The final partial block of md5_append. */
    method KeepTail(data: seq<Byte>, p: nat, left: nat, ghost m: seq<Byte>, ghost n: nat)
      requires Shape() && left < 64 && p + left == |data|
      requires |m| == 64 * n + left && data[p..] == m[64 * n..] && Registers() == Absorb(m, n)
      modifies buf
      ensures Holds(m, |m| / 64, |m| % 64)
    {
      hide Compress, Absorb;
      if left != 0 {
        Memcpy(buf, 0, data[p..p + left]);
      }
      assert buf[..left] == m[64 * n..];
      BlockCount(n, left);
    }

    static lemma BlockCount(n: nat, left: nat)
      requires left < 64
      ensures (64 * n + left) / 64 == n && (64 * n + left) % 64 == left
    {
    }

    /** The part of md5_append that moves bytes into the buffer and the registers. */
    method Take(data: seq<Byte>, offset: nat, ghost was: seq<Byte>, ghost n: nat)
      requires Shape() && Holds(was, n, offset) && data != []
      modifies abcd, buf
      ensures Holds(was + data, |was + data| / 64, |was + data| % 64)
    {
      hide Compress, Absorb;
      ghost var m, k := was + data, n;
      var p, left := 0, |data|;
      if offset != 0 {
        var full;
        full, p := TopUp(data, offset, was, n);
        if !full {
          BlockCount(n, offset + |data|);
          return;
        }
        k := n + 1;
      } else {
        AbsorbPrefix(was, data, n);
      }
      p, left, k := ProcessBlocks(data, p, m, k);
      KeepTail(data, p, left, m, k);
    }

    /** An int holds the number of bytes, and `offset + nbytes` where a partial block makes it matter. */
    ghost predicate Takes(nbytes: int)
      reads this
    {
      nbytes <= INT_MAX && (|msg| % 64 > 0 ==> |msg| % 64 + nbytes <= INT_MAX)
    }

    /** md5_append: the counter carries between its words, and a partial block waits in the buffer. */
    method Append(data: seq<Byte>, nbytes: int)
      requires Valid() && nbytes <= |data| && Takes(nbytes)
      modifies this, count, abcd, buf
      ensures Valid()
      ensures msg == if nbytes <= 0 then old(msg) else old(msg) + data[..nbytes]
    {
      hide Compress, Absorb, Counts, Holds;
      var offset := count[0] / 8 % 64;
      FillFromCounter(|msg|);
      if nbytes <= 0 {
        return;
      }
      UpdateLength(nbytes, |msg|);
      Take(data[..nbytes], offset, msg, |msg| / 64);
      msg := msg + data[..nbytes];
    }

    /** The first loop of md5_finish: the length before padding, low-order byte first. */
    method LengthBytes(ghost n: nat) returns (data: seq<Byte>)
      requires Shape() && Counts(n)
      ensures data == LittleEndian(BitLength(n), 8)
    {
      hide CounterByte, LittleEndian, BitLength;
      data := [];
      for i := 0 to 8
        invariant |data| == i
        invariant forall k | 0 <= k < i :: data[k] == CounterByte(count[k / 4], k % 4)
      {
        data := data + [CounterByte(count[i / 4], i % 4)];
      }
      CounterBytes(count[0]);
      CounterBytes(count[1]);
      LittleEndianPair(count[0], count[1]);
      assert data == LittleEndian(count[0], 4) + LittleEndian(count[1], 4);
    }

    /** The last loop of md5_finish. */
    method DigestBytes() returns (digest: seq<Byte>)
      requires Shape()
      ensures digest == Output(Registers())
    {
      hide WordByte, Output;
      digest := [];
      for i := 0 to 16
        invariant digest == Output(Registers())[..i]
      {
        OutputAt(Registers(), i);
        digest := digest + [WordByte(abcd[i / 4], i % 4)];
      }
    }

    /** How many bytes md5_finish takes from its pad array. */
    method PadCount(ghost n: nat) returns (p: nat)
      requires Shape() && Counts(n)
      ensures p <= 64 && PAD[..p] == Padding(n)
    {
      hide BitLength, Padding, PAD;
      FillFromCounter(n);
      var low: int := count[0] / 8;
      p := (55 - low) % 64 + 1;
      SamePadCount(low, n);
      PadPrefix(n, p);
    }

    /** md5_finish */
    method Finish() returns (digest: seq<Byte>)
      requires Valid()
      modifies this, count, abcd, buf
      ensures Valid() && msg == Pad(old(msg))
      ensures digest == Digest(old(msg))
    {
      assert |PAD| == 64;
      hide Absorb, Compress, LittleEndian, BitLength, Output, Counts, Padding, PAD;
      ghost var was := msg;
      var data := LengthBytes(|was|);
      var n := PadCount(|was|);
      Append(PAD, n);
      Append(data, 8);
      assert msg == Pad(was) by {
        assert data[..8] == data;
      }
      digest := DigestBytes();
    }
  }

  lemma FillOfLowWord(lo: nat, hi: nat, n: nat)
    requires lo + TWO_TO_THE_32 * hi == BitLength(n)
    ensures lo / 8 % 64 == n % 64
  {
    var k, q := 8 * n / TWO_TO_THE_64, lo / 8;
    assert 8 * n == lo + TWO_TO_THE_32 * hi + TWO_TO_THE_64 * k;
    assert n == q + 0x2000_0000 * hi + 0x2000_0000_0000_0000 * k;
    RemainderUnique(n, 64, q % 64, q / 64 + 0x80_0000 * hi + 0x80_0000_0000_0000 * k);
  }

  lemma SamePadCount(a: nat, b: nat)
    requires a % 64 == b % 64
    ensures (55 - a) % 64 == (55 - b) % 64
  {
    var s, t := (55 - b) % 64, (55 - b) / 64;
    assert 55 - a == s + 64 * (t + b / 64 - a / 64);
    RemainderUnique(55 - a, 64, s, t + b / 64 - a / 64);
  }

  /** The bytes that md5_finish takes from its pad array are the padding of the specification. */
  lemma PadPrefix(n: nat, p: nat)
    requires p == (55 - n) % 64 + 1
    ensures p <= 64 && PAD[..p] == Padding(n)
  {
    PaddingUnique(n, p);
  }

  function Register(r: Regs, i: nat): Word {
    match i case 0 => r.a case 1 => r.b case 2 => r.c case _ => r.d
  }

  lemma OutputAt(r: Regs, k: nat)
    requires k < 16
    ensures Output(r)[k] == WordByte(Register(r, k / 4), k % 4)
  {
    hide EncodeWord, WordByte;
    EncodeWordAt(Register(r, k / 4), k % 4);
    if k < 4 {
      assert Output(r)[k] == EncodeWord(r.a)[k];
    } else if k < 8 {
      assert Output(r)[k] == EncodeWord(r.b)[k - 4];
    } else if k < 12 {
      assert Output(r)[k] == EncodeWord(r.c)[k - 8];
    } else {
      assert Output(r)[k] == EncodeWord(r.d)[k - 12];
    }
  }

  lemma EncodeWordAt(w: Word, j: nat)
    requires j < 4
    ensures EncodeWord(w)[j] == WordByte(w, j)
  {
    hide WordByte;
  }

  /** The value an unsigned 32-bit word keeps of x. */
  function Wrap(x: nat): (r: nat)
    ensures r < TWO_TO_THE_32
  {
    x % TWO_TO_THE_32
  }

  lemma WrapSplit(x: nat) returns (q: nat)
    ensures x == Wrap(x) + TWO_TO_THE_32 * q
    ensures q == x / TWO_TO_THE_32
  {
    q := x / TWO_TO_THE_32;
  }

  /** Adding to the two words with a carry adds to the 64-bit number they stand for. */
  lemma CounterCarries(lo: nat, hi: nat, n: nat, nbytes: nat, lo': nat, hi': nat)
    requires lo < TWO_TO_THE_32 && hi < TWO_TO_THE_32 && lo + TWO_TO_THE_32 * hi == BitLength(n)
    requires
      var h := Wrap(hi + nbytes / 0x2000_0000);
      && lo' == Wrap(lo + Wrap(8 * nbytes))
      && hi' == if lo' < Wrap(8 * nbytes) then Wrap(h + 1) else h
    ensures lo' + TWO_TO_THE_32 * hi' == BitLength(n + nbytes)
  {
    hide Wrap;
    var q := WrapSplit(8 * nbytes);
    assert q == nbytes / 0x2000_0000;
    var nbits, h := Wrap(8 * nbytes), Wrap(hi + q);
    CarryOut(lo, nbits);
    var k := WrapSplit(hi + q);
    var k' := 0;
    if lo' < nbits {
      k' := WrapSplit(h + 1);
    }
    Recombine(lo', hi', lo + TWO_TO_THE_32 * hi, 8 * nbytes, 8 * n / TWO_TO_THE_64, k + k');
  }

  /** The carry out of the low word is found by comparing the wrapped sum with an operand. */
  lemma CarryOut(x: nat, y: nat)
    requires x < TWO_TO_THE_32 && y < TWO_TO_THE_32
    ensures x + y == Wrap(x + y) + TWO_TO_THE_32 * (if Wrap(x + y) < y then 1 else 0)
  {
  }

  lemma Recombine(lo: nat, hi: nat, v: nat, w: nat, j: nat, k: nat)
    requires lo < TWO_TO_THE_32 && hi < TWO_TO_THE_32
    requires v + w == lo + TWO_TO_THE_32 * hi + TWO_TO_THE_64 * k
    ensures (v + TWO_TO_THE_64 * j + w) % TWO_TO_THE_64 == lo + TWO_TO_THE_32 * hi
  {
    RemainderUnique(v + TWO_TO_THE_64 * j + w, TWO_TO_THE_64, lo + TWO_TO_THE_32 * hi, j + k);
  }

  lemma {:induction false} MixNothing(r: Regs, X: seq<Word>)
    requires |X| == 16
    ensures Mix(r, X, 0) == r
  {
  }

  lemma AbsorbNext(s: seq<Byte>, n: nat)
    requires 64 * (n + 1) <= |s|
    ensures Absorb(s, n + 1) == Compress(Absorb(s, n), s[64 * n..64 * n + 64])
  {
    hide Compress;
    assert 64 * (n + 1) == 64 * n + 64;
  }

  function Flatten(chunks: seq<seq<Byte>>): seq<Byte> {
    if chunks == [] then [] else Flatten(chunks[..|chunks| - 1]) + chunks[|chunks| - 1]
  }

  /** Every append gets what it can take. */
  ghost predicate ChunksFit(chunks: seq<seq<Byte>>) {
    forall i | 0 <= i < |chunks| ::
      var offset := |Flatten(chunks[..i])| % 64;
      |chunks[i]| <= INT_MAX && (offset > 0 ==> offset + |chunks[i]| <= INT_MAX)
  }

  /** init, one append a chunk, finish: the digest depends only on the bytes, not on how they are cut. */
  method DigestOfChunks(chunks: seq<seq<Byte>>) returns (digest: seq<Byte>)
    requires ChunksFit(chunks)
    ensures digest == Digest(Flatten(chunks))
  {
    hide Digest, State.Valid;
    var state := new State();
    for i := 0 to |chunks|
      invariant state.Valid() && state.msg == Flatten(chunks[..i])
      invariant fresh(state) && fresh(state.count) && fresh(state.abcd) && fresh(state.buf)
    {
      assert chunks[..i + 1][..i] == chunks[..i];
      state.Append(chunks[i], |chunks[i]|);
    }
    assert chunks[..|chunks|] == chunks;
    digest := state.Finish();
  }
}
