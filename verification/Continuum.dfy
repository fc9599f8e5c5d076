/**
 * The points that a list of servers contributes to the continuum, and how many they are.
 */
module Continuum {
  import opened Arithmetic
  import Md5
  import Md5Spec
  import opened Md5Values
  import opened Ring
  import opened Text

  datatype ServerInfo = ServerInfo(addr: string, memory: nat)

  // ---------- shares ----------

  function TotalWeight(servers: seq<ServerInfo>): nat {
    if servers == [] then 0 else TotalWeight(servers[..|servers| - 1]) + servers[|servers| - 1].memory
  }

  lemma {:induction false} TotalWithOneMore(servers: seq<ServerInfo>, s: ServerInfo)
    ensures TotalWeight(servers + [s]) == TotalWeight(servers) + s.memory
  {
    assert (servers + [s])[..|servers|] == servers;
  }

  /** pct * 40.0 * n, exactly. */
  function IdealShare(weight: nat, total: nat, n: nat): real
    requires total > 0
  {
    weight as real / total as real * 40.0 * n as real
  }

  /** floorf of the share as the float arithmetic delivers it, with relative error `err`. */
  function Share(weight: nat, total: nat, n: nat, err: real): int
    requires total > 0
  {
    (IdealShare(weight, total, n) * (1.0 + err)).Floor
  }

  function Hashes(n: nat): real {
    40.0 * n as real
  }

  function Excess(x: real, d: real): real {
    x * d
  }

  predicate SmallError(d: real, n: nat) {
    0.0 <= d && Excess(Hashes(n), d) < 1.0
  }

  /** Every relative error is at most `d`, and `d` is small enough for `n` servers. */
  ghost predicate ErrorsWithin(errs: seq<real>, d: real, n: nat) {
    && |errs| == n && SmallError(d, n)
    && forall i | 0 <= i < n :: -d <= errs[i] <= d
  }

  function Up(x: real, d: real): real {
    x * (1.0 + d)
  }

  function Down(x: real, d: real): real {
    x * (1.0 - d)
  }

  lemma ShareBounds(weight: nat, total: nat, n: nat, err: real, d: real)
    requires total > 0 && -d <= err <= d
    ensures
      var ideal, share := IdealShare(weight, total, n), Share(weight, total, n, err) as real;
      Down(ideal, d) - 1.0 < share <= Up(ideal, d)
  {
    var x := IdealShare(weight, total, n);
    assert x >= 0.0;
    assert x * (1.0 - d) <= x * (1.0 + err) <= x * (1.0 + d);
  }

  lemma UpDownAdd(x: real, y: real, d: real)
    ensures Up(x + y, d) == Up(x, d) + Up(y, d)
    ensures Down(x + y, d) == Down(x, d) + Down(y, d)
  {
  }

  function ShareSum(servers: seq<ServerInfo>, total: nat, n: nat, errs: seq<real>): int
    requires total > 0 && |servers| <= |errs|
  {
    if servers == [] then 0
    else
      var k := |servers| - 1;
      ShareSum(servers[..k], total, n, errs) + Share(servers[k].memory, total, n, errs[k])
  }

  lemma {:induction false} ShareSumBounds(servers: seq<ServerInfo>, total: nat, n: nat, errs: seq<real>, d: real)
    requires total > 0 && |servers| <= n && ErrorsWithin(errs, d, n)
    ensures
      var ideal := IdealShare(TotalWeight(servers), total, n);
      var sum := ShareSum(servers, total, n, errs) as real;
      && sum <= Up(ideal, d)
      && (if servers == [] then sum == Down(ideal, d) else sum > Down(ideal, d) - |servers| as real)
  {
    hide Share, IdealShare, Up, Down;
    if servers == [] {
      ShareSumOfNone(total, n, d);
    } else {
      var k := |servers| - 1;
      var w, rest := servers[k].memory, TotalWeight(servers[..k]);
      ShareSumBounds(servers[..k], total, n, errs, d);
      ShareBounds(w, total, n, errs[k], d);
      IdealShareAdds(rest, w, total, n);
      UpDownAdd(IdealShare(rest, total, n), IdealShare(w, total, n), d);
    }
  }

  lemma ShareSumOfNone(total: nat, n: nat, d: real)
    requires total > 0
    ensures Up(IdealShare(0, total, n), d) == 0.0 == Down(IdealShare(0, total, n), d)
  {
  }

  lemma IdealShareAdds(v: nat, w: nat, total: nat, n: nat)
    requires total > 0
    ensures IdealShare(v + w, total, n) == IdealShare(v, total, n) + IdealShare(w, total, n)
  {
    var t, a, b := total as real, v as real, w as real;
    assert (a + b) / t == a / t + b / t;
    var p, q := a / t, b / t;
    assert (p + q) * 40.0 * n as real == p * 40.0 * n as real + q * 40.0 * n as real;
  }

  /**
   * The generated points fit the 160 slots a server, with any errors that ErrorsWithin allows, and number
   * at least 156 a server and 4 more when the arithmetic is exact.
   */
  lemma {:induction false} PointBudget(servers: seq<ServerInfo>, errs: seq<real>, d: real)
    requires TotalWeight(servers) > 0 && ErrorsWithin(errs, d, |servers|)
    ensures
      var n, points := |servers|, 4 * ShareSum(servers, TotalWeight(servers), |servers|, errs);
      && points <= 160 * n
      && points >= 156 * n
      && (d == 0.0 ==> points >= 156 * n + 4)
  {
    assert servers != [];
    hide Share, IdealShare, Up, Down, ShareSum, TotalWeight, SmallError;
    var n, total := |servers|, TotalWeight(servers);
    var sum := ShareSum(servers, total, n, errs);
    ShareSumBounds(servers, total, n, errs, d);
    WholeShare(total, n, d);
    var ideal := IdealShare(total, total, n);
    Rounded(sum, n, Up(ideal, d), Down(ideal, d), d == 0.0);
  }

  lemma Rounded(sum: int, n: nat, up: real, down: real, exact: bool)
    requires sum as real <= up < (40 * n + 1) as real
    requires (40 * n - 1) as real < down < sum as real + n as real
    requires exact ==> down == (40 * n) as real
    ensures 39 * n <= sum <= 40 * n
    ensures exact ==> 39 * n + 1 <= sum
  {
    assert (40 * n - 1) as real < (sum + n) as real;
    assert exact ==> (40 * n) as real < (sum + n) as real;
  }

  lemma Expand(x: real, d: real)
    ensures Up(x, d) == x + Excess(x, d) && Down(x, d) == x - Excess(x, d)
    ensures d == 0.0 ==> Down(x, d) == x
  {
  }

  /** The shares of all weights together: 40 for each server, give or take less than one. */
  lemma WholeShare(total: nat, n: nat, d: real)
    requires total > 0 && SmallError(d, n)
    ensures
      var x := IdealShare(total, total, n);
      && Up(x, d) < (40 * n + 1) as real && Down(x, d) > (40 * n - 1) as real
      && (d == 0.0 ==> Down(x, d) == (40 * n) as real)
  {
    hide Up, Down, IdealShare, Hashes, Excess;
    FullShare(total, n);
    Expand(Hashes(n), d);
  }

  lemma FullShare(total: nat, n: nat)
    requires total > 0
    ensures IdealShare(total, total, n) == Hashes(n) == (40 * n) as real
  {
    assert total as real / total as real == 1.0;
  }

  // ---------- when there are 160 points a server ----------

  function Exact(n: nat): seq<real> {
    seq(n, _ => 0.0)
  }

  /** The share of 40 hashes a server that falls to this weight is a whole number. */
  predicate Whole(weight: nat, total: nat, n: nat)
    requires total > 0
  {
    40 * n * weight % total == 0
  }

  lemma ShareTimesTotal(weight: nat, total: nat, n: nat)
    requires total > 0
    ensures IdealShare(weight, total, n) * total as real == (40 * n * weight) as real
  {
    var w, t := weight as real, total as real;
    assert w / t * t == w;
    assert w / t * 40.0 * n as real * t == 40.0 * n as real * (w / t * t);
  }

  lemma ScaleByTotal(x: real, q: int, total: nat, y: int)
    requires total > 0 && x * total as real == y as real
    ensures x == q as real <==> y == total * q
  {
    assert q as real * total as real == (total * q) as real;
  }

  /** The floor takes nothing from a share exactly if the share is whole. */
  lemma FloorKeepsWhole(weight: nat, total: nat, n: nat)
    requires total > 0
    ensures
      var ideal, share := IdealShare(weight, total, n), Share(weight, total, n, 0.0) as real;
      share <= ideal && (share == ideal <==> Whole(weight, total, n))
  {
    hide IdealShare;
    var y, share := 40 * n * weight, Share(weight, total, n, 0.0);
    ShareTimesTotal(weight, total, n);
    ScaleByTotal(IdealShare(weight, total, n), share, total, y);
    ScaleByTotal(IdealShare(weight, total, n), y / total, total, y);
    MultipleRemainder(total, share);
  }

  lemma {:induction false} FloorsKeepWhole(servers: seq<ServerInfo>, total: nat, n: nat)
    requires total > 0 && |servers| <= n
    ensures
      var ideal, sum := IdealShare(TotalWeight(servers), total, n), ShareSum(servers, total, n, Exact(n)) as real;
      sum <= ideal && (sum == ideal <==> forall i | 0 <= i < |servers| :: Whole(servers[i].memory, total, n))
  {
    hide Share, IdealShare, Whole;
    if servers == [] {
      ShareSumOfNone(total, n, 0.0);
      Expand(IdealShare(0, total, n), 0.0);
    } else {
      var k := |servers| - 1;
      FloorsKeepWhole(servers[..k], total, n);
      FloorKeepsWhole(servers[k].memory, total, n);
      IdealShareAdds(TotalWeight(servers[..k]), servers[k].memory, total, n);
    }
  }

  /** In exact arithmetic every server gets 160 points on average if and only if every share is whole. */
  lemma {:induction false} FullBudget(servers: seq<ServerInfo>)
    requires TotalWeight(servers) > 0
    ensures
      var n, total := |servers|, TotalWeight(servers);
      4 * ShareSum(servers, total, n, Exact(n)) == 160 * n
      <==> forall i | 0 <= i < n :: 40 * n * servers[i].memory % total == 0
  {
    hide Share, IdealShare, TotalWeight, ShareSum;
    var n, total := |servers|, TotalWeight(servers);
    FloorsKeepWhole(servers, total, n);
    FullShare(total, n);
    assert forall i | 0 <= i < n :: Whole(servers[i].memory, total, n) <==> 40 * n * servers[i].memory % total == 0;
  }

  lemma EqualShare(w: nat, n: nat)
    requires w > 0 && n > 0
    ensures n * w > 0 && Share(w, n * w, n, 0.0) == 40
  {
    var x, y := w as real, n as real;
    assert (n * w) as real == y * x;
    assert x / (y * x) * y == 1.0;
    assert x / (y * x) * 40.0 * y == 40.0;
  }

  lemma {:induction false} SumOfForties(servers: seq<ServerInfo>, total: nat, n: nat)
    requires total > 0 && |servers| <= n
    requires forall i | 0 <= i < |servers| :: Share(servers[i].memory, total, n, 0.0) == 40
    ensures ShareSum(servers, total, n, Exact(n)) == 40 * |servers|
  {
    hide Share;
    if servers != [] {
      SumOfForties(servers[..|servers| - 1], total, n);
    }
  }

  /** In exact arithmetic each server gets its 160 points if and only if all weights are equal. */
  lemma {:induction false} EvenBudget(servers: seq<ServerInfo>)
    requires TotalWeight(servers) > 0
    ensures
      var n, total := |servers|, TotalWeight(servers);
      (forall i | 0 <= i < n :: 4 * Share(servers[i].memory, total, n, 0.0) == 160)
      <==> forall i | 0 <= i < n :: n * servers[i].memory == total
  {
    hide Share, TotalWeight;
    var n, total := |servers|, TotalWeight(servers);
    if forall i | 0 <= i < n :: Share(servers[i].memory, total, n, 0.0) == 40 {
      SumOfForties(servers, total, n);
      FullBudget(servers);
      forall i | 0 <= i < n
        ensures n * servers[i].memory == total
      {
        WholeForty(servers[i].memory, total, n);
      }
    } else if forall i | 0 <= i < n :: n * servers[i].memory == total {
      forall i | 0 <= i < n
        ensures Share(servers[i].memory, total, n, 0.0) == 40
      {
        EqualShare(servers[i].memory, n);
      }
    }
  }

  lemma WholeForty(weight: nat, total: nat, n: nat)
    requires total > 0 && 40 * n * weight % total == 0 && Share(weight, total, n, 0.0) == 40
    ensures n * weight == total
  {
    hide Share, IdealShare;
    FloorKeepsWhole(weight, total, n);
    ShareTimesTotal(weight, total, n);
    assert 40.0 * total as real == (40 * total) as real;
    assert 40 * n * weight == 40 * (n * weight);
  }

  /** Weights 1 and 2: 316 points on 320 slots, the least that two servers can have. */
  lemma OneToTwo(a: string, b: string)
    ensures
      var servers := [ServerInfo(a, 1), ServerInfo(b, 2)];
      TotalWeight(servers) == 3 && 4 * ShareSum(servers, 3, 2, Exact(2)) == 316 == 156 * |servers| + 4
  {
    var s, t := ServerInfo(a, 1), ServerInfo(b, 2);
    assert [s, t][..1] == [s] && [s][..0] == [];
    assert Share(1, 3, 2, 0.0) == 26 && Share(2, 3, 2, 0.0) == 53;
    assert TotalWeight([s]) == 1;
    assert ShareSum([s], 3, 2, Exact(2)) == 26;
  }

  // ---------- points ----------

  /** The bytes of a C string. */
  function Bytes(s: string): seq<Md5Spec.Byte> {
    seq(|s|, i requires 0 <= i < |s| => Md5Spec.ByteOf(s[i] as int % 256))
  }

  /** Word `h` of the final MD5 state of a string. */
  function HashWord(s: string, h: nat): Hash
    requires h < 4
  {
    Md5.Register(Md5Spec.FinalRegs(Bytes(s)), h) as int
  }

  function Label(addr: string, k: nat): string {
    addr + "-" + Decimal(k)
  }

  /** Four points from one digest. */
  function LabelPoints(addr: string, ordinal: nat, k: nat): (ps: seq<Mcs>)
    ensures |ps| == 4
  {
    seq(4, h requires 0 <= h < 4 => Mcs(HashWord(Label(addr, k), h), ordinal))
  }

  function ServerPoints(addr: string, ordinal: nat, count: int): (ps: seq<Mcs>)
    ensures |ps| == if count <= 0 then 0 else 4 * count
  {
    if count <= 0 then [] else ServerPoints(addr, ordinal, count - 1) + LabelPoints(addr, ordinal, count - 1)
  }

  /** The points of `servers`, the first of `n` servers with weights that add up to `total`. */
  function Points(servers: seq<ServerInfo>, total: nat, n: nat, errs: seq<real>): seq<Mcs>
    requires total > 0 && |servers| <= |errs|
  {
    if servers == [] then []
    else
      var k := |servers| - 1;
      Points(servers[..k], total, n, errs)
        + ServerPoints(servers[k].addr, k, Share(servers[k].memory, total, n, errs[k]))
  }

  // ---------- the points, position by position ----------

  /** The bytes of a string of char codes below 256 are those codes. */
  lemma BytesValue(s: string, i: nat)
    requires i < |s|
    ensures |Bytes(s)| == |s| && Bytes(s)[i] as int == s[i] as int % 256
  {
    hide Md5Spec.ByteOf;
    ByteOfValue(s[i] as int % 256);
  }

  /** A hash word is the number in four bytes of the MD5 digest, low-order byte first. */
  lemma HashWordValue(s: string, h: nat)
    requires h < 4
    ensures HashWord(s, h) == Number(Md5Spec.Digest(Bytes(s))[4 * h..4 * h + 4])
  {
    hide Md5Spec.Output, Md5Spec.FinalRegs, Bytes, Number;
    OutputValue(Md5Spec.FinalRegs(Bytes(s)));
    var d := Md5Spec.Digest(Bytes(s));
    assert d[0..4] == d[..4] && d[12..16] == d[12..];
  }

  /** A label is the address, a dash and the number of the digest in decimal. */
  lemma LabelMeaning(addr: string, k: nat)
    ensures
      var n := |addr| + 1;
      && |Label(addr, k)| > n && Label(addr, k)[..n] == addr + "-"
      && AllDigits(Label(addr, k)[n..]) && DigitsValue(Label(addr, k)[n..], 0) == k
      && (k > 0 ==> Label(addr, k)[n] != '0')
  {
    hide Decimal, DigitsValue;
    DecimalDigits(k);
    DecimalLead(k);
    DigitsOfDecimal(k);
    assert Label(addr, k)[|addr| + 1..] == Decimal(k);
  }

  /** The labels of one server are equal only for equal numbers. */
  lemma LabelsDiffer(addr: string, k: nat, k': nat)
    ensures Label(addr, k) == Label(addr, k') ==> k == k'
  {
    hide Label, DigitsValue;
    LabelMeaning(addr, k);
    LabelMeaning(addr, k');
  }

  lemma LabelPointAt(addr: string, ordinal: nat, k: nat, h: nat)
    requires h < 4
    ensures Number(Md5Spec.Digest(Bytes(Label(addr, k)))[4 * h..4 * h + 4]) < CIRCLE
    ensures
      LabelPoints(addr, ordinal, k)[h] == Mcs(Number(Md5Spec.Digest(Bytes(Label(addr, k)))[4 * h..4 * h + 4]), ordinal)
  {
    hide HashWord, Label, Number, Bytes, Md5Spec.Digest;
    HashWordValue(Label(addr, k), h);
  }

  /** Point 4k + h of a server is the number in bytes 4h to 4h + 3 of the MD5 digest of its label k. */
  lemma {:induction false} ServerPointAt(addr: string, ordinal: nat, count: nat, k: nat, h: nat)
    requires k < count && h < 4
    ensures Number(Md5Spec.Digest(Bytes(Label(addr, k)))[4 * h..4 * h + 4]) < CIRCLE
    ensures
      ServerPoints(addr, ordinal, count)[4 * k + h]
      == Mcs(Number(Md5Spec.Digest(Bytes(Label(addr, k)))[4 * h..4 * h + 4]), ordinal)
  {
    hide LabelPoints, Label, Number, Bytes, Md5Spec.Digest;
    if k < count - 1 {
      ServerPointAt(addr, ordinal, count - 1, k, h);
    } else {
      LabelPointAt(addr, ordinal, k, h);
    }
  }

  /** The points of server `i` follow those of the servers before it. */
  lemma {:induction false} PointAt(servers: seq<ServerInfo>, total: nat, n: nat, errs: seq<real>, d: real,
      i: nat, j: nat)
    requires total > 0 && i < |servers| <= n && ErrorsWithin(errs, d, n)
    requires j < 4 * Share(servers[i].memory, total, n, errs[i])
    ensures
      var at := 4 * ShareSum(servers[..i], total, n, errs) + j;
      && 0 <= at < |Points(servers, total, n, errs)|
      && Points(servers, total, n, errs)[at]
         == ServerPoints(servers[i].addr, i, Share(servers[i].memory, total, n, errs[i]))[j]
  {
    hide Share, ServerPoints;
    var k := |servers| - 1;
    var before := servers[..k];
    PointsLength(before, total, n, errs, d);
    ShareSumPrefix(before, if i < k then i else k, total, n, errs, d);
    if i < k {
      PointAt(before, total, n, errs, d, i, j);
      assert before[..i] == servers[..i] && before[i] == servers[i];
    } else {
      assert before == servers[..i];
    }
  }

  /**
   * Every point of a ring before it is sorted: point 4k + h of server `i`, which comes after all points of the
   * servers before it, is the number in bytes 4h to 4h + 3 of the MD5 digest of "address-k", and names server `i`.
   */
  lemma {:induction false} PointValue(servers: seq<ServerInfo>, total: nat, n: nat, errs: seq<real>, d: real,
      i: nat, k: nat, h: nat)
    requires total > 0 && i < |servers| <= n && ErrorsWithin(errs, d, n)
    requires k < Share(servers[i].memory, total, n, errs[i]) && h < 4
    ensures
      var at := 4 * ShareSum(servers[..i], total, n, errs) + 4 * k + h;
      var word := Number(Md5Spec.Digest(Bytes(servers[i].addr + "-" + Decimal(k)))[4 * h..4 * h + 4]);
      && 0 <= at < |Points(servers, total, n, errs)| && word < CIRCLE
      && Points(servers, total, n, errs)[at] == Mcs(word, i)
  {
    hide Share, ShareSum, ServerPoints, Points, Number, Bytes, Decimal, Md5Spec.Digest;
    PointAt(servers, total, n, errs, d, i, 4 * k + h);
    ServerPointAt(servers[i].addr, i, Share(servers[i].memory, total, n, errs[i]), k, h);
  }

  lemma {:induction false} ServerPointsOrdinal(addr: string, ordinal: nat, count: int)
    ensures forall e | e in ServerPoints(addr, ordinal, count) :: e.ordinal == ordinal
  {
    hide HashWord;
    if count > 0 {
      ServerPointsOrdinal(addr, ordinal, count - 1);
    }
  }

  lemma {:induction false} PointsOrdinal(servers: seq<ServerInfo>, total: nat, n: nat, errs: seq<real>)
    requires total > 0 && |servers| <= |errs|
    ensures forall e | e in Points(servers, total, n, errs) :: e.ordinal < |servers|
  {
    hide Share, ServerPoints;
    if servers != [] {
      var k := |servers| - 1;
      PointsOrdinal(servers[..k], total, n, errs);
      ServerPointsOrdinal(servers[k].addr, k, Share(servers[k].memory, total, n, errs[k]));
    }
  }

  /** The generated points are four for each hash of the shares. */
  lemma {:induction false} PointsLength(servers: seq<ServerInfo>, total: nat, n: nat, errs: seq<real>, d: real)
    requires total > 0 && |servers| <= n && ErrorsWithin(errs, d, n)
    ensures |Points(servers, total, n, errs)| == 4 * ShareSum(servers, total, n, errs)
  {
    hide Share;
    if servers != [] {
      var k := |servers| - 1;
      PointsLength(servers[..k], total, n, errs, d);
      ShareNonNegative(servers[k].memory, total, n, errs[k], d);
    }
  }

  lemma ShareNonNegative(weight: nat, total: nat, n: nat, err: real, d: real)
    requires total > 0 && n > 0 && SmallError(d, n) && -d <= err <= d
    ensures Share(weight, total, n, err) >= 0
  {
    ExcessGrows(Hashes(n), d);
    NonNegativeProduct(IdealShare(weight, total, n), 1.0 + err);
  }

  lemma ExcessGrows(x: real, d: real)
    requires x >= 1.0 && d >= 0.0
    ensures Excess(x, d) >= d
  {
    assert (x - 1.0) * d >= 0.0;
  }

  lemma NonNegativeProduct(x: real, y: real)
    requires x >= 0.0 && y >= 0.0
    ensures x * y >= 0.0
  {
  }

  lemma {:induction false} ShareSumPrefix(servers: seq<ServerInfo>, i: nat, total: nat, n: nat, errs: seq<real>,
      d: real)
    requires total > 0 && i <= |servers| <= n && ErrorsWithin(errs, d, n)
    ensures 0 <= ShareSum(servers[..i], total, n, errs) <= ShareSum(servers, total, n, errs)
  {
    hide Share;
    if servers != [] {
      var k := |servers| - 1;
      ShareNonNegative(servers[k].memory, total, n, errs[k], d);
      if i == |servers| {
        ShareSumPrefix(servers[..k], k, total, n, errs, d);
        assert servers[..i] == servers && servers[..k][..k] == servers[..k];
      } else {
        ShareSumPrefix(servers[..k], i, total, n, errs, d);
        assert servers[..k][..i] == servers[..i];
      }
    }
  }

  // ---------- adding a server ----------

  ghost predicate SameShares(servers: seq<ServerInfo>, total: nat, n: nat, errs: seq<real>,
      total': nat, n': nat, errs': seq<real>)
    requires total > 0 && total' > 0 && |servers| <= |errs| && |servers| <= |errs'|
  {
    forall i | 0 <= i < |servers| ::
      Share(servers[i].memory, total, n, errs[i]) == Share(servers[i].memory, total', n', errs'[i])
  }

  lemma {:induction false} SameSharesSamePoints(servers: seq<ServerInfo>, total: nat, n: nat, errs: seq<real>,
      total': nat, n': nat, errs': seq<real>)
    requires total > 0 && total' > 0 && |servers| <= |errs| && |servers| <= |errs'|
    requires SameShares(servers, total, n, errs, total', n', errs')
    ensures Points(servers, total, n, errs) == Points(servers, total', n', errs')
  {
    hide Share, ServerPoints;
    if servers != [] {
      var k := |servers| - 1;
      assert SameShares(servers[..k], total, n, errs, total', n', errs');
      SameSharesSamePoints(servers[..k], total, n, errs, total', n', errs');
    }
  }

  lemma SameElements(ring: seq<Mcs>, points: seq<Mcs>)
    requires multiset(ring) == multiset(points)
    ensures |ring| == |points| && forall e :: e in ring <==> e in points
  {
    assert |multiset(ring)| == |multiset(points)|;
    forall e
      ensures e in ring <==> e in points
    {
      assert e in multiset(ring) <==> e in multiset(points);
    }
  }

  /** A ring that create_continuum may build: the points of the servers in some sorted order. */
  ghost predicate IsRingOf(ring: seq<Mcs>, servers: seq<ServerInfo>, errs: seq<real>)
    requires TotalWeight(servers) > 0 && |servers| == |errs|
  {
    && Sorted(ring)
    && multiset(ring) == multiset(Points(servers, TotalWeight(servers), |servers|, errs))
  }

  /**
   * When the shares of the old servers do not change and no point belongs to two of them, adding a server
   * moves a key exactly if the new server answers for it.
   */
  lemma {:induction false} AddServerRemapping(servers: seq<ServerInfo>, s: ServerInfo, errs: seq<real>,
      errs': seq<real>, ring: seq<Mcs>, ring': seq<Mcs>, h: Hash)
    requires |errs| == |servers| && |errs'| == |servers| + 1
    requires TotalWeight(servers) > 0 && TotalWeight(servers + [s]) > 0
    requires SameShares(servers, TotalWeight(servers), |servers|, errs,
      TotalWeight(servers + [s]), |servers| + 1, errs')
    requires IsRingOf(ring, servers, errs) && IsRingOf(ring', servers + [s], errs')
    requires ring != [] && NoSharedPoint(ring)
    ensures ring' != []
    ensures
      var was, now := ring[Owner(ring, h)].ordinal, ring'[Owner(ring', h)].ordinal;
      now != was <==> now == |servers|
  {
    hide Share, ServerPoints, LabelPoints, SameShares, Owner, TotalWeight;
    var n, total, total' := |servers|, TotalWeight(servers), TotalWeight(servers + [s]);
    var points := Points(servers, total, n, errs);
    var share := Share(s.memory, total', n + 1, errs'[n]);
    var extra := ServerPoints(s.addr, n, share);
    assert (servers + [s])[..n] == servers;
    SameSharesSamePoints(servers, total, n, errs, total', n + 1, errs');
    assert Points(servers + [s], total', n + 1, errs') == points + extra;
    PointsOrdinal(servers, total, n, errs);
    ServerPointsOrdinal(s.addr, n, share);
    SameElements(ring, points);
    MinimalRemapping(points, extra, ring, ring', n, h);
  }

  // ---------- a newcomer of average weight ----------

  lemma CrossMultiply(x: real, y: real, t: nat, u: nat, a: int, b: int)
    requires t > 0 && u > 0 && x * t as real == a as real && y * u as real == b as real
    ensures x == y <==> a * u == b * t
  {
    assert (a * u) as real == a as real * u as real == x * (t as real * u as real);
    assert (b * t) as real == b as real * t as real == y * (t as real * u as real);
  }

  lemma Average(weight: nat, total: nat, n: nat, w: nat)
    requires weight > 0
    ensures 40 * n * weight * (total + w) == 40 * (n + 1) * weight * total <==> n * w == total
  {
    var c := 40 * weight;
    assert 40 * n * weight * (total + w) - 40 * (n + 1) * weight * total == c * (n * w - total);
    if c * (n * w - total) == 0 {
      Scale(c, n * w - total);
    }
  }

  /** A newcomer leaves the share of a server as it is exactly if its weight is the average. */
  lemma AverageKeepsShare(weight: nat, total: nat, n: nat, w: nat)
    requires weight > 0 && total > 0
    ensures IdealShare(weight, total, n) == IdealShare(weight, total + w, n + 1) <==> n * w == total
  {
    hide IdealShare;
    ShareTimesTotal(weight, total, n);
    ShareTimesTotal(weight, total + w, n + 1);
    CrossMultiply(IdealShare(weight, total, n), IdealShare(weight, total + w, n + 1), total, total + w,
      40 * n * weight, 40 * (n + 1) * weight);
    Average(weight, total, n, w);
  }

  lemma SameExactShare(weight: nat, total: nat, n: nat, w: nat)
    requires total > 0 && n * w == total
    ensures Share(weight, total, n, 0.0) == Share(weight, total + w, n + 1, 0.0)
  {
    hide IdealShare;
    if weight > 0 {
      AverageKeepsShare(weight, total, n, w);
    } else {
      ShareSumOfNone(total, n, 0.0);
      ShareSumOfNone(total + w, n + 1, 0.0);
      Expand(IdealShare(0, total, n), 0.0);
      Expand(IdealShare(0, total + w, n + 1), 0.0);
    }
  }

  lemma {:induction false} SameExactShares(servers: seq<ServerInfo>, w: nat)
    requires TotalWeight(servers) == |servers| * w && TotalWeight(servers) > 0
    ensures
      var n, total := |servers|, TotalWeight(servers);
      SameShares(servers, total, n, Exact(n), total + w, n + 1, Exact(n + 1))
  {
    hide Share, TotalWeight;
    var n, total := |servers|, TotalWeight(servers);
    forall i | 0 <= i < n
      ensures Share(servers[i].memory, total, n, 0.0) == Share(servers[i].memory, total + w, n + 1, 0.0)
    {
      SameExactShare(servers[i].memory, total, n, w);
    }
  }

  /**
   * In exact arithmetic, whatever the weights of the old servers, a newcomer of average weight takes keys only
   * for itself.
   */
  lemma {:induction false} AverageNewcomerRemapping(servers: seq<ServerInfo>, s: ServerInfo, ring: seq<Mcs>,
      ring': seq<Mcs>, h: Hash)
    requires TotalWeight(servers) == |servers| * s.memory && TotalWeight(servers) > 0
    requires TotalWeight(servers + [s]) > 0
    requires IsRingOf(ring, servers, Exact(|servers|)) && IsRingOf(ring', servers + [s], Exact(|servers| + 1))
    requires NoSharedPoint(ring)
    ensures ring != [] && ring' != []
    ensures
      var was, now := ring[Owner(ring, h)].ordinal, ring'[Owner(ring', h)].ordinal;
      now != was <==> now == |servers|
  {
    hide SameShares, TotalWeight, Owner, IsRingOf, NoSharedPoint;
    var n := |servers|;
    TotalWithOneMore(servers, s);
    SameExactShares(servers, s.memory);
    RingNotEmpty(servers, ring);
    AddServerRemapping(servers, s, Exact(n), Exact(n + 1), ring, ring', h);
  }

  lemma {:induction false} RingNotEmpty(servers: seq<ServerInfo>, ring: seq<Mcs>)
    requires TotalWeight(servers) > 0 && IsRingOf(ring, servers, Exact(|servers|))
    ensures ring != []
  {
    hide Share, Points, ShareSum;
    var n, total := |servers|, TotalWeight(servers);
    PointBudget(servers, Exact(n), 0.0);
    PointsLength(servers, total, n, Exact(n), 0.0);
    SameElements(ring, Points(servers, total, n, Exact(n)));
  }

  predicate EqualWeights(servers: seq<ServerInfo>, w: nat) {
    forall i | 0 <= i < |servers| :: servers[i].memory == w
  }

  lemma {:induction false} EqualTotal(servers: seq<ServerInfo>, w: nat)
    requires EqualWeights(servers, w)
    ensures TotalWeight(servers) == |servers| * w
  {
    if servers != [] {
      EqualTotal(servers[..|servers| - 1], w);
    }
  }

  /** With equal positive weights and exact arithmetic every newcomer is of average weight. */
  lemma {:induction false} EqualWeightsRemapping(servers: seq<ServerInfo>, s: ServerInfo, w: nat, ring: seq<Mcs>,
      ring': seq<Mcs>, h: Hash)
    requires w > 0 && servers != [] && EqualWeights(servers + [s], w)
    requires TotalWeight(servers) > 0 && TotalWeight(servers + [s]) > 0
    requires IsRingOf(ring, servers, Exact(|servers|)) && IsRingOf(ring', servers + [s], Exact(|servers| + 1))
    requires NoSharedPoint(ring)
    ensures ring != [] && ring' != []
    ensures
      var was, now := ring[Owner(ring, h)].ordinal, ring'[Owner(ring', h)].ordinal;
      now != was <==> now == |servers|
  {
    hide Owner, IsRingOf, NoSharedPoint;
    assert forall i | 0 <= i < |servers| :: servers[i] == (servers + [s])[i];
    assert s == (servers + [s])[|servers|];
    EqualTotal(servers, w);
    AverageNewcomerRemapping(servers, s, ring, ring', h);
  }
}
