/**
 * The consistent-hash object: a server table that doubles when full, a continuum that is built once, and
 * the wrap-around binary search.
 */
module Ketama {
  import opened Common
  import opened Continuum
  import Md5
  import Md5Spec
  import opened Md5Values
  import opened Ring
  import opened Text

  const INIT_MAX_SERVERS := 1
  const ADDR_SIZE := 255

  /** snprintf(info->addr, ADDR_SIZE, "%s:%d", addr, port) */
  function FormatAddress(addr: string, port: int): (s: string)
    ensures |s| < ADDR_SIZE && s <= addr + ":" + SignedDecimal(port)
    ensures s == addr + ":" + SignedDecimal(port) <==> |addr| + 1 + |SignedDecimal(port)| < ADDR_SIZE
  {
    var full := addr + ":" + SignedDecimal(port);
    if |full| < ADDR_SIZE then full else full[..ADDR_SIZE - 1]
  }

  /** An address that fits is the given one, a colon and the port in decimal. */
  lemma {:induction false} AddressMeaning(addr: string, port: nat)
    requires |addr| + 1 + |Decimal(port)| < ADDR_SIZE
    ensures
      var s, n := FormatAddress(addr, port), |addr| + 1;
      && |s| > n && s[..n] == addr + ":" && AllDigits(s[n..]) && DigitsValue(s[n..], 0) == port
      && (port > 0 ==> s[n] != '0')
  {
    hide Decimal, DigitsValue;
    DecimalDigits(port);
    DecimalLead(port);
    DigitsOfDecimal(port);
    assert FormatAddress(addr, port)[|addr| + 1..] == Decimal(port);
  }

  // ---------- hashing ----------

  /** The int that a size_t becomes when it is passed to md5_append. */
  function AsInt(n: nat): (i: int)
    ensures -INT_MAX - 1 <= i <= INT_MAX && i <= n && (n - i) % TWO_TO_THE_32 == 0
  {
    var w := n % TWO_TO_THE_32;
    if w > INT_MAX then w - TWO_TO_THE_32 else w
  }

  /** What of a string is hashed. */
  function HashedPart(s: string): string {
    if AsInt(|s|) <= 0 then "" else s[..AsInt(|s|)]
  }

  /** All of it, exactly if an int holds its length. */
  lemma HashedWhole(s: string)
    ensures HashedPart(s) == s <==> |s| <= INT_MAX
  {
    if |s| > INT_MAX {
      assert |HashedPart(s)| <= INT_MAX;
    }
  }

  /** The hash of a key. */
  function KeyHash(key: string): Hash {
    HashWord(HashedPart(key), 0)
  }

  /** A key that an int can measure hashes to the number in the first four bytes of its MD5 digest. */
  lemma KeyHashValue(key: string)
    ensures KeyHash(key) == Number(Md5Spec.Digest(Bytes(HashedPart(key)))[..4])
    ensures |key| <= INT_MAX ==> KeyHash(key) == Number(Md5Spec.Digest(Bytes(key))[..4])
  {
    hide HashWord, HashedPart, Bytes, Number, Md5Spec.Digest;
    HashWordValue(HashedPart(key), 0);
    HashedWhole(key);
    var d := Md5Spec.Digest(Bytes(HashedPart(key)));
    assert d[0..4] == d[..4];
  }

  /** Ketama_md5_digest */
  method Md5Digest(s: string) returns (digest: seq<Md5Spec.Byte>)
    ensures digest == Md5Spec.Digest(Bytes(HashedPart(s)))
  {
    hide Md5Spec.Digest, Bytes, AsInt;
    var state := new Md5.State();
    var bytes := Bytes(s);
    HashedBytes(s);
    state.Append(bytes, AsInt(|s|));
    assert state.msg == Bytes(HashedPart(s));
    digest := state.Finish();
  }

  lemma HashedBytes(s: string)
    ensures |Bytes(s)| == |s|
    ensures Bytes(HashedPart(s)) == if AsInt(|s|) <= 0 then [] else Bytes(s)[..AsInt(|s|)]
  {
    hide Md5Spec.ByteOf, AsInt;
  }

  /** (digest[3+h*4] << 24) | (digest[2+h*4] << 16) | (digest[1+h*4] << 8) | digest[h*4] */
  function PointOf(digest: seq<Md5Spec.Byte>, h: nat): Hash
    requires |digest| == 16 && h < 4
  {
    Md5Spec.DecodeWord(digest[4 * h..4 * h + 4]) as int
  }

  /** Decoding four bytes of a digest undoes what md5_finish encoded: a point is a word of the final state. */
  lemma PointIsHashWord(s: string, h: nat)
    requires h < 4
    ensures PointOf(Md5Spec.Digest(Bytes(s)), h) == HashWord(s, h)
  {
    hide Md5Spec.FinalRegs, Md5Spec.EncodeWord, Md5Spec.DecodeWord, Bytes;
    var r := Md5Spec.FinalRegs(Bytes(s));
    var o := Md5Spec.Output(r);
    Md5Spec.EncodeDecodeWord(Md5.Register(r, h));
    if h == 0 {
      assert o[0..4] == Md5Spec.EncodeWord(r.a);
    } else if h == 1 {
      assert o[4..8] == Md5Spec.EncodeWord(r.b);
    } else if h == 2 {
      assert o[8..12] == Md5Spec.EncodeWord(r.c);
    } else {
      assert o[12..16] == Md5Spec.EncodeWord(r.d);
    }
  }

  /** Ketama_hashi */
  method Hashi(s: string) returns (h: Hash)
    ensures h == KeyHash(s)
  {
    hide HashWord, HashedPart, PointOf, Md5Spec.Digest;
    var digest := Md5Digest(s);
    PointIsHashWord(HashedPart(s), 0);
    h := PointOf(digest, 0);
  }

  // ---------- sorting ----------

  /** Ketama_compare */
  function Compare(a: Mcs, b: Mcs): int {
    if a.point < b.point then -1 else if a.point > b.point then 1 else 0
  }

  lemma SwapKeepsElements(s: seq<Mcs>, i: nat, j: nat)
    requires i < |s| && j < |s|
    ensures multiset(s[i := s[j]][j := s[i]]) == multiset(s)
  {
  }

  method LeastFrom(a: array<Mcs>, i: nat, n: nat) returns (m: nat)
    requires i < n <= a.Length
    ensures i <= m < n && forall j | i <= j < n :: a[m].point <= a[j].point
  {
    m := i;
    for k := i + 1 to n
      invariant i <= m < n
      invariant forall j | i <= j < k :: a[m].point <= a[j].point
    {
      if Compare(a[k], a[m]) < 0 {
        m := k;
      }
    }
  }

  /** The points before `i` are in their places. */
  ghost predicate SortedUpTo(s: seq<Mcs>, i: nat) {
    forall j, k | 0 <= j < i && j < k < |s| :: s[j].point <= s[k].point
  }

  lemma PlaceLeast(s: seq<Mcs>, i: nat, m: nat)
    requires i <= m < |s| && SortedUpTo(s, i) && forall j | i <= j < |s| :: s[m].point <= s[j].point
    ensures SortedUpTo(s[i := s[m]][m := s[i]], i + 1)
  {
  }

  /** Any order of equal points may come out: only sortedness and the elements are promised. */
  method Qsort(a: array<Mcs>, n: nat)
    requires n <= a.Length
    modifies a
    ensures Sorted(a[..n]) && multiset(a[..n]) == multiset(old(a[..n]))
  {
    for i := 0 to n
      invariant SortedUpTo(a[..n], i)
      invariant multiset(a[..n]) == multiset(old(a[..n]))
    {
      hide SortedUpTo;
      var m := LeastFrom(a, i, n);
      SwapKeepsElements(a[..n], i, m);
      PlaceLeast(a[..n], i, m);
      ghost var was := a[..n];
      a[i], a[m] := a[m], a[i];
      assert a[..n] == was[i := was[m]][m := was[i]];
    }
  }

  // ---------- the search bound ----------

  /** The largest k with 2^k <= n. */
  function Log2(n: nat): nat {
    if n <= 1 then 0 else 1 + Log2(n / 2)
  }

  function Pow2(k: nat): nat {
    if k == 0 then 1 else 2 * Pow2(k - 1)
  }

  lemma {:induction false} Log2Meaning(n: nat)
    requires n > 0
    ensures Pow2(Log2(n)) <= n < 2 * Pow2(Log2(n))
  {
    if n > 1 {
      Log2Meaning(n / 2);
    }
  }

  lemma {:induction false} Log2Monotone(m: nat, n: nat)
    requires m <= n
    ensures Log2(m) <= Log2(n)
  {
    if m > 1 {
      Log2Monotone(m / 2, n / 2);
    }
  }

  /** `ring` may come out of a build over `servers` with roundings `errs`. */
  ghost predicate Built(ring: seq<Mcs>, servers: seq<ServerInfo>, errs: seq<real>) {
    ring != [] && |errs| == |servers| && TotalWeight(servers) > 0 && IsRingOf(ring, servers, errs)
  }

  class Ketama {
    var numpoints: nat
    var numservers: nat
    var maxservers: nat
    var memory: nat
    var continuum: array?<Mcs>
    var servers: array?<ServerInfo>

    ghost var adds: seq<ServerInfo>  // every server added, in order
    ghost var errs: seq<real>        // the rounding of the build, empty before it

    ghost predicate TableValid()
      reads this, servers
    {
      && numservers == |adds| <= maxservers
      && memory == TotalWeight(adds)
      && (forall i | 0 <= i < |adds| :: |adds[i].addr| < ADDR_SIZE)
      && (servers == null <==> maxservers == 0)
      && (servers != null ==> servers.Length == maxservers && servers[..numservers] == adds)
    }

    ghost predicate RingValid()
      reads this, continuum
    {
      && (continuum == null <==> errs == [])
      && (continuum != null ==>
        && numpoints <= continuum.Length && |errs| <= |adds|
        && Built(continuum[..numpoints], adds[..|errs|], errs))
    }

    ghost predicate Valid()
      reads this, servers, continuum
    {
      && TableValid() && RingValid()
      && (continuum != null && servers != null ==> continuum as object != servers)
    }

    /** The ring in force, empty before the first build. */
    ghost function Ring(): seq<Mcs>
      requires Valid()
      reads this, servers, continuum
    {
      if continuum == null then [] else continuum[..numpoints]
    }

    /** A search on the ring in force stays inside the int. */
    ghost predicate CanSearch()
      reads this, servers, continuum
    {
      Valid() && (continuum != null ==> 2 * numpoints <= INT_MAX)
    }

    /** Ketama_new */
    constructor ()
      ensures Valid() && adds == [] && continuum == null && servers == null
    {
      numpoints, numservers, maxservers, memory := 0, 0, 0, 0;
      continuum, servers := null, null;
      adds, errs := [], [];
    }

    /** The first allocation and the doubling of the server table. */
    method EnsureRoom()
      requires TableValid()
      modifies `maxservers, `servers
      ensures TableValid() && numservers < maxservers && servers != null
      ensures servers == old(servers) || fresh(servers)
    {
      hide TotalWeight;
      if servers == null {
        maxservers := INIT_MAX_SERVERS;
        servers := new ServerInfo[maxservers](_ => ServerInfo("", 0));
      }
      if numservers >= maxservers {
        var table := new ServerInfo[maxservers * 2](_ => ServerInfo("", 0));
        forall i | 0 <= i < numservers {
          table[i] := servers[i];
        }
        assert table[..numservers] == servers[..numservers];
        maxservers := maxservers * 2;
        servers := table;
      }
    }

    /** Ketama_add_server: later adds never disturb a built continuum. */
    method AddServer(addr: string, port: int, weight: nat)
      requires Valid()
      modifies this, servers
      ensures Valid()
      ensures adds == old(adds) + [ServerInfo(FormatAddress(addr, port), weight)]
      ensures continuum == old(continuum) && numpoints == old(numpoints) && errs == old(errs)
      ensures servers == old(servers) || fresh(servers)
    {
      hide Built, FormatAddress, TotalWeight;
      EnsureRoom();
      var info := ServerInfo(FormatAddress(addr, port), weight);
      servers[numservers] := info;
      numservers := numservers + 1;
      memory := memory + weight;
      adds := adds + [info];
      TotalWithOneMore(old(adds), info);
      assert adds[..|errs|] == old(adds)[..|errs|];
    }

    /** The point loops of Ketama_create_continuum for one server. */
    static method GeneratePoints(a: array<Mcs>, from: nat, addr: string, ordinal: nat, ks: nat) returns (cont: nat)
      requires from + 4 * ks <= a.Length
      requires |addr| < ADDR_SIZE && ks <= INT_MAX
      modifies a
      ensures cont == from + 4 * ks
      ensures a[..cont] == old(a[..from]) + ServerPoints(addr, ordinal, ks)
    {
      hide HashWord, HashedPart, PointOf, Decimal, Md5Spec.Digest;
      cont := from;
      for k := 0 to ks
        invariant cont == from + 4 * k
        invariant a[..cont] == old(a[..from]) + ServerPoints(addr, ordinal, k)
      {
        var ss := Label(addr, k);
        LabelFits(addr, k);
        var len := if |ss| > ADDR_SIZE + 10 then ADDR_SIZE + 10 else |ss|;
        var digest := Md5Digest(ss[..len]);
        assert ss[..len] == ss;
        HashedWhole(ss);
        ghost var ps := LabelPoints(addr, ordinal, k);
        ghost var done := a[..cont];
        for h := 0 to 4
          invariant cont == from + 4 * k + h
          invariant a[..cont] == done + ps[..h]
        {
          PointIsHashWord(ss, h);
          a[cont] := Mcs(PointOf(digest, h), ordinal);
          cont := cont + 1;
        }
        assert ps[..4] == ps;
      }
    }

    /**
     * Ketama_create_continuum.  `rounding` is the relative error of the float arithmetic on each share.
     * The first successful build decides the ring; calls without servers or after a build change nothing.
     */
    method CreateContinuum(rounding: seq<real>, ghost d: real)
      requires Valid() && 160 * numservers <= INT_MAX
      requires numservers > 0 && continuum == null ==> memory > 0 && ErrorsWithin(rounding, d, numservers)
      modifies this
      ensures Valid() && adds == old(adds) && servers == old(servers)
      ensures numservers == 0 || old(continuum) != null ==>
        continuum == old(continuum) && numpoints == old(numpoints) && errs == old(errs)
      ensures numservers > 0 && old(continuum) == null ==>
        continuum != null && errs == rounding && Built(continuum[..numpoints], adds, rounding)
        && numpoints <= 160 * numservers
    {
      hide Points, Share, ShareSum;
      if numservers == 0 || continuum != null {
        return;
      }
      var a := new Mcs[numservers * 160](_ => Mcs(0, 0));
      var cont: nat := 0;
      PointBudget(adds, rounding, d);
      PointsOfNone(memory, numservers, rounding);
      for i := 0 to numservers
        invariant cont == 4 * ShareSum(adds[..i], memory, numservers, rounding)
        invariant cont <= a.Length && a[..cont] == Points(adds[..i], memory, numservers, rounding)
        modifies a
      {
        assert servers[i] == servers[..numservers][i];
        var ks := Share(servers[i].memory, memory, numservers, rounding[i]);
        NextServer(adds, i, rounding, d);
        cont := GeneratePoints(a, cont, servers[i].addr, i, ks);
      }
      assert adds[..numservers] == adds;
      Qsort(a, cont);
      continuum := a;
      numpoints := cont;
      errs := rounding;
      assert adds[..|errs|] == adds;
    }

    static lemma {:induction false} PointsOfNone(total: nat, n: nat, errs: seq<real>)
      requires total > 0
      ensures Points([], total, n, errs) == [] && ShareSum([], total, n, errs) == 0
    {
    }

    /** One server's points extend the points of the servers before it and still fit. */
    static lemma {:induction false} NextServer(adds: seq<ServerInfo>, i: nat, errs: seq<real>, d: real)
      requires i < |adds| && TotalWeight(adds) > 0 && ErrorsWithin(errs, d, |adds|)
      ensures
        var total, n := TotalWeight(adds), |adds|;
        var ks := Share(adds[i].memory, total, n, errs[i]);
        && 0 <= ks && 4 * ShareSum(adds[..i], total, n, errs) + 4 * ks <= 160 * n
        && 0 <= ShareSum(adds[..i], total, n, errs)
        && ShareSum(adds[..i + 1], total, n, errs) == ShareSum(adds[..i], total, n, errs) + ks
        && Points(adds[..i + 1], total, n, errs)
           == Points(adds[..i], total, n, errs) + ServerPoints(adds[i].addr, i, ks)
    {
      hide Share, ServerPoints, TotalWeight;
      var total, n := TotalWeight(adds), |adds|;
      assert adds[..i + 1][..i] == adds[..i];
      ShareNonNegative(adds[i].memory, total, n, errs[i], d);
      ShareSumPrefix(adds, i, total, n, errs, d);
      ShareSumPrefix(adds, i + 1, total, n, errs, d);
      PointBudget(adds, errs, d);
    }

    /** The label buffer of ADDR_SIZE + 11 bytes never truncates. */
    static lemma LabelFits(addr: string, k: nat)
      requires |addr| < ADDR_SIZE && k <= INT_MAX
      ensures |Label(addr, k)| <= ADDR_SIZE + 10
    {
      hide Decimal;
      assert Pow10(5) == 100000;
      assert Pow10(10) == 10000000000;
      DecimalLength(k, 10);
    }

    /** Ketama_get_server_address */
    method GetServerAddress(ordinal: int) returns (addr: string)
      requires Valid()
      ensures addr == if 0 <= ordinal < |adds| then adds[ordinal].addr else ""
    {
      if ordinal < 0 || ordinal >= numservers || servers == null {
        return "";
      }
      addr := servers[ordinal].addr;
      assert servers[ordinal] == servers[..numservers][ordinal];
    }

    /**
     * The search loop of Ketama_get_server_ordinal, with the number of its passes.  `fits` says that an int held
     * every sum of the two ends, of which the middle is half.
     */
    static method Search(a: array<Mcs>, n: nat, h: Hash) returns (ordinal: nat, ghost passes: nat, ghost fits: bool)
      requires 0 < n <= a.Length && Sorted(a[..n])
      ensures ordinal == a[Owner(a[..n], h)].ordinal
      ensures passes <= Log2(n + 1) + 1
      ensures 2 * n <= INT_MAX ==> fits
      ensures Successor(a[..n], h) == n ==> (fits <==> 2 * n <= INT_MAX)
    {
      hide Successor, Log2, Sorted;
      passes, fits := 0, true;
      ghost var ring := a[..n];
      ghost var s := Successor(ring, h);
      BelowSuccessor(ring, h);
      var highp: int := n;
      var lowp: int := 0;
      while true
        invariant 0 <= lowp <= s <= highp <= n
        invariant passes + Log2(highp - lowp + 1) <= Log2(n + 1)
        invariant 2 * n <= INT_MAX ==> fits
        decreases highp - lowp
      {
        passes, fits := passes + 1, fits && lowp + highp <= INT_MAX;
        var midp := (lowp + highp) / 2;
        if midp == n {
          AtTheEnd(lowp, s, highp);
          return a[0].ordinal, passes, fits;
        }
        var midval := a[midp].point;
        var midval1 := if midp == 0 then 0 else a[midp - 1].point;
        assert midval == ring[midp].point && (midp > 0 ==> midval1 == ring[midp - 1].point);
        if h <= midval && h > midval1 {
          SuccessorUnique(ring, h, midp);
          return a[midp].ordinal, passes, fits;
        }
        PassHalves(ring, h, lowp, highp, midp);
        if midval < h {
          lowp := midp + 1;
        } else {
          highp := midp - 1;
        }
        if lowp > highp {
          return a[0].ordinal, passes, fits;
        }
      }
    }

    /** Ketama_get_server_ordinal, with the number of passes of the search loop and whether its sums fit an int. */
    method GetServerOrdinal(key: string) returns (ordinal: int, ghost passes: nat, ghost fits: bool)
      requires Valid()
      ensures continuum == null ==> ordinal == -1
      ensures continuum != null ==>
        var ring := continuum[..numpoints];
        && ordinal == ring[Owner(ring, KeyHash(key))].ordinal
        && 0 <= ordinal < |adds|
        && passes <= Log2(numpoints + 1) + 1
        && (Successor(ring, KeyHash(key)) == numpoints ==> (fits <==> 2 * numpoints <= INT_MAX))
      ensures continuum == null || 2 * numpoints <= INT_MAX ==> fits
    {
      hide KeyHash, IsRingOf, Successor, Log2;
      if continuum == null {
        return -1, 0, true;
      }
      var h := Hashi(key);
      RingFacts(continuum[..numpoints]);
      ordinal, passes, fits := Search(continuum, numpoints, h);
    }

    static lemma AtTheEnd(lowp: nat, s: nat, highp: nat)
      requires lowp <= s <= highp && (lowp + highp) / 2 == highp
      ensures s == highp
    {
    }

    /** One pass without a hit keeps the successor inside and halves the interval, or the first point answers. */
    static lemma PassHalves(ring: seq<Mcs>, h: Hash, lowp: nat, highp: nat, midp: nat)
      requires forall i | 0 <= i < |ring| :: ring[i].point < h <==> i < Successor(ring, h)
      requires lowp <= Successor(ring, h) <= highp && midp == (lowp + highp) / 2 && midp < |ring|
      requires !(h <= ring[midp].point && h > if midp == 0 then 0 else ring[midp - 1].point)
      ensures
        var s := Successor(ring, h);
        var (low, high) := if ring[midp].point < h then (midp + 1, highp as int) else (lowp, midp - 1);
        if low > high then s == 0
        else low <= s <= high && Log2(high - low + 1) + 1 <= Log2(highp - lowp + 1)
    {
      hide Successor;
      var s := Successor(ring, h);
      var width := highp - lowp + 1;
      assert ring[midp].point < h <==> midp < s;
      assert midp > 0 ==> (ring[midp - 1].point < h <==> midp - 1 < s);
      if ring[midp].point < h {
        HalfIsShorter(highp - midp, width);
      } else if lowp < midp {
        HalfIsShorter(midp - lowp, width);
      }
    }

    static lemma {:induction false} HalfIsShorter(part: nat, width: nat)
      requires 0 < part <= width / 2
      ensures Log2(part) + 1 <= Log2(width)
    {
      Log2Monotone(part, width / 2);
    }

    /** On a sorted ring exactly the points before the successor are below the hash. */
    static lemma {:induction false} BelowSuccessor(ring: seq<Mcs>, h: Hash)
      requires Sorted(ring)
      ensures forall i | 0 <= i < |ring| :: ring[i].point < h <==> i < Successor(ring, h)
    {
      SuccessorMeaning(ring, h);
      var s := Successor(ring, h);
      forall i | s <= i < |ring|
        ensures h <= ring[i].point
      {
        assert ring[s].point <= ring[i].point;
      }
    }

    lemma RingFacts(ring: seq<Mcs>)
      requires RingValid() && continuum != null && ring == continuum[..numpoints]
      ensures Sorted(ring) && |ring| == numpoints > 0
      ensures forall i | 0 <= i < |ring| :: ring[i].ordinal < |adds|
    {
      hide Points, TotalWeight;
      var n := |errs|;
      var points := Points(adds[..n], TotalWeight(adds[..n]), n, errs);
      SameElements(ring, points);
      PointsOrdinal(adds[..n], TotalWeight(adds[..n]), n, errs);
    }
  }

  // ---------- every run ----------

  datatype Op =
    | Add(addr: string, port: int, weight: nat)
    | Build(rounding: seq<real>, d: real)
    | Lookup(key: string)

  datatype Answer = Answer(ordinal: int, addr: string)

  /** The servers that a run has added. */
  function Added(ops: seq<Op>): seq<ServerInfo> {
    if ops == [] then []
    else
      var last := ops[|ops| - 1];
      Added(ops[..|ops| - 1]) + if last.Add? then [ServerInfo(FormatAddress(last.addr, last.port), last.weight)] else []
  }

  /** The run contains a build that had servers to place. */
  predicate HasBuilt(ops: seq<Op>) {
    ops != [] && var before := ops[..|ops| - 1];
    HasBuilt(before) || (ops[|ops| - 1].Build? && Added(before) != [])
  }

  /** The build that has servers to place and comes first: the one that decides the ring. */
  ghost predicate EffectiveBuild(before: seq<Op>, op: Op) {
    op.Build? && Added(before) != [] && !HasBuilt(before)
  }

  /** `ring` is a sorted permutation of the points that the effective build among `ops` generated. */
  ghost predicate MadeBy(ring: seq<Mcs>, ops: seq<Op>, k: nat) {
    k < |ops| && EffectiveBuild(ops[..k], ops[k]) && Built(ring, Added(ops[..k]), ops[k].rounding)
  }

  /** What the operations demand of their callers; a ring of 2^30 points or more is too large to search. */
  ghost predicate Legal(before: seq<Op>, op: Op) {
    match op
    case Add(_, _, _) => true
    case Build(rounding, d) =>
      var servers := Added(before);
      && 320 * |servers| <= INT_MAX
      && (servers != [] && !HasBuilt(before) ==> TotalWeight(servers) > 0 && ErrorsWithin(rounding, d, |servers|))
    case Lookup(_) => true
  }

  ghost predicate IsLookupAfterBuild(ops: seq<Op>, i: nat)
    requires i < |ops|
  {
    ops[i].Lookup? && HasBuilt(ops[..i])
  }

  /** The answer to `op` after `before`, where `ring` is the ring in force when there is one. */
  ghost predicate Right(before: seq<Op>, op: Op, ring: seq<Mcs>, answer: Answer) {
    if !op.Lookup? || !HasBuilt(before) then answer == Answer(-1, "")
    else
      && ring != []
      && answer.ordinal == ring[Owner(ring, KeyHash(op.key))].ordinal
      && 0 <= answer.ordinal < |Added(before)|
      && answer.addr == Added(before)[answer.ordinal].addr
  }

  lemma NothingDone()
    ensures Added([]) == [] && !HasBuilt([])
  {
  }

  lemma {:induction false} NoEarlierBuild(ops: seq<Op>, j: nat, i: nat)
    requires j <= i <= |ops| && !HasBuilt(ops[..i])
    ensures !HasBuilt(ops[..j])
    decreases i
  {
    if j < i {
      assert ops[..i][..i - 1] == ops[..i - 1];
      NoEarlierBuild(ops, j, i - 1);
    }
  }

  lemma {:induction false} NoRingNeeded(before: seq<Op>, op: Op, ring: seq<Mcs>, ring': seq<Mcs>, answer: Answer)
    requires !HasBuilt(before) && (Right(before, op, ring, answer) || answer == Answer(-1, ""))
    ensures Right(before, op, ring', answer)
  {
  }

  lemma FoundExactlyAfterBuild(ops: seq<Op>, i: nat, ring: seq<Mcs>, answer: Answer)
    requires i < |ops|
    ensures Right(ops[..i], ops[i], ring, answer) ==> (answer.ordinal != -1 <==> IsLookupAfterBuild(ops, i))
  {
  }

  method Apply(ketama: Ketama, op: Op, ghost before: seq<Op>) returns (answer: Answer)
    requires ketama.CanSearch() && Legal(before, op)
    requires ketama.adds == Added(before) && (ketama.continuum != null <==> HasBuilt(before))
    modifies ketama, ketama.servers
    ensures ketama.CanSearch() && (ketama.servers == old(ketama.servers) || fresh(ketama.servers))
    ensures ketama.adds == Added(before + [op]) && (ketama.continuum != null <==> HasBuilt(before + [op]))
    ensures old(ketama.continuum) != null ==>
      && ketama.continuum == old(ketama.continuum) && ketama.numpoints == old(ketama.numpoints)
      && ketama.continuum[..ketama.numpoints] == old(ketama.continuum[..ketama.numpoints])
      && Right(before, op, ketama.continuum[..ketama.numpoints], answer)
    ensures old(ketama.continuum) == null ==> answer == Answer(-1, "")
    ensures old(ketama.continuum) == null && ketama.continuum != null ==>
      EffectiveBuild(before, op) && Built(ketama.continuum[..ketama.numpoints], Added(before), op.rounding)
  {
    hide KeyHash, Built, Owner, FormatAddress, ErrorsWithin;
    assert (before + [op])[..|before|] == before;
    answer := Answer(-1, "");
    match op {
      case Add(addr, port, weight) =>
        ketama.AddServer(addr, port, weight);
      case Build(rounding, d) =>
        ketama.CreateContinuum(rounding, d);
      case Lookup(key) =>
        var ordinal, _, fits := ketama.GetServerOrdinal(key);
        assert fits;
        var addr := ketama.GetServerAddress(ordinal);
        answer := Answer(ordinal, addr);
    }
  }

  /**
   * Every interleaving of adds, builds and lookups: a lookup answers -1 exactly before the first effective
   * build; afterwards one ring answers them all, and names the address stored by the add it points to.
   */
  method Run(ops: seq<Op>) returns (answers: seq<Answer>, ghost ring: seq<Mcs>)
    requires forall i | 0 <= i < |ops| :: Legal(ops[..i], ops[i])
    ensures |answers| == |ops|
    ensures forall i | 0 <= i < |ops| :: answers[i].ordinal != -1 <==> IsLookupAfterBuild(ops, i)
    ensures forall i | 0 <= i < |ops| :: Right(ops[..i], ops[i], ring, answers[i])
    ensures HasBuilt(ops) ==> exists k: nat :: MadeBy(ring, ops, k)
  {
    hide Legal, Right, Added, Built, EffectiveBuild;
    var ketama := new Ketama();
    answers := [];
    ring := [];
    ghost var build: nat := 0;
    NothingDone();
    for i := 0 to |ops|
      invariant ketama.CanSearch() && fresh(ketama) && (ketama.servers != null ==> fresh(ketama.servers))
      invariant ketama.adds == Added(ops[..i]) && (ketama.continuum != null <==> HasBuilt(ops[..i]))
      invariant ketama.continuum != null ==>
        ring == ketama.continuum[..ketama.numpoints] && build < i && MadeBy(ring, ops, build)
      invariant |answers| == i
      invariant forall j | 0 <= j < i :: Right(ops[..j], ops[j], ring, answers[j])
    {
      assert ops[..i + 1] == ops[..i] + [ops[i]];
      ghost var built := ketama.continuum != null;
      var answer := Apply(ketama, ops[i], ops[..i]);
      if !built {
        ghost var ring' := if ketama.continuum == null then [] else ketama.continuum[..ketama.numpoints];
        forall j | 0 <= j <= i
          ensures Right(ops[..j], ops[j], ring', (answers + [answer])[j])
        {
          NoEarlierBuild(ops, j, i);
          NoRingNeeded(ops[..j], ops[j], ring, ring', (answers + [answer])[j]);
        }
        ring := ring';
        build := i;
      }
      answers := answers + [answer];
    }
    assert ops[..|ops|] == ops;
    forall i | 0 <= i < |ops|
      ensures answers[i].ordinal != -1 <==> IsLookupAfterBuild(ops, i)
    {
      FoundExactlyAfterBuild(ops, i, ring, answers[i]);
    }
    assert HasBuilt(ops) ==> MadeBy(ring, ops, build);
  }
}
