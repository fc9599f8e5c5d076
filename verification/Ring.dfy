/**
 * The continuum as a value: points on a circle of 2^32 hashes, each naming a server.  A hash belongs to
 * the first point at or after it, and to the first point of all when there is none.
 */
module Ring {
  import opened Common

  const CIRCLE := TWO_TO_THE_32

  type Hash = h: nat | h < CIRCLE

  datatype Mcs = Mcs(point: Hash, ordinal: nat)

  ghost predicate Sorted(ring: seq<Mcs>) {
    forall i, j | 0 <= i < j < |ring| :: ring[i].point <= ring[j].point
  }

  /** A linear scan for the first point that is at least `h`; the length of the ring if there is none. */
  function Successor(ring: seq<Mcs>, h: Hash): (s: nat)
    ensures s <= |ring|
  {
    if ring == [] || h <= ring[0].point then 0 else 1 + Successor(ring[1..], h)
  }

  /** The index of the point that `h` is routed to. */
  function Owner(ring: seq<Mcs>, h: Hash): (i: nat)
    requires ring != []
    ensures i < |ring|
  {
    var s := Successor(ring, h);
    if s == |ring| then 0 else s
  }

  lemma {:induction false} SuccessorMeaning(ring: seq<Mcs>, h: Hash)
    ensures forall j | 0 <= j < Successor(ring, h) :: ring[j].point < h
    ensures Successor(ring, h) < |ring| ==> h <= ring[Successor(ring, h)].point
  {
    if ring != [] && ring[0].point < h {
      SuccessorMeaning(ring[1..], h);
      forall j | 0 <= j < Successor(ring, h)
        ensures ring[j].point < h
      {
        if j > 0 {
          assert ring[j] == ring[1..][j - 1];
        }
      }
    }
  }

  lemma {:induction false} SuccessorUnique(ring: seq<Mcs>, h: Hash, s: nat)
    requires Sorted(ring) && s <= |ring|
    requires s > 0 ==> ring[s - 1].point < h
    requires s < |ring| ==> h <= ring[s].point
    ensures Successor(ring, h) == s
  {
    SuccessorMeaning(ring, h);
    assert forall j | 0 <= j < s :: ring[j].point <= ring[s - 1].point < h;
  }

  // ---------- conservation of the key space ----------

  /** The part of the circle from the point before (not included) to point `i`. */
  function Arc(ring: seq<Mcs>, i: nat): int
    requires i < |ring|
  {
    if i == 0 then ring[0].point + CIRCLE - ring[|ring| - 1].point else ring[i].point - ring[i - 1].point
  }

  ghost function Routed(ring: seq<Mcs>, i: nat): set<Hash>
    requires ring != []
  {
    set h: Hash | 0 <= h < CIRCLE && Owner(ring, h) == i
  }

  ghost function Interval(lo: nat, hi: nat): (s: set<Hash>)
    requires lo <= hi <= CIRCLE
    ensures |s| == hi - lo
    ensures forall h: Hash :: h in s <==> lo <= h < hi
    decreases hi
  {
    if lo == hi then {} else Interval(lo, hi - 1) + {hi - 1}
  }

  lemma OwnerAbove(ring: seq<Mcs>, h: Hash, i: nat)
    requires Sorted(ring) && 0 < i < |ring|
    ensures Owner(ring, h) == i <==> ring[i - 1].point < h <= ring[i].point
  {
    SuccessorMeaning(ring, h);
    if ring[i - 1].point < h <= ring[i].point {
      SuccessorUnique(ring, h, i);
    }
  }

  lemma OwnerFirst(ring: seq<Mcs>, h: Hash)
    requires Sorted(ring) && ring != []
    ensures Owner(ring, h) == 0 <==> h <= ring[0].point || ring[|ring| - 1].point < h
  {
    SuccessorMeaning(ring, h);
    if h <= ring[0].point {
      SuccessorUnique(ring, h, 0);
    } else if ring[|ring| - 1].point < h {
      SuccessorUnique(ring, h, |ring|);
    }
  }

  /** The hashes routed to a point are as many as its arc is long; a repeated point gets none. */
  lemma RoutedIsArc(ring: seq<Mcs>, i: nat)
    requires Sorted(ring) && i < |ring|
    ensures |Routed(ring, i)| == Arc(ring, i)
  {
    if i == 0 {
      RoutedToFirst(ring);
    } else {
      hide Owner, Sorted, Interval;
      var from: nat, to: nat := ring[i - 1].point, ring[i].point;
      FromTo(ring, i);
      forall h: Hash
        ensures h in Routed(ring, i) <==> h in Interval(from + 1, to + 1)
      {
        OwnerAbove(ring, h, i);
      }
      assert Routed(ring, i) == Interval(from + 1, to + 1);
    }
  }

  lemma FromTo(ring: seq<Mcs>, i: nat)
    requires Sorted(ring) && 0 < i < |ring|
    ensures ring[i - 1].point <= ring[i].point
  {
  }

  lemma {:induction false} TwoEnds(lo: nat, hi: nat)
    requires lo <= hi <= CIRCLE
    ensures |Interval(0, lo) + Interval(hi, CIRCLE)| == lo + CIRCLE - hi
  {
    assert Interval(0, lo) !! Interval(hi, CIRCLE);
  }

  /** The first point gets the two ends of the circle, which are one arc through zero. */
  lemma RoutedToFirst(ring: seq<Mcs>)
    requires Sorted(ring) && ring != []
    ensures |Routed(ring, 0)| == Arc(ring, 0)
  {
    hide Owner, Sorted, Interval;
    var first: nat, last: nat := ring[0].point, ring[|ring| - 1].point;
    FirstIsLeast(ring);
    forall h: Hash
      ensures h in Routed(ring, 0) <==> h in Interval(0, first + 1) + Interval(last + 1, CIRCLE)
    {
      OwnerFirst(ring, h);
    }
    assert Routed(ring, 0) == Interval(0, first + 1) + Interval(last + 1, CIRCLE);
    TwoEnds(first + 1, last + 1);
  }

  lemma FirstIsLeast(ring: seq<Mcs>)
    requires Sorted(ring) && ring != []
    ensures ring[0].point <= ring[|ring| - 1].point
  {
  }

  /** The hashes that server `s` answers for, among the first `n` points. */
  ghost function ServedBy(ring: seq<Mcs>, s: nat, n: nat): set<Hash>
    requires ring != []
  {
    set h: Hash | 0 <= h < CIRCLE && Owner(ring, h) < n && ring[Owner(ring, h)].ordinal == s
  }

  ghost function Served(ring: seq<Mcs>, s: nat): set<Hash>
    requires ring != []
  {
    ServedBy(ring, s, |ring|)
  }

  function ArcSum(ring: seq<Mcs>, s: nat, n: nat): int
    requires n <= |ring|
  {
    if n == 0 then 0
    else ArcSum(ring, s, n - 1) + if ring[n - 1].ordinal == s then Arc(ring, n - 1) else 0
  }

  lemma ServedByNext(ring: seq<Mcs>, s: nat, n: nat)
    requires ring != [] && n < |ring|
    ensures |ServedBy(ring, s, n + 1)| == |ServedBy(ring, s, n)| + if ring[n].ordinal == s then |Routed(ring, n)| else 0
  {
    hide Owner;
    var own := if ring[n].ordinal == s then Routed(ring, n) else {};
    assert ServedBy(ring, s, n + 1) == ServedBy(ring, s, n) + own;
    assert ServedBy(ring, s, n) !! own;
  }

  /** A server's share of the hashes is the sum of the arcs of its own points. */
  lemma {:induction false} ServedByIsArcSum(ring: seq<Mcs>, s: nat, n: nat)
    requires Sorted(ring) && ring != [] && n <= |ring|
    ensures |ServedBy(ring, s, n)| == ArcSum(ring, s, n)
  {
    hide Owner, Arc, Sorted, Routed;
    if n == 0 {
      assert ServedBy(ring, s, 0) == {};
    } else {
      hide ServedBy;
      ServedByIsArcSum(ring, s, n - 1);
      ServedByNext(ring, s, n - 1);
      RoutedIsArc(ring, n - 1);
    }
  }

  ghost function ServedSum(ring: seq<Mcs>, servers: nat): nat
    requires ring != []
  {
    if servers == 0 then 0 else ServedSum(ring, servers - 1) + |Served(ring, servers - 1)|
  }

  ghost function BelowOrdinal(ring: seq<Mcs>, servers: nat): set<Hash>
    requires ring != []
  {
    set h: Hash | 0 <= h < CIRCLE && ring[Owner(ring, h)].ordinal < servers
  }

  lemma {:induction false} ServedSumIsUnion(ring: seq<Mcs>, servers: nat)
    requires ring != []
    ensures ServedSum(ring, servers) == |BelowOrdinal(ring, servers)|
  {
    hide Owner;
    if servers == 0 {
      assert BelowOrdinal(ring, 0) == {};
    } else {
      ServedSumIsUnion(ring, servers - 1);
      assert BelowOrdinal(ring, servers) == BelowOrdinal(ring, servers - 1) + Served(ring, servers - 1);
      assert BelowOrdinal(ring, servers - 1) !! Served(ring, servers - 1);
    }
  }

  /** No hash is lost and none is counted twice: the servers' shares add up to the whole circle. */
  lemma {:induction false} ServedCoversCircle(ring: seq<Mcs>, servers: nat)
    requires ring != [] && forall i | 0 <= i < |ring| :: ring[i].ordinal < servers
    ensures ServedSum(ring, servers) == CIRCLE
  {
    ServedSumIsUnion(ring, servers);
    assert BelowOrdinal(ring, servers) == Interval(0, CIRCLE);
  }

  // ---------- remapping ----------

  /** `e` is the entry that answers for `h`: the nearest at or after it, or the least of all. */
  ghost predicate Answers(points: multiset<Mcs>, h: Hash, e: Mcs) {
    && e in points
    && if h <= e.point then forall x | x in points && h <= x.point :: e.point <= x.point
       else forall x | x in points :: x.point < h && e.point <= x.point
  }

  lemma OwnerAnswers(ring: seq<Mcs>, h: Hash)
    requires Sorted(ring) && ring != []
    ensures Answers(multiset(ring), h, ring[Owner(ring, h)])
  {
    SuccessorMeaning(ring, h);
  }

  /** No point of the circle belongs to two servers. */
  ghost predicate NoSharedPoint(points: seq<Mcs>) {
    forall x, y | x in points && y in points && x.point == y.point :: x.ordinal == y.ordinal
  }

  /**
   * Two rings, sorted in any order of equal points, of which the second has the points of one more server:
   * a key moves exactly when the new server answers for it.
   */
  lemma MinimalRemapping(points: seq<Mcs>, extra: seq<Mcs>, ring: seq<Mcs>, ring': seq<Mcs>, newcomer: nat, h: Hash)
    requires points != [] && NoSharedPoint(points) && forall e | e in points :: e.ordinal != newcomer
    requires forall e | e in extra :: e.ordinal == newcomer
    requires Sorted(ring) && multiset(ring) == multiset(points)
    requires Sorted(ring') && multiset(ring') == multiset(points + extra)
    ensures ring != [] && ring' != []
    ensures
      var was, now := ring[Owner(ring, h)].ordinal, ring'[Owner(ring', h)].ordinal;
      now != was <==> now == newcomer
  {
    assert points[0] in multiset(ring) && points[0] in multiset(ring');
    OwnerAnswers(ring, h);
    OwnerAnswers(ring', h);
    var was, now := ring[Owner(ring, h)], ring'[Owner(ring', h)];
    assert was in multiset(points) && was in multiset(ring');
    assert now in multiset(points + extra);
    if now in points {
      assert now in multiset(ring);
      assert now.point == was.point;
    } else {
      assert now in extra;
    }
  }
}
