/**
 * A log of event times, the buckets that stand for it, and the count of the events still in the window.
 */
module Window {
  import opened Arithmetic
  import opened Common

  // ---------- bucket times ----------

  /** The remainder of C, which has the sign of the dividend. */
  function Rem(a: int, b: nat): int
    requires b > 0
  {
    if a >= 0 then a % b else -(-a % b)
  }

  /** get_base_time_by_time */
  function Base(term: nat, t: int): int
    requires term > 0
  {
    t - Rem(t, term)
  }

  lemma BaseMultiple(term: nat, t: int)
    requires term > 0
    ensures Base(term, t) % term == 0
  {
    if t >= 0 {
      assert Base(term, t) == term * (t / term);
      MultipleRemainder(term, t / term);
    } else {
      assert Base(term, t) == term * -(-t / term);
      MultipleRemainder(term, -(-t / term));
    }
  }

  lemma BaseMonotone(term: nat, t: int, u: int)
    requires term > 0 && t <= u
    ensures Base(term, t) <= Base(term, u)
  {
    if t >= 0 {
      RoundDownMonotone(term, t, u);
    } else if u < 0 {
      RoundDownMonotone(term, -u, -t);
    } else {
      BaseSide(term, t);
      BaseSide(term, u);
    }
  }

  lemma BaseSide(term: nat, t: int)
    requires term > 0
    ensures if t >= 0 then 0 <= Base(term, t) <= t else t <= Base(term, t) <= 0
  {
    if t >= 0 {
      RoundDownMonotone(term, 0, t);
    } else {
      RoundDownMonotone(term, 0, -t);
    }
  }

  /** A bucket is one term wide and contains its times; the remainder of C puts those before zero below its start. */
  lemma BaseContains(term: nat, t: int)
    requires term > 0
    ensures t >= 0 ==> Base(term, t) <= t < Base(term, t) + term
    ensures t < 0 ==> Base(term, t) - term < t <= Base(term, t)
  {
  }

  /** Those two facts determine the bucket of a time. */
  lemma BaseUnique(term: nat, t: int, b: int)
    requires term > 0 && b % term == 0
    requires if t >= 0 then b <= t < b + term else b - term < t <= b
    ensures b == Base(term, t)
  {
    var c := Base(term, t);
    BaseMultiple(term, t);
    BaseContains(term, t);
    if b < c {
      MultiplesApart(term, b, c);
    } else if c < b {
      MultiplesApart(term, c, b);
    }
  }

  // ---------- counting events ----------

  /** The events of bucket `b`. */
  function CountAt(log: seq<int>, term: nat, b: int): nat
    requires term > 0
  {
    if log == [] then 0
    else CountAt(log[..|log| - 1], term, b) + if Base(term, log[|log| - 1]) == b then 1 else 0
  }

  /** The events of buckets later than `cut`. */
  function CountAfter(log: seq<int>, term: nat, cut: int): nat
    requires term > 0
  {
    if log == [] then 0
    else CountAfter(log[..|log| - 1], term, cut) + if Base(term, log[|log| - 1]) > cut then 1 else 0
  }

  /** Times 2^32, the events up to `cut` that were the 2^32-th, 2*2^32-th, ... of their bucket. */
  function Lost(log: seq<int>, term: nat, cut: int): nat
    requires term > 0
  {
    if log == [] then 0
    else
      var b := Base(term, log[|log| - 1]);
      Lost(log[..|log| - 1], term, cut)
        + if b <= cut && CountAt(log, term, b) % TWO_TO_THE_32 == 0 then TWO_TO_THE_32 else 0
  }

  /** The positions of the events of bucket `b`, and of those of the buckets later than `cut`. */
  ghost function EventsAt(log: seq<int>, term: nat, b: int): set<nat>
    requires term > 0
  {
    set i: nat | i < |log| && Base(term, log[i]) == b
  }

  ghost function EventsAfter(log: seq<int>, term: nat, cut: int): set<nat>
    requires term > 0
  {
    set i: nat | i < |log| && Base(term, log[i]) > cut
  }

  lemma {:induction false} CountAtIsNumber(log: seq<int>, term: nat, b: int)
    requires term > 0
    ensures CountAt(log, term, b) == |EventsAt(log, term, b)|
  {
    hide Base;
    if log != [] {
      var k := |log| - 1;
      CountAtIsNumber(log[..k], term, b);
      assert EventsAt(log, term, b) == EventsAt(log[..k], term, b) + if Base(term, log[k]) == b then {k} else {};
    }
  }

  lemma {:induction false} CountAfterIsNumber(log: seq<int>, term: nat, cut: int)
    requires term > 0
    ensures CountAfter(log, term, cut) == |EventsAfter(log, term, cut)|
  {
    hide Base;
    if log != [] {
      var k := |log| - 1;
      CountAfterIsNumber(log[..k], term, cut);
      assert EventsAfter(log, term, cut)
          == EventsAfter(log[..k], term, cut) + if Base(term, log[k]) > cut then {k} else {};
    }
  }

  /** The events that happened less than `age` before `now`. */
  ghost function Younger(log: seq<int>, now: int, age: int): set<nat> {
    set i: nat | i < |log| && now - log[i] < age
  }

  lemma {:induction false} SubsetCount(a: set<nat>, b: set<nat>)
    requires a <= b
    ensures |a| <= |b|
  {
    if a != {} {
      var x :| x in a;
      SubsetCount(a - {x}, b - {x});
    }
  }

  /**
   * The window in seconds: every event that is at most term * (max - 1) old is counted and none that is
   * term * max old or older.
   */
  lemma {:induction false} WindowAge(log: seq<int>, term: nat, max: nat, now: int)
    requires term > 0 && forall i | 0 <= i < |log| :: 0 <= log[i] <= now
    ensures
      var n := CountAfter(log, term, Base(term, now) - term * max);
      |Younger(log, now, term * (max - 1) + 1)| <= n <= |Younger(log, now, term * max)|
  {
    hide Base;
    var cut := Base(term, now) - term * max;
    CountAfterIsNumber(log, term, cut);
    forall i: nat | i < |log|
      ensures now - log[i] < term * (max - 1) + 1 ==> Base(term, log[i]) > cut
      ensures Base(term, log[i]) > cut ==> now - log[i] < term * max
    {
      EventAge(term, max, log[i], now);
    }
    SubsetCount(Younger(log, now, term * (max - 1) + 1), EventsAfter(log, term, cut));
    SubsetCount(EventsAfter(log, term, cut), Younger(log, now, term * max));
  }

  lemma EventAge(term: nat, max: nat, t: int, now: int)
    requires term > 0 && 0 <= t <= now
    ensures now - t < term * (max - 1) + 1 ==> Base(term, t) > Base(term, now) - term * max
    ensures Base(term, t) > Base(term, now) - term * max ==> now - t < term * max
  {
    hide Base;
    BaseContains(term, t);
    BaseContains(term, now);
    BaseMultiple(term, t);
    BaseMultiple(term, now);
    assert term * max == term * (max - 1) + term;
    MultipleDifference(term, Base(term, now), max);
    if Base(term, t) > Base(term, now) - term * max {
      MultiplesApart(term, Base(term, now) - term * max, Base(term, t));
    }
  }

  ghost predicate NonDecreasing(log: seq<int>) {
    forall i, j | 0 <= i < j < |log| :: log[i] <= log[j]
  }

  lemma LaterEvent(log: seq<int>, t: int)
    requires NonDecreasing(log) && forall i | 0 <= i < |log| :: log[i] <= t
    ensures NonDecreasing(log + [t])
  {
  }

  lemma {:induction false} NoneAt(log: seq<int>, term: nat, b: int)
    requires term > 0 && forall i | 0 <= i < |log| :: Base(term, log[i]) != b
    ensures CountAt(log, term, b) == 0
  {
    if log != [] {
      NoneAt(log[..|log| - 1], term, b);
    }
  }

  lemma {:induction false} SomeAt(log: seq<int>, term: nat, b: int)
    requires term > 0 && CountAt(log, term, b) > 0
    ensures exists i | 0 <= i < |log| :: Base(term, log[i]) == b
  {
    if Base(term, log[|log| - 1]) != b {
      SomeAt(log[..|log| - 1], term, b);
      var i :| 0 <= i < |log| - 1 && Base(term, log[..|log| - 1][i]) == b;
      assert Base(term, log[i]) == b;
    }
  }

  lemma {:induction false} NoneAfter(log: seq<int>, term: nat, cut: int)
    requires term > 0 && forall i | 0 <= i < |log| :: Base(term, log[i]) <= cut
    ensures CountAfter(log, term, cut) == 0
  {
    if log != [] {
      NoneAfter(log[..|log| - 1], term, cut);
    }
  }

  /** Moving the cut over one bucket takes its events out of the window and its overflows into the loss. */
  lemma {:induction false} CutOneBucket(log: seq<int>, term: nat, cut: int, b: int)
    requires term > 0 && cut < b
    requires forall i | 0 <= i < |log| :: !(cut < Base(term, log[i]) < b)
    ensures CountAfter(log, term, cut) == CountAfter(log, term, b) + CountAt(log, term, b)
    ensures Lost(log, term, b) == Lost(log, term, cut) + (CountAt(log, term, b) - CountAt(log, term, b) % TWO_TO_THE_32)
  {
    hide Base, CountAt, CountAfter, Lost;
    LastAdds(log, term, cut, b);
    LastAdds(log, term, b, b);
    if log != [] {
      var before := log[..|log| - 1];
      CutOneBucket(before, term, cut, b);
      NextMultiple(CountAt(before, term, b));
    }
  }

  /** What the last event adds to each count, or nothing. */
  lemma {:induction false} LastAdds(log: seq<int>, term: nat, cut: int, b: int)
    requires term > 0
    ensures log == [] ==> CountAt(log, term, b) == 0 == CountAfter(log, term, cut) == Lost(log, term, cut)
    ensures log != [] ==>
      var before, e := log[..|log| - 1], Base(term, log[|log| - 1]);
      && CountAt(log, term, b) == CountAt(before, term, b) + (if e == b then 1 else 0)
      && CountAfter(log, term, cut) == CountAfter(before, term, cut) + (if e > cut then 1 else 0)
      && Lost(log, term, cut) == Lost(before, term, cut)
         + if e <= cut && CountAt(log, term, e) % TWO_TO_THE_32 == 0 then TWO_TO_THE_32 else 0
  {
    hide Base;
  }

  lemma NextMultiple(n: nat)
    ensures (n + 1) - (n + 1) % TWO_TO_THE_32
         == n - n % TWO_TO_THE_32 + if (n + 1) % TWO_TO_THE_32 == 0 then TWO_TO_THE_32 else 0
  {
    NextRemainder(n);
  }

  lemma {:induction false} CutNoBucket(log: seq<int>, term: nat, cut: int, cut': int)
    requires term > 0 && cut <= cut'
    requires forall i | 0 <= i < |log| :: !(cut < Base(term, log[i]) <= cut')
    ensures CountAfter(log, term, cut) == CountAfter(log, term, cut')
    ensures Lost(log, term, cut) == Lost(log, term, cut')
  {
    hide Base;
    if log != [] {
      CutNoBucket(log[..|log| - 1], term, cut, cut');
    }
  }

  // ---------- buckets ----------

  datatype Bucket = Bucket(time: int, count: nat)

  /** Bucket times are strictly increasing multiples of the term, later than `cut`. */
  ghost predicate Ordered(buckets: seq<Bucket>, term: nat, cut: int)
    requires term > 0
  {
    && (forall i, j | 0 <= i < j < |buckets| :: buckets[i].time < buckets[j].time)
    && (forall i | 0 <= i < |buckets| :: buckets[i].time > cut && buckets[i].time % term == 0)
  }

  /** Every bucket has events, and its counter is what 32 bits keep of their number. */
  ghost predicate Faithful(buckets: seq<Bucket>, log: seq<int>, term: nat)
    requires term > 0
  {
    forall i | 0 <= i < |buckets| ::
      && CountAt(log, term, buckets[i].time) > 0
      && buckets[i].count == CountAt(log, term, buckets[i].time) % TWO_TO_THE_32
  }

  ghost predicate HasBucket(buckets: seq<Bucket>, time: int) {
    exists i | 0 <= i < |buckets| :: buckets[i].time == time
  }

  /** Every event later than `cut` has its bucket. */
  ghost predicate Covers(buckets: seq<Bucket>, log: seq<int>, term: nat, cut: int)
    requires term > 0
  {
    forall i | 0 <= i < |log| && Base(term, log[i]) > cut :: HasBucket(buckets, Base(term, log[i]))
  }

  /** `total` is what 64 bits keep of the window's events and the lost ones. */
  ghost predicate Totals(total: nat, log: seq<int>, term: nat, cut: int)
    requires term > 0
  {
    total == (CountAfter(log, term, cut) + Lost(log, term, cut)) % TWO_TO_THE_64
  }

  /** `total` and `buckets` are what the counters keep of `log` after `cut`. */
  ghost predicate Represents(buckets: seq<Bucket>, total: nat, log: seq<int>, term: nat, cut: int)
    requires term > 0
  {
    && Ordered(buckets, term, cut) && Faithful(buckets, log, term)
    && Covers(buckets, log, term, cut) && Totals(total, log, term, cut)
  }

  /** The buckets after one more event in bucket `base`. */
  function Record(buckets: seq<Bucket>, base: int): seq<Bucket> {
    var n := |buckets|;
    if n > 0 && buckets[n - 1].time == base
    then buckets[n - 1 := Bucket(base, (buckets[n - 1].count + 1) % TWO_TO_THE_32)]
    else buckets + [Bucket(base, 1)]
  }

  lemma {:induction false} OneMoreEvent(log: seq<int>, term: nat, t: int)
    requires term > 0
    ensures forall b :: CountAt(log + [t], term, b) == CountAt(log, term, b) + if Base(term, t) == b then 1 else 0
    ensures forall cut | cut < Base(term, t) :: CountAfter(log + [t], term, cut) == CountAfter(log, term, cut) + 1
    ensures forall cut | cut < Base(term, t) :: Lost(log + [t], term, cut) == Lost(log, term, cut)
  {
    hide Base;
    assert (log + [t])[..|log|] == log;
  }

  /** No bucket is later than every event. */
  lemma {:induction false} BucketsNotLater(buckets: seq<Bucket>, log: seq<int>, term: nat, cut: int, base: int)
    requires term > 0 && Ordered(buckets, term, cut) && Faithful(buckets, log, term) && Covers(buckets, log, term, cut)
    requires base > cut && forall i | 0 <= i < |log| :: Base(term, log[i]) <= base
    ensures forall i | 0 <= i < |buckets| :: buckets[i].time <= base
    ensures buckets == [] || buckets[|buckets| - 1].time != base ==> CountAt(log, term, base) == 0
  {
    hide Base, CountAt;
    forall i | 0 <= i < |buckets|
      ensures buckets[i].time <= base
    {
      SomeAt(log, term, buckets[i].time);
    }
    if buckets == [] || buckets[|buckets| - 1].time != base {
      NoneAt(log, term, base);
    }
  }

  lemma NextModulo32(x: nat)
    ensures (x % TWO_TO_THE_32 + 1) % TWO_TO_THE_32 == (x + 1) % TWO_TO_THE_32
  {
  }

  lemma NextModulo64(x: nat)
    ensures (x % TWO_TO_THE_64 + 1) % TWO_TO_THE_64 == (x + 1) % TWO_TO_THE_64
  {
  }

  lemma {:induction false} RecordFaithful(buckets: seq<Bucket>, log: seq<int>, term: nat, t: int)
    requires term > 0 && Faithful(buckets, log, term)
    requires forall i | 0 <= i < |buckets| - 1 :: buckets[i].time != Base(term, t)
    requires buckets == [] || buckets[|buckets| - 1].time != Base(term, t) ==> CountAt(log, term, Base(term, t)) == 0
    ensures Faithful(Record(buckets, Base(term, t)), log + [t], term)
  {
    hide Base, CountAt;
    OneMoreEvent(log, term, t);
    NextModulo32(CountAt(log, term, Base(term, t)));
  }

  lemma RecordCovers(buckets: seq<Bucket>, log: seq<int>, term: nat, cut: int, t: int)
    requires term > 0 && Covers(buckets, log, term, cut)
    ensures Covers(Record(buckets, Base(term, t)), log + [t], term, cut)
  {
    hide Base;
    var base, buckets' := Base(term, t), Record(buckets, Base(term, t));
    assert buckets'[|buckets'| - 1].time == base;
    forall i | 0 <= i < |log + [t]| && Base(term, (log + [t])[i]) > cut
      ensures HasBucket(buckets', Base(term, (log + [t])[i]))
    {
      if i < |log| {
        var k :| 0 <= k < |buckets| && buckets[k].time == Base(term, log[i]);
        assert buckets'[k].time == Base(term, log[i]);
      }
    }
  }

  /** One more event in the last bucket or in a new one: what cq_tic_time does before it expires. */
  lemma RecordEvent(buckets: seq<Bucket>, total: nat, log: seq<int>, term: nat, cut: int, t: int)
    requires term > 0 && Represents(buckets, total, log, term, cut)
    requires Base(term, t) > cut && forall i | 0 <= i < |log| :: Base(term, log[i]) <= Base(term, t)
    ensures Represents(Record(buckets, Base(term, t)), (total + 1) % TWO_TO_THE_64, log + [t], term, cut)
  {
    hide Base, CountAfter, Lost, Faithful, Covers;
    BaseMultiple(term, t);
    BucketsNotLater(buckets, log, term, cut, Base(term, t));
    RecordFaithful(buckets, log, term, t);
    RecordCovers(buckets, log, term, cut, t);
    OneMoreEvent(log, term, t);
    NextModulo64(CountAfter(log, term, cut) + Lost(log, term, cut));
  }

  /** The first bucket is the oldest that the window has events of. */
  lemma NothingBefore(buckets: seq<Bucket>, log: seq<int>, term: nat, cut: int)
    requires term > 0 && Ordered(buckets, term, cut) && Covers(buckets, log, term, cut) && buckets != []
    ensures forall i | 0 <= i < |log| :: !(cut < Base(term, log[i]) < buckets[0].time)
    ensures Covers(buckets[1..], log, term, buckets[0].time)
  {
    hide Base;
    forall i | 0 <= i < |log| && Base(term, log[i]) > cut
      ensures Base(term, log[i]) >= buckets[0].time
      ensures Base(term, log[i]) > buckets[0].time ==> HasBucket(buckets[1..], Base(term, log[i]))
    {
      var k :| 0 <= k < |buckets| && buckets[k].time == Base(term, log[i]);
      if k > 0 {
        assert buckets[1..][k - 1].time == Base(term, log[i]);
      }
    }
  }

  /** The first bucket leaves the window: one pass of the loop of cq_adjust. */
  lemma ExpireFirst(buckets: seq<Bucket>, total: nat, log: seq<int>, term: nat, cut: int)
    requires term > 0 && Represents(buckets, total, log, term, cut) && buckets != []
    ensures Represents(buckets[1..], (total - buckets[0].count) % TWO_TO_THE_64, log, term, buckets[0].time)
  {
    hide Base, CountAt, CountAfter, Lost;
    var time := buckets[0].time;
    NothingBefore(buckets, log, term, cut);
    CutOneBucket(log, term, cut, time);
    var sum := CountAfter(log, term, cut) + Lost(log, term, cut);
    assert sum - buckets[0].count == CountAfter(log, term, time) + Lost(log, term, time);
    SubtractModulo(sum, buckets[0].count);
  }

  lemma SubtractModulo(x: nat, y: nat)
    requires y <= x
    ensures (x % TWO_TO_THE_64 - y) % TWO_TO_THE_64 == (x - y) % TWO_TO_THE_64
  {
  }

  lemma ExpireNone(buckets: seq<Bucket>, total: nat, log: seq<int>, term: nat, cut: int, cut': int)
    requires term > 0 && Represents(buckets, total, log, term, cut)
    requires cut <= cut' && (buckets != [] ==> cut' < buckets[0].time)
    ensures Represents(buckets, total, log, term, cut')
  {
    hide Base, CountAt, CountAfter, Lost;
    forall i | 0 <= i < |log|
      ensures !(cut < Base(term, log[i]) <= cut')
    {
      if cut < Base(term, log[i]) {
        assert HasBucket(buckets, Base(term, log[i]));
      }
    }
    CutNoBucket(log, term, cut, cut');
  }

  lemma RepresentsNothing(term: nat, cut: int)
    requires term > 0
    ensures Represents([], 0, [], term, cut)
  {
  }

  /** With distinct multiples of the term in a window of `max` terms there are at most `max` buckets. */
  lemma FewBuckets(buckets: seq<Bucket>, total: nat, log: seq<int>, term: nat, cut: int, now: int, max: nat)
    requires term > 0 && Represents(buckets, total, log, term, cut)
    requires forall i | 0 <= i < |log| :: log[i] <= now
    requires cut == Base(term, now) - term * max
    ensures |buckets| <= max
  {
    hide Base, CountAt, CountAfter, Lost, Covers;
    if buckets != [] {
      var n := |buckets|;
      BaseMultiple(term, now);
      SomeAt(log, term, buckets[n - 1].time);
      var i :| 0 <= i < |log| && Base(term, log[i]) == buckets[n - 1].time;
      BaseMonotone(term, log[i], now);
      TimesApart(buckets, term, cut, Base(term, now), max);
    }
  }

  lemma TimesApart(buckets: seq<Bucket>, term: nat, cut: int, base: int, max: nat)
    requires term > 0 && Ordered(buckets, term, cut) && buckets != []
    requires base % term == 0 && cut == base - term * max && buckets[|buckets| - 1].time <= base
    ensures |buckets| <= max
  {
    var n := |buckets|;
    Spread(buckets, term, cut, n - 1);
    MultipleDifference(term, base, max);
    MultiplesApart(term, cut, buckets[0].time);
    Scale(term, n - max);
    assert term * (n - max) == term * (n - 1) + term - term * max;
  }

  lemma MultipleDifference(m: nat, x: int, q: int)
    requires m > 0 && x % m == 0
    ensures (x - m * q) % m == 0
  {
    assert x - m * q == m * (x / m - q);
    MultipleRemainder(m, x / m - q);
  }

  /** Different multiples are at least the modulus apart. */
  lemma MultiplesApart(m: nat, x: int, y: int)
    requires m > 0 && x % m == 0 && y % m == 0 && x < y
    ensures x + m <= y
  {
    var t := y / m - x / m;
    assert m * t == m * (y / m) - m * (x / m) == y - x;
    Scale(m, t);
  }

  lemma {:induction false} Spread(buckets: seq<Bucket>, term: nat, cut: int, k: nat)
    requires term > 0 && k < |buckets| && Ordered(buckets, term, cut)
    ensures buckets[0].time + term * k <= buckets[k].time
  {
    if k > 0 {
      Spread(buckets, term, cut, k - 1);
      MultiplesApart(term, buckets[k - 1].time, buckets[k].time);
      assert term * k == term * (k - 1) + term;
    }
  }

  function BucketSum(buckets: seq<Bucket>): nat {
    if buckets == [] then 0 else buckets[0].count + BucketSum(buckets[1..])
  }

  /** The last time whose bucket counter no longer changes: everything in the queue is that old or older. */
  function LastTime(buckets: seq<Bucket>, cut: int): int {
    if buckets == [] then cut else buckets[|buckets| - 1].time
  }

  /** The bucket counters and the overflows up to the last bucket are the window and the overflows before it. */
  lemma {:induction false} BucketSumAndLoss(buckets: seq<Bucket>, total: nat, log: seq<int>, term: nat, cut: int)
    requires term > 0 && Represents(buckets, total, log, term, cut)
    ensures BucketSum(buckets) + Lost(log, term, LastTime(buckets, cut))
         == CountAfter(log, term, cut) + Lost(log, term, cut)
    decreases |buckets|
  {
    hide Base, Lost, CountAfter, CountAt;
    if buckets == [] {
      forall i | 0 <= i < |log|
        ensures Base(term, log[i]) <= cut
      {
        assert Base(term, log[i]) > cut ==> HasBucket(buckets, Base(term, log[i]));
      }
      NoneAfter(log, term, cut);
    } else {
      var time, n := buckets[0].time, buckets[0].count;
      ExpireFirst(buckets, total, log, term, cut);
      NothingBefore(buckets, log, term, cut);
      CutOneBucket(log, term, cut, time);
      BucketSumAndLoss(buckets[1..], (total - n) % TWO_TO_THE_64, log, term, time);
    }
  }

  // ---------- when the count is exact ----------

  /** In an ordered log the events of the last bucket are the last ones. */
  lemma {:induction false} LastBucketIsNew(log: seq<int>, term: nat, t: int)
    requires term > 0 && NonDecreasing(log + [t])
    ensures forall i | 0 <= i < |log| :: Base(term, log[i]) <= Base(term, t)
    ensures log == [] || Base(term, log[|log| - 1]) != Base(term, t) ==> CountAt(log, term, Base(term, t)) == 0
  {
    var log' := log + [t];
    forall i | 0 <= i < |log|
      ensures Base(term, log[i]) <= Base(term, t)
    {
      assert log'[i] <= log'[|log|];
      BaseMonotone(term, log[i], t);
    }
    if log == [] || Base(term, log[|log| - 1]) != Base(term, t) {
      forall i | 0 <= i < |log|
        ensures Base(term, log[i]) != Base(term, t)
      {
        assert log'[i] <= log'[|log| - 1] <= log'[|log|];
        BaseMonotone(term, log[i], log[|log| - 1]);
        BaseMonotone(term, log[|log| - 1], t);
      }
      NoneAt(log, term, Base(term, t));
    }
  }

  /** The loss never exceeds the events that have left the window. */
  lemma {:induction false} LossBound(log: seq<int>, term: nat, cut: int)
    requires term > 0 && NonDecreasing(log)
    ensures Lost(log, term, cut) + CountAfter(log, term, cut) <= |log|
    ensures log != [] ==>
      var b := Base(term, log[|log| - 1]);
      b <= cut ==> Lost(log, term, cut) + CountAfter(log, term, cut) + CountAt(log, term, b) % TWO_TO_THE_32 <= |log|
  {
    hide Base, CountAt, CountAfter, Lost;
    if log == [] {
      NothingLost(term, cut);
    } else {
      var k := |log| - 1;
      var before, b := log[..k], Base(term, log[k]);
      assert log == before + [log[k]];
      LossBound(before, term, cut);
      LastBucketIsNew(before, term, log[k]);
      LastAdds(log, term, cut, b);
      NextRemainder(CountAt(before, term, b));
    }
  }

  lemma {:induction false} NothingLost(term: nat, cut: int)
    requires term > 0
    ensures Lost([], term, cut) == 0 == CountAfter([], term, cut)
  {
  }

  lemma NextRemainder(n: nat)
    ensures (n + 1) % TWO_TO_THE_32 == if n % TWO_TO_THE_32 == TWO_TO_THE_32 - 1 then 0 else n % TWO_TO_THE_32 + 1
  {
  }

  ghost predicate BucketsFit(log: seq<int>, term: nat, cut: int)
    requires term > 0
  {
    forall b: int | b <= cut :: CountAt(log, term, b) < TWO_TO_THE_32
  }

  lemma {:induction false} NoLossWhenBucketsFit(log: seq<int>, term: nat, cut: int)
    requires term > 0 && BucketsFit(log, term, cut)
    ensures Lost(log, term, cut) == 0
  {
    hide Base;
    if log != [] {
      var k := |log| - 1;
      assert BucketsFit(log[..k], term, cut) by {
        forall b: int | b <= cut
          ensures CountAt(log[..k], term, b) < TWO_TO_THE_32
        {
          assert CountAt(log, term, b) < TWO_TO_THE_32;
        }
      }
      NoLossWhenBucketsFit(log[..k], term, cut);
      if Base(term, log[k]) <= cut {
        assert CountAt(log, term, Base(term, log[k])) < TWO_TO_THE_32;
      }
    }
  }

  lemma {:induction false} LossWhenBucketOverflows(log: seq<int>, term: nat, cut: int, b: int)
    requires term > 0 && b <= cut && CountAt(log, term, b) >= TWO_TO_THE_32
    ensures Lost(log, term, cut) >= TWO_TO_THE_32
  {
    hide Base;
    var k := |log| - 1;
    if CountAt(log[..k], term, b) >= TWO_TO_THE_32 {
      LossWhenBucketOverflows(log[..k], term, cut, b);
    } else {
      assert CountAt(log, term, b) == TWO_TO_THE_32 && Base(term, log[k]) == b;
    }
  }

  /** The counter equals the number of events in the window exactly when no expired bucket overflowed. */
  lemma {:induction false} ExactWhenBucketsFit(log: seq<int>, term: nat, cut: int)
    requires term > 0 && NonDecreasing(log) && |log| < TWO_TO_THE_64
    ensures (CountAfter(log, term, cut) + Lost(log, term, cut)) % TWO_TO_THE_64 == CountAfter(log, term, cut)
       <==> BucketsFit(log, term, cut)
  {
    LossBound(log, term, cut);
    if BucketsFit(log, term, cut) {
      NoLossWhenBucketsFit(log, term, cut);
    } else {
      var b: int :| b <= cut && CountAt(log, term, b) >= TWO_TO_THE_32;
      LossWhenBucketOverflows(log, term, cut, b);
    }
  }

  /** The total is the sum of the bucket counters exactly when no bucket, expired or not, overflowed. */
  lemma {:induction false} BucketSumExactly(buckets: seq<Bucket>, total: nat, log: seq<int>, term: nat, cut: int)
    requires term > 0 && Represents(buckets, total, log, term, cut)
    requires NonDecreasing(log) && |log| < TWO_TO_THE_64
    ensures total == BucketSum(buckets) <==> BucketsFit(log, term, LastTime(buckets, cut))
  {
    hide Base, Lost, CountAfter, CountAt, Ordered, Faithful, Covers;
    var end := LastTime(buckets, cut);
    BucketSumAndLoss(buckets, total, log, term, cut);
    LossBound(log, term, cut);
    if BucketsFit(log, term, end) {
      NoLossWhenBucketsFit(log, term, end);
    } else {
      var b: int :| b <= end && CountAt(log, term, b) >= TWO_TO_THE_32;
      LossWhenBucketOverflows(log, term, end, b);
    }
  }

  lemma {:induction false} SameBucket(n: nat)
    ensures CountAt(seq(n, _ => 0), 1, 0) == n
  {
    if n > 0 {
      assert seq(n, _ => 0)[..n - 1] == seq(n - 1, _ => 0);
      SameBucket(n - 1);
    }
  }

  /** A bucket that forgets: 2^32 events in the second that is still counted leave a total without buckets' counts. */
  lemma OverflowEmptiesBucket()
    ensures
      var buckets, log := [Bucket(0, 0)], seq(TWO_TO_THE_32, _ => 0);
      Represents(buckets, TWO_TO_THE_32, log, 1, -1) && TWO_TO_THE_32 != BucketSum(buckets)
  {
    hide CountAt, CountAfter, Lost;
    var buckets, log := [Bucket(0, 0)], seq(TWO_TO_THE_32, _ => 0);
    SameBucket(TWO_TO_THE_32);
    AllInWindow(TWO_TO_THE_32);
    assert buckets[0].time == 0;
    assert BucketSum(buckets[1..]) == 0;
  }

  lemma {:induction false} AllInWindow(n: nat)
    ensures CountAfter(seq(n, _ => 0), 1, -1) == n && Lost(seq(n, _ => 0), 1, -1) == 0
  {
    if n > 0 {
      assert seq(n, _ => 0)[..n - 1] == seq(n - 1, _ => 0);
      AllInWindow(n - 1);
    }
  }

  /** Once a second with 2^32 events has expired, there is no event in the window and 2^32 in the loss. */
  lemma BusySecondExpired(n: nat)
    requires n == TWO_TO_THE_32
    ensures CountAfter(seq(n, _ => 0), 1, 0) == 0 && Lost(seq(n, _ => 0), 1, 0) == n
  {
    hide CountAfter, Lost, CountAt;
    var log := seq(n, _ => 0);
    NoneAfter(log, 1, 0);
    SameBucket(n);
    CutOneBucket(log, 1, -1, 0);
    AllInWindow(n);
  }

  /** One event that has expired leaves nothing and loses nothing. */
  lemma {:induction false} OneEventKeepsAll(log: seq<int>, term: nat, cut: int, now: int)
    requires term > 0 && |log| <= 1 && (log != [] ==> log[0] <= now) && cut == Base(term, now)
    ensures CountAfter(log, term, cut) == 0 && Lost(log, term, cut) == 0
  {
    hide Base;
    if log != [] {
      BaseMonotone(term, log[0], now);
      assert log[..|log| - 1] == [];
      assert CountAt(log, term, Base(term, log[0])) == 1;
    }
  }
}
