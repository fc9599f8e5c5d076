/**
 * The sliding-window counter: a linked queue of time buckets that come from a pool, the oldest first.
 * Bucket counters wrap at 32 bits and the total at 64.
 */
module CountQueue {
  import opened Common
  import Pool
  import opened Arithmetic
  import opened Window

  class Tic {
    var count: nat
    var time: int
    var newer: Tic?

    /** What calloc delivers. */
    constructor ()
    {
      count, time, newer := 0, 0, null;
    }
  }

  /** `tics` is the chain of newer links from `first` to `last`. */
  ghost predicate Chain(first: Tic?, last: Tic?, tics: seq<Tic>)
    reads tics`newer
  {
    if tics == [] then first == null
    else
      && first == tics[0] && last == tics[|tics| - 1] && tics[|tics| - 1].newer == null
      && forall i {:trigger tics[i].newer} | 0 <= i < |tics| - 1 :: tics[i].newer == tics[i + 1]
  }

  ghost function Buckets(tics: seq<Tic>): (b: seq<Bucket>)
    reads tics
    ensures |b| == |tics|
  {
    seq(|tics|, i requires 0 <= i < |tics| reads tics => Bucket(tics[i].time, tics[i].count))
  }

  lemma ChainEnds(first: Tic?, last: Tic?, tics: seq<Tic>)
    requires Chain(first, last, tics)
    ensures first == null <==> tics == []
    ensures first != null ==> last == tics[|tics| - 1] && Buckets(tics)[0] == Bucket(first.time, first.count)
    ensures first == null ==> Chain(null, null, tics)
  {
  }

  lemma ChainTail(first: Tic?, last: Tic?, tics: seq<Tic>)
    requires Chain(first, last, tics) && tics != []
    ensures first == tics[0] && Chain(first.newer, last, tics[1..])
    ensures Buckets(tics)[0] == Bucket(first.time, first.count) && Buckets(tics)[1..] == Buckets(tics[1..])
  {
  }

  /** One more tic behind the last one, which already points to it; `b` are the buckets before. */
  lemma ChainAppend(first: Tic?, tics: seq<Tic>, tic: Tic, b: seq<Bucket>)
    requires Pool.Distinct(tics) && tic !in tics && tic.newer == null && tic.count == 1
    requires first == (tics + [tic])[0]
    requires tics != [] ==> tics[|tics| - 1].newer == tic
    requires forall i {:trigger tics[i].newer} | 0 <= i < |tics| - 1 :: tics[i].newer == tics[i + 1]
    requires |b| == |tics| && forall i | 0 <= i < |tics| :: b[i] == Bucket(tics[i].time, tics[i].count)
    ensures Pool.Distinct(tics + [tic]) && Chain(first, tic, tics + [tic])
    ensures Buckets(tics + [tic]) == b + [Bucket(tic.time, 1)]
  {
  }

  /** The last time that is no longer in the window when the clock reads `t`. */
  function Cut(term: nat, max: nat, t: int): int
    requires term > 0
  {
    Base(term, t) - term * max
  }

  class CountQueue {
    const tic_per_sec: nat
    const tic_max_cnt: nat
    const tic_buffer: Pool.Pool<Tic>
    var count: nat
    var first: Tic?
    var last: Tic?

    ghost var tics: seq<Tic>
    ghost var log: seq<int>     // the times of all events
    ghost var window: seq<int>  // the events that the buckets stand for
    ghost var now: int          // the latest clock reading
    ghost var cut: int          // everything up to here has expired

    /** The chain, its tics held from the pool, and the two empty ends together. */
    ghost predicate Shape()
      reads `first, `last, `tics, tics`newer, tic_buffer, tic_buffer.Repr()
    {
      && tic_buffer.Valid() && this !in tic_buffer.Repr()
      && Pool.Distinct(tics) && Chain(first, last, tics)
      && (forall t | t in tics :: t in tic_buffer.outstanding && t !in tic_buffer.Repr())
    }

    ghost predicate Valid()
      reads this, tics, tic_buffer, tic_buffer.Repr()
    {
      && Shape() && (first == null <==> last == null)
      && 0 < tic_per_sec && tic_per_sec * tic_max_cnt <= INT_MAX
      && cut == Cut(tic_per_sec, tic_max_cnt, now)
      && NonDecreasing(log) && (forall i | 0 <= i < |log| :: log[i] <= now)
      && Represents(Buckets(tics), count, window, tic_per_sec, cut)
      && WindowRight() && (tic_max_cnt == 0 ==> tics == [] && count == 0)
    }

    /** A queue of no buckets forgets each event at once. */
    ghost predicate WindowRight()
      reads this
    {
      if tic_max_cnt > 0 then window == log else |window| <= 1 && (window != [] ==> window[0] <= now)
    }

    /** What the counter keeps of the log: exactly the window when no expired bucket has overflowed. */
    ghost function Expected(): nat
      requires tic_per_sec > 0
      reads this
    {
      (CountAfter(log, tic_per_sec, cut) + if tic_max_cnt > 0 then Lost(log, tic_per_sec, cut) else 0) % TWO_TO_THE_64
    }

    /** cq_init, at clock reading `start` or before. */
    constructor (tic_per_sec: nat, tic_max_cnt: nat, tic_buffer: Pool.Pool<Tic>, ghost start: int)
      requires tic_per_sec > 0 && tic_per_sec * tic_max_cnt <= INT_MAX
      requires tic_buffer.Valid()
      ensures Valid() && log == [] && now == start && tics == []
      ensures OthersHold() == tic_buffer.outstanding && forall t :: t in Reach() <==> t in tic_buffer.pooled
      ensures this.tic_per_sec == tic_per_sec && this.tic_max_cnt == tic_max_cnt && this.tic_buffer == tic_buffer
    {
      this.tic_per_sec, this.tic_max_cnt, this.tic_buffer := tic_per_sec, tic_max_cnt, tic_buffer;
      count := 0;
      first, last := null, null;
      tics, log, window := [], [], [];
      now, cut := start, Base(tic_per_sec, start) - tic_per_sec * tic_max_cnt;
      new;
      RepresentsNothing(tic_per_sec, cut);
    }

    ghost function Held(): set<Tic>
      reads `tics
    {
      set t | t in tics
    }

    /** What every operation keeps of the shared pool: the objects that other callers hold. */
    ghost function OthersHold(): set<Tic>
      reads `tics, tic_buffer`outstanding
    {
      tic_buffer.outstanding - Held()
    }

    /** The tics that the queue and the pool can touch. */
    ghost function Reach(): set<Tic>
      reads `tics, tic_buffer`pooled
    {
      Held() + set t | t in tic_buffer.pooled
    }

    /** The oldest bucket goes back to the pool. */
    method BackFirst(tic: Tic)
      requires Shape() && tics != [] && tic == first
      modifies `first, `tics, tic_buffer.Repr()
      ensures Shape() && tics == old(tics)[1..] && first == tic.newer
      ensures Buckets(tics) == old(Buckets(tics))[1..]
      ensures fresh(tic_buffer.Repr() - old(tic_buffer.Repr()))
      ensures OthersHold() == old(OthersHold()) && Reach() <= old(Reach())
    {
      hide Chain, Buckets, Pool.Pool.Valid;
      ChainTail(first, last, tics);
      assert tic !in tics[1..] && Pool.Distinct(tics[1..]);
      hide Pool.Distinct;
      first := tic.newer;
      tics := tics[1..];
      tic_buffer.Back(tic);
      assert Held() == old(Held()) - {tic};
    }

    /** One pass of the loop of cq_adjust. */
    method ExpireOldest(tic: Tic)
      requires Shape() && tics != [] && tic == first && tic_per_sec > 0
      requires Represents(Buckets(tics), count, window, tic_per_sec, cut)
      modifies `count, `first, `tics, `cut, tic_buffer.Repr()
      ensures Shape() && Reach() <= old(Reach()) && |tics| < |old(tics)|
      ensures Represents(Buckets(tics), count, window, tic_per_sec, cut) && cut == old(tic.time)
      ensures fresh(tic_buffer.Repr() - old(tic_buffer.Repr())) && OthersHold() == old(OthersHold())
    {
      hide Represents, Chain, Buckets, Pool.Distinct, Pool.Pool.Valid;
      ChainEnds(first, last, tics);
      ExpireFirst(Buckets(tics), count, window, tic_per_sec, cut);
      count := (count - tic.count) % TWO_TO_THE_64;
      cut := tic.time;
      BackFirst(tic);
    }

    /** cq_adjust: expires from the front every bucket up to base_time minus the window. */
    method Adjust(base_time: int)
      requires Shape() && tic_per_sec > 0
      requires Represents(Buckets(tics), count, window, tic_per_sec, cut)
      requires cut <= base_time - tic_per_sec * tic_max_cnt
      modifies `count, `first, `last, `tics, `cut, tic_buffer.Repr()
      ensures Shape() && (first == null <==> last == null) && Reach() <= old(Reach())
      ensures cut == base_time - tic_per_sec * tic_max_cnt
      ensures Represents(Buckets(tics), count, window, tic_per_sec, cut)
      ensures fresh(tic_buffer.Repr() - old(tic_buffer.Repr())) && OthersHold() == old(OthersHold())
    {
      hide Represents, Chain, Buckets, Pool.Distinct, Pool.Pool.Valid, Held, Shape, Reach, OthersHold;
      var ttl := base_time - tic_per_sec * tic_max_cnt;
      ghost var reach, others := Reach(), OthersHold();
      var tic := first;
      Ends();
      while tic != null && tic.time <= ttl
        invariant Shape() && tic == first && cut <= ttl && Reach() <= reach
        invariant first == null <==> tics == []
        invariant first != null ==> last != null && Buckets(tics)[0] == Bucket(first.time, first.count)
        invariant Represents(Buckets(tics), count, window, tic_per_sec, cut)
        invariant fresh(tic_buffer.Repr() - old(tic_buffer.Repr())) && OthersHold() == others
        decreases |tics|
      {
        ExpireOldest(tic);
        tic := first;
        Ends();
      }
      CloseWindow(ttl);
    }

    /** The end of cq_adjust: what is left in the queue is in the window. */
    method CloseWindow(ttl: int)
      requires Shape() && tic_per_sec > 0 && Represents(Buckets(tics), count, window, tic_per_sec, cut) && cut <= ttl
      requires first == null <==> tics == []
      requires first != null ==> first.time > ttl && Buckets(tics)[0] == Bucket(first.time, first.count)
      requires first != null ==> last != null
      modifies `first, `last, `cut
      ensures Shape() && (first == null <==> last == null) && cut == ttl
      ensures Represents(Buckets(tics), count, window, tic_per_sec, cut)
    {
      hide Represents, Chain, Buckets, Pool.Distinct, Pool.Pool.Valid;
      if first == null {
        ClearEnds();
      }
      ExpireNone(Buckets(tics), count, window, tic_per_sec, cut, ttl);
      cut := ttl;
    }

    lemma Ends()
      requires Shape()
      ensures first == null <==> tics == []
      ensures first != null ==> last != null && Buckets(tics)[0] == Bucket(first.time, first.count)
    {
      hide Pool.Pool.Valid, Pool.Distinct, Buckets;
      ChainEnds(first, last, tics);
    }

    /** An empty queue has no ends. */
    method ClearEnds()
      requires Shape() && first == null
      modifies `first, `last
      ensures Shape() && first == null && last == null
    {
      hide Pool.Pool.Valid, Pool.Distinct;
      first := null;
      last := null;
    }

    /** pabuf_get, on the pool of the queue. */
    method TakeTic() returns (tic: Tic)
      requires Shape()
      modifies tic_buffer.Repr()
      ensures Shape() && fresh(tic_buffer.Repr() - old(tic_buffer.Repr()))
      ensures tic !in old(tic_buffer.outstanding) && tic_buffer.outstanding == old(tic_buffer.outstanding) + {tic}
      ensures tic !in tics && tic !in tic_buffer.Repr() && (fresh(tic) || tic in old(tic_buffer.pooled))
      ensures forall t | t in Reach() :: t in old(Reach()) || fresh(t)
    {
      hide Chain, Pool.Distinct, Pool.Pool.Valid;
      var block := new Tic();
      tic := tic_buffer.Get(block);
      assert tic == block || tic == old(tic_buffer.pooled)[0];
    }

    /** cq_tic_init: whatever the pooled object held before. */
    method TicInit(time: int) returns (tic: Tic)
      requires Shape()
      modifies tic_buffer.Repr(), tic_buffer.pooled
      ensures Shape() && Buckets(tics) == old(Buckets(tics)) && fresh(tic_buffer.Repr() - old(tic_buffer.Repr()))
      ensures tic.count == 1 && tic.time == time && tic.newer == null
      ensures tic !in old(tic_buffer.outstanding) && tic_buffer.outstanding == old(tic_buffer.outstanding) + {tic}
      ensures tic !in tic_buffer.Repr() && (fresh(tic) || tic in old(tic_buffer.pooled))
      ensures tics != [] ==> last.time == old(last.time)
      ensures forall t | t in Reach() :: t in old(Reach()) || fresh(t)
    {
      hide Chain, Buckets, Pool.Distinct, Pool.Pool.Valid, Reach;
      TicFacts(Buckets(tics));
      tic := TakeTic();
      tic.count := 0;
      tic.newer := null;
      tic.time := time;
      tic.count := tic.count + 1;
    }

    /** The last bucket takes one more event. */
    method BumpLast(base_time: int)
      requires Shape() && tics != [] && last.time == base_time
      modifies tics
      ensures Shape() && Buckets(tics) == Record(old(Buckets(tics)), base_time)
    {
      hide Pool.Pool.Valid, Chain, Pool.Distinct;
      TicFacts(Buckets(tics));
      last.count := (last.count + 1) % TWO_TO_THE_32;
    }

    lemma NoBuckets()
      requires Shape() && tics == []
      ensures Buckets(tics) == []
    {
    }

    /** Brings the bookkeeping of a queue of no buckets to the next event; otherwise there is nothing to do. */
    ghost method Prepare(t: int)
      requires Valid() && now <= t
      modifies `window, `cut
      ensures Represents(Buckets(tics), count, window, tic_per_sec, cut)
      ensures cut < Base(tic_per_sec, t) && cut <= Base(tic_per_sec, t) - tic_per_sec * tic_max_cnt
      ensures window == if tic_max_cnt > 0 then log else []
      ensures forall i | 0 <= i < |window| :: Base(tic_per_sec, window[i]) <= Base(tic_per_sec, t)
    {
      hide Pool.Pool.Valid, Chain, Pool.Distinct, Buckets, Represents, Base;
      BaseMonotone(tic_per_sec, now, t);
      Scale(tic_per_sec, tic_max_cnt);
      if tic_max_cnt == 0 {
        window := [];
        cut := Base(tic_per_sec, t) - 1;
        NoBuckets();
        RepresentsNothing(tic_per_sec, cut);
      }
      forall i | 0 <= i < |window|
        ensures Base(tic_per_sec, window[i]) <= Base(tic_per_sec, t)
      {
        BaseMonotone(tic_per_sec, window[i], t);
      }
    }

    /** After an adjustment the buckets are few and the count is what the log says. */
    lemma ExpectedCount()
      requires tic_per_sec > 0 && cut == Cut(tic_per_sec, tic_max_cnt, now)
      requires forall i | 0 <= i < |log| :: log[i] <= now
      requires Represents(Buckets(tics), count, window, tic_per_sec, cut)
      requires WindowRight()
      ensures |tics| <= tic_max_cnt && count == Expected()
      ensures tic_max_cnt == 0 ==> count == 0
    {
      hide Base, Ordered, Faithful, Covers, CountAfter, CountAt, Lost;
      FewBuckets(Buckets(tics), count, window, tic_per_sec, cut, now, tic_max_cnt);
      if tic_max_cnt == 0 {
        assert tic_per_sec * tic_max_cnt == 0;
        AllExpired();
        OneEventKeepsAll(window, tic_per_sec, cut, now);
      }
    }

    /** The count is the number of events in the window exactly when no expired bucket has overflowed. */
    lemma ExactCount()
      requires Valid() && |log| < TWO_TO_THE_64
      ensures
        var c := Cut(tic_per_sec, tic_max_cnt, now);
        count == CountAfter(log, tic_per_sec, c) <==> tic_max_cnt == 0 || BucketsFit(log, tic_per_sec, c)
    {
      hide Pool.Pool.Valid, Chain, Pool.Distinct, Buckets, Represents, Base, CountAfter, Lost, BucketsFit;
      ExpectedCount();
      ExactWhenBucketsFit(log, tic_per_sec, cut);
      if tic_max_cnt == 0 {
        AllExpired();
      }
    }

    lemma ExpectedOfLog()
      requires Valid()
      ensures
        var c := Cut(tic_per_sec, tic_max_cnt, now);
        Expected() == (CountAfter(log, tic_per_sec, c) + if tic_max_cnt > 0 then Lost(log, tic_per_sec, c) else 0)
                      % TWO_TO_THE_64
    {
      hide Pool.Pool.Valid, Chain, Pool.Distinct, Buckets, Represents, Base, CountAfter, Lost;
    }

    /** The count is the sum of the bucket counters exactly when no bucket, expired or not, has overflowed. */
    lemma CountIsBucketSum()
      requires Valid() && |log| < TWO_TO_THE_64
      ensures count == BucketSum(Buckets(tics))
         <==> tic_max_cnt == 0 || BucketsFit(log, tic_per_sec, LastTime(Buckets(tics), cut))
    {
      hide Pool.Pool.Valid, Chain, Pool.Distinct, Base, CountAfter, Lost, BucketsFit, Ordered, Faithful, Covers, Totals;
      if tic_max_cnt > 0 {
        BucketSumExactly(Buckets(tics), count, window, tic_per_sec, cut);
      }
    }

    lemma AllExpired()
      requires tic_per_sec > 0 && cut == Base(tic_per_sec, now) && forall i | 0 <= i < |log| :: log[i] <= now
      ensures CountAfter(log, tic_per_sec, cut) == 0
    {
      hide Base;
      forall i | 0 <= i < |log|
        ensures Base(tic_per_sec, log[i]) <= cut
      {
        BaseMonotone(tic_per_sec, log[i], now);
      }
      NoneAfter(log, tic_per_sec, cut);
    }

    lemma TicFacts(b: seq<Bucket>)
      requires Shape() && b == Buckets(tics)
      ensures first == null <==> tics == []
      ensures tics != [] ==> first == tics[0] && last == tics[|tics| - 1]
      ensures forall t | t in tics :: t !in tic_buffer.pooled
      ensures forall i {:trigger tics[i].newer} | 0 <= i < |tics| - 1 :: tics[i].newer == tics[i + 1]
      ensures forall i {:trigger tics[i]} | 0 <= i < |tics| - 1 :: tics[i] != last
      ensures forall i {:trigger b[i]} | 0 <= i < |tics| :: b[i] == Bucket(tics[i].time, tics[i].count)
    {
    }

    /** The new tic goes behind the last one, or starts the queue. */
    method Link(tic: Tic)
      requires Shape() && (first == null <==> last == null) && (tics != [] ==> last.time != tic.time)
      requires tic !in tics && tic in tic_buffer.outstanding && tic !in tic_buffer.Repr()
      requires tic.newer == null && tic.count == 1
      modifies `first, `last, `tics, tics
      ensures Shape() && Buckets(tics) == Record(old(Buckets(tics)), tic.time)
      ensures tics == old(tics) + [tic]
    {
      hide Pool.Pool.Valid, Buckets, Chain, Pool.Distinct;
      ghost var b := Buckets(tics);
      TicFacts(b);
      if last == null {
        first := tic;
      } else {
        last.newer := tic;
      }
      forall i | 0 <= i < |tics| - 1
        ensures tics[i].newer == tics[i + 1]
      {
        assert old(tics[i].newer) == tics[i + 1];
      }
      ChainAppend(first, tics, tic, b);
      last := tic;
      tics := tics + [tic];
    }

    method AppendTic(base_time: int)
      requires Shape() && (first == null <==> last == null) && (tics != [] ==> last.time != base_time)
      modifies `first, `last, `tics, tics, tic_buffer.pooled, tic_buffer.Repr()
      ensures Shape() && Buckets(tics) == Record(old(Buckets(tics)), base_time)
      ensures fresh(tic_buffer.Repr() - old(tic_buffer.Repr())) && OthersHold() == old(OthersHold())
      ensures forall t | t in Reach() :: t in old(Reach()) || fresh(t)
    {
      hide Pool.Pool.Valid, Chain, Pool.Distinct, Buckets;
      TicFacts(Buckets(tics));
      var tic := TicInit(base_time);
      Link(tic);
      assert Held() == old(Held()) + {tic};
    }

    method RecordBucket(base_time: int)
      requires Shape() && (first == null <==> last == null)
      modifies `first, `last, `tics, tics, tic_buffer.pooled, tic_buffer.Repr()
      ensures Shape() && Buckets(tics) == Record(old(Buckets(tics)), base_time)
      ensures fresh(tic_buffer.Repr() - old(tic_buffer.Repr())) && OthersHold() == old(OthersHold())
      ensures forall t | t in Reach() :: t in old(Reach()) || fresh(t)
    {
      hide Pool.Pool.Valid, Chain, Pool.Distinct, Buckets;
      TicFacts(Buckets(tics));
      if last == null {
        AppendTic(base_time);
      } else {
        if last.time == base_time {
          BumpLast(base_time);
        } else {
          AppendTic(base_time);
        }
      }
    }

    lemma TwoEnds()
      requires Valid()
      ensures Shape() && (first == null <==> last == null) && tic_per_sec > 0
    {
    }

    /** The first half of cq_tic_time: the event goes into the last bucket or into a new one. */
    method RecordTic(t: int, base_time: int)
      requires Valid() && now <= t && base_time == Base(tic_per_sec, t)
      modifies `first, `last, `tics, `count, `window, `cut, tics, tic_buffer.pooled, tic_buffer.Repr()
      ensures Shape()
      ensures Represents(Buckets(tics), count, window, tic_per_sec, cut)
      ensures cut <= base_time - tic_per_sec * tic_max_cnt
      ensures window == (if tic_max_cnt > 0 then log else []) + [t]
      ensures fresh(tic_buffer.Repr() - old(tic_buffer.Repr())) && OthersHold() == old(OthersHold())
      ensures forall t | t in Reach() :: t in old(Reach()) || fresh(t)
    {
      hide Valid, Shape, Pool.Pool.Valid, Chain, Pool.Distinct, Buckets, Represents, Base, Record,
        NonDecreasing, Held, Reach, OthersHold;
      TwoEnds();
      Prepare(t);
      ghost var b := Buckets(tics);
      RecordBucket(base_time);
      RecordEvent(b, count, window, tic_per_sec, cut, t);
      count := (count + 1) % TWO_TO_THE_64;
      window := window + [t];
    }

    /** The adjustment that ends cq_tic_time and cq_count: the count is what the log says again. */
    method Settle(base_time: int)
      requires Shape() && 0 < tic_per_sec && tic_per_sec * tic_max_cnt <= INT_MAX
      requires base_time == Base(tic_per_sec, now) && cut <= base_time - tic_per_sec * tic_max_cnt
      requires NonDecreasing(log) && (forall i | 0 <= i < |log| :: log[i] <= now) && WindowRight()
      requires Represents(Buckets(tics), count, window, tic_per_sec, cut)
      modifies `count, `first, `last, `tics, `cut, tic_buffer.Repr()
      ensures Valid() && count == Expected() && |tics| <= tic_max_cnt
      ensures forall t | t in Reach() :: t in old(Reach())
      ensures fresh(tic_buffer.Repr() - old(tic_buffer.Repr())) && OthersHold() == old(OthersHold())
    {
      hide Shape, Pool.Pool.Valid, Represents, Base, NonDecreasing, CountAfter, Lost, Held, Reach, OthersHold, Buckets;
      Adjust(base_time);
      ExpectedCount();
    }

    /** cq_tic_time, at a clock reading that is not earlier than the last one. */
    method TicTime(t: int) returns (r: nat)
      requires Valid() && now <= t
      modifies this, tics, tic_buffer.pooled, tic_buffer.Repr()
      ensures Valid() && log == old(log) + [t] && now == t
      ensures r == count == Expected()
      ensures |tics| <= tic_max_cnt
      ensures fresh(tic_buffer.Repr() - old(tic_buffer.Repr())) && OthersHold() == old(OthersHold())
      ensures forall t | t in Reach() :: t in old(Reach()) || fresh(t)
    {
      hide Shape, Pool.Pool.Valid, Represents, Base, NonDecreasing, Expected, Held, Reach, OthersHold, Buckets;
      var base_time := Base(tic_per_sec, t);
      LaterEvent(log, t);
      RecordTic(t, base_time);
      log := log + [t];
      now := t;
      Settle(base_time);
      r := count;
    }

    /** cq_count, at a clock reading that is not earlier than the last one. */
    method Count(t: int) returns (r: nat)
      requires Valid() && now <= t
      modifies this, tic_buffer.Repr()
      ensures Valid() && log == old(log) && now == t
      ensures r == count == Expected()
      ensures |tics| <= tic_max_cnt
      ensures fresh(tic_buffer.Repr() - old(tic_buffer.Repr())) && OthersHold() == old(OthersHold())
      ensures forall t | t in Reach() :: t in old(Reach()) || fresh(t)
    {
      hide Shape, Pool.Pool.Valid, Represents, Base, NonDecreasing, Expected, Held, Reach, OthersHold, Buckets;
      var base_time := Base(tic_per_sec, t);
      BaseMonotone(tic_per_sec, now, t);
      now := t;
      Settle(base_time);
      r := count;
    }

    /** cq_free: every bucket goes back to the pool. */
    method Free()
      requires Valid()
      modifies this, tic_buffer.Repr()
      ensures tic_buffer.Valid() && tic_buffer.outstanding == old(OthersHold())
      ensures fresh(tic_buffer.Repr() - old(tic_buffer.Repr()))
    {
      hide Pool.Pool.Valid, Chain, Pool.Distinct, Buckets, Represents, Base, Reach;
      var tic := first;
      ChainEnds(first, last, tics);
      while tic != null
        invariant Shape() && tic == first && (first == null <==> tics == [])
        invariant fresh(tic_buffer.Repr() - old(tic_buffer.Repr())) && OthersHold() == old(OthersHold())
        decreases |tics|
      {
        BackFirst(tic);
        tic := first;
        ChainEnds(first, last, tics);
      }
    }
  }

  // ---------- every run ----------

  datatype Op = Tic(t: int) | Count(t: int)

  /** The event times of a run. */
  function Events(ops: seq<Op>): seq<int> {
    if ops == [] then []
    else Events(ops[..|ops| - 1]) + if ops[|ops| - 1].Tic? then [ops[|ops| - 1].t] else []
  }

  ghost predicate ClockNeverGoesBack(ops: seq<Op>) {
    forall i, j | 0 <= i < j < |ops| :: ops[i].t <= ops[j].t
  }

  /**
   * `r` is right for a run: what 64 bits keep of the window's events and of the lost ones, and so exactly the
   * window's events unless an expired bucket has overflowed.
   */
  ghost predicate RightCount(ops: seq<Op>, term: nat, max: nat, r: nat)
    requires term > 0 && ops != []
  {
    var log, cut := Events(ops), Cut(term, max, ops[|ops| - 1].t);
    && r == (CountAfter(log, term, cut) + if max > 0 then Lost(log, term, cut) else 0) % TWO_TO_THE_64
    && (|log| < TWO_TO_THE_64 ==> (r == CountAfter(log, term, cut) <==> max == 0 || BucketsFit(log, term, cut)))
  }

  lemma {:induction false} EventsNotLater(ops: seq<Op>, now: int)
    requires forall i | 0 <= i < |ops| :: 0 <= ops[i].t <= now
    ensures forall i | 0 <= i < |Events(ops)| :: 0 <= Events(ops)[i] <= now
  {
    if ops != [] {
      EventsNotLater(ops[..|ops| - 1], now);
    }
  }

  /**
   * A right count in seconds, unless an expired bucket has overflowed: it counts every event at most
   * term * (max - 1) old, and none that is term * max old or older.
   */
  lemma {:induction false} RightCountAge(ops: seq<Op>, term: nat, max: nat, r: nat)
    requires term > 0 && ops != [] && ClockNeverGoesBack(ops) && ops[0].t >= 0
    requires |Events(ops)| < TWO_TO_THE_64 && RightCount(ops, term, max, r)
    requires BucketsFit(Events(ops), term, Cut(term, max, ops[|ops| - 1].t))
    ensures
      var log, now := Events(ops), ops[|ops| - 1].t;
      |Younger(log, now, term * (max - 1) + 1)| <= r <= |Younger(log, now, term * max)|
  {
    hide Base, CountAfter, Lost, BucketsFit, Younger, Events;
    var now := ops[|ops| - 1].t;
    forall i | 0 <= i < |ops|
      ensures 0 <= ops[i].t <= now
    {
      assert i > 0 ==> ops[0].t <= ops[i].t;
      assert i < |ops| - 1 ==> ops[i].t <= ops[|ops| - 1].t;
    }
    EventsNotLater(ops, now);
    WindowAge(Events(ops), term, max, now);
  }

  /** One operation after the run `before`. */
  method Apply(q: CountQueue, op: Op, ghost before: seq<Op>, ghost frame: set<object>) returns (r: nat)
    requires q.Valid() && q.log == Events(before) && q.now <= op.t
    requires frame == {q} + q.Reach() + q.tic_buffer.Repr()
    modifies frame
    ensures q.Valid() && q.log == Events(before + [op]) && q.now == op.t
    ensures RightCount(before + [op], q.tic_per_sec, q.tic_max_cnt, r)
    ensures forall o | o in q.tic_buffer.Repr() :: o in old(q.tic_buffer.Repr()) || fresh(o)
    ensures (forall t | t in q.Reach() :: t in old(q.Reach()) || fresh(t))
    ensures q.OthersHold() == old(q.OthersHold())
  {
    hide Pool.Pool.Valid, CountQueue.Valid, Cut, CountAfter, Lost, BucketsFit;
    hide CountQueue.OthersHold, CountQueue.Expected;
    assert (before + [op])[..|before|] == before;
    assert forall t | t in q.tics || t in q.tic_buffer.pooled :: t in q.Reach();
    if op.Tic? {
      r := q.TicTime(op.t);
    } else {
      r := q.Count(op.t);
    }
    q.ExpectedOfLog();
    if |q.log| < TWO_TO_THE_64 {
      q.ExactCount();
    }
  }

  /** Every run of tics and counts under a clock that never goes back. */
  method Run(ops: seq<Op>, term: nat, max: nat, buffer: Pool.Pool<Tic>) returns (results: seq<nat>)
    requires term > 0 && term * max <= INT_MAX && ClockNeverGoesBack(ops)
    requires buffer.Valid()
    modifies buffer.Repr(), buffer.pooled
    ensures |results| == |ops| && forall i | 0 <= i < |ops| :: RightCount(ops[..i + 1], term, max, results[i])
    ensures buffer.Valid() && buffer.outstanding == old(buffer.outstanding)
  {
    hide Pool.Pool.Valid, Pool.Pool.Repr, CountQueue.Valid, CountQueue.Reach, CountQueue.Held,
      CountQueue.OthersHold, Events, RightCount;
    results := [];
    var q := new CountQueue(term, max, buffer, if ops == [] then 0 else ops[0].t);
    assert Events(ops[..0]) == [] by { NoEvents(); }
    for i := 0 to |ops|
      invariant q.Valid() && fresh(q) && q.tic_buffer == buffer && q.tic_per_sec == term && q.tic_max_cnt == max
      invariant q.log == Events(ops[..i]) && (i > 0 ==> q.now == ops[i - 1].t) && (i < |ops| ==> q.now <= ops[i].t)
      invariant forall o | o in buffer.Repr() :: o in old(buffer.Repr()) || fresh(o)
      invariant forall t | t in q.Reach() :: fresh(t) || t in old(buffer.pooled)
      invariant q.OthersHold() == old(buffer.outstanding)
      invariant |results| == i
      invariant forall j | 0 <= j < i :: RightCount(ops[..j + 1], term, max, results[j])
    {
      assert ops[..i + 1] == ops[..i] + [ops[i]];
      ghost var frame := {q} + q.Reach() + buffer.Repr();
      assert forall o: object | o in frame :: fresh(o) || o in old(buffer.Repr()) || o in old(buffer.pooled);
      var r := Apply(q, ops[i], ops[..i], frame);
      results := results + [r];
    }
    q.Free();
  }

  lemma NoEvents()
    ensures Events([]) == []
  {
  }

  // ---------- a run that is miscounted ----------

  function Busy(n: nat): seq<Op> {
    seq(n, _ => Tic(0))
  }

  lemma {:induction false} BusyEvents(n: nat)
    ensures Events(Busy(n)) == seq(n, _ => 0)
  {
    if n > 0 {
      assert Busy(n)[..n - 1] == Busy(n - 1);
      BusyEvents(n - 1);
    } else {
      NoEvents();
    }
  }

  lemma BusyThenCount(n: nat)
    ensures Events(Busy(n) + [Count(1)]) == seq(n, _ => 0)
  {
    assert (Busy(n) + [Count(1)])[..n] == Busy(n);
    BusyEvents(n);
  }

  lemma CutAfterOne()
    ensures Cut(1, 1, 1) == 0
  {
  }

  /** 2^32 tics in one second and a count in the next, with a window of one second: 2^32 for no event at all. */
  method OverflowRun(buffer: Pool.Pool<Tic>, n: nat) returns (r: nat)
    requires buffer.Valid() && n == TWO_TO_THE_32
    modifies buffer.Repr(), buffer.pooled
    ensures CountAfter(Events(Busy(n) + [Count(1)]), 1, Cut(1, 1, 1)) == 0 && r == n
  {
    hide Pool.Pool.Valid, Pool.Pool.Repr, CountAfter, Lost, Events, Cut, BucketsFit;
    var ops := Busy(n) + [Count(1)];
    var results := Run(ops, 1, 1, buffer);
    BusyThenCount(n);
    BusySecondExpired(n);
    assert Cut(1, 1, 1) == 0 by { CutAfterOne(); }
    assert ops[..n + 1] == ops;
    r := results[n];
    assert RightCount(ops[..n + 1], 1, 1, r);
  }
}
