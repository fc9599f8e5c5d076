/**
 * Admission control.  One accept thread adds up the workers' connection counters, one unlocked read at a
 * time, while workers close connections between the reads.
 */
module Admission {
  import opened Common

  const COUNTER_MAX := TWO_TO_THE_32 - 1

  type Uint32 = n: nat | n < TWO_TO_THE_32

  function Sum(counters: seq<nat>): nat {
    if counters == [] then 0 else Sum(counters[..|counters| - 1]) + counters[|counters| - 1]
  }

  // ---------- the counters and the loops over them ----------

  function Decrement(n: Uint32): Uint32 {
    if n == 0 then COUNTER_MAX else n - 1
  }

  function Increment(n: Uint32): Uint32 {
    if n == COUNTER_MAX then 0 else n + 1
  }

  /** The two undo each other, also where they wrap, and from zero the counter reaches its maximum in one step down. */
  lemma CountersWrap(n: Uint32)
    ensures Decrement(Increment(n)) == n && Increment(Decrement(n)) == n
    ensures (Increment(n) as int - n - 1) % TWO_TO_THE_32 == 0 && (n as int - Decrement(n) - 1) % TWO_TO_THE_32 == 0
  {
  }

  class Worker {
    var num_client: Uint32

    constructor ()
      ensures num_client == 0
    {
      num_client := 0;
    }

    /** worker_get_count */
    function GetCount(): nat
      reads this
    {
      num_client
    }

    /** worker_increase_count */
    method IncreaseCount()
      modifies this
      ensures num_client == Increment(old(num_client))
    {
      num_client := (num_client + 1) % TWO_TO_THE_32;
    }

    /** worker_decrease_count */
    method DecreaseCount()
      modifies this
      ensures num_client == Decrement(old(num_client))
    {
      num_client := (num_client as int - 1) % TWO_TO_THE_32;
    }
  }

  function Counts(wl: seq<Worker>): (counters: seq<nat>)
    reads wl
    ensures |counters| == |wl| && forall i | 0 <= i < |wl| :: counters[i] == wl[i].num_client
  {
    seq(|wl|, i requires 0 <= i < |wl| reads wl => wl[i].num_client as nat)
  }

  lemma {:induction false} SumBound(counters: seq<nat>, bound: nat)
    requires forall i | 0 <= i < |counters| :: counters[i] <= bound
    ensures Sum(counters) <= |counters| * bound
  {
    if counters != [] {
      SumBound(counters[..|counters| - 1], bound);
    }
  }

  /** server_get_current_connections, undisturbed: the sum of all counters, without loss. */
  method GetCurrentConnections(wl: seq<Worker>) returns (cons: nat)
    requires |wl| < TWO_TO_THE_32
    ensures cons == Sum(Counts(wl))
  {
    cons := 0;
    ghost var counters := Counts(wl);
    for i := 0 to |wl|
      invariant cons == Sum(counters[..i])
    {
      assert counters[..i + 1][..i] == counters[..i];
      SumBound(counters[..i + 1], TWO_TO_THE_32 - 1);
      assert (i + 1) * (TWO_TO_THE_32 - 1) < TWO_TO_THE_64;
      cons := (cons + wl[i].GetCount()) % TWO_TO_THE_64;
    }
    assert counters[..|wl|] == counters;
  }

  /** server_get_least_connection_worker, undisturbed: the first worker with the least counter. */
  method GetLeastConnectionWorker(wl: seq<Worker>) returns (k: nat)
    requires wl != []
    ensures k < |wl|
    ensures forall i | 0 <= i < |wl| :: wl[k].num_client <= wl[i].num_client
    ensures forall i | 0 <= i < k :: wl[k].num_client < wl[i].num_client
  {
    k := 0;
    for i := 1 to |wl|
      invariant k < i
      invariant forall j | 0 <= j < i :: wl[k].num_client <= wl[j].num_client
      invariant forall j | 0 <= j < k :: wl[k].num_client < wl[j].num_client
    {
      if wl[k].num_client > wl[i].num_client {
        k := i;
      }
    }
  }

  // ---------- the interleaved system ----------

  type ConnId = nat

  /** A connection on a worker; its socket closes before the worker's counter goes down. */
  datatype Connection = Connection(worker: nat, open: bool)

  /**
   * Where the accept thread is.  Two history values no step depends on: `full` is the sum of all counters
   * when the scan began, `before` the counters when the connection was admitted.
   */
  datatype Accept =
    | Idle
    | Scanning(i: nat, sum: nat, full: nat)
    | Choosing(i: nat, w: nat, before: seq<Uint32>)
    | Comparing(i: nat, w: nat, v: nat, bestFirst: bool, before: seq<Uint32>)
    | Opening(w: nat)

  datatype State = State(counters: seq<Uint32>, conns: map<ConnId, Connection>, accept: Accept)

  datatype Action =
    | Begin
    | ReadCounter
    | Refuse
    | Admit
    | ReadFirst(bestFirst: bool)
    | Compare
    | Choose
    | Open(c: ConnId)
    | Close(c: ConnId)
    | Release(c: ConnId)

  /**
   * One atomic step of the accept thread or of a worker.  Any worker may Close and Release between any two
   * steps of the accept thread; a connection that was released is gone, so it is released at most once.  C
   * leaves open which of the two counters a comparison reads first: ReadFirst reads one, Compare the other.
   */
  predicate Step(s: State, a: Action, s': State, max: nat) {
    var n := |s.counters|;
    match a
    case Begin =>
      s.accept.Idle? && s' == s.(accept := Scanning(0, 0, Sum(s.counters)))
    case ReadCounter =>
      && s.accept.Scanning? && s.accept.i < n
      && s' == s.(accept := s.accept.(i := s.accept.i + 1, sum := s.accept.sum + s.counters[s.accept.i]))
    case Refuse =>
      s.accept.Scanning? && s.accept.i == n && max <= s.accept.sum && s' == s.(accept := Idle)
    case Admit =>
      && s.accept.Scanning? && s.accept.i == n && s.accept.sum < max
      && s' == s.(accept := Choosing(1, 0, s.counters))
    case ReadFirst(bestFirst) =>
      && s.accept.Choosing? && s.accept.i < n && s.accept.w < n
      && var v := s.counters[if bestFirst then s.accept.w else s.accept.i];
      s' == s.(accept := Comparing(s.accept.i, s.accept.w, v, bestFirst, s.accept.before))
    case Compare =>
      && s.accept.Comparing? && s.accept.i < n && s.accept.w < n
      && var less := if s.accept.bestFirst then s.accept.v > s.counters[s.accept.i]
                     else s.counters[s.accept.w] > s.accept.v;
      s' == s.(accept := Choosing(s.accept.i + 1, if less then s.accept.i else s.accept.w, s.accept.before))
    case Choose =>
      s.accept.Choosing? && s.accept.i >= n && s' == s.(accept := Opening(s.accept.w))
    case Open(c) =>
      && s.accept.Opening? && s.accept.w < n && c !in s.conns
      && var w := s.accept.w;
      s' == State(s.counters[w := Increment(s.counters[w])], s.conns[c := Connection(w, true)], Idle)
    case Close(c) =>
      && c in s.conns && s.conns[c].open
      && s' == s.(conns := s.conns[c := s.conns[c].(open := false)])
    case Release(c) =>
      && c in s.conns && !s.conns[c].open && s.conns[c].worker < n
      && var w := s.conns[c].worker;
      s' == s.(counters := s.counters[w := Decrement(s.counters[w])], conns := s.conns - {c})
  }

  predicate Init(s: State, workers: nat) {
    workers > 0 && s == State(seq(workers, _ => 0), map[], Idle)
  }

  ghost predicate CanStep(s: State, s': State, max: nat) {
    exists a :: Step(s, a, s', max)
  }

  /** Some step leads to the k-th state of the run. */
  ghost predicate Next(run: seq<State>, k: nat, max: nat)
    requires 0 < k < |run|
  {
    CanStep(run[k - 1], run[k], max)
  }

  /** The states of one run, under any interleaving. */
  ghost predicate IsRun(run: seq<State>, workers: nat, max: nat) {
    && run != [] && Init(run[0], workers)
    && forall k | 0 < k < |run| :: Next(run, k, max)
  }

  // ---------- invariants ----------

  ghost function OnWorker(conns: map<ConnId, Connection>, w: nat): set<ConnId> {
    set c | c in conns && conns[c].worker == w
  }

  /** The connections whose sockets are open. */
  ghost function OpenConns(s: State): set<ConnId> {
    set c | c in s.conns && s.conns[c].open
  }

  /** Every connection is on a worker, and every counter counts its connections. */
  ghost predicate CountersExact(s: State) {
    && (forall c | c in s.conns :: s.conns[c].worker < |s.counters|)
    && forall w | 0 <= w < |s.counters| :: s.counters[w] == |OnWorker(s.conns, w)|
  }

  /** Only the first worker can be the best one with a full counter, and only if all those read were full. */
  ghost predicate BestRight(counters: seq<Uint32>, w: nat, i: nat, before: seq<Uint32>, max: nat) {
    && w < |counters| == |before| && Sum(before) < max
    && (forall j | 0 <= j < |counters| :: counters[j] <= before[j])
    && (counters[w] == COUNTER_MAX ==> w == 0 && forall j | 0 <= j < i && j < |before| :: before[j] == COUNTER_MAX)
  }

  /** What the accept thread may rely on although the counters move under it. */
  ghost predicate AcceptRight(s: State, max: nat) {
    match s.accept
    case Idle => true
    case Scanning(i, sum, full) =>
      && i <= |s.counters| && full <= max
      && Sum(s.counters[..i]) <= sum && sum + (Sum(s.counters) - Sum(s.counters[..i])) <= full
    case Choosing(i, w, before) =>
      0 < i && Sum(s.counters) < max && BestRight(s.counters, w, i, before, max)
    case Comparing(i, w, v, bestFirst, before) =>
      && 0 < i < |s.counters| && Sum(s.counters) < max && BestRight(s.counters, w, i, before, max)
      && (if bestFirst then s.counters[w] <= v <= COUNTER_MAX else s.counters[i] <= v <= before[i])
    case Opening(w) =>
      w < |s.counters| && Sum(s.counters) < max && s.counters[w] < COUNTER_MAX
  }

  ghost predicate Inv(s: State, workers: nat, max: nat) {
    && |s.counters| == workers > 0 && CountersExact(s)
    && Sum(s.counters) <= max <= workers * COUNTER_MAX
    && AcceptRight(s, max)
  }

  lemma {:induction false} SumUpdate(counters: seq<nat>, w: nat, v: nat, i: nat)
    requires w < |counters| && i <= |counters|
    ensures Sum(counters[w := v][..i]) == Sum(counters[..i]) + if w < i then v - counters[w] else 0
  {
    if i > 0 {
      var counters' := counters[w := v];
      SumUpdate(counters, w, v, i - 1);
      assert counters'[..i][..i - 1] == counters'[..i - 1] && counters[..i][..i - 1] == counters[..i - 1];
    }
  }

  lemma {:induction false} SumAtLeast(counters: seq<nat>, w: nat)
    requires w < |counters|
    ensures counters[w] <= Sum(counters)
  {
    var k := |counters| - 1;
    if w < k {
      SumAtLeast(counters[..k], w);
    }
  }

  lemma SumPrefix(counters: seq<nat>, i: nat)
    requires i < |counters|
    ensures Sum(counters[..i + 1]) == Sum(counters[..i]) + counters[i]
  {
    assert counters[..i + 1][..i] == counters[..i];
  }

  /** The connections of the first `n` workers. */
  ghost function OnWorkersBelow(conns: map<ConnId, Connection>, n: nat): set<ConnId> {
    set c | c in conns && conns[c].worker < n
  }

  lemma OneMoreWorker(conns: map<ConnId, Connection>, n: nat)
    ensures |OnWorkersBelow(conns, n + 1)| == |OnWorkersBelow(conns, n)| + |OnWorker(conns, n)|
  {
    assert OnWorkersBelow(conns, n + 1) == OnWorkersBelow(conns, n) + OnWorker(conns, n);
    assert OnWorkersBelow(conns, n) !! OnWorker(conns, n);
  }

  lemma {:induction false} SumIsBelow(counters: seq<nat>, conns: map<ConnId, Connection>)
    requires forall w | 0 <= w < |counters| :: counters[w] == |OnWorker(conns, w)|
    ensures Sum(counters) == |OnWorkersBelow(conns, |counters|)|
  {
    hide OnWorker;
    if counters == [] {
      assert OnWorkersBelow(conns, 0) == {};
    } else {
      var k := |counters| - 1;
      SumIsBelow(counters[..k], conns);
      OneMoreWorker(conns, k);
    }
  }

  /** All connections together are as many as the counters say. */
  lemma {:induction false} SumIsConnections(counters: seq<nat>, conns: map<ConnId, Connection>)
    requires forall c | c in conns :: conns[c].worker < |counters|
    requires forall w | 0 <= w < |counters| :: counters[w] == |OnWorker(conns, w)|
    ensures Sum(counters) == |conns|
  {
    hide OnWorker, Sum;
    SumIsBelow(counters, conns);
    assert OnWorkersBelow(conns, |counters|) == conns.Keys;
  }

  lemma {:induction false} SumOfFull(counters: seq<Uint32>)
    requires forall i | 0 <= i < |counters| :: counters[i] == COUNTER_MAX
    ensures Sum(counters) == |counters| * COUNTER_MAX
  {
    if counters != [] {
      SumOfFull(counters[..|counters| - 1]);
    }
  }

  lemma OnWorkerAdded(conns: map<ConnId, Connection>, c: ConnId, w: nat, v: nat)
    requires c !in conns
    ensures |OnWorker(conns[c := Connection(w, true)], v)| == |OnWorker(conns, v)| + if v == w then 1 else 0
  {
    assert OnWorker(conns[c := Connection(w, true)], v) == OnWorker(conns, v) + if v == w then {c} else {};
  }

  lemma OnWorkerGone(conns: map<ConnId, Connection>, c: ConnId, v: nat)
    requires c in conns
    ensures |OnWorker(conns - {c}, v)| == |OnWorker(conns, v)| - if v == conns[c].worker then 1 else 0
  {
    assert v == conns[c].worker ==> c in OnWorker(conns, v);
    assert OnWorker(conns - {c}, v) == OnWorker(conns, v) - if v == conns[c].worker then {c} else {};
  }

  lemma OpenKeepsCounters(s: State, c: ConnId, w: nat)
    requires CountersExact(s) && w < |s.counters| && c !in s.conns && s.counters[w] < COUNTER_MAX
    ensures CountersExact(State(s.counters[w := s.counters[w] + 1], s.conns[c := Connection(w, true)], Idle))
  {
    hide OnWorker;
    forall v | 0 <= v < |s.counters|
      ensures |OnWorker(s.conns[c := Connection(w, true)], v)| == s.counters[v] + if v == w then 1 else 0
    {
      OnWorkerAdded(s.conns, c, w, v);
    }
  }

  lemma ReleaseKeepsCounters(s: State, c: ConnId)
    requires CountersExact(s) && c in s.conns
    ensures s.counters[s.conns[c].worker] > 0
    ensures var w := s.conns[c].worker;
            CountersExact(s.(counters := s.counters[w := s.counters[w] - 1], conns := s.conns - {c}))
  {
    hide OnWorker;
    forall v | 0 <= v < |s.counters|
      ensures |OnWorker(s.conns - {c}, v)| + (if v == s.conns[c].worker then 1 else 0) == s.counters[v]
    {
      OnWorkerGone(s.conns, c, v);
    }
  }

  lemma CloseKeepsCounters(s: State, c: ConnId)
    requires CountersExact(s) && c in s.conns
    ensures CountersExact(s.(conns := s.conns[c := s.conns[c].(open := false)]))
  {
    var conns := s.conns[c := s.conns[c].(open := false)];
    forall v | 0 <= v < |s.counters|
      ensures OnWorker(conns, v) == OnWorker(s.conns, v)
    {
    }
  }

  /** A release lowers one counter; what the scan has read is no less than before, what is left to read is. */
  lemma ReleaseLowersSums(counters: seq<Uint32>, w: nat, i: nat)
    requires w < |counters| && counters[w] > 0 && i <= |counters|
    ensures
      var counters' := counters[w := counters[w] - 1];
      && Sum(counters') == Sum(counters) - 1
      && Sum(counters'[..i]) <= Sum(counters[..i])
      && Sum(counters') - Sum(counters'[..i]) <= Sum(counters) - Sum(counters[..i])
  {
    hide Sum;
    var n, v := |counters|, counters[w] - 1;
    assert counters[..n] == counters && counters[w := v][..n] == counters[w := v];
    SumUpdate(counters, w, v, n);
    SumUpdate(counters, w, v, i);
  }

  /** A release lowers a counter, read already or not, and takes nothing from what the accept thread knows. */
  lemma ReleaseKeepsAccept(s: State, c: ConnId, s': State, max: nat)
    requires AcceptRight(s, max) && Step(s, Release(c), s', max) && s.counters[s.conns[c].worker] > 0
    ensures AcceptRight(s', max) && Sum(s'.counters) == Sum(s.counters) - 1
  {
    hide Sum;
    var w := s.conns[c].worker;
    assert s'.counters == s.counters[w := s.counters[w] - 1];
    ReleaseLowersSums(s.counters, w, if s.accept.Scanning? then s.accept.i else 0);
  }

  /** The counter that goes up is not full, although it was chosen by reads that others could interleave. */
  lemma BestIsNotFull(s: State, max: nat)
    requires s.accept.Choosing? && AcceptRight(s, max)
    requires s.accept.i >= |s.counters| && max <= |s.counters| * COUNTER_MAX
    ensures s.counters[s.accept.w] < COUNTER_MAX
  {
    if s.counters[s.accept.w] == COUNTER_MAX {
      SumOfFull(s.accept.before);
      assert false;
    }
  }

  lemma OpenKeepsInv(s: State, c: ConnId, s': State, workers: nat, max: nat)
    requires Inv(s, workers, max) && Step(s, Open(c), s', max)
    ensures Inv(s', workers, max)
  {
    hide CountersExact, OnWorker;
    var n, w := |s.counters|, s.accept.w;
    OpenKeepsCounters(s, c, w);
    SumUpdate(s.counters, w, s.counters[w] + 1, n);
    assert s.counters[..n] == s.counters && s'.counters[..n] == s'.counters;
  }

  lemma ReleaseKeepsInv(s: State, c: ConnId, s': State, workers: nat, max: nat)
    requires Inv(s, workers, max) && Step(s, Release(c), s', max)
    ensures Inv(s', workers, max)
  {
    hide OnWorker, AcceptRight;
    ReleaseKeepsCounters(s, c);
    ReleaseKeepsAccept(s, c, s', max);
  }

  lemma CloseKeepsInv(s: State, c: ConnId, s': State, workers: nat, max: nat)
    requires Inv(s, workers, max) && Step(s, Close(c), s', max)
    ensures Inv(s', workers, max)
  {
    hide OnWorker, Sum;
    CloseKeepsCounters(s, c);
  }

  /** Begin, ReadCounter, Refuse and Admit. */
  lemma ScanKeepsInv(s: State, a: Action, s': State, workers: nat, max: nat)
    requires Inv(s, workers, max) && Step(s, a, s', max) && (s.accept.Idle? || s.accept.Scanning?)
    requires s'.conns == s.conns && s'.counters == s.counters
    ensures Inv(s', workers, max)
  {
    hide OnWorker;
    var n := |s.counters|;
    assert s.counters[..n] == s.counters && s.counters[..0] == [];
    if a.ReadCounter? {
      SumPrefix(s.counters, s.accept.i);
    }
  }

  /** ReadFirst, Compare and Choose. */
  lemma ChoosingKeepsInv(s: State, a: Action, s': State, workers: nat, max: nat)
    requires Inv(s, workers, max) && Step(s, a, s', max) && (a.ReadFirst? || a.Compare? || a.Choose?)
    ensures Inv(s', workers, max)
  {
    hide OnWorker, Sum;
    if a.Choose? {
      BestIsNotFull(s, max);
    }
  }

  /** Every step of the accept thread and of the workers keeps the invariant. */
  lemma StepKeepsInv(s: State, a: Action, s': State, workers: nat, max: nat)
    requires Inv(s, workers, max) && Step(s, a, s', max)
    ensures Inv(s', workers, max)
  {
    hide Inv;
    match a
    case Open(c) =>
      OpenKeepsInv(s, c, s', workers, max);
    case Close(c) =>
      CloseKeepsInv(s, c, s', workers, max);
    case Release(c) =>
      ReleaseKeepsInv(s, c, s', workers, max);
    case ReadFirst(_) =>
      ChoosingKeepsInv(s, a, s', workers, max);
    case Compare =>
      ChoosingKeepsInv(s, a, s', workers, max);
    case Choose =>
      ChoosingKeepsInv(s, a, s', workers, max);
    case _ =>
      ScanKeepsInv(s, a, s', workers, max);
  }

  lemma ActionOf(run: seq<State>, workers: nat, max: nat, k: nat) returns (a: Action)
    requires IsRun(run, workers, max) && 0 < k < |run|
    ensures Step(run[k - 1], a, run[k], max)
  {
    assert Next(run, k, max);
    a :| Step(run[k - 1], a, run[k], max);
  }

  lemma {:induction false} RunKeepsInv(run: seq<State>, workers: nat, max: nat, k: nat)
    requires IsRun(run, workers, max) && k < |run| && max <= workers * COUNTER_MAX
    ensures Inv(run[k], workers, max)
  {
    if k == 0 {
      SumBound(run[0].counters, 0);
      forall w | 0 <= w < workers
        ensures OnWorker(run[0].conns, w) == {}
      {
      }
    } else {
      RunKeepsInv(run, workers, max, k - 1);
      var a := ActionOf(run, workers, max, k);
      StepKeepsInv(run[k - 1], a, run[k], workers, max);
    }
  }

  /**
   * The connection cap, under every interleaving: at every moment of every run the counters are exact, and no
   * more connections are open, or still counted, than the maximum.
   */
  lemma CapHolds(run: seq<State>, workers: nat, max: nat, k: nat)
    requires IsRun(run, workers, max) && k < |run| && max <= workers * COUNTER_MAX
    ensures |OpenConns(run[k])| <= |run[k].conns| == Sum(run[k].counters) <= max
    ensures CountersExact(run[k])
  {
    RunKeepsInv(run, workers, max, k);
    SumIsConnections(run[k].counters, run[k].conns);
    Subset(OpenConns(run[k]), run[k].conns.Keys);
  }

  lemma {:induction false} Subset(a: set<ConnId>, b: set<ConnId>)
    requires a <= b
    ensures |a| <= |b|
  {
    if a != {} {
      var c :| c in a;
      Subset(a - {c}, b - {c});
    }
  }

  lemma {:induction false} ScanBegan(run: seq<State>, workers: nat, max: nat, k: nat) returns (j: nat)
    requires IsRun(run, workers, max) && k < |run| && run[k].accept.Scanning?
    ensures j < k && Sum(run[j].counters) == run[k].accept.full
  {
    var a := ActionOf(run, workers, max, k);
    if run[k - 1].accept.Scanning? {
      j := ScanBegan(run, workers, max, k - 1);
    } else {
      j := k - 1;
    }
  }

  /** A connection is refused only if the router was full when the scan began, whatever closed since. */
  lemma RefusedOnlyWhenFull(run: seq<State>, workers: nat, max: nat, k: nat) returns (j: nat)
    requires IsRun(run, workers, max) && k < |run| && max <= workers * COUNTER_MAX
    requires run[k].accept.Scanning? && run[k].accept.i == workers && max <= run[k].accept.sum
    ensures j < k && |run[j].conns| == max
  {
    j := ScanBegan(run, workers, max, k);
    RunKeepsInv(run, workers, max, k);
    assert run[k].counters[..workers] == run[k].counters;
    CapHolds(run, workers, max, j);
  }

  // ---------- refusing and admitting ----------

  /** The action can be taken in this state. */
  ghost predicate Enabled(s: State, a: Action, max: nat) {
    exists s' :: Step(s, a, s', max)
  }

  lemma Takes(s: State, a: Action, s': State, max: nat)
    requires Step(s, a, s', max)
    ensures Enabled(s, a, max)
  {
  }

  /** Whenever a connection is refused, the router was full at some moment of the scan that refused it. */
  lemma RefusalMeansFull(run: seq<State>, workers: nat, max: nat, k: nat) returns (j: nat)
    requires IsRun(run, workers, max) && 0 < k < |run| && max <= workers * COUNTER_MAX
    requires Step(run[k - 1], Refuse, run[k], max)
    ensures j < k && |run[j].conns| == max
  {
    RunKeepsInv(run, workers, max, k - 1);
    j := RefusedOnlyWhenFull(run, workers, max, k - 1);
  }

  /** A completed scan refuses if and only if its sum reaches the maximum, and admits if and only if it does not. */
  lemma ScanDecides(s: State, max: nat)
    requires s.accept.Scanning? && s.accept.i == |s.counters|
    ensures Enabled(s, Refuse, max) <==> max <= s.accept.sum
    ensures Enabled(s, Admit, max) <==> s.accept.sum < max
  {
    if max <= s.accept.sum {
      Takes(s, Refuse, s.(accept := Idle), max);
    } else {
      Takes(s, Admit, s.(accept := Choosing(1, 0, s.counters)), max);
    }
  }

  /** A router that is full when the scan ends refuses and cannot admit, whatever closed during the scan. */
  lemma FullIsRefused(run: seq<State>, workers: nat, max: nat, k: nat)
    requires IsRun(run, workers, max) && k < |run| && max <= workers * COUNTER_MAX
    requires run[k].accept.Scanning? && run[k].accept.i == workers && |run[k].conns| == max
    ensures Enabled(run[k], Refuse, max) && !Enabled(run[k], Admit, max)
  {
    var s := run[k];
    CapHolds(run, workers, max, k);
    RunKeepsInv(run, workers, max, k);
    assert s.counters[..workers] == s.counters;
    ScanDecides(s, max);
  }

  /** A router with room throughout the scan admits and cannot refuse. */
  lemma RoomIsAdmitted(run: seq<State>, workers: nat, max: nat, k: nat)
    requires IsRun(run, workers, max) && k < |run| && max <= workers * COUNTER_MAX
    requires run[k].accept.Scanning? && run[k].accept.i == workers
    requires forall j | 0 <= j < k :: |run[j].conns| < max
    ensures Enabled(run[k], Admit, max) && !Enabled(run[k], Refuse, max)
  {
    RunKeepsInv(run, workers, max, k);
    ScanDecides(run[k], max);
    if max <= run[k].accept.sum {
      var j := RefusedOnlyWhenFull(run, workers, max, k);
      assert false;
    }
  }

  /** What the accept thread does next; `c` is the connection it opens. */
  function NextAction(s: State, max: nat, c: ConnId): Action {
    var n := |s.counters|;
    match s.accept
    case Idle => Begin
    case Scanning(i, sum, _) => if i < n then ReadCounter else if sum < max then Admit else Refuse
    case Choosing(i, _, _) => if i < n then ReadFirst(true) else Choose
    case Comparing(_, _, _, _, _) => Compare
    case Opening(_) => Open(c)
  }

  /** The accept thread never waits for a worker, and no connection waits for another one. */
  lemma NothingBlocks(run: seq<State>, workers: nat, max: nat, k: nat, c: ConnId)
    requires IsRun(run, workers, max) && k < |run| && max <= workers * COUNTER_MAX
    ensures Enabled(run[k], NextAction(run[k], max, c), max) || c in run[k].conns
    ensures c in run[k].conns ==> Enabled(run[k], if run[k].conns[c].open then Close(c) else Release(c), max)
  {
    RunKeepsInv(run, workers, max, k);
    AcceptGoesOn(run[k], workers, max, c);
    if c in run[k].conns {
      WorkerGoesOn(run[k], workers, max, c);
    }
  }

  lemma AcceptGoesOn(s: State, workers: nat, max: nat, c: ConnId)
    requires Inv(s, workers, max)
    ensures Enabled(s, NextAction(s, max, c), max) || c in s.conns
  {
    hide Sum, CountersExact;
    var n := s.counters;
    match s.accept
    case Idle =>
      Takes(s, Begin, s.(accept := Scanning(0, 0, Sum(n))), max);
    case Scanning(i, sum, full) =>
      if i < workers {
        Takes(s, ReadCounter, s.(accept := Scanning(i + 1, sum + n[i], full)), max);
      } else {
        ScanDecides(s, max);
      }
    case Choosing(i, w, before) =>
      if i < workers {
        Takes(s, ReadFirst(true), s.(accept := Comparing(i, w, n[w], true, before)), max);
      } else {
        Takes(s, Choose, s.(accept := Opening(w)), max);
      }
    case Comparing(i, w, v, bestFirst, before) =>
      var less := if bestFirst then v > n[i] else n[w] > v;
      Takes(s, Compare, s.(accept := Choosing(i + 1, if less then i else w, before)), max);
    case Opening(w) =>
      if c !in s.conns {
        Takes(s, Open(c), State(n[w := Increment(n[w])], s.conns[c := Connection(w, true)], Idle), max);
      }
  }

  lemma WorkerGoesOn(s: State, workers: nat, max: nat, c: ConnId)
    requires Inv(s, workers, max) && c in s.conns
    ensures Enabled(s, if s.conns[c].open then Close(c) else Release(c), max)
  {
    hide Sum, AcceptRight;
    var n, w := s.counters, s.conns[c].worker;
    if s.conns[c].open {
      Takes(s, Close(c), s.(conns := s.conns[c := s.conns[c].(open := false)]), max);
    } else {
      Takes(s, Release(c), s.(counters := n[w := Decrement(n[w])], conns := s.conns - {c}), max);
    }
  }

  /** What a step does to the sockets and to the connections that are counted: refusing touches neither. */
  lemma OpenedAndClosed(s: State, a: Action, s': State, max: nat)
    requires Step(s, a, s', max)
    ensures
      match a
      case Open(c) => c !in s.conns && OpenConns(s') == OpenConns(s) + {c} && s'.conns.Keys == s.conns.Keys + {c}
      case Close(c) => c in OpenConns(s) && OpenConns(s') == OpenConns(s) - {c} && s'.conns.Keys == s.conns.Keys
      case Release(c) =>
        && c in s.conns && c !in OpenConns(s)
        && OpenConns(s') == OpenConns(s) && s'.conns.Keys == s.conns.Keys - {c}
      case _ => s'.conns == s.conns
  {
  }

  // ---------- which worker gets the connection ----------

  /** The first of the least counters among the first `i`. */
  ghost predicate FirstLeast(counters: seq<Uint32>, w: nat, i: nat) {
    && w < i <= |counters|
    && (forall j | 0 <= j < i :: counters[w] <= counters[j])
    && forall j | 0 <= j < w :: counters[w] < counters[j]
  }

  /** The accept thread is choosing, and has chosen the first of the least counters so far. */
  ghost predicate ChosenSoFar(s: State, counters: seq<Uint32>) {
    && s.counters == counters
    && match s.accept
       case Choosing(i, w, _) => FirstLeast(counters, w, i)
       case Comparing(i, w, v, bestFirst, _) =>
         i < |counters| && FirstLeast(counters, w, i) && v == counters[if bestFirst then w else i]
       case Opening(w) => FirstLeast(counters, w, |counters|)
       case _ => false
  }

  lemma ChoiceGoesOn(s: State, a: Action, s': State, max: nat)
    requires Step(s, a, s', max) && ChosenSoFar(s, s.counters) && s'.counters == s.counters && !s'.accept.Idle?
    ensures ChosenSoFar(s', s.counters)
  {
  }

  /** From the admission in state `j` up to state `k` no counter changes and the connection is not yet opened. */
  ghost predicate Undisturbed(run: seq<State>, j: nat, k: nat)
    requires j < k <= |run|
  {
    forall m | j <= m < k :: run[m].counters == run[j].counters && !run[m].accept.Idle?
  }

  lemma {:induction false} ChoiceSoFar(run: seq<State>, workers: nat, max: nat, j: nat, k: nat)
    requires IsRun(run, workers, max) && j < k <= |run| && Undisturbed(run, j, k)
    requires run[j].accept.Choosing? && run[j].accept.i == 1 && run[j].accept.w == 0 && run[j].counters != []
    ensures ChosenSoFar(run[k - 1], run[j].counters)
  {
    hide Step;
    if j < k - 1 {
      ChoiceSoFar(run, workers, max, j, k - 1);
      var a := ActionOf(run, workers, max, k - 1);
      ChoiceGoesOn(run[k - 2], a, run[k - 1], max);
    }
  }

  /**
   * A connection that is admitted in state `j` and opened in state `k` goes to the first of the workers that had
   * the least counter, if no counter changed in between.
   */
  lemma LeastGetsConnection(run: seq<State>, workers: nat, max: nat, j: nat, k: nat, c: ConnId)
    requires IsRun(run, workers, max) && j < k < |run| && Undisturbed(run, j, k)
    requires run[j].accept.Choosing? && run[j].accept.i == 1 && run[j].accept.w == 0 && run[j].counters != []
    requires Step(run[k - 1], Open(c), run[k], max)
    ensures c !in run[k - 1].conns && run[k].conns.Keys == run[k - 1].conns.Keys + {c}
    ensures run[k].conns[c].open && FirstLeast(run[j].counters, run[k].conns[c].worker, |run[j].counters|)
  {
    ChoiceSoFar(run, workers, max, j, k);
  }

  // ---------- how large a maximum can be ----------

  lemma Extend(run: seq<State>, workers: nat, max: nat, a: Action, s: State) returns (longer: seq<State>)
    requires IsRun(run, workers, max) && Step(run[|run| - 1], a, s, max)
    ensures IsRun(longer, workers, max) && longer[|longer| - 1] == s
  {
    longer := run + [s];
    forall k | 0 < k < |longer|
      ensures Next(longer, k, max)
    {
      if k < |run| {
        var b := ActionOf(run, workers, max, k);
        assert Step(longer[k - 1], b, longer[k], max);
      } else {
        assert Step(longer[k - 1], a, longer[k], max);
      }
    }
  }

  function Last(run: seq<State>): State
    requires run != []
  {
    run[|run| - 1]
  }

  /** With a maximum no sum of counters can reach, an undisturbed scan admits. */
  lemma ScanAdmits(run: seq<State>, workers: nat, max: nat) returns (longer: seq<State>)
    requires IsRun(run, workers, max) && |Last(run).counters| == workers > 0 && Last(run).accept.Idle?
    requires max > workers * COUNTER_MAX
    ensures IsRun(longer, workers, max)
    ensures Last(longer) == Last(run).(accept := Choosing(1, 0, Last(run).counters))
  {
    var s := Last(run);
    longer := Extend(run, workers, max, Begin, s.(accept := Scanning(0, 0, Sum(s.counters))));
    for i := 0 to workers
      invariant IsRun(longer, workers, max)
      invariant Last(longer) == s.(accept := Scanning(i, Sum(s.counters[..i]), Sum(s.counters)))
    {
      SumPrefix(s.counters, i);
      longer := Extend(longer, workers, max, ReadCounter,
        s.(accept := Scanning(i + 1, Sum(s.counters[..i + 1]), Sum(s.counters))));
    }
    assert s.counters[..workers] == s.counters;
    SumBound(s.counters, COUNTER_MAX);
    longer := Extend(longer, workers, max, Admit, s.(accept := Choosing(1, 0, s.counters)));
  }

  lemma ChoosingOpens(run: seq<State>, workers: nat, max: nat, c: ConnId)
    returns (longer: seq<State>)
    requires IsRun(run, workers, max) && |Last(run).counters| == workers > 0 && c !in Last(run).conns
    requires Last(run).accept == Choosing(1, 0, Last(run).counters)
    ensures IsRun(longer, workers, max)
    ensures |Last(longer).counters| == workers && Last(longer).accept.Idle?
    ensures exists w: nat :: Last(longer).conns == Last(run).conns[c := Connection(w, true)]
  {
    var s := Last(run);
    var w, before := 0, s.counters;
    longer := run;
    for i := 1 to workers
      invariant IsRun(longer, workers, max) && w < workers
      invariant Last(longer) == s.(accept := Choosing(i, w, before))
    {
      longer := Extend(longer, workers, max, ReadFirst(true),
        s.(accept := Comparing(i, w, s.counters[w], true, before)));
      w := if s.counters[w] > s.counters[i] then i else w;
      longer := Extend(longer, workers, max, Compare, s.(accept := Choosing(i + 1, w, before)));
    }
    longer := Extend(longer, workers, max, Choose, s.(accept := Opening(w)));
    longer := Extend(longer, workers, max, Open(c),
      State(s.counters[w := Increment(s.counters[w])], s.conns[c := Connection(w, true)], Idle));
  }

  lemma {:induction false} NeverRefused(workers: nat, max: nat, m: nat) returns (run: seq<State>)
    requires 0 < workers && max > workers * COUNTER_MAX
    ensures IsRun(run, workers, max) && |Last(run).counters| == workers && Last(run).accept.Idle?
    ensures |OpenConns(Last(run))| == m && forall c | c in Last(run).conns :: c < m
  {
    if m == 0 {
      run := [State(seq(workers, _ => 0), map[], Idle)];
      assert OpenConns(Last(run)) == {};
    } else {
      var short := NeverRefused(workers, max, m - 1);
      run := ScanAdmits(short, workers, max);
      run := ChoosingOpens(run, workers, max, m - 1);
      assert OpenConns(Last(run)) == OpenConns(Last(short)) + {m - 1};
    }
  }

  /**
   * Which maxima are kept: a 32-bit counter that wraps hides its connections, so the cap holds over all runs
   * if and only if the counters together can count to the maximum.
   */
  lemma CapHoldsExactly(workers: nat, max: nat)
    requires 0 < workers
    ensures (forall run, k: nat | IsRun(run, workers, max) && k < |run| :: |OpenConns(run[k])| <= max)
            <==> max <= workers * COUNTER_MAX
  {
    if max <= workers * COUNTER_MAX {
      forall run, k: nat | IsRun(run, workers, max) && k < |run|
        ensures |OpenConns(run[k])| <= max
      {
        CapHolds(run, workers, max, k);
      }
    } else {
      var run := NeverRefused(workers, max, max + 1);
      assert |OpenConns(run[|run| - 1])| > max;
    }
  }
}
