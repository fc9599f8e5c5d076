/**
 * The clients of one worker.  Their messages share the worker's pools; every interleaving of their events keeps
 * what each of them holds apart.
 */
module Workers {
  import opened Common
  import opened Continuum
  import K = Ketama
  import opened Messages
  import opened Protocol
  import opened Ring
  import opened Router
  import opened Session

  // ---------- shares of the pools ----------

  ghost function Union(h: seq<Ledger>): Ledger {
    if h == [] then NOTHING else Union(h[..|h| - 1]).Plus(h[|h| - 1])
  }

  /** No object is held twice. */
  ghost predicate Apart(h: seq<Ledger>) {
    forall i, j | 0 <= i < j < |h| :: h[i].Disjoint(h[j])
  }

  lemma PlusFacts(a: Ledger, b: Ledger, c: Ledger)
    ensures a.Plus(b) == b.Plus(a) && a.Plus(b).Plus(c) == a.Plus(b.Plus(c)) && a.Plus(NOTHING) == a
    ensures a.Disjoint(b) <==> b.Disjoint(a)
    ensures a.Disjoint(b.Plus(c)) <==> a.Disjoint(b) && a.Disjoint(c)
    ensures a.Disjoint(NOTHING)
  {
  }

  /** Everything but the i-th, and the i-th. */
  lemma {:induction false} UnionUpdate(h: seq<Ledger>, i: nat, x: Ledger)
    requires i < |h|
    ensures Union(h[i := x]) == Union(h[i := NOTHING]).Plus(x)
  {
    hide Ledger.Plus, Ledger.Disjoint;
    var k := |h| - 1;
    var rest := h[..k];
    if i == k {
      assert h[i := x][..k] == rest && h[i := NOTHING][..k] == rest;
      PlusFacts(Union(rest), NOTHING, NOTHING);
    } else {
      assert h[i := x][..k] == rest[i := x] && h[i := NOTHING][..k] == rest[i := NOTHING];
      UnionUpdate(rest, i, x);
      PlusFacts(Union(rest[i := NOTHING]), x, h[k]);
      PlusFacts(x, h[k], NOTHING);
      PlusFacts(Union(rest[i := NOTHING]), h[k], x);
    }
  }

  lemma {:induction false} DisjointUnion(h: seq<Ledger>, x: Ledger)
    ensures x.Disjoint(Union(h)) <==> forall i | 0 <= i < |h| :: x.Disjoint(h[i])
  {
    hide Ledger.Plus, Ledger.Disjoint;
    if h == [] {
      PlusFacts(x, NOTHING, NOTHING);
    } else {
      var k := |h| - 1;
      DisjointUnion(h[..k], x);
      PlusFacts(x, Union(h[..k]), h[k]);
      assert forall i | 0 <= i < k :: h[..k][i] == h[i];
    }
  }

  /** What one holder has is split off from what the others have. */
  lemma SplitOff(h: seq<Ledger>, i: nat)
    requires i < |h| && Apart(h)
    ensures Split(Union(h), Union(h[i := NOTHING]), h[i])
  {
    hide Ledger.Plus, Ledger.Disjoint;
    assert h[i := h[i]] == h;
    UnionUpdate(h, i, h[i]);
    var g := h[i := NOTHING];
    forall j | 0 <= j < |g|
      ensures h[i].Disjoint(g[j])
    {
      PlusFacts(h[i], h[j], NOTHING);
    }
    DisjointUnion(g, h[i]);
    PlusFacts(h[i], Union(g), NOTHING);
  }

  /** One holder has changed what it holds, at nobody's expense. */
  lemma SplitOn(h: seq<Ledger>, i: nat, x: Ledger, total: Ledger)
    requires i < |h| && Apart(h) && Split(total, Union(h[i := NOTHING]), x)
    ensures Apart(h[i := x]) && total == Union(h[i := x])
  {
    hide Ledger.Plus, Ledger.Disjoint;
    UnionUpdate(h, i, x);
    var g := h[i := NOTHING];
    PlusFacts(x, Union(g), NOTHING);
    DisjointUnion(g, x);
    var f := h[i := x];
    forall j, k | 0 <= j < k < |f|
      ensures f[j].Disjoint(f[k])
    {
      assert j != i ==> g[j] == h[j];
      assert k != i ==> g[k] == h[k];
      PlusFacts(x, h[j], NOTHING);
    }
  }

  /** One holder holds more, which nobody held. */
  lemma SplitMore(h: seq<Ledger>, i: nat, x: Ledger)
    requires i < |h| && Apart(h) && Union(h).Disjoint(x)
    ensures Apart(h[i := h[i].Plus(x)]) && Union(h[i := h[i].Plus(x)]) == Union(h).Plus(x)
  {
    hide Ledger.Plus, Ledger.Disjoint;
    var y, g := h[i].Plus(x), h[i := NOTHING];
    SplitOff(h, i);
    UnionUpdate(h, i, y);
    PlusFacts(Union(g), h[i], x);
    PlusFacts(x, Union(h), NOTHING);
    DisjointUnion(h, x);
    assert h[i := h[i]] == h;
    UnionUpdate(h, i, h[i]);
    var f := h[i := y];
    forall j, k | 0 <= j < k < |f|
      ensures f[j].Disjoint(f[k])
    {
      PlusFacts(h[j], h[k], NOTHING);
      PlusFacts(h[j], h[i], x);
      PlusFacts(h[k], h[i], x);
      PlusFacts(x, h[j], NOTHING);
      PlusFacts(x, h[k], NOTHING);
      PlusFacts(h[i], h[k], NOTHING);
      PlusFacts(y, h[k], NOTHING);
      PlusFacts(h[j], y, NOTHING);
    }
  }

  lemma {:induction false} UnionOneMore(h: seq<Ledger>)
    requires Apart(h)
    ensures Union(h + [NOTHING]) == Union(h) && Apart(h + [NOTHING])
  {
    assert (h + [NOTHING])[..|h|] == h;
  }

  lemma {:induction false} UnionOf(a: seq<Ledger>, b: seq<Ledger>)
    ensures Union(a + b) == Union(a).Plus(Union(b))
  {
    hide Ledger.Plus;
    if b == [] {
      assert a + b == a;
      PlusFacts(Union(a), NOTHING, NOTHING);
    } else {
      var k := |b| - 1;
      assert (a + b)[..|a| + k] == a + b[..k];
      UnionOf(a, b[..k]);
      PlusFacts(Union(a), Union(b[..k]), b[k]);
    }
  }

  /** A holder of nothing can go. */
  lemma UnionWithout(h: seq<Ledger>, i: nat)
    requires i < |h| && Apart(h)
    ensures Union(h[..i] + h[i + 1..]) == Union(h[i := NOTHING]) && Apart(h[..i] + h[i + 1..])
  {
    hide Ledger.Plus, Ledger.Disjoint;
    var a, b := h[..i], h[i + 1..];
    assert h[i := NOTHING] == a + [NOTHING] + b;
    assert (a + [NOTHING])[..i] == a;
    PlusFacts(Union(a), NOTHING, NOTHING);
    UnionOf(a + [NOTHING], b);
    UnionOf(a, b);
    var g := a + b;
    forall j, k | 0 <= j < k < |g|
      ensures g[j].Disjoint(g[k])
    {
      assert g[j] == h[if j < i then j else j + 1] && g[k] == h[if k < i then k else k + 1];
    }
  }

  // ---------- events ----------

  datatype Event = Join | Read(i: nat, bytes: string) | Answer(m: Message) | Leave(i: nat)

  ghost predicate Possible(conns: seq<Conn>, e: Event) {
    match e
    case Join => true
    case Read(i, bytes) => i < |conns| && Ready(conns[i])
    case Answer(m) => |m.params| < UINT16
    case Leave(i) => i < |conns|
  }

  /** The outputs of an event. */
  ghost function Outputs(conns: seq<Conn>, e: Event): seq<Output>
    requires Possible(conns, e)
  {
    if e.Read? then Receive(conns[e.i], e.bytes).1 else []
  }

  /** Each connection is as its own reads have made it, whatever the others do. */
  ghost function Next(conns: seq<Conn>, e: Event): seq<Conn>
    requires Possible(conns, e)
  {
    match e
    case Join => conns + [Conn(IDLE, "")]
    case Read(i, bytes) => conns[i := Receive(conns[i], bytes).0]
    case Answer(m) => conns
    case Leave(i) => conns[..i] + conns[i + 1..]
  }

  /** What an event writes to its client. */
  ghost function Written(servers: seq<ServerInfo>, ring: seq<Mcs>, conns: seq<Conn>, e: Event): string
    requires RingFits(servers, ring) && Possible(conns, e)
  {
    if e.Answer? then MessageText(e.m) else TextOf(servers, ring, Outputs(conns, e))
  }

  /** A well-formed response is written so that its reader gets exactly it; joining and leaving write nothing. */
  lemma AnswerArrives(servers: seq<ServerInfo>, ring: seq<Mcs>, conns: seq<Conn>, e: Event)
    requires RingFits(servers, ring) && Possible(conns, e)
    ensures e.Answer? && WellFormed(e.m) ==>
      Drain(IDLE, Written(servers, ring, conns, e)) == (IDLE, [Dispatch(CmdOf(e.m), e.m.params)], "")
    ensures e.Join? || e.Leave? ==> Written(servers, ring, conns, e) == ""
  {
    hide Drain, MessageText, WellFormed;
    if e.Answer? && WellFormed(e.m) {
      assert MessageText(e.m) + "" == MessageText(e.m);
      DrainMessage(e.m, "");
      DrainNothing();
      assert [Dispatch(CmdOf(e.m), e.m.params)] + [] == [Dispatch(CmdOf(e.m), e.m.params)];
    } else if !e.Answer? {
      NoAnswer(servers, ring);
    }
  }

  // ---------- the worker ----------

  /** The clients of one worker, which share its pools. */
  class WorkerClients {
    const ketama: K.Ketama
    const buf: MsgBuf
    var clients: seq<Client>

    ghost var conns: seq<Conn>     // the clients' states
    ghost var leaked: set<Addr>    // the row buffers that nobody frees
    ghost var shares: seq<Ledger>  // those, and what each client holds

    ghost function Msgs(): set<Msg?>
      reads this, clients
    {
      set c | c in clients && c.msg != null :: c.msg
    }

    ghost function Set(): set<Client>
      reads this
    {
      set c | c in clients
    }

    /** The i-th client belongs here, and is and holds what this object says. */
    ghost predicate Member(i: nat)
      requires i < |clients| == |conns| && |shares| == |clients| + 1
      reads this, clients[i], clients[i].msg
    {
      var c := clients[i];
      && c.buf == buf && c.ketama == ketama && c.Sound() && c.State() == conns[i] && Ready(conns[i])
      && c.Holding() == shares[i + 1]
    }

    /** Clients and messages are different objects. */
    ghost predicate Different()
      reads `clients, clients
    {
      && (forall i, j | 0 <= i < j < |clients| :: clients[i] != clients[j])
      && forall i, j | 0 <= i < |clients| && 0 <= j < |clients| && i != j ::
        clients[i].msg != null ==> clients[i].msg != clients[j].msg
    }

    ghost predicate Members()
      reads this, clients, Msgs()
    {
      && |clients| == |conns| && |shares| == |clients| + 1
      && Different() && (forall i | 0 <= i < |clients| :: Member(i))
    }

    /** What is outstanding is the disjoint union of what the live messages hold and of the leaked rows. */
    ghost predicate Valid()
      reads this, buf, clients, Msgs()
    {
      && Members() && shares[0] == Rows(leaked)
      && buf.Valid() && Apart(shares) && buf.Outstanding() == Union(shares)
    }

    constructor (ketama: K.Ketama, buf: MsgBuf)
      requires buf.Valid() && buf.Outstanding() == NOTHING
      ensures this.ketama == ketama && this.buf == buf && Valid() && conns == [] && leaked == {}
    {
      this.ketama, this.buf, clients := ketama, buf, [];
      conns, leaked, shares := [], {}, [NOTHING];
      new;
      assert shares[..0] == [];
    }

    /** The client's part of a read event. */
    method ReadMember(i: nat, bytes: string, ghost others: Ledger, ghost servers: seq<ServerInfo>, ghost ring: seq<Mcs>)
      returns (ok: bool, text: string, ghost lost: set<Addr>)
      requires Members() && buf.Valid() && i < |conns| && Ready(conns[i]) && Configured(ketama, servers, ring)
      requires Split(buf.Outstanding(), others, shares[i + 1])
      modifies `conns, `shares, buf, Set(), Msgs()
      ensures forall o | o in Msgs() :: o in old(Msgs()) || fresh(o)
      ensures ok <==> AllAnswerable(Receive(old(conns[i]), bytes).1)
      ensures ok ==> Members() && buf.Valid() && conns == old(conns)[i := Receive(old(conns[i]), bytes).0]
      ensures ok ==> shares == old(shares)[i + 1 := shares[i + 1]]
      ensures ok ==> Split(buf.Outstanding(), others.Plus(Rows(lost)), shares[i + 1])
      ensures ok ==> Lost(lost, Receive(old(conns[i]), bytes).1, others)
      ensures text == TextOf(servers, ring, Receive(old(conns[i]), bytes).1)
    {
      hide MsgBuf.Valid, Configured, AllAnswerable, TextOf, Ready, Receive, Split, Lost;
      hide Client.State, Client.Holding, Client.Sound, Ledger.Plus;
      assert Member(i);
      var c := clients[i];
      ok, text, lost := c.ReadShare(bytes, others, conns[i], servers, ring);
      if ok {
        shares := shares[i + 1 := c.Holding()];
        conns := conns[i := c.State()];
        forall j | 0 <= j < |clients|
          ensures Member(j)
        {
          assert old(Member(j));
        }
      }
    }

    /** client_event_read of one client. */
    method ReadClient(i: nat, bytes: string, ghost servers: seq<ServerInfo>, ghost ring: seq<Mcs>)
      returns (ok: bool, text: string)
      requires Valid() && Configured(ketama, servers, ring) && i < |conns| && Ready(conns[i])
      modifies `conns, `leaked, `shares, buf, Set(), Msgs()
      ensures forall o | o in Msgs() :: o in old(Msgs()) || fresh(o)
      ensures ok <==> AllAnswerable(Receive(old(conns[i]), bytes).1)
      ensures ok ==> Valid() && conns == old(conns)[i := Receive(old(conns[i]), bytes).0]
      ensures ok ==> |leaked| == old(|leaked|) + Rejects(Receive(old(conns[i]), bytes).1)
      ensures text == TextOf(servers, ring, Receive(old(conns[i]), bytes).1)
    {
      hide MsgBuf.Valid, Configured, AllAnswerable, TextOf, Ready, Receive, Split, Apart, Union, Rejects;
      hide Different, Client.State, Client.Holding, Client.Sound, Ledger.Plus, Ledger.Disjoint;
      ghost var h := shares;
      ghost var others := Union(h[i + 1 := NOTHING]);
      SplitOff(h, i + 1);
      ghost var lost;
      ok, text, lost := ReadMember(i, bytes, others, servers, ring);
      if ok {
        ReadKeepsApart(h, i + 1, leaked, lost, shares[i + 1], buf.Outstanding());
        label Counted:
        leaked := leaked + lost;
        shares := shares[0 := Rows(leaked)];
        assert shares == h[0 := Rows(leaked)][i + 1 := shares[i + 1]];
        forall j | 0 <= j < |clients|
          ensures Member(j)
        {
          assert old@Counted(Member(j));
        }
      }
    }

    /** A response that belongs to no client's message. */
    method RespondOnly(m: Message) returns (text: string)
      requires Valid() && |m.params| < UINT16
      modifies buf
      ensures Valid() && Msgs() == old(Msgs())
      ensures text == MessageText(m)
    {
      hide MsgBuf.Valid, Ready, Apart, Union, Client.State, Client.Holding, Client.Sound;
      text := Respond(buf, m);
    }

    /** client_init */
    method Accept()
      requires Valid()
      modifies `clients, `conns, `shares
      ensures Valid() && conns == old(conns) + [Conn(IDLE, "")]
      ensures forall c | c in clients :: c in old(clients) || fresh(c)
      ensures Msgs() == old(Msgs())
    {
      hide MsgBuf.Valid, Apart, Union, Ready, Client.State, Client.Holding, Client.Sound;
      var c := new Client(ketama, buf);
      clients := clients + [c];
      UnionOneMore(shares);
      conns := conns + [Conn(IDLE, "")];
      shares := shares + [NOTHING];
      forall i | 0 <= i < |clients|
        ensures Member(i)
      {
        assert i < |old(clients)| ==> old(Member(i));
      }
    }

    /** The i-th client is a member no more. */
    method Remove(i: nat)
      requires i < |clients| == |conns| && |shares| == |clients| + 1 && Different()
      requires forall j | 0 <= j < |clients| && j != i :: Member(j)
      modifies `clients, `conns, `shares
      ensures Members() && conns == old(conns)[..i] + old(conns)[i + 1..]
      ensures shares == old(shares)[..i + 1] + old(shares)[i + 2..]
      ensures forall c | c in clients :: c in old(clients)
    {
      hide Ready, Client.State, Client.Holding, Client.Sound;
      clients := clients[..i] + clients[i + 1..];
      conns := conns[..i] + conns[i + 1..];
      shares := shares[..i + 1] + shares[i + 2..];
      forall j | 0 <= j < |clients|
        ensures Member(j)
      {
        assert old(Member(if j < i then j else j + 1));
      }
    }

    /** client_free: its message's objects, and no others, go back. */
    method Release(i: nat)
      requires Valid() && i < |clients|
      modifies `clients, `conns, `shares, buf, Msgs()
      ensures Valid() && conns == old(conns)[..i] + old(conns)[i + 1..]
      ensures forall c | c in clients :: c in old(clients)
      ensures forall o | o in Msgs() :: o in old(Msgs())
    {
      hide MsgBuf.Valid, Ready, Split, Apart, Union, Client.Live, Client.State, Client.Holding, Client.Sound;
      assert Member(i);
      var c := clients[i];
      ghost var h := shares;
      ghost var others := Union(h[i + 1 := NOTHING]);
      SplitOff(h, i + 1);
      c.LiveIsSplit(others);
      c.Free(others);
      forall j | 0 <= j < |clients| && j != i
        ensures Member(j)
      {
        assert old(Member(j));
      }
      Remove(i);
      UnionWithout(h, i + 1);
    }

    /** One event at a worker; `ok` says that the program has not failed. */
    method Handle(e: Event, ghost servers: seq<ServerInfo>, ghost ring: seq<Mcs>) returns (ok: bool, text: string)
      requires Valid() && Configured(ketama, servers, ring) && Possible(conns, e)
      modifies this, buf, Set(), Msgs()
      ensures forall c | c in Set() :: c in old(Set()) || fresh(c)
      ensures forall o | o in Msgs() :: o in old(Msgs()) || fresh(o)
      ensures ok <==> AllAnswerable(Outputs(old(conns), e))
      ensures ok ==> Valid() && conns == Next(old(conns), e)
      ensures ok ==> |leaked| == old(|leaked|) + Rejects(Outputs(old(conns), e))
      ensures text == Written(servers, ring, old(conns), e)
    {
      hide Configured, Replies, Ready, Receive, MessageText, Msgs, TextOf, Member, Different, Apart, Union;
      NoAnswer(servers, ring);
      ok, text := true, "";
      match e {
        case Join =>
          Accept();
        case Read(i, bytes) =>
          ok, text := ReadClient(i, bytes, servers, ring);
        case Answer(m) =>
          text := RespondOnly(m);
        case Leave(i) =>
          Release(i);
      }
    }
  }

  /** A read changes what one client holds, and lets go of the rows of rejected lines. */
  lemma ReadKeepsApart(h: seq<Ledger>, i: nat, leaked: set<Addr>, lost: set<Addr>, x: Ledger, total: Ledger)
    requires 0 < i < |h| && Apart(h) && h[0] == Rows(leaked) && lost !! Union(h[i := NOTHING]).rows
    requires Split(total, Union(h[i := NOTHING]).Plus(Rows(lost)), x)
    ensures
      var f := h[0 := Rows(leaked + lost)][i := x];
      Apart(f) && total == Union(f) && |leaked + lost| == |leaked| + |lost|
  {
    hide Apart, Union, Split, Ledger.Plus, Ledger.Disjoint;
    var g := h[i := NOTHING];
    RowsApart(Union(g), lost);
    ApartWithout(h, i);
    SplitMore(g, 0, Rows(lost));
    LostIsNew(g, leaked, lost);
    var f := g[0 := Rows(leaked + lost)];
    assert f[i := NOTHING] == f;
    SplitOn(f, i, x, total);
    assert f[i := x] == h[0 := Rows(leaked + lost)][i := x];
  }

  lemma RowsApart(others: Ledger, a: set<Addr>)
    requires a !! others.rows
    ensures others.Disjoint(Rows(a))
  {
  }

  lemma ApartWithout(h: seq<Ledger>, i: nat)
    requires i < |h| && Apart(h)
    ensures Apart(h[i := NOTHING])
  {
    var g := h[i := NOTHING];
    forall j, k | 0 <= j < k < |g|
      ensures g[j].Disjoint(g[k])
    {
      assert h[j].Disjoint(h[k]);
    }
  }

  lemma {:induction false} LostIsNew(g: seq<Ledger>, a: set<Addr>, b: set<Addr>)
    requires g != [] && g[0] == Rows(a) && Union(g).Disjoint(Rows(b))
    ensures Rows(a).Plus(Rows(b)) == Rows(a + b) && |a + b| == |a| + |b|
  {
    PlusFacts(Rows(b), Union(g), NOTHING);
    DisjointUnion(g, Rows(b));
    assert Rows(b).Disjoint(g[0]);
    assert a !! b;
  }

  // ---------- whole runs ----------

  /** Every event can happen, up to the one at which the program fails. */
  ghost predicate AllPossible(conns: seq<Conn>, events: seq<Event>)
    decreases |events|
  {
    events == [] ||
    (Possible(conns, events[0])
      && (AllAnswerable(Outputs(conns, events[0])) ==> AllPossible(Next(conns, events[0]), events[1..])))
  }

  /** The program does not fail. */
  ghost predicate Survives(conns: seq<Conn>, events: seq<Event>)
    requires AllPossible(conns, events)
    decreases |events|
  {
    events == [] ||
    (AllAnswerable(Outputs(conns, events[0])) && Survives(Next(conns, events[0]), events[1..]))
  }

  ghost function After(conns: seq<Conn>, events: seq<Event>): seq<Conn>
    requires AllPossible(conns, events) && Survives(conns, events)
    decreases |events|
  {
    if events == [] then conns else After(Next(conns, events[0]), events[1..])
  }

  /** What the worker writes, event by event, up to the one at which the program fails. */
  ghost function AllWritten(servers: seq<ServerInfo>, ring: seq<Mcs>, conns: seq<Conn>, events: seq<Event>)
    : (texts: seq<string>)
    requires RingFits(servers, ring) && AllPossible(conns, events)
    ensures Survives(conns, events) ==> |texts| == |events|
    decreases |events|
  {
    if events == [] then []
    else
      [Written(servers, ring, conns, events[0])]
      + if AllAnswerable(Outputs(conns, events[0])) then AllWritten(servers, ring, Next(conns, events[0]), events[1..])
        else []
  }

  /** The rejected lines of a run. */
  ghost function AllRejects(conns: seq<Conn>, events: seq<Event>): nat
    requires AllPossible(conns, events) && Survives(conns, events)
    decreases |events|
  {
    if events == [] then 0
    else Rejects(Outputs(conns, events[0])) + AllRejects(Next(conns, events[0]), events[1..])
  }

  lemma {:induction false} RunFirst(servers: seq<ServerInfo>, ring: seq<Mcs>, conns: seq<Conn>, events: seq<Event>)
    requires RingFits(servers, ring) && events != [] && AllPossible(conns, events)
    ensures Possible(conns, events[0])
    ensures
      var w, next, rest := Written(servers, ring, conns, events[0]), Next(conns, events[0]), events[1..];
      if AllAnswerable(Outputs(conns, events[0])) then
        && AllPossible(next, rest) && (Survives(conns, events) <==> Survives(next, rest))
        && AllWritten(servers, ring, conns, events) == [w] + AllWritten(servers, ring, next, rest)
        && (Survives(next, rest) ==>
          && After(conns, events) == After(next, rest)
          && AllRejects(conns, events) == Rejects(Outputs(conns, events[0])) + AllRejects(next, rest))
      else !Survives(conns, events) && AllWritten(servers, ring, conns, events) == [w]
  {
    hide Possible, Next, Written, AllAnswerable, Outputs;
  }

  lemma {:induction false} RunNothing(servers: seq<ServerInfo>, ring: seq<Mcs>, conns: seq<Conn>)
    requires RingFits(servers, ring)
    ensures AllPossible(conns, []) && Survives(conns, []) && AllWritten(servers, ring, conns, []) == []
    ensures After(conns, []) == conns && AllRejects(conns, []) == 0
  {
  }

  /**
   * Over every interleaving of joins, reads, responses and leaves, until the program fails: the outstanding
   * objects are the disjoint union of what the live messages hold and of one row buffer for each rejected line,
   * every event writes its own text, and every connection is what its reads make it.
   */
  method Work(worker: WorkerClients, events: seq<Event>, ghost servers: seq<ServerInfo>, ghost ring: seq<Mcs>)
    returns (ok: bool, texts: seq<string>)
    requires worker.Valid() && Configured(worker.ketama, servers, ring)
    requires AllPossible(worker.conns, events)
    modifies worker, worker.buf, worker.Set(), worker.Msgs()
    ensures ok <==> Survives(old(worker.conns), events)
    ensures texts == AllWritten(servers, ring, old(worker.conns), events)
    ensures ok ==> worker.Valid() && worker.conns == After(old(worker.conns), events)
    ensures ok ==> |worker.leaked| == old(|worker.leaked|) + AllRejects(old(worker.conns), events)
  {
    hide Configured, WorkerClients.Valid, WorkerClients.Msgs, WorkerClients.Set;
    hide Possible, Next, Written, AllAnswerable, Outputs, AllPossible, Survives, AllWritten, After, AllRejects;
    ghost var start, had := worker.conns, |worker.leaked|;
    ok, texts := true, [];
    assert events[0..] == events;
    for i := 0 to |events|
      invariant ok && worker.Valid() && AllPossible(worker.conns, events[i..])
      invariant forall c | c in worker.Set() :: c in old(worker.Set()) || fresh(c)
      invariant forall o | o in worker.Msgs() :: o in old(worker.Msgs()) || fresh(o)
      invariant Survives(worker.conns, events[i..]) <==> Survives(start, events)
      invariant texts + AllWritten(servers, ring, worker.conns, events[i..])
             == AllWritten(servers, ring, start, events)
      invariant Survives(start, events) ==> After(worker.conns, events[i..]) == After(start, events)
      invariant Survives(start, events) ==>
        |worker.leaked| + AllRejects(worker.conns, events[i..]) == had + AllRejects(start, events)
    {
      ghost var rest, conns := events[i..], worker.conns;
      assert rest[0] == events[i] && rest[1..] == events[i + 1..];
      RunFirst(servers, ring, conns, rest);
      ghost var before := texts;
      var text;
      ok, text := worker.Handle(events[i], servers, ring);
      texts := texts + [text];
      if !ok {
        return;
      }
      ghost var later := AllWritten(servers, ring, worker.conns, rest[1..]);
      assert before + ([text] + later) == texts + later;
    }
    assert events[|events|..] == [];
    RunNothing(servers, ring, worker.conns);
    assert texts + [] == texts;
  }

  /** When the last client has left, nothing is outstanding but the rows of the rejected lines. */
  lemma NothingLeft(worker: WorkerClients)
    requires worker.Valid() && worker.clients == []
    ensures worker.buf.Outstanding() == Rows(worker.leaked)
  {
    hide MsgBuf.Valid, Ledger.Plus;
    var s := worker.shares;
    assert s == [Rows(worker.leaked)] && s[..0] == [];
    assert Union(s) == Union(s[..0]).Plus(s[0]) && Union(s[..0]) == NOTHING;
    PlusFacts(Rows(worker.leaked), NOTHING, NOTHING);
  }

  // ---------- one connection among the others ----------

  /** The place of the i-th client after an event, if it is still there. */
  function Place(i: nat, e: Event): Option<nat> {
    match e
    case Leave(j) => if j == i then None else if j < i then Some(i - 1) else Some(i)
    case _ => Some(i)
  }

  /** A client has a place after every event but its own leaving, and no two clients have the same. */
  lemma PlaceMeaning(e: Event, i: nat, j: nat)
    ensures Place(i, e).None? <==> e == Leave(i)
    ensures Place(i, e).Some? && Place(i, e) == Place(j, e) ==> i == j
  {
  }

  function LastPlace(events: seq<Event>, i: nat): Option<nat> {
    if events == [] then Some(i)
    else
      var p := Place(i, events[0]);
      if p.None? then None else LastPlace(events[1..], p.value)
  }

  /** What the i-th client reads, until it leaves. */
  function OwnReads(events: seq<Event>, i: nat): seq<string> {
    if events == [] then []
    else
      var p := Place(i, events[0]);
      (if events[0].Read? && events[0].i == i then [events[0].bytes] else [])
      + if p.None? then [] else OwnReads(events[1..], p.value)
  }

  /** What is written to the i-th client in answer, until it leaves. */
  function OwnText(events: seq<Event>, texts: seq<string>, i: nat): string
    requires |texts| == |events|
  {
    if events == [] then ""
    else
      var p := Place(i, events[0]);
      (if events[0].Read? && events[0].i == i then texts[0] else "")
      + if p.None? then "" else OwnText(events[1..], texts[1..], p.value)
  }

  lemma OtherPlace(conns: seq<Conn>, e: Event, i: nat)
    requires Possible(conns, e) && i < |conns|
    ensures
      var p := Place(i, e);
      p.Some? ==>
        && p.value < |Next(conns, e)|
        && Next(conns, e)[p.value] == if e.Read? && e.i == i then Receive(conns[i], e.bytes).0 else conns[i]
  {
    hide Receive, Ready;
  }

  lemma ReadyStays(c: Conn, bytes: string)
    requires Ready(c)
    ensures Ready(Receive(c, bytes).0)
  {
    hide Drain, BetweenLines;
    DrainInvariant(c.msg, c.buf + bytes);
  }

  /** Whatever the others do, a connection is what its own reads make it, and is answered as its own reads are. */
  lemma {:induction false} OwnReadsDecide(servers: seq<ServerInfo>, ring: seq<Mcs>, conns: seq<Conn>,
      events: seq<Event>, i: nat)
    requires RingFits(servers, ring) && AllPossible(conns, events) && Survives(conns, events)
    requires i < |conns| && Ready(conns[i])
    ensures
      var (last, os) := ReceiveAll(conns[i], OwnReads(events, i));
      && AllAnswerable(os)
      && OwnText(events, AllWritten(servers, ring, conns, events), i) == TextOf(servers, ring, os)
      && var p := LastPlace(events, i);
      p.Some? ==> p.value < |After(conns, events)| && After(conns, events)[p.value] == last
    decreases |events|
  {
    hide Possible, Next, Receive, ReceiveAll, Ready, AllAnswerable, TextOf, AllPossible, Survives, AllWritten, After;
    NoAnswer(servers, ring);
    var c := conns[i];
    ReceiveNothing(c);
    if events == [] {
      RunNothing(servers, ring, conns);
    } else {
      RunFirst(servers, ring, conns, events);
      var e, rest, next, p := events[0], events[1..], Next(conns, events[0]), Place(i, events[0]);
      OtherPlace(conns, e, i);
      if e.Read? && e.i == i {
        ReadyStays(c, e.bytes);
        OwnReadsDecide(servers, ring, next, rest, i);
        var later := OwnReads(rest, i);
        assert ([e.bytes] + later)[1..] == later;
        ReceiveFirst(c, [e.bytes] + later);
        TextOfAppend(servers, ring, Receive(c, e.bytes).1, ReceiveAll(next[i], later).1);
      } else if p.Some? {
        OwnReadsDecide(servers, ring, next, rest, p.value);
        assert [] + OwnReads(rest, p.value) == OwnReads(rest, p.value);
      }
    }
  }
}
