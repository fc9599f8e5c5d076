/**
 * The request path as a whole: the bytes of a connection become messages, the messages commands, and a GET
 * command the address of the server that owns its key.
 */
module Router {
  import opened Common
  import opened Continuum
  import K = Ketama
  import Md5Spec
  import opened Md5Values
  import opened Messages
  import opened Protocol
  import opened Ring
  import opened Session
  import Text

  // ---------- what is answered to what ----------

  function ErrorMessage(no: string, error: string): Message {
    Message("ERROR", [Str(no), Str(error)])
  }

  /** The address stored for the owner of the key's hash; nothing when there is no ring. */
  function AddressOf(servers: seq<ServerInfo>, ring: seq<Mcs>, key: string): string
    requires RingFits(servers, ring)
  {
    if ring == [] then "" else servers[ring[Owner(ring, K.KeyHash(key))].ordinal].addr
  }

  ghost predicate RingFits(servers: seq<ServerInfo>, ring: seq<Mcs>) {
    forall e | e in ring :: e.ordinal < |servers|
  }

  /**
   * `addr` is stored for a server that answers for the key: one with the nearest point at or after the number in
   * the first four bytes of the key's MD5 digest, or, when there is none, with the least point of all.
   */
  ghost predicate AnswersFor(servers: seq<ServerInfo>, ring: seq<Mcs>, key: string, addr: string) {
    exists h: Hash, e: Mcs ::
      && Answers(multiset(ring), h, e) && h == Number(Md5Spec.Digest(Bytes(K.HashedPart(key)))[..4])
      && e.ordinal < |servers| && addr == servers[e.ordinal].addr
  }

  lemma AddressAnswers(servers: seq<ServerInfo>, ring: seq<Mcs>, key: string)
    requires RingFits(servers, ring) && Sorted(ring) && ring != []
    ensures AnswersFor(servers, ring, key, AddressOf(servers, ring, key))
  {
    hide K.KeyHash, K.HashedPart, Number, Bytes, Md5Spec.Digest, Answers, Sorted, Owner;
    var h := K.KeyHash(key);
    K.KeyHashValue(key);
    OwnerAnswers(ring, h);
    var e := ring[Owner(ring, h)];
    assert e in ring && Answers(multiset(ring), h, e);
  }

  /** Where no point belongs to two servers there is one such address. */
  lemma OneAddress(servers: seq<ServerInfo>, ring: seq<Mcs>, key: string, addr: string, addr': string)
    requires NoSharedPoint(ring) && AnswersFor(servers, ring, key, addr) && AnswersFor(servers, ring, key, addr')
    ensures addr == addr'
  {
    hide K.HashedPart, Number, Bytes, Md5Spec.Digest;
    var h: Hash, e: Mcs :| Answers(multiset(ring), h, e) && h == Number(Md5Spec.Digest(Bytes(K.HashedPart(key)))[..4])
      && e.ordinal < |servers| && addr == servers[e.ordinal].addr;
    var e': Mcs :| Answers(multiset(ring), h, e') && e'.ordinal < |servers| && addr' == servers[e'.ordinal].addr;
    SamePoint(ring, h, e, e');
  }

  lemma SamePoint(ring: seq<Mcs>, h: Hash, e: Mcs, e': Mcs)
    requires Answers(multiset(ring), h, e) && Answers(multiset(ring), h, e')
    ensures e in ring && e' in ring && e.point == e'.point
  {
    assert e in multiset(ring) && e' in multiset(ring);
  }

  /** command_GET reads the type of its first parameter without looking whether there is one. */
  predicate Answerable(o: Output) {
    o.Dispatch? && o.cmd.name == "GET" ==> o.params != []
  }

  /** command_proc with its two commands, and the replies to rejected lines. */
  ghost function Reply(servers: seq<ServerInfo>, ring: seq<Mcs>, o: Output): (m: Option<Message>)
    requires RingFits(servers, ring) && Answerable(o)
    ensures m.Some? ==> |m.value.params| < UINT16
  {
    match o
    case Reject(ErrFormat) => Some(ErrorMessage("1001", "Wrong message format."))
    case Reject(_) => Some(ErrorMessage("1002", "Wrong parameter format."))
    case Dispatch(cmd, params) =>
      if cmd.name == "GET" then
        if params[0].Kv? || servers == [] then None
        else Some(Message("NODE", [Str(AddressOf(servers, ring, params[0].value))]))
      else if cmd.name == "PING" then Some(Message("PONG", []))
      else Some(ErrorMessage("99", "Unknown command."))
  }

  /** The reply that names an address. */
  function NodeText(addr: string): string {
    "+NODE 1\r\n$" + CString(addr) + "\r\n"
  }

  lemma DecimalOne()
    ensures Text.Decimal(1) == "1"
  {
  }

  lemma NodeMessage(addr: string)
    ensures MessageText(Message("NODE", [Str(addr)])) == NodeText(addr)
  {
    hide Text.Decimal, CString;
    DecimalOne();
    assert CString("NODE") == "NODE" by { CStringFacts("NODE", ' '); }
    var params := [Str(addr)];
    assert params[1..] == [];
    assert ParamsText(params) == "$" + CString(addr) + "\r\n";
  }

  ghost function ReplyText(servers: seq<ServerInfo>, ring: seq<Mcs>, o: Output): string
    requires RingFits(servers, ring) && Answerable(o)
  {
    var m := Reply(servers, ring, o);
    if m.Some? then MessageText(m.value) else ""
  }

  ghost predicate AllAnswerable(os: seq<Output>) {
    forall o | o in os :: Answerable(o)
  }

  ghost function Replies(servers: seq<ServerInfo>, ring: seq<Mcs>, os: seq<Output>): string
    requires RingFits(servers, ring) && AllAnswerable(os)
  {
    if os == [] then "" else ReplyText(servers, ring, os[0]) + Replies(servers, ring, os[1..])
  }

  lemma {:induction false} RepliesAppend(servers: seq<ServerInfo>, ring: seq<Mcs>, a: seq<Output>, b: seq<Output>)
    requires RingFits(servers, ring) && AllAnswerable(a) && AllAnswerable(b)
    ensures AllAnswerable(a + b)
    ensures Replies(servers, ring, a + b) == Replies(servers, ring, a) + Replies(servers, ring, b)
  {
    hide ReplyText, Answerable;
    if a == [] {
      assert a + b == b;
    } else {
      RepliesAppend(servers, ring, a[1..], b);
      assert (a + b)[1..] == a[1..] + b;
    }
  }

  /** What is answered before the program fails: everything up to the first command it cannot answer. */
  ghost function Safe(os: seq<Output>): (s: seq<Output>)
    ensures AllAnswerable(s)
  {
    if os == [] || !Answerable(os[0]) then [] else [os[0]] + Safe(os[1..])
  }

  lemma {:induction false} SafeAll(os: seq<Output>)
    requires AllAnswerable(os)
    ensures Safe(os) == os
  {
    hide Answerable;
    if os != [] {
      SafeAll(os[1..]);
    }
  }

  lemma AllAppend(a: seq<Output>, b: seq<Output>)
    ensures AllAnswerable(a + b) <==> AllAnswerable(a) && AllAnswerable(b)
  {
    hide Answerable;
    assert forall o :: o in a + b <==> o in a || o in b;
  }

  lemma AllFirst(os: seq<Output>)
    requires os != []
    ensures AllAnswerable(os) <==> Answerable(os[0]) && AllAnswerable(os[1..])
  {
    hide Answerable;
    assert os == [os[0]] + os[1..];
    AllAppend([os[0]], os[1..]);
  }

  lemma {:induction false} SafeAppend(a: seq<Output>, b: seq<Output>)
    ensures Safe(a + b) == if AllAnswerable(a) then a + Safe(b) else Safe(a)
  {
    hide Answerable;
    if a == [] {
      assert a + b == b;
    } else {
      hide AllAnswerable;
      assert (a + b)[1..] == a[1..] + b;
      SafeAppend(a[1..], b);
      AllFirst(a);
      if AllAnswerable(a) {
        assert [a[0]] + (a[1..] + Safe(b)) == a + Safe(b);
      }
    }
  }

  /** What the outputs write, the program failing or not. */
  ghost function TextOf(servers: seq<ServerInfo>, ring: seq<Mcs>, os: seq<Output>): string
    requires RingFits(servers, ring)
  {
    Replies(servers, ring, Safe(os))
  }

  lemma TextOfAppend(servers: seq<ServerInfo>, ring: seq<Mcs>, a: seq<Output>, b: seq<Output>)
    requires RingFits(servers, ring)
    ensures AllAnswerable(a + b) <==> AllAnswerable(a) && AllAnswerable(b)
    ensures TextOf(servers, ring, a + b)
         == TextOf(servers, ring, a) + if AllAnswerable(a) then TextOf(servers, ring, b) else ""
  {
    hide Answerable, Replies;
    AllAppend(a, b);
    SafeAppend(a, b);
    if AllAnswerable(a) {
      SafeAll(a);
      RepliesAppend(servers, ring, a, Safe(b));
    }
  }

  // ---------- the input that makes the program fail ----------

  predicate IsBareGet(row: string) {
    || row == "+GET"
    || (|row| > 5 && row[..5] == "+GET " && AtoiUnsigned(row[5..]) > 0 && AtoiUnsigned(row[5..]) % UINT16 == 0)
  }

  lemma CutGet(row: string)
    requires |row| >= 5 && row[..5] == "+GET "
    ensures row[0] == '+' && row != "+GET"
    ensures
      var c := row[1..];
      Find(c, ' ') == 3 && |c| > 3 && c[..3] == "GET" && c[4..] == row[5..]
  {
    var c, rest := row[1..], row[5..];
    assert row[0] == row[..5][0] && row[1] == row[..5][1] && row[2] == row[..5][2] && row[3] == row[..5][3];
    assert row[4] == row[..5][4];
    assert c == "GET" + [' '] + rest;
    FindFirst("GET", ' ', rest);
    assert c[..3] == "GET";
  }

  lemma FoundGet(row: string)
    requires row != [] && row[0] == '+' && !(|row| >= 5 && row[..5] == "+GET ")
    ensures
      var c := row[1..];
      Find(c, ' ') < |c| ==> c[..Find(c, ' ')] != "GET"
  {
    FindMeaning(row[1..], ' ');
  }

  /** The rows that announce a GET and wait for no parameter. */
  lemma BareGet(row: string)
    ensures ParseCmd(row) == Some(Cmd("GET", 0)) <==> IsBareGet(row)
  {
    hide AtoiUnsigned, Find;
    if row != [] && row[0] == '+' {
      var c := row[1..];
      FindMeaning(c, ' ');
      assert c[..|c|] == c && (row == "+GET" <==> c == "GET");
      if |row| >= 5 && row[..5] == "+GET " {
        CutGet(row);
      } else {
        FoundGet(row);
        assert c == "GET" ==> ' ' !in c;
        FindFound(c, ' ');
      }
    } else if |row| > 5 && row[..5] == "+GET " {
      CutGet(row);
    }
  }

  lemma Decimal65536()
    ensures Text.Decimal(65536) == "65536"
  {
    hide Text.Decimal;
    Text.DecimalStep(65536);
    Text.DecimalStep(6553);
    Text.DecimalStep(655);
    Text.DecimalStep(65);
    DecimalSix();
  }

  lemma DecimalSix()
    ensures Text.Decimal(6) == "6"
  {
  }

  /** Two such rows: one without a count, one with a count that 16 bits cannot hold. */
  lemma FailingRows()
    ensures ParseCmd("+GET") == Some(Cmd("GET", 0))
    ensures ParseCmd("+GET 65536") == Some(Cmd("GET", 0))
  {
    hide AtoiUnsigned, ParseCmd, Text.Decimal;
    BareGet("+GET");
    Decimal65536();
    AtoiOfDecimal(65536);
    assert "+GET 65536"[5..] == "65536" && "+GET 65536"[..5] == "+GET ";
    BareGet("+GET 65536");
  }

  /** A line makes the program fail if and only if it comes between messages and is such a row. */
  lemma FailingLine(st: MsgState, line: string)
    requires BetweenLines(st)
    ensures !AllAnswerable(HandleLine(st, line).1)
       <==> st == IDLE && ParseCmd(CString(line)) == Some(Cmd("GET", 0))
  {
    hide ParseCmd, ParseParam, CString;
    HandleLineInvariant(st, line);
    var os := HandleLine(st, line).1;
    if st == IDLE && ParseCmd(CString(line)) == Some(Cmd("GET", 0)) {
      assert os == [Dispatch(Cmd("GET", 0), [])];
      assert !Answerable(os[0]);
    }
  }

  /** No line that comes between messages announces a GET without parameters. */
  ghost predicate NoBareGet(st: MsgState, buf: string)
    requires BetweenLines(st)
    decreases |buf|
  {
    var i := Find(buf, '\n');
    i == |buf| ||
    var line := StripCr(buf[..i]);
    HandleLineInvariant(st, line);
    && !(st == IDLE && ParseCmd(CString(line)) == Some(Cmd("GET", 0)))
    && NoBareGet(HandleLine(st, line).0, buf[i + 1..])
  }

  /** Exactly those streams are answered to their end. */
  lemma {:induction false} AnsweredToTheEnd(st: MsgState, buf: string)
    requires BetweenLines(st)
    ensures AllAnswerable(Drain(st, buf).1) <==> NoBareGet(st, buf)
    decreases |buf|
  {
    hide HandleLine, BetweenLines, ParseCmd, CString, StripCr, Answerable;
    var i := Find(buf, '\n');
    if i == |buf| {
      DrainNoLine(st, buf);
    } else {
      var line := StripCr(buf[..i]);
      DrainOneLine(st, buf);
      FailingLine(st, line);
      AnsweredToTheEnd(HandleLine(st, line).0, buf[i + 1..]);
      AllAppend(HandleLine(st, line).1, Drain(HandleLine(st, line).0, buf[i + 1..]).1);
    }
  }

  // ---------- commands ----------

  method RespondError(buf: MsgBuf, no: string, error: string) returns (text: string)
    requires buf.Valid()
    modifies buf
    ensures buf.Valid() && buf.Outstanding() == old(buf.Outstanding())
    ensures text == MessageText(ErrorMessage(no, error))
  {
    text := Respond(buf, ErrorMessage(no, error));
  }

  /** The servers and the ring of a router that can answer. */
  ghost predicate Configured(ketama: K.Ketama, servers: seq<ServerInfo>, ring: seq<Mcs>)
    reads ketama, ketama.servers, ketama.continuum
    ensures Configured(ketama, servers, ring) ==> RingFits(servers, ring)
  {
    ketama.CanSearch() && servers == ketama.adds && ring == ketama.Ring() && RingFits(servers, ring)
  }

  /** command_GET; it fails without a parameter. */
  method CommandGet(ketama: K.Ketama, buf: MsgBuf, params: seq<Param>) returns (ok: bool, text: string)
    requires ketama.CanSearch() && buf.Valid()
    modifies buf
    ensures buf.Valid() && buf.Outstanding() == old(buf.Outstanding())
    ensures RingFits(ketama.adds, ketama.Ring())
    ensures ok <==> params != []
    ensures text ==
      if params == [] || params[0].Kv? || ketama.adds == [] then ""
      else MessageText(Message("NODE", [Str(AddressOf(ketama.adds, ketama.Ring(), params[0].value))]))
    ensures params != [] && params[0].Str? && ketama.adds != [] && ketama.Ring() != [] ==>
      exists addr :: AnswersFor(ketama.adds, ketama.Ring(), params[0].value, addr) && text == NodeText(addr)
  {
    hide MsgBuf.Valid, K.KeyHash, Owner, MessageText, AnswersFor, NodeText;
    RingAlwaysFits(ketama);
    if params == [] {
      return false, "";
    }
    if params[0].Kv? {
      return true, "";
    }
    if ketama.numservers <= 0 {
      return true, "";
    }
    var ordinal, _, fits := ketama.GetServerOrdinal(params[0].value);
    assert fits;
    var address := ketama.GetServerAddress(ordinal);
    text := Respond(buf, Message("NODE", [Str(address)]));
    if ketama.continuum != null {
      ketama.RingFacts(ketama.Ring());
      AddressAnswers(ketama.adds, ketama.Ring(), params[0].value);
      NodeMessage(address);
    }
    ok := true;
  }

  lemma RingAlwaysFits(ketama: K.Ketama)
    requires ketama.CanSearch()
    ensures RingFits(ketama.adds, ketama.Ring())
  {
    if ketama.continuum != null {
      ketama.RingFacts(ketama.Ring());
    }
  }

  /** command_proc */
  method CommandProc(ketama: K.Ketama, buf: MsgBuf, cmd: Cmd, params: seq<Param>) returns (ok: bool, text: string)
    requires ketama.CanSearch() && buf.Valid()
    modifies buf
    ensures buf.Valid() && buf.Outstanding() == old(buf.Outstanding())
    ensures RingFits(ketama.adds, ketama.Ring())
    ensures ok <==> Answerable(Dispatch(cmd, params))
    ensures text == TextOf(ketama.adds, ketama.Ring(), [Dispatch(cmd, params)])
  {
    hide MsgBuf.Valid, AddressOf, MessageText, K.Ketama.Valid, K.Ketama.Ring;
    RingAlwaysFits(ketama);
    ghost var o := Dispatch(cmd, params);
    OneAnswer(ketama.adds, ketama.Ring(), o);
    ok := true;
    if cmd.name == "GET" {
      ok, text := CommandGet(ketama, buf, params);
    } else if cmd.name == "PING" {
      text := Respond(buf, Message("PONG", []));
    } else {
      text := RespondError(buf, "99", "Unknown command.");
    }
  }

  lemma OneAnswer(servers: seq<ServerInfo>, ring: seq<Mcs>, o: Output)
    requires RingFits(servers, ring)
    ensures AllAnswerable([o]) <==> Answerable(o)
    ensures TextOf(servers, ring, [o]) == if Answerable(o) then ReplyText(servers, ring, o) else ""
  {
    hide Answerable, ReplyText;
    assert [o][1..] == [];
    assert Safe([o]) == if Answerable(o) then [o] else [];
    if Answerable(o) {
      assert Replies(servers, ring, [o]) == ReplyText(servers, ring, o) + "" == ReplyText(servers, ring, o);
    }
  }

  // ---------- connections ----------

  /** The rejected lines among the outputs; nobody frees the buffers of their rows. */
  function Rejects(os: seq<Output>): nat {
    if os == [] then 0 else (if os[0].Reject? then 1 else 0) + Rejects(os[1..])
  }

  lemma {:induction false} RejectsAppend(a: seq<Output>, b: seq<Output>)
    ensures Rejects(a + b) == Rejects(a) + Rejects(b)
  {
    if a == [] {
      assert a + b == b;
    } else {
      assert (a + b)[1..] == a[1..] + b;
      RejectsAppend(a[1..], b);
    }
  }

  /** One buffer is lost for every rejected line. */
  ghost predicate Lost(leaked: set<Addr>, os: seq<Output>, others: Ledger) {
    leaked !! others.rows && |leaked| == Rejects(os)
  }

  /** evbuffer_readln: the next line and what is left of the buffer. */
  predicate IsNextLine(buf: string, line: Option<string>, left: string) {
    var i := Find(buf, '\n');
    if i == |buf| then line == None && left == buf else line == Some(StripCr(buf[..i])) && left == buf[i + 1..]
  }

  /** What has been put out so far, and the lines still to come, are what draining gives. */
  ghost predicate SoFar(st: MsgState, all: string, now: MsgState, rest: string, os: seq<Output>)
    requires BetweenLines(st) && BetweenLines(now)
  {
    var (last, more, left) := Drain(now, rest);
    Drain(st, all) == (last, os + more, left)
  }

  lemma SoFarNothing(st: MsgState, all: string)
    requires BetweenLines(st)
    ensures SoFar(st, all, st, all, [])
  {
    hide Drain;
    assert [] + Drain(st, all).1 == Drain(st, all).1;
  }

  lemma {:induction false} SoFarOneLine(st: MsgState, all: string, now: MsgState, rest: string, os: seq<Output>,
      line: string, left: string)
    requires BetweenLines(st) && BetweenLines(now) && SoFar(st, all, now, rest, os)
    requires IsNextLine(rest, Some(line), left)
    ensures
      var (next, more) := HandleLine(now, line);
      && BetweenLines(next) && SoFar(st, all, next, left, os + more)
      && Drain(st, all).1 == os + more + Drain(next, left).1
  {
    hide Drain, HandleLine, BetweenLines, StripCr, Find;
    DrainOneLine(now, rest);
    var (next, more) := HandleLine(now, line);
    assert os + (more + Drain(next, left).1) == (os + more) + Drain(next, left).1;
  }

  lemma {:induction false} SoFarAll(st: MsgState, all: string, now: MsgState, rest: string, os: seq<Output>,
      left: string)
    requires BetweenLines(st) && BetweenLines(now) && SoFar(st, all, now, rest, os) && IsNextLine(rest, None, left)
    ensures Drain(st, all) == (now, os, left)
  {
    hide Drain, BetweenLines, StripCr, Find;
    DrainNoLine(now, rest);
    assert os + [] == os;
  }

  lemma ShorterRest(buf: string, line: Option<string>, left: string)
    requires IsNextLine(buf, line, left)
    ensures |left| <= |buf| && (line.Some? ==> |left| < |buf|)
  {
  }

  lemma NothingLost(others: Ledger)
    ensures Lost({}, [], others)
  {
  }

  lemma {:induction false} LostGrows(a: set<Addr>, b: set<Addr>, row: Addr, os: seq<Output>, more: seq<Output>,
      others: Ledger)
    requires Lost(a, os, others) && b <= {row} && |b| == Rejects(more) && row !in a && row !in others.rows
    ensures Lost(a + b, os + more, others)
  {
    RejectsAppend(os, more);
    assert a !! b;
  }

  lemma SplitNone(total: Ledger, others: Ledger)
    ensures Split(total, others, NOTHING) <==> total == others
  {
  }

  /** A message's own object may stand with the others or with its parts. */
  lemma SplitSelf(total: Ledger, others: Ledger, self: Addr, parts: Ledger)
    requires parts.msgs == {}
    ensures
      var own := Ledger({}, {}, {}, {}, {self}, {});
      Split(total, others, own.Plus(parts)) <==> self !in others.msgs && Split(total, others.Plus(own), parts)
  {
  }

  /** A buffer that was just given out is apart from everything held. */
  lemma SplitFresh(total: Ledger, before: Ledger, others: Ledger, own: Ledger, parts: Ledger, row: Addr)
    requires Split(before, others.Plus(own), parts) && Split(total, before, Rows({row})) && own.rows == {}
    ensures row !in others.rows && Split(total, others.Plus(own).Plus(Rows({row})), parts)
    ensures others.Plus(own).Plus(Rows({row})) == others.Plus(Rows({row})).Plus(own)
  {
  }

  lemma RowsAdd(others: Ledger, a: set<Addr>, b: set<Addr>)
    ensures others.Plus(Rows(a)).Plus(Rows(b)) == others.Plus(Rows(a + b)) && others.Plus(Rows({})) == others
  {
  }

  class Client {
    const ketama: K.Ketama
    const buf: MsgBuf
    var msg: Msg?
    var evbuf: string

    function State(): Conn
      reads this, msg
    {
      Conn(if msg == null then IDLE else msg.State(), evbuf)
    }

    /** The outstanding objects are those of this client's message and `others`. */
    ghost predicate Live(others: Ledger)
      reads this, buf, msg
    {
      if msg == null then buf.Valid() && buf.Outstanding() == others else msg.buf == buf && msg.Live(others)
    }

    /** What the message of this client holds, its own object included. */
    ghost function Holding(): Ledger
      reads this, msg
    {
      if msg == null then NOTHING else msg.Self().Plus(msg.Holds())
    }

    ghost predicate Sound()
      reads this, msg
    {
      msg != null ==> msg.buf == buf && msg.Whole()
    }

    /** Live in terms of what is held. */
    lemma LiveIsSplit(others: Ledger)
      ensures Live(others) <==> buf.Valid() && Sound() && Split(buf.Outstanding(), others, Holding())
    {
      hide MsgBuf.Valid, ParamsHold, ParamsApart, CmdHolds, Split, Ledger.Plus, Ledger.Disjoint;
      if msg == null {
        SplitNone(buf.Outstanding(), others);
      } else if msg.Whole() {
        HoldingCounts(msg.cmd, msg.params);
        SplitSelf(buf.Outstanding(), others, msg.self, msg.Holds());
      }
    }

    /** client_init */
    constructor (ketama: K.Ketama, buf: MsgBuf)
      ensures this.ketama == ketama && this.buf == buf && msg == null
      ensures State() == Conn(IDLE, "") && Ready(State()) && Holding() == NOTHING && Sound()
    {
      this.ketama, this.buf := ketama, buf;
      msg, evbuf := null, "";
    }

    /** There is a message between two lines. */
    ghost predicate Reading(others: Ledger)
      reads this, buf, msg
    {
      msg != null && msg.buf == buf && msg.Live(others) && BetweenLines(msg.State())
    }

    /** The message, and the row of a line that nobody holds yet. */
    ghost predicate ReadingRow(row: Addr, others: Ledger)
      reads this, buf, msg
    {
      && msg != null && msg.buf == buf && msg.self !in others.msgs && BetweenLines(msg.State())
      && msg.Given(row, others.Plus(msg.Self()))
    }

    /** evbuffer_readln with EVBUFFER_EOL_CRLF: the line is in a new buffer. */
    method ReadLine(ghost others: Ledger) returns (line: Option<string>, row: Addr)
      requires Reading(others)
      modifies `evbuf, buf
      ensures msg.State() == old(msg.State())
      ensures line == None ==> Reading(others)
      ensures line.Some? ==> ReadingRow(row, others)
      ensures IsNextLine(old(evbuf), line, evbuf)
    {
      hide MsgBuf.Valid, Ledger.Plus, Ledger.Disjoint, Split, Find, StripCr, BetweenLines, CmdHolds, ParamsHold;
      line, row := None, 0;
      var i := Find(evbuf, '\n');
      if i == |evbuf| {
        return;
      }
      ghost var before := buf.Outstanding();
      row := buf.NewRow();
      SplitFresh(buf.Outstanding(), before, others, msg.Self(), msg.Holds(), row);
      assert row !in others.Plus(msg.Self()).rows by { SelfHasNoRows(others); }
      line := Some(StripCr(evbuf[..i]));
      evbuf := evbuf[i + 1..];
    }

    lemma SelfHasNoRows(others: Ledger)
      requires msg != null
      ensures others.Plus(msg.Self()).rows == others.rows
    {
    }

    /** A rejected line: the message is emptied and the error answered; the row stays with nobody. */
    method RejectLine(why: DecodeResult, row: Addr, ghost others: Ledger,
        ghost servers: seq<ServerInfo>, ghost ring: seq<Mcs>)
      returns (text: string)
      requires ReadingRow(row, others) && !why.Ok? && Configured(ketama, servers, ring)
      modifies msg, buf
      ensures Reading(others.Plus(Rows({row}))) && msg.State() == IDLE
      ensures text == TextOf(servers, ring, [Reject(why)])
    {
      hide MsgBuf.Valid, Values, Ledger.Plus, Ledger.Disjoint, Split, CmdHolds, K.Ketama.CanSearch, K.Ketama.Ring;
      hide MessageText, ReplyText;
      RejectText(servers, ring, why);
      RowWithOthers(others, row);
      msg.Clean(others.Plus(Rows({row})).Plus(msg.Self()));
      if why.ErrFormat? {
        text := RespondError(buf, "1001", "Wrong message format.");
      } else {
        text := RespondError(buf, "1002", "Wrong parameter format.");
      }
    }

    lemma RowWithOthers(others: Ledger, row: Addr)
      requires msg != null
      ensures others.Plus(msg.Self()).Plus(Rows({row})) == others.Plus(Rows({row})).Plus(msg.Self())
      ensures others.Plus(Rows({row})).msgs == others.msgs
    {
    }

    /** A complete message is answered, then cleaned, unless answering fails. */
    method ProcessMessage(ghost others: Ledger, ghost servers: seq<ServerInfo>, ghost ring: seq<Mcs>)
      returns (ok: bool, text: string, ghost o: Output)
      requires msg != null && msg.buf == buf && msg.Live(others) && msg.cmd.Some? && Configured(ketama, servers, ring)
      modifies msg, buf
      ensures o == Dispatch(old(msg.cmd.value.value), old(Values(msg.params)))
      ensures ok <==> AllAnswerable([o])
      ensures ok ==> Reading(others) && msg.State() == IDLE
      ensures text == TextOf(servers, ring, [o])
    {
      hide MsgBuf.Valid, Values, Ledger.Plus, Ledger.Disjoint, Split, CmdHolds, K.Ketama.CanSearch, K.Ketama.Ring;
      hide Answerable, TextOf;
      o := Dispatch(msg.cmd.value.value, Values(msg.params));
      OneAnswer(servers, ring, o);
      ok, text := CommandProc(ketama, buf, msg.cmd.value.value, Values(msg.params));
      if ok {
        msg.Clean(others.Plus(msg.Self()));
      }
    }

    /** The body of the line loop; `leaked` is the buffer of a rejected row. */
    method ProcessLine(line: string, row: Addr, ghost others: Ledger,
        ghost servers: seq<ServerInfo>, ghost ring: seq<Mcs>)
      returns (ok: bool, text: string, ghost outputs: seq<Output>, ghost leaked: set<Addr>)
      requires ReadingRow(row, others) && Configured(ketama, servers, ring)
      modifies msg, buf
      ensures outputs == HandleLine(old(msg.State()), line).1 && (ok <==> AllAnswerable(outputs))
      ensures ok ==> Reading(others.Plus(Rows(leaked))) && msg.State() == HandleLine(old(msg.State()), line).0
      ensures leaked <= {row} && |leaked| == Rejects(outputs)
      ensures text == TextOf(servers, ring, outputs)
    {
      hide MsgBuf.Valid, Values, Ledger.Plus, Ledger.Disjoint, Split, CmdHolds, Configured;
      hide Answerable, AllAnswerable, TextOf, HandleLine, DecodeRow, BetweenLines, CString, Msg.Owns;
      ghost var st := msg.State();
      HandleLineInvariant(st, line);
      LineOutcome(st, line);
      RowsAdd(others, {}, {});
      ok, text, outputs, leaked := true, "", [], {};
      var res := msg.DecoderRun(CString(line), row, others.Plus(msg.Self()));
      OneAnswer(servers, ring, Reject(res));
      NoAnswer(servers, ring);
      ghost var decoded := msg.State();
      match res {
        case Ok =>
        case _ =>
          text := RejectLine(res, row, others, servers, ring);
          outputs, leaked := [Reject(res)], {row};
          RejectIsAnswerable(Reject(res));
      }
      assert msg.State() == if res.Ok? then decoded else IDLE;
      match msg.stat {
        case Done =>
          if msg.cmd.Some? {
            ghost var o;
            ok, text, o := ProcessMessage(others, servers, ring);
            outputs := [o];
          }
        case _ =>
      }
    }

    lemma RowIsNew(row: Addr, others: Ledger, leaked: set<Addr>)
      requires ReadingRow(row, others.Plus(Rows(leaked)))
      ensures row !in leaked && row !in others.rows
    {
      hide Msg.Owns, BetweenLines;
    }

    /** The line loop. */
    method ReadLines(ghost others: Ledger, ghost servers: seq<ServerInfo>, ghost ring: seq<Mcs>)
      returns (ok: bool, text: string, ghost outputs: seq<Output>, ghost leaked: set<Addr>)
      requires Reading(others) && msg != null && BetweenLines(msg.State()) && Configured(ketama, servers, ring)
      modifies `evbuf, msg, buf
      ensures outputs == Drain(old(msg.State()), old(evbuf)).1 && (ok <==> AllAnswerable(outputs))
      ensures ok ==> Reading(others.Plus(Rows(leaked)))
      ensures ok ==> (msg.State(), outputs, evbuf) == Drain(old(msg.State()), old(evbuf))
      ensures ok ==> Lost(leaked, outputs, others)
      ensures text == TextOf(servers, ring, outputs)
    {
      hide HandleLine, Drain, IsNextLine, SoFar, MsgBuf.Valid, Msg.Owns, Msg.Given, BetweenLines;
      hide Configured, AllAnswerable, TextOf, Ledger.Plus, Lost, Reading, ReadingRow;
      ghost var st, all := msg.State(), evbuf;
      NoAnswer(servers, ring);
      RowsAdd(others, {}, {});
      NothingLost(others);
      SoFarNothing(st, all);
      ok, text, outputs, leaked := true, "", [], {};
      ghost var rest := evbuf;
      var line, row := ReadLine(others);
      while line.Some?
        invariant BetweenLines(msg.State()) && SoFar(st, all, msg.State(), rest, outputs)
        invariant if line.Some? then ReadingRow(row, others.Plus(Rows(leaked))) else Reading(others.Plus(Rows(leaked)))
        invariant IsNextLine(rest, line, evbuf) && Lost(leaked, outputs, others)
        invariant ok && AllAnswerable(outputs) && text == TextOf(servers, ring, outputs)
        decreases if line.Some? then |evbuf| + 1 else 0
      {
        SoFarOneLine(st, all, msg.State(), rest, outputs, line.value, evbuf);
        ghost var later := Drain(HandleLine(msg.State(), line.value).0, evbuf).1;
        ghost var os;
        ghost var own;
        var part: string;
        RowIsNew(row, others, leaked);
        ok, part, os, own := ProcessLine(line.value, row, others.Plus(Rows(leaked)), servers, ring);
        TextOfAppend(servers, ring, outputs, os);
        LostGrows(leaked, own, row, outputs, os, others);
        RowsAdd(others, leaked, own);
        leaked, text, outputs := leaked + own, text + part, outputs + os;
        if !ok {
          TextOfAppend(servers, ring, outputs, later);
          outputs := outputs + later;
          return;
        }
        rest := evbuf;
        line, row := ReadLine(others.Plus(Rows(leaked)));
        ShorterRest(rest, line, evbuf);
      }
      SoFarAll(st, all, msg.State(), rest, outputs, evbuf);
    }

    /**
     * client_event_read: the replies, the next state and the pools are those of the specification, unless the
     * program fails; the buffers of rejected rows, and no others, stay outstanding with nobody to free them.
     */
    method EventRead(bytes: string, ghost others: Ledger, ghost servers: seq<ServerInfo>, ghost ring: seq<Mcs>)
      returns (ok: bool, text: string, ghost outputs: seq<Output>, ghost leaked: set<Addr>)
      requires Live(others) && Ready(State()) && Configured(ketama, servers, ring)
      modifies this, msg, buf
      ensures if old(msg) == null then fresh(msg) else msg == old(msg)
      ensures outputs == Receive(old(State()), bytes).1 && (ok <==> AllAnswerable(outputs))
      ensures ok ==> Live(others.Plus(Rows(leaked))) && Ready(State()) && State() == Receive(old(State()), bytes).0
      ensures ok ==> Lost(leaked, outputs, others)
      ensures text == TextOf(servers, ring, outputs)
    {
      hide BetweenLines, Msg.Live, Drain, Configured, MsgBuf.Valid, AllAnswerable, TextOf;
      DrainInvariant(State().msg, evbuf + bytes);
      if msg == null {
        msg := InitMsg(buf);
      }
      evbuf := evbuf + bytes;
      ok, text, outputs, leaked := ReadLines(others, servers, ring);
    }

    /** The same in terms of what this client and the others hold. */
    method ReadShare(bytes: string, ghost others: Ledger, ghost c: Conn,
        ghost servers: seq<ServerInfo>, ghost ring: seq<Mcs>)
      returns (ok: bool, text: string, ghost leaked: set<Addr>)
      requires buf.Valid() && Sound() && Split(buf.Outstanding(), others, Holding())
      requires c == State() && Ready(c) && Configured(ketama, servers, ring)
      modifies this, msg, buf
      ensures if old(msg) == null then fresh(msg) else msg == old(msg)
      ensures ok <==> AllAnswerable(Receive(c, bytes).1)
      ensures ok ==> buf.Valid() && Sound() && Split(buf.Outstanding(), others.Plus(Rows(leaked)), Holding())
      ensures ok ==> State() == Receive(c, bytes).0 && Ready(State()) && Lost(leaked, Receive(c, bytes).1, others)
      ensures text == TextOf(servers, ring, Receive(c, bytes).1)
    {
      hide MsgBuf.Valid, Live, Sound, Holding, Ready, Receive, Configured, AllAnswerable, TextOf, Split, Lost;
      LiveIsSplit(others);
      ghost var outputs;
      ok, text, outputs, leaked := EventRead(bytes, others, servers, ring);
      if ok {
        LiveIsSplit(others.Plus(Rows(leaked)));
      }
    }

    /** client_free */
    method Free(ghost others: Ledger)
      requires Live(others)
      modifies msg, buf
      ensures buf.Valid() && buf.Outstanding() == others
    {
      hide Msg.Owns, MsgBuf.Valid;
      if msg != null {
        msg.Free(others);
      }
    }
  }

  /** What a line gives, from what the decoder makes of it. */
  lemma LineOutcome(st: MsgState, line: string)
    requires BetweenLines(st)
    ensures
      var (decoded, result) := DecodeRow(st, CString(line));
      HandleLine(st, line) ==
        if !result.Ok? then (IDLE, [Reject(result)])
        else if decoded.stat.Done? && decoded.cmd.Some? then (IDLE, [Dispatch(decoded.cmd.value, decoded.params)])
        else (decoded, [])
    ensures !DecodeRow(st, CString(line)).1.Ok? ==> DecodeRow(st, CString(line)).0 == st
  {
    hide ParseCmd, ParseParam, CString;
    var decoded := DecodeRow(st, CString(line)).0;
    if decoded.cmd.Some? {
      assert [] + [Dispatch(decoded.cmd.value, decoded.params)] == [Dispatch(decoded.cmd.value, decoded.params)];
    }
  }

  lemma RejectText(servers: seq<ServerInfo>, ring: seq<Mcs>, why: DecodeResult)
    requires RingFits(servers, ring)
    ensures TextOf(servers, ring, [Reject(why)]) == MessageText(
      if why.ErrFormat? then ErrorMessage("1001", "Wrong message format.")
      else ErrorMessage("1002", "Wrong parameter format."))
  {
    hide MessageText;
    OneAnswer(servers, ring, Reject(why));
  }

  lemma RejectIsAnswerable(o: Output)
    requires o.Reject?
    ensures Answerable(o)
  {
  }

  lemma NoAnswer(servers: seq<ServerInfo>, ring: seq<Mcs>)
    requires RingFits(servers, ring)
    ensures TextOf(servers, ring, []) == "" && AllAnswerable([])
  {
  }

  /** The reads of a connection, one after the other, up to the end or to the failure of the program. */
  method ReadAll(client: Client, chunks: seq<string>, ghost others: Ledger,
        ghost servers: seq<ServerInfo>, ghost ring: seq<Mcs>)
    returns (ok: bool, text: string, ghost outputs: seq<Output>, ghost leaked: set<Addr>)
    requires client.Live(others) && Ready(client.State())
    requires Configured(client.ketama, servers, ring)
    modifies client, client.msg, client.buf
    ensures if old(client.msg) == null then client.msg == null || fresh(client.msg) else client.msg == old(client.msg)
    ensures outputs == ReceiveAll(old(client.State()), chunks).1 && (ok <==> AllAnswerable(outputs))
    ensures ok ==> client.Live(others.Plus(Rows(leaked))) && Ready(client.State()) && Lost(leaked, outputs, others)
    ensures ok ==> client.State() == ReceiveAll(old(client.State()), chunks).0
    ensures text == TextOf(servers, ring, outputs)
  {
    hide Ready, Receive, ReceiveAll, Client.Live, Client.State, Configured, MsgBuf.Valid, AllAnswerable, TextOf;
    hide Ledger.Plus, Lost;
    ghost var start := client.State();
    ok, text, outputs, leaked := true, "", [], {};
    NoAnswer(servers, ring);
    NothingLost(others);
    RowsAdd(others, {}, {});
    assert chunks[0..] == chunks;
    assert [] + ReceiveAll(start, chunks).1 == ReceiveAll(start, chunks).1;
    for i := 0 to |chunks|
      invariant
        if old(client.msg) == null then client.msg == null || fresh(client.msg) else client.msg == old(client.msg)
      invariant client.Live(others.Plus(Rows(leaked))) && Ready(client.State())
      invariant
        var (last, more) := ReceiveAll(client.State(), chunks[i..]);
        ReceiveAll(start, chunks) == (last, outputs + more)
      invariant ok && AllAnswerable(outputs) && text == TextOf(servers, ring, outputs) && Lost(leaked, outputs, others)
    {
      ghost var rest := chunks[i..];
      assert rest[0] == chunks[i] && rest[1..] == chunks[i + 1..];
      ghost var before := outputs;
      ReceiveFirst(client.State(), rest);
      ghost var later := ReceiveAll(Receive(client.State(), chunks[i]).0, rest[1..]).1;
      ghost var os;
      ghost var own;
      var part: string;
      ok, part, os, own := client.EventRead(chunks[i], others.Plus(Rows(leaked)), servers, ring);
      TextOfAppend(servers, ring, outputs, os);
      assert before + (os + later) == (before + os) + later;
      text, outputs := text + part, outputs + os;
      if !ok {
        TextOfAppend(servers, ring, outputs, later);
        outputs := outputs + later;
        return;
      }
      LostMore(leaked, own, before, os, others);
      RowsAdd(others, leaked, own);
      leaked := leaked + own;
    }
    assert chunks[|chunks|..] == [];
    ReceiveNothing(client.State());
    assert outputs + [] == outputs;
  }

  lemma LostMore(a: set<Addr>, b: set<Addr>, os: seq<Output>, more: seq<Output>, others: Ledger)
    requires Lost(a, os, others) && Lost(b, more, others.Plus(Rows(a)))
    ensures Lost(a + b, os + more, others)
  {
    RejectsAppend(os, more);
    assert a !! b;
  }

  lemma {:induction false} ReceiveNothing(c: Conn)
    requires Ready(c)
    ensures ReceiveAll(c, []) == (c, [])
  {
  }

  lemma {:induction false} ReceiveFirst(c: Conn, chunks: seq<string>)
    requires Ready(c) && chunks != []
    ensures Ready(Receive(c, chunks[0]).0)
    ensures
      var (next, outputs) := Receive(c, chunks[0]);
      var (last, more) := ReceiveAll(next, chunks[1..]);
      ReceiveAll(c, chunks) == (last, outputs + more)
  {
    hide Drain;
    DrainInvariant(c.msg, c.buf + chunks[0]);
  }

  // ---------- a key comes in, an address goes out ----------

  function Gets(keys: seq<string>): (ms: seq<Message>)
    ensures |ms| == |keys|
  {
    seq(|keys|, i requires 0 <= i < |keys| => Message("GET", [Str(keys[i])]))
  }

  /** The bytes that ask for keys. */
  function GetTexts(keys: seq<string>): string {
    if keys == [] then "" else "+GET 1\r\n$" + keys[0] + "\r\n" + GetTexts(keys[1..])
  }

  lemma {:induction false} GetsText(keys: seq<string>)
    requires KeysFit(keys)
    ensures StreamText(Gets(keys)) == GetTexts(keys)
  {
    hide CString, Text.Decimal;
    if keys != [] {
      GetsText(keys[1..]);
      assert Gets(keys)[1..] == Gets(keys[1..]);
      GetMessage(keys[0]);
    }
  }

  lemma GetMessage(key: string)
    requires OneLine(key)
    ensures MessageText(Message("GET", [Str(key)])) == "+GET 1\r\n$" + key + "\r\n"
  {
    hide Text.Decimal, CString;
    DecimalOne();
    OneLineIsCString(key);
    OneLineIsCString("GET");
    var params := [Str(key)];
    assert params[1..] == [];
    assert ParamsText(params) == "$" + key + "\r\n";
  }

  function Nodes(servers: seq<ServerInfo>, ring: seq<Mcs>, keys: seq<string>): (ms: seq<Message>)
    requires RingFits(servers, ring)
    ensures |ms| == |keys|
  {
    seq(|keys|, i requires 0 <= i < |keys| => Message("NODE", [Str(AddressOf(servers, ring, keys[i]))]))
  }

  ghost predicate KeysFit(keys: seq<string>) {
    forall i | 0 <= i < |keys| :: OneLine(keys[i])
  }

  lemma GetsWellFormed(keys: seq<string>)
    requires KeysFit(keys)
    ensures forall m | m in Gets(keys) :: WellFormed(m)
  {
  }

  lemma {:induction false} RepliesToGets(servers: seq<ServerInfo>, ring: seq<Mcs>, keys: seq<string>)
    requires RingFits(servers, ring) && servers != []
    ensures AllAnswerable(Dispatches(Gets(keys))) && Rejects(Dispatches(Gets(keys))) == 0
    ensures Replies(servers, ring, Dispatches(Gets(keys))) == StreamText(Nodes(servers, ring, keys))
  {
    hide AddressOf, MessageText;
    if keys != [] {
      RepliesToGets(servers, ring, keys[1..]);
      assert Gets(keys)[1..] == Gets(keys[1..]);
      assert Nodes(servers, ring, keys)[1..] == Nodes(servers, ring, keys[1..]);
    }
  }

  /** Any keys, sent as GET messages and cut in any way, are answered with the addresses of their owners, in order. */
  method AnswerKeys(ketama: K.Ketama, buf: MsgBuf, keys: seq<string>, chunks: seq<string>,
        ghost servers: seq<ServerInfo>, ghost ring: seq<Mcs>)
    returns (text: string)
    requires Configured(ketama, servers, ring) && servers != [] && buf.Valid()
    requires KeysFit(keys) && Concat(chunks) == StreamText(Gets(keys))
    modifies buf
    ensures buf.Valid() && buf.Outstanding() == old(buf.Outstanding())
    ensures text == StreamText(Nodes(servers, ring, keys))
  {
    hide K.Ketama.CanSearch, K.Ketama.Ring, MsgBuf.Valid, Answerable, Replies, Gets, Nodes, StreamText, WellFormed;
    GetsWellFormed(keys);
    StreamRoundTrip(Gets(keys), chunks);
    RepliesToGets(servers, ring, keys);
    SafeAll(Dispatches(Gets(keys)));
    var client := new Client(ketama, buf);
    ghost var others := buf.Outstanding();
    var ok;
    ghost var outputs;
    ghost var leaked;
    ok, text, outputs, leaked := ReadAll(client, chunks, others, servers, ring);
    assert leaked == {};
    RowsAdd(others, {}, {});
    client.Free(others);
  }

  datatype Node = Node(addr: string, port: int, weight: nat)

  function Infos(nodes: seq<Node>): (servers: seq<ServerInfo>)
    ensures |servers| == |nodes|
  {
    seq(|nodes|, i requires 0 <= i < |nodes| =>
      ServerInfo(K.FormatAddress(nodes[i].addr, nodes[i].port), nodes[i].weight))
  }

  /** The ring of server_init. */
  method BuildRing(nodes: seq<Node>, rounding: seq<real>, ghost d: real) returns (ketama: K.Ketama)
    requires nodes != [] && 320 * |nodes| <= INT_MAX
    requires TotalWeight(Infos(nodes)) > 0 && ErrorsWithin(rounding, d, |nodes|)
    ensures fresh(ketama) && ketama.CanSearch() && ketama.adds == Infos(nodes)
    ensures K.Built(ketama.Ring(), Infos(nodes), rounding)
  {
    hide K.Built, K.FormatAddress, TotalWeight, ErrorsWithin;
    ketama := new K.Ketama();
    for i := 0 to |nodes|
      invariant ketama.Valid() && fresh(ketama) && (ketama.servers != null ==> fresh(ketama.servers))
      invariant ketama.continuum == null && ketama.adds == Infos(nodes)[..i]
    {
      ketama.AddServer(nodes[i].addr, nodes[i].port, nodes[i].weight);
    }
    assert Infos(nodes)[..|nodes|] == Infos(nodes);
    ketama.CreateContinuum(rounding, d);
  }

  function NodeTexts(addrs: seq<string>): string {
    if addrs == [] then "" else NodeText(addrs[0]) + NodeTexts(addrs[1..])
  }

  lemma {:induction false} NodesText(servers: seq<ServerInfo>, ring: seq<Mcs>, keys: seq<string>, addrs: seq<string>)
    requires RingFits(servers, ring)
    requires |addrs| == |keys| && forall i | 0 <= i < |keys| :: addrs[i] == AddressOf(servers, ring, keys[i])
    ensures StreamText(Nodes(servers, ring, keys)) == NodeTexts(addrs)
  {
    hide AddressOf, MessageText, NodeText;
    if keys != [] {
      NodeMessage(addrs[0]);
      NodesText(servers, ring, keys[1..], addrs[1..]);
      assert Nodes(servers, ring, keys)[1..] == Nodes(servers, ring, keys[1..]);
    }
  }

  /** The i-th address is stored for a server that answers for the i-th key on a ring of the servers. */
  ghost predicate NamesOwners(addrs: seq<string>, nodes: seq<Node>, rounding: seq<real>, ring: seq<Mcs>,
      keys: seq<string>)
  {
    && K.Built(ring, Infos(nodes), rounding) && |addrs| == |keys|
    && forall i | 0 <= i < |keys| :: AnswersFor(Infos(nodes), ring, keys[i], addrs[i])
  }

  lemma OwnersNamed(servers: seq<ServerInfo>, ring: seq<Mcs>, keys: seq<string>) returns (addrs: seq<string>)
    requires RingFits(servers, ring) && Sorted(ring) && ring != []
    ensures |addrs| == |keys| && forall i | 0 <= i < |keys| :: AnswersFor(servers, ring, keys[i], addrs[i])
    ensures StreamText(Nodes(servers, ring, keys)) == NodeTexts(addrs)
  {
    hide AddressOf, AnswersFor, Nodes, StreamText;
    addrs := seq(|keys|, i requires 0 <= i < |keys| => AddressOf(servers, ring, keys[i]));
    NodesText(servers, ring, keys, addrs);
    forall i | 0 <= i < |keys|
      ensures AnswersFor(servers, ring, keys[i], addrs[i])
    {
      AddressAnswers(servers, ring, keys[i]);
    }
  }

  /**
   * The router from end to end: the servers make a ring, a sorted permutation of their points, and the i-th reply
   * is "+NODE 1", a line end, "$", the stored address of a server that answers for the i-th key, and a line end.
   */
  method Serve(nodes: seq<Node>, rounding: seq<real>, ghost d: real, keys: seq<string>, chunks: seq<string>)
    returns (text: string)
    requires nodes != [] && 320 * |nodes| <= INT_MAX
    requires TotalWeight(Infos(nodes)) > 0 && ErrorsWithin(rounding, d, |nodes|)
    requires KeysFit(keys) && Concat(chunks) == GetTexts(keys)
    ensures exists ring, addrs :: NamesOwners(addrs, nodes, rounding, ring, keys) && text == NodeTexts(addrs)
  {
    GetsText(keys);
    hide K.Built, K.Ketama.Valid, K.Ketama.Ring, Infos, TotalWeight, ErrorsWithin;
    hide MsgBuf.Valid, StreamText, Nodes, Gets;
    var ketama := BuildRing(nodes, rounding, d);
    var buf := new MsgBuf();
    ghost var ring := ketama.Ring();
    assert ketama.adds != [];
    RingAlwaysFits(ketama);
    text := AnswerKeys(ketama, buf, keys, chunks, ketama.adds, ring);
    ghost var addrs := OwnersNamed(ketama.adds, ring, keys);
    assert NamesOwners(addrs, nodes, rounding, ring, keys);
  }
}
