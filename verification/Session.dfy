/**
 * A connection as a function of the bytes it receives: the buffer is cut into lines, each line moves the
 * message state machine, and complete messages are dispatched.
 */
module Session {
  import opened Common
  import opened Protocol
  import Text

  // ---------- the message state machine ----------

  datatype Stat = NoCmd | DataMore | Done

  datatype MsgState = MsgState(cmd: Option<Cmd>, params: seq<Param>, stat: Stat)

  const IDLE := MsgState(None, [], NoCmd)

  /** msg_set_cmd */
  function SetCmd(st: MsgState, c: Cmd): MsgState {
    st.(cmd := Some(c), stat := if c.count > 0 then DataMore else Done)
  }

  /** msg_add_param; the number of parameters is kept in 16 bits. */
  function AddParam(st: MsgState, p: Param): MsgState
    requires st.cmd.Some?
  {
    var params := st.params + [p];
    st.(params := params, stat := if |params| % UINT16 >= st.cmd.value.count then Done else DataMore)
  }

  /** decoder_run */
  function DecodeRow(st: MsgState, row: string): (MsgState, DecodeResult)
    requires st.stat.DataMore? ==> st.cmd.Some?
  {
    match st.stat
    case NoCmd =>
      (match ParseCmd(row)
       case None => (st, ErrFormat)
       case Some(c) => (SetCmd(st, c), Ok))
    case DataMore =>
      (match ParseParam(row)
       case None => (st, ErrParamFormat)
       case Some(p) => (AddParam(st, p), Ok))
    case Done => (st, Ok)
  }

  datatype Output = Dispatch(cmd: Cmd, params: seq<Param>) | Reject(why: DecodeResult)

  /** What holds whenever a line is about to be decoded: idle, or waiting for at least one more parameter. */
  predicate BetweenLines(st: MsgState) {
    || st == IDLE
    || (st.stat.DataMore? && st.cmd.Some? && |st.params| < st.cmd.value.count < UINT16)
  }

  /** One pass of the line loop: an error cleans the message, a complete message is dispatched and cleaned. */
  function HandleLine(st: MsgState, line: string): (MsgState, seq<Output>)
    requires BetweenLines(st)
  {
    var (decoded, result) := DecodeRow(st, CString(line));
    var (next, rejected) := if result.Ok? then (decoded, []) else (IDLE, [Reject(result)]);
    if next.stat.Done? && next.cmd.Some?
    then (IDLE, rejected + [Dispatch(next.cmd.value, next.params)])
    else (next, rejected)
  }

  ghost predicate Complete(o: Output) {
    o.Dispatch? ==> |o.params| == o.cmd.count < UINT16
  }

  /** The line loop keeps BetweenLines, and dispatches only with exactly the stored count of parameters. */
  lemma HandleLineInvariant(st: MsgState, line: string)
    requires BetweenLines(st)
    ensures BetweenLines(HandleLine(st, line).0)
    ensures |HandleLine(st, line).1| <= 1 && forall o | o in HandleLine(st, line).1 :: Complete(o)
    ensures |HandleLine(st, line).1| == 1 ==> HandleLine(st, line).0 == IDLE
    ensures HandleLine(st, line).1 == [] ==> HandleLine(st, line).0.stat.DataMore?
  {
    hide ParseParam, CString;
    CmdCount(CString(line));
  }

  lemma CmdCount(row: string)
    ensures ParseCmd(row).Some? ==> ParseCmd(row).value.count < UINT16
  {
    hide AtoiUnsigned, Find;
  }

  // ---------- what a line does, by its form ----------

  /** Between messages a command row is dispatched at once or waits for the parameters that it counts. */
  lemma CommandLine(line: string, c: Cmd)
    requires IsCmdRow(CString(line), c)
    ensures
      HandleLine(IDLE, line)
      == if c.count == 0 then (IDLE, [Dispatch(c, [])]) else (MsgState(Some(c), [], DataMore), [])
  {
    hide ParseCmd, ParseParam, CString, IsCmdRow;
    ParseCmdMeaning(CString(line), c);
    assert [] + [Dispatch(c, [])] == [Dispatch(c, [])];
  }

  /** Any other line is rejected. */
  lemma NoCommandLine(line: string)
    requires forall c :: !IsCmdRow(CString(line), c)
    ensures HandleLine(IDLE, line) == (IDLE, [Reject(ErrFormat)])
  {
    hide ParseCmd, ParseParam, CString, IsCmdRow;
    if ParseCmd(CString(line)).Some? {
      var c := ParseCmd(CString(line)).value;
      ParseCmdMeaning(CString(line), c);
      assert false;
    }
  }

  /** Within a message a parameter row is added; the last one that the command counts completes the message. */
  lemma ParameterLine(c: Cmd, params: seq<Param>, line: string, p: Param)
    requires |params| < c.count < UINT16 && IsParamRow(CString(line), p)
    ensures
      HandleLine(MsgState(Some(c), params, DataMore), line) ==
        if |params| + 1 == c.count then (IDLE, [Dispatch(c, params + [p])])
        else (MsgState(Some(c), params + [p], DataMore), [])
  {
    hide ParseCmd, ParseParam, CString, IsParamRow;
    ParseParamMeaning(CString(line), p);
    assert [] + [Dispatch(c, params + [p])] == [Dispatch(c, params + [p])];
  }

  /** Any other line is rejected, and the message with it. */
  lemma NoParameterLine(c: Cmd, params: seq<Param>, line: string)
    requires |params| < c.count < UINT16 && forall p :: !IsParamRow(CString(line), p)
    ensures HandleLine(MsgState(Some(c), params, DataMore), line) == (IDLE, [Reject(ErrParamFormat)])
  {
    hide ParseCmd, ParseParam, CString, IsParamRow;
    if ParseParam(CString(line)).Some? {
      var p := ParseParam(CString(line)).value;
      ParseParamMeaning(CString(line), p);
      assert false;
    }
  }

  // ---------- the byte stream ----------

  /** evbuffer_readln with EVBUFFER_EOL_CRLF: up to a line feed, without one carriage return before it. */
  function StripCr(line: string): string {
    if |line| > 0 && line[|line| - 1] == '\r' then line[..|line| - 1] else line
  }

  /** Handles every complete line of `buf`: the new state, the outputs and the bytes left over. */
  function Drain(st: MsgState, buf: string): (MsgState, seq<Output>, string)
    requires BetweenLines(st)
    decreases |buf|
  {
    var i := Find(buf, '\n');
    if i == |buf| then (st, [], buf) else
    HandleLineInvariant(st, StripCr(buf[..i]));
    var (next, outputs) := HandleLine(st, StripCr(buf[..i]));
    var (last, more, rest) := Drain(next, buf[i + 1..]);
    (last, outputs + more, rest)
  }

  datatype Conn = Conn(msg: MsgState, buf: string)

  predicate Ready(c: Conn) {
    BetweenLines(c.msg) && '\n' !in c.buf
  }

  /** client_event_read */
  function Receive(c: Conn, bytes: string): (Conn, seq<Output>)
    requires Ready(c)
  {
    var (st, outputs, rest) := Drain(c.msg, c.buf + bytes);
    (Conn(st, rest), outputs)
  }

  /** A line may end in a line feed or in a carriage return and a line feed. */
  lemma {:induction false} LineEnds(st: MsgState, line: string, more: string)
    requires BetweenLines(st) && '\n' !in line && (line != "" ==> line[|line| - 1] != '\r')
    ensures BetweenLines(HandleLine(st, line).0)
    ensures
      var (next, outputs) := HandleLine(st, line);
      var (last, rest, left) := Drain(next, more);
      && Drain(st, line + "\n" + more) == (last, outputs + rest, left)
      && Drain(st, line + "\r\n" + more) == (last, outputs + rest, left)
  {
    hide HandleLine, BetweenLines, Drain;
    HandleLineInvariant(st, line);
    DrainFirst(st, line, more);
    DrainFirst(st, line + "\r", more);
    assert line + "\r" + "\n" + more == line + "\r\n" + more;
    assert (line + "\r")[..|line|] == line;
  }

  lemma {:induction false} DrainFirst(st: MsgState, ended: string, more: string)
    requires BetweenLines(st) && '\n' !in ended
    ensures BetweenLines(HandleLine(st, StripCr(ended)).0)
    ensures
      var (next, outputs) := HandleLine(st, StripCr(ended));
      var (last, rest, left) := Drain(next, more);
      Drain(st, ended + "\n" + more) == (last, outputs + rest, left)
  {
    hide HandleLine, BetweenLines, StripCr;
    HandleLineInvariant(st, StripCr(ended));
    var buf := ended + "\n" + more;
    assert buf == ended + ['\n'] + more;
    FindFirst(ended, '\n', more);
    assert buf[..|ended|] == ended && buf[|ended| + 1..] == more;
  }

  lemma {:induction false} DrainInvariant(st: MsgState, buf: string)
    requires BetweenLines(st)
    ensures BetweenLines(Drain(st, buf).0) && '\n' !in Drain(st, buf).2
    ensures forall o | o in Drain(st, buf).1 :: Complete(o)
    decreases |buf|
  {
    hide HandleLine, Complete, BetweenLines;
    var i := Find(buf, '\n');
    FindFound(buf, '\n');
    if i < |buf| {
      HandleLineInvariant(st, StripCr(buf[..i]));
      DrainInvariant(HandleLine(st, StripCr(buf[..i])).0, buf[i + 1..]);
    }
  }

  lemma {:induction false} FindInPrefix(a: string, b: string, c: char)
    requires Find(a, c) < |a|
    ensures Find(a + b, c) == Find(a, c)
  {
    if a[0] != c {
      assert (a + b)[1..] == a[1..] + b;
      FindInPrefix(a[1..], b, c);
    }
  }

  /** Draining more bytes later is draining them together. */
  lemma {:induction false} DrainAppend(st: MsgState, a: string, b: string)
    requires BetweenLines(st)
    ensures BetweenLines(Drain(st, a).0)
    ensures
      var (st1, o1, r1) := Drain(st, a);
      var (st2, o2, r2) := Drain(st1, r1 + b);
      Drain(st, a + b) == (st2, o1 + o2, r2)
    decreases |a|
  {
    hide HandleLine, BetweenLines, Drain, StripCr;
    DrainInvariant(st, a);
    var i := Find(a, '\n');
    if i < |a| {
      FindInPrefix(a, b, '\n');
      assert (a + b)[..i] == a[..i] && (a + b)[i + 1..] == a[i + 1..] + b;
      HandleLineInvariant(st, StripCr(a[..i]));
      var (next, o) := HandleLine(st, StripCr(a[..i]));
      DrainAppend(next, a[i + 1..], b);
      DrainOneLine(st, a);
      DrainOneLine(st, a + b);
      var (st1, o1, r1) := Drain(next, a[i + 1..]);
      var o2 := Drain(st1, r1 + b).1;
      assert o + (o1 + o2) == (o + o1) + o2;
    } else {
      DrainNoLine(st, a);
      var o2 := Drain(st, a + b).1;
      assert [] + o2 == o2;
    }
  }

  lemma {:induction false} DrainNoLine(st: MsgState, buf: string)
    requires BetweenLines(st) && Find(buf, '\n') == |buf|
    ensures Drain(st, buf) == (st, [], buf)
  {
  }

  lemma {:induction false} DrainOneLine(st: MsgState, buf: string)
    requires BetweenLines(st) && Find(buf, '\n') < |buf|
    ensures
      var i := Find(buf, '\n');
      var (next, outputs) := HandleLine(st, StripCr(buf[..i]));
      && BetweenLines(next)
      && var (last, more, rest) := Drain(next, buf[i + 1..]);
      Drain(st, buf) == (last, outputs + more, rest)
  {
    hide HandleLine, BetweenLines, StripCr, Find, Complete;
    HandleLineInvariant(st, StripCr(buf[..Find(buf, '\n')]));
  }

  function ReceiveAll(c: Conn, chunks: seq<string>): (Conn, seq<Output>)
    requires Ready(c)
    decreases |chunks|
  {
    if chunks == [] then (c, []) else
    DrainInvariant(c.msg, c.buf + chunks[0]);
    var (next, outputs) := Receive(c, chunks[0]);
    var (last, more) := ReceiveAll(next, chunks[1..]);
    (last, outputs + more)
  }

  function Concat(chunks: seq<string>): string {
    if chunks == [] then "" else chunks[0] + Concat(chunks[1..])
  }

  /** How the network cuts the stream into reads makes no difference. */
  lemma {:induction false} ChunksDoNotMatter(c: Conn, chunks: seq<string>)
    requires Ready(c)
    ensures ReceiveAll(c, chunks) == Receive(c, Concat(chunks))
    decreases |chunks|
  {
    hide HandleLine, BetweenLines, Drain;
    if chunks == [] {
      FindFound(c.buf, '\n');
      DrainNoLine(c.msg, c.buf);
      assert c.buf + "" == c.buf;
    } else {
      DrainInvariant(c.msg, c.buf + chunks[0]);
      var next := Receive(c, chunks[0]).0;
      ChunksDoNotMatter(next, chunks[1..]);
      DrainAppend(c.msg, c.buf + chunks[0], Concat(chunks[1..]));
      assert c.buf + (chunks[0] + Concat(chunks[1..])) == c.buf + chunks[0] + Concat(chunks[1..]);
    }
  }

  // ---------- round trip ----------

  datatype Message = Message(name: string, params: seq<Param>)

  function CmdOf(m: Message): Cmd {
    Cmd(m.name, |m.params|)
  }

  function ParamsText(params: seq<Param>): string {
    if params == [] then "" else ParamRow(params[0]) + CRLF + ParamsText(params[1..])
  }

  /** What resp_msg writes. */
  function MessageText(m: Message): string {
    CmdRow(CmdOf(m)) + CRLF + ParamsText(m.params)
  }

  function StreamText(ms: seq<Message>): string {
    if ms == [] then "" else MessageText(ms[0]) + StreamText(ms[1..])
  }

  predicate OneLine(s: string) {
    '\n' !in s && '\0' !in s
  }

  predicate ParamWellFormed(p: Param) {
    match p
    case Str(value) => OneLine(value)
    case Kv(key, value) => OneLine(key) && OneLine(value) && '=' !in key
  }

  predicate NameWellFormed(name: string) {
    OneLine(name) && ' ' !in name
  }

  predicate Printable(m: Message) {
    && NameWellFormed(m.name) && |m.params| < UINT16
    && forall p | p in m.params :: ParamWellFormed(p)
  }

  predicate WellFormed(m: Message) {
    Printable(m) && (m.name != "" || m.params != [])
  }

  lemma {:induction false} DrainRow(st: MsgState, row: string, more: string)
    requires BetweenLines(st) && OneLine(row)
    ensures BetweenLines(HandleLine(st, row).0)
    ensures
      var (next, outputs) := HandleLine(st, row);
      var (last, rest, left) := Drain(next, more);
      Drain(st, row + CRLF + more) == (last, outputs + rest, left)
  {
    hide HandleLine, BetweenLines, Drain;
    HandleLineInvariant(st, row);
    DrainFirst(st, row + "\r", more);
    assert row + "\r" + "\n" + more == row + CRLF + more;
    assert (row + "\r")[..|row|] == row;
  }

  lemma OneLineIsCString(row: string)
    requires OneLine(row)
    ensures CString(row) == row
  {
    FindFound(row, '\0');
  }

  lemma ParamRowOneLine(p: Param)
    requires ParamWellFormed(p)
    ensures OneLine(ParamRow(p))
  {
    hide CString;
    match p {
      case Str(value) =>
        CStringFacts(value, '\n');
      case Kv(key, value) =>
        CStringFacts(key, '\n');
        CStringFacts(value, '\n');
    }
  }

  lemma CmdRowOneLine(m: Message)
    requires WellFormed(m)
    ensures OneLine(CmdRow(CmdOf(m)))
  {
    hide CString;
    CStringFacts(m.name, '\n');
    Text.DecimalDigits(|m.params|);
  }

  /** The parameter rows of a message, from any of them on, complete it. */
  lemma {:induction false} DrainParams(m: Message, k: nat, more: string)
    requires WellFormed(m) && k < |m.params|
    ensures
      var (last, rest, left) := Drain(IDLE, more);
      Drain(MsgState(Some(CmdOf(m)), m.params[..k], DataMore), ParamsText(m.params[k..]) + more)
      == (last, [Dispatch(CmdOf(m), m.params)] + rest, left)
    decreases |m.params| - k
  {
    hide Drain, ParamRow, ParseParam, CmdRow;
    var st, p := MsgState(Some(CmdOf(m)), m.params[..k], DataMore), m.params[k];
    var tail := ParamsText(m.params[k + 1..]) + more;
    assert m.params[k..][1..] == m.params[k + 1..];
    assert ParamsText(m.params[k..]) + more == ParamRow(p) + CRLF + tail;
    ParamRowOneLine(p);
    OneLineIsCString(ParamRow(p));
    ParamRowRoundTrip(p);
    DrainRow(st, ParamRow(p), tail);
    assert m.params[..k] + [p] == m.params[..k + 1];
    if k + 1 < |m.params| {
      DrainParams(m, k + 1, more);
      var rest := Drain(MsgState(Some(CmdOf(m)), m.params[..k + 1], DataMore), tail).1;
      assert [] + rest == rest;
    } else {
      assert m.params[..k + 1] == m.params && tail == more;
      assert HandleLine(st, ParamRow(p)).1 == [Dispatch(CmdOf(m), m.params)];
    }
  }

  lemma {:induction false} DrainMessage(m: Message, more: string)
    requires WellFormed(m)
    ensures
      var (last, rest, left) := Drain(IDLE, more);
      Drain(IDLE, MessageText(m) + more) == (last, [Dispatch(CmdOf(m), m.params)] + rest, left)
  {
    hide Drain, ParamRow, ParseCmd, CmdRow;
    var row, tail := CmdRow(CmdOf(m)), ParamsText(m.params) + more;
    assert MessageText(m) + more == row + CRLF + tail;
    CmdRowOneLine(m);
    OneLineIsCString(row);
    CmdRowRoundTrip(CmdOf(m));
    DrainRow(IDLE, row, tail);
    if m.params != [] {
      assert m.params[..0] == [] && m.params[0..] == m.params;
      DrainParams(m, 0, more);
      var rest := Drain(MsgState(Some(CmdOf(m)), [], DataMore), tail).1;
      assert [] + rest == rest;
    } else {
      assert tail == more;
      assert HandleLine(IDLE, row).1 == [Dispatch(CmdOf(m), [])];
    }
  }

  function Dispatches(ms: seq<Message>): seq<Output> {
    if ms == [] then [] else [Dispatch(CmdOf(ms[0]), ms[0].params)] + Dispatches(ms[1..])
  }

  lemma {:induction false} DrainStream(ms: seq<Message>)
    requires forall m | m in ms :: WellFormed(m)
    ensures Drain(IDLE, StreamText(ms)) == (IDLE, Dispatches(ms), "")
  {
    hide MessageText, WellFormed;
    if ms != [] {
      DrainStream(ms[1..]);
      DrainMessage(ms[0], StreamText(ms[1..]));
    }
  }

  // ---------- what cannot survive the trip ----------

  ghost predicate StateSound(st: MsgState) {
    && (st.cmd.Some? ==> NameWellFormed(st.cmd.value.name))
    && forall p | p in st.params :: ParamWellFormed(p)
  }

  ghost predicate Sound(o: Output) {
    o.Dispatch? ==> Printable(Message(o.cmd.name, o.params))
  }

  lemma ParseCmdSound(row: string)
    requires OneLine(row)
    ensures ParseCmd(row).Some? ==> NameWellFormed(ParseCmd(row).value.name)
  {
    hide AtoiUnsigned, Find;
    if row != [] {
      var c := row[1..];
      FindMeaning(c, ' ');
      assert c[..Find(c, ' ')] <= c;
      assert c[..|c|] == c;
    }
  }

  lemma ParseParamSound(row: string)
    requires OneLine(row)
    ensures ParseParam(row).Some? ==> ParamWellFormed(ParseParam(row).value)
  {
    hide Find;
    if row != [] {
      FindMeaning(row[1..], '=');
    }
  }

  lemma HandleLineSound(st: MsgState, line: string)
    requires BetweenLines(st) && StateSound(st) && '\n' !in line
    ensures StateSound(HandleLine(st, line).0) && forall o | o in HandleLine(st, line).1 :: Sound(o)
  {
    hide ParseCmd, ParseParam, CString;
    var row := CString(line);
    CStringFacts(line, '\n');
    ParseCmdSound(row);
    ParseParamSound(row);
    CmdCount(row);
  }

  /** Whatever arrives, only printable messages are dispatched. */
  lemma {:induction false} DrainSound(st: MsgState, buf: string)
    requires BetweenLines(st) && StateSound(st)
    ensures forall o | o in Drain(st, buf).1 :: Sound(o)
    decreases |buf|
  {
    hide HandleLine, BetweenLines, StateSound, Sound, Find;
    var i := Find(buf, '\n');
    if i < |buf| {
      var line := StripCr(buf[..i]);
      FindMeaning(buf, '\n');
      assert '\n' !in line;
      HandleLineInvariant(st, line);
      HandleLineSound(st, line);
      DrainSound(HandleLine(st, line).0, buf[i + 1..]);
      DrainOneLine(st, buf);
    }
  }

  /**
   * What the narrowing of the count does to a message: when a row is accepted and as many parameters follow as
   * it announced, the message is dispatched with them, and nothing else, exactly if the count fits 16 bits.
   */
  lemma {:induction false} AnnouncedCountKept(row: string, params: seq<Param>)
    requires OneLine(row) && ParseCmd(row).Some?
    requires |params| == AnnouncedCount(row) && forall p | p in params :: ParamWellFormed(p)
    ensures
      var c := Cmd(ParseCmd(row).value.name, |params|);
      Drain(IDLE, row + CRLF + ParamsText(params)) == (IDLE, [Dispatch(c, params)], "") <==> |params| < UINT16
  {
    hide Drain, ParseCmd, ParseParam, HandleLine, AnnouncedCount;
    var name, text := ParseCmd(row).value.name, ParamsText(params);
    if |params| < UINT16 {
      ParseCmdSound(row);
      CountNarrowed(row);
      AnnouncedAndSent(row, Message(name, params));
    } else {
      DrainInvariant(IDLE, row + CRLF + text);
      assert !Complete(Dispatch(Cmd(name, |params|), params));
    }
  }

  lemma {:induction false} AnnouncedAndSent(row: string, m: Message)
    requires OneLine(row) && ParseCmd(row) == Some(CmdOf(m)) && Printable(m)
    ensures Drain(IDLE, row + CRLF + ParamsText(m.params)) == (IDLE, [Dispatch(CmdOf(m), m.params)], "")
  {
    hide Drain, ParseCmd, ParseParam, HandleLine;
    var text, o := ParamsText(m.params), Dispatch(CmdOf(m), m.params);
    OneLineIsCString(row);
    ParseCmdMeaning(row, CmdOf(m));
    CommandLine(row, CmdOf(m));
    DrainRow(IDLE, row, text);
    DrainNothing();
    assert [o] + [] == [o] == [] + [o];
    if m.params != [] {
      assert m.params[..0] == [] && m.params[0..] == m.params && text + "" == text;
      DrainParams(m, 0, "");
    }
  }

  lemma DrainNothing()
    ensures Drain(IDLE, "") == (IDLE, [], "")
  {
  }

  lemma {:induction false} DispatchOf(ms: seq<Message>, m: Message)
    requires m in ms
    ensures Dispatch(CmdOf(m), m.params) in Dispatches(ms)
  {
    if ms[0] != m {
      DispatchOf(ms[1..], m);
    }
  }

  /** An all empty message is rejected as soon as it arrives. */
  lemma {:induction false} EmptyRejected(more: string)
    ensures Drain(IDLE, MessageText(Message("", [])) + more).1 != []
    ensures Drain(IDLE, MessageText(Message("", [])) + more).1[0] == Reject(ErrFormat)
  {
    hide Drain;
    assert CString("") == "";
    assert CString("+") == "+" by { OneLineIsCString("+"); }
    assert MessageText(Message("", [])) + more == "+" + CRLF + more;
    DrainRow(IDLE, "+", more);
    assert HandleLine(IDLE, "+").1 == [Reject(ErrFormat)];
  }

  lemma {:induction false} OnlyNonEmpty(ms: seq<Message>)
    requires forall m | m in ms :: Printable(m)
    requires Drain(IDLE, StreamText(ms)).1 == Dispatches(ms)
    ensures forall m | m in ms :: WellFormed(m)
  {
    hide Drain, MessageText, Printable;
    if ms != [] {
      var more := StreamText(ms[1..]);
      if ms[0] == Message("", []) {
        EmptyRejected(more);
        assert false;
      }
      DrainMessage(ms[0], more);
      assert ([Dispatch(CmdOf(ms[0]), ms[0].params)] + Drain(IDLE, more).1)[1..] == Drain(IDLE, more).1;
      assert Dispatches(ms)[1..] == Dispatches(ms[1..]);
      OnlyNonEmpty(ms[1..]);
    }
  }

  lemma {:induction false} OnlyWellFormed(ms: seq<Message>)
    requires Drain(IDLE, StreamText(ms)).1 == Dispatches(ms)
    ensures forall m | m in ms :: WellFormed(m)
  {
    hide Drain, StreamText, WellFormed, Printable;
    DrainSound(IDLE, StreamText(ms));
    forall m | m in ms
      ensures Printable(m)
    {
      DispatchOf(ms, m);
      assert Sound(Dispatch(CmdOf(m), m.params));
    }
    OnlyNonEmpty(ms);
  }

  /**
   * Printed messages, cut into reads in any way, are decoded into exactly those messages in order, with no
   * error, an idle final state and nothing left in the buffer, if and only if every message is well-formed;
   * a count of parameters that 16 bits cannot hold is one of the things that are lost.
   */
  lemma {:induction false} StreamRoundTrip(ms: seq<Message>, chunks: seq<string>)
    requires Concat(chunks) == StreamText(ms)
    ensures ReceiveAll(Conn(IDLE, ""), chunks) == (Conn(IDLE, ""), Dispatches(ms))
       <==> forall m | m in ms :: WellFormed(m)
  {
    hide Drain, WellFormed, StreamText;
    ChunksDoNotMatter(Conn(IDLE, ""), chunks);
    assert "" + Concat(chunks) == Concat(chunks);
    if forall m | m in ms :: WellFormed(m) {
      DrainStream(ms);
    } else if Drain(IDLE, StreamText(ms)).1 == Dispatches(ms) {
      OnlyWellFormed(ms);
    }
  }
}
