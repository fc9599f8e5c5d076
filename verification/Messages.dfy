/**
 * Messages, commands and parameters whose objects live in shared pools.  An object is known by its
 * address; a ledger says which addresses of the five pools, and which row buffers, somebody holds.
 */
module Messages {
  import opened Common
  import Pool
  import opened Protocol
  import opened Session
  import Text

  type Addr = nat

  // ---------- ledgers ----------

  datatype Ledger = Ledger(strs: set<Addr>, cmds: set<Addr>, params: set<Addr>, kvs: set<Addr>,
                           msgs: set<Addr>, rows: set<Addr>) {
    ghost function Plus(l: Ledger): Ledger {
      Ledger(strs + l.strs, cmds + l.cmds, params + l.params, kvs + l.kvs, msgs + l.msgs, rows + l.rows)
    }

    ghost function Minus(l: Ledger): Ledger {
      Ledger(strs - l.strs, cmds - l.cmds, params - l.params, kvs - l.kvs, msgs - l.msgs, rows - l.rows)
    }

    ghost predicate Disjoint(l: Ledger) {
      && strs !! l.strs && cmds !! l.cmds && params !! l.params && kvs !! l.kvs
      && msgs !! l.msgs && rows !! l.rows
    }
  }

  const NOTHING := Ledger({}, {}, {}, {}, {}, {})

  function Rows(a: set<Addr>): Ledger {
    Ledger({}, {}, {}, {}, {}, a)
  }

  /** `total` is `others` and `held` together, and no object is in both. */
  ghost predicate Split(total: Ledger, others: Ledger, held: Ledger) {
    total == others.Plus(held) && others.Disjoint(held)
  }

  /** Taking `p` out of what a message holds leaves the rest of it split off from the others. */
  lemma SplitRelease(total: Ledger, others: Ledger, c: Ledger, p: Ledger, rest: Ledger)
    requires Split(total, others, c.Plus(p.Plus(rest))) && c.Disjoint(p.Plus(rest)) && p.Disjoint(rest)
    ensures Split(total, others.Plus(c.Plus(rest)), p)
    ensures Split(others.Plus(c.Plus(rest)), others, c.Plus(rest)) && c.Disjoint(rest)
  {
  }

  /** Objects fresh from the pools join what a message holds. */
  lemma SplitAcquire(total: Ledger, before: Ledger, others: Ledger, c: Ledger, ps: Ledger, p: Ledger)
    requires Split(before, others, c.Plus(ps)) && c.Disjoint(ps) && Split(total, before, p)
    ensures Split(total, others, c.Plus(ps.Plus(p))) && c.Disjoint(ps.Plus(p)) && ps.Disjoint(p)
  {
  }

  /** A row buffer that was lent to a message becomes part of what it takes from the pools. */
  lemma SplitRow(total: Ledger, before: Ledger, others: Ledger, held: Ledger, row: Addr, pooled: Ledger)
    requires Split(before, others.Plus(Rows({row})), held) && row !in others.rows && Split(total, before, pooled)
    ensures Split(before.Minus(Rows({row})), others, held)
    ensures Split(total, before.Minus(Rows({row})), pooled.Plus(Rows({row})))
  {
  }

  lemma SplitBoth(total: Ledger, middle: Ledger, before: Ledger, a: Ledger, b: Ledger)
    requires Split(middle, before, a) && Split(total, middle, b)
    ensures Split(total, before, b.Plus(a))
  {
  }

  lemma SplitNothing(total: Ledger, others: Ledger, c: Ledger)
    requires Split(total, others, c.Plus(NOTHING))
    ensures Split(total, others, c)
  {
  }

  lemma NothingHeld(others: Ledger)
    ensures Split(others, others, CmdHolds(None).Plus(ParamsHold([])))
    ensures CmdHolds(None).Disjoint(ParamsHold([]))
  {
  }

  /** A cmd_t: its own object, the one of its name, and its row. */
  datatype CmdObj = CmdObj(addr: Addr, name: Addr, value: Cmd, data: string, row: Addr) {
    ghost function Pooled(): Ledger {
      Ledger({name}, {addr}, {}, {}, {}, {})
    }

    ghost function Holds(): Ledger {
      Pooled().Plus(Rows({row}))
    }
  }

  /** A param_t with one string, or with a pair and its two strings, and its row. */
  datatype ParamObj =
    | StrObj(addr: Addr, str: Addr, text: string, data: string, row: Addr)
    | KvObj(addr: Addr, kv: Addr, keyStr: Addr, valueStr: Addr, key: string, text: string, data: string, row: Addr)
  {
    function Value(): Param {
      if StrObj? then Str(text) else Kv(key, text)
    }

    ghost function Pooled(): Ledger {
      if StrObj? then Ledger({str}, {}, {addr}, {}, {}, {}) else Ledger({keyStr, valueStr}, {}, {addr}, {kv}, {}, {})
    }

    ghost function Holds(): Ledger {
      Pooled().Plus(Rows({row}))
    }

    ghost predicate Valid() {
      KvObj? ==> keyStr != valueStr
    }
  }

  ghost function ParamsHold(params: seq<ParamObj>): Ledger {
    if params == [] then NOTHING else params[0].Holds().Plus(ParamsHold(params[1..]))
  }

  /** No object belongs to two parameters. */
  ghost predicate ParamsApart(params: seq<ParamObj>) {
    params == [] ||
    (params[0].Valid() && params[0].Holds().Disjoint(ParamsHold(params[1..])) && ParamsApart(params[1..]))
  }

  ghost function CmdHolds(cmd: Option<CmdObj>): Ledger {
    if cmd.Some? then cmd.value.Holds() else NOTHING
  }

  function Values(params: seq<ParamObj>): (vs: seq<Param>)
    ensures |vs| == |params|
  {
    seq(|params|, i requires 0 <= i < |params| => params[i].Value())
  }

  /** The `len` bytes from `at` on of a row in a buffer that calloc cleared. */
  function View(data: string, at: nat, len: nat): (s: string)
    ensures |s| == len
  {
    seq(len, i requires 0 <= i < len => if at + i < |data| then data[at + i] else '\0')
  }

  lemma ViewOf(before: string, s: string, after: string)
    ensures View(before + s + after, |before|, |s|) == s
  {
  }

  lemma PairViews(key: string, text: string)
    requires NoNul(Kv(key, text))
    ensures
      var data := "%" + CString(key) + "=" + CString(text) + CRLF;
      View(data, 1, |key|) == key && View(data, 1 + |key| + 1, |text|) == text
  {
    hide CString, View;
    CStringFacts(key, ' ');
    CStringFacts(text, ' ');
    var data := "%" + key + "=" + text + CRLF;
    assert data == "%" + key + ("=" + text + CRLF);
    ViewOf("%", key, "=" + text + CRLF);
    ViewOf("%" + key + "=", text, CRLF);
  }

  // ---------- the pools ----------

  class MsgBuf {
    var str: Pool.PoolState<Addr>
    var cmd: Pool.PoolState<Addr>
    var param: Pool.PoolState<Addr>
    var param_kv: Pool.PoolState<Addr>
    var msg: Pool.PoolState<Addr>
    var rows: set<Addr>  // the row buffers that calloc gave out and nobody freed
    var brk: Addr  // addresses from here on were never handed out

    ghost predicate PoolValid(p: Pool.PoolState<Addr>)
      reads `brk
    {
      p.Valid() && (forall a | a in p.outstanding :: a < brk) && forall a | a in p.pooled :: a < brk
    }

    ghost predicate Valid()
      reads this
    {
      && PoolValid(str) && PoolValid(cmd) && PoolValid(param) && PoolValid(param_kv) && PoolValid(msg)
      && forall a | a in rows :: a < brk
    }

    ghost function Outstanding(): Ledger
      reads this
    {
      Ledger(str.outstanding, cmd.outstanding, param.outstanding, param_kv.outstanding, msg.outstanding, rows)
    }

    /** msg_buf_init: every pool keeps at most 1000 objects. */
    constructor ()
      ensures Valid() && Outstanding() == NOTHING
      ensures str.max == cmd.max == param.max == param_kv.max == msg.max == 1000
    {
      str, cmd := Pool.PoolState([], {}, 1000), Pool.PoolState([], {}, 1000);
      param, param_kv := Pool.PoolState([], {}, 1000), Pool.PoolState([], {}, 1000);
      msg, rows := Pool.PoolState([], {}, 1000), {};
      brk := 0;
    }

    /** bstr_init */
    method TakeStr() returns (a: Addr)
      requires Valid()
      modifies this
      ensures Valid() && Split(Outstanding(), old(Outstanding()), Ledger({a}, {}, {}, {}, {}, {}))
    {
      str.GetIsSafe(brk);
      var (next, obj) := str.Get(brk);
      str, a, brk := next, obj, brk + 1;
    }

    method TakeCmd() returns (a: Addr)
      requires Valid()
      modifies this
      ensures Valid() && Split(Outstanding(), old(Outstanding()), Ledger({}, {a}, {}, {}, {}, {}))
    {
      cmd.GetIsSafe(brk);
      var (next, obj) := cmd.Get(brk);
      cmd, a, brk := next, obj, brk + 1;
    }

    method TakeParam() returns (a: Addr)
      requires Valid()
      modifies this
      ensures Valid() && Split(Outstanding(), old(Outstanding()), Ledger({}, {}, {a}, {}, {}, {}))
    {
      param.GetIsSafe(brk);
      var (next, obj) := param.Get(brk);
      param, a, brk := next, obj, brk + 1;
    }

    method TakeKv() returns (a: Addr)
      requires Valid()
      modifies this
      ensures Valid() && Split(Outstanding(), old(Outstanding()), Ledger({}, {}, {}, {a}, {}, {}))
    {
      param_kv.GetIsSafe(brk);
      var (next, obj) := param_kv.Get(brk);
      param_kv, a, brk := next, obj, brk + 1;
    }

    method TakeMsg() returns (a: Addr)
      requires Valid()
      modifies this
      ensures Valid() && Split(Outstanding(), old(Outstanding()), Ledger({}, {}, {}, {}, {a}, {}))
    {
      msg.GetIsSafe(brk);
      var (next, obj) := msg.Get(brk);
      msg, a, brk := next, obj, brk + 1;
    }

    /** The buffer of a line that was read or of a row that is printed. */
    method NewRow() returns (a: Addr)
      requires Valid()
      modifies this
      ensures Valid() && Split(Outstanding(), old(Outstanding()), Rows({a}))
    {
      rows, a, brk := rows + {brk}, brk, brk + 1;
    }

    /** free */
    method FreeRow(a: Addr)
      requires Valid() && a in rows
      modifies this
      ensures Valid() && Outstanding() == old(Outstanding()).Minus(Rows({a}))
    {
      rows := rows - {a};
    }

    /** bstr_free */
    method BackStr(a: Addr)
      requires Valid() && a in str.outstanding
      modifies this
      ensures Valid() && Outstanding() == old(Outstanding()).Minus(Ledger({a}, {}, {}, {}, {}, {}))
    {
      str.BackIsSafe(a);
      str := str.Back(a);
    }

    /** msg_init_cmd */
    method InitCmd(value: Cmd, data: string, row: Addr) returns (c: CmdObj)
      requires Valid()
      modifies this
      ensures Valid() && c.value == value && c.data == data && c.row == row
      ensures Split(Outstanding(), old(Outstanding()), c.Pooled())
    {
      hide PoolValid;
      var addr := TakeCmd();
      var name := TakeStr();
      c := CmdObj(addr, name, value, data, row);
    }

    /** msg_gen_cmd: the name is a view into the printed row. */
    method GenCmd(value: Cmd) returns (c: CmdObj)
      requires Valid()
      modifies this
      ensures Valid() && c.data == CmdRow(value) + CRLF && c.value.count == value.count
      ensures '\0' !in value.name ==> c.value == value
      ensures Split(Outstanding(), old(Outstanding()), c.Holds())
    {
      hide PoolValid, Split, CmdObj.Pooled;
      ghost var before := Outstanding();
      var data := CmdRow(value) + CRLF;
      var row := NewRow();
      ghost var middle := Outstanding();
      c := InitCmd(Cmd(View(data, 1, |value.name|), value.count), data, row);
      SplitBoth(Outstanding(), middle, before, Rows({row}), c.Pooled());
      if '\0' !in value.name {
        CStringFacts(value.name, ' ');
        assert data == "+" + value.name + data[1 + |value.name|..];
        ViewOf("+", value.name, data[1 + |value.name|..]);
      }
    }

    /** msg_init_param_str */
    method InitParamStr(text: string, data: string, row: Addr) returns (p: ParamObj)
      requires Valid()
      modifies this
      ensures Valid() && p.Valid() && p.Value() == Str(text) && p.data == data && p.row == row
      ensures Split(Outstanding(), old(Outstanding()), p.Pooled())
    {
      hide PoolValid;
      var addr := TakeParam();
      var str := TakeStr();
      p := StrObj(addr, str, text, data, row);
    }

    /** msg_init_param_kv */
    method InitParamKv(key: string, text: string, data: string, row: Addr) returns (p: ParamObj)
      requires Valid()
      modifies this
      ensures Valid() && p.Valid() && p.Value() == Kv(key, text) && p.data == data && p.row == row
      ensures Split(Outstanding(), old(Outstanding()), p.Pooled())
    {
      hide PoolValid;
      var addr := TakeParam();
      var kv := TakeKv();
      var keyStr := TakeStr();
      var valueStr := TakeStr();
      p := KvObj(addr, kv, keyStr, valueStr, key, text, data, row);
    }

    /** msg_gen_param_str: the string is a view into the printed row. */
    method GenParamStr(text: string) returns (p: ParamObj)
      requires Valid()
      modifies this
      ensures Valid() && p.Valid() && p.data == ParamRow(Str(text)) + CRLF
      ensures '\0' !in text ==> p.Value() == Str(text)
      ensures Split(Outstanding(), old(Outstanding()), p.Holds())
    {
      hide CString, PoolValid, Split, View, ParamObj.Pooled;
      ghost var before := Outstanding();
      var data := "$" + CString(text) + CRLF;
      var row := NewRow();
      ghost var middle := Outstanding();
      if '\0' !in text {
        CStringFacts(text, ' ');
        ViewOf("$", text, CRLF);
      }
      p := InitParamStr(View(data, 1, |text|), data, row);
      SplitBoth(Outstanding(), middle, before, Rows({row}), p.Pooled());
    }

    /** msg_gen_param_kv: both strings are views into the printed row. */
    method GenParamKv(key: string, text: string) returns (p: ParamObj)
      requires Valid()
      modifies this
      ensures Valid() && p.Valid() && p.data == ParamRow(Kv(key, text)) + CRLF
      ensures NoNul(Kv(key, text)) ==> p.Value() == Kv(key, text)
      ensures Split(Outstanding(), old(Outstanding()), p.Holds())
    {
      hide CString, PoolValid, Split, View, ParamObj.Pooled;
      ghost var before := Outstanding();
      var data := "%" + CString(key) + "=" + CString(text) + CRLF;
      var row := NewRow();
      ghost var middle := Outstanding();
      if NoNul(Kv(key, text)) {
        PairViews(key, text);
      }
      p := InitParamKv(View(data, 1, |key|), View(data, 1 + |key| + 1, |text|), data, row);
      SplitBoth(Outstanding(), middle, before, Rows({row}), p.Pooled());
    }

    /** What msg_clean does with one parameter. */
    method FreeParam(p: ParamObj, ghost others: Ledger)
      requires Valid() && p.Valid() && Split(Outstanding(), others, p.Holds())
      modifies this
      ensures Valid() && Outstanding() == others
    {
      hide PoolValid;
      match p {
        case StrObj(addr, s, _, _, row) =>
          BackStr(s);
          FreeRow(row);
          BackParam(addr);
        case KvObj(addr, kv, keyStr, valueStr, _, _, _, row) =>
          BackStr(keyStr);
          BackStr(valueStr);
          BackKv(kv);
          FreeRow(row);
          BackParam(addr);
      }
    }

    method BackParam(a: Addr)
      requires Valid() && a in param.outstanding
      modifies this
      ensures Valid() && Outstanding() == old(Outstanding()).Minus(Ledger({}, {}, {a}, {}, {}, {}))
    {
      param.BackIsSafe(a);
      param := param.Back(a);
    }

    method BackMsg(a: Addr)
      requires Valid() && a in msg.outstanding
      modifies this
      ensures Valid() && Outstanding() == old(Outstanding()).Minus(Ledger({}, {}, {}, {}, {a}, {}))
    {
      msg.BackIsSafe(a);
      msg := msg.Back(a);
    }

    method BackKv(a: Addr)
      requires Valid() && a in param_kv.outstanding
      modifies this
      ensures Valid() && Outstanding() == old(Outstanding()).Minus(Ledger({}, {}, {}, {a}, {}, {}))
    {
      param_kv.BackIsSafe(a);
      param_kv := param_kv.Back(a);
    }

    /** What msg_clean does with the command. */
    method FreeCmd(c: CmdObj, ghost others: Ledger)
      requires Valid() && Split(Outstanding(), others, c.Holds())
      modifies this
      ensures Valid() && Outstanding() == others
    {
      hide PoolValid;
      BackStr(c.name);
      FreeRow(c.row);
      BackCmd(c.addr);
    }

    method BackCmd(a: Addr)
      requires Valid() && a in cmd.outstanding
      modifies this
      ensures Valid() && Outstanding() == old(Outstanding()).Minus(Ledger({}, {a}, {}, {}, {}, {}))
    {
      cmd.BackIsSafe(a);
      cmd := cmd.Back(a);
    }
  }

  // ---------- messages ----------

  lemma {:induction false} ParamsGrow(params: seq<ParamObj>, p: ParamObj)
    requires ParamsApart(params) && p.Valid() && ParamsHold(params).Disjoint(p.Holds())
    ensures ParamsApart(params + [p]) && ParamsHold(params + [p]) == ParamsHold(params).Plus(p.Holds())
  {
    hide ParamObj.Holds, ParamObj.Valid;
    if params == [] {
      assert [p][1..] == [];
    } else {
      ParamsGrow(params[1..], p);
      assert (params + [p])[1..] == params[1..] + [p];
    }
  }

  class Msg {
    const buf: MsgBuf
    const self: Addr  // its object in the pool of messages
    var cmd: Option<CmdObj>
    var param_count: nat
    var params: seq<ParamObj>  // the chain from param_first to param_last
    var stat: Stat

    function State(): MsgState
      reads this
    {
      MsgState(if cmd.Some? then Some(cmd.value.value) else None, Values(params), stat)
    }

    ghost function Holds(): Ledger
      reads this
    {
      CmdHolds(cmd).Plus(ParamsHold(params))
    }

    ghost function Self(): Ledger {
      Ledger({}, {}, {}, {}, {self}, {})
    }

    /** No object is in two places of the message. */
    ghost predicate Whole()
      reads this
    {
      && param_count == |params| < UINT16
      && ParamsApart(params) && CmdHolds(cmd).Disjoint(ParamsHold(params))
    }

    /** The pools' outstanding objects are those of this message's parts and `others`, each in one place. */
    ghost predicate Owns(others: Ledger)
      reads this, buf
    {
      buf.Valid() && Whole() && Split(buf.Outstanding(), others, Holds())
    }

    /** The same with the message's own object. */
    ghost predicate Live(others: Ledger)
      reads this, buf
    {
      self !in others.msgs && Owns(others.Plus(Self()))
    }

    /** msg_init, on the object `self` of the pool. */
    constructor (buf: MsgBuf, self: Addr)
      requires buf.Valid()
      ensures this.buf == buf && this.self == self && State() == IDLE && Owns(buf.Outstanding())
    {
      this.buf, this.self := buf, self;
      cmd, param_count, params, stat := None, 0, [], NoCmd;
    }

    /** msg_free */
    method Free(ghost others: Ledger)
      requires Live(others)
      modifies this, buf
      ensures buf.Valid() && buf.Outstanding() == others
    {
      hide MsgBuf.PoolValid;
      Clean(others.Plus(Self()));
      buf.BackMsg(self);
    }

    /** msg_clean: every object goes back once, nothing else does. */
    method Clean(ghost others: Ledger)
      requires Owns(others)
      modifies this, buf
      ensures State() == IDLE && Owns(others) && buf.Outstanding() == others
    {
      hide Values, Ledger.Plus, Ledger.Disjoint, Split, MsgBuf.Valid, CmdHolds;
      var rest := params;
      if param_count > 0 {
        while rest != []
          invariant buf.Valid() && ParamsApart(rest) && CmdHolds(cmd).Disjoint(ParamsHold(rest))
          invariant Split(buf.Outstanding(), others, CmdHolds(cmd).Plus(ParamsHold(rest)))
          invariant cmd == old(cmd)
          decreases |rest|
        {
          ghost var c, tail := CmdHolds(cmd), ParamsHold(rest[1..]);
          SplitRelease(buf.Outstanding(), others, c, rest[0].Holds(), tail);
          buf.FreeParam(rest[0], others.Plus(c.Plus(tail)));
          rest := rest[1..];
        }
      }
      FreeLast(others);
      cmd, param_count, params, stat := None, 0, [], NoCmd;
      NoValues();
      NothingHeld(others);
    }

    /** The last step of msg_clean. */
    method FreeLast(ghost others: Ledger)
      requires buf.Valid() && Split(buf.Outstanding(), others, CmdHolds(cmd).Plus(NOTHING))
      modifies buf
      ensures buf.Valid() && buf.Outstanding() == others
    {
      if cmd.Some? {
        SplitNothing(buf.Outstanding(), others, CmdHolds(cmd));
        buf.FreeCmd(cmd.value, others);
      }
    }

    static lemma NoValues()
      ensures Values([]) == []
    {
    }

    /** msg_set_cmd */
    method SetCmd(c: CmdObj)
      modifies this
      ensures cmd == Some(c) && params == old(params) && param_count == old(param_count)
      ensures State() == Session.SetCmd(old(State()), c.value)
    {
      cmd := Some(c);
      stat := if c.value.count > 0 then DataMore else Done;
    }

    /** msg_put_paramlist and msg_add_param */
    method AddParam(p: ParamObj)
      requires cmd.Some? && param_count == |params| && |params| + 1 < UINT16
      modifies this
      ensures params == old(params) + [p] && param_count == |params| && cmd == old(cmd)
      ensures State() == Session.AddParam(old(State()), p.Value())
    {
      params := params + [p];
      param_count := (param_count + 1) % UINT16;
      stat := if param_count >= cmd.value.value.count then Done else DataMore;
      assert Values(params) == Values(old(params)) + [p.Value()];
    }

    /** A parameter with objects of its own joins the message. */
    method Attach(p: ParamObj, ghost before: Ledger, ghost others: Ledger)
      requires buf.Valid() && Whole() && p.Valid() && cmd.Some? && |params| + 1 < UINT16
      requires Split(before, others, Holds()) && Split(buf.Outstanding(), before, p.Holds())
      modifies this
      ensures Owns(others) && params == old(params) + [p] && cmd == old(cmd)
      ensures State() == Session.AddParam(old(State()), p.Value())
    {
      hide Values, MsgBuf.Valid, Ledger.Plus, Ledger.Disjoint, Split, CmdHolds, ParamObj.Holds, ParamObj.Valid;
      SplitAcquire(buf.Outstanding(), before, others, CmdHolds(cmd), ParamsHold(params), p.Holds());
      ParamsGrow(params, p);
      AddParam(p);
    }

    /** Owns, with the buffer of a row that nobody else holds and that is not part of the message. */
    ghost predicate Given(row: Addr, others: Ledger)
      reads this, buf
    {
      row !in others.rows && Owns(others.Plus(Rows({row})))
    }

    /** The first object of an idle message. */
    method Begin(c: CmdObj, ghost before: Ledger, ghost others: Ledger)
      requires buf.Valid() && Whole() && cmd == None && params == []
      requires Split(before, others.Plus(Rows({c.row})), Holds()) && c.row !in others.rows
      requires Split(buf.Outstanding(), before, c.Pooled())
      modifies this
      ensures Owns(others) && State() == Session.SetCmd(old(State()), c.value)
    {
      hide Values, MsgBuf.Valid;
      SetCmd(c);
    }

    /** decoder_command; a rejected row stays with whoever gave it. */
    method DecoderCommand(text: string, row: Addr, ghost others: Ledger) returns (r: DecodeResult)
      requires Given(row, others) && State() == IDLE
      modifies this, buf
      ensures (State(), r) == DecodeRow(IDLE, text)
      ensures if r.Ok? then Owns(others) else Given(row, others)
    {
      hide Values, Find, AtoiUnsigned, MsgBuf.Valid, Split, Ledger.Plus, CmdObj.Pooled;
      NoParams();
      ghost var before := buf.Outstanding();
      var len := |text|;
      if len <= 0 || text[0] != '+' {
        return ErrFormat;
      }
      var c := text[1..];
      if |c| <= 0 {
        return ErrFormat;
      }
      var s := Find(c, ' ');
      if s == |c| {
        var cmd := buf.InitCmd(Cmd(c, 0), text, row);
        Begin(cmd, before, others);
        return Ok;
      }
      var clen := s;
      s := s + 1;
      if |c[s..]| <= 0 {
        return ErrFormat;
      }
      var param_count := AtoiUnsigned(c[s..]);
      if param_count <= 0 {
        return ErrFormat;
      }
      var cmd := buf.InitCmd(Cmd(c[..clen], param_count % UINT16), text, row);
      Begin(cmd, before, others);
      return Ok;
    }

    lemma NoParams()
      requires State() == IDLE
      ensures cmd == None && params == []
    {
      assert |Values(params)| == 0;
    }

    /** decoder_param; a rejected row stays with whoever gave it. */
    method DecoderParam(text: string, row: Addr, ghost others: Ledger) returns (r: DecodeResult)
      requires Given(row, others) && stat.DataMore? && cmd.Some? && |params| + 1 < UINT16
      modifies this, buf
      ensures (State(), r) == DecodeRow(old(State()), text)
      ensures if r.Ok? then Owns(others) else Given(row, others)
    {
      hide Values, Find, MsgBuf.Valid, Ledger.Plus, Ledger.Minus, Ledger.Disjoint, Split, CmdHolds;
      hide ParamObj.Pooled, ParamObj.Valid;
      ghost var before, held := buf.Outstanding(), Holds();
      if |text| > 0 && text[0] == '$' {
        var param := buf.InitParamStr(text[1..], text, row);
        SplitRow(buf.Outstanding(), before, others, held, row, param.Pooled());
        Attach(param, before.Minus(Rows({row})), others);
        return Ok;
      } else if |text| > 0 && text[0] == '%' {
        var k := text[1..];
        var v := Find(k, '=');
        if v == |k| {
          return ErrParamFormat;
        }
        var klen := v;
        v := v + 1;
        var param := buf.InitParamKv(k[..klen], k[v..], text, row);
        SplitRow(buf.Outstanding(), before, others, held, row, param.Pooled());
        Attach(param, before.Minus(Rows({row})), others);
        return Ok;
      } else {
        return ErrParamFormat;
      }
    }

    /** decoder_run */
    method DecoderRun(text: string, row: Addr, ghost others: Ledger) returns (r: DecodeResult)
      requires Given(row, others) && BetweenLines(State())
      modifies this, buf
      ensures (State(), r) == DecodeRow(old(State()), text)
      ensures if r.Ok? then Owns(others) else Given(row, others)
    {
      match stat {
        case NoCmd =>
          r := DecoderCommand(text, row, others);
        case DataMore =>
          r := DecoderParam(text, row, others);
        case Done =>
          assert false;
      }
    }
  }

  // ---------- what a message holds, counted ----------

  function StrCount(params: seq<ParamObj>): nat {
    if params == [] then 0 else (if params[0].StrObj? then 1 else 2) + StrCount(params[1..])
  }

  function KvCount(params: seq<ParamObj>): nat {
    if params == [] then 0 else (if params[0].StrObj? then 0 else 1) + KvCount(params[1..])
  }

  lemma SplitCounts(total: Ledger, others: Ledger, held: Ledger)
    requires Split(total, others, held)
    ensures |total.strs| == |others.strs| + |held.strs| && |total.cmds| == |others.cmds| + |held.cmds|
    ensures |total.params| == |others.params| + |held.params| && |total.kvs| == |others.kvs| + |held.kvs|
    ensures |total.msgs| == |others.msgs| + |held.msgs| && |total.rows| == |others.rows| + |held.rows|
  {
  }

  lemma PlusEmpty(a: Ledger, b: Ledger)
    requires a.cmds == b.cmds == {} && a.msgs == b.msgs == {}
    ensures a.Plus(b).cmds == {} && a.Plus(b).msgs == {}
  {
  }

  lemma DisjointSplit(a: Ledger, b: Ledger)
    requires a.Disjoint(b)
    ensures Split(a.Plus(b), a, b)
  {
  }

  lemma ParamHoldCounts(p: ParamObj)
    requires p.Valid()
    ensures
      var l := p.Holds();
      && |l.strs| == (if p.StrObj? then 1 else 2) && |l.params| == 1 && |l.kvs| == (if p.StrObj? then 0 else 1)
      && l.cmds == {} && l.msgs == {} && |l.rows| == 1
  {
  }

  /** One string a command and a plain parameter, two a pair; one object of each kind for itself. */
  lemma {:induction false} HoldingCounts(cmd: Option<CmdObj>, params: seq<ParamObj>)
    requires ParamsApart(params) && CmdHolds(cmd).Disjoint(ParamsHold(params))
    ensures
      var l, c := CmdHolds(cmd).Plus(ParamsHold(params)), if cmd.Some? then 1 else 0;
      && |l.cmds| == c && |l.strs| == c + StrCount(params)
      && |l.params| == |params| && |l.kvs| == KvCount(params) && l.msgs == {} && |l.rows| == c + |params|
  {
    ParamsHoldCounts(params);
  }

  lemma {:induction false} ParamsHoldCounts(params: seq<ParamObj>)
    requires ParamsApart(params)
    ensures |ParamsHold(params).strs| == StrCount(params) && ParamsHold(params).cmds == {}
    ensures |ParamsHold(params).params| == |params| && |ParamsHold(params).kvs| == KvCount(params)
    ensures ParamsHold(params).msgs == {} && |ParamsHold(params).rows| == |params|
  {
    hide ParamObj.Holds, ParamObj.Valid, Split, Ledger.Plus, Ledger.Disjoint;
    if params != [] {
      var p, rest := params[0].Holds(), ParamsHold(params[1..]);
      ParamsHoldCounts(params[1..]);
      ParamHoldCounts(params[0]);
      DisjointSplit(p, rest);
      SplitCounts(p.Plus(rest), p, rest);
      PlusEmpty(p, rest);
    }
  }

  lemma OneMoreMessage(others: Ledger, a: Addr)
    requires a !in others.msgs
    ensures
      var l := others.Plus(Ledger({}, {}, {}, {}, {a}, {}));
      && l.strs == others.strs && l.cmds == others.cmds && l.params == others.params && l.kvs == others.kvs
      && l.rows == others.rows
      && |l.msgs| == |others.msgs| + 1
  {
  }

  /** The pools conserve: what is outstanding is what the others hold and what this message adds up to. */
  lemma OutstandingCounts(msg: Msg, others: Ledger)
    requires msg.Live(others)
    ensures
      var c, buf := if msg.cmd.Some? then 1 else 0, msg.buf;
      && |buf.msg.outstanding| == |others.msgs| + 1
      && |buf.cmd.outstanding| == |others.cmds| + c
      && |buf.str.outstanding| == |others.strs| + c + StrCount(msg.params)
      && |buf.param.outstanding| == |others.params| + msg.param_count
      && |buf.param_kv.outstanding| == |others.kvs| + KvCount(msg.params)
      && |buf.rows| == |others.rows| + c + msg.param_count
  {
    hide MsgBuf.Valid, ParamsHold, ParamsApart, StrCount, KvCount, CmdHolds, Split, Ledger.Plus, Ledger.Disjoint;
    HoldingCounts(msg.cmd, msg.params);
    SplitCounts(msg.buf.Outstanding(), others.Plus(msg.Self()), msg.Holds());
    OneMoreMessage(others, msg.self);
  }

  /** msg_init */
  method InitMsg(buf: MsgBuf) returns (msg: Msg)
    requires buf.Valid()
    modifies buf
    ensures fresh(msg) && msg.buf == buf && msg.State() == IDLE && msg.Live(old(buf.Outstanding()))
  {
    hide MsgBuf.PoolValid;
    var self := buf.TakeMsg();
    msg := new Msg(buf, self);
  }

  // ---------- responses ----------

  /** The rows of the parameters, as far as strlen sees them. */
  function RowsText(params: seq<ParamObj>): string {
    if params == [] then "" else CString(params[0].data) + RowsText(params[1..])
  }

  /** resp_msg: only a complete message is written, row after row. */
  method Write(msg: Msg) returns (out: string)
    ensures out == if msg.stat.Done? && msg.cmd.Some? then CString(msg.cmd.value.data) + RowsText(msg.params) else ""
  {
    hide CString;
    if !msg.stat.Done? || msg.cmd.None? {
      return "";
    }
    out := CString(msg.cmd.value.data);
    var rest := msg.params;
    while rest != []
      invariant out + RowsText(rest) == CString(msg.cmd.value.data) + RowsText(msg.params)
      decreases |rest|
    {
      assert out + (CString(rest[0].data) + RowsText(rest[1..])) == out + CString(rest[0].data) + RowsText(rest[1..]);
      out := out + CString(rest[0].data);
      rest := rest[1..];
    }
  }

  /** The parameters hold the printed rows of `params`. */
  ghost predicate RowsOf(objs: seq<ParamObj>, params: seq<Param>) {
    |objs| == |params| && forall i | 0 <= i < |objs| :: objs[i].data == ParamRow(params[i]) + CRLF
  }

  lemma {:induction false} RowsTextIsParamsText(objs: seq<ParamObj>, params: seq<Param>)
    requires RowsOf(objs, params)
    ensures RowsText(objs) == ParamsText(params)
  {
    hide CString, ParamRow;
    if objs != [] {
      RowHasNoNul(Cmd("", 0), params[0]);
      RowsTextIsParamsText(objs[1..], params[1..]);
    }
  }

  lemma RowHasNoNul(c: Cmd, p: Param)
    ensures CString(CmdRow(c) + CRLF) == CmdRow(c) + CRLF && CString(ParamRow(p) + CRLF) == ParamRow(p) + CRLF
  {
    hide CString;
    CStringFacts(c.name, ' ');
    Text.DecimalDigits(c.count);
    match p {
      case Str(value) =>
        CStringFacts(value, ' ');
      case Kv(key, value) =>
        CStringFacts(key, ' ');
        CStringFacts(value, ' ');
    }
    CStringFacts(CmdRow(c) + CRLF, ' ');
    CStringFacts(ParamRow(p) + CRLF, ' ');
  }

  /** The prefix of a message that has been generated so far. */
  ghost predicate Generated(msg: Msg, m: Message, n: nat, others: Ledger)
    requires n <= |m.params|
    reads msg, msg.buf
  {
    && msg.Live(others) && msg.cmd.Some?
    && msg.cmd.value.data == CmdRow(CmdOf(m)) + CRLF && msg.cmd.value.value.count == |m.params|
    && RowsOf(msg.params, m.params[..n])
    && (msg.stat.Done? <==> n == |m.params|)
  }

  /** msg_init, msg_gen_cmd and msg_set_cmd. */
  method Start(buf: MsgBuf, m: Message) returns (msg: Msg)
    requires buf.Valid() && |m.params| < UINT16
    modifies buf
    ensures fresh(msg) && msg.buf == buf && Generated(msg, m, 0, old(buf.Outstanding()))
  {
    hide MsgBuf.Valid, CmdRow;
    msg := InitMsg(buf);
    var cmd := buf.GenCmd(CmdOf(m));
    msg.SetCmd(cmd);
  }

  /** msg_gen_param_str or msg_gen_param_kv, and msg_add_param. */
  method Extend(msg: Msg, m: Message, n: nat, ghost others: Ledger)
    requires n < |m.params| < UINT16 && Generated(msg, m, n, others)
    modifies msg, msg.buf
    ensures Generated(msg, m, n + 1, others)
  {
    hide MsgBuf.Valid, Ledger.Plus, Ledger.Disjoint, Split, CmdHolds, ParamsHold, ParamsApart, ParamObj.Holds;
    hide ParamObj.Valid, ParamRow, CmdRow;
    ghost var before := msg.buf.Outstanding();
    var param;
    match m.params[n] {
      case Str(text) =>
        param := msg.buf.GenParamStr(text);
      case Kv(key, text) =>
        param := msg.buf.GenParamKv(key, text);
    }
    msg.Attach(param, before, others.Plus(msg.Self()));
  }

  /** resp_error, resp_node and resp_pong: generate, write, free.  The pools are as before. */
  method Respond(buf: MsgBuf, m: Message) returns (out: string)
    requires buf.Valid() && |m.params| < UINT16
    modifies buf
    ensures buf.Valid() && buf.Outstanding() == old(buf.Outstanding())
    ensures out == MessageText(m)
  {
    hide MsgBuf.Valid, Generated;
    ghost var others := buf.Outstanding();
    var msg := Start(buf, m);
    for i := 0 to |m.params|
      invariant fresh(msg) && msg.buf == buf && Generated(msg, m, i, others)
    {
      Extend(msg, m, i, others);
    }
    out := Write(msg);
    Finish(msg, m, others, out);
  }

  method Finish(msg: Msg, m: Message, ghost others: Ledger, ghost out: string)
    requires Generated(msg, m, |m.params|, others)
    requires out == if msg.stat.Done? && msg.cmd.Some? then CString(msg.cmd.value.data) + RowsText(msg.params) else ""
    modifies msg, msg.buf
    ensures msg.buf.Valid() && msg.buf.Outstanding() == others && out == MessageText(m)
  {
    hide MsgBuf.Valid, CString, CmdRow, ParamRow;
    assert m.params[..|m.params|] == m.params;
    RowHasNoNul(CmdOf(m), Str(""));
    RowsTextIsParamsText(msg.params, m.params);
    msg.Free(others);
  }
}
