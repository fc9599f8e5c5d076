/**
 * The line protocol as functions on values: what the printers write, what the decoder reads, what a
 * connection makes of the bytes it receives.
 */
module Protocol {
  import opened Common
  import opened Text

  const LONG_MAX := 0x7fff_ffff_ffff_ffff
  const UINT16 := 0x1_0000

  datatype Param = Str(value: string) | Kv(key: string, value: string)

  datatype Cmd = Cmd(name: string, count: nat)

  // ---------- printing ----------

  const CRLF := "\r\n"

  /** A command row, without its line end; %.*s stops at a NUL. */
  function CmdRow(c: Cmd): string {
    if c.count == 0 then "+" + CString(c.name) else "+" + CString(c.name) + " " + Decimal(c.count)
  }

  function ParamRow(p: Param): string {
    match p
    case Str(value) => "$" + CString(value)
    case Kv(key, value) => "%" + CString(key) + "=" + CString(value)
  }

  predicate NoNul(p: Param) {
    match p
    case Str(value) => '\0' !in value
    case Kv(key, value) => '\0' !in key && '\0' !in value
  }

  /** calloc(cmd_len + 10, 1) */
  function CmdAllocation(c: Cmd): nat {
    |c.name| + 10
  }

  /** calloc(str_len + 4, 1) and calloc(key_len + value_len + 5, 1) */
  function ParamAllocation(p: Param): nat {
    match p
    case Str(value) => |value| + 4
    case Kv(key, value) => |key| + |value| + 5
  }

  // ---------- C string functions ----------

  /** The position of the first `c`, or the length of the string: strchr and strlen. */
  function Find(s: string, c: char): (i: nat)
    ensures i <= |s|
  {
    if s == [] || s[0] == c then 0 else 1 + Find(s[1..], c)
  }

  lemma {:induction false} FindFirst(s: string, c: char, t: string)
    requires c !in s
    ensures Find(s + [c] + t, c) == |s| && Find(s, c) == |s|
  {
    if s != [] {
      assert (s + [c] + t)[1..] == s[1..] + [c] + t;
      FindFirst(s[1..], c, t);
    }
  }

  lemma {:induction false} FindMeaning(s: string, c: char)
    ensures c !in s[..Find(s, c)] && (Find(s, c) < |s| ==> s[Find(s, c)] == c)
  {
    if s != [] && s[0] != c {
      FindMeaning(s[1..], c);
      assert s[..Find(s, c)] == [s[0]] + s[1..][..Find(s[1..], c)];
    }
  }

  lemma {:induction false} FindFound(s: string, c: char)
    ensures c in s <==> Find(s, c) < |s|
  {
    FindMeaning(s, c);
    if Find(s, c) == |s| {
      assert s[..|s|] == s;
    }
  }

  /** The C string in a buffer: up to the first NUL. */
  function CString(s: string): string {
    s[..Find(s, '\0')]
  }

  lemma CStringFacts(s: string, c: char)
    ensures '\0' !in CString(s) && |CString(s)| <= |s|
    ensures '\0' !in s <==> CString(s) == s
    ensures '\0' !in s <==> |CString(s)| == |s|
    ensures c !in s ==> c !in CString(s)
  {
    FindMeaning(s, '\0');
    FindFound(s, '\0');
  }

  /** Each printed line and its terminating NUL fit what was allocated for them, a parameter's exactly. */
  lemma PrintedLinesFit(c: Cmd, p: Param)
    requires c.count < UINT16
    ensures |CmdRow(c) + CRLF| + 1 <= CmdAllocation(c)
    ensures |CmdRow(c) + CRLF| + 1 == CmdAllocation(c) <==> '\0' !in c.name && c.count >= 10000
    ensures |ParamRow(p) + CRLF| + 1 <= ParamAllocation(p)
    ensures |ParamRow(p) + CRLF| + 1 == ParamAllocation(p) <==> NoNul(p)
  {
    hide CString, Decimal;
    assert Pow10(5) == 100000 && Pow10(4) == 10000;
    DecimalLength(c.count, 5);
    DecimalLength(c.count, 4);
    CStringFacts(c.name, ' ');
    match p {
      case Str(value) =>
        CStringFacts(value, ' ');
      case Kv(key, value) =>
        CStringFacts(key, ' ');
        CStringFacts(value, ' ');
    }
  }

  predicate IsSpace(c: char) {
    c == ' ' || '\t' <= c <= '\r'
  }

  function SkipSpaces(s: string): string {
    if s != [] && IsSpace(s[0]) then SkipSpaces(s[1..]) else s
  }

  /** (uint32_t)atoi(s), where atoi narrows what strtol, which saturates at 64 bits, returns. */
  function AtoiUnsigned(s: string): (n: nat)
    ensures n < TWO_TO_THE_32
  {
    var t := SkipSpaces(s);
    var v: int :=
      if t != [] && t[0] == '-' then 0 - DigitsValue(t[1..], 0) as int
      else if t != [] && t[0] == '+' then DigitsValue(t[1..], 0)
      else DigitsValue(t, 0);
    (if v > LONG_MAX then LONG_MAX else if v < -LONG_MAX - 1 then -LONG_MAX - 1 else v) % TWO_TO_THE_32
  }

  /** atoi reads back what %d printed. */
  lemma {:induction false} AtoiOfDecimal(n: nat)
    requires n < TWO_TO_THE_32
    ensures AtoiUnsigned(Decimal(n)) == n
  {
    DecimalDigits(n);
    DigitsOfDecimal(n);
    assert IsDigit(Decimal(n)[0]);
  }

  lemma {:induction false} SkipsSpaces(spaces: string, rest: string)
    requires forall c | c in spaces :: IsSpace(c)
    requires rest != "" ==> !IsSpace(rest[0])
    ensures SkipSpaces(spaces + rest) == rest
  {
    if spaces == "" {
      assert "" + rest == rest;
    } else {
      assert (spaces + rest)[1..] == spaces[1..] + rest;
      SkipsSpaces(spaces[1..], rest);
    }
  }

  /** The six white-space characters of the C locale. */
  lemma SpaceMeaning(c: char)
    ensures IsSpace(c) <==> c as int in {9, 10, 11, 12, 13, 32}
  {
  }

  /** White space, a sign, digits and whatever follows: the signed number, saturated at 64 bits, in 32 bits. */
  lemma {:induction false} AtoiMeaning(spaces: string, sign: string, digits: string, rest: string)
    requires (forall c | c in spaces :: IsSpace(c)) && sign in {"", "-", "+"} && AllDigits(digits)
    requires rest != "" ==> !IsDigit(rest[0])
    requires sign == "" && digits == "" && rest != "" ==> !IsSpace(rest[0]) && rest[0] != '-' && rest[0] != '+'
    ensures
      var v: int := DigitsValue(digits, 0);
      AtoiUnsigned(spaces + sign + digits + rest) ==
        if sign == "-" then (if v < 0x8000_0000_0000_0000 then -v % 0x1_0000_0000 else 0)
        else if v < 0x8000_0000_0000_0000 then v % 0x1_0000_0000 else 0xffff_ffff
  {
    hide DigitsValue, SkipSpaces;
    var tail := sign + digits + rest;
    assert spaces + sign + digits + rest == spaces + tail;
    assert sign == "" ==> tail == digits + rest;
    assert sign != "" ==> tail[0] == sign[0] && tail[1..] == digits + rest;
    assert digits != "" ==> (digits + rest)[0] == digits[0];
    assert digits == "" ==> digits + rest == rest;
    SkipsSpaces(spaces, tail);
    DigitsThenRest(digits, rest, 0);
  }

  /** atoi reads back what %d printed of any int. */
  lemma {:induction false} AtoiOfSignedDecimal(n: int)
    requires -INT_MAX - 1 <= n <= INT_MAX
    ensures AtoiUnsigned(SignedDecimal(n)) == n % TWO_TO_THE_32
    ensures SignedDecimal(n)[0] == '-' <==> n < 0
  {
    hide AtoiUnsigned, DigitsValue, Decimal;
    var v := if n < 0 then -n else n;
    DecimalDigits(v);
    DigitsOfDecimal(v);
    var sign := if n < 0 then "-" else "";
    AtoiMeaning("", sign, Decimal(v), "");
    assert "" + sign + Decimal(v) + "" == SignedDecimal(n);
  }

  // ---------- decoding one row ----------

  datatype DecodeResult = Ok | ErrFormat | ErrParamFormat

  /** The count that a command row announces, before it is narrowed. */
  function AnnouncedCount(row: string): nat {
    if |row| == 0 then 0 else
    var c := row[1..];
    var i := Find(c, ' ');
    if i == |c| then 0 else AtoiUnsigned(c[i + 1..])
  }

  /** decoder_command; the count is narrowed to 16 bits on the way into the command. */
  function ParseCmd(row: string): Option<Cmd> {
    if |row| == 0 || row[0] != '+' then None else
    var c := row[1..];
    if |c| == 0 then None else
    var i := Find(c, ' ');
    if i == |c| then Some(Cmd(c, 0)) else
    var s := c[i + 1..];
    if |s| == 0 then None else
    var n := AtoiUnsigned(s);
    if n == 0 then None else Some(Cmd(c[..i], n % UINT16))
  }

  /** decoder_param */
  function ParseParam(row: string): Option<Param> {
    if |row| == 0 then None
    else if row[0] == '$' then Some(Str(row[1..]))
    else if row[0] == '%' then
      var k := row[1..];
      var i := Find(k, '=');
      if i == |k| then None else Some(Kv(k[..i], k[i + 1..]))
    else None
  }

  /** The rows of a command: its name, or its name, a space and a count that atoi does not read as zero. */
  ghost predicate IsCmdRow(row: string, c: Cmd) {
    && ' ' !in c.name
    && ((c.count == 0 && c.name != "" && row == "+" + c.name) || IsCountedRow(row, c))
  }

  ghost predicate IsCountedRow(row: string, c: Cmd) {
    var n := |c.name| + 2;
    && n < |row| && row[..n] == "+" + c.name + " "
    && AtoiUnsigned(row[n..]) > 0 && c.count == AtoiUnsigned(row[n..]) % 65536
  }

  ghost predicate IsParamRow(row: string, p: Param) {
    match p
    case Str(value) => row == "$" + value
    case Kv(key, value) => '=' !in key && row == "%" + key + "=" + value
  }

  lemma CmdRowCut(row: string, c: Cmd)
    requires IsCmdRow(row, c)
    ensures ParseCmd(row) == Some(c)
  {
    hide AtoiUnsigned, Find;
    var n := |c.name|;
    if IsCountedRow(row, c) {
      var s, rest := row[1..], row[n + 2..];
      assert row == row[..n + 2] + rest;
      assert s == c.name + [' '] + rest;
      FindFirst(c.name, ' ', rest);
      assert s[..n] == c.name && s[n + 1..] == rest;
    } else {
      assert row[1..] == c.name;
      FindFound(c.name, ' ');
    }
  }

  lemma ParsedCmd(row: string, c: Cmd)
    requires ParseCmd(row) == Some(c)
    ensures IsCmdRow(row, c)
  {
    hide AtoiUnsigned, Find;
    var s := row[1..];
    var i := Find(s, ' ');
    FindMeaning(s, ' ');
    FindFound(s, ' ');
    assert row == "+" + s;
    if i < |s| {
      assert row[..i + 2] == "+" + s[..i] + [s[i]];
      assert row[i + 2..] == s[i + 1..];
    }
  }

  /** These rows and no others are accepted. */
  lemma ParseCmdMeaning(row: string, c: Cmd)
    ensures ParseCmd(row) == Some(c) <==> IsCmdRow(row, c)
  {
    hide ParseCmd, IsCmdRow;
    if ParseCmd(row) == Some(c) {
      ParsedCmd(row, c);
    } else if IsCmdRow(row, c) {
      CmdRowCut(row, c);
    }
  }

  lemma ParsedParam(row: string, p: Param)
    requires ParseParam(row) == Some(p)
    ensures IsParamRow(row, p)
  {
    hide Find;
    var k := row[1..];
    FindMeaning(k, '=');
    assert row == [row[0]] + k;
    if p.Kv? {
      var i := Find(k, '=');
      assert row == "%" + k[..i] + [k[i]] + k[i + 1..];
    }
  }

  lemma ParamRowCut(row: string, p: Param)
    requires IsParamRow(row, p)
    ensures ParseParam(row) == Some(p)
  {
    hide Find;
    if p.Kv? {
      var k := row[1..];
      assert k == p.key + ['='] + p.value;
      FindFirst(p.key, '=', p.value);
      assert k[..|p.key|] == p.key && k[|p.key| + 1..] == p.value;
    } else {
      assert row[1..] == p.value;
    }
  }

  lemma ParseParamMeaning(row: string, p: Param)
    ensures ParseParam(row) == Some(p) <==> IsParamRow(row, p)
  {
    hide Find, ParseParam, IsParamRow;
    if ParseParam(row) == Some(p) {
      ParsedParam(row, p);
    } else if IsParamRow(row, p) {
      ParamRowCut(row, p);
    }
  }

  /** Cutting at the first separator gives back the two parts exactly when the first has no separator. */
  lemma {:induction false} CutAtSeparator(first: string, sep: char, second: string)
    ensures
      var s := first + [sep] + second;
      var i := Find(s, sep);
      i < |s| && (s[..i] == first <==> sep !in first) && (sep !in first ==> s[i + 1..] == second)
  {
    var s := first + [sep] + second;
    assert s[|first|] == sep;
    FindFound(s, sep);
    FindMeaning(s, sep);
    if sep !in first {
      FindFirst(first, sep, second);
    }
  }

  /** What the printer cut at a NUL and the parser at a separator is whole if there was neither. */
  lemma {:induction false} PrintedPart(part: string, sep: char, rest: string)
    ensures
      var s := CString(part) + [sep] + rest;
      var i := Find(s, sep);
      && i < |s| && (s[..i] == part <==> sep !in part && '\0' !in part)
      && (sep !in part ==> s[i + 1..] == rest)
  {
    hide CString, Find;
    var s := CString(part) + [sep] + rest;
    CStringFacts(part, sep);
    CutAtSeparator(CString(part), sep, rest);
    FindMeaning(s, sep);
  }

  /**
   * A command survives its row exactly when its name has no space and no NUL, it is not all empty and the
   * count is 16 bits.
   */
  lemma CmdRowRoundTrip(c: Cmd)
    requires c.count < TWO_TO_THE_32
    ensures ParseCmd(CmdRow(c)) == Some(c)
       <==> ' ' !in c.name && '\0' !in c.name && (c.name != "" || c.count > 0) && c.count < UINT16
  {
    hide Decimal, AtoiUnsigned, Find, CString;
    if c.count == 0 {
      var name := CString(c.name);
      assert CmdRow(c)[1..] == name;
      CStringFacts(c.name, ' ');
      FindFound(name, ' ');
      FindMeaning(name, ' ');
    } else {
      var digits := Decimal(c.count);
      AtoiOfDecimal(c.count);
      assert CmdRow(c)[1..] == CString(c.name) + [' '] + digits;
      PrintedPart(c.name, ' ', digits);
    }
  }

  /** A parameter survives its row exactly when it has no NUL and its key, if it has one, no '='. */
  lemma ParamRowRoundTrip(p: Param)
    ensures ParseParam(ParamRow(p)) == Some(p) <==> NoNul(p) && (p.Kv? ==> '=' !in p.key)
  {
    hide Find, CString;
    match p {
      case Str(value) =>
        assert ParamRow(p)[1..] == CString(value);
        CStringFacts(value, ' ');
      case Kv(key, value) =>
        assert ParamRow(p)[1..] == CString(key) + ['='] + CString(value);
        CStringFacts(value, ' ');
        PrintedPart(key, '=', CString(value));
    }
  }

  /** An accepted row gives the command the count it announced exactly when that count fits 16 bits. */
  lemma CountNarrowed(row: string)
    requires ParseCmd(row).Some?
    ensures ParseCmd(row).value.count == AnnouncedCount(row) <==> AnnouncedCount(row) < UINT16
  {
  }

  /** A printed row that is accepted with another count: 65536 parameters are announced, none is waited for. */
  lemma CountLost()
    ensures
      var row := CmdRow(Cmd("a", UINT16));
      AnnouncedCount(row) == UINT16 && ParseCmd(row) == Some(Cmd("a", 0))
  {
    hide Decimal, AtoiUnsigned, Find, CString;
    var c := Cmd("a", UINT16);
    AtoiOfDecimal(UINT16);
    CStringFacts("a", ' ');
    assert CmdRow(c)[1..] == "a" + [' '] + Decimal(UINT16);
    CutAtSeparator("a", ' ', Decimal(UINT16));
  }
}
