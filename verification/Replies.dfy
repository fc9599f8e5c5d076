/**
 * What comes back for a line, spelled out byte by byte for every form of line.
 */
module Replies {
  import opened Common
  import opened Continuum
  import opened Protocol
  import opened Ring
  import opened Router
  import opened Session
  import Text

  /** An error reply: its number and its words. */
  function ErrorText(no: string, error: string): string {
    "+ERROR 2\r\n$" + no + "\r\n$" + error + "\r\n"
  }

  lemma DecimalTwo()
    ensures Text.Decimal(2) == "2"
  {
  }

  lemma ErrorRow()
    ensures CmdRow(Cmd("ERROR", 2)) == "+ERROR 2"
  {
    hide Text.Decimal, CString;
    DecimalTwo();
    OneLineIsCString("ERROR");
  }

  lemma TwoRows(no: string, error: string)
    requires OneLine(no) && OneLine(error)
    ensures ParamsText([Str(no), Str(error)]) == ("$" + no + CRLF) + ("$" + error + CRLF)
  {
    hide CString, OneLine;
    OneLineIsCString(no);
    OneLineIsCString(error);
    var params, last := [Str(no), Str(error)], [Str(error)];
    assert params[1..] == last && last[1..] == [];
    assert ParamsText(last) == "$" + error + CRLF;
  }

  lemma ErrorMessageText(no: string, error: string)
    requires OneLine(no) && OneLine(error)
    ensures MessageText(ErrorMessage(no, error)) == ErrorText(no, error)
  {
    hide CmdRow, ParamsText, OneLine;
    ErrorRow();
    TwoRows(no, error);
    assert ("+ERROR 2" + CRLF) + (("$" + no + CRLF) + ("$" + error + CRLF)) == ErrorText(no, error);
  }

  lemma FormatErrorText()
    ensures MessageText(ErrorMessage("1001", "Wrong message format."))
         == ErrorText("1001", "Wrong message format.")
  {
    hide MessageText, ErrorMessage, ErrorText;
    ErrorMessageText("1001", "Wrong message format.");
  }

  lemma ParamFormatErrorText()
    ensures MessageText(ErrorMessage("1002", "Wrong parameter format."))
         == ErrorText("1002", "Wrong parameter format.")
  {
    hide MessageText, ErrorMessage, ErrorText;
    ErrorMessageText("1002", "Wrong parameter format.");
  }

  lemma UnknownErrorText()
    ensures MessageText(ErrorMessage("99", "Unknown command."))
         == ErrorText("99", "Unknown command.")
  {
    hide MessageText, ErrorMessage, ErrorText;
    ErrorMessageText("99", "Unknown command.");
  }

  /** What a refused connection is told. */
  lemma RefusalText()
    ensures MessageText(ErrorMessage("2001", "Reached connections to maximum."))
         == ErrorText("2001", "Reached connections to maximum.")
  {
    hide MessageText, ErrorMessage, ErrorText;
    ErrorMessageText("2001", "Reached connections to maximum.");
  }

  lemma PongText()
    ensures MessageText(Message("PONG", [])) == "+PONG\r\n"
  {
    hide CString;
    OneLineIsCString("PONG");
  }

  /** What is written for a complete message, by the name of its command. */
  lemma DispatchText(servers: seq<ServerInfo>, ring: seq<Mcs>, cmd: Cmd, params: seq<Param>)
    requires RingFits(servers, ring)
    ensures
      TextOf(servers, ring, [Dispatch(cmd, params)]) ==
        if cmd.name == "PING" then "+PONG\r\n"
        else if cmd.name != "GET" then ErrorText("99", "Unknown command.")
        else if params == [] || params[0].Kv? || servers == [] then ""
        else NodeText(AddressOf(servers, ring, params[0].value))
  {
    hide MessageText, AddressOf, TextOf, NodeText, ErrorMessage, ErrorText;
    OneAnswer(servers, ring, Dispatch(cmd, params));
    PongText();
    UnknownErrorText();
    if cmd.name == "GET" && params != [] && params[0].Str? {
      NodeMessage(AddressOf(servers, ring, params[0].value));
    }
  }

  lemma NoText(servers: seq<ServerInfo>, ring: seq<Mcs>)
    requires RingFits(servers, ring)
    ensures TextOf(servers, ring, []) == ""
  {
  }

  /** Between messages, a command that counts no parameters is answered at once and any other one not yet. */
  lemma CommandReply(servers: seq<ServerInfo>, ring: seq<Mcs>, line: string, c: Cmd)
    requires RingFits(servers, ring) && IsCmdRow(CString(line), c)
    ensures
      TextOf(servers, ring, HandleLine(IDLE, line).1) ==
        if c.count > 0 || c.name == "GET" then ""
        else if c.name == "PING" then "+PONG\r\n" else ErrorText("99", "Unknown command.")
  {
    hide TextOf, HandleLine, IsCmdRow, CString, ErrorText;
    CommandLine(line, c);
    NoText(servers, ring);
    if c.count == 0 {
      DispatchText(servers, ring, c, []);
    }
  }

  /** Between messages, a line that is no command row is answered with error 1001. */
  lemma NoCommandReply(servers: seq<ServerInfo>, ring: seq<Mcs>, line: string)
    requires RingFits(servers, ring) && forall c :: !IsCmdRow(CString(line), c)
    ensures TextOf(servers, ring, HandleLine(IDLE, line).1) == ErrorText("1001", "Wrong message format.")
  {
    hide TextOf, HandleLine, IsCmdRow, CString, MessageText, ErrorMessage, ErrorText;
    NoCommandLine(line);
    RejectText(servers, ring, ErrFormat);
    FormatErrorText();
  }

  /** Within a message, its last parameter is answered by the command's name and first parameter, others not yet. */
  lemma ParameterReply(servers: seq<ServerInfo>, ring: seq<Mcs>, c: Cmd, params: seq<Param>, line: string, p: Param)
    requires RingFits(servers, ring) && |params| < c.count < UINT16 && IsParamRow(CString(line), p)
    ensures
      var first := (params + [p])[0];
      TextOf(servers, ring, HandleLine(MsgState(Some(c), params, DataMore), line).1) ==
        if |params| + 1 < c.count then ""
        else if c.name == "PING" then "+PONG\r\n"
        else if c.name != "GET" then ErrorText("99", "Unknown command.")
        else if first.Kv? || servers == [] then ""
        else NodeText(AddressOf(servers, ring, first.value))
  {
    hide TextOf, HandleLine, IsParamRow, CString, AddressOf, NodeText, ErrorText;
    ParameterLine(c, params, line, p);
    NoText(servers, ring);
    if |params| + 1 == c.count {
      DispatchText(servers, ring, c, params + [p]);
    }
  }

  /** Within a message, a line that is no parameter row is answered with error 1002. */
  lemma NoParameterReply(servers: seq<ServerInfo>, ring: seq<Mcs>, c: Cmd, params: seq<Param>, line: string)
    requires RingFits(servers, ring) && |params| < c.count < UINT16
    requires forall p :: !IsParamRow(CString(line), p)
    ensures
      TextOf(servers, ring, HandleLine(MsgState(Some(c), params, DataMore), line).1)
      == ErrorText("1002", "Wrong parameter format.")
  {
    hide TextOf, HandleLine, IsParamRow, CString, MessageText, ErrorMessage, ErrorText;
    NoParameterLine(c, params, line);
    RejectText(servers, ring, ErrParamFormat);
    ParamFormatErrorText();
  }
}
