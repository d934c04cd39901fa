/**
 The server's end of a request: `getline`, the loop that gathers lines into a command and hands
 it over at the dot line, and the splitting of a command into its name and its elements.
 */
module RequestServe {
  import opened Common
  import opened Text
  import opened Multimap
  import opened Protocol

  datatype Config = Config(maxCommandSize: int, commandTimeout: int)

  // Why the loop has stopped, if it has.
  datatype Status = Listening | ByCommand | TooLarge | TimedOut

  // The command so far and the commands handed to `process_command`.
  datatype Loop = Loop(status: Status, command: string, handed: seq<string>)

  /** Whether the connection stays open after a command: any function of the commands so far. */
  type Processor = seq<string> -> bool

  const DOT_LINE := DOT + CRLF
  const START := Loop(Listening, "", [])

  /** What `getline` returns: up to a newline or the end of the stream. */
  function Line(input: string): (r: string)
    ensures r <= input && (input != "" ==> r != "")
  {
    var i := IndexOf(input, '\n');
    if i < |input| then input[..i + 1] else input
  }

  /** What the loop does with one line. */
  function Turn(cfg: Config, stays: Processor, s: Loop, line: string): Loop {
    if line == CRLF then s
    else
      var command := s.command + line;
      if |command| > cfg.maxCommandSize then s.(command := command, status := TooLarge)
      else if DOT_LINE <= line then
        if cfg.commandTimeout <= 0 || |s.handed| < cfg.commandTimeout then
          var handed := s.handed + [command];
          Loop(if stays(handed) then Listening else ByCommand, "", handed)
        else s.(command := command, status := TimedOut)
      else s.(command := command)
  }

  function Serve(cfg: Config, stays: Processor, s: Loop, input: string): Loop
    decreases |input|
  {
    if s.status != Listening || input == "" then s
    else Serve(cfg, stays, Turn(cfg, stays, s, Line(input)), input[|Line(input)|..])
  }

  class Child {
    const input: string
    var position: nat

    constructor (input: string)
      ensures this.input == input && position == 0
    {
      this.input, position := input, 0;
    }

    method GetLine() returns (buffer: string)
      requires position <= |input|
      modifies this
      ensures buffer == Line(input[old(position)..]) && position == old(position) + |buffer|
      ensures position <= |input| && input[position..] == input[old(position)..][|buffer|..]
    {
      buffer := "";
      ghost var rest := input[position..];
      var notDone := true;
      while notDone
        invariant position == old(position) + |buffer| <= |input| && buffer == rest[..|buffer|]
        invariant if notDone then '\n' !in buffer else buffer == Line(rest)
        decreases notDone, |input| - position
      {
        if position < |input| {
          var byte := input[position];
          position := position + 1;
          ghost var before := buffer;
          buffer := buffer + [byte];
          if byte == '\n' {
            IndexOfIs(rest, '\n', |before|);
            notDone := false;
          }
        } else {
          IndexOfIs(rest, '\n', |rest|);
          assert buffer == rest;
          notDone := false;
        }
      }
    }

    /** The loop of one connection, up to the end of the input. */
    method Run(cfg: Config, stays: Processor) returns (handed: seq<string>, status: Status, command: string)
      requires position == 0
      modifies this
      ensures Loop(status, command, handed) == Serve(cfg, stays, START, input)
    {
      status, command, handed := Listening, "", [];
      assert input[0..] == input;
      var commandsExecuted := 0;
      while status == Listening && position < |input|
        invariant position <= |input| && commandsExecuted == |handed|
        invariant Serve(cfg, stays, Loop(status, command, handed), input[position..]) == Serve(cfg, stays, START, input)
        decreases |input| - position
      {
        var buffer := GetLine();
        if buffer != CRLF {
          command := command + buffer;
          if |command| > cfg.maxCommandSize {
            status := TooLarge;
          } else if DOT_LINE <= buffer {
            if cfg.commandTimeout <= 0 || commandsExecuted < cfg.commandTimeout {
              handed := handed + [command];
              status := if stays(handed) then Listening else ByCommand;
              commandsExecuted := commandsExecuted + 1;
              command := "";
            } else {
              status := TimedOut;
            }
          }
        }
      }
    }
  }

  // ---------------------------------------------------------------- the end of the stream

  /** `n` more lines after the end of the stream, where `getline` returns an empty one every time. */
  function Idle(cfg: Config, stays: Processor, s: Loop, n: nat): Loop
    decreases n
  {
    if n == 0 || s.status != Listening then s else Idle(cfg, stays, Turn(cfg, stays, s, Line("")), n - 1)
  }

  /** While the loop goes on, the command so far is within the limit. */
  lemma {:induction false} WithinLimit(cfg: Config, stays: Processor, s: Loop, input: string)
    requires s.status == Listening ==> |s.command| <= cfg.maxCommandSize
    ensures var end := Serve(cfg, stays, s, input);
            end.status == Listening ==> |end.command| <= cfg.maxCommandSize
    decreases |input|
  {
    if s.status == Listening && input != "" {
      WithinLimit(cfg, stays, Turn(cfg, stays, s, Line(input)), input[|Line(input)|..]);
    }
  }

  lemma {:induction false} IdleStays(cfg: Config, stays: Processor, s: Loop, n: nat)
    requires s.status == Listening && |s.command| <= cfg.maxCommandSize
    ensures Idle(cfg, stays, s, n) == s
  {
    assert s.command + "" == s.command;
    if n > 0 { IdleStays(cfg, stays, s, n - 1); }
  }

  /** The end of the stream does not end the loop: if no command has ended it by then, it goes round for
      ever, and neither its command nor anything handed over changes any more.  Only a negative limit
      would end it. */
  lemma EndOfStreamGoesOn(cfg: Config, stays: Processor, input: string)
    requires Serve(cfg, stays, START, input).status == Listening
    ensures (forall n: nat :: Idle(cfg, stays, Serve(cfg, stays, START, input), n) == Serve(cfg, stays, START, input))
            <==> cfg.maxCommandSize >= 0
  {
    hide Serve;
    var end := Serve(cfg, stays, START, input);
    if cfg.maxCommandSize >= 0 {
      WithinLimit(cfg, stays, START, input);
      forall n: nat ensures Idle(cfg, stays, end, n) == end {
        IdleStays(cfg, stays, end, n);
      }
    } else {
      IdleOnce(cfg, stays, end);
      assert Idle(cfg, stays, end, 1) != end;
    }
  }

  lemma IdleOnce(cfg: Config, stays: Processor, s: Loop)
    requires s.status == Listening && cfg.maxCommandSize < 0
    ensures Idle(cfg, stays, s, 1).status == TooLarge
  {
    assert Idle(cfg, stays, Turn(cfg, stays, s, Line("")), 0) == Turn(cfg, stays, s, Line(""));
  }

  // ---------------------------------------------------------------- requests

  type Request = (string, seq<Pair>)

  /** A command line that is neither blank nor the dot line, and fields without line breaks. */
  predicate RequestOk(r: Request) {
    r.0 != "" && r.0 != DOT && Plain(r.0) && FieldsOk(r.1)
  }

  function TextOf(r: Request): string { MessageText(r.0, r.1) }

  function Texts(requests: seq<Request>): (r: seq<string>)
    ensures |r| == |requests| && forall i :: 0 <= i < |r| ==> r[i] == TextOf(requests[i])
  {
    seq(|requests|, i requires 0 <= i < |requests| => TextOf(requests[i]))
  }

  function Stream(requests: seq<Request>): string {
    if requests == [] then "" else TextOf(requests[0]) + Stream(requests[1..])
  }

  lemma FirstLine(line: string, rest: string)
    requires Plain(line)
    ensures var input := line + CRLF + rest;
            Line(input) == line + CRLF && input[|line| + 2..] == rest
  {
    var input := line + CRLF + rest;
    forall k | 0 <= k < |line| + 1 ensures input[k] != '\n' {
      if k < |line| { assert input[k] == line[k] && line[k] in line; }
    }
    IndexOfIs(input, '\n', |line| + 1);
    assert input[..|line| + 2] == line + CRLF;
  }

  /** The loop on one line that is neither blank nor a dot. */
  lemma ServeLine(cfg: Config, stays: Processor, s: Loop, line: string, rest: string)
    requires Plain(line) && line != "" && line != DOT && s.status == Listening
    ensures var command := s.command + (line + CRLF);
            Serve(cfg, stays, s, line + CRLF + rest)
            == if |command| > cfg.maxCommandSize then s.(command := command, status := TooLarge)
               else Serve(cfg, stays, s.(command := command), rest)
  {
    FirstLine(line, rest);
    var l := line + CRLF;
    assert l[0] == line[0] && line[0] in line;
    assert |line| > 1 ==> l[1] == line[1] && line[1] in line;
  }

  /** The state after a whole request. */
  function After(cfg: Config, stays: Processor, handed: seq<string>, text: string): Loop {
    if cfg.commandTimeout <= 0 || |handed| < cfg.commandTimeout then
      Loop(if stays(handed + [text]) then Listening else ByCommand, "", handed + [text])
    else Loop(TimedOut, text, handed)
  }

  lemma ServeDot(cfg: Config, stays: Processor, handed: seq<string>, command: string, rest: string)
    ensures var text := command + DOT_LINE;
            Serve(cfg, stays, Loop(Listening, command, handed), DOT_LINE + rest)
            == if |text| > cfg.maxCommandSize then Loop(TooLarge, text, handed)
               else Serve(cfg, stays, After(cfg, stays, handed, text), rest)
  {
    FirstLine(DOT, rest);
    assert DOT_LINE + rest == DOT + CRLF + rest;
  }

  /** The rest of a request, after its first line. */
  lemma {:induction false} ServeFields(
      cfg: Config, stays: Processor, handed: seq<string>, command: string, fields: seq<Pair>, more: string)
    requires FieldsOk(fields)
    ensures var text := command + FieldLines(fields) + DOT_LINE;
            var end := Serve(cfg, stays, Loop(Listening, command, handed), FieldLines(fields) + DOT_LINE + more);
            if |text| > cfg.maxCommandSize then end.status == TooLarge && end.handed == handed
            else end == Serve(cfg, stays, After(cfg, stays, handed, text), more)
    decreases |fields|
  {
    hide Serve, After, FieldText, Turn;
    if fields == [] {
      assert FieldLines(fields) + DOT_LINE + more == DOT_LINE + more;
      assert command + FieldLines(fields) == command;
      ServeDot(cfg, stays, handed, command, more);
      ServeStopped(cfg, stays, Loop(TooLarge, command + DOT_LINE, handed), more);
    } else {
      var line, lines := FieldText(fields[0]), FieldLines(fields[1..]);
      var rest := lines + DOT_LINE + more;
      FieldTextOk(fields[0]);
      assert FieldLines(fields) + DOT_LINE + more == line + CRLF + rest;
      ServeLine(cfg, stays, Loop(Listening, command, handed), line, rest);
      assert command + FieldLines(fields) == command + (line + CRLF) + lines;
      ServeFields(cfg, stays, handed, command + (line + CRLF), fields[1..], more);
    }
  }

  lemma ServeStopped(cfg: Config, stays: Processor, s: Loop, input: string)
    requires s.status != Listening
    ensures Serve(cfg, stays, s, input) == s
  {}

  /** One request: handed over whole, exactly as it was sent, if and only if it is not too large. */
  lemma ServeRequest(cfg: Config, stays: Processor, handed: seq<string>, r: Request, more: string)
    requires RequestOk(r)
    ensures var end := Serve(cfg, stays, Loop(Listening, "", handed), TextOf(r) + more);
            if |TextOf(r)| > cfg.maxCommandSize then end.status == TooLarge && end.handed == handed
            else end == Serve(cfg, stays, After(cfg, stays, handed, TextOf(r)), more)
  {
    hide Serve, After, FieldLines, Turn;
    var line, rest := r.0, FieldLines(r.1) + DOT_LINE + more;
    assert TextOf(r) + more == line + CRLF + rest;
    assert TextOf(r) == line + CRLF + FieldLines(r.1) + DOT_LINE;
    ServeLine(cfg, stays, Loop(Listening, "", handed), line, rest);
    assert "" + (line + CRLF) == line + CRLF;
    ServeFields(cfg, stays, handed, line + CRLF, r.1, more);
  }

  /** The loop may execute that many more commands before it simulates a timeout. */
  predicate InTime(cfg: Config, executed: nat, n: nat) {
    cfg.commandTimeout <= 0 || executed + n <= cfg.commandTimeout
  }

  /** Any number of requests in one stream, none too large and none but the last one closing the
      connection: exactly their texts are handed over, in order, and whatever follows is read as if
      it came alone; nothing follows if the last one closes the connection. */
  lemma {:induction false} ServeAll(cfg: Config, stays: Processor, handed: seq<string>, requests: seq<Request>, more: string)
    requires forall i :: 0 <= i < |requests| ==> RequestOk(requests[i]) && |TextOf(requests[i])| <= cfg.maxCommandSize
    requires InTime(cfg, |handed|, |requests|)
    requires forall i :: 0 < i < |requests| ==> stays(handed + Texts(requests[..i]))
    ensures var all := handed + Texts(requests);
            var open := requests == [] || stays(all);
            Serve(cfg, stays, Loop(Listening, "", handed), Stream(requests) + more)
            == if open then Serve(cfg, stays, Loop(Listening, "", all), more) else Loop(ByCommand, "", all)
    decreases |requests|
  {
    hide Serve, TextOf, Turn, RequestOk;
    if requests == [] {
      assert Stream(requests) + more == more && handed + Texts(requests) == handed;
    } else {
      var text, tail := TextOf(requests[0]), requests[1..];
      Concat(text, Stream(tail), more);
      ServeRequest(cfg, stays, handed, requests[0], Stream(tail) + more);
      var longer := handed + [text];
      assert longer + Texts(tail) == handed + Texts(requests);
      assert longer == handed + Texts(requests[..1]);
      if stays(longer) {
        forall i | 0 < i < |tail| ensures stays(longer + Texts(tail[..i])) {
          assert longer + Texts(tail[..i]) == handed + Texts(requests[..i + 1]);
        }
        ServeAll(cfg, stays, longer, tail, more);
        if tail == [] { assert longer + Texts(tail) == longer; }
      } else {
        OnlyRequest(requests, handed, stays);
        ServeStopped(cfg, stays, Loop(ByCommand, "", longer), Stream(tail) + more);
      }
    }
  }

  lemma OnlyRequest(requests: seq<Request>, handed: seq<string>, stays: Processor)
    requires requests != [] && !stays(handed + [TextOf(requests[0])])
    requires forall i :: 0 < i < |requests| ==> stays(handed + Texts(requests[..i]))
    ensures |requests| == 1 && Texts(requests) == [TextOf(requests[0])]
  {
    assert Texts(requests[..1]) == [TextOf(requests[0])];
  }

  // ---------------------------------------------------------------- blank lines and the timeout

  /** Whole lines: nothing, or text that ends with a newline. */
  predicate WholeLines(a: string) { a == "" || a[|a| - 1] == '\n' }

  lemma LineOfPrefix(a: string, b: string)
    requires WholeLines(a) && a != ""
    ensures Line(a + b) == Line(a) && Line(a) != "" && WholeLines(a[|Line(a)|..])
    ensures (a + b)[|Line(a)|..] == a[|Line(a)|..] + b
  {
    var i := IndexOf(a, '\n');
    assert '\n' in a;
    assert i < |a|;
    assert (a + b)[..i] == a[..i];
    IndexOfIs(a + b, '\n', i);
    assert (a + b)[..i + 1] == a[..i + 1];
  }

  /** Whole lines first, and then the rest. */
  lemma {:induction false} ServeSplit(cfg: Config, stays: Processor, s: Loop, a: string, b: string)
    requires WholeLines(a)
    ensures Serve(cfg, stays, s, a + b) == Serve(cfg, stays, Serve(cfg, stays, s, a), b)
    decreases |a|
  {
    hide Turn, Line;
    if a == "" {
      assert a + b == b;
    } else if s.status == Listening {
      LineOfPrefix(a, b);
      ServeSplit(cfg, stays, Turn(cfg, stays, s, Line(a)), a[|Line(a)|..], b);
    }
  }

  /** A blank line between any two lines, of one request or of two, makes no difference. */
  lemma BlankLinesDoNotMatter(cfg: Config, stays: Processor, s: Loop, a: string, b: string)
    requires WholeLines(a)
    ensures Serve(cfg, stays, s, a + ("\r\n" + b)) == Serve(cfg, stays, s, a + b)
  {
    hide Line;
    ServeSplit(cfg, stays, s, a, "\r\n" + b);
    ServeSplit(cfg, stays, s, a, b);
    FirstLine("", b);
    assert "" + CRLF + b == "\r\n" + b;
  }

  /** A newline alone is no blank line, and a dot with one is no end: both become part of the command. */
  lemma BareNewlines(cfg: Config, stays: Processor, s: Loop, line: string)
    requires line == "\n" || line == ".\n" || line == " \r\n" || line == "..\r\n"
    requires s.status == Listening && |s.command| + |line| <= cfg.maxCommandSize
    ensures Turn(cfg, stays, s, line) == s.(command := s.command + line)
  {
    assert DOT_LINE == ".\r\n";
    assert "..\r\n"[1] != '\r' && " \r\n"[0] != '.' && |".\n"| == 2;
  }

  lemma {:induction false} StreamSplit(requests: seq<Request>, m: nat)
    requires m <= |requests|
    ensures Stream(requests) == Stream(requests[..m]) + Stream(requests[m..])
    decreases m
  {
    hide TextOf;
    if m == 0 {
      assert requests[0..] == requests;
    } else {
      assert requests[..m][1..] == requests[1..][..m - 1] && requests[1..][m - 1..] == requests[m..];
      StreamSplit(requests[1..], m - 1);
      Concat(TextOf(requests[0]), Stream(requests[1..][..m - 1]), Stream(requests[m..]));
    }
  }

  /** With a positive timeout exactly that many commands are executed; the one after them is not, and ends
      the connection. */
  lemma TimeoutExactly(cfg: Config, stays: Processor, handed: seq<string>, requests: seq<Request>, more: string)
    requires cfg.commandTimeout > 0 && |handed| <= cfg.commandTimeout < |handed| + |requests|
    requires forall i :: 0 <= i < |requests| ==> RequestOk(requests[i]) && |TextOf(requests[i])| <= cfg.maxCommandSize
    requires forall i :: 0 < i <= cfg.commandTimeout - |handed| ==> stays(handed + Texts(requests[..i]))
    ensures var end := Serve(cfg, stays, Loop(Listening, "", handed), Stream(requests) + more);
            end.status == TimedOut && end.handed == handed + Texts(requests[..cfg.commandTimeout - |handed|])
  {
    hide Serve, TextOf, Turn, RequestOk;
    var m := cfg.commandTimeout - |handed|;
    var first, rest := requests[..m], requests[m..];
    var all := handed + Texts(first);
    StreamSplit(requests, m);
    Concat(Stream(first), Stream(rest), more);
    forall i | 0 < i < |first| ensures stays(handed + Texts(first[..i])) {
      assert first[..i] == requests[..i];
    }
    ServeAll(cfg, stays, handed, first, Stream(rest) + more);
    var text := TextOf(rest[0]);
    Concat(text, Stream(rest[1..]), more);
    ServeRequest(cfg, stays, all, rest[0], Stream(rest[1..]) + more);
    ServeStopped(cfg, stays, Loop(TimedOut, text, all), Stream(rest[1..]) + more);
  }

  // ---------------------------------------------------------------- splitting a command

  function Split(s: string): (r: seq<string>)
    ensures r != []
    decreases |s|
  {
    var end := FindText(s, CRLF);
    if end == |s| then [s]
    else
      FindTextFirst(s, CRLF);
      [s[..end]] + Split(s[end + 2..])
  }

  function DropEmpty(lines: seq<string>): seq<string> {
    if lines != [] && lines[|lines| - 1] == "" then DropEmpty(lines[..|lines| - 1]) else lines
  }

  /** The lines of a command, in lower case and without empty ones at the end. */
  function CommandLines(command: string): seq<string> { DropEmpty(Split(Lower(command))) }

  /** The lines between the command name and the terminator. */
  function ShiftPop(lines: seq<string>): seq<string> {
    if |lines| <= 1 then [] else lines[1..|lines| - 1]
  }

  // A line split at its first colon; the second element is missing if it has none.
  datatype Element = Element(key: string, value: Option<string>)

  function SplitColon(line: string): Element {
    var i := IndexOf(line, ':');
    if i < |line| then Element(line[..i], Some(line[i + 1..])) else Element(line, None)
  }

  function LowerField(p: Pair): Pair { (Lower(p.0), Lower(p.1)) }

  function LowerAll(fields: seq<Pair>): (r: seq<Pair>)
    ensures |r| == |fields| && forall i :: 0 <= i < |r| ==> r[i] == LowerField(fields[i])
  {
    seq(|fields|, i requires 0 <= i < |fields| => LowerField(fields[i]))
  }

  lemma LowerConcat(a: string, b: string)
    ensures Lower(a + b) == Lower(a) + Lower(b)
  {}

  lemma LowerPlain(s: string)
    requires Plain(s)
    ensures Plain(Lower(s)) && (':' !in s ==> ':' !in Lower(s)) && (s != "" ==> Lower(s) != "")
  {
    forall c | c in Lower(s) ensures c != '\r' && c != '\n' && c != '\0' && (':' !in s ==> c != ':') {
      var i :| 0 <= i < |s| && Lower(s)[i] == c;
      assert s[i] in s;
    }
  }

  lemma LowerFieldsOk(fields: seq<Pair>)
    requires FieldsOk(fields)
    ensures FieldsOk(LowerAll(fields))
  {
    hide Lower;
    forall i | 0 <= i < |fields| ensures FieldOk(LowerAll(fields)[i]) {
      LowerPlain(fields[i].0);
      LowerPlain(fields[i].1);
    }
  }

  lemma LowerConstants()
    ensures Lower(CRLF) == CRLF && Lower(":") == ":" && Lower(DOT) == DOT && Lower("") == ""
  {}

  lemma {:induction false} LowerFieldLines(fields: seq<Pair>)
    ensures Lower(FieldLines(fields)) == FieldLines(LowerAll(fields))
    decreases |fields|
  {
    hide Lower;
    LowerConstants();
    if fields != [] {
      var p := fields[0];
      LowerConcat(FieldText(p) + CRLF, FieldLines(fields[1..]));
      LowerConcat(FieldText(p), CRLF);
      LowerConcat(p.0 + ":", p.1);
      LowerConcat(p.0, ":");
      LowerFieldLines(fields[1..]);
      assert LowerAll(fields)[1..] == LowerAll(fields[1..]);
    }
  }

  /** The text of a request in lower case is the text of the request in lower case. */
  lemma LowerMessage(command: string, fields: seq<Pair>)
    ensures Lower(MessageText(command, fields)) == MessageText(Lower(command), LowerAll(fields))
  {
    hide Lower, FieldLines;
    var lines := FieldLines(fields);
    LowerConstants();
    LowerConcat(command + CRLF + lines + DOT, CRLF);
    LowerConcat(command + CRLF + lines, DOT);
    LowerConcat(command + CRLF, lines);
    LowerConcat(command, CRLF);
    LowerFieldLines(fields);
  }

  lemma SplitLine(line: string, rest: string)
    requires Plain(line)
    ensures Split(line + CRLF + rest) == [line] + Split(rest)
  {
    var s := line + CRLF + rest;
    assert '\r' !in line;
    FindCrlf(line, rest);
    assert s[..|line|] == line && s[|line| + 2..] == rest;
  }

  lemma {:induction false} SplitFields(fields: seq<Pair>)
    requires FieldsOk(fields)
    ensures Split(FieldLines(fields) + DOT + CRLF) == FieldTexts(fields) + [DOT, ""]
    decreases |fields|
  {
    hide Split, FieldText;
    if fields == [] {
      assert FieldLines(fields) + DOT + CRLF == DOT + CRLF + "";
      SplitLine(DOT, "");
      SplitNothing();
    } else {
      var line, rest := FieldText(fields[0]), FieldLines(fields[1..]) + DOT + CRLF;
      FieldTextOk(fields[0]);
      assert FieldLines(fields) + DOT + CRLF == line + CRLF + rest;
      SplitLine(line, rest);
      SplitFields(fields[1..]);
    }
  }

  lemma SplitNothing()
    ensures Split("") == [""]
  {}

  /** The lines of a request, in lower case. */
  lemma RequestLines(command: string, fields: seq<Pair>)
    requires Plain(command) && FieldsOk(fields)
    ensures CommandLines(MessageText(command, fields)) == [Lower(command)] + FieldTexts(LowerAll(fields)) + [DOT]
  {
    hide Lower, Split, FieldLines, FieldText;
    var name, lowered := Lower(command), LowerAll(fields);
    LowerMessage(command, fields);
    LowerPlain(command);
    LowerFieldsOk(fields);
    var rest := FieldLines(lowered) + DOT + CRLF;
    assert MessageText(name, lowered) == name + CRLF + rest;
    SplitLine(name, rest);
    SplitFields(lowered);
    var lines := [name] + FieldTexts(lowered) + [DOT];
    var whole := [name] + (FieldTexts(lowered) + [DOT, ""]);
    assert whole[..|whole| - 1] == lines;
    assert DropEmpty(lines) == lines;
  }

  /** What the server makes of a request: the command name in lower case, and one line for each
      field, in order, from which the first colon recovers key and value in lower case, whatever
      colons the value has. */
  lemma RequestRecovered(command: string, fields: seq<Pair>)
    requires Plain(command) && FieldsOk(fields)
    ensures var lines := CommandLines(MessageText(command, fields));
            lines != [] && lines[0] == Lower(command) && |ShiftPop(lines)| == |fields|
            && forall i :: 0 <= i < |fields| ==>
                 SplitColon(ShiftPop(lines)[i]) == Element(Lower(fields[i].0), Some(Lower(fields[i].1)))
  {
    hide Lower, FieldText, CommandLines;
    var lowered := LowerAll(fields);
    RequestLines(command, fields);
    LowerFieldsOk(fields);
    assert ShiftPop([Lower(command)] + FieldTexts(lowered) + [DOT]) == FieldTexts(lowered);
    forall i | 0 <= i < |fields|
      ensures SplitColon(FieldTexts(lowered)[i]) == Element(Lower(fields[i].0), Some(Lower(fields[i].1)))
    {
      SplitField(lowered[i]);
    }
  }

  lemma SplitField(p: Pair)
    requires FieldOk(p)
    ensures SplitColon(FieldText(p)) == Element(p.0, Some(p.1))
  {
    FieldTextOk(p);
    assert FieldText(p)[..|p.0|] == p.0 && FieldText(p)[|p.0| + 1..] == p.1;
  }
}
