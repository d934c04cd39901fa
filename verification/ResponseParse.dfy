/**
 A response as the server renders it, and what the C and the Java client make of it.
 */
module ResponseParse {
  import opened Common
  import opened Text
  import opened Multimap
  import opened Protocol
  import opened RrpProperties
  import opened ResponseRead

  /** Code, space, description, one line for each attribute, and a dot. */
  function Render(code: string, description: string, attributes: seq<Pair>): string {
    MessageText(code + " " + description, attributes)
  }

  predicate RenderOk(code: string, description: string, attributes: seq<Pair>) {
    AllDigits(code) && DigitPrefix(code, 0) <= 0x7FFF_FFFF && Plain(description) && FieldsOk(attributes)
  }

  // ---------------------------------------------------------------- the C client

  predicate IsSpace(c: char) { c == ' ' || '\t' <= c <= '\r' }

  function SkipSpace(s: string): string {
    if s != "" && IsSpace(s[0]) then SkipSpace(s[1..]) else s
  }

  /** `atoi` for numbers that fit an `int`. */
  function Atoi(s: string): int {
    var t := SkipSpace(s);
    if t != "" && t[0] == '-' then -DigitPrefix(t[1..], 0)
    else if t != "" && t[0] == '+' then DigitPrefix(t[1..], 0)
    else DigitPrefix(t, 0)
  }

  datatype Parsed = Parsed(code: int, description: string, attributes: Option<seq<Entry>>)

  /** The list of properties is created by the first attribute. */
  function Existing(attributes: Option<seq<Entry>>): seq<Entry> {
    if attributes.Some? then attributes.value else []
  }

  function PutPair(m: seq<Entry>, line: string): seq<Entry>
    requires ':' in line
  {
    var i := IndexOf(line, ':');
    Put(m, line[..i], line[i + 1..])
  }

  /** The loop over lines; a code of -1 means that none has been read yet, and any line without a
      colon ends a response. */
  function ParseLines(s: string, code: int, description: string, attributes: Option<seq<Entry>>): Option<Parsed>
    decreases |s|
  {
    var end := FindText(s, CRLF);
    if end == |s| then None
    else
      FindTextFirst(s, CRLF);
      var line, rest := s[..end], s[end + 2..];
      if code == -1 then
        var space := IndexOf(line, ' ');
        if space == |line| then None
        else ParseLines(rest, Atoi(line[..space]), line[space + 1..], attributes)
      else if ':' in line then
        ParseLines(rest, code, description, Some(PutPair(Existing(attributes), line)))
      else Some(Parsed(code, description, attributes))
  }

  function ParseC(s: string): Option<Parsed> {
    ParseLines(CString(s), -1, "", None)
  }

  /** `parseResponse`, building a list of properties on the heap. */
  method ParseResponse(text: string)
    returns (found: bool, code: int, description: string, attributes: Properties?)
    ensures attributes != null ==> attributes.Valid() && fresh(attributes.Repr)
    ensures found == ParseC(text).Some?
    ensures found ==>
              ParseC(text).value
              == Parsed(code, description, if attributes == null then None else Some(attributes.entries))
  {
    hide FindText, CString, Properties.Valid, Atoi, Put;
    var line := CString(text);
    found, code, description, attributes := false, -1, "", null;
    while true
      invariant attributes != null ==> attributes.Valid() && fresh(attributes.Repr)
      invariant ParseC(text)
                == ParseLines(line, code, description, if attributes == null then None else Some(attributes.entries))
      decreases |line|
    {
      var end := FindText(line, CRLF);
      if end == |line| { return; }
      FindTextFirst(line, CRLF);
      var current := line[..end];
      if code == -1 {
        var space := IndexOf(current, ' ');
        if space == |current| { return; }
        code, description := Atoi(current[..space]), current[space + 1..];
      } else if ':' in current {
        if attributes == null {
          attributes := new Properties();
        }
        var _ := attributes.PutPair(current);
      } else {
        found := true;
        return;
      }
      line := line[end + 2..];
    }
  }

  // ---------------------------------------------------------------- the Java client

  predicate IsBreak(c: char) { c == '\r' || c == '\n' }

  function BreakIndex(s: string): (i: nat)
    ensures i <= |s| && (forall j :: 0 <= j < i ==> !IsBreak(s[j])) && (i < |s| ==> IsBreak(s[i]))
  {
    if s == "" || IsBreak(s[0]) then 0 else 1 + BreakIndex(s[1..])
  }

  /** The tokens of a `StringTokenizer` on CR and LF. */
  function Tokens(s: string): seq<string> {
    if s == "" then []
    else if IsBreak(s[0]) then Tokens(s[1..])
    else [s[..BreakIndex(s)]] + Tokens(s[BreakIndex(s)..])
  }

  function TrimLeft(s: string): (r: string)
    ensures |r| <= |s| && (r != "" ==> r[0] > ' ') && (s != "" && s[0] > ' ' ==> r == s)
  {
    if s != "" && s[0] <= ' ' then TrimLeft(s[1..]) else s
  }

  function TrimRight(s: string): (r: string)
    ensures r <= s && (r != "" ==> r[|r| - 1] > ' ') && (s != "" && s[|s| - 1] > ' ' ==> r == s)
  {
    if s != "" && s[|s| - 1] <= ' ' then TrimRight(s[..|s| - 1]) else s
  }

  /** `String.trim` */
  function Trim(s: string): string { TrimRight(TrimLeft(s)) }

  /** `Integer.parseInt`: nothing unless the text is a number that fits. */
  function ParseInt(s: string): Option<int> {
    var negative := s != "" && s[0] == '-';
    var digits := if negative then s[1..] else s;
    if !AllDigits(digits) then None
    else
      var value := if negative then -DigitPrefix(digits, 0) else DigitPrefix(digits, 0);
      if -0x8000_0000 <= value <= 0x7FFF_FFFF then Some(value) else None
  }

  type Table = map<string, seq<string>>

  function AddTo(table: Table, key: string, value: string): Table {
    table[key := (if key in table then table[key] else []) + [value]]
  }

  datatype JavaParsed = JavaParsed(code: int, description: string, attributes: Option<Table>)

  function ExistingTable(attributes: Option<Table>): Table {
    if attributes.Some? then attributes.value else map[]
  }

  /** The attributes from the tokens behind the first; none if a line is in error. */
  function TableFrom(tokens: seq<string>, attributes: Option<Table>): Option<Option<Table>> {
    if tokens == [] then Some(attributes)
    else
      var line := tokens[0];
      var colon := IndexOf(line, ':');
      if colon == |line| then if Trim(line) == DOT then Some(attributes) else None
      else
        TableFrom(tokens[1..],
                  Some(AddTo(ExistingTable(attributes), Lower(Trim(line[..colon])), Trim(line[colon + 1..]))))
  }

  /** The parsed response, or none where the client throws an exception. */
  function ParseJava(s: string): Option<JavaParsed> {
    var tokens := Tokens(s);
    if tokens == [] then None
    else
      var space := IndexOf(tokens[0], ' ');
      if space == |tokens[0]| then None
      else
        var code, description := ParseInt(Trim(tokens[0][..space])), Trim(tokens[0][space + 1..]);
        if code.None? || description == "" then None
        else
          match TableFrom(tokens[1..], None)
          case None => None
          case Some(table) => Some(JavaParsed(code.value, description, table))
  }

  class Response {
    var code: int
    var description: string
    var attributes: Option<Table>

    constructor ()
      ensures attributes == None
    {
      code, description, attributes := 0, "", None;
    }

    /** `parseRawResponse` on a new object; `ok` is false where it throws an exception. */
    method ParseRawResponse(data: string) returns (ok: bool)
      requires attributes == None
      modifies this
      ensures ok == ParseJava(data).Some?
      ensures ok ==> ParseJava(data) == Some(JavaParsed(code, description, attributes))
    {
      hide Trim, Lower, Tokens, ParseInt, AddTo, IndexOf;
      var tokens := Tokens(data);
      if tokens == [] { return false; }
      var line := tokens[0];
      var space := IndexOf(line, ' ');
      if space == |line| { return false; }
      var number := ParseInt(Trim(line[..space]));
      if number.None? { return false; }
      code := number.value;
      var text := Trim(line[space + 1..]);
      if |text| == 0 { return false; }
      description := text;
      var next := 1;
      while next < |tokens|
        invariant 1 <= next <= |tokens|
        invariant code == number.value && description == text
        invariant TableFrom(tokens[1..], None) == TableFrom(tokens[next..], attributes)
      {
        line := tokens[next];
        assert tokens[next..][1..] == tokens[next + 1..];
        next := next + 1;
        var colon := IndexOf(line, ':');
        if colon == |line| {
          return Trim(line) == DOT;
        }
        AddAttribute(Lower(Trim(line[..colon])), Trim(line[colon + 1..]));
      }
      ok := true;
    }

    method AddAttribute(key: string, value: string)
      modifies `attributes
      ensures attributes == Some(AddTo(ExistingTable(old(attributes)), key, value))
    {
      if attributes == None {
        attributes := Some(map[]);
      }
      var table := attributes.value;
      ghost var before := table;
      if key !in table {
        table := table[key := []];
      }
      attributes := Some(table[key := table[key] + [value]]);
      assert attributes.value == AddTo(before, key, value);
    }
  }
}
