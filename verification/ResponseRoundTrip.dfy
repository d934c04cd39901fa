/**
 From a rendered response, through any cutting of the byte stream, to what each client parses;
 and when the two clients agree.
 */
module ResponseRoundTrip {
  import opened Common
  import opened Text
  import opened Multimap
  import opened Protocol
  import opened ResponseRead
  import opened ResponseParse

  // ---------------------------------------------------------------- the C client

  /** Puts in order, on top of a multimap. */
  function PutMany(m: seq<Entry>, pairs: seq<Pair>): seq<Entry>
    decreases |pairs|
  {
    if pairs == [] then m else PutMany(Put(m, pairs[0].0, pairs[0].1), pairs[1..])
  }

  lemma {:induction false} PutManyAll(before: seq<Pair>, pairs: seq<Pair>)
    ensures PutMany(PutAll(before), pairs) == PutAll(before + pairs)
    decreases |pairs|
  {
    if pairs == [] {
      assert before + pairs == before;
    } else {
      var longer := before + [pairs[0]];
      assert longer[..|longer| - 1] == before && longer + pairs[1..] == before + pairs;
      PutManyAll(longer, pairs[1..]);
    }
  }

  lemma AtoiDigits(code: string)
    requires AllDigits(code)
    ensures Atoi(code) == DigitPrefix(code, 0)
  {
    assert code[0] in code;
  }

  /** One line without carriage returns, as the loop sees it. */
  lemma FirstLine(line: string, rest: string)
    requires Plain(line)
    ensures var s := line + CRLF + rest;
            FindText(s, CRLF) == |line| < |s| && s[..|line|] == line && s[|line| + 2..] == rest
  {
    assert '\r' !in line;
    FindCrlf(line, rest);
  }

  lemma {:induction false} FieldLinesParse(fields: seq<Pair>, code: int, description: string, attributes: Option<seq<Entry>>)
    requires FieldsOk(fields) && code != -1
    ensures ParseLines(FieldLines(fields) + DOT + CRLF, code, description, attributes)
            == Some(Parsed(code, description,
                           if fields == [] then attributes else Some(PutMany(Existing(attributes), fields))))
    decreases |fields|
  {
    hide FindText;
    var s := FieldLines(fields) + DOT + CRLF;
    if fields == [] {
      assert s == DOT + CRLF + "";
      FirstLine(DOT, "");
    } else {
      var line, rest := FieldText(fields[0]), FieldLines(fields[1..]) + DOT + CRLF;
      assert s == line + CRLF + rest;
      FieldTextOk(fields[0]);
      FirstLine(line, rest);
      assert line[..|fields[0].0|] == fields[0].0 && line[|fields[0].0| + 1..] == fields[0].1;
      FieldLinesParse(fields[1..], code, description, Some(PutPair(Existing(attributes), line)));
    }
  }

  lemma DigitsPlain(code: string, description: string)
    requires AllDigits(code) && Plain(description)
    ensures Plain(code + " " + description) && IndexOf(code + " " + description, ' ') == |code|
  {
    var s := code + " " + description;
    assert forall c <- code :: IsDigit(c);
    assert s[|code|] == ' ' && s[..|code|] == code;
    IndexOfIs(s, ' ', |code|);
  }

  lemma RenderNulFree(code: string, description: string, attributes: seq<Pair>)
    requires RenderOk(code, description, attributes)
    ensures NulFree(Render(code, description, attributes))
  {
    DigitsPlain(code, description);
    FieldLinesNulFree(attributes);
  }

  lemma {:induction false} FieldLinesNulFree(fields: seq<Pair>)
    requires FieldsOk(fields)
    ensures NulFree(FieldLines(fields))
  {
    if fields != [] {
      FieldTextOk(fields[0]);
      FieldLinesNulFree(fields[1..]);
    }
  }

  /** The first line gives code and description. */
  lemma FirstLineParses(code: string, description: string, rest: string)
    requires AllDigits(code) && Plain(description)
    ensures ParseLines(code + " " + description + CRLF + rest, -1, "", None)
            == ParseLines(rest, DigitPrefix(code, 0), description, None)
  {
    hide FindText, Atoi, DigitPrefix, AllDigits;
    var line := code + " " + description;
    DigitsPlain(code, description);
    FirstLine(line, rest);
    assert line[..|code|] == code && line[|code| + 1..] == description;
    AtoiDigits(code);
  }

  /** The C client recovers code and description, and groups the attributes by key in order. */
  lemma CRoundTrip(code: string, description: string, attributes: seq<Pair>)
    requires RenderOk(code, description, attributes)
    ensures ParseC(Render(code, description, attributes))
            == Some(Parsed(DigitPrefix(code, 0), description, if attributes == [] then None else Some(PutAll(attributes))))
  {
    assert PutAll([]) == [];
    hide FindText, DigitPrefix, PutAll, PutMany, CString, FieldLines, FieldsOk, MessageText, ParseLines, AllDigits;
    RenderNulFree(code, description, attributes);
    CStringWhole(Render(code, description, attributes));
    MessageParts(code + " " + description, attributes);
    FirstLineParses(code, description, FieldLines(attributes) + DOT + CRLF);
    FieldLinesParse(attributes, DigitPrefix(code, 0), description, None);
    PutManyAll([], attributes);
    assert [] + attributes == attributes;
  }

  // ---------------------------------------------------------------- the Java client

  lemma {:induction false} BreakIndexIs(line: string, rest: string)
    requires Plain(line)
    ensures BreakIndex(line + CRLF + rest) == |line|
  {
    var s := line + CRLF + rest;
    forall k | 0 <= k < |line| ensures !IsBreak(s[k]) {
      assert s[k] == line[k] && line[k] in line;
    }
    assert IsBreak(s[|line|]);
  }

  lemma TokensLine(line: string, rest: string)
    requires Plain(line) && line != ""
    ensures Tokens(line + CRLF + rest) == [line] + Tokens(rest)
  {
    var s := line + CRLF + rest;
    BreakIndexIs(line, rest);
    assert line[0] in line && s[0] == line[0];
    assert s[..|line|] == line && s[|line|..] == CRLF + rest;
    assert (CRLF + rest)[1..] == "\n" + rest && ("\n" + rest)[1..] == rest;
    assert Tokens(CRLF + rest) == Tokens("\n" + rest) == Tokens(rest);
  }

  lemma {:induction false} TokensFields(fields: seq<Pair>)
    requires FieldsOk(fields)
    ensures Tokens(FieldLines(fields) + DOT + CRLF) == FieldTexts(fields) + [DOT]
  {
    var s := FieldLines(fields) + DOT + CRLF;
    if fields == [] {
      assert s == DOT + CRLF + "";
      TokensLine(DOT, "");
    } else {
      var line, rest := FieldText(fields[0]), FieldLines(fields[1..]) + DOT + CRLF;
      assert s == line + CRLF + rest;
      FieldTextOk(fields[0]);
      TokensLine(line, rest);
      TokensFields(fields[1..]);
    }
  }

  function AddMany(table: Table, pairs: seq<Pair>): Table
    decreases |pairs|
  {
    if pairs == [] then table else AddMany(AddTo(table, pairs[0].0, pairs[0].1), pairs[1..])
  }

  /** What the Java client stores for an attribute. */
  function Normal(p: Pair): Pair { (Lower(Trim(p.0)), Trim(p.1)) }

  function NormalAll(pairs: seq<Pair>): (r: seq<Pair>)
    ensures |r| == |pairs| && forall i :: 0 <= i < |r| ==> r[i] == Normal(pairs[i])
  {
    if pairs == [] then [] else [Normal(pairs[0])] + NormalAll(pairs[1..])
  }

  lemma TrimDot()
    ensures Trim(DOT) == DOT
  {}

  lemma {:induction false} TableFromFields(fields: seq<Pair>, attributes: Option<Table>)
    requires FieldsOk(fields)
    ensures TableFrom(FieldTexts(fields) + [DOT], attributes)
            == Some(if fields == [] then attributes else Some(AddMany(ExistingTable(attributes), NormalAll(fields))))
    decreases |fields|
  {
    hide Trim, Lower;
    var tokens := FieldTexts(fields) + [DOT];
    if fields == [] {
      assert tokens == [DOT];
      TrimDot();
      IndexOfIs(DOT, ':', 1);
    } else {
      var p := fields[0];
      FieldTextOk(p);
      assert tokens[0] == FieldText(p) && tokens[1..] == FieldTexts(fields[1..]) + [DOT];
      assert FieldText(p)[..|p.0|] == p.0 && FieldText(p)[|p.0| + 1..] == p.1;
      var table := AddTo(ExistingTable(attributes), Normal(p).0, Normal(p).1);
      TableFromFields(fields[1..], Some(table));
      assert NormalAll(fields)[1..] == NormalAll(fields[1..]);
    }
  }

  lemma TrimDigits(code: string)
    requires AllDigits(code)
    ensures Trim(code) == code
  {
    assert code[0] in code && code[|code| - 1] in code;
  }

  /** The Java client recovers the code, the trimmed description, which must not be empty, and groups
      the attributes with their keys trimmed and in lower case and their values trimmed. */
  lemma JavaRoundTrip(code: string, description: string, attributes: seq<Pair>)
    requires RenderOk(code, description, attributes)
    ensures ParseJava(Render(code, description, attributes))
            == if Trim(description) == "" then None
               else Some(JavaParsed(DigitPrefix(code, 0), Trim(description),
                                    if attributes == [] then None else Some(AddMany(map[], NormalAll(attributes)))))
  {
    hide Trim, Lower, Tokens;
    var s, line := Render(code, description, attributes), code + " " + description;
    DigitsPlain(code, description);
    var rest := FieldLines(attributes) + DOT + CRLF;
    assert s == line + CRLF + rest;
    TokensLine(line, rest);
    TokensFields(attributes);
    var tokens := Tokens(s);
    assert tokens[0] == line && tokens[1..] == FieldTexts(attributes) + [DOT];
    assert line[..|code|] == code && line[|code| + 1..] == description;
    TrimDigits(code);
    assert code[0] in code;
    assert ParseInt(code) == Some(DigitPrefix(code, 0));
    TableFromFields(attributes, None);
  }

  // ---------------------------------------------------------------- agreement

  /** A multimap as a table from keys to value lists. */
  function ToTable(m: seq<Entry>): Table {
    map key <- Keys(m) :: Values(m, key)
  }

  lemma ToTablePut(m: seq<Entry>, key: string, value: string)
    requires UniqueKeys(m)
    ensures ToTable(Put(m, key, value)) == AddTo(ToTable(m), key, value)
  {
    hide Put, Values, Keys, UniqueKeys;
    var after := Put(m, key, value);
    PutKeeps(m, key, value);
    forall k | k in Keys(after)
      ensures Values(after, k) == AddTo(ToTable(m), key, value)[k]
    {
      PutInTable(m, key, value, k);
    }
    assert ToTable(after).Keys == AddTo(ToTable(m), key, value).Keys;
  }

  /** What one key of the table holds after a put. */
  lemma PutInTable(m: seq<Entry>, key: string, value: string, k: string)
    requires UniqueKeys(m) && k in Keys(Put(m, key, value))
    ensures k in AddTo(ToTable(m), key, value) && Values(Put(m, key, value), k) == AddTo(ToTable(m), key, value)[k]
  {
    hide Put, Values, Keys, UniqueKeys;
    PutKeeps(m, key, value);
    PutValues(m, key, value, k);
    if key !in Keys(m) { AbsentValues(m, key); }
  }

  lemma AbsentValues(m: seq<Entry>, key: string)
    requires key !in Keys(m)
    ensures Values(m, key) == []
  {}

  lemma {:induction false} AddManyTable(m: seq<Entry>, pairs: seq<Pair>)
    requires UniqueKeys(m)
    ensures AddMany(ToTable(m), pairs) == ToTable(PutMany(m, pairs))
    decreases |pairs|
  {
    if pairs != [] {
      var p := pairs[0];
      PutKeeps(m, p.0, p.1);
      ToTablePut(m, p.0, p.1);
      AddManyTable(Put(m, p.0, p.1), pairs[1..]);
    }
  }

  /** The Java table of some pairs is the table of the C client's list for the same pairs. */
  lemma SameTable(pairs: seq<Pair>)
    ensures AddMany(map[], pairs) == ToTable(PutAll(pairs))
  {
    assert ToTable([]) == map[];
    AddManyTable([], pairs);
    PutManyAll([], pairs);
    assert [] + pairs == pairs;
  }

  lemma {:induction false} NormalTwice(p: Pair)
    ensures Normal(Normal(p)) == Normal(p)
  {
    var k := Trim(p.0);
    TrimmedStays(Trim(p.1));
    TrimmedStays(k);
    if k != "" {
      TrimEnds(p.0);
      assert LowerChar(k[0]) > ' ' && LowerChar(k[|k| - 1]) > ' ';
    }
    assert Trim(Lower(k)) == Lower(k);
    assert Lower(Lower(k)) == Lower(k);
  }

  lemma TrimEnds(s: string)
    ensures Trim(s) != "" ==> Trim(s)[0] > ' ' && Trim(s)[|Trim(s)| - 1] > ' '
  {}

  lemma TrimmedStays(s: string)
    requires s != "" ==> s[0] > ' ' && s[|s| - 1] > ' '
    ensures Trim(s) == s
  {}

  lemma {:induction false} FirstKeysAre(pairs: seq<Pair>, key: string)
    ensures key in FirstKeys(pairs) <==> exists i :: 0 <= i < |pairs| && pairs[i].0 == key
    decreases |pairs|
  {
    if pairs != [] {
      var before, last := pairs[..|pairs| - 1], pairs[|pairs| - 1];
      FirstKeysAre(before, key);
      if last.0 == key {
        assert pairs[|pairs| - 1].0 == key;
      } else if exists i :: 0 <= i < |pairs| && pairs[i].0 == key {
        var i :| 0 <= i < |pairs| && pairs[i].0 == key;
        assert before[i].0 == key;
      }
    }
  }

  /** Pairs with the same keys and the same values for every key are the same. */
  lemma {:induction false} SamePairs(a: seq<Pair>, b: seq<Pair>)
    requires |a| == |b| && forall i :: 0 <= i < |a| ==> a[i].0 == b[i].0
    requires forall k :: ValuesOf(a, k) == ValuesOf(b, k)
    ensures a == b
    decreases |a|
  {
    if a != [] {
      var n := |a| - 1;
      var key := a[n].0;
      assert ValuesOf(a, key) == ValuesOf(b, key);
      assert ValuesOf(a, key)[|ValuesOf(a, key)| - 1] == a[n].1;
      assert a[n] == b[n];
      forall k ensures ValuesOf(a[..n], k) == ValuesOf(b[..n], k) {
        assert ValuesOf(a, k) == ValuesOf(b, k);
        Shorter(ValuesOf(a[..n], k), ValuesOf(b[..n], k), if key == k then [a[n].1] else []);
      }
      SamePairs(a[..n], b[..n]);
      assert a == a[..n] + [a[n]] && b == b[..n] + [b[n]];
    }
  }

  lemma Shorter(a: seq<string>, b: seq<string>, c: seq<string>)
    requires a + c == b + c
    ensures a == b
  {
    assert |a| == |b|;
    assert (a + c)[..|a|] == a && (b + c)[..|b|] == b;
  }

  /** The tables of both clients are the same if and only if every key and value is already as the
      Java client stores it. */
  lemma TablesAgree(pairs: seq<Pair>)
    ensures AddMany(map[], NormalAll(pairs)) == ToTable(PutAll(pairs)) <==> NormalAll(pairs) == pairs
  {
    var normal := NormalAll(pairs);
    SameTable(normal);
    if NormalAll(pairs) != pairs && ToTable(PutAll(normal)) == ToTable(PutAll(pairs)) {
      hide Normal, ToTable, PutAll, ValuesOf, FirstKeys;
      forall i | 0 <= i < |pairs| ensures normal[i].0 == pairs[i].0 {
        KeyIsNormal(pairs, i);
      }
      forall k ensures ValuesOf(pairs, k) == ValuesOf(normal, k) {
        TableValues(pairs, k);
        TableValues(normal, k);
      }
      SamePairs(pairs, normal);
    }
  }

  /** What the table holds for a key. */
  lemma TableValues(pairs: seq<Pair>, key: string)
    ensures var t := ToTable(PutAll(pairs));
            (key in t <==> exists i :: 0 <= i < |pairs| && pairs[i].0 == key)
            && ValuesOf(pairs, key) == if key in t then t[key] else []
  {
    PutAllGroups(pairs, key);
    FirstKeysAre(pairs, key);
    if key !in Keys(PutAll(pairs)) { AbsentValues(PutAll(pairs), key); }
  }

  lemma KeyIsNormal(pairs: seq<Pair>, i: nat)
    requires i < |pairs| && ToTable(PutAll(NormalAll(pairs))) == ToTable(PutAll(pairs))
    ensures NormalAll(pairs)[i].0 == pairs[i].0
  {
    hide ToTable, PutAll, Normal;
    var normal := NormalAll(pairs);
    var key := pairs[i].0;
    InTable(pairs, key);
    InTable(normal, key);
    assert HasKey(pairs, key);
    var j :| 0 <= j < |normal| && normal[j].0 == key;
    NormalKey(pairs[j], pairs[i]);
  }

  predicate HasKey(pairs: seq<Pair>, key: string) {
    exists i :: 0 <= i < |pairs| && pairs[i].0 == key
  }

  lemma InTable(pairs: seq<Pair>, key: string)
    ensures key in ToTable(PutAll(pairs)) <==> HasKey(pairs, key)
  {
    hide ToTable, PutAll, ValuesOf;
    TableValues(pairs, key);
  }

  lemma NormalKey(a: Pair, b: Pair)
    requires Normal(a).0 == b.0
    ensures Normal(b).0 == b.0
  {
    hide Trim, Lower;
    NormalTwice(a);
  }

  /** Both clients parse the response, with the same result. */
  ghost predicate Agree(c: Option<Parsed>, j: Option<JavaParsed>) {
    c.Some? && j.Some?
    && c.value.code == j.value.code && c.value.description == j.value.description
    && match c.value.attributes
       case None => j.value.attributes == None
       case Some(m) => j.value.attributes == Some(ToTable(m))
  }

  /** The clients agree on a rendered response if and only if its description is not empty and
      trimmed, its keys are trimmed and in lower case and its values are trimmed. */
  lemma ClientsAgreeExactly(code: string, description: string, attributes: seq<Pair>)
    requires RenderOk(code, description, attributes)
    ensures var s := Render(code, description, attributes);
            Agree(ParseC(s), ParseJava(s))
            <==> description != "" && Trim(description) == description && NormalAll(attributes) == attributes
  {
    hide Trim, Normal, ToTable, PutAll, AddMany, ParseC, ParseJava, Render, RenderOk;
    CRoundTrip(code, description, attributes);
    JavaRoundTrip(code, description, attributes);
    TablesAgree(attributes);
  }

  const COMPLETED := "Command completed successfully"

  /** They do not on the server's own answer to DESCRIBE, whose key has a capital letter. */
  lemma DescribeDisagrees()
    ensures RenderOk("200", COMPLETED, [("Protocol", "RRP 2.1.0")])
    ensures var s := Render("200", COMPLETED, [("Protocol", "RRP 2.1.0")]);
            !Agree(ParseC(s), ParseJava(s))
  {
    hide DigitPrefix, Trim, NormalAll, Render, ParseC, ParseJava, Agree, COMPLETED;
    var attributes := [("Protocol", "RRP 2.1.0")];
    CompletedPlain();
    TwoHundred();
    CapitalKey();
    ClientsAgreeExactly("200", COMPLETED, attributes);
  }

  lemma CompletedPlain()
    ensures Plain(COMPLETED)
  {}

  lemma TwoHundred()
    ensures DigitPrefix("200", 0) == 200
  {
    assert "200"[1..] == "00" && "00"[1..] == "0" && "0"[1..] == "";
    assert DigitPrefix("", 200) == 200;
    assert DigitPrefix("0", 20) == 200;
    assert DigitPrefix("00", 2) == 200;
  }

  lemma CapitalKey()
    ensures NormalAll([("Protocol", "RRP 2.1.0")]) != [("Protocol", "RRP 2.1.0")]
  {
    var p: Pair := ("Protocol", "RRP 2.1.0");
    TrimmedStays("Protocol");
    assert Lower("Protocol")[0] == LowerChar('P') == 'p';
    assert NormalAll([p])[0] == Normal(p);
  }

  // ---------------------------------------------------------------- framing

  /** The terminator first occurs at this position. */
  predicate FirstTerminator(s: string, n: nat) {
    OccursAt(s, TERMINATOR, n) && forall j: nat :: j < n ==> !OccursAt(s, TERMINATOR, j)
  }

  /** A line, attribute lines and the dot line: the terminator first occurs at the end. */
  lemma {:induction false} TerminatorLast(first: string, fields: seq<Pair>)
    requires Plain(first) && FieldsOk(fields)
    ensures var s := first + CRLF + (FieldLines(fields) + DOT + CRLF);
            |s| >= |TERMINATOR| && FirstTerminator(s, |s| - |TERMINATOR|)
    decreases |fields|
  {
    hide FirstTerminator;
    var x := FieldLines(fields) + DOT + CRLF;
    if fields == [] {
      assert first + CRLF + x == first + TERMINATOR;
      TerminatorAlone(first);
    } else {
      var line, rest := FieldText(fields[0]), FieldLines(fields[1..]) + DOT + CRLF;
      FieldTextOk(fields[0]);
      assert x == line + CRLF + rest;
      TerminatorLast(line, fields[1..]);
      LaterFirst(first, line, x, |x| - |TERMINATOR|);
    }
  }

  lemma TerminatorAlone(first: string)
    requires Plain(first)
    ensures FirstTerminator(first + TERMINATOR, |first|)
  {
    var s := first + TERMINATOR;
    assert s[|first|..|first| + |TERMINATOR|] == TERMINATOR;
    forall j: nat | j < |first| ensures !OccursAt(s, TERMINATOR, j) {
      NoReturnNoTerminator(s, first, j);
    }
  }

  /** A line more in front moves the terminator. */
  lemma LaterFirst(first: string, line: string, x: string, m: nat)
    requires Plain(first) && Plain(line) && ':' in line && line <= x && FirstTerminator(x, m)
    ensures FirstTerminator(first + CRLF + x, |first| + 2 + m)
  {
    hide OccursAt, Plain;
    var s := first + CRLF + x;
    OccursBehind(first + CRLF, x, m);
    forall j: nat | j < |first| + 2 + m ensures !OccursAt(s, TERMINATOR, j) {
      if OccursAt(s, TERMINATOR, j) { InLaterLines(s, first, line, x, j); }
    }
  }

  lemma OccursBehind(before: string, x: string, m: nat)
    requires OccursAt(x, TERMINATOR, m)
    ensures OccursAt(before + x, TERMINATOR, |before| + m)
  {
    assert (before + x)[|before| + m..|before| + m + |TERMINATOR|] == x[m..m + |TERMINATOR|];
  }

  lemma NoReturnNoTerminator(s: string, first: string, j: nat)
    requires Plain(first) && first <= s && j < |first|
    ensures !OccursAt(s, TERMINATOR, j)
  {
    assert s[j] == first[j] && first[j] in first;
    assert TERMINATOR[0] == '\r';
  }

  lemma FirstHasNoReturn(s: string, first: string, x: string)
    requires Plain(first) && s == first + CRLF + x
    ensures forall k :: 0 <= k < |first| ==> s[k] != '\r'
    ensures s[|first| + 1] == '\n'
  {
    assert forall k :: 0 <= k < |first| ==> s[k] == first[k] && first[k] in first;
  }

  lemma InLaterLines(s: string, first: string, line: string, x: string, j: nat)
    requires Plain(first) && Plain(line) && ':' in line && line <= x && s == first + CRLF + x
    requires OccursAt(s, TERMINATOR, j)
    ensures j >= |first| + 2 && OccursAt(x, TERMINATOR, j - |first| - 2)
  {
    var t := s[j..j + |TERMINATOR|];
    assert s[j] == t[0] && s[j + 2] == t[2] && s[j + 3] == t[3];
    FirstHasNoReturn(s, first, x);
    assert x[0] == line[0] && (|line| > 1 ==> x[1] == line[1] && line[1] in line);
    if j > |first| + 1 {
      assert x[j - |first| - 2..j - |first| - 2 + |TERMINATOR|] == t;
    }
  }

  /** Whatever follows it on the stream, a rendered response is the first complete one; so both
      clients read exactly it, however the stream is cut into chunks. */
  lemma ResponseFramed(code: string, description: string, attributes: seq<Pair>, more: string)
    requires RenderOk(code, description, attributes)
    ensures var s := Render(code, description, attributes);
            Complete(s + more) && FirstResponse(s + more) == s
  {
    hide FindText;
    var s, first := Render(code, description, attributes), code + " " + description;
    DigitsPlain(code, description);
    MessageParts(first, attributes);
    TerminatorLast(first, attributes);
    FindTextIs(s, TERMINATOR, |s| - |TERMINATOR|);
    assert s[..|s|] == s;
    FindTextPrefix(s, TERMINATOR, more);
    assert (s + more)[..|s|] == s;
  }
}
