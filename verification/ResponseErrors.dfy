/**
 Responses that are not as they should be: cut off anywhere, with a line that is no attribute, or with
 a first line that is none.  And what trimming, lower case and reading numbers mean in full.
 */
module ResponseErrors {
  import opened Common
  import opened Text
  import opened Multimap
  import opened Protocol
  import opened RrpProperties
  import opened ResponseRead
  import opened ResponseParse
  import opened ResponseRoundTrip

  // ---------------------------------------------------------------- cut off

  /** Less than a line and its CRLF has no CRLF. */
  lemma NoCrlf(t: string, line: string)
    requires Plain(line) && t <= line + CRLF && |t| < |line| + 2
    ensures FindText(t, CRLF) == |t|
  {
    hide FindText;
    FindTextFirst(t, CRLF);
    ReturnAt(t, FindText(t, CRLF));
    assert forall k :: 0 <= k < |t| && k < |line| ==> t[k] == line[k] && line[k] in line;
  }

  lemma ReturnAt(t: string, j: nat)
    ensures OccursAt(t, CRLF, j) ==> j + 2 <= |t| && t[j] == '\r'
  {
    if OccursAt(t, CRLF, j) { assert t[j] == t[j..j + 2][0]; }
  }

  lemma NothingParsed(t: string, line: string, code: int, description: string, attributes: Option<seq<Entry>>)
    requires Plain(line) && t <= line + CRLF && |t| < |line| + 2
    ensures ParseLines(t, code, description, attributes) == None
  {
    NoCrlf(t, line);
  }

  lemma {:induction false} CutFields(fields: seq<Pair>, t: string, code: int, description: string, attributes: Option<seq<Entry>>)
    requires FieldsOk(fields) && code != -1
    requires t <= FieldLines(fields) + DOT + CRLF && |t| < |FieldLines(fields) + DOT + CRLF|
    ensures ParseLines(t, code, description, attributes) == None
    decreases |fields|
  {
    hide FindText, ParseLines, FieldText, PutPair;
    var s := FieldLines(fields) + DOT + CRLF;
    if fields == [] {
      assert s == DOT + CRLF;
      NothingParsed(t, DOT, code, description, attributes);
    } else {
      var line, rest := FieldText(fields[0]), FieldLines(fields[1..]) + DOT + CRLF;
      FieldTextOk(fields[0]);
      assert s == line + CRLF + rest;
      if |t| < |line| + 2 {
        assert t <= line + CRLF;
        NothingParsed(t, line, code, description, attributes);
      } else {
        var more := t[|line| + 2..];
        assert t == line + CRLF + more && more <= rest;
        FieldLineParsed(line, more, code, description, attributes);
        CutFields(fields[1..], more, code, description, Some(PutPair(Existing(attributes), line)));
      }
    }
  }

  lemma FieldLineParsed(line: string, rest: string, code: int, description: string, attributes: Option<seq<Entry>>)
    requires Plain(line) && ':' in line && code != -1
    ensures ParseLines(line + CRLF + rest, code, description, attributes)
            == ParseLines(rest, code, description, Some(PutPair(Existing(attributes), line)))
  {
    hide FindText;
    FirstLine(line, rest);
  }

  /** A response cut off anywhere is not parsed, and the reader has not found a whole one either: it hands
      over what there is, and the client gets nothing. */
  lemma CutNeverParsed(code: string, description: string, attributes: seq<Pair>, n: nat)
    requires RenderOk(code, description, attributes) && n < |Render(code, description, attributes)|
    ensures var t := Render(code, description, attributes)[..n];
            !Complete(t) && NulFree(t) && ParseC(t) == None
  {
    var s, line := Render(code, description, attributes), code + " " + description;
    var t, rest := s[..n], FieldLines(attributes) + DOT + CRLF;
    CutIncomplete(code, description, attributes, n);
    RenderNulFree(code, description, attributes);
    assert NulFree(t);
    CStringWhole(t);
    DigitsPlain(code, description);
    MessageParts(line, attributes);
    hide FindText, ParseLines, DigitPrefix, FieldLines, Complete;
    if n < |line| + 2 {
      assert t <= line + CRLF;
      NothingParsed(t, line, -1, "", None);
    } else {
      var more := t[|line| + 2..];
      assert t == line + CRLF + more && more <= rest;
      FirstLineParses(code, description, more);
      CutFields(attributes, more, DigitPrefix(code, 0), description, None);
    }
  }

  lemma CutIncomplete(code: string, description: string, attributes: seq<Pair>, n: nat)
    requires RenderOk(code, description, attributes) && n < |Render(code, description, attributes)|
    ensures !Complete(Render(code, description, attributes)[..n])
  {
    var s := Render(code, description, attributes);
    ResponseFramed(code, description, attributes, "");
    assert s + "" == s;
    if Complete(s[..n]) { CompletePrefix(s[..n], s); }
  }

  /** `processRequest` behind the sending: read and parse. */
  method Receive(chunks: seq<string>, ending: Ending)
    returns (found: bool, code: int, description: string, attributes: Properties?)
    requires Chunks(chunks)
    ensures var all := Flatten(chunks);
            NulFree(all) ==>
              var text := if Complete(all) then FirstResponse(all) else all;
              found == ((Complete(all) || (ending == Eof && chunks != [])) && ParseC(text).Some?)
  {
    hide ParseC, Complete, FirstResponse, FirstComplete, NulFree, Properties.Valid;
    found, code, description, attributes := false, 0, "", null;
    var text, _ := ReadResponseC(chunks, ending);
    if text.Some? {
      found, code, description, attributes := ParseResponse(text.value);
    }
  }

  // ---------------------------------------------------------------- a line that is no attribute

  lemma {:induction false} BadLineParsed(fields: seq<Pair>, bad: string, rest: string, code: int, description: string, attributes: Option<seq<Entry>>)
    requires FieldsOk(fields) && Plain(bad) && ':' !in bad && code != -1
    ensures ParseLines(FieldLines(fields) + (bad + CRLF + rest), code, description, attributes)
            == Some(Parsed(code, description, if fields == [] then attributes else Some(PutMany(Existing(attributes), fields))))
    decreases |fields|
  {
    hide FindText, FieldText;
    var s := FieldLines(fields) + (bad + CRLF + rest);
    if fields == [] {
      assert s == bad + CRLF + rest;
      FirstLine(bad, rest);
    } else {
      var p := fields[0];
      var line, more := FieldText(p), FieldLines(fields[1..]) + (bad + CRLF + rest);
      assert s == line + CRLF + more;
      FieldTextOk(p);
      PairOf(p);
      hide ParseLines;
      FieldLineParsed(line, more, code, description, attributes);
      BadLineParsed(fields[1..], bad, rest, code, description, Some(PutPair(Existing(attributes), line)));
    }
  }

  lemma PairOf(p: Pair)
    requires FieldOk(p)
    ensures ':' in FieldText(p) && forall m: seq<Entry> :: PutPair(m, FieldText(p)) == Put(m, p.0, p.1)
  {
    FieldTextOk(p);
    assert FieldText(p)[..|p.0|] == p.0 && FieldText(p)[|p.0| + 1..] == p.1;
  }

  lemma {:induction false} TokensBad(fields: seq<Pair>, bad: string, rest: string)
    requires FieldsOk(fields) && Plain(bad) && bad != ""
    ensures Tokens(FieldLines(fields) + (bad + CRLF + rest)) == FieldTexts(fields) + ([bad] + Tokens(rest))
    decreases |fields|
  {
    hide Tokens, FieldText;
    var s := FieldLines(fields) + (bad + CRLF + rest);
    if fields == [] {
      assert s == bad + CRLF + rest;
      TokensLine(bad, rest);
    } else {
      var line, more := FieldText(fields[0]), FieldLines(fields[1..]) + (bad + CRLF + rest);
      assert s == line + CRLF + more;
      FieldTextOk(fields[0]);
      TokensLine(line, more);
      TokensBad(fields[1..], bad, rest);
    }
  }

  lemma {:induction false} TableFromBad(fields: seq<Pair>, bad: string, more: seq<string>, attributes: Option<Table>)
    requires FieldsOk(fields) && ':' !in bad
    ensures TableFrom(FieldTexts(fields) + ([bad] + more), attributes).Some? <==> Trim(bad) == DOT
    decreases |fields|
  {
    hide Trim, Lower;
    var tokens := FieldTexts(fields) + ([bad] + more);
    if fields == [] {
      assert tokens == [bad] + more;
      IndexOfIs(bad, ':', |bad|);
    } else {
      var p := fields[0];
      FieldTextOk(p);
      assert tokens[0] == FieldText(p) && tokens[1..] == FieldTexts(fields[1..]) + ([bad] + more);
      var table := AddTo(ExistingTable(attributes), Lower(Trim(FieldText(p)[..|p.0|])), Trim(FieldText(p)[|p.0| + 1..]));
      TableFromBad(fields[1..], bad, more, Some(table));
    }
  }

  /** A line without a colon behind the attributes: the C client takes any such line for the end of the
      response and is content with what it has; the Java client throws an exception exactly if it is not
      a dot, or the description is blank. */
  lemma BadLineEnds(code: string, description: string, attributes: seq<Pair>, bad: string, rest: string)
    requires RenderOk(code, description, attributes) && Plain(bad) && bad != "" && ':' !in bad && NulFree(rest)
    ensures var s := code + " " + description + CRLF + (FieldLines(attributes) + (bad + CRLF + rest));
            ParseC(s) == Some(Parsed(DigitPrefix(code, 0), description, if attributes == [] then None else Some(PutAll(attributes))))
            && (ParseJava(s).Some? <==> Trim(bad) == DOT && Trim(description) != "")
  {
    hide FindText, ParseLines, DigitPrefix, PutAll, PutMany, Tokens, Trim, Lower, FieldLines, TableFrom;
    var line, more := code + " " + description, FieldLines(attributes) + (bad + CRLF + rest);
    var s := line + CRLF + more;
    DigitsPlain(code, description);
    BadNulFree(line, attributes, bad, rest);
    CStringWhole(s);
    FirstLineParses(code, description, more);
    BadLineParsed(attributes, bad, rest, DigitPrefix(code, 0), description, None);
    assert PutMany([], attributes) == PutAll(attributes) by { PutFromNothing(attributes); }
    TokensLine(line, more);
    TokensBad(attributes, bad, rest);
    JavaFirst(code, description, s, FieldTexts(attributes) + ([bad] + Tokens(rest)));
    TableFromBad(attributes, bad, Tokens(rest), None);
  }

  lemma PutFromNothing(pairs: seq<Pair>)
    ensures PutMany([], pairs) == PutAll(pairs)
  {
    PutManyAll([], pairs);
    assert PutAll([]) == [] && [] + pairs == pairs;
  }

  lemma BadNulFree(line: string, attributes: seq<Pair>, bad: string, rest: string)
    requires Plain(line) && FieldsOk(attributes) && Plain(bad) && NulFree(rest)
    ensures NulFree(line + CRLF + (FieldLines(attributes) + (bad + CRLF + rest)))
  {
    hide FieldLines, FieldsOk;
    FieldLinesNulFree(attributes);
  }

  /** The first token of a response, for the Java client. */
  lemma JavaFirst(code: string, description: string, s: string, more: seq<string>)
    requires AllDigits(code) && DigitPrefix(code, 0) <= 0x7FFF_FFFF
    requires Plain(description) && Tokens(s) == [code + " " + description] + more
    ensures ParseJava(s).Some? <==> Trim(description) != "" && TableFrom(more, None).Some?
  {
    hide Tokens, TableFrom, Lower;
    var line := code + " " + description;
    DigitsPlain(code, description);
    TrimDigits(code);
    hide Trim, DigitPrefix;
    assert line[..|code|] == code && line[|code| + 1..] == description;
    assert code[0] in code;
    assert ParseInt(code) == Some(DigitPrefix(code, 0));
    assert Tokens(s)[0] == line && Tokens(s)[1..] == more;
  }

  // ---------------------------------------------------------------- a first line that is none

  /** Without a space in its first line neither client parses a response; and the Java client does not
      either if what is in front of the space is no number. */
  lemma FirstLineErrors(word: string, rest: string)
    requires Plain(word) && word != "" && NulFree(rest)
    ensures ' ' !in word ==> ParseC(word + CRLF + rest) == None && ParseJava(word + CRLF + rest) == None
  {
    hide FindText, Tokens, DigitPrefix, Trim, Lower, TableFrom;
    var s := word + CRLF + rest;
    CStringWhole(s);
    FirstLine(word, rest);
    TokensLine(word, rest);
    if ' ' !in word {
      IndexOfIs(word, ' ', |word|);
      assert Tokens(s)[0] == word;
    }
  }

  lemma NoNumber(word: string, description: string, rest: string)
    requires Plain(word) && Plain(description) && word != "" && forall c <- word :: c > ' '
    requires !AllDigits(word) && word[0] != '-'
    ensures ParseJava(word + " " + description + CRLF + rest) == None
  {
    hide Tokens, DigitPrefix, Lower, TableFrom;
    var line := word + " " + description;
    assert word[0] in word && word[|word| - 1] in word;
    assert Trim(word) == word;
    hide Trim;
    assert line[|word|] == ' ' && line[..|word|] == word;
    IndexOfIs(line, ' ', |word|);
    TokensLine(line, rest);
    assert Tokens(line + CRLF + rest)[0] == line;
  }

  // ---------------------------------------------------------------- trimming, lower case, numbers

  /** Trimming takes off what is not above a space at both ends, and nothing else. */
  lemma TrimIs(a: string, s: string, b: string)
    requires (forall c <- a :: c <= ' ') && (forall c <- b :: c <= ' ')
    requires s != "" ==> s[0] > ' ' && s[|s| - 1] > ' '
    ensures Trim(a + s + b) == s
  {
    TrimLeftIs(a, s + b);
    assert a + s + b == a + (s + b);
    if s == "" {
      BlankLeft(b, "");
      assert s + b == b + "" == b;
    } else {
      assert TrimLeft(s + b) == s + b;
      TrimRightIs(s, b);
    }
  }

  lemma {:induction false} TrimLeftIs(a: string, s: string)
    requires forall c <- a :: c <= ' '
    ensures TrimLeft(a + s) == TrimLeft(s)
    decreases |a|
  {
    if a == "" {
      assert a + s == s;
    } else {
      assert a[0] in a && (a + s)[1..] == a[1..] + s;
      assert forall c :: c in a[1..] ==> c in a;
      TrimLeftIs(a[1..], s);
    }
  }

  lemma BlankLeft(a: string, s: string)
    requires forall c <- a :: c <= ' '
    requires s == ""
    ensures TrimLeft(a + s) == ""
  {
    TrimLeftIs(a, s);
  }

  lemma {:induction false} TrimRightIs(s: string, b: string)
    requires s != "" && s[|s| - 1] > ' ' && forall c <- b :: c <= ' '
    ensures TrimRight(s + b) == s
    decreases |b|
  {
    if b == "" {
      assert s + b == s;
    } else {
      var n := |b| - 1;
      assert b[n] in b && (s + b)[|s + b| - 1] == b[n] && (s + b)[..|s + b| - 1] == s + b[..n];
      assert forall c :: c in b[..n] ==> c in b;
      TrimRightIs(s, b[..n]);
    }
  }

  /** Lower case changes the twenty-six capital letters and nothing else. */
  lemma LowerIs()
    ensures forall c: char :: 65 <= c as int <= 90 ==> LowerChar(c) as int == c as int + 32
    ensures forall c: char :: c as int < 65 || c as int > 90 ==> LowerChar(c) == c
  {}

  /** The Java client takes a minus sign, and nothing that does not fit 32 bits. */
  lemma ParseIntIs(digits: string)
    requires AllDigits(digits)
    ensures ParseInt(digits) == if DigitPrefix(digits, 0) <= 0x7FFF_FFFF then Some(DigitPrefix(digits, 0)) else None
    ensures ParseInt("-" + digits) == if DigitPrefix(digits, 0) <= 0x8000_0000 then Some(-DigitPrefix(digits, 0)) else None
    ensures ParseInt("+" + digits) == None && ParseInt("") == None
  {
    hide DigitPrefix;
    assert digits[0] in digits;
    assert ("-" + digits)[1..] == digits;
    assert ("+" + digits)[0] == '+' && '+' in "+" + digits;
  }

  /** The characters `isspace` knows. */
  predicate White(s: string) {
    forall i :: 0 <= i < |s| ==> s[i] == ' ' || s[i] == '\t' || s[i] == '\n' || s[i] as int == 11 || s[i] as int == 12 || s[i] == '\r'
  }

  /** The C client takes space and a sign in front of the number. */
  lemma AtoiIs(white: string, digits: string)
    requires White(white) && AllDigits(digits)
    ensures Atoi(white + digits) == DigitPrefix(digits, 0)
    ensures Atoi(white + ("-" + digits)) == -DigitPrefix(digits, 0)
    ensures Atoi(white + ("+" + digits)) == DigitPrefix(digits, 0)
  {
    hide DigitPrefix;
    assert digits[0] in digits;
    SkipWhite(white, digits);
    SkipWhite(white, "-" + digits);
    SkipWhite(white, "+" + digits);
    assert ("-" + digits)[1..] == digits && ("+" + digits)[1..] == digits;
  }

  lemma {:induction false} SkipWhite(white: string, s: string)
    requires White(white) && s != "" && !IsSpace(s[0])
    ensures SkipSpace(white + s) == s
    decreases |white|
  {
    if white == "" {
      assert white + s == s;
    } else {
      assert (white + s)[1..] == white[1..] + s;
      SkipWhite(white[1..], s);
    }
  }
}
