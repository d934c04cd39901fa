/** Lines of requests and responses: a key, a colon, a value and CRLF. */
module Protocol {
  import opened Text
  import opened Multimap

  function FieldText(p: Pair): string { p.0 + ":" + p.1 }

  function FieldLines(fields: seq<Pair>): string {
    if fields == [] then "" else FieldText(fields[0]) + CRLF + FieldLines(fields[1..])
  }

  function FieldTexts(fields: seq<Pair>): (r: seq<string>)
    ensures |r| == |fields| && forall i :: 0 <= i < |r| ==> r[i] == FieldText(fields[i])
  {
    if fields == [] then [] else [FieldText(fields[0])] + FieldTexts(fields[1..])
  }

  const DOT := "."

  /** A request or a response: a first line, the fields, and a line with a dot. */
  function MessageText(first: string, fields: seq<Pair>): string {
    first + CRLF + FieldLines(fields) + DOT + CRLF
  }

  lemma MessageParts(first: string, fields: seq<Pair>)
    ensures MessageText(first, fields) == first + CRLF + (FieldLines(fields) + DOT + CRLF)
  {}

  /** A key without colon, and neither key nor value with line breaks or NUL. */
  predicate FieldOk(p: Pair) {
    ':' !in p.0 && Plain(p.0) && Plain(p.1)
  }

  predicate FieldsOk(fields: seq<Pair>) {
    forall i :: 0 <= i < |fields| ==> FieldOk(fields[i])
  }

  lemma FieldTextOk(p: Pair)
    requires FieldOk(p)
    ensures Plain(FieldText(p)) && IndexOf(FieldText(p), ':') == |p.0| && ':' in FieldText(p)
  {
    var s := FieldText(p);
    assert s[|p.0|] == ':' && s[..|p.0|] == p.0;
    IndexOfIs(s, ':', |p.0|);
  }

  /** One field more at the end. */
  lemma {:induction false} FieldLinesAppend(a: seq<Pair>, b: seq<Pair>)
    ensures FieldLines(a + b) == FieldLines(a) + FieldLines(b)
    decreases |a|
  {
    if a == [] {
      assert a + b == b;
    } else {
      assert (a + b)[1..] == a[1..] + b;
      FieldLinesAppend(a[1..], b);
      Concat(FieldText(a[0]) + CRLF, FieldLines(a[1..]), FieldLines(b));
    }
  }

  lemma Concat(a: string, b: string, c: string)
    ensures a + b + c == a + (b + c)
  {}
}
