/** Searching and splitting strings. */
module Text {

  const CRLF := "\r\n"

  // ---------------------------------------------------------------- characters

  /** The first position of a character, or the length if it does not occur. */
  function IndexOf(s: string, c: char): (i: nat)
    ensures i <= |s|
    ensures i < |s| ==> s[i] == c
    ensures c !in s[..i]
  {
    if s == [] || s[0] == c then 0 else 1 + IndexOf(s[1..], c)
  }

  lemma IndexOfIs(s: string, c: char, i: nat)
    requires i <= |s| && (i < |s| ==> s[i] == c) && c !in s[..i]
    ensures IndexOf(s, c) == i
  {}

  // ---------------------------------------------------------------- substrings

  predicate OccursAt(s: string, t: string, i: nat) {
    i + |t| <= |s| && s[i..i + |t|] == t
  }

  /** The first position of a non-empty text, or the length if it does not occur: `strstr`. */
  function FindText(s: string, t: string): (i: nat)
    requires t != ""
    ensures i <= |s|
  {
    if s == "" || OccursAt(s, t, 0) then 0 else 1 + FindText(s[1..], t)
  }

  lemma {:induction false} FindTextFirst(s: string, t: string)
    requires t != ""
    ensures FindText(s, t) < |s| ==> OccursAt(s, t, FindText(s, t))
    ensures forall j: nat :: j < FindText(s, t) ==> !OccursAt(s, t, j)
    ensures FindText(s, t) == |s| ==> forall j: nat :: !OccursAt(s, t, j)
  {
    if s != "" && !OccursAt(s, t, 0) {
      FindTextFirst(s[1..], t);
      forall j: nat ensures OccursAt(s, t, j + 1) <==> OccursAt(s[1..], t, j) {
        OccursShift(s, t, j);
      }
      forall j: nat | j > 0 ensures OccursAt(s, t, j) <==> OccursAt(s[1..], t, j - 1) {
        OccursShift(s, t, j - 1);
      }
    }
  }

  lemma OccursShift(s: string, t: string, j: nat)
    requires s != ""
    ensures OccursAt(s, t, j + 1) <==> OccursAt(s[1..], t, j)
  {
    if j + 1 + |t| <= |s| { assert s[j + 1..j + 1 + |t|] == s[1..][j..j + |t|]; }
  }

  lemma FindTextIs(s: string, t: string, i: nat)
    requires t != "" && OccursAt(s, t, i) && forall j: nat :: j < i ==> !OccursAt(s, t, j)
    ensures FindText(s, t) == i
  {
    FindTextFirst(s, t);
  }

  /** Text behind the first occurrence does not matter. */
  lemma FindTextPrefix(s: string, t: string, more: string)
    requires t != "" && FindText(s, t) < |s|
    ensures FindText(s + more, t) == FindText(s, t)
  {
    var i := FindText(s, t);
    FindTextFirst(s, t);
    assert (s + more)[i..i + |t|] == s[i..i + |t|];
    forall j: nat | j < i ensures !OccursAt(s + more, t, j) {
      assert !OccursAt(s, t, j);
      assert (s + more)[j..j + |t|] == s[j..j + |t|];
    }
    FindTextIs(s + more, t, i);
  }

  /** A line without carriage returns ends at the first CRLF. */
  lemma FindCrlf(line: string, rest: string)
    requires '\r' !in line
    ensures FindText(line + CRLF + rest, CRLF) == |line|
  {
    var s := line + CRLF + rest;
    assert s[|line|..|line| + 2] == CRLF;
    forall j: nat | j < |line| ensures !OccursAt(s, CRLF, j) {
      assert s[j] == line[j] && line[j] in line;
      assert s[j..j + 2][0] == s[j];
    }
    FindTextIs(s, CRLF, |line|);
  }

  /** No carriage return, line feed or NUL. */
  predicate Plain(s: string) {
    forall c <- s :: c != '\r' && c != '\n' && c != '\0'
  }

  function LowerChar(c: char): char {
    if 'A' <= c <= 'Z' then (c as int + 32) as char else c
  }

  /** `toLowerCase` on ASCII. */
  function Lower(s: string): (r: string)
    ensures |r| == |s| && forall i :: 0 <= i < |s| ==> r[i] == LowerChar(s[i])
  {
    seq(|s|, i requires 0 <= i < |s| => LowerChar(s[i]))
  }

  // ---------------------------------------------------------------- numbers

  predicate IsDigit(c: char) { '0' <= c <= '9' }

  predicate AllDigits(s: string) {
    s != "" && forall c <- s :: IsDigit(c)
  }

  /** The number read digit by digit, up to the first other character. */
  function DigitPrefix(s: string, value: int): (r: int)
    requires value >= 0
    ensures r >= 0
  {
    if s == "" || !IsDigit(s[0]) then value
    else DigitPrefix(s[1..], value * 10 + (s[0] as int - '0' as int))
  }
}
