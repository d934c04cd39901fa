/**
 `tokenize`: the check of a command's lines against the table of known elements.  It stops at the
 first line in error; otherwise it counts the lines of each key and keeps the last value.
 */
module Tokenize {
  import opened Common
  import opened Text
  import opened RequestServe

  const OK := "200"

  /** What a validator answers for a value: a response code. */
  type Validator = string -> string
  type Table = map<string, Validator>

  // What a command expects beside its known elements.
  datatype Elements = Elements(flag: bool, attributes: bool, options: bool)

  // `seen` counts the valid lines of a key, `tokens` holds the value of the last one.
  datatype Tokens = Tokens(code: string, tokens: map<string, string>, seen: map<string, nat>)

  // ---------------------------------------------------------------- one line

  /** The flag is an equals sign at the end, or before a newline at the end. */
  predicate Flagged(value: string) {
    var n := |value|;
    (n > 0 && value[n - 1] == '=') || (n > 1 && value[n - 1] == '\n' && value[n - 2] == '=')
  }

  /** A colon between two characters that are not newlines. */
  predicate AttributeLike(line: string) {
    exists i :: 0 < i < |line| - 1 && line[i] == ':' && line[i - 1] != '\n' && line[i + 1] != '\n'
  }

  datatype Verdict = Accept(key: string, value: string) | Reject(code: string)

  /** A line by itself. */
  function Judge(table: Table, elements: Elements, line: string): (r: Verdict)
    ensures r.Reject? ==> r.code != OK
  {
    var e := SplitColon(line);
    if e.key in table then
      var text := if e.value.Some? then e.value.value else "";
      var value := if elements.flag && Flagged(text) then text[..|text| - 1] else text;
      if value == "" then Reject("507")
      else
        var code := table[e.key](value);
        if code == OK then Accept(e.key, value) else Reject(code)
    else if "-" <= e.key then Reject(if elements.options then "501" else "507")
    else Reject(if elements.attributes && AttributeLike(line) then "503" else "507")
  }

  /** The keys that may be repeated. */
  predicate Repeatable(key: string) { key == "nameserver" || key == "ipaddress" }

  // ---------------------------------------------------------------- all lines

  /** A valid line with this key. */
  predicate Has(table: Table, elements: Elements, line: string, key: string) {
    var verdict := Judge(table, elements, line);
    verdict.Accept? && verdict.key == key
  }

  predicate HasKey(table: Table, elements: Elements, lines: seq<string>, key: string) {
    exists j :: 0 <= j < |lines| && Has(table, elements, lines[j], key)
  }

  /** Line `i` is in error: by itself, or because a line before it has its key. */
  predicate Offends(table: Table, elements: Elements, lines: seq<string>, i: nat)
    requires i < |lines|
  {
    match Judge(table, elements, lines[i])
    case Reject(_) => true
    case Accept(key, _) => !Repeatable(key) && HasKey(table, elements, lines[..i], key)
  }

  /** The first line in error, or the number of lines. */
  function FirstOffence(table: Table, elements: Elements, lines: seq<string>, from: nat): (n: nat)
    requires from <= |lines|
    ensures from <= n <= |lines|
    ensures forall i :: from <= i < n ==> !Offends(table, elements, lines, i)
    ensures n < |lines| ==> Offends(table, elements, lines, n)
    decreases |lines| - from
  {
    if from == |lines| || Offends(table, elements, lines, from) then from
    else FirstOffence(table, elements, lines, from + 1)
  }

  function TokensOf(table: Table, elements: Elements, lines: seq<string>): map<string, string> {
    if lines == [] then map[]
    else
      var before := TokensOf(table, elements, lines[..|lines| - 1]);
      match Judge(table, elements, lines[|lines| - 1])
      case Accept(key, value) => before[key := value]
      case Reject(_) => before
  }

  /** Counting one more. */
  function More(seen: map<string, nat>, key: string): map<string, nat> {
    seen[key := (if key in seen then seen[key] else 0) + 1]
  }

  function SeenOf(table: Table, elements: Elements, lines: seq<string>): map<string, nat> {
    if lines == [] then map[]
    else
      var before := SeenOf(table, elements, lines[..|lines| - 1]);
      match Judge(table, elements, lines[|lines| - 1])
      case Accept(key, _) => More(before, key)
      case Reject(_) => before
  }

  /** The result when the first line in error is line `n`.  A repeated key is counted, but its
      value is not kept. */
  function Outcome(table: Table, elements: Elements, lines: seq<string>, n: nat): Tokens
    requires n <= |lines|
  {
    var tokens, seen := TokensOf(table, elements, lines[..n]), SeenOf(table, elements, lines[..n]);
    if n == |lines| then Tokens(OK, tokens, seen)
    else
      match Judge(table, elements, lines[n])
      case Reject(code) => Tokens(code, tokens, seen)
      case Accept(key, _) => Tokens("507", tokens, More(seen, key))
  }

  /** What `tokenize` makes of the lines of a command. */
  function Tokenized(table: Table, elements: Elements, commandLines: seq<string>): Tokens {
    var lines := ShiftPop(commandLines);
    Outcome(table, elements, lines, FirstOffence(table, elements, lines, 0))
  }

  lemma {:induction false} SeenHasKey(table: Table, elements: Elements, lines: seq<string>, key: string)
    ensures var seen := SeenOf(table, elements, lines);
            (key in seen <==> HasKey(table, elements, lines, key)) && (key in seen ==> seen[key] > 0)
  {
    hide Judge;
    if lines != [] {
      var n := |lines| - 1;
      var front := lines[..n];
      SeenHasKey(table, elements, front, key);
      assert forall j :: 0 <= j < n ==> front[j] == lines[j];
      assert HasKey(table, elements, lines, key) <==> HasKey(table, elements, front, key) || Has(table, elements, lines[n], key);
    }
  }

  /** One line more. */
  lemma Extend(table: Table, elements: Elements, lines: seq<string>, i: nat)
    requires i < |lines|
    ensures var before, after := lines[..i], lines[..i + 1];
            match Judge(table, elements, lines[i])
            case Accept(key, value) =>
              TokensOf(table, elements, after) == TokensOf(table, elements, before)[key := value]
              && SeenOf(table, elements, after) == More(SeenOf(table, elements, before), key)
            case Reject(_) => true
  {
    hide Judge;
    assert lines[..i + 1][..i] == lines[..i];
  }

  lemma NoLines(table: Table, elements: Elements, lines: seq<string>)
    ensures TokensOf(table, elements, lines[..0]) == map[] && SeenOf(table, elements, lines[..0]) == map[]
  {}

  /** The part of the loop body that looks at one line alone. */
  method Examine(table: Table, elements: Elements, line: string) returns (code: string, key: string, value: string)
    ensures Judge(table, elements, line) == if code == OK then Accept(key, value) else Reject(code)
  {
    hide SplitColon, AttributeLike;
    var e := SplitColon(line);
    key, value := e.key, if e.value.Some? then e.value.value else "";
    if key in table {
      if elements.flag && Flagged(value) {
        value := value[..|value| - 1];
      }
      if value != "" {
        code := table[key](value);
      } else {
        code := "507";
      }
    } else if "-" <= key {
      code := if elements.options then "501" else "507";
    } else {
      code := if elements.attributes && AttributeLike(line) then "503" else "507";
    }
  }

  method Tokenize(commandLines: seq<string>, table: Table, elements: Elements)
    returns (code: string, tokens: map<string, string>, seen: map<string, nat>)
    ensures Tokens(code, tokens, seen) == Tokenized(table, elements, commandLines)
  {
    hide TokensOf, SeenOf, HasKey, ShiftPop, Judge;
    var lines := ShiftPop(commandLines);
    NoLines(table, elements, lines);
    code, tokens, seen := OK, map[], map[];
    var i := 0;
    while i < |lines|
      invariant 0 <= i <= |lines| && code == OK
      invariant FirstOffence(table, elements, lines, 0) == FirstOffence(table, elements, lines, i)
      invariant tokens == TokensOf(table, elements, lines[..i]) && seen == SeenOf(table, elements, lines[..i])
    {
      Extend(table, elements, lines, i);
      var key, value;
      code, key, value := Examine(table, elements, lines[i]);
      if code != OK { break; }
      SeenHasKey(table, elements, lines[..i], key);
      seen := More(seen, key);
      if seen[key] > 1 && !Repeatable(key) {
        code := "507";
        break;
      }
      tokens := tokens[key := value];
      i := i + 1;
    }
  }

  // ---------------------------------------------------------------- what the result means

  /** Line `n` is the first one in error, and this is the code for it. */
  ghost predicate FirstError(table: Table, elements: Elements, lines: seq<string>, n: nat, code: string) {
    n < |lines| && Offends(table, elements, lines, n)
    && (forall i :: 0 <= i < n ==> !Offends(table, elements, lines, i))
    && code == match Judge(table, elements, lines[n])
               case Reject(own) => own
               case Accept(_, _) => "507"
  }

  /** The result is 200 if and only if no line is in error; otherwise it is determined by the first
      line that is: its own code, or 507 for a repetition. */
  lemma OkExactly(table: Table, elements: Elements, commandLines: seq<string>)
    ensures var lines, code := ShiftPop(commandLines), Tokenized(table, elements, commandLines).code;
            (code == OK <==> forall i :: 0 <= i < |lines| ==> !Offends(table, elements, lines, i))
            && (code != OK <==> exists n: nat :: FirstError(table, elements, lines, n, code))
  {
    hide Offends, Judge, TokensOf, SeenOf;
    var lines, code := ShiftPop(commandLines), Tokenized(table, elements, commandLines).code;
    if code != OK {
      assert FirstError(table, elements, lines, FirstOffence(table, elements, lines, 0), code);
    }
  }

  ghost function Positions(table: Table, elements: Elements, lines: seq<string>, key: string): (r: set<nat>)
    ensures forall i :: i in r <==> 0 <= i < |lines| && Has(table, elements, lines[i], key)
  {
    set i: nat | i < |lines| && Has(table, elements, lines[i], key)
  }

  lemma PositionsStep(table: Table, elements: Elements, lines: seq<string>, key: string)
    requires lines != []
    ensures var n := |lines| - 1;
            var before := Positions(table, elements, lines[..n], key);
            n !in before
            && Positions(table, elements, lines, key) == if Has(table, elements, lines[n], key) then before + {n} else before
  {
    hide Has;
  }

  /** `seen` counts the valid lines of every key. */
  lemma {:induction false} SeenCounts(table: Table, elements: Elements, lines: seq<string>, key: string)
    ensures var seen := SeenOf(table, elements, lines);
            (if key in seen then seen[key] else 0) == |Positions(table, elements, lines, key)|
    decreases |lines|
  {
    hide Judge, Positions;
    if lines == [] {
      assert Positions(table, elements, lines, key) == {};
    } else {
      SeenCounts(table, elements, lines[..|lines| - 1], key);
      PositionsStep(table, elements, lines, key);
    }
  }

  /** `tokens` holds, for every key of a valid line, the value of the last one. */
  lemma {:induction false} TokensAreLast(table: Table, elements: Elements, lines: seq<string>, key: string)
    ensures var tokens := TokensOf(table, elements, lines);
            if key in tokens then
              exists i :: 0 <= i < |lines| && Judge(table, elements, lines[i]) == Accept(key, tokens[key])
                          && forall j :: i < j < |lines| ==> !Has(table, elements, lines[j], key)
            else !HasKey(table, elements, lines, key)
    decreases |lines|
  {
    hide Judge;
    if lines != [] {
      var n := |lines| - 1;
      var front := lines[..n];
      var tokens := TokensOf(table, elements, lines);
      TokensAreLast(table, elements, front, key);
      assert forall j :: 0 <= j < n ==> front[j] == lines[j];
      if Has(table, elements, lines[n], key) {
        assert Judge(table, elements, lines[n]) == Accept(key, tokens[key]);
      } else if key in TokensOf(table, elements, front) {
        var i :| 0 <= i < n && Judge(table, elements, front[i]) == Accept(key, tokens[key])
                 && forall j :: i < j < n ==> !Has(table, elements, front[j], key);
        assert Judge(table, elements, lines[i]) == Accept(key, tokens[key]);
      }
    }
  }

  /** On an error tokens and counts are those of the lines in front of it; a forbidden repetition has been
      counted once more. */
  lemma ErrorKeepsBefore(table: Table, elements: Elements, commandLines: seq<string>)
    requires Tokenized(table, elements, commandLines).code != OK
    ensures var lines, t := ShiftPop(commandLines), Tokenized(table, elements, commandLines);
            exists n: nat :: FirstError(table, elements, lines, n, t.code)
                             && t.tokens == TokensOf(table, elements, lines[..n])
                             && t.seen == match Judge(table, elements, lines[n])
                                          case Reject(_) => SeenOf(table, elements, lines[..n])
                                          case Accept(key, _) => More(SeenOf(table, elements, lines[..n]), key)
  {
    hide Offends, Judge, TokensOf, SeenOf, FirstError;
    OkExactly(table, elements, commandLines);
    var lines, code := ShiftPop(commandLines), Tokenized(table, elements, commandLines).code;
    var n := FirstOffence(table, elements, lines, 0);
    assert FirstError(table, elements, lines, n, code) by { FirstErrorIs(table, elements, commandLines); }
  }

  lemma FirstErrorIs(table: Table, elements: Elements, commandLines: seq<string>)
    ensures var lines, code := ShiftPop(commandLines), Tokenized(table, elements, commandLines).code;
            code != OK ==> FirstError(table, elements, lines, FirstOffence(table, elements, lines, 0), code)
  {
    hide Offends, Judge, TokensOf, SeenOf;
  }

  // ---------------------------------------------------------------- what single lines come to

  lemma ColonSplit(k: string, v: string)
    requires ':' !in k
    ensures SplitColon(k + ":" + v) == Element(k, Some(v))
  {
    var line := k + ":" + v;
    assert line[|k|] == ':' && line[..|k|] == k && line[|k| + 1..] == v;
    IndexOfIs(line, ':', |k|);
  }

  /** The verdict on a known key, from the value the validator is to see. */
  function Verdicted(table: Table, k: string, v: string): Verdict
    requires k in table
  {
    if v == "" then Reject("507") else if table[k](v) == "200" then Accept(k, v) else Reject(table[k](v))
  }

  /** An equals sign at the end of a value is taken off, once, before the value is looked at, if the
      command has a flag, and is part of it otherwise; with a flag, a newline behind it is taken off in
      its stead. */
  lemma FlagExactly(table: Table, elements: Elements, k: string, v: string)
    requires k in table && ':' !in k
    ensures Judge(table, elements, k + ":" + (v + "=")) == Verdicted(table, k, if elements.flag then v else v + "=")
    ensures Judge(table, elements, k + ":" + (v + "=\n")) == Verdicted(table, k, if elements.flag then v + "=" else v + "=\n")
    ensures (v == "" || (v[|v| - 1] != '=' && v[|v| - 1] != '\n')) ==> Judge(table, elements, k + ":" + v) == Verdicted(table, k, v)
    ensures (v != "" && v[|v| - 1] == '\n' && (|v| == 1 || v[|v| - 2] != '=')) ==> Judge(table, elements, k + ":" + v) == Verdicted(table, k, v)
  {
    ColonSplit(k, v + "=");
    ColonSplit(k, v + "=\n");
    ColonSplit(k, v);
    hide SplitColon;
    assert (v + "=")[..|v|] == v;
    assert (v + "=\n")[..|v| + 1] == v + "=";
  }

  /** A known key without a colon has no value. */
  lemma NoValue(table: Table, elements: Elements, k: string)
    requires k in table && ':' !in k
    ensures Judge(table, elements, k) == Reject("507")
  {
    IndexOfIs(k, ':', |k|);
  }

  /** Unknown keys: an option is refused with 501 if the command has options, an attribute with a value
      with 503 if it has attributes, and everything else with 507. */
  lemma UnknownKeys(table: Table, elements: Elements, k: string, v: string)
    requires k !in table && k != "" && Plain(k) && Plain(v) && ':' !in k
    ensures Judge(table, elements, k + ":" + v)
            == Reject(if k[0] == '-' then if elements.options then "501" else "507"
                      else if elements.attributes && v != "" then "503" else "507")
    ensures Judge(table, elements, k) == Reject(if k[0] == '-' && elements.options then "501" else "507")
  {
    ColonSplit(k, v);
    IndexOfIs(k, ':', |k|);
    var line := k + ":" + v;
    assert line[|k|] == ':' && line[|k| - 1] == k[|k| - 1] && k[|k| - 1] in k;
    assert forall i :: 0 <= i < |k| ==> line[i] == k[i] && k[i] in k;
    if v != "" {
      assert line[|k| + 1] == v[0] && v[0] in v;
      assert AttributeLike(line);
    }
    assert "-" <= k <==> k[0] == '-';
  }

  // ---------------------------------------------------------------- the tables of SESSION and QUIT

  predicate WordChar(c: char) { 'a' <= c <= 'z' || '0' <= c <= '9' }

  /** A letter or digit, then one of these, `_` or `-`; whatever follows, up to 128 characters. */
  function ValidateWord(word: string): string {
    if |word| >= 2 && WordChar(word[0]) && (WordChar(word[1]) || word[1] == '_' || word[1] == '-')
      && |word| <= 128 then OK else "506"
  }

  /** Some printable character, and 4 to 16 characters in all. */
  function ValidatePassword(password: string): string {
    if (exists i :: 0 <= i < |password| && ' ' <= password[i] <= '~') && 4 <= |password| <= 16 then OK else "506"
  }

  const SESSION_TABLE: Table := map["-id" := ValidateWord, "-password" := ValidatePassword, "-newpassword" := ValidatePassword]
  const SESSION_ELEMENTS := Elements(false, false, true)
  const QUIT_TABLE: Table := map[]
  const QUIT_ELEMENTS := Elements(false, false, false)

  /** The program's pattern for a word: one character of the first class, then one or more of the
      second, from the start; nothing is said about the rest. */
  predicate WordPattern(s: string, n: nat) {
    1 <= n < |s| && ('a' <= s[0] <= 'z' || '0' <= s[0] <= '9')
    && forall i :: 1 <= i <= n ==> 'a' <= s[i] <= 'z' || '0' <= s[i] <= '9' || s[i] == '_' || s[i] == '-'
  }

  /** A word is valid exactly if it matches and has 1 to 128 characters. */
  lemma WordExactly(s: string)
    ensures ValidateWord(s) == "200" <==> (exists n: nat :: WordPattern(s, n)) && 1 <= |s| <= 128
    ensures ValidateWord(s) != "200" ==> ValidateWord(s) == "506"
  {
    if ValidateWord(s) == "200" { assert WordPattern(s, 1); }
  }

  /** The program's pattern for a password: one or more printable characters, anywhere. */
  predicate PasswordPattern(s: string, from: nat, n: nat) {
    n >= 1 && from + n <= |s| && forall i :: from <= i < from + n ==> 0x20 <= s[i] as int <= 0x7E
  }

  /** A password is valid exactly if it matches and has 4 to 16 characters. */
  lemma PasswordExactly(s: string)
    ensures ValidatePassword(s) == "200" <==> (exists from: nat, n: nat :: PasswordPattern(s, from, n)) && 4 <= |s| <= 16
    ensures ValidatePassword(s) != "200" ==> ValidatePassword(s) == "506"
  {
    if i :| 0 <= i < |s| && ' ' <= s[i] <= '~' { assert PasswordPattern(s, i, 1); }
    if from: nat, n: nat :| PasswordPattern(s, from, n) { assert ' ' <= s[from] <= '~'; }
  }
}
