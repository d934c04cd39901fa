/**
 How the server expands the wild card of an IPv6 address: by rewriting the text until it has
 eight groups.  The rewriting refines the expansion of groups that RFC 4291 section 2.2
 describes, except on the addresses it rejects.
 */
module Ipv6 {
  import opened Common

  const ZERO := "0000"
  const DOUBLE := "::"

  // ---------------------------------------------------------------- text operations

  /** The fields between colons, empty ones included. */
  function Split(s: string): (r: seq<string>)
    ensures r != []
  {
    if s == "" then [""]
    else
      var rest := Split(s[1..]);
      if s[0] == ':' then [""] + rest else [[s[0]] + rest[0]] + rest[1..]
  }

  /** Perl's `split` drops empty fields at the end. */
  function Trim(fields: seq<string>): (r: seq<string>)
    ensures r <= fields && (r != [] ==> r[|r| - 1] != "")
  {
    if fields != [] && fields[|fields| - 1] == "" then Trim(fields[..|fields| - 1]) else fields
  }

  function Fields(s: string): seq<string> { Trim(Split(s)) }

  predicate StartsDouble(s: string) { |s| >= 2 && s[0] == ':' && s[1] == ':' }

  predicate HasDouble(s: string) {
    |s| >= 2 && (StartsDouble(s) || HasDouble(s[1..]))
  }

  /** `s/::/t/g` */
  function ReplaceDouble(s: string, t: string): string {
    if |s| < 2 then s
    else if StartsDouble(s) then t + ReplaceDouble(s[2..], t)
    else [s[0]] + ReplaceDouble(s[1..], t)
  }

  /** The fields between double colons. */
  function SplitDouble(s: string): (r: seq<string>)
    ensures r != []
  {
    if |s| < 2 then [s]
    else if StartsDouble(s) then [""] + SplitDouble(s[2..])
    else
      var rest := SplitDouble(s[1..]);
      [[s[0]] + rest[0]] + rest[1..]
  }

  predicate EndsWith(s: string, t: string) {
    |t| <= |s| && s[|s| - |t|..] == t
  }

  /** Perl's `$` also matches before a newline at the end. */
  predicate MatchesAtEnd(s: string, t: string) {
    EndsWith(s, t) || EndsWith(s, t + "\n")
  }

  predicate GroupChar(c: char) {
    'A' <= c <= 'Z' || 'a' <= c <= 'z' || '0' <= c <= '9'
  }

  predicate GroupOk(g: string) {
    1 <= |g| <= 4 && forall c <- g :: GroupChar(c)
  }

  // ---------------------------------------------------------------- the filling loop

  /** The number of non-empty fields: starts of runs without colons. */
  function Runs(s: string, afterColon: bool): nat {
    if s == "" then 0
    else (if s[0] != ':' && afterColon then 1 else 0) + Runs(s[1..], s[0] == ':')
  }

  const FILLER := "::0000:"

  lemma RunsCons(c: char, x: string, afterColon: bool)
    ensures Runs([c] + x, afterColon) == (if c != ':' && afterColon then 1 else 0) + Runs(x, c == ':')
  {
    assert ([c] + x)[1..] == x;
  }

  lemma FillerRuns(x: string, afterColon: bool)
    ensures Runs(FILLER + x, afterColon) == 1 + Runs(x, true)
  {
    hide Runs;
    var x1 := ":" + x;
    var x2 := "0" + x1;
    var x3 := "0" + x2;
    var x4 := "0" + x3;
    var x5 := "0" + x4;
    var x6 := ":" + x5;
    RunsCons(':', x, false);
    RunsCons('0', x1, false);
    RunsCons('0', x2, false);
    RunsCons('0', x3, false);
    RunsCons('0', x4, true);
    RunsCons(':', x5, true);
    RunsCons(':', x6, afterColon);
    assert ":" + x6 == FILLER + x;
  }

  /** Each rewriting leaves a double colon and adds a non-empty field. */
  lemma {:induction false} FillStep(s: string, afterColon: bool)
    requires HasDouble(s)
    ensures HasDouble(ReplaceDouble(s, FILLER))
    ensures Runs(ReplaceDouble(s, FILLER), afterColon) > Runs(s, afterColon)
  {
    if StartsDouble(s) {
      FillerRuns(ReplaceDouble(s[2..], FILLER), afterColon);
      RunsGrow(s[2..], true);
      assert StartsDouble(ReplaceDouble(s, FILLER));
      assert s[1..][1..] == s[2..];
    } else {
      FillStep(s[1..], s[0] == ':');
      assert ReplaceDouble(s, FILLER)[1..] == ReplaceDouble(s[1..], FILLER);
    }
  }

  lemma {:induction false} RunsGrow(s: string, afterColon: bool)
    ensures Runs(ReplaceDouble(s, FILLER), afterColon) >= Runs(s, afterColon)
  {
    if StartsDouble(s) {
      FillerRuns(ReplaceDouble(s[2..], FILLER), afterColon);
      RunsGrow(s[2..], true);
      assert s[1..][1..] == s[2..];
    } else if |s| >= 2 {
      RunsGrow(s[1..], s[0] == ':');
      assert ReplaceDouble(s, FILLER)[1..] == ReplaceDouble(s[1..], FILLER);
    }
  }

  function NonEmpty(fields: seq<string>): nat {
    if fields == [] then 0 else (if fields[0] != "" then 1 else 0) + NonEmpty(fields[1..])
  }

  lemma {:induction false} RunsCount(s: string)
    ensures NonEmpty(Split(s)) == Runs(s, true)
    ensures Runs(s, true) == Runs(s, false) + if s != "" && s[0] != ':' then 1 else 0
  {
    if s != "" {
      RunsCount(s[1..]);
      var rest := Split(s[1..]);
      if s[0] == ':' {
        assert Split(s)[1..] == rest;
      } else {
        assert Split(s)[1..] == rest[1..];
        FirstField(s[1..]);
      }
    }
  }

  lemma FirstField(s: string)
    ensures Split(s)[0] != "" <==> s != "" && s[0] != ':'
  {}

  lemma {:induction false} TrimCount(fields: seq<string>)
    ensures NonEmpty(fields) <= |Trim(fields)|
  {
    if fields != [] && fields[|fields| - 1] == "" {
      TrimCount(fields[..|fields| - 1]);
      NonEmptyAppend(fields[..|fields| - 1], "");
      assert fields == fields[..|fields| - 1] + [""];
    } else {
      NonEmptyBound(fields);
    }
  }

  lemma {:induction false} NonEmptyAppend(fields: seq<string>, f: string)
    ensures NonEmpty(fields + [f]) == NonEmpty(fields) + if f != "" then 1 else 0
  {
    if fields != [] {
      NonEmptyAppend(fields[1..], f);
      assert (fields + [f])[1..] == fields[1..] + [f];
    }
  }

  lemma NonEmptyBound(fields: seq<string>)
    ensures NonEmpty(fields) <= |fields|
  {}

  lemma FieldsBound(s: string)
    ensures Runs(s, true) <= |Fields(s)|
  {
    RunsCount(s);
    TrimCount(Split(s));
  }

  /** Rewriting until there are eight fields; this ends on every text with a double colon. */
  function Fill(s: string): (r: string)
    requires HasDouble(s)
    decreases 8 - Runs(s, true)
  {
    FieldsBound(s);
    FillStep(s, true);
    if |Fields(s)| < 8 then Fill(ReplaceDouble(s, FILLER)) else s
  }

  // ---------------------------------------------------------------- the program

  /** The first rewriting depends on where the wild card is. */
  function FirstRewriting(s: string): (r: string)
    requires HasDouble(s)
    ensures HasDouble(r)
  {
    FirstKeeps(s);
    if StartsDouble(s) then ReplaceDouble(s, "0000::")
    else if MatchesAtEnd(s, DOUBLE) then ReplaceDouble(s, "::0000")
    else ReplaceDouble(s, FILLER)
  }

  /** The address with its wild card written out, as text. */
  function Expand(s: string): string
    requires HasDouble(s)
  {
    var filled := Fill(FirstRewriting(s));
    ReplaceDouble(filled, if |Fields(filled)| == 8 then ":0000:" else ":")
  }

  lemma {:induction false} ReplaceKeeps(s: string, t: string)
    requires HasDouble(s) && HasDouble(t)
    ensures HasDouble(ReplaceDouble(s, t))
  {
    if StartsDouble(s) {
      DoubleInside(t, ReplaceDouble(s[2..], t));
    } else {
      ReplaceKeeps(s[1..], t);
      assert ReplaceDouble(s, t)[1..] == ReplaceDouble(s[1..], t);
    }
  }

  lemma {:induction false} DoubleInside(t: string, x: string)
    requires HasDouble(t)
    ensures HasDouble(t + x)
  {
    if !StartsDouble(t) {
      DoubleInside(t[1..], x);
      assert (t + x)[1..] == t[1..] + x;
    }
  }

  lemma FirstKeeps(s: string)
    requires HasDouble(s)
    ensures HasDouble(ReplaceDouble(s, "0000::")) && HasDouble(ReplaceDouble(s, "::0000"))
            && HasDouble(ReplaceDouble(s, FILLER))
  {
    assert HasDouble("0000::") by {
      assert "0000::"[1..] == "000::";
      assert "000::"[1..] == "00::";
      assert "00::"[1..] == "0::";
      assert "0::"[1..] == "::";
    }
    ReplaceKeeps(s, "0000::");
    ReplaceKeeps(s, "::0000");
    ReplaceKeeps(s, FILLER);
  }

  /** Whether the text is one the rewriting applies to. */
  predicate HasWildCard(s: string) {
    var parts := |Trim(SplitDouble(s))|;
    HasDouble(s) && (parts == 2 || (parts == 1 && |Fields(s)| < 7))
  }

  /** The eight groups of an address, or none. */
  function Groups(s: string): Option<seq<string>> {
    if ':' !in s then None
    else
      var text := if HasWildCard(s) then Expand(s) else s;
      var groups := Fields(text);
      if MatchesAtEnd(text, ":") || |groups| != 8 || exists g <- groups :: !GroupOk(g) then None
      else Some(groups)
  }

  /** `ipv6_tonum` up to the groups; the number it makes of them is not modelled. */
  method NormalizeAddress(address: string) returns (r: Option<seq<string>>)
    ensures r == Groups(address)
  {
    hide ReplaceDouble, Split, Trim, HasDouble, Runs, GroupChar, MatchesAtEnd;
    if ':' !in address { return None; }
    var text := address;
    var parts := |Trim(SplitDouble(text))|;
    var fields := Fields(text);
    PartsDouble(text);
    if parts == 2 || (parts == 1 && |fields| < 7 && HasDouble(text)) {
      FirstKeeps(text);
      if StartsDouble(text) {
        text := ReplaceDouble(text, "0000::");
      } else if MatchesAtEnd(text, DOUBLE) {
        text := ReplaceDouble(text, "::0000");
      } else {
        text := ReplaceDouble(text, FILLER);
      }
      ghost var first := text;
      fields := Fields(text);
      while |fields| < 8
        invariant HasDouble(text) && fields == Fields(text)
        invariant Fill(first) == Fill(text)
        decreases 8 - Runs(text, true)
      {
        FieldsBound(text);
        FillStep(text, true);
        text := ReplaceDouble(text, FILLER);
        fields := Fields(text);
      }
      if |fields| == 8 {
        text := ReplaceDouble(text, ":0000:");
      } else {
        text := ReplaceDouble(text, ":");
      }
    }
    if MatchesAtEnd(text, ":") { return None; }
    var groups := Fields(text);
    if |groups| != 8 { return None; }
    for i := 0 to |groups|
      invariant forall j :: 0 <= j < i ==> 1 <= |groups[j]| <= 4
    {
      if |groups[i]| < 1 || |groups[i]| > 4 {
        assert groups[i] in groups && !GroupOk(groups[i]);
        return None;
      }
    }
    for i := 0 to |groups|
      invariant forall j :: 0 <= j < i ==> GroupOk(groups[j])
    {
      if exists c <- groups[i] :: !GroupChar(c) {
        assert groups[i] in groups && !GroupOk(groups[i]);
        return None;
      }
    }
    r := Some(groups);
  }

  lemma {:induction false} PartsDouble(s: string)
    ensures |SplitDouble(s)| >= 2 <==> HasDouble(s)
  {
    if |s| >= 2 && !StartsDouble(s) { PartsDouble(s[1..]); }
  }

  // ---------------------------------------------------------------- addresses as groups

  function Join(groups: seq<string>): string {
    if groups == [] then "" else if |groups| == 1 then groups[0] else groups[0] + ":" + Join(groups[1..])
  }

  predicate AllOk(groups: seq<string>) {
    forall i :: 0 <= i < |groups| ==> GroupOk(groups[i])
  }

  function Zeros(n: nat): (r: seq<string>)
    ensures |r| == n && AllOk(r)
  {
    if n == 0 then [] else [ZERO] + Zeros(n - 1)
  }

  /** A wild card before or after this text is the only one. */
  predicate Clean(s: string) {
    !HasDouble(s) && (s != "" ==> s[|s| - 1] != ':')
  }

  lemma Assoc<T>(a: seq<T>, b: seq<T>, c: seq<T>)
    ensures a + b + c == a + (b + c)
  {}

  lemma SplitCons(c: char, s: string)
    ensures Split([c] + s) == if c == ':' then [""] + Split(s) else [[c] + Split(s)[0]] + Split(s)[1..]
  {
    assert ([c] + s)[1..] == s;
  }

  lemma {:induction false} SplitColon(x: string, y: string)
    ensures Split(x + ":" + y) == Split(x) + Split(y)
    decreases |x|
  {
    if x == "" {
      assert x + ":" + y == ":" + y;
      SplitCons(':', y);
    } else {
      hide Split;
      var c, x' := x[0], x[1..];
      SplitColon(x', y);
      assert x == [c] + x' && x + ":" + y == [c] + (x' + ":" + y);
      SplitCons(c, x');
      SplitCons(c, x' + ":" + y);
      AppendFields(c, Split(x'), Split(y));
    }
  }

  lemma AppendFields(c: char, p: seq<string>, q: seq<string>)
    requires p != []
    ensures [""] + (p + q) == [""] + p + q
    ensures [[c] + (p + q)[0]] + (p + q)[1..] == [[c] + p[0]] + p[1..] + q
  {
    Assoc([""], p, q);
    assert (p + q)[1..] == p[1..] + q;
    Assoc([[c] + p[0]], p[1..], q);
  }

  lemma {:induction false} SplitGroup(g: string)
    requires ':' !in g
    ensures Split(g) == [g]
  {
    if g != "" {
      assert g[0] in g && [g[0]] + g[1..] == g;
      SplitGroup(g[1..]);
    }
  }

  lemma {:induction false} SplitJoin(groups: seq<string>)
    requires groups != [] && AllOk(groups)
    ensures Split(Join(groups)) == groups
    decreases |groups|
  {
    GroupNoColon(groups[0]);
    SplitGroup(groups[0]);
    if |groups| > 1 {
      SplitColon(groups[0], Join(groups[1..]));
      SplitJoin(groups[1..]);
    }
  }

  lemma GroupNoColon(g: string)
    requires GroupOk(g)
    ensures ':' !in g && '\n' !in g
  {
    assert !GroupChar(':') && !GroupChar('\n');
  }

  /** A joined address has no double colon, and no colon or newline at its ends. */
  lemma {:induction false} JoinClean(groups: seq<string>)
    requires AllOk(groups)
    ensures Clean(Join(groups))
    ensures groups != [] ==> Join(groups) != "" && Join(groups)[0] != ':'
                             && Join(groups)[|Join(groups)| - 1] != ':' && Join(groups)[|Join(groups)| - 1] != '\n'
    decreases |groups|
  {
    if groups != [] {
      var g := groups[0];
      GroupNoColon(g);
      assert g[0] in g && g[|g| - 1] in g;
      NoColonNoDouble(g);
      if |groups| > 1 {
        JoinClean(groups[1..]);
        NoDoubleAcross(g, Join(groups[1..]));
      }
    }
  }

  lemma {:induction false} NoColonNoDouble(g: string)
    requires ':' !in g
    ensures !HasDouble(g)
  {
    if |g| >= 2 {
      assert g[0] in g;
      NoColonNoDouble(g[1..]);
    }
  }

  lemma {:induction false} NoDoubleAcross(g: string, y: string)
    requires ':' !in g && !HasDouble(y) && y != "" && y[0] != ':'
    ensures !HasDouble(g + ":" + y)
    decreases |g|
  {
    var s := g + ":" + y;
    if g == "" {
      assert s == ":" + y && s[1..] == y;
    } else {
      assert g[0] in g && s[1..] == g[1..] + ":" + y;
      NoDoubleAcross(g[1..], y);
    }
  }

  lemma {:induction false} JoinAppend(l: seq<string>, m: seq<string>)
    requires l != [] && m != []
    ensures Join(l + m) == Join(l) + ":" + Join(m)
    decreases |l|
  {
    assert (l + m)[1..] == l[1..] + m;
    if |l| > 1 { JoinAppend(l[1..], m); }
  }

  lemma {:induction false} NoReplace(s: string, t: string)
    requires !HasDouble(s)
    ensures ReplaceDouble(s, t) == s && SplitDouble(s) == [s]
  {
    if |s| >= 2 { NoReplace(s[1..], t); }
  }

  lemma CleanTail(a: string, x: string)
    requires Clean(a) && a != ""
    ensures Clean(a[1..]) && !StartsDouble(a + x)
  {}

  lemma DoubleCons(c: char, s: string, t: string)
    requires s != "" && !StartsDouble([c] + s)
    ensures HasDouble([c] + s) == HasDouble(s) && ReplaceDouble([c] + s, t) == [c] + ReplaceDouble(s, t)
    ensures SplitDouble([c] + s) == [[c] + SplitDouble(s)[0]] + SplitDouble(s)[1..]
  {
    assert ([c] + s)[1..] == s;
  }

  lemma ReplaceFirst(b: string, t: string)
    requires !HasDouble(b)
    ensures var s := DOUBLE + b;
            HasDouble(s) && ReplaceDouble(s, t) == t + b && SplitDouble(s) == ["", b]
  {
    assert (DOUBLE + b)[2..] == b;
    NoReplace(b, t);
  }

  /** The one double colon is found and replaced. */
  lemma {:induction false} ReplaceOne(a: string, b: string, t: string)
    requires Clean(a) && !HasDouble(b)
    ensures var s := a + DOUBLE + b;
            HasDouble(s) && ReplaceDouble(s, t) == a + t + b && SplitDouble(s) == [a, b]
    decreases |a|
  {
    if a == "" {
      ReplaceFirst(b, t);
      assert "" + DOUBLE + b == DOUBLE + b && "" + t + b == t + b;
    } else {
      var s := a + DOUBLE + b;
      var c, a' := a[0], a[1..];
      var s' := a' + DOUBLE + b;
      assert a == [c] + a' && s == [c] + s';
      CleanTail(a, DOUBLE + b);
      ReplaceOne(a', b, t);
      DoubleCons(c, s', t);
      hide ReplaceDouble, SplitDouble, HasDouble, Clean;
      assert [c] + (a' + t + b) == a + t + b;
      assert [a', b][1..] == [b];
    }
  }

  lemma FieldsOf(l: seq<string>, m: seq<string>)
    requires l != [] && m != [] && AllOk(l) && AllOk(m)
    ensures Fields(Join(l) + DOUBLE + Join(m)) == l + [""] + m
  {
    hide Split, Join, Trim;
    var x, y := Join(l), Join(m);
    assert x + DOUBLE + y == x + ":" + (":" + y);
    assert "" + ":" + y == ":" + y;
    SplitColon(x, ":" + y);
    SplitColon("", y);
    SplitGroup("");
    SplitJoin(l);
    SplitJoin(m);
    Assoc(l, [""], m);
    TrimLast(l + [""] + m);
  }

  /** One pass puts a zero group behind the wild card. */
  lemma FillOnce(l: seq<string>, m: seq<string>)
    requires l != [] && m != [] && AllOk(l) && AllOk(m)
    ensures var s := Join(l) + DOUBLE + Join(m);
            HasDouble(s) && |Fields(s)| == |l| + 1 + |m|
            && ReplaceDouble(s, FILLER) == Join(l) + DOUBLE + Join([ZERO] + m)
  {
    hide HasDouble, ReplaceDouble, SplitDouble, Fields;
    JoinClean(l);
    JoinClean(m);
    ReplaceOne(Join(l), Join(m), FILLER);
    FieldsOf(l, m);
    assert ([ZERO] + m)[1..] == m;
    assert Join([ZERO] + m) == ZERO + ":" + Join(m);
    assert FILLER == DOUBLE + ZERO + ":";
  }

  /** The loop puts zero groups behind the wild card until there are eight fields. */
  lemma {:induction false} FillIs(l: seq<string>, m: seq<string>)
    requires l != [] && m != [] && AllOk(l) && AllOk(m)
    ensures HasDouble(Join(l) + DOUBLE + Join(m))
    ensures Fill(Join(l) + DOUBLE + Join(m))
            == Join(l) + DOUBLE + Join(Zeros(if |l| + |m| < 7 then 7 - |l| - |m| else 0) + m)
    decreases 8 - |l| - |m|
  {
    hide Join, HasDouble, ReplaceDouble, Fields, GroupOk;
    FillOnce(l, m);
    if |l| + |m| < 7 {
      OneZero();
      FillIs(l, [ZERO] + m);
      ZerosShift(6 - |l| - |m|, m);
    } else {
      assert Zeros(0) + m == m;
    }
  }

  lemma {:induction false} ZerosShift(n: nat, m: seq<string>)
    ensures Zeros(n) + ([ZERO] + m) == Zeros(n + 1) + m
  {
    if n > 0 {
      ZerosShift(n - 1, m);
      assert Zeros(n) + ([ZERO] + m) == [ZERO] + (Zeros(n - 1) + ([ZERO] + m));
      assert Zeros(n + 1) + m == [ZERO] + (Zeros(n) + m);
    } else {
      assert Zeros(1) == [ZERO];
    }
  }

  /** Eight fields, one of them empty, make eight groups. */
  lemma FinishEight(l: seq<string>, n: seq<string>)
    requires l != [] && n != [] && AllOk(l) && AllOk(n)
    ensures ReplaceDouble(Join(l) + DOUBLE + Join(n), ":0000:") == Join(l + [ZERO] + n)
    ensures ReplaceDouble(Join(l) + DOUBLE + Join(n), ":") == Join(l + n)
  {
    hide HasDouble, ReplaceDouble, SplitDouble;
    JoinClean(l);
    JoinClean(n);
    ReplaceOne(Join(l), Join(n), ":0000:");
    ReplaceOne(Join(l), Join(n), ":");
    JoinAppend(l, n);
    JoinAppend(l, [ZERO] + n);
    assert ([ZERO] + n)[1..] == n;
    assert Join(l) + ":0000:" + Join(n) == Join(l) + ":" + Join([ZERO] + n);
    assert l + ([ZERO] + n) == l + [ZERO] + n;
  }

  /** Filled up and with its wild card replaced, the text has no wild card left. */
  lemma FinishIs(l: seq<string>, m: seq<string>)
    requires l != [] && m != [] && AllOk(l) && AllOk(m)
    ensures HasDouble(Join(l) + DOUBLE + Join(m))
    ensures var filled := Fill(Join(l) + DOUBLE + Join(m));
            ReplaceDouble(filled, if |Fields(filled)| == 8 then ":0000:" else ":")
            == Join(if |l| + |m| <= 7 then l + Zeros(8 - |l| - |m|) + m else l + m)
  {
    hide Fields, HasDouble, Fill, ReplaceDouble, Join;
    FillIs(l, m);
    var k := if |l| + |m| < 7 then 7 - |l| - |m| else 0;
    var n := Zeros(k) + m;
    FieldsOf(l, n);
    FinishEight(l, n);
    if |l| + |m| <= 7 {
      assert l + [ZERO] + n == l + Zeros(k + 1) + m;
    } else {
      assert n == m;
    }
  }

  lemma GroupsOfJoin(groups: seq<string>)
    requires |groups| >= 2 && AllOk(groups)
    ensures Fields(Join(groups)) == groups && !MatchesAtEnd(Join(groups), ":") && ':' in Join(groups)
  {
    hide Split, Clean;
    SplitJoin(groups);
    JoinClean(groups);
    assert Join(groups) == groups[0] + ":" + Join(groups[1..]);
    assert Join(groups)[|groups[0]|] == ':';
    assert groups[|groups| - 1] != "";
  }

  /** What the address with the wild card between the groups `l` and `r` stands for, if it is taken. */
  function WildCardGroups(l: seq<string>, r: seq<string>): Option<seq<string>> {
    if (if r == [] then 1 <= |l| <= 6 else |l| + |r| <= 7) then Some(l + Zeros(8 - |l| - |r|) + r) else None
  }

  /** An address whose first rewriting has groups on both sides of the wild card. */
  lemma GroupsExpanded(s: string, l: seq<string>, m: seq<string>)
    requires ':' in s && HasWildCard(s) && l != [] && m != [] && AllOk(l) && AllOk(m)
    requires FirstRewriting(s) == Join(l) + DOUBLE + Join(m)
    ensures Groups(s) == if |l| + |m| <= 7 then Some(l + Zeros(8 - |l| - |m|) + m)
                         else if |l| + |m| == 8 then Some(l + m) else None
  {
    hide Fields, HasDouble, Fill, ReplaceDouble, MatchesAtEnd, FirstRewriting;
    FinishIs(l, m);
    var groups := if |l| + |m| <= 7 then l + Zeros(8 - |l| - |m|) + m else l + m;
    GroupsOfJoin(groups);
    assert Expand(s) == Join(groups);
  }

  lemma TrimEmpty(fields: seq<string>)
    ensures Trim(fields + [""]) == Trim(fields)
  {
    assert (fields + [""])[..|fields|] == fields;
  }

  lemma TrimLast(fields: seq<string>)
    requires fields != [] && fields[|fields| - 1] != ""
    ensures Trim(fields) == fields && Trim(fields + [""]) == fields && Trim(fields + ["", ""]) == fields
  {
    TrimEmpty(fields);
    TrimEmpty(fields + [""]);
    assert fields + [""] + [""] == fields + ["", ""];
  }

  /** Groups on both sides. */
  lemma WildCardInside(l: seq<string>, r: seq<string>)
    requires l != [] && r != [] && AllOk(l) && AllOk(r)
    ensures Groups(Join(l) + DOUBLE + Join(r)) == WildCardGroups(l, r)
  {
    hide Fields, HasDouble, ReplaceDouble, SplitDouble, Fill, Zeros, Clean, GroupOk, Trim, Groups, MatchesAtEnd, Join;
    var s := Join(l) + DOUBLE + Join(r);
    JoinClean(l);
    JoinClean(r);
    ReplaceOne(Join(l), Join(r), FILLER);
    TrimLast([Join(l), Join(r)]);
    NotAtEnds(Join(l), Join(r));
    ZeroGroup(r);
    JoinAppend([ZERO], r);
    var x, y := Join(l), Join(r);
    assert x + FILLER + y == x + DOUBLE + (ZERO + ":" + y);
    GroupsExpanded(s, l, [ZERO] + r);
    if |l| + |r| < 7 {
      InsideZeros(l, r, 7 - |l| - |r|);
    } else if |l| + |r| == 7 {
      OneZero();
      Assoc(l, [ZERO], r);
    }
  }

  lemma ZeroGroup(r: seq<string>)
    requires AllOk(r)
    ensures AllOk([ZERO]) && AllOk([ZERO] + r) && Join([ZERO]) == ZERO
  {}

  lemma NotAtEnds(x: string, y: string)
    requires x != "" && y != "" && x[0] != ':' && y[|y| - 1] != ':' && y[|y| - 1] != '\n'
    ensures var s := x + DOUBLE + y;
            ':' in s && !StartsDouble(s) && !MatchesAtEnd(s, DOUBLE)
  {
    var s := x + DOUBLE + y;
    assert s[|x|] == ':' && s[|s| - 1] == y[|y| - 1];
  }

  lemma OneZero()
    ensures Zeros(1) == [ZERO]
  {}

  lemma Insert(l: seq<string>, z: seq<string>, w: seq<string>, r: seq<string>, r': seq<string>)
    requires z + r' == w + r
    ensures l + z + r' == l + w + r
  {
    Assoc(l, z, r');
    Assoc(l, w, r);
  }

  lemma InsideZeros(l: seq<string>, r: seq<string>, n: nat)
    ensures l + Zeros(n) + ([ZERO] + r) == l + Zeros(n + 1) + r
  {
    ZerosShift(n, r);
    hide Zeros;
    Insert(l, Zeros(n), Zeros(n + 1), r, [ZERO] + r);
  }

  /** Groups behind the wild card only. */
  lemma WildCardFirst(r: seq<string>)
    requires r != [] && AllOk(r)
    ensures Groups(DOUBLE + Join(r)) == WildCardGroups([], r)
  {
    hide Fields, HasDouble, ReplaceDouble, SplitDouble, Fill, Groups, Zeros, Clean;
    var s := DOUBLE + Join(r);
    JoinClean(r);
    assert "" + DOUBLE + Join(r) == s;
    assert Clean("") by { EmptyClean(); }
    ReplaceOne("", Join(r), "0000::");
    TrimLast(["", Join(r)]);
    assert s[0] == ':' && StartsDouble(s);
    assert "" + "0000::" + Join(r) == Join([ZERO]) + DOUBLE + Join(r);
    GroupsExpanded(s, [ZERO], r);
    ZerosFirst(r);
  }

  lemma ZerosFirst(r: seq<string>)
    ensures |r| < 7 ==> [ZERO] + Zeros(7 - |r|) + r == [] + Zeros(8 - |r|) + r
    ensures |r| == 7 ==> [ZERO] + r == [] + Zeros(1) + r
  {
    if |r| < 7 { assert Zeros(8 - |r|) == [ZERO] + Zeros(7 - |r|); }
    assert Zeros(1) == [ZERO];
  }

  lemma EmptyClean()
    ensures Clean("")
  {}

  /** Groups in front of the wild card only. */
  lemma WildCardLast(l: seq<string>)
    requires l != [] && AllOk(l)
    ensures Groups(Join(l) + DOUBLE) == WildCardGroups(l, [])
  {
    hide Fields, HasDouble, ReplaceDouble, SplitDouble, Fill, Zeros, Clean, GroupOk, Trim, Groups;
    var s := Join(l) + DOUBLE;
    JoinClean(l);
    EmptyClean();
    assert Join(l) + DOUBLE + "" == s;
    ReplaceOne(Join(l), "", "::0000");
    DoubleLast(Join(l));
    TrimLast([Join(l)]);
    assert [Join(l)] + [""] == [Join(l), ""];
    FieldsBefore(l);
    if |l| <= 6 {
      assert Join(l) + "::0000" + "" == Join(l) + DOUBLE + Join([ZERO]);
      ZeroGroup([]);
      GroupsExpanded(s, l, [ZERO]);
      ZerosLast(l, 7 - |l|);
    } else {
      NotTaken(s);
    }
  }

  lemma DoubleLast(x: string)
    ensures ':' in x + DOUBLE && MatchesAtEnd(x + DOUBLE, ":") && MatchesAtEnd(x + DOUBLE, DOUBLE)
    ensures x != "" && x[0] != ':' ==> !StartsDouble(x + DOUBLE)
  {
    var s := x + DOUBLE;
    assert s[|s| - 1..] == ":" && s[|s| - 2..] == DOUBLE && s[|x|] == ':';
  }

  lemma NotTaken(s: string)
    requires !HasWildCard(s) && MatchesAtEnd(s, ":")
    ensures Groups(s) == None
  {
    hide HasWildCard, Fields, MatchesAtEnd;
  }

  lemma LoneWildCard()
    ensures Groups(DOUBLE) == None
  {
    hide Groups, MatchesAtEnd, Fields, ReplaceDouble, SplitDouble;
    EmptyClean();
    assert "" + DOUBLE + "" == DOUBLE && "" + DOUBLE == DOUBLE;
    ReplaceOne("", "", "");
    TrimEmpty([""]);
    TrimEmpty([]);
    assert [] + [""] == [""] && [""] + [""] == ["", ""];
    DoubleLast("");
    NotTaken(DOUBLE);
  }

  lemma {:induction false} ZerosLast(l: seq<string>, n: nat)
    ensures Zeros(n) + [ZERO] == Zeros(n + 1)
    ensures l + Zeros(n) + [ZERO] == l + Zeros(n + 1) + []
    decreases n
  {
    if n > 0 {
      ZerosLast(l, n - 1);
      Assoc([ZERO], Zeros(n - 1), [ZERO]);
    }
    Assoc(l, Zeros(n), [ZERO]);
  }

  lemma FieldsBefore(l: seq<string>)
    requires l != [] && AllOk(l)
    ensures Fields(Join(l) + DOUBLE) == l
  {
    var s := Join(l) + DOUBLE;
    assert s == Join(l) + ":" + ("" + ":" + "");
    SplitColon(Join(l), "" + ":" + "");
    SplitColon("", "");
    SplitJoin(l);
    assert Split(s) == l + ["", ""];
    TrimLast(l);
  }

  /** Rewriting the text of an address with a wild card gives exactly its groups with the missing
      zeros in between, for every address of at most seven groups; of these, a lone wild card and one
      behind seven groups are rejected, as are all longer addresses. */
  lemma WildCardExpansion(l: seq<string>, r: seq<string>)
    requires AllOk(l) && AllOk(r)
    ensures Groups(Join(l) + DOUBLE + Join(r)) == WildCardGroups(l, r)
  {
    hide Groups;
    if l == [] && r == [] {
      assert Join(l) + DOUBLE + Join(r) == DOUBLE;
      LoneWildCard();
    } else if r == [] {
      assert Join(l) + DOUBLE + Join(r) == Join(l) + DOUBLE;
      WildCardLast(l);
    } else if l == [] {
      assert Join(l) + DOUBLE + Join(r) == DOUBLE + Join(r);
      WildCardFirst(r);
    } else {
      WildCardInside(l, r);
    }
  }

  /** Without a wild card an address is taken exactly when it has eight groups, and then as it is. */
  lemma PlainAddress(groups: seq<string>)
    requires AllOk(groups)
    ensures Groups(Join(groups)) == if |groups| == 8 then Some(groups) else None
  {
    hide Fields, HasDouble, ReplaceDouble, SplitDouble;
    JoinClean(groups);
    if |groups| < 2 {
      if |groups| == 1 { GroupNoColon(groups[0]); }
    } else {
      GroupsOfJoin(groups);
    }
  }
}
