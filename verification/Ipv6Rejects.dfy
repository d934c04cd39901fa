/**
 Which texts are taken for IPv6 addresses: what every address that is taken looks like, which
 characters and how long a group never get through, whatever wild cards there are, and what comes of
 more than one wild card.
 */
module Ipv6Rejects {
  import opened Common
  import opened Ipv6

  // ---------------------------------------------------------------- what is taken

  /** A letter or a digit. */
  predicate Alphanumeric(c: char) {
    (48 <= c as int <= 57) || (65 <= c as int <= 90) || (97 <= c as int <= 122)
  }

  /** One to four letters or digits. */
  predicate Group(g: string) {
    1 <= |g| <= 4 && forall i :: 0 <= i < |g| ==> Alphanumeric(g[i])
  }

  lemma GroupIs(g: string)
    ensures GroupOk(g) <==> Group(g)
  {
    if GroupOk(g) { assert forall i :: 0 <= i < |g| ==> g[i] in g; }
  }

  /** Every text that is taken comes to eight groups of one to four letters or digits. */
  lemma AcceptedIsAddress(s: string)
    ensures var r := Groups(s);
            r.Some? ==> |r.value| == 8 && forall i :: 0 <= i < 8 ==> Group(r.value[i])
  {
    hide Fields, Expand, HasWildCard, MatchesAtEnd, GroupOk, Group;
    var r := Groups(s);
    if r.Some? {
      forall i | 0 <= i < 8 ensures Group(r.value[i]) {
        assert r.value[i] in r.value;
        GroupIs(r.value[i]);
      }
    }
  }

  // ---------------------------------------------------------------- eight fields

  /** Fields that are not empty and have no colon, whatever else they have. */
  predicate Solid(fields: seq<string>) {
    forall i :: 0 <= i < |fields| ==> fields[i] != "" && ':' !in fields[i]
  }

  lemma {:induction false} SolidJoin(fields: seq<string>)
    requires Solid(fields) && fields != []
    ensures var s := Join(fields);
            !HasDouble(s) && s != "" && s[0] != ':' && s[|s| - 1] != ':' && Split(s) == fields
    ensures EndsWith(Join(fields), ":\n") ==> fields[|fields| - 1] == "\n"
    decreases |fields|
  {
    var g := fields[0];
    assert g[0] in g && g[|g| - 1] in g;
    NoColonNoDouble(g);
    SplitGroup(g);
    if |fields| > 1 {
      var y := Join(fields[1..]);
      SolidJoin(fields[1..]);
      NoDoubleAcross(g, y);
      Ipv6.SplitColon(g, y);
      EndOfJoin(g, y);
    } else {
      NoColonEnd(g);
    }
  }

  lemma NoColonEnd(g: string)
    requires ':' !in g
    ensures !EndsWith(g, ":\n")
  {
    if |g| >= 2 { assert g[|g| - 2] == g[|g| - 2..][0] && g[|g| - 2] in g; }
  }

  lemma EndOfJoin(g: string, y: string)
    requires y != "" && y[0] != ':'
    ensures EndsWith(g + ":" + y, ":\n") ==> y == "\n" || EndsWith(y, ":\n")
  {
    var s := g + ":" + y;
    if EndsWith(s, ":\n") {
      assert s[|s| - 1] == s[|s| - 2..][1] && s[|s| - 2] == s[|s| - 2..][0];
      if |y| >= 2 { assert y[|y| - 2..] == s[|s| - 2..]; }
    }
  }

  /** Eight fields with colons in between are an address exactly if each one is a group. */
  lemma EightFields(fields: seq<string>)
    requires |fields| == 8 && Solid(fields)
    ensures Groups(Join(fields)) == if forall i :: 0 <= i < 8 ==> Group(fields[i]) then Some(fields) else None
  {
    hide HasDouble, Split, SplitDouble, Expand, GroupOk, Group, EndsWith, Join;
    var s := Join(fields);
    SolidJoin(fields);
    TrimLast(fields);
    JoinHasColon(fields);
    forall g | g in fields ensures GroupOk(g) <==> Group(g) {
      GroupIs(g);
    }
    NewlineNoGroup();
    EndIs(s);
    assert forall i :: 0 <= i < 8 ==> fields[i] in fields;
  }

  lemma NewlineNoGroup()
    ensures !Group("\n")
  {
    assert !Alphanumeric("\n"[0]);
  }

  lemma EndIs(s: string)
    requires s != "" && s[|s| - 1] != ':'
    ensures MatchesAtEnd(s, ":") <==> EndsWith(s, ":\n")
  {
    assert ":" + "\n" == ":\n";
    assert s[|s| - 1] == s[|s| - 1..][0];
  }

  lemma JoinHasColon(fields: seq<string>)
    requires |fields| > 1
    ensures ':' in Join(fields)
  {
    assert Join(fields)[|fields[0]|] == ':';
  }

  // ---------------------------------------------------------------- what never gets through

  predicate WithinAt(s: string, u: string, i: nat) {
    i + |u| <= |s| && s[i..i + |u|] == u
  }

  /** `u` is part of `s`, at some place. */
  ghost predicate Within(s: string, u: string) {
    exists i: nat :: WithinAt(s, u, i)
  }

  lemma WithinParts(a: string, u: string, b: string)
    ensures Within(a + u + b, u)
  {
    assert (a + u + b)[|a|..|a| + |u|] == u;
    assert WithinAt(a + u + b, u, |a|);
  }

  /** Text without colons survives every rewriting of double colons. */
  lemma {:induction false} ReplaceLeaves(a: string, u: string, b: string, t: string) returns (a': string, b': string)
    requires u != "" && ':' !in u
    ensures ReplaceDouble(a + u + b, t) == a' + u + b'
    decreases |a|
  {
    hide ReplaceDouble;
    var s := a + u + b;
    if a == "" {
      ReplaceBehind(u, b, t);
      a', b' := "", ReplaceDouble(b, t);
      assert s == u + b;
    } else {
      assert u[0] in u;
      ReplaceSteps(s, t);
      if StartsDouble(s) {
        assert |a| >= 2;
        assert s[2..] == a[2..] + u + b;
        a', b' := ReplaceLeaves(a[2..], u, b, t);
        assert t + (a' + u + b') == (t + a') + u + b';
        a' := t + a';
      } else {
        assert s[1..] == a[1..] + u + b;
        a', b' := ReplaceLeaves(a[1..], u, b, t);
        assert [s[0]] + (a' + u + b') == ([s[0]] + a') + u + b';
        a' := [s[0]] + a';
      }
    }
  }

  lemma ReplaceSteps(s: string, t: string)
    requires |s| >= 2
    ensures ReplaceDouble(s, t) == if StartsDouble(s) then t + ReplaceDouble(s[2..], t) else [s[0]] + ReplaceDouble(s[1..], t)
  {}

  lemma {:induction false} ReplaceBehind(u: string, b: string, t: string)
    requires ':' !in u
    ensures ReplaceDouble(u + b, t) == u + ReplaceDouble(b, t)
    decreases |u|
  {
    if u == "" {
      assert u + b == b;
    } else {
      assert u[0] in u && (u + b)[1..] == u[1..] + b;
      ReplaceBehind(u[1..], b, t);
      if |u + b| < 2 { assert u[1..] == "" && b == ""; }
    }
  }

  lemma WithinReplaced(s: string, u: string, t: string)
    requires Within(s, u) && u != "" && ':' !in u
    ensures Within(ReplaceDouble(s, t), u)
  {
    hide ReplaceDouble;
    var i: nat :| WithinAt(s, u, i);
    assert s == s[..i] + u + s[i + |u|..];
    var a', b' := ReplaceLeaves(s[..i], u, s[i + |u|..], t);
    WithinParts(a', u, b');
  }

  lemma {:induction false} WithinFilled(s: string, u: string)
    requires HasDouble(s) && Within(s, u) && u != "" && ':' !in u
    ensures Within(Fill(s), u)
    decreases 8 - Runs(s, true)
  {
    hide Within, HasDouble, ReplaceDouble, Runs, Fields;
    FieldsBound(s);
    FillStep(s, true);
    WithinReplaced(s, u, FILLER);
    if |Fields(s)| < 8 { WithinFilled(ReplaceDouble(s, FILLER), u); }
  }

  /** It ends up inside one of the fields. */
  lemma {:induction false} WithinSplit(a: string, u: string, b: string) returns (k: nat)
    requires u != "" && ':' !in u
    ensures k < |Split(a + u + b)| && Within(Split(a + u + b)[k], u)
    decreases |a|
  {
    var s := a + u + b;
    if a == "" {
      SplitBehind(u, b);
      k := 0;
      assert s == u + b;
      WithinParts("", u, Split(b)[0]);
      assert "" + u + Split(b)[0] == u + Split(b)[0];
    } else {
      assert s[1..] == a[1..] + u + b;
      k := WithinSplit(a[1..], u, b);
      var rest := Split(s[1..]);
      if s[0] == ':' {
        k := k + 1;
        assert Split(s)[k] == rest[k - 1];
      } else if k == 0 {
        WithinMore([s[0]], rest[0], u);
      }
    }
  }

  lemma WithinMore(c: string, f: string, u: string)
    requires Within(f, u)
    ensures Within(c + f, u)
  {
    var i: nat :| WithinAt(f, u, i);
    assert (c + f)[|c| + i..|c| + i + |u|] == f[i..i + |u|];
    assert WithinAt(c + f, u, |c| + i);
  }

  lemma {:induction false} SplitBehind(u: string, b: string)
    requires ':' !in u
    ensures Split(u + b) == [u + Split(b)[0]] + Split(b)[1..]
    decreases |u|
  {
    if u == "" {
      assert u + b == b && u + Split(b)[0] == Split(b)[0];
    } else {
      assert u[0] in u && (u + b)[1..] == u[1..] + b;
      SplitBehind(u[1..], b);
      assert [u[0]] + (u[1..] + Split(b)[0]) == u + Split(b)[0];
    }
  }

  lemma {:induction false} TrimKeeps(fields: seq<string>, k: nat)
    requires k < |fields| && fields[k] != ""
    ensures k < |Trim(fields)| && Trim(fields)[k] == fields[k]
    decreases |fields|
  {
    if fields[|fields| - 1] == "" { TrimKeeps(fields[..|fields| - 1], k); }
  }

  /** Five characters in a row, or one that is no letter or digit. */
  predicate Improper(u: string) {
    u != "" && ':' !in u && (|u| >= 5 || !Alphanumeric(u[0]))
  }

  lemma ImproperField(s: string, u: string)
    requires Within(s, u) && Improper(u)
    ensures exists g :: g in Fields(s) && !GroupOk(g)
  {
    var i: nat :| WithinAt(s, u, i);
    assert s == s[..i] + u + s[i + |u|..];
    var k := WithinSplit(s[..i], u, s[i + |u|..]);
    var g := Split(s)[k];
    var j: nat :| WithinAt(g, u, j);
    assert g[j] == g[j..j + |u|][0];
    TrimKeeps(Split(s), k);
    GroupIs(g);
    assert Fields(s)[k] == g;
  }

  /** Whatever the wild cards, a text with five characters in a row that are no colons, or with a character
      that is no letter, digit or colon, is not taken. */
  lemma ImproperRejected(s: string, u: string)
    requires Within(s, u) && Improper(u)
    ensures Groups(s) == None
  {
    hide Within, Improper, Fields, Fill, ReplaceDouble, HasDouble, MatchesAtEnd, GroupOk, Runs, SplitDouble;
    assert u != "" && ':' !in u by { ImproperIs(u); }
    if HasWildCard(s) {
      FirstKeeps(s);
      WithinReplaced(s, u, "0000::");
      WithinReplaced(s, u, "::0000");
      WithinReplaced(s, u, FILLER);
      ImproperExpanded(s, u);
    } else {
      ImproperField(s, u);
    }
  }

  lemma ImproperIs(u: string)
    requires Improper(u)
    ensures u != "" && ':' !in u
  {}

  /** The same for what the first rewriting puts together. */
  lemma ImproperExpanded(s: string, u: string)
    requires HasDouble(s) && Within(FirstRewriting(s), u) && Improper(u)
    ensures HasWildCard(s) ==> Groups(s) == None
  {
    hide Within, Improper, Fields, Fill, ReplaceDouble, HasDouble, MatchesAtEnd, GroupOk, Runs, SplitDouble, FirstRewriting;
    ImproperIs(u);
    var filled := Fill(FirstRewriting(s));
    WithinFilled(FirstRewriting(s), u);
    WithinReplaced(filled, u, ":0000:");
    WithinReplaced(filled, u, ":");
    ImproperField(Expand(s), u);
  }

  // ---------------------------------------------------------------- groups of hex digits

  /** One to four hexadecimal digits, as RFC 4291 has them. */
  predicate Hex(g: string) {
    1 <= |g| <= 4 && forall i :: 0 <= i < |g| ==>
      g[i] in {'0', '1', '2', '3', '4', '5', '6', '7', '8', '9', 'a', 'b', 'c', 'd', 'e', 'f', 'A', 'B', 'C', 'D', 'E', 'F'}
  }

  lemma HexOk(groups: seq<string>)
    requires forall i :: 0 <= i < |groups| ==> Hex(groups[i])
    ensures AllOk(groups)
  {
    hide GroupOk;
    forall i | 0 <= i < |groups| ensures GroupOk(groups[i]) {
      GroupIs(groups[i]);
      assert Hex(groups[i]);
    }
  }

  /** Up to seven groups of hexadecimal digits around a wild card, and some zeros between them: eight in
      all, except for a wild card alone and one behind seven groups. */
  lemma HexExpansion(l: seq<string>, r: seq<string>)
    requires forall i :: 0 <= i < |l| ==> Hex(l[i])
    requires forall i :: 0 <= i < |r| ==> Hex(r[i])
    ensures Groups(Join(l) + "::" + Join(r))
            == if |l| + |r| <= 7 && (r == [] ==> 1 <= |l| <= 6) then Some(l + Zeros(8 - |l| - |r|) + r) else None
    ensures forall n: nat, i: nat :: i < n ==> Zeros(n)[i] == "0000"
  {
    hide Groups, Hex;
    HexOk(l);
    HexOk(r);
    WildCardExpansion(l, r);
    forall n: nat, i: nat | i < n ensures Zeros(n)[i] == "0000" {
      ZerosAt(n, i);
    }
  }

  lemma {:induction false} ZerosAt(n: nat, i: nat)
    requires i < n
    ensures Zeros(n)[i] == "0000"
  {
    if i > 0 { ZerosAt(n - 1, i - 1); }
  }

  // ---------------------------------------------------------------- more than one wild card

  lemma {:induction false} ReplaceAt(a: string, y: string, t: string)
    requires Clean(a)
    ensures var s := a + DOUBLE + y;
            HasDouble(s) && ReplaceDouble(s, t) == a + t + ReplaceDouble(y, t) && SplitDouble(s) == [a] + SplitDouble(y)
    decreases |a|
  {
    var s := a + DOUBLE + y;
    if a == "" {
      assert s == DOUBLE + y && s[2..] == y;
    } else {
      var c, a' := a[0], a[1..];
      var s' := a' + DOUBLE + y;
      assert a == [c] + a' && s == [c] + s';
      CleanTail(a, DOUBLE + y);
      ReplaceAt(a', y, t);
      DoubleCons(c, s', t);
      hide ReplaceDouble, SplitDouble, HasDouble, Clean;
      assert [c] + (a' + t + ReplaceDouble(y, t)) == a + t + ReplaceDouble(y, t);
      assert ([a'] + SplitDouble(y))[1..] == SplitDouble(y);
    }
  }

  /** Groups with two double colons in between. */
  function Two(l: seq<string>, m: seq<string>, r: seq<string>): string {
    Join(l) + DOUBLE + (Join(m) + DOUBLE + Join(r))
  }

  lemma TwoReplaced(l: seq<string>, m: seq<string>, r: seq<string>, t: string)
    requires AllOk(l) && AllOk(m) && AllOk(r)
    ensures HasDouble(Two(l, m, r)) && ReplaceDouble(Two(l, m, r), t) == Join(l) + t + (Join(m) + t + Join(r))
    ensures SplitDouble(Two(l, m, r)) == [Join(l), Join(m), Join(r)]
  {
    hide ReplaceDouble, SplitDouble, HasDouble, AllOk;
    JoinClean(l);
    JoinClean(m);
    JoinClean(r);
    assert !HasDouble(Join(r)) && Clean(Join(m)) && Clean(Join(l));
    ReplaceOne(Join(m), Join(r), t);
    ReplaceAt(Join(l), Join(m) + DOUBLE + Join(r), t);
  }

  lemma SplitDoubleColon(x: string, y: string)
    ensures Split(x + DOUBLE + y) == Split(x) + [""] + Split(y)
  {
    hide Split;
    assert x + DOUBLE + y == x + ":" + (":" + y) && "" + ":" + y == ":" + y;
    Ipv6.SplitColon(x, ":" + y);
    Ipv6.SplitColon("", y);
    SplitGroup("");
    Assoc(Split(x), [""], Split(y));
  }

  lemma EmptyFieldRejected(s: string, k: nat)
    requires k < |Fields(s)| && Fields(s)[k] == "" && !HasWildCard(s)
    ensures Groups(s) == None
  {
    hide Fields, Expand, HasWildCard, MatchesAtEnd;
    assert Fields(s)[k] in Fields(s) && !GroupOk(Fields(s)[k]);
  }

  /** Two wild cards with groups between them are never taken. */
  lemma TwoWildCards(l: seq<string>, m: seq<string>, r: seq<string>)
    requires AllOk(l) && AllOk(m) && AllOk(r) && m != []
    ensures Groups(Two(l, m, r)) == None
  {
    if r != [] {
      TwoInside(l, m, r);
    } else if l != [] {
      TwoAtEnd(l, m);
    } else {
      TwoAround(m);
    }
  }

  /** With groups behind both, there are three parts, nothing is rewritten, and an empty field is left. */
  lemma TwoInside(l: seq<string>, m: seq<string>, r: seq<string>)
    requires AllOk(l) && AllOk(m) && AllOk(r) && m != [] && r != []
    ensures Groups(Two(l, m, r)) == None
  {
    hide Split, SplitDouble, HasDouble, ReplaceDouble, Join, GroupOk, Groups, Clean;
    var s, y := Two(l, m, r), Join(m) + DOUBLE + Join(r);
    JoinClean(r);
    TwoReplaced(l, m, r, ":");
    assert !HasWildCard(s);
    SplitDoubleColon(Join(l), y);
    FieldsOf(m, r);
    TrimOver(Split(Join(l)) + [""], Split(y));
    var k := |Split(Join(l))|;
    assert Fields(s)[k] == "";
    EmptyFieldRejected(s, k);
  }

  lemma {:induction false} TrimOver(a: seq<string>, b: seq<string>)
    requires Trim(b) != []
    ensures Trim(a + b) == a + Trim(b)
    decreases |b|
  {
    var n := |b| - 1;
    assert (a + b)[|a + b| - 1] == b[n];
    if b[n] == "" {
      assert (a + b)[..|a + b| - 1] == a + b[..n];
      TrimOver(a, b[..n]);
    }
  }

  /** A group and the zeros that are put right behind or in front of it are too long together. */
  lemma TooLong(g: string)
    requires GroupOk(g)
    ensures Improper(ZERO + g) && Improper(g + ZERO)
  {
    GroupNoColon(g);
  }

  lemma TwoAtEnd(l: seq<string>, m: seq<string>)
    requires AllOk(l) && AllOk(m) && l != [] && m != []
    ensures Groups(Two(l, m, [])) == None
  {
    JoinNone();
    hide Split, SplitDouble, HasDouble, ReplaceDouble, GroupOk, Groups, Clean, Within, Improper, Trim, Join;
    var s := Two(l, m, []);
    JoinClean(l);
    JoinClean(m);
    TwoReplaced(l, m, [], "::0000");
    ThreeParts(Join(l), Join(m));
    assert s[0] == Join(l)[0];
    DoubleAtEnd(Join(l) + DOUBLE + Join(m));
    assert s == Join(l) + DOUBLE + Join(m) + DOUBLE;
    var u := ZERO + m[0];
    var more := if |m| == 1 then "" else ":" + Join(m[1..]);
    FirstOfJoin(m);
    EndText(Join(l), m[0], more);
    assert FirstRewriting(s) == (Join(l) + "::") + u + (more + "::0000");
    WithinParts(Join(l) + "::", u, more + "::0000");
    TooLong(m[0]);
    ImproperExpanded(s, u);
  }

  lemma ThreeParts(x: string, y: string)
    requires y != ""
    ensures |Trim([x, y, ""])| == 2
  {
    assert [x, y, ""][..2] == [x, y];
  }

  lemma DoubleAtEnd(x: string)
    ensures MatchesAtEnd(x + DOUBLE, DOUBLE)
  {
    assert (x + DOUBLE)[|x|..] == DOUBLE;
  }

  lemma TwoAround(m: seq<string>)
    requires AllOk(m) && m != []
    ensures Groups(Two([], m, [])) == None
  {
    JoinNone();
    hide Split, SplitDouble, HasDouble, ReplaceDouble, GroupOk, Groups, Clean, Within, Improper, Trim, Join;
    var s := Two([], m, []);
    JoinClean(m);
    TwoReplaced([], m, [], "0000::");
    ThreeParts("", Join(m));
    assert s == DOUBLE + Join(m) + DOUBLE;
    var n := |m| - 1;
    var u := m[n] + ZERO;
    LastOfJoin(m);
    var before := if n == 0 then "" else Join(m[..n]) + ":";
    FrontText(before, m[n]);
    assert FirstRewriting(s) == ("0000::" + before) + u + "::";
    WithinParts("0000::" + before, u, "::");
    TooLong(m[n]);
    ImproperExpanded(s, u);
  }

  lemma JoinNone()
    ensures Join([]) == ""
  {}

  lemma JoinOne(g: string)
    ensures Join([g]) == g
  {}

  lemma JoinCons(g: string, m: seq<string>)
    requires m != []
    ensures Join([g] + m) == g + ":" + Join(m)
  {
    assert ([g] + m)[1..] == m;
  }

  lemma FirstOfJoin(m: seq<string>)
    requires m != []
    ensures Join(m) == m[0] + if |m| == 1 then "" else ":" + Join(m[1..])
  {
    hide Join;
    if |m| == 1 {
      assert m == [m[0]];
      JoinOne(m[0]);
    } else {
      assert m == [m[0]] + m[1..];
      JoinCons(m[0], m[1..]);
    }
  }

  lemma LastOfJoin(m: seq<string>)
    requires m != []
    ensures Join(m) == (if |m| == 1 then "" else Join(m[..|m| - 1]) + ":") + m[|m| - 1]
  {
    hide Join;
    var n := |m| - 1;
    assert m == m[..n] + [m[n]];
    JoinOne(m[n]);
    if n > 0 { JoinAppend(m[..n], [m[n]]); }
  }

  lemma EndText(x: string, g: string, more: string)
    ensures x + "::0000" + ((g + more) + "::0000" + "") == (x + "::") + (ZERO + g) + (more + "::0000")
  {
    assert "::0000" == "::" + ZERO;
  }

  lemma FrontText(before: string, g: string)
    ensures "" + "0000::" + ((before + g) + "0000::" + "") == ("0000::" + before) + (g + ZERO) + "::"
  {
    assert "0000::" == ZERO + "::";
  }

  // ---------------------------------------------------------------- three colons

  lemma TwoFields(l: seq<string>, m: seq<string>, r: seq<string>)
    requires l != [] && m != [] && r != [] && AllOk(l) && AllOk(m) && AllOk(r)
    ensures |Fields(Two(l, m, r))| == |l| + |m| + |r| + 2
  {
    hide Split, Join, Trim, GroupOk;
    SplitDoubleColon(Join(l), Join(m) + DOUBLE + Join(r));
    SplitDoubleColon(Join(m), Join(r));
    SplitJoin(l);
    SplitJoin(m);
    SplitJoin(r);
    LastNotEmpty(r);
    TrimLast(l + [""] + (m + [""] + r));
  }

  lemma LastNotEmpty(r: seq<string>)
    requires r != [] && AllOk(r)
    ensures r[|r| - 1] != ""
  {
    assert GroupOk(r[|r| - 1]);
  }

  /** How often the loop goes round with two double colons: every pass adds two fields. */
  function Passes(n: nat): nat { if n >= 8 then 0 else (9 - n) / 2 }

  lemma {:induction false} TwoFilled(l: seq<string>, m: seq<string>, r: seq<string>)
    requires l != [] && m != [] && r != [] && AllOk(l) && AllOk(m) && AllOk(r)
    ensures HasDouble(Two(l, m, r))
    ensures var k := Passes(|l| + |m| + |r| + 2);
            Fill(Two(l, m, r)) == Two(l, Zeros(k) + m, Zeros(k) + r)
    decreases 16 - |l| - |m| - |r|
  {
    hide Join, HasDouble, ReplaceDouble, Fields, GroupOk, SplitDouble;
    TwoFields(l, m, r);
    TwoReplaced(l, m, r, FILLER);
    if |l| + |m| + |r| + 2 < 8 {
      OneZero();
      FillerJoin(l, m, r);
      TwoFilled(l, [ZERO] + m, [ZERO] + r);
      var k := Passes(|l| + |m| + |r| + 4);
      ZerosShift(k, m);
      ZerosShift(k, r);
    } else {
      assert Zeros(0) + m == m && Zeros(0) + r == r;
    }
  }

  lemma FillerJoin(l: seq<string>, m: seq<string>, r: seq<string>)
    requires m != [] && r != []
    ensures Join(l) + FILLER + (Join(m) + FILLER + Join(r)) == Two(l, [ZERO] + m, [ZERO] + r)
  {
    hide Join;
    JoinCons(ZERO, m);
    JoinCons(ZERO, r);
    FillerText(Join(l), Join(m), Join(r));
  }

  lemma FillerText(a: string, b: string, c: string)
    ensures a + FILLER + (b + FILLER + c) == a + DOUBLE + ((ZERO + ":" + b) + DOUBLE + (ZERO + ":" + c))
  {
    assert FILLER == DOUBLE + ZERO + ":";
  }

  lemma TwoJoined(l: seq<string>, m: seq<string>, r: seq<string>)
    requires l != [] && m != [] && r != [] && AllOk(l) && AllOk(m) && AllOk(r)
    ensures ReplaceDouble(Two(l, m, r), ":") == Join(l + m + r)
    ensures ReplaceDouble(Two(l, m, r), ":0000:") == Join(l + [ZERO] + m + [ZERO] + r)
  {
    hide HasDouble, ReplaceDouble, SplitDouble, Join;
    TwoReplaced(l, m, r, ":");
    TwoReplaced(l, m, r, ":0000:");
    JoinAppend(l, m + r);
    JoinAppend(m, r);
    assert l + (m + r) == l + m + r;
    ZeroFront(m, r);
    ZeroFront(l, m + ([ZERO] + r));
    assert l + ([ZERO] + (m + ([ZERO] + r))) == l + [ZERO] + m + [ZERO] + r;
  }

  lemma ZeroFront(l: seq<string>, n: seq<string>)
    requires l != [] && n != []
    ensures Join(l + ([ZERO] + n)) == Join(l) + ":0000:" + Join(n)
  {
    hide Join;
    JoinAppend(l, [ZERO] + n);
    JoinCons(ZERO, n);
    assert Join(l) + ":" + (ZERO + ":" + Join(n)) == Join(l) + ":0000:" + Join(n);
  }

  lemma {:induction false} ZerosAdd(a: nat, b: nat)
    ensures Zeros(a) + Zeros(b) == Zeros(a + b)
  {
    if a == 0 {
      assert Zeros(a) + Zeros(b) == Zeros(b);
    } else {
      ZerosAdd(a - 1, b);
      assert Zeros(a) + Zeros(b) == [ZERO] + (Zeros(a - 1) + Zeros(b));
    }
  }

  /** What the text is rewritten to in the end. */
  lemma ThreeExpanded(l: seq<string>, r: seq<string>)
    requires l != [] && r != [] && AllOk(l) && AllOk(r) && HasDouble(Join(l) + ":::" + Join(r))
    ensures var n := |l| + |r|;
            var k := Passes(n + 3);
            Expand(Join(l) + ":::" + Join(r))
            == Join(if n + 2 * k + 3 == 8 then l + Zeros(2 * k + 3) + r else l + (Zeros(k) + [ZERO]) + (Zeros(k) + r))
  {
    hide Fields, HasDouble, Fill, ReplaceDouble, SplitDouble, MatchesAtEnd, Join, Trim, Zeros, GroupOk, FirstRewriting, HasWildCard, Two;
    ThreeFirst(l, r);
    ZeroOk();
    TwoFilled(l, [ZERO], r);
    var k := Passes(|l| + |r| + 3);
    ZerosAround(l, r, k);
    TwoFields(l, Zeros(k) + [ZERO], Zeros(k) + r);
    TwoJoined(l, Zeros(k) + [ZERO], Zeros(k) + r);
  }

  lemma ZeroOk()
    ensures AllOk([ZERO])
  {
    OneZero();
    assert [ZERO] == Zeros(1);
  }

  lemma Taken(s: string, groups: seq<string>)
    requires ':' in s && HasDouble(s) && HasWildCard(s) && Expand(s) == Join(groups) && |groups| >= 2 && AllOk(groups)
    ensures Groups(s) == if |groups| == 8 then Some(groups) else None
  {
    hide Fields, HasDouble, MatchesAtEnd, Join, GroupOk, HasWildCard, Expand;
    GroupsOfJoin(groups);
    assert forall g :: g in groups ==> GroupOk(g);
  }

  /** Whether the loop stops at eight fields. */
  predicate Meets(n: nat) { n + 2 * Passes(n + 3) + 3 == 8 }

  lemma PassesAre(n: nat)
    requires n >= 2
    ensures Meets(n) <==> n == 3 || n == 5
    ensures !Meets(n) ==> (n + 2 * Passes(n + 3) + 1 == 8 <==> n == 7)
  {}

  /** The groups the text comes to: eight exactly if there is an odd number around, up to seven. */
  lemma ThreeGroups(l: seq<string>, r: seq<string>) returns (groups: seq<string>)
    requires l != [] && r != [] && AllOk(l) && AllOk(r) && HasDouble(Join(l) + ":::" + Join(r))
    ensures Expand(Join(l) + ":::" + Join(r)) == Join(groups) && AllOk(groups) && |groups| >= 2
    ensures |groups| == 8 <==> |l| + |r| in {3, 5, 7}
    ensures |groups| == 8 ==> groups == l + Zeros(8 - |l| - |r|) + r
  {
    hide HasDouble, Join, AllOk, Expand, Zeros, Passes;
    ThreeExpanded(l, r);
    var n := |l| + |r|;
    var k := Passes(n + 3);
    PassesAre(n);
    if Meets(n) {
      groups := l + Zeros(2 * k + 3) + r;
      AllOkAround(l, Zeros(2 * k + 3), r);
      assert 2 * k + 3 == 8 - n;
    } else {
      ZeroOk();
      groups := l + (Zeros(k) + [ZERO]) + (Zeros(k) + r);
      AllOkAround(Zeros(k), [ZERO], r);
      AllOkAround(l, Zeros(k) + [ZERO], Zeros(k) + r);
      if n == 7 {
        assert k == 0;
        OneLeft(l, r);
      }
    }
  }

  /** Three colons between groups are not an address for RFC 4291; they are taken for a wild card
      exactly if there is an odd number of groups around them, up to seven. */
  lemma ThreeColons(l: seq<string>, r: seq<string>)
    requires l != [] && r != [] && AllOk(l) && AllOk(r)
    ensures Groups(Join(l) + ":::" + Join(r))
            == if |l| + |r| in {3, 5, 7} then Some(l + Zeros(8 - |l| - |r|) + r) else None
  {
    hide Groups, HasDouble, Join, AllOk, HasWildCard, Expand, FirstRewriting, Two, Zeros;
    ThreeFirst(l, r);
    var groups := ThreeGroups(l, r);
    Taken(Join(l) + ":::" + Join(r), groups);
  }

  lemma AllOkAround(a: seq<string>, b: seq<string>, c: seq<string>)
    requires AllOk(a) && AllOk(b) && AllOk(c)
    ensures AllOk(a + b + c) && AllOk(a + b) && AllOk(a + c)
  {
    hide GroupOk;
  }

  lemma OneLeft(l: seq<string>, r: seq<string>)
    ensures l + (Zeros(0) + [ZERO]) + (Zeros(0) + r) == l + Zeros(1) + r
  {
    assert Zeros(1) == [ZERO];
  }

  lemma ZerosAround(l: seq<string>, r: seq<string>, k: nat)
    ensures l + [ZERO] + (Zeros(k) + [ZERO]) + [ZERO] + (Zeros(k) + r) == l + Zeros(2 * k + 3) + r
    ensures AllOk(Zeros(k) + [ZERO])
  {
    OneZero();
    ZerosAdd(1, k);
    ZerosAdd(1 + k, 1);
    ZerosAdd(k + 2, 1);
    ZerosAdd(k + 3, k);
    assert l + [ZERO] + (Zeros(k) + [ZERO]) + [ZERO] + (Zeros(k) + r) == l + (Zeros(1) + Zeros(k) + Zeros(1) + Zeros(1) + Zeros(k)) + r;
  }

  lemma ThreeFirst(l: seq<string>, r: seq<string>)
    requires l != [] && r != [] && AllOk(l) && AllOk(r)
    ensures var s := Join(l) + ":::" + Join(r);
            ':' in s && HasDouble(s) && HasWildCard(s) && FirstRewriting(s) == Two(l, [ZERO], r)
  {
    hide HasDouble, ReplaceDouble, SplitDouble, Trim, Clean, GroupOk, Join, MatchesAtEnd;
    var s, y := Join(l) + ":::" + Join(r), ":" + Join(r);
    JoinClean(l);
    JoinClean(r);
    assert !HasDouble(Join(r)) by { JoinClean(r); CleanIs(Join(r)); }
    NoDoubleAcross("", Join(r));
    assert "" + ":" + Join(r) == y;
    NoReplace(y, FILLER);
    ReplaceAt(Join(l), y, FILLER);
    assert s == Join(l) + DOUBLE + y by { ThreeText(Join(l), Join(r)); }
    assert [Join(l)] + [y] == [Join(l), y];
    TrimLast([Join(l), y]);
    assert s[|Join(l)|] == ':';
    NotDoubleEnds(s, r);
    JoinOne(ZERO);
    ThreeText(Join(l), Join(r));
  }

  lemma ThreeText(x: string, z: string)
    ensures x + ":::" + z == x + DOUBLE + (":" + z)
    ensures x + FILLER + (":" + z) == x + DOUBLE + (ZERO + DOUBLE + z)
  {
    assert ":::" == DOUBLE + ":";
    assert FILLER == DOUBLE + ZERO + ":" && DOUBLE == ":" + ":";
  }

  lemma CleanIs(x: string)
    requires Clean(x)
    ensures !HasDouble(x)
  {}

  lemma NotDoubleEnds(s: string, r: seq<string>)
    requires |s| >= 3 && s[0] != ':' && s[|s| - 1] != ':' && s[|s| - 1] != '\n'
    ensures !StartsDouble(s) && !MatchesAtEnd(s, DOUBLE)
  {
    assert s[|s| - 1] == s[|s| - 2..][1];
    assert s[|s| - 1] == s[|s| - 3..][2];
    assert (DOUBLE + "\n")[2] == '\n';
  }

  // ---------------------------------------------------------------- single colons at the ends

  /** A colon behind the last of any number of groups, or in front of the first, is never taken. */
  lemma ColonAtEnds(groups: seq<string>)
    requires groups != [] && AllOk(groups)
    ensures Groups(Join(groups) + ":") == None && Groups(":" + Join(groups)) == None
  {
    hide Split, SplitDouble, HasDouble, ReplaceDouble, Join, GroupOk, Clean, Expand, Trim;
    var x := Join(groups);
    JoinClean(groups);
    CleanIs(x);
    ColonBehind(x);
    NoReplace(x + ":", "");
    assert MatchesAtEnd(x + ":", ":") by { assert (x + ":")[|x|..] == ":"; }
    NoDoubleAcross("", x);
    assert "" + ":" + x == ":" + x;
    NoReplace(":" + x, "");
    SplitColonFront(x);
    SplitJoin(groups);
    LastNotEmpty(groups);
    assert ([""] + groups)[|groups|] == groups[|groups| - 1];
    TrimLast([""] + groups);
    EmptyFieldRejected(":" + x, 0);
  }

  lemma SplitColonFront(x: string)
    ensures Split(":" + x) == [""] + Split(x)
  {
    SplitCons(':', x);
  }

  lemma {:induction false} ColonBehind(x: string)
    requires !HasDouble(x) && x != "" && x[|x| - 1] != ':'
    ensures !HasDouble(x + ":")
    decreases |x|
  {
    var s := x + ":";
    if |x| > 1 {
      assert s[1..] == x[1..] + ":";
      ColonBehind(x[1..]);
    }
  }
}
