/**
 What `tokenize` makes of the fields of a request: for any known keys, repeated or not, and with the
 sign for deletion taken off where the command has one.  MOD requests of the C client are checked
 this way, all their parts included.
 */
module RequestCheck {
  import opened Common
  import opened Text
  import opened Multimap
  import opened Protocol
  import opened RequestServe
  import opened Tokenize

  /** The value of a field without the equals sign at its end, if the command takes it for a flag. */
  function Kept(elements: Elements, text: string): string {
    if elements.flag && text != "" && text[|text| - 1] == '=' then text[..|text| - 1] else text
  }

  /** A field whose value is not empty and passes its validator. */
  predicate FieldValid(table: Table, elements: Elements, p: Pair)
    requires p.0 in table
  {
    Kept(elements, p.1) != "" && table[p.0](Kept(elements, p.1)) == "200"
  }

  /** Only name servers and addresses are repeated. */
  predicate RepeatsOk(fields: seq<Pair>) {
    forall i, j :: 0 <= i < j < |fields| && fields[i].0 == fields[j].0 ==> fields[j].0 == "nameserver" || fields[j].0 == "ipaddress"
  }

  ghost function KeyPositions(fields: seq<Pair>, key: string): (r: set<nat>)
    ensures forall i :: i in r <==> 0 <= i < |fields| && fields[i].0 == key
  {
    set i: nat | i < |fields| && fields[i].0 == key
  }

  /** `seen` counts the fields of every key. */
  ghost predicate Counted(seen: map<string, nat>, fields: seq<Pair>) {
    forall key :: (if key in seen then seen[key] else 0) == |KeyPositions(fields, key)|
  }

  predicate LastOfKey(fields: seq<Pair>, i: nat)
    requires i < |fields|
  {
    forall j :: i < j < |fields| ==> fields[j].0 != fields[i].0
  }

  /** `tokens` has the value of the last field of every key. */
  ghost predicate LastKept(elements: Elements, tokens: map<string, string>, fields: seq<Pair>) {
    (forall i :: 0 <= i < |fields| && LastOfKey(fields, i) ==> fields[i].0 in tokens && tokens[fields[i].0] == Kept(elements, fields[i].1))
    && forall key :: key in tokens ==> KeyPositions(fields, key) != {}
  }

  lemma JudgeField(table: Table, elements: Elements, p: Pair)
    requires FieldOk(p) && p.0 in table
    ensures Judge(table, elements, FieldText(p)) == Verdicted(table, p.0, Kept(elements, p.1))
  {
    hide Judge, Verdicted;
    var v, n := p.1, |p.1| - 1;
    if v != "" && v[n] == '=' {
      assert v == v[..n] + "=";
      FlagExactly(table, elements, p.0, v[..n]);
      assert FieldText(p) == p.0 + ":" + (v[..n] + "=");
    } else {
      assert v != "" ==> v[n] in v;
      FlagExactly(table, elements, p.0, v);
    }
  }

  /** Known keys: the result is 200 exactly if every value is valid, without the flag, and no key is
      repeated that must not be; then every key has its count and its last value. */
  lemma TokenizeFields(table: Table, elements: Elements, command: string, fields: seq<Pair>)
    requires FieldsOk(fields) && forall i :: 0 <= i < |fields| ==> fields[i].0 in table
    ensures var t := Tokenized(table, elements, [command] + FieldTexts(fields) + [DOT]);
            (t.code == OK <==> (forall i :: 0 <= i < |fields| ==> FieldValid(table, elements, fields[i])) && RepeatsOk(fields))
            && (t.code == OK ==> Counted(t.seen, fields) && LastKept(elements, t.tokens, fields))
  {
    hide Judge, FieldText, FieldValid, Tokenized, Counted, LastKept, RepeatsOk;
    OkFields(table, elements, command, fields);
    if Tokenized(table, elements, [command] + FieldTexts(fields) + [DOT]).code == OK {
      forall i | 0 <= i < |fields|
        ensures Judge(table, elements, FieldText(fields[i])) == Accept(fields[i].0, Kept(elements, fields[i].1))
      {
        AcceptField(table, elements, fields[i]);
      }
      AllCounted(table, elements, fields);
      AllKept(table, elements, fields);
    }
  }

  lemma AcceptField(table: Table, elements: Elements, p: Pair)
    requires FieldOk(p) && p.0 in table
    ensures if FieldValid(table, elements, p) then Judge(table, elements, FieldText(p)) == Accept(p.0, Kept(elements, p.1))
            else Judge(table, elements, FieldText(p)).Reject?
  {
    hide Judge, Kept;
    JudgeField(table, elements, p);
  }

  lemma OkFields(table: Table, elements: Elements, command: string, fields: seq<Pair>)
    requires FieldsOk(fields) && forall i :: 0 <= i < |fields| ==> fields[i].0 in table
    ensures var lines, t := FieldTexts(fields), Tokenized(table, elements, [command] + FieldTexts(fields) + [DOT]);
            (t.code == OK <==> (forall i :: 0 <= i < |fields| ==> FieldValid(table, elements, fields[i])) && RepeatsOk(fields))
            && (t.code == OK ==> t == Tokens(OK, TokensOf(table, elements, lines), SeenOf(table, elements, lines)))
  {
    hide Judge, FieldText, FieldValid, TokensOf, SeenOf, Offends, FirstOffence, RepeatsOk;
    var commandLines, lines := [command] + FieldTexts(fields) + [DOT], FieldTexts(fields);
    assert ShiftPop(commandLines) == lines && lines[..|lines|] == lines;
    OkExactly(table, elements, commandLines);
    if forall i :: 0 <= i < |lines| ==> !Offends(table, elements, lines, i) {
      NoneOffends(table, elements, fields);
    } else if (forall i :: 0 <= i < |fields| ==> FieldValid(table, elements, fields[i])) && RepeatsOk(fields) {
      forall i | 0 <= i < |fields| ensures !Offends(table, elements, lines, i) {
        ValidField(table, elements, fields, i);
      }
    }
  }

  lemma NoneOffends(table: Table, elements: Elements, fields: seq<Pair>)
    requires FieldsOk(fields) && forall i :: 0 <= i < |fields| ==> fields[i].0 in table
    requires forall i :: 0 <= i < |fields| ==> !Offends(table, elements, FieldTexts(fields), i)
    ensures (forall i :: 0 <= i < |fields| ==> FieldValid(table, elements, fields[i])) && RepeatsOk(fields)
  {
    hide Judge, FieldText, FieldValid;
    var lines := FieldTexts(fields);
    forall i | 0 <= i < |fields| ensures FieldValid(table, elements, fields[i]) && Has(table, elements, lines[i], fields[i].0) {
      AcceptField(table, elements, fields[i]);
      assert !Offends(table, elements, lines, i);
    }
    forall i, j | 0 <= i < j < |fields| && fields[i].0 == fields[j].0
      ensures fields[j].0 == "nameserver" || fields[j].0 == "ipaddress"
    {
      AcceptField(table, elements, fields[j]);
      assert lines[..j][i] == lines[i];
      assert HasKey(table, elements, lines[..j], fields[j].0);
      assert !Offends(table, elements, lines, j);
    }
  }

  lemma ValidField(table: Table, elements: Elements, fields: seq<Pair>, i: nat)
    requires FieldsOk(fields) && i < |fields| && forall k :: 0 <= k < |fields| ==> fields[k].0 in table
    requires FieldValid(table, elements, fields[i]) && RepeatsOk(fields)
    ensures !Offends(table, elements, FieldTexts(fields), i)
  {
    hide Judge, FieldText, FieldValid;
    var lines := FieldTexts(fields);
    AcceptField(table, elements, fields[i]);
    forall j | 0 <= j < i ensures Has(table, elements, lines[..i][j], fields[i].0) ==> fields[j].0 == fields[i].0 {
      AcceptField(table, elements, fields[j]);
    }
  }

  lemma AllCounted(table: Table, elements: Elements, fields: seq<Pair>)
    requires forall i :: 0 <= i < |fields| ==> Judge(table, elements, FieldText(fields[i])) == Accept(fields[i].0, Kept(elements, fields[i].1))
    ensures Counted(SeenOf(table, elements, FieldTexts(fields)), fields)
  {
    hide Judge, FieldText, SeenOf, Kept;
    var lines := FieldTexts(fields);
    forall key
      ensures (if key in SeenOf(table, elements, lines) then SeenOf(table, elements, lines)[key] else 0) == |KeyPositions(fields, key)|
    {
      SeenCounts(table, elements, lines, key);
      assert Positions(table, elements, lines, key) == KeyPositions(fields, key);
    }
  }

  lemma AllKept(table: Table, elements: Elements, fields: seq<Pair>)
    requires forall i :: 0 <= i < |fields| ==> Judge(table, elements, FieldText(fields[i])) == Accept(fields[i].0, Kept(elements, fields[i].1))
    ensures LastKept(elements, TokensOf(table, elements, FieldTexts(fields)), fields)
  {
    hide Judge, FieldText, TokensOf, Kept, LastOfKey, HasKey;
    var lines := FieldTexts(fields);
    var tokens := TokensOf(table, elements, lines);
    forall i | 0 <= i < |fields| && LastOfKey(fields, i)
      ensures fields[i].0 in tokens && tokens[fields[i].0] == Kept(elements, fields[i].1)
    {
      LastIsKept(table, elements, fields, i);
    }
    forall key | key in tokens ensures KeyPositions(fields, key) != {} {
      KeptHasField(table, elements, fields, key);
    }
  }

  lemma LastIsKept(table: Table, elements: Elements, fields: seq<Pair>, i: nat)
    requires i < |fields| && LastOfKey(fields, i)
    requires forall k :: 0 <= k < |fields| ==> Judge(table, elements, FieldText(fields[k])) == Accept(fields[k].0, Kept(elements, fields[k].1))
    ensures var tokens := TokensOf(table, elements, FieldTexts(fields));
            fields[i].0 in tokens && tokens[fields[i].0] == Kept(elements, fields[i].1)
  {
    hide Judge, FieldText, TokensOf, Kept;
    var lines, key := FieldTexts(fields), fields[i].0;
    var tokens := TokensOf(table, elements, lines);
    TokensAreLast(table, elements, lines, key);
    assert Has(table, elements, lines[i], key);
    var k :| 0 <= k < |lines| && Judge(table, elements, lines[k]) == Accept(key, tokens[key])
             && forall j :: k < j < |lines| ==> !Has(table, elements, lines[j], key);
    assert fields[k].0 == key;
  }

  lemma KeptHasField(table: Table, elements: Elements, fields: seq<Pair>, key: string)
    requires key in TokensOf(table, elements, FieldTexts(fields))
    requires forall k :: 0 <= k < |fields| ==> Judge(table, elements, FieldText(fields[k])) == Accept(fields[k].0, Kept(elements, fields[k].1))
    ensures KeyPositions(fields, key) != {}
  {
    hide Judge, FieldText, TokensOf, Kept;
    var lines := FieldTexts(fields);
    TokensAreLast(table, elements, lines, key);
    var k :| 0 <= k < |lines| && Judge(table, elements, lines[k]) == Accept(key, TokensOf(table, elements, lines)[key]);
    assert fields[k].0 == key;
    assert k in KeyPositions(fields, key);
  }

  /** What is recorded of the last field with its key. */
  lemma FieldRecorded(elements: Elements, t: Tokens, fields: seq<Pair>, i: nat)
    requires Counted(t.seen, fields) && LastKept(elements, t.tokens, fields) && i < |fields| && LastOfKey(fields, i)
    ensures fields[i].0 in t.seen && t.seen[fields[i].0] > 0
    ensures fields[i].0 in t.tokens && t.tokens[fields[i].0] == Kept(elements, fields[i].1)
  {
    assert i in KeyPositions(fields, fields[i].0);
  }

  lemma KeyAbsent(t: Tokens, fields: seq<Pair>, key: string)
    requires Counted(t.seen, fields) && forall i :: 0 <= i < |fields| ==> fields[i].0 != key
    ensures key in t.seen ==> t.seen[key] == 0
  {
    assert KeyPositions(fields, key) == {};
  }
}
