/**
 MOD and ADD requests from the C client, all the way to the server's check of them: which values the
 validators get to see, and in particular that the sign for deletion is gone by then.
 */
module ModifyRequest {
  import opened Common
  import opened Text
  import opened Multimap
  import opened Protocol
  import opened Request
  import opened RequestCalls
  import opened RequestBuilt
  import opened RequestServe
  import opened Tokenize
  import opened RequestCheck

  /** What MOD expects: a flag and attributes. */
  const MOD_ELEMENTS := Elements(true, true, false)

  predicate Accepts(table: Table, key: string, value: string)
    requires key in table
  {
    value != "" && table[key](value) == "200"
  }

  /** A field whose lower case is known and valid. */
  predicate Accepted(table: Table, p: Pair) {
    LowerField(p).0 in table && FieldValid(table, MOD_ELEMENTS, LowerField(p))
  }

  predicate AllAccepted(table: Table, fields: seq<Pair>) {
    forall i :: 0 <= i < |fields| ==> Accepted(table, fields[i])
  }

  lemma AcceptedParts(table: Table, a: seq<Pair>, b: seq<Pair>)
    ensures AllAccepted(table, a + b) <==> AllAccepted(table, a) && AllAccepted(table, b)
  {
    hide Accepted;
    if AllAccepted(table, a + b) {
      forall i | 0 <= i < |a| ensures Accepted(table, a[i]) {
        assert (a + b)[i] == a[i];
      }
      forall i | 0 <= i < |b| ensures Accepted(table, b[i]) {
        assert (a + b)[|a| + i] == b[i];
      }
    }
  }

  lemma AddedAccepted(table: Table, key: string, values: seq<string>)
    requires Lower(key) in table
    ensures AllAccepted(table, VectorFields(key, values))
            <==> forall i :: 0 <= i < |values| ==> Accepts(table, Lower(key), Kept(MOD_ELEMENTS, Lower(values[i])))
  {
    hide Lower, Kept;
    var fields := VectorFields(key, values);
    assert forall i :: 0 <= i < |values| ==> fields[i] == (key, values[i]);
  }

  lemma DeletedKept(d: string)
    ensures Kept(MOD_ELEMENTS, Lower(d + "=")) == Lower(d)
  {
    LowerConcat(d, "=");
    LowerEquals();
    assert (Lower(d) + "=")[..|d|] == Lower(d);
  }

  lemma LowerEquals()
    ensures Lower("=") == "="
  {}

  lemma DeletedAccepted(table: Table, key: string, values: seq<string>)
    requires Lower(key) in table
    ensures AllAccepted(table, DeletedFields(key, values))
            <==> forall i :: 0 <= i < |values| ==> Accepts(table, Lower(key), Lower(values[i]))
  {
    hide Lower, Kept;
    var fields := DeletedFields(key, values);
    forall i | 0 <= i < |values|
      ensures fields[i] == (key, values[i] + "=") && Kept(MOD_ELEMENTS, Lower(values[i] + "=")) == Lower(values[i])
    {
      DeletedKept(values[i]);
    }
  }

  /** The values of one key of the list, each behind the key and an equals sign. */
  predicate EntryAccepted(table: Table, key: string, e: Entry)
    requires key in table
  {
    forall i :: 0 <= i < |e.values| ==>
      Accepts(table, key, Kept(MOD_ELEMENTS, Lower(e.key) + "=" + Lower(e.values[i])))
  }

  lemma ReplacedAccepted(table: Table, key: string, e: Entry)
    requires Lower(key) in table
    ensures AllAccepted(table, ReplacedFields(key, e.key, e.values)) <==> EntryAccepted(table, Lower(key), e)
  {
    hide Lower, Kept;
    var fields := ReplacedFields(key, e.key, e.values);
    forall i | 0 <= i < |e.values|
      ensures fields[i] == (key, e.key + "=" + e.values[i]) && Lower(e.key + "=" + e.values[i]) == Lower(e.key) + "=" + Lower(e.values[i])
    {
      LowerEquals();
      LowerConcat(e.key + "=", e.values[i]);
      LowerConcat(e.key, "=");
    }
  }

  lemma {:induction false} ModifiedAccepted(table: Table, key: string, entries: seq<Entry>)
    requires Lower(key) in table
    ensures AllAccepted(table, PropertyFields(key, entries))
            <==> forall i :: 0 <= i < |entries| ==> EntryAccepted(table, Lower(key), entries[i])
    decreases |entries|
  {
    hide Lower, EntryAccepted, FieldValid;
    if entries != [] {
      var n := |entries| - 1;
      ModifiedAccepted(table, key, entries[..n]);
      ReplacedAccepted(table, key, entries[n]);
      hide AllAccepted;
      AcceptedParts(table, PropertyFields(key, entries[..n]), ReplacedFields(key, entries[n].key, entries[n].values));
      assert forall i :: 0 <= i < n ==> entries[..n][i] == entries[i];
    }
  }

  // ---------------------------------------------------------------- MOD

  function ModifyCommand(name: string, added: seq<string>, modified: seq<Entry>, deleted: seq<string>): seq<string> {
    CommandLines(MessageText("Mod",
      [("EntityName", "Domain"), ("DomainName", name)]
      + (VectorFields("NameServer", added) + PropertyFields("NameServer", modified) + DeletedFields("NameServer", deleted))))
  }

  lemma LowerNames()
    ensures Lower("Mod") == "mod" && Lower("EntityName") == "entityname" && Lower("DomainName") == "domainname"
    ensures Lower("NameServer") == "nameserver" && Lower("Domain") == "domain"
  {}

  lemma PlainMod()
    ensures Plain("Mod")
  {}

  lemma ModFields(name: string, added: seq<string>, modified: seq<Entry>, deleted: seq<string>)
    requires Plain(name) && AllPlain(added) && EntriesPlain(modified) && AllPlain(deleted)
    ensures FieldsOk([("EntityName", "Domain"), ("DomainName", name)]
                     + (VectorFields("NameServer", added) + PropertyFields("NameServer", modified) + DeletedFields("NameServer", deleted)))
  {
    hide Plain, KeyOk;
    assert KeyOk("EntityName") && KeyOk("DomainName") && KeyOk("NameServer") && Plain("Domain") by { RequestBuilt.Keys(); }
    ChangeFieldsAre("NameServer", added, modified, deleted);
    ChangeFieldsOk("NameServer", added, modified, deleted);
    TwoPlain("EntityName", "Domain", "DomainName", name);
    FieldsConcat([("EntityName", "Domain"), ("DomainName", name)], ChangeFields("NameServer", added, modified, deleted));
  }

  lemma TwoPlain(k: string, v: string, l: string, w: string)
    requires KeyOk(k) && Plain(v) && KeyOk(l) && Plain(w)
    ensures FieldsOk([(k, v), (l, w)])
  {}

  /** The keys of the fields, in lower case: known, and only name servers repeated. */
  lemma ModKeys(table: Table, name: string, rest: seq<Pair>)
    requires table.Keys == {"entityname", "domainname", "nameserver", "newnameserver", "ipaddress"}
    requires forall i :: 0 <= i < |rest| ==> rest[i].0 == "NameServer"
    ensures var fields := LowerAll([("EntityName", "Domain"), ("DomainName", name)] + rest);
            RepeatsOk(fields) && forall i :: 0 <= i < |fields| ==> fields[i].0 in table
  {
    LowerNames();
    hide Lower;
    var fields := [("EntityName", "Domain"), ("DomainName", name)] + rest;
    assert forall i :: 2 <= i < |fields| ==> fields[i] == rest[i - 2];
  }

  lemma {:induction false} PropertyKeys(key: string, entries: seq<Entry>)
    ensures forall i :: 0 <= i < |PropertyFields(key, entries)| ==> PropertyFields(key, entries)[i].0 == key
    decreases |entries|
  {
    if entries != [] { PropertyKeys(key, entries[..|entries| - 1]); }
  }

  /** A MOD of a domain's name servers is accepted exactly if the name and all new, replaced and deleted
      name servers are valid, the deleted ones without the sign that marks them. */
  lemma ModifyDomainChecked(table: Table, name: string, added: seq<string>, modified: seq<Entry>, deleted: seq<string>)
    requires Plain(name) && AllPlain(added) && EntriesPlain(modified) && AllPlain(deleted)
    requires table.Keys == {"entityname", "domainname", "nameserver", "newnameserver", "ipaddress"}
    ensures Tokenized(table, MOD_ELEMENTS, ModifyCommand(name, added, modified, deleted)).code == "200"
            <==> Accepts(table, "entityname", "domain") && Accepts(table, "domainname", Kept(MOD_ELEMENTS, Lower(name)))
                 && (forall i :: 0 <= i < |added| ==> Accepts(table, "nameserver", Kept(MOD_ELEMENTS, Lower(added[i]))))
                 && (forall i :: 0 <= i < |modified| ==> EntryAccepted(table, "nameserver", modified[i]))
                 && (forall i :: 0 <= i < |deleted| ==> Accepts(table, "nameserver", Lower(deleted[i])))
  {
    hide Plain, AllPlain, EntriesPlain, Lower, Tokenized, Accepts, EntryAccepted, AllAccepted, Kept, Accepted, RepeatsOk;
    var head := [("EntityName", "Domain"), ("DomainName", name)];
    var a, m, d := VectorFields("NameServer", added), PropertyFields("NameServer", modified), DeletedFields("NameServer", deleted);
    assert Lower("NameServer") == "nameserver" by { LowerNames(); }
    ModChecked(table, name, added, modified, deleted);
    AcceptedParts(table, head, a + m + d);
    AcceptedParts(table, a + m, d);
    AcceptedParts(table, a, m);
    HeadAccepted(table, name);
    AddedAccepted(table, "NameServer", added);
    ModifiedAccepted(table, "NameServer", modified);
    DeletedAccepted(table, "NameServer", deleted);
  }

  lemma HeadAccepted(table: Table, name: string)
    requires "entityname" in table && "domainname" in table
    ensures AllAccepted(table, [("EntityName", "Domain"), ("DomainName", name)])
            <==> Accepts(table, "entityname", "domain") && Accepts(table, "domainname", Kept(MOD_ELEMENTS, Lower(name)))
  {
    LowerNames();
    hide Lower;
    var head: seq<Pair> := [("EntityName", "Domain"), ("DomainName", name)];
    assert Accepted(table, head[0]) <==> Accepts(table, "entityname", "domain");
    assert Accepted(table, head[1]) <==> Accepts(table, "domainname", Kept(MOD_ELEMENTS, Lower(name)));
  }

  lemma ModChecked(table: Table, name: string, added: seq<string>, modified: seq<Entry>, deleted: seq<string>)
    requires Plain(name) && AllPlain(added) && EntriesPlain(modified) && AllPlain(deleted)
    requires table.Keys == {"entityname", "domainname", "nameserver", "newnameserver", "ipaddress"}
    ensures var fields := [("EntityName", "Domain"), ("DomainName", name)]
                          + (VectorFields("NameServer", added) + PropertyFields("NameServer", modified) + DeletedFields("NameServer", deleted));
            var t := Tokenized(table, MOD_ELEMENTS, ModifyCommand(name, added, modified, deleted));
            (t.code == "200" <==> AllAccepted(table, fields))
            && (t.code == "200" ==> Counted(t.seen, LowerAll(fields)) && LastKept(MOD_ELEMENTS, t.tokens, LowerAll(fields)))
  {
    hide Plain, AllPlain, EntriesPlain, Lower, Tokenized, FieldValid, CommandLines, MessageText, FieldsOk, FieldTexts, RepeatsOk, Counted, LastKept;
    var rest := VectorFields("NameServer", added) + PropertyFields("NameServer", modified) + DeletedFields("NameServer", deleted);
    var fields := [("EntityName", "Domain"), ("DomainName", name)] + rest;
    ModFields(name, added, modified, deleted);
    PlainMod();
    RequestLines("Mod", fields);
    LowerFieldsOk(fields);
    PropertyKeys("NameServer", modified);
    ModKeys(table, name, rest);
    TokenizeFields(table, MOD_ELEMENTS, Lower("Mod"), LowerAll(fields));
    assert forall i :: 0 <= i < |fields| ==> LowerAll(fields)[i] == LowerField(fields[i]);
  }

  /** What is kept of the name servers is the last one deleted, if there is one, without the sign. */
  lemma LastDeleted(table: Table, name: string, added: seq<string>, modified: seq<Entry>, deleted: seq<string>)
    requires Plain(name) && AllPlain(added) && EntriesPlain(modified) && AllPlain(deleted) && deleted != []
    requires table.Keys == {"entityname", "domainname", "nameserver", "newnameserver", "ipaddress"}
    ensures var t := Tokenized(table, MOD_ELEMENTS, ModifyCommand(name, added, modified, deleted));
            t.code == "200" ==> "nameserver" in t.tokens && t.tokens["nameserver"] == Lower(deleted[|deleted| - 1])
  {
    hide Plain, AllPlain, EntriesPlain, Lower, Tokenized, Counted, LastKept, AllAccepted, Kept, ModifyCommand;
    ModChecked(table, name, added, modified, deleted);
    var fields := [("EntityName", "Domain"), ("DomainName", name)]
                  + (VectorFields("NameServer", added) + PropertyFields("NameServer", modified) + DeletedFields("NameServer", deleted));
    var n := |fields| - 1;
    assert fields[n] == ("NameServer", deleted[|deleted| - 1] + "=");
    assert Lower("NameServer") == "nameserver" by { LowerNames(); }
    DeletedKept(deleted[|deleted| - 1]);
    var t := Tokenized(table, MOD_ELEMENTS, ModifyCommand(name, added, modified, deleted));
    if t.code == "200" { FieldRecorded(MOD_ELEMENTS, t, LowerAll(fields), n); }
  }

  // ---------------------------------------------------------------- ADD

  /** The server reads the period of an ADD back as the number that was given; without a positive one
      there is no such field. */
  lemma PeriodRecovered(name: string, nameServers: seq<string>, period: int)
    ensures var fields := AddDomainFields(name, nameServers, period);
            if period >= 1 then
              fields != [] && fields[|fields| - 1].0 == "-Period" && AllDigits(fields[|fields| - 1].1)
              && DigitPrefix(fields[|fields| - 1].1, 0) == period
            else |fields| == 2 + |nameServers| && forall i :: 0 <= i < |fields| ==> fields[i].0 != "-Period"
  {
    hide AllDigits, DigitPrefix, Decimal;
    if period >= 1 { DecimalValue(period); }
    OtherKeys();
  }

  lemma OtherKeys()
    ensures "EntityName" != "-Period" && "DomainName" != "-Period" && "NameServer" != "-Period"
  {
    assert "EntityName"[0] != '-' && "DomainName"[0] != '-' && "NameServer"[0] != '-';
  }
}
