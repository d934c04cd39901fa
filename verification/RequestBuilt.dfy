/**
 The requests that the C client builds are requests the server's line loop hands over whole, and
 whose fields it recovers: what its calls produce from arguments without CR, LF and NUL.
 */
module RequestBuilt {
  import opened Common
  import opened Text
  import opened Multimap
  import opened Protocol
  import opened Request
  import opened RequestCalls
  import opened RequestServe

  predicate AllPlain(values: seq<string>) {
    forall i :: 0 <= i < |values| ==> Plain(values[i])
  }

  predicate EntriesPlain(entries: seq<Entry>) {
    forall i :: 0 <= i < |entries| ==> Plain(entries[i].key) && AllPlain(entries[i].values)
  }

  predicate KeyOk(key: string) { ':' !in key && Plain(key) }

  lemma PlainConcat(a: string, b: string)
    requires Plain(a) && Plain(b)
    ensures Plain(a + b)
  {}

  lemma FieldsConcat(a: seq<Pair>, b: seq<Pair>)
    requires FieldsOk(a) && FieldsOk(b)
    ensures FieldsOk(a + b)
  {}

  lemma {:induction false} PropertyFieldsOk(key: string, entries: seq<Entry>)
    requires KeyOk(key) && EntriesPlain(entries)
    ensures FieldsOk(PropertyFields(key, entries))
    decreases |entries|
  {
    hide Plain;
    if entries != [] {
      var n := |entries| - 1;
      var last := entries[n];
      PropertyFieldsOk(key, entries[..n]);
      forall i | 0 <= i < |last.values| ensures FieldOk(ReplacedFields(key, last.key, last.values)[i]) {
        EqualsPlain();
        PlainConcat(last.key, "=");
        PlainConcat(last.key + "=", last.values[i]);
      }
      FieldsConcat(PropertyFields(key, entries[..n]), ReplacedFields(key, last.key, last.values));
    }
  }

  lemma EqualsPlain()
    ensures Plain("=")
  {}

  lemma ChangeFieldsOk(key: string, added: seq<string>, modified: seq<Entry>, deleted: seq<string>)
    requires KeyOk(key) && AllPlain(added) && EntriesPlain(modified) && AllPlain(deleted)
    ensures FieldsOk(ChangeFields(key, added, modified, deleted))
  {
    hide Plain;
    PropertyFieldsOk(key, modified);
    forall i | 0 <= i < |deleted| ensures FieldOk(DeletedFields(key, deleted)[i]) {
      EqualsPlain();
      PlainConcat(deleted[i], "=");
    }
    FieldsConcat(VectorFields(key, added), PropertyFields(key, modified));
    FieldsConcat(VectorFields(key, added) + PropertyFields(key, modified), DeletedFields(key, deleted));
  }

  lemma Keys()
    ensures KeyOk("EntityName") && KeyOk("DomainName") && KeyOk("NameServer") && KeyOk("NewNameServer")
    ensures KeyOk("IPAddress") && KeyOk("Status") && KeyOk("-Period")
    ensures KeyOk("-Id") && KeyOk("-Password") && KeyOk("-NewPassword")
    ensures Plain("Domain")
  {
    hide KeyOk, Plain;
    NameKeys();
    ValueKeys();
    OptionKeys();
  }

  lemma NameKeys()
    ensures KeyOk("EntityName") && KeyOk("DomainName") && KeyOk("NewNameServer")
  {}

  lemma ValueKeys()
    ensures KeyOk("NameServer") && KeyOk("IPAddress") && KeyOk("Status") && Plain("Domain")
  {}

  lemma OptionKeys()
    ensures KeyOk("-Id") && KeyOk("-Password") && KeyOk("-NewPassword") && KeyOk("-Period")
  {}

  lemma DecimalPlain(n: nat)
    ensures Plain(Decimal(n))
  {
    DecimalValue(n);
    assert forall c <- Decimal(n) :: IsDigit(c);
  }

  lemma StartSessionOk(id: string, password: string, newPassword: Option<string>)
    requires Plain(id) && Plain(password) && (newPassword.Some? ==> Plain(newPassword.value))
    ensures RequestOk(("Session", SessionFields(id, password, newPassword)))
  {
    hide Plain;
    Keys();
    assert Plain("Session") by { SessionPlain(); }
  }

  lemma SessionPlain()
    ensures Plain("Session") && Plain("Add") && Plain("Mod")
  {}

  lemma AddDomainOk(name: string, nameServers: seq<string>, period: int)
    requires Plain(name) && AllPlain(nameServers)
    ensures RequestOk(("Add", AddDomainFields(name, nameServers, period)))
  {
    hide Plain, Decimal;
    Keys();
    SessionPlain();
    if period > 0 { DecimalPlain(period); }
    FieldsConcat(NameFields("Domain", "DomainName", name), VectorFields("NameServer", nameServers));
    FieldsConcat(NameFields("Domain", "DomainName", name) + VectorFields("NameServer", nameServers), PeriodFields(period));
  }

  lemma ModifyDomainOk(
      name: string, added: seq<string>, modified: seq<Entry>, deleted: seq<string>,
      addedStatuses: seq<string>, modifiedStatuses: seq<Entry>, deletedStatuses: seq<string>)
    requires Plain(name) && AllPlain(added) && EntriesPlain(modified) && AllPlain(deleted)
    requires AllPlain(addedStatuses) && EntriesPlain(modifiedStatuses) && AllPlain(deletedStatuses)
    ensures RequestOk(("Mod", NameFields("Domain", "DomainName", name)
                              + ChangeFields("NameServer", added, modified, deleted)
                              + ChangeFields("Status", addedStatuses, modifiedStatuses, deletedStatuses)))
  {
    hide Plain, ChangeFields;
    Keys();
    SessionPlain();
    ChangeFieldsOk("NameServer", added, modified, deleted);
    ChangeFieldsOk("Status", addedStatuses, modifiedStatuses, deletedStatuses);
    var fields := NameFields("Domain", "DomainName", name);
    FieldsConcat(fields, ChangeFields("NameServer", added, modified, deleted));
    FieldsConcat(fields + ChangeFields("NameServer", added, modified, deleted),
                 ChangeFields("Status", addedStatuses, modifiedStatuses, deletedStatuses));
  }

  lemma ModifyNameServerOk(
      name: string, newName: Option<string>, added: seq<string>, modified: seq<Entry>, deleted: seq<string>)
    requires Plain(name) && (newName.Some? ==> Plain(newName.value))
    requires AllPlain(added) && EntriesPlain(modified) && AllPlain(deleted)
    ensures RequestOk(("Mod", NameFields("NameServer", "NameServer", name)
                              + (if newName.Some? then [("NewNameServer", newName.value)] else [])
                              + ChangeFields("IPAddress", added, modified, deleted)))
  {
    hide Plain, ChangeFields;
    Keys();
    SessionPlain();
    ChangeFieldsOk("IPAddress", added, modified, deleted);
    var fields := NameFields("NameServer", "NameServer", name);
    var renamed := if newName.Some? then [("NewNameServer", newName.value)] else [];
    FieldsConcat(fields, renamed);
    FieldsConcat(fields + renamed, ChangeFields("IPAddress", added, modified, deleted));
  }
}
