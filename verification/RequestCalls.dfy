/**
 The calls of the C client that build a request from optional parts.  Each builds the text of a
 command and an ordered list of fields; without a name it builds nothing.
 */
module RequestCalls {
  import opened Common
  import opened Text
  import opened Multimap
  import opened Protocol
  import opened RrpVector
  import opened RrpProperties
  import opened Request

  /** A request without its dot line. */
  function Open(command: string, fields: seq<Pair>): string { command + CRLF + FieldLines(fields) }

  lemma OpenAppend(command: string, a: seq<Pair>, b: seq<Pair>)
    ensures Open(command, a) + FieldLines(b) == Open(command, a + b)
  {
    FieldLinesAppend(a, b);
    Concat(command + CRLF, FieldLines(a), FieldLines(b));
  }

  lemma Closing(command: string, fields: seq<Pair>)
    ensures FormatOk(".\r\n", [])
    ensures Open(command, fields) + Expand('\0', ".\r\n", []) == MessageText(command, fields)
  {
    ExpandFormat('\0', [".\r\n"], []);
    assert Interleave([".\r\n"], []) == DOT + CRLF;
    Concat(command + CRLF + FieldLines(fields), DOT, CRLF);
  }

  // ---------------------------------------------------------------- SESSION

  function SessionFields(id: string, password: string, newPassword: Option<string>): seq<Pair> {
    [("-Id", id), ("-Password", password)]
    + if newPassword.Some? && newPassword.value != "" then [("-NewPassword", newPassword.value)] else []
  }

  /** Two fields written out. */
  lemma TwoFields(command: string, p: Pair, q: Pair)
    ensures Open(command, [p, q]) == command + CRLF + (p.0 + ":" + p.1 + CRLF) + (q.0 + ":" + q.1 + CRLF)
  {
    OneField(p);
    OneField(q);
    assert [p] + [q] == [p, q];
    FieldLinesAppend([p], [q]);
    Concat(command + CRLF, FieldLines([p]), FieldLines([q]));
  }

  /** Two slots with the text around them, and the fields they stand for. */
  lemma TwoSlots(command: string, k: string, v: string, l: string, w: string, end: string)
    ensures command + CRLF + k + ":" + v + (CRLF + l + ":" + w + (CRLF + end)) == Open(command, [(k, v), (l, w)]) + end
  {
    TwoFields(command, (k, v), (l, w));
    var a, b := k + ":" + v, l + ":" + w;
    assert command + CRLF + k + ":" + v + (CRLF + l + ":" + w + (CRLF + end))
           == command + CRLF + (a + CRLF) + (b + CRLF) + end;
  }

  lemma SessionFormat(id: string, password: string)
    ensures var format := "Session\r\n-Id:%s\r\n-Password:%s\r\n.\r\n";
            FormatOk(format, [id, password])
            && Expand('\0', format, [id, password]) == MessageText("Session", [("-Id", id), ("-Password", password)])
  {
    hide Expand, Fits, Slots, Open, FormatText, Interleave;
    var pieces, arguments := ["Session\r\n-Id:", "\r\n-Password:", "\r\n.\r\n"], [id, password];
    ExpandFormat('\0', pieces, arguments);
    ThreePieces(pieces, arguments);
    assert "Session\r\n-Id:%s\r\n-Password:%s\r\n.\r\n" == pieces[0] + SLOT + (pieces[1] + SLOT + pieces[2]);
    assert pieces[0] == "Session" + CRLF + "-Id" + ":" && pieces[1] == CRLF + "-Password" + ":" && pieces[2] == CRLF + (DOT + CRLF);
    TwoSlots("Session", "-Id", id, "-Password", password, DOT + CRLF);
    OpenMessage("Session", [("-Id", id), ("-Password", password)]);
  }

  lemma OpenMessage(command: string, fields: seq<Pair>)
    ensures Open(command, fields) + (DOT + CRLF) == MessageText(command, fields)
  {
    Concat(Open(command, fields), DOT, CRLF);
  }

  const SESSION_START := "Session\r\n-Id:%s\r\n-Password:%s\r\n"
  const NEW_PASSWORD_END := "-NewPassword:%s\r\n.\r\n"

  lemma NewPasswordFormat(id: string, password: string, newPassword: string)
    ensures var format := SESSION_START + NEW_PASSWORD_END;
            FormatOk(format, [id, password, newPassword])
            && Expand('\0', format, [id, password, newPassword])
               == MessageText("Session", [("-Id", id), ("-Password", password), ("-NewPassword", newPassword)])
  {
    hide Expand, Fits, Slots, Open, FormatText, Interleave, SESSION_START, NEW_PASSWORD_END;
    var pieces := ["Session\r\n-Id:", "\r\n-Password:", CRLF + "-NewPassword:", "\r\n.\r\n"];
    var arguments := [id, password, newPassword];
    ExpandFormat('\0', pieces, arguments);
    FourPieces(pieces, arguments);
    assert pieces[0] == "Session" + CRLF + "-Id" + ":" && pieces[1] == CRLF + "-Password" + ":"
           && pieces[2] == CRLF + "-NewPassword" + ":" && pieces[3] == CRLF + (DOT + CRLF);
    SessionStart();
    NewPasswordEnd();
    assert SESSION_START + NEW_PASSWORD_END == pieces[0] + SLOT + (pieces[1] + SLOT + (pieces[2] + SLOT + pieces[3]));
    NewPasswordText(id, password, newPassword);
  }

  lemma SessionStart()
    ensures SESSION_START == "Session\r\n-Id:" + SLOT + ("\r\n-Password:" + SLOT + CRLF)
  {}

  lemma NewPasswordEnd()
    ensures NEW_PASSWORD_END == "-NewPassword:" + SLOT + "\r\n.\r\n"
  {}

  lemma NewPasswordText(id: string, password: string, newPassword: string)
    ensures "Session" + CRLF + "-Id" + ":" + id
            + (CRLF + "-Password" + ":" + password + (CRLF + "-NewPassword" + ":" + newPassword + (CRLF + (DOT + CRLF))))
            == MessageText("Session", [("-Id", id), ("-Password", password), ("-NewPassword", newPassword)])
  {
    hide Open, FieldLines;
    var r: Pair := ("-NewPassword", newPassword);
    var two := [("-Id", id), ("-Password", password)];
    var end := FieldText(r) + CRLF + (DOT + CRLF);
    assert CRLF + "-NewPassword" + ":" + newPassword + (CRLF + (DOT + CRLF)) == CRLF + end;
    TwoSlots("Session", "-Id", id, "-Password", password, end);
    OneField(r);
    OpenAppend("Session", two, [r]);
    assert two + [r] == [("-Id", id), ("-Password", password), r];
    OpenMessage("Session", two + [r]);
    Concat(Open("Session", two), FieldText(r) + CRLF, DOT + CRLF);
  }

  lemma FourPieces(pieces: seq<string>, arguments: seq<string>)
    requires |pieces| == 4 && |arguments| == 3
    ensures FormatText(pieces) == pieces[0] + SLOT + (pieces[1] + SLOT + (pieces[2] + SLOT + pieces[3]))
    ensures Interleave(pieces, arguments)
            == pieces[0] + arguments[0] + (pieces[1] + arguments[1] + (pieces[2] + arguments[2] + pieces[3]))
  {
    ThreePieces(pieces[1..], arguments[1..]);
  }

  /** `RRPStartSession` */
  method StartSession(id: Option<string>, password: Option<string>, newPassword: Option<string>) returns (request: Option<string>)
    ensures request == if id.None? || password.None? then None
                       else Some(MessageText("Session", SessionFields(id.value, password.value, newPassword)))
  {
    hide Expand, FormatOk, MessageText, SESSION_START, NEW_PASSWORD_END;
    if id.None? || password.None? { return None; }
    var text;
    if newPassword.Some? && |newPassword.value| > 0 {
      NewPasswordFormat(id.value, password.value, newPassword.value);
      text := MySprintf(SESSION_START + NEW_PASSWORD_END, "", [id.value, password.value, newPassword.value]);
    } else {
      SessionFormat(id.value, password.value);
      text := MySprintf("Session\r\n-Id:%s\r\n-Password:%s\r\n.\r\n", "", [id.value, password.value]);
    }
    assert "" + MessageText("Session", SessionFields(id.value, password.value, newPassword))
           == MessageText("Session", SessionFields(id.value, password.value, newPassword));
    assert SessionFields(id.value, password.value, newPassword)
           == if newPassword.Some? && newPassword.value != ""
              then [("-Id", id.value), ("-Password", password.value), ("-NewPassword", newPassword.value)]
              else [("-Id", id.value), ("-Password", password.value)];
    request := Some(text);
  }

  // ---------------------------------------------------------------- ADD and MOD

  function NameFields(entity: string, key: string, name: string): seq<Pair> {
    [("EntityName", entity), (key, name)]
  }

  lemma NameFieldsAre(entity: string, key: string, name: string)
    ensures NameFields(entity, key, name) == [("EntityName", entity), (key, name)]
  {}

  /** The format of the command line, the kind of entity and its name. */
  lemma NameFormat(first: string, command: string, entity: string, key: string, name: string)
    requires LiteralOk(first) && first == command + CRLF + "EntityName" + ":" + entity + (CRLF + key + ":")
    ensures FormatOk(first + SLOT + CRLF, [name])
    ensures Expand('\0', first + SLOT + CRLF, [name]) == Open(command, NameFields(entity, key, name))
  {
    hide Expand, Fits, Slots, Open, FormatText, Interleave;
    var pieces, arguments := [first, CRLF], [name];
    ExpandFormat('\0', pieces, arguments);
    TwoPieces(pieces, arguments);
    TwoSlots(command, "EntityName", entity, key, name, "");
    assert first + name + CRLF == command + CRLF + "EntityName" + ":" + entity + (CRLF + key + ":" + name + (CRLF + ""));
    assert Open(command, NameFields(entity, key, name)) + "" == Open(command, NameFields(entity, key, name));
  }

  ghost function Contents(vector: Vector?): seq<string>
    reads vector
  {
    if vector == null then [] else vector.contents
  }

  ghost function Entries(properties: Properties?): seq<Entry>
    reads properties
  {
    if properties == null then [] else properties.entries
  }

  ghost predicate VectorOk(vector: Vector?)
    reads vector, if vector == null then {} else vector.Repr
  {
    vector != null ==> vector.Linked()
  }

  ghost predicate PropertiesOk(properties: Properties?)
    reads properties, if properties == null then {} else properties.Repr
  {
    properties != null ==> properties.Valid()
  }

  /** The optional arguments of a request: each appends the fields of its vector or list, if there is one. */
  method AddedTo(request: string, key: string, vector: Vector?, ghost command: string, ghost fields: seq<Pair>) returns (r: string)
    requires VectorOk(vector) && request == Open(command, fields)
    ensures r == Open(command, fields + VectorFields(key, Contents(vector)))
  {
    hide Open, FieldLines;
    OpenAppend(command, fields, VectorFields(key, Contents(vector)));
    if vector == null {
      assert fields + VectorFields(key, []) == fields;
      return request;
    }
    r := AppendVector(request, key, vector);
  }

  method DeletedFrom(request: string, key: string, vector: Vector?, ghost command: string, ghost fields: seq<Pair>) returns (r: string)
    requires VectorOk(vector) && request == Open(command, fields)
    ensures r == Open(command, fields + DeletedFields(key, Contents(vector)))
  {
    hide Open, FieldLines;
    OpenAppend(command, fields, DeletedFields(key, Contents(vector)));
    if vector == null {
      assert fields + DeletedFields(key, []) == fields;
      return request;
    }
    r := AppendDeletedVector(request, key, vector);
  }

  method ModifiedIn(request: string, key: string, properties: Properties?, ghost command: string, ghost fields: seq<Pair>) returns (r: string)
    requires PropertiesOk(properties) && request == Open(command, fields)
    ensures r == Open(command, fields + PropertyFields(key, Entries(properties)))
  {
    hide Open, FieldLines;
    OpenAppend(command, fields, PropertyFields(key, Entries(properties)));
    if properties == null {
      assert fields + PropertyFields(key, []) == fields;
      return request;
    }
    r := AppendProperties(request, key, properties);
  }

  function PeriodFields(period: int): seq<Pair> {
    if period > 0 then [("-Period", Decimal(period))] else []
  }

  /** `appendIntToRequest`, the colon being part of the key. */
  method AppendInt(request: string, key: string, newInteger: int) returns (r: string)
    ensures r == request + FieldLines([(key, Decimal(newInteger))])
  {
    var newString := key + ":" + Decimal(newInteger) + CRLF;
    OneField((key, Decimal(newInteger)));
    r := request + newString;
  }

  method Close(request: string, ghost command: string, ghost fields: seq<Pair>) returns (r: string)
    requires request == Open(command, fields)
    ensures r == MessageText(command, fields)
  {
    Closing(command, fields);
    r := MySprintf(".\r\n", request, []);
  }

  function AddDomainFields(name: string, nameServers: seq<string>, period: int): seq<Pair> {
    NameFields("Domain", "DomainName", name) + VectorFields("NameServer", nameServers) + PeriodFields(period)
  }

  lemma AddDomainFormat(name: string)
    ensures var format := "Add\r\nEntityName:Domain\r\nDomainName:%s\r\n";
            FormatOk(format, [name]) && Expand('\0', format, [name]) == Open("Add", NameFields("Domain", "DomainName", name))
  {
    hide Expand, FormatOk, Open, NameFields, LiteralOk;
    AddDomainLiteral();
    AddDomainWords();
    assert "Add\r\nEntityName:Domain\r\nDomainName:%s\r\n" == "Add\r\nEntityName:Domain\r\nDomainName:" + SLOT + CRLF;
    NameFormat("Add\r\nEntityName:Domain\r\nDomainName:", "Add", "Domain", "DomainName", name);
  }

  lemma AddDomainLiteral()
    ensures LiteralOk("Add\r\nEntityName:Domain\r\nDomainName:")
  {}

  lemma AddDomainWords()
    ensures "Add\r\nEntityName:Domain\r\nDomainName:" == "Add" + CRLF + "EntityName" + ":" + "Domain" + (CRLF + "DomainName" + ":")
  {}

  /** `RRPAddDomain` */
  method AddDomain(domainName: Option<string>, nameServers: Vector?, registrationPeriod: int) returns (request: Option<string>)
    requires VectorOk(nameServers)
    ensures request == if domainName.None? then None
                       else
                         Some(MessageText("Add",
                           [("EntityName", "Domain"), ("DomainName", domainName.value)]
                           + VectorFields("NameServer", Contents(nameServers))
                           + if registrationPeriod >= 1 then [("-Period", Decimal(registrationPeriod))] else []))
  {
    hide Expand, FormatOk, MessageText, Open, NameFields, VectorOk, Contents, FieldLines;
    if domainName.None? { return None; }
    var name := domainName.value;
    AddDomainFormat(name);
    var text := MySprintf("Add\r\nEntityName:Domain\r\nDomainName:%s\r\n", "", [name]);
    ghost var fields := NameFields("Domain", "DomainName", name);
    text := AddedTo(text, "NameServer", nameServers, "Add", fields);
    fields := fields + VectorFields("NameServer", Contents(nameServers));
    if registrationPeriod > 0 {
      OpenAppend("Add", fields, PeriodFields(registrationPeriod));
      text := AppendInt(text, "-Period", registrationPeriod);
    } else {
      assert fields + PeriodFields(registrationPeriod) == fields;
    }
    text := Close(text, "Add", fields + PeriodFields(registrationPeriod));
    NameFieldsAre("Domain", "DomainName", name);
    request := Some(text);
  }

  /** Added, replaced and deleted values of one key, in this order. */
  function ChangeFields(key: string, added: seq<string>, modified: seq<Entry>, deleted: seq<string>): seq<Pair> {
    VectorFields(key, added) + PropertyFields(key, modified) + DeletedFields(key, deleted)
  }

  lemma ChangeFieldsAre(key: string, added: seq<string>, modified: seq<Entry>, deleted: seq<string>)
    ensures ChangeFields(key, added, modified, deleted)
            == VectorFields(key, added) + PropertyFields(key, modified) + DeletedFields(key, deleted)
  {}

  method Changed(
      request: string, key: string, added: Vector?, modified: Properties?, deleted: Vector?,
      ghost command: string, ghost fields: seq<Pair>)
    returns (r: string)
    requires VectorOk(added) && PropertiesOk(modified) && VectorOk(deleted) && request == Open(command, fields)
    ensures r == Open(command, fields + ChangeFields(key, Contents(added), Entries(modified), Contents(deleted)))
  {
    hide Open, VectorOk, PropertiesOk, Contents, Entries, VectorFields, PropertyFields, DeletedFields;
    ghost var a, m, d := VectorFields(key, Contents(added)), PropertyFields(key, Entries(modified)), DeletedFields(key, Contents(deleted));
    r := AddedTo(request, key, added, command, fields);
    r := ModifiedIn(r, key, modified, command, fields + a);
    r := DeletedFrom(r, key, deleted, command, fields + a + m);
    assert fields + a + m + d == fields + (a + m + d);
  }

  lemma ModifyDomainFormat(name: string)
    ensures var format := "Mod\r\nEntityName:Domain\r\nDomainName:%s\r\n";
            FormatOk(format, [name]) && Expand('\0', format, [name]) == Open("Mod", NameFields("Domain", "DomainName", name))
  {
    hide Expand, FormatOk, Open, NameFields, LiteralOk;
    ModifyDomainLiteral();
    ModifyDomainWords();
    assert "Mod\r\nEntityName:Domain\r\nDomainName:%s\r\n" == "Mod\r\nEntityName:Domain\r\nDomainName:" + SLOT + CRLF;
    NameFormat("Mod\r\nEntityName:Domain\r\nDomainName:", "Mod", "Domain", "DomainName", name);
  }

  lemma ModifyDomainLiteral()
    ensures LiteralOk("Mod\r\nEntityName:Domain\r\nDomainName:")
  {}

  lemma ModifyDomainWords()
    ensures "Mod\r\nEntityName:Domain\r\nDomainName:" == "Mod" + CRLF + "EntityName" + ":" + "Domain" + (CRLF + "DomainName" + ":")
  {}

  /** `RRPModifyDomain` */
  method ModifyDomain(
      domainName: Option<string>, addedNameServers: Vector?, modifiedNameServers: Properties?, deletedNameServers: Vector?,
      addedStatuses: Vector?, modifiedStatuses: Properties?, deletedStatuses: Vector?)
    returns (request: Option<string>)
    requires VectorOk(addedNameServers) && PropertiesOk(modifiedNameServers) && VectorOk(deletedNameServers)
    requires VectorOk(addedStatuses) && PropertiesOk(modifiedStatuses) && VectorOk(deletedStatuses)
    ensures request
            == if domainName.None? then None
               else
                 Some(MessageText("Mod",
                   [("EntityName", "Domain"), ("DomainName", domainName.value)]
                   + (VectorFields("NameServer", Contents(addedNameServers)) + PropertyFields("NameServer", Entries(modifiedNameServers))
                      + DeletedFields("NameServer", Contents(deletedNameServers)))
                   + (VectorFields("Status", Contents(addedStatuses)) + PropertyFields("Status", Entries(modifiedStatuses))
                      + DeletedFields("Status", Contents(deletedStatuses)))))
  {
    hide Expand, FormatOk, MessageText, Open, NameFields, VectorOk, PropertiesOk, Contents, Entries, ChangeFields;
    if domainName.None? { return None; }
    ModifyDomainFormat(domainName.value);
    var text := MySprintf("Mod\r\nEntityName:Domain\r\nDomainName:%s\r\n", "", [domainName.value]);
    ghost var fields := NameFields("Domain", "DomainName", domainName.value);
    text := Changed(text, "NameServer", addedNameServers, modifiedNameServers, deletedNameServers, "Mod", fields);
    fields := fields + ChangeFields("NameServer", Contents(addedNameServers), Entries(modifiedNameServers), Contents(deletedNameServers));
    text := Changed(text, "Status", addedStatuses, modifiedStatuses, deletedStatuses, "Mod", fields);
    fields := fields + ChangeFields("Status", Contents(addedStatuses), Entries(modifiedStatuses), Contents(deletedStatuses));
    text := Close(text, "Mod", fields);
    ChangeFieldsAre("NameServer", Contents(addedNameServers), Entries(modifiedNameServers), Contents(deletedNameServers));
    ChangeFieldsAre("Status", Contents(addedStatuses), Entries(modifiedStatuses), Contents(deletedStatuses));
    NameFieldsAre("Domain", "DomainName", domainName.value);
    request := Some(text);
  }

  lemma ModifyNameServerFormat(name: string)
    ensures var format := "Mod\r\nEntityName:NameServer\r\nNameServer:%s\r\n";
            FormatOk(format, [name]) && Expand('\0', format, [name]) == Open("Mod", NameFields("NameServer", "NameServer", name))
  {
    hide Expand, FormatOk, Open, NameFields, LiteralOk;
    ModifyNameServerLiteral();
    ModifyNameServerWords();
    assert "Mod\r\nEntityName:NameServer\r\nNameServer:%s\r\n" == "Mod\r\nEntityName:NameServer\r\nNameServer:" + SLOT + CRLF;
    NameFormat("Mod\r\nEntityName:NameServer\r\nNameServer:", "Mod", "NameServer", "NameServer", name);
  }

  lemma ModifyNameServerLiteral()
    ensures LiteralOk("Mod\r\nEntityName:NameServer\r\nNameServer:")
  {}

  lemma ModifyNameServerWords()
    ensures "Mod\r\nEntityName:NameServer\r\nNameServer:" == "Mod" + CRLF + "EntityName" + ":" + "NameServer" + (CRLF + "NameServer" + ":")
  {}

  lemma NewNameFormat(name: string)
    ensures FormatOk("NewNameServer:%s\r\n", [name])
    ensures Expand('\0', "NewNameServer:%s\r\n", [name]) == FieldLines([("NewNameServer", name)])
  {
    hide Expand, Fits, Slots, FormatText, Interleave;
    var pieces := ["NewNameServer:", CRLF];
    ExpandFormat('\0', pieces, [name]);
    TwoPieces(pieces, [name]);
    assert "NewNameServer:%s\r\n" == pieces[0] + SLOT + pieces[1];
    OneField(("NewNameServer", name));
  }

  /** `RRPModifyNameServer` */
  method ModifyNameServer(
      nameServer: Option<string>, newNameServer: Option<string>,
      addedIPAddresses: Vector?, modifiedIPAddresses: Properties?, deletedIPAddresses: Vector?)
    returns (request: Option<string>)
    requires VectorOk(addedIPAddresses) && PropertiesOk(modifiedIPAddresses) && VectorOk(deletedIPAddresses)
    ensures request
            == if nameServer.None? then None
               else
                 Some(MessageText("Mod",
                   [("EntityName", "NameServer"), ("NameServer", nameServer.value)]
                   + (if newNameServer.Some? then [("NewNameServer", newNameServer.value)] else [])
                   + (VectorFields("IPAddress", Contents(addedIPAddresses)) + PropertyFields("IPAddress", Entries(modifiedIPAddresses))
                      + DeletedFields("IPAddress", Contents(deletedIPAddresses)))))
  {
    hide Expand, FormatOk, MessageText, Open, NameFields, VectorOk, PropertiesOk, Contents, Entries, ChangeFields, FieldLines;
    if nameServer.None? { return None; }
    ModifyNameServerFormat(nameServer.value);
    var text := MySprintf("Mod\r\nEntityName:NameServer\r\nNameServer:%s\r\n", "", [nameServer.value]);
    ghost var fields := NameFields("NameServer", "NameServer", nameServer.value);
    if newNameServer.Some? {
      NewNameFormat(newNameServer.value);
      OpenAppend("Mod", fields, [("NewNameServer", newNameServer.value)]);
      text := MySprintf("NewNameServer:%s\r\n", text, [newNameServer.value]);
      fields := fields + [("NewNameServer", newNameServer.value)];
    } else {
      assert fields + [] == fields;
    }
    text := Changed(text, "IPAddress", addedIPAddresses, modifiedIPAddresses, deletedIPAddresses, "Mod", fields);
    fields := fields + ChangeFields("IPAddress", Contents(addedIPAddresses), Entries(modifiedIPAddresses), Contents(deletedIPAddresses));
    text := Close(text, "Mod", fields);
    ChangeFieldsAre("IPAddress", Contents(addedIPAddresses), Entries(modifiedIPAddresses), Contents(deletedIPAddresses));
    NameFieldsAre("NameServer", "NameServer", nameServer.value);
    request := Some(text);
  }
}
