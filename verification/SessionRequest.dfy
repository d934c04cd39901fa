/**
 A SESSION request from the C client, all the way to the server's check of it.
 */
module SessionRequest {
  import opened Common
  import opened Text
  import opened Multimap
  import opened Protocol
  import opened RequestServe
  import opened Tokenize
  import opened RequestCheck
  import Connection
  import RequestCalls

  /** The credentials the server sees. */
  function SessionValues(id: string, password: string, newPassword: Option<string>): seq<Pair> {
    LowerAll(RequestCalls.SessionFields(id, password, newPassword))
  }

  lemma SessionLines(id: string, password: string, newPassword: Option<string>)
    requires FieldsOk(RequestCalls.SessionFields(id, password, newPassword))
    ensures var fields := SessionValues(id, password, newPassword);
            SessionCommand(id, password, newPassword) == ["session"] + FieldTexts(fields) + [DOT]
            && FieldsOk(fields)
  {
    LowerSession();
    RequestLines("Session", RequestCalls.SessionFields(id, password, newPassword));
    LowerFieldsOk(RequestCalls.SessionFields(id, password, newPassword));
  }

  lemma LowerSession()
    ensures Plain("Session") && Lower("Session") == "session"
    ensures Lower("-Id") == "-id" && Lower("-Password") == "-password" && Lower("-NewPassword") == "-newpassword"
  {}

  predicate NewPasswordGiven(newPassword: Option<string>) { newPassword.Some? && newPassword.value != "" }

  lemma SessionKeys(id: string, password: string, newPassword: Option<string>)
    ensures var fields := SessionValues(id, password, newPassword);
            fields == [("-id", Lower(id)), ("-password", Lower(password))]
                      + if NewPasswordGiven(newPassword) then [("-newpassword", Lower(newPassword.value))] else []
    ensures RepeatsOk(SessionValues(id, password, newPassword))
    ensures forall i :: 0 <= i < |SessionValues(id, password, newPassword)| ==> SessionValues(id, password, newPassword)[i].0 in SESSION_TABLE
  {
    hide Lower;
    LowerSession();
  }

  /** What `tokenize` makes of a request built by `RRPStartSession`. */
  lemma SessionTokens(id: string, password: string, newPassword: Option<string>)
    requires FieldsOk(RequestCalls.SessionFields(id, password, newPassword))
    ensures var t := Tokenized(SESSION_TABLE, SESSION_ELEMENTS, SessionCommand(id, password, newPassword));
            (t.code == OK <==> ValidateWord(Lower(id)) == OK && ValidatePassword(Lower(password)) == OK
                               && (NewPasswordGiven(newPassword) ==> ValidatePassword(Lower(newPassword.value)) == OK))
            && (t.code == OK ==>
                  Connection.SeenCount(t, "-id") > 0 && Connection.TokenOf(t, "-id") == Lower(id)
                  && Connection.SeenCount(t, "-password") > 0 && Connection.TokenOf(t, "-password") == Lower(password)
                  && (Connection.SeenCount(t, "-newpassword") > 0 <==> NewPasswordGiven(newPassword))
                  && (NewPasswordGiven(newPassword) ==> Connection.TokenOf(t, "-newpassword") == Lower(newPassword.value)))
  {
    hide Lower, ValidateWord, ValidatePassword, Tokenized, FieldTexts, FieldsOk, FieldValid, SessionCommand, Counted, LastKept,
      RepeatsOk, SessionValues, NewPasswordGiven, Connection.SeenCount, Connection.TokenOf;
    SessionLines(id, password, newPassword);
    SessionKeys(id, password, newPassword);
    var fields := SessionValues(id, password, newPassword);
    TokenizeFields(SESSION_TABLE, SESSION_ELEMENTS, "session", fields);
    SessionValid(id, password, newPassword);
    var t := Tokenized(SESSION_TABLE, SESSION_ELEMENTS, SessionCommand(id, password, newPassword));
    if t.code == OK { SessionSeen(t, id, password, newPassword); }
  }

  lemma SessionSeen(t: Tokens, id: string, password: string, newPassword: Option<string>)
    requires Counted(t.seen, SessionValues(id, password, newPassword))
    requires LastKept(SESSION_ELEMENTS, t.tokens, SessionValues(id, password, newPassword))
    ensures Connection.SeenCount(t, "-id") > 0 && Connection.TokenOf(t, "-id") == Lower(id)
    ensures Connection.SeenCount(t, "-password") > 0 && Connection.TokenOf(t, "-password") == Lower(password)
    ensures Connection.SeenCount(t, "-newpassword") > 0 <==> NewPasswordGiven(newPassword)
    ensures NewPasswordGiven(newPassword) ==> Connection.TokenOf(t, "-newpassword") == Lower(newPassword.value)
  {
    hide Lower, Counted, LastKept, SessionValues;
    SessionKeys(id, password, newPassword);
    var fields := SessionValues(id, password, newPassword);
    FieldRecorded(SESSION_ELEMENTS, t, fields, 0);
    FieldRecorded(SESSION_ELEMENTS, t, fields, 1);
    if NewPasswordGiven(newPassword) {
      FieldRecorded(SESSION_ELEMENTS, t, fields, 2);
    } else {
      KeyAbsent(t, fields, "-newpassword");
    }
  }

  /** The lines of the request, as the server has split them. */
  function SessionCommand(id: string, password: string, newPassword: Option<string>): seq<string> {
    CommandLines(MessageText("Session", RequestCalls.SessionFields(id, password, newPassword)))
  }

  /** What the server answers to the check of a request built by `RRPStartSession` depends on the
      credentials in lower case: a registrar or a password configured with capital letters can never
      match. */
  lemma CredentialsExactly(cfg: Connection.Config, current: string, id: string, password: string, newPassword: Option<string>)
    requires FieldsOk(RequestCalls.SessionFields(id, password, newPassword))
    ensures Connection.Checked(cfg, current, SessionCommand(id, password, newPassword)) == OK
            <==> Lower(id) == cfg.registrarId && Lower(password) == current
                 && ValidateWord(Lower(id)) == OK && ValidatePassword(Lower(password)) == OK
                 && (NewPasswordGiven(newPassword) ==> ValidatePassword(Lower(newPassword.value)) == OK)
  {
    hide Lower, ValidateWord, ValidatePassword, Tokenized, SessionCommand, FieldsOk, NewPasswordGiven;
    SessionTokens(id, password, newPassword);
  }

  lemma SessionValid(id: string, password: string, newPassword: Option<string>)
    requires forall i :: 0 <= i < |SessionValues(id, password, newPassword)| ==> SessionValues(id, password, newPassword)[i].0 in SESSION_TABLE
    ensures var fields := SessionValues(id, password, newPassword);
            (forall i :: 0 <= i < |fields| ==> FieldValid(SESSION_TABLE, SESSION_ELEMENTS, fields[i]))
            <==> ValidateWord(Lower(id)) == OK && ValidatePassword(Lower(password)) == OK
                 && (NewPasswordGiven(newPassword) ==> ValidatePassword(Lower(newPassword.value)) == OK)
  {
    hide Lower, ValidateWord, ValidatePassword;
    SessionKeys(id, password, newPassword);
    var fields := SessionValues(id, password, newPassword);
    ValidNotEmpty(Lower(id));
    ValidNotEmpty(Lower(password));
    assert FieldValid(SESSION_TABLE, SESSION_ELEMENTS, fields[0]) <==> ValidateWord(Lower(id)) == OK;
    assert FieldValid(SESSION_TABLE, SESSION_ELEMENTS, fields[1]) <==> ValidatePassword(Lower(password)) == OK;
    if NewPasswordGiven(newPassword) {
      ValidNotEmpty(Lower(newPassword.value));
      assert FieldValid(SESSION_TABLE, SESSION_ELEMENTS, fields[2]) <==> ValidatePassword(Lower(newPassword.value)) == OK;
    }
  }

  lemma ValidNotEmpty(s: string)
    ensures ValidateWord(s) == OK || ValidatePassword(s) == OK ==> s != ""
  {}

  /** The password the connection expects after a request that has passed its check. */
  lemma PasswordTaken(cfg: Connection.Config, current: string, id: string, password: string, newPassword: Option<string>)
    requires FieldsOk(RequestCalls.SessionFields(id, password, newPassword))
    requires Connection.Checked(cfg, current, SessionCommand(id, password, newPassword)) == OK
    ensures var lines := SessionCommand(id, password, newPassword);
            Connection.PasswordAfter(current, lines) == (if NewPasswordGiven(newPassword) then Lower(newPassword.value) else current)
            && lines != [] && lines[0] == "session"
  {
    hide Lower, ValidateWord, ValidatePassword, Tokenized, SessionCommand, FieldsOk, NewPasswordGiven;
    SessionTokens(id, password, newPassword);
    SessionLines(id, password, newPassword);
  }

  /** A valid request that is answered with a code that leaves the connection open, such as 421, can be
      sent again exactly if it gives no new password or one that is the current one in lower case; it
      is refused with 530 otherwise. */
  lemma RepeatExactly(cfg: Connection.Config, s: Connection.Session, id: string, password: string, newPassword: Option<string>, input: Connection.Input)
    requires !s.established && s.tryCount < cfg.maxSessionAttempts
    requires FieldsOk(RequestCalls.SessionFields(id, password, newPassword))
    requires input.lines == SessionCommand(id, password, newPassword)
    requires Connection.Checked(cfg, s.password, input.lines) == OK && input.random != OK && input.random != "420"
    ensures var (s', reply) := Connection.Step(cfg, s, input);
            var again := Connection.Checked(cfg, s'.password, input.lines);
            reply == Connection.Reply(input.random, true, Connection.NoCall) && !s'.established
            && (again == OK <==> NewPasswordGiven(newPassword) ==> Lower(newPassword.value) == s.password)
            && (again != OK ==> again == "530")
  {
    hide Lower, Tokenized, SessionCommand, FieldsOk, Connection.Checked, Connection.PasswordAfter;
    PasswordTaken(cfg, s.password, id, password, newPassword);
    Connection.RetryExactly(cfg, s, input);
  }

  /** Such requests exist: this one is refused when it is repeated. */
  lemma ChangeCannotBeRepeated()
    ensures var cfg, s := Connection.Config("foo", 2), Connection.Session(false, 0, "foobar");
            var input := Connection.Input(SessionCommand("foo", "foobar", Some("barfoo")), "421", false, "");
            Connection.Checked(cfg, s.password, input.lines) == OK
            && Connection.Checked(cfg, Connection.Step(cfg, s, input).0.password, input.lines) == "530"
  {
    var cfg, s := Connection.Config("foo", 2), Connection.Session(false, 0, "foobar");
    var input := Connection.Input(SessionCommand("foo", "foobar", Some("barfoo")), "421", false, "");
    ExampleCredentials();
    hide Lower, ValidateWord, ValidatePassword, SessionCommand, FieldsOk, Connection.Checked, Connection.Step, RequestCalls.SessionFields;
    CredentialsExactly(cfg, "foobar", "foo", "foobar", Some("barfoo"));
    RepeatExactly(cfg, s, "foo", "foobar", Some("barfoo"), input);
  }

  lemma ExampleCredentials()
    ensures FieldsOk(RequestCalls.SessionFields("foo", "foobar", Some("barfoo")))
    ensures Lower("foo") == "foo" && Lower("foobar") == "foobar" && Lower("barfoo") == "barfoo"
    ensures ValidateWord("foo") == OK && ValidatePassword("foobar") == OK && ValidatePassword("barfoo") == OK
  {
    assert "foobar"[0] == 'f' && "barfoo"[0] == 'b';
  }

  predicate HasKey(fields: seq<Pair>, key: string) {
    exists i :: 0 <= i < |fields| && fields[i].0 == key
  }

  /** No field with this key has another value. */
  predicate Only(fields: seq<Pair>, key: string, value: string) {
    forall i :: 0 <= i < |fields| && fields[i].0 == key ==> fields[i].1 == value
  }

  /** Valid options in any order and number: without name or password the answer is 509, with a wrong one
      530, and 200 otherwise. */
  lemma OptionsChecked(cfg: Connection.Config, current: string, fields: seq<Pair>)
    requires FieldsOk(fields) && RepeatsOk(fields)
    requires forall i :: 0 <= i < |fields| ==> fields[i].0 in SESSION_TABLE && FieldValid(SESSION_TABLE, SESSION_ELEMENTS, fields[i])
    ensures Connection.Checked(cfg, current, ["session"] + FieldTexts(fields) + [DOT])
            == if !HasKey(fields, "-id") || !HasKey(fields, "-password") then "509"
               else if !Only(fields, "-id", cfg.registrarId) || !Only(fields, "-password", current) then "530"
               else "200"
  {
    hide Tokenized, FieldTexts, FieldsOk, FieldValid, Counted, LastKept, HasKey, Only;
    TokenizeFields(SESSION_TABLE, SESSION_ELEMENTS, "session", fields);
    var t := Tokenized(SESSION_TABLE, SESSION_ELEMENTS, ["session"] + FieldTexts(fields) + [DOT]);
    OptionRecorded(t, fields, "-id", cfg.registrarId);
    OptionRecorded(t, fields, "-password", current);
  }

  lemma OptionRecorded(t: Tokens, fields: seq<Pair>, key: string, value: string)
    requires RepeatsOk(fields) && Counted(t.seen, fields) && LastKept(SESSION_ELEMENTS, t.tokens, fields)
    requires key == "-id" || key == "-password"
    ensures Connection.SeenCount(t, key) > 0 <==> HasKey(fields, key)
    ensures HasKey(fields, key) ==> (Connection.TokenOf(t, key) == value <==> Only(fields, key, value))
  {
    hide Counted, LastKept;
    if HasKey(fields, key) {
      var i :| 0 <= i < |fields| && fields[i].0 == key;
      assert key[0] == '-' && "nameserver"[0] != '-' && "ipaddress"[0] != '-';
      assert forall j :: 0 <= j < |fields| && j != i ==> fields[j].0 != key;
      assert LastOfKey(fields, i);
      FieldRecorded(SESSION_ELEMENTS, t, fields, i);
    } else {
      KeyAbsent(t, fields, key);
    }
  }
}
