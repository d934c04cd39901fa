/**
 The session state of one connection: SESSION, QUIT, unknown commands, and the other commands as
 far as they touch it.  What rand_response returns, whether the cache grants an increment, and what
 the other commands answer in a session are inputs.
 */
module Connection {
  import opened Common
  import opened RequestServe
  import opened Tokenize

  datatype Config = Config(registrarId: string, maxSessionAttempts: nat)

  // The two session variables and the password, which SESSION can change for this connection.
  datatype Session = Session(established: bool, tryCount: nat, password: string)

  datatype Input = Input(lines: seq<string>, random: string, granted: bool, other: string)

  // The calls to the session counter.
  datatype Call = NoCall | Increment | Decrement

  datatype Reply = Reply(code: string, stayOpen: bool, call: Call)

  const OTHERS := {"add", "check", "del", "describe", "mod", "renew", "restore", "status", "sync", "transfer"}

  // ---------------------------------------------------------------- one command

  function SeenCount(t: Tokens, key: string): nat { if key in t.seen then t.seen[key] else 0 }

  function TokenOf(t: Tokens, key: string): string { if key in t.tokens then t.tokens[key] else "" }

  /** Structure, required options and credentials of a SESSION command. */
  function Checked(cfg: Config, password: string, lines: seq<string>): string {
    var t := Tokenized(SESSION_TABLE, SESSION_ELEMENTS, lines);
    if t.code != OK then t.code
    else if SeenCount(t, "-id") == 0 || SeenCount(t, "-password") == 0 then "509"
    else if TokenOf(t, "-id") != cfg.registrarId || TokenOf(t, "-password") != password then "530"
    else OK
  }

  /** The password after a SESSION with the right credentials. */
  function PasswordAfter(password: string, lines: seq<string>): string {
    var t := Tokenized(SESSION_TABLE, SESSION_ELEMENTS, lines);
    if SeenCount(t, "-newpassword") > 0 then TokenOf(t, "-newpassword") else password
  }

  /** A failed attempt is counted, or closes the connection once the maximum has been counted. */
  function Failed(cfg: Config, s: Session, code: string): (Session, Reply) {
    if s.tryCount >= cfg.maxSessionAttempts then (s, Reply("520", false, NoCall))
    else (s.(tryCount := s.tryCount + 1), Reply(code, true, NoCall))
  }

  function OnSession(cfg: Config, s: Session, input: Input): (Session, Reply) {
    if s.established then (s, Reply("547", true, NoCall))
    else
      var code := Checked(cfg, s.password, input.lines);
      if code != OK then Failed(cfg, s, code)
      else
        var changed := s.(password := PasswordAfter(s.password, input.lines));
        if input.random == OK then
          if input.granted then (changed.(established := true), Reply(OK, true, Increment))
          else (changed, Reply("521", false, Increment))
        else if input.random == "420" then (changed, Reply("420", false, NoCall))
        else Failed(cfg, changed, input.random)
  }

  function OnQuit(s: Session, input: Input): (Session, Reply) {
    var code := Tokenized(QUIT_TABLE, QUIT_ELEMENTS, input.lines).code;
    (s, if code == OK then Reply("220", false, Decrement) else Reply(code, true, Decrement))
  }

  function OnInvalid(cfg: Config, s: Session): (Session, Reply) {
    if s.established then (s, Reply("500", true, NoCall))
    else
      var counted := s.(tryCount := s.tryCount + 1);
      (counted, if counted.tryCount >= cfg.maxSessionAttempts then Reply("520", false, NoCall) else Reply("500", true, NoCall))
  }

  function OnOther(s: Session, input: Input): (Session, Reply) {
    (s, Reply(if s.established then input.other else "547", true, NoCall))
  }

  /** The name is the first line. */
  function Name(input: Input): string { if input.lines == [] then "" else input.lines[0] }

  predicate Unknown(name: string) { name != "session" && name != "quit" && name !in OTHERS }

  function Step(cfg: Config, s: Session, input: Input): (Session, Reply) {
    var name := Name(input);
    if name == "session" then OnSession(cfg, s, input)
    else if name == "quit" then OnQuit(s, input)
    else if name in OTHERS then OnOther(s, input)
    else OnInvalid(cfg, s)
  }

  class State {
    var established: bool
    var tryCount: nat
    var password: string

    constructor (password: string)
      ensures Session(established, tryCount, this.password) == Session(false, 0, password)
    {
      established, tryCount, this.password := false, 0, password;
    }

    method SessionCommand(cfg: Config, input: Input) returns (code: string, stayOpen: bool, call: Call)
      modifies this
      ensures (Session(established, tryCount, password), Reply(code, stayOpen, call))
              == OnSession(cfg, old(Session(established, tryCount, password)), input)
    {
      hide Tokenized;
      call, stayOpen := NoCall, true;
      if established { return "547", true, NoCall; }
      var tokens, seen;
      code, tokens, seen := Tokenize.Tokenize(input.lines, SESSION_TABLE, SESSION_ELEMENTS);
      ghost var t := Tokens(code, tokens, seen);
      if code == OK {
        if "-id" !in seen || seen["-id"] == 0 || "-password" !in seen || seen["-password"] == 0 {
          code := "509";
        } else if TokenOf(Tokens(OK, tokens, seen), "-id") != cfg.registrarId
               || TokenOf(Tokens(OK, tokens, seen), "-password") != password {
          code := "530";
        } else if "-newpassword" in seen && seen["-newpassword"] != 0 {
          password := TokenOf(Tokens(OK, tokens, seen), "-newpassword");
        }
      }
      if code == OK {
        code := input.random;
        if code == OK {
          call := Increment;
          if input.granted {
            established := true;
          } else {
            code, stayOpen := "521", false;
          }
        } else if code == "420" {
          stayOpen := false;
        }
      }
      if stayOpen && code != OK {
        if tryCount >= cfg.maxSessionAttempts {
          code, stayOpen := "520", false;
        } else {
          tryCount := tryCount + 1;
        }
      }
    }

    method QuitCommand(input: Input) returns (code: string, stayOpen: bool, call: Call)
      ensures (Session(established, tryCount, password), Reply(code, stayOpen, call))
              == OnQuit(Session(established, tryCount, password), input)
    {
      hide Tokenized;
      var tokens, seen;
      stayOpen := true;
      code, tokens, seen := Tokenize.Tokenize(input.lines, QUIT_TABLE, QUIT_ELEMENTS);
      if code == OK {
        code, stayOpen := "220", false;
      }
      call := Decrement;
    }

    method InvalidCommand(cfg: Config) returns (code: string, stayOpen: bool)
      modifies this
      ensures (Session(established, tryCount, password), Reply(code, stayOpen, NoCall))
              == OnInvalid(cfg, old(Session(established, tryCount, password)))
    {
      code, stayOpen := "500", true;
      if !established {
        tryCount := tryCount + 1;
        if tryCount >= cfg.maxSessionAttempts {
          code, stayOpen := "520", false;
        }
      }
    }

    /** `process_command`, behind the splitting into lines. */
    method ProcessCommand(cfg: Config, input: Input) returns (code: string, stayOpen: bool, call: Call)
      modifies this
      ensures (Session(established, tryCount, password), Reply(code, stayOpen, call))
              == Step(cfg, old(Session(established, tryCount, password)), input)
    {
      hide OnSession, OnQuit, OnInvalid;
      var command := if input.lines == [] then "" else input.lines[0];
      call := NoCall;
      if command == "session" {
        code, stayOpen, call := SessionCommand(cfg, input);
      } else if command == "quit" {
        code, stayOpen, call := QuitCommand(input);
      } else if command in OTHERS {
        code, stayOpen := if established then input.other else "547", true;
      } else {
        code, stayOpen := InvalidCommand(cfg);
      }
    }
  }

  // ---------------------------------------------------------------- runs

  // A connection and its history: failed SESSIONs and unknown commands before establishment,
  // increments granted, and decrements.
  datatype Run = Run(session: Session, open: bool, failed: nat, unknown: nat, grants: nat, decrements: nat)

  function Next(cfg: Config, r: Run, input: Input): Run
    requires r.open
  {
    var (s, reply) := Step(cfg, r.session, input);
    var early := !r.session.established;
    Run(s, reply.stayOpen,
        r.failed + (if early && Name(input) == "session" && reply.code != OK then 1 else 0),
        r.unknown + (if early && Unknown(Name(input)) then 1 else 0),
        r.grants + (if reply.call == Increment && input.granted then 1 else 0),
        r.decrements + (if reply.call == Decrement then 1 else 0))
  }

  /** A new connection, with the configured password. */
  function Fresh(password: string): Run { Run(Session(false, 0, password), true, 0, 0, 0, 0) }

  /** The state after some commands; nothing is read any more on a closed connection. */
  function After(cfg: Config, r: Run, inputs: seq<Input>): Run
    decreases |inputs|
  {
    if inputs == [] || !r.open then r else After(cfg, Next(cfg, r, inputs[0]), inputs[1..])
  }

  /** The count is the failed attempts while the connection is open, and the maximum is never
      exceeded; a session is established by exactly one granted increment. */
  predicate RunOk(cfg: Config, r: Run) {
    && (r.open ==> r.session.tryCount == r.failed + r.unknown && r.session.tryCount <= cfg.maxSessionAttempts)
    && (r.session.established <==> r.grants == 1) && r.grants <= 1
  }

  lemma StepKeeps(cfg: Config, r: Run, input: Input)
    requires r.open && RunOk(cfg, r)
    ensures RunOk(cfg, Next(cfg, r, input))
    ensures r.session.established ==> Next(cfg, r, input).session.established
  {
    hide Tokenized, Checked;
  }

  lemma {:induction false} RunKeeps(cfg: Config, r: Run, inputs: seq<Input>)
    requires RunOk(cfg, r)
    ensures RunOk(cfg, After(cfg, r, inputs))
    ensures r.session.established ==> After(cfg, r, inputs).session.established
    decreases |inputs|
  {
    hide RunOk, Next;
    if inputs != [] && r.open {
      StepKeeps(cfg, r, inputs[0]);
      RunKeeps(cfg, Next(cfg, r, inputs[0]), inputs[1..]);
    }
  }

  /** Every run of a connection. */
  lemma ConnectionSafety(cfg: Config, password: string, inputs: seq<Input>)
    ensures var r := After(cfg, Fresh(password), inputs);
            RunOk(cfg, r)
            && forall k :: 0 <= k <= |inputs| ==>
                 After(cfg, Fresh(password), inputs[..k]).session.established ==> r.session.established
  {
    RunKeeps(cfg, Fresh(password), inputs);
    forall k | 0 <= k <= |inputs| && After(cfg, Fresh(password), inputs[..k]).session.established
      ensures After(cfg, Fresh(password), inputs).session.established
    {
      AfterSplit(cfg, Fresh(password), inputs[..k], inputs[k..]);
      assert inputs[..k] + inputs[k..] == inputs;
      RunKeeps(cfg, Fresh(password), inputs[..k]);
      RunKeeps(cfg, After(cfg, Fresh(password), inputs[..k]), inputs[k..]);
    }
  }

  lemma {:induction false} AfterSplit(cfg: Config, r: Run, a: seq<Input>, b: seq<Input>)
    ensures After(cfg, r, a + b) == After(cfg, After(cfg, r, a), b)
    decreases |a|
  {
    if a == [] {
      assert a + b == b;
    } else if r.open {
      assert (a + b)[1..] == a[1..] + b;
      AfterSplit(cfg, Next(cfg, r, a[0]), a[1..], b);
    }
  }

  /** Before a session is established, every command but SESSION, QUIT and unknown ones is refused
      with 547 and changes nothing. */
  lemma GateHolds(cfg: Config, s: Session, input: Input)
    requires !s.established
    ensures Name(input) in {"add", "check", "del", "describe", "mod", "renew", "restore", "status", "sync", "transfer"}
            ==> Step(cfg, s, input) == (s, Reply("547", true, NoCall))
    ensures Step(cfg, s, input).0 != s ==> Name(input) == "session" || Unknown(Name(input))
    ensures Step(cfg, s, input).0.established
            <==> Name(input) == "session" && Checked(cfg, s.password, input.lines) == OK && input.random == OK && input.granted
  {
    hide Tokenized, Checked;
  }

  /** The commands that can change anything. */
  function Relevant(inputs: seq<Input>): seq<Input> {
    if inputs == [] then []
    else (if Name(inputs[0]) in OTHERS then [] else [inputs[0]]) + Relevant(inputs[1..])
  }

  /** The other commands, wherever they come and however they are answered, change neither the session
      nor how many attempts are left: leaving them out of a run leads to the same state. */
  lemma {:induction false} OthersDoNotMatter(cfg: Config, r: Run, inputs: seq<Input>)
    ensures After(cfg, r, inputs) == After(cfg, r, Relevant(inputs))
    decreases |inputs|
  {
    hide OnSession, OnQuit, OnInvalid;
    if inputs != [] && r.open {
      var input, rest := inputs[0], inputs[1..];
      if Name(input) in OTHERS {
        assert Next(cfg, r, input) == r;
        assert Relevant(inputs) == Relevant(rest);
        OthersDoNotMatter(cfg, r, rest);
      } else {
        assert Relevant(inputs)[0] == input && Relevant(inputs)[1..] == Relevant(rest);
        OthersDoNotMatter(cfg, Next(cfg, r, input), rest);
      }
    }
  }

  // ---------------------------------------------------------------- in a session

  /** A QUIT without lines between its name and the dot line. */
  predicate BareQuit(input: Input) {
    Name(input) == "quit" && ShiftPop(input.lines) == []
  }

  /** QUIT is answered with 220 and ends the connection exactly if it has no parameters; the counter is
      asked to decrement in any case, in a session or not. */
  lemma QuitExactly(cfg: Config, s: Session, input: Input)
    requires Name(input) == "quit"
    ensures var (s', reply) := Step(cfg, s, input);
            s' == s && reply.call == Decrement
            && if BareQuit(input) then reply.code == "220" && !reply.stayOpen
               else (reply.code == "507") && reply.stayOpen
  {
    QuitCode(input.lines);
    hide Tokenized;
  }

  lemma QuitCode(lines: seq<string>)
    ensures Tokenized(QUIT_TABLE, QUIT_ELEMENTS, lines).code == if ShiftPop(lines) == [] then OK else "507"
  {
    var body := ShiftPop(lines);
    if body != [] {
      assert Offends(QUIT_TABLE, QUIT_ELEMENTS, body, 0);
    }
  }

  /** In a session nothing but a QUIT without parameters ends the connection: other commands are answered
      with what they have to say, SESSION is out of sequence, and unknown commands are not counted. */
  lemma InSession(cfg: Config, s: Session, input: Input)
    requires s.established
    ensures var (s', reply) := Step(cfg, s, input);
            s' == s && (reply.stayOpen <==> !BareQuit(input))
            && (Name(input) == "session" ==> reply.code == "547" && reply.call == NoCall)
            && (Name(input) in {"add", "check", "del", "describe", "mod", "renew", "restore", "status", "sync", "transfer"}
                ==> reply.code == input.other && reply.call == NoCall)
            && (Unknown(Name(input)) ==> reply.code == "500" && reply.call == NoCall)
  {
    if Name(input) == "quit" { QuitExactly(cfg, s, input); }
    hide Tokenized, Checked;
  }

  /** So a connection with a session stays open exactly until there is one. */
  lemma {:induction false} SessionLasts(cfg: Config, r: Run, inputs: seq<Input>)
    requires r.open && r.session.established
    ensures After(cfg, r, inputs).open <==> forall i :: 0 <= i < |inputs| ==> !BareQuit(inputs[i])
    ensures After(cfg, r, inputs).session == r.session
    decreases |inputs|
  {
    hide Step, BareQuit;
    if inputs != [] {
      InSession(cfg, r.session, inputs[0]);
      var n := Next(cfg, r, inputs[0]);
      if n.open {
        SessionLasts(cfg, n, inputs[1..]);
      }
      assert forall i :: 0 <= i < |inputs| - 1 ==> inputs[1..][i] == inputs[i + 1];
    }
  }

  // ---------------------------------------------------------------- QUIT and the counter

  /** The commands named quit that are read while the connection is open. */
  function QuitsRead(cfg: Config, r: Run, inputs: seq<Input>): nat
    decreases |inputs|
  {
    if inputs == [] || !r.open then 0
    else (if Name(inputs[0]) == "quit" then 1 else 0) + QuitsRead(cfg, Next(cfg, r, inputs[0]), inputs[1..])
  }

  /** The counter is asked to decrement once for every QUIT, well-formed or not, in a session or not,
      and for nothing else. */
  lemma {:induction false} DecrementsAreQuits(cfg: Config, r: Run, inputs: seq<Input>)
    ensures After(cfg, r, inputs).decrements == r.decrements + QuitsRead(cfg, r, inputs)
    decreases |inputs|
  {
    hide Step;
    if inputs != [] && r.open {
      OnlyQuitDecrements(cfg, r.session, inputs[0]);
      DecrementsAreQuits(cfg, Next(cfg, r, inputs[0]), inputs[1..]);
    }
  }

  lemma OnlyQuitDecrements(cfg: Config, s: Session, input: Input)
    ensures Step(cfg, s, input).1.call == Decrement <==> Name(input) == "quit"
  {
    hide Tokenized, Checked;
  }

  // ---------------------------------------------------------------- answers that announce the end

  /** The codes whose text says that the server is closing the connection. */
  const CLOSING := {"220", "420", "520", "521"}

  /** The codes rand_response chooses from for SESSION. */
  const RANDOM := {"200", "420", "421", "549"}

  /** SESSION, QUIT and unknown commands end the connection exactly if their answer says so. */
  lemma ClosesAsAnnounced(cfg: Config, s: Session, input: Input)
    requires Name(input) == "session" || Name(input) == "quit" || Unknown(Name(input))
    requires input.random in RANDOM
    ensures var reply := Step(cfg, s, input).1; reply.stayOpen <==> reply.code !in CLOSING
  {
    hide Tokenized, Checked, OnSession, OnInvalid, BareQuit;
    if Name(input) == "quit" {
      QuitExactly(cfg, s, input);
    } else if Name(input) == "session" {
      SessionCloses(cfg, s, input);
    } else {
      UnknownCloses(cfg, s);
    }
  }

  lemma SessionCloses(cfg: Config, s: Session, input: Input)
    requires input.random in RANDOM
    ensures var reply := OnSession(cfg, s, input).1; reply.stayOpen <==> reply.code !in CLOSING
  {
    hide Tokenized, Checked;
    CheckedCodes(cfg, s.password, input.lines);
    var code := Checked(cfg, s.password, input.lines);
    assert code != OK ==> code !in CLOSING;
  }

  lemma UnknownCloses(cfg: Config, s: Session)
    ensures var reply := OnInvalid(cfg, s).1; reply.stayOpen <==> reply.code !in CLOSING
  {}

  lemma CheckedCodes(cfg: Config, password: string, lines: seq<string>)
    ensures Checked(cfg, password, lines) in {OK, "501", "506", "507", "509", "530"}
  {
    SessionCodes(lines);
    hide Tokenized;
  }

  lemma SessionCodes(lines: seq<string>)
    ensures Tokenized(SESSION_TABLE, SESSION_ELEMENTS, lines).code in {OK, "501", "506", "507"}
  {
    hide TokensOf, SeenOf, Offends, FirstOffence;
    OkExactly(SESSION_TABLE, SESSION_ELEMENTS, lines);
    var body := ShiftPop(lines);
    var n := FirstOffence(SESSION_TABLE, SESSION_ELEMENTS, body, 0);
    if n < |body| { SessionLineCodes(body[n]); }
  }

  lemma SessionLineCodes(line: string)
    ensures var v := Judge(SESSION_TABLE, SESSION_ELEMENTS, line); v.Reject? ==> v.code in {"501", "506", "507"}
  {
    hide SplitColon, AttributeLike, WordChar;
  }

  /** The answers before there is a session.  An attempt that fails is answered with what is wrong with it
      while it can be counted, and with 520 when it cannot; a SESSION without a fault is answered as
      rand_response has it, with 521 if there is no place left. */
  lemma AnswersBefore(cfg: Config, s: Session, input: Input)
    requires !s.established && input.random in {"200", "420", "421", "549"}
    ensures var reply := Step(cfg, s, input).1;
            var checked, last := Checked(cfg, s.password, input.lines), s.tryCount >= cfg.maxSessionAttempts;
            (Name(input) == "session" ==>
               reply.code == if checked != "200" then (if last then "520" else checked)
                             else if input.random == "200" then (if input.granted then "200" else "521")
                             else if input.random == "420" then "420"
                             else if last then "520" else input.random)
            && (Unknown(Name(input)) ==> reply.code == if s.tryCount + 1 >= cfg.maxSessionAttempts then "520" else "500")
  {
    hide Tokenized, Checked;
  }

  /** The other commands announce it too, with 420, and do not do it: in a session the connection stays
      open, so they do as they say exactly if their answer is not one of these. */
  lemma OthersStayOpen(cfg: Config, s: Session, input: Input)
    requires Name(input) in OTHERS
    ensures var reply := Step(cfg, s, input).1;
            (reply.stayOpen <==> reply.code !in CLOSING) <==> !s.established || input.other !in CLOSING
  {
    hide OnSession, OnQuit, OnInvalid;
  }

  // ---------------------------------------------------------------- how many attempts there are

  /** A SESSION that fails its checks. */
  predicate BadSession(cfg: Config, password: string, input: Input) {
    Name(input) == "session" && Checked(cfg, password, input.lines) != OK
  }

  predicate AllBad(cfg: Config, password: string, inputs: seq<Input>) {
    forall i :: 0 <= i < |inputs| ==> BadSession(cfg, password, inputs[i]) || Unknown(Name(inputs[i]))
  }

  /** The connection is open after so many attempts, the last one being `last`: the attempt that
      reaches the maximum closes it if it is an unknown command, but not if it is a SESSION. */
  predicate OpenAfter(cfg: Config, count: nat, last: Input) {
    count < cfg.maxSessionAttempts || (count == cfg.maxSessionAttempts && Name(last) == "session")
  }

  lemma BadStep(cfg: Config, r: Run, input: Input)
    requires r.open && !r.session.established && r.session.tryCount <= cfg.maxSessionAttempts
    requires BadSession(cfg, r.session.password, input) || Unknown(Name(input))
    ensures var n := Next(cfg, r, input);
            n.open == OpenAfter(cfg, r.session.tryCount + 1, input)
            && !n.session.established && n.session.password == r.session.password
            && (n.open ==> n.session.tryCount == r.session.tryCount + 1)
  {
    hide Tokenized, Checked;
  }

  /** Bad SESSIONs and unknown commands in any mix: the connection survives if and only if there
      are fewer than the maximum, or as many with a SESSION last. */
  lemma {:induction false} AttemptsExactly(cfg: Config, r: Run, inputs: seq<Input>)
    requires r.open && !r.session.established && r.session.tryCount <= cfg.maxSessionAttempts
    requires AllBad(cfg, r.session.password, inputs) && inputs != []
    ensures After(cfg, r, inputs).open
            <==> OpenAfter(cfg, r.session.tryCount + |inputs|, inputs[|inputs| - 1])
    decreases |inputs|
  {
    hide Next, Checked;
    var n := Next(cfg, r, inputs[0]);
    BadStep(cfg, r, inputs[0]);
    assert After(cfg, r, inputs) == After(cfg, n, inputs[1..]);
    if |inputs| > 1 && n.open {
      AttemptsExactly(cfg, n, inputs[1..]);
    }
  }

  // ---------------------------------------------------------------- QUIT

  /** QUIT is sent only in a session, and well-formed. */
  predicate Disciplined(cfg: Config, r: Run, inputs: seq<Input>)
    decreases |inputs|
  {
    inputs == [] || !r.open
    || ((Name(inputs[0]) == "quit" ==>
           r.session.established && Tokenized(QUIT_TABLE, QUIT_ELEMENTS, inputs[0].lines).code == OK)
        && Disciplined(cfg, Next(cfg, r, inputs[0]), inputs[1..]))
  }

  /** Then the connection never gives back more than it was granted, and nothing while it is open. */
  lemma {:induction false} QuitBalances(cfg: Config, r: Run, inputs: seq<Input>)
    requires RunOk(cfg, r) && Disciplined(cfg, r, inputs)
    requires r.decrements <= r.grants && (r.open ==> r.decrements == 0)
    ensures var end := After(cfg, r, inputs);
            end.decrements <= end.grants && (end.open ==> end.decrements == 0)
    decreases |inputs|
  {
    hide Tokenized, Checked;
    if inputs != [] && r.open {
      StepKeeps(cfg, r, inputs[0]);
      QuitBalances(cfg, Next(cfg, r, inputs[0]), inputs[1..]);
    }
  }

  // ---------------------------------------------------------------- changing the password

  /** The password is changed before the session is granted, and stays changed if it is not: after
      an answer that tells the client to try again, the same SESSION passes the check if and only if
      it did not change the password, and is refused with 530 otherwise. */
  lemma RetryExactly(cfg: Config, s: Session, input: Input)
    requires !s.established && s.tryCount < cfg.maxSessionAttempts && Name(input) == "session"
    requires Checked(cfg, s.password, input.lines) == OK && input.random != OK && input.random != "420"
    ensures var (s', reply) := Step(cfg, s, input);
            reply.stayOpen && reply.code == input.random && s'.password == PasswordAfter(s.password, input.lines)
            && !s'.established
            && Checked(cfg, s'.password, input.lines)
               == if PasswordAfter(s.password, input.lines) == s.password then OK else "530"
  {
    hide Tokenized, PasswordAfter;
  }
}
