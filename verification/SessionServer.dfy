/**
 The server as a whole: every child runs its commands through the session state of its connection,
 and the calls this makes to the counter go through the lock, the socket and the cache.  What the
 cache replies is what SESSION learns; nothing else is shared.
 */
module SessionServer {
  import opened Common
  import Cache = SessionCache
  import opened Connection
  import Tokenize

  // The commands a child has finished, and the one that waits for the counter.
  datatype Client = Client(finished: seq<Input>, pending: Option<Input>)

  // `trace` is history: the steps of the cache and the children's calls.
  datatype Server = Server(cache: Cache.State, clients: map<nat, Client>, trace: seq<Cache.Step>)

  const START := Server(Cache.INITIAL, map[], [])

  datatype Event =
    | Connect(c: nat)
    | Command(c: nat, input: Input)   // `granted` of the input is not known yet
    | Internal(step: Cache.Step)      // inside a call, at the cache, or the end of a child
    | Return(c: nat)                  // a call returns, and the command that made it ends

  /** The session of a connection is what its finished commands have made of it. */
  function RunOf(cfg: Config, password: string, client: Client): Run {
    After(cfg, Fresh(password), client.finished)
  }

  predicate Ready(child: Cache.Child) {
    child.pc == Cache.Idle && child.open && !child.closing
  }

  predicate Enabled(s: Server, e: Event) {
    match e
    case Connect(c) => c !in s.cache.children
    case Command(c, _) => c in s.clients && c in s.cache.children && Ready(s.cache.children[c])
    case Internal(step) => !step.Fork? && !step.Call? && !step.Unlock? && Cache.Enabled(s.cache, step)
    case Return(c) => c in s.clients && s.clients[c].pending.Some? && Cache.Enabled(s.cache, Cache.Unlock(c))
  }

  /** The call a command makes. */
  function OpOf(reply: Reply): Cache.Op {
    if reply.call == Increment then Cache.Increment else Cache.Decrement(!reply.stayOpen)
  }

  function ReplyTo(cfg: Config, password: string, client: Client, input: Input): Reply {
    Step(cfg, RunOf(cfg, password, client).session, input).1
  }

  /** What a step means for the counter: a call, the end of the child, or nothing. */
  function Shared(cfg: Config, password: string, s: Server, e: Event): Option<Cache.Step>
    requires Enabled(s, e)
  {
    match e
    case Connect(c) => Some(Cache.Fork(c))
    case Command(c, input) =>
      var reply := ReplyTo(cfg, password, s.clients[c], input);
      if reply.call != NoCall then Some(Cache.Call(c, OpOf(reply)))
      else if reply.stayOpen then None
      else Some(Cache.Vanish(c))
    case Internal(step) => Some(step)
    case Return(c) => Some(Cache.Unlock(c))
  }

  function ClientsAfter(cfg: Config, password: string, s: Server, e: Event): map<nat, Client>
    requires Enabled(s, e)
  {
    match e
    case Connect(c) => s.clients[c := Client([], None)]
    case Command(c, input) =>
      var client := s.clients[c];
      s.clients[c := if ReplyTo(cfg, password, client, input).call != NoCall then client.(pending := Some(input))
                     else client.(finished := client.finished + [input])]
    case Internal(_) => s.clients
    case Return(c) =>
      var client := s.clients[c];
      var answered := client.pending.value.(granted := s.cache.children[c].pc.reply == Cache.SUCCESS);
      s.clients[c := Client(client.finished + [answered], None)]
  }

  function Apply(cfg: Config, password: string, maxSessions: nat, s: Server, e: Event): Server
    requires Enabled(s, e)
    requires var step := Shared(cfg, password, s, e); step.Some? ==> Cache.Enabled(s.cache, step.value)
  {
    var clients := ClientsAfter(cfg, password, s, e);
    match Shared(cfg, password, s, e)
    case None => s.(clients := clients)
    case Some(step) => Server(Cache.Apply(maxSessions, s.cache, step), clients, s.trace + [step])
  }

  // ---------------------------------------------------------------- what every state keeps

  /** The child in the counter's protocol and the connection's session say the same. */
  predicate Agrees(cfg: Config, password: string, child: Cache.Child, client: Client) {
    var run := RunOf(cfg, password, client);
    && child.established == run.session.established
    && (child.open && !child.closing ==> run.open)
    && (child.closing ==> !run.open)
    && (client.pending.None? <==> child.pc.Idle?)
    && (client.pending.Some? ==>
          var reply := ReplyTo(cfg, password, client, client.pending.value);
          child.open && !child.closing && reply.call != NoCall && child.pc.op == OpOf(reply))
  }

  ghost predicate Ok(cfg: Config, password: string, s: Server) {
    s.clients.Keys == s.cache.children.Keys
    && forall c :: c in s.clients ==> Agrees(cfg, password, s.cache.children[c], s.clients[c])
  }

  /** What the connection does next is always possible for the counter. */
  lemma SharedEnabled(cfg: Config, password: string, s: Server, e: Event)
    requires Ok(cfg, password, s) && Enabled(s, e)
    ensures var step := Shared(cfg, password, s, e); step.Some? ==> Cache.Enabled(s.cache, step.value)
  {
    hide Tokenize.Tokenized, Checked, After;
    if e.Command? {
      assert Agrees(cfg, password, s.cache.children[e.c], s.clients[e.c]);
    }
  }

  /** One more finished command. */
  lemma OneMore(cfg: Config, password: string, client: Client, input: Input)
    requires RunOf(cfg, password, client).open
    ensures After(cfg, Fresh(password), client.finished + [input]) == Next(cfg, RunOf(cfg, password, client), input)
  {
    hide Next;
    AfterSplit(cfg, Fresh(password), client.finished, [input]);
    assert [input][1..] == [];
  }

  /** What a command that makes a call comes to, once the cache has answered. */
  lemma AfterAnswer(cfg: Config, s: Session, input: Input, granted: bool)
    requires Step(cfg, s, input).1.call != NoCall
    ensures var (s', reply) := Step(cfg, s, input.(granted := granted));
            if Step(cfg, s, input).1.call == Increment then
              !s.established && s'.established == granted && reply.stayOpen == granted
            else s' == s && reply.stayOpen == Step(cfg, s, input).1.stayOpen
  {
    hide Tokenize.Tokenized, Checked;
  }

  lemma EstablishedByCall(cfg: Config, s: Session, input: Input)
    requires Step(cfg, s, input).1.call == NoCall
    ensures Step(cfg, s, input).0.established == s.established
  {
    hide Tokenize.Tokenized, Checked;
  }

  /** A command that makes no call. */
  lemma CommandAlone(cfg: Config, password: string, child: Cache.Child, client: Client, input: Input)
    requires Agrees(cfg, password, child, client) && Ready(child)
    requires ReplyTo(cfg, password, client, input).call == NoCall
    ensures var stay := ReplyTo(cfg, password, client, input).stayOpen;
            Agrees(cfg, password, if stay then child else child.(open := false),
                   client.(finished := client.finished + [input]))
  {
    EstablishedByCall(cfg, RunOf(cfg, password, client).session, input);
    OneMore(cfg, password, client, input);
    hide Connection.Step, After;
  }

  /** A call that has been answered: what the child makes of the reply is what its connection does. */
  lemma CallReturns(cfg: Config, password: string, child: Cache.Child, client: Client)
    requires Agrees(cfg, password, child, client) && client.pending.Some? && child.pc.Answered?
    ensures var answered := client.pending.value.(granted := child.pc.reply == Cache.SUCCESS);
            Agrees(cfg, password, Cache.AfterCall(child), Client(client.finished + [answered], None))
  {
    var answered := client.pending.value.(granted := child.pc.reply == Cache.SUCCESS);
    AfterAnswer(cfg, RunOf(cfg, password, client).session, client.pending.value, answered.granted);
    OneMore(cfg, password, client, answered);
    hide Connection.Step, After;
  }

  /** Steps inside a call, and the end of a child. */
  lemma InternalKeeps(cfg: Config, password: string, maxSessions: nat, s: Server, e: Event, c: nat)
    requires Ok(cfg, password, s) && e.Internal? && Enabled(s, e) && c in s.clients
    ensures var after := Apply(cfg, password, maxSessions, s, e);
            after.clients == s.clients && after.cache.children.Keys == s.cache.children.Keys
            && Agrees(cfg, password, after.cache.children[c], s.clients[c])
  {
    hide Connection.Step, Fresh, RunOf, Cache.Answer;
    assert Agrees(cfg, password, s.cache.children[c], s.clients[c]);
  }

  lemma EventKeeps(cfg: Config, password: string, maxSessions: nat, s: Server, e: Event)
    requires Ok(cfg, password, s) && Enabled(s, e)
    requires var step := Shared(cfg, password, s, e); step.Some? ==> Cache.Enabled(s.cache, step.value)
    ensures Ok(cfg, password, Apply(cfg, password, maxSessions, s, e))
  {
    hide Agrees, ReplyTo, Cache.AfterCall;
    var after := Apply(cfg, password, maxSessions, s, e);
    match e {
      case Connect(c) => NewClient(cfg, password);
      case Command(c, input) =>
        if ReplyTo(cfg, password, s.clients[c], input).call == NoCall {
          CommandAlone(cfg, password, s.cache.children[c], s.clients[c], input);
        } else {
          CallStarts(cfg, password, s.cache.children[c], s.clients[c], input);
        }
      case Return(c) => CallReturns(cfg, password, s.cache.children[c], s.clients[c]);
      case Internal(_) =>
        forall c | c in s.clients
          ensures after.clients == s.clients && after.cache.children.Keys == s.cache.children.Keys
          ensures Agrees(cfg, password, after.cache.children[c], s.clients[c])
        {
          InternalKeeps(cfg, password, maxSessions, s, e, c);
        }
        InternalKeys(cfg, password, maxSessions, s, e);
    }
  }

  lemma InternalKeys(cfg: Config, password: string, maxSessions: nat, s: Server, e: Event)
    requires e.Internal? && Enabled(s, e)
    ensures var after := Apply(cfg, password, maxSessions, s, e);
            after.clients == s.clients && after.cache.children.Keys == s.cache.children.Keys
  {}

  lemma NewClient(cfg: Config, password: string)
    ensures Agrees(cfg, password, Cache.NEW_CHILD, Client([], None))
  {}

  lemma CallStarts(cfg: Config, password: string, child: Cache.Child, client: Client, input: Input)
    requires Agrees(cfg, password, child, client) && Ready(child)
    requires ReplyTo(cfg, password, client, input).call != NoCall
    ensures Agrees(cfg, password, child.(pc := Cache.Calling(OpOf(ReplyTo(cfg, password, client, input)))),
                   client.(pending := Some(input)))
  {
    hide Connection.Step, After;
  }

  // ---------------------------------------------------------------- runs of the whole server

  /** The state after some events, or none if one of them is not possible. */
  function RunServer(cfg: Config, password: string, maxSessions: nat, events: seq<Event>): (r: Option<Server>)
    ensures r.Some? ==> Ok(cfg, password, r.value)
    decreases |events|
  {
    if events == [] then Some(START)
    else
      var before, e := RunServer(cfg, password, maxSessions, events[..|events| - 1]), events[|events| - 1];
      if before.Some? && Enabled(before.value, e) then
        SharedEnabled(cfg, password, before.value, e);
        EventKeeps(cfg, password, maxSessions, before.value, e);
        Some(Apply(cfg, password, maxSessions, before.value, e))
      else None
  }

  /** Every run of the whole server is a run of the counter's protocol: the theorems about it hold of
      children that run real commands. */
  lemma {:induction false} Refines(cfg: Config, password: string, maxSessions: nat, events: seq<Event>)
    requires RunServer(cfg, password, maxSessions, events).Some?
    ensures var s := RunServer(cfg, password, maxSessions, events).value;
            Cache.Run(maxSessions, s.trace) == Some(s.cache)
    decreases |events|
  {
    hide Enabled, Shared, ClientsAfter, Ok, Apply, Cache.Apply, Cache.Enabled, Cache.Run;
    if events == [] {
      assert Cache.Run(maxSessions, []) == Some(Cache.INITIAL) by { NothingRun(maxSessions); }
    } else {
      var before, e := events[..|events| - 1], events[|events| - 1];
      Refines(cfg, password, maxSessions, before);
      var s := RunServer(cfg, password, maxSessions, before).value;
      SharedEnabled(cfg, password, s, e);
      TraceGrows(cfg, password, maxSessions, s, e);
    }
  }

  lemma NothingRun(maxSessions: nat)
    ensures Cache.Run(maxSessions, []) == Some(Cache.INITIAL)
  {}

  lemma TraceGrows(cfg: Config, password: string, maxSessions: nat, s: Server, e: Event)
    requires Enabled(s, e) && Cache.Run(maxSessions, s.trace) == Some(s.cache)
    requires var step := Shared(cfg, password, s, e); step.Some? ==> Cache.Enabled(s.cache, step.value)
    ensures var after := Apply(cfg, password, maxSessions, s, e);
            Cache.Run(maxSessions, after.trace) == Some(after.cache)
  {
    hide Enabled, Shared, ClientsAfter, Cache.Apply, Cache.Enabled;
    var step := Shared(cfg, password, s, e);
    if step.Some? { Cache.RunMore(maxSessions, s.trace, step.value); }
  }

  // ---------------------------------------------------------------- discipline

  /** All commands of a client so far. */
  function Commands(client: Client): seq<Input> {
    client.finished + if client.pending.Some? then [client.pending.value] else []
  }

  /** Every client sends QUIT only well-formed and in a session. */
  ghost predicate Orderly(cfg: Config, password: string, s: Server) {
    forall c :: c in s.clients ==> Disciplined(cfg, Fresh(password), Commands(s.clients[c]))
  }

  predicate ProperQuit(r: Run, input: Input) {
    r.open && Name(input) == "quit" ==>
      r.session.established && Tokenize.Tokenized(Tokenize.QUIT_TABLE, Tokenize.QUIT_ELEMENTS, input.lines).code == Tokenize.OK
  }

  lemma {:induction false} DisciplinedMore(cfg: Config, r: Run, inputs: seq<Input>, input: Input)
    ensures Disciplined(cfg, r, inputs + [input])
            <==> Disciplined(cfg, r, inputs) && ProperQuit(After(cfg, r, inputs), input)
    decreases |inputs|
  {
    hide Next, Tokenize.Tokenized;
    var all := inputs + [input];
    if inputs == [] {
      assert all == [input] && all[1..] == [];
    } else if r.open {
      assert all[1..] == inputs[1..] + [input];
      DisciplinedMore(cfg, Next(cfg, r, inputs[0]), inputs[1..], input);
    }
  }

  /** A client that is orderly after an event was orderly before it. */
  lemma OrderlyBefore(cfg: Config, password: string, s: Server, e: Event, c: nat)
    requires Ok(cfg, password, s) && Enabled(s, e) && c in s.clients
    requires Disciplined(cfg, Fresh(password), Commands(ClientsAfter(cfg, password, s, e)[c]))
    ensures Disciplined(cfg, Fresh(password), Commands(s.clients[c]))
  {
    hide Disciplined, After, Step, Tokenize.Tokenized;
    var client := s.clients[c];
    assert Agrees(cfg, password, s.cache.children[c], client);
    assert client.finished + [] == client.finished;
    if e.Command? && e.c == c {
      DisciplinedMore(cfg, Fresh(password), client.finished, e.input);
      assert client.finished + [e.input] + [] == client.finished + [e.input];
    }
    if e.Return? && e.c == c {
      var answered := client.pending.value.(granted := s.cache.children[c].pc.reply == Cache.SUCCESS);
      DisciplinedMore(cfg, Fresh(password), client.finished, client.pending.value);
      DisciplinedMore(cfg, Fresh(password), client.finished, answered);
      assert client.finished + [answered] + [] == client.finished + [answered];
    }
  }

  lemma DecrementIsQuit(cfg: Config, s: Session, input: Input)
    requires Step(cfg, s, input).1.call == Decrement
    ensures Name(input) == "quit"
    ensures Step(cfg, s, input).1.stayOpen
            <==> Tokenize.Tokenized(Tokenize.QUIT_TABLE, Tokenize.QUIT_ELEMENTS, input.lines).code != Tokenize.OK
  {
    hide Tokenize.Tokenized, Checked;
  }

  /** A decrement that an orderly client asks for is a proper QUIT. */
  lemma OrderlyCall(cfg: Config, password: string, s: Server, c: nat, input: Input)
    requires Ok(cfg, password, s) && Enabled(s, Command(c, input))
    requires Disciplined(cfg, Fresh(password), s.clients[c].finished + [input])
    ensures var reply := ReplyTo(cfg, password, s.clients[c], input);
            reply.call == Decrement ==> Cache.Proper(s.cache.children[c], OpOf(reply))
  {
    assert Agrees(cfg, password, s.cache.children[c], s.clients[c]);
    hide Disciplined, After, Step, Tokenize.Tokenized;
    DisciplinedMore(cfg, Fresh(password), s.clients[c].finished, input);
    if ReplyTo(cfg, password, s.clients[c], input).call == Decrement {
      DecrementIsQuit(cfg, RunOf(cfg, password, s.clients[c]).session, input);
    }
  }

  lemma ProperCalls(cfg: Config, password: string, s: Server, e: Event)
    requires Ok(cfg, password, s) && Enabled(s, e)
    requires e.Command? ==> Disciplined(cfg, Fresh(password), s.clients[e.c].finished + [e.input])
    ensures var step := Shared(cfg, password, s, e);
            step.Some? && step.value.Call? && step.value.op.Decrement?
            ==> step.value.c in s.cache.children && Cache.Proper(s.cache.children[step.value.c], step.value.op)
  {
    hide Disciplined, Step, Cache.Proper, Ok;
    if e.Command? { OrderlyCall(cfg, password, s, e.c, e.input); }
  }

  /** If every client has been orderly, so has the run of the counter's protocol. */
  lemma {:induction false} OrderlyDisciplined(cfg: Config, password: string, maxSessions: nat, events: seq<Event>)
    requires RunServer(cfg, password, maxSessions, events).Some?
    requires Orderly(cfg, password, RunServer(cfg, password, maxSessions, events).value)
    ensures var s := RunServer(cfg, password, maxSessions, events).value;
            Cache.Run(maxSessions, s.trace) == Some(s.cache) && Cache.Disciplined(maxSessions, s.trace)
    decreases |events|
  {
    hide Enabled, Shared, ClientsAfter, Ok, Apply, Orderly, Disciplined, Cache.Run, Cache.Disciplined, Cache.Enabled;
    if events == [] {
      NothingDisciplined(maxSessions);
    } else {
      var before, e := events[..|events| - 1], events[|events| - 1];
      var s := RunServer(cfg, password, maxSessions, before).value;
      SharedEnabled(cfg, password, s, e);
      OrderlyStep(cfg, password, maxSessions, s, e);
      OrderlyDisciplined(cfg, password, maxSessions, before);
      TraceDisciplined(cfg, password, maxSessions, s, e);
    }
  }

  lemma NothingDisciplined(maxSessions: nat)
    ensures Cache.Run(maxSessions, []) == Some(Cache.INITIAL) && Cache.Disciplined(maxSessions, [])
  {}

  lemma OrderlyStep(cfg: Config, password: string, maxSessions: nat, s: Server, e: Event)
    requires Ok(cfg, password, s) && Enabled(s, e)
    requires var step := Shared(cfg, password, s, e); step.Some? ==> Cache.Enabled(s.cache, step.value)
    requires Orderly(cfg, password, Apply(cfg, password, maxSessions, s, e))
    ensures Orderly(cfg, password, s)
    ensures e.Command? ==> Disciplined(cfg, Fresh(password), s.clients[e.c].finished + [e.input])
  {
    hide Disciplined, Step, Cache.Apply, Cache.Enabled, Shared, Ok;
    forall c | c in s.clients ensures Disciplined(cfg, Fresh(password), Commands(s.clients[c])) {
      assert c in ClientsAfter(cfg, password, s, e) by { ClientsStay(cfg, password, s, e, c); }
      OrderlyBefore(cfg, password, s, e, c);
    }
    if e.Command? {
      CommandSeen(cfg, password, s, e.c, e.input);
    }
  }

  lemma ClientsStay(cfg: Config, password: string, s: Server, e: Event, c: nat)
    requires Enabled(s, e) && c in s.clients
    ensures c in ClientsAfter(cfg, password, s, e)
  {}

  lemma CommandSeen(cfg: Config, password: string, s: Server, c: nat, input: Input)
    requires Ok(cfg, password, s) && Enabled(s, Command(c, input))
    ensures Commands(ClientsAfter(cfg, password, s, Command(c, input))[c]) == s.clients[c].finished + [input]
  {
    hide Step, After, Cache.Enabled;
    assert Agrees(cfg, password, s.cache.children[c], s.clients[c]);
  }

  lemma TraceDisciplined(cfg: Config, password: string, maxSessions: nat, s: Server, e: Event)
    requires Ok(cfg, password, s) && Enabled(s, e)
    requires Cache.Run(maxSessions, s.trace) == Some(s.cache) && Cache.Disciplined(maxSessions, s.trace)
    requires var step := Shared(cfg, password, s, e); step.Some? ==> Cache.Enabled(s.cache, step.value)
    requires e.Command? ==> Disciplined(cfg, Fresh(password), s.clients[e.c].finished + [e.input])
    ensures var after := Apply(cfg, password, maxSessions, s, e);
            Cache.Run(maxSessions, after.trace) == Some(after.cache) && Cache.Disciplined(maxSessions, after.trace)
  {
    hide Enabled, Shared, ClientsAfter, Ok, Disciplined, Cache.Apply, Cache.Enabled, Cache.Proper, Cache.Run, Cache.Disciplined;
    ProperCalls(cfg, password, s, e);
    var step := Shared(cfg, password, s, e);
    if step.Some? { Cache.RunMore(maxSessions, s.trace, step.value); }
  }

  // ---------------------------------------------------------------- what the server guarantees

  /** The open connections with a session. */
  function LiveSessions(cfg: Config, password: string, s: Server): set<nat> {
    set c | c in s.clients && c in s.cache.children && s.cache.children[c].open
            && RunOf(cfg, password, s.clients[c]).session.established
  }

  lemma LiveAreEstablished(cfg: Config, password: string, s: Server)
    requires Ok(cfg, password, s)
    ensures LiveSessions(cfg, password, s) == Cache.OpenEstablished(s.cache.children)
  {
    hide After, Step;
    forall c | c in s.clients ensures s.cache.children[c].established == RunOf(cfg, password, s.clients[c]).session.established {
      assert Agrees(cfg, password, s.cache.children[c], s.clients[c]);
    }
  }

  /** In every run of the whole server, whatever the clients send: the count never passes the maximum;
      every session has been granted by the cache; and the live sessions are within the count exactly
      if those about to leave and the unpaid decrements do not outnumber those about to be established
      and the sessions abandoned. */
  lemma ServerSafety(cfg: Config, password: string, maxSessions: nat, events: seq<Event>)
    requires RunServer(cfg, password, maxSessions, events).Some?
    ensures var s := RunServer(cfg, password, maxSessions, events).value;
            var children := s.cache.children;
            s.cache.count == s.cache.grants - s.cache.decrements <= maxSessions
            && (forall c :: c in LiveSessions(cfg, password, s) ==> children[c].granted)
            && (|LiveSessions(cfg, password, s)| <= s.cache.count
                <==> |Cache.Departing(children)| + s.cache.stray <= |Cache.Arriving(children)| + s.cache.leaked)
  {
    hide Ok, Cache.SocketOk, Cache.Run, Step, After;
    var s := RunServer(cfg, password, maxSessions, events).value;
    Refines(cfg, password, maxSessions, events);
    LiveAreEstablished(cfg, password, s);
    Cache.SessionSafety(maxSessions, s.trace);
    Cache.OpenExactly(maxSessions, s.trace);
    Cache.RunKeeps(maxSessions, s.trace);
    Cache.EstablishedGranted(s.cache);
  }

  /** If no client sends QUIT malformed or without a session, the live sessions exceed the count at most
      by those whose QUIT has just been counted; while there are none, they are within the count and
      the maximum, even if other clients vanish. */
  lemma OrderlySafety(cfg: Config, password: string, maxSessions: nat, events: seq<Event>)
    requires RunServer(cfg, password, maxSessions, events).Some?
    requires Orderly(cfg, password, RunServer(cfg, password, maxSessions, events).value)
    ensures var s := RunServer(cfg, password, maxSessions, events).value;
            var leaving := Cache.Departing(s.cache.children);
            |LiveSessions(cfg, password, s)| <= s.cache.count + |leaving|
            && (leaving == {} ==> |LiveSessions(cfg, password, s)| <= s.cache.count <= maxSessions)
  {
    hide Ok, Orderly, Cache.Run, Cache.Disciplined, Step, After;
    var s := RunServer(cfg, password, maxSessions, events).value;
    OrderlyDisciplined(cfg, password, maxSessions, events);
    LiveAreEstablished(cfg, password, s);
    Cache.DisciplinedOpen(maxSessions, s.trace);
  }

  // ---------------------------------------------------------------- every QUIT counts

  /** The commands named quit that clients have sent on open connections. */
  function Quits(events: seq<Event>): nat {
    if events == [] then 0
    else
      var last := events[|events| - 1];
      Quits(events[..|events| - 1]) + if last.Command? && Name(last.input) == "quit" then 1 else 0
  }

  lemma {:induction false} QuitsAreCalls(cfg: Config, password: string, maxSessions: nat, events: seq<Event>)
    requires RunServer(cfg, password, maxSessions, events).Some?
    ensures Cache.DecrementCalls(RunServer(cfg, password, maxSessions, events).value.trace) == Quits(events)
    decreases |events|
  {
    hide Enabled, Ok, Apply, Shared, Cache.Enabled;
    if events != [] {
      var before, e := events[..|events| - 1], events[|events| - 1];
      QuitsAreCalls(cfg, password, maxSessions, before);
      var s := RunServer(cfg, password, maxSessions, before).value;
      SharedEnabled(cfg, password, s, e);
      CallsGrow(cfg, password, maxSessions, s, e);
    }
  }

  lemma CallsGrow(cfg: Config, password: string, maxSessions: nat, s: Server, e: Event)
    requires Enabled(s, e)
    requires var step := Shared(cfg, password, s, e); step.Some? ==> Cache.Enabled(s.cache, step.value)
    ensures Cache.DecrementCalls(Apply(cfg, password, maxSessions, s, e).trace)
            == Cache.DecrementCalls(s.trace) + if e.Command? && Name(e.input) == "quit" then 1 else 0
  {
    if e.Command? { OnlyQuitDecrements(cfg, RunOf(cfg, password, s.clients[e.c]).session, e.input); }
    hide Step, After, Cache.Apply, Cache.Enabled;
    var step := Shared(cfg, password, s, e);
    if step.Some? { assert (s.trace + [step.value])[..|s.trace|] == s.trace; }
  }

  /** Whatever the clients send, the decrements counted and those still waiting are exactly the QUITs
      sent: each one lowers the count, well-formed or not, in a session or not. */
  lemma QuitsAreCounted(cfg: Config, password: string, maxSessions: nat, events: seq<Event>)
    requires RunServer(cfg, password, maxSessions, events).Some?
    ensures var s := RunServer(cfg, password, maxSessions, events).value;
            s.cache.decrements + |Cache.Waiting(s.cache.children)| == Quits(events)
            && s.cache.count == s.cache.grants - Quits(events) + |Cache.Waiting(s.cache.children)|
  {
    hide Ok, Cache.Run, Cache.Waiting;
    var s := RunServer(cfg, password, maxSessions, events).value;
    Refines(cfg, password, maxSessions, events);
    QuitsAreCalls(cfg, password, maxSessions, events);
    Cache.DecrementsCounted(maxSessions, s.trace);
    Cache.SessionSafety(maxSessions, s.trace);
  }

  /** The cache handles a QUIT: the count goes down by one, and nobody has paid for that unless the QUIT
      has no parameters and comes in a session. */
  lemma QuitServed(cfg: Config, password: string, maxSessions: nat, events: seq<Event>)
    requires RunServer(cfg, password, maxSessions, events).Some?
    requires var s := RunServer(cfg, password, maxSessions, events).value;
             Cache.Enabled(s.cache, Cache.Serve) && s.cache.requests[0].from in s.clients
             && var pending := s.clients[s.cache.requests[0].from].pending; pending.Some? && Name(pending.value) == "quit"
    ensures var s := RunServer(cfg, password, maxSessions, events).value;
            var client := s.clients[s.cache.requests[0].from];
            var after := Apply(cfg, password, maxSessions, s, Internal(Cache.Serve)).cache;
            after.count == s.cache.count - 1
            && after.stray == s.cache.stray
               + if BareQuit(client.pending.value) && RunOf(cfg, password, client).session.established then 0 else 1
  {
    hide Cache.Run, Cache.Apply, After, BareQuit;
    var s := RunServer(cfg, password, maxSessions, events).value;
    var c := s.cache.requests[0].from;
    Refines(cfg, password, maxSessions, events);
    Cache.ServedExactly(maxSessions, s.trace);
    assert Agrees(cfg, password, s.cache.children[c], s.clients[c]);
    QuitExactly(cfg, RunOf(cfg, password, s.clients[c]).session, s.clients[c].pending.value);
    hide Step;
  }
}
