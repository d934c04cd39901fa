/**
 The session counter of the RRP server: one cache process owns the count, every connection has
 a child process, and all children share one socket to the cache, which they use one at a time
 under a lock.  The cache loop is modelled as it is written; the children and the cache together
 are a transition system over any number of children and any interleaving of their steps.
 */
module SessionCache {
  import opened Common

  const INCREMENT := "increment session_count"
  const DECREMENT := "decrement session_count"
  const SUCCESS := "success"
  const FAILURE := "failure"

  // ---------------------------------------------------------------- the cache process

  /** What the cache does with one line: the new count, and the reply if there is one. */
  function Answer(maxSessions: int, count: int, line: string): (int, Option<string>) {
    if line == INCREMENT then
      if count < maxSessions then (count + 1, Some(SUCCESS)) else (count, Some(FAILURE))
    else if line == DECREMENT then (count - 1, Some(SUCCESS))
    else (count, None)
  }

  class Cache {
    const maxSessions: int
    var sessionCount: int

    constructor (maxSessions: int)
      ensures this.maxSessions == maxSessions && sessionCount == 0
    {
      this.maxSessions := maxSessions;
      sessionCount := 0;
    }

    /** One turn of the request loop.  The reply to a decrement is written before the count
        changes, but both happen before the reply is flushed. */
    method ProcessRequest(line: string) returns (reply: Option<string>)
      modifies this
      ensures (sessionCount, reply) == Answer(maxSessions, old(sessionCount), line)
    {
      reply := None;
      if line == INCREMENT {
        if sessionCount < maxSessions {
          sessionCount := sessionCount + 1;
          reply := Some(SUCCESS);
        } else {
          reply := Some(FAILURE);
        }
      } else if line == DECREMENT {
        reply := Some(SUCCESS);
        sessionCount := sessionCount - 1;
      }
    }
  }

  /** A place is taken exactly while there is one; a decrement is never refused, not even at zero; and a
      line that is neither gets no reply. */
  lemma AnswersExactly(maxSessions: int, count: int, line: string)
    ensures Answer(maxSessions, count, "increment session_count")
            == if count < maxSessions then (count + 1, Some("success")) else (count, Some("failure"))
    ensures Answer(maxSessions, count, "decrement session_count") == (count - 1, Some("success"))
    ensures line != "increment session_count" && line != "decrement session_count" ==> Answer(maxSessions, count, line) == (count, None)
  {
    assert INCREMENT[0] != DECREMENT[0];
  }

  // ---------------------------------------------------------------- children and messages

  // A call from a child: SESSION asks for an increment, QUIT, well-formed or not, for a decrement.
  datatype Op = Increment | Decrement(wellFormed: bool)

  // Where a child is in `increment_session_count` or `decrement_session_count`.
  datatype Pc =
    | Idle
    | Calling(op: Op)                  // before lock_cache
    | Locked(op: Op)                   // has the lock
    | Sent(op: Op)                     // request written and flushed
    | Answered(op: Op, reply: string)  // reply read, lock still held

  // `granted` (the cache has counted a session for this child), `served` and `delta` (requests of
  // the current call the cache has handled, and what they did to the count) are history.
  datatype Child = Child(pc: Pc, established: bool, open: bool, closing: bool, granted: bool, served: nat, delta: int)

  // `from` is history too: nothing on the socket says who sent a line.
  datatype Message = Message(text: string, from: nat)

  // The last four fields are history: granted increments, decrements, established connections
  // gone without QUIT, and decrements counted for anything but a proper QUIT.
  datatype State = State(
    lock: Option<nat>, requests: seq<Message>, replies: seq<Message>, count: int, children: map<nat, Child>,
    grants: nat, decrements: nat, leaked: nat, stray: nat)

  function RequestLine(op: Op): string {
    if op.Increment? then INCREMENT else DECREMENT
  }

  const NEW_CHILD := Child(Idle, false, true, false, false, 0, 0)
  const INITIAL := State(None, [], [], 0, map[], 0, 0, 0, 0)

  // ---------------------------------------------------------------- steps

  datatype Step =
    | Fork(c: nat)           // a client connects
    | Call(c: nat, op: Op)   // SESSION or QUIT reaches the counter
    | Lock(c: nat)
    | Send(c: nat)
    | Serve                  // the cache handles one request
    | Receive(c: nat)
    | Unlock(c: nat)         // and act on the result
    | Close(c: nat)          // the child of a finished connection exits
    | Vanish(c: nat)         // the client goes away, or a timeout fires

  /** A well-formed QUIT on an established connection; the connection closes after it. */
  predicate Proper(child: Child, op: Op) {
    op == Decrement(true) && child.established
  }

  /** A step is possible if the lock excludes other children, which is what `flock` is there for. */
  predicate Enabled(s: State, step: Step) {
    Possible(s, step) && (step.Lock? ==> s.lock == None)
  }

  /** What the program itself makes sure of. */
  predicate Possible(s: State, step: Step) {
    match step
    case Fork(c) => c !in s.children
    case Call(c, op) =>
      c in s.children && s.children[c].pc == Idle && s.children[c].open && !s.children[c].closing
      && (op.Increment? ==> !s.children[c].established)
    case Lock(c) => c in s.children && s.children[c].pc.Calling?
    case Send(c) => c in s.children && s.children[c].pc.Locked?
    case Serve => |s.requests| > 0 && s.requests[0].from in s.children && s.children[s.requests[0].from].pc.Sent?
    case Receive(c) => c in s.children && s.children[c].pc.Sent? && |s.replies| > 0
    case Unlock(c) => c in s.children && s.children[c].pc.Answered?
    case Close(c) => c in s.children && s.children[c].closing && s.children[c].open
    case Vanish(c) => c in s.children && s.children[c].pc == Idle && s.children[c].open && !s.children[c].closing
  }

  function Set(s: State, c: nat, child: Child): State {
    s.(children := s.children[c := child])
  }

  /** The child after its call has returned: a granted SESSION establishes the session, a refused
      one and a well-formed QUIT close the connection. */
  function AfterCall(child: Child): Child
    requires child.pc.Answered?
  {
    var done := child.(pc := Idle);
    match child.pc.op
    case Increment => if child.pc.reply == SUCCESS then done.(established := true) else done.(closing := true)
    case Decrement(wellFormed) => done.(closing := wellFormed)
  }

  function Apply(maxSessions: nat, s: State, step: Step): (s': State)
    requires Possible(s, step)
  {
    match step
    case Fork(c) => Set(s, c, NEW_CHILD)
    case Call(c, op) =>
      Set(s, c, s.children[c].(pc := Calling(op)))
    case Lock(c) =>
      var child := s.children[c];
      Set(s, c, child.(pc := Locked(child.pc.op), served := 0, delta := 0)).(lock := Some(c))
    case Send(c) =>
      var child := s.children[c];
      Set(s, c, child.(pc := Sent(child.pc.op))).(requests := s.requests + [Message(RequestLine(child.pc.op), c)])
    case Serve => ApplyServe(maxSessions, s)
    case Receive(c) =>
      var child := s.children[c];
      Set(s, c, child.(pc := Answered(child.pc.op, s.replies[0].text))).(replies := s.replies[1..])
    case Unlock(c) => Set(s, c, AfterCall(s.children[c])).(lock := None)
    case Close(c) => Set(s, c, s.children[c].(open := false))
    case Vanish(c) =>
      var child := s.children[c];
      Set(s, c, child.(open := false)).(leaked := s.leaked + if child.established then 1 else 0)
  }

  /** The cache handles the oldest request; the history is kept beside it. */
  function ApplyServe(maxSessions: nat, s: State): State
    requires Possible(s, Serve)
  {
    var m := s.requests[0];
    var child := s.children[m.from];
    var (count, reply) := Answer(maxSessions, s.count, m.text);
    var delta := count - s.count;
    var counted := child.(served := child.served + 1, delta := child.delta + delta,
                          granted := child.granted || delta == 1);
    Set(s, m.from, counted).(
      requests := s.requests[1..], count := count,
      replies := s.replies + (if reply.Some? then [Message(reply.value, m.from)] else []),
      grants := s.grants + (if delta == 1 then 1 else 0),
      decrements := s.decrements + (if delta == -1 then 1 else 0),
      stray := s.stray + (if delta == -1 && !Proper(child, child.pc.op) then 1 else 0))
  }

  // ---------------------------------------------------------------- runs

  /** The state after a sequence of steps from the start, or none if some step is not possible. */
  function Run(maxSessions: nat, steps: seq<Step>): (r: Option<State>)
    decreases |steps|
  {
    if steps == [] then Some(INITIAL)
    else
      var before := Run(maxSessions, steps[..|steps| - 1]);
      var last := steps[|steps| - 1];
      if before.Some? && Enabled(before.value, last) then Some(Apply(maxSessions, before.value, last)) else None
  }

  // ---------------------------------------------------------------- what every state keeps

  predicate Critical(child: Child) {
    child.pc.Locked? || child.pc.Sent? || child.pc.Answered?
  }

  /** A reply that fits the request of the current call, which the cache has handled once. */
  predicate Answers(child: Child, op: Op, reply: string) {
    child.served == 1
    && match op
       case Increment =>
         (reply == SUCCESS || reply == FAILURE) && child.delta == (if reply == SUCCESS then 1 else 0)
         && (child.granted <==> reply == SUCCESS)
       case Decrement(_) => reply == SUCCESS && child.delta == -1 && child.granted == child.established
  }

  predicate ChildOk(child: Child) {
    (child.pc.Idle? || child.pc.Calling? || child.pc.Locked? ==> child.granted == child.established)
    && (!child.pc.Idle? ==> child.open && !child.closing && (child.pc.op.Increment? ==> !child.established))
  }

  /** The one child inside the critical section, and where its one message is. */
  predicate HolderOk(s: State, c: nat) {
    c in s.children && Critical(s.children[c])
    && var child := s.children[c];
       match child.pc
       case Locked(_) => s.requests == [] && s.replies == [] && child.served == 0 && child.delta == 0
       case Sent(op) =>
         (s.requests == [Message(RequestLine(op), c)] && s.replies == []
          && child.served == 0 && child.delta == 0 && child.granted == child.established)
         || (s.requests == [] && |s.replies| == 1 && s.replies[0].from == c && Answers(child, op, s.replies[0].text))
       case Answered(op, reply) => s.requests == [] && s.replies == [] && Answers(child, op, reply)
       case _ => false
  }

  ghost predicate SocketOk(s: State) {
    && (forall c :: c in s.children ==> ChildOk(s.children[c]))
    && (forall c :: c in s.children && Critical(s.children[c]) ==> s.lock == Some(c))
    && match s.lock
       case None => s.requests == [] && s.replies == []
       case Some(c) => HolderOk(s, c)
  }

  predicate CountOk(maxSessions: nat, s: State) {
    s.count <= maxSessions && s.count == s.grants - s.decrements
  }

  lemma SocketStep(maxSessions: nat, s: State, step: Step)
    requires SocketOk(s) && Enabled(s, step)
    ensures SocketOk(Apply(maxSessions, s, step))
  {
    if step.Serve? {
      ServeKeeps(maxSessions, s);
    } else {
      ChildKeeps(maxSessions, s, step);
    }
  }

  lemma ServeKeeps(maxSessions: nat, s: State)
    requires SocketOk(s) && Enabled(s, Serve)
    ensures SocketOk(ApplyServe(maxSessions, s))
  {
    assert HolderOk(ApplyServe(maxSessions, s), s.lock.value);
  }

  lemma ChildKeeps(maxSessions: nat, s: State, step: Step)
    requires SocketOk(s) && Enabled(s, step) && !step.Serve?
    ensures SocketOk(Apply(maxSessions, s, step))
  {
    hide ApplyServe, Answer;
    var s' := Apply(maxSessions, s, step);
    if s'.lock.Some? {
      assert HolderOk(s', s'.lock.value);
    }
  }

  lemma CountStep(maxSessions: nat, s: State, step: Step)
    requires SocketOk(s) && CountOk(maxSessions, s) && Enabled(s, step)
    ensures CountOk(maxSessions, Apply(maxSessions, s, step))
  {}

  // ---------------------------------------------------------------- sessions held

  /** The proper QUIT of this child has been counted by the cache. */
  predicate QuitCounted(child: Child) {
    child.closing
    || (!child.pc.Idle? && Proper(child, child.pc.op)
        && (child.pc.Answered? || (child.pc.Sent? && child.served == 1)))
  }

  /** The cache has counted a session for this open connection, and not yet its proper QUIT. */
  predicate Held(child: Child) {
    child.granted && child.open && !QuitCounted(child)
  }

  function HeldSet(children: map<nat, Child>): set<nat> {
    set c | c in children && Held(children[c])
  }

  lemma HeldUpdate(children: map<nat, Child>, c: nat, child: Child)
    ensures |HeldSet(children[c := child])|
            == |HeldSet(children)| - (if c in children && Held(children[c]) then 1 else 0) + (if Held(child) then 1 else 0)
  {
    var before, after := HeldSet(children), HeldSet(children[c := child]);
    assert before - {c} == after - {c};
    assert c in before ==> |before - {c}| == |before| - 1;
    assert c in after ==> |after - {c}| == |after| - 1;
    assert c !in before ==> before - {c} == before;
    assert c !in after ==> after - {c} == after;
  }

  /** The count is the sessions held and the sessions abandoned, less the decrements that no
      session paid for. */
  predicate Balanced(s: State) {
    s.count == |HeldSet(s.children)| + s.leaked - s.stray
  }

  lemma BalancedStep(maxSessions: nat, s: State, step: Step)
    requires SocketOk(s) && Balanced(s) && Enabled(s, step)
    ensures Balanced(Apply(maxSessions, s, step))
  {
    var c := if step.Serve? then s.requests[0].from else step.c;
    HeldUpdate(s.children, c, Apply(maxSessions, s, step).children[c]);
  }

  // ---------------------------------------------------------------- theorems about every run

  lemma {:induction false} RunKeeps(maxSessions: nat, steps: seq<Step>)
    requires Run(maxSessions, steps).Some?
    ensures var s := Run(maxSessions, steps).value;
            SocketOk(s) && CountOk(maxSessions, s) && Balanced(s)
    decreases |steps|
  {
    hide SocketOk, CountOk, Balanced, Apply, Enabled;
    if steps == [] {
      InitialOk(maxSessions);
    } else {
      var before := steps[..|steps| - 1];
      RunKeeps(maxSessions, before);
      var s, last := Run(maxSessions, before).value, steps[|steps| - 1];
      SocketStep(maxSessions, s, last);
      CountStep(maxSessions, s, last);
      BalancedStep(maxSessions, s, last);
    }
  }

  lemma InitialOk(maxSessions: nat)
    ensures SocketOk(INITIAL) && CountOk(maxSessions, INITIAL) && Balanced(INITIAL)
  {
    assert HeldSet(INITIAL.children) == {};
  }

  /** In every interleaving at most one child is between lock and unlock, and at most one request
      or one reply is on the socket. */
  lemma OneInFlight(maxSessions: nat, steps: seq<Step>)
    requires Run(maxSessions, steps).Some?
    ensures var s := Run(maxSessions, steps).value;
            |s.requests| + |s.replies| <= 1
            && forall c, d :: c in s.children && d in s.children && Critical(s.children[c]) && Critical(s.children[d]) ==> c == d
  {
    RunKeeps(maxSessions, steps);
  }

  /** The line a child reads is the reply to the request it sent. */
  lemma ReplyIsOwn(maxSessions: nat, steps: seq<Step>, c: nat)
    requires Run(maxSessions, steps).Some? && Enabled(Run(maxSessions, steps).value, Receive(c))
    ensures var s := Run(maxSessions, steps).value;
            s.replies[0].from == c && Answers(s.children[c], s.children[c].pc.op, s.replies[0].text)
  {
    RunKeeps(maxSessions, steps);
  }

  /** The cache can always handle the request it reads: its sender is waiting for the reply. */
  lemma ServeEnabled(maxSessions: nat, steps: seq<Step>)
    requires Run(maxSessions, steps).Some? && Run(maxSessions, steps).value.requests != []
    ensures Enabled(Run(maxSessions, steps).value, Serve)
  {
    RunKeeps(maxSessions, steps);
  }

  /** When a call returns, the cache has handled exactly one request for it since it took the lock;
      `increment_session_count` succeeds exactly when that request raised the count, and a decrement
      always lowered it. */
  lemma CallCountsOnce(maxSessions: nat, steps: seq<Step>, c: nat)
    requires Run(maxSessions, steps).Some? && Enabled(Run(maxSessions, steps).value, Unlock(c))
    ensures var child := Run(maxSessions, steps).value.children[c];
            child.served == 1
            && (child.pc.op.Increment? ==>
                  child.delta == (if child.pc.reply == SUCCESS then 1 else 0)
                  && (AfterCall(child).established <==> child.granted)
                  && (AfterCall(child).closing <==> child.delta == 0))
            && (child.pc.op.Decrement? ==> child.delta == -1)
  {
    RunKeeps(maxSessions, steps);
  }

  /** The count never passes the maximum and is what was granted less what was given back; the
      sessions held are within it if and only if no more decrements were unpaid for than sessions
      were abandoned. */
  lemma SessionSafety(maxSessions: nat, steps: seq<Step>)
    requires Run(maxSessions, steps).Some?
    ensures var s := Run(maxSessions, steps).value;
            s.count == s.grants - s.decrements <= maxSessions
            && (|HeldSet(s.children)| <= s.count <==> s.stray <= s.leaked)
            && |HeldSet(s.children)| <= maxSessions + s.stray
  {
    RunKeeps(maxSessions, steps);
  }

  /** QUIT comes only well-formed and only from established connections. */
  predicate Disciplined(maxSessions: nat, steps: seq<Step>)
    requires Run(maxSessions, steps).Some?
    decreases |steps|
  {
    steps == [] ||
    var before, last := steps[..|steps| - 1], steps[|steps| - 1];
    Disciplined(maxSessions, before)
    && (last.Call? && last.op.Decrement? ==> Proper(Run(maxSessions, before).value.children[last.c], last.op))
  }

  predicate OnlyProper(s: State) {
    s.stray == 0
    && forall c :: c in s.children && !s.children[c].pc.Idle? && s.children[c].pc.op.Decrement? ==>
         Proper(s.children[c], s.children[c].pc.op)
  }

  lemma OnlyProperStep(maxSessions: nat, s: State, step: Step)
    requires SocketOk(s) && OnlyProper(s) && Enabled(s, step)
    requires step.Call? && step.op.Decrement? ==> Proper(s.children[step.c], step.op)
    ensures OnlyProper(Apply(maxSessions, s, step))
  {}

  lemma {:induction false} DisciplinedKeeps(maxSessions: nat, steps: seq<Step>)
    requires Run(maxSessions, steps).Some? && Disciplined(maxSessions, steps)
    ensures OnlyProper(Run(maxSessions, steps).value)
    decreases |steps|
  {
    hide SocketOk, OnlyProper, Apply, Enabled;
    if steps == [] {
      assert OnlyProper(INITIAL) by { NothingImproper(); }
    } else {
      var before := steps[..|steps| - 1];
      DisciplinedKeeps(maxSessions, before);
      RunKeeps(maxSessions, before);
      OnlyProperStep(maxSessions, Run(maxSessions, before).value, steps[|steps| - 1]);
    }
  }

  lemma NothingImproper()
    ensures OnlyProper(INITIAL)
  {}

  /** In a disciplined run the sessions held never exceed the count, nor the count the maximum, even
      when other clients vanish without QUIT. */
  lemma DisciplinedSafety(maxSessions: nat, steps: seq<Step>)
    requires Run(maxSessions, steps).Some? && Disciplined(maxSessions, steps)
    ensures var s := Run(maxSessions, steps).value;
            |HeldSet(s.children)| <= s.count <= maxSessions
  {
    DisciplinedKeeps(maxSessions, steps);
    RunKeeps(maxSessions, steps);
  }

  /** What the cache does with the request it reads: an increment is granted exactly while the count is
      below the maximum; a decrement always lowers it, and is unpaid for unless it is a proper QUIT. */
  lemma ServedExactly(maxSessions: nat, steps: seq<Step>)
    requires Run(maxSessions, steps).Some? && Enabled(Run(maxSessions, steps).value, Serve)
    ensures var s := Run(maxSessions, steps).value;
            var c := s.requests[0].from;
            var after := Apply(maxSessions, s, Serve);
            match s.children[c].pc.op
            case Increment =>
              after.decrements == s.decrements && after.stray == s.stray
              && if s.count < maxSessions then after.count == s.count + 1 && after.replies == [Message("success", c)]
                 else after.count == s.count && after.replies == [Message("failure", c)]
            case Decrement(wellFormed) =>
              after.count == s.count - 1 && after.replies == [Message("success", c)] && after.decrements == s.decrements + 1
              && after.stray == s.stray + if wellFormed && s.children[c].established then 0 else 1
  {
    RunKeeps(maxSessions, steps);
    var s := Run(maxSessions, steps).value;
    assert HolderOk(s, s.lock.value);
  }

  // ---------------------------------------------------------------- every decrement that is asked for

  /** The calls of `decrement_session_count` in a run. */
  function DecrementCalls(steps: seq<Step>): nat {
    if steps == [] then 0
    else
      var last := steps[|steps| - 1];
      DecrementCalls(steps[..|steps| - 1]) + if last.Call? && last.op.Decrement? then 1 else 0
  }

  /** A decrement that has been asked for and that the cache has not handled yet. */
  predicate Waits(child: Child) {
    match child.pc
    case Calling(op) => op.Decrement?
    case Locked(op) => op.Decrement?
    case Sent(op) => op.Decrement? && child.served == 0
    case _ => false
  }

  function Waiting(children: map<nat, Child>): set<nat> {
    set c | c in children && Waits(children[c])
  }

  lemma WaitingUpdate(children: map<nat, Child>, c: nat, child: Child)
    ensures |Waiting(children[c := child])|
            == |Waiting(children)| - (if c in children && Waits(children[c]) then 1 else 0) + (if Waits(child) then 1 else 0)
  {
    hide Waits;
    var before, after := Waiting(children), Waiting(children[c := child]);
    assert before - {c} == after - {c};
    assert c in before ==> |before - {c}| == |before| - 1;
    assert c in after ==> |after - {c}| == |after| - 1;
    assert c !in before ==> before - {c} == before;
    assert c !in after ==> after - {c} == after;
  }

  lemma DecrementStep(maxSessions: nat, s: State, step: Step)
    requires SocketOk(s) && Enabled(s, step)
    ensures var after := Apply(maxSessions, s, step);
            after.decrements + |Waiting(after.children)|
            == s.decrements + |Waiting(s.children)| + if step.Call? && step.op.Decrement? then 1 else 0
  {
    var c := if step.Serve? then s.requests[0].from else step.c;
    WaitingUpdate(s.children, c, Apply(maxSessions, s, step).children[c]);
    if step.Serve? { assert HolderOk(s, s.lock.value); }
    hide Waiting;
  }

  /** Every decrement asked for has lowered the count once, or is still waiting to. */
  lemma {:induction false} DecrementsCounted(maxSessions: nat, steps: seq<Step>)
    requires Run(maxSessions, steps).Some?
    ensures var s := Run(maxSessions, steps).value;
            s.decrements + |Waiting(s.children)| == DecrementCalls(steps)
    decreases |steps|
  {
    hide SocketOk, Apply, Enabled, Waiting;
    if steps == [] {
      NobodyWaits();
    } else {
      var before := steps[..|steps| - 1];
      DecrementsCounted(maxSessions, before);
      RunKeeps(maxSessions, before);
      DecrementStep(maxSessions, Run(maxSessions, before).value, steps[|steps| - 1]);
    }
  }

  lemma NobodyWaits()
    ensures |Waiting(INITIAL.children)| == 0
  {
    assert Waiting(INITIAL.children) == {};
  }

  // ---------------------------------------------------------------- open established connections

  function OpenEstablished(children: map<nat, Child>): set<nat> {
    set c | c in children && children[c].open && children[c].established
  }

  /** Established connections whose QUIT has been counted and which are still open. */
  function Departing(children: map<nat, Child>): set<nat> {
    set c | c in children && children[c].open && children[c].established && QuitCounted(children[c])
  }

  /** Connections whose session has been counted and which do not know it yet. */
  function Arriving(children: map<nat, Child>): set<nat> {
    set c | c in children && Held(children[c]) && !children[c].established
  }

  lemma EstablishedGranted(s: State)
    requires SocketOk(s)
    ensures forall c :: c in s.children && s.children[c].established ==> s.children[c].granted
  {
    forall c | c in s.children && s.children[c].established ensures s.children[c].granted {
      assert ChildOk(s.children[c]);
      if s.lock == Some(c) { assert HolderOk(s, c); }
    }
  }

  lemma OpenParts(s: State)
    requires SocketOk(s)
    ensures var children := s.children;
            |OpenEstablished(children)| == |HeldSet(children)| - |Arriving(children)| + |Departing(children)|
  {
    EstablishedGranted(s);
    hide SocketOk, Held, QuitCounted;
    var children := s.children;
    var rest := HeldSet(children) - Arriving(children);
    forall c | c in children
      ensures c in OpenEstablished(children) <==> c in rest || c in Departing(children)
      ensures !(c in rest && c in Departing(children))
    {
      OpenCases(children[c]);
    }
    assert OpenEstablished(children) == rest + Departing(children) && rest !! Departing(children);
    assert Arriving(children) <= HeldSet(children);
  }

  lemma OpenCases(child: Child)
    requires child.established ==> child.granted
    ensures child.established ==> (Held(child) <==> child.open && !QuitCounted(child))
  {}

  /** In every run the open established connections are within the count if and only if those that
      are about to leave and the unpaid decrements do not outnumber those about to be established and
      the sessions abandoned. */
  lemma OpenExactly(maxSessions: nat, steps: seq<Step>)
    requires Run(maxSessions, steps).Some?
    ensures var s := Run(maxSessions, steps).value;
            |OpenEstablished(s.children)| <= s.count
            <==> |Departing(s.children)| + s.stray <= |Arriving(s.children)| + s.leaked
  {
    RunKeeps(maxSessions, steps);
    hide SocketOk;
    OpenParts(Run(maxSessions, steps).value);
  }

  /** In a disciplined run they exceed the count at most by those about to leave; so while no counted
      QUIT is still open, they are within the count, and that within the maximum. */
  lemma DisciplinedOpen(maxSessions: nat, steps: seq<Step>)
    requires Run(maxSessions, steps).Some? && Disciplined(maxSessions, steps)
    ensures var s := Run(maxSessions, steps).value;
            s.count <= maxSessions
            && |OpenEstablished(s.children)| <= s.count + |Departing(s.children)|
            && (Departing(s.children) == {} ==> |OpenEstablished(s.children)| <= s.count)
  {
    DisciplinedSafety(maxSessions, steps);
    RunKeeps(maxSessions, steps);
    hide SocketOk;
    OpenParts(Run(maxSessions, steps).value);
  }

  // ---------------------------------------------------------------- progress

  /** No interleaving gets stuck: while some child is inside a call, a step of a call is possible. */
  lemma Progress(maxSessions: nat, steps: seq<Step>, c: nat) returns (step: Step)
    requires Run(maxSessions, steps).Some?
    requires var s := Run(maxSessions, steps).value; c in s.children && !s.children[c].pc.Idle?
    ensures Enabled(Run(maxSessions, steps).value, step)
    ensures step.Lock? || step.Send? || step.Serve? || step.Receive? || step.Unlock?
  {
    RunKeeps(maxSessions, steps);
    var s := Run(maxSessions, steps).value;
    match s.lock
    case None => step := Lock(c);
    case Some(h) =>
      var pc := s.children[h].pc;
      step := if pc.Locked? then Send(h) else if pc.Answered? then Unlock(h)
              else if s.replies == [] then Serve else Receive(h);
  }

  // ---------------------------------------------------------------- what does not hold

  lemma RunMore(maxSessions: nat, steps: seq<Step>, step: Step)
    requires Run(maxSessions, steps).Some? && Enabled(Run(maxSessions, steps).value, step)
    ensures Run(maxSessions, steps + [step]) == Some(Apply(maxSessions, Run(maxSessions, steps).value, step))
    ensures Disciplined(maxSessions, steps)
            && (step.Call? && step.op.Decrement? ==> Proper(Run(maxSessions, steps).value.children[step.c], step.op))
            ==> Disciplined(maxSessions, steps + [step])
  {
    assert (steps + [step])[..|steps|] == steps;
  }

  const OPENED := [Fork(0), Call(0, Increment), Lock(0), Send(0), Serve, Receive(0), Unlock(0)]
  const QUITTING := [Call(0, Decrement(true)), Lock(0), Send(0), Serve]

  // The only child, between the calls of `OPENED` and `QUITTING` and at the end.
  const ESTABLISHED := Child(Idle, true, true, false, true, 1, 1)
  const COUNTED_OUT := Child(Sent(Decrement(true)), true, true, false, true, 1, -1)

  lemma OpenedRun()
    ensures Run(1, OPENED) == Some(State(None, [], [], 1, map[0 := ESTABLISHED], 1, 0, 0, 0))
    ensures Disciplined(1, OPENED)
  {
    assert Run(1, []) == Some(INITIAL) && Disciplined(1, []);
    hide Run, Disciplined;
    var s1 := Apply(1, INITIAL, Fork(0));
    RunMore(1, [], Fork(0));
    var p1 := [] + [Fork(0)];
    var s2 := Apply(1, s1, Call(0, Increment));
    RunMore(1, p1, Call(0, Increment));
    var p2 := p1 + [Call(0, Increment)];
    var s3 := Apply(1, s2, Lock(0));
    RunMore(1, p2, Lock(0));
    var p3 := p2 + [Lock(0)];
    var s4 := Apply(1, s3, Send(0));
    RunMore(1, p3, Send(0));
    var p4 := p3 + [Send(0)];
    var s5 := Apply(1, s4, Serve);
    RunMore(1, p4, Serve);
    var p5 := p4 + [Serve];
    var s6 := Apply(1, s5, Receive(0));
    RunMore(1, p5, Receive(0));
    var p6 := p5 + [Receive(0)];
    var s7 := Apply(1, s6, Unlock(0));
    RunMore(1, p6, Unlock(0));
    var p7 := p6 + [Unlock(0)];
    assert p7 == OPENED;
    assert s7.children == map[0 := ESTABLISHED] && s7.requests == [] && s7.replies == [];
  }

  /** Open established connections can outnumber the count even in a disciplined run: the cache
      counts a QUIT before its connection is closed. */
  lemma OpenExceedsCount()
    ensures Run(1, OPENED + QUITTING).Some? && Disciplined(1, OPENED + QUITTING)
    ensures var s := Run(1, OPENED + QUITTING).value;
            s.count == 0 && OpenEstablished(s.children) == {0}
  {
    hide Run, Disciplined;
    OpenedRun();
    var s0 := Run(1, OPENED).value;
    var s1 := Apply(1, s0, Call(0, Decrement(true)));
    RunMore(1, OPENED, Call(0, Decrement(true)));
    var p1 := OPENED + [Call(0, Decrement(true))];
    var s2 := Apply(1, s1, Lock(0));
    RunMore(1, p1, Lock(0));
    var p2 := p1 + [Lock(0)];
    var s3 := Apply(1, s2, Send(0));
    RunMore(1, p2, Send(0));
    var p3 := p2 + [Send(0)];
    var s4 := Apply(1, s3, Serve);
    RunMore(1, p3, Serve);
    var p4 := p3 + [Serve];
    assert p4 == OPENED + QUITTING;
    assert s4.children == map[0 := COUNTED_OUT];
  }

  // ---------------------------------------------------------------- without exclusion

  /** The same runs if the lock excludes nobody: the lock file is opened before the children are
      forked, and locks of that kind belong to the open file, which all children share. */
  function RunShared(maxSessions: nat, steps: seq<Step>): (r: Option<State>)
    decreases |steps|
  {
    if steps == [] then Some(INITIAL)
    else
      var before := RunShared(maxSessions, steps[..|steps| - 1]);
      var last := steps[|steps| - 1];
      if before.Some? && Possible(before.value, last) then Some(Apply(maxSessions, before.value, last)) else None
  }

  lemma SharedMore(maxSessions: nat, steps: seq<Step>, before: State, step: Step)
    requires RunShared(maxSessions, steps) == Some(before) && Possible(before, step)
    ensures RunShared(maxSessions, steps + [step]) == Some(Apply(maxSessions, before, step))
  {
    assert (steps + [step])[..|steps|] == steps;
  }

  /** No child has got the lock while another one had it. */
  predicate Exclusive(maxSessions: nat, steps: seq<Step>)
    requires RunShared(maxSessions, steps).Some?
    decreases |steps|
  {
    steps == [] ||
    var before, last := steps[..|steps| - 1], steps[|steps| - 1];
    Exclusive(maxSessions, before) && (last.Lock? ==> RunShared(maxSessions, before).value.lock == None)
  }

  /** The theorems about every run then cover exactly the runs in which that has not happened. */
  lemma {:induction false} ExclusiveExactly(maxSessions: nat, steps: seq<Step>)
    requires RunShared(maxSessions, steps).Some?
    ensures Run(maxSessions, steps) == RunShared(maxSessions, steps) <==> Exclusive(maxSessions, steps)
    ensures !Exclusive(maxSessions, steps) ==> Run(maxSessions, steps) == None
    decreases |steps|
  {
    hide Possible, Apply;
    if steps != [] {
      ExclusiveExactly(maxSessions, steps[..|steps| - 1]);
    }
  }

  const BOTH_ASKED := [Fork(0), Fork(1), Call(0, Increment), Call(1, Increment), Lock(0), Lock(1), Send(0), Send(1)]

  const ASKING := Child(Sent(Increment), false, true, false, false, 0, 0)
  const REQUEST_0 := Message(INCREMENT, 0)
  const REQUEST_1 := Message(INCREMENT, 1)

  lemma BothAskedRun()
    ensures RunShared(1, BOTH_ASKED)
            == Some(State(Some(1), [REQUEST_0, REQUEST_1], [], 0, map[0 := ASKING, 1 := ASKING], 0, 0, 0, 0))
  {
    assert RunShared(1, []) == Some(INITIAL);
    hide RunShared;
    var s1 := Apply(1, INITIAL, Fork(0));
    SharedMore(1, [], INITIAL, Fork(0));
    var p1 := [] + [Fork(0)];
    var s2 := Apply(1, s1, Fork(1));
    SharedMore(1, p1, s1, Fork(1));
    var p2 := p1 + [Fork(1)];
    var s3 := Apply(1, s2, Call(0, Increment));
    SharedMore(1, p2, s2, Call(0, Increment));
    var p3 := p2 + [Call(0, Increment)];
    var s4 := Apply(1, s3, Call(1, Increment));
    SharedMore(1, p3, s3, Call(1, Increment));
    var p4 := p3 + [Call(1, Increment)];
    var s5 := Apply(1, s4, Lock(0));
    SharedMore(1, p4, s4, Lock(0));
    var p5 := p4 + [Lock(0)];
    var s6 := Apply(1, s5, Lock(1));
    SharedMore(1, p5, s5, Lock(1));
    var p6 := p5 + [Lock(1)];
    var s7 := Apply(1, s6, Send(0));
    SharedMore(1, p6, s6, Send(0));
    var p7 := p6 + [Send(0)];
    var s8 := Apply(1, s7, Send(1));
    SharedMore(1, p7, s7, Send(1));
    assert p7 + [Send(1)] == BOTH_ASKED;
    assert s8.children == map[0 := ASKING, 1 := ASKING] && s8.requests == [REQUEST_0, REQUEST_1];
  }

  const SERVED_0 := Child(Sent(Increment), false, true, false, true, 1, 1)
  const SERVED_1 := Child(Sent(Increment), false, true, false, false, 1, 0)

  lemma BothServedRun()
    ensures RunShared(1, BOTH_ASKED + [Serve] + [Serve])
            == Some(State(Some(1), [], [Message(SUCCESS, 0), Message(FAILURE, 1)], 1,
                          map[0 := SERVED_0, 1 := SERVED_1], 1, 0, 0, 0))
  {
    BothAskedRun();
    hide RunShared;
    var s0 := RunShared(1, BOTH_ASKED).value;
    var s1 := Apply(1, s0, Serve);
    SharedMore(1, BOTH_ASKED, s0, Serve);
    assert s1.requests == [REQUEST_1] && s1.replies == [Message(SUCCESS, 0)];
    var s2 := Apply(1, s1, Serve);
    SharedMore(1, BOTH_ASKED + [Serve], s1, Serve);
    assert s2.requests == [] && s2.replies == [Message(SUCCESS, 0), Message(FAILURE, 1)];
    assert s2.children == map[0 := SERVED_0, 1 := SERVED_1];
  }

  /** Then a child can read the reply to another one's request: of two SESSIONs for one place, the one
      that was counted is refused and the one that was refused is established. */
  lemma RepliesCross()
    ensures var r := RunShared(1, BOTH_ASKED + [Serve] + [Serve] + [Receive(1)] + [Receive(0)] + [Unlock(1)] + [Unlock(0)]);
            r.Some? && r.value.children.Keys == {0, 1}
            && var granted, refused := r.value.children[0], r.value.children[1];
               granted.granted && !granted.established && granted.closing
               && !refused.granted && refused.established && !refused.closing
  {
    hide RunShared;
    BothServedRun();
    var p2 := BOTH_ASKED + [Serve] + [Serve];
    var s2 := RunShared(1, p2).value;
    var s3 := Apply(1, s2, Receive(1));
    SharedMore(1, p2, s2, Receive(1));
    var s4 := Apply(1, s3, Receive(0));
    SharedMore(1, p2 + [Receive(1)], s3, Receive(0));
    var s5 := Apply(1, s4, Unlock(1));
    SharedMore(1, p2 + [Receive(1)] + [Receive(0)], s4, Unlock(1));
    var s6 := Apply(1, s5, Unlock(0));
    SharedMore(1, p2 + [Receive(1)] + [Receive(0)] + [Unlock(1)], s5, Unlock(0));
    assert s6.children.Keys == {0, 1};
  }
}
