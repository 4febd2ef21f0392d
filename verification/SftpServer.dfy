/**
 * Shutting the SFTP server down: one accept loop, one handler per connection and any number
 * of Close callers interleave, sharing the closed flag and the set of tracked connections
 * under one mutex. Each step below is one critical section or one call outside of it.
 */
module SftpServer {
  import opened Wrappers

  type Conn = nat
  type Caller = nat

  datatype AcceptLoop =
    | Accepting
    | Holding(conn: Conn)  // accepted, closed flag not yet checked
    | Refusing(conn: Conn) // found the server closed, connection not yet closed
    | Starting(conn: Conn) // tracked, handler not yet running
    | Returned

  datatype Handler = Serving | ClosedConn // finished handlers are gone

  datatype CloseCall =
    | Snapshotted(conns: set<Conn>) // set the flag, listener not yet closed
    | Closing(rest: set<Conn>)      // listener closed, these connections still to close
    | Finished
    | FoundClosed                   // another caller had set the flag

  datatype State = State(
    closed: bool,
    conns: set<Conn>,
    listening: bool,
    loop: AcceptLoop,
    handlers: map<Conn, Handler>,
    calls: map<Caller, CloseCall>,
    open: set<Conn>, // connections whose server end is open
    used: set<Conn>) // connections ever accepted

  const START := State(false, {}, true, Accepting, map[], map[], {}, {})

  datatype Step =
    | Accept(conn: Conn)
    | AcceptFails
    | CheckClosed
    | Refuse
    | StartHandler
    | HandlerCloses(conn: Conn)
    | HandlerForgets(conn: Conn)
    | CallClose(caller: Caller)
    | CloseListener(caller: Caller)
    | CloseConn(caller: Caller, conn: Conn)
    | CloseReturns(caller: Caller)

  /** The state after a step, or None where the step cannot happen. */
  function Next(s: State, step: Step): Option<State> {
    match step
    case Accept(c) =>
      if s.loop.Accepting? && s.listening && c !in s.used
      then Some(s.(loop := Holding(c), open := s.open + {c}, used := s.used + {c}))
      else None
    case AcceptFails =>
      if s.loop.Accepting? then Some(s.(loop := Returned)) else None
    case CheckClosed =>
      if !s.loop.Holding? then None
      else if s.closed then Some(s.(loop := Refusing(s.loop.conn)))
      else Some(s.(conns := s.conns + {s.loop.conn}, loop := Starting(s.loop.conn)))
    case Refuse =>
      if s.loop.Refusing? then Some(s.(open := s.open - {s.loop.conn}, loop := Returned)) else None
    case StartHandler =>
      if s.loop.Starting? then Some(s.(handlers := s.handlers[s.loop.conn := Serving], loop := Accepting)) else None
    case HandlerCloses(c) =>
      if c in s.handlers && s.handlers[c].Serving?
      then Some(s.(open := s.open - {c}, handlers := s.handlers[c := ClosedConn]))
      else None
    case HandlerForgets(c) =>
      if c in s.handlers && s.handlers[c].ClosedConn?
      then Some(s.(conns := s.conns - {c}, handlers := s.handlers - {c}))
      else None
    case CallClose(k) =>
      if k in s.calls then None
      else if s.closed then Some(s.(calls := s.calls[k := FoundClosed]))
      else Some(s.(closed := true, calls := s.calls[k := Snapshotted(s.conns)]))
    case CloseListener(k) =>
      if k in s.calls && s.calls[k].Snapshotted?
      then Some(s.(listening := false, calls := s.calls[k := Closing(s.calls[k].conns)]))
      else None
    case CloseConn(k, c) =>
      if k in s.calls && s.calls[k].Closing? && c in s.calls[k].rest
      then Some(s.(open := s.open - {c}, calls := s.calls[k := Closing(s.calls[k].rest - {c})]))
      else None
    case CloseReturns(k) =>
      if k in s.calls && s.calls[k].Closing? && s.calls[k].rest == {}
      then Some(s.(calls := s.calls[k := Finished]))
      else None
  }

  function Run(s: State, steps: seq<Step>): Option<State>
    decreases |steps|
  {
    if steps == [] then Some(s)
    else
      match Next(s, steps[0])
      case None => None
      case Some(s') => Run(s', steps[1..])
  }

  // ----- What every interleaving keeps

  /** The connection the accept loop holds without having tracked it. */
  function Unchecked(s: State): set<Conn> {
    if s.loop.Holding? || s.loop.Refusing? then {s.loop.conn} else {}
  }

  /** Whether a Close call is the one that set the flag. */
  predicate IsWinner(call: CloseCall) {
    !call.FoundClosed?
  }

  /** The connections a winning Close call has still to close. */
  function Pending(call: CloseCall): set<Conn> {
    match call
    case Snapshotted(conns) => conns
    case Closing(rest) => rest
    case _ => {}
  }

  ghost predicate Invariant(s: State) {
    // tracked connections are those with a handler, or about to get one
    && s.conns == s.handlers.Keys + (if s.loop.Starting? then {s.loop.conn} else {})
    && (s.loop.Starting? ==> s.loop.conn !in s.handlers)
    // every open connection is tracked or held unchecked by the accept loop
    && s.open <= s.conns + Unchecked(s)
    && Unchecked(s) !! s.conns
    && s.conns + Unchecked(s) <= s.used
    && (forall c :: c in s.handlers && s.handlers[c].ClosedConn? ==> c !in s.open)
    // the flag, the callers and the listener
    && (s.closed <==> exists k :: k in s.calls && IsWinner(s.calls[k]))
    && (!s.closed ==> s.listening && !s.loop.Refusing?)
    && (forall k, j :: k in s.calls && j in s.calls && IsWinner(s.calls[k]) && IsWinner(s.calls[j]) ==> k == j)
    && (forall k :: k in s.calls && IsWinner(s.calls[k]) ==> CoversOpen(s, s.calls[k]))
  }

  /** A winning call has still to close every open connection the accept loop has let in. */
  ghost predicate CoversOpen(s: State, call: CloseCall) {
    && s.open - Unchecked(s) <= Pending(call)
    && (call.Closing? || call.Finished? ==> !s.listening)
  }

  lemma AcceptKeepsInvariant(s: State, step: Step, s': State)
    requires Invariant(s) && Next(s, step) == Some(s')
    requires step.Accept? || step.AcceptFails? || step.CheckClosed? || step.Refuse? || step.StartHandler?
    ensures Invariant(s')
  {
    assert s'.calls == s.calls && s'.closed == s.closed;
    forall k | k in s.calls && IsWinner(s.calls[k]) ensures CoversOpen(s', s'.calls[k]) {
      assert CoversOpen(s, s.calls[k]);
    }
  }

  lemma HandlerKeepsInvariant(s: State, step: Step, s': State)
    requires Invariant(s) && Next(s, step) == Some(s')
    requires step.HandlerCloses? || step.HandlerForgets?
    ensures Invariant(s')
  {
    forall k | k in s.calls && IsWinner(s.calls[k]) ensures CoversOpen(s', s'.calls[k]) {
      assert CoversOpen(s, s.calls[k]);
    }
  }

  lemma CloseKeepsInvariant(s: State, step: Step, s': State)
    requires Invariant(s) && Next(s, step) == Some(s')
    requires step.CallClose? || step.CloseListener? || step.CloseConn? || step.CloseReturns?
    ensures Invariant(s')
  {
    if s.closed {
      var k :| k in s.calls && IsWinner(s.calls[k]);
      assert k in s'.calls && IsWinner(s'.calls[k]);
    } else {
      assert step.caller in s'.calls && IsWinner(s'.calls[step.caller]);
    }
    forall k | k in s'.calls && IsWinner(s'.calls[k]) ensures CoversOpen(s', s'.calls[k]) {
      assert k in s.calls ==> CoversOpen(s, s.calls[k]);
    }
  }

  lemma StepKeepsInvariant(s: State, step: Step, s': State)
    requires Invariant(s) && Next(s, step) == Some(s')
    ensures Invariant(s')
  {
    match step
    case Accept(_) => AcceptKeepsInvariant(s, step, s');
    case AcceptFails => AcceptKeepsInvariant(s, step, s');
    case CheckClosed => AcceptKeepsInvariant(s, step, s');
    case Refuse => AcceptKeepsInvariant(s, step, s');
    case StartHandler => AcceptKeepsInvariant(s, step, s');
    case HandlerCloses(_) => HandlerKeepsInvariant(s, step, s');
    case HandlerForgets(_) => HandlerKeepsInvariant(s, step, s');
    case _ => CloseKeepsInvariant(s, step, s');
  }

  lemma {:induction false} RunKeepsInvariant(s: State, steps: seq<Step>)
    requires Invariant(s)
    ensures Run(s, steps).Some? ==> Invariant(Run(s, steps).value)
    decreases |steps|
  {
    if steps != [] && Next(s, steps[0]).Some? {
      var s' := Next(s, steps[0]).value;
      StepKeepsInvariant(s, steps[0], s');
      RunKeepsInvariant(s', steps[1..]);
    }
  }

  lemma ReachableInvariant(steps: seq<Step>)
    requires Run(START, steps).Some?
    ensures Invariant(Run(START, steps).value)
  {
    RunKeepsInvariant(START, steps);
  }

  // ----- What a returned Close promises

  /** In every interleaving, the tracked set contains every open connection that has a
      handler, and no connection is tracked without one or about to get one. */
  lemma OpenHandlersAreTracked(steps: seq<Step>)
    requires Run(START, steps).Some?
    ensures var s := Run(START, steps).value;
            && (forall c :: c in s.open && c in s.handlers ==> c in s.conns)
            && (forall c :: c in s.conns ==> c in s.handlers || s.loop == Starting(c))
  {
    ReachableInvariant(steps);
  }

  /** Once the Close call that set the flag has returned, the only connection that can be
      open is the one the accept loop holds and has not checked; once the accept loop has
      returned too, none is. */
  lemma NothingOpenAfterClose(steps: seq<Step>, caller: Caller)
    requires Run(START, steps).Some?
    requires var s := Run(START, steps).value; caller in s.calls && s.calls[caller].Finished?
    ensures var s := Run(START, steps).value;
            && !s.listening
            && s.open <= Unchecked(s)
            && (s.loop.Returned? ==> s.open == {})
  {
    ReachableInvariant(steps);
    var s := Run(START, steps).value;
    assert IsWinner(s.calls[caller]) && CoversOpen(s, s.calls[caller]);
  }

  /** A Close call that found the flag set promises less: it can return while a connection
      is being served, because the first caller has not got that far. */
  lemma SecondCloseReturnsEarly() returns (steps: seq<Step>)
    ensures Run(START, steps).Some?
    ensures var s := Run(START, steps).value;
            && 2 in s.calls && s.calls[2].FoundClosed?
            && 7 in s.open && 7 in s.handlers && s.handlers[7].Serving? && s.loop.Accepting?
  {
    steps := [Accept(7), CheckClosed, StartHandler, CallClose(1), CallClose(2)];
    var s1 := Next(START, Accept(7)).value;
    var s2 := Next(s1, CheckClosed).value;
    var s3 := Next(s2, StartHandler).value;
    var s4 := Next(s3, CallClose(1)).value;
    var s5 := Next(s4, CallClose(2)).value;
    assert steps[1..] == [CheckClosed, StartHandler, CallClose(1), CallClose(2)];
    assert steps[1..][1..] == [StartHandler, CallClose(1), CallClose(2)];
    assert steps[1..][1..][1..] == [CallClose(1), CallClose(2)];
    assert steps[1..][1..][1..][1..] == [CallClose(2)];
    assert steps[1..][1..][1..][1..][1..] == [];
    assert Run(s5, []) == Some(s5);
    assert Run(s4, [CallClose(2)]) == Some(s5);
    assert Run(s3, [CallClose(1), CallClose(2)]) == Some(s5);
    assert Run(s2, [StartHandler, CallClose(1), CallClose(2)]) == Some(s5);
    assert Run(s1, [CheckClosed, StartHandler, CallClose(1), CallClose(2)]) == Some(s5);
  }

  /** A run after which a Close call stands as given. */
  ghost predicate EndsWithCall(steps: seq<Step>, caller: Caller, call: CloseCall) {
    Run(START, steps).Some? && var s := Run(START, steps).value; caller in s.calls && s.calls[caller] == call
  }

  ghost predicate EndsQuiet(steps: seq<Step>) {
    Run(START, steps).Some? && var s := Run(START, steps).value; !s.listening && s.open <= Unchecked(s)
  }

  /** What a returned Close call guarantees: in every run nothing but the unchecked connection is
      open, exactly when it was the call that set the flag. */
  lemma CloseGuaranteesIff(call: CloseCall)
    requires call.Finished? || call.FoundClosed?
    ensures (forall steps, caller :: EndsWithCall(steps, caller, call) ==> EndsQuiet(steps)) <==> call.Finished?
  {
    if call.Finished? {
      forall steps, caller | EndsWithCall(steps, caller, call) ensures EndsQuiet(steps) {
        NothingOpenAfterClose(steps, caller);
      }
    } else {
      var steps := SecondCloseReturnsEarly();
      assert EndsWithCall(steps, 2, call) && !EndsQuiet(steps);
    }
  }

  /** A Close call that found the flag set and the one that set it: nothing is open once
      both the setter and the accept loop are done, and until the setter is done it has
      every open connection still to close. */
  lemma OpenConnectionsAwaitTheSetter(steps: seq<Step>)
    requires Run(START, steps).Some? && Run(START, steps).value.closed
    ensures var s := Run(START, steps).value;
            exists k :: k in s.calls && IsWinner(s.calls[k]) && s.open - Unchecked(s) <= Pending(s.calls[k])
  {
    ReachableInvariant(steps);
    var s := Run(START, steps).value;
    var k :| k in s.calls && IsWinner(s.calls[k]);
    assert CoversOpen(s, s.calls[k]);
  }

  // ----- The server comes to rest

  function LoopWork(loop: AcceptLoop): nat {
    match loop
    case Accepting => 1
    case Holding(_) => 2
    case Refusing(_) => 1
    case Starting(_) => 4
    case Returned => 0
  }

  ghost function ServingConns(s: State): set<Conn> {
    set c | c in s.handlers && s.handlers[c].Serving?
  }

  /** A bound on the steps left to the accept loop and the handlers after Close. */
  ghost function Work(s: State): nat {
    LoopWork(s.loop) + |s.handlers.Keys| + |ServingConns(s)|
  }

  lemma LoopUsesUpWork(s: State, step: Step, s': State)
    requires Invariant(s) && s.closed && !s.listening && Next(s, step) == Some(s')
    requires step.Accept? || step.AcceptFails? || step.CheckClosed? || step.Refuse? || step.StartHandler?
    ensures Work(s') < Work(s)
  {
    if step.StartHandler? {
      StartingUsesUpWork(s, s');
    } else {
      assert s'.handlers == s.handlers;
    }
  }

  lemma StartingUsesUpWork(s: State, s': State)
    requires s.loop.Starting? && s'.handlers == s.handlers[s.loop.conn := Serving] && s'.loop.Accepting?
    ensures Work(s') < Work(s)
  {
    var conn := s.loop.conn;
    assert ServingConns(s') == ServingConns(s) + {conn};
    assert s'.handlers.Keys == s.handlers.Keys + {conn};
  }

  lemma ClosingUsesUpWork(s: State, c: Conn, s': State)
    requires c in s.handlers && s.handlers[c].Serving? && s'.loop == s.loop
    requires s'.handlers == s.handlers[c := ClosedConn]
    ensures Work(s') < Work(s)
  {
    assert ServingConns(s') == ServingConns(s) - {c};
    assert s'.handlers.Keys == s.handlers.Keys;
  }

  lemma ForgettingUsesUpWork(s: State, c: Conn, s': State)
    requires c in s.handlers && s.handlers[c].ClosedConn? && s'.loop == s.loop && s'.handlers == s.handlers - {c}
    ensures Work(s') < Work(s)
  {
    assert ServingConns(s') == ServingConns(s);
    assert s'.handlers.Keys == s.handlers.Keys - {c};
  }

  lemma HandlersUseUpWork(s: State, step: Step, s': State)
    requires Next(s, step) == Some(s')
    requires step.HandlerCloses? || step.HandlerForgets?
    ensures Work(s') < Work(s)
  {
    if step.HandlerCloses? {
      ClosingUsesUpWork(s, step.conn, s');
    } else {
      ForgettingUsesUpWork(s, step.conn, s');
    }
  }

  lemma OnlyTheWinnerCloses(s: State, step: Step, caller: Caller)
    requires Invariant(s) && caller in s.calls && s.calls[caller].Finished?
    requires step.CloseListener? || step.CloseConn? || step.CloseReturns?
    ensures Next(s, step).None?
  {
    var k := step.caller;
    if k in s.calls {
      assert IsWinner(s.calls[caller]);
      assert IsWinner(s.calls[k]) ==> k == caller;
    }
  }

  /** After Close has returned, no step but a further Close call is possible without using
      up some of the remaining work: nothing can be accepted any more. */
  lemma ServerWindsDown(s: State, step: Step, s': State, caller: Caller)
    requires Invariant(s) && caller in s.calls && s.calls[caller].Finished?
    requires Next(s, step) == Some(s')
    ensures if step.CallClose? then Work(s') == Work(s) else Work(s') < Work(s)
  {
    assert IsWinner(s.calls[caller]) && CoversOpen(s, s.calls[caller]);
    if step.CallClose? {
      assert ServingConns(s') == ServingConns(s);
    } else if step.HandlerCloses? || step.HandlerForgets? {
      HandlersUseUpWork(s, step, s');
    } else if step.CloseListener? || step.CloseConn? || step.CloseReturns? {
      OnlyTheWinnerCloses(s, step, caller);
    } else {
      LoopUsesUpWork(s, step, s');
    }
  }

  lemma HandlerCanStep(s: State, c: Conn) returns (step: Step)
    requires c in s.handlers
    ensures Next(s, step).Some? && !step.CallClose?
  {
    step := if s.handlers[c].Serving? then HandlerCloses(c) else HandlerForgets(c);
  }

  /** When no step but a Close call is left, the accept loop has returned, no connection is
      open and none is tracked. */
  lemma AtRestNothingIsLeft(s: State)
    requires Invariant(s)
    requires forall step :: Next(s, step).Some? ==> step.CallClose?
    ensures s.loop.Returned? && s.handlers == map[] && s.conns == {} && s.open == {}
  {
    assert Next(s, AcceptFails).None? && Next(s, CheckClosed).None? && Next(s, Refuse).None?
        && Next(s, StartHandler).None?;
    if c :| c in s.handlers {
      var step := HandlerCanStep(s, c);
    }
  }

  // ----- Every Close call returns

  /** The caller is between setting the flag and returning. */
  predicate IsUnderWay(s: State, caller: Caller) {
    caller in s.calls && (s.calls[caller].Snapshotted? || s.calls[caller].Closing?)
  }

  predicate IsStepOf(step: Step, caller: Caller) {
    (step.CloseListener? || step.CloseConn? || step.CloseReturns?) && step.caller == caller
  }

  /** A call under way can always go on. */
  lemma CallerCanStep(s: State, caller: Caller) returns (step: Step)
    requires IsUnderWay(s, caller)
    ensures IsStepOf(step, caller) && Next(s, step).Some?
  {
    if s.calls[caller].Snapshotted? {
      step := CloseListener(caller);
    } else if s.calls[caller].rest == {} {
      step := CloseReturns(caller);
    } else {
      var c :| c in s.calls[caller].rest;
      step := CloseConn(caller, c);
    }
  }

  /** What a caller can do next, no step of anyone else takes from it. */
  lemma OthersDoNotBlock(s: State, caller: Caller, step: Step, other: Step)
    requires IsStepOf(step, caller) && Next(s, step).Some?
    requires !IsStepOf(other, caller) && Next(s, other).Some?
    ensures Next(Next(s, other).value, step).Some?
  {
  }

  /** A call under way can finish in steps of its own, whatever everyone else does not do. */
  lemma {:induction false} CallCanFinish(s: State, caller: Caller) returns (steps: seq<Step>)
    requires IsUnderWay(s, caller)
    ensures forall i :: 0 <= i < |steps| ==> IsStepOf(steps[i], caller)
    ensures Run(s, steps).Some? && caller in Run(s, steps).value.calls && Run(s, steps).value.calls[caller].Finished?
    decreases s.calls[caller].Snapshotted?, |Pending(s.calls[caller])|
  {
    var step := CallerCanStep(s, caller);
    var s' := Next(s, step).value;
    if step.CloseReturns? {
      steps := [step];
      assert [step][1..] == [];
      assert Run(s', []) == Some(s');
    } else {
      var rest := CallCanFinish(s', caller);
      steps := [step] + rest;
      assert steps[1..] == rest;
    }
  }

  /** When no step but a further Close call is left, every call has returned. */
  lemma AtRestEveryCallIsOver(s: State)
    requires forall step :: Next(s, step).Some? ==> step.CallClose?
    ensures forall k :: k in s.calls ==> s.calls[k].Finished? || s.calls[k].FoundClosed?
  {
    forall k | k in s.calls ensures s.calls[k].Finished? || s.calls[k].FoundClosed? {
      if IsUnderWay(s, k) {
        var step := CallerCanStep(s, k);
      }
    }
  }
}
