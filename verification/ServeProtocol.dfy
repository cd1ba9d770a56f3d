/**
 Server.Serve, its acceptor and its handlers as one concurrent protocol
 (server.go:58-172). A step is one receive, send, close or WaitGroup operation;
 the environment decides what Accept and the handlers do, and in which order
 the goroutines run.
 */
module ServeProtocol {

  type Conn = nat

  /** Where the goroutine of Serve stands. */
  datatype ServePc =
    | Start | Spawn            // before and after join.Add(1) for the acceptor
    | Loop
    | Got(conn: Conn)          // received, before join.Add(1)
    | Added(conn: Conn)        // before go s.serve
    | Cancel | Wait | CloseListener | Returned  // the deferred calls

  /** Where the acceptor stands. */
  datatype AcceptorPc =
    | NotStarted | Accepting | Backoff
    | Holding(conn: Conn)      // in conns <- conn
    | Failing                  // has an error to report unless the context is done
    | Sending                  // in errs <- err
    | ClosingConns | ClosingErrs | Leaving | Exited

  /** Where the goroutine of a connection stands; join.Done comes before Recover, which reports a panic. */
  datatype HandlerPc =
    | Running
    | Closing(panicked: bool) | Finishing(panicked: bool) | Recovering(panicked: bool)
    | Gone

  datatype State = State(
    serve: ServePc, acceptor: AcceptorPc, handlers: map<Conn, HandlerPc>,
    count: int,                                    // the WaitGroup
    ctxDone: bool, listenerClosed: bool,
    doneNil: bool, connsNil: bool, errsNil: bool,  // the loop variables set to nil
    connsClosed: bool, errsClosed: bool,
    accepted: set<Conn>, closed: set<Conn>)

  const INIT := State(Start, NotStarted, map[], 0, false, false, false, false, false, false, false, {}, {})

  datatype ServeAct =
    | AddAcceptor | GoAcceptor | SeeDone | RecvErr | SeeErrsClosed | RecvConn | SeeConnsClosed
    | AddHandler | GoHandler | LeaveLoop | DoCancel | WaitEnds | DoCloseListener

  datatype AcceptorAct =
    | AcceptConn(c: Conn) | AcceptTemporary | BackoffElapses | BackoffCanceled
    | AcceptFails | AcceptEOF | FailQuietly | FailAloud | CloseConns | CloseErrs | AcceptorDone

  datatype HandlerAct = ClosesEarly | Returns | Panics | ConnClosed | JoinDone | Recovered

  datatype Action =
    | OfServe(s: ServeAct)
    | OfAcceptor(a: AcceptorAct)
    | OfHandler(c: Conn, h: HandlerAct)
    | ParentCanceled

  predicate InLoop(s: State) {
    s.serve == Loop && !(s.connsNil && s.errsNil)
  }

  predicate CanServe(s: State, a: ServeAct) {
    match a
    case AddAcceptor => s.serve == Start
    case GoAcceptor => s.serve == Spawn
    case SeeDone => InLoop(s) && !s.doneNil && s.ctxDone
    case RecvErr => InLoop(s) && !s.errsNil && s.acceptor == Sending
    case SeeErrsClosed => InLoop(s) && !s.errsNil && s.errsClosed
    case RecvConn => InLoop(s) && !s.connsNil && s.acceptor.Holding?
    case SeeConnsClosed => InLoop(s) && !s.connsNil && s.connsClosed
    case AddHandler => s.serve.Got?
    case GoHandler => s.serve.Added?
    case LeaveLoop => s.serve == Loop && s.connsNil && s.errsNil
    case DoCancel => s.serve == Cancel
    case WaitEnds => s.serve == Wait && s.count == 0
    case DoCloseListener => s.serve == CloseListener
  }

  function DoServe(s: State, a: ServeAct): State
    requires CanServe(s, a)
  {
    match a
    case AddAcceptor => s.(serve := Spawn, count := s.count + 1)
    case GoAcceptor => s.(serve := Loop, acceptor := Accepting)
    case SeeDone => s.(listenerClosed := true, doneNil := true)
    case RecvErr => s.(serve := Cancel, acceptor := ClosingConns)
    case SeeErrsClosed => s.(errsNil := true)
    case RecvConn => s.(serve := Got(s.acceptor.conn), acceptor := Accepting)
    case SeeConnsClosed => s.(connsNil := true)
    case AddHandler => s.(serve := Added(s.serve.conn), count := s.count + 1)
    case GoHandler => s.(serve := Loop, handlers := s.handlers[s.serve.conn := Running])
    case LeaveLoop => s.(serve := Cancel)
    case DoCancel => s.(serve := Wait, ctxDone := true)
    case WaitEnds => s.(serve := CloseListener)
    case DoCloseListener => s.(serve := Returned, listenerClosed := true)
  }

  predicate CanAcceptor(s: State, a: AcceptorAct) {
    match a
    case AcceptConn(c) => s.acceptor == Accepting && c !in s.accepted
    case AcceptTemporary => s.acceptor == Accepting
    case BackoffElapses => s.acceptor == Backoff
    case BackoffCanceled => s.acceptor == Backoff && s.ctxDone
    case AcceptFails => s.acceptor == Accepting
    case AcceptEOF => s.acceptor == Accepting
    case FailQuietly => s.acceptor == Failing && s.ctxDone
    case FailAloud => s.acceptor == Failing && !s.ctxDone
    case CloseConns => s.acceptor == ClosingConns
    case CloseErrs => s.acceptor == ClosingErrs
    case AcceptorDone => s.acceptor == Leaving
  }

  function DoAcceptor(s: State, a: AcceptorAct): State
    requires CanAcceptor(s, a)
  {
    match a
    case AcceptConn(c) => s.(acceptor := Holding(c), accepted := s.accepted + {c})
    case AcceptTemporary => s.(acceptor := Backoff)
    case BackoffElapses => s.(acceptor := Accepting)
    case BackoffCanceled => s.(acceptor := ClosingConns)
    case AcceptFails => s.(acceptor := Failing)
    case AcceptEOF => s.(acceptor := ClosingConns)
    case FailQuietly => s.(acceptor := ClosingConns)
    case FailAloud => s.(acceptor := Sending)
    case CloseConns => s.(acceptor := ClosingErrs, connsClosed := true)
    case CloseErrs => s.(acceptor := Leaving, errsClosed := true)
    case AcceptorDone => s.(acceptor := Exited, count := s.count - 1)
  }

  predicate CanHandler(s: State, c: Conn, a: HandlerAct) {
    c in s.handlers &&
    match a
    case ClosesEarly => s.handlers[c] == Running && c !in s.closed
    case Returns => s.handlers[c] == Running
    case Panics => s.handlers[c] == Running
    case ConnClosed => s.handlers[c].Closing?
    case JoinDone => s.handlers[c].Finishing?
    case Recovered => s.handlers[c].Recovering?
  }

  function DoHandler(s: State, c: Conn, a: HandlerAct): State
    requires CanHandler(s, c, a)
  {
    match a
    case ClosesEarly => s.(closed := s.closed + {c})
    case Returns => s.(handlers := s.handlers[c := Closing(false)])
    case Panics => s.(handlers := s.handlers[c := Closing(true)])
    case ConnClosed => s.(handlers := s.handlers[c := Finishing(s.handlers[c].panicked)], closed := s.closed + {c})
    case JoinDone => s.(handlers := s.handlers[c := Recovering(s.handlers[c].panicked)], count := s.count - 1)
    case Recovered => s.(handlers := s.handlers[c := Gone])
  }

  predicate Can(s: State, a: Action) {
    match a
    case OfServe(x) => CanServe(s, x)
    case OfAcceptor(x) => CanAcceptor(s, x)
    case OfHandler(c, x) => CanHandler(s, c, x)
    case ParentCanceled => !s.ctxDone
  }

  function Do(s: State, a: Action): State
    requires Can(s, a)
  {
    match a
    case OfServe(x) => DoServe(s, x)
    case OfAcceptor(x) => DoAcceptor(s, x)
    case OfHandler(c, x) => DoHandler(s, c, x)
    case ParentCanceled => s.(ctxDone := true)
  }

  // ----- runs -----

  /** A finite run: the actions in the order in which they happen. */
  predicate CanRun(s: State, run: seq<Action>)
    decreases run
  {
    run == [] || (Can(s, run[0]) && CanRun(Do(s, run[0]), run[1..]))
  }

  function Run(s: State, run: seq<Action>): State
    requires CanRun(s, run)
    decreases run
  {
    if run == [] then s else Run(Do(s, run[0]), run[1..])
  }

  // ----- the invariant -----

  predicate PastLoop(s: State) {
    s.serve == Cancel || s.serve == Wait || s.serve == CloseListener || s.serve == Returned
  }

  predicate AcceptorAlive(s: State) {
    s.acceptor != NotStarted && s.acceptor != Exited
  }

  predicate AcceptorEnding(s: State) {
    s.acceptor == ClosingConns || s.acceptor == ClosingErrs || s.acceptor == Leaving || s.acceptor == Exited
  }

  /** The steps that a handler has still to take. */
  function Ahead(pc: HandlerPc): nat {
    match pc
    case Running => 4
    case Closing(_) => 3
    case Finishing(_) => 2
    case Recovering(_) => 1
    case Gone => 0
  }

  function AtLeast(h: map<Conn, HandlerPc>, k: nat): set<Conn> {
    set c | c in h && Ahead(h[c]) >= k
  }

  /** The handlers that have not called join.Done yet. */
  function Live(h: map<Conn, HandlerPc>): set<Conn> {
    AtLeast(h, 2)
  }

  predicate ServeHolds(s: State) {
    s.serve.Got? || s.serve.Added?
  }

  predicate AcceptorHas(s: State, c: Conn) {
    s.acceptor.Holding? && s.acceptor.conn == c
  }

  predicate ServeHas(s: State, c: Conn) {
    ServeHolds(s) && s.serve.conn == c
  }

  /** Every accepted connection is in exactly one pair of hands: the acceptor's, Serve's or a handler's. */
  predicate Owned(s: State) {
    && (forall c :: c in s.accepted ==> AcceptorHas(s, c) || ServeHas(s, c) || c in s.handlers)
    && s.handlers.Keys <= s.accepted
    && (s.acceptor.Holding? ==>
         s.acceptor.conn in s.accepted && s.acceptor.conn !in s.handlers && !ServeHas(s, s.acceptor.conn))
    && (ServeHolds(s) ==> s.serve.conn in s.accepted && s.serve.conn !in s.handlers)
  }

  /** The goroutines that the WaitGroup has to wait for, started or about to be started. */
  function Goroutines(s: State): nat {
    (if AcceptorAlive(s) then 1 else 0) + |Live(s.handlers)| + (if s.serve == Spawn || s.serve.Added? then 1 else 0)
  }

  predicate Closings(s: State) {
    && s.closed <= s.handlers.Keys
    && (forall c :: c in s.handlers && Ahead(s.handlers[c]) <= 2 ==> c in s.closed)
  }

  predicate Channels(s: State) {
    && (s.connsClosed <==> s.acceptor == ClosingErrs || s.errsClosed)
    && (s.errsClosed <==> s.acceptor == Leaving || s.acceptor == Exited)
    && (s.connsNil ==> s.connsClosed) && (s.errsNil ==> s.errsClosed)
    && (s.serve == Start || s.serve == Spawn <==> s.acceptor == NotStarted)
    && (PastLoop(s) ==> AcceptorEnding(s))
  }

  predicate Ordered(s: State) {
    && (s.serve == Wait || s.serve == CloseListener || s.serve == Returned ==> s.ctxDone)
    && (s.serve == CloseListener || s.serve == Returned ==> s.count == 0)
    && (s.serve == Returned || s.doneNil ==> s.listenerClosed)
  }

  predicate Inv(s: State) {
    Owned(s) && s.count == Goroutines(s) && Closings(s) && Channels(s) && Ordered(s)
  }

  lemma MoveHandler(h: map<Conn, HandlerPc>, c: Conn, pc: HandlerPc, k: nat)
    ensures var (was, now) := (c in AtLeast(h, k), Ahead(pc) >= k);
            |AtLeast(h[c := pc], k)| == |AtLeast(h, k)| + (if now && !was then 1 else if was && !now then -1 else 0)
  {
    if Ahead(pc) >= k {
      assert AtLeast(h[c := pc], k) == AtLeast(h, k) + {c};
    } else {
      assert AtLeast(h[c := pc], k) == AtLeast(h, k) - {c};
    }
  }

  /** The actions of Serve that start a goroutine. */
  predicate Starts(a: ServeAct) {
    a == AddAcceptor || a == GoAcceptor || a == AddHandler || a == GoHandler
  }

  /** The cases of its select. */
  predicate Selects(a: ServeAct) {
    a == SeeDone || a == RecvErr || a == SeeErrsClosed || a == RecvConn || a == SeeConnsClosed
  }

  lemma StartKeepsInv(s: State, a: ServeAct)
    requires Inv(s) && CanServe(s, a) && Starts(a)
    ensures Inv(DoServe(s, a))
  {
    if a == GoHandler {
      assert DoServe(s, a).handlers.Keys == s.handlers.Keys + {s.serve.conn};
      MoveHandler(s.handlers, s.serve.conn, Running, 2);
    }
  }

  lemma SelectKeepsInv(s: State, a: ServeAct)
    requires Inv(s) && CanServe(s, a) && Selects(a)
    ensures Inv(DoServe(s, a))
  {
  }

  lemma EndKeepsInv(s: State, a: ServeAct)
    requires Inv(s) && CanServe(s, a) && !Starts(a) && !Selects(a)
    ensures Inv(DoServe(s, a))
  {
  }

  lemma AcceptorKeepsOwned(s: State, a: AcceptorAct)
    requires Inv(s) && CanAcceptor(s, a)
    ensures Owned(DoAcceptor(s, a)) && Closings(DoAcceptor(s, a))
  {
  }

  lemma AcceptorKeepsInv(s: State, a: AcceptorAct)
    requires Inv(s) && CanAcceptor(s, a)
    ensures Inv(DoAcceptor(s, a))
  {
    AcceptorKeepsOwned(s, a);
    assert Channels(DoAcceptor(s, a));
  }

  lemma HandlerKeepsInv(s: State, c: Conn, a: HandlerAct)
    requires Inv(s) && CanHandler(s, c, a)
    ensures Inv(DoHandler(s, c, a))
  {
    assert DoHandler(s, c, a).handlers.Keys == s.handlers.Keys;
    MoveHandler(s.handlers, c, DoHandler(s, c, a).handlers[c], 2);
    if a == JoinDone {
      assert c in Live(s.handlers);
    }
  }

  lemma InvKept(s: State, a: Action)
    requires Inv(s) && Can(s, a)
    ensures Inv(Do(s, a))
  {
    match a
    case OfServe(x) =>
      if Starts(x) {
        StartKeepsInv(s, x);
      } else if Selects(x) {
        SelectKeepsInv(s, x);
      } else {
        EndKeepsInv(s, x);
      }
    case OfAcceptor(x) => AcceptorKeepsInv(s, x);
    case OfHandler(c, x) => HandlerKeepsInv(s, c, x);
    case ParentCanceled =>
  }

  lemma {:induction false} InvAlways(s: State, run: seq<Action>)
    requires Inv(s) && CanRun(s, run)
    ensures Inv(Run(s, run))
    decreases run
  {
    if run != [] {
      InvKept(s, run[0]);
      InvAlways(Do(s, run[0]), run[1..]);
    }
  }

  // ----- what follows from it -----

  /**
   In every run, at every moment: the WaitGroup counts the goroutines it waits
   for; an acceptor that is sending finds Serve in its loop or on its way back to
   it, never past it; and once Serve has returned the listener is closed, the
   context is done, every accepted connection has got a handler and has been
   closed, the acceptor is gone, and no handler is before its join.Done.
   */
  lemma ServeIsSafe(run: seq<Action>)
    requires CanRun(INIT, run)
    ensures var s := Run(INIT, run);
            && s.count == Goroutines(s)
            && (s.acceptor.Holding? || s.acceptor == Sending ==> s.serve == Loop || ServeHolds(s))
            && (s.acceptor.Holding? && s.serve == Loop ==> CanServe(s, RecvConn))
            && (s.acceptor == Sending && s.serve == Loop ==> CanServe(s, RecvErr))
            && (s.serve == Returned ==>
                 && s.listenerClosed && s.ctxDone && s.acceptor == Exited
                 && s.accepted == s.handlers.Keys == s.closed
                 && forall c :: c in s.handlers ==> s.handlers[c].Recovering? || s.handlers[c] == Gone)
  {
    InvAlways(INIT, run);
    Consequences(Run(INIT, run));
  }

  lemma Consequences(s: State)
    requires Inv(s)
    ensures s.acceptor.Holding? || s.acceptor == Sending ==> s.serve == Loop || ServeHolds(s)
    ensures s.acceptor.Holding? && s.serve == Loop ==> CanServe(s, RecvConn)
    ensures s.acceptor == Sending && s.serve == Loop ==> CanServe(s, RecvErr)
    ensures s.serve == Returned ==>
              && s.listenerClosed && s.ctxDone && s.acceptor == Exited
              && s.accepted == s.handlers.Keys == s.closed
              && forall c :: c in s.handlers ==> s.handlers[c].Recovering? || s.handlers[c] == Gone
  {
    if s.serve == Returned {
      assert |Live(s.handlers)| == 0;
      forall c | c in s.handlers ensures Ahead(s.handlers[c]) <= 1 {
        assert c !in Live(s.handlers);
      }
    }
  }

  lemma {:induction false} RunFurther(s: State, run: seq<Action>, a: Action)
    requires CanRun(s, run) && Can(Run(s, run), a)
    ensures CanRun(s, run + [a]) && Run(s, run + [a]) == Do(Run(s, run), a)
    decreases run
  {
    if run == [] {
      assert (run + [a])[1..] == [];
    } else {
      assert (run + [a])[1..] == run[1..] + [a];
      RunFurther(Do(s, run[0]), run[1..], a);
    }
  }

  lemma Go(run0: seq<Action>, a: Action) returns (run: seq<Action>)
    requires CanRun(INIT, run0) && Can(Run(INIT, run0), a)
    ensures CanRun(INIT, run) && Run(INIT, run) == Do(Run(INIT, run0), a)
    ensures Panicking(run) == Panicking(run0) + if a.OfHandler? && a.h == Panics then {a.c} else {}
  {
    RunFurther(INIT, run0, a);
    run := run0 + [a];
  }

  /** One connection is accepted and gets its handler. */
  lemma OneHandler(c: Conn) returns (run: seq<Action>)
    ensures CanRun(INIT, run) && Panicking(run) == {}
    ensures Run(INIT, run)
         == INIT.(serve := Loop, acceptor := Accepting, count := 2, accepted := {c}, handlers := map[c := Running])
  {
    run := [];
    run := Go(run, OfServe(AddAcceptor));
    run := Go(run, OfServe(GoAcceptor));
    run := Go(run, OfAcceptor(AcceptConn(c)));
    run := Go(run, OfServe(RecvConn));
    run := Go(run, OfServe(AddHandler));
    run := Go(run, OfServe(GoHandler));
  }

  /** Its handler panics or returns, closes it and calls join.Done. */
  lemma OneHandlerEnds(c: Conn, panics: bool) returns (run: seq<Action>)
    ensures CanRun(INIT, run) && Panicking(run) == if panics then {c} else {}
    ensures Run(INIT, run)
         == INIT.(serve := Loop, acceptor := Accepting, count := 1,
                  accepted := {c}, closed := {c}, handlers := map[c := Recovering(panics)])
  {
    run := OneHandler(c);
    run := Go(run, OfHandler(c, if panics then Panics else Returns));
    run := Go(run, OfHandler(c, ConnClosed));
    run := Go(run, OfHandler(c, JoinDone));
    var p := panics;
    assert map[c := Running][c := Closing(p)][c := Finishing(p)][c := Recovering(p)] == map[c := Recovering(p)];
  }

  /** The acceptor ends. */
  lemma OneHandlerDone(c: Conn, panics: bool) returns (run: seq<Action>)
    ensures CanRun(INIT, run) && Panicking(run) == if panics then {c} else {}
    ensures Run(INIT, run)
         == INIT.(serve := Loop, acceptor := Exited, connsClosed := true, errsClosed := true,
                  accepted := {c}, closed := {c}, handlers := map[c := Recovering(panics)])
  {
    run := OneHandlerEnds(c, panics);
    run := Go(run, OfAcceptor(AcceptEOF));
    run := Go(run, OfAcceptor(CloseConns));
    run := Go(run, OfAcceptor(CloseErrs));
    run := Go(run, OfAcceptor(AcceptorDone));
  }

  /** And then Serve returns, while the goroutine is still on its way out. */
  lemma OneHandlerLeft(c: Conn, panics: bool) returns (run: seq<Action>)
    ensures CanRun(INIT, run) && Panicking(run) == if panics then {c} else {}
    ensures var s := Run(INIT, run);
            s.serve == Returned && s.accepted == {c} && s.handlers == map[c := Recovering(panics)]
  {
    run := OneHandlerDone(c, panics);
    run := Go(run, OfServe(SeeConnsClosed));
    run := Go(run, OfServe(SeeErrsClosed));
    run := Go(run, OfServe(LeaveLoop));
    run := Go(run, OfServe(DoCancel));
    run := Go(run, OfServe(WaitEnds));
    run := Go(run, OfServe(DoCloseListener));
  }

  /** The connections whose handlers panic in a run. */
  function Panicking(run: seq<Action>): set<Conn> {
    set a | a in run && a.OfHandler? && a.h == Panics :: a.c
  }

  /** The handlers that have panicked, and have not finished reporting it. */
  function Unreported(h: map<Conn, HandlerPc>): set<Conn> {
    set c | c in h && h[c] != Running && h[c] != Gone && h[c].panicked
  }

  lemma UnreportedStep(s: State, a: Action)
    requires Can(s, a)
    ensures Unreported(Do(s, a).handlers) <= Unreported(s.handlers) + Panicking([a])
  {
    match a
    case OfServe(x) => UnreportedByServe(s, x);
    case OfAcceptor(x) => UnreportedByAcceptor(s, x);
    case OfHandler(c, x) => UnreportedByHandler(s, c, x);
    case ParentCanceled =>
  }

  lemma UnreportedByServe(s: State, a: ServeAct)
    requires CanServe(s, a)
    ensures Unreported(DoServe(s, a).handlers) <= Unreported(s.handlers)
  {
    if Starts(a) {
      StartUnreported(s, a);
    } else if Selects(a) {
      SelectUnreported(s, a);
    } else {
      EndUnreported(s, a);
    }
  }

  lemma StartUnreported(s: State, a: ServeAct)
    requires CanServe(s, a) && Starts(a)
    ensures Unreported(DoServe(s, a).handlers) <= Unreported(s.handlers)
  {
    if a == GoHandler {
      StartedUnreported(s.handlers, s.serve.conn);
    }
  }

  lemma SelectUnreported(s: State, a: ServeAct)
    requires CanServe(s, a) && Selects(a)
    ensures Unreported(DoServe(s, a).handlers) == Unreported(s.handlers)
  {
    match a
    case SeeDone =>
    case RecvErr =>
    case SeeErrsClosed =>
    case RecvConn =>
    case _ =>
  }

  lemma EndUnreported(s: State, a: ServeAct)
    requires CanServe(s, a) && !Starts(a) && !Selects(a)
    ensures Unreported(DoServe(s, a).handlers) == Unreported(s.handlers)
  {
    match a
    case LeaveLoop =>
    case DoCancel =>
    case WaitEnds =>
    case _ =>
  }

  lemma StartedUnreported(h: map<Conn, HandlerPc>, c: Conn)
    ensures Unreported(h[c := Running]) <= Unreported(h)
  {
  }

  lemma UnreportedByAcceptor(s: State, a: AcceptorAct)
    requires CanAcceptor(s, a)
    ensures Unreported(DoAcceptor(s, a).handlers) == Unreported(s.handlers)
  {
    assert DoAcceptor(s, a).handlers == s.handlers;
  }

  lemma UnreportedByHandler(s: State, c: Conn, a: HandlerAct)
    requires CanHandler(s, c, a)
    ensures Unreported(DoHandler(s, c, a).handlers) <= Unreported(s.handlers) + if a == Panics then {c} else {}
    ensures Panicking([OfHandler(c, a)]) == if a == Panics then {c} else {}
  {
    assert OfHandler(c, a) in [OfHandler(c, a)];
  }

  /** In every run, what is left to report are panics of that run. */
  lemma {:induction false} UnreportedPanicked(s: State, run: seq<Action>)
    requires Inv(s) && CanRun(s, run)
    ensures Unreported(Run(s, run).handlers) <= Unreported(s.handlers) + Panicking(run)
    decreases run
  {
    if run != [] {
      InvKept(s, run[0]);
      UnreportedStep(s, run[0]);
      UnreportedPanicked(Do(s, run[0]), run[1..]);
      assert run == [run[0]] + run[1..];
      assert Panicking(run) == Panicking([run[0]]) + Panicking(run[1..]);
    }
  }

  /** A run after which a panic is still to be reported, although Serve has returned. */
  predicate ReportOutlives(run: seq<Action>) {
    CanRun(INIT, run) && Run(INIT, run).serve == Returned && Unreported(Run(INIT, run).handlers) != {}
  }

  /** A run after which the goroutine of a handler is still there, although Serve has returned. */
  predicate GoroutineOutlives(run: seq<Action>) {
    CanRun(INIT, run) && Run(INIT, run).serve == Returned
    && exists c :: c in Run(INIT, run).handlers && Run(INIT, run).handlers[c] != Gone
  }

  /**
   Recover may still be reporting a panic when Serve has returned, because
   join.Done runs before it, exactly if some handler may panic.
   */
  lemma RecoverMayOutliveServe(P: set<Conn>)
    ensures (exists run :: ReportOutlives(run) && Panicking(run) <= P) <==> P != {}
  {
    if P != {} {
      var c :| c in P;
      var run := OneHandlerLeft(c, true);
      assert c in Unreported(Run(INIT, run).handlers);
      assert ReportOutlives(run) && Panicking(run) <= P;
    }
    forall run | ReportOutlives(run) ensures Panicking(run) != {} {
      UnreportedPanicked(INIT, run);
    }
  }

  /** The goroutine of a handler may still be there exactly if a connection may be accepted. */
  lemma GoroutineMayOutliveServe(A: set<Conn>)
    ensures (exists run :: GoroutineOutlives(run) && Run(INIT, run).accepted <= A) <==> A != {}
  {
    if A != {} {
      var c :| c in A;
      var run := OneHandlerLeft(c, false);
      assert c in Run(INIT, run).handlers;
      assert GoroutineOutlives(run) && Run(INIT, run).accepted <= A;
    }
    forall run | GoroutineOutlives(run) ensures Run(INIT, run).accepted != {} {
      ServeIsSafe(run);
    }
  }

  // ----- why the acceptor stops -----

  predicate Stopped(pc: AcceptorPc) {
    pc != NotStarted && pc != Accepting && pc != Backoff && !pc.Holding?
  }

  /** What makes it stop: an error that is not temporary, the end of the listener, or a canceled wait. */
  predicate Stops(a: Action) {
    a == OfAcceptor(AcceptFails) || a == OfAcceptor(AcceptEOF) || a == OfAcceptor(BackoffCanceled)
  }

  lemma AcceptorStoppedStep(s: State, a: AcceptorAct)
    requires CanAcceptor(s, a)
    ensures Stopped(DoAcceptor(s, a).acceptor) <==> Stopped(s.acceptor) || Stops(OfAcceptor(a))
  {
    match a
    case AcceptConn(_) =>
    case AcceptTemporary =>
    case BackoffElapses =>
    case BackoffCanceled =>
    case AcceptFails =>
    case AcceptEOF =>
    case _ => StoppedGoesOn(s, a);
  }

  lemma StoppedGoesOn(s: State, a: AcceptorAct)
    requires CanAcceptor(s, a)
    requires a in {FailQuietly, FailAloud, CloseConns, CloseErrs, AcceptorDone}
    ensures Stopped(s.acceptor) && Stopped(DoAcceptor(s, a).acceptor)
  {
  }

  lemma ServeStoppedStep(s: State, a: ServeAct)
    requires Channels(s) && CanServe(s, a)
    ensures Stopped(DoServe(s, a).acceptor) <==> Stopped(s.acceptor)
  {
    if a == RecvErr || a == RecvConn || a == GoAcceptor {
    } else {
      KeepsAcceptor(s, a);
    }
  }

  lemma KeepsAcceptor(s: State, a: ServeAct)
    requires CanServe(s, a) && a != RecvErr && a != RecvConn && a != GoAcceptor
    ensures DoServe(s, a).acceptor == s.acceptor
  {
    match a
    case AddAcceptor =>
    case SeeDone =>
    case SeeErrsClosed =>
    case SeeConnsClosed =>
    case AddHandler =>
    case GoHandler =>
    case LeaveLoop =>
    case DoCancel =>
    case WaitEnds =>
    case DoCloseListener =>
  }

  lemma StoppedStep(s: State, a: Action)
    requires Channels(s) && Can(s, a)
    ensures Stopped(Do(s, a).acceptor) <==> Stopped(s.acceptor) || Stops(a)
  {
    match a
    case OfServe(x) => ServeStoppedStep(s, x);
    case OfAcceptor(x) => AcceptorStoppedStep(s, x);
    case OfHandler(c, x) => assert DoHandler(s, c, x).acceptor == s.acceptor;
    case ParentCanceled =>
  }

  lemma {:induction false} StoppedForCause(s: State, run: seq<Action>)
    requires Inv(s) && CanRun(s, run)
    ensures Stopped(Run(s, run).acceptor) <==> Stopped(s.acceptor) || exists a :: a in run && Stops(a)
    decreases run
  {
    if run != [] {
      InvKept(s, run[0]);
      StoppedStep(s, run[0]);
      StoppedForCause(Do(s, run[0]), run[1..]);
      assert run == [run[0]] + run[1..];
    }
  }

  /** In every run the acceptor goes on exactly as long as there is no such cause; a temporary error is none. */
  lemma AcceptorStopsForCause(run: seq<Action>)
    requires CanRun(INIT, run)
    ensures Stopped(Run(INIT, run).acceptor)
       <==> || OfAcceptor(AcceptFails) in run || OfAcceptor(AcceptEOF) in run || OfAcceptor(BackoffCanceled) in run
  {
    StoppedForCause(INIT, run);
    assert forall a :: a in run && Stops(a) ==>
      a == OfAcceptor(AcceptFails) || a == OfAcceptor(AcceptEOF) || a == OfAcceptor(BackoffCanceled);
  }

  // ----- what cancellation does -----

  /** The context was canceled by its parent, or by Serve on its way out. */
  predicate Canceled(run: seq<Action>) {
    ParentCanceled in run || OfServe(DoCancel) in run
  }

  lemma CancelStep(s: State, a: Action)
    requires Can(s, a)
    ensures Do(s, a).ctxDone <==> s.ctxDone || Canceled([a])
  {
    match a
    case OfServe(x) => ServeCancelStep(s, x);
    case OfAcceptor(x) => AcceptorCancelStep(s, x);
    case OfHandler(c, x) => assert DoHandler(s, c, x).ctxDone == s.ctxDone;
    case ParentCanceled => assert a in [a];
  }

  lemma ServeCancelStep(s: State, a: ServeAct)
    requires CanServe(s, a)
    ensures DoServe(s, a).ctxDone <==> s.ctxDone || a == DoCancel
    ensures Canceled([OfServe(a)]) <==> a == DoCancel
  {
    assert OfServe(a) in [OfServe(a)];
    match a
    case AddAcceptor =>
    case GoAcceptor =>
    case SeeDone =>
    case RecvErr =>
    case SeeErrsClosed =>
    case RecvConn =>
    case SeeConnsClosed =>
    case _ =>
  }

  lemma AcceptorCancelStep(s: State, a: AcceptorAct)
    requires CanAcceptor(s, a)
    ensures DoAcceptor(s, a).ctxDone == s.ctxDone
  {
    match a
    case AcceptConn(_) =>
    case AcceptTemporary =>
    case BackoffElapses =>
    case BackoffCanceled =>
    case AcceptFails =>
    case AcceptEOF =>
    case FailQuietly =>
    case FailAloud =>
    case CloseConns =>
    case CloseErrs =>
    case AcceptorDone =>
  }

  lemma {:induction false} DoneForCause(s: State, run: seq<Action>)
    requires CanRun(s, run)
    ensures Run(s, run).ctxDone <==> s.ctxDone || Canceled(run)
    decreases run
  {
    if run != [] {
      CancelStep(s, run[0]);
      DoneForCause(Do(s, run[0]), run[1..]);
      assert run == [run[0]] + run[1..];
      assert Canceled(run) <==> Canceled([run[0]]) || Canceled(run[1..]);
    }
  }

  /**
   Only after a cancellation does Serve close the listener early, or the acceptor
   give up a wait or keep an error to itself; and no error is reported after one.
   */
  lemma CancelIsObserved(run: seq<Action>, a: Action)
    requires CanRun(INIT, run) && Can(Run(INIT, run), a)
    ensures a in {OfServe(SeeDone), OfAcceptor(BackoffCanceled), OfAcceptor(FailQuietly)} ==> Canceled(run)
    ensures a == OfAcceptor(FailAloud) ==> !Canceled(run)
  {
    DoneForCause(INIT, run);
  }

  // ----- progress -----

  /** Shutdown has begun: the listener was closed, or Serve has left its loop. */
  predicate Ending(s: State) {
    s.listenerClosed || PastLoop(s)
  }

  /** What Accept does on a closed listener: it fails, and not temporarily. */
  predicate ListenerBehaves(s: State, a: Action) {
    s.listenerClosed && a.OfAcceptor? ==> !a.a.AcceptConn? && a.a != AcceptTemporary
  }

  /** No state is stuck before Serve has returned. */
  lemma NeverStuck(s: State) returns (a: Action)
    requires Inv(s) && s.serve != Returned
    ensures Can(s, a) && ListenerBehaves(s, a)
  {
    if s.serve == Loop && !s.acceptor.Exited? {
      match s.acceptor
      case Accepting => a := OfAcceptor(AcceptEOF);
      case Backoff => a := OfAcceptor(BackoffElapses);
      case Holding(_) => a := OfServe(RecvConn);
      case Failing => a := OfAcceptor(if s.ctxDone then FailQuietly else FailAloud);
      case Sending => a := OfServe(RecvErr);
      case _ => a := EndAcceptor(s);
    } else {
      match s.serve
      case Start => a := OfServe(AddAcceptor);
      case Spawn => a := OfServe(GoAcceptor);
      case Loop =>
        a := OfServe(if !s.connsNil then SeeConnsClosed else if !s.errsNil then SeeErrsClosed else LeaveLoop);
      case Got(_) => a := OfServe(AddHandler);
      case Added(_) => a := OfServe(GoHandler);
      case Cancel => a := OfServe(DoCancel);
      case CloseListener => a := OfServe(DoCloseListener);
      case Wait =>
        if s.count == 0 {
          a := OfServe(WaitEnds);
        } else if AcceptorAlive(s) {
          a := EndAcceptor(s);
        } else {
          assert |Live(s.handlers)| > 0;
          var c :| c in Live(s.handlers);
          var pc := s.handlers[c];
          a := OfHandler(c, if pc == Running then Returns else if pc.Closing? then ConnClosed else JoinDone);
        }
    }
  }

  lemma EndAcceptor(s: State) returns (a: Action)
    requires AcceptorEnding(s) && s.acceptor != Exited
    ensures Can(s, a) && ListenerBehaves(s, a)
  {
    var pc := s.acceptor;
    a := OfAcceptor(if pc == ClosingConns then CloseConns else if pc == ClosingErrs then CloseErrs else AcceptorDone);
  }

  /** A connection that Serve has received is worth the steps of its handler. */
  function ServeLeft(pc: ServePc): nat {
    match pc
    case Start => 6
    case Spawn => 5
    case Loop => 4
    case Got(_) => 10
    case Added(_) => 9
    case Cancel => 3
    case Wait => 2
    case CloseListener => 1
    case Returned => 0
  }

  function AcceptorLeft(pc: AcceptorPc): nat {
    match pc
    case NotStarted => 6
    case Accepting => 6
    case Backoff => 7
    case Holding(_) => 13
    case Failing => 5
    case Sending => 4
    case ClosingConns => 3
    case ClosingErrs => 2
    case Leaving => 1
    case Exited => 0
  }

  /** The receives from closed channels, and the cancellation, that are still to come. */
  function FlagsLeft(s: State): nat {
    (if s.doneNil then 0 else 1) + (if s.connsNil then 0 else 1) + (if s.errsNil then 0 else 1)
    + (if s.ctxDone then 0 else 1)
  }

  /** The steps left outside of the handlers. */
  function ControlLeft(s: State): nat {
    ServeLeft(s.serve) + AcceptorLeft(s.acceptor) + FlagsLeft(s)
  }

  /** The steps that all handlers have still to take. */
  function HandlersLeft(h: map<Conn, HandlerPc>): nat {
    |AtLeast(h, 1)| + |AtLeast(h, 2)| + |AtLeast(h, 3)| + |AtLeast(h, 4)|
  }

  /** A bound on the steps that can still be taken once shutdown has begun. */
  function StepsLeft(s: State): nat {
    ControlLeft(s) + HandlersLeft(s.handlers) + |s.accepted - s.closed|
  }

  lemma HandlerStep(h: map<Conn, HandlerPc>, c: Conn, pc: HandlerPc)
    requires c in h && Ahead(pc) + 1 == Ahead(h[c])
    ensures HandlersLeft(h[c := pc]) == HandlersLeft(h) - 1
  {
    MoveHandler(h, c, pc, 1);
    MoveHandler(h, c, pc, 2);
    MoveHandler(h, c, pc, 3);
    MoveHandler(h, c, pc, 4);
  }

  lemma ClosedStep(accepted: set<Conn>, closed: set<Conn>, c: Conn)
    ensures |accepted - (closed + {c})| <= |accepted - closed|
    ensures c in accepted && c !in closed ==> |accepted - (closed + {c})| == |accepted - closed| - 1
  {
    if c in accepted && c !in closed {
      assert accepted - (closed + {c}) == (accepted - closed) - {c};
    } else {
      assert accepted - (closed + {c}) == accepted - closed;
    }
  }

  lemma HandlerDecreases(s: State, c: Conn, a: HandlerAct)
    requires s.handlers.Keys <= s.accepted && CanHandler(s, c, a)
    ensures StepsLeft(DoHandler(s, c, a)) < StepsLeft(s)
  {
    var s' := DoHandler(s, c, a);
    assert ControlLeft(s') == ControlLeft(s) && s'.accepted == s.accepted;
    if a == ClosesEarly {
      ClosedStep(s.accepted, s.closed, c);
    } else {
      HandlerStep(s.handlers, c, s'.handlers[c]);
      if a == ConnClosed {
        ClosedStep(s.accepted, s.closed, c);
      } else {
        assert s'.closed == s.closed;
      }
    }
  }

  lemma NewHandler(h: map<Conn, HandlerPc>, c: Conn)
    requires c !in h
    ensures HandlersLeft(h[c := Running]) == HandlersLeft(h) + 4
  {
    MoveHandler(h, c, Running, 1);
    MoveHandler(h, c, Running, 2);
    MoveHandler(h, c, Running, 3);
    MoveHandler(h, c, Running, 4);
  }

  lemma StartControl(s: State, a: ServeAct)
    requires Channels(s) && CanServe(s, a) && Starts(a)
    ensures ControlLeft(DoServe(s, a)) + (if a == GoHandler then 5 else 1) == ControlLeft(s)
  {
  }

  lemma SelectControl(s: State, a: ServeAct)
    requires CanServe(s, a) && Selects(a)
    ensures ControlLeft(DoServe(s, a)) < ControlLeft(s)
  {
  }

  lemma EndControl(s: State, a: ServeAct)
    requires CanServe(s, a) && !Starts(a) && !Selects(a)
    ensures ControlLeft(DoServe(s, a)) < ControlLeft(s)
  {
  }

  lemma AcceptorControl(s: State, a: AcceptorAct)
    requires CanAcceptor(s, a) && !a.AcceptConn? && a != AcceptTemporary
    ensures ControlLeft(DoAcceptor(s, a)) < ControlLeft(s)
  {
  }

  /** Every step of Serve leaves one step less to take, even before shutdown has begun. */
  lemma ServeDecreases(s: State, a: ServeAct)
    requires Inv(s) && CanServe(s, a)
    ensures StepsLeft(DoServe(s, a)) < StepsLeft(s)
  {
    var s' := DoServe(s, a);
    assert s'.accepted == s.accepted && s'.closed == s.closed;
    if Starts(a) {
      StartControl(s, a);
      if a == GoHandler {
        NewHandler(s.handlers, s.serve.conn);
      }
    } else if Selects(a) {
      SelectControl(s, a);
    } else {
      EndControl(s, a);
    }
  }

  lemma AcceptorDecreases(s: State, a: AcceptorAct)
    requires Channels(s) && Ending(s) && CanAcceptor(s, a) && ListenerBehaves(s, OfAcceptor(a))
    ensures StepsLeft(DoAcceptor(s, a)) < StepsLeft(s)
  {
    AcceptorControl(s, a);
  }

  lemma ServeEndingLasts(s: State, a: ServeAct)
    requires Ending(s) && CanServe(s, a)
    ensures Ending(DoServe(s, a))
  {
  }

  lemma HandlerEndingLasts(s: State, c: Conn, a: HandlerAct)
    requires Ending(s) && CanHandler(s, c, a)
    ensures Ending(DoHandler(s, c, a))
  {
  }

  lemma AcceptorEndingLasts(s: State, a: AcceptorAct)
    requires Ending(s) && CanAcceptor(s, a)
    ensures Ending(DoAcceptor(s, a))
  {
  }

  /** Every step that is taken once shutdown has begun leaves one step less to take. */
  lemma ShutdownDecreases(s: State, a: Action)
    requires Inv(s) && Ending(s) && Can(s, a) && ListenerBehaves(s, a)
    ensures Ending(Do(s, a)) && StepsLeft(Do(s, a)) < StepsLeft(s)
  {
    match a
    case OfServe(x) =>
      ServeDecreases(s, x);
      ServeEndingLasts(s, x);
    case OfAcceptor(x) =>
      AcceptorDecreases(s, x);
      AcceptorEndingLasts(s, x);
    case OfHandler(c, x) =>
      HandlerDecreases(s, c, x);
      HandlerEndingLasts(s, c, x);
    case ParentCanceled =>
  }

  predicate AllBehave(s: State, run: seq<Action>)
    requires CanRun(s, run)
    decreases run
  {
    run == [] || (ListenerBehaves(s, run[0]) && AllBehave(Do(s, run[0]), run[1..]))
  }

  /**
   Shutdown ends: once the listener is closed or the loop is left, no run is
   longer than the steps left, and a run that can no longer be continued has
   Serve returned. What a handler does until it returns is not bounded here: its
   return is one of the steps.
   */
  lemma {:induction false} ShutdownEnds(s: State, run: seq<Action>)
    requires Inv(s) && Ending(s) && CanRun(s, run) && AllBehave(s, run)
    ensures |run| <= StepsLeft(s)
    ensures (forall a :: Can(Run(s, run), a) ==> !ListenerBehaves(Run(s, run), a)) ==> Run(s, run).serve == Returned
    decreases run
  {
    if run == [] {
      if s.serve != Returned {
        var a := NeverStuck(s);
      }
    } else {
      InvKept(s, run[0]);
      ShutdownDecreases(s, run[0]);
      ShutdownEnds(Do(s, run[0]), run[1..]);
    }
  }

  predicate OnlyServe(run: seq<Action>) {
    forall i :: 0 <= i < |run| ==> run[i].OfServe?
  }

  /** The steps that Serve has to take before it is back at its loop. */
  function ToLoop(pc: ServePc): nat {
    match pc
    case Start => 2
    case Got(_) => 2
    case Spawn => 1
    case Added(_) => 1
    case _ => 0
  }

  /**
   Shutdown begins: when the context is done, or an error of the listener is to
   be reported, Serve gets there by at most three steps, all of them its own.
   */
  lemma ShutdownBegins(s: State) returns (run: seq<Action>)
    requires Inv(s) && (s.ctxDone || s.acceptor == Sending)
    ensures |run| <= 1 + ToLoop(s.serve) && OnlyServe(run) && CanRun(s, run) && Ending(Run(s, run))
    decreases ToLoop(s.serve)
  {
    if Ending(s) {
      run := [];
    } else if s.serve == Loop {
      var a := if s.acceptor == Sending then RecvErr else if InLoop(s) then SeeDone else LeaveLoop;
      run := [OfServe(a)];
      assert run[1..] == [];
    } else {
      var pc := s.serve;
      var a := if pc == Start then AddAcceptor else if pc == Spawn then GoAcceptor
               else if pc.Got? then AddHandler else GoHandler;
      StartKeepsInv(s, a);
      var more := ShutdownBegins(DoServe(s, a));
      run := [OfServe(a)] + more;
      assert run[1..] == more;
    }
  }
}
