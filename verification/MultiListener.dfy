/**
 The fan-in of several listeners (listen.go:227-309) as a concurrent protocol:
 one goroutine for each listener, any number of calls of Accept, and Close.
 Calls of Close after the first wait for it and change nothing.
 */
module MultiListenerProtocol {

  type Conn = nat
  type Call = nat

  /** Where the goroutine of a listener stands. */
  datatype Pc =
    | Accepting
    | Sending(conn: Conn)            // in c <- conn
    | SendingErr(temporary: bool)    // in e <- err
    | SendingDone                    // in d <- struct{}{}
    | Exited

  /** Where Close stands. */
  datatype ClosePc =
    | Open
    | ClosingListeners(next: nat)
    | Draining(exits: nat)           // how many goroutines have reported their exit
    | ClosingX
    | Closed

  datatype Outcome = Pending | GotConn(conn: Conn) | GotErr | GotErrClosedPipe

  datatype State = State(
    gor: seq<Pc>, close: ClosePc, calls: map<Call, Outcome>,
    accepted: set<Conn>, dropped: set<Conn>)   // dropped: closed by Close

  function Init(n: nat): State {
    State(seq(n, i => Accepting), Open, map[], {}, {})
  }

  /** Close has closed the listener g. */
  predicate ListenerClosed(s: State, g: nat) {
    match s.close
    case Open => false
    case ClosingListeners(k) => g < k
    case _ => true
  }

  datatype Action =
    | AcceptConn(g: nat, c: Conn) | AcceptErr(g: nat, temporary: bool)
    | CallAccept(call: Call) | TakeConn(call: Call, g: nat) | TakeErr(call: Call, g: nat) | TakeClosed(call: Call)
    | CallClose | CloseNext | StartDrain
    | DrainConn(g: nat) | DrainErr(g: nat) | DrainDone(g: nat)
    | EndDrain | CloseX

  predicate At(s: State, g: nat, pc: Pc) {
    g < |s.gor| && s.gor[g] == pc
  }

  predicate Waiting(s: State, call: Call) {
    call in s.calls && s.calls[call] == Pending
  }

  predicate InDrain(s: State) {
    s.close.Draining? && s.close.exits != |s.gor|
  }

  predicate Can(s: State, a: Action) {
    match a
    case AcceptConn(g, c) => At(s, g, Accepting) && c !in s.accepted
    case AcceptErr(g, _) => At(s, g, Accepting)
    case CallAccept(call) => call !in s.calls
    case TakeConn(call, g) => Waiting(s, call) && g < |s.gor| && s.gor[g].Sending?
    case TakeErr(call, g) => Waiting(s, call) && g < |s.gor| && s.gor[g].SendingErr?
    case TakeClosed(call) => Waiting(s, call) && s.close == Closed
    case CallClose => s.close == Open
    case CloseNext => s.close.ClosingListeners? && s.close.next < |s.gor|
    case StartDrain => s.close.ClosingListeners? && s.close.next >= |s.gor|
    case DrainConn(g) => InDrain(s) && g < |s.gor| && s.gor[g].Sending?
    case DrainErr(g) => InDrain(s) && g < |s.gor| && s.gor[g].SendingErr?
    case DrainDone(g) => InDrain(s) && At(s, g, SendingDone)
    case EndDrain => s.close.Draining? && s.close.exits == |s.gor|
    case CloseX => s.close == ClosingX
  }

  /** The goroutine goes on after its error was received. */
  function AfterErr(pc: Pc): Pc
    requires pc.SendingErr?
  {
    if pc.temporary then Accepting else SendingDone
  }

  function Do(s: State, a: Action): State
    requires Can(s, a)
  {
    match a
    case AcceptConn(g, c) => s.(gor := s.gor[g := Sending(c)], accepted := s.accepted + {c})
    case AcceptErr(g, temporary) => s.(gor := s.gor[g := SendingErr(temporary)])
    case CallAccept(call) => s.(calls := s.calls[call := Pending])
    case TakeConn(call, g) => s.(gor := s.gor[g := Accepting], calls := s.calls[call := GotConn(s.gor[g].conn)])
    case TakeErr(call, g) => s.(gor := s.gor[g := AfterErr(s.gor[g])], calls := s.calls[call := GotErr])
    case TakeClosed(call) => s.(calls := s.calls[call := GotErrClosedPipe])
    case CallClose => s.(close := ClosingListeners(0))
    case CloseNext => s.(close := ClosingListeners(s.close.next + 1))
    case StartDrain => s.(close := Draining(0))
    case DrainConn(g) => s.(gor := s.gor[g := Accepting], dropped := s.dropped + {s.gor[g].conn})
    case DrainErr(g) => s.(gor := s.gor[g := AfterErr(s.gor[g])])
    case DrainDone(g) => s.(gor := s.gor[g := Exited], close := Draining(s.close.exits + 1))
    case EndDrain => s.(close := ClosingX)
    case CloseX => s.(close := Closed)
  }

  predicate CanRun(s: State, run: seq<Action>)
    decreases run
  {
    run == [] || (Can(s, run[0]) && CanRun(Do(s, run[0]), run[1..]))
  }

  function Run(s: State, run: seq<Action>): State
    requires CanRun(s, run)
    decreases run
  {
    if run == [] then s else Run(Do(s, run[0]), run[1..])
  }

  // ----- the invariant -----

  predicate Holds(s: State, g: nat, c: Conn) {
    At(s, g, Sending(c))
  }

  predicate Delivered(s: State, call: Call, c: Conn) {
    call in s.calls && s.calls[call] == GotConn(c)
  }

  /** Nothing is duplicated: a connection has one holder, or one receiver, or was closed by Close. */
  ghost predicate Unique(s: State) {
    && (forall g, c :: Holds(s, g, c) ==> c in s.accepted && c !in s.dropped)
    && (forall call, c :: Delivered(s, call, c) ==> c in s.accepted && c !in s.dropped)
    && (forall g, h, c :: Holds(s, g, c) && Holds(s, h, c) ==> g == h)
    && (forall call, other, c :: Delivered(s, call, c) && Delivered(s, other, c) ==> call == other)
    && (forall g, call, c :: Holds(s, g, c) ==> !Delivered(s, call, c))
    && s.dropped <= s.accepted
  }

  /** Nothing is lost. */
  ghost predicate Conserved(s: State) {
    forall c :: c in s.accepted ==>
      c in s.dropped || (exists g :: Holds(s, g, c)) || (exists call :: Delivered(s, call, c))
  }

  function Exits(gor: seq<Pc>): nat {
    if gor == [] then 0 else (if gor[0] == Exited then 1 else 0) + Exits(gor[1..])
  }

  /** Close knows how many goroutines have exited, and none exits before it asks. */
  predicate Tallied(s: State) {
    match s.close
    case Draining(i) => Exits(s.gor) == i
    case ClosingX => Exits(s.gor) == |s.gor|
    case Closed => Exits(s.gor) == |s.gor|
    case _ => Exits(s.gor) == 0
  }

  ghost predicate Inv(s: State) {
    Unique(s) && Conserved(s) && Tallied(s)
  }

  lemma {:induction false} ExitsUpdate(gor: seq<Pc>, g: nat, pc: Pc)
    requires g < |gor|
    ensures Exits(gor[g := pc]) == Exits(gor) + (if pc == Exited then 1 else 0) - (if gor[g] == Exited then 1 else 0)
  {
    if g > 0 {
      assert gor[g := pc][1..] == gor[1..][g - 1 := pc];
      ExitsUpdate(gor[1..], g - 1, pc);
    }
  }

  lemma {:induction false} AllExited(gor: seq<Pc>)
    ensures Exits(gor) <= |gor|
    ensures Exits(gor) == |gor| <==> forall g :: 0 <= g < |gor| ==> gor[g] == Exited
  {
    if gor != [] {
      AllExited(gor[1..]);
      assert forall g :: 1 <= g < |gor| ==> gor[g] == gor[1..][g - 1];
    }
  }

  /** The actions that touch a goroutine. */
  predicate OnGoroutine(a: Action) {
    a.AcceptConn? || a.AcceptErr? || a.TakeConn? || a.TakeErr? || a.DrainConn? || a.DrainErr? || a.DrainDone?
  }

  lemma TallyKept(s: State, a: Action)
    requires Tallied(s) && Can(s, a)
    ensures Tallied(Do(s, a))
  {
    if OnGoroutine(a) {
      ExitsUpdate(s.gor, a.g, Do(s, a).gor[a.g]);
    }
  }

  /** Where the connections of the next state come from. */
  lemma WhereFrom(s: State, a: Action)
    requires Can(s, a)
    ensures forall g, c :: Holds(Do(s, a), g, c) ==>
              a == AcceptConn(g, c) || (Holds(s, g, c) && !(OnGoroutine(a) && a.g == g))
    ensures forall call, c :: Delivered(Do(s, a), call, c) ==>
              Delivered(s, call, c) || (a.TakeConn? && a.call == call && Holds(s, a.g, c))
    ensures forall c :: c in Do(s, a).dropped ==> c in s.dropped || (a.DrainConn? && Holds(s, a.g, c))
  {
  }

  lemma UniqueKept(s: State, a: Action)
    requires Unique(s) && Can(s, a)
    ensures Unique(Do(s, a))
  {
    WhereFrom(s, a);
    assert a.AcceptConn? ==> forall g :: !Holds(s, g, a.c);
    assert a.AcceptConn? ==> forall call :: !Delivered(s, call, a.c);
  }

  /** Where the connections of this state go. */
  lemma WhereTo(s: State, a: Action)
    requires Can(s, a)
    ensures forall g, c :: Holds(s, g, c) ==>
              || Holds(Do(s, a), g, c)
              || (a.TakeConn? && a.g == g && Delivered(Do(s, a), a.call, c))
              || c in Do(s, a).dropped
    ensures forall call, c :: Delivered(s, call, c) ==> Delivered(Do(s, a), call, c)
    ensures forall c :: c in Do(s, a).accepted ==> c in s.accepted || (a.AcceptConn? && Holds(Do(s, a), a.g, c))
  {
  }

  lemma ConservedKept(s: State, a: Action)
    requires Conserved(s) && Can(s, a)
    ensures Conserved(Do(s, a))
  {
    WhereTo(s, a);
    var t := Do(s, a);
    forall c | c in t.accepted && c !in t.dropped
      ensures (exists g :: Holds(t, g, c)) || (exists call :: Delivered(t, call, c))
    {
      if c in s.accepted {
        if call :| Delivered(s, call, c) {
          assert Delivered(t, call, c);
        } else {
          assert c !in s.dropped;
          var g :| Holds(s, g, c);
          assert Holds(t, g, c) || a.TakeConn?;
        }
      }
    }
  }

  lemma {:induction false} InvAlways(s: State, run: seq<Action>)
    requires Inv(s) && CanRun(s, run)
    ensures Inv(Run(s, run)) && |Run(s, run).gor| == |s.gor|
    decreases run
  {
    if run != [] {
      TallyKept(s, run[0]);
      UniqueKept(s, run[0]);
      ConservedKept(s, run[0]);
      InvAlways(Do(s, run[0]), run[1..]);
    }
  }

  // ----- what follows from it -----

  lemma InitIsGood(n: nat)
    ensures Inv(Init(n))
  {
    NoneExited(n);
  }

  lemma {:induction false} NoneExited(n: nat)
    ensures Exits(Init(n).gor) == 0
  {
    if n > 0 {
      assert Init(n).gor[1..] == Init(n - 1).gor;
      NoneExited(n - 1);
    }
  }

  /**
   In every run every accepted connection is held by exactly one goroutine, was
   delivered to exactly one call of Accept, or was closed by Close. When Close
   is done all goroutines have exited, so that every accepted connection was
   delivered or closed, and a waiting call of Accept can only get ErrClosedPipe.
   */
  lemma MultiListenerIsSafe(n: nat, run: seq<Action>)
    requires CanRun(Init(n), run)
    ensures var s := Run(Init(n), run);
            && |s.gor| == n && Unique(s) && Conserved(s)
            && (s.close == Closed ==>
                 && (forall g :: 0 <= g < n ==> s.gor[g] == Exited)
                 && (forall c :: c in s.accepted ==> c in s.dropped || exists call :: Delivered(s, call, c))
                 && (forall a :: Can(s, a) ==> a.CallAccept? || a.TakeClosed?))
  {
    InitIsGood(n);
    InvAlways(Init(n), run);
    AllExited(Run(Init(n), run).gor);
  }

  // ----- Close ends -----

  /** What Accept does on a closed listener: it fails, and not temporarily. */
  predicate ListenersBehave(s: State, a: Action) {
    (a.AcceptConn? || a.AcceptErr?) && ListenerClosed(s, a.g) ==> a.AcceptErr? && !a.temporary
  }

  function GoroutineLeft(pc: Pc): nat {
    match pc
    case Accepting => 3
    case Sending(_) => 4
    case SendingErr(temporary) => if temporary then 4 else 2
    case SendingDone => 1
    case Exited => 0
  }

  function GoroutinesLeft(gor: seq<Pc>): nat {
    if gor == [] then 0 else GoroutineLeft(gor[0]) + GoroutinesLeft(gor[1..])
  }

  function CloseLeft(s: State): nat {
    match s.close
    case Draining(_) => 2
    case ClosingX => 1
    case _ => 0
  }

  function StepsLeft(s: State): nat {
    GoroutinesLeft(s.gor) + CloseLeft(s)
  }

  lemma {:induction false} LeftUpdate(gor: seq<Pc>, g: nat, pc: Pc)
    requires g < |gor|
    ensures GoroutinesLeft(gor[g := pc]) == GoroutinesLeft(gor) - GoroutineLeft(gor[g]) + GoroutineLeft(pc)
  {
    if g > 0 {
      assert gor[g := pc][1..] == gor[1..][g - 1 := pc];
      LeftUpdate(gor[1..], g - 1, pc);
    } else {
      assert gor[g := pc][1..] == gor[1..];
    }
  }

  predicate AllListenersClosed(s: State) {
    s.close.Draining? || s.close == ClosingX || s.close == Closed
  }

  /**
   Once all listeners are closed every step, other than calling Accept and being
   told that the listener is closed, leaves one step less for Close to wait for.
   */
  lemma CloseDecreases(s: State, a: Action)
    requires AllListenersClosed(s) && Can(s, a) && ListenersBehave(s, a)
    ensures AllListenersClosed(Do(s, a))
    ensures if a.CallAccept? || a.TakeClosed? then StepsLeft(Do(s, a)) == StepsLeft(s)
            else StepsLeft(Do(s, a)) < StepsLeft(s)
  {
    if OnGoroutine(a) {
      LeftUpdate(s.gor, a.g, Do(s, a).gor[a.g]);
    }
  }

  predicate AllBehave(s: State, run: seq<Action>)
    requires CanRun(s, run)
    decreases run
  {
    run == [] || (ListenersBehave(s, run[0]) && AllBehave(Do(s, run[0]), run[1..]))
  }

  /** The steps of a run that are not calls of Accept or their refusal. */
  function Work(run: seq<Action>): nat {
    if run == [] then 0 else (if run[0].CallAccept? || run[0].TakeClosed? then 0 else 1) + Work(run[1..])
  }

  predicate IsWork(s: State, a: Action) {
    Can(s, a) && ListenersBehave(s, a) && !a.CallAccept? && !a.TakeClosed?
  }

  /**
   However the run goes on, only so many steps are left, and when none of them
   can be taken any more Close is done.
   */
  lemma {:induction false} CloseEnds(s: State, run: seq<Action>)
    requires Tallied(s) && AllListenersClosed(s) && CanRun(s, run) && AllBehave(s, run)
    ensures Work(run) <= StepsLeft(s)
    ensures (forall a :: !IsWork(Run(s, run), a)) ==> Run(s, run).close == Closed
    decreases run
  {
    if run != [] {
      TallyKept(s, run[0]);
      CloseDecreases(s, run[0]);
      CloseEnds(Do(s, run[0]), run[1..]);
    } else if s.close != Closed {
      var a := CloseNeverStuck(s);
      assert IsWork(s, a);
    }
  }

  /** Close is never stuck: while it is not done, it or a goroutine can take a step that brings it nearer. */
  lemma CloseNeverStuck(s: State) returns (a: Action)
    requires Tallied(s) && s.close != Open && s.close != Closed
    ensures IsWork(s, a)
  {
    match s.close
    case ClosingListeners(k) => a := if k < |s.gor| then CloseNext else StartDrain;
    case ClosingX => a := CloseX;
    case Draining(i) =>
      if i == |s.gor| {
        a := EndDrain;
      } else {
        AllExited(s.gor);
        var g :| 0 <= g < |s.gor| && s.gor[g] != Exited;
        match s.gor[g]
        case Accepting => a := AcceptErr(g, false);
        case Sending(_) => a := DrainConn(g);
        case SendingErr(_) => a := DrainErr(g);
        case SendingDone => a := DrainDone(g);
      }
  }

  // ----- Accept without Close -----

  predicate WithoutClose(run: seq<Action>) {
    forall i :: 0 <= i < |run| ==> run[i] != CallClose
  }

  /** The call of Accept can still be answered, although Close is never called. */
  ghost predicate CanBeAnswered(s: State, call: Call) {
    exists run :: CanRun(s, run) && WithoutClose(run) && !Waiting(Run(s, run), call)
  }

  /** All goroutines wait to report their exit, which only Close receives. */
  predicate AllDone(s: State) {
    forall g :: 0 <= g < |s.gor| ==> s.gor[g] == SendingDone
  }

  lemma {:induction false} DoneForGood(s: State, call: Call, run: seq<Action>)
    requires s.close == Open && Waiting(s, call) && AllDone(s) && CanRun(s, run) && WithoutClose(run)
    ensures Waiting(Run(s, run), call)
    decreases run
  {
    if run != [] {
      assert run[0].CallAccept?;
      DoneForGood(Do(s, run[0]), call, run[1..]);
    }
  }

  /** A goroutine that is not done gives the call an answer after at most one step more. */
  lemma Answer(s: State, call: Call, g: nat) returns (run: seq<Action>)
    requires Waiting(s, call) && g < |s.gor| && s.gor[g] != SendingDone && s.gor[g] != Exited
    ensures CanRun(s, run) && WithoutClose(run) && !Waiting(Run(s, run), call)
  {
    var a := if s.gor[g].Sending? then TakeConn(call, g) else TakeErr(call, g);
    if s.gor[g] == Accepting {
      var fails := AcceptErr(g, false);
      run := [fails, a];
      assert run[1..] == [a] && run[1..][1..] == [];
      var next := Do(s, fails);
      assert Can(next, a) && !Waiting(Do(next, a), call);
      assert Run(next, [a]) == Run(Do(next, a), []) by { assert [a][1..] == []; }
      assert Run(s, run) == Run(next, [a]);
    } else {
      run := [a];
      assert run[1..] == [];
      assert Can(s, a) && !Waiting(Do(s, a), call);
      assert Run(s, run) == Run(Do(s, a), []);
    }
  }

  /**
   A call of Accept that waits on an open listener can no longer be answered
   without Close exactly if every listener has failed for good.
   */
  lemma AcceptIsStranded(s: State, call: Call)
    requires Tallied(s) && s.close == Open && Waiting(s, call)
    ensures !CanBeAnswered(s, call) <==> AllDone(s)
  {
    AllExited(s.gor);
    if AllDone(s) {
      forall run | CanRun(s, run) && WithoutClose(run) ensures Waiting(Run(s, run), call) {
        DoneForGood(s, call, run);
      }
    } else {
      var g :| 0 <= g < |s.gor| && s.gor[g] != SendingDone;
      NoneExitedYet(s.gor, g);
      var run := Answer(s, call, g);
    }
  }

  lemma {:induction false} NoneExitedYet(gor: seq<Pc>, g: nat)
    requires Exits(gor) == 0 && g < |gor|
    ensures gor[g] != Exited
  {
    if g > 0 {
      NoneExitedYet(gor[1..], g - 1);
    }
  }

  // ----- why a goroutine ends -----

  /** The listener has failed for good: its goroutine will accept no more. */
  predicate Ended(pc: Pc) {
    pc == SendingErr(false) || pc == SendingDone || pc == Exited
  }

  lemma EndedStep(s: State, a: Action, g: nat)
    requires Can(s, a) && g < |s.gor|
    ensures |Do(s, a).gor| == |s.gor|
    ensures Ended(Do(s, a).gor[g]) <==> Ended(s.gor[g]) || a == AcceptErr(g, false)
  {
  }

  lemma {:induction false} EndedForCause(s: State, run: seq<Action>, g: nat)
    requires CanRun(s, run) && g < |s.gor|
    ensures |Run(s, run).gor| == |s.gor|
    ensures Ended(Run(s, run).gor[g]) <==> Ended(s.gor[g]) || AcceptErr(g, false) in run
    decreases run
  {
    if run != [] {
      EndedStep(s, run[0], g);
      EndedForCause(Do(s, run[0]), run[1..], g);
      assert run == [run[0]] + run[1..];
    }
  }

  /**
   In every run a goroutine stops accepting exactly if its listener failed for
   good; a temporary error never ends it.
   */
  lemma GoroutineEndsForCause(n: nat, run: seq<Action>, g: nat)
    requires CanRun(Init(n), run) && g < n
    ensures |Run(Init(n), run).gor| == n
    ensures Ended(Run(Init(n), run).gor[g]) <==> AcceptErr(g, false) in run
    ensures Run(Init(n), run).gor[g] == Exited ==> AcceptErr(g, false) in run
  {
    EndedForCause(Init(n), run, g);
  }

  /**
   In terms of what happened: a waiting call of Accept can no longer be answered
   without Close exactly if every listener failed for good and all those errors were
   received.
   */
  lemma StrandedForCause(n: nat, run: seq<Action>, call: Call)
    requires CanRun(Init(n), run)
    requires var s := Run(Init(n), run); s.close == Open && Waiting(s, call)
    ensures var s := Run(Init(n), run);
            !CanBeAnswered(s, call)
            <==> |s.gor| == n && forall g :: 0 <= g < n ==> AcceptErr(g, false) in run && !s.gor[g].SendingErr?
  {
    var s := Run(Init(n), run);
    InitIsGood(n);
    InvAlways(Init(n), run);
    AcceptIsStranded(s, call);
    forall g | 0 <= g < n ensures s.gor[g] == SendingDone <==> AcceptErr(g, false) in run && !s.gor[g].SendingErr? {
      GoroutineEndsForCause(n, run, g);
      NoneExitedYet(s.gor, g);
    }
  }

  // ----- every listener is closed -----

  /** How many listeners Close has closed. */
  function Closings(s: State): nat {
    match s.close
    case Open => 0
    case ClosingListeners(k) => k
    case _ => |s.gor|
  }

  function Count(run: seq<Action>): nat {
    if run == [] then 0 else (if run[0] == CloseNext then 1 else 0) + Count(run[1..])
  }

  lemma {:induction false} ClosingsCount(s: State, run: seq<Action>)
    requires Closings(s) <= |s.gor| && CanRun(s, run)
    ensures |Run(s, run).gor| == |s.gor|
    ensures Closings(Run(s, run)) == Closings(s) + Count(run) <= |s.gor|
    decreases run
  {
    if run != [] {
      var next := Do(s, run[0]);
      assert |next.gor| == |s.gor|;
      ClosingsCount(next, run[1..]);
    }
  }

  /** Before the drain begins, Close has closed every listener, and none twice. */
  lemma DrainFollowsClose(n: nat, run: seq<Action>)
    requires CanRun(Init(n), run)
    ensures Count(run) <= n
    ensures AllListenersClosed(Run(Init(n), run)) ==> Count(run) == n
  {
    ClosingsCount(Init(n), run);
  }

  // ----- what Accept returns -----

  /** What the answers in s' say beyond those in s. */
  lemma AnswerStep(s: State, a: Action, call: Call)
    requires Can(s, a) && call in Do(s, a).calls
    requires call !in s.calls || Do(s, a).calls[call] != s.calls[call]
    ensures match Do(s, a).calls[call]
            case Pending => a == CallAccept(call)
            case GotConn(c) => exists g: nat :: a == TakeConn(call, g) && At(s, g, Sending(c))
            case GotErr => exists g: nat :: a == TakeErr(call, g) && g < |s.gor| && s.gor[g].SendingErr?
            case GotErrClosedPipe => a == TakeClosed(call) && s.close == Closed
  {
  }

  /** The steps of which the answer of a call may come. */
  ghost predicate Answers(run: seq<Action>, call: Call, o: Outcome) {
    match o
    case Pending => CallAccept(call) in run
    case GotConn(_) => exists g :: TakeConn(call, g) in run
    case GotErr => exists g :: TakeErr(call, g) in run
    case GotErrClosedPipe => TakeClosed(call) in run
  }

  lemma {:induction false} AnsweredForCause(s: State, run: seq<Action>, call: Call)
    requires CanRun(s, run) && call in Run(s, run).calls
    ensures || (call in s.calls && s.calls[call] == Run(s, run).calls[call])
            || Answers(run, call, Run(s, run).calls[call])
    decreases run
  {
    if run != [] {
      var next := Do(s, run[0]);
      AnsweredForCause(next, run[1..], call);
      assert run == [run[0]] + run[1..];
      if call in next.calls && !(call in s.calls && s.calls[call] == next.calls[call]) {
        AnswerStep(s, run[0], call);
        assert run[0] in run;
      }
    }
  }

  /**
   In every run a call of Accept got a connection from a goroutine, an error from a
   goroutine, or ErrClosedPipe because Close was done, as its answer says.
   */
  lemma AcceptAnswers(n: nat, run: seq<Action>, call: Call)
    requires CanRun(Init(n), run) && call in Run(Init(n), run).calls
    ensures Answers(run, call, Run(Init(n), run).calls[call])
  {
    AnsweredForCause(Init(n), run, call);
  }
}
