/** `runHAConnections`: one supervisor, n connection goroutines, two channels and a close-once signal, as a step
    machine. Every interleaving of the goroutines is a sequence of actions. */
module HASupervisor {
  import opened Results

  type Error = string

  const MAX_HA_CONNECTIONS := 256

  /** `normalizeHAConnections`. */
  function NormalizeHAConnections(n: int): (r: int)
    ensures 1 <= r <= MAX_HA_CONNECTIONS
    ensures 1 <= n <= MAX_HA_CONNECTIONS ==> r == n
    ensures (n < 1 ==> r == 1) && (n > MAX_HA_CONNECTIONS ==> r == MAX_HA_CONNECTIONS)
  {
    if n < 1 then 1 else if n > MAX_HA_CONNECTIONS then MAX_HA_CONNECTIONS else n
  }

  /** The `uint8(i)` conversion. */
  function ToUint8(i: nat): nat {
    i % 256
  }

  /** A connection goroutine; `res` is what `runConnectionWithRetry` returned (`None` for nil). */
  datatype Conn =
    | NotStarted
    | Running
    | Returned(res: Option<Error>)
    | Reported(res: Option<Error>)   // connection 0 only: after its send on firstResult
    | Offered(res: Option<Error>)    // after the errCh attempt
    | Ended(res: Option<Error>)      // after wg.Done

  datatype Result = Nil | ContextError | ConnError(err: Error)

  /** Why the supervisor cancelled the group and is waiting for the connections to end. */
  datatype Cause = ByContext | ByFirstResult(res: Option<Error>) | ByInterval(result: Result) | ByError(err: Error)

  datatype Main =
    | AwaitFirst                 // select on ctx, firstResult, firstConnected
    | StartNext(i: nat)          // about to start connection i
    | Interval(i: nat)           // waiting the registration interval after starting i
    | AwaitAll                   // select on ctx, errCh, done
    | Draining(cause: Cause)
    | Done(result: Result)

  datatype State = State(
    n: nat,
    hasInterval: bool,
    main: Main,
    conns: seq<Conn>,
    started: seq<nat>,           // connection indices in start order, as the goroutines see them
    closes: nat,                 // how often the connected channel has been closed
    onceUsed: bool,
    errCh: Option<Error>,
    firstResult: Option<Option<Error>>,
    ctxDone: bool)

  /** Connection 0 has been started and the supervisor waits for it. */
  function Init(n: nat, hasInterval: bool): State
    requires 2 <= n <= MAX_HA_CONNECTIONS
  {
    var conns := [Running] + seq(n - 1, _ => NotStarted);
    State(n, hasInterval, AwaitFirst, conns, [ToUint8(0)], 0, false, None, None, false)
  }

  datatype Action =
    | CancelContext                            // the caller's context ends
    | Connected                                // some run of connection 0 reports Connected (again)
    | RunReturns(i: nat, res: Option<Error>)   // the retry loop of connection i gives up or finishes
    | SendFirst                                // connection 0 sends on firstResult
    | Offer(i: nat)                            // connection i offers its error, if any, to errCh
    | Finish(i: nat)                           // connection i is done
    | MainContext | MainFirstResult | MainConnected | MainStart | MainError | MainTimer | MainDone | MainDrained

  predicate AllEnded(s: State) {
    forall i :: 0 <= i < |s.conns| ==> s.conns[i].NotStarted? || s.conns[i].Ended?
  }

  predicate Enabled(s: State, a: Action) {
    match a
    case CancelContext => !s.ctxDone
    case Connected => |s.conns| > 0 && !s.conns[0].NotStarted?
    case RunReturns(i, _) => i < |s.conns| && s.conns[i].Running?
    case SendFirst => |s.conns| > 0 && s.conns[0].Returned? && s.firstResult.None?
    case Offer(i) => i < |s.conns| && (if i == 0 then s.conns[i].Reported? else s.conns[i].Returned?)
    case Finish(i) => i < |s.conns| && s.conns[i].Offered?
    case MainContext => s.ctxDone && (s.main.AwaitFirst? || s.main.Interval? || s.main.AwaitAll?)
    case MainFirstResult => s.main.AwaitFirst? && s.firstResult.Some?
    case MainConnected => s.main.AwaitFirst? && s.closes > 0
    case MainStart => s.main.StartNext? && s.main.i < |s.conns|
    case MainError => s.errCh.Some? && (s.main.Interval? || s.main.AwaitAll?)
    case MainTimer => s.main.Interval?
    case MainDone => s.main.AwaitAll? && AllEnded(s)
    case MainDrained => s.main.Draining? && AllEnded(s)
  }

  function AfterStart(s: State, i: nat): Main {
    if i < s.n - 1 then (if s.hasInterval then Interval(i) else StartNext(i + 1)) else AwaitAll
  }

  function ResultOf(res: Option<Error>): Result {
    match res
    case None => Nil
    case Some(e) => ConnError(e)
  }

  /** What is returned once the group has drained; most causes give way to the context's error. */
  function DrainedResult(cause: Cause, ctxDone: bool): Result {
    match cause
    case ByContext => ContextError
    case ByFirstResult(res) => if ctxDone then ContextError else ResultOf(res)
    case ByInterval(result) => result
    case ByError(e) => if ctxDone then ContextError else ConnError(e)
  }

  function Apply(s: State, a: Action): State
    requires Enabled(s, a)
  {
    match a
    case CancelContext => s.(ctxDone := true)
    case Connected => if s.onceUsed then s else s.(onceUsed := true, closes := s.closes + 1)
    case RunReturns(i, res) => s.(conns := s.conns[i := Returned(res)])
    case SendFirst => s.(conns := s.conns[0 := Reported(s.conns[0].res)], firstResult := Some(s.conns[0].res))
    case Offer(i) =>
      var res := s.conns[i].res;
      s.(conns := s.conns[i := Offered(res)], errCh := if res.Some? && s.errCh.None? then res else s.errCh)
    case Finish(i) => s.(conns := s.conns[i := Ended(s.conns[i].res)])
    case MainContext =>
      s.(main := Draining(if s.main.Interval? then ByInterval(ContextError) else ByContext))
    case MainFirstResult => s.(main := Draining(ByFirstResult(s.firstResult.value)), firstResult := None)
    case MainConnected => s.(main := StartNext(1))
    case MainStart =>
      var i := s.main.i;
      s.(main := AfterStart(s, i), conns := s.conns[i := Running], started := s.started + [ToUint8(i)])
    case MainError =>
      var e := s.errCh.value;
      s.(main := Draining(if s.main.Interval? then ByInterval(ConnError(e)) else ByError(e)), errCh := None)
    case MainTimer => s.(main := StartNext(s.main.i + 1))
    case MainDone => s.(main := Done(Nil))
    case MainDrained => s.(main := Done(DrainedResult(s.main.cause, s.ctxDone)))
  }

  /** The state after a sequence of actions, when each is enabled in turn. */
  function Exec(s: State, actions: seq<Action>): Option<State>
    decreases |actions|
  {
    if actions == [] then Some(s)
    else if !Enabled(s, actions[0]) then None
    else Exec(Apply(s, actions[0]), actions[1..])
  }

  // ----- runs in parts -----

  lemma Exec1(s: State, a: Action)
    requires Enabled(s, a)
    ensures Exec(s, [a]) == Some(Apply(s, a))
  {
    hide Apply, Enabled;
    assert [a][1..] == [];
    assert Exec(Apply(s, a), []) == Some(Apply(s, a));
  }

  lemma ExecNothing(s: State)
    ensures Exec(s, []) == Some(s)
  {
  }

  lemma {:induction false} ExecAppend(s: State, a: seq<Action>, b: seq<Action>)
    requires Exec(s, a).Some?
    ensures Exec(s, a + b) == Exec(Exec(s, a).value, b)
    decreases |a|
  {
    hide Apply, Enabled;
    if a == [] {
      assert a + b == b;
    } else {
      assert (a + b)[1..] == a[1..] + b;
      ExecAppend(Apply(s, a[0]), a[1..], b);
    }
  }

  // ----- the invariant -----

  /** Some connection's retry loop returned this error. */
  predicate ReturnedError(s: State, e: Error) {
    exists i :: 0 <= i < |s.conns| && ResultIn(s.conns[i], e)
  }

  predicate ResultIn(c: Conn, e: Error) {
    (c.Returned? || c.Reported? || HasOffered(c)) && c.res == Some(e)
  }

  /** Past its attempt on errCh. */
  predicate HasOffered(c: Conn) {
    c.Offered? || c.Ended?
  }

  /** A non-nil result is the context's error, or one some connection returned. */
  predicate Justified(s: State, r: Result) {
    match r
    case Nil => true
    case ContextError => s.ctxDone
    case ConnError(e) => ReturnedError(s, e)
  }

  predicate CauseJustified(s: State, cause: Cause) {
    match cause
    case ByContext => s.ctxDone
    case ByFirstResult(res) => res.None? || ReturnedError(s, res.value)
    case ByInterval(result) => result != Nil && Justified(s, result)
    case ByError(e) => ReturnedError(s, e)
  }

  /** Exactly the first |started| connections have been started. */
  predicate PrefixStarted(s: State) {
    && |s.conns| == s.n && 1 <= |s.started| <= s.n
    && (forall k :: 0 <= k < |s.started| ==> s.started[k] == ToUint8(k))
    && (forall k :: 0 <= k < s.n ==> (s.conns[k].NotStarted? <==> |s.started| <= k))
  }

  /** Where the supervisor stands determines how many connections it has started. */
  predicate MainMatches(s: State) {
    match s.main
    case AwaitFirst => |s.started| == 1
    case StartNext(i) => |s.started| == i && 1 <= i < s.n
    case Interval(i) => |s.started| == i + 1 && i < s.n - 1 && s.closes == 1
    case AwaitAll => |s.started| == s.n
    case Draining(cause) => CauseJustified(s, cause)
    case Done(result) => AllEnded(s) && Justified(s, result)
  }

  predicate SignalOnce(s: State) {
    && s.closes == (if s.onceUsed then 1 else 0)
    && (|s.started| > 1 || s.main.StartNext? ==> s.closes == 1)
  }

  predicate ChannelsMatch(s: State) {
    && (s.errCh.Some? ==> ReturnedError(s, s.errCh.value))
    && (s.firstResult.Some? ==> 0 < |s.conns| && (s.conns[0].Reported? || HasOffered(s.conns[0]))
                                && s.conns[0].res == s.firstResult.value)
    && (s.main.AwaitFirst? && 0 < |s.conns| && (s.conns[0].Reported? || HasOffered(s.conns[0])) ==> s.firstResult.Some?)
    && (0 < |s.conns| && (s.conns[0].Running? || s.conns[0].Returned?) ==> s.firstResult.None?)
  }

  predicate Inv(s: State) {
    && 2 <= s.n <= MAX_HA_CONNECTIONS
    && PrefixStarted(s) && MainMatches(s) && SignalOnce(s) && ChannelsMatch(s)
    && (forall k :: 1 <= k < |s.conns| ==> !s.conns[k].Reported?)
  }

  lemma InitInv(n: nat, hasInterval: bool)
    requires 2 <= n <= MAX_HA_CONNECTIONS
    ensures Inv(Init(n, hasInterval))
  {
  }

  /** A connection's result, once returned, stays. */
  lemma ErrorsPersist(s: State, a: Action, e: Error)
    requires Enabled(s, a) && ReturnedError(s, e)
    requires PrefixStarted(s) && (s.main.StartNext? ==> s.main.i == |s.started|)
    ensures ReturnedError(Apply(s, a), e)
  {
    var i :| 0 <= i < |s.conns| && ResultIn(s.conns[i], e);
    assert ResultIn(Apply(s, a).conns[i], e);
  }

  lemma JustifiedPersists(s: State, a: Action, r: Result)
    requires Enabled(s, a) && Justified(s, r) && PrefixStarted(s) && (s.main.StartNext? ==> s.main.i == |s.started|)
    ensures Justified(Apply(s, a), r)
  {
    if r.ConnError? {
      ErrorsPersist(s, a, r.err);
    }
  }

  lemma CausePersists(s: State, a: Action, cause: Cause)
    requires Enabled(s, a) && CauseJustified(s, cause) && PrefixStarted(s)
    requires s.main.StartNext? ==> s.main.i == |s.started|
    ensures CauseJustified(Apply(s, a), cause)
  {
    hide ReturnedError;
    match cause {
      case ByContext =>
      case ByFirstResult(res) => if res.Some? { ErrorsPersist(s, a, res.value); }
      case ByInterval(result) => JustifiedPersists(s, a, result);
      case ByError(e) => ErrorsPersist(s, a, e);
    }
  }

  lemma StepPrefixStarted(s: State, a: Action)
    requires Inv(s) && Enabled(s, a)
    ensures PrefixStarted(Apply(s, a)) && SignalOnce(Apply(s, a))
    ensures forall k :: 1 <= k < |Apply(s, a).conns| ==> !Apply(s, a).conns[k].Reported?
  {
    hide ReturnedError, CauseJustified, Justified;
  }

  lemma StepMainMatches(s: State, a: Action)
    requires Inv(s) && Enabled(s, a)
    ensures MainMatches(Apply(s, a))
  {
    hide ReturnedError;
    var t := Apply(s, a);
    match s.main {
      case Draining(cause) => CausePersists(s, a, cause);
      case Done(result) => JustifiedPersists(s, a, result);
      case _ =>
    }
    match a {
      case MainFirstResult =>
        if s.firstResult.value.Some? {
          assert ReturnedError(t, s.firstResult.value.value) by { ErrorOfConn(t, 0, s.firstResult.value.value); }
        }
      case MainError => ErrorsPersist(s, a, s.errCh.value);
      case _ =>
    }
  }

  lemma ErrorOfConn(s: State, i: nat, e: Error)
    requires i < |s.conns| && ResultIn(s.conns[i], e)
    ensures ReturnedError(s, e)
  {
  }

  lemma StepChannelsMatch(s: State, a: Action)
    requires Inv(s) && Enabled(s, a)
    ensures ChannelsMatch(Apply(s, a))
  {
    hide ReturnedError, CauseJustified, Justified;
    var t := Apply(s, a);
    if t.errCh.Some? {
      if s.errCh.Some? {
        ErrorsPersist(s, a, s.errCh.value);
      } else {
        ErrorOfConn(t, a.i, t.errCh.value);
      }
    }
  }

  lemma StepInv(s: State, a: Action)
    requires Inv(s) && Enabled(s, a)
    ensures Inv(Apply(s, a)) && Apply(s, a).n == s.n
  {
    hide PrefixStarted, MainMatches, SignalOnce, ChannelsMatch;
    StepPrefixStarted(s, a);
    StepMainMatches(s, a);
    StepChannelsMatch(s, a);
  }

  lemma {:induction false} ExecInv(s: State, actions: seq<Action>)
    requires Inv(s) && Exec(s, actions).Some?
    ensures Inv(Exec(s, actions).value) && Exec(s, actions).value.n == s.n
    decreases |actions|
  {
    hide Inv;
    if actions != [] {
      StepInv(s, actions[0]);
      ExecInv(Apply(s, actions[0]), actions[1..]);
    }
  }

  // ----- what every interleaving guarantees -----

  /** In every reachable state: the started indices are 0..m-1, each once and pairwise different as uint8; the
      connected channel was closed at most once; nothing but connection 0 started before that; and once the
      supervisor has returned, every started connection has ended and a non-nil result is the context's error or
      one some connection returned. */
  lemma SupervisorSafe(n: nat, hasInterval: bool, actions: seq<Action>)
    requires 2 <= n <= MAX_HA_CONNECTIONS && Exec(Init(n, hasInterval), actions).Some?
    ensures var s := Exec(Init(n, hasInterval), actions).value;
            && |s.started| <= n && (forall k :: 0 <= k < |s.started| ==> s.started[k] == k)
            && (forall j, k :: 0 <= j < k < |s.started| ==> s.started[j] != s.started[k])
            && s.closes <= 1 && (|s.started| > 1 ==> s.closes == 1)
            && (s.main.Done? ==> AllEnded(s) && Justified(s, s.main.result))
  {
    hide Inv, Exec, AllEnded, Justified;
    InitInv(n, hasInterval);
    ExecInv(Init(n, hasInterval), actions);
    InvIsSafe(Exec(Init(n, hasInterval), actions).value);
  }

  lemma InvIsSafe(s: State)
    requires Inv(s)
    ensures && |s.started| <= s.n && (forall k :: 0 <= k < |s.started| ==> s.started[k] == k)
            && s.closes <= 1 && (|s.started| > 1 ==> s.closes == 1)
            && (s.main.Done? ==> AllEnded(s) && Justified(s, s.main.result))
  {
    hide ChannelsMatch;
  }

  lemma {:induction false} ClosedByConnected(s: State, actions: seq<Action>)
    requires s.closes == 0 && Exec(s, actions).Some? && Exec(s, actions).value.closes > 0
    ensures Connected in actions
    decreases |actions|
  {
    if actions != [] && actions[0] != Connected {
      ClosedByConnected(Apply(s, actions[0]), actions[1..]);
    }
  }

  lemma {:induction false} ExecPrefix(s: State, actions: seq<Action>, k: nat)
    requires k <= |actions| && Exec(s, actions).Some?
    ensures Exec(s, actions[..k]).Some?
    ensures Exec(Exec(s, actions[..k]).value, actions[k..]) == Exec(s, actions)
    decreases |actions|
  {
    if k > 0 {
      ExecPrefix(Apply(s, actions[0]), actions[1..], k - 1);
      assert actions[..k][1..] == actions[1..][..k - 1];
      assert actions[k..] == actions[1..][k - 1..];
    } else {
      assert actions[k..] == actions;
    }
  }

  /** In every run, each start of a connection other than 0 comes after a Connected report of connection 0. */
  lemma StartsAfterConnected(n: nat, hasInterval: bool, actions: seq<Action>, k: nat)
    requires 2 <= n <= MAX_HA_CONNECTIONS && Exec(Init(n, hasInterval), actions).Some?
    requires k < |actions| && actions[k] == MainStart
    ensures Connected in actions[..k]
  {
    hide Inv;
    var s0 := Init(n, hasInterval);
    ExecPrefix(s0, actions, k);
    var s := Exec(s0, actions[..k]).value;
    assert Enabled(s, actions[k]) by {
      assert actions[k..][0] == actions[k];
    }
    InitInv(n, hasInterval);
    ExecInv(s0, actions[..k]);
    InvStartIsClosed(s);
    ClosedByConnected(s0, actions[..k]);
  }

  lemma InvStartIsClosed(s: State)
    requires Inv(s) && s.main.StartNext?
    ensures s.closes == 1
  {
  }

  /** Until connection 0 has reported Connected it is the only one started, and the supervisor ends with its result or
      with the context's error. */
  predicate AloneUntilConnected(s: State) {
    s.closes == 0 ==>
      && |s.started| == 1 && 0 < |s.conns|
      && match s.main
         case AwaitFirst => true
         case Draining(ByContext) => true
         case Draining(ByFirstResult(res)) => (s.conns[0].Reported? || HasOffered(s.conns[0])) && s.conns[0].res == res
         case Done(ContextError) => true
         case Done(result) => HasOffered(s.conns[0]) && result == ResultOf(s.conns[0].res)
         case _ => false
  }

  lemma StepAlone(s: State, a: Action)
    requires Inv(s) && AloneUntilConnected(s) && Enabled(s, a)
    ensures AloneUntilConnected(Apply(s, a))
  {
    hide ReturnedError;
  }

  lemma {:induction false} ExecAlone(s: State, actions: seq<Action>)
    requires Inv(s) && AloneUntilConnected(s) && Exec(s, actions).Some?
    ensures AloneUntilConnected(Exec(s, actions).value)
    decreases |actions|
  {
    hide Inv, AloneUntilConnected;
    if actions != [] {
      StepInv(s, actions[0]);
      StepAlone(s, actions[0]);
      ExecAlone(Apply(s, actions[0]), actions[1..]);
    }
  }

  /** A run in which connection 0 never reports Connected starts no other connection and returns connection 0's own
      result, or the context's error. */
  lemma UnconnectedResult(n: nat, hasInterval: bool, actions: seq<Action>)
    requires 2 <= n <= MAX_HA_CONNECTIONS && Exec(Init(n, hasInterval), actions).Some?
    requires Connected !in actions && Exec(Init(n, hasInterval), actions).value.main.Done?
    ensures var s := Exec(Init(n, hasInterval), actions).value;
            |s.conns| == n && s.conns[0].Ended? && (forall k :: 1 <= k < n ==> s.conns[k].NotStarted?)
            && (s.main.result == ResultOf(s.conns[0].res) || (s.main.result == ContextError && s.ctxDone))
  {
    hide Exec, ChannelsMatch, AloneUntilConnected;
    var s0 := Init(n, hasInterval);
    var s := Exec(s0, actions).value;
    InitInv(n, hasInterval);
    FreshAlone(n, hasInterval);
    ExecInv(s0, actions);
    ExecAlone(s0, actions);
    if s.closes > 0 {
      ClosedByConnected(s0, actions);
    }
    assert AloneUntilConnected(s) && s.closes == 0;
    AloneResult(s);
  }

  lemma AloneResult(s: State)
    requires AloneUntilConnected(s) && s.closes == 0 && s.main.Done?
    ensures |s.started| == 1 && 0 < |s.conns|
    ensures s.main.result == ContextError || s.main.result == ResultOf(s.conns[0].res)
  {
  }

  /** So such a run does not lose an error: if it returns nil, no connection failed. */
  lemma NothingLostUnconnected(n: nat, hasInterval: bool, actions: seq<Action>, e: Error)
    requires 2 <= n <= MAX_HA_CONNECTIONS && Exec(Init(n, hasInterval), actions).Some?
    requires Connected !in actions && Exec(Init(n, hasInterval), actions).value.main == Done(Nil)
    ensures !ReturnedError(Exec(Init(n, hasInterval), actions).value, e)
  {
    hide Exec;
    UnconnectedResult(n, hasInterval, actions);
  }

  lemma FreshAlone(n: nat, hasInterval: bool)
    requires 2 <= n <= MAX_HA_CONNECTIONS
    ensures AloneUntilConnected(Init(n, hasInterval))
  {
  }

  // ----- no hang -----

  predicate IsMainAction(a: Action) {
    a.MainContext? || a.MainFirstResult? || a.MainConnected? || a.MainStart? || a.MainError? || a.MainTimer?
    || a.MainDone? || a.MainDrained?
  }

  /** The supervisor itself has a step to take. */
  ghost predicate CanStep(s: State) {
    exists a :: IsMainAction(a) && Enabled(s, a)
  }

  /** How many steps the supervisor has left at most. */
  function StepsLeft(s: State): int {
    match s.main
    case AwaitFirst => 2 * s.n + 1
    case StartNext(i) => 2 * (s.n - i) + 2
    case Interval(i) => 2 * (s.n - i) + 1
    case AwaitAll => 2
    case Draining(_) => 1
    case Done(_) => 0
  }

  function MainSteps(actions: seq<Action>): nat
    decreases |actions|
  {
    if actions == [] then 0 else MainSteps(actions[1..]) + if IsMainAction(actions[0]) then 1 else 0
  }

  lemma StepShortens(s: State, a: Action)
    requires Inv(s) && Enabled(s, a)
    ensures 0 <= StepsLeft(Apply(s, a)) && (s.main.Done? <==> StepsLeft(s) == 0)
    ensures StepsLeft(Apply(s, a)) + (if IsMainAction(a) then 1 else 0) <= StepsLeft(s)
  {
    hide ReturnedError, CauseJustified, Justified, SignalOnce, ChannelsMatch;
    StepInv(s, a);
  }

  lemma {:induction false} ExecShortens(s: State, actions: seq<Action>)
    requires Inv(s) && Exec(s, actions).Some?
    ensures MainSteps(actions) + StepsLeft(Exec(s, actions).value) <= StepsLeft(s)
    decreases |actions|
  {
    hide Inv, StepsLeft;
    if actions != [] {
      StepShortens(s, actions[0]);
      StepInv(s, actions[0]);
      ExecShortens(Apply(s, actions[0]), actions[1..]);
    }
  }

  /** The supervisor returns: it makes at most 2n + 1 steps in any run, and whenever every started connection has
      ended it can make one, until it has returned. */
  lemma AlwaysReturns(n: nat, hasInterval: bool, actions: seq<Action>)
    requires 2 <= n <= MAX_HA_CONNECTIONS && Exec(Init(n, hasInterval), actions).Some?
    ensures var s := Exec(Init(n, hasInterval), actions).value;
            MainSteps(actions) <= 2 * n + 1 && (MainSteps(actions) == 2 * n + 1 ==> s.main.Done?)
            && (AllEnded(s) && !s.main.Done? ==> CanStep(s))
  {
    hide Exec, SignalOnce;
    InitInv(n, hasInterval);
    ExecInv(Init(n, hasInterval), actions);
    ExecShortens(Init(n, hasInterval), actions);
    var s := Exec(Init(n, hasInterval), actions).value;
    if AllEnded(s) && !s.main.Done? {
      var a := match s.main
               case AwaitFirst => MainFirstResult
               case StartNext(_) => MainStart
               case Interval(_) => MainTimer
               case AwaitAll => MainDone
               case Draining(_) => MainDrained
               case Done(_) => MainDone;
      assert IsMainAction(a) && Enabled(s, a);
    }
  }
}
