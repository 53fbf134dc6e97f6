/** `MultiRunner.Run`: a start loop, one goroutine per tunnel, and a shared error list, as a step machine. */
module MultiTunnel {
  import opened Results
  import Text

  type Error = string

  /** What a tunnel's `Run` returned: nil or a cancellation, or an error of its own. */
  datatype Outcome = Clean | Failed(err: Error)

  datatype Phase =
    | NotStarted
    | Running
    | Returned(outcome: Outcome)
    | Recorded(outcome: Outcome)   // after the append to runErrs, before cancel
    | Cancelled(outcome: Outcome)  // after cancel
    | Ended(outcome: Outcome)      // after wg.Done

  /** An element of runErrs: the error together with the tunnel it wraps. */
  datatype TunnelError = TunnelError(tunnel: nat, err: Error)

  datatype Result =
    | Nil
    | Single(error: TunnelError)
    | Multiple(count: nat, text: string)

  datatype Main = StartNext(i: nat) | Interval(i: nat) | Join | Done(result: Result)

  datatype State = State(
    names: seq<string>,
    hasInterval: bool,
    main: Main,
    tunnels: seq<Phase>,
    runErrs: seq<TunnelError>,
    ctxDone: bool,
    cancelled: bool)

  function Message(names: seq<string>, e: TunnelError): string
    requires e.tunnel < |names|
  {
    "tunnel " + names[e.tunnel] + ": " + e.err
  }

  predicate TunnelsExist(names: seq<string>, errs: seq<TunnelError>) {
    forall k :: 0 <= k < |errs| ==> errs[k].tunnel < |names|
  }

  function Messages(names: seq<string>, errs: seq<TunnelError>): (r: seq<string>)
    requires TunnelsExist(names, errs)
  {
    seq(|errs|, k requires 0 <= k < |errs| => Message(names, errs[k]))
  }

  /** The nil test of `Run` and `joinTunnelErrors`. */
  function JoinTunnelErrors(names: seq<string>, errs: seq<TunnelError>): (r: Result)
    requires TunnelsExist(names, errs)
  {
    if |errs| == 0 then Nil
    else if |errs| == 1 then Single(errs[0])
    else Multiple(|errs|, Text.Join(Messages(names, errs), "; "))
  }

  function Init(names: seq<string>, hasInterval: bool): State {
    State(names, hasInterval, StartNext(0), seq(|names|, _ => NotStarted), [], false, false)
  }

  datatype Action =
    | CancelContext
    | RunReturns(i: nat, outcome: Outcome)
    | Record(i: nat)     // append under the mutex
    | Cancel(i: nat)     // the failed tunnel cancels the group
    | Exit(i: nat)       // the tunnel is done
    | MainStart | MainTimer | MainInterrupted | MainJoined

  predicate GroupDone(s: State) {
    s.ctxDone || s.cancelled
  }

  predicate AllEnded(s: State) {
    forall i :: 0 <= i < |s.tunnels| ==> s.tunnels[i].NotStarted? || s.tunnels[i].Ended?
  }

  predicate Enabled(s: State, a: Action) {
    match a
    case CancelContext => !s.ctxDone
    case RunReturns(i, _) => i < |s.tunnels| && s.tunnels[i].Running?
    case Record(i) => i < |s.tunnels| && s.tunnels[i].Returned? && s.tunnels[i].outcome.Failed?
    case Cancel(i) => i < |s.tunnels| && s.tunnels[i].Recorded?
    case Exit(i) =>
      i < |s.tunnels|
      && (s.tunnels[i].Cancelled? || (s.tunnels[i].Returned? && s.tunnels[i].outcome.Clean?))
    case MainStart => s.main.StartNext? && s.main.i < |s.tunnels|
    case MainTimer => s.main.Interval?
    case MainInterrupted => s.main.Interval? && GroupDone(s)
    case MainJoined => s.main.Join? && AllEnded(s) && TunnelsExist(s.names, s.runErrs)
  }

  function AfterStart(s: State, i: nat): Main {
    if i + 1 == |s.tunnels| then Join else if s.hasInterval then Interval(i) else StartNext(i + 1)
  }

  function Apply(s: State, a: Action): State
    requires Enabled(s, a)
  {
    match a
    case CancelContext => s.(ctxDone := true)
    case RunReturns(i, outcome) => s.(tunnels := s.tunnels[i := Returned(outcome)])
    case Record(i) =>
      var outcome := s.tunnels[i].outcome;
      s.(tunnels := s.tunnels[i := Recorded(outcome)], runErrs := s.runErrs + [TunnelError(i, outcome.err)])
    case Cancel(i) => s.(tunnels := s.tunnels[i := Cancelled(s.tunnels[i].outcome)], cancelled := true)
    case Exit(i) => s.(tunnels := s.tunnels[i := Ended(s.tunnels[i].outcome)])
    case MainStart => s.(tunnels := s.tunnels[s.main.i := Running], main := AfterStart(s, s.main.i))
    case MainTimer => s.(main := StartNext(s.main.i + 1))
    case MainInterrupted => s.(main := Join)
    case MainJoined => s.(main := Done(JoinTunnelErrors(s.names, s.runErrs)))
  }

  function Exec(s: State, actions: seq<Action>): Option<State>
    decreases |actions|
  {
    if actions == [] then Some(s)
    else if !Enabled(s, actions[0]) then None
    else Exec(Apply(s, actions[0]), actions[1..])
  }

  // ----- the invariant -----

  /** The tunnel ran and returned a non-cancellation error. */
  predicate FailedWith(p: Phase, e: Error) {
    (p.Returned? || p.Recorded? || p.Cancelled? || p.Ended?) && p.outcome == Failed(e)
  }

  /** The tunnel's goroutine is past its append. */
  predicate Appended(p: Phase, e: Error) {
    (p.Recorded? || p.Cancelled? || p.Ended?) && p.outcome == Failed(e)
  }

  predicate Listed(errs: seq<TunnelError>, e: TunnelError) {
    exists k :: 0 <= k < |errs| && errs[k] == e
  }

  /** runErrs holds the error of every tunnel that got past its append, once each, and nothing else. */
  ghost predicate ErrorsExact(s: State) {
    && (forall k :: 0 <= k < |s.runErrs| ==>
          s.runErrs[k].tunnel < |s.tunnels| && Appended(s.tunnels[s.runErrs[k].tunnel], s.runErrs[k].err))
    && (forall i, e :: 0 <= i < |s.tunnels| && Appended(s.tunnels[i], e) ==> Listed(s.runErrs, TunnelError(i, e)))
    && (forall j, k :: 0 <= j < k < |s.runErrs| ==> s.runErrs[j].tunnel != s.runErrs[k].tunnel)
  }

  /** Exactly the first m tunnels have been started. */
  predicate StartedPrefix(s: State, m: nat) {
    m <= |s.tunnels| && forall k :: 0 <= k < |s.tunnels| ==> (s.tunnels[k].NotStarted? <==> m <= k)
  }

  /** All tunnels were started, or the start loop was cut short by a done group. */
  predicate LoopOver(s: State, m: nat) {
    StartedPrefix(s, m) && 0 < m && (m < |s.tunnels| ==> GroupDone(s) && s.hasInterval)
  }

  ghost predicate MainMatches(s: State) {
    match s.main
    case StartNext(i) => i < |s.tunnels| && StartedPrefix(s, i)
    case Interval(i) => i + 1 < |s.tunnels| && StartedPrefix(s, i + 1) && s.hasInterval
    case Join => exists m: nat :: LoopOver(s, m)
    case Done(result) => (exists m: nat :: LoopOver(s, m)) && AllEnded(s)
                         && TunnelsExist(s.names, s.runErrs) && result == JoinTunnelErrors(s.names, s.runErrs)
  }

  /** A phase in which the tunnel has run and failed. */
  predicate HasFailed(p: Phase) {
    (p.Returned? || p.Recorded? || p.Cancelled? || p.Ended?) && p.outcome.Failed?
  }

  /** Past its call of cancel. */
  predicate HasCancelled(p: Phase) {
    p.Cancelled? || (p.Ended? && p.outcome.Failed?)
  }

  /** Only a failing tunnel cancels the group, and one that has ended did. */
  ghost predicate CancelMatches(s: State) {
    && (s.cancelled ==> exists i :: 0 <= i < |s.tunnels| && HasFailed(s.tunnels[i]))
    && (forall i :: 0 <= i < |s.tunnels| && HasCancelled(s.tunnels[i]) ==> s.cancelled)
    && (forall i :: 0 <= i < |s.tunnels| && (s.tunnels[i].Recorded? || s.tunnels[i].Cancelled?) ==>
          s.tunnels[i].outcome.Failed?)
  }

  ghost predicate Inv(s: State) {
    && 0 < |s.names| == |s.tunnels|
    && ErrorsExact(s) && MainMatches(s) && CancelMatches(s)
  }

  lemma InitInv(names: seq<string>, hasInterval: bool)
    requires names != []
    ensures Inv(Init(names, hasInterval))
  {
  }

  lemma StaysListed(errs: seq<TunnelError>, more: seq<TunnelError>, e: TunnelError)
    requires Listed(errs, e)
    ensures Listed(errs + more, e)
  {
    var k :| 0 <= k < |errs| && errs[k] == e;
    assert (errs + more)[k] == e;
  }

  lemma AppendStaysExact(s: State, i: nat)
    requires ErrorsExact(s) && Enabled(s, Record(i))
    ensures ErrorsExact(Apply(s, Record(i)))
  {
    hide Listed;
    var t := Apply(s, Record(i));
    var added := TunnelError(i, s.tunnels[i].outcome.err);
    forall j, e | 0 <= j < |t.tunnels| && Appended(t.tunnels[j], e)
      ensures Listed(t.runErrs, TunnelError(j, e))
    {
      if j == i {
        LastIsListed(s.runErrs, added);
      } else {
        assert t.tunnels[j] == s.tunnels[j];
        StaysListed(s.runErrs, [added], TunnelError(j, e));
      }
    }
  }

  lemma LastIsListed(errs: seq<TunnelError>, e: TunnelError)
    ensures Listed(errs + [e], e)
  {
    assert (errs + [e])[|errs|] == e;
  }

  lemma StepErrorsExact(s: State, a: Action)
    requires Inv(s) && Enabled(s, a)
    ensures ErrorsExact(Apply(s, a))
  {
    hide GroupDone, AllEnded, TunnelsExist, Listed, LoopOver;
    var t := Apply(s, a);
    if a.Record? {
      AppendStaysExact(s, a.i);
    } else {
      forall i, e | 0 <= i < |t.tunnels| && Appended(t.tunnels[i], e)
        ensures Listed(t.runErrs, TunnelError(i, e))
      {
        assert Appended(s.tunnels[i], e);
      }
    }
  }

  lemma StepMainMatches(s: State, a: Action)
    requires Inv(s) && Enabled(s, a)
    ensures MainMatches(Apply(s, a))
  {
    hide ErrorsExact, TunnelsExist, CancelMatches, JoinTunnelErrors;
    var t := Apply(s, a);
    match s.main {
      case StartNext(i) =>
        if a.MainStart? && t.main.Join? {
          assert LoopOver(t, i + 1);
        }
      case Interval(i) =>
        if a.MainInterrupted? {
          assert LoopOver(t, i + 1);
        }
      case _ =>
        var m: nat :| LoopOver(s, m);
        assert LoopOver(t, m);
    }
  }

  lemma StepCancelMatches(s: State, a: Action)
    requires Inv(s) && Enabled(s, a)
    ensures CancelMatches(Apply(s, a))
  {
    hide ErrorsExact, AllEnded, TunnelsExist, JoinTunnelErrors, LoopOver;
    var t := Apply(s, a);
    if s.cancelled {
      var i :| 0 <= i < |s.tunnels| && HasFailed(s.tunnels[i]);
      assert HasFailed(t.tunnels[i]);
    } else if t.cancelled {
      assert HasFailed(t.tunnels[a.i]);
    }
  }

  lemma {:induction false} ExecInv(s: State, actions: seq<Action>)
    requires Inv(s) && Exec(s, actions).Some?
    ensures Inv(Exec(s, actions).value)
    ensures Exec(s, actions).value.names == s.names && Exec(s, actions).value.hasInterval == s.hasInterval
    decreases |actions|
  {
    hide ErrorsExact, MainMatches, CancelMatches;
    if actions != [] {
      StepErrorsExact(s, actions[0]);
      StepMainMatches(s, actions[0]);
      StepCancelMatches(s, actions[0]);
      ExecInv(Apply(s, actions[0]), actions[1..]);
    }
  }

  // ----- what every interleaving guarantees -----

  /** The tunnels' own account of what went wrong. */
  predicate SomeFailed(s: State) {
    exists i :: 0 <= i < |s.tunnels| && HasFailed(s.tunnels[i])
  }

  /** errs lists exactly the failures of the tunnels: each failed tunnel once, with its own error. */
  ghost predicate ExactlyTheFailures(s: State, errs: seq<TunnelError>) {
    && (forall e: TunnelError :: e in errs <==> e.tunnel < |s.tunnels| && FailedWith(s.tunnels[e.tunnel], e.err))
    && (forall j, k :: 0 <= j < k < |errs| ==> errs[j].tunnel != errs[k].tunnel)
  }

  /** What `Run` must report for a list of failures: a lone error as itself, several as a count and their texts. */
  predicate Reports(names: seq<string>, result: Result, errs: seq<TunnelError>) {
    && (result.Nil? ==> errs == [])
    && (result.Single? ==> errs == [result.error])
    && (result.Multiple? ==> result.count == |errs| >= 2 && TunnelsExist(names, errs)
                             && result.text == Text.Join(Messages(names, errs), "; "))
  }

  /** In every reachable state the started tunnels are a prefix of the list. If `Run` has returned, all of them
      have ended; it returned nil exactly when none of them failed, and otherwise reports exactly the failures,
      each once; tunnels were left unstarted only if the context ended or some tunnel failed. */
  lemma RunReportsExactly(names: seq<string>, hasInterval: bool, actions: seq<Action>)
    requires names != [] && Exec(Init(names, hasInterval), actions).Some?
    ensures var s := Exec(Init(names, hasInterval), actions).value;
            (exists m: nat :: StartedPrefix(s, m))
            && (s.main.Done? ==>
                 (AllEnded(s)
                 && (s.main.result.Nil? <==> !SomeFailed(s))
                 && (exists errs :: ExactlyTheFailures(s, errs) && Reports(s.names, s.main.result, errs))))
  {
    hide Exec, Inv, StartedPrefix, AllEnded, SomeFailed, ExactlyTheFailures, Reports;
    InitInv(names, hasInterval);
    ExecInv(Init(names, hasInterval), actions);
    var s := Exec(Init(names, hasInterval), actions).value;
    InvStartsPrefix(s);
    if s.main.Done? {
      InvReportsExactly(s);
    }
  }

  lemma InvStartsPrefix(s: State)
    requires Inv(s)
    ensures exists m: nat :: StartedPrefix(s, m)
  {
    hide ErrorsExact, CancelMatches, StartedPrefix;
    match s.main {
      case StartNext(i) => assert StartedPrefix(s, i);
      case Interval(i) => assert StartedPrefix(s, i + 1);
      case _ =>
        var m: nat :| LoopOver(s, m);
        assert StartedPrefix(s, m);
    }
  }

  lemma EndedErrorsExact(s: State)
    requires ErrorsExact(s) && AllEnded(s)
    ensures ExactlyTheFailures(s, s.runErrs)
    ensures SomeFailed(s) <==> s.runErrs != []
  {
    forall e: TunnelError
      ensures e in s.runErrs <==> e.tunnel < |s.tunnels| && FailedWith(s.tunnels[e.tunnel], e.err)
    {
      if e.tunnel < |s.tunnels| && FailedWith(s.tunnels[e.tunnel], e.err) {
        assert Appended(s.tunnels[e.tunnel], e.err);
        assert Listed(s.runErrs, TunnelError(e.tunnel, e.err));
      }
    }
    if i :| 0 <= i < |s.tunnels| && HasFailed(s.tunnels[i]) {
      assert TunnelError(i, s.tunnels[i].outcome.err) in s.runErrs;
    }
    if s.runErrs != [] {
      assert s.runErrs[0] in s.runErrs;
      assert HasFailed(s.tunnels[s.runErrs[0].tunnel]);
    }
  }

  lemma InvReportsExactly(s: State)
    requires Inv(s) && s.main.Done?
    ensures AllEnded(s) && (s.main.result.Nil? <==> !SomeFailed(s))
    ensures exists errs :: ExactlyTheFailures(s, errs) && Reports(s.names, s.main.result, errs)
  {
    hide AllEnded, ErrorsExact, CancelMatches, SomeFailed, ExactlyTheFailures, Messages, Text.Join, LoopOver;
    EndedErrorsExact(s);
    assert Reports(s.names, s.main.result, s.runErrs);
  }

  /** A tunnel that never started by the time `Run` returns was skipped because the caller's context ended or another
      tunnel failed, and only while waiting between starts: without an interval every tunnel is started. */
  lemma SkippedOnlyWhenCancelled(names: seq<string>, hasInterval: bool, actions: seq<Action>, i: nat)
    requires names != [] && Exec(Init(names, hasInterval), actions).Some?
    requires var s := Exec(Init(names, hasInterval), actions).value;
             s.main.Done? && i < |s.tunnels| && s.tunnels[i].NotStarted?
    ensures var s := Exec(Init(names, hasInterval), actions).value;
            hasInterval && i > 0 && (s.ctxDone || SomeFailed(s))
  {
    hide Exec, ErrorsExact, TunnelsExist, JoinTunnelErrors;
    InitInv(names, hasInterval);
    ExecInv(Init(names, hasInterval), actions);
    var s := Exec(Init(names, hasInterval), actions).value;
    var m: nat :| LoopOver(s, m);
  }

  /** The tunnels of the Record actions, in the order they happened. */
  function RecordOrder(actions: seq<Action>): seq<nat>
    decreases |actions|
  {
    if actions == [] then []
    else (if actions[0].Record? then [actions[0].i] else []) + RecordOrder(actions[1..])
  }

  function TunnelsOf(errs: seq<TunnelError>): seq<nat> {
    seq(|errs|, k requires 0 <= k < |errs| => errs[k].tunnel)
  }

  lemma StepOrder(s: State, a: Action)
    requires Enabled(s, a)
    ensures TunnelsOf(Apply(s, a).runErrs) == TunnelsOf(s.runErrs) + if a.Record? then [a.i] else []
  {
    hide AllEnded, GroupDone, TunnelsExist, JoinTunnelErrors, AfterStart;
  }

  /** The texts of several failures stand in the order in which the tunnels failed, not in list order. */
  lemma {:induction false} ErrorsInArrivalOrder(s: State, actions: seq<Action>)
    requires Exec(s, actions).Some?
    ensures TunnelsOf(Exec(s, actions).value.runErrs) == TunnelsOf(s.runErrs) + RecordOrder(actions)
    decreases |actions|
  {
    hide TunnelsOf, Enabled, Apply;
    if actions != [] {
      StepOrder(s, actions[0]);
      ErrorsInArrivalOrder(Apply(s, actions[0]), actions[1..]);
    }
  }

  predicate IsMainAction(a: Action) {
    a.MainStart? || a.MainTimer? || a.MainInterrupted? || a.MainJoined?
  }

  /** How many steps the start loop and the wait have left at most. */
  function StepsLeft(s: State): int {
    match s.main
    case StartNext(i) => 2 * (|s.tunnels| - i) + 1
    case Interval(i) => 2 * (|s.tunnels| - i)
    case Join => 1
    case Done(_) => 0
  }

  function MainSteps(actions: seq<Action>): nat
    decreases |actions|
  {
    if actions == [] then 0 else MainSteps(actions[1..]) + if IsMainAction(actions[0]) then 1 else 0
  }

  lemma StepShortens(s: State, a: Action)
    requires Inv(s) && Enabled(s, a)
    ensures 0 <= StepsLeft(Apply(s, a)) && (s.main.Done? <==> StepsLeft(s) == 0)
    ensures StepsLeft(Apply(s, a)) + (if IsMainAction(a) then 1 else 0) <= StepsLeft(s)
  {
    hide ErrorsExact, CancelMatches, LoopOver, TunnelsExist, JoinTunnelErrors, AllEnded;
  }

  lemma {:induction false} ExecShortens(s: State, actions: seq<Action>)
    requires Inv(s) && Exec(s, actions).Some?
    ensures MainSteps(actions) + StepsLeft(Exec(s, actions).value) <= StepsLeft(s)
    decreases |actions|
  {
    hide ErrorsExact, MainMatches, CancelMatches, StepsLeft;
    if actions != [] {
      StepShortens(s, actions[0]);
      StepErrorsExact(s, actions[0]);
      StepMainMatches(s, actions[0]);
      StepCancelMatches(s, actions[0]);
      ExecShortens(Apply(s, actions[0]), actions[1..]);
    }
  }

  /** `Run` returns: it makes at most 2n + 1 steps of its own in any run, and whenever every started tunnel has
      ended it can make one, until it has returned. */
  lemma AlwaysReturns(names: seq<string>, hasInterval: bool, actions: seq<Action>)
    requires names != [] && Exec(Init(names, hasInterval), actions).Some?
    ensures var s := Exec(Init(names, hasInterval), actions).value;
            MainSteps(actions) <= 2 * |names| + 1 && (MainSteps(actions) == 2 * |names| + 1 ==> s.main.Done?)
            && (AllEnded(s) && !s.main.Done? ==> exists a :: IsMainAction(a) && Enabled(s, a))
  {
    hide Exec, CancelMatches, LoopOver;
    InitInv(names, hasInterval);
    ExecInv(Init(names, hasInterval), actions);
    ExecShortens(Init(names, hasInterval), actions);
    var s := Exec(Init(names, hasInterval), actions).value;
    if AllEnded(s) && !s.main.Done? {
      var a := match s.main
               case StartNext(_) => MainStart
               case Interval(_) => MainTimer
               case _ => MainJoined;
      assert IsMainAction(a) && Enabled(s, a);
    }
  }

  // ----- the text of several failures -----

  /** Two failures are counted and named; each further one is appended behind "; ". */
  lemma FailureText(names: seq<string>, errs: seq<TunnelError>, e: TunnelError)
    requires TunnelsExist(names, errs) && e.tunnel < |names|
    ensures |errs| == 0 ==> JoinTunnelErrors(names, errs + [e]) == Single(e)
    ensures |errs| == 1 ==>
              JoinTunnelErrors(names, errs + [e])
              == Multiple(2, "tunnel " + names[errs[0].tunnel] + ": " + errs[0].err
                             + "; tunnel " + names[e.tunnel] + ": " + e.err)
    ensures |errs| >= 2 ==>
              JoinTunnelErrors(names, errs + [e])
              == Multiple(|errs| + 1, JoinTunnelErrors(names, errs).text
                                      + "; tunnel " + names[e.tunnel] + ": " + e.err)
  {
    hide Text.Join, Message;
    if |errs| >= 1 {
      var front, last := Messages(names, errs), Message(names, e);
      assert Messages(names, errs + [e]) == front + [last];
      Text.JoinAppend(front, [last], "; ");
      Text.JoinOne(last, "; ");
      MessageText(names, e);
      if |errs| == 1 {
        assert front == [Message(names, errs[0])];
        Text.JoinOne(front[0], "; ");
        MessageText(names, errs[0]);
      }
    }
  }

  lemma MessageText(names: seq<string>, e: TunnelError)
    requires e.tunnel < |names|
    ensures Message(names, e) == "tunnel " + names[e.tunnel] + ": " + e.err
    ensures forall before: string ::
              before + "; " + Message(names, e) == before + "; tunnel " + names[e.tunnel] + ": " + e.err
  {
    assert "; tunnel " == "; " + "tunnel ";
    forall before: string
      ensures before + "; " + Message(names, e) == before + "; tunnel " + names[e.tunnel] + ": " + e.err
    {
      Regroup(before, "; ", "tunnel ", names[e.tunnel], ": ", e.err);
    }
  }

  lemma Regroup(a: string, b: string, c: string, d: string, e: string, f: string)
    ensures a + b + (c + d + e + f) == a + (b + c) + d + e + f
  {
  }

  // ----- the start loop -----

  predicate Cancels(actions: seq<Action>) {
    exists k :: 0 <= k < |actions| && (actions[k] == CancelContext || actions[k].Cancel?)
  }

  lemma {:induction false} GroupDoneAfter(s: State, actions: seq<Action>)
    requires Exec(s, actions).Some?
    ensures GroupDone(Exec(s, actions).value) <==> GroupDone(s) || Cancels(actions)
    decreases |actions|
  {
    hide JoinTunnelErrors, AllEnded, TunnelsExist;
    if actions != [] {
      var rest := actions[1..];
      GroupDoneAfter(Apply(s, actions[0]), rest);
      assert actions == [actions[0]] + rest;
      if Cancels(rest) {
        var k :| 0 <= k < |rest| && (rest[k] == CancelContext || rest[k].Cancel?);
        assert actions[k + 1] == rest[k];
      }
      if Cancels(actions) {
        var k :| 0 <= k < |actions| && (actions[k] == CancelContext || actions[k].Cancel?);
        assert k > 0 ==> rest[k - 1] == actions[k];
      }
    }
  }

  /** An interval can be interrupted exactly when the context has ended or a failed tunnel has cancelled the group. */
  lemma InterruptedIff(names: seq<string>, hasInterval: bool, actions: seq<Action>)
    requires Exec(Init(names, hasInterval), actions).Some?
    requires Exec(Init(names, hasInterval), actions).value.main.Interval?
    ensures Enabled(Exec(Init(names, hasInterval), actions).value, MainInterrupted) <==> Cancels(actions)
  {
    GroupDoneAfter(Init(names, hasInterval), actions);
  }

  predicate PastStarts(s: State) {
    s.main.Join? || s.main.Done?
  }

  lemma {:induction false} NoStartFrom(s: State, actions: seq<Action>)
    requires PastStarts(s) && Exec(s, actions).Some?
    ensures MainStart !in actions
    decreases |actions|
  {
    hide JoinTunnelErrors, AllEnded, TunnelsExist;
    if actions != [] {
      NoStartFrom(Apply(s, actions[0]), actions[1..]);
      assert actions == [actions[0]] + actions[1..];
    }
  }

  /** Once the start loop is interrupted no further tunnel is started. */
  lemma {:induction false} NoStartAfterInterrupt(s: State, actions: seq<Action>, k: nat)
    requires Exec(s, actions).Some? && k < |actions| && actions[k] == MainInterrupted
    ensures MainStart !in actions[k..]
    decreases |actions|
  {
    hide JoinTunnelErrors, AllEnded, TunnelsExist;
    if k == 0 {
      NoStartFrom(Apply(s, actions[0]), actions[1..]);
      assert actions[0..] == [actions[0]] + actions[1..];
    } else {
      NoStartAfterInterrupt(Apply(s, actions[0]), actions[1..], k - 1);
      assert actions[k..] == actions[1..][k - 1..];
    }
  }

  lemma {:induction false} TimerBeforeStart(s: State, actions: seq<Action>, j: nat)
    requires (s.main.Interval? || PastStarts(s)) && Exec(s, actions).Some? && j < |actions| && actions[j] == MainStart
    ensures exists t :: 0 <= t < j && actions[t] == MainTimer
    decreases |actions|
  {
    hide JoinTunnelErrors, AllEnded, TunnelsExist;
    if actions[0] != MainTimer {
      TimerBeforeStart(Apply(s, actions[0]), actions[1..], j - 1);
      var t :| 0 <= t < j - 1 && actions[1..][t] == MainTimer;
      assert actions[t + 1] == MainTimer;
    }
  }

  /** With a start interval, the timer fires between any two starts. */
  lemma {:induction false} StartsAreSpaced(s: State, actions: seq<Action>, i: nat, j: nat)
    requires s.hasInterval && Exec(s, actions).Some?
    requires i < j < |actions| && actions[i] == MainStart && actions[j] == MainStart
    ensures exists t :: i < t < j && actions[t] == MainTimer
    decreases |actions|
  {
    hide JoinTunnelErrors, AllEnded, TunnelsExist;
    var next, rest := Apply(s, actions[0]), actions[1..];
    if i == 0 {
      TimerBeforeStart(next, rest, j - 1);
      var t :| 0 <= t < j - 1 && rest[t] == MainTimer;
      assert actions[t + 1] == MainTimer;
    } else {
      StartsAreSpaced(next, rest, i - 1, j - 1);
      var t :| i - 1 < t < j - 1 && rest[t] == MainTimer;
      assert actions[t + 1] == MainTimer;
    }
  }

  /** A failure does stop the starts: the first tunnel fails during the first interval, no other is ever started,
      and its error is what `Run` returns. */
  lemma FailureStopsStarts(names: seq<string>, e: Error)
    requires |names| >= 2
    ensures var actions := [MainStart, RunReturns(0, Failed(e)), Record(0), Cancel(0), MainInterrupted, Exit(0),
                MainJoined];
            var end := Exec(Init(names, true), actions);
            end.Some? && end.value.main == Done(Single(TunnelError(0, e)))
            && |end.value.tunnels| == |names| && forall k :: 1 <= k < |names| ==> end.value.tunnels[k] == NotStarted
  {
    hide Exec;
    var s0 := Init(names, true);
    var s1 := Apply(s0, MainStart);
    var s2 := Apply(s1, RunReturns(0, Failed(e)));
    var s3 := Apply(s2, Record(0));
    var s4 := Apply(s3, Cancel(0));
    var s5 := Apply(s4, MainInterrupted);
    var s6 := Apply(s5, Exit(0));
    var s7 := Apply(s6, MainJoined);
    var a6, a5 := [MainJoined], [Exit(0), MainJoined];
    var a4 := [MainInterrupted] + a5;
    var a3 := [Cancel(0)] + a4;
    var a2 := [Record(0)] + a3;
    var a1 := [RunReturns(0, Failed(e))] + a2;
    ExecStep(s0, MainStart, a1);
    ExecStep(s1, RunReturns(0, Failed(e)), a2);
    ExecStep(s2, Record(0), a3);
    ExecStep(s3, Cancel(0), a4);
    ExecStep(s4, MainInterrupted, a5);
    ExecStep(s5, Exit(0), a6);
    ExecStep(s6, MainJoined, []);
    assert [Exit(0)] + a6 == a5 && [MainJoined] + [] == a6;
    assert [MainStart] + a1
        == [MainStart, RunReturns(0, Failed(e)), Record(0), Cancel(0), MainInterrupted, Exit(0), MainJoined];
    assert Exec(s7, []) == Some(s7) by { ExecNothing(s7); }
  }

  lemma ExecStep(s: State, a: Action, rest: seq<Action>)
    requires Enabled(s, a)
    ensures Exec(s, [a] + rest) == Exec(Apply(s, a), rest)
  {
    hide Enabled, Apply;
    assert ([a] + rest)[1..] == rest;
  }

  lemma ExecNothing(s: State)
    ensures Exec(s, []) == Some(s)
  {
  }
}
