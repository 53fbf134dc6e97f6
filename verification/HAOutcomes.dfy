/** What the HA supervisor returns and when it starts connections: laws over all its runs. */
module HAOutcomes {
  import opened Results
  import opened HASupervisor

  // ----- what it returns -----

  /** The supervisor stops waiting for events and cancels the group. */
  predicate CancelsGroup(a: Action) {
    a.MainContext? || a.MainError? || a.MainFirstResult?
  }

  /** Action k of the run cancels the group, action j finds it drained, and r is returned: the context's error after the
      context's end; otherwise the error or first result received at k, unless, outside the registration interval, the
      context has ended by j. */
  ghost predicate Returns(start: State, actions: seq<Action>, k: nat, j: nat, r: HASupervisor.Result)
    requires k < j < |actions| && Exec(start, actions[..k]).Some? && Exec(start, actions[..j]).Some?
  {
    var atCause, atEnd := Exec(start, actions[..k]).value, Exec(start, actions[..j]).value;
    actions[j] == MainDrained
    && match actions[k]
       case MainContext => r == ContextError
       case MainError =>
         atCause.errCh.Some?
         && r == if atEnd.ctxDone && !atCause.main.Interval? then ContextError else ConnError(atCause.errCh.value)
       case MainFirstResult =>
         atCause.firstResult.Some?
         && r == (if atEnd.ctxDone then ContextError
                  else if atCause.firstResult.value.Some? then ConnError(atCause.firstResult.value.value)
                  else Nil)
       case _ => false
  }

  lemma {:induction false} DoneStays(s: State, actions: seq<Action>)
    requires s.main.Done? && Exec(s, actions).Some?
    ensures Exec(s, actions).value.main == s.main
    decreases |actions|
  {
    if actions != [] {
      DoneStays(Apply(s, actions[0]), actions[1..]);
    }
  }

  /** From a cancelled group only the drained step leads on. */
  lemma {:induction false} DrainingEnds(s: State, actions: seq<Action>) returns (j: nat)
    requires s.main.Draining? && Exec(s, actions).Some? && Exec(s, actions).value.main.Done?
    ensures j < |actions| && actions[j] == MainDrained && Exec(s, actions[..j]).Some?
    ensures Exec(s, actions).value.main == Done(DrainedResult(s.main.cause, Exec(s, actions[..j]).value.ctxDone))
    decreases |actions|
  {
    var t := Apply(s, actions[0]);
    if actions[0] == MainDrained {
      DoneStays(t, actions[1..]);
      j := 0;
      assert Exec(s, actions[..0]) == Some(s);
    } else {
      j := DrainingEnds(t, actions[1..]);
      j := j + 1;
      assert actions[..j][1..] == actions[1..][..j - 1];
    }
  }

  lemma EnabledAt(s: State, actions: seq<Action>, k: nat)
    requires k < |actions| && Exec(s, actions).Some?
    ensures Exec(s, actions[..k]).Some? && Enabled(Exec(s, actions[..k]).value, actions[k])
    ensures Exec(s, actions[..k + 1]) == Some(Apply(Exec(s, actions[..k]).value, actions[k]))
  {
    hide Enabled, Apply;
    ExecPrefix(s, actions, k);
    assert actions[k..][0] == actions[k];
    assert actions[..k + 1] == actions[..k] + [actions[k]];
    Exec1(Exec(s, actions[..k]).value, actions[k]);
    ExecAppend(s, actions[..k], [actions[k]]);
  }

  /** What is received is what is returned: in every run that returns, each action that cancels the group determines the
      result as `Returns` says. */
  lemma ReceivedIsReturned(n: nat, hasInterval: bool, actions: seq<Action>, k: nat) returns (j: nat)
    requires 2 <= n <= MAX_HA_CONNECTIONS && Exec(Init(n, hasInterval), actions).Some?
    requires Exec(Init(n, hasInterval), actions).value.main.Done? && k < |actions| && CancelsGroup(actions[k])
    ensures k < j < |actions|
    ensures Exec(Init(n, hasInterval), actions[..k]).Some? && Exec(Init(n, hasInterval), actions[..j]).Some?
    ensures Returns(Init(n, hasInterval), actions, k, j, Exec(Init(n, hasInterval), actions).value.main.result)
  {
    hide Exec;
    var s0 := Init(n, hasInterval);
    EnabledAt(s0, actions, k);
    ExecPrefix(s0, actions, k + 1);
    var t := Exec(s0, actions[..k + 1]).value;
    var i := DrainingEnds(t, actions[k + 1..]);
    j := k + 1 + i;
    assert actions[k + 1..][i] == actions[j];
    assert actions[..j] == actions[..k + 1] + actions[k + 1..][..i];
    ExecAppend(s0, actions[..k + 1], actions[k + 1..][..i]);
  }

  lemma {:induction false} SomethingEnded(s: State, actions: seq<Action>) returns (k: nat)
    requires !s.main.Draining? && !s.main.Done? && Exec(s, actions).Some? && Exec(s, actions).value.main.Done?
    ensures k < |actions| && (CancelsGroup(actions[k]) || actions[k] == MainDone)
    decreases |actions|
  {
    if CancelsGroup(actions[0]) || actions[0] == MainDone {
      k := 0;
    } else {
      k := SomethingEnded(Apply(s, actions[0]), actions[1..]);
      k := k + 1;
    }
  }

  /** Action k receives a first result without error. */
  predicate CleanFirst(start: State, actions: seq<Action>, k: int)
    requires 0 <= k < |actions|
  {
    actions[k] == MainFirstResult && Exec(start, actions[..k]).Some?
    && Exec(start, actions[..k]).value.firstResult == Some(None)
  }

  /** Every run that returns has received something, which determines the result, or has seen all connections end, and
      then returns nil. Otherwise nil comes only of a first result without error. */
  lemma ResultLaw(n: nat, hasInterval: bool, actions: seq<Action>)
    requires 2 <= n <= MAX_HA_CONNECTIONS && Exec(Init(n, hasInterval), actions).Some?
    requires Exec(Init(n, hasInterval), actions).value.main.Done?
    ensures exists k :: 0 <= k < |actions| && (CancelsGroup(actions[k]) || actions[k] == MainDone)
    ensures MainDone in actions ==> Exec(Init(n, hasInterval), actions).value.main.result == Nil
    ensures Exec(Init(n, hasInterval), actions).value.main.result == Nil && MainDone !in actions ==>
              exists k :: 0 <= k < |actions| && CleanFirst(Init(n, hasInterval), actions, k)
  {
    hide Exec;
    var s0 := Init(n, hasInterval);
    var k := SomethingEnded(s0, actions);
    if MainDone in actions {
      var d :| 0 <= d < |actions| && actions[d] == MainDone;
      EnabledAt(s0, actions, d);
      ExecPrefix(s0, actions, d + 1);
      DoneStays(Exec(s0, actions[..d + 1]).value, actions[d + 1..]);
    } else {
      assert actions[k] != MainDone && CancelsGroup(actions[k]);
      var j := ReceivedIsReturned(n, hasInterval, actions, k);
      assert Exec(s0, actions).value.main.result == Nil ==> CleanFirst(s0, actions, k);
    }
  }

  // ----- when it starts connections -----

  predicate PastStarts(s: State) {
    s.main.Draining? || s.main.Done? || s.main.AwaitAll?
  }

  lemma {:induction false} NoStartFrom(s: State, actions: seq<Action>)
    requires PastStarts(s) && Exec(s, actions).Some?
    ensures MainStart !in actions
    decreases |actions|
  {
    if actions != [] {
      NoStartFrom(Apply(s, actions[0]), actions[1..]);
      assert actions == [actions[0]] + actions[1..];
    }
  }

  /** Once the group is cancelled no further connection is started. */
  lemma NoStartAfterCancel(n: nat, hasInterval: bool, actions: seq<Action>, k: nat)
    requires 2 <= n <= MAX_HA_CONNECTIONS && Exec(Init(n, hasInterval), actions).Some?
    requires k < |actions| && CancelsGroup(actions[k])
    ensures MainStart !in actions[k..]
  {
    hide Exec;
    var s0 := Init(n, hasInterval);
    EnabledAt(s0, actions, k);
    ExecPrefix(s0, actions, k + 1);
    NoStartFrom(Exec(s0, actions[..k + 1]).value, actions[k + 1..]);
    assert actions[k..] == [actions[k]] + actions[k + 1..];
  }

  lemma {:induction false} TimerBeforeStart(s: State, actions: seq<Action>, j: nat)
    requires (s.main.Interval? || PastStarts(s)) && Exec(s, actions).Some? && j < |actions| && actions[j] == MainStart
    ensures exists t :: 0 <= t < j && actions[t] == MainTimer
    decreases |actions|
  {
    if actions[0] != MainTimer {
      TimerBeforeStart(Apply(s, actions[0]), actions[1..], j - 1);
      var t :| 0 <= t < j - 1 && actions[1..][t] == MainTimer;
      assert actions[t + 1] == MainTimer;
    }
  }

  lemma {:induction false} IntervalStays(s: State, actions: seq<Action>)
    requires Exec(s, actions).Some?
    ensures Exec(s, actions).value.hasInterval == s.hasInterval
    decreases |actions|
  {
    if actions != [] {
      IntervalStays(Apply(s, actions[0]), actions[1..]);
    }
  }

  /** With a registration interval, the timer fires between any two starts. */
  lemma StartsAreSpaced(n: nat, actions: seq<Action>, i: nat, j: nat)
    requires 2 <= n <= MAX_HA_CONNECTIONS && Exec(Init(n, true), actions).Some?
    requires i < j < |actions| && actions[i] == MainStart && actions[j] == MainStart
    ensures exists t :: i < t < j && actions[t] == MainTimer
  {
    hide Exec;
    var s0 := Init(n, true);
    EnabledAt(s0, actions, i);
    ExecPrefix(s0, actions, i + 1);
    IntervalStays(s0, actions[..i]);
    var s, rest := Exec(s0, actions[..i + 1]).value, actions[i + 1..];
    assert rest[j - i - 1] == MainStart;
    TimerBeforeStart(s, rest, j - i - 1);
    var t :| 0 <= t < j - i - 1 && rest[t] == MainTimer;
    assert actions[i + 1 + t] == MainTimer;
  }

  /** A waiting supervisor notices each event it waits for: the context's end wherever it waits, an error between starts
      and at the end, and at the beginning connection 0's report and result. */
  lemma WaitingNotices(s: State)
    ensures (s.main.AwaitFirst? || s.main.Interval? || s.main.AwaitAll?) && s.ctxDone ==> Enabled(s, MainContext)
    ensures (s.main.Interval? || s.main.AwaitAll?) && s.errCh.Some? ==> Enabled(s, MainError)
    ensures s.main.AwaitFirst? && s.firstResult.Some? ==> Enabled(s, MainFirstResult)
    ensures s.main.AwaitFirst? && s.closes > 0 ==> Enabled(s, MainConnected)
  {
    hide AllEnded;
  }

  // ----- which results are possible once connected -----

  /** Connection 0 has connected and connections below i have been started. */
  predicate Starting(s: State, i: nat) {
    && s.main == StartNext(i) && 1 <= i < s.n == |s.conns|
    && (forall k :: 0 <= k < i ==> s.conns[k] == Running)
    && (forall k :: i <= k < s.n ==> s.conns[k] == NotStarted)
    && s.firstResult == None && s.errCh == None && !s.ctxDone
  }

  /** All are started, those below i and the one ahead of its turn have ended with their results, and the others are
      running. */
  predicate Finishing(s: State, results: seq<Option<Error>>, i: nat, main: Main, ahead: int) {
    && s.main == main && i <= s.n == |s.conns| == |results| && !s.ctxDone
    && (forall k :: 0 <= k < s.n && (k < i || k == ahead) ==> s.conns[k] == Ended(results[k]))
    && (forall k :: i <= k < s.n && k != ahead ==> s.conns[k] == Running)
    && (i == 0 && ahead != 0 ==> s.firstResult == None)
  }

  /** The supervisor starts the rest undisturbed. */
  lemma StartRest(s: State, i: nat, results: seq<Option<Error>>) returns (actions: seq<Action>, t: State)
    requires Starting(s, i) && |results| == s.n
    ensures Exec(s, actions) == Some(t) && Finishing(t, results, 0, AwaitAll, -1) && t.errCh == None
    decreases s.n - i
  {
    hide Exec;
    var s1 := Apply(s, MainStart);
    Exec1(s, MainStart);
    if i + 1 == s.n {
      return [MainStart], s1;
    }
    var rest;
    if s.hasInterval {
      var s2 := Apply(s1, MainTimer);
      Exec1(s1, MainTimer);
      ExecAppend(s, [MainStart], [MainTimer]);
      rest, t := StartRest(s2, i + 1, results);
      actions := ([MainStart] + [MainTimer]) + rest;
      ExecAppend(s, [MainStart] + [MainTimer], rest);
    } else {
      rest, t := StartRest(s1, i + 1, results);
      actions := [MainStart] + rest;
      ExecAppend(s, [MainStart], rest);
    }
  }

  /** A running connection returns its result and offers its error. */
  lemma ReturnAndOffer(s: State, i: nat, res: Option<Error>) returns (actions: seq<Action>, t: State)
    requires i < |s.conns| && s.conns[i] == Running && (i == 0 ==> s.firstResult == None)
    ensures Exec(s, actions) == Some(t) && t.main == s.main && t.n == s.n && t.ctxDone == s.ctxDone
    ensures t.conns == s.conns[i := Offered(res)] && (i != 0 ==> t.firstResult == s.firstResult)
    ensures s.errCh == None ==> t.errCh == res
  {
    hide Exec;
    var s1 := Apply(s, RunReturns(i, res));
    Exec1(s, RunReturns(i, res));
    actions := [RunReturns(i, res)];
    if i == 0 {
      Exec1(s1, SendFirst);
      ExecAppend(s, actions, [SendFirst]);
      actions := actions + [SendFirst];
      s1 := Apply(s1, SendFirst);
    }
    t := Apply(s1, Offer(i));
    Exec1(s1, Offer(i));
    ExecAppend(s, actions, [Offer(i)]);
    actions := actions + [Offer(i)];
  }

  /** One connection returns its result and ends. */
  lemma FinishOne(s: State, i: nat, results: seq<Option<Error>>, main: Main, ahead: int)
    returns (actions: seq<Action>, t: State)
    requires Finishing(s, results, i, main, ahead) && i < s.n
    ensures Exec(s, actions) == Some(t) && Finishing(t, results, i + 1, main, ahead)
  {
    hide Exec;
    if i == ahead {
      ExecNothing(s);
      return [], s;
    }
    var first, s1 := ReturnAndOffer(s, i, results[i]);
    t := Apply(s1, Finish(i));
    Exec1(s1, Finish(i));
    ExecAppend(s, first, [Finish(i)]);
    actions := first + [Finish(i)];
  }

  lemma FinishRest(s: State, i: nat, results: seq<Option<Error>>, main: Main, ahead: int)
    returns (actions: seq<Action>, t: State)
    requires Finishing(s, results, i, main, ahead)
    ensures Exec(s, actions) == Some(t) && Finishing(t, results, |results|, main, ahead)
    decreases |results| - i
  {
    hide Exec, Finishing;
    FinishingBound(s, results, i, main, ahead);
    if i == |results| {
      actions, t := [], s;
      ExecNothing(s);
    } else {
      var first, mid := FinishOne(s, i, results, main, ahead);
      var rest;
      rest, t := FinishRest(mid, i + 1, results, main, ahead);
      ExecAppend(s, first, rest);
      actions := first + rest;
    }
  }

  lemma FinishingBound(s: State, results: seq<Option<Error>>, i: nat, main: Main, ahead: int)
    requires Finishing(s, results, i, main, ahead)
    ensures i <= s.n == |results|
  {
  }

  /** Connection 0 connects and the supervisor starts the others. */
  lemma StartAll(n: nat, hasInterval: bool, results: seq<Option<Error>>) returns (actions: seq<Action>, t: State)
    requires 2 <= n <= MAX_HA_CONNECTIONS && |results| == n
    ensures Exec(Init(n, hasInterval), actions) == Some(t) && Finishing(t, results, 0, AwaitAll, -1) && t.errCh == None
  {
    hide Exec;
    var s0 := Init(n, hasInterval);
    var s1 := Apply(s0, Connected);
    var s2 := Apply(s1, MainConnected);
    Exec1(s0, Connected);
    Exec1(s1, MainConnected);
    ExecAppend(s0, [Connected], [MainConnected]);
    var starts;
    starts, t := StartRest(s2, 1, results);
    ExecAppend(s0, [Connected] + [MainConnected], starts);
    actions := [Connected] + [MainConnected] + starts;
  }

  /** The run exists, its connections ended with these results, and the supervisor returned this result of its own. */
  predicate EndsWith(end: Option<State>, results: seq<Option<Error>>, result: HASupervisor.Result) {
    && end.Some? && end.value.main == Done(result) && |end.value.conns| == |results|
    && (forall i :: 0 <= i < |results| ==> end.value.conns[i] == Ended(results[i]))
  }

  /** Once connected nothing protects an error: for every number of connections, with or without an interval, and
      whatever results the connections return, there is a run with these results that returns nil. */
  lemma AnyErrorCanBeLost(n: nat, hasInterval: bool, results: seq<Option<Error>>)
    requires 2 <= n <= MAX_HA_CONNECTIONS && |results| == n
    ensures exists actions :: EndsWith(Exec(Init(n, hasInterval), actions), results, Nil)
  {
    hide Exec;
    var s0 := Init(n, hasInterval);
    var starts, s1 := StartAll(n, hasInterval, results);
    var ends, s2 := FinishRest(s1, 0, results, AwaitAll, -1);
    ExecAppend(s0, starts, ends);
    Exec1(s2, MainDone);
    ExecAppend(s0, starts + ends, [MainDone]);
    assert EndsWith(Exec(s0, starts + ends + [MainDone]), results, Nil);
  }

  /** And each of them can win: there is also a run with these results that returns the error of the given
      connection. */
  lemma AnyErrorCanWin(n: nat, hasInterval: bool, results: seq<Option<Error>>, i: nat)
    requires 2 <= n <= MAX_HA_CONNECTIONS && |results| == n && i < n && results[i].Some?
    ensures exists actions :: EndsWith(Exec(Init(n, hasInterval), actions), results, ConnError(results[i].value))
  {
    hide Exec;
    var s0, e := Init(n, hasInterval), results[i].value;
    var main := Draining(ByError(e));
    var starts, s1 := StartAll(n, hasInterval, results);
    var offer, s2 := ReturnAndOffer(s1, i, results[i]);
    ExecAppend(s0, starts, offer);
    var s3 := Apply(s2, MainError);
    Exec1(s2, MainError);
    ExecAppend(s0, starts + offer, [MainError]);
    var s4 := Apply(s3, Finish(i));
    Exec1(s3, Finish(i));
    ExecAppend(s0, starts + offer + [MainError], [Finish(i)]);
    var begun := starts + offer + [MainError] + [Finish(i)];
    var ends, s5 := FinishRest(s4, 0, results, main, i);
    ExecAppend(s0, begun, ends);
    Exec1(s5, MainDrained);
    ExecAppend(s0, begun + ends, [MainDrained]);
    assert EndsWith(Exec(s0, begun + ends + [MainDrained]), results, ConnError(e));
  }
}
