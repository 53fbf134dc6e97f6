/** The reconnect loop of one connection on the shared pool, among the operations of all the others. */
module RetryOnPool {
  import opened EdgePool
  import opened Retry

  /** The operations of one connection, in order. */
  function Own(ops: seq<Op>, i: ConnIndex): seq<Op>
    decreases |ops|
  {
    if ops == [] then [] else (if ops[0].i == i then [ops[0]] else []) + Own(ops[1..], i)
  }

  /** Where the connection's k-th operation stands. */
  function Position(ops: seq<Op>, i: ConnIndex, k: nat): (p: nat)
    requires k < |Own(ops, i)|
    ensures p < |ops| && ops[p].i == i && ops[p] == Own(ops, i)[k]
    decreases |ops|
  {
    if ops[0].i != i then 1 + Position(ops[1..], i, k)
    else if k == 0 then 0
    else 1 + Position(ops[1..], i, k - 1)
  }

  lemma {:induction false} NothingBeforeFirst(ops: seq<Op>, i: ConnIndex)
    requires Own(ops, i) != []
    ensures WithoutIndex(ops[..Position(ops, i, 0)], i)
    decreases |ops|
  {
    if ops[0].i != i {
      NothingBeforeFirst(ops[1..], i);
      var p := Position(ops[1..], i, 0);
      assert ops[..1 + p] == [ops[0]] + ops[1..][..p];
    }
  }

  lemma PositionTail(ops: seq<Op>, i: ConnIndex, k: nat)
    requires k < |Own(ops, i)| && !(ops[0].i == i && k == 0)
    ensures var j := if ops[0].i == i then k - 1 else k;
            j < |Own(ops[1..], i)| && Position(ops, i, k) == 1 + Position(ops[1..], i, j)
            && |Own(ops, i)| == |Own(ops[1..], i)| + (k - j)
  {
  }

  lemma Shifted(ops: seq<Op>, i: ConnIndex, p: nat, q: nat)
    requires ops != [] && p <= q <= |ops| - 1
    ensures WithoutIndex(ops[p + 1..q + 1], i) <==> WithoutIndex(ops[1..][p..q], i)
  {
    var x, y := ops[p + 1..q + 1], ops[1..][p..q];
    assert forall k :: 0 <= k < q - p ==> x[k] == ops[p + 1 + k] && y[k] == ops[1..][p + k];
    assert x == y;
  }

  lemma {:induction false} NothingBetween(ops: seq<Op>, i: ConnIndex, k: nat)
    requires k + 1 < |Own(ops, i)|
    ensures var p, q := Position(ops, i, k), Position(ops, i, k + 1);
            p < q && WithoutIndex(ops[p + 1..q], i)
    decreases |ops|
  {
    hide Own, WithoutIndex, Position;
    OwnOfSome(ops, i);
    if ops[0].i == i && k == 0 {
      FirstPosition(ops, i);
      SecondPosition(ops, i);
    } else {
      PositionTail(ops, i, k + 1);
      PositionTail(ops, i, k);
      var j := if ops[0].i == i then k - 1 else k;
      assert j + 1 < |Own(ops[1..], i)|;
      NothingBetween(ops[1..], i, j);
      Shifted(ops, i, Position(ops[1..], i, j) + 1, Position(ops[1..], i, j + 1));
    }
  }

  lemma SecondPosition(ops: seq<Op>, i: ConnIndex)
    requires |Own(ops, i)| > 1 && ops[0].i == i
    ensures Position(ops, i, 1) > 0 && WithoutIndex(ops[1..Position(ops, i, 1)], i)
  {
    hide WithoutIndex;
    PositionTail(ops, i, 1);
    hide Position;
    NothingBeforeFirst(ops[1..], i);
    Shifted(ops, i, 0, Position(ops[1..], i, 0));
  }

  lemma OwnOfSome(ops: seq<Op>, i: ConnIndex)
    requires Own(ops, i) != []
    ensures ops != []
  {
  }

  lemma FirstPosition(ops: seq<Op>, i: ConnIndex)
    requires Own(ops, i) != [] && ops[0].i == i
    ensures Position(ops, i, 0) == 0
  {
  }

  lemma {:induction false} RunConcat(p: Pool, a: seq<Op>, b: seq<Op>)
    requires p.addrs != []
    ensures Run(p, a + b) == Run(Run(p, a), b)
    decreases |a|
  {
    if a == [] {
      assert a + b == b;
    } else {
      assert (a + b)[1..] == a[1..] + b;
      RunConcat(Step(p, a[0]), a[1..], b);
    }
  }

  lemma RunOne(p: Pool, ops: seq<Op>, k: nat)
    requires p.addrs != [] && k < |ops|
    ensures Run(p, ops[..k + 1]) == Step(Run(p, ops[..k]), ops[k])
  {
    hide Step;
    assert ops[..k + 1] == ops[..k] + [ops[k]];
    RunConcat(p, ops[..k], [ops[k]]);
    assert [ops[k]][1..] == [];
    assert Run(Step(Run(p, ops[..k]), ops[k]), []) == Step(Run(p, ops[..k]), ops[k]);
  }

  /** The pool just before the connection's k-th operation. */
  function Before(start: Pool, ops: seq<Op>, i: ConnIndex, k: nat): (p: Pool)
    requires start.addrs != [] && k < |Own(ops, i)|
    ensures p.addrs == start.addrs
  {
    Run(start, ops[..Position(ops, i, k)])
  }

  /** The pool just after it. */
  function After(start: Pool, ops: seq<Op>, i: ConnIndex, k: nat): (p: Pool)
    requires start.addrs != [] && k < |Own(ops, i)|
    ensures p.addrs == start.addrs
  {
    Run(start, ops[..Position(ops, i, k) + 1])
  }

  lemma AfterToBefore(start: Pool, ops: seq<Op>, i: ConnIndex, k: nat)
    requires start.addrs != [] && k + 1 < |Own(ops, i)|
    ensures var p, q := Position(ops, i, k), Position(ops, i, k + 1);
            p < q && WithoutIndex(ops[p + 1..q], i)
            && Before(start, ops, i, k + 1) == Run(After(start, ops, i, k), ops[p + 1..q])
  {
    hide Run;
    NothingBetween(ops, i, k);
    var p, q := Position(ops, i, k), Position(ops, i, k + 1);
    assert ops[..q] == ops[..p + 1] + ops[p + 1..q];
    RunConcat(start, ops[..p + 1], ops[p + 1..q]);
  }

  /** Over a whole run of one connection's reconnect loop, whatever the other connections do between its steps: two
      consecutive attempts use the same address exactly when, at the rotation between them, every other address was
      held. */
  lemma AttemptsMoveOn(start: Pool, ops: seq<Op>, i: ConnIndex, runs: nat, rotations: nat, m: nat)
    requires Inv(start) && runs - 1 <= rotations <= runs && m + 1 < runs
    requires Own(ops, i) == PoolOps(i, runs + rotations)
    ensures var attempt := After(start, ops, i, 2 * m);
            var rotation := Before(start, ops, i, 2 * m + 1);
            var next := After(start, ops, i, 2 * m + 2);
            i in attempt.usedBy && i in rotation.usedBy && i in next.usedBy
            && (next.usedBy[i] == attempt.usedBy[i] <==> AllElseHeld(rotation, i))
  {
    hide Run, Inv, AddrForStep, RotateStep, AllElseHeld, Own, WithoutIndex;
    var a, r, b := Position(ops, i, 2 * m), Position(ops, i, 2 * m + 1), Position(ops, i, 2 * m + 2);
    assert ops[a] == AddrFor(i) && ops[r] == Rotate(i) && ops[b] == AddrFor(i);
    assert start.addrs != [] by { InvHasAddrs(start); }
    RunKeepsInv(start, ops[..a]);
    RunOne(start, ops, a);
    RunOne(start, ops, r);
    RunOne(start, ops, b);
    AfterToBefore(start, ops, i, 2 * m);
    AfterToBefore(start, ops, i, 2 * m + 1);
    RetryMovesOn(Before(start, ops, i, 2 * m), i, ops[a + 1..r], ops[r + 1..b]);
  }

  lemma InvHasAddrs(p: Pool)
    requires Inv(p)
    ensures p.addrs != []
  {
  }
}
