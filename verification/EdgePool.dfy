/** The shared edge address pool: sticky, distinct addresses per connection index, with rotation. */
module EdgePool {
  import opened Results

  /** An address by its host:port text, the only way the pool ever compares addresses. */
  type Addr = string

  /** Connection indices are `uint8`. */
  type ConnIndex = i: int | 0 <= i < 256

  /** A pool whose address list has been resolved and is not empty. */
  datatype Pool = Pool(addrs: seq<Addr>, usedBy: map<ConnIndex, Addr>)

  function Distinct(addrs: seq<Addr>): set<Addr> {
    set a | a in addrs
  }

  // ----- the two operations, as functions -----

  /** First listed address outside `taken`. */
  function FirstOutside(addrs: seq<Addr>, taken: set<Addr>): (r: Option<Addr>)
    ensures r.Some? ==> r.value in addrs && r.value !in taken
    ensures r.None? <==> Distinct(addrs) <= taken
  {
    if addrs == [] then None
    else if addrs[0] !in taken then Some(addrs[0])
    else
      assert Distinct(addrs) == {addrs[0]} + Distinct(addrs[1..]) by { DistinctCons(addrs); }
      FirstOutside(addrs[1..], taken)
  }

  lemma DistinctCons(addrs: seq<Addr>)
    requires addrs != []
    ensures Distinct(addrs) == {addrs[0]} + Distinct(addrs[1..])
  {
    assert addrs == [addrs[0]] + addrs[1..];
  }

  /** `i mod k`. */
  function Wrap(i: nat, k: nat): (r: nat)
    requires k > 0
    ensures r < k
  {
    i % k
  }

  function ModuloAddr(p: Pool, i: ConnIndex): Addr
    requires p.addrs != []
  {
    p.addrs[Wrap(i, |p.addrs|)]
  }

  /** `addrFor` on a resolved pool: the pool afterwards; the address returned is then `usedBy[i]`. */
  function AddrForStep(p: Pool, i: ConnIndex): (q: Pool)
    requires p.addrs != []
    ensures i in q.usedBy && q.addrs == p.addrs
  {
    if i in p.usedBy then p
    else
      match FirstOutside(p.addrs, p.usedBy.Values)
      case Some(a) => p.(usedBy := p.usedBy[i := a])
      case None => p.(usedBy := p.usedBy[i := ModuloAddr(p, i)])
  }

  /** `rotate` on a resolved pool. */
  function RotateStep(p: Pool, i: ConnIndex): (q: Pool)
    requires p.addrs != []
    ensures q.addrs == p.addrs
  {
    var rest := p.usedBy - {i};
    var released := if i in p.usedBy then {p.usedBy[i]} else {};
    match FirstOutside(p.addrs, rest.Values + released)
    case Some(a) => p.(usedBy := rest[i := a])
    case None => p
  }

  datatype Op = AddrFor(i: ConnIndex) | Rotate(i: ConnIndex)

  function Step(p: Pool, op: Op): (q: Pool)
    requires p.addrs != []
    ensures q.addrs == p.addrs
  {
    match op
    case AddrFor(i) => AddrForStep(p, i)
    case Rotate(i) => RotateStep(p, i)
  }

  /** Any interleaving of the connections' operations is some sequence of them: the pool lock makes each atomic. */
  function Run(p: Pool, ops: seq<Op>): (q: Pool)
    requires p.addrs != []
    ensures q.addrs == p.addrs
    decreases |ops|
  {
    if ops == [] then p else Run(Step(p, ops[0]), ops[1..])
  }

  // ----- the allocation invariant -----

  predicate Injective(m: map<ConnIndex, Addr>) {
    forall i, j :: i in m && j in m && i != j ==> m[i] != m[j]
  }

  predicate Covers(p: Pool) {
    p.usedBy.Values == Distinct(p.addrs)
  }

  /** Bindings are listed addresses, and no two connections share one unless every address is taken. */
  predicate Inv(p: Pool) {
    && p.addrs != []
    && p.usedBy.Values <= Distinct(p.addrs)
    && (Injective(p.usedBy) || Covers(p))
  }

  lemma ValuesUpdate(m: map<ConnIndex, Addr>, i: ConnIndex, a: Addr)
    ensures m[i := a].Values == (m - {i}).Values + {a}
  {
    var n := m[i := a];
    forall x ensures x in n.Values <==> x in (m - {i}).Values + {a} {
      if x in n.Values {
        var k :| k in n && n[k] == x;
        if k != i { assert k in m - {i}; }
      }
      if x in (m - {i}).Values {
        var k :| k in m - {i} && (m - {i})[k] == x;
        assert n[k] == x;
      }
      assert n[i] == a;
    }
  }

  lemma ValuesAdd(m: map<ConnIndex, Addr>, i: ConnIndex, a: Addr)
    requires i !in m
    ensures m[i := a].Values == m.Values + {a}
  {
    ValuesUpdate(m, i, a);
    assert m - {i} == m;
  }

  lemma AddrForKeepsInv(p: Pool, i: ConnIndex)
    requires Inv(p)
    ensures Inv(AddrForStep(p, i))
    ensures Covers(p) ==> Covers(AddrForStep(p, i))
    ensures AddrForStep(p, i).usedBy - {i} == p.usedBy - {i}
  {
    if i !in p.usedBy {
      var a := AddrForStep(p, i).usedBy[i];
      ValuesAdd(p.usedBy, i, a);
    }
  }

  /** Once every address is taken, rotating changes nothing. */
  lemma RotateWhenCovered(p: Pool, i: ConnIndex)
    requires Inv(p) && Covers(p)
    ensures RotateStep(p, i) == p
  {
    var rest := p.usedBy - {i};
    if i in p.usedBy {
      ValuesUpdate(p.usedBy, i, p.usedBy[i]);
      assert p.usedBy[i := p.usedBy[i]] == p.usedBy;
    } else {
      assert rest == p.usedBy;
    }
  }

  /** While some address is free, rotating a bound index moves it to a different, free address. */
  lemma RotateMoves(p: Pool, i: ConnIndex)
    requires Inv(p) && !Covers(p) && i in p.usedBy
    ensures var q := RotateStep(p, i);
            && i in q.usedBy && q.usedBy[i] in p.addrs
            && q.usedBy[i] != p.usedBy[i] && q.usedBy[i] !in p.usedBy.Values
            && q.usedBy == p.usedBy[i := q.usedBy[i]]
  {
    var rest := p.usedBy - {i};
    ValuesUpdate(p.usedBy, i, p.usedBy[i]);
    assert p.usedBy[i := p.usedBy[i]] == p.usedBy;
    assert rest.Values + {p.usedBy[i]} == p.usedBy.Values;
    var a := FirstOutside(p.addrs, p.usedBy.Values).value;
    assert rest[i := a] == p.usedBy[i := a];
  }

  lemma RotateKeepsInv(p: Pool, i: ConnIndex)
    requires Inv(p)
    ensures Inv(RotateStep(p, i))
    ensures RotateStep(p, i).usedBy - {i} == p.usedBy - {i}
    ensures i in p.usedBy ==> i in RotateStep(p, i).usedBy
  {
    if Covers(p) {
      RotateWhenCovered(p, i);
    } else if i in p.usedBy {
      RotateMoves(p, i);
      ValuesUpdate(p.usedBy, i, RotateStep(p, i).usedBy[i]);
      ValuesUpdate(p.usedBy, i, p.usedBy[i]);
      assert p.usedBy[i := p.usedBy[i]] == p.usedBy;
    } else {
      assert p.usedBy - {i} == p.usedBy;
      var a := FirstOutside(p.addrs, p.usedBy.Values).value;
      ValuesAdd(p.usedBy, i, a);
    }
  }

  lemma StepKeepsInv(p: Pool, op: Op)
    requires Inv(p)
    ensures Inv(Step(p, op)) && Step(p, op).addrs == p.addrs
  {
    match op {
      case AddrFor(i) => AddrForKeepsInv(p, i);
      case Rotate(i) => RotateKeepsInv(p, i);
    }
  }

  /** The allocation invariant holds after every interleaving. */
  lemma {:induction false} RunKeepsInv(p: Pool, ops: seq<Op>)
    requires Inv(p)
    ensures Inv(Run(p, ops)) && Run(p, ops).addrs == p.addrs
    decreases |ops|
  {
    if ops != [] {
      StepKeepsInv(p, ops[0]);
      RunKeepsInv(Step(p, ops[0]), ops[1..]);
    }
  }

  function Fresh(addrs: seq<Addr>): Pool {
    Pool(addrs, map[])
  }

  lemma {:induction false} ValuesCount(m: map<ConnIndex, Addr>)
    ensures |m.Values| <= |m.Keys|
    ensures Injective(m) <==> |m.Values| == |m.Keys|
    decreases |m|
  {
    if m != map[] {
      var i :| i in m;
      var rest := m - {i};
      assert m == rest[i := m[i]];
      ValuesUpdate(m, i, m[i]);
      assert m[i := m[i]] == m;
      assert m.Keys == rest.Keys + {i};
      ValuesCount(rest);
      if m[i] in rest.Values {
        var j :| j in rest && rest[j] == m[i];
        assert m[j] == m[i];
        assert m.Values == rest.Values;
      } else {
        assert |m.Values| == |rest.Values| + 1 && |m.Keys| == |rest.Keys| + 1;
        forall j | j in rest ensures rest[j] != m[i] {
          assert rest[j] in rest.Values;
        }
        assert Injective(m) <==> Injective(rest) by {
          assert forall j :: j in m && j != i ==> j in rest && rest[j] == m[j];
        }
      }
    }
  }

  /** In every interleaving the number of addresses in use is the least of connections bound and addresses known,
      and two connections share an address only when there are more connections than addresses. */
  lemma DistinctWhilePossible(addrs: seq<Addr>, ops: seq<Op>)
    requires addrs != []
    ensures var p := Run(Fresh(addrs), ops);
            && |p.usedBy.Values|
               == (if |p.usedBy.Keys| <= |Distinct(addrs)| then |p.usedBy.Keys| else |Distinct(addrs)|)
            && (|p.usedBy.Keys| <= |Distinct(addrs)| ==> Injective(p.usedBy))
  {
    RunKeepsInv(Fresh(addrs), ops);
    var p := Run(Fresh(addrs), ops);
    ValuesCount(p.usedBy);
    SubsetCount(p.usedBy.Values, Distinct(addrs));
  }

  lemma SubsetCount<T>(a: set<T>, b: set<T>)
    requires a <= b
    ensures |a| <= |b|
  {
    assert b == a + (b - a);
  }

  // ----- saturation -----

  lemma StepKeepsUse(p: Pool, op: Op)
    requires Inv(p)
    ensures |Step(p, op).usedBy.Values| >= |p.usedBy.Values|
    ensures Covers(p) ==> Covers(Step(p, op))
    ensures p.usedBy.Keys <= Step(p, op).usedBy.Keys
  {
    StepKeepsInv(p, op);
    var q := Step(p, op);
    match op {
      case AddrFor(i) =>
        AddrForKeepsInv(p, i);
        if i !in p.usedBy {
          ValuesAdd(p.usedBy, i, q.usedBy[i]);
          SubsetCount(p.usedBy.Values, q.usedBy.Values);
        }
      case Rotate(i) =>
        if Covers(p) {
          RotateWhenCovered(p, i);
        } else {
          RotateKeepsInv(p, i);
          KeysGrow(p.usedBy, q.usedBy, i);
          ValuesCount(p.usedBy);
          ValuesCount(q.usedBy);
          SubsetCount(p.usedBy.Keys, q.usedBy.Keys);
          SubsetCount(p.usedBy.Values, Distinct(p.addrs));
        }
    }
  }

  lemma KeysGrow(m: map<ConnIndex, Addr>, n: map<ConnIndex, Addr>, i: ConnIndex)
    requires m - {i} == n - {i} && (i in m ==> i in n)
    ensures m.Keys <= n.Keys
  {
    forall k | k in m ensures k in n {
      if k != i { assert k in m - {i}; }
    }
  }

  /** Over any run the set of addresses in use never shrinks, and once full it stays full. */
  lemma {:induction false} UseNeverShrinks(p: Pool, ops: seq<Op>)
    requires Inv(p)
    ensures |Run(p, ops).usedBy.Values| >= |p.usedBy.Values|
    ensures Covers(p) ==> Covers(Run(p, ops))
    ensures p.usedBy.Keys <= Run(p, ops).usedBy.Keys
    decreases |ops|
  {
    if ops != [] {
      StepKeepsInv(p, ops[0]);
      StepKeepsUse(p, ops[0]);
      UseNeverShrinks(Step(p, ops[0]), ops[1..]);
    }
  }

  /** In a saturated pool bindings are permanent: no run of any length changes an existing one. */
  lemma {:induction false} SaturatedBindingsStay(p: Pool, ops: seq<Op>)
    requires Inv(p) && Covers(p)
    ensures forall i :: i in p.usedBy ==> i in Run(p, ops).usedBy && Run(p, ops).usedBy[i] == p.usedBy[i]
    decreases |ops|
  {
    if ops != [] {
      StepKeepsInv(p, ops[0]);
      StepKeepsUse(p, ops[0]);
      if ops[0].Rotate? {
        RotateWhenCovered(p, ops[0].i);
      }
      SaturatedBindingsStay(Step(p, ops[0]), ops[1..]);
    }
  }

  // ----- load -----

  /** Holding an address other than the modulo choice. */
  predicate Stray(p: Pool, i: ConnIndex)
    requires p.addrs != [] && i in p.usedBy
  {
    p.usedBy[i] != ModuloAddr(p, i)
  }

  /** At most one holder of each address is there for another reason than the modulo rule. */
  predicate OneStray(p: Pool)
    requires p.addrs != []
  {
    forall i, j :: i in p.usedBy && j in p.usedBy && i != j && p.usedBy[i] == p.usedBy[j]
                   ==> !Stray(p, i) || !Stray(p, j)
  }

  lemma StepKeepsOneStray(p: Pool, op: Op)
    requires Inv(p) && OneStray(p)
    ensures Step(p, op).addrs != [] && OneStray(Step(p, op))
  {
    hide Inv, Injective, Covers, AddrForStep, RotateStep, OneStray;
    StepKeepsInv(p, op);
    match op {
      case AddrFor(i) => AddrForKeepsOneStray(p, i);
      case Rotate(i) =>
        if Covers(p) {
          RotateWhenCovered(p, i);
        } else {
          RotateStaysInjective(p, i);
          InjectiveHasNoStrays(RotateStep(p, i));
        }
    }
  }

  lemma InjectiveHasNoStrays(p: Pool)
    requires p.addrs != [] && Injective(p.usedBy)
    ensures OneStray(p)
  {
  }

  lemma AddrForKeepsOneStray(p: Pool, i: ConnIndex)
    requires Inv(p) && OneStray(p)
    ensures OneStray(AddrForStep(p, i))
  {
    hide Wrap;
  }

  lemma RotateStaysInjective(p: Pool, i: ConnIndex)
    requires Inv(p) && !Covers(p)
    ensures Injective(RotateStep(p, i).usedBy)
  {
    if i in p.usedBy {
      RotateMoves(p, i);
      var q := RotateStep(p, i);
      forall k | k in p.usedBy && k != i ensures q.usedBy[k] != q.usedBy[i] {
        assert p.usedBy[k] in p.usedBy.Values;
      }
    } else {
      assert p.usedBy - {i} == p.usedBy;
    }
  }

  lemma {:induction false} RunKeepsOneStray(p: Pool, ops: seq<Op>)
    requires Inv(p) && OneStray(p)
    ensures Run(p, ops).addrs != [] && OneStray(Run(p, ops))
    decreases |ops|
  {
    if ops != [] {
      StepKeepsInv(p, ops[0]);
      StepKeepsOneStray(p, ops[0]);
      RunKeepsOneStray(Step(p, ops[0]), ops[1..]);
    }
  }

  function Holders(p: Pool, a: Addr): set<ConnIndex> {
    set i | i in p.usedBy && p.usedBy[i] == a
  }

  /** Indices below `n` whose modulo choice is position `r` of `k`. */
  function Residues(n: nat, k: nat, r: nat): set<int>
    requires k > 0
  {
    set i: int | 0 <= i < n && Wrap(i, k) == r
  }

  lemma MulBounds(k: int, d: int)
    requires k > 0
    ensures d >= 1 ==> k * d >= k
    ensures d <= -1 ==> k * d <= -k
  {
  }

  lemma DivModUnique(a: int, k: int, q: int, r: int)
    requires 0 <= r < k && a == k * q + r
    ensures a / k == q && a % k == r
  {
    var d := a / k - q;
    assert a == k * (a / k) + a % k;
    assert k * d == r - a % k;
    MulBounds(k, d);
  }

  lemma ModClose(x: int, y: int, k: int)
    requires k > 0 && x <= y < x + k && x % k == y % k
    ensures x == y
  {
    var d := y / k - x / k;
    assert y - x == k * d by {
      assert x == k * (x / k) + x % k;
      assert y == k * (y / k) + y % k;
    }
    MulBounds(k, d);
  }

  lemma DivPlusOne(a: int, k: int)
    requires k > 0
    ensures (a + k) / k == a / k + 1
  {
    assert a == k * (a / k) + a % k;
    assert a + k == k * (a / k + 1) + a % k;
    DivModUnique(a + k, k, a / k + 1, a % k);
  }

  lemma AtMostOne<T>(s: set<T>)
    requires forall x, y :: x in s && y in s ==> x == y
    ensures |s| <= 1
  {
    if x :| x in s {
      forall y | y in s ensures y == x {
      }
      SubsetCount(s, {x});
    }
  }

  /** Fewer than k+1 consecutive indices hold at most one of each residue. */
  lemma TopResidue(n: nat, m: nat, k: nat, r: nat)
    requires k > 0 && m <= n <= m + k
    ensures |Residues(n, k, r) - Residues(m, k, r)| <= 1
    ensures Residues(n, k, r) == Residues(m, k, r) + (Residues(n, k, r) - Residues(m, k, r))
  {
    var top := Residues(n, k, r) - Residues(m, k, r);
    forall x, y | x in top && y in top ensures x == y {
      SameResidue(x, y, m, k);
    }
    AtMostOne(top);
  }

  lemma SameResidue(x: int, y: int, m: nat, k: nat)
    requires k > 0 && m <= x < m + k && m <= y < m + k && Wrap(x, k) == Wrap(y, k)
    ensures x == y
  {
    if x <= y { ModClose(x, y, k); } else { ModClose(y, x, k); }
  }

  lemma {:induction false} ResiduesCount(n: nat, k: nat, r: nat)
    requires k > 0
    ensures |Residues(n, k, r)| <= (n + k - 1) / k
    decreases n
  {
    hide Wrap;
    if n == 0 {
      assert Residues(n, k, r) == {};
      DivModUnique(k - 1, k, 0, k - 1);
    } else {
      var m := if n <= k then 0 else n - k;
      TopResidue(n, m, k, r);
      hide Residues;
      if n <= k {
        assert Residues(0, k, r) == {} by { NoResidues(k, r); }
        DivModUnique(n + k - 1, k, 1, n - 1);
      } else {
        ResiduesCount(m, k, r);
        DivPlusOne(m + k - 1, k);
      }
    }
  }

  lemma NoResidues(k: nat, r: nat)
    requires k > 0
    ensures Residues(0, k, r) == {}
  {
  }

  lemma SubsetOfIndices(s: set<ConnIndex>, t: set<int>)
    requires forall i :: i in s ==> i in t
    ensures |s| <= |t|
    decreases s
  {
    if i :| i in s {
      SubsetOfIndices(s - {i}, t - {i});
    }
  }

  /** Indices below `n` the modulo rule sends to `a`. */
  function ModuloUsers(addrs: seq<Addr>, n: nat, a: Addr): set<int>
    requires addrs != []
  {
    set i: int | 0 <= i < n && addrs[Wrap(i, |addrs|)] == a
  }

  /** Load bound: whatever the arrivals and rotations of indices below `n`, an address is held by at most one index
      more than the modulo rule alone would send to it. */
  lemma LoadBound(addrs: seq<Addr>, ops: seq<Op>, n: nat, a: Addr)
    requires addrs != [] && forall op :: op in ops ==> op.i < n
    ensures |Holders(Run(Fresh(addrs), ops), a)| <= 1 + |ModuloUsers(addrs, n, a)|
  {
    hide Run, Wrap, Inv, OneStray;
    var p := Run(Fresh(addrs), ops);
    FreshIsGood(addrs);
    RunKeepsInv(Fresh(addrs), ops);
    RunKeepsOneStray(Fresh(addrs), ops);
    IndicesBelow(Fresh(addrs), ops, n);
    HoldersBound(p, n, a);
  }

  /** Without repeated addresses, each of the k addresses is held by at most one index more than its share n/k. */
  lemma LoadBoundDistinct(addrs: seq<Addr>, ops: seq<Op>, n: nat, a: Addr)
    requires addrs != [] && (forall i, j :: 0 <= i < j < |addrs| ==> addrs[i] != addrs[j])
    requires forall op :: op in ops ==> op.i < n
    ensures |Holders(Run(Fresh(addrs), ops), a)| <= 1 + (n + |addrs| - 1) / |addrs|
  {
    hide Run, Wrap;
    var k := |addrs|;
    LoadBound(addrs, ops, n, a);
    if r :| 0 <= r < k && addrs[r] == a {
      ResiduesCount(n, k, r);
      assert ModuloUsers(addrs, n, a) == Residues(n, k, r);
    } else {
      assert ModuloUsers(addrs, n, a) == {};
      DivNonNegative(n + k - 1, k);
    }
  }

  lemma FreshIsGood(addrs: seq<Addr>)
    requires addrs != []
    ensures Inv(Fresh(addrs)) && OneStray(Fresh(addrs))
  {
  }

  lemma HoldersBound(p: Pool, n: nat, a: Addr)
    requires p.addrs != [] && OneStray(p) && (forall i :: i in p.usedBy ==> i < n)
    ensures |Holders(p, a)| <= 1 + |ModuloUsers(p.addrs, n, a)|
  {
    hide Wrap, OneStray;
    var h := Holders(p, a);
    var strays := set i | i in h && Stray(p, i);
    var rest := h - strays;
    StraysAtMostOne(p, a, strays);
    forall i | i in rest ensures i in ModuloUsers(p.addrs, n, a) {
    }
    hide Holders, Stray, ModuloUsers;
    SubsetOfIndices(rest, ModuloUsers(p.addrs, n, a));
    assert h == strays + rest;
  }

  lemma StraysAtMostOne(p: Pool, a: Addr, strays: set<ConnIndex>)
    requires p.addrs != [] && OneStray(p)
    requires forall i :: i in strays ==> i in Holders(p, a) && Stray(p, i)
    ensures |strays| <= 1
  {
    hide Wrap, Stray;
    AtMostOne(strays);
  }

  lemma DivNonNegative(a: int, k: int)
    requires a >= 0 && k > 0
    ensures a / k >= 0
  {
  }

  lemma {:induction false} IndicesBelow(p: Pool, ops: seq<Op>, n: nat)
    requires p.addrs != [] && (forall i :: i in p.usedBy ==> i < n) && (forall op :: op in ops ==> op.i < n)
    ensures forall i :: i in Run(p, ops).usedBy ==> i < n
    decreases |ops|
  {
    if ops != [] {
      assert forall op :: op in ops[1..] ==> op in ops;
      IndicesBelow(Step(p, ops[0]), ops[1..], n);
    }
  }

  // ----- first uses in order: agreement with the per-connection provider -----

  /** First uses by indices 0, 1, ..., n-1 and nothing else. */
  function InOrder(n: nat): (ops: seq<Op>)
    requires n <= 256
    ensures |ops| == n && forall i :: 0 <= i < n ==> ops[i] == AddrFor(i)
  {
    seq(n, i requires 0 <= i < n => AddrFor(i))
  }

  /** `resolveEdgeAddr`: the provider that does not share a pool takes its index modulo the list. */
  function ProviderAddr(addrs: seq<Addr>, i: ConnIndex): Addr
    requires addrs != []
  {
    addrs[Wrap(i, |addrs|)]
  }

  lemma {:induction false} RunAppend(p: Pool, a: seq<Op>, op: Op)
    requires p.addrs != []
    ensures Run(p, a).addrs == p.addrs
    ensures Run(p, a + [op]) == Step(Run(p, a), op)
    decreases |a|
  {
    if a == [] {
      assert a + [op] == [op];
      assert [op][1..] == [];
    } else {
      assert (a + [op])[1..] == a[1..] + [op];
      RunAppend(Step(p, a[0]), a[1..], op);
    }
  }

  /** No address is repeated before every address has appeared (among the 256 an index can reach). */
  predicate RepeatsLast(addrs: seq<Addr>) {
    forall i, j :: 0 <= i < j < |Distinct(addrs)| && j < |addrs| && j < 256 ==> addrs[i] != addrs[j]
  }

  lemma DistinctAtMostLength(addrs: seq<Addr>)
    ensures |Distinct(addrs)| <= |addrs|
  {
    if addrs == [] {
      assert Distinct(addrs) == {};
    } else {
      DistinctCons(addrs);
      DistinctAtMostLength(addrs[1..]);
    }
  }

  lemma {:induction false} DistinctOfInjective(addrs: seq<Addr>)
    requires forall i, j :: 0 <= i < j < |addrs| ==> addrs[i] != addrs[j]
    ensures |Distinct(addrs)| == |addrs|
  {
    if addrs == [] {
      assert Distinct(addrs) == {};
    } else {
      DistinctCons(addrs);
      DistinctOfInjective(addrs[1..]);
      assert addrs[0] !in addrs[1..];
    }
  }

  lemma FirstOutsideIs(addrs: seq<Addr>, taken: set<Addr>, n: nat)
    requires n < |addrs| && addrs[n] !in taken && forall i :: 0 <= i < n ==> addrs[i] in taken
    ensures FirstOutside(addrs, taken) == Some(addrs[n])
  {
    if n > 0 {
      FirstOutsideIs(addrs[1..], taken, n - 1);
    }
  }

  /** The pool after the first n indices asked in order, as long as that is the modulo rule. */
  ghost predicate ModuloSoFar(p: Pool, addrs: seq<Addr>, n: nat)
    requires addrs != []
  {
    && p.addrs == addrs
    && (forall i: ConnIndex :: i in p.usedBy <==> i < n)
    && (forall i: ConnIndex :: i < n ==> p.usedBy[i] == ProviderAddr(addrs, i))
  }

  lemma WrapSmall(i: nat, k: nat)
    requires i < k
    ensures Wrap(i, k) == i
  {
  }

  lemma PrefixValues(p: Pool, addrs: seq<Addr>, n: nat)
    requires addrs != [] && ModuloSoFar(p, addrs, n) && n <= |addrs| && n <= 256
    ensures p.usedBy.Values == Distinct(addrs[..n])
  {
    hide Wrap;
    forall i: ConnIndex | i < n ensures i in p.usedBy && p.usedBy[i] == addrs[i] {
      WrapSmall(i, |addrs|);
    }
    forall x | x in p.usedBy.Values ensures x in Distinct(addrs[..n]) {
      var i :| i in p.usedBy && p.usedBy[i] == x;
      assert addrs[..n][i] == x;
    }
    forall x | x in Distinct(addrs[..n]) ensures x in p.usedBy.Values {
      var i :| 0 <= i < n && addrs[..n][i] == x;
      var c: ConnIndex := i;
      assert p.usedBy[c] == x;
    }
  }

  /** While the first n addresses are distinct and the next is new, the next index gets the next address. */
  lemma NextInPrefix(p: Pool, addrs: seq<Addr>, n: nat)
    requires addrs != [] && ModuloSoFar(p, addrs, n) && n < |addrs| && n < 256
    requires addrs[n] !in addrs[..n]
    ensures ModuloSoFar(AddrForStep(p, n), addrs, n + 1)
  {
    hide Wrap, FirstOutside;
    PrefixValues(p, addrs, n);
    forall i | 0 <= i < n ensures addrs[i] in p.usedBy.Values {
      assert addrs[..n][i] == addrs[i];
    }
    FirstOutsideIs(addrs, p.usedBy.Values, n);
    WrapSmall(n, |addrs|);
  }

  /** With repeats only after every address has appeared, one more first use follows the modulo rule. */
  lemma NextIsModulo(p: Pool, addrs: seq<Addr>, n: nat)
    requires addrs != [] && Inv(p) && ModuloSoFar(p, addrs, n) && RepeatsLast(addrs) && n < 256
    requires n > |Distinct(addrs)| ==> Covers(p)
    ensures ModuloSoFar(AddrForStep(p, n), addrs, n + 1)
    ensures n >= |Distinct(addrs)| ==> Covers(p)
  {
    hide Wrap, FirstOutside;
    var d := |Distinct(addrs)|;
    DistinctAtMostLength(addrs);
    if n < d {
      assert addrs[n] !in addrs[..n];
      NextInPrefix(p, addrs, n);
    } else {
      if n == d {
        PrefixValues(p, addrs, n);
        DistinctOfInjective(addrs[..n]);
        SubsetEqual(p.usedBy.Values, Distinct(addrs));
      }
      CoveredIsModulo(p, addrs, n);
    }
  }

  lemma CoveredIsModulo(p: Pool, addrs: seq<Addr>, n: nat)
    requires addrs != [] && ModuloSoFar(p, addrs, n) && Covers(p) && n < 256
    ensures ModuloSoFar(AddrForStep(p, n), addrs, n + 1)
  {
    hide Wrap;
  }

  lemma SubsetEqual<T>(a: set<T>, b: set<T>)
    requires a <= b && |a| >= |b|
    ensures a == b
  {
    SubsetCount(b - a, b);
    assert b == a + (b - a);
  }

  lemma {:induction false} InOrderIsModulo(addrs: seq<Addr>, n: nat)
    requires addrs != [] && RepeatsLast(addrs) && n <= 256
    ensures ModuloSoFar(Run(Fresh(addrs), InOrder(n)), addrs, n)
    ensures n > |Distinct(addrs)| ==> Covers(Run(Fresh(addrs), InOrder(n)))
  {
    if n > 0 {
      InOrderIsModulo(addrs, n - 1);
      InOrderStep(addrs, n - 1);
      RunKeepsInv(Fresh(addrs), InOrder(n - 1));
      var p := Run(Fresh(addrs), InOrder(n - 1));
      NextIsModulo(p, addrs, n - 1);
      StepKeepsUse(p, AddrFor(n - 1));
    }
  }

  /** Where an address is repeated while another is still free, the pool leaves the modulo rule. */
  lemma EarlyRepeatDiffers(addrs: seq<Addr>, j: nat)
    requires addrs != [] && j < |Distinct(addrs)| && j < |addrs| && j < 256 && addrs[j] in addrs[..j]
    requires forall x, y :: 0 <= x < y < j ==> addrs[x] != addrs[y]
    ensures !AgreesAt(addrs, j + 1, j)
  {
    hide Wrap, FirstOutside;
    PrefixIsModulo(addrs, j);
    var p := Run(Fresh(addrs), InOrder(j));
    InOrderStep(addrs, j);
    PrefixValues(p, addrs, j);
    DistinctAtMostLength(addrs[..j]);
    if Distinct(addrs) <= p.usedBy.Values {
      SubsetCount(Distinct(addrs), p.usedBy.Values);
    }
    assert addrs[j] in p.usedBy.Values;
    WrapSmall(j, |addrs|);
  }

  lemma InOrderStep(addrs: seq<Addr>, n: nat)
    requires addrs != [] && n < 256
    ensures Run(Fresh(addrs), InOrder(n)).addrs == addrs
    ensures Run(Fresh(addrs), InOrder(n + 1)) == AddrForStep(Run(Fresh(addrs), InOrder(n)), n)
  {
    hide Run, AddrForStep;
    assert InOrder(n + 1) == InOrder(n) + [AddrFor(n)];
    RunAppend(Fresh(addrs), InOrder(n), AddrFor(n));
  }

  lemma {:induction false} PrefixIsModulo(addrs: seq<Addr>, n: nat)
    requires addrs != [] && n <= |addrs| && n <= 256
    requires forall x, y :: 0 <= x < y < n ==> addrs[x] != addrs[y]
    ensures ModuloSoFar(Run(Fresh(addrs), InOrder(n)), addrs, n)
  {
    hide Wrap, AddrForStep;
    if n > 0 {
      PrefixIsModulo(addrs, n - 1);
      InOrderStep(addrs, n - 1);
      assert addrs[n - 1] !in addrs[..n - 1];
      NextInPrefix(Run(Fresh(addrs), InOrder(n - 1)), addrs, n - 1);
    }
  }

  /** After n first uses in order, index `i` holds what the per-connection provider would give it. */
  predicate AgreesAt(addrs: seq<Addr>, n: nat, i: ConnIndex)
    requires addrs != [] && n <= 256
  {
    var p := Run(Fresh(addrs), InOrder(n));
    i in p.usedBy && p.usedBy[i] == ProviderAddr(addrs, i)
  }

  lemma FirstRepeat(addrs: seq<Addr>, d: nat) returns (j: nat)
    requires d <= |addrs| && exists x, y :: 0 <= x < y < d && addrs[x] == addrs[y]
    ensures j < d && addrs[j] in addrs[..j] && forall x, y :: 0 <= x < y < j ==> addrs[x] != addrs[y]
  {
    j := 0;
    while addrs[j] !in addrs[..j]
      invariant j < d
      invariant forall x, y :: 0 <= x < y < j ==> addrs[x] != addrs[y]
      decreases d - j
    {
      assert forall x :: 0 <= x < j ==> addrs[x] == addrs[..j][x];
      j := j + 1;
    }
  }

  /** For indices asking first in order and never rotating, pool and per-connection provider agree on all of them
      exactly when no address repeats before every address has appeared. */
  lemma AgreesIffRepeatsLast(addrs: seq<Addr>)
    requires addrs != []
    ensures RepeatsLast(addrs) <==> forall n: nat, i: ConnIndex :: i < n <= 256 ==> AgreesAt(addrs, n, i)
  {
    hide Wrap, Run;
    if RepeatsLast(addrs) {
      forall n: nat, i: ConnIndex | i < n <= 256 ensures AgreesAt(addrs, n, i) {
        InOrderIsModulo(addrs, n);
      }
    } else {
      DistinctAtMostLength(addrs);
      var d := |Distinct(addrs)|;
      var j := FirstRepeat(addrs, if d < 256 then d else 256);
      EarlyRepeatDiffers(addrs, j);
    }
  }

  /** With the list a, a, b index 1 gets b from the pool and a from the provider. */
  lemma EarlyRepeatExample(a: Addr, b: Addr)
    requires a != b
    ensures var addrs := [a, a, b];
            !RepeatsLast(addrs) && ProviderAddr(addrs, 1) == a
            && Run(Fresh(addrs), InOrder(2)).usedBy == map[0 := a, 1 := b]
  {
    var addrs := [a, a, b];
    assert addrs[1..] == [a, b] && addrs[1..][1..] == [b];
    var p0 := Fresh(addrs);
    var p1 := Pool(addrs, map[0 := a]);
    var p2 := Pool(addrs, map[0 := a, 1 := b]);
    assert AddrForStep(p0, 0) == p1;
    assert p1.usedBy.Values == {a};
    assert FirstOutside([b], {a}) == Some(b) && FirstOutside([a, b], {a}) == Some(b);
    assert FirstOutside(addrs, {a}) == Some(b);
    assert AddrForStep(p1, 1) == p2;
    assert InOrder(2) == [AddrFor(0), AddrFor(1)];
    assert InOrder(2)[1..] == [AddrFor(1)] && InOrder(2)[1..][1..] == [];
    assert Run(p2, []) == p2;
    assert Run(p1, [AddrFor(1)]) == p2;
    assert a in Distinct(addrs) && b in Distinct(addrs);
    assert |Distinct(addrs)| >= 2 by {
      SubsetCount({a, b}, Distinct(addrs));
    }
    assert addrs[0] == addrs[1];
  }

  // ----- rotation -----

  function OthersHold(p: Pool, i: ConnIndex): set<Addr> {
    (p.usedBy - {i}).Values
  }

  lemma FirstOutsideMore(addrs: seq<Addr>, taken: set<Addr>, x: Addr)
    requires FirstOutside(addrs, taken).Some? && x != FirstOutside(addrs, taken).value
    ensures FirstOutside(addrs, taken + {x}) == FirstOutside(addrs, taken)
  {
    if addrs[0] in taken {
      FirstOutsideMore(addrs[1..], taken, x);
    }
  }

  /** The two earliest listed addresses no other connection holds. */
  function EarliestFree(p: Pool, i: ConnIndex): (f: (Addr, Addr))
    requires Inv(p) && !Covers(p) && i in p.usedBy
    ensures f.0 != f.1
  {
    TwoFree(p, i);
    var f0 := FirstOutside(p.addrs, OthersHold(p, i)).value;
    (f0, FirstOutside(p.addrs, OthersHold(p, i) + {f0}).value)
  }

  lemma TwoFree(p: Pool, i: ConnIndex)
    requires Inv(p) && !Covers(p) && i in p.usedBy
    ensures p.usedBy[i] !in OthersHold(p, i)
    ensures FirstOutside(p.addrs, OthersHold(p, i)).Some?
    ensures FirstOutside(p.addrs, OthersHold(p, i) + {FirstOutside(p.addrs, OthersHold(p, i)).value}).Some?
  {
    var others := OthersHold(p, i);
    ValuesUpdate(p.usedBy, i, p.usedBy[i]);
    assert p.usedBy[i := p.usedBy[i]] == p.usedBy;
    assert p.usedBy.Values == others + {p.usedBy[i]};
    forall j | j in p.usedBy - {i} ensures (p.usedBy - {i})[j] != p.usedBy[i] {
    }
    assert p.usedBy[i] in Distinct(p.addrs);
  }

  /** One rotation goes to the earliest free address, or to the second earliest when already there. */
  lemma RotateTo(p: Pool, i: ConnIndex)
    requires Inv(p) && !Covers(p) && i in p.usedBy
    ensures var (f0, f1), q := EarliestFree(p, i), RotateStep(p, i);
            && i in q.usedBy && q.usedBy[i] == (if p.usedBy[i] == f0 then f1 else f0)
            && Inv(q) && !Covers(q) && EarliestFree(q, i) == (f0, f1)
  {
    RotateKeepsInv(p, i);
    RotateMoves(p, i);
    TwoFree(p, i);
    var q := RotateStep(p, i);
    var others := OthersHold(p, i);
    assert others + {p.usedBy[i]} == p.usedBy.Values by {
      ValuesUpdate(p.usedBy, i, p.usedBy[i]);
      assert p.usedBy[i := p.usedBy[i]] == p.usedBy;
    }
    var f0 := FirstOutside(p.addrs, others).value;
    if p.usedBy[i] != f0 {
      FirstOutsideMore(p.addrs, others, p.usedBy[i]);
    }
    assert OthersHold(q, i) == others;
    ValuesUpdate(q.usedBy, i, q.usedBy[i]);
    assert q.usedBy[i := q.usedBy[i]] == q.usedBy;
    assert p.usedBy[i] !in q.usedBy.Values;
  }

  /** Rotating an index that holds nothing gives it the first free address, if there is one. */
  lemma RotateUnbound(p: Pool, i: ConnIndex)
    requires p.addrs != [] && i !in p.usedBy
    ensures var free := FirstOutside(p.addrs, p.usedBy.Values);
            RotateStep(p, i).usedBy == if free.Some? then p.usedBy[i := free.value] else p.usedBy
  {
    assert p.usedBy - {i} == p.usedBy;
    assert p.usedBy.Values + {} == p.usedBy.Values;
  }

  function Rotations(i: ConnIndex, n: nat): (ops: seq<Op>)
    ensures |ops| == n && forall k :: 0 <= k < n ==> ops[k] == Rotate(i)
  {
    seq(n, _ => Rotate(i))
  }

  /** Orbit: with the other bindings fixed and the pool not saturated, n >= 1 rotations in a row alternate between the
      two earliest free addresses, whichever address they started from; no third address is ever tried. */
  lemma {:induction false} RotationOrbit(p: Pool, i: ConnIndex, n: nat)
    requires Inv(p) && !Covers(p) && i in p.usedBy && n >= 1
    ensures var (f0, f1), q := EarliestFree(p, i), Run(p, Rotations(i, n));
            && i in q.usedBy
            && q.usedBy[i] == (if (p.usedBy[i] == f0) == (n % 2 == 0) then f0 else f1)
    decreases n
  {
    hide RotateStep, EarliestFree, Covers, Inv;
    RotateTo(p, i);
    var q := RotateStep(p, i);
    assert Rotations(i, n)[1..] == Rotations(i, n - 1);
    if n == 1 {
      assert Rotations(i, 0) == [];
    } else {
      RotationOrbit(q, i, n - 1);
      assert EarliestFree(p, i).0 != EarliestFree(p, i).1 by { EarliestFreeDiffer(p, i); }
    }
  }

  lemma EarliestFreeDiffer(p: Pool, i: ConnIndex)
    requires Inv(p) && !Covers(p) && i in p.usedBy
    ensures EarliestFree(p, i).0 != EarliestFree(p, i).1
  {
  }

  // ----- consecutive attempts of one connection -----

  /** Operations of the other connections. */
  predicate WithoutIndex(ops: seq<Op>, i: ConnIndex) {
    forall op :: op in ops ==> op.i != i
  }

  lemma StepLeavesOthers(p: Pool, op: Op, i: ConnIndex)
    requires Inv(p) && op.i != i
    ensures i in p.usedBy <==> i in Step(p, op).usedBy
    ensures i in p.usedBy ==> Step(p, op).usedBy[i] == p.usedBy[i]
  {
    var q := Step(p, op);
    match op {
      case AddrFor(j) => AddrForKeepsInv(p, j);
      case Rotate(j) => RotateKeepsInv(p, j);
    }
    assert p.usedBy - {op.i} == q.usedBy - {op.i};
    assert i in p.usedBy <==> i in p.usedBy - {op.i};
    assert i in q.usedBy <==> i in q.usedBy - {op.i};
    if i in p.usedBy {
      assert (p.usedBy - {op.i})[i] == (q.usedBy - {op.i})[i];
    }
  }

  lemma {:induction false} RunLeavesOthers(p: Pool, ops: seq<Op>, i: ConnIndex)
    requires Inv(p) && WithoutIndex(ops, i)
    ensures i in p.usedBy <==> i in Run(p, ops).usedBy
    ensures i in p.usedBy ==> Run(p, ops).usedBy[i] == p.usedBy[i]
    decreases |ops|
  {
    if ops != [] {
      StepKeepsInv(p, ops[0]);
      StepLeavesOthers(p, ops[0], i);
      assert forall op :: op in ops[1..] ==> op in ops;
      RunLeavesOthers(Step(p, ops[0]), ops[1..], i);
    }
  }

  /** Every address but the one `i` holds is held by some other connection. */
  predicate AllElseHeld(p: Pool, i: ConnIndex)
    requires i in p.usedBy
  {
    forall a :: a in p.addrs && a != p.usedBy[i] ==> a in OthersHold(p, i)
  }

  lemma AllElseHeldIffCovers(p: Pool, i: ConnIndex)
    requires Inv(p) && i in p.usedBy
    ensures AllElseHeld(p, i) <==> Covers(p)
  {
    ValuesUpdate(p.usedBy, i, p.usedBy[i]);
    assert p.usedBy[i := p.usedBy[i]] == p.usedBy;
    assert p.usedBy.Values == OthersHold(p, i) + {p.usedBy[i]};
    if AllElseHeld(p, i) {
      assert p.usedBy.Values == Distinct(p.addrs);
    }
    if Covers(p) {
      forall a | a in p.addrs && a != p.usedBy[i] ensures a in OthersHold(p, i) {
        assert a in Distinct(p.addrs);
      }
    }
  }

  /** Two consecutive attempts of connection `i` resolve different addresses unless, at the rotation between them,
      every other address was held; what other connections do before and after the rotation does not matter. */
  lemma RetryMovesOn(start: Pool, i: ConnIndex, before: seq<Op>, after: seq<Op>)
    requires Inv(start) && WithoutIndex(before, i) && WithoutIndex(after, i)
    ensures var first := AddrForStep(start, i);
            var atRotate := Run(first, before);
            var second := AddrForStep(Run(RotateStep(atRotate, i), after), i);
            && i in atRotate.usedBy
            && (second.usedBy[i] == first.usedBy[i] <==> AllElseHeld(atRotate, i))
  {
    hide Run, AddrForStep, RotateStep, Covers, AllElseHeld;
    var first := AddrForStep(start, i);
    AddrForKeepsInv(start, i);
    RunKeepsInv(first, before);
    RunLeavesOthers(first, before, i);
    var atRotate := Run(first, before);
    RotateKeepsInv(atRotate, i);
    var rotated := RotateStep(atRotate, i);
    RunKeepsInv(rotated, after);
    RunLeavesOthers(rotated, after, i);
    AddrForBound(Run(rotated, after), i);
    AllElseHeldIffCovers(atRotate, i);
    if Covers(atRotate) {
      RotateWhenCovered(atRotate, i);
    } else {
      RotateMoves(atRotate, i);
    }
  }

  lemma AddrForBound(p: Pool, i: ConnIndex)
    requires p.addrs != [] && i in p.usedBy
    ensures AddrForStep(p, i) == p
  {
  }

  // ----- the pool's whole life, starting unresolved -----

  datatype PoolError = NilResolver | LookupFailed(reason: string) | NoUsableAddresses

  /** A pool is resolved once; a resolution may turn out empty, and then every request fails. */
  datatype Life = Unresolved | Resolved(pool: Pool)

  /** What the resolver would answer if asked now; `None` for a pool built without one. */
  type Lookup = Option<Result<seq<Addr>, string>>

  function Resolve(life: Life, lookup: Lookup): Result<Life, PoolError> {
    match life
    case Resolved(_) => Ok(life)
    case Unresolved =>
      match lookup
      case None => Err(NilResolver)
      case Some(Err(reason)) => Err(LookupFailed(reason))
      case Some(Ok(addrs)) => Ok(Resolved(Fresh(addrs)))
  }

  function LifeAddrFor(life: Life, lookup: Lookup, i: ConnIndex): (Life, Result<Addr, PoolError>) {
    match Resolve(life, lookup)
    case Err(e) => (life, Err(e))
    case Ok(Resolved(pool)) =>
      (if pool.addrs == [] then (Resolved(pool), Err(NoUsableAddresses))
       else (Resolved(AddrForStep(pool, i)), Ok(AddrForStep(pool, i).usedBy[i])))
    case Ok(Unresolved) => (life, Err(NilResolver))
  }

  function LifeRotate(life: Life, i: ConnIndex): Life {
    if life.Resolved? && life.pool.addrs != [] then Resolved(RotateStep(life.pool, i)) else life
  }

  /** An empty resolution hands out nothing, ever; otherwise the allocation invariant holds. */
  predicate LifeInv(life: Life) {
    life.Resolved? ==> if life.pool.addrs == [] then life.pool.usedBy == map[] else Inv(life.pool)
  }

  /** Both operations keep the pool's invariant whatever the resolver answers; addresses are resolved at most once;
      a failed request leaves bindings alone and a successful one returns a listed address. */
  lemma LifeSafe(life: Life, lookup: Lookup, i: ConnIndex)
    requires LifeInv(life)
    ensures LifeInv(LifeRotate(life, i)) && LifeInv(LifeAddrFor(life, lookup, i).0)
    ensures life.Resolved? ==> LifeAddrFor(life, lookup, i).0.Resolved? && LifeRotate(life, i).Resolved?
                               && LifeAddrFor(life, lookup, i).0.pool.addrs == life.pool.addrs
                               && LifeRotate(life, i).pool.addrs == life.pool.addrs
    ensures match LifeAddrFor(life, lookup, i)
            case (after, Ok(a)) =>
              after.Resolved? && a in after.pool.addrs && i in after.pool.usedBy && after.pool.usedBy[i] == a
            case (after, Err(_)) => after.Unresolved? || after.pool.addrs == []
  {
    hide RotateStep, Injective, Covers;
    match Resolve(life, lookup)
    case Err(_) =>
    case Ok(resolved) =>
      if resolved.Resolved? && resolved.pool.addrs != [] {
        FreshIsGood(resolved.pool.addrs);
        AddrForKeepsInv(resolved.pool, i);
        var q := AddrForStep(resolved.pool, i);
        assert q.usedBy[i] in q.usedBy.Values;
      }
    if life.Resolved? && life.pool.addrs != [] {
      RotateKeepsInv(life.pool, i);
    }
  }

  /** Why a request fails: there is no resolver, the lookup fails just now, or the list turned out empty, now or
      earlier. */
  lemma RequestFailure(life: Life, lookup: Lookup, i: ConnIndex)
    ensures var reply := LifeAddrFor(life, lookup, i).1;
            match life
            case Resolved(pool) => pool.addrs == [] ==> reply == Err(NoUsableAddresses)
            case Unresolved =>
              && (lookup.None? ==> reply == Err(NilResolver))
              && (lookup.Some? && lookup.value.Err? ==> reply == Err(LookupFailed(lookup.value.error)))
              && (lookup == Some(Ok([])) ==> reply == Err(NoUsableAddresses))
  {
  }

  /** What connections ask of the pool over its life; each request says what the resolver would answer just then. */
  datatype LifeOp = Request(i: ConnIndex, lookup: Lookup) | Release(i: ConnIndex)

  function LifeStep(life: Life, op: LifeOp): (Life, Option<Addr>) {
    match op
    case Request(i, lookup) =>
      var (after, r) := LifeAddrFor(life, lookup, i);
      (after, if r.Ok? then Some(r.value) else None)
    case Release(i) => (LifeRotate(life, i), None)
  }

  /** The life after a sequence of operations, and the addresses handed out for each. */
  function LifeRun(life: Life, ops: seq<LifeOp>): (r: (Life, seq<Option<Addr>>))
    ensures |r.1| == |ops|
    decreases |ops|
  {
    if ops == [] then (life, [])
    else
      var (after, reply) := LifeStep(life, ops[0]);
      var (end, replies) := LifeRun(after, ops[1..]);
      (end, [reply] + replies)
  }

  /** The first request whose lookup succeeds, and the list it yields. */
  function Resolution(ops: seq<LifeOp>): (r: Option<(nat, seq<Addr>)>)
    ensures r.Some? ==> r.value.0 < |ops|
    decreases |ops|
  {
    if ops == [] then None
    else
      match ops[0]
      case Request(_, Some(Ok(addrs))) => Some((0, addrs))
      case _ =>
        match Resolution(ops[1..])
        case None => None
        case Some((k, addrs)) => Some((k + 1, addrs))
  }

  /** The pool operations of some requests and rotations. */
  function PoolOf(ops: seq<LifeOp>): (r: seq<Op>)
    ensures |r| == |ops|
  {
    seq(|ops|, k requires 0 <= k < |ops| => if ops[k].Request? then AddrFor(ops[k].i) else Rotate(ops[k].i))
  }

  /** The addresses that a run of the resolved pool hands out. */
  function Answers(p: Pool, ops: seq<LifeOp>): (r: seq<Option<Addr>>)
    requires p.addrs != []
    ensures |r| == |ops|
    decreases |ops|
  {
    if ops == [] then []
    else
      var q := Step(p, PoolOf(ops)[0]);
      [if ops[0].Request? && ops[0].i in q.usedBy then Some(q.usedBy[ops[0].i]) else None] + Answers(q, ops[1..])
  }

  function Nothing(n: nat): seq<Option<Addr>> {
    seq(n, _ => None)
  }

  lemma {:induction false} ResolvedLife(p: Pool, ops: seq<LifeOp>)
    requires p.addrs != []
    ensures LifeRun(Resolved(p), ops) == (Resolved(Run(p, PoolOf(ops))), Answers(p, ops))
    decreases |ops|
  {
    hide AddrForStep, RotateStep;
    if ops != [] {
      assert PoolOf(ops)[1..] == PoolOf(ops[1..]);
      ResolvedLife(Step(p, PoolOf(ops)[0]), ops[1..]);
    }
  }

  lemma {:induction false} EmptyLife(ops: seq<LifeOp>)
    ensures LifeRun(Resolved(Fresh([])), ops) == (Resolved(Fresh([])), Nothing(|ops|))
    decreases |ops|
  {
    if ops == [] {
      assert Nothing(0) == [];
    } else {
      EmptyLife(ops[1..]);
      assert LifeStep(Resolved(Fresh([])), ops[0]) == (Resolved(Fresh([])), None);
      assert Nothing(|ops|) == [None] + Nothing(|ops| - 1);
    }
  }

  /** Over every life from the unresolved start: without a successful lookup nothing is ever handed out; with an
      empty first one nothing is either, for good; otherwise nothing is before it, its list is fixed from then on
      whatever later lookups would say, and the pool is one run of allocations and rotations over that list. */
  lemma {:induction false} LifeIsOneRun(ops: seq<LifeOp>)
    ensures match Resolution(ops)
            case None => LifeRun(Unresolved, ops) == (Unresolved, Nothing(|ops|))
            case Some((k, addrs)) =>
              LifeRun(Unresolved, ops)
              == if addrs == [] then (Resolved(Fresh([])), Nothing(|ops|))
                 else (Resolved(Run(Fresh(addrs), PoolOf(ops[k..]))), Nothing(k) + Answers(Fresh(addrs), ops[k..]))
    decreases |ops|
  {
    hide Run, Answers, PoolOf, LifeRun, LifeStep, Resolution;
    if ops == [] {
      NothingAsked();
    } else if Resolves(ops[0]) {
      ResolvesAtOnce(ops[0].lookup.value.value, ops);
      assert ops[0..] == ops;
    } else {
      LifeIsOneRun(ops[1..]);
      StaysUnresolved(ops);
      assert Nothing(|ops|) == [None] + Nothing(|ops| - 1);
      if Resolution(ops[1..]).Some? {
        var (k, addrs) := Resolution(ops[1..]).value;
        assert ops[1..][k..] == ops[k + 1..];
        if addrs != [] {
          OneMoreNothing(k, Answers(Fresh(addrs), ops[k + 1..]));
        }
      }
    }
  }

  predicate Resolves(op: LifeOp) {
    op.Request? && op.lookup.Some? && op.lookup.value.Ok?
  }

  lemma OneMoreNothing(k: nat, rest: seq<Option<Addr>>)
    ensures [None] + (Nothing(k) + rest) == Nothing(k + 1) + rest
  {
  }

  lemma NothingAsked()
    ensures LifeRun(Unresolved, []) == (Unresolved, Nothing(0)) && Resolution([]) == None
  {
    assert Nothing(0) == [];
  }

  lemma StaysUnresolved(ops: seq<LifeOp>)
    requires ops != [] && !Resolves(ops[0])
    ensures var (end, replies) := LifeRun(Unresolved, ops[1..]);
            LifeRun(Unresolved, ops) == (end, [None] + replies)
    ensures Resolution(ops) == match Resolution(ops[1..])
                               case None => None
                               case Some((k, addrs)) => Some((k + 1, addrs))
  {
    hide AddrForStep, RotateStep;
    assert LifeStep(Unresolved, ops[0]) == (Unresolved, None);
  }

  lemma ResolvesAtOnce(addrs: seq<Addr>, ops: seq<LifeOp>)
    requires ops != [] && ops[0].Request? && ops[0].lookup == Some(Ok(addrs))
    ensures LifeRun(Unresolved, ops)
         == if addrs == [] then (Resolved(Fresh([])), Nothing(|ops|))
            else (Resolved(Run(Fresh(addrs), PoolOf(ops))), Nothing(0) + Answers(Fresh(addrs), ops))
    ensures Resolution(ops) == Some((0, addrs))
  {
    hide AddrForStep, RotateStep, Run, Answers, PoolOf;
    assert LifeStep(Unresolved, ops[0]) == LifeStep(Resolved(Fresh(addrs)), ops[0]);
    if addrs == [] {
      EmptyLife(ops);
    } else {
      ResolvedLife(Fresh(addrs), ops);
      assert Nothing(0) + Answers(Fresh(addrs), ops) == Answers(Fresh(addrs), ops);
    }
  }

  class EdgeAddressPool {
    var addrs: seq<Addr>
    var usedBy: map<ConnIndex, Addr>
    var resolved: bool

    function Contents(): Life
      reads this
    {
      if resolved then Resolved(Pool(addrs, usedBy)) else Unresolved
    }

    predicate Valid()
      reads this
    {
      (!resolved ==> addrs == [] && usedBy == map[]) && LifeInv(Contents())
    }

    constructor ()
      ensures Valid() && Contents() == Unresolved
    {
      addrs, usedBy, resolved := [], map[], false;
    }

    /** `ensureResolved`: asks the resolver only while unresolved. */
    method EnsureResolved(lookup: Lookup) returns (err: Option<PoolError>)
      requires Valid()
      modifies this
      ensures Valid()
      ensures match Resolve(old(Contents()), lookup)
              case Err(e) => err == Some(e) && Contents() == old(Contents())
              case Ok(life) => Contents() == life && resolved
                               && err == if addrs == [] then Some(NoUsableAddresses) else None
    {
      hide Injective, Covers;
      if resolved {
        return if |addrs| == 0 then Some(NoUsableAddresses) else None;
      }
      match lookup {
        case None => return Some(NilResolver);
        case Some(Err(reason)) => return Some(LookupFailed(reason));
        case Some(Ok(list)) =>
          addrs := list;
          resolved := true;
          if list != [] { FreshIsGood(list); }
          return if |addrs| == 0 then Some(NoUsableAddresses) else None;
      }
    }

    /** `unusedAddrLocked`: the first address neither bound to any index nor excluded. */
    method UnusedAddr(exclude: Option<Addr>) returns (addr: Option<Addr>)
      ensures addr == FirstOutside(addrs, usedBy.Values + (if exclude.Some? then {exclude.value} else {}))
    {
      var inUse: set<Addr> := {};
      var left := usedBy.Keys;
      while left != {}
        invariant left <= usedBy.Keys
        invariant inUse == (set i | i in usedBy && i !in left :: usedBy[i])
        decreases left
      {
        var i :| i in left;
        inUse := inUse + {usedBy[i]};
        left := left - {i};
      }
      assert inUse == usedBy.Values;
      if exclude.Some? {
        inUse := inUse + {exclude.value};
      }
      assert inUse == usedBy.Values + (if exclude.Some? then {exclude.value} else {});
      for k := 0 to |addrs|
        invariant FirstOutside(addrs, inUse) == FirstOutside(addrs[k..], inUse)
      {
        if addrs[k] !in inUse {
          return Some(addrs[k]);
        }
        assert addrs[k..][1..] == addrs[k + 1..];
      }
      return None;
    }

    /** `addrFor`. */
    method AddrFor(connIndex: ConnIndex, lookup: Lookup) returns (r: Result<Addr, PoolError>)
      requires Valid()
      modifies this
      ensures Valid()
      ensures (Contents(), r) == LifeAddrFor(old(Contents()), lookup, connIndex)
    {
      hide Injective, Covers, FirstOutside;
      LifeSafe(Contents(), lookup, connIndex);
      var err := EnsureResolved(lookup);
      if err.Some? {
        return Err(err.value);
      }
      if connIndex in usedBy {
        return Ok(usedBy[connIndex]);
      }
      var addr := UnusedAddr(None);
      assert usedBy.Values + {} == usedBy.Values;
      var bound := if addr.Some? then addr.value else addrs[Wrap(connIndex, |addrs|)];
      usedBy := usedBy[connIndex := bound];
      return Ok(bound);
    }

    /** `rotate`: release the index's address and take a different free one, or the released one back. */
    method Rotate(connIndex: ConnIndex)
      requires Valid()
      modifies this
      ensures Valid()
      ensures Contents() == LifeRotate(old(Contents()), connIndex)
    {
      hide Injective, Covers, FirstOutside;
      LifeSafe(Contents(), None, connIndex);
      if !resolved || |addrs| == 0 {
        return;
      }
      ghost var before := usedBy;
      var released := if connIndex in usedBy then Some(usedBy[connIndex]) else None;
      usedBy := usedBy - {connIndex};
      var addr := UnusedAddr(released);
      if addr.None? {
        addr := released;
      }
      if addr.Some? {
        usedBy := usedBy[connIndex := addr.value];
      }
      assert released.Some? ==> (before - {connIndex})[connIndex := released.value] == before;
      assert released.None? ==> before - {connIndex} == before;
    }
  }
}
