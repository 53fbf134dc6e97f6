/** The route index of `origin/router.go` and the best-match rule it implements. */
module Router {
  import opened Results
  import opened Routes
  import opened Text

  datatype Kind = Default | Exact | Prefix

  /** A rule after path classification and host normalisation. */
  datatype Compiled = Compiled(kind: Kind, route: RouteRule)

  // ----- path grammar -----

  /** `classifyAndNormalizeRulePath`; `None` is its error. */
  function ClassifyPath(path: string): Option<(Kind, string)> {
    if TrimSpace(path) != path then None
    else if path == "/" then Some((Default, "/"))
    else if !HasPrefix(path, "/") || Contains(path, "//") then None
    else if HasSuffix(path, "/*") then
      var base := path[..|path| - 2];
      if base == "" || base == "/" || '*' in base then None else Some((Prefix, base))
    else if '*' in path then None
    else Some((Exact, path))
  }

  function Compile(rule: RouteRule): Option<Compiled> {
    match ClassifyPath(rule.path)
    case None => None
    case Some(kp) => Some(Compiled(kp.0, rule.(host := NormalizeRouteHost(rule.host), path := kp.1)))
  }

  /** Rules that all compile, compiled in order. */
  function CompileAll(rules: seq<RouteRule>): (cs: seq<Compiled>)
    requires forall i :: 0 <= i < |rules| ==> Compile(rules[i]).Some?
    ensures |cs| == |rules|
    ensures forall i :: 0 <= i < |rules| ==> cs[i] == Compile(rules[i]).value
  {
    seq(|rules|, i requires 0 <= i < |rules| => Compile(rules[i]).value)
  }

  // ----- what it means to be the best match -----

  function HostPathKey(host: string, path: string): string {
    host + "\0" + path
  }

  /** A prefix covers its own path and everything below it, segment by segment. */
  predicate PrefixCovers(prefix: string, path: string) {
    path == prefix || HasPrefix(path, prefix + "/")
  }

  predicate PathMatches(c: Compiled, path: string) {
    match c.kind
    case Default => true
    case Exact => path == c.route.path
    case Prefix => PrefixCovers(c.route.path, path)
  }

  /** Does the rule apply to a request for `host` (already normalised) and `path`? */
  predicate Applies(c: Compiled, host: string, path: string) {
    (c.route.host == "" || c.route.host == host) && PathMatches(c, path)
  }

  /** Strictly higher precedence: own host first, then exact, then the longer prefix, then the default. */
  predicate Beats(a: Compiled, b: Compiled) {
    var hostA, hostB := a.route.host != "", b.route.host != "";
    if hostA != hostB then hostA
    else if a.kind == b.kind then a.kind == Prefix && |a.route.path| > |b.route.path|
    else a.kind == Exact || (a.kind == Prefix && b.kind == Default)
  }

  /** `c` applies and beats every other rule that applies. */
  ghost predicate IsBest(cs: seq<Compiled>, host: string, path: string, c: Compiled) {
    && c in cs && Applies(c, host, path)
    && forall d :: d in cs && Applies(d, host, path) && d != c ==> Beats(c, d)
  }

  predicate NulFree(s: string) {
    '\0' !in s
  }

  predicate NulFreeHosts(cs: seq<Compiled>) {
    forall c :: c in cs ==> NulFree(c.route.host)
  }

  // ----- the place a compiled rule takes in the index -----

  datatype Slot =
    | HostDefSlot(host: string)
    | HostExactSlot(key: string)
    | HostPrefixSlot(host: string, path: string)
    | DefSlot
    | ExactSlot(path: string)
    | PrefixSlot(path: string)

  function SlotOf(c: Compiled): Slot {
    if c.route.host != "" then
      match c.kind
      case Default => HostDefSlot(c.route.host)
      case Exact => HostExactSlot(HostPathKey(c.route.host, c.route.path))
      case Prefix => HostPrefixSlot(c.route.host, c.route.path)
    else
      match c.kind
      case Default => DefSlot
      case Exact => ExactSlot(c.route.path)
      case Prefix => PrefixSlot(c.route.path)
  }

  predicate SlotsDistinct(cs: seq<Compiled>) {
    forall i, j :: 0 <= i < j < |cs| ==> SlotOf(cs[i]) != SlotOf(cs[j])
  }

  /** Exactly the rule lists `NewRouter` accepts. */
  predicate Buildable(rules: seq<RouteRule>) {
    && (forall i :: 0 <= i < |rules| ==> Compile(rules[i]).Some?)
    && SlotsDistinct(CompileAll(rules))
  }

  // ----- the index -----

  datatype Index = Index(
    hostExact: map<string, RouteRule>,
    hostPrefixes: seq<RouteRule>,
    hostDef: map<string, RouteRule>,
    exact: map<string, RouteRule>,
    prefixes: seq<RouteRule>,
    def: Option<RouteRule>)

  const EMPTY := Index(map[], [], map[], map[], [], None)

  /** The rule stored under a slot, wherever the index keeps it. */
  predicate Holds(ix: Index, kind: Kind, route: RouteRule) {
    if route.host != "" then
      match kind
      case Default => route.host in ix.hostDef && ix.hostDef[route.host] == route
      case Exact =>
        var key := HostPathKey(route.host, route.path);
        key in ix.hostExact && ix.hostExact[key] == route
      case Prefix => route in ix.hostPrefixes
    else
      match kind
      case Default => ix.def == Some(route)
      case Exact => route.path in ix.exact && ix.exact[route.path] == route
      case Prefix => route in ix.prefixes
  }

  /** Keys lead to routes that belong under them. */
  predicate WellKeyed(ix: Index) {
    && (forall k :: k in ix.hostExact ==>
          ix.hostExact[k].host != "" && k == HostPathKey(ix.hostExact[k].host, ix.hostExact[k].path))
    && (forall k :: k in ix.hostDef ==> k != "" && ix.hostDef[k].host == k)
    && (forall k :: k in ix.exact ==> ix.exact[k].host == "" && ix.exact[k].path == k)
    && (forall r :: r in ix.hostPrefixes ==> r.host != "")
    && (forall r :: r in ix.prefixes ==> r.host == "")
    && (ix.def.Some? ==> ix.def.value.host == "")
  }

  /** The index holds exactly the compiled rules. */
  ghost predicate Represents(ix: Index, cs: seq<Compiled>) {
    && WellKeyed(ix)
    && (forall kind, route :: Holds(ix, kind, route) <==> Compiled(kind, route) in cs)
  }

  predicate LongestFirst(routes: seq<RouteRule>) {
    forall i, j :: 0 <= i < j < |routes| ==> |routes[i].path| >= |routes[j].path|
  }

  /** A finished index: complete, with both prefix lists longest first (in no particular order otherwise). */
  ghost predicate Built(ix: Index, cs: seq<Compiled>) {
    Represents(ix, cs) && LongestFirst(ix.prefixes) && LongestFirst(ix.hostPrefixes)
  }

  // ----- Match -----

  function FirstPrefix(routes: seq<RouteRule>, path: string): (r: Option<RouteRule>)
    ensures r.Some? ==> r.value in routes && PrefixCovers(r.value.path, path)
    ensures r.None? ==> forall p :: p in routes ==> !PrefixCovers(p.path, path)
  {
    if routes == [] then None
    else if PrefixCovers(routes[0].path, path) then Some(routes[0])
    else FirstPrefix(routes[1..], path)
  }

  function FirstHostPrefix(routes: seq<RouteRule>, host: string, path: string): (r: Option<RouteRule>)
    ensures r.Some? ==> r.value in routes && r.value.host == host && PrefixCovers(r.value.path, path)
    ensures r.None? ==> forall p :: p in routes && p.host == host ==> !PrefixCovers(p.path, path)
  {
    if routes == [] then None
    else if routes[0].host == host && PrefixCovers(routes[0].path, path) then Some(routes[0])
    else FirstHostPrefix(routes[1..], host, path)
  }

  function MatchHost(ix: Index, host: string, path: string): Option<RouteRule> {
    if host == "" then None
    else if HostPathKey(host, path) in ix.hostExact then Some(ix.hostExact[HostPathKey(host, path)])
    else
      var p := FirstHostPrefix(ix.hostPrefixes, host, path);
      if p.Some? then p
      else if host in ix.hostDef then Some(ix.hostDef[host])
      else None
  }

  function MatchGeneric(ix: Index, path: string): Option<RouteRule> {
    if path in ix.exact then Some(ix.exact[path])
    else
      var p := FirstPrefix(ix.prefixes, path);
      if p.Some? then p else ix.def
  }

  /** `Router.Match` after the request host has been normalised. */
  function MatchIndex(ix: Index, host: string, path: string): Option<RouteRule> {
    var m := MatchHost(ix, host, path);
    if m.Some? then m else MatchGeneric(ix, path)
  }

  // ----- the index refines the best-match rule -----

  /** Two paths of equal length covering the same path are the same path. */
  lemma EqualLengthPrefixes(p: string, q: string, path: string)
    requires PrefixCovers(p, path) && PrefixCovers(q, path) && |p| == |q|
    ensures p == q
  {
    assert p <= path && q <= path;
  }

  lemma LongestFirstWins(routes: seq<RouteRule>, path: string)
    requires LongestFirst(routes) && FirstPrefix(routes, path).Some?
    ensures forall p :: p in routes && PrefixCovers(p.path, path) ==> |FirstPrefix(routes, path).value.path| >= |p.path|
  {
    if !PrefixCovers(routes[0].path, path) {
      LongestFirstWins(routes[1..], path);
    }
  }

  lemma LongestHostFirstWins(routes: seq<RouteRule>, host: string, path: string)
    requires LongestFirst(routes) && FirstHostPrefix(routes, host, path).Some?
    ensures forall p :: p in routes && p.host == host && PrefixCovers(p.path, path)
                        ==> |FirstHostPrefix(routes, host, path).value.path| >= |p.path|
  {
    if !(routes[0].host == host && PrefixCovers(routes[0].path, path)) {
      LongestHostFirstWins(routes[1..], host, path);
    }
  }

  /** Without NUL in either host, the joined key separates hosts and paths. */
  lemma HostPathKeyInjective(h1: string, p1: string, h2: string, p2: string)
    requires NulFree(h1) && NulFree(h2)
    requires HostPathKey(h1, p1) == HostPathKey(h2, p2)
    ensures h1 == h2 && p1 == p2
  {
    IndexOfAfter(h1, '\0', p1);
    IndexOfAfter(h2, '\0', p2);
    assert h1 == HostPathKey(h1, p1)[..|h1|] && p1 == HostPathKey(h1, p1)[|h1| + 1..];
    assert h2 == HostPathKey(h2, p2)[..|h2|] && p2 == HostPathKey(h2, p2)[|h2| + 1..];
  }

  lemma SlotsIdentify(cs: seq<Compiled>, c: Compiled, d: Compiled)
    requires SlotsDistinct(cs) && c in cs && d in cs && SlotOf(c) == SlotOf(d)
    ensures c == d
  {
    var i :| 0 <= i < |cs| && cs[i] == c;
    var j :| 0 <= j < |cs| && cs[j] == d;
  }

  /** The joined key of the request is that of an exact rule only for this very host and path. */
  predicate KeyUnambiguous(cs: seq<Compiled>, host: string, path: string) {
    forall c :: c in cs && c.kind == Exact && c.route.host != ""
                && HostPathKey(c.route.host, c.route.path) == HostPathKey(host, path)
                ==> c.route.host == host && c.route.path == path
  }

  /** What the host half of the index finds is best among the rules for that host. */
  lemma MatchHostIsBest(ix: Index, cs: seq<Compiled>, host: string, path: string)
    requires Built(ix, cs) && SlotsDistinct(cs) && (host == "" || KeyUnambiguous(cs, host, path))
    ensures var m := MatchHost(ix, host, path);
            && (m.None? ==> forall d :: d in cs && Applies(d, host, path) ==> d.route.host == "")
            && (m.Some? ==> exists kind :: IsBest(cs, host, path, Compiled(kind, m.value)) && host != "")
  {
    hide HostPathKey, SlotOf, PrefixCovers;
    var m := MatchHost(ix, host, path);
    if host == "" {
    } else if HostPathKey(host, path) in ix.hostExact {
      var r := ix.hostExact[HostPathKey(host, path)];
      assert Holds(ix, Exact, r);
      assert r.host == host && r.path == path;
      ExactIsBest(cs, host, path, Compiled(Exact, r));
    } else {
      NoExactApplies(ix, cs, host, path);
      var p := FirstHostPrefix(ix.hostPrefixes, host, path);
      if p.Some? {
        assert Holds(ix, Prefix, p.value);
        LongestHostFirstWins(ix.hostPrefixes, host, path);
        forall d | d in cs && Applies(d, host, path) && d.kind == Prefix && d.route.host != ""
          ensures |p.value.path| >= |d.route.path|
        {
          assert Holds(ix, d.kind, d.route);
        }
        PrefixIsBest(cs, host, path, Compiled(Prefix, p.value));
      } else {
        forall d | d in cs && Applies(d, host, path) && d.route.host != "" ensures d.kind == Default {
          assert Holds(ix, d.kind, d.route);
        }
        if host in ix.hostDef {
          var r := ix.hostDef[host];
          assert Holds(ix, Default, r);
          DefaultIsBest(cs, host, path, Compiled(Default, r));
        } else {
          forall d | d in cs && Applies(d, host, path) ensures d.route.host == "" {
            assert Holds(ix, d.kind, d.route);
          }
        }
      }
    }
  }

  lemma NoExactApplies(ix: Index, cs: seq<Compiled>, host: string, path: string)
    requires Represents(ix, cs) && host != "" && HostPathKey(host, path) !in ix.hostExact
    ensures forall d :: d in cs && Applies(d, host, path) && d.route.host != "" ==> d.kind != Exact
  {
    forall d | d in cs && Applies(d, host, path) && d.route.host != "" ensures d.kind != Exact {
      assert Holds(ix, d.kind, d.route);
    }
  }

  lemma ExactIsBest(cs: seq<Compiled>, host: string, path: string, c: Compiled)
    requires SlotsDistinct(cs) && c in cs && c.kind == Exact && Applies(c, host, path) && c.route.host != ""
    ensures IsBest(cs, host, path, c)
  {
    forall d | d in cs && Applies(d, host, path) && d != c ensures Beats(c, d) {
      if d.kind == Exact && d.route.host != "" {
        SlotsIdentify(cs, c, d);
      }
    }
  }

  lemma PrefixIsBest(cs: seq<Compiled>, host: string, path: string, c: Compiled)
    requires SlotsDistinct(cs) && c in cs && c.kind == Prefix && Applies(c, host, path) && c.route.host != ""
    requires forall d :: d in cs && Applies(d, host, path) && d.route.host != "" ==> d.kind != Exact
    requires forall d :: d in cs && Applies(d, host, path) && d.kind == Prefix && d.route.host != ""
                         ==> |c.route.path| >= |d.route.path|
    ensures IsBest(cs, host, path, c)
  {
    forall d | d in cs && Applies(d, host, path) && d != c ensures Beats(c, d) {
      if d.kind == Prefix && d.route.host != "" && |d.route.path| == |c.route.path| {
        EqualLengthPrefixes(c.route.path, d.route.path, path);
        SlotsIdentify(cs, c, d);
      }
    }
  }

  lemma DefaultIsBest(cs: seq<Compiled>, host: string, path: string, c: Compiled)
    requires SlotsDistinct(cs) && c in cs && c.kind == Default && Applies(c, host, path) && c.route.host != ""
    requires forall d :: d in cs && Applies(d, host, path) && d.route.host != "" ==> d.kind == Default
    ensures IsBest(cs, host, path, c)
  {
    forall d | d in cs && Applies(d, host, path) && d != c ensures Beats(c, d) {
      if d.route.host != "" {
        SlotsIdentify(cs, c, d);
      }
    }
  }

  /** The generic half is best once no host-specific rule applies. */
  lemma MatchGenericIsBest(ix: Index, cs: seq<Compiled>, host: string, path: string)
    requires Built(ix, cs) && SlotsDistinct(cs)
    requires forall d :: d in cs && Applies(d, host, path) ==> d.route.host == ""
    ensures var m := MatchGeneric(ix, path);
            && (m.None? ==> forall d :: d in cs ==> !Applies(d, host, path))
            && (m.Some? ==> exists kind :: IsBest(cs, host, path, Compiled(kind, m.value)))
  {
    hide HostPathKey, PrefixCovers;
    var m := MatchGeneric(ix, path);
    var kind := if path in ix.exact then Exact else if FirstPrefix(ix.prefixes, path).Some? then Prefix else Default;
    if kind == Prefix {
      LongestFirstWins(ix.prefixes, path);
    }
    forall d | d in cs && Applies(d, host, path)
      ensures m.Some?
      ensures d.kind != kind ==> Beats(Compiled(kind, m.value), d)
      ensures d.kind == kind == Prefix ==> |m.value.path| >= |d.route.path|
    {
      assert Holds(ix, d.kind, d.route);
    }
    if m.Some? {
      var c := Compiled(kind, m.value);
      assert Holds(ix, c.kind, c.route);
      forall d | d in cs && Applies(d, host, path) && d != c ensures Beats(c, d) {
        if d.kind == kind {
          if kind == Prefix && |d.route.path| == |c.route.path| {
            EqualLengthPrefixes(c.route.path, d.route.path, path);
          }
          if !Beats(c, d) {
            assert SlotOf(c) == SlotOf(d);
            SlotsIdentify(cs, c, d);
          }
        }
      }
      assert IsBest(cs, host, path, c);
    }
  }

  /** The answer the best-match rule asks for: the best applicable rule, or none when no rule applies. */
  ghost predicate RightAnswer(ix: Index, cs: seq<Compiled>, host: string, path: string) {
    var m := MatchIndex(ix, host, path);
    && (m.None? <==> forall d :: d in cs ==> !Applies(d, host, path))
    && (m.Some? ==> exists kind :: IsBest(cs, host, path, Compiled(kind, m.value)))
  }

  /** Index refines spec, request by request: `Match` answers with the best rule exactly when no exact rule of another
      host and path shares the request's joined key. */
  lemma MatchIsBestIff(ix: Index, cs: seq<Compiled>, host: string, path: string)
    requires Built(ix, cs) && SlotsDistinct(cs)
    ensures RightAnswer(ix, cs, host, path) <==> host == "" || KeyUnambiguous(cs, host, path)
  {
    hide MatchHost, MatchGeneric, HostPathKey;
    if host == "" || KeyUnambiguous(cs, host, path) {
      MatchHostIsBest(ix, cs, host, path);
      if MatchHost(ix, host, path).None? {
        MatchGenericIsBest(ix, cs, host, path);
      }
    } else {
      var c :| c in cs && c.kind == Exact && c.route.host != ""
               && HostPathKey(c.route.host, c.route.path) == HostPathKey(host, path)
               && !(c.route.host == host && c.route.path == path);
      AmbiguousIsWrong(ix, cs, host, path, c);
    }
  }

  lemma AmbiguousIsWrong(ix: Index, cs: seq<Compiled>, host: string, path: string, c: Compiled)
    requires Built(ix, cs) && host != "" && c in cs && c.kind == Exact && c.route.host != ""
    requires HostPathKey(c.route.host, c.route.path) == HostPathKey(host, path)
    requires !(c.route.host == host && c.route.path == path)
    ensures MatchIndex(ix, host, path) == Some(c.route)
    ensures !RightAnswer(ix, cs, host, path)
  {
    hide PrefixCovers;
    assert Holds(ix, c.kind, c.route);
    assert path == HostPathKey(host, path)[|host| + 1..];
    assert c.route.path == HostPathKey(c.route.host, c.route.path)[|c.route.host| + 1..];
  }

  /** So for NUL-free hosts every answer is right. */
  lemma MatchIsBest(ix: Index, cs: seq<Compiled>, host: string, path: string)
    requires Built(ix, cs) && SlotsDistinct(cs) && NulFreeHosts(cs) && NulFree(host)
    ensures RightAnswer(ix, cs, host, path)
  {
    hide HostPathKey, RightAnswer;
    forall c | c in cs && HostPathKey(c.route.host, c.route.path) == HostPathKey(host, path)
      ensures c.route.host == host && c.route.path == path
    {
      HostPathKeyInjective(c.route.host, c.route.path, host, path);
    }
    MatchIsBestIff(ix, cs, host, path);
  }

  predicate SlashFree(s: string) {
    '/' !in s
  }

  /** A request whose host and path cannot be cut apart differently: a rooted path, or no NUL in either. */
  predicate PlainRequest(host: string, path: string) {
    (HasPrefix(path, "/") && (NulFree(host) || SlashFree(host))) || (NulFree(host) && NulFree(path))
  }

  /** The slash that starts a path separates as well as the NUL does: no NUL hypothesis on rules is needed then. */
  lemma SlashSeparates(h1: string, p1: string, h2: string, p2: string)
    requires SlashFree(h1) && HasPrefix(p1, "/") && HasPrefix(p2, "/") && (NulFree(h2) || SlashFree(h2))
    requires HostPathKey(h1, p1) == HostPathKey(h2, p2)
    ensures h1 == h2 && p1 == p2
  {
    var key := HostPathKey(h1, p1);
    assert key[|h1|] == '\0' && key[|h1| + 1] == '/' && key[|h2|] == '\0' && key[|h2| + 1] == '/';
    assert forall i :: 0 <= i < |h1| ==> key[i] == h1[i];
    assert forall i :: 0 <= i < |h2| ==> key[i] == h2[i];
    assert |h1| == |h2|;
    assert h1 == key[..|h1|] && h2 == key[..|h2|];
    assert p1 == key[|h1| + 1..] && p2 == key[|h2| + 1..];
  }

  /** A key with one NUL has one reading. */
  lemma LoneNulSeparates(h1: string, p1: string, h2: string, p2: string)
    requires NulFree(h2) && NulFree(p2) && HostPathKey(h1, p1) == HostPathKey(h2, p2)
    ensures h1 == h2 && p1 == p2
  {
    var key := HostPathKey(h1, p1);
    assert key[|h1|] == '\0';
    assert forall i :: 0 <= i < |h2| ==> key[i] == h2[i];
    assert forall i :: |h2| < i < |key| ==> key[i] == p2[i - |h2| - 1];
    assert |h1| == |h2|;
    assert h1 == key[..|h1|] && h2 == key[..|h2|];
    assert p1 == key[|h1| + 1..] && p2 == key[|h2| + 1..];
  }

  /** Rules as the configuration admits them: no slash in a host, and paths that start with one. */
  predicate PlainRules(cs: seq<Compiled>) {
    forall c :: c in cs ==> SlashFree(c.route.host) && HasPrefix(c.route.path, "/")
  }

  /** Every answer to a plain request is right for such rules, whatever other characters their hosts hold. */
  lemma PlainMatchIsBest(ix: Index, cs: seq<Compiled>, host: string, path: string)
    requires Built(ix, cs) && SlotsDistinct(cs) && PlainRules(cs) && PlainRequest(host, path)
    ensures RightAnswer(ix, cs, host, path)
  {
    hide HostPathKey, RightAnswer, HasPrefix, SlashFree, NulFree;
    forall c | c in cs && HostPathKey(c.route.host, c.route.path) == HostPathKey(host, path)
      ensures c.route.host == host && c.route.path == path
    {
      if NulFree(host) && NulFree(path) {
        LoneNulSeparates(c.route.host, c.route.path, host, path);
      } else {
        SlashSeparates(c.route.host, c.route.path, host, path);
      }
    }
    MatchIsBestIff(ix, cs, host, path);
  }

  /** There is at most one best rule, so the specification leaves no choice. */
  lemma BestIsUnique(cs: seq<Compiled>, host: string, path: string, a: Compiled, b: Compiled)
    requires IsBest(cs, host, path, a) && IsBest(cs, host, path, b)
    ensures a == b
  {
  }

  // ----- NUL in a host breaks the joined key -----

  /** What stands before the first NUL. */
  function BeforeNul(h: string): string {
    var i := IndexOf(h, '\0');
    if i < 0 then h else h[..i]
  }

  /** What stands before the host's NUL can be the host of a request. */
  predicate HidesHost(h: string) {
    !NulFree(h) && BeforeNul(h) != "" && RequestHost(BeforeNul(h))
  }

  predicate NoHiddenHost(cs: seq<Compiled>) {
    forall c :: c in cs && c.kind == Exact ==> !HidesHost(c.route.host)
  }

  /** Exactly the routers that answer every request without NUL in its host rightly. */
  lemma AllRightIff(ix: Index, cs: seq<Compiled>)
    requires Built(ix, cs) && SlotsDistinct(cs)
    ensures (forall request, path :: NulFree(NormalizeRequestHost(request)) ==>
               RightAnswer(ix, cs, NormalizeRequestHost(request), path))
            <==> NoHiddenHost(cs)
  {
    hide RightAnswer, Built, SlotsDistinct, NormalizeRequestHost, RequestHost, HostPathKey, HidesHost;
    if NoHiddenHost(cs) {
      forall request, path | NulFree(NormalizeRequestHost(request))
        ensures RightAnswer(ix, cs, NormalizeRequestHost(request), path)
      {
        RequestHostIff(NormalizeRequestHost(request));
        UnhiddenIsUnambiguous(cs, NormalizeRequestHost(request), path);
        MatchIsBestIff(ix, cs, NormalizeRequestHost(request), path);
      }
    } else {
      var c :| c in cs && c.kind == Exact && HidesHost(c.route.host);
      var request, path := HiddenRequest(c.route.host, c.route.path);
      MatchIsBestIff(ix, cs, NormalizeRequestHost(request), path);
    }
  }

  /** A request for what stands before the NUL, with a path that completes the joined key. */
  lemma HiddenRequest(h: string, p: string) returns (request: string, path: string)
    requires HidesHost(h)
    ensures var host := NormalizeRequestHost(request);
            NulFree(host) && host != "" && host != h && host == BeforeNul(h)
            && HostPathKey(h, p) == HostPathKey(host, path)
  {
    hide NormalizeRequestHost, RequestHost;
    var i := IndexOf(h, '\0');
    var host := h[..i];
    path := h[i + 1..] + "\0" + p;
    assert h == host + "\0" + h[i + 1..];
    RequestHostIff(host);
    request :| NormalizeRequestHost(request) == host;
  }

  /** A key that starts with a NUL-free host shows what its own host has before a NUL. */
  lemma KeyShowsName(h1: string, p1: string, h2: string, p2: string)
    requires NulFree(h2) && HostPathKey(h1, p1) == HostPathKey(h2, p2)
    ensures BeforeNul(h1) == h2
    ensures NulFree(h1) ==> h1 == h2 && p1 == p2
  {
    var i := IndexOf(h1, '\0');
    if i >= 0 {
      assert h1 == h1[..i] + "\0" + h1[i + 1..];
      assert HostPathKey(h1, p1) == HostPathKey(h1[..i], h1[i + 1..] + "\0" + p1);
      HostPathKeyInjective(h1[..i], h1[i + 1..] + "\0" + p1, h2, p2);
    } else {
      HostPathKeyInjective(h1, p1, h2, p2);
    }
  }

  lemma UnhiddenIsUnambiguous(cs: seq<Compiled>, host: string, path: string)
    requires NoHiddenHost(cs) && NulFree(host) && RequestHost(host)
    ensures host == "" || KeyUnambiguous(cs, host, path)
  {
    hide RequestHost, HostPathKey, BeforeNul;
    if host != "" {
      forall c | c in cs && c.kind == Exact && c.route.host != ""
                 && HostPathKey(c.route.host, c.route.path) == HostPathKey(host, path)
        ensures c.route.host == host && c.route.path == path
      {
        KeyShowsName(c.route.host, c.route.path, host, path);
      }
    }
  }

  /** One router that does not: the exact table answers for a host and path no rule applies to. */
  lemma NulHostMismatch()
    ensures var rule := RouteRule("a\0b", "/c", "http://x", false, "", false, false, false, false);
            var ix := EMPTY.(hostExact := map[HostPathKey("a\0b", "/c") := rule]);
            && Built(ix, [Compiled(Exact, rule)])
            && MatchIndex(ix, "a", "b\0/c") == Some(rule)
            && !Applies(Compiled(Exact, rule), "a", "b\0/c")
  {
    var rule := RouteRule("a\0b", "/c", "http://x", false, "", false, false, false, false);
    var ix := EMPTY.(hostExact := map[HostPathKey("a\0b", "/c") := rule]);
    assert HostPathKey("a\0b", "/c") == HostPathKey("a", "b\0/c");
    forall kind, route ensures Holds(ix, kind, route) <==> Compiled(kind, route) in [Compiled(Exact, rule)] {
    }
  }

  // ----- the order of the rules does not matter -----

  lemma WithoutElement<T>(s: seq<T>, i: nat)
    requires i < |s|
    ensures multiset(s[..i] + s[i + 1..]) == multiset(s) - multiset{s[i]}
  {
    assert s == s[..i] + ([s[i]] + s[i + 1..]);
  }

  lemma PairInPermutation<T>(a: seq<T>, b: seq<T>, i: nat, j: nat) returns (k: nat, l: nat)
    requires multiset(a) == multiset(b) && i < j < |a|
    ensures k < |b| && l < |b| && k != l && b[k] == a[i] && b[l] == a[j]
  {
    assert a[i] in multiset(b) && a[j] in multiset(b);
    k :| 0 <= k < |b| && b[k] == a[i];
    WithoutElement(a, i);
    WithoutElement(b, k);
    var a', b' := a[..i] + a[i + 1..], b[..k] + b[k + 1..];
    assert a'[j - 1] == a[j];
    assert a[j] in multiset(a');
    assert multiset(a') == multiset(b');
    var l' :| 0 <= l' < |b'| && b'[l'] == a[j];
    l := if l' < k then l' else l' + 1;
  }

  /** Permuting the rules never changes whether the router can be built. */
  lemma BuildableIsOrderFree(rules: seq<RouteRule>, permuted: seq<RouteRule>)
    requires multiset(rules) == multiset(permuted) && Buildable(rules)
    ensures Buildable(permuted)
  {
    hide SlotOf, Compile;
    forall i | 0 <= i < |permuted| ensures Compile(permuted[i]).Some? {
      assert permuted[i] in multiset(rules);
    }
    var cs, ds := CompileAll(rules), CompileAll(permuted);
    forall i, j | 0 <= i < j < |ds| ensures SlotOf(ds[i]) != SlotOf(ds[j]) {
      var k, l := PairInPermutation(permuted, rules, i, j);
      assert cs[k] == ds[i] && cs[l] == ds[j];
    }
  }

  lemma CompiledElements(rules: seq<RouteRule>, permuted: seq<RouteRule>)
    requires multiset(rules) == multiset(permuted) && Buildable(rules) && Buildable(permuted)
    ensures forall c :: c in CompileAll(rules) ==> c in CompileAll(permuted)
  {
    hide Compile, SlotsDistinct;
    var cs, ds := CompileAll(rules), CompileAll(permuted);
    forall c | c in cs ensures c in ds {
      var i :| 0 <= i < |cs| && cs[i] == c;
      assert rules[i] in multiset(permuted);
      var k :| 0 <= k < |permuted| && permuted[k] == rules[i];
      assert ds[k] == c;
    }
  }

  lemma SameHostPrefix(ix: Index, jx: Index, cs: seq<Compiled>, ds: seq<Compiled>, host: string, path: string)
    requires Built(ix, cs) && Built(jx, ds) && SlotsDistinct(cs) && host != ""
    requires forall c :: c in cs <==> c in ds
    ensures FirstHostPrefix(ix.hostPrefixes, host, path) == FirstHostPrefix(jx.hostPrefixes, host, path)
  {
    hide PrefixCovers, HostPathKey;
    var p, q := FirstHostPrefix(ix.hostPrefixes, host, path), FirstHostPrefix(jx.hostPrefixes, host, path);
    forall r: RouteRule | r.host == host ensures r in ix.hostPrefixes <==> r in jx.hostPrefixes {
      assert Holds(ix, Prefix, r) <==> Holds(jx, Prefix, r);
    }
    if p.Some? && q.Some? {
      LongestHostFirstWins(ix.hostPrefixes, host, path);
      LongestHostFirstWins(jx.hostPrefixes, host, path);
      EqualLengthPrefixes(p.value.path, q.value.path, path);
      assert Holds(ix, Prefix, p.value) && Holds(ix, Prefix, q.value);
      SlotsIdentify(cs, Compiled(Prefix, p.value), Compiled(Prefix, q.value));
    }
  }

  lemma SamePrefix(ix: Index, jx: Index, cs: seq<Compiled>, ds: seq<Compiled>, path: string)
    requires Built(ix, cs) && Built(jx, ds) && SlotsDistinct(cs)
    requires forall c :: c in cs <==> c in ds
    ensures FirstPrefix(ix.prefixes, path) == FirstPrefix(jx.prefixes, path)
  {
    hide PrefixCovers, HostPathKey;
    var p, q := FirstPrefix(ix.prefixes, path), FirstPrefix(jx.prefixes, path);
    forall r: RouteRule | r.host == "" ensures r in ix.prefixes <==> r in jx.prefixes {
      assert Holds(ix, Prefix, r) <==> Holds(jx, Prefix, r);
    }
    if p.Some? && q.Some? {
      LongestFirstWins(ix.prefixes, path);
      LongestFirstWins(jx.prefixes, path);
      EqualLengthPrefixes(p.value.path, q.value.path, path);
      assert Holds(ix, Prefix, p.value) && Holds(ix, Prefix, q.value);
      SlotsIdentify(cs, Compiled(Prefix, p.value), Compiled(Prefix, q.value));
    }
  }

  lemma SameTables(ix: Index, jx: Index, cs: seq<Compiled>, ds: seq<Compiled>)
    requires Represents(ix, cs) && Represents(jx, ds)
    requires forall c :: c in cs <==> c in ds
    ensures ix.hostExact == jx.hostExact && ix.hostDef == jx.hostDef && ix.exact == jx.exact && ix.def == jx.def
  {
    hide HostPathKey;
    SubTables(ix, jx, cs, ds);
    SubTables(jx, ix, ds, cs);
  }

  lemma SubTables(ix: Index, jx: Index, cs: seq<Compiled>, ds: seq<Compiled>)
    requires Represents(ix, cs) && Represents(jx, ds)
    requires forall c :: c in cs <==> c in ds
    ensures forall k :: k in ix.hostExact ==> k in jx.hostExact && jx.hostExact[k] == ix.hostExact[k]
    ensures forall k :: k in ix.hostDef ==> k in jx.hostDef && jx.hostDef[k] == ix.hostDef[k]
    ensures forall k :: k in ix.exact ==> k in jx.exact && jx.exact[k] == ix.exact[k]
    ensures ix.def.Some? ==> jx.def == ix.def
  {
    hide HostPathKey;
    forall k | k in ix.hostExact ensures k in jx.hostExact && jx.hostExact[k] == ix.hostExact[k] {
      assert Holds(ix, Exact, ix.hostExact[k]);
      assert Holds(jx, Exact, ix.hostExact[k]);
    }
    forall k | k in ix.hostDef ensures k in jx.hostDef && jx.hostDef[k] == ix.hostDef[k] {
      assert Holds(ix, Default, ix.hostDef[k]);
      assert Holds(jx, Default, ix.hostDef[k]);
    }
    forall k | k in ix.exact ensures k in jx.exact && jx.exact[k] == ix.exact[k] {
      assert Holds(ix, Exact, ix.exact[k]);
      assert Holds(jx, Exact, ix.exact[k]);
    }
    if ix.def.Some? {
      assert Holds(ix, Default, ix.def.value);
      assert Holds(jx, Default, ix.def.value);
    }
  }

  /** Permuting the rules never changes a match, for any host and path, whatever order the unstable sort left. */
  lemma MatchIsOrderFree(rules: seq<RouteRule>, permuted: seq<RouteRule>, ix: Index, jx: Index, host: string,
                         path: string)
    requires multiset(rules) == multiset(permuted) && Buildable(rules) && Buildable(permuted)
    requires Built(ix, CompileAll(rules)) && Built(jx, CompileAll(permuted))
    ensures MatchIndex(ix, host, path) == MatchIndex(jx, host, path)
  {
    hide HostPathKey, SlotsDistinct, Represents, FirstPrefix, FirstHostPrefix, Compile;
    var cs, ds := CompileAll(rules), CompileAll(permuted);
    CompiledElements(rules, permuted);
    CompiledElements(permuted, rules);
    SameTables(ix, jx, cs, ds);
    SamePrefix(ix, jx, cs, ds, path);
    if host != "" {
      SameHostPrefix(ix, jx, cs, ds, host, path);
    }
  }

  // ----- the request host -----

  /** The host part `net.SplitHostPort` returns, or `None` for its errors. */
  function SplitHost(hostport: string): Option<string> {
    var i := LastIndexOf(hostport, ':');
    if i < 0 then None
    else if hostport[0] == '[' then
      var end := IndexOf(hostport, ']');
      if end < 0 || end + 1 != i || '[' in hostport[1..] || ']' in hostport[end + 1..] then None
      else Some(hostport[1..end])
    else
      var host := hostport[..i];
      if ':' in host || '[' in hostport || ']' in hostport then None else Some(host)
  }

  function TrimBracketsLeft(s: string): string {
    if s != "" && (s[0] == '[' || s[0] == ']') then TrimBracketsLeft(s[1..]) else s
  }

  function TrimBracketsRight(s: string): string {
    if s != "" && (s[|s| - 1] == '[' || s[|s| - 1] == ']') then TrimBracketsRight(s[..|s| - 1]) else s
  }

  function TrimBrackets(s: string): string {
    TrimBracketsRight(TrimBracketsLeft(s))
  }

  /** `normalizeRequestHost`. */
  function NormalizeRequestHost(host: string): string {
    var h := ToLower(TrimSpace(host));
    if h == "" then ""
    else
      match SplitHost(h)
      case Some(name) => TrimBrackets(ToLower(name))
      case None => TrimBrackets(h)
  }

  // ----- which hosts requests have -----

  predicate Bracket(c: char) {
    c == '[' || c == ']'
  }

  predicate NoBracketEnds(s: string) {
    s != "" ==> !Bracket(s[0]) && !Bracket(s[|s| - 1])
  }

  /** A host that the normalisation of some request yields; see `RequestHostIff`. */
  predicate RequestHost(t: string) {
    ToLower(t) == t && NoBracketEnds(t)
  }

  lemma {:induction false} TrimBracketsLeftShape(s: string)
    ensures |TrimBracketsLeft(s)| <= |s| && TrimBracketsLeft(s) == s[|s| - |TrimBracketsLeft(s)|..]
    ensures TrimBracketsLeft(s) != "" ==> !Bracket(TrimBracketsLeft(s)[0])
    decreases |s|
  {
    if s != "" && Bracket(s[0]) {
      TrimBracketsLeftShape(s[1..]);
    }
  }

  lemma {:induction false} TrimBracketsRightShape(s: string)
    ensures TrimBracketsRight(s) <= s
    ensures TrimBracketsRight(s) != "" ==> !Bracket(TrimBracketsRight(s)[|TrimBracketsRight(s)| - 1])
    decreases |s|
  {
    if s != "" && Bracket(s[|s| - 1]) {
      TrimBracketsRightShape(s[..|s| - 1]);
    }
  }

  lemma LowerSlice(s: string, i: nat, j: nat)
    requires ToLower(s) == s && i <= j <= |s|
    ensures ToLower(s[i..j]) == s[i..j]
  {
    assert forall k :: i <= k < j ==> s[k] == ToLower(s)[k] == LowerChar(s[k]);
  }

  /** Trimming leaves no bracket at either end, and changes nothing exactly when there is none. */
  lemma TrimBracketsShape(s: string)
    ensures NoBracketEnds(TrimBrackets(s)) && |TrimBrackets(s)| <= |s|
    ensures TrimBrackets(s) == s <==> NoBracketEnds(s)
  {
    hide TrimBracketsLeft, TrimBracketsRight;
    var l := TrimBracketsLeft(s);
    var t := TrimBracketsRight(l);
    TrimBracketsLeftShape(s);
    TrimBracketsRightShape(l);
    TrimsNothing(s);
    assert t != "" ==> t[0] == l[0];
  }

  lemma TrimBracketsKeepsLower(s: string)
    requires ToLower(s) == s
    ensures ToLower(TrimBrackets(s)) == TrimBrackets(s)
  {
    hide ToLower, TrimBracketsLeft, TrimBracketsRight;
    var l := TrimBracketsLeft(s);
    TrimBracketsLeftShape(s);
    LowerSlice(s, |s| - |l|, |s|);
    assert s[|s| - |l|..] == s[|s| - |l|..|s|];
    TrimBracketsRightShape(l);
    LowerSlice(l, 0, |TrimBracketsRight(l)|);
    assert l[0..|TrimBracketsRight(l)|] == TrimBracketsRight(l);
  }

  lemma TrimsNothing(s: string)
    ensures NoBracketEnds(s) ==> TrimBracketsLeft(s) == s && TrimBracketsRight(s) == s
  {
  }

  lemma TrimBracketsOfBracketed(t: string)
    requires NoBracketEnds(t)
    ensures TrimBrackets("[" + t + "]") == t
  {
    var s, u := "[" + t + "]", t + "]";
    assert s[1..] == u && s[0] == '[';
    if t == "" {
      assert u == "]" && u[1..] == "";
      assert TrimBracketsLeft(u) == TrimBracketsLeft("") == "";
      assert TrimBracketsLeft(s) == "";
    } else {
      assert u[0] == t[0] && u[|u| - 1] == ']' && u[..|u| - 1] == t;
      assert TrimBracketsLeft(s) == u;
      TrimsNothing(t);
    }
  }

  /** The text that `SplitHostPort` returns is shorter, and lower-case when the whole is. */
  lemma SplitHostShape(h: string)
    requires SplitHost(h).Some?
    ensures |SplitHost(h).value| < |h|
    ensures ToLower(h) == h ==> ToLower(SplitHost(h).value) == SplitHost(h).value
  {
    hide ToLower;
    var name := SplitHost(h).value;
    if ToLower(h) == h {
      var k := if h[0] == '[' then 1 else 0;
      LowerSlice(h, k, k + |name|);
      assert h[..|name|] == h[0..|name|];
    }
  }

  lemma BracketedIsNotSplit(t: string)
    ensures SplitHost("[" + t + "]") == None
  {
    var s := "[" + t + "]";
    var end := IndexOf(s, ']');
    assert s[|s| - 1] == ']' && s[0] == '[';
    if 0 <= end < |s| - 1 {
      assert s[end + 1..][|s| - end - 2] == ']';
    }
  }

  lemma BracketedIsTrimmed(t: string)
    requires ToLower(t) == t
    ensures TrimSpace("[" + t + "]") == "[" + t + "]" && ToLower("[" + t + "]") == "[" + t + "]"
  {
    hide ToLower, TrimSpace;
    var s := "[" + t + "]";
    TrimSpaceOfTrimmed(s);
    assert forall i :: 0 <= i < |t| ==> s[1 + i] == t[i] == ToLower(t)[i] == LowerChar(t[i]);
  }

  /** Exactly the hosts that requests can have: lower-case texts without a bracket at either end. */
  lemma RequestHostIff(t: string)
    ensures (exists request :: NormalizeRequestHost(request) == t) <==> RequestHost(t)
  {
    hide ToLower, TrimSpace, SplitHost, TrimBrackets;
    if request :| NormalizeRequestHost(request) == t {
      var h := ToLower(TrimSpace(request));
      ToLowerIdempotent(TrimSpace(request));
      if h != "" {
        if SplitHost(h).Some? {
          SplitHostShape(h);
          TrimBracketsShape(SplitHost(h).value);
          TrimBracketsKeepsLower(SplitHost(h).value);
        } else {
          TrimBracketsShape(h);
          TrimBracketsKeepsLower(h);
        }
      } else {
        assert ToLower("") == "";
      }
    }
    if RequestHost(t) {
      BracketedIsTrimmed(t);
      BracketedIsNotSplit(t);
      TrimBracketsOfBracketed(t);
      assert NormalizeRequestHost("[" + t + "]") == t;
    }
  }

  /** A single colon and no bracket: what reads as a host with a port. */
  predicate ReadsAsPort(h: string) {
    var i := IndexOf(h, ':');
    i >= 0 && ':' !in h[i + 1..] && '[' !in h && ']' !in h
  }

  lemma SplitWithoutBrackets(h: string)
    requires h != "" && h[0] != '['
    ensures SplitHost(h) == if ReadsAsPort(h) then Some(h[..IndexOf(h, ':')]) else None
  {
    var i, j := IndexOf(h, ':'), LastIndexOf(h, ':');
    if i >= 0 {
      assert forall k :: 0 <= k < i ==> h[k] == h[..i][k];
      assert i <= j;
      assert i < j ==> h[..j][i] == ':' && h[i + 1..][j - i - 1] == ':';
    }
  }

  /** Exactly the hosts that a request naming them as a rule does, in any case of letters and with blanks around,
      reaches: they have no bracket at either end and do not read as a host with a port. */
  lemma NamedAsIsIff(request: string)
    ensures var h := NormalizeRouteHost(request);
            NormalizeRequestHost(request) == h <==> NoBracketEnds(h) && !ReadsAsPort(h)
  {
    hide ToLower, TrimSpace, SplitHost, TrimBrackets, ReadsAsPort;
    var h := NormalizeRouteHost(request);
    if h == "" {
      assert !ReadsAsPort("") by { EmptyIsNoPort(); }
    } else {
      ToLowerIdempotent(TrimSpace(request));
      TrimBracketsShape(h);
      if SplitHost(h).Some? {
        SplitHostShape(h);
        TrimBracketsShape(SplitHost(h).value);
      }
      if h[0] != '[' {
        SplitWithoutBrackets(h);
      }
    }
  }

  lemma EmptyIsNoPort()
    ensures !ReadsAsPort("")
  {
  }

  predicate Digits(s: string) {
    forall i :: 0 <= i < |s| ==> '0' <= s[i] <= '9'
  }

  lemma LowerTrimmed(request: string)
    requires IsTrimmed(ToLower(request))
    ensures TrimSpace(request) == request
  {
    if request != "" {
      assert LowerChar(request[0]) == ToLower(request)[0];
      assert LowerChar(request[|request| - 1]) == ToLower(request)[|request| - 1];
    }
    TrimSpaceOfTrimmed(request);
  }

  lemma SplitHostOfPort(h: string, port: string)
    requires h != "" && ':' !in h && '[' !in h && ']' !in h && Digits(port)
    ensures SplitHost(h + ":" + port) == Some(h)
  {
    var hp := h + ":" + port;
    LastIndexOfAfter(h, ':', port);
    assert hp[..|h|] == h;
    assert '[' !in hp && ']' !in hp;
  }

  lemma SplitHostOfLiteral(h: string, port: string)
    requires '[' !in h && ']' !in h && Digits(port)
    ensures SplitHost("[" + h + "]:" + port) == Some(h)
  {
    hide LastIndexOf, IndexOf;
    var front, hp := "[" + h + "]", "[" + h + "]:" + port;
    assert hp == front + [':'] + port;
    LastIndexOfAfter(front, ':', port);
    LiteralCloses(h, ":" + port);
    assert hp == "[" + h + "]" + (":" + port);
  }

  lemma LiteralCloses(h: string, rest: string)
    requires '[' !in h && ']' !in h
    ensures var hp := "[" + h + "]" + rest;
            IndexOf(hp, ']') == |h| + 1 && hp[1..|h| + 1] == h && hp[|h| + 2..] == rest && hp[1..] == h + "]" + rest
  {
    hide IndexOf;
    var open, hp := "[" + h, "[" + h + "]" + rest;
    assert hp == open + [']'] + rest;
    IndexOfAfter(open, ']', rest);
  }

  /** The texts by which a request names a host: as it is, with a port, or as a bracketed literal with or without
      one. */
  predicate Names(request: string, h: string, port: string) {
    var low := ToLower(request);
    || low == "[" + h + "]" || low == "[" + h + "]:" + port
    || (':' !in h && (low == h || low == h + ":" + port))
  }

  /** A host without brackets is reached by all of these, in any case of letters; a host with colons, such as an IPv6
      address, by the bracketed ones. */
  lemma RequestHostReachesRule(h: string, port: string, request: string)
    requires h != "" && NormalizeRouteHost(h) == h && '[' !in h && ']' !in h
    requires Digits(port) && Names(request, h, port)
    ensures NormalizeRequestHost(request) == h
  {
    hide TrimSpace, SplitHost, ToLower, TrimBrackets, IsTrimmed;
    TrimSpaceShape(h);
    ToLowerKeepsTrimmed(TrimSpace(h));
    ToLowerIdempotent(TrimSpace(h));
    var low := ToLower(request);
    TrimmedName(low, h, port);
    LowerTrimmed(request);
    TrimBracketsShape(h);
    if low == "[" + h + "]" {
      BracketedIsNotSplit(h);
      TrimBracketsOfBracketed(h);
    } else if low == "[" + h + "]:" + port {
      SplitHostOfLiteral(h, port);
    } else if low == h {
      assert SplitHost(h) == None by { SplitHostOfPlain(h); }
    } else {
      SplitHostOfPort(h, port);
    }
  }

  lemma TrimmedName(low: string, h: string, port: string)
    requires h != "" && IsTrimmed(h) && Digits(port)
    requires low == "[" + h + "]" || low == "[" + h + "]:" + port || low == h || low == h + ":" + port
    ensures IsTrimmed(low)
  {
    assert low[0] == h[0] || low[0] == '[';
    var last := low[|low| - 1];
    assert last == h[|h| - 1] || last == ':' || last == ']' || '0' <= last <= '9';
  }

  lemma SplitHostOfPlain(h: string)
    requires ':' !in h
    ensures SplitHost(h) == None
  {
  }

  /** A rule for "a:8" is not reached by a request that names it so: the request's host is "a". */
  lemma PortHostIsMissed()
    ensures NormalizeRouteHost("a:8") == "a:8" && NormalizeRequestHost("a:8") == "a"
  {
    TrimSpaceOfTrimmed("a:8");
    assert ToLower("a:8") == "a:8";
    assert "a:8" == "a" + ":" + "8";
    SplitHostOfPort("a", "8");
    assert ToLower("a") == "a";
  }

  /** A rule whose host starts with a bracket, such as an IPv6 literal, answers no request at all. */
  lemma BracketedRuleIsDead(ix: Index, c: Compiled, request: string, path: string)
    requires Built(ix, [c]) && c.route.host != "" && Bracket(c.route.host[0])
    ensures MatchIndex(ix, NormalizeRequestHost(request), path) == None
  {
    hide NormalizeRequestHost, PrefixCovers, HostPathKey, MatchIndex;
    var host := NormalizeRequestHost(request);
    RequestHostIff(host);
    if host != "" {
      KeysDifferEarly(c.route.host, c.route.path, host, path);
    }
    MatchIsBestIff(ix, [c], host, path);
  }

  lemma KeysDifferEarly(h1: string, p1: string, h2: string, p2: string)
    requires h1 != "" && h2 != "" && h1[0] != h2[0]
    ensures HostPathKey(h1, p1) != HostPathKey(h2, p2)
  {
    assert HostPathKey(h1, p1)[0] == h1[0] && HostPathKey(h2, p2)[0] == h2[0];
  }

  // ----- building the index -----

  /** Is the slot of a rule with this kind and route already taken? */
  predicate SlotTaken(ix: Index, kind: Kind, route: RouteRule) {
    if route.host != "" then
      match kind
      case Default => route.host in ix.hostDef
      case Exact => HostPathKey(route.host, route.path) in ix.hostExact
      case Prefix => exists p :: p in ix.hostPrefixes && p.host == route.host && p.path == route.path
    else
      match kind
      case Default => ix.def.Some?
      case Exact => route.path in ix.exact
      case Prefix => exists p :: p in ix.prefixes && p.path == route.path
  }

  function Added(ix: Index, kind: Kind, route: RouteRule): Index {
    if route.host != "" then
      match kind
      case Default => ix.(hostDef := ix.hostDef[route.host := route])
      case Exact => ix.(hostExact := ix.hostExact[HostPathKey(route.host, route.path) := route])
      case Prefix => ix.(hostPrefixes := ix.hostPrefixes + [route])
    else
      match kind
      case Default => ix.(def := Some(route))
      case Exact => ix.(exact := ix.exact[route.path := route])
      case Prefix => ix.(prefixes := ix.prefixes + [route])
  }

  /** The slot test of the builder is the slot test of the specification. */
  lemma SlotTakenIff(ix: Index, cs: seq<Compiled>, c: Compiled)
    requires Represents(ix, cs)
    ensures SlotTaken(ix, c.kind, c.route) <==> exists d :: d in cs && SlotOf(d) == SlotOf(c)
  {
    hide HostPathKey;
    if d :| d in cs && SlotOf(d) == SlotOf(c) {
      assert Holds(ix, d.kind, d.route);
    }
    if SlotTaken(ix, c.kind, c.route) {
      var r := TakenBy(ix, c.kind, c.route);
      assert Holds(ix, c.kind, r);
      assert SlotOf(Compiled(c.kind, r)) == SlotOf(c);
    }
  }

  ghost function TakenBy(ix: Index, kind: Kind, route: RouteRule): RouteRule
    requires SlotTaken(ix, kind, route)
  {
    if route.host != "" then
      match kind
      case Default => ix.hostDef[route.host]
      case Exact => ix.hostExact[HostPathKey(route.host, route.path)]
      case Prefix => var p :| p in ix.hostPrefixes && p.host == route.host && p.path == route.path; p
    else
      match kind
      case Default => ix.def.value
      case Exact => ix.exact[route.path]
      case Prefix => var p :| p in ix.prefixes && p.path == route.path; p
  }

  lemma HoldsAddedHost(ix: Index, c: Compiled, kind: Kind, route: RouteRule)
    requires WellKeyed(ix) && !SlotTaken(ix, c.kind, c.route) && c.route.host != ""
    ensures Holds(Added(ix, c.kind, c.route), kind, route) <==> Holds(ix, kind, route) || Compiled(kind, route) == c
  {
    hide HostPathKey;
  }

  lemma HoldsAddedGeneric(ix: Index, c: Compiled, kind: Kind, route: RouteRule)
    requires WellKeyed(ix) && !SlotTaken(ix, c.kind, c.route) && c.route.host == ""
    ensures Holds(Added(ix, c.kind, c.route), kind, route) <==> Holds(ix, kind, route) || Compiled(kind, route) == c
  {
    hide HostPathKey;
  }

  lemma AddedWellKeyedHost(ix: Index, c: Compiled)
    requires WellKeyed(ix) && c.route.host != ""
    ensures WellKeyed(Added(ix, c.kind, c.route))
  {
    hide HostPathKey;
    if c.kind == Prefix {
      assert forall r :: r in ix.hostPrefixes + [c.route] ==> r in ix.hostPrefixes || r == c.route;
    }
  }

  lemma AddedWellKeyedGeneric(ix: Index, c: Compiled)
    requires WellKeyed(ix) && c.route.host == ""
    ensures WellKeyed(Added(ix, c.kind, c.route))
  {
    hide HostPathKey;
    if c.kind == Prefix {
      assert forall r :: r in ix.prefixes + [c.route] ==> r in ix.prefixes || r == c.route;
    }
  }

  /** Adding a rule in a free slot keeps the index exact. */
  lemma AddedRepresents(ix: Index, cs: seq<Compiled>, c: Compiled)
    requires Represents(ix, cs) && !SlotTaken(ix, c.kind, c.route)
    ensures Represents(Added(ix, c.kind, c.route), cs + [c])
  {
    hide HostPathKey, Holds, WellKeyed, Added, SlotTaken;
    if c.route.host != "" { AddedWellKeyedHost(ix, c); } else { AddedWellKeyedGeneric(ix, c); }
    forall kind, route
      ensures Holds(Added(ix, c.kind, c.route), kind, route) <==> Compiled(kind, route) in cs + [c]
    {
      if c.route.host != "" {
        HoldsAddedHost(ix, c, kind, route);
      } else {
        HoldsAddedGeneric(ix, c, kind, route);
      }
    }
  }

  datatype BuildError = BadPath(index: nat) | Duplicate(index: nat)

  function InsertByPathLength(routes: seq<RouteRule>, route: RouteRule): (sorted: seq<RouteRule>)
    ensures multiset(sorted) == multiset(routes) + multiset{route}
  {
    if routes == [] || |routes[0].path| < |route.path| then [route] + routes
    else
      assert routes == [routes[0]] + routes[1..];
      [routes[0]] + InsertByPathLength(routes[1..], route)
  }

  lemma {:induction false} InsertedLongestFirst(routes: seq<RouteRule>, route: RouteRule)
    requires LongestFirst(routes)
    ensures LongestFirst(InsertByPathLength(routes, route))
  {
    if routes != [] && |routes[0].path| >= |route.path| {
      InsertedLongestFirst(routes[1..], route);
      var tail := InsertByPathLength(routes[1..], route);
      forall k | 0 <= k < |tail| ensures |routes[0].path| >= |tail[k].path| {
        assert tail[k] in multiset(routes[1..]) + multiset{route};
      }
    }
  }

  /** `sort.Slice` by descending path length: any order among equals, nothing lost. */
  method SortByPathLength(routes: seq<RouteRule>) returns (sorted: seq<RouteRule>)
    ensures multiset(sorted) == multiset(routes) && LongestFirst(sorted)
  {
    sorted := [];
    for k := 0 to |routes|
      invariant multiset(sorted) == multiset(routes[..k]) && LongestFirst(sorted)
    {
      InsertedLongestFirst(sorted, routes[k]);
      sorted := InsertByPathLength(sorted, routes[k]);
      assert routes[..k + 1] == routes[..k] + [routes[k]];
    }
    assert routes[..|routes|] == routes;
  }

  class Router {
    var hostExact: map<string, RouteRule>
    var hostPrefixes: seq<RouteRule>
    var hostDef: map<string, RouteRule>
    var exact: map<string, RouteRule>
    var prefixes: seq<RouteRule>
    var def: Option<RouteRule>

    function Contents(): Index
      reads this
    {
      Index(hostExact, hostPrefixes, hostDef, exact, prefixes, def)
    }

    constructor ()
      ensures Contents() == EMPTY
    {
      hostExact, hostPrefixes, hostDef, exact, prefixes, def := map[], [], map[], map[], [], None;
    }

    /** `addHostRoute`: false on a duplicate, leaving the router alone. */
    method AddHostRoute(kind: Kind, route: RouteRule) returns (ok: bool)
      requires route.host != ""
      modifies this
      ensures ok <==> !SlotTaken(old(Contents()), kind, route)
      ensures Contents() == if ok then Added(old(Contents()), kind, route) else old(Contents())
    {
      var key := HostPathKey(route.host, route.path);
      match kind {
        case Default =>
          if route.host in hostDef {
            return false;
          }
          hostDef := hostDef[route.host := route];
        case Exact =>
          if key in hostExact {
            return false;
          }
          hostExact := hostExact[key := route];
        case Prefix =>
          for k := 0 to |hostPrefixes|
            invariant forall p :: p in hostPrefixes[..k] ==> !(p.host == route.host && p.path == route.path)
          {
            if hostPrefixes[k].host == route.host && hostPrefixes[k].path == route.path {
              return false;
            }
          }
          assert hostPrefixes[..|hostPrefixes|] == hostPrefixes;
          hostPrefixes := hostPrefixes + [route];
      }
      return true;
    }

    /** The generic half of the loop body in `NewRouter`. */
    method AddGenericRoute(kind: Kind, route: RouteRule) returns (ok: bool)
      requires route.host == ""
      modifies this
      ensures ok <==> !SlotTaken(old(Contents()), kind, route)
      ensures Contents() == if ok then Added(old(Contents()), kind, route) else old(Contents())
    {
      match kind {
        case Default =>
          if def.Some? {
            return false;
          }
          def := Some(route);
        case Exact =>
          if route.path in exact {
            return false;
          }
          exact := exact[route.path := route];
        case Prefix =>
          for k := 0 to |prefixes|
            invariant forall p :: p in prefixes[..k] ==> p.path != route.path
          {
            if prefixes[k].path == route.path {
              return false;
            }
          }
          assert prefixes[..|prefixes|] == prefixes;
          prefixes := prefixes + [route];
      }
      return true;
    }

    method SortPrefixes()
      modifies this
      ensures LongestFirst(prefixes) && LongestFirst(hostPrefixes)
      ensures multiset(prefixes) == multiset(old(prefixes)) && multiset(hostPrefixes) == multiset(old(hostPrefixes))
      ensures Contents() == old(Contents()).(prefixes := prefixes, hostPrefixes := hostPrefixes)
    {
      prefixes := SortByPathLength(prefixes);
      hostPrefixes := SortByPathLength(hostPrefixes);
    }

    /** `Router.Match`: what the index holds for the normalised host and the path. */
    method Match(host: string, path: string) returns (route: Option<RouteRule>)
      ensures route == MatchIndex(Contents(), NormalizeRequestHost(host), path)
    {
      hide HostPathKey, PrefixCovers, NormalizeRequestHost;
      var host := NormalizeRequestHost(host);
      if host != "" {
        var key := HostPathKey(host, path);
        if key in hostExact {
          return Some(hostExact[key]);
        }
        for k := 0 to |hostPrefixes|
          invariant FirstHostPrefix(hostPrefixes, host, path) == FirstHostPrefix(hostPrefixes[k..], host, path)
        {
          var p := hostPrefixes[k];
          if p.host == host && PrefixCovers(p.path, path) {
            return Some(p);
          }
          assert hostPrefixes[k..][1..] == hostPrefixes[k + 1..];
        }
        if host in hostDef {
          return Some(hostDef[host]);
        }
      }
      if path in exact {
        return Some(exact[path]);
      }
      for k := 0 to |prefixes|
        invariant FirstPrefix(prefixes, path) == FirstPrefix(prefixes[k..], path)
      {
        var p := prefixes[k];
        if PrefixCovers(p.path, path) {
          return Some(p);
        }
        assert prefixes[k..][1..] == prefixes[k + 1..];
      }
      return def;
    }
  }

  lemma SortedStillRepresents(ix: Index, cs: seq<Compiled>, jx: Index)
    requires Represents(ix, cs)
    requires jx == ix.(prefixes := jx.prefixes, hostPrefixes := jx.hostPrefixes)
    requires multiset(jx.prefixes) == multiset(ix.prefixes) && multiset(jx.hostPrefixes) == multiset(ix.hostPrefixes)
    ensures Represents(jx, cs)
  {
    hide HostPathKey;
    forall r: RouteRule
      ensures r in jx.prefixes <==> r in ix.prefixes
      ensures r in jx.hostPrefixes <==> r in ix.hostPrefixes
    {
      assert r in jx.prefixes <==> r in multiset(jx.prefixes);
      assert r in ix.prefixes <==> r in multiset(ix.prefixes);
      assert r in jx.hostPrefixes <==> r in multiset(jx.hostPrefixes);
      assert r in ix.hostPrefixes <==> r in multiset(ix.hostPrefixes);
    }
    forall kind, route ensures Holds(jx, kind, route) <==> Compiled(kind, route) in cs {
      assert Holds(jx, kind, route) <==> Holds(ix, kind, route);
    }
  }

  lemma BuildableOneMore(rules: seq<RouteRule>, k: nat)
    requires k < |rules| && Buildable(rules[..k]) && Compile(rules[k]).Some?
    ensures Buildable(rules[..k + 1]) <==>
              !exists d :: d in CompileAll(rules[..k]) && SlotOf(d) == SlotOf(Compile(rules[k]).value)
    ensures (forall i :: 0 <= i <= k ==> Compile(rules[i]).Some?)
    ensures CompileAll(rules[..k + 1]) == CompileAll(rules[..k]) + [Compile(rules[k]).value]
  {
    hide SlotOf, Compile;
    var r := rules[..k + 1];
    assert forall i :: 0 <= i < k ==> r[i] == rules[..k][i];
    var cs, ds := CompileAll(rules[..k]), CompileAll(r);
    var c := Compile(rules[k]).value;
    assert ds == cs + [c];
    if d :| d in cs && SlotOf(d) == SlotOf(c) {
      var i :| 0 <= i < |cs| && cs[i] == d;
      assert ds[i] == d && ds[k] == c;
    } else {
      forall i, j | 0 <= i < j < |ds| ensures SlotOf(ds[i]) != SlotOf(ds[j]) {
        assert ds[i] == cs[i] && ds[i] in cs;
      }
    }
  }

  lemma BuildablePrefix(rules: seq<RouteRule>, k: nat)
    requires k <= |rules| && Buildable(rules)
    ensures Buildable(rules[..k])
  {
    hide SlotOf, Compile;
    var cs, ds := CompileAll(rules), CompileAll(rules[..k]);
    assert forall i :: 0 <= i < k ==> ds[i] == cs[i];
  }

  /** `NewRouter` succeeds exactly on buildable rule lists; otherwise it stops at the first rule that spoils the
      list. */
  method NewRouter(rules: seq<RouteRule>) returns (r: Result<Router, BuildError>)
    ensures r.Ok? <==> Buildable(rules)
    ensures r.Ok? ==> fresh(r.value) && Built(r.value.Contents(), CompileAll(rules))
    ensures r.Err? ==> r.error.index < |rules|
                       && Buildable(rules[..r.error.index]) && !Buildable(rules[..r.error.index + 1])
    ensures r.Err? ==> (r.error.BadPath? <==> Compile(rules[r.error.index]).None?)
  {
    hide SlotOf, Compile, Represents, SlotTaken, Added;
    var router := new Router();
    EmptyRepresents();
    for k := 0 to |rules|
      invariant Buildable(rules[..k])
      invariant Represents(router.Contents(), CompileAll(rules[..k]))
    {
      var compiled := Compile(rules[k]);
      if compiled.None? {
        assert rules[..k + 1][k] == rules[k];
        NotBuildable(rules, k);
        return Err(BadPath(k));
      }
      var c := compiled.value;
      BuildableOneMore(rules, k);
      ghost var ix := router.Contents();
      SlotTakenIff(ix, CompileAll(rules[..k]), c);
      var ok;
      if c.route.host != "" {
        ok := router.AddHostRoute(c.kind, c.route);
      } else {
        ok := router.AddGenericRoute(c.kind, c.route);
      }
      if !ok {
        NotBuildable(rules, k);
        return Err(Duplicate(k));
      }
      AddedRepresents(ix, CompileAll(rules[..k]), c);
    }
    assert rules[..|rules|] == rules;
    ghost var ix := router.Contents();
    router.SortPrefixes();
    SortedStillRepresents(ix, CompileAll(rules), router.Contents());
    return Ok(router);
  }

  lemma EmptyRepresents()
    ensures Represents(EMPTY, CompileAll([]))
  {
  }

  lemma NotBuildable(rules: seq<RouteRule>, k: nat)
    requires k < |rules| && !Buildable(rules[..k + 1])
    ensures !Buildable(rules)
  {
    if Buildable(rules) {
      BuildablePrefix(rules, k + 1);
    }
  }
}
