/** Dispatch of a matched route to its backend through the string-keyed proxy table. */
module RoutedProxy {
  import opened Results
  import opened Routes
  import opened Text
  import opened Router
  import RouteValidator

  /** A reverse proxy, identified by the target it was built for. */
  datatype Proxy = Proxy(target: string, serverName: string, insecureSkipVerify: bool, passHostHeader: bool)

  function EffectivePassHost(rule: RouteRule, inherited: bool): bool {
    if rule.passHostHeaderSet then rule.passHostHeader else inherited
  }

  /** The backend a rule asks for, given the default proxy it inherits from. */
  function ProxyFor(rule: RouteRule, default_: Proxy): Proxy {
    Proxy(rule.target, rule.originServerName, rule.insecureSkipVerify,
          EffectivePassHost(rule, default_.passHostHeader))
  }

  // ----- the table key -----

  function FlagText(b: bool): string {
    if b then "true" else "false"
  }

  function ProxyKey(host: string, path: string, p: Proxy): string {
    ("host=" + host) + ","
    + (("path=" + path) + ","
       + (((("target=" + p.target) + "," + ("server_name=" + p.serverName)) + ","
           + ("insecure_skip_verify=" + FlagText(p.insecureSkipVerify))) + ","
          + ("pass_host_header=" + FlagText(p.passHostHeader))))
  }

  predicate CommaFree(s: string) {
    ',' !in s
  }

  lemma FlagTextInjective(name: string, a: bool, b: bool)
    ensures name + FlagText(a) == name + FlagText(b) ==> a == b
    ensures CommaFree(FlagText(a))
  {
    assert (name + "true")[|name|..] == "true" && (name + "false")[|name|..] == "false";
    assert |"true"| != |"false"|;
  }

  lemma SameAfterName(name: string, a: string, b: string)
    requires name + a == name + b
    ensures a == b
  {
    assert a == (name + a)[|name|..] && b == (name + b)[|name|..];
  }

  lemma NamesAreCommaFree()
    ensures CommaFree("host=") && CommaFree("path=") && CommaFree("server_name=")
    ensures CommaFree("insecure_skip_verify=") && CommaFree("pass_host_header=")
  {
  }

  /** The right-hand part of the key: server name and flags are read from the right, so the target is free. */
  lemma TargetPartInjective(a: Proxy, b: Proxy, name0: string, name1: string, name2: string, name3: string)
    requires CommaFree(a.serverName) && CommaFree(b.serverName)
    requires CommaFree(name1) && CommaFree(name2) && CommaFree(name3)
    requires (((name0 + a.target) + "," + (name1 + a.serverName)) + ","
              + (name2 + FlagText(a.insecureSkipVerify))) + "," + (name3 + FlagText(a.passHostHeader))
          == (((name0 + b.target) + "," + (name1 + b.serverName)) + ","
              + (name2 + FlagText(b.insecureSkipVerify))) + "," + (name3 + FlagText(b.passHostHeader))
    ensures a == b
  {
    hide FlagText;
    FlagTextInjective(name3, a.passHostHeader, b.passHostHeader);
    FlagTextInjective(name2, a.insecureSkipVerify, b.insecureSkipVerify);
    FlagTextInjective(name2, b.insecureSkipVerify, b.insecureSkipVerify);
    FlagTextInjective(name3, b.passHostHeader, b.passHostHeader);
    var a2 := (name0 + a.target) + "," + (name1 + a.serverName);
    var b2 := (name0 + b.target) + "," + (name1 + b.serverName);
    var a3 := a2 + "," + (name2 + FlagText(a.insecureSkipVerify));
    var b3 := b2 + "," + (name2 + FlagText(b.insecureSkipVerify));
    CutLast(a3, name3 + FlagText(a.passHostHeader), b3, name3 + FlagText(b.passHostHeader), ',');
    CutLast(a2, name2 + FlagText(a.insecureSkipVerify), b2, name2 + FlagText(b.insecureSkipVerify), ',');
    CutLast(name0 + a.target, name1 + a.serverName, name0 + b.target, name1 + b.serverName, ',');
    SameAfterName(name0, a.target, b.target);
    SameAfterName(name1, a.serverName, b.serverName);
  }

  /** With comma-free host, path and server name, the key determines all six fields; targets may hold commas. */
  lemma ProxyKeyInjective(h1: string, p1: string, a: Proxy, h2: string, p2: string, b: Proxy)
    requires CommaFree(h1) && CommaFree(p1) && CommaFree(a.serverName)
    requires CommaFree(h2) && CommaFree(p2) && CommaFree(b.serverName)
    requires ProxyKey(h1, p1, a) == ProxyKey(h2, p2, b)
    ensures h1 == h2 && p1 == p2 && a == b
  {
    hide FlagText;
    NamesAreCommaFree();
    var names := ["host=", "path=", "target=", "server_name=", "insecure_skip_verify=", "pass_host_header="];
    KeyPartsInjective(h1, p1, a, h2, p2, b, names[0], names[1], names[2], names[3], names[4], names[5]);
  }

  lemma KeyPartsInjective(h1: string, p1: string, a: Proxy, h2: string, p2: string, b: Proxy,
                          n0: string, n1: string, n2: string, n3: string, n4: string, n5: string)
    requires CommaFree(h1) && CommaFree(p1) && CommaFree(a.serverName)
    requires CommaFree(h2) && CommaFree(p2) && CommaFree(b.serverName)
    requires CommaFree(n0) && CommaFree(n1) && CommaFree(n3) && CommaFree(n4) && CommaFree(n5)
    requires (n0 + h1) + "," + ((n1 + p1) + "," + ((((n2 + a.target) + "," + (n3 + a.serverName)) + ","
               + (n4 + FlagText(a.insecureSkipVerify))) + "," + (n5 + FlagText(a.passHostHeader))))
          == (n0 + h2) + "," + ((n1 + p2) + "," + ((((n2 + b.target) + "," + (n3 + b.serverName)) + ","
               + (n4 + FlagText(b.insecureSkipVerify))) + "," + (n5 + FlagText(b.passHostHeader))))
    ensures h1 == h2 && p1 == p2 && a == b
  {
    hide FlagText;
    var ta := (((n2 + a.target) + "," + (n3 + a.serverName)) + "," + (n4 + FlagText(a.insecureSkipVerify))) + ","
              + (n5 + FlagText(a.passHostHeader));
    var tb := (((n2 + b.target) + "," + (n3 + b.serverName)) + "," + (n4 + FlagText(b.insecureSkipVerify))) + ","
              + (n5 + FlagText(b.passHostHeader));
    CutFirst(n0 + h1, (n1 + p1) + "," + ta, n0 + h2, (n1 + p2) + "," + tb, ',');
    CutFirst(n1 + p1, ta, n1 + p2, tb, ',');
    SameAfterName(n0, h1, h2);
    SameAfterName(n1, p1, p2);
    TargetPartInjective(a, b, n2, n3, n4, n5);
  }

  // ----- filling the table -----

  /** The key `NewRoutedProxy` files a rule under: the rule's own host, as written. */
  function RuleKey(rule: RouteRule, default_: Proxy): string
    requires ClassifyPath(rule.path).Some?
  {
    ProxyKey(rule.host, ClassifyPath(rule.path).value.1, ProxyFor(rule, default_))
  }

  /** The key a matched route is looked up under: the normalised host. */
  function MatchedKey(route: RouteRule, default_: Proxy): string {
    ProxyKey(route.host, route.path, ProxyFor(route, default_))
  }

  predicate AllClassify(rules: seq<RouteRule>) {
    forall i :: 0 <= i < |rules| ==> ClassifyPath(rules[i].path).Some?
  }

  /** Where a key first stands. */
  function FirstIndex(keys: seq<string>, key: string): (r: Option<nat>)
    ensures r.Some? ==> r.value < |keys| && keys[r.value] == key && key !in keys[..r.value]
    ensures r.None? ==> key !in keys
  {
    if keys == [] then None
    else
      var last := |keys| - 1;
      var r := FirstIndex(keys[..last], key);
      if r.Some? then r else if keys[last] == key then Some(last) else None
  }

  /** The first rule filed under a key. */
  function FirstFiled(rules: seq<RouteRule>, key: string, default_: Proxy): (r: Option<nat>)
    requires AllClassify(rules)
    ensures r.Some? ==> r.value < |rules| && RuleKey(rules[r.value], default_) == key
    ensures r.None? ==> forall i :: 0 <= i < |rules| ==> RuleKey(rules[i], default_) != key
  {
    FirstIndex(RuleKeys(rules, default_), key)
  }

  function RuleKeys(rules: seq<RouteRule>, default_: Proxy): (keys: seq<string>)
    requires AllClassify(rules)
    ensures |keys| == |rules| && forall i :: 0 <= i < |rules| ==> keys[i] == RuleKey(rules[i], default_)
  {
    seq(|rules|, i requires 0 <= i < |rules| => RuleKey(rules[i], default_))
  }

  /** Under each key stands the backend of the first rule filed there; the default proxy stands under the empty key. */
  ghost predicate TableFor(table: map<string, Proxy>, rules: seq<RouteRule>, default_: Proxy)
    requires AllClassify(rules)
  {
    && "" in table && table[""] == default_
    && forall key :: key != "" ==>
         (key in table <==> FirstFiled(rules, key, default_).Some?)
         && (key in table ==> table[key] == ProxyFor(rules[FirstFiled(rules, key, default_).value], default_))
  }

  datatype ProxyError = RouterError(error: BuildError) | TargetError(index: nat)

  /** `ParseTarget` accepts non-empty targets that `okTarget` can parse. */
  predicate TargetParses(target: string, okTarget: string -> bool) {
    target != "" && okTarget(target)
  }

  predicate TargetsParse(rules: seq<RouteRule>, okTarget: string -> bool) {
    forall i :: 0 <= i < |rules| ==> TargetParses(rules[i].target, okTarget)
  }

  /** Exactly the rule lists `NewRoutedProxy` accepts. */
  predicate Accepted(rules: seq<RouteRule>, okTarget: string -> bool) {
    rules == [] || (Buildable(rules) && TargetsParse(rules, okTarget))
  }

  /** The validator trims paths and targets, the program does not: a validated list is accepted exactly when every
      path is trimmed already and every target parses as it was written. */
  lemma ValidatedIsAcceptedIff(rules: seq<RouteRule>, okTarget: string -> bool)
    requires RouteValidator.Valid(rules, okTarget)
    ensures Accepted(rules, okTarget) <==> RouteValidator.PathsTrimmed(rules) && TargetsParse(rules, okTarget)
  {
    hide RouteValidator.Valid, Buildable;
    RouteValidator.ValidatedBuildsIffTrimmed(rules, okTarget);
  }

  /** A target with a leading blank passes the validator and makes `NewRoutedProxy` fail, as no URL starts with a
      blank. */
  lemma UntrimmedTargetIsRefused(okTarget: string -> bool)
    requires okTarget("http://x") && !okTarget(" http://x")
    ensures var rules := [RouteRule("", "/a", " http://x", false, "", false, false, false, false)];
            RouteValidator.Valid(rules, okTarget) && Buildable(rules) && !Accepted(rules, okTarget)
  {
    hide ClassifyPath, TrimSpace, RouteValidator.NormalizeRoutePath;
    var rule := RouteRule("", "/a", " http://x", false, "", false, false, false, false);
    var rules := [rule];
    ShortPaths();
    TrimSpaceOfBlank("http://x");
    assert " " + "http://x" == " http://x";
    TrimSpaceOfTrimmed("http://x");
    TrimSpaceOfTrimmed("/a");
    TrimSpaceOfTrimmed("");
    assert NormalizeRouteHost("") == "";
    RouteValidator.GrammarsAgree("/a");
    assert RouteValidator.FaultOf(rule, okTarget).None?;
    assert Compile(rule).Some?;
    assert rules[0].target == " http://x";
  }

  /** No list with an empty target is accepted, whatever the parser says of it. */
  lemma EmptyTargetIsRefused(rules: seq<RouteRule>, i: nat, okTarget: string -> bool)
    requires i < |rules| && rules[i].target == ""
    ensures !Accepted(rules, okTarget)
  {
    hide Buildable;
    assert !TargetParses(rules[i].target, okTarget);
  }

  class RoutedProxy {
    const router: Option<Router>
    const defaultProxy: Proxy
    var proxyByTarget: map<string, Proxy>

    constructor (router: Option<Router>, defaultProxy: Proxy, proxyByTarget: map<string, Proxy>)
      ensures this.router == router && this.defaultProxy == defaultProxy && this.proxyByTarget == proxyByTarget
    {
      this.router, this.defaultProxy, this.proxyByTarget := router, defaultProxy, proxyByTarget;
    }

    /** `pickRouteProxy`: the proxy and, when a proxy was found for a match, the matched route. */
    method PickRouteProxy(host: string, path: string) returns (proxy: Proxy, route: Option<RouteRule>)
      ensures router.None? ==> proxy == defaultProxy && route == None
      ensures router.Some? ==>
                ((proxy, route)
                 == Pick(router.value.Contents(), proxyByTarget, defaultProxy, NormalizeRequestHost(host), path))
    {
      if router.None? {
        return defaultProxy, None;
      }
      var matched := router.value.Match(host, path);
      if matched.None? {
        return defaultProxy, None;
      }
      var key := MatchedKey(matched.value, defaultProxy);
      if key in proxyByTarget {
        return proxyByTarget[key], matched;
      }
      return defaultProxy, None;
    }
  }

  function Pick(ix: Index, table: map<string, Proxy>, default_: Proxy, host: string, path: string)
    : (Proxy, Option<RouteRule>)
  {
    match MatchIndex(ix, host, path)
    case None => (default_, None)
    case Some(route) =>
      var key := MatchedKey(route, default_);
      if key in table then (table[key], Some(route)) else (default_, None)
  }

  /** `NewRoutedProxy`: router errors first, then the first unparsable target; no rules means no router. */
  method NewRoutedProxy(defaultProxy: Proxy, rules: seq<RouteRule>, okTarget: string -> bool)
    returns (r: Result<RoutedProxy, ProxyError>)
    ensures r.Ok? <==> Accepted(rules, okTarget)
    ensures r.Ok? ==> fresh(r.value) && r.value.defaultProxy == defaultProxy && (r.value.router.None? <==> rules == [])
    ensures r.Ok? && rules != [] ==>
              && Built(r.value.router.value.Contents(), CompileAll(rules))
              && AllClassify(rules)
              && TableFor(r.value.proxyByTarget, rules, defaultProxy)
    ensures r.Err? && r.error.RouterError? <==> rules != [] && !Buildable(rules)
    ensures r.Err? && r.error.TargetError? ==>
              && r.error.index < |rules| && !TargetParses(rules[r.error.index].target, okTarget)
              && forall i :: 0 <= i < r.error.index ==> TargetParses(rules[i].target, okTarget)
  {
    hide ClassifyPath, SlotsDistinct, Built, TableFor, TargetParses;
    if rules == [] {
      var none := new RoutedProxy(None, defaultProxy, map[]);
      return Ok(none);
    }
    var built := NewRouter(rules);
    if built.Err? {
      return Err(RouterError(built.error));
    }
    BuildableClassifies(rules);
    var filled := FillTable(defaultProxy, rules, okTarget);
    if filled.Err? {
      return Err(TargetError(filled.error));
    }
    var proxy := new RoutedProxy(Some(built.value), defaultProxy, filled.value);
    return Ok(proxy);
  }

  lemma BuildableClassifies(rules: seq<RouteRule>)
    requires Buildable(rules)
    ensures AllClassify(rules)
  {
    hide ClassifyPath, SlotsDistinct;
    forall i | 0 <= i < |rules| ensures ClassifyPath(rules[i].path).Some? {
      assert Compile(rules[i]).Some?;
    }
  }

  /** The loop of `NewRoutedProxy`; the error is the index of the first unparsable target. */
  method FillTable(defaultProxy: Proxy, rules: seq<RouteRule>, okTarget: string -> bool)
    returns (r: Result<map<string, Proxy>, nat>)
    requires AllClassify(rules)
    ensures r.Ok? ==> TableFor(r.value, rules, defaultProxy)
                      && forall i :: 0 <= i < |rules| ==> TargetParses(rules[i].target, okTarget)
    ensures r.Err? ==> && r.error < |rules| && !TargetParses(rules[r.error].target, okTarget)
                       && forall i :: 0 <= i < r.error ==> TargetParses(rules[i].target, okTarget)
  {
    hide ClassifyPath, ProxyKey, ProxyFor, TableFor, FirstFiled, RuleKey, TargetParses;
    var table := map["" := defaultProxy];
    assert TableFor(table, rules[..0], defaultProxy) by { EmptyTable(defaultProxy); }
    for i := 0 to |rules|
      invariant forall j :: 0 <= j < i ==> TargetParses(rules[j].target, okTarget)
      invariant TableFor(table, rules[..i], defaultProxy)
    {
      if !TargetParses(rules[i].target, okTarget) {
        return Err(i);
      }
      var key := RuleKey(rules[i], defaultProxy);
      ghost var before := table;
      if key !in table {
        table := table[key := ProxyFor(rules[i], defaultProxy)];
      }
      KeyIsNotEmpty(rules[i], defaultProxy);
      TableOneMore(before, table, rules, i, defaultProxy);
    }
    assert rules[..|rules|] == rules;
    return Ok(table);
  }

  lemma KeyIsNotEmpty(rule: RouteRule, default_: Proxy)
    requires ClassifyPath(rule.path).Some?
    ensures RuleKey(rule, default_) != ""
  {
    hide ClassifyPath, FlagText;
  }

  lemma EmptyTable(default_: Proxy)
    ensures TableFor(map["" := default_], [], default_)
  {
  }

  lemma FirstFiledOneMore(rules: seq<RouteRule>, i: nat, key: string, default_: Proxy)
    requires i < |rules| && AllClassify(rules)
    ensures FirstFiled(rules[..i + 1], key, default_)
         == if FirstFiled(rules[..i], key, default_).Some? then FirstFiled(rules[..i], key, default_)
            else if RuleKey(rules[i], default_) == key then Some(i) else None
  {
    hide ClassifyPath, RuleKey;
    assert RuleKeys(rules[..i + 1], default_)[..i] == RuleKeys(rules[..i], default_);
  }

  lemma TableOneMore(before: map<string, Proxy>, table: map<string, Proxy>, rules: seq<RouteRule>, i: nat,
                     default_: Proxy)
    requires i < |rules| && AllClassify(rules)
    requires TableFor(before, rules[..i], default_) && RuleKey(rules[i], default_) != ""
    requires table == if RuleKey(rules[i], default_) in before then before
                      else before[RuleKey(rules[i], default_) := ProxyFor(rules[i], default_)]
    ensures TableFor(table, rules[..i + 1], default_)
  {
    hide ClassifyPath, ProxyFor, RuleKey, FirstFiled;
    forall key: string
      ensures FirstFiled(rules[..i + 1], key, default_)
           == if FirstFiled(rules[..i], key, default_).Some? then FirstFiled(rules[..i], key, default_)
              else if RuleKey(rules[i], default_) == key then Some(i) else None
    {
      FirstFiledOneMore(rules, i, key, default_);
    }
    assert forall j :: 0 <= j < i ==> rules[..i + 1][j] == rules[..i][j];
    assert rules[..i + 1][i] == rules[i];
  }

  // ----- which backend serves a match -----

  /** A matched request is served by its own backend and reported as matched; any other goes to the default proxy. */
  predicate Served(ix: Index, table: map<string, Proxy>, default_: Proxy, host: string, path: string) {
    var m := MatchIndex(ix, host, path);
    Pick(ix, table, default_, host, path) == if m.Some? then (ProxyFor(m.value, default_), m) else (default_, None)
  }

  /** The first rule filed under the key a route is looked up with exists and asks for the route's own backend. */
  predicate OwnBackendFirst(rules: seq<RouteRule>, route: RouteRule, default_: Proxy)
    requires AllClassify(rules)
  {
    var first := FirstFiled(rules, MatchedKey(route, default_), default_);
    first.Some? && ProxyFor(rules[first.value], default_) == ProxyFor(route, default_)
  }

  lemma MatchedKeyIsNotEmpty(route: RouteRule, default_: Proxy)
    ensures MatchedKey(route, default_) != ""
  {
    hide FlagText;
  }

  /** For every rule list: a match gets the backend of the first rule filed under its key, or the default proxy, as if
      nothing had matched, when there is none. It is therefore served rightly exactly when that rule has its backend. */
  lemma PickExactly(rules: seq<RouteRule>, ix: Index, table: map<string, Proxy>, default_: Proxy, host: string,
                    path: string)
    requires AllClassify(rules) && TableFor(table, rules, default_)
    ensures match MatchIndex(ix, host, path)
            case None => Pick(ix, table, default_, host, path) == (default_, None)
            case Some(route) =>
              var first := FirstFiled(rules, MatchedKey(route, default_), default_);
              Pick(ix, table, default_, host, path)
              == if first.Some? then (ProxyFor(rules[first.value], default_), Some(route)) else (default_, None)
    ensures Served(ix, table, default_, host, path)
            <==> (MatchIndex(ix, host, path).Some? ==>
                    OwnBackendFirst(rules, MatchIndex(ix, host, path).value, default_))
  {
    hide ClassifyPath, ProxyFor, MatchIndex, FirstFiled, MatchedKey;
    var m := MatchIndex(ix, host, path);
    if m.Some? {
      MatchedKeyIsNotEmpty(m.value, default_);
    }
  }

  // ----- which rules answer some request -----

  /** Exact and prefix paths are rooted and hold no star. */
  predicate Starless(c: Compiled) {
    HasPrefix(c.route.path, "/") && (c.kind != Default ==> '*' !in c.route.path)
  }

  lemma CompiledIsStarless(rules: seq<RouteRule>, c: Compiled)
    requires Buildable(rules) && c in CompileAll(rules)
    ensures Starless(c)
  {
    hide TrimSpace, Contains, NormalizeRouteHost, SlotsDistinct;
    var i :| 0 <= i < |rules| && CompileAll(rules)[i] == c;
    assert Compile(rules[i]).Some?;
  }

  /** A request path that a rule with this kind and path wins among the rules for its host. */
  function OwnPath(c: Compiled): string {
    match c.kind
    case Exact => c.route.path
    case Prefix => c.route.path + "/*"
    case Default => "/*"
  }

  /** No exact rule, and no prefix rule longer than the rule itself, covers its own path. */
  lemma OwnPathIsOwn(c: Compiled, d: Compiled)
    requires Starless(c) && Starless(d) && c.kind != Exact
    requires c.kind == Prefix ==> c.route.path != ""
    ensures d.kind == Exact ==> d.route.path != OwnPath(c)
    ensures d.kind == Prefix && PrefixCovers(d.route.path, OwnPath(c)) ==>
              c.kind == Prefix && |d.route.path| <= |c.route.path|
    ensures c.kind == Prefix ==> PrefixCovers(c.route.path, OwnPath(c))
  {
    var own := OwnPath(c);
    var n := |own|;
    assert own[n - 1] == '*' && own[n - 2] == '/';
    if d.route.path == own {
      assert '*' in own;
    }
    if d.kind == Prefix && HasPrefix(own, d.route.path + "/") {
      assert own[|d.route.path|] == (d.route.path + "/")[|d.route.path|] == '/';
    }
    if c.kind == Prefix {
      assert own == (c.route.path + "/") + "*";
    }
  }

  lemma OwnNotExact(ix: Index, cs: seq<Compiled>, c: Compiled)
    requires Represents(ix, cs) && c.kind != Exact && (forall d :: d in cs ==> Starless(d)) && c in cs
    requires c.kind == Prefix ==> c.route.path != ""
    ensures OwnPath(c) !in ix.exact
    ensures HostPathKey(c.route.host, OwnPath(c)) !in ix.hostExact
  {
    hide PrefixCovers, Starless;
    var own := OwnPath(c);
    if own in ix.exact {
      var r := ix.exact[own];
      assert Holds(ix, Exact, r);
      OwnPathIsOwn(c, Compiled(Exact, r));
    }
    var key := HostPathKey(c.route.host, own);
    if key in ix.hostExact {
      var r := ix.hostExact[key];
      assert Holds(ix, Exact, r);
      assert Compiled(Exact, r) in cs;
      KeyEndsStarless(Compiled(Exact, r), c);
    }
  }

  lemma KeyEndsStarless(d: Compiled, c: Compiled)
    requires Starless(d) && d.kind == Exact && c.kind != Exact
    ensures HostPathKey(d.route.host, d.route.path) != HostPathKey(c.route.host, OwnPath(c))
  {
    var k, l := HostPathKey(d.route.host, d.route.path), HostPathKey(c.route.host, OwnPath(c));
    assert k[|k| - 1] == d.route.path[|d.route.path| - 1];
    assert l[|l| - 1] == '*';
  }

  /** Every rule is the answer for its own host and path. */
  lemma OwnPathReaches(rules: seq<RouteRule>, ix: Index, c: Compiled)
    requires Buildable(rules) && Built(ix, CompileAll(rules)) && c in CompileAll(rules)
    ensures MatchIndex(ix, c.route.host, OwnPath(c)) == Some(c.route)
  {
    hide Compile, HostPathKey, PrefixCovers, OwnPath, Starless;
    var cs := CompileAll(rules);
    forall d | d in cs
      ensures Starless(d)
    {
      CompiledIsStarless(rules, d);
    }
    ReachedIn(ix, cs, c);
  }

  lemma ReachedIn(ix: Index, cs: seq<Compiled>, c: Compiled)
    requires Built(ix, cs) && SlotsDistinct(cs) && c in cs && forall d :: d in cs ==> Starless(d)
    ensures MatchIndex(ix, c.route.host, OwnPath(c)) == Some(c.route)
  {
    hide HostPathKey, PrefixCovers, SlotsDistinct, SlotOf;
    var own := OwnPath(c);
    assert Holds(ix, c.kind, c.route);
    if c.kind != Exact {
      assert c.route.path != "" by { assert Starless(c); }
      hide OwnPath, Starless;
      OwnNotExact(ix, cs, c);
      if c.route.host != "" {
        HostPrefixReached(ix, cs, c);
      } else {
        PrefixReached(ix, cs, c);
      }
    }
  }

  lemma HostPrefixReached(ix: Index, cs: seq<Compiled>, c: Compiled)
    requires Built(ix, cs) && SlotsDistinct(cs) && c in cs && forall d :: d in cs ==> Starless(d)
    requires c.kind != Exact && c.route.host != "" && c.route.path != ""
    ensures FirstHostPrefix(ix.hostPrefixes, c.route.host, OwnPath(c))
            == if c.kind == Prefix then Some(c.route) else None
  {
    hide HostPathKey, PrefixCovers, OwnPath, Starless, SlotsDistinct;
    var own := OwnPath(c);
    var p := FirstHostPrefix(ix.hostPrefixes, c.route.host, own);
    assert Holds(ix, c.kind, c.route);
    OwnPathIsOwn(c, c);
    if p.Some? {
      var d := Compiled(Prefix, p.value);
      assert Holds(ix, Prefix, p.value);
      OwnPathIsOwn(c, d);
      LongestHostFirstWins(ix.hostPrefixes, c.route.host, own);
      EqualLengthPrefixes(c.route.path, d.route.path, own);
      SlotsIdentify(cs, c, d);
    }
  }

  lemma PrefixReached(ix: Index, cs: seq<Compiled>, c: Compiled)
    requires Built(ix, cs) && SlotsDistinct(cs) && c in cs && forall d :: d in cs ==> Starless(d)
    requires c.kind != Exact && c.route.host == "" && c.route.path != ""
    ensures FirstPrefix(ix.prefixes, OwnPath(c)) == if c.kind == Prefix then Some(c.route) else None
  {
    hide HostPathKey, PrefixCovers, OwnPath, Starless, SlotsDistinct;
    var own := OwnPath(c);
    var p := FirstPrefix(ix.prefixes, own);
    assert Holds(ix, c.kind, c.route);
    OwnPathIsOwn(c, c);
    if p.Some? {
      var d := Compiled(Prefix, p.value);
      assert Holds(ix, Prefix, p.value);
      OwnPathIsOwn(c, d);
      LongestFirstWins(ix.prefixes, own);
      EqualLengthPrefixes(c.route.path, d.route.path, own);
      SlotsIdentify(cs, c, d);
    }
  }

  /** The rule's host, or for an exact rule what stands before a NUL in it, is one that requests have. */
  predicate Answerable(c: Compiled) {
    var name := if c.kind == Exact then BeforeNul(c.route.host) else c.route.host;
    c.route.host == "" || (name != "" && NulFree(name) && RequestHost(name))
  }

  /** A request without NUL in its host that the route answers. */
  predicate Reaches(ix: Index, request: string, path: string, route: RouteRule) {
    NulFree(NormalizeRequestHost(request)) && MatchIndex(ix, NormalizeRequestHost(request), path) == Some(route)
  }

  /** Where a match comes from: a rule for every host, for this host, or under this joined key. */
  lemma MatchOrigin(ix: Index, cs: seq<Compiled>, host: string, path: string) returns (c: Compiled)
    requires Represents(ix, cs) && MatchIndex(ix, host, path).Some?
    ensures c in cs && c.route == MatchIndex(ix, host, path).value
    ensures c.route.host == "" || c.route.host == host
            || (c.kind == Exact && host != "" && HostPathKey(c.route.host, c.route.path) == HostPathKey(host, path))
  {
    hide HostPathKey, PrefixCovers;
    var route := MatchIndex(ix, host, path).value;
    var kind := if Holds(ix, Exact, route) then Exact else if Holds(ix, Prefix, route) then Prefix else Default;
    c := Compiled(kind, route);
    assert Holds(ix, kind, route);
  }

  lemma NameOfPlain(h: string)
    requires NulFree(h)
    ensures BeforeNul(h) == h
  {
  }

  /** A request that a rule with an answerable host answers. */
  lemma AnswerableIsReached(rules: seq<RouteRule>, ix: Index, c: Compiled) returns (request: string, path: string)
    requires Buildable(rules) && Built(ix, CompileAll(rules)) && c in CompileAll(rules)
    ensures Answerable(c) ==> Reaches(ix, request, path, c.route)
  {
    hide NormalizeRequestHost, RequestHost, MatchIndex, HostPathKey, BeforeNul, Buildable, Built, OwnPath;
    if !Answerable(c) {
      request, path := "", "";
    } else if NulFree(c.route.host) {
      NameOfPlain(c.route.host);
      assert RequestHost("") by { EmptyIsRequestHost(); }
      RequestHostIff(c.route.host);
      request :| NormalizeRequestHost(request) == c.route.host;
      path := OwnPath(c);
      OwnPathReaches(rules, ix, c);
    } else {
      request, path := HiddenRequest(c.route.host, c.route.path);
      assert forall i :: 0 <= i < |rules| ==> Compile(rules[i]).Some? by { BuildableCompiles(rules); }
      AmbiguousIsWrong(ix, CompileAll(rules), NormalizeRequestHost(request), path, c);
    }
  }

  lemma BuildableCompiles(rules: seq<RouteRule>)
    requires Buildable(rules)
    ensures forall i :: 0 <= i < |rules| ==> Compile(rules[i]).Some?
  {
  }

  lemma EmptyIsRequestHost()
    ensures RequestHost("")
  {
  }

  /** A rule that answers a request has an answerable host. */
  lemma ReachedIsAnswerable(ix: Index, cs: seq<Compiled>, request: string, path: string) returns (c: Compiled)
    requires Represents(ix, cs) && NulFree(NormalizeRequestHost(request))
    requires MatchIndex(ix, NormalizeRequestHost(request), path).Some?
    ensures c in cs && c.route == MatchIndex(ix, NormalizeRequestHost(request), path).value && Answerable(c)
  {
    hide NormalizeRequestHost, RequestHost, MatchIndex, HostPathKey, BeforeNul;
    var host := NormalizeRequestHost(request);
    RequestHostIff(host);
    c := MatchOrigin(ix, cs, host, path);
    NameOfPlain(host);
    if c.route.host != "" && c.route.host != host {
      KeyShowsName(c.route.host, c.route.path, host, path);
    }
  }

  /** Exactly the routes that answer a request without NUL in its host: those whose host requests can have. */
  lemma RouteIsReachedIff(rules: seq<RouteRule>, ix: Index, route: RouteRule)
    requires Buildable(rules) && Built(ix, CompileAll(rules))
    ensures (exists request, path :: Reaches(ix, request, path, route))
            <==> exists c :: c in CompileAll(rules) && c.route == route && Answerable(c)
  {
    hide NormalizeRequestHost, MatchIndex, Answerable, Compile, SlotsDistinct;
    if request, path :| Reaches(ix, request, path, route) {
      var c := ReachedIsAnswerable(ix, CompileAll(rules), request, path);
    }
    if c :| c in CompileAll(rules) && c.route == route && Answerable(c) {
      var request, path := AnswerableIsReached(rules, ix, c);
    }
  }

  /** Exactly the rule lists for which every request without NUL in its host is served rightly: looked up under its
      normalised host, the key of each rule that answers any was first filed by a rule with the same backend. */
  lemma AllServedIff(rules: seq<RouteRule>, ix: Index, table: map<string, Proxy>, default_: Proxy)
    requires Buildable(rules) && AllClassify(rules) && Built(ix, CompileAll(rules)) && TableFor(table, rules, default_)
    ensures (forall request, path :: NulFree(NormalizeRequestHost(request)) ==>
               Served(ix, table, default_, NormalizeRequestHost(request), path))
            <==> forall c :: c in CompileAll(rules) && Answerable(c) ==> OwnBackendFirst(rules, c.route, default_)
  {
    hide Served, OwnBackendFirst, MatchIndex, Built, Compile, SlotsDistinct, TableFor, AllClassify, Answerable,
         NormalizeRequestHost;
    var cs := CompileAll(rules);
    BuiltRepresents(ix, cs);
    if forall c :: c in cs && Answerable(c) ==> OwnBackendFirst(rules, c.route, default_) {
      forall request, path | NulFree(NormalizeRequestHost(request))
        ensures Served(ix, table, default_, NormalizeRequestHost(request), path)
      {
        PickExactly(rules, ix, table, default_, NormalizeRequestHost(request), path);
        if MatchIndex(ix, NormalizeRequestHost(request), path).Some? {
          var c := ReachedIsAnswerable(ix, cs, request, path);
        }
      }
    }
    if forall request, path :: NulFree(NormalizeRequestHost(request)) ==>
         Served(ix, table, default_, NormalizeRequestHost(request), path)
    {
      forall c | c in cs && Answerable(c)
        ensures OwnBackendFirst(rules, c.route, default_)
      {
        var request, path := AnswerableIsReached(rules, ix, c);
        PickExactly(rules, ix, table, default_, NormalizeRequestHost(request), path);
      }
    }
  }

  lemma BuiltRepresents(ix: Index, cs: seq<Compiled>)
    requires Built(ix, cs)
    ensures Represents(ix, cs)
  {
  }

  lemma MatchedIsCompiled(ix: Index, cs: seq<Compiled>, host: string, path: string)
    requires Represents(ix, cs) && MatchIndex(ix, host, path).Some?
    ensures exists c :: c in cs && c.route == MatchIndex(ix, host, path).value
  {
    hide HostPathKey, PrefixCovers;
    var route := MatchIndex(ix, host, path).value;
    assert Holds(ix, Exact, route) || Holds(ix, Prefix, route) || Holds(ix, Default, route);
  }

  // ----- when the key determines the backend -----

  predicate NoDoubleSlash(s: string) {
    forall i :: 0 <= i < |s| - 1 ==> s[i] != '/' || s[i + 1] != '/'
  }

  /** Absolute URLs, `scheme://` and a rest: all that `ParseTarget` accepts. */
  predicate SchemeTarget(t: string) {
    var i := IndexOf(t, ':');
    0 <= i < |t| - 2 && t[i + 1] == '/' && t[i + 2] == '/' && SlashFree(t[..i]) && '=' !in t[..i]
  }

  /** The first "//" of a text splits it in one way. */
  lemma FirstDoubleSlash(a: string, x: string, b: string, y: string)
    requires NoDoubleSlash(a) && NoDoubleSlash(b) && a != "" && b != "" && a[|a| - 1] != '/' && b[|b| - 1] != '/'
    requires a + "//" + x == b + "//" + y
    ensures a == b && x == y
  {
    var s := a + "//" + x;
    assert s[|a|] == '/' && s[|a| + 1] == '/' && s[|b|] == '/' && s[|b| + 1] == '/';
    assert forall i :: 0 <= i < |a| ==> s[i] == a[i];
    assert forall i :: 0 <= i < |b| ==> s[i] == b[i];
    assert |a| == |b|;
    assert a == s[..|a|] && b == s[..|b|] && x == s[|a| + 2..] && y == s[|b| + 2..];
  }

  /** A path between texts without slashes: the only slashes are its own. */
  lemma PathKeepsSlashes(front: string, path: string, back: string)
    requires SlashFree(front) && SlashFree(back) && NoDoubleSlash(path)
    ensures NoDoubleSlash(front + path + back)
  {
    var s := front + path + back;
    forall i | 0 <= i < |s| - 1
      ensures s[i] != '/' || s[i + 1] != '/'
    {
      if |front| <= i < |front| + |path| - 1 {
        assert s[i] == path[i - |front|] && s[i + 1] == path[i + 1 - |front|];
      } else if i < |front| {
        assert s[i] == front[i] && front[i] in front;
      } else {
        assert s[i + 1] == back[i + 1 - |front| - |path|] && back[i + 1 - |front| - |path|] in back;
      }
    }
  }

  /** A target as scheme with colon, "//" and rest. */
  lemma SchemeParts(t: string) returns (scheme: string, rest: string)
    requires SchemeTarget(t)
    ensures t == scheme + "//" + rest && SlashFree(scheme) && '=' !in scheme
    ensures scheme != "" && scheme[|scheme| - 1] == ':'
  {
    var i := IndexOf(t, ':');
    scheme, rest := t[..i] + ":", t[i + 3..];
    assert t == (t[..i] + [t[i]]) + ([t[i + 1]] + [t[i + 2]]) + rest;
  }

  lemma FrontParts(f1: string, p1: string, s1: string, r1: string, f2: string, p2: string, s2: string, r2: string,
                   m: string)
    requires SlashFree(f1) && SlashFree(f2) && SlashFree(m) && NoDoubleSlash(p1) && NoDoubleSlash(p2)
    requires SlashFree(s1) && '=' !in s1 && s1 != "" && s1[|s1| - 1] == ':'
    requires SlashFree(s2) && '=' !in s2 && s2 != "" && s2[|s2| - 1] == ':'
    requires (f1 + p1 + (m + "=" + s1)) + "//" + r1 == (f2 + p2 + (m + "=" + s2)) + "//" + r2
    ensures s1 == s2 && r1 == r2
  {
    hide NoDoubleSlash;
    PathKeepsSlashes(f1, p1, m + "=" + s1);
    PathKeepsSlashes(f2, p2, m + "=" + s2);
    var a1, a2 := f1 + p1 + (m + "=" + s1), f2 + p2 + (m + "=" + s2);
    FirstDoubleSlash(a1, r1, a2, r2);
    assert a1 == (f1 + p1 + m) + ['='] + s1 && a2 == (f2 + p2 + m) + ['='] + s2;
    CutLast(f1 + p1 + m, s1, f2 + p2 + m, s2, '=');
  }

  /** Host, path and target read from the left: the target is what surrounds the first "//". */
  lemma FrontDeterminesTarget(h1: string, p1: string, t1: string, h2: string, p2: string, t2: string,
                              n0: string, n1: string, n2: string)
    requires SlashFree(h1) && SlashFree(h2) && NoDoubleSlash(p1) && NoDoubleSlash(p2)
    requires SchemeTarget(t1) && SchemeTarget(t2)
    requires SlashFree(n0) && SlashFree(n1) && SlashFree(n2)
    requires (n0 + h1 + "," + n1) + p1 + ("," + n2 + "=" + t1) == (n0 + h2 + "," + n1) + p2 + ("," + n2 + "=" + t2)
    ensures t1 == t2
  {
    hide NoDoubleSlash, SchemeTarget;
    var s1, r1 := SchemeParts(t1);
    var s2, r2 := SchemeParts(t2);
    var f1, f2, m := n0 + h1 + "," + n1, n0 + h2 + "," + n1, "," + n2;
    assert SlashFree(f1) && SlashFree(f2) && SlashFree(m);
    hide SlashFree;
    assert (f1 + p1 + (m + "=" + s1)) + "//" + r1 == f1 + p1 + (m + "=" + t1);
    assert (f2 + p2 + (m + "=" + s2)) + "//" + r2 == f2 + p2 + (m + "=" + t2);
    FrontParts(f1, p1, s1, r1, f2, p2, s2, r2, m);
  }

  /** With URL targets, slash-free hosts, single-slashed paths and comma-free server names the key determines the
      backend, whatever commas hosts, paths and targets hold. */
  lemma KeyDeterminesBackend(h1: string, p1: string, a: Proxy, h2: string, p2: string, b: Proxy)
    requires SlashFree(h1) && NoDoubleSlash(p1) && SchemeTarget(a.target) && CommaFree(a.serverName)
    requires SlashFree(h2) && NoDoubleSlash(p2) && SchemeTarget(b.target) && CommaFree(b.serverName)
    requires ProxyKey(h1, p1, a) == ProxyKey(h2, p2, b)
    ensures a == b
  {
    hide FlagText, SchemeTarget, NoDoubleSlash;
    NamesAreCommaFree();
    var names := ["host=", "path=", "target", "server_name=", "insecure_skip_verify=", "pass_host_header="];
    assert "target=" == names[2] + "=";
    assert SlashFree(names[0]) && SlashFree(names[1]) && SlashFree(names[2]);
    KeyBackendParts(h1, p1, a, h2, p2, b, names[0], names[1], names[2], names[3], names[4], names[5]);
  }

  /** A key with its last three parts split off. */
  lemma KeyFront(h: string, p: string, x: Proxy, n0: string, n1: string, n2: string, n3: string, n4: string, n5: string)
    ensures (n0 + h) + "," + ((n1 + p) + "," + (((((n2 + "=") + x.target) + "," + (n3 + x.serverName)) + ","
              + (n4 + FlagText(x.insecureSkipVerify))) + "," + (n5 + FlagText(x.passHostHeader))))
         == (((((n0 + h + "," + n1) + p + ("," + n2 + "=" + x.target))) + "," + (n3 + x.serverName)) + ","
              + (n4 + FlagText(x.insecureSkipVerify))) + "," + (n5 + FlagText(x.passHostHeader))
  {
    hide FlagText;
  }

  lemma KeyBackendParts(h1: string, p1: string, a: Proxy, h2: string, p2: string, b: Proxy,
                        n0: string, n1: string, n2: string, n3: string, n4: string, n5: string)
    requires SlashFree(h1) && NoDoubleSlash(p1) && SchemeTarget(a.target) && CommaFree(a.serverName)
    requires SlashFree(h2) && NoDoubleSlash(p2) && SchemeTarget(b.target) && CommaFree(b.serverName)
    requires CommaFree(n3) && CommaFree(n4) && CommaFree(n5) && SlashFree(n0) && SlashFree(n1) && SlashFree(n2)
    requires (n0 + h1) + "," + ((n1 + p1) + "," + (((((n2 + "=") + a.target) + "," + (n3 + a.serverName)) + ","
               + (n4 + FlagText(a.insecureSkipVerify))) + "," + (n5 + FlagText(a.passHostHeader))))
          == (n0 + h2) + "," + ((n1 + p2) + "," + (((((n2 + "=") + b.target) + "," + (n3 + b.serverName)) + ","
               + (n4 + FlagText(b.insecureSkipVerify))) + "," + (n5 + FlagText(b.passHostHeader))))
    ensures a == b
  {
    hide FlagText, SchemeTarget, NoDoubleSlash;
    KeyFront(h1, p1, a, n0, n1, n2, n3, n4, n5);
    KeyFront(h2, p2, b, n0, n1, n2, n3, n4, n5);
    var f1 := (n0 + h1 + "," + n1) + p1 + ("," + n2 + "=" + a.target);
    var f2 := (n0 + h2 + "," + n1) + p2 + ("," + n2 + "=" + b.target);
    var a' := a.(target := f1);
    var b' := b.(target := f2);
    assert "" + f1 == f1 && "" + f2 == f2;
    TargetPartInjective(a', b', "", n3, n4, n5);
    FrontDeterminesTarget(h1, p1, a.target, h2, p2, b.target, n0, n1, n2);
  }

  lemma ClassifiedSingleSlashed(path: string)
    requires ClassifyPath(path).Some?
    ensures NoDoubleSlash(ClassifyPath(path).value.1)
  {
    hide TrimSpace, Contains;
    if path != "/" {
      NotContained(path);
    }
  }

  lemma DoubleStarts(s: string)
    ensures |s| >= 2 && s[0] == '/' && s[1] == '/' ==> "//" <= s
  {
    assert "//"[0] == '/' && "//"[1] == '/' && |"//"| == 2;
  }

  lemma {:induction false} NotContained(s: string)
    requires !Contains(s, "//")
    ensures NoDoubleSlash(s)
    decreases |s|
  {
    if s != "" {
      NotContained(s[1..]);
      DoubleStarts(s);
      forall i | 0 <= i < |s| - 1
        ensures s[i] != '/' || s[i + 1] != '/'
      {
        if i > 0 {
          assert s[i] == s[1..][i - 1] && s[i + 1] == s[1..][i];
        }
      }
    }
  }

  predicate NormalisedHost(rule: RouteRule) {
    NormalizeRouteHost(rule.host) == rule.host
  }

  /** What a configured rule is known to satisfy: no slash in its host, and a target `ParseTarget` accepts. */
  predicate Configured(rule: RouteRule) {
    SlashFree(NormalizeRouteHost(rule.host)) && SchemeTarget(rule.target)
  }

  /** For configured rules with normalised hosts, comma-free server names suffice: every request is served rightly. */
  lemma CommaFreeNamesServe(rules: seq<RouteRule>, default_: Proxy, c: Compiled)
    requires Buildable(rules) && AllClassify(rules) && c in CompileAll(rules)
    requires forall i :: 0 <= i < |rules| ==>
               Configured(rules[i]) && NormalisedHost(rules[i]) && CommaFree(rules[i].originServerName)
    ensures OwnBackendFirst(rules, c.route, default_)
  {
    hide ClassifyPath, ProxyKey, SlotsDistinct, NormalizeRouteHost, SchemeTarget, SlashFree, NoDoubleSlash,
         CommaFree, FirstIndex;
    var i :| 0 <= i < |rules| && CompileAll(rules)[i] == c;
    assert Compile(rules[i]).Some?;
    var key := MatchedKey(c.route, default_);
    assert RuleKey(rules[i], default_) == key;
    var first := FirstFiled(rules, key, default_).value;
    ClassifiedSingleSlashed(rules[i].path);
    ClassifiedSingleSlashed(rules[first].path);
    assert rules[first].host == NormalizeRouteHost(rules[first].host);
    KeyDeterminesBackend(rules[first].host, ClassifyPath(rules[first].path).value.1, ProxyFor(rules[first], default_),
                         c.route.host, c.route.path, ProxyFor(c.route, default_));
  }

  /** Every target that parses has a scheme, as `ParseTarget` demands. */
  ghost predicate ParsesUrls(okTarget: string -> bool) {
    forall t: string :: okTarget(t) ==> SchemeTarget(t)
  }

  /** The proxy has the rule's target and TLS options, and the rule's host flag where it sets one, else the
      default's. */
  predicate BuiltFrom(proxy: Proxy, rule: RouteRule, default_: Proxy) {
    && proxy.target == rule.target && proxy.serverName == rule.originServerName
    && proxy.insecureSkipVerify == rule.insecureSkipVerify
    && (rule.passHostHeaderSet ==> proxy.passHostHeader == rule.passHostHeader)
    && (!rule.passHostHeaderSet ==> proxy.passHostHeader == default_.passHostHeader)
  }

  /** End-to-end, for validated rules with normalised hosts and comma-free server names: a request goes to the
      backend of the best rule, built with that rule's target, TLS options and inherited or overridden host flag;
      the default proxy serves only unmatched requests. Commas in hosts, paths and targets, and NUL in hosts, do no
      harm. */
  lemma DispatchIsRight(rules: seq<RouteRule>, okTarget: string -> bool, ix: Index, table: map<string, Proxy>,
                        default_: Proxy, host: string, path: string)
    requires RouteValidator.Valid(rules, okTarget) && ParsesUrls(okTarget)
    requires Buildable(rules) && AllClassify(rules) && Built(ix, CompileAll(rules)) && TableFor(table, rules, default_)
    requires forall i :: 0 <= i < |rules| ==>
               TargetParses(rules[i].target, okTarget) && NormalisedHost(rules[i])
               && CommaFree(rules[i].originServerName)
    requires PlainRequest(host, path)
    ensures var (proxy, route) := Pick(ix, table, default_, host, path);
            && (route.None? <==> forall c :: c in CompileAll(rules) ==> !Applies(c, host, path))
            && (route.None? ==> proxy == default_)
            && (route.Some? ==> exists i :: 0 <= i < |rules|
                                  && route.value == CompileAll(rules)[i].route
                                  && IsBest(CompileAll(rules), host, path, CompileAll(rules)[i])
                                  && BuiltFrom(proxy, rules[i], default_))
  {
    hide ClassifyPath, ProxyKey, HostPathKey, MatchIndex, NormalizeRouteHost, SlotsDistinct, Applies, Pick,
         SchemeTarget, RouteValidator.Valid, PlainRules, PlainRequest, Represents, CommaFree, OwnBackendFirst, TableFor;
    var cs := CompileAll(rules);
    RouteValidator.ValidatedIsPlain(rules, okTarget);
    PlainMatchIsBest(ix, cs, host, path);
    PickExactly(rules, ix, table, default_, host, path);
    var m := MatchIndex(ix, host, path);
    if m.Some? {
      var kind :| IsBest(cs, host, path, Compiled(kind, m.value));
      var i :| 0 <= i < |rules| && cs[i] == Compiled(kind, m.value);
      assert Compile(rules[i]).Some?;
      forall j | 0 <= j < |rules|
        ensures Configured(rules[j])
      {
        assert cs[j] in cs && Compile(rules[j]).Some?;
        PlainRule(cs, cs[j]);
      }
      CommaFreeNamesServe(rules, default_, cs[i]);
    }
  }

  lemma PlainRule(cs: seq<Compiled>, c: Compiled)
    requires PlainRules(cs) && c in cs
    ensures SlashFree(c.route.host)
  {
  }

  // ----- when it does not -----

  lemma KeysMeet(host: string, path: string, t: string, a: string, b: string, insecure: bool, pass: bool)
    ensures ProxyKey(host, path, Proxy(t + ",server_name=" + a, b, insecure, pass))
         == ProxyKey(host, path, Proxy(t, a + ",server_name=" + b, insecure, pass))
  {
    hide FlagText;
    assert ",server_name=" == "," + "server_name=";
    KeysMeetParts("target=", "server_name=", t, a, b);
  }

  lemma KeysMeetParts(n2: string, n3: string, t: string, a: string, b: string)
    ensures (n2 + (t + ("," + n3) + a)) + "," + (n3 + b) == (n2 + t) + "," + (n3 + (a + ("," + n3) + b))
  {
  }

  /** Two rules for one path, exact and prefix, whose targets and server names differ by where a comma falls. */
  function CollidingRules(t: string, a: string, b: string): seq<RouteRule> {
    [RouteRule("", "/a", t + ",server_name=" + a, false, b, false, false, false, false),
     RouteRule("", "/a/*", t, false, a + ",server_name=" + b, false, false, false, false)]
  }

  /** A comma in a server name does misroute: the router builds, and the request for /a/c, which only the prefix rule
      matches, is sent to the exact rule's backend. */
  lemma ServerNameCommaMisroutes(t: string, a: string, b: string, ix: Index, table: map<string, Proxy>, default_: Proxy)
    ensures Buildable(CollidingRules(t, a, b)) && AllClassify(CollidingRules(t, a, b))
    ensures var rules := CollidingRules(t, a, b);
            (Built(ix, CompileAll(rules)) && TableFor(table, rules, default_)) ==>
              (MatchIndex(ix, "", "/a/c") == Some(CompileAll(rules)[1].route)
               && Pick(ix, table, default_, "", "/a/c").0
                  == ProxyFor(rules[0], default_) != ProxyFor(rules[1], default_))
  {
    CollidingCompile(t, a, b);
    var rules := CollidingRules(t, a, b);
    if Built(ix, CompileAll(rules)) && TableFor(table, rules, default_) {
      CollidingMisroute(t, a, b, ix, table, default_);
    }
  }

  lemma ShortPaths()
    ensures ClassifyPath("/a") == Some((Exact, "/a")) && ClassifyPath("/a/*") == Some((Prefix, "/a"))
  {
    TrimSpaceOfTrimmed("/a");
    TrimSpaceOfTrimmed("/a/*");
    SingleSlashed("/a");
    SingleSlashed("/a/*");
    assert "/a/*"[..2] == "/a" && '*' !in "/a";
    assert !HasSuffix("/a", "/*");
  }

  lemma SingleSlashed(s: string)
    requires |s| <= 4 && NoDoubleSlash(s)
    ensures !Contains(s, "//")
    decreases |s|
  {
    if s != "" {
      forall i | 0 <= i < |s[1..]| - 1
        ensures s[1..][i] != '/' || s[1..][i + 1] != '/'
      {
        assert s[1..][i] == s[i + 1] && s[1..][i + 1] == s[i + 2];
      }
      SingleSlashed(s[1..]);
      assert |"//"| == 2 && "//"[0] == '/' && "//"[1] == '/';
    }
  }

  lemma CollidingCompile(t: string, a: string, b: string)
    ensures var rules := CollidingRules(t, a, b);
            Buildable(rules) && AllClassify(rules)
            && CompileAll(rules) == [Compiled(Exact, rules[0]), Compiled(Prefix, rules[1].(path := "/a"))]
  {
    hide ClassifyPath;
    ShortPaths();
    assert NormalizeRouteHost("") == "";
  }

  lemma CollidingMisroute(t: string, a: string, b: string, ix: Index, table: map<string, Proxy>, default_: Proxy)
    requires var rules := CollidingRules(t, a, b);
             Buildable(rules) && AllClassify(rules) && Built(ix, CompileAll(rules)) && TableFor(table, rules, default_)
    ensures var rules := CollidingRules(t, a, b);
            MatchIndex(ix, "", "/a/c") == Some(CompileAll(rules)[1].route)
            && Pick(ix, table, default_, "", "/a/c").0 == ProxyFor(rules[0], default_) != ProxyFor(rules[1], default_)
  {
    hide ClassifyPath, ProxyKey, MatchIndex, Built, SlotsDistinct, FirstFiled, RuleKeys;
    var rules := CollidingRules(t, a, b);
    CollidingCompile(t, a, b);
    CollidingMatch(rules[0], rules[1].(path := "/a"), ix);
    CollidingFirst(t, a, b, default_);
    var key := MatchedKey(CompileAll(rules)[1].route, default_);
    MatchedKeyIsNotEmpty(CompileAll(rules)[1].route, default_);
    assert FirstFiled(rules, key, default_) == Some(0);
    assert |rules[0].target| > |rules[1].target|;
  }

  /** /a/c is below the prefix rule and is not the exact rule's path. */
  lemma CollidingMatch(exact: RouteRule, prefix: RouteRule, ix: Index)
    requires Built(ix, [Compiled(Exact, exact), Compiled(Prefix, prefix)])
    requires exact.host == prefix.host == "" && exact.path == prefix.path == "/a"
    ensures MatchIndex(ix, "", "/a/c") == Some(prefix)
  {
    hide MatchIndex, Built;
    var cs := [Compiled(Exact, exact), Compiled(Prefix, prefix)];
    MatchIsBestIff(ix, cs, "", "/a/c");
    assert "/a/c"[..3] == "/a" + "/" && |"/a"| != |"/a/c"|;
    assert Applies(cs[1], "", "/a/c") && cs[1] in cs;
    assert !Applies(cs[0], "", "/a/c");
  }

  lemma CollidingFirst(t: string, a: string, b: string, default_: Proxy)
    requires AllClassify(CollidingRules(t, a, b))
    ensures var rules := CollidingRules(t, a, b);
            FirstFiled(rules, MatchedKey(rules[1].(path := "/a"), default_), default_) == Some(0)
  {
    hide ClassifyPath, ProxyKey, FirstIndex;
    var rules := CollidingRules(t, a, b);
    ShortPaths();
    KeysMeet("", "/a", t, a, b, false, default_.passHostHeader);
    var keys := RuleKeys(rules, default_);
    var key := MatchedKey(rules[1].(path := "/a"), default_);
    assert keys[0] == RuleKey(rules[0], default_) == key;
    FirstAtZero(keys, key);
  }

  lemma {:induction false} FirstAtZero(keys: seq<string>, key: string)
    requires keys != [] && keys[0] == key
    ensures FirstIndex(keys, key) == Some(0)
    decreases |keys|
  {
    if |keys| > 1 {
      FirstAtZero(keys[..|keys| - 1], key);
    }
  }

  /** A rule whose host is not already normalised (say, has an upper-case letter) is never served by its own
      backend when it stands alone: even requests that match it go to the default proxy, reported as unmatched. */
  lemma UnnormalisedHostMissed(rule: RouteRule, ix: Index, table: map<string, Proxy>, default_: Proxy, host: string,
                               path: string)
    requires Buildable([rule]) && Built(ix, CompileAll([rule])) && AllClassify([rule])
    requires TableFor(table, [rule], default_)
    ensures Served(ix, table, default_, host, path) <==> MatchIndex(ix, host, path).None? || NormalisedHost(rule)
    ensures !NormalisedHost(rule) ==> Pick(ix, table, default_, host, path) == (default_, None)
  {
    hide ClassifyPath, MatchIndex, NormalizeRouteHost, ProxyKey, Served, Pick, Built, TableFor, FirstFiled;
    var cs := CompileAll([rule]);
    assert Compile([rule][0]).Some?;
    PickExactly([rule], ix, table, default_, host, path);
    var m := MatchIndex(ix, host, path);
    if m.Some? {
      BuiltRepresents(ix, cs);
      MatchedIsCompiled(ix, cs, host, path);
      assert m.value == cs[0].route;
      SameKeySameHost(rule.host, m.value.host, m.value.path, ProxyFor(rule, default_));
      LoneFirst(rule, MatchedKey(m.value, default_), default_);
    }
  }

  /** Some request without NUL in its host is served by the rule's own backend, as matched by the rule. */
  predicate ServedBy(ix: Index, table: map<string, Proxy>, default_: Proxy, request: string, path: string,
                     rule: RouteRule, route: RouteRule) {
    NulFree(NormalizeRequestHost(request))
    && Pick(ix, table, default_, NormalizeRequestHost(request), path) == (ProxyFor(rule, default_), Some(route))
  }

  /** Exactly the rules that get to serve when they stand alone: the host is normalised as written, and requests
      can have it. */
  lemma LoneRuleServesIff(rule: RouteRule, ix: Index, table: map<string, Proxy>, default_: Proxy)
    requires Buildable([rule]) && Built(ix, CompileAll([rule])) && AllClassify([rule])
    requires TableFor(table, [rule], default_)
    ensures var c := CompileAll([rule])[0];
            (exists request, path :: ServedBy(ix, table, default_, request, path, rule, c.route))
            <==> NormalisedHost(rule) && Answerable(c)
  {
    hide MatchIndex, NormalizeRouteHost, NormalizeRequestHost, ProxyFor, Pick, Built, TableFor, Compile, SlotsDistinct,
         Answerable, AllClassify, NormalisedHost;
    var cs := CompileAll([rule]);
    var c := cs[0];
    BuiltRepresents(ix, cs);
    if request, path :| ServedBy(ix, table, default_, request, path, rule, c.route) {
      LoneRuleServed(rule, ix, table, default_, request, path);
    }
    if NormalisedHost(rule) && Answerable(c) {
      var request, path := AnswerableIsReached([rule], ix, c);
      UnnormalisedHostMissed(rule, ix, table, default_, NormalizeRequestHost(request), path);
      SameBackend(rule, default_);
      assert ServedBy(ix, table, default_, request, path, rule, c.route) by {
        ServedIsServedBy(ix, table, default_, request, path, rule, c.route);
      }
    }
  }

  lemma SameBackend(rule: RouteRule, default_: Proxy)
    requires Compile(rule).Some?
    ensures ProxyFor(Compile(rule).value.route, default_) == ProxyFor(rule, default_)
  {
  }

  lemma ServedIsServedBy(ix: Index, table: map<string, Proxy>, default_: Proxy, request: string, path: string,
                         rule: RouteRule, route: RouteRule)
    requires Reaches(ix, request, path, route) && ProxyFor(route, default_) == ProxyFor(rule, default_)
    requires Served(ix, table, default_, NormalizeRequestHost(request), path)
    ensures ServedBy(ix, table, default_, request, path, rule, route)
  {
    hide NormalizeRequestHost, MatchIndex, Pick;
  }

  lemma LoneRuleServed(rule: RouteRule, ix: Index, table: map<string, Proxy>, default_: Proxy, request: string,
                       path: string)
    requires Buildable([rule]) && Built(ix, CompileAll([rule])) && AllClassify([rule])
    requires TableFor(table, [rule], default_)
    requires ServedBy(ix, table, default_, request, path, rule, CompileAll([rule])[0].route)
    ensures NormalisedHost(rule) && Answerable(CompileAll([rule])[0])
  {
    hide MatchIndex, NormalizeRouteHost, NormalizeRequestHost, ProxyFor, Built, TableFor, Compile, SlotsDistinct,
         Answerable, AllClassify, NormalisedHost, MatchedKey;
    var host := NormalizeRequestHost(request);
    BuiltRepresents(ix, CompileAll([rule]));
    UnnormalisedHostMissed(rule, ix, table, default_, host, path);
    var c := ReachedIsAnswerable(ix, CompileAll([rule]), request, path);
  }

  /** The rule for the IPv6 literal "[::1]" is lower-case, trimmed, valid and built, and yet every request goes to the
      default proxy. */
  lemma BracketedHostIsPassedOver(okTarget: string -> bool, ix: Index, table: map<string, Proxy>, default_: Proxy,
                                  request: string, path: string)
    requires okTarget("http://x")
    ensures var rules := [RouteRule("[::1]", "/a", "http://x", false, "", false, false, false, false)];
            RouteValidator.Valid(rules, okTarget) && Buildable(rules) && NormalisedHost(rules[0])
            && (Built(ix, CompileAll(rules)) ==>
                  Pick(ix, table, default_, NormalizeRequestHost(request), path) == (default_, None))
  {
    hide ClassifyPath, TrimSpace, ToLower, RouteValidator.NormalizeRoutePath, NormalizeRequestHost, MatchIndex, Built;
    var rule := RouteRule("[::1]", "/a", "http://x", false, "", false, false, false, false);
    var rules := [rule];
    ShortPaths();
    LiteralHost();
    TrimSpaceOfTrimmed("http://x");
    TrimSpaceOfTrimmed("/a");
    RouteValidator.GrammarsAgree("/a");
    assert RouteValidator.FaultOf(rule, okTarget).None?;
    assert Compile(rule).Some?;
    assert rules[0] == rule && |rules| == 1;
    var c := Compile(rule).value;
    assert CompileAll(rules) == [c];
    assert c.route.host == "[::1]" && c.route.host[0] == '[';
    if Built(ix, CompileAll(rules)) {
      BracketedRuleIsDead(ix, c, request, path);
    }
  }

  lemma LiteralHost()
    ensures NormalizeRouteHost("[::1]") == "[::1]" && RouteValidator.ValidRouteHost("[::1]")
  {
    var h := "[::1]";
    TrimSpaceOfTrimmed(h);
    assert ToLower(h) == h;
    assert h[1..] == "::1]" && h[1..][1..] == ":1]" && h[1..][1..][1..] == "1]";
    assert "1]"[1..] == "]" && "]"[1..] == "";
    assert |"://"| == 3 && "://"[1] == '/' && |".."| == 2 && ".."[0] == '.';
  }

  lemma LoneFirst(rule: RouteRule, key: string, default_: Proxy)
    requires ClassifyPath(rule.path).Some? && AllClassify([rule])
    ensures FirstFiled([rule], key, default_) == if RuleKey(rule, default_) == key then Some(0) else None
  {
    hide ClassifyPath, ProxyKey;
    assert RuleKeys([rule], default_)[0] == RuleKey(rule, default_);
  }

  lemma SameKeySameHost(h1: string, h2: string, path: string, p: Proxy)
    ensures ProxyKey(h1, path, p) == ProxyKey(h2, path, p) <==> h1 == h2
  {
    hide FlagText;
    if ProxyKey(h1, path, p) == ProxyKey(h2, path, p) {
      var rest := ("path=" + path) + ","
                  + (((("target=" + p.target) + "," + ("server_name=" + p.serverName)) + ","
                      + ("insecure_skip_verify=" + FlagText(p.insecureSkipVerify))) + ","
                     + ("pass_host_header=" + FlagText(p.passHostHeader)));
      var name := "host=";
      assert (name + h1) + "," + rest == name + h1 + ("," + rest);
      assert (name + h2) + "," + rest == name + h2 + ("," + rest);
      SameAround(name, h1, h2, "," + rest);
    }
  }

  lemma SameAround(n: string, h1: string, h2: string, rest: string)
    requires n + h1 + rest == n + h2 + rest
    ensures h1 == h2
  {
    assert |h1| == |h2|;
    assert h1 == (n + h1 + rest)[|n|..|n| + |h1|] && h2 == (n + h2 + rest)[|n|..|n| + |h2|];
  }

  // ----- stripping the matched prefix -----

  /** `requestWithStrippedPathPrefix` on the request path. */
  function StripPathPrefix(route: RouteRule, path: string): string {
    if !route.stripPathPrefix || route.path == "" || route.path == "/" then path
    else if path != route.path && !HasPrefix(path, route.path + "/") then path
    else
      var rest := path[|route.path|..];
      if rest == "" then "/" else rest
  }

  /** A path is changed only when the route asks for it and the path is below the route's, which is not "/". */
  lemma StripsOnlyWhenAsked(route: RouteRule, path: string)
    ensures StripPathPrefix(route, path) != path ==>
              route.stripPathPrefix && route.path != "" && route.path != "/" && route.path <= path
  {
  }

  /** For a route that matched by exact path or prefix, the forwarded path starts with '/' and, put behind the
      route's path, gives back the request path (up to the '/' supplied for the route's own path). */
  lemma StrippedPath(c: Compiled, path: string)
    requires c.kind != Default && PathMatches(c, path) && c.route.stripPathPrefix
    requires HasPrefix(c.route.path, "/") && c.route.path != "/"
    ensures var out := StripPathPrefix(c.route, path);
            && HasPrefix(out, "/")
            && (if path == c.route.path then out == "/" else c.route.path + out == path)
  {
    var base := c.route.path;
    if path != base {
      assert path[|base|..][0] == (base + "/")[|base|];
      assert path == base + path[|base|..];
    }
  }
}
