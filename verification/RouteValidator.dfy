/** The route checks of `config.go`, written independently of the router, and their agreement with it. */
module RouteValidator {
  import opened Results
  import opened Routes
  import opened Text
  import Router

  /** `validateRouteHost` on a normalised, non-empty host. */
  predicate ValidRouteHost(host: string) {
    && !Contains(host, "://")
    && ' ' !in host && '/' !in host && '\\' !in host
    && !HasPrefix(host, ".") && !HasSuffix(host, ".")
    && !Contains(host, "..")
  }

  datatype RuleKind = ExactRule | PrefixRule

  /** `validateAndNormalizeRoutePath`: here "/" is an exact path. */
  function NormalizeRoutePath(path: string): Option<(RuleKind, string)> {
    if path == "/" then Some((ExactRule, "/"))
    else if !HasPrefix(path, "/") || Contains(path, "//") then None
    else if HasSuffix(path, "/*") then
      var base := path[..|path| - 2];
      if base == "" || base == "/" || '*' in base then None else Some((PrefixRule, base))
    else if '*' in path then None
    else Some((ExactRule, path))
  }

  function DuplicateKey(host: string, path: string): string {
    host + "\0" + path
  }

  datatype RuleFault = BadHost | PathRequired | TargetRequired | BadTarget | BadPath

  /** The first fault of a rule on its own; `okTarget` is the target URL check. */
  function FaultOf(rule: RouteRule, okTarget: string -> bool): Option<RuleFault> {
    var host, path, target := NormalizeRouteHost(rule.host), TrimSpace(rule.path), TrimSpace(rule.target);
    if host != "" && !ValidRouteHost(host) then Some(BadHost)
    else if path == "" then Some(PathRequired)
    else if target == "" then Some(TargetRequired)
    else if !okTarget(target) then Some(BadTarget)
    else if NormalizeRoutePath(path).None? then Some(BadPath)
    else None
  }

  /** The kind-tagged duplicate key of a rule without fault. */
  function SeenKey(rule: RouteRule): (RuleKind, string)
    requires NormalizeRoutePath(TrimSpace(rule.path)).Some?
  {
    var kp := NormalizeRoutePath(TrimSpace(rule.path)).value;
    (kp.0, DuplicateKey(NormalizeRouteHost(rule.host), kp.1))
  }

  /** Rule lists without a faulty rule and without two rules under one key. */
  predicate Valid(rules: seq<RouteRule>, okTarget: string -> bool) {
    && (forall i :: 0 <= i < |rules| ==> FaultOf(rules[i], okTarget).None?)
    && (forall i, j :: 0 <= i < j < |rules| ==> SeenKey(rules[i]) != SeenKey(rules[j]))
  }

  datatype RouteError = Faulty(index: nat, fault: RuleFault) | DuplicatePath(index: nat)

  /** `validateRouteRules`: no error exactly on valid lists; otherwise the first rule that spoils the list. */
  method ValidateRouteRules(rules: seq<RouteRule>, okTarget: string -> bool) returns (err: Option<RouteError>)
    ensures err.None? <==> Valid(rules, okTarget)
    ensures err.Some? ==> err.value.index < |rules|
                          && Valid(rules[..err.value.index], okTarget)
                          && !Valid(rules[..err.value.index + 1], okTarget)
    ensures err.Some? && err.value.Faulty? ==> FaultOf(rules[err.value.index], okTarget) == Some(err.value.fault)
  {
    hide FaultOf, NormalizeRoutePath, DuplicateKey, Valid, Keys;
    EmptyIsValid(okTarget);
    var exactSeen: set<string> := {};
    var prefixSeen: set<string> := {};
    for i := 0 to |rules|
      invariant Valid(rules[..i], okTarget)
      invariant exactSeen == Keys(rules[..i], ExactRule) && prefixSeen == Keys(rules[..i], PrefixRule)
    {
      var fault := FaultOf(rules[i], okTarget);
      if fault.Some? {
        FaultyIsInvalid(rules, i, okTarget);
        return Some(Faulty(i, fault.value));
      }
      FaultlessPath(rules[i], okTarget);
      DuplicateIff(rules, i, okTarget);
      KeysOneMore(rules, i);
      var kp := NormalizeRoutePath(TrimSpace(rules[i].path)).value;
      var duplicateKey := DuplicateKey(NormalizeRouteHost(rules[i].host), kp.1);
      match kp.0 {
        case ExactRule =>
          if duplicateKey in exactSeen {
            InvalidPrefix(rules, i, okTarget);
            return Some(DuplicatePath(i));
          }
          exactSeen := exactSeen + {duplicateKey};
        case PrefixRule =>
          if duplicateKey in prefixSeen {
            InvalidPrefix(rules, i, okTarget);
            return Some(DuplicatePath(i));
          }
          prefixSeen := prefixSeen + {duplicateKey};
      }
    }
    assert rules[..|rules|] == rules;
    return None;
  }

  predicate PathOk(rule: RouteRule) {
    NormalizeRoutePath(TrimSpace(rule.path)).Some?
  }

  /** The duplicate keys entered under one kind. */
  function Keys(rules: seq<RouteRule>, kind: RuleKind): set<string> {
    set i | 0 <= i < |rules| && PathOk(rules[i]) && SeenKey(rules[i]).0 == kind :: SeenKey(rules[i]).1
  }

  lemma EmptyIsValid(okTarget: string -> bool)
    ensures Valid([], okTarget) && forall kind :: Keys([], kind) == {}
  {
  }

  lemma KeysOneMore(rules: seq<RouteRule>, i: nat)
    requires i < |rules| && PathOk(rules[i])
    ensures forall kind ::
              Keys(rules[..i + 1], kind)
              == if SeenKey(rules[i]).0 == kind then Keys(rules[..i], kind) + {SeenKey(rules[i]).1}
                 else Keys(rules[..i], kind)
  {
    hide PathOk, SeenKey;
    var r := rules[..i + 1];
    assert r[i] == rules[i] && forall j :: 0 <= j < i ==> r[j] == rules[..i][j];
  }

  lemma FaultyIsInvalid(rules: seq<RouteRule>, i: nat, okTarget: string -> bool)
    requires i < |rules| && FaultOf(rules[i], okTarget).Some?
    ensures !Valid(rules[..i + 1], okTarget) && !Valid(rules, okTarget)
  {
    hide FaultOf, SeenKey;
    assert rules[..i + 1][i] == rules[i];
  }

  lemma InvalidPrefix(rules: seq<RouteRule>, i: nat, okTarget: string -> bool)
    requires i < |rules| && !Valid(rules[..i + 1], okTarget)
    ensures !Valid(rules, okTarget)
  {
    hide FaultOf, SeenKey;
    assert forall j :: 0 <= j <= i ==> rules[..i + 1][j] == rules[j];
  }

  /** The seen-set test of the loop is the duplicate test of the specification. */
  lemma DuplicateIff(rules: seq<RouteRule>, i: nat, okTarget: string -> bool)
    requires i < |rules| && Valid(rules[..i], okTarget) && FaultOf(rules[i], okTarget).None? && PathOk(rules[i])
    ensures Valid(rules[..i + 1], okTarget) <==> SeenKey(rules[i]).1 !in Keys(rules[..i], SeenKey(rules[i]).0)
  {
    hide FaultOf, SeenKey;
    var r := rules[..i + 1];
    assert r[i] == rules[i] && forall j :: 0 <= j < i ==> r[j] == rules[..i][j];
    forall j | 0 <= j < i ensures PathOk(rules[j]) {
      assert FaultOf(rules[..i][j], okTarget).None?;
      FaultlessPath(rules[j], okTarget);
    }
    if SeenKey(rules[i]).1 in Keys(rules[..i], SeenKey(rules[i]).0) {
      var j :| 0 <= j < i && SeenKey(rules[..i][j]) == SeenKey(rules[i]);
      assert SeenKey(r[j]) == SeenKey(r[i]);
    } else {
      forall j | 0 <= j < i ensures SeenKey(rules[j]) != SeenKey(rules[i]) {
        assert PathOk(rules[..i][j]);
      }
    }
  }

  lemma FaultlessPath(rule: RouteRule, okTarget: string -> bool)
    requires FaultOf(rule, okTarget).None?
    ensures NormalizeRoutePath(TrimSpace(rule.path)).Some?
  {
  }

  // ----- agreement with the router -----

  /** On a trimmed path the two grammars accept the same, up to the name given to "/". */
  lemma GrammarsAgree(path: string)
    requires TrimSpace(path) == path
    ensures Router.ClassifyPath(path).Some? <==> NormalizeRoutePath(path).Some?
    ensures Router.ClassifyPath(path).Some? ==>
              (var c, n := Router.ClassifyPath(path).value, NormalizeRoutePath(path).value;
               && c.1 == n.1
               && (c.0 == Router.Prefix <==> n.0 == PrefixRule)
               && (c.0 == Router.Default <==> n.0 == ExactRule && n.1 == "/"))
  {
  }

  /** Rules the router puts in one slot have one key in the validator. */
  lemma SameSlotSameKey(a: RouteRule, b: RouteRule)
    requires TrimSpace(a.path) == a.path && TrimSpace(b.path) == b.path
    requires Router.Compile(a).Some? && Router.Compile(b).Some?
    requires Router.SlotOf(Router.Compile(a).value) == Router.SlotOf(Router.Compile(b).value)
    ensures NormalizeRoutePath(a.path).Some? && NormalizeRoutePath(b.path).Some?
    ensures SeenKey(a) == SeenKey(b)
  {
    hide NormalizeRoutePath, Router.ClassifyPath, NormalizeRouteHost, TrimSpace;
    GrammarsAgree(a.path);
    GrammarsAgree(b.path);
  }

  /** With valid hosts, rules under one key in the validator share a slot in the router. */
  lemma SameKeySameSlot(a: RouteRule, b: RouteRule)
    requires TrimSpace(a.path) == a.path && TrimSpace(b.path) == b.path
    requires Router.Compile(a).Some? && Router.Compile(b).Some?
    requires Router.SlashFree(NormalizeRouteHost(a.host)) && Router.SlashFree(NormalizeRouteHost(b.host))
    requires NormalizeRoutePath(a.path).Some? && NormalizeRoutePath(b.path).Some? && SeenKey(a) == SeenKey(b)
    ensures Router.SlotOf(Router.Compile(a).value) == Router.SlotOf(Router.Compile(b).value)
  {
    hide NormalizeRoutePath, Router.ClassifyPath, NormalizeRouteHost, TrimSpace;
    GrammarsAgree(a.path);
    GrammarsAgree(b.path);
    NormalPathIsRooted(a.path);
    NormalPathIsRooted(b.path);
    Router.SlashSeparates(NormalizeRouteHost(a.host), NormalizeRoutePath(a.path).value.1,
                          NormalizeRouteHost(b.host), NormalizeRoutePath(b.path).value.1);
  }

  lemma NormalPathIsRooted(path: string)
    requires NormalizeRoutePath(path).Some?
    ensures HasPrefix(NormalizeRoutePath(path).value.1, "/")
  {
  }

  predicate PathsTrimmed(rules: seq<RouteRule>) {
    forall i :: 0 <= i < |rules| ==> TrimSpace(rules[i].path) == rules[i].path
  }

  /** A validated list builds a router exactly when every path is already trimmed. */
  lemma ValidatedBuildsIffTrimmed(rules: seq<RouteRule>, okTarget: string -> bool)
    requires Valid(rules, okTarget)
    ensures Router.Buildable(rules) <==> PathsTrimmed(rules)
  {
    hide NormalizeRoutePath, NormalizeRouteHost, TrimSpace, Router.SlotOf, SeenKey, ValidRouteHost;
    if PathsTrimmed(rules) {
      forall i | 0 <= i < |rules| ensures Router.Compile(rules[i]).Some? {
        GrammarsAgree(rules[i].path);
      }
      var cs := Router.CompileAll(rules);
      forall i, j | 0 <= i < j < |cs| ensures Router.SlotOf(cs[i]) != Router.SlotOf(cs[j]) {
        if Router.SlotOf(cs[i]) == Router.SlotOf(cs[j]) {
          SameSlotSameKey(rules[i], rules[j]);
        }
      }
    }
    if Router.Buildable(rules) {
      forall i | 0 <= i < |rules| ensures TrimSpace(rules[i].path) == rules[i].path {
        assert Router.Compile(rules[i]).Some?;
      }
    }
  }

  /** Conversely, what the router builds passes the validator's path and duplicate checks. */
  lemma BuildableIsValid(rules: seq<RouteRule>, okTarget: string -> bool)
    requires Router.Buildable(rules)
    requires forall i :: 0 <= i < |rules| ==> HostAndTargetValid(rules[i], okTarget)
    ensures Valid(rules, okTarget)
  {
    hide NormalizeRoutePath, NormalizeRouteHost, TrimSpace, Router.SlotOf, SeenKey, ValidRouteHost;
    var cs := Router.CompileAll(rules);
    forall i | 0 <= i < |rules|
      ensures TrimSpace(rules[i].path) == rules[i].path && FaultOf(rules[i], okTarget).None?
      ensures Router.SlashFree(NormalizeRouteHost(rules[i].host))
    {
      assert Router.Compile(rules[i]).Some? && cs[i] in cs;
      GrammarsAgree(rules[i].path);
      ValidHostIsSlashFree(NormalizeRouteHost(rules[i].host));
    }
    forall i, j | 0 <= i < j < |rules| ensures SeenKey(rules[i]) != SeenKey(rules[j]) {
      if SeenKey(rules[i]) == SeenKey(rules[j]) {
        SameKeySameSlot(rules[i], rules[j]);
      }
    }
  }

  lemma ValidHostIsSlashFree(host: string)
    requires host == "" || ValidRouteHost(host)
    ensures Router.SlashFree(host)
  {
  }

  /** A validated list compiles to rules without a slash in the host and with rooted paths. */
  lemma ValidatedIsPlain(rules: seq<RouteRule>, okTarget: string -> bool)
    requires Valid(rules, okTarget) && Router.Buildable(rules)
    ensures Router.PlainRules(Router.CompileAll(rules))
  {
    hide NormalizeRoutePath, NormalizeRouteHost, TrimSpace, SeenKey, ValidRouteHost, Router.ClassifyPath;
    var cs := Router.CompileAll(rules);
    forall c | c in cs
      ensures Router.SlashFree(c.route.host) && HasPrefix(c.route.path, "/")
    {
      var i :| 0 <= i < |cs| && cs[i] == c;
      assert FaultOf(rules[i], okTarget).None?;
      assert Router.Compile(rules[i]).Some?;
      ValidHostIsSlashFree(NormalizeRouteHost(rules[i].host));
      ClassifiedIsRooted(rules[i].path);
    }
  }

  lemma ClassifiedIsRooted(path: string)
    requires Router.ClassifyPath(path).Some?
    ensures HasPrefix(Router.ClassifyPath(path).value.1, "/")
  {
    hide TrimSpace, Contains;
  }

  /** Validated and built: every plain request gets its best rule, with no condition on NUL in rules. */
  lemma ValidatedMatchIsBest(rules: seq<RouteRule>, okTarget: string -> bool, ix: Router.Index, host: string,
                             path: string)
    requires Valid(rules, okTarget) && PathsTrimmed(rules)
    requires Router.PlainRequest(host, path)
    ensures Router.Buildable(rules)
    ensures Router.Built(ix, Router.CompileAll(rules)) ==> Router.RightAnswer(ix, Router.CompileAll(rules), host, path)
  {
    hide Router.RightAnswer, PathsTrimmed, Valid, Router.Built, Router.PlainRules, Router.PlainRequest;
    ValidatedBuildsIffTrimmed(rules, okTarget);
    ValidatedIsPlain(rules, okTarget);
    if Router.Built(ix, Router.CompileAll(rules)) {
      Router.PlainMatchIsBest(ix, Router.CompileAll(rules), host, path);
    }
  }

  predicate HostAndTargetValid(rule: RouteRule, okTarget: string -> bool) {
    var host, target := NormalizeRouteHost(rule.host), TrimSpace(rule.target);
    (host == "" || ValidRouteHost(host)) && target != "" && okTarget(target)
  }

  /** A path with a leading blank passes the validator and is refused by the router. */
  lemma UntrimmedPathIsRefused(okTarget: string -> bool)
    requires okTarget("http://x")
    ensures var rules := [RouteRule("", " /a", "http://x", false, "", false, false, false, false)];
            Valid(rules, okTarget) && !Router.Buildable(rules)
  {
    var rule := RouteRule("", " /a", "http://x", false, "", false, false, false, false);
    TrimSpaceOfBlank("/a");
    assert " " + "/a" == " /a";
    TrimSpaceOfTrimmed("/a");
    TrimSpaceOfTrimmed("http://x");
    assert HasPrefix("/a", "/") && !HasSuffix("/a", "/*") && '*' !in "/a";
    assert !Contains("/a", "//") by {
      assert "/a"[1..] == "a" && "a"[1..] == "";
    }
    assert TrimSpace("") == "";
    assert FaultOf(rule, okTarget).None?;
    assert Router.Compile(rule).None?;
    assert [rule][0] == rule;
  }
}
