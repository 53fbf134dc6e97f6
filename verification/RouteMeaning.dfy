/** What routing means in the terms of rules and requests: path segments, host labels, and which rule wins. */
module RouteMeaning {
  import opened Results
  import opened Routes
  import opened Text
  import opened Router
  import RouteValidator

  // ----- paths by segments -----

  function Segments(path: string): seq<string> {
    Split(path, '/')
  }

  /** A prefix covers the paths that continue its segments, itself included. */
  lemma CoversIff(p: string, path: string)
    ensures PrefixCovers(p, path) <==> Segments(p) <= Segments(path)
  {
    hide Split;
    if PrefixCovers(p, path) && path != p {
      var rest := path[|p| + 1..];
      assert path == p + ['/'] + rest;
      SplitConcat(p, '/', rest);
    }
    if Segments(p) <= Segments(path) {
      ContinuedIsCovered(p, path);
    }
  }

  lemma ContinuedIsCovered(p: string, path: string)
    requires Segments(p) <= Segments(path)
    ensures PrefixCovers(p, path)
  {
    hide Split, Join;
    JoinOfSplit(p, '/');
    JoinOfSplit(path, '/');
    var more := Segments(path)[|Segments(p)|..];
    assert Segments(path) == Segments(p) + more;
    if more == [] {
      assert Segments(path) == Segments(p);
    } else {
      JoinAppend(Segments(p), more, ['/']);
      assert path == p + "/" + Join(more, ['/']);
      assert path[..|p| + 1] == p + "/";
    }
  }

  /** Of two prefixes of one path the longer text has the more segments. */
  lemma LongerHasMore(p: string, q: string, path: string)
    requires PrefixCovers(p, path) && PrefixCovers(q, path) && |p| > |q|
    ensures |Segments(p)| > |Segments(q)|
  {
    CoversIff(p, path);
    CoversIff(q, path);
    if |Segments(p)| <= |Segments(q)| {
      assert Segments(p) <= Segments(q);
      CoversIff(p, q);
    }
  }

  lemma DoubleSlashIff(path: string)
    ensures Contains(path, "//") <==> exists k :: 0 < k < |Segments(path)| - 1 && Segments(path)[k] == ""
  {
    hide Split, Join, Contains;
    ContainsIff(path, "//");
    if Contains(path, "//") {
      var a, b :| path == a + "//" + b;
      assert path == a + ['/'] + ("" + ['/'] + b);
      SplitConcat(a, '/', "" + ['/'] + b);
      SplitConcat("", '/', b);
      SplitNone("", '/');
      assert Segments(path)[|Segments(a)|] == "";
    }
    if k :| 0 < k < |Segments(path)| - 1 && Segments(path)[k] == "" {
      var segs := Segments(path);
      JoinOfSplit(path, '/');
      assert segs == segs[..k] + ([""] + segs[k + 1..]);
      JoinAppend(segs[..k], [""] + segs[k + 1..], ['/']);
      JoinCons("", segs[k + 1..], ['/']);
      assert path == Join(segs[..k], ['/']) + "//" + Join(segs[k + 1..], ['/']);
    }
  }

  /** A character other than the separator stands in a text exactly when it stands in one of its parts. */
  lemma {:induction false} InSomePart(s: string, sep: char, c: char)
    requires c != sep
    ensures c in s <==> exists k :: 0 <= k < |Split(s, sep)| && c in Split(s, sep)[k]
    decreases |s|
  {
    var i := IndexOf(s, sep);
    if i != -1 {
      var head, tail := s[..i], s[i + 1..];
      assert s == head + [sep] + tail;
      InSomePart(tail, sep, c);
      assert Split(s, sep)[0] == head && Split(s, sep)[1..] == Split(tail, sep);
      if k :| 0 <= k < |Split(tail, sep)| && c in Split(tail, sep)[k] {
        assert c in Split(s, sep)[k + 1];
      }
      if k :| 0 <= k < |Split(s, sep)| && c in Split(s, sep)[k] {
        assert k == 0 || c in Split(tail, sep)[k - 1];
      }
    } else {
      assert Split(s, sep)[0] == s;
    }
  }

  /** A star in some of the first n segments. */
  predicate StarWithin(segs: seq<string>, n: int) {
    exists k :: 0 <= k < n <= |segs| && '*' in segs[k]
  }

  lemma StarAt(segs: seq<string>, n: int, k: int)
    requires 0 <= k < n <= |segs| && '*' in segs[k]
    ensures StarWithin(segs, n)
  {
  }

  lemma StarInSegments(path: string)
    ensures '*' in path <==> StarWithin(Segments(path), |Segments(path)|)
  {
    hide Split;
    var parts := Segments(path);
    assert parts == Split(path, '/');
    InSomePart(path, '/', '*');
    if '*' in path {
      var k :| 0 <= k < |parts| && '*' in parts[k];
      StarAt(parts, |parts|, k);
    }
    if StarWithin(parts, |parts|) {
      var k :| 0 <= k < |parts| && '*' in parts[k];
      assert '*' in Split(path, '/')[k];
    }
  }

  /** The grammar of rule paths: trimmed, rooted, no empty segment but a last one, and a star only as last segment
      behind some other. */
  predicate WellFormed(path: string) {
    var segs := Segments(path);
    var last := |segs| - 1;
    && IsTrimmed(path) && last >= 1 && segs[0] == ""
    && (forall k :: 0 < k < last ==> segs[k] != "")
    && !StarWithin(segs, last)
    && ('*' in segs[last] ==> segs[last] == "*" && last >= 2)
  }

  lemma StarSuffixIff(path: string)
    ensures HasSuffix(path, "/*") <==> |Segments(path)| >= 2 && Segments(path)[|Segments(path)| - 1] == "*"
    ensures HasSuffix(path, "/*") ==> Segments(path) == Segments(path[..|path| - 2]) + ["*"]
  {
    hide Split, Join;
    if HasSuffix(path, "/*") {
      var base := path[..|path| - 2];
      assert path == base + ['/'] + "*";
      SplitConcat(base, '/', "*");
      SplitNone("*", '/');
    }
    var segs := Segments(path);
    var n := |segs| - 1;
    if n >= 1 && segs[n] == "*" {
      JoinOfSplit(path, '/');
      assert segs == segs[..n] + ["*"];
      JoinAppend(segs[..n], ["*"], ['/']);
      JoinOne("*", ['/']);
      assert path == Join(segs[..n], ['/']) + "/*";
    }
  }

  lemma RootedIff(path: string)
    ensures HasPrefix(path, "/") <==> |Segments(path)| >= 2 && Segments(path)[0] == ""
  {
    hide Join;
    if HasPrefix(path, "/") {
      assert path == "" + ['/'] + path[1..];
      SplitFirst("", '/', path[1..]);
    } else {
      var i := IndexOf(path, '/');
      assert i != 0;
    }
  }

  /** Which rule paths the router accepts, and what it makes of them: a path with a star is a prefix rule for what
      stands before it, "/" is the default rule, and any other is an exact rule for itself. */
  lemma ClassifyMeaning(path: string)
    ensures ClassifyPath(path).Some? <==> WellFormed(path)
    ensures ClassifyPath(path).Some? ==>
              (var (kind, normal) := ClassifyPath(path).value;
               if path == "/" then kind == Default && normal == "/"
               else if '*' in path then kind == Prefix && path == normal + "/*" && normal != ""
               else kind == Exact && normal == path)
  {
    hide ClassifyPath, WellFormed;
    if path == "/" {
      RootMeaning();
    } else if HasSuffix(path, "/*") {
      assert path == path[..|path| - 2] + "/*";
      PrefixMeaning(path[..|path| - 2], path);
    } else {
      PlainMeaning(path);
    }
  }

  lemma RootMeaning()
    ensures ClassifyPath("/") == Some((Default, "/")) && WellFormed("/")
  {
    hide Split;
    RootSegments();
    TrimSpaceOfTrimmed("/");
  }

  /** The same for a path that is not the root and does not end in a wildcard. */
  lemma PlainMeaning(path: string)
    requires path != "/" && !HasSuffix(path, "/*")
    ensures ClassifyPath(path).Some? <==> WellFormed(path)
    ensures ClassifyPath(path).Some? ==> ClassifyPath(path).value == (Exact, path) && '*' !in path
  {
    hide Split, TrimSpace, Contains, IsTrimmed;
    TrimmedIffFixed(path);
    DoubleSlashIff(path);
    StarSuffixIff(path);
    RootedIff(path);
    StarInSegments(path);
    var segs := Segments(path);
    var last := |segs| - 1;
    if '*' in segs[last] {
      StarAt(segs, |segs|, last);
    }
    if StarWithin(segs, last) {
      var k :| 0 <= k < last && '*' in segs[k];
      StarAt(segs, |segs|, k);
    }
    if StarWithin(segs, |segs|) && '*' !in segs[last] {
      var k :| 0 <= k < |segs| && '*' in segs[k];
      StarAt(segs, last, k);
    }
  }

  /** The same for a path that ends in a wildcard. */
  lemma PrefixMeaning(base: string, path: string)
    requires path == base + "/*"
    ensures ClassifyPath(path).Some? <==> WellFormed(path)
    ensures ClassifyPath(path).Some? ==> ClassifyPath(path).value == (Prefix, base) && base != "" && '*' in path
  {
    hide Split, TrimSpace, Contains, IsTrimmed;
    TrimmedIffFixed(path);
    DoubleSlashIff(path);
    StarSuffixIff(path);
    RootedIff(path);
    StarInSegments(base);
    assert path[..|path| - 2] == base && path[|path| - 2..] == "/*" && path[|path| - 1] == '*';
    BaseSegments(base, path);
    var segs, front := Segments(path), Segments(base);
    var last := |segs| - 1;
    assert last == |front| && segs[last] == "*" && '*' in segs[last];
    if StarWithin(front, last) {
      var k :| 0 <= k < last && '*' in front[k];
      StarAt(segs, last, k);
    }
    if StarWithin(segs, last) {
      var k :| 0 <= k < last && '*' in segs[k];
      StarAt(front, last, k);
    }
    if HasPrefix(path, "/") && !Contains(path, "//") {
      RootBaseDoubles(base, path);
      assert last >= 2 <==> base != "";
    }
  }

  lemma RootBaseDoubles(base: string, path: string)
    requires path == base + "/*"
    ensures base == "/" ==> Contains(path, "//")
  {
    if base == "/" {
      assert path == "" + "//" + "*";
    }
  }

  lemma RootSegments()
    ensures Segments("/") == ["", ""] && IsTrimmed("/")
  {
    assert "/" == "" + ['/'] + "";
    SplitFirst("", '/', "");
    SplitNone("", '/');
  }

  /** What the wildcard test of the base says about the segments. */
  lemma BaseSegments(base: string, path: string)
    requires path == base + "/*" && Segments(path) == Segments(base) + ["*"]
    ensures HasPrefix(path, "/") ==> (base == "" <==> |Segments(path)| == 2)
  {
    hide Split;
    if base == "" {
      SplitNone("", '/');
    } else if base == "/" {
      RootSegments();
    } else if HasPrefix(path, "/") {
      assert base[0] == path[0];
      RootedIff(base);
    }
  }

  // ----- which rule wins -----

  /** The rule's path, without the wildcard of a prefix rule. */
  function Base(rule: RouteRule): string {
    if '*' in rule.path && |rule.path| >= 2 then rule.path[..|rule.path| - 2] else rule.path
  }

  /** The rule's path lets the request path through: all for "/", its own segments and below for a wildcard, else
      itself. */
  predicate CoversPath(rule: RouteRule, path: string) {
    if rule.path == "/" then true
    else if '*' in rule.path then Segments(Base(rule)) <= Segments(path)
    else rule.path == path
  }

  predicate ForHost(rule: RouteRule, host: string) {
    NormalizeRouteHost(rule.host) == "" || NormalizeRouteHost(rule.host) == host
  }

  /** How specific a path is among those that let one request through: nothing for "/", its segments for a wildcard, and
      more than any wildcard for an exact path. */
  function Depth(rule: RouteRule): nat {
    if rule.path == "/" then 0
    else if '*' in rule.path then |Segments(Base(rule))|
    else |Segments(rule.path)| + 1
  }

  /** The first rule is preferred: it names the host and the other does not, or both do or none, and its path is more
      specific. */
  predicate Preferred(a: RouteRule, b: RouteRule) {
    var ownA, ownB := NormalizeRouteHost(a.host) != "", NormalizeRouteHost(b.host) != "";
    (ownA && !ownB) || (ownA == ownB && Depth(a) > Depth(b))
  }

  lemma CompiledMeaning(rule: RouteRule)
    ensures Compile(rule).Some? <==> WellFormed(rule.path)
    ensures Compile(rule).Some? ==>
              (var c := Compile(rule).value;
               && c.route == rule.(host := NormalizeRouteHost(rule.host), path := Base(rule))
               && c.kind == (if rule.path == "/" then Default else if '*' in rule.path then Prefix else Exact)
               && (c.kind == Prefix ==> rule.path == Base(rule) + "/*"))
  {
    hide ClassifyPath, WellFormed, NormalizeRouteHost;
    ClassifyMeaning(rule.path);
    if ClassifyPath(rule.path).Some? && '*' in rule.path && rule.path != "/" {
      var normal := ClassifyPath(rule.path).value.1;
      assert rule.path[..|rule.path| - 2] == normal;
    }
  }

  lemma AppliesMeaning(rule: RouteRule, host: string, path: string)
    requires Compile(rule).Some?
    ensures Applies(Compile(rule).value, host, path) <==> ForHost(rule, host) && CoversPath(rule, path)
  {
    hide PrefixCovers, Split, NormalizeRouteHost, Compile;
    CompiledMeaning(rule);
    CoversIff(Base(rule), path);
  }

  lemma BeatsMeaning(a: RouteRule, b: RouteRule, host: string, path: string)
    requires Compile(a).Some? && Compile(b).Some?
    requires Applies(Compile(a).value, host, path) && Applies(Compile(b).value, host, path)
    requires Beats(Compile(a).value, Compile(b).value)
    ensures Preferred(a, b)
  {
    hide PrefixCovers, Split, NormalizeRouteHost, Compile;
    CompiledMeaning(a);
    CompiledMeaning(b);
    CoversIff(Base(a), path);
    CoversIff(Base(b), path);
    var ca, cb := Compile(a).value, Compile(b).value;
    if ca.kind == Prefix && cb.kind == Prefix && |Base(a)| > |Base(b)| {
      LongerHasMore(Base(a), Base(b), path);
    }
  }

  /** A rule wins: it lets the request through and is preferred to every other rule that does. */
  predicate Wins(rules: seq<RouteRule>, i: nat, host: string, path: string)
    requires i < |rules|
  {
    && ForHost(rules[i], host) && CoversPath(rules[i], path)
    && forall j :: 0 <= j < |rules| && j != i && ForHost(rules[j], host) && CoversPath(rules[j], path) ==>
         Preferred(rules[i], rules[j])
  }

  /** Match, in terms of the rules as written: for rules and requests as the program has them there is an answer exactly
      when some rule lets the request through, and it is the rule that wins, under its normalised host and without its
      wildcard. */
  lemma MatchMeaning(rules: seq<RouteRule>, ix: Index, host: string, path: string)
    requires Buildable(rules) && Built(ix, CompileAll(rules)) && PlainRules(CompileAll(rules))
                 && PlainRequest(host, path)
    ensures var m := MatchIndex(ix, host, path);
            && (m.None? <==> forall i :: 0 <= i < |rules| ==> !(ForHost(rules[i], host) && CoversPath(rules[i], path)))
            && (m.Some? ==> exists i :: 0 <= i < |rules| && Wins(rules, i, host, path)
                              && m.value == rules[i].(host := NormalizeRouteHost(rules[i].host),
                                     path := Base(rules[i])))
  {
    hide MatchIndex, Built, PlainRules, PlainRequest, Compile, Applies, Beats, SlotOf, ForHost, CoversPath,
         Preferred, Base;
    var cs := CompileAll(rules);
    PlainMatchIsBest(ix, cs, host, path);
    var m := MatchIndex(ix, host, path);
    forall i | 0 <= i < |rules|
      ensures Applies(cs[i], host, path) <==> ForHost(rules[i], host) && CoversPath(rules[i], path)
    {
      AppliesMeaning(rules[i], host, path);
    }
    assert forall i :: 0 <= i < |cs| ==> cs[i] in cs;
    if m.Some? {
      var kind :| IsBest(cs, host, path, Compiled(kind, m.value));
      var i :| 0 <= i < |cs| && cs[i] == Compiled(kind, m.value);
      CompiledMeaning(rules[i]);
      BestWins(rules, i, host, path);
    }
  }

  lemma BestWins(rules: seq<RouteRule>, i: nat, host: string, path: string)
    requires Buildable(rules) && i < |rules| && IsBest(CompileAll(rules), host, path, CompileAll(rules)[i])
    ensures Wins(rules, i, host, path)
  {
    hide Compile, Applies, Beats, ForHost, CoversPath, Preferred, SlotOf;
    var cs := CompileAll(rules);
    AppliesMeaning(rules[i], host, path);
    forall j | 0 <= j < |rules| && j != i && ForHost(rules[j], host) && CoversPath(rules[j], path)
      ensures Preferred(rules[i], rules[j])
    {
      AppliesMeaning(rules[j], host, path);
      assert cs[j] in cs;
      assert SlotOf(cs[j]) != SlotOf(cs[i]);
      BeatsMeaning(rules[i], rules[j], host, path);
    }
  }

  /** No request that some rule lets through goes unanswered, whatever hosts and paths hold. */
  lemma NothingUnanswered(rules: seq<RouteRule>, ix: Index, i: nat, host: string, path: string)
    requires Buildable(rules) && Built(ix, CompileAll(rules)) && i < |rules|
    requires ForHost(rules[i], host) && CoversPath(rules[i], path)
    ensures MatchIndex(ix, host, path).Some?
  {
    hide Compile, SlotsDistinct, ForHost, CoversPath, PrefixCovers, WellKeyed;
    AppliesMeaning(rules[i], host, path);
    var c := Compile(rules[i]).value;
    assert c == CompileAll(rules)[i];
    assert Compiled(c.kind, c.route) in CompileAll(rules);
    assert Holds(ix, c.kind, c.route);
  }

  /** So a prefix rule for every host answers all requests for its own path and everything below it, and one for a host
      does the same for that host. */
  lemma PrefixRuleAnswers(rules: seq<RouteRule>, ix: Index, i: nat, base: string, below: string, host: string)
    requires Buildable(rules) && Built(ix, CompileAll(rules))
    requires i < |rules| && rules[i].path == base + "/*" && NormalizeRouteHost(rules[i].host) in {"", host}
    ensures MatchIndex(ix, host, base).Some? && MatchIndex(ix, host, base + "/" + below).Some?
  {
    hide MatchIndex, Buildable, Built, Split;
    assert Base(rules[i]) == base && rules[i].path[|base| + 1] == '*';
    var path := base + "/" + below;
    assert path == base + ['/'] + below;
    SplitConcat(base, '/', below);
    NothingUnanswered(rules, ix, i, host, base);
    NothingUnanswered(rules, ix, i, host, path);
  }

  // ----- the host of a request -----

  /** The text behind the last colon of an address. */
  predicate PortText(port: string) {
    ':' !in port && '[' !in port && ']' !in port
  }

  /** Which requests name a host with a port, and which host. */
  lemma SplitHostIff(address: string, host: string)
    ensures SplitHost(address) == Some(host)
            <==> '[' !in host && ']' !in host
                 && exists port :: PortText(port)
                      && (address == "[" + host + "]:" + port || (':' !in host && address == host + ":" + port))
  {
    hide SplitHost;
    if SplitHost(address) == Some(host) {
      var port := SplitShape(address, host);
    }
    if '[' !in host && ']' !in host
       && exists port :: PortText(port)
            && (address == "[" + host + "]:" + port || (':' !in host && address == host + ":" + port))
    {
      var port :| PortText(port)
                  && (address == "[" + host + "]:" + port || (':' !in host && address == host + ":" + port));
      AddressSplits(host, port);
    }
  }

  lemma FreeSlice(s: string, c: char, i: nat, j: nat)
    requires i <= j <= |s| && c !in s
    ensures c !in s[i..j]
  {
  }

  lemma SplitShape(address: string, host: string) returns (port: string)
    requires SplitHost(address) == Some(host)
    ensures '[' !in host && ']' !in host && PortText(port)
    ensures address == "[" + host + "]:" + port || (':' !in host && address == host + ":" + port)
  {
    var n, i := |address|, LastIndexOf(address, ':');
    port := address[i + 1..];
    if address[0] == '[' {
      var end := IndexOf(address, ']');
      var inner, tail := address[1..], address[end + 1..];
      FreeSlice(inner, '[', 0, end - 1);
      assert inner[0..end - 1] == host;
      FreeSlice(address[..end], ']', 1, end);
      assert address[..end][1..end] == host;
      FreeSlice(inner, '[', i, n - 1);
      assert inner[i..n - 1] == port;
      FreeSlice(tail, ']', 1, n - i);
      assert tail[1..n - i] == port;
      assert address == ("[" + host) + "]:" + port;
    } else {
      FreeSlice(address, '[', i + 1, n);
      FreeSlice(address, ']', i + 1, n);
      FreeSlice(address, '[', 0, i);
      FreeSlice(address, ']', 0, i);
      assert address[i + 1..n] == port && address[0..i] == host;
      assert address == host + ":" + port;
    }
  }

  lemma AddressSplits(host: string, port: string)
    requires '[' !in host && ']' !in host && PortText(port)
    ensures SplitHost("[" + host + "]:" + port) == Some(host)
    ensures ':' !in host ==> SplitHost(host + ":" + port) == Some(host)
  {
    hide LastIndexOf, IndexOf;
    LiteralCloses(host, ":" + port);
    var literal := "[" + host + "]:" + port;
    assert literal == "[" + host + "]" + (":" + port) && literal == ("[" + host + "]") + [':'] + port;
    LastIndexOfAfter("[" + host + "]", ':', port);
    if ':' !in host {
      LastIndexOfAfter(host, ':', port);
      var plain := host + ":" + port;
      assert plain[..|host|] == host;
      assert '[' !in plain && ']' !in plain;
    }
  }

  // ----- what the validator admits -----

  /** The labels of a host name. */
  function Labels(host: string): seq<string> {
    Split(host, '.')
  }

  /** A valid host: no empty label, no blank, slash or backslash. */
  lemma ValidHostIff(host: string)
    requires host != ""
    ensures RouteValidator.ValidRouteHost(host)
            <==> (forall k :: 0 <= k < |Labels(host)| ==> Labels(host)[k] != "")
                 && ' ' !in host && '/' !in host && '\\' !in host
  {
    hide Split, Contains;
    ContainsIff(host, "://");
    if Contains(host, "://") {
      var a, b :| host == a + "://" + b;
      assert host[|a| + 1] == '/';
    }
    EmptyLabelIff(host);
  }

  lemma EmptyLabelIff(host: string)
    requires host != ""
    ensures (exists k :: 0 <= k < |Labels(host)| && Labels(host)[k] == "")
            <==> HasPrefix(host, ".") || HasSuffix(host, ".") || Contains(host, "..")
  {
    hide Split, Contains, Join;
    var labels := Labels(host);
    JoinOfSplit(host, '.');
    ContainsIff(host, "..");
    if HasPrefix(host, ".") {
      assert host == "" + ['.'] + host[1..];
      SplitFirst("", '.', host[1..]);
      assert labels[0] == "";
    }
    if HasSuffix(host, ".") {
      assert host == host[..|host| - 1] + ['.'] + "";
      SplitConcat(host[..|host| - 1], '.', "");
      SplitNone("", '.');
      assert labels[|labels| - 1] == "";
    }
    if Contains(host, "..") {
      var a, b :| host == a + ".." + b;
      assert host == a + ['.'] + ("" + ['.'] + b);
      SplitConcat(a, '.', "" + ['.'] + b);
      SplitFirst("", '.', b);
      assert labels[|Labels(a)|] == "";
    }
    if k :| 0 <= k < |labels| && labels[k] == "" {
      EmptyLabelAt(host, k);
    }
  }

  lemma EmptyLabelAt(host: string, k: nat)
    requires host != "" && k < |Labels(host)| && Labels(host)[k] == ""
    ensures HasPrefix(host, ".") || HasSuffix(host, ".") || exists a, b :: host == a + ".." + b
  {
    hide Split, Join;
    var labels := Labels(host);
    JoinOfSplit(host, '.');
    var front, back := labels[..k], labels[k + 1..];
    assert labels == front + ([""] + back);
    assert labels == front + [""] + back;
    if front == [] && back == [] {
      assert labels == [""];
      JoinOne("", ['.']);
    } else if front == [] {
      assert labels == [""] + back;
      JoinCons("", back, ['.']);
    } else if back == [] {
      assert labels == front + [""];
      JoinAppend(front, [""], ['.']);
      JoinOne("", ['.']);
      assert host == Join(front, ['.']) + ".";
    } else {
      JoinAppend(front, [""] + back, ['.']);
      JoinCons("", back, ['.']);
      assert host == Join(front, ['.']) + ".." + Join(back, ['.']);
    }
  }

  /** The fault that is reported for a rule: the first of host, missing path, missing target, bad target and bad
      path. */
  lemma FaultMeaning(rule: RouteRule, okTarget: string -> bool)
    ensures var fault := RouteValidator.FaultOf(rule, okTarget);
            var host, path, target := NormalizeRouteHost(rule.host), TrimSpace(rule.path), TrimSpace(rule.target);
            var badHost := host != "" && ((exists k :: 0 <= k < |Labels(host)| && Labels(host)[k] == "")
                                          || ' ' in host || '/' in host || '\\' in host);
            && (badHost ==> fault == Some(RouteValidator.BadHost))
            && (!badHost && path == "" ==> fault == Some(RouteValidator.PathRequired))
            && (!badHost && path != "" && target == "" ==> fault == Some(RouteValidator.TargetRequired))
            && (!badHost && path != "" && target != "" && !okTarget(target) ==> fault == Some(RouteValidator.BadTarget))
            && (!badHost && path != "" && target != "" && okTarget(target) ==>
                  fault == if WellFormed(path) then None else Some(RouteValidator.BadPath))
  {
    hide ClassifyPath, RouteValidator.NormalizeRoutePath, RouteValidator.ValidRouteHost, WellFormed, TrimSpace, Split;
    var host, path := NormalizeRouteHost(rule.host), TrimSpace(rule.path);
    if host != "" {
      ValidHostIff(host);
    }
    TrimSpaceShape(rule.path);
    TrimSpaceOfTrimmed(path);
    RouteValidator.GrammarsAgree(path);
    ClassifyMeaning(path);
  }
}
