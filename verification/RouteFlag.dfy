/** The `--cf-route` option language: `path=target[,key=value]...`.
    Known options are stripped from the right, so a target may itself contain commas. */
module RouteFlag {
  import opened Results
  import opened Routes
  import opened Text

  datatype SetError =
    | EmptyRule
    | NotPathEqualsTarget
    | EmptyOption
    | MissingPathOrTarget
    | UnsupportedOption(key: string)
    | OptionNotKeyValue(field: string)
    | DuplicatedOption(key: string)
    | NotBoolean(key: string)

  /** The supported option keys, and their spelling. */
  datatype OptionKey = Host | StripPathPrefix | OriginServerName | OriginInsecureSkipVerify | PassHostHeader

  function KeyText(key: OptionKey): string {
    match key
    case Host => "host"
    case StripPathPrefix => "strip_path_prefix"
    case OriginServerName => "origin_server_name"
    case OriginInsecureSkipVerify => "origin_insecure_skip_verify"
    case PassHostHeader => "pass_host_header"
  }

  function SupportedKey(text: string): Option<OptionKey> {
    if text == "host" then Some(Host)
    else if text == "strip_path_prefix" then Some(StripPathPrefix)
    else if text == "origin_server_name" then Some(OriginServerName)
    else if text == "origin_insecure_skip_verify" then Some(OriginInsecureSkipVerify)
    else if text == "pass_host_header" then Some(PassHostHeader)
    else None
  }

  lemma SupportedKeyOfText(key: OptionKey)
    ensures SupportedKey(KeyText(key)) == Some(key)
  {
  }

  predicate IsRemovedRouteOptionKey(key: string) {
    key == "server_name" || key == "insecure_skip_verify"
  }

  /** A trimmed field read as `key=value`, when both sides of its first '=' are non-empty. */
  function KeyValue(field: string): Option<(string, string)> {
    var i := IndexOf(field, '=');
    if i <= 0 || i >= |field| - 1 then None
    else Some((ToLower(TrimSpace(field[..i])), TrimSpace(field[i + 1..])))
  }

  predicate IsOptionField(field: string) {
    KeyValue(field).Some? && SupportedKey(KeyValue(field).value.0).Some?
  }

  predicate IsRemovedField(field: string) {
    KeyValue(TrimSpace(field)).Some? && IsRemovedRouteOptionKey(KeyValue(TrimSpace(field)).value.0)
  }

  // ----- the parser, as a function -----

  datatype Stripped = Stripped(targetFields: seq<string>, optionFields: seq<string>)

  /** Take known options off the right end; the first field is never an option. */
  function StripOptions(fields: seq<string>): (r: Result<Stripped, SetError>)
    requires fields != []
    ensures r.Ok? ==> r.value.targetFields != [] && r.value.targetFields <= fields
  {
    if |fields| == 1 then Ok(Stripped(fields, []))
    else
      var n := |fields| - 1;
      var field := TrimSpace(fields[n]);
      if field == "" then Err(EmptyOption)
      else if !IsOptionField(field) then Ok(Stripped(fields, []))
      else
        match StripOptions(fields[..n])
        case Ok(s) => Ok(Stripped(s.targetFields, s.optionFields + [field]))
        case Err(e) => Err(e)
  }

  function FirstRemoved(fields: seq<string>): Option<string> {
    if fields == [] then None
    else if IsRemovedField(fields[0]) then Some(KeyValue(TrimSpace(fields[0])).value.0)
    else FirstRemoved(fields[1..])
  }

  function ParseBool(value: string): Option<bool> {
    if value == "true" then Some(true)
    else if value == "false" then Some(false)
    else None
  }

  function ApplyOption(route: RouteRule, text: string, value: string): Result<RouteRule, SetError> {
    match SupportedKey(text)
    case None => Err(UnsupportedOption(text))
    case Some(Host) => Ok(route.(host := ToLower(TrimSpace(value))))
    case Some(OriginServerName) => Ok(route.(originServerName := value))
    case Some(flag) =>
      match ParseBool(value)
      case None => Err(NotBoolean(text))
      case Some(b) =>
        Ok(if flag == StripPathPrefix then route.(stripPathPrefix := b)
           else if flag == OriginInsecureSkipVerify then
             route.(insecureSkipVerify := b, insecureSkipVerifySet := true)
           else route.(passHostHeader := b, passHostHeaderSet := true))
  }

  function ApplyOptions(route: RouteRule, seen: set<string>, fields: seq<string>): Result<RouteRule, SetError>
    decreases |fields|
  {
    if fields == [] then Ok(route)
    else
      var field := TrimSpace(fields[0]);
      match KeyValue(field)
      case None => Err(OptionNotKeyValue(field))
      case Some(kv) =>
        if kv.0 in seen then Err(DuplicatedOption(kv.0))
        else
          match ApplyOption(route, kv.0, kv.1)
          case Err(e) => Err(e)
          case Ok(route') => ApplyOptions(route', seen + {kv.0}, fields[1..])
  }

  function TargetOnly(target: string): RouteRule {
    RouteRule("", "", target, false, "", false, false, false, false)
  }

  function RouteTargetOptions(v: string): Result<RouteRule, SetError> {
    match StripOptions(Split(v, ','))
    case Err(e) => Err(e)
    case Ok(s) =>
      var target := TrimSpace(Join(s.targetFields, ","));
      if target == "" then Err(MissingPathOrTarget)
      else
        match FirstRemoved(s.targetFields[1..])
        case Some(key) => Err(UnsupportedOption(key))
        case None => ApplyOptions(TargetOnly(target), {}, s.optionFields)
  }

  /** The rule one flag value denotes. */
  function ParseRule(v: string): Result<RouteRule, SetError> {
    var v := TrimSpace(v);
    if v == "" then Err(EmptyRule)
    else
      var i := IndexOf(v, '=');
      if i <= 0 || i >= |v| - 1 then Err(NotPathEqualsTarget)
      else
        var path := TrimSpace(v[..i]);
        match RouteTargetOptions(TrimSpace(v[i + 1..]))
        case Err(e) => Err(e)
        case Ok(route) =>
          if path == "" || route.target == "" then Err(MissingPathOrTarget)
          else Ok(route.(path := path))
  }

  // ----- the printer, as a function -----

  function BoolText(b: bool): string {
    if b then "true" else "false"
  }

  lemma ParseBoolOfText(b: bool)
    ensures ParseBool(BoolText(b)) == Some(b)
    ensures BoolText(b) != "" && IsTrimmed(BoolText(b)) && ',' !in BoolText(b)
  {
  }

  function Assignment(key: OptionKey, value: string): string {
    KeyText(key) + "=" + value
  }

  /** At most one option, printed when `shown`. */
  function OptionIf(shown: bool, key: OptionKey, value: string): seq<string> {
    if shown then [Assignment(key, value)] else []
  }

  function OptionTexts(rule: RouteRule): seq<string> {
    OptionIf(rule.host != "", Host, rule.host)
    + (OptionIf(rule.stripPathPrefix, StripPathPrefix, BoolText(true))
       + (OptionIf(rule.originServerName != "", OriginServerName, rule.originServerName)
          + (OptionIf(rule.insecureSkipVerifySet, OriginInsecureSkipVerify, BoolText(rule.insecureSkipVerify))
             + OptionIf(rule.passHostHeaderSet, PassHostHeader, BoolText(rule.passHostHeader)))))
  }

  function PrintRule(rule: RouteRule): string {
    rule.path + "=" + Join([rule.target] + OptionTexts(rule), ",")
  }

  // ----- what the parser can produce -----

  /** The target keeps its commas, but its last field must not look like an option. */
  predicate PrintableTarget(target: string) {
    var fields := Split(target, ',');
    && target != "" && IsTrimmed(target)
    && (|fields| > 1 ==> TrimSpace(fields[|fields| - 1]) != "" && !IsOptionField(TrimSpace(fields[|fields| - 1])))
    && FirstRemoved(fields[1..]) == None
  }

  predicate PrintableOptions(rule: RouteRule) {
    && IsTrimmed(rule.host) && ',' !in rule.host && ToLower(rule.host) == rule.host
    && IsTrimmed(rule.originServerName) && ',' !in rule.originServerName
    && (rule.insecureSkipVerify ==> rule.insecureSkipVerifySet)
    && (rule.passHostHeader ==> rule.passHostHeaderSet)
  }

  /** Rules that some flag value denotes; see `ParsedIsPrintable` and `PrintThenParse`. */
  predicate Printable(rule: RouteRule) {
    && rule.path != "" && IsTrimmed(rule.path) && '=' !in rule.path
    && PrintableTarget(rule.target)
    && PrintableOptions(rule)
  }

  // ----- parsing gives printable rules -----

  lemma {:induction false} StripOptionsSplits(fields: seq<string>)
    requires fields != []
    requires StripOptions(fields).Ok?
    ensures var s := StripOptions(fields).value;
            && |s.targetFields| + |s.optionFields| == |fields|
            && (forall i :: 0 <= i < |s.optionFields| ==> s.optionFields[i] == TrimSpace(fields[|s.targetFields| + i]))
            && (|s.targetFields| > 1 ==>
                  var last := TrimSpace(s.targetFields[|s.targetFields| - 1]);
                  last != "" && !IsOptionField(last))
  {
    hide IsOptionField, TrimSpace;
    var n := |fields| - 1;
    if n > 0 && IsOptionField(TrimSpace(fields[n])) {
      StripOptionsSplits(fields[..n]);
    }
  }

  lemma TrimRightOfJoin(a: string, b: string)
    requires TrimRight(b) != ""
    ensures TrimRight(a + b) == a + TrimRight(b)
  {
    TrimRightShape(b);
    var t := TrimRight(b);
    TrimRightSpaces(a + t, b[|t|..]);
    assert a + b == (a + t) + b[|t|..];
  }

  lemma TrimNonEmpty(s: string)
    requires TrimSpace(s) != ""
    ensures TrimRight(s) != ""
  {
  }

  /** Removing white space from the right end of the last field only changes that field's end. */
  lemma FirstRemovedOfTrimmedLast(fields: seq<string>, n: nat)
    requires n < |fields|
    ensures FirstRemoved(fields[n := TrimRight(fields[n])]) == FirstRemoved(fields)
    decreases |fields|
  {
    TrimSpaceOfTrimRight(fields[n]);
    var fields' := fields[n := TrimRight(fields[n])];
    if n == 0 {
      assert fields'[1..] == fields[1..];
    } else {
      FirstRemovedOfTrimmedLast(fields[1..], n - 1);
      assert fields'[1..] == fields[1..][n - 1 := TrimRight(fields[1..][n - 1])];
    }
  }

  /** The target text splits back into the target fields, the last one right-trimmed. */
  lemma TargetSplits(v: string, fields: seq<string>, n: nat)
    requires IsTrimmed(v) && fields == Split(v, ',') && 1 <= n <= |fields|
    requires n > 1 ==> TrimSpace(fields[n - 1]) != ""
    requires TrimSpace(Join(fields[..n], ",")) != ""
    ensures var target := TrimSpace(Join(fields[..n], ","));
            IsTrimmed(target) && Split(target, ',') == fields[..n][n - 1 := TrimRight(fields[n - 1])]
  {
    hide TrimSpace, TrimRight, Join, Split, IsTrimmed;
    var tf := fields[..n];
    var text := Join(tf, ",");
    var last := tf[n - 1];
    TargetStartsTrimmed(v, fields, n);
    TrimSpaceOfLeftTrimmed(text);
    TrimSpaceShape(text);
    assert TrimRight(last) != "" by {
      if n > 1 { TrimNonEmpty(last); } else { assert tf == [last]; JoinOne(last, ","); TrimNonEmpty(text); }
    }
    TrimRightShape(last);
    var tf' := tf[n - 1 := TrimRight(last)];
    TrimRightOfLast(tf);
    SplitOfJoin(tf', ',');
  }

  lemma TargetStartsTrimmed(v: string, fields: seq<string>, n: nat)
    requires IsTrimmed(v) && fields == Split(v, ',') && 1 <= n <= |fields|
    ensures var text := Join(fields[..n], ","); text != "" ==> !IsSpace(text[0])
  {
    hide Split;
    var tf := fields[..n];
    JoinOfSplit(v, ',');
    if n < |fields| {
      JoinAppend(tf, fields[n..], ",");
      assert tf + fields[n..] == fields;
    } else {
      assert tf == fields;
    }
    assert Join(tf, ",") <= v;
  }

  lemma TrimRightOfLast(tf: seq<string>)
    requires tf != [] && TrimRight(tf[|tf| - 1]) != ""
    ensures TrimRight(Join(tf, ",")) == Join(tf[|tf| - 1 := TrimRight(tf[|tf| - 1])], ",")
  {
    hide TrimRight;
    var n := |tf|;
    var last := tf[n - 1];
    var tf' := tf[n - 1 := TrimRight(last)];
    if n == 1 {
      assert tf' == [TrimRight(last)];
    } else {
      JoinAppend(tf[..n - 1], [last], ",");
      assert tf == tf[..n - 1] + [last];
      JoinAppend(tf[..n - 1], [TrimRight(last)], ",");
      assert tf' == tf[..n - 1] + [TrimRight(last)];
      TrimRightOfJoin(Join(tf[..n - 1], ",") + ",", last);
    }
  }

  lemma ParsedTargetIsPrintable(v: string)
    requires IsTrimmed(v) && RouteTargetOptions(v).Ok?
    ensures var s := StripOptions(Split(v, ',')).value;
            PrintableTarget(TrimSpace(Join(s.targetFields, ",")))
  {
    hide IsOptionField, TrimSpace, FirstRemoved, StripOptions, ApplyOptions, Split, Join, TrimRight, IsTrimmed;
    var fields := Split(v, ',');
    var s := StripOptions(fields).value;
    var tf := s.targetFields;
    var n := |tf|;
    StripOptionsSplits(fields);
    assert tf == fields[..n];
    TargetSplits(v, fields, n);
    TrimSpaceOfTrimRight(fields[n - 1]);
    var split := Split(TrimSpace(Join(tf, ",")), ',');
    assert split == tf[n - 1 := TrimRight(tf[n - 1])];
    if n > 1 {
      FirstRemovedOfTrimmedLast(tf[1..], n - 2);
      assert split[1..] == tf[1..][n - 2 := TrimRight(tf[1..][n - 2])];
    } else {
      assert split[1..] == tf[1..];
    }
  }

  predicate GoodValue(value: string) {
    value != "" && IsTrimmed(value) && ',' !in value
  }

  lemma ValueShape(field: string)
    requires IsTrimmed(field) && ',' !in field
    ensures KeyValue(field).Some? ==> GoodValue(KeyValue(field).value.1)
  {
    hide TrimSpace;
    if KeyValue(field).None? {
      return;
    }
    var i := IndexOf(field, '=');
    var rest := field[i + 1..];
    TrimSpaceShape(rest);
    TrimSpaceKeepsFree(rest, ',');
    assert rest[|rest| - 1] == field[|field| - 1];
    EndsNonSpace(rest);
  }

  lemma EndsNonSpace(s: string)
    requires s != "" && !IsSpace(s[|s| - 1])
    ensures TrimSpace(s) != ""
  {
    TrimLeftShape(s);
    assert TrimRight(s) == s;
  }

  lemma AppliedOptionPrintable(route: RouteRule, key: string, value: string)
    requires PrintableOptions(route)
    requires IsTrimmed(value) && ',' !in value
    requires ApplyOption(route, key, value).Ok?
    ensures PrintableOptions(ApplyOption(route, key, value).value)
    ensures ApplyOption(route, key, value).value.target == route.target
    ensures ApplyOption(route, key, value).value.path == route.path
  {
    hide SupportedKey, ParseBool, ToLower, IsTrimmed, TrimSpace;
    TrimmedIffFixed(value);
    ToLowerKeepsTrimmed(value);
    ToLowerKeepsFree(value, ',');
    ToLowerIdempotent(value);
  }

  lemma {:induction false} AppliedOptionsPrintable(route: RouteRule, seen: set<string>, fields: seq<string>)
    requires PrintableOptions(route)
    requires forall i :: 0 <= i < |fields| ==> ',' !in fields[i]
    requires ApplyOptions(route, seen, fields).Ok?
    ensures PrintableOptions(ApplyOptions(route, seen, fields).value)
    ensures ApplyOptions(route, seen, fields).value.target == route.target
    ensures ApplyOptions(route, seen, fields).value.path == route.path
    decreases |fields|
  {
    hide ApplyOption, KeyValue, PrintableOptions, TrimSpace, IsTrimmed;
    if fields != [] {
      var field := TrimSpace(fields[0]);
      TrimSpaceShape(fields[0]);
      TrimSpaceKeepsFree(fields[0], ',');
      ValueShape(field);
      var kv := KeyValue(field).value;
      AppliedOptionPrintable(route, kv.0, kv.1);
      var route' := ApplyOption(route, kv.0, kv.1).value;
      AppliedOptionsPrintable(route', seen + {kv.0}, fields[1..]);
    }
  }

  /** Every rule the parser accepts is printable. */
  lemma ParsedIsPrintable(v: string)
    ensures ParseRule(v).Ok? ==> Printable(ParseRule(v).value)
  {
    hide ApplyOptions, PrintableTarget, TrimSpace, StripOptions, Split, Join, FirstRemoved;
    if ParseRule(v).Err? {
      return;
    }
    var t := TrimSpace(v);
    var i := IndexOf(t, '=');
    var rest := TrimSpace(t[i + 1..]);
    TrimSpaceShape(t[..i]);
    TrimSpaceKeepsFree(t[..i], '=');
    TrimSpaceShape(t[i + 1..]);
    ParsedTargetIsPrintable(rest);
    var fields := Split(rest, ',');
    var s := StripOptions(fields).value;
    StripOptionsSplits(fields);
    forall k | 0 <= k < |s.optionFields| ensures ',' !in s.optionFields[k] {
      TrimSpaceKeepsFree(fields[|s.targetFields| + k], ',');
    }
    var start := TargetOnly(TrimSpace(Join(s.targetFields, ",")));
    assert PrintableOptions(start);
    AppliedOptionsPrintable(start, {}, s.optionFields);
  }

  // ----- printing then parsing is the identity on printable rules -----

  predicate PlainKey(key: string) {
    key != "" && forall i :: 0 <= i < |key| ==> 'a' <= key[i] <= 'z' || key[i] == '_'
  }

  lemma LongKeysArePlain()
    ensures PlainKey("origin_server_name") && PlainKey("pass_host_header")
  {
  }

  lemma LongestKeyIsPlain()
    ensures PlainKey("origin_insecure_skip_verify")
  {
  }

  lemma KeyTextIsPlain(key: OptionKey)
    ensures PlainKey(KeyText(key))
  {
    LongKeysArePlain();
    LongestKeyIsPlain();
  }

  lemma KeyValueOfText(key: string, value: string)
    requires PlainKey(key) && GoodValue(value)
    ensures IsTrimmed(key + "=" + value) && ',' !in key + "=" + value
    ensures KeyValue(key + "=" + value) == Some((key, value))
  {
    var field := key + "=" + value;
    assert forall i :: 0 <= i < |key| ==> key[i] != '=' && key[i] != ',' && !IsSpace(key[i]);
    IndexOfAfter(key, '=', value);
    assert field[..|key|] == key && field[|key| + 1..] == value;
    TrimSpaceOfTrimmed(key);
    TrimSpaceOfTrimmed(value);
    assert ToLower(key) == key;
  }

  predicate OptionText(text: string) {
    IsTrimmed(text) && text != "" && ',' !in text && IsOptionField(text)
  }

  lemma AssignmentIsOption(key: OptionKey, value: string)
    requires GoodValue(value)
    ensures OptionText(Assignment(key, value))
    ensures KeyValue(Assignment(key, value)) == Some((KeyText(key), value))
  {
    hide KeyText, SupportedKey, KeyValue;
    KeyTextIsPlain(key);
    KeyValueOfText(KeyText(key), value);
    SupportedKeyOfText(key);
  }

  /** One step of reading options, when the next one was printed for `key`. */
  lemma ReadOption(route: RouteRule, seen: set<string>, key: OptionKey, value: string, rest: seq<string>)
    requires GoodValue(value) && KeyText(key) !in seen
    requires ApplyOption(route, KeyText(key), value).Ok?
    ensures ApplyOptions(route, seen, [Assignment(key, value)] + rest)
         == ApplyOptions(ApplyOption(route, KeyText(key), value).value, seen + {KeyText(key)}, rest)
  {
    hide KeyText, SupportedKey, KeyValue, ApplyOption, TrimSpace;
    AssignmentIsOption(key, value);
    TrimSpaceOfTrimmed(Assignment(key, value));
    assert ([Assignment(key, value)] + rest)[1..] == rest;
  }

  lemma OptionIfIsOptions(shown: bool, key: OptionKey, value: string)
    requires shown ==> GoodValue(value)
    ensures forall i :: 0 <= i < |OptionIf(shown, key, value)| ==> OptionText(OptionIf(shown, key, value)[i])
  {
    hide OptionText, Assignment;
    if shown { AssignmentIsOption(key, value); }
  }

  lemma OptionTextsAreOptions(rule: RouteRule)
    requires PrintableOptions(rule)
    ensures forall i :: 0 <= i < |OptionTexts(rule)| ==> OptionText(OptionTexts(rule)[i])
  {
    hide OptionText, OptionIf, BoolText;
    ParseBoolOfText(true);
    ParseBoolOfText(rule.insecureSkipVerify);
    ParseBoolOfText(rule.passHostHeader);
    OptionIfIsOptions(rule.host != "", Host, rule.host);
    OptionIfIsOptions(rule.stripPathPrefix, StripPathPrefix, BoolText(true));
    OptionIfIsOptions(rule.originServerName != "", OriginServerName, rule.originServerName);
    OptionIfIsOptions(rule.insecureSkipVerifySet, OriginInsecureSkipVerify, BoolText(rule.insecureSkipVerify));
    OptionIfIsOptions(rule.passHostHeaderSet, PassHostHeader, BoolText(rule.passHostHeader));
  }

  lemma {:induction false} StripPrintedOptions(fields: seq<string>, options: seq<string>)
    requires fields != []
    requires StripOptions(fields) == Ok(Stripped(fields, []))
    requires forall i :: 0 <= i < |options| ==> OptionText(options[i])
    ensures StripOptions(fields + options) == Ok(Stripped(fields, options))
  {
    hide IsOptionField, TrimSpace;
    if options == [] {
      assert fields + options == fields;
    } else {
      var m := |options| - 1;
      StripPrintedOptions(fields, options[..m]);
      assert (fields + options)[..|fields| + m] == fields + options[..m];
      TrimSpaceOfTrimmed(options[m]);
      assert options[..m] + [options[m]] == options;
    }
  }

  function SeenIf(seen: set<string>, shown: bool, key: OptionKey): set<string> {
    if shown then seen + {KeyText(key)} else seen
  }

  /** Reading an optional option: `then` is the route after it, when it was printed. */
  lemma ReadOptionIf(route: RouteRule, then_: RouteRule, seen: set<string>, shown: bool, key: OptionKey, value: string,
                     rest: seq<string>)
    requires shown ==> GoodValue(value) && KeyText(key) !in seen && ApplyOption(route, KeyText(key), value) == Ok(then_)
    requires !shown ==> route == then_
    ensures ApplyOptions(route, seen, OptionIf(shown, key, value) + rest)
         == ApplyOptions(then_, SeenIf(seen, shown, key), rest)
  {
    hide KeyText, ApplyOption, ApplyOptions, Assignment, GoodValue;
    if shown {
      ReadOption(route, seen, key, value, rest);
    } else {
      assert OptionIf(shown, key, value) + rest == rest;
    }
  }

  lemma ApplyText(route: RouteRule, key: OptionKey, value: string)
    ensures key == Host && IsTrimmed(value) && ToLower(value) == value ==>
              ApplyOption(route, KeyText(key), value) == Ok(route.(host := value))
    ensures key == OriginServerName ==>
              ApplyOption(route, KeyText(key), value) == Ok(route.(originServerName := value))
  {
    hide SupportedKey, KeyText, ToLower;
    SupportedKeyOfText(key);
    TrimmedIffFixed(value);
  }

  lemma ApplyFlag(route: RouteRule, key: OptionKey, b: bool)
    ensures key == StripPathPrefix ==>
              ApplyOption(route, KeyText(key), BoolText(b)) == Ok(route.(stripPathPrefix := b))
    ensures key == OriginInsecureSkipVerify ==>
              (ApplyOption(route, KeyText(key), BoolText(b))
               == Ok(route.(insecureSkipVerify := b, insecureSkipVerifySet := true)))
    ensures key == PassHostHeader ==>
              (ApplyOption(route, KeyText(key), BoolText(b))
               == Ok(route.(passHostHeader := b, passHostHeaderSet := true)))
  {
    hide SupportedKey, KeyText, ParseBool, BoolText, TrimSpace, ToLower;
    SupportedKeyOfText(key);
    ParseBoolOfText(b);
  }

  lemma KeyTextsDiffer(a: OptionKey, b: OptionKey)
    requires a != b
    ensures KeyText(a) != KeyText(b)
  {
    SupportedKeyOfText(a);
    SupportedKeyOfText(b);
  }

  /** Reading back the printed options restores the rule's fields. */
  lemma ReadPrintedOptions(rule: RouteRule)
    requires PrintableOptions(rule)
    ensures ApplyOptions(TargetOnly(rule.target), {}, OptionTexts(rule)) == Ok(rule.(path := ""))
  {
    hide KeyText, ApplyOption, BoolText, OptionIf, IsTrimmed, ToLower;
    var t4 := OptionIf(rule.passHostHeaderSet, PassHostHeader, BoolText(rule.passHostHeader));
    var t3 := OptionIf(rule.insecureSkipVerifySet, OriginInsecureSkipVerify, BoolText(rule.insecureSkipVerify)) + t4;
    var t2 := OptionIf(rule.originServerName != "", OriginServerName, rule.originServerName) + t3;
    var t1 := OptionIf(rule.stripPathPrefix, StripPathPrefix, BoolText(true)) + t2;
    var r0 := TargetOnly(rule.target);
    var r1 := r0.(host := rule.host);
    var r2 := r1.(stripPathPrefix := rule.stripPathPrefix);
    var r3 := r2.(originServerName := rule.originServerName);
    var r4 := r3.(insecureSkipVerify := rule.insecureSkipVerify, insecureSkipVerifySet := rule.insecureSkipVerifySet);
    var r5 := r4.(passHostHeader := rule.passHostHeader, passHostHeaderSet := rule.passHostHeaderSet);
    var s1 := SeenIf({}, rule.host != "", Host);
    var s2 := SeenIf(s1, rule.stripPathPrefix, StripPathPrefix);
    var s3 := SeenIf(s2, rule.originServerName != "", OriginServerName);
    var s4 := SeenIf(s3, rule.insecureSkipVerifySet, OriginInsecureSkipVerify);
    forall a: OptionKey, b: OptionKey | a != b ensures KeyText(a) != KeyText(b) {
      KeyTextsDiffer(a, b);
    }
    ApplyText(r0, Host, rule.host);
    ReadOptionIf(r0, r1, {}, rule.host != "", Host, rule.host, t1);
    ParseBoolOfText(true);
    ApplyFlag(r1, StripPathPrefix, true);
    ReadOptionIf(r1, r2, s1, rule.stripPathPrefix, StripPathPrefix, BoolText(true), t2);
    ApplyText(r2, OriginServerName, rule.originServerName);
    ReadOptionIf(r2, r3, s2, rule.originServerName != "", OriginServerName, rule.originServerName, t3);
    ParseBoolOfText(rule.insecureSkipVerify);
    ApplyFlag(r3, OriginInsecureSkipVerify, rule.insecureSkipVerify);
    ReadOptionIf(r3, r4, s3, rule.insecureSkipVerifySet, OriginInsecureSkipVerify,
                 BoolText(rule.insecureSkipVerify), t4);
    ParseBoolOfText(rule.passHostHeader);
    ApplyFlag(r4, PassHostHeader, rule.passHostHeader);
    ReadOptionIf(r4, r5, s4, rule.passHostHeaderSet, PassHostHeader, BoolText(rule.passHostHeader), []);
    assert t4 + [] == t4;
  }

  lemma ReadPrintedTarget(rule: RouteRule)
    requires Printable(rule)
    ensures var text := Join([rule.target] + OptionTexts(rule), ",");
            && text != "" && IsTrimmed(text) && rule.target != ""
            && RouteTargetOptions(text) == Ok(rule.(path := ""))
  {
    hide OptionTexts, IsOptionField, ApplyOptions, TrimSpace, FirstRemoved, Split;
    var options := OptionTexts(rule);
    var fields := Split(rule.target, ',');
    var text := Join([rule.target] + options, ",");
    OptionTextsAreOptions(rule);
    JoinOfSplit(rule.target, ',');
    if options == [] {
      assert [rule.target] + options == [rule.target];
      assert fields + options == fields;
    } else {
      JoinAppend([rule.target], options, ",");
      JoinAppend(fields, options, ",");
      JoinEndsTrimmed(options);
    }
    assert text == Join(fields + options, ",");
    SplitOfJoin(fields + options, ',');
    StripPrintedOptions(fields, options);
    TrimSpaceOfTrimmed(rule.target);
    ReadPrintedOptions(rule);
  }

  lemma {:induction false} JoinEndsTrimmed(options: seq<string>)
    requires options != []
    requires forall i :: 0 <= i < |options| ==> OptionText(options[i])
    ensures Join(options, ",") != "" && !IsSpace(Join(options, ",")[|Join(options, ",")| - 1])
  {
    if |options| > 1 {
      JoinEndsTrimmed(options[1..]);
    }
  }

  /** Every printable rule is read back field for field. */
  lemma PrintThenParse(rule: RouteRule)
    requires Printable(rule)
    ensures ParseRule(PrintRule(rule)) == Ok(rule)
  {
    hide OptionTexts, RouteTargetOptions, TrimSpace, Join, PrintableTarget, PrintableOptions;
    var text := Join([rule.target] + OptionTexts(rule), ",");
    var v := PrintRule(rule);
    ReadPrintedTarget(rule);
    assert v[0] == rule.path[0] && v[|v| - 1] == text[|text| - 1];
    TrimSpaceOfTrimmed(v);
    IndexOfAfter(rule.path, '=', text);
    assert v[..|rule.path|] == rule.path && v[|rule.path| + 1..] == text;
    TrimSpaceOfTrimmed(rule.path);
    TrimSpaceOfTrimmed(text);
  }

  /** Parse, print, parse is stable: nothing a flag value said is lost or reinterpreted. */
  lemma ParsePrintParse(v: string, rule: RouteRule)
    ensures ParseRule(v) == Ok(rule) ==> ParseRule(PrintRule(rule)) == Ok(rule)
  {
    hide ParseRule, PrintRule, Printable;
    if ParseRule(v) == Ok(rule) {
      ParsedIsPrintable(v);
      PrintThenParse(rule);
    }
  }

  /** The parser's image is exactly the printable rules. */
  lemma PrintableIffParsed(rule: RouteRule)
    ensures Printable(rule) <==> exists v :: ParseRule(v) == Ok(rule)
  {
    if Printable(rule) {
      PrintThenParse(rule);
    }
    if v :| ParseRule(v) == Ok(rule) {
      ParsedIsPrintable(v);
    }
  }

  // ----- the flag value itself -----

  /** `rejectRemovedRouteOptionKeys`: the first field that uses a removed key, if any. */
  method RejectRemovedRouteOptionKeys(fields: seq<string>) returns (err: Option<SetError>)
    ensures err == match FirstRemoved(fields) case None => None case Some(key) => Some(UnsupportedOption(key))
  {
    hide KeyValue, TrimSpace;
    for k := 0 to |fields|
      invariant FirstRemoved(fields) == FirstRemoved(fields[k..])
    {
      if IsRemovedField(fields[k]) {
        return Some(UnsupportedOption(KeyValue(TrimSpace(fields[k])).value.0));
      }
      assert fields[k..][1..] == fields[k + 1..];
    }
    return None;
  }

  method ParseRouteTargetOptions(v: string) returns (r: Result<RouteRule, SetError>)
    ensures r == RouteTargetOptions(v)
  {
    hide KeyValue, TrimSpace, IsOptionField, Split, Join, ApplyOption, FirstRemoved;
    var fields := Split(v, ',');
    var targetFields := fields;
    var optionFields: seq<string> := [];
    ghost var stripped := StripOptions(fields);
    AddNoOptions(stripped);
    while |targetFields| > 1
      invariant targetFields != []
      invariant stripped == AddOptions(StripOptions(targetFields), optionFields)
      decreases |targetFields|
    {
      var field := TrimSpace(targetFields[|targetFields| - 1]);
      if field == "" {
        return Err(EmptyOption);
      }
      if !IsOptionField(field) {
        break;
      }
      AddOptionsTwice(StripOptions(targetFields[..|targetFields| - 1]), [field], optionFields);
      optionFields := [field] + optionFields;
      targetFields := targetFields[..|targetFields| - 1];
    }
    assert [] + optionFields == optionFields;

    var target := TrimSpace(Join(targetFields, ","));
    if target == "" {
      return Err(MissingPathOrTarget);
    }
    var removed := RejectRemovedRouteOptionKeys(targetFields[1..]);
    if removed.Some? {
      return Err(removed.value);
    }

    var route := TargetOnly(target);
    var seen: set<string> := {};
    for k := 0 to |optionFields|
      invariant ApplyOptions(TargetOnly(target), {}, optionFields) == ApplyOptions(route, seen, optionFields[k..])
    {
      var field := TrimSpace(optionFields[k]);
      var kv := KeyValue(field);
      if kv.None? {
        return Err(OptionNotKeyValue(field));
      }
      if kv.value.0 in seen {
        return Err(DuplicatedOption(kv.value.0));
      }
      seen := seen + {kv.value.0};
      var applied := ApplyOption(route, kv.value.0, kv.value.1);
      if applied.Err? {
        return Err(applied.error);
      }
      route := applied.value;
      assert optionFields[k..][1..] == optionFields[k + 1..];
    }
    return Ok(route);
  }

  /** A result of stripping, with options already taken off to its right. */
  ghost function AddOptions(r: Result<Stripped, SetError>, options: seq<string>): Result<Stripped, SetError> {
    match r
    case Ok(s) => Ok(Stripped(s.targetFields, s.optionFields + options))
    case Err(e) => Err(e)
  }

  lemma AddNoOptions(r: Result<Stripped, SetError>)
    ensures AddOptions(r, []) == r
  {
    if r.Ok? {
      assert r.value.optionFields + [] == r.value.optionFields;
    }
  }

  lemma AddOptionsTwice(r: Result<Stripped, SetError>, a: seq<string>, b: seq<string>)
    ensures AddOptions(AddOptions(r, a), b) == AddOptions(r, a + b)
  {
    if r.Ok? {
      assert r.value.optionFields + a + b == r.value.optionFields + (a + b);
    }
  }

  function PrintRules(rules: seq<RouteRule>): seq<string> {
    seq(|rules|, i requires 0 <= i < |rules| => PrintRule(rules[i]))
  }

  /** The rules given by repeated `--cf-route` flags. */
  class Flag {
    var rules: seq<RouteRule>

    constructor ()
      ensures rules == []
    {
      rules := [];
    }

    /** `routeFlag.Set`: append the rule `v` denotes, or leave the list alone and report why not. */
    method Set(v: string) returns (err: Option<SetError>)
      modifies this
      ensures ParseRule(v).Ok? ==> err == None && rules == old(rules) + [ParseRule(v).value]
      ensures ParseRule(v).Err? ==> err == Some(ParseRule(v).error) && rules == old(rules)
    {
      hide RouteTargetOptions, TrimSpace;
      var v := TrimSpace(v);
      if v == "" {
        return Some(EmptyRule);
      }
      var i := IndexOf(v, '=');
      if i <= 0 || i >= |v| - 1 {
        return Some(NotPathEqualsTarget);
      }
      var path := TrimSpace(v[..i]);
      var parsed := ParseRouteTargetOptions(TrimSpace(v[i + 1..]));
      if parsed.Err? {
        return Some(parsed.error);
      }
      if path == "" || parsed.value.target == "" {
        return Some(MissingPathOrTarget);
      }
      rules := rules + [parsed.value.(path := path)];
      return None;
    }

    /** `routeFlag.String`: the printed rules, comma-joined. */
    method String() returns (text: string)
      ensures text == Join(PrintRules(rules), ",")
    {
      var parts: seq<string> := [];
      for k := 0 to |rules|
        invariant |parts| == k
        invariant forall i :: 0 <= i < k ==> parts[i] == PrintRule(rules[i])
      {
        var spec := PrintOne(rules[k]);
        parts := parts + [spec];
      }
      assert parts == PrintRules(rules);
      text := Join(parts, ",");
    }
  }

  function AppendIf(spec: string, shown: bool, key: OptionKey, value: string): string {
    if shown then spec + "," + Assignment(key, value) else spec
  }

  lemma AppendIfJoins(head: string, parts: seq<string>, shown: bool, key: OptionKey, value: string)
    requires parts != []
    ensures AppendIf(head + Join(parts, ","), shown, key, value)
         == head + Join(parts + OptionIf(shown, key, value), ",")
  {
    hide KeyText, Assignment, Join;
    if shown {
      JoinAppend(parts, [Assignment(key, value)], ",");
      assert Join([Assignment(key, value)], ",") == Assignment(key, value) by { JoinOne(Assignment(key, value), ","); }
    } else {
      assert parts + OptionIf(shown, key, value) == parts;
    }
  }

  /** The body of the printing loop: options are appended one by one, in the order of `OptionTexts`. */
  method PrintOne(rule: RouteRule) returns (spec: string)
    ensures spec == PrintRule(rule)
  {
    hide KeyText, OptionIf, AppendIf, BoolText, Join;
    var head := rule.path + "=";
    spec := rule.path + "=" + rule.target;
    JoinOne(rule.target, ",");
    var p0 := [rule.target];
    spec := AppendIf(spec, rule.host != "", Host, rule.host);
    AppendIfJoins(head, p0, rule.host != "", Host, rule.host);
    var p1 := p0 + OptionIf(rule.host != "", Host, rule.host);
    spec := AppendIf(spec, rule.stripPathPrefix, StripPathPrefix, BoolText(true));
    AppendIfJoins(head, p1, rule.stripPathPrefix, StripPathPrefix, BoolText(true));
    var p2 := p1 + OptionIf(rule.stripPathPrefix, StripPathPrefix, BoolText(true));
    spec := AppendIf(spec, rule.originServerName != "", OriginServerName, rule.originServerName);
    AppendIfJoins(head, p2, rule.originServerName != "", OriginServerName, rule.originServerName);
    var p3 := p2 + OptionIf(rule.originServerName != "", OriginServerName, rule.originServerName);
    var insecure := BoolText(rule.insecureSkipVerify);
    spec := AppendIf(spec, rule.insecureSkipVerifySet, OriginInsecureSkipVerify, insecure);
    AppendIfJoins(head, p3, rule.insecureSkipVerifySet, OriginInsecureSkipVerify, insecure);
    var p4 := p3 + OptionIf(rule.insecureSkipVerifySet, OriginInsecureSkipVerify, insecure);
    var passHost := BoolText(rule.passHostHeader);
    spec := AppendIf(spec, rule.passHostHeaderSet, PassHostHeader, passHost);
    AppendIfJoins(head, p4, rule.passHostHeaderSet, PassHostHeader, passHost);
    assert p4 + OptionIf(rule.passHostHeaderSet, PassHostHeader, passHost) == [rule.target] + OptionTexts(rule);
  }
}
