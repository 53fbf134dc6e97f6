/** What a `--cf-route` value means, field by field and option by option. */
module FlagMeaning {
  import opened Results
  import opened Routes
  import opened Text
  import opened RouteFlag

  // ----- what is printed -----

  /** The printed form of a rule: its path and target, then the options that differ from their defaults. */
  lemma PrintedForm(rule: RouteRule)
    ensures PrintRule(rule)
         == rule.path + "=" + rule.target
            + (if rule.host != "" then ",host=" + rule.host else "")
            + (if rule.stripPathPrefix then ",strip_path_prefix=true" else "")
            + (if rule.originServerName != "" then ",origin_server_name=" + rule.originServerName else "")
            + (if !rule.insecureSkipVerifySet then ""
               else if rule.insecureSkipVerify then ",origin_insecure_skip_verify=true"
               else ",origin_insecure_skip_verify=false")
            + (if !rule.passHostHeaderSet then ""
               else if rule.passHostHeader then ",pass_host_header=true" else ",pass_host_header=false")
  {
    hide Shown, PrintRule, KeyText;
    ShownOptions(rule);
    ShownText(rule.host != "", rule.host);
    ShownName(rule.originServerName != "", rule.originServerName);
    ShownStrip(rule.stripPathPrefix);
    ShownSkip(rule.insecureSkipVerifySet, rule.insecureSkipVerify);
    ShownPass(rule.passHostHeaderSet, rule.passHostHeader);
  }

  function Shown(shown: bool, key: OptionKey, value: string): string {
    if shown then "," + Assignment(key, value) else ""
  }

  lemma ShownOptions(rule: RouteRule)
    ensures PrintRule(rule)
         == rule.path + "=" + rule.target + Shown(rule.host != "", Host, rule.host)
            + Shown(rule.stripPathPrefix, StripPathPrefix, BoolText(true))
            + Shown(rule.originServerName != "", OriginServerName, rule.originServerName)
            + Shown(rule.insecureSkipVerifySet, OriginInsecureSkipVerify, BoolText(rule.insecureSkipVerify))
            + Shown(rule.passHostHeaderSet, PassHostHeader, BoolText(rule.passHostHeader))
  {
    hide Join, BoolText, Shown, OptionIf;
    var t4 := OptionIf(rule.passHostHeaderSet, PassHostHeader, BoolText(rule.passHostHeader));
    var t3 := OptionIf(rule.insecureSkipVerifySet, OriginInsecureSkipVerify, BoolText(rule.insecureSkipVerify)) + t4;
    var t2 := OptionIf(rule.originServerName != "", OriginServerName, rule.originServerName) + t3;
    var t1 := OptionIf(rule.stripPathPrefix, StripPathPrefix, BoolText(true)) + t2;
    var h1 := rule.target + Shown(rule.host != "", Host, rule.host);
    var h2 := h1 + Shown(rule.stripPathPrefix, StripPathPrefix, BoolText(true));
    var h3 := h2 + Shown(rule.originServerName != "", OriginServerName, rule.originServerName);
    var h4 := h3 + Shown(rule.insecureSkipVerifySet, OriginInsecureSkipVerify, BoolText(rule.insecureSkipVerify));
    var h5 := h4 + Shown(rule.passHostHeaderSet, PassHostHeader, BoolText(rule.passHostHeader));
    Rest(rule.target, rule.host != "", Host, rule.host, t1);
    Rest(h1, rule.stripPathPrefix, StripPathPrefix, BoolText(true), t2);
    Rest(h2, rule.originServerName != "", OriginServerName, rule.originServerName, t3);
    Rest(h3, rule.insecureSkipVerifySet, OriginInsecureSkipVerify, BoolText(rule.insecureSkipVerify), t4);
    assert t4 == t4 + [];
    Rest(h4, rule.passHostHeaderSet, PassHostHeader, BoolText(rule.passHostHeader), []);
    JoinOne(h5, ",");
    assert [h5] + [] == [h5];
    Reassociate(rule.path + "=", rule.target, Shown(rule.host != "", Host, rule.host),
                Shown(rule.stripPathPrefix, StripPathPrefix, BoolText(true)),
                Shown(rule.originServerName != "", OriginServerName, rule.originServerName),
                Shown(rule.insecureSkipVerifySet, OriginInsecureSkipVerify, BoolText(rule.insecureSkipVerify)),
                Shown(rule.passHostHeaderSet, PassHostHeader, BoolText(rule.passHostHeader)));
  }

  lemma Reassociate(p: string, t: string, a: string, b: string, c: string, d: string, e: string)
    ensures p + (t + a + b + c + d + e) == p + t + a + b + c + d + e
  {
  }

  lemma Rest(head: string, shown: bool, key: OptionKey, value: string, rest: seq<string>)
    ensures Join([head] + (OptionIf(shown, key, value) + rest), ",")
         == Join([head + Shown(shown, key, value)] + rest, ",")
  {
    hide Assignment, Join;
    if shown {
      var text := Assignment(key, value);
      var both := head + "," + text;
      assert both == head + ("," + text);
      assert [head] + ([text] + rest) == [head, text] + rest;
      if rest == [] {
        assert [head, text] + rest == [head] + [text] && [both] + rest == [both];
        JoinCons(head, [text], ",");
        JoinOne(text, ",");
        JoinOne(both, ",");
      } else {
        assert [head, text] + rest == [head] + ([text] + rest);
        JoinCons(head, [text] + rest, ",");
        JoinCons(text, rest, ",");
        JoinCons(both, rest, ",");
        assert head + "," + (text + "," + Join(rest, ",")) == both + "," + Join(rest, ",");
      }
    } else {
      assert OptionIf(shown, key, value) + rest == rest && head + "" == head;
    }
  }

  lemma ShownText(shown: bool, value: string)
    ensures Shown(shown, Host, value) == if shown then ",host=" + value else ""
  {
    var key := "," + "host" + "=";
    assert ",host=" == key;
    assert "," + ("host" + "=" + value) == key + value;
  }

  lemma ShownName(shown: bool, value: string)
    ensures Shown(shown, OriginServerName, value) == if shown then ",origin_server_name=" + value else ""
  {
    var key := "," + "origin_server_name" + "=";
    assert ",origin_server_name=" == key;
    assert "," + ("origin_server_name" + "=" + value) == key + value;
  }

  lemma ShownStrip(shown: bool)
    ensures Shown(shown, StripPathPrefix, BoolText(true)) == if shown then ",strip_path_prefix=true" else ""
  {
    assert "," + ("strip_path_prefix" + "=" + "true") == ",strip_path_prefix=true";
  }

  lemma ShownSkip(shown: bool, b: bool)
    ensures Shown(shown, OriginInsecureSkipVerify, BoolText(b))
         == if !shown then "" else if b then ",origin_insecure_skip_verify=true"
            else ",origin_insecure_skip_verify=false"
  {
    var key := ",origin_insecure_skip_verify=";
    SkipKey();
    hide KeyText;
    assert "," + (KeyText(OriginInsecureSkipVerify) + "=" + BoolText(b)) == key + BoolText(b);
    SkipValues();
  }

  lemma SkipKey()
    ensures "," + KeyText(OriginInsecureSkipVerify) + "=" == ",origin_insecure_skip_verify="
  {
  }

  lemma SkipValues()
    ensures ",origin_insecure_skip_verify=" + "true" == ",origin_insecure_skip_verify=true"
    ensures ",origin_insecure_skip_verify=" + "false" == ",origin_insecure_skip_verify=false"
  {
  }

  lemma ShownPass(shown: bool, b: bool)
    ensures Shown(shown, PassHostHeader, BoolText(b))
         == if !shown then "" else if b then ",pass_host_header=true" else ",pass_host_header=false"
  {
    if b {
      assert "," + ("pass_host_header" + "=" + "true") == ",pass_host_header=true";
    } else {
      assert "," + ("pass_host_header" + "=" + "false") == ",pass_host_header=false";
    }
  }

  // ----- what is read -----

  /** A field of the flag read as an option: its key in any case of letters, with blanks around both sides. */
  ghost predicate Reads(raw: string, key: string, value: string) {
    ',' !in raw
    && exists k, v :: TrimSpace(raw) == k + "=" + v && '=' !in k && k != "" && v != ""
                      && key == ToLower(TrimSpace(k)) && value == TrimSpace(v)
  }

  lemma ReadsIsKeyValue(raw: string, key: string, value: string)
    requires Reads(raw, key, value)
    ensures KeyValue(TrimSpace(raw)) == Some((key, value)) && TrimSpace(raw) != "" && IsTrimmed(value)
    ensures TrimSpace(TrimSpace(raw)) == TrimSpace(raw)
  {
    hide TrimSpace, ToLower, IsTrimmed;
    var field := TrimSpace(raw);
    var k, v :| field == k + "=" + v && '=' !in k && k != "" && v != ""
                && key == ToLower(TrimSpace(k)) && value == TrimSpace(v);
    IndexOfAfter(k, '=', v);
    assert field == k + ['='] + v;
    assert field[..|k|] == k && field[|k| + 1..] == v;
    TrimSpaceShape(raw);
    TrimSpaceShape(v);
    TrimSpaceOfTrimmed(field);
  }

  predicate IsKey(key: string) {
    key == "host" || key == "strip_path_prefix" || key == "origin_server_name"
    || key == "origin_insecure_skip_verify" || key == "pass_host_header"
  }

  /** What options mean, read from the left: no key twice, two texts and three switches, each with its field. */
  function Meaning(rule: RouteRule, seen: set<string>, options: seq<(string, string)>): Result<RouteRule, SetError>
    decreases |options|
  {
    if options == [] then Ok(rule)
    else
      var (key, value) := options[0];
      var seen', rest := seen + {key}, options[1..];
      if key in seen then Err(DuplicatedOption(key))
      else if key == "host" then Meaning(rule.(host := ToLower(value)), seen', rest)
      else if key == "origin_server_name" then Meaning(rule.(originServerName := value), seen', rest)
      else if value != "true" && value != "false" then Err(NotBoolean(key))
      else
        var on := value == "true";
        Meaning(if key == "strip_path_prefix" then rule.(stripPathPrefix := on)
                else if key == "origin_insecure_skip_verify" then
                  rule.(insecureSkipVerify := on, insecureSkipVerifySet := true)
                else rule.(passHostHeader := on, passHostHeaderSet := true),
                seen', rest)
  }

  /** The step for one option. */
  lemma OptionMeans(rule: RouteRule, key: string, value: string)
    requires IsKey(key) && IsTrimmed(value)
    ensures SupportedKey(key).Some?
    ensures key == "host" ==> ApplyOption(rule, key, value) == Ok(rule.(host := ToLower(value)))
    ensures key == "origin_server_name" ==> ApplyOption(rule, key, value) == Ok(rule.(originServerName := value))
    ensures key != "host" && key != "origin_server_name" ==>
              ApplyOption(rule, key, value)
              == (if value != "true" && value != "false" then Err(NotBoolean(key))
                  else if key == "strip_path_prefix" then Ok(rule.(stripPathPrefix := value == "true"))
                  else if key == "origin_insecure_skip_verify" then
                    Ok(rule.(insecureSkipVerify := value == "true", insecureSkipVerifySet := true))
                  else Ok(rule.(passHostHeader := value == "true", passHostHeaderSet := true)))
  {
    hide ToLower, TrimSpace;
    TrimSpaceOfTrimmed(value);
  }

  predicate AllKeys(options: seq<(string, string)>) {
    forall i :: 0 <= i < |options| ==> IsKey(options[i].0)
  }

  ghost predicate AllRead(raws: seq<string>, options: seq<(string, string)>) {
    |raws| == |options| && forall i :: 0 <= i < |raws| ==> Reads(raws[i], options[i].0, options[i].1)
  }

  lemma {:induction false} OptionsMean(rule: RouteRule, seen: set<string>, raws: seq<string>,
                                       options: seq<(string, string)>)
    requires AllRead(raws, options) && AllKeys(options)
    ensures ApplyOptions(rule, seen, Trims(raws)) == Meaning(rule, seen, options)
    decreases |raws|
  {
    hide Reads, IsKey, KeyValue, ApplyOption, TrimSpace, ToLower, IsTrimmed;
    if raws != [] {
      var (key, value) := options[0];
      ReadsIsKeyValue(raws[0], key, value);
      OptionMeans(rule, key, value);
      assert Trims(raws)[1..] == Trims(raws[1..]);
      var next := ApplyOption(rule, key, value);
      if key !in seen && next.Ok? {
        OptionsMean(next.value, seen + {key}, raws[1..], options[1..]);
      }
    }
  }

  function Trims(raws: seq<string>): (r: seq<string>)
    ensures |r| == |raws| && forall i :: 0 <= i < |raws| ==> r[i] == TrimSpace(raws[i])
  {
    seq(|raws|, i requires 0 <= i < |raws| => TrimSpace(raws[i]))
  }

  lemma {:induction false} StripRead(fields: seq<string>, raws: seq<string>, options: seq<(string, string)>)
    requires fields != [] && StripOptions(fields) == Ok(Stripped(fields, []))
    requires AllRead(raws, options) && AllKeys(options)
    ensures StripOptions(fields + raws) == Ok(Stripped(fields, Trims(raws)))
    decreases |raws|
  {
    hide Reads, KeyValue, TrimSpace, SupportedKey, IsKey;
    if raws == [] {
      assert fields + raws == fields && Trims(raws) == [];
    } else {
      var m := |raws| - 1;
      StripRead(fields, raws[..m], options[..m]);
      assert (fields + raws)[..|fields| + m] == fields + raws[..m];
      ReadsIsKeyValue(raws[m], options[m].0, options[m].1);
      KeyIsSupported(options[m].0);
      assert Trims(raws) == Trims(raws[..m]) + [TrimSpace(raws[m])];
    }
  }

  lemma KeyIsSupported(key: string)
    requires IsKey(key)
    ensures SupportedKey(key).Some?
  {
  }

  /** What a whole flag value means: for every path without '=', every target that does not end like an option, and
      every list of options written in any case and with blanks around. */
  lemma FlagMeans(path: string, target: string, raws: seq<string>, options: seq<(string, string)>)
    requires path != "" && IsTrimmed(path) && '=' !in path && PrintableTarget(target)
    requires AllRead(raws, options) && AllKeys(options)
    requires raws != [] ==> IsTrimmed(raws[|raws| - 1])
    ensures ParseRule(path + "=" + Join([target] + raws, ","))
         == match Meaning(RouteRule("", "", target, false, "", false, false, false, false), {}, options)
            case Ok(rule) => Ok(rule.(path := path))
            case Err(e) => Err(e)
  {
    hide Reads, IsKey, Meaning, TrimSpace, StripOptions, FirstRemoved, IsOptionField, Join, Split, ApplyOptions,
         IsTrimmed;
    var fields := Split(target, ',');
    var text := Join([target] + raws, ",");
    JoinOfSplit(target, ',');
    JoinedText(target, fields, raws);
    assert forall i :: 0 <= i < |raws| ==> ',' !in raws[i] by { RawsAreFree(raws, options); }
    SplitOfJoin(fields + raws, ',');
    assert StripOptions(fields) == Ok(Stripped(fields, [])) by { PlainFieldsStay(fields); }
    StripRead(fields, raws, options);
    TrimSpaceOfTrimmed(target);
    OptionsMean(TargetOnly(target), {}, raws, options);
    assert RouteTargetOptions(text) == Meaning(TargetOnly(target), {}, options);
    RawsEndTrimmed(target, raws, options);
    MeaningKeepsTarget(TargetOnly(target), {}, options);
    ReadRule(path, text);
  }

  lemma RawsAreFree(raws: seq<string>, options: seq<(string, string)>)
    requires AllRead(raws, options)
    ensures forall i :: 0 <= i < |raws| ==> ',' !in raws[i]
  {
  }

  lemma PlainFieldsStay(fields: seq<string>)
    requires fields != []
    requires |fields| > 1 ==> TrimSpace(fields[|fields| - 1]) != "" && !IsOptionField(TrimSpace(fields[|fields| - 1]))
    ensures StripOptions(fields) == Ok(Stripped(fields, []))
  {
    hide TrimSpace, IsOptionField;
  }

  lemma JoinedText(target: string, fields: seq<string>, raws: seq<string>)
    requires fields != [] && Join(fields, ",") == target
    ensures Join([target] + raws, ",") == Join(fields + raws, ",")
  {
    hide Join;
    if raws == [] {
      assert [target] + raws == [target] && fields + raws == fields;
      JoinOne(target, ",");
    } else {
      JoinAppend([target], raws, ",");
      JoinAppend(fields, raws, ",");
      JoinOne(target, ",");
    }
  }

  lemma RawsEndTrimmed(target: string, raws: seq<string>, options: seq<(string, string)>)
    requires target != "" && IsTrimmed(target) && AllRead(raws, options)
    requires raws != [] ==> IsTrimmed(raws[|raws| - 1])
    ensures var text := Join([target] + raws, ",");
            text != "" && IsTrimmed(text)
  {
    hide Reads, Join, TrimSpace;
    if raws == [] {
      assert [target] + raws == [target];
      JoinOne(target, ",");
    } else {
      var m := |raws| - 1;
      ReadsIsKeyValue(raws[m], options[m].0, options[m].1);
      TrimSpaceShape(raws[m]);
      assert raws[m] != "" by { TrimOfNothing(); }
      var front := [target] + raws[..m];
      assert [target] + raws == front + [raws[m]];
      JoinAppend(front, [raws[m]], ",");
      JoinOne(raws[m], ",");
      var text := Join([target] + raws, ",");
      assert text[|text| - 1] == raws[m][|raws[m]| - 1];
      JoinAppend([target], raws, ",");
      JoinOne(target, ",");
      assert text[0] == target[0];
    }
  }

  lemma TrimOfNothing()
    ensures TrimSpace("") == ""
  {
  }

  lemma {:induction false} MeaningKeepsTarget(rule: RouteRule, seen: set<string>, options: seq<(string, string)>)
    ensures Meaning(rule, seen, options).Ok? ==> Meaning(rule, seen, options).value.target == rule.target
    decreases |options|
  {
    hide ToLower;
    if options != [] {
      var (key, value) := options[0];
      var seen', rest, on := seen + {key}, options[1..], value == "true";
      MeaningKeepsTarget(rule.(host := ToLower(value)), seen', rest);
      MeaningKeepsTarget(rule.(originServerName := value), seen', rest);
      MeaningKeepsTarget(rule.(stripPathPrefix := on), seen', rest);
      MeaningKeepsTarget(rule.(insecureSkipVerify := on, insecureSkipVerifySet := true), seen', rest);
      MeaningKeepsTarget(rule.(passHostHeader := on, passHostHeaderSet := true), seen', rest);
    }
  }

  /** The split at the first '=' of a trimmed flag value. */
  lemma ReadRule(path: string, text: string)
    requires path != "" && IsTrimmed(path) && '=' !in path && text != "" && IsTrimmed(text)
    ensures ParseRule(path + "=" + text)
         == match RouteTargetOptions(text)
            case Err(e) => Err(e)
            case Ok(route) => if route.target == "" then Err(MissingPathOrTarget) else Ok(route.(path := path))
  {
    hide RouteTargetOptions, TrimSpace;
    var v := path + "=" + text;
    assert v[0] == path[0] && v[|v| - 1] == text[|text| - 1];
    TrimSpaceOfTrimmed(v);
    assert v == path + ['='] + text;
    IndexOfAfter(path, '=', text);
    assert v[..|path|] == path && v[|path| + 1..] == text;
    TrimSpaceOfTrimmed(path);
    TrimSpaceOfTrimmed(text);
  }

  // ----- what is refused, and what is left in the target -----

  /** A last field that is not an option stays part of the target, whatever key it has, except for the removed
      keys, which are refused, and an empty one, which is refused as well. */
  lemma LastFieldMeans(path: string, target: string, raw: string, key: string, value: string)
    requires path != "" && IsTrimmed(path) && '=' !in path && PrintableTarget(target)
    requires Reads(raw, key, value) && !IsKey(key) && IsTrimmed(raw)
    ensures ParseRule(path + "=" + (target + "," + raw))
         == if key == "server_name" || key == "insecure_skip_verify" then Err(UnsupportedOption(key))
            else Ok(RouteRule("", path, target + "," + raw, false, "", false, false, false, false))
  {
    hide Reads, TrimSpace, FirstRemoved, Join, Split, IsTrimmed, SupportedKey, IsRemovedRouteOptionKey, KeyValue,
         ApplyOptions;
    var fields, text := Split(target, ','), target + "," + raw;
    ReadsIsKeyValue(raw, key, value);
    assert ',' !in raw by { RawIsFree(raw, key, value); }
    UnknownKey(key);
    SplitConcat(target, ',', raw);
    SplitNone(raw, ',');
    assert text == target + [','] + raw;
    var all := fields + [raw];
    assert Split(text, ',') == all;
    assert StripOptions(all) == Ok(Stripped(all, [])) by { PlainFieldsStay(all); }
    JoinOfSplit(text, ',');
    TextTrimmed(target, raw);
    TrimSpaceOfTrimmed(text);
    assert all[1..] == fields[1..] + [raw];
    RemovedAtEnd(fields[1..], raw);
    NoOptions(TargetOnly(text));
    ReadRule(path, text);
  }

  lemma NoOptions(rule: RouteRule)
    ensures ApplyOptions(rule, {}, []) == Ok(rule)
  {
  }

  lemma RawIsFree(raw: string, key: string, value: string)
    requires Reads(raw, key, value)
    ensures ',' !in raw
  {
  }

  lemma UnknownKey(key: string)
    requires !IsKey(key)
    ensures SupportedKey(key).None?
    ensures IsRemovedRouteOptionKey(key) <==> key == "server_name" || key == "insecure_skip_verify"
  {
  }

  lemma TextTrimmed(target: string, raw: string)
    requires target != "" && IsTrimmed(target) && IsTrimmed(raw) && TrimSpace(raw) != ""
    ensures IsTrimmed(target + "," + raw)
  {
    var text := target + "," + raw;
    assert text[0] == target[0];
    assert raw != "" ==> text[|text| - 1] == raw[|raw| - 1];
  }

  lemma {:induction false} RemovedAtEnd(fields: seq<string>, raw: string)
    requires FirstRemoved(fields) == None
    ensures FirstRemoved(fields + [raw])
         == if IsRemovedField(raw) then Some(KeyValue(TrimSpace(raw)).value.0) else None
    decreases |fields|
  {
    hide IsRemovedField, KeyValue, TrimSpace;
    if fields == [] {
      assert fields + [raw] == [raw] && [raw][1..] == [];
    } else {
      assert (fields + [raw])[1..] == fields[1..] + [raw];
      RemovedAtEnd(fields[1..], raw);
    }
  }

  /** A flag value that is blank, has nothing before or behind its first '=', or ends in an empty field. */
  lemma RefusedValues(v: string, path: string, target: string)
    ensures TrimSpace(v) == "" ==> ParseRule(v) == Err(EmptyRule)
    ensures TrimSpace(v) != "" && '=' !in TrimSpace(v) ==> ParseRule(v) == Err(NotPathEqualsTarget)
    ensures TrimSpace(v) == "=" + target || (TrimSpace(v) == path + "=" && '=' !in path) ==>
              ParseRule(v) == Err(NotPathEqualsTarget)
    ensures path != "" && IsTrimmed(path) && '=' !in path && target != "" && IsTrimmed(target) ==>
              ParseRule(path + "=" + (target + ",")) == Err(EmptyOption)
  {
    hide TrimSpace, Split, IsTrimmed, Join;
    if TrimSpace(v) == path + "=" && '=' !in path {
      IndexOfAfter(path, '=', "");
    }
    if path != "" && IsTrimmed(path) && '=' !in path && target != "" && IsTrimmed(target) {
      var text := target + ",";
      assert text == target + [','] + "";
      SplitConcat(target, ',', "");
      SplitNone("", ',');
      TrimOfNothing();
      assert IsTrimmed(text) by { CommaEndsTrimmed(target); }
      ReadRule(path, text);
    }
  }

  lemma CommaEndsTrimmed(target: string)
    requires target != "" && IsTrimmed(target)
    ensures IsTrimmed(target + ",")
  {
    assert (target + ",")[0] == target[0];
  }
}
