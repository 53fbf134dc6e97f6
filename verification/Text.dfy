/** The parts of Go's `strings` package the tunnel relies on, over sequences of characters. */
module Text {

  // ----- searching -----

  /** Index of the first `c`, or -1. */
  function IndexOf(s: string, c: char): (i: int)
    ensures -1 <= i < |s|
    ensures i == -1 <==> c !in s
    ensures 0 <= i ==> s[i] == c && c !in s[..i]
  {
    if s == "" then -1
    else if s[0] == c then 0
    else
      var i := IndexOf(s[1..], c);
      if i == -1 then -1 else i + 1
  }

  /** A prefix without `c` followed by `c` puts the first `c` right after that prefix. */
  lemma IndexOfAfter(a: string, c: char, b: string)
    requires c !in a
    ensures IndexOf(a + [c] + b, c) == |a|
  {
    var s := a + [c] + b;
    assert s[|a|] == c;
    assert forall i :: 0 <= i < |a| ==> s[i] == a[i];
  }

  /** Index of the last `c`, or -1. */
  function LastIndexOf(s: string, c: char): (i: int)
    ensures -1 <= i < |s|
    ensures i == -1 <==> c !in s
    ensures 0 <= i ==> s[i] == c && c !in s[i + 1..]
  {
    if s == "" then -1
    else if s[|s| - 1] == c then |s| - 1
    else
      assert s == s[..|s| - 1] + [s[|s| - 1]];
      LastIndexOf(s[..|s| - 1], c)
  }

  /** `c` followed by a suffix without `c` puts the last `c` right before that suffix. */
  lemma {:induction false} LastIndexOfAfter(a: string, c: char, b: string)
    requires c !in b
    ensures LastIndexOf(a + [c] + b, c) == |a|
  {
    var s := a + [c] + b;
    if b == "" {
      assert s[|s| - 1] == c;
    } else {
      var b' := b[..|b| - 1];
      assert s[|s| - 1] == b[|b| - 1] != c;
      assert s[..|s| - 1] == a + [c] + b';
      LastIndexOfAfter(a, c, b');
    }
  }

  /** Where the part before (or after) the separator is free of it, the separator is found again. */
  lemma CutFirst(a: string, x: string, b: string, y: string, c: char)
    requires c !in a && c !in b && a + [c] + x == b + [c] + y
    ensures a == b && x == y
  {
    IndexOfAfter(a, c, x);
    IndexOfAfter(b, c, y);
    var s := a + [c] + x;
    assert a == s[..|a|] && b == s[..|b|];
    assert x == s[|a| + 1..] && y == s[|b| + 1..];
  }

  lemma CutLast(a: string, x: string, b: string, y: string, c: char)
    requires c !in x && c !in y && a + [c] + x == b + [c] + y
    ensures a == b && x == y
  {
    LastIndexOfAfter(a, c, x);
    LastIndexOfAfter(b, c, y);
    var s := a + [c] + x;
    assert a == s[..|a|] && b == s[..|b|];
    assert x == s[|a| + 1..] && y == s[|b| + 1..];
  }

  predicate HasPrefix(s: string, p: string) {
    p <= s
  }

  predicate HasSuffix(s: string, t: string) {
    |t| <= |s| && s[|s| - |t|..] == t
  }

  predicate Contains(s: string, t: string) {
    t <= s || (s != "" && Contains(s[1..], t))
  }

  lemma {:induction false} ContainsIff(s: string, t: string)
    ensures Contains(s, t) <==> exists a, b :: s == a + t + b
    decreases |s|
  {
    if t <= s {
      assert s == "" + t + s[|t|..];
    } else if s != "" {
      ContainsIff(s[1..], t);
      if Contains(s[1..], t) {
        var a, b :| s[1..] == a + t + b;
        assert s == ([s[0]] + a) + t + b;
      }
      if a, b :| s == a + t + b {
        assert a != "" && s[1..] == a[1..] + t + b;
      }
    }
  }

  // ----- white space -----

  /** The code points `unicode.IsSpace` accepts. */
  predicate IsSpace(c: char) {
    || c == ' ' || '\t' <= c <= '\r'
    || c == '\U{0085}' || c == '\U{00A0}' || c == '\U{1680}'
    || '\U{2000}' <= c <= '\U{200A}'
    || c == '\U{2028}' || c == '\U{2029}' || c == '\U{202F}' || c == '\U{205F}' || c == '\U{3000}'
  }

  function TrimLeft(s: string): string {
    if s != "" && IsSpace(s[0]) then TrimLeft(s[1..]) else s
  }

  function TrimRight(s: string): string {
    if s != "" && IsSpace(s[|s| - 1]) then TrimRight(s[..|s| - 1]) else s
  }

  function TrimSpace(s: string): string {
    TrimLeft(TrimRight(s))
  }

  /** No white space at either end. */
  predicate IsTrimmed(s: string) {
    s != "" ==> !IsSpace(s[0]) && !IsSpace(s[|s| - 1])
  }

  lemma {:induction false} TrimRightShape(s: string)
    ensures TrimRight(s) <= s
    ensures TrimRight(s) != "" ==> !IsSpace(TrimRight(s)[|TrimRight(s)| - 1])
    ensures forall i :: |TrimRight(s)| <= i < |s| ==> IsSpace(s[i])
  {
    if s != "" && IsSpace(s[|s| - 1]) {
      TrimRightShape(s[..|s| - 1]);
    }
  }

  lemma {:induction false} TrimLeftShape(s: string)
    ensures |TrimLeft(s)| <= |s| && TrimLeft(s) == s[|s| - |TrimLeft(s)|..]
    ensures TrimLeft(s) != "" ==> !IsSpace(TrimLeft(s)[0])
    ensures forall i :: 0 <= i < |s| - |TrimLeft(s)| ==> IsSpace(s[i])
  {
    if s != "" && IsSpace(s[0]) {
      TrimLeftShape(s[1..]);
      var t := TrimLeft(s[1..]);
      assert s[1..][|s| - 1 - |t|..] == s[|s| - |t|..];
      assert forall i :: 1 <= i < |s| ==> s[i] == s[1..][i - 1];
    }
  }

  /** Trimming yields a trimmed slice of the original. */
  lemma TrimSpaceShape(s: string)
    ensures IsTrimmed(TrimSpace(s))
    ensures |TrimSpace(s)| <= |TrimRight(s)| <= |s|
    ensures TrimSpace(s) == s[|TrimRight(s)| - |TrimSpace(s)|..|TrimRight(s)|]
  {
    hide TrimLeft, TrimRight;
    TrimRightShape(s);
    TrimLeftShape(TrimRight(s));
  }

  /** Trimming invents no character. */
  lemma TrimSpaceKeepsFree(s: string, c: char)
    requires c !in s
    ensures c !in TrimSpace(s)
  {
    hide TrimSpace;
    TrimSpaceShape(s);
  }

  lemma TrimSpaceOfTrimmed(s: string)
    requires IsTrimmed(s)
    ensures TrimSpace(s) == s
  {
  }

  /** Exactly the trimmed strings are left alone. */
  lemma TrimmedIffFixed(s: string)
    ensures IsTrimmed(s) <==> TrimSpace(s) == s
  {
    hide TrimSpace;
    TrimSpaceShape(s);
    if IsTrimmed(s) {
      TrimSpaceOfTrimmed(s);
    }
  }

  lemma {:induction false} TrimRightSpaces(s: string, b: string)
    requires forall i :: 0 <= i < |b| ==> IsSpace(b[i])
    ensures TrimRight(s + b) == TrimRight(s)
  {
    if b == "" {
      assert s + b == s;
    } else {
      assert (s + b)[..|s + b| - 1] == s + b[..|b| - 1];
      TrimRightSpaces(s, b[..|b| - 1]);
    }
  }

  /** Dropping trailing white space first does not change what trimming gives. */
  lemma TrimSpaceOfTrimRight(s: string)
    ensures TrimSpace(TrimRight(s)) == TrimSpace(s)
  {
    TrimRightShape(s);
    assert TrimRight(TrimRight(s)) == TrimRight(s);
  }

  /** A text that starts with a non-space is only trimmed on the right. */
  lemma TrimSpaceOfLeftTrimmed(s: string)
    requires s != "" ==> !IsSpace(s[0])
    ensures TrimSpace(s) == TrimRight(s)
  {
    TrimRightShape(s);
  }

  /** A leading blank, as after the comma of a joined list, is trimmed away. */
  lemma {:induction false} TrimSpaceOfBlank(s: string)
    ensures TrimSpace(" " + s) == TrimSpace(s)
  {
    var t := " " + s;
    if s == "" {
      assert t == " " && TrimRight(" "[..0]) == "";
    } else if IsSpace(s[|s| - 1]) {
      assert t[..|t| - 1] == " " + s[..|s| - 1];
      TrimSpaceOfBlank(s[..|s| - 1]);
    } else {
      assert t[1..] == s;
    }
  }

  // ----- case -----

  function LowerChar(c: char): char {
    if 'A' <= c <= 'Z' then ((c as int) + 32) as char else c
  }

  function ToLower(s: string): (r: string)
    ensures |r| == |s|
    ensures forall i :: 0 <= i < |s| ==> r[i] == LowerChar(s[i])
  {
    seq(|s|, i requires 0 <= i < |s| => LowerChar(s[i]))
  }

  lemma ToLowerIdempotent(s: string)
    ensures ToLower(ToLower(s)) == ToLower(s)
  {
  }

  lemma ToLowerKeepsTrimmed(s: string)
    requires IsTrimmed(s)
    ensures IsTrimmed(ToLower(s))
  {
  }

  /** Lower-casing neither adds nor removes a character that is not a letter. */
  lemma ToLowerKeepsFree(s: string, c: char)
    requires c !in s && c < 'A'
    ensures c !in ToLower(s)
  {
  }

  // ----- splitting and joining -----

  function Split(s: string, sep: char): (parts: seq<string>)
    ensures |parts| >= 1
    ensures forall i :: 0 <= i < |parts| ==> sep !in parts[i]
    decreases |s|
  {
    var i := IndexOf(s, sep);
    if i == -1 then [s] else [s[..i]] + Split(s[i + 1..], sep)
  }

  function Join(parts: seq<string>, sep: string): string {
    if parts == [] then ""
    else if |parts| == 1 then parts[0]
    else parts[0] + sep + Join(parts[1..], sep)
  }

  lemma JoinCons(first: string, rest: seq<string>, sep: string)
    requires rest != []
    ensures Join([first] + rest, sep) == first + sep + Join(rest, sep)
  {
    assert ([first] + rest)[1..] == rest;
  }

  lemma {:induction false} JoinOfSplit(s: string, sep: char)
    ensures Join(Split(s, sep), [sep]) == s
    decreases |s|
  {
    hide Join;
    var i := IndexOf(s, sep);
    if i != -1 {
      JoinOfSplit(s[i + 1..], sep);
      JoinCons(s[..i], Split(s[i + 1..], sep), [sep]);
      assert s == s[..i] + [sep] + s[i + 1..];
    } else {
      JoinOne(s, [sep]);
    }
  }

  lemma JoinOne(s: string, sep: string)
    ensures Join([s], sep) == s
  {
  }

  lemma SplitFirst(a: string, sep: char, b: string)
    requires sep !in a
    ensures Split(a + [sep] + b, sep) == [a] + Split(b, sep)
  {
    IndexOfAfter(a, sep, b);
    var s := a + [sep] + b;
    assert s[..|a|] == a && s[|a| + 1..] == b;
  }

  lemma SplitNone(s: string, sep: char)
    requires sep !in s
    ensures Split(s, sep) == [s]
  {
  }

  /** Splitting around one separator: the parts of both sides. */
  lemma SplitConcat(a: string, sep: char, b: string)
    ensures Split(a + [sep] + b, sep) == Split(a, sep) + Split(b, sep)
    decreases |a|
  {
    hide Split;
    var i := IndexOf(a, sep);
    if i < 0 {
      SplitNone(a, sep);
      SplitFirst(a, sep, b);
    } else {
      var head, tail := a[..i], a[i + 1..];
      assert a == head + [sep] + tail;
      assert a + [sep] + b == head + [sep] + (tail + [sep] + b);
      SplitFirst(head, sep, tail);
      SplitFirst(head, sep, tail + [sep] + b);
      SplitConcat(tail, sep, b);
    }
  }

  lemma {:induction false} SplitOfJoin(parts: seq<string>, sep: char)
    requires parts != []
    requires forall i :: 0 <= i < |parts| ==> sep !in parts[i]
    ensures Split(Join(parts, [sep]), sep) == parts
  {
    hide Split;
    if |parts| == 1 {
      SplitNone(parts[0], sep);
    } else {
      SplitOfJoin(parts[1..], sep);
      SplitFirst(parts[0], sep, Join(parts[1..], [sep]));
      assert parts == [parts[0]] + parts[1..];
    }
  }

  lemma {:induction false} JoinAppend(a: seq<string>, b: seq<string>, sep: string)
    requires a != [] && b != []
    ensures Join(a + b, sep) == Join(a, sep) + sep + Join(b, sep)
  {
    if |a| == 1 {
      assert (a + b)[1..] == b;
    } else {
      assert (a + b)[1..] == a[1..] + b;
      JoinAppend(a[1..], b, sep);
    }
  }
}
