/** The client-IP pass: which forwarding headers an origin sees. */
module ForwardedIP {
  import Text

  /** A canonical header name: CF-Connecting-IP, X-Real-IP, X-Forwarded-For or any other. */
  datatype HeaderName = CFConnectingIP | XRealIP | XForwardedFor | Other(name: string)

  type Header = map<HeaderName, seq<string>>

  /** `netip.ParseAddr` followed by `String`, with "" for an error. */
  type Parser = string -> string

  function Get(h: Header, key: HeaderName): string {
    if key in h && h[key] != [] then h[key][0] else ""
  }

  function NormalizeIP(parse: Parser, raw: string): string {
    var s := Text.TrimSpace(raw);
    if s == "" then "" else parse(s)
  }

  // ----- the chain -----

  /** The valid addresses among some comma-separated pieces, normalised, in order. */
  function Valid(parse: Parser, parts: seq<string>): seq<string> {
    if parts == [] then []
    else
      var ip := NormalizeIP(parse, parts[|parts| - 1]);
      Valid(parse, parts[..|parts| - 1]) + if ip == "" then [] else [ip]
  }

  function Entries(parse: Parser, raw: string): seq<string> {
    Valid(parse, Text.Split(raw, ','))
  }

  function Without(chain: seq<string>, ip: string): seq<string> {
    if chain == [] then []
    else
      var last := chain[|chain| - 1];
      Without(chain[..|chain| - 1], ip) + if last == "" || last == ip then [] else [last]
  }

  method ParseForwardedChain(parse: Parser, raw: string) returns (chain: seq<string>)
    ensures chain == Entries(parse, raw)
  {
    hide Valid, NormalizeIP, Text.Split;
    var parts := Text.Split(raw, ',');
    chain := [];
    assert Valid(parse, parts[..0]) == [] by { ValidNothing(parse); }
    for i := 0 to |parts|
      invariant chain == Valid(parse, parts[..i])
    {
      var ip := NormalizeIP(parse, parts[i]);
      if ip != "" {
        chain := chain + [ip];
      }
      assert parts[..i + 1] == parts[..i] + [parts[i]];
      ValidConcat(parse, parts[..i], [parts[i]]);
      ValidOne(parse, parts[i]);
    }
    assert parts[..|parts|] == parts;
  }

  method NormalizeForwardedChain(clientIP: string, chain: seq<string>) returns (out: seq<string>)
    ensures out == if clientIP == "" then [] else [clientIP] + Without(chain, clientIP)
  {
    if clientIP == "" {
      return [];
    }
    out := [clientIP];
    for i := 0 to |chain|
      invariant out == [clientIP] + Without(chain[..i], clientIP)
    {
      assert chain[..i + 1][..i] == chain[..i];
      if chain[i] == "" || chain[i] == clientIP {
        continue;
      }
      out := out + [chain[i]];
    }
    assert chain[..|chain|] == chain;
  }

  // ----- choosing the client -----

  /** The chosen client address and the chain of addresses that starts with it. */
  function Forwarded(parse: Parser, h: Header): (string, seq<string>) {
    var connecting := NormalizeIP(parse, Get(h, CFConnectingIP));
    var entries := Entries(parse, Get(h, XForwardedFor));
    var realIP := NormalizeIP(parse, Get(h, XRealIP));
    if connecting != "" then (connecting, [connecting] + Without(entries, connecting))
    else if entries != [] then (entries[0], [entries[0]] + Without(entries, entries[0]))
    else if realIP != "" then (realIP, [realIP])
    else ("", [])
  }

  method ForwardedClientIP(parse: Parser, h: Header) returns (clientIP: string, chain: seq<string>)
    ensures (clientIP, chain) == Forwarded(parse, h)
  {
    clientIP := NormalizeIP(parse, Get(h, CFConnectingIP));
    if clientIP != "" {
      var entries := ParseForwardedChain(parse, Get(h, XForwardedFor));
      chain := NormalizeForwardedChain(clientIP, entries);
      return;
    }
    chain := ParseForwardedChain(parse, Get(h, XForwardedFor));
    if |chain| > 0 {
      clientIP := chain[0];
      ValidNonEmpty(parse, Text.Split(Get(h, XForwardedFor), ','));
      chain := NormalizeForwardedChain(clientIP, chain);
      return;
    }
    clientIP := NormalizeIP(parse, Get(h, XRealIP));
    if clientIP != "" {
      return clientIP, [clientIP];
    }
    return "", [];
  }

  /** The headers sent to the origin: `out` with the three forwarding headers replaced or removed. */
  function Applied(parse: Parser, out: Header, incoming: Header): Header {
    var (clientIP, chain) := Forwarded(parse, incoming);
    if clientIP == "" then out - {CFConnectingIP, XRealIP, XForwardedFor}
    else out[CFConnectingIP := [clientIP]][XRealIP := [clientIP]][XForwardedFor := [Text.Join(chain, ", ")]]
  }

  class Request {
    var header: Header

    constructor (header: Header)
      ensures this.header == header
    {
      this.header := header;
    }

    method Set(key: HeaderName, value: string)
      modifies this
      ensures header == old(header)[key := [value]]
    {
      header := header[key := [value]];
    }

    method Del(key: HeaderName)
      modifies this
      ensures header == old(header) - {key}
    {
      header := header - {key};
    }
  }

  method ApplyForwardedClientIPHeaders(parse: Parser, outReq: Request, inReq: Request)
    modifies outReq
    ensures outReq.header == Applied(parse, old(outReq.header), old(inReq.header))
    ensures forall name: HeaderName :: name.Other? ==>
              (name in outReq.header <==> name in old(outReq.header))
              && (name in outReq.header ==> outReq.header[name] == old(outReq.header)[name])
  {
    hide Forwarded, Text.Join;
    var clientIP, chain := ForwardedClientIP(parse, inReq.header);
    if clientIP == "" {
      outReq.Del(CFConnectingIP);
      outReq.Del(XRealIP);
      outReq.Del(XForwardedFor);
      return;
    }
    outReq.Set(CFConnectingIP, clientIP);
    outReq.Set(XRealIP, clientIP);
    outReq.Set(XForwardedFor, Text.Join(chain, ", "));
  }

  // ----- what is asked of the parser -----

  /** Trimmed text that is an address is printed in a trimmed form that parses to itself, without commas of its own
      making. */
  ghost predicate Canonical(parse: Parser) {
    forall s: string :: Text.IsTrimmed(s) && parse(s) != "" ==>
      Text.IsTrimmed(parse(s)) && parse(parse(s)) == parse(s) && (',' !in s ==> ',' !in parse(s))
  }

  /** An address as the pass emits it. */
  predicate IsAddress(parse: Parser, ip: string) {
    ip != "" && Text.IsTrimmed(ip) && parse(ip) == ip
  }

  lemma NormalizedIsAddress(parse: Parser, raw: string)
    requires Canonical(parse) && NormalizeIP(parse, raw) != ""
    ensures IsAddress(parse, NormalizeIP(parse, raw))
    ensures ',' !in raw ==> ',' !in NormalizeIP(parse, raw)
  {
    hide Text.TrimSpace, Text.IsTrimmed;
    Text.TrimSpaceShape(raw);
    if ',' !in raw {
      Text.TrimSpaceKeepsFree(raw, ',');
    }
  }

  lemma NormalizeAddress(parse: Parser, ip: string)
    requires IsAddress(parse, ip)
    ensures NormalizeIP(parse, ip) == ip
  {
    Text.TrimSpaceOfTrimmed(ip);
  }

  lemma {:induction false} ValidNonEmpty(parse: Parser, parts: seq<string>)
    ensures forall k :: 0 <= k < |Valid(parse, parts)| ==> Valid(parse, parts)[k] != ""
    decreases |parts|
  {
    if parts != [] {
      ValidNonEmpty(parse, parts[..|parts| - 1]);
    }
  }

  /** Every valid entry is an address without commas. */
  lemma {:induction false} ValidAreAddresses(parse: Parser, parts: seq<string>)
    requires Canonical(parse) && forall k :: 0 <= k < |parts| ==> ',' !in parts[k]
    ensures forall k :: 0 <= k < |Valid(parse, parts)| ==>
              IsAddress(parse, Valid(parse, parts)[k]) && ',' !in Valid(parse, parts)[k]
    decreases |parts|
  {
    hide NormalizeIP, IsAddress, Canonical;
    if parts != [] {
      var n := |parts| - 1;
      ValidAreAddresses(parse, parts[..n]);
      if NormalizeIP(parse, parts[n]) != "" {
        NormalizedIsAddress(parse, parts[n]);
      }
    }
  }

  // ----- lists -----

  lemma {:induction false} ValidConcat(parse: Parser, a: seq<string>, b: seq<string>)
    ensures Valid(parse, a + b) == Valid(parse, a) + Valid(parse, b)
    decreases |b|
  {
    hide NormalizeIP;
    if b == [] {
      assert a + b == a;
    } else {
      var n := |b| - 1;
      assert (a + b)[..|a| + n] == a + b[..n];
      ValidConcat(parse, a, b[..n]);
    }
  }

  lemma {:induction false} WithoutConcat(a: seq<string>, b: seq<string>, ip: string)
    ensures Without(a + b, ip) == Without(a, ip) + Without(b, ip)
    decreases |b|
  {
    if b == [] {
      assert a + b == a;
    } else {
      var n := |b| - 1;
      assert (a + b)[..|a| + n] == a + b[..n];
      WithoutConcat(a, b[..n], ip);
    }
  }

  /** Dropping an address twice is dropping it once. */
  lemma {:induction false} WithoutFixed(chain: seq<string>, ip: string)
    requires forall k :: 0 <= k < |chain| ==> chain[k] != "" && chain[k] != ip
    ensures Without(chain, ip) == chain
    decreases |chain|
  {
    if chain != [] {
      WithoutFixed(chain[..|chain| - 1], ip);
    }
  }

  /** What stays after dropping an address: the other entries, each as often as before. */
  lemma {:induction false} WithoutKeepsOthers(chain: seq<string>, ip: string)
    requires forall k :: 0 <= k < |chain| ==> chain[k] != ""
    ensures forall k :: 0 <= k < |Without(chain, ip)| ==>
              Without(chain, ip)[k] in chain && Without(chain, ip)[k] != "" && Without(chain, ip)[k] != ip
    ensures forall x :: x != ip ==> multiset(Without(chain, ip))[x] == multiset(chain)[x]
    decreases |chain|
  {
    if chain != [] {
      var n := |chain| - 1;
      assert chain == chain[..n] + [chain[n]];
      WithoutKeepsOthers(chain[..n], ip);
    }
  }

  // ----- reading a chain back -----

  lemma EntriesOfBlank(parse: Parser, s: string)
    ensures Entries(parse, " " + s) == Entries(parse, s)
  {
    hide Text.Split, Text.TrimSpace;
    var i := Text.IndexOf(s, ',');
    var head := if i < 0 then s else s[..i];
    Text.TrimSpaceOfBlank(head);
    ValidOne(parse, head);
    ValidOne(parse, " " + head);
    if i < 0 {
      Text.SplitNone(s, ',');
      Text.SplitNone(" " + s, ',');
    } else {
      var tail := s[i + 1..];
      assert s == head + "," + tail && " " + s == (" " + head) + "," + tail;
      Text.SplitFirst(head, ',', tail);
      Text.SplitFirst(" " + head, ',', tail);
      ValidConcat(parse, [head], Text.Split(tail, ','));
      ValidConcat(parse, [" " + head], Text.Split(tail, ','));
    }
  }

  lemma ValidNothing(parse: Parser)
    ensures Valid(parse, []) == []
  {
  }

  lemma ValidOne(parse: Parser, s: string)
    ensures Valid(parse, [s]) == if NormalizeIP(parse, s) == "" then [] else [NormalizeIP(parse, s)]
  {
    assert [s][..0] == [];
    ValidNothing(parse);
  }

  lemma EntriesOfJoined(parse: Parser, a: string, b: string)
    ensures Entries(parse, a + ", " + b) == Entries(parse, a) + Entries(parse, b)
  {
    hide Text.Split, Valid;
    assert a + ", " + b == a + "," + (" " + b);
    Text.SplitConcat(a, ',', " " + b);
    ValidConcat(parse, Text.Split(a, ','), Text.Split(" " + b, ','));
    EntriesOfBlank(parse, b);
  }

  lemma EntriesOfAddress(parse: Parser, ip: string)
    requires IsAddress(parse, ip) && ',' !in ip
    ensures Entries(parse, ip) == [ip]
  {
    hide Text.Split, NormalizeIP, Valid;
    Text.SplitNone(ip, ',');
    ValidOne(parse, ip);
    NormalizeAddress(parse, ip);
  }

  /** A joined chain reads back as the entries of its first address followed by the rest. */
  lemma {:induction false} EntriesOfChain(parse: Parser, ip: string, rest: seq<string>)
    requires forall k :: 0 <= k < |rest| ==> IsAddress(parse, rest[k]) && ',' !in rest[k]
    ensures Entries(parse, Text.Join([ip] + rest, ", ")) == Entries(parse, ip) + rest
    decreases |rest|
  {
    hide Entries, IsAddress, Text.Join;
    if rest == [] {
      assert [ip] + rest == [ip];
      Text.JoinOne(ip, ", ");
    } else {
      Text.JoinCons(ip, rest, ", ");
      EntriesOfJoined(parse, ip, Text.Join(rest, ", "));
      assert rest == [rest[0]] + rest[1..];
      EntriesOfChain(parse, rest[0], rest[1..]);
      EntriesOfAddress(parse, rest[0]);
    }
  }

  // ----- the pass -----

  /** The piece at k is the first that is an address. */
  predicate FirstAddress(parse: Parser, parts: seq<string>, k: int) {
    0 <= k < |parts| && NormalizeIP(parse, parts[k]) != "" && forall j :: 0 <= j < k ==>
        NormalizeIP(parse, parts[j]) == ""
  }

  lemma {:induction false} FirstValid(parse: Parser, parts: seq<string>, k: int)
    requires FirstAddress(parse, parts, k)
    ensures Valid(parse, parts) != [] && Valid(parse, parts)[0] == NormalizeIP(parse, parts[k])
    decreases |parts|
  {
    hide NormalizeIP;
    var n := |parts| - 1;
    if k < n {
      FirstValid(parse, parts[..n], k);
    } else {
      NoneValid(parse, parts[..n]);
    }
  }

  lemma {:induction false} NoneValid(parse: Parser, parts: seq<string>)
    ensures Valid(parse, parts) == [] <==> forall k :: 0 <= k < |parts| ==> NormalizeIP(parse, parts[k]) == ""
    decreases |parts|
  {
    hide NormalizeIP;
    if parts != [] {
      NoneValid(parse, parts[..|parts| - 1]);
    }
  }

  /** The first value of a header, as `http.Header.Get` reads it. */
  predicate HasFirst(h: Header, name: HeaderName, value: string) {
    if name in h && |h[name]| > 0 then value == h[name][0] else value == ""
  }

  /** Which address is the client's: that of CF-Connecting-IP; failing that the earliest piece of X-Forwarded-For
      that is one; failing that X-Real-IP's. Only the first value of each header is looked at. */
  lemma ClientChoice(parse: Parser, h: Header, connecting: string, forwarded: string, realIP: string)
    requires HasFirst(h, CFConnectingIP, connecting) && HasFirst(h, XForwardedFor, forwarded)
                 && HasFirst(h, XRealIP, realIP)
    ensures var ip := Forwarded(parse, h).0;
            var parts := Text.Split(forwarded, ',');
            && (NormalizeIP(parse, connecting) != "" ==> ip == NormalizeIP(parse, connecting))
            && (NormalizeIP(parse, connecting) == "" ==>
                  && (forall k :: FirstAddress(parse, parts, k) ==> ip == NormalizeIP(parse, parts[k]))
                  && ((forall k :: 0 <= k < |parts| ==> NormalizeIP(parse, parts[k]) == "") ==>
                        ip == NormalizeIP(parse, realIP)))
  {
    hide NormalizeIP, Text.Split, Valid, Without;
    assert Get(h, CFConnectingIP) == connecting && Get(h, XForwardedFor) == forwarded && Get(h, XRealIP) == realIP;
    var parts := Text.Split(forwarded, ',');
    NoneValid(parse, parts);
    forall k | FirstAddress(parse, parts, k)
      ensures Valid(parse, parts) != [] && Valid(parse, parts)[0] == NormalizeIP(parse, parts[k])
    {
      FirstValid(parse, parts, k);
    }
  }

  /** What the origin is sent: the client in CF-Connecting-IP and X-Real-IP and the whole chain in X-Forwarded-For,
      one value each, or none of the three when there is no client. */
  lemma SentHeaders(parse: Parser, out: Header, h: Header)
    ensures var (ip, chain) := Forwarded(parse, h);
            var sent := Applied(parse, out, h);
            if ip == "" then CFConnectingIP !in sent && XRealIP !in sent && XForwardedFor !in sent
            else CFConnectingIP in sent && XRealIP in sent && XForwardedFor in sent
                 && sent[CFConnectingIP] == [ip] && sent[XRealIP] == [ip]
                 && sent[XForwardedFor] == [Text.Join(chain, ", ")]
  {
    hide Forwarded, Text.Join;
  }

  /** The chain starts with the chosen client, never repeats it, and is otherwise made of the valid entries of the
      incoming X-Forwarded-For in their order and number; the client is the first header that yields an address, in
      the order CF-Connecting-IP, X-Forwarded-For, X-Real-IP. */
  lemma ChainShape(parse: Parser, h: Header)
    requires Canonical(parse)
    ensures var (ip, chain) := Forwarded(parse, h);
            var entries := Entries(parse, Get(h, XForwardedFor));
            if ip == "" then chain == [] && entries == [] && NormalizeIP(parse, Get(h, CFConnectingIP)) == ""
                             && NormalizeIP(parse, Get(h, XRealIP)) == ""
            else chain != [] && chain[0] == ip && IsAddress(parse, ip) && ip !in chain[1..]
                 && chain[1..] == Without(entries, ip)
                 && (forall k :: 0 <= k < |chain[1..]| ==> IsAddress(parse, chain[1..][k]) && ',' !in chain[1..][k])
                 && (forall x :: x != ip ==> multiset(chain)[x] == multiset(entries)[x])
  {
    hide NormalizeIP, IsAddress, Canonical, Valid, Text.Split;
    var (ip, chain) := Forwarded(parse, h);
    var parts := Text.Split(Get(h, XForwardedFor), ',');
    var entries := Valid(parse, parts);
    ValidNonEmpty(parse, parts);
    if ip != "" {
      ValidAreAddresses(parse, parts);
      ClientIsAddress(parse, h);
      WithoutKeepsOthers(entries, ip);
      assert chain == [ip] + Without(entries, ip);
      assert chain[1..] == Without(entries, ip);
      WithoutSubset(parse, entries, ip);
    }
  }

  lemma ClientIsAddress(parse: Parser, h: Header)
    requires Canonical(parse) && Forwarded(parse, h).0 != ""
    ensures IsAddress(parse, Forwarded(parse, h).0)
  {
    hide NormalizeIP, IsAddress, Canonical, Valid, Text.Split;
    if NormalizeIP(parse, Get(h, CFConnectingIP)) != "" {
      NormalizedIsAddress(parse, Get(h, CFConnectingIP));
    } else if Entries(parse, Get(h, XForwardedFor)) != [] {
      ValidAreAddresses(parse, Text.Split(Get(h, XForwardedFor), ','));
    } else {
      NormalizedIsAddress(parse, Get(h, XRealIP));
    }
  }

  lemma WithoutSubset(parse: Parser, entries: seq<string>, ip: string)
    requires forall k :: 0 <= k < |entries| ==> entries[k] != "" && IsAddress(parse, entries[k]) && ',' !in entries[k]
    ensures forall k :: 0 <= k < |Without(entries, ip)| ==>
              IsAddress(parse, Without(entries, ip)[k]) && ',' !in Without(entries, ip)[k]
  {
    hide IsAddress;
    WithoutKeepsOthers(entries, ip);
  }

  /** The second pass over the pass's own output picks the same client, and its chain gains what the client's own text
      contributes when split at commas. */
  lemma SecondPass(parse: Parser, out: Header, h: Header)
    requires Canonical(parse)
    ensures var (ip, chain) := Forwarded(parse, h);
            ip != "" ==>
              |chain| > 0
              && Forwarded(parse, Applied(parse, out, h)) == (ip, [ip] + Without(Entries(parse, ip), ip) + chain[1..])
  {
    hide IsAddress, Canonical, Entries, Text.Join, NormalizeIP, Without;
    var (ip, chain) := Forwarded(parse, h);
    if ip == "" {
      return;
    }
    var again := Applied(parse, out, h);
    ChainShape(parse, h);
    assert chain == [ip] + chain[1..];
    EntriesOfChain(parse, ip, chain[1..]);
    NormalizeAddress(parse, ip);
    WithoutConcat(Entries(parse, ip), chain[1..], ip);
    WithoutOthers(parse, chain[1..], ip);
    assert Get(again, CFConnectingIP) == ip && Get(again, XForwardedFor) == Text.Join(chain, ", ");
    var extra := Without(Entries(parse, ip), ip);
    assert [ip] + (extra + chain[1..]) == [ip] + extra + chain[1..];
  }

  lemma WithoutOthers(parse: Parser, rest: seq<string>, ip: string)
    requires ip !in rest && forall k :: 0 <= k < |rest| ==> IsAddress(parse, rest[k])
    ensures Without(rest, ip) == rest
  {
    WithoutFixed(rest, ip);
  }

  lemma {:induction false} JoinGrows(a: seq<string>, b: seq<string>, c: seq<string>)
    requires a != [] && b != []
    ensures |Text.Join(a + b + c, ", ")| > |Text.Join(a + c, ", ")|
  {
    hide Text.Join;
    Text.JoinAppend(a, b, ", ");
    assert |", "| == 2;
    if c == [] {
      assert a + b + c == a + b && a + c == a;
    } else {
      Text.JoinAppend(a + b, c, ", ");
      Text.JoinAppend(a, c, ", ");
    }
  }

  /** The pass is a fixed point on its own output exactly when no address other than the client hides between the
      commas of the client's own text (an IPv6 zone may contain them). */
  lemma FixedPointIff(parse: Parser, out: Header, h: Header)
    requires Canonical(parse)
    ensures var ip := Forwarded(parse, h).0;
            var sent := Applied(parse, out, h);
            Applied(parse, sent, sent) == sent <==> ip == "" || forall e :: e in Entries(parse, ip) ==> e == ip
  {
    hide Canonical, Entries, Text.Join, NormalizeIP, Forwarded, Without, IsAddress;
    var (ip, chain) := Forwarded(parse, h);
    var sent := Applied(parse, out, h);
    if ip == "" {
      NothingToForward(parse, sent);
    } else {
      SecondPass(parse, out, h);
      ChainShape(parse, h);
      var extra := Without(Entries(parse, ip), ip);
      ExtraIff(parse, ip);
      assert [ip] + [] + chain[1..] == chain && chain == [ip] + chain[1..];
      if extra != [] {
        JoinGrows([ip], extra, chain[1..]);
        assert sent[XForwardedFor] == [Text.Join(chain, ", ")];
        assert Applied(parse, sent, sent)[XForwardedFor] == [Text.Join([ip] + extra + chain[1..], ", ")];
      } else {
        assert [ip] + extra + chain[1..] == chain;
        assert Applied(parse, sent, sent) == sent;
      }
    }
  }

  lemma NothingToForward(parse: Parser, h: Header)
    requires CFConnectingIP !in h && XRealIP !in h && XForwardedFor !in h
    ensures Applied(parse, h, h) == h
  {
    Text.SplitNone("", ',');
    ValidOne(parse, "");
  }

  lemma ExtraIff(parse: Parser, ip: string)
    ensures Without(Entries(parse, ip), ip) == [] <==> forall e :: e in Entries(parse, ip) ==> e == ip
  {
    var entries := Entries(parse, ip);
    ValidNonEmpty(parse, Text.Split(ip, ','));
    WithoutKeepsOthers(entries, ip);
    if Without(entries, ip) != [] {
      assert Without(entries, ip)[0] in entries;
    }
    if e :| e in entries && e != ip {
      assert multiset(Without(entries, ip))[e] == multiset(entries)[e] > 0;
    }
  }

  /** In particular whenever the client's text has no comma, as when it was taken from X-Forwarded-For. */
  lemma FixedPoint(parse: Parser, out: Header, h: Header)
    requires Canonical(parse)
    requires ',' !in Forwarded(parse, h).0
    ensures var sent := Applied(parse, out, h);
            Applied(parse, sent, sent) == sent
  {
    hide Canonical, Entries, Applied, Forwarded, IsAddress;
    var ip := Forwarded(parse, h).0;
    FixedPointIff(parse, out, h);
    if ip != "" {
      ClientIsAddress(parse, h);
      EntriesOfAddress(parse, ip);
    }
  }

  /** A client taken from X-Forwarded-For never contains a comma. */
  lemma ChainClientHasNoComma(parse: Parser, h: Header)
    requires Canonical(parse) && NormalizeIP(parse, Get(h, CFConnectingIP)) == ""
    requires Entries(parse, Get(h, XForwardedFor)) != []
    ensures ',' !in Forwarded(parse, h).0
  {
    hide Canonical, NormalizeIP, Valid, Text.Split;
    ValidAreAddresses(parse, Text.Split(Get(h, XForwardedFor), ','));
  }

  /** The link-local addresses with a zone, a part of what `netip.ParseAddr` accepts; a zone is any non-empty text. */
  function ZonedOnly(s: string): string {
    if |s| > 8 && s[..8] == "fe80::1%" then s else ""
  }

  lemma ZonedIsCanonical()
    ensures Canonical(ZonedOnly)
  {
    hide Text.IsTrimmed;
  }

  /** An address with a comma in it: its first piece is another address. */
  lemma CommaHidesAddress(parse: Parser, ip: string, first: string, last: string, h: Header)
    requires Canonical(parse) && IsAddress(parse, ip) && IsAddress(parse, first)
    requires ip == first + "," + last && ',' !in first
    requires h == map[CFConnectingIP := [ip]]
    ensures var sent := Applied(parse, h, h);
            Applied(parse, sent, sent) != sent
  {
    hide Applied, IsAddress, Canonical, NormalizeIP, Valid, Text.Split;
    NormalizeAddress(parse, ip);
    assert Get(h, CFConnectingIP) == ip;
    assert ip != "" by { assert |ip| > |first|; }
    Text.SplitConcat(first, ',', last);
    ValidConcat(parse, Text.Split(first, ','), Text.Split(last, ','));
    EntriesOfAddress(parse, first);
    assert Entries(parse, ip)[0] == first && first in Entries(parse, ip);
    assert first != ip by { assert |ip| > |first|; }
    assert Forwarded(parse, h).0 == ip;
    FixedPointIff(parse, h, h);
  }

  /** It does happen: the zone "a,b" makes the second pass add "fe80::1%a" to the chain. */
  lemma CommaInZoneIsNotFixed()
    ensures exists parse, h ::
              Canonical(parse) && (var sent := Applied(parse, h, h);
                                   Applied(parse, sent, sent) != sent)
  {
    hide Applied, Canonical;
    var ip, first, last := "fe80::1%a,b", "fe80::1%a", "b";
    var h: Header := map[CFConnectingIP := [ip]];
    ZonedIsCanonical();
    assert ip == first + "," + last;
    CommaHidesAddress(ZonedOnly, ip, first, last, h);
  }
}
