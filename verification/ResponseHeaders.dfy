/** The header part of the HTTP/2 writer's `WriteRespHeaders`: what reaches the edge of an origin's response headers. */
module ResponseHeaders {
  import opened Results
  import opened Base64
  import opened HeaderCodec
  import Text

  const USER_HEADERS_KEY: Bytes := "Cf-Cloudflared-Response-Headers"
  const META_KEY: Bytes := "Cf-Cloudflared-Response-Meta"
  const ORIGIN_META: Bytes := "{\"src\":\"origin\"}"

  predicate IsControlResponseHeader(lower: string) {
    Text.HasPrefix(lower, ":") || Text.HasPrefix(lower, "cf-int-")
    || Text.HasPrefix(lower, "cf-cloudflared-") || Text.HasPrefix(lower, "cf-proxy-")
  }

  predicate IsWebsocketClientHeader(lower: string) {
    lower == "sec-websocket-accept" || lower == "connection" || lower == "upgrade"
  }

  predicate IsContentLength(name: Bytes) {
    Text.ToLower(name) == "content-length"
  }

  /** The response headers meant for the edge's client. */
  predicate ForClient(name: Bytes) {
    !IsControlResponseHeader(Text.ToLower(name)) || IsWebsocketClientHeader(Text.ToLower(name))
  }

  /** What is kept from clients: pseudo-headers and the edge's own three families, in any case of letters. The websocket
      headers that are let through by name belong to none of them. */
  lemma ClientHeadersIff(name: Bytes)
    ensures var lower := Text.ToLower(name);
            ForClient(name)
            <==> !(Text.HasPrefix(lower, ":") || Text.HasPrefix(lower, "cf-int-")
                   || Text.HasPrefix(lower, "cf-cloudflared-") || Text.HasPrefix(lower, "cf-proxy-"))
  {
    hide Text.ToLower;
    WebsocketNamesPass();
  }

  lemma WebsocketNamesPass()
    ensures forall lower: string :: IsWebsocketClientHeader(lower) ==> !IsControlResponseHeader(lower)
  {
    assert ":"[0] == ':' && "cf-int-"[1] == 'f' && "cf-cloudflared-"[1] == 'f' && "cf-proxy-"[1] == 'f';
    assert "sec-websocket-accept"[..2] == "se" && "connection"[..2] == "co" && "upgrade"[..2] == "up";
  }

  lemma ContentLengthInAnyCase()
    ensures IsContentLength("Content-Length") && IsContentLength("content-length") && !IsContentLength("Content-Type")
  {
    assert Text.ToLower("Content-Length") == "content-length";
    assert Text.ToLower("content-length") == "content-length";
    assert |"Content-Type"| != |"content-length"|;
  }

  /** What one header name lists once the edge has decoded a serialized text. */
  ghost predicate EdgeReads(text: string, header: Header) {
    var read := Deserialize(text);
    read.Some?
    && forall name :: Values(read.value, name) == if name in header && ForClient(name) then header[name] else []
  }

  lemma KeysDiffer()
    ensures USER_HEADERS_KEY != META_KEY
  {
    assert |USER_HEADERS_KEY| == 31 && |META_KEY| == 28;
  }

  /** The serialized text is itself a header value: ASCII only. */
  lemma {:induction false} WireIsBytes(pairs: seq<HTTPHeader>)
    ensures forall k :: 0 <= k < |Wire(pairs)| ==> Wire(pairs)[k] < '\U{0100}'
    decreases |pairs|
  {
    hide Encode, Value;
    if pairs != [] {
      EncodeAlphabet(pairs[0].name);
      EncodeAlphabet(pairs[0].value);
      SymbolsAreBytes();
      if |pairs| > 1 {
        WireIsBytes(pairs[1..]);
      }
    }
  }

  lemma SymbolsAreBytes()
    ensures forall c: char :: Value(c) >= 0 ==> c < '\U{0100}'
  {
  }

  /** The range loop: `Content-Length` goes to the HTTP/2 response itself, client headers are collected. */
  method Classify(prior: Header, header: Header) returns (dest: Header, user: Header)
    ensures dest.Keys == prior.Keys + set name | name in header && IsContentLength(name)
    ensures forall name :: name in dest ==>
              dest[name] == if name in header && IsContentLength(name) then header[name] else prior[name]
    ensures user == map name | name in header && ForClient(name) :: header[name]
  {
    hide IsContentLength, ForClient;
    dest, user := prior, map[];
    var names := header.Keys;
    while names != {}
      invariant names <= header.Keys
      invariant forall name ::
                  name in dest <==> name in prior || (name in header && name !in names && IsContentLength(name))
      invariant forall name :: name in dest ==>
                  dest[name]
                  == if name in header && name !in names && IsContentLength(name) then header[name] else prior[name]
      invariant forall name :: name in user <==> name in header && name !in names && ForClient(name)
      invariant forall name :: name in user ==> user[name] == header[name]
      decreases |names|
    {
      var name :| name in names;
      if IsContentLength(name) {
        dest := dest[name := header[name]];
      }
      if ForClient(name) {
        user := user[name := header[name]];
      }
      names := names - {name};
    }
  }

  /** For every response header, the edge decodes exactly the client headers, each with its values in order; the
      Content-Length entries are copied, the source is marked, and nothing else of the response changes. */
  method RespHeaders(prior: Header, header: Header) returns (dest: Header)
    ensures USER_HEADERS_KEY in dest && |dest[USER_HEADERS_KEY]| == 1 && EdgeReads(dest[USER_HEADERS_KEY][0], header)
    ensures META_KEY in dest && dest[META_KEY] == [ORIGIN_META]
    ensures dest.Keys == prior.Keys + {USER_HEADERS_KEY, META_KEY} + set name | name in header && IsContentLength(name)
    ensures forall name :: name in dest && name != USER_HEADERS_KEY && name != META_KEY ==>
              dest[name] == if name in header && IsContentLength(name) then header[name] else prior[name]
  {
    hide IsContentLength, ForClient, Wire, Deserialize, Values, Pairs;
    var user;
    dest, user := Classify(prior, header);
    var text := SerializeHeaders(user);
    ghost var order :| IsOrder(user, order) && text == Wire(Pairs(user, order));
    WireIsBytes(Pairs(user, order));
    var value: Bytes := text;
    assert EdgeReads(value, header);
    KeysDiffer();
    dest := dest[USER_HEADERS_KEY := [value]];
    dest := dest[META_KEY := [ORIGIN_META]];
  }
}
