/** The edge header wire format: base64 name and value joined by ':', pairs joined by ';'. */
module HeaderCodec {
  import opened Results
  import opened Base64
  import Text

  datatype HTTPHeader = HTTPHeader(name: Bytes, value: Bytes)

  /** A Go `http.Header`, keyed by names exactly as written. */
  type Header = map<Bytes, seq<Bytes>>

  // ----- the wire format -----

  function PairText(p: HTTPHeader): string {
    Encode(p.name) + ":" + Encode(p.value)
  }

  function Wire(pairs: seq<HTTPHeader>): string
    decreases |pairs|
  {
    if pairs == [] then ""
    else if |pairs| == 1 then PairText(pairs[0])
    else PairText(pairs[0]) + ";" + Wire(pairs[1..])
  }

  /** One piece between semicolons: `None` unless it is two decodable parts. */
  function ParsePair(piece: string): Option<HTTPHeader> {
    var parts := Text.Split(piece, ':');
    if |parts| != 2 then None
    else match (DecodeBuffer(parts[0]), DecodeBuffer(parts[1]))
         case (Some(name), Some(value)) => Some(HTTPHeader(name, value))
         case _ => None
  }

  /** Empty pieces are skipped; the first bad piece fails the whole text. */
  function ParsePieces(pieces: seq<string>): Option<seq<HTTPHeader>>
    decreases |pieces|
  {
    if pieces == [] then Some([])
    else if pieces[0] == "" then ParsePieces(pieces[1..])
    else match (ParsePair(pieces[0]), ParsePieces(pieces[1..]))
         case (Some(p), Some(rest)) => Some([p] + rest)
         case _ => None
  }

  function Deserialize(s: string): Option<seq<HTTPHeader>> {
    ParsePieces(Text.Split(s, ';'))
  }

  // ----- the header map in some iteration order -----

  /** An order in which a range loop may visit the map. */
  ghost predicate IsOrder(h: Header, order: seq<Bytes>) {
    && (forall k :: 0 <= k < |order| ==> order[k] in h)
    && (forall name :: name in h ==> name in order)
    && (forall j, k :: 0 <= j < k < |order| ==> order[j] != order[k])
  }

  function PairsOf(name: Bytes, values: seq<Bytes>): seq<HTTPHeader> {
    seq(|values|, k requires 0 <= k < |values| => HTTPHeader(name, values[k]))
  }

  predicate Within(h: Header, order: seq<Bytes>) {
    forall k :: 0 <= k < |order| ==> order[k] in h
  }

  /** The (name, value) pairs in the order the loop emits them. */
  function Pairs(h: Header, order: seq<Bytes>): seq<HTTPHeader>
    requires Within(h, order)
  {
    if order == [] then []
    else Pairs(h, order[..|order| - 1]) + PairsOf(order[|order| - 1], h[order[|order| - 1]])
  }

  /** The values listed for one name, in order. */
  function Values(pairs: seq<HTTPHeader>, name: Bytes): seq<Bytes> {
    if pairs == [] then []
    else
      var last := pairs[|pairs| - 1];
      Values(pairs[..|pairs| - 1], name) + if last.name == name then [last.value] else []
  }

  // ----- sizes -----

  function PairSize(p: HTTPHeader): nat {
    2 + EncodedLen(|p.name|) + EncodedLen(|p.value|)
  }

  /** The first loop's `serializedLen`: one byte per pair more than is needed between them. */
  function Size(pairs: seq<HTTPHeader>): nat {
    if pairs == [] then 0 else Size(pairs[..|pairs| - 1]) + PairSize(pairs[|pairs| - 1])
  }

  predicate FitsPair(p: HTTPHeader, room: nat) {
    EncodedLen(|p.name|) <= room && EncodedLen(|p.value|) <= room
  }

  predicate Fits(pairs: seq<HTTPHeader>, room: nat) {
    forall k :: 0 <= k < |pairs| ==> FitsPair(pairs[k], room)
  }

  lemma SizeAppend(pairs: seq<HTTPHeader>, p: HTTPHeader)
    ensures Size(pairs + [p]) == Size(pairs) + PairSize(p)
  {
    assert (pairs + [p])[..|pairs|] == pairs;
  }

  lemma {:induction false} SizeConcat(a: seq<HTTPHeader>, b: seq<HTTPHeader>)
    ensures Size(a + b) == Size(a) + Size(b)
    decreases |b|
  {
    hide PairSize;
    if b == [] {
      assert a + b == a;
    } else {
      var n := |b| - 1;
      assert a + b == (a + b[..n]) + [b[n]];
      SizeAppend(a + b[..n], b[n]);
      SizeConcat(a, b[..n]);
    }
  }

  lemma PairsAppend(h: Header, order: seq<Bytes>, name: Bytes)
    requires Within(h, order) && name in h
    ensures Within(h, order + [name])
    ensures Pairs(h, order + [name]) == Pairs(h, order) + PairsOf(name, h[name])
  {
    assert (order + [name])[..|order|] == order;
  }

  lemma {:induction false} PairsConcat(h: Header, a: seq<Bytes>, b: seq<Bytes>)
    requires Within(h, a) && Within(h, b)
    ensures Within(h, a + b) && Pairs(h, a + b) == Pairs(h, a) + Pairs(h, b)
    decreases |b|
  {
    hide PairsOf;
    if b == [] {
      assert a + b == a;
    } else {
      var n := |b| - 1;
      assert a + b == (a + b[..n]) + [b[n]];
      PairsConcat(h, a, b[..n]);
      PairsAppend(h, a + b[..n], b[n]);
    }
  }

  /** Two visiting orders of the same names emit pairs of the same total size. */
  lemma {:induction false} SizeIgnoresOrder(h: Header, a: seq<Bytes>, b: seq<Bytes>)
    requires Within(h, a) && Within(h, b)
    requires forall name :: name in a <==> name in b
    requires forall j, k :: 0 <= j < k < |a| ==> a[j] != a[k]
    requires forall j, k :: 0 <= j < k < |b| ==> b[j] != b[k]
    ensures Size(Pairs(h, a)) == Size(Pairs(h, b))
    decreases |a|
  {
    hide PairSize, PairsOf, Size;
    assert b != [] ==> b[0] in b;
    if a == [] {
    } else {
      var n := |a| - 1;
      var x := a[n];
      assert x in b;
      var i :| 0 <= i < |b| && b[i] == x;
      var rest := b[..i] + b[i + 1..];
      Removed(a, n);
      Removed(b, i);
      SizeIgnoresOrder(h, a[..n], rest);
      SizeWithout(h, b, i);
      SizeConcat(Pairs(h, a[..n]), PairsOf(x, h[x]));
    }
  }

  lemma Removed(s: seq<Bytes>, i: nat)
    requires i < |s| && forall j, k :: 0 <= j < k < |s| ==> s[j] != s[k]
    ensures var rest := s[..i] + s[i + 1..];
            (forall x :: x in rest <==> x in s && x != s[i]) && (i + 1 == |s| ==> rest == s[..i])
            && (forall j, k :: 0 <= j < k < |rest| ==> rest[j] != rest[k])
  {
    var rest := s[..i] + s[i + 1..];
    forall x
      ensures x in rest <==> x in s && x != s[i]
    {
      if x in s && x != s[i] {
        var k :| 0 <= k < |s| && s[k] == x;
        assert rest[if k < i then k else k - 1] == x;
      }
    }
  }

  lemma SizeWithout(h: Header, b: seq<Bytes>, i: nat)
    requires Within(h, b) && i < |b|
    ensures var rest := b[..i] + b[i + 1..];
            Within(h, rest) && Size(Pairs(h, b)) == Size(Pairs(h, rest)) + Size(PairsOf(b[i], h[b[i]]))
  {
    hide Size, PairsOf;
    var x := b[i];
    assert b == (b[..i] + [x]) + b[i + 1..];
    PairsConcat(h, b[..i], b[i + 1..]);
    PairsAppend(h, b[..i], x);
    PairsConcat(h, b[..i] + [x], b[i + 1..]);
    SizeConcat(Pairs(h, b[..i]), PairsOf(x, h[x]));
    SizeConcat(Pairs(h, b[..i]) + PairsOf(x, h[x]), Pairs(h, b[i + 1..]));
    SizeConcat(Pairs(h, b[..i]), Pairs(h, b[i + 1..]));
  }

  lemma {:induction false} WireAppend(pairs: seq<HTTPHeader>, p: HTTPHeader)
    ensures Wire(pairs + [p]) == (if pairs == [] then "" else Wire(pairs) + ";") + PairText(p)
    decreases |pairs|
  {
    hide PairText;
    if |pairs| >= 1 {
      assert (pairs + [p])[1..] == pairs[1..] + [p];
      WireAppend(pairs[1..], p);
    }
  }

  /** The output is exactly one character shorter than the size computed for it, unless it is empty. */
  lemma {:induction false} WireLength(pairs: seq<HTTPHeader>)
    ensures |Wire(pairs)| == (if pairs == [] then 0 else Size(pairs) - 1)
    ensures Wire(pairs) == "" <==> pairs == []
    decreases |pairs|
  {
    hide EncodedLen, Encode;
    if pairs != [] {
      var n := |pairs| - 1;
      assert pairs == pairs[..n] + [pairs[n]];
      WireLength(pairs[..n]);
      WireAppend(pairs[..n], pairs[n]);
      SizeAppend(pairs[..n], pairs[n]);
      EncodeLength(pairs[n].name);
      EncodeLength(pairs[n].value);
    }
  }

  // ----- serializing -----

  /** Encodes into the scratch buffer, which is replaced only when too small. */
  method WriteB64(temp: array<char>, buf: string, s: Bytes) returns (scratch: array<char>, out: string)
    modifies temp
    ensures out == buf + Encode(s)
    ensures if EncodedLen(|s|) <= temp.Length then scratch == temp else fresh(scratch)
  {
    var n := EncodedLen(|s|);
    EncodeLength(s);
    scratch := temp;
    if n > scratch.Length {
      scratch := new char[n];
    }
    var symbols := Encode(s);
    forall i | 0 <= i < n {
      scratch[i] := symbols[i];
    }
    assert scratch[..n] == symbols;
    out := buf + scratch[..n];
  }

  /** The sizing loop over one name's values. */
  method Measure(name: Bytes, values: seq<Bytes>, total: nat, widest: nat) returns (size: nat, room: nat)
    ensures size == total + Size(PairsOf(name, values))
    ensures room >= widest && Fits(PairsOf(name, values), room)
  {
    hide EncodedLen;
    size, room := total, widest;
    ghost var all := PairsOf(name, values);
    for i := 0 to |values|
      invariant size == total + Size(all[..i])
      invariant room >= widest && Fits(all[..i], room)
    {
      var nameLen := EncodedLen(|name|);
      var valueLen := EncodedLen(|values[i]|);
      size := size + 2 + nameLen + valueLen;
      if nameLen > room {
        room := nameLen;
      }
      if valueLen > room {
        room := valueLen;
      }
      assert all[..i + 1] == all[..i] + [all[i]];
      SizeAppend(all[..i], all[i]);
    }
    assert all[..|values|] == all;
  }

  /** One pass of the writing loop. */
  method EmitPair(temp: array<char>, buf: string, ghost p: HTTPHeader, name: Bytes, value: Bytes,
                  ghost done: seq<HTTPHeader>) returns (out: string)
    requires p == HTTPHeader(name, value) && buf == Wire(done) && FitsPair(p, temp.Length)
    modifies temp
    ensures out == Wire(done + [p])
  {
    hide Encode, EncodedLen, Wire;
    out := buf;
    WireLength(done);
    if |out| > 0 {
      out := out + ";";
    }
    var scratch;
    scratch, out := WriteB64(temp, out, name);
    assert scratch == temp;
    out := out + ":";
    scratch, out := WriteB64(scratch, out, value);
    assert scratch == temp;
    WireAppend(done, p);
  }

  /** The writing loop over one name's values; the scratch buffer never has to grow. */
  method Emit(temp: array<char>, buf: string, name: Bytes, values: seq<Bytes>, ghost done: seq<HTTPHeader>)
    returns (out: string)
    requires buf == Wire(done) && Fits(PairsOf(name, values), temp.Length)
    modifies temp
    ensures out == Wire(done + PairsOf(name, values))
  {
    hide Wire, FitsPair;
    ghost var all := PairsOf(name, values);
    out := buf;
    assert done + all[..0] == done;
    for i := 0 to |values|
      invariant out == Wire(done + all[..i])
    {
      out := EmitPair(temp, out, all[i], name, values[i], done + all[..i]);
      assert done + all[..i + 1] == (done + all[..i]) + [all[i]];
    }
    assert all[..|values|] == all;
  }

  /** The first range loop: total size and the widest part, the same whichever order the loop takes. */
  method MeasureAll(h: Header) returns (serializedLen: nat, maxTempLen: nat)
    ensures forall o :: IsOrder(h, o) ==> serializedLen == Size(Pairs(h, o)) && RoomForAll(h, o, maxTempLen)
  {
    hide Size, PairsOf, Fits, Pairs, RoomForAll;
    serializedLen, maxTempLen := 0, 0;
    var names := h.Keys;
    ghost var order: seq<Bytes> := [];
    StartMeasuring(h);
    while names != {}
      invariant Visiting(h, order, names)
      invariant serializedLen == Size(Pairs(h, order)) && RoomForAll(h, order, maxTempLen)
      decreases |names|
    {
      var name :| name in names;
      ghost var before := maxTempLen;
      serializedLen, maxTempLen := Measure(name, h[name], serializedLen, maxTempLen);
      MoreRoom(h, order, name, before, maxTempLen);
      PairsAppend(h, order, name);
      SizeConcat(Pairs(h, order), PairsOf(name, h[name]));
      order := order + [name];
      names := names - {name};
    }
    forall o | IsOrder(h, o)
      ensures serializedLen == Size(Pairs(h, o)) && RoomForAll(h, o, maxTempLen)
    {
      SizeIgnoresOrder(h, order, o);
      RoomIgnoresOrder(h, order, o, maxTempLen);
    }
  }

  /** The second range loop, in an order of its own. */
  method EmitAll(h: Header, temp: array<char>) returns (out: string, ghost order: seq<Bytes>)
    requires forall o :: IsOrder(h, o) ==> RoomForAll(h, o, temp.Length)
    modifies temp
    ensures IsOrder(h, order) && out == Wire(Pairs(h, order))
  {
    hide PairsOf, Fits, Wire, Pairs;
    ghost var some := SomeOrder(h);
    out, order := "", [];
    var names := h.Keys;
    assert Wire(Pairs(h, order)) == "" by { StartEmitting(h); }
    while names != {}
      invariant Visiting(h, order, names)
      invariant out == Wire(Pairs(h, order))
      decreases |names|
    {
      var name :| name in names;
      assert name in some;
      out := Emit(temp, out, name, h[name], Pairs(h, order));
      PairsAppend(h, order, name);
      order := order + [name];
      names := names - {name};
    }
  }

  /** The output is the framed pairs in some order of the map, exactly one character shorter than the size reserved
      for it, and the edge reads back each name's values in order and nothing else. */
  method SerializeHeaders(h: Header) returns (out: string)
    ensures exists order :: IsOrder(h, order) && out == Wire(Pairs(h, order))
    ensures forall o :: IsOrder(h, o) ==> |out| == if Pairs(h, o) == [] then 0 else Size(Pairs(h, o)) - 1
    ensures Deserialize(out).Some?
            && forall name :: Values(Deserialize(out).value, name) == if name in h then h[name] else []
  {
    hide Size, PairsOf, Fits, Wire, Pairs, RoomForAll, Values, Deserialize;
    var serializedLen, maxTempLen := MeasureAll(h);
    var temp := new char[maxTempLen];
    ghost var order;
    out, order := EmitAll(h, temp);
    SerializeRoundTrip(h, order);
    WireLength(Pairs(h, order));
    forall o | IsOrder(h, o)
      ensures |out| == if Pairs(h, o) == [] then 0 else Size(Pairs(h, o)) - 1
    {
      WireLength(Pairs(h, o));
      EmptySize(Pairs(h, o));
      EmptySize(Pairs(h, order));
    }
  }

  lemma EmptySize(pairs: seq<HTTPHeader>)
    ensures Size(pairs) == 0 <==> pairs == []
  {
  }

  lemma {:induction false} OrderOf(h: Header, names: set<Bytes>) returns (order: seq<Bytes>)
    requires names <= h.Keys
    ensures Visiting(h, order, h.Keys - names)
    decreases |names|
  {
    if names == {} {
      order := [];
    } else {
      var name :| name in names;
      order := OrderOf(h, names - {name});
      order := order + [name];
    }
  }

  lemma SomeOrder(h: Header) returns (order: seq<Bytes>)
    ensures IsOrder(h, order)
  {
    order := OrderOf(h, h.Keys);
  }

  lemma RoomIgnoresOrder(h: Header, a: seq<Bytes>, b: seq<Bytes>, room: nat)
    requires Within(h, a) && Within(h, b) && RoomForAll(h, a, room) && forall name :: name in b ==> name in a
    ensures RoomForAll(h, b, room)
  {
    hide PairsOf, Fits;
    forall k | 0 <= k < |b|
      ensures Fits(PairsOf(b[k], h[b[k]]), room)
    {
      assert b[k] in a;
    }
  }

  predicate RoomForAll(h: Header, order: seq<Bytes>, room: nat)
    requires Within(h, order)
  {
    forall k :: 0 <= k < |order| ==> Fits(PairsOf(order[k], h[order[k]]), room)
  }

  lemma StartMeasuring(h: Header)
    ensures Size(Pairs(h, [])) == 0 && RoomForAll(h, [], 0)
  {
  }

  lemma StartEmitting(h: Header)
    ensures Wire(Pairs(h, [])) == ""
  {
  }

  lemma MoreRoom(h: Header, order: seq<Bytes>, name: Bytes, room: nat, more: nat)
    requires Within(h, order) && name in h && RoomForAll(h, order, room) && room <= more
    requires Fits(PairsOf(name, h[name]), more)
    ensures RoomForAll(h, order + [name], more)
  {
    hide PairsOf, Fits;
    forall k | 0 <= k < |order|
      ensures Fits(PairsOf(order[k], h[order[k]]), more)
    {
      FitsMore(PairsOf(order[k], h[order[k]]), room, more);
    }
  }

  /** Halfway through a range loop. */
  ghost predicate Visiting(h: Header, visited: seq<Bytes>, left: set<Bytes>) {
    && Within(h, visited)
    && (forall name :: name in h <==> name in left || name in visited)
    && (forall k :: 0 <= k < |visited| ==> visited[k] !in left)
    && (forall j, k :: 0 <= j < k < |visited| ==> visited[j] != visited[k])
  }

  lemma FitsMore(pairs: seq<HTTPHeader>, room: nat, more: nat)
    requires Fits(pairs, room) && room <= more
    ensures Fits(pairs, more)
  {
    hide EncodedLen;
  }

  // ----- deserializing -----

  method DeserializeHeaders(s: string) returns (r: Option<seq<HTTPHeader>>)
    ensures r == Deserialize(s)
  {
    hide ParsePair;
    var pieces := Text.Split(s, ';');
    var deserialized: seq<HTTPHeader> := [];
    var i := 0;
    assert pieces[0..] == pieces;
    assert forall rest: seq<HTTPHeader> :: deserialized + rest == rest;
    while i < |pieces|
      invariant i <= |pieces|
      invariant match ParsePieces(pieces[i..])
                case Some(rest) => Deserialize(s) == Some(deserialized + rest)
                case None => Deserialize(s) == None
    {
      ghost var left := pieces[i..];
      assert left[0] == pieces[i] && left[1..] == pieces[i + 1..];
      if |pieces[i]| != 0 {
        var p := ReadPair(pieces[i]);
        if p.None? {
          return None;
        }
        assert forall rest :: deserialized + ([p.value] + rest) == (deserialized + [p.value]) + rest;
        deserialized := deserialized + [p.value];
      }
      i := i + 1;
    }
    assert pieces[i..] == [] && deserialized + [] == deserialized;
    return Some(deserialized);
  }

  method ReadPair(piece: string) returns (r: Option<HTTPHeader>)
    ensures r == ParsePair(piece)
  {
    var parts := Text.Split(piece, ':');
    if |parts| != 2 {
      return None;
    }
    var name := DecodeBuffer(parts[0]);
    if name.None? {
      return None;
    }
    var value := DecodeBuffer(parts[1]);
    if value.None? {
      return None;
    }
    return Some(HTTPHeader(name.value, value.value));
  }

  // ----- round trip -----

  lemma PairRoundTrip(p: HTTPHeader)
    ensures ParsePair(PairText(p)) == Some(p)
    ensures ';' !in PairText(p) && PairText(p) != ""
  {
    hide Encode, DecodeBuffer;
    EncodeFree(p.name, ':');
    EncodeFree(p.value, ':');
    EncodeFree(p.name, ';');
    EncodeFree(p.value, ';');
    Text.SplitFirst(Encode(p.name), ':', Encode(p.value));
    Text.SplitNone(Encode(p.value), ':');
    BufferRoundTrip(p.name);
    BufferRoundTrip(p.value);
    assert ";"[0] == ';';
  }

  /** Every list of pairs, empty names and values included, is read back from its wire form. */
  lemma {:induction false} WireRoundTrip(pairs: seq<HTTPHeader>)
    ensures Deserialize(Wire(pairs)) == Some(pairs)
    decreases |pairs|
  {
    hide ParsePair, PairText;
    if pairs == [] {
      Text.SplitNone("", ';');
      assert [""][1..] == [];
    } else {
      var first := PairText(pairs[0]);
      PairRoundTrip(pairs[0]);
      if |pairs| == 1 {
        Text.SplitNone(first, ';');
        assert pairs == [pairs[0]] + [];
        assert [first][1..] == [];
        assert ParsePieces([first][1..]) == Some([]);
      } else {
        var rest := Wire(pairs[1..]);
        Text.SplitFirst(first, ';', rest);
        WireRoundTrip(pairs[1..]);
        assert Text.Split(first + ";" + rest, ';')[1..] == Text.Split(rest, ';');
        assert [pairs[0]] + pairs[1..] == pairs;
      }
    }
  }

  lemma {:induction false} ValuesConcat(a: seq<HTTPHeader>, b: seq<HTTPHeader>, name: Bytes)
    ensures Values(a + b, name) == Values(a, name) + Values(b, name)
    decreases |b|
  {
    if b == [] {
      assert a + b == a;
    } else {
      var n := |b| - 1;
      assert (a + b)[..|a| + n] == a + b[..n];
      ValuesConcat(a, b[..n], name);
    }
  }

  lemma {:induction false} ValuesOfOne(name: Bytes, values: seq<Bytes>, other: Bytes)
    ensures Values(PairsOf(name, values), other) == if name == other then values else []
    decreases |values|
  {
    if values != [] {
      var n := |values| - 1;
      assert PairsOf(name, values)[..n] == PairsOf(name, values[..n]);
      ValuesOfOne(name, values[..n], other);
      assert values[..n] + [values[n]] == values;
    }
  }

  lemma {:induction false} ValuesInOrder(h: Header, order: seq<Bytes>, name: Bytes)
    requires Within(h, order) && forall j, k :: 0 <= j < k < |order| ==> order[j] != order[k]
    ensures Values(Pairs(h, order), name) == if name in order then h[name] else []
    decreases |order|
  {
    hide Values, PairsOf;
    if order == [] {
      assert Values([], name) == [] by { NoValues(name); }
    } else {
      var n := |order| - 1;
      ValuesInOrder(h, order[..n], name);
      ValuesConcat(Pairs(h, order[..n]), PairsOf(order[n], h[order[n]]), name);
      ValuesOfOne(order[n], h[order[n]], name);
    }
  }

  lemma NoValues(name: Bytes)
    ensures Values([], name) == []
  {
  }

  /** For every header map and every iteration order, what is read back lists for each name exactly its values in
      order. */
  lemma SerializeRoundTrip(h: Header, order: seq<Bytes>)
    requires IsOrder(h, order)
    ensures Deserialize(Wire(Pairs(h, order))) == Some(Pairs(h, order))
    ensures forall name :: Values(Pairs(h, order), name) == if name in h then h[name] else []
  {
    hide Values, Pairs, Wire, Deserialize;
    WireRoundTrip(Pairs(h, order));
    forall name: Bytes
      ensures Values(Pairs(h, order), name) == if name in h then h[name] else []
    {
      ValuesInOrder(h, order, name);
    }
  }

  // ----- what the deserializer accepts -----

  /** The decoder's half of a part: alphabet characters and line breaks, the former not one more than a multiple of
      four. */
  predicate Decodable(s: string) {
    var symbols := SkipBreaks(s);
    |symbols| % 4 != 1 && forall k :: 0 <= k < |symbols| ==> Value(symbols[k]) >= 0
  }

  predicate PieceAccepted(piece: string) {
    piece == "" || (|Text.Split(piece, ':')| == 2 && forall part :: part in Text.Split(piece, ':') ==> Decodable(part))
  }

  lemma PairAcceptedIff(piece: string)
    requires piece != ""
    ensures ParsePair(piece).Some? <==> PieceAccepted(piece)
  {
    hide Text.Split, SkipBreaks, Value, Decode;
    var parts := Text.Split(piece, ':');
    if |parts| == 2 {
      DecodeSucceedsIff(SkipBreaks(parts[0]));
      DecodeSucceedsIff(SkipBreaks(parts[1]));
      assert Decodable(parts[0]) <==> DecodeBuffer(parts[0]).Some?;
      assert Decodable(parts[1]) <==> DecodeBuffer(parts[1]).Some?;
    }
  }

  /** Exactly the texts accepted, and an error for every other. */
  lemma DeserializeSucceedsIff(s: string)
    ensures Deserialize(s).Some? <==> forall piece :: piece in Text.Split(s, ';') ==> PieceAccepted(piece)
  {
    hide Text.Split, ParsePieces, PieceAccepted;
    PiecesAcceptedIff(Text.Split(s, ';'));
  }

  lemma {:induction false} PiecesAcceptedIff(pieces: seq<string>)
    ensures ParsePieces(pieces).Some? <==> forall piece :: piece in pieces ==> PieceAccepted(piece)
    decreases |pieces|
  {
    hide ParsePair, PieceAccepted;
    if pieces != [] {
      PiecesAcceptedIff(pieces[1..]);
      assert pieces == [pieces[0]] + pieces[1..];
      if pieces[0] == "" {
        EmptyPieceAccepted();
      } else {
        PairAcceptedIff(pieces[0]);
      }
    }
  }

  lemma EmptyPieceAccepted()
    ensures PieceAccepted("")
  {
  }
}
