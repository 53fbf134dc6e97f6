/** Base64 with the alphabet of section 4 of RFC 4648, unpadded as its section 3.2 allows (Go's RawStdEncoding). */
module Base64 {
  import opened Results

  type Byte = c: char | c < '\U{0100}'
  type Bytes = seq<Byte>

  function ToByte(v: int): Byte
    requires 0 <= v < 256
  {
    v as char
  }

  function Symbol(v: int): char
    requires 0 <= v < 64
  {
    if v < 26 then 'A' + (v as char)
    else if v < 52 then 'a' + ((v - 26) as char)
    else if v < 62 then '0' + ((v - 52) as char)
    else if v == 62 then '+' else '/'
  }

  /** The value of an alphabet character, -1 for every other character. */
  function Value(c: char): (v: int)
    ensures -1 <= v < 64
  {
    if 'A' <= c <= 'Z' then c as int - 'A' as int
    else if 'a' <= c <= 'z' then c as int - 'a' as int + 26
    else if '0' <= c <= '9' then c as int - '0' as int + 52
    else if c == '+' then 62
    else if c == '/' then 63
    else -1
  }

  const UPPER := "ABCDEFGHIJKLMNOPQRSTUVWXYZ"
  const LOWER := "abcdefghijklmnopqrstuvwxyz"
  const DIGITS := "0123456789"

  lemma UpperAt(v: int)
    requires 0 <= v < 26
    ensures |UPPER| == 26 && UPPER[v] as int == 'A' as int + v
  {
    assert v == 0 || v == 1 || v == 2 || v == 3 || v == 4 || v == 5 || v == 6 || v == 7 || v == 8 || v == 9 ||
        v == 10 || v == 11 || v == 12 || v == 13 || v == 14 || v == 15 || v == 16 || v == 17 || v == 18 ||
        v == 19 || v == 20 || v == 21 || v == 22 || v == 23 || v == 24 || v == 25;
  }

  lemma LowerAt(v: int)
    requires 0 <= v < 26
    ensures |LOWER| == 26 && LOWER[v] as int == 'a' as int + v
  {
    assert v == 0 || v == 1 || v == 2 || v == 3 || v == 4 || v == 5 || v == 6 || v == 7 || v == 8 || v == 9 ||
        v == 10 || v == 11 || v == 12 || v == 13 || v == 14 || v == 15 || v == 16 || v == 17 || v == 18 ||
        v == 19 || v == 20 || v == 21 || v == 22 || v == 23 || v == 24 || v == 25;
  }

  lemma DigitAt(v: int)
    requires 0 <= v < 10
    ensures |DIGITS| == 10 && DIGITS[v] as int == '0' as int + v
  {
    assert v == 0 || v == 1 || v == 2 || v == 3 || v == 4 || v == 5 || v == 6 || v == 7 || v == 8 || v == 9;
  }

  /** The symbols in their order, as table 1 of RFC 4648 lists them. */
  lemma SymbolsAreTheAlphabet(v: int)
    requires 0 <= v < 64
    ensures |UPPER| == |LOWER| == 26 && |DIGITS| == 10
    ensures Symbol(v) == (UPPER + LOWER + DIGITS + "+/")[v]
  {
    hide UPPER, LOWER, DIGITS;
    UpperAt(if v < 26 then v else 0);
    LowerAt(if 26 <= v < 52 then v - 26 else 0);
    DigitAt(if 52 <= v < 62 then v - 52 else 0);
    var all := UPPER + LOWER + DIGITS + "+/";
    assert v < 26 ==> all[v] == UPPER[v];
    assert 26 <= v < 52 ==> all[v] == LOWER[v - 26];
    assert 52 <= v < 62 ==> all[v] == DIGITS[v - 52];
    assert 62 <= v ==> all[v] == "+/"[v - 62];
  }

  function EncodedLen(n: nat): nat {
    n / 3 * 4 + (n % 3 * 8 + 5) / 6
  }

  function DecodedLen(n: nat): nat {
    n * 6 / 8
  }

  /** The symbols of one group of up to three bytes. */
  function Group(b: Bytes): string
    requires 1 <= |b| <= 3
  {
    var b0 := b[0] as int;
    if |b| == 1 then [Symbol(b0 / 4), Symbol(b0 % 4 * 16)]
    else
      var b1 := b[1] as int;
      if |b| == 2 then [Symbol(b0 / 4), Symbol(b0 % 4 * 16 + b1 / 16), Symbol(b1 % 16 * 4)]
      else
        var b2 := b[2] as int;
        [Symbol(b0 / 4), Symbol(b0 % 4 * 16 + b1 / 16), Symbol(b1 % 16 * 4 + b2 / 64), Symbol(b2 % 64)]
  }

  function Encode(b: Bytes): string
    decreases |b|
  {
    if b == [] then "" else if |b| <= 3 then Group(b) else Group(b[..3]) + Encode(b[3..])
  }

  /** The bytes of one group of two to four symbols; surplus low bits are dropped unchecked. */
  function Ungroup(s: string): Option<Bytes>
    requires 1 <= |s| <= 4
  {
    if |s| == 1 || exists k :: 0 <= k < |s| && Value(s[k]) < 0 then None
    else
      var v0, v1 := Value(s[0]), Value(s[1]);
      var c0 := ToByte(v0 * 4 + v1 / 16);
      if |s| == 2 then Some([c0])
      else
        var v2 := Value(s[2]);
        var c1 := ToByte(v1 % 16 * 16 + v2 / 4);
        if |s| == 3 then Some([c0, c1]) else Some([c0, c1, ToByte(v2 % 4 * 64 + Value(s[3]))])
  }

  function Decode(s: string): Option<Bytes>
    decreases |s|
  {
    if s == "" then Some([])
    else if |s| <= 4 then Ungroup(s)
    else
      match (Ungroup(s[..4]), Decode(s[4..]))
      case (Some(first), Some(rest)) => Some(first + rest)
      case _ => None
  }

  /** The decoder skips line breaks. */
  function SkipBreaks(s: string): string {
    if s == "" then ""
    else (if s[0] == '\r' || s[0] == '\n' then "" else [s[0]]) + SkipBreaks(s[1..])
  }

  function Zeros(n: nat): Bytes {
    seq(n, _ => ToByte(0))
  }

  /** `Decode` into a buffer of `DecodedLen` bytes: what skipped line breaks leave unwritten stays zero. */
  function DecodeBuffer(s: string): Option<Bytes> {
    match Decode(SkipBreaks(s))
    case None => None
    case Some(b) => Some(b + Zeros(if |b| <= DecodedLen(|s|) then DecodedLen(|s|) - |b| else 0))
  }

  /** A whole group holds the bits of its bytes in order, the first byte's highest bit first. */
  lemma GroupIsBigEndian(b: Bytes)
    requires |b| == 3
    ensures |Group(b)| == 4
    ensures var v := (k: int) => if 0 <= k < 4 then Value(Group(b)[k]) else 0;
            ((v(0) * 64 + v(1)) * 64 + v(2)) * 64 + v(3) == (b[0] as int * 256 + b[1] as int) * 256 + b[2] as int
  {
    hide Symbol, Value;
    SymbolsHaveValues();
  }

  /** A last group of one or two bytes is that of the bytes filled up with zero bits, cut off. */
  lemma GroupIsCutOff(b: Bytes)
    requires 1 <= |b| <= 2
    ensures Group(b) == Group(b + Zeros(3 - |b|))[..|b| + 1]
  {
  }

  // ----- round trip -----

  lemma SymbolsHaveValues()
    ensures forall v :: 0 <= v < 64 ==> Value(Symbol(v)) == v
  {
  }

  lemma GroupSymbols(b: Bytes)
    requires 1 <= |b| <= 3
    ensures |Group(b)| == |b| + 1
    ensures forall k :: 0 <= k < |Group(b)| ==> Value(Group(b)[k]) >= 0
  {
    hide Symbol, Value;
    SymbolsHaveValues();
  }

  lemma GroupRoundTrip(b: Bytes)
    requires 1 <= |b| <= 3
    ensures |Group(b)| == |b| + 1
    ensures forall k :: 0 <= k < |Group(b)| ==> Value(Group(b)[k]) >= 0
    ensures Ungroup(Group(b)) == Some(b)
  {
    hide Symbol, Value;
    GroupSymbols(b);
    SymbolsHaveValues();
    GroupBits(b[0] as int, if |b| > 1 then b[1] as int else 0, if |b| > 2 then b[2] as int else 0);
    assert Ungroup(Group(b)).value == b;
  }

  /** The arithmetic of one group. */
  lemma GroupBits(b0: int, b1: int, b2: int)
    requires 0 <= b0 < 256 && 0 <= b1 < 256 && 0 <= b2 < 256
    ensures b0 / 4 * 4 + (b0 % 4 * 16 + b1 / 16) / 16 == b0 && (b0 % 4 * 16) / 16 == b0 % 4
    ensures (b0 % 4 * 16 + b1 / 16) % 16 * 16 + (b1 % 16 * 4 + b2 / 64) / 4 == b1 && (b1 % 16 * 4) / 4 == b1 % 16
    ensures (b1 % 16 * 4 + b2 / 64) % 4 * 64 + b2 % 64 == b2
  {
  }

  /** Encoding then decoding gives the bytes back, for every byte string. */
  lemma {:induction false} RoundTrip(b: Bytes)
    ensures Decode(Encode(b)) == Some(b)
    decreases |b|
  {
    hide Group, Ungroup;
    if b != [] {
      if |b| <= 3 {
        GroupRoundTrip(b);
      } else {
        var first, rest := Group(b[..3]), Encode(b[3..]);
        GroupRoundTrip(b[..3]);
        RoundTrip(b[3..]);
        EncodeLength(b[3..]);
        assert (first + rest)[..4] == first && (first + rest)[4..] == rest;
        assert b[..3] + b[3..] == b;
      }
    }
  }

  lemma {:induction false} EncodeLength(b: Bytes)
    ensures |Encode(b)| == EncodedLen(|b|)
    decreases |b|
  {
    hide Group;
    if b != [] {
      if |b| <= 3 {
        GroupRoundTrip(b);
      } else {
        GroupRoundTrip(b[..3]);
        EncodeLength(b[3..]);
      }
    }
  }

  /** Every character of an encoding is in the alphabet, so neither a framing character nor a line break. */
  lemma {:induction false} EncodeAlphabet(b: Bytes)
    ensures forall k :: 0 <= k < |Encode(b)| ==> Value(Encode(b)[k]) >= 0
    decreases |b|
  {
    hide Group, Value;
    if b != [] {
      if |b| <= 3 {
        GroupRoundTrip(b);
      } else {
        GroupRoundTrip(b[..3]);
        EncodeAlphabet(b[3..]);
      }
    }
  }

  lemma OutsideAlphabet(c: char)
    requires c == ':' || c == ';' || c == '\r' || c == '\n'
    ensures Value(c) < 0
  {
  }

  lemma EncodeFree(b: Bytes, c: char)
    requires c == ':' || c == ';' || c == '\r' || c == '\n'
    ensures c !in Encode(b)
  {
    hide Encode, Value;
    EncodeAlphabet(b);
    OutsideAlphabet(c);
  }

  lemma {:induction false} SkipNothing(s: string)
    requires '\r' !in s && '\n' !in s
    ensures SkipBreaks(s) == s
  {
    if s != "" {
      assert s[0] in s;
      SkipNothing(s[1..]);
    }
  }

  /** Decoding an encoding into its buffer fills the buffer exactly. */
  lemma BufferRoundTrip(b: Bytes)
    ensures DecodeBuffer(Encode(b)) == Some(b)
  {
    hide Encode, Decode, EncodedLen;
    EncodeFree(b, '\r');
    EncodeFree(b, '\n');
    SkipNothing(Encode(b));
    RoundTrip(b);
    EncodeLength(b);
    DecodedOfEncodedLen(|b|);
    assert b + Zeros(0) == b;
  }

  lemma DecodedOfEncodedLen(n: nat)
    ensures DecodedLen(EncodedLen(n)) == n
  {
  }

  lemma UngroupSucceedsIff(s: string)
    requires 1 <= |s| <= 4
    ensures Ungroup(s).Some? <==> |s| != 1 && forall k :: 0 <= k < |s| ==> Value(s[k]) >= 0
    ensures Ungroup(s).Some? ==> |Ungroup(s).value| == DecodedLen(|s|)
  {
  }

  /** What the decoder accepts: alphabet characters only, in a number that is not one more than a multiple of four. */
  lemma {:induction false} DecodeSucceedsIff(s: string)
    ensures Decode(s).Some? <==> |s| % 4 != 1 && forall k :: 0 <= k < |s| ==> Value(s[k]) >= 0
    ensures Decode(s).Some? ==> |Decode(s).value| == DecodedLen(|s|)
    decreases |s|
  {
    hide Ungroup, Value;
    if s != "" {
      if |s| <= 4 {
        UngroupSucceedsIff(s);
      } else {
        UngroupSucceedsIff(s[..4]);
        DecodeSucceedsIff(s[4..]);
        forall k | 0 <= k < |s|
          ensures s[k] == if k < 4 then s[..4][k] else s[4..][k - 4]
        {
        }
      }
    }
  }

  lemma {:induction false} SkipShortens(s: string)
    ensures |SkipBreaks(s)| <= |s|
    ensures |SkipBreaks(s)| == |s| <==> '\r' !in s && '\n' !in s
  {
    if s != "" {
      SkipShortens(s[1..]);
    }
  }

  /** A successful decode always fits its buffer, and fills it exactly when line breaks took no whole byte's room. */
  lemma BufferLength(s: string)
    requires DecodeBuffer(s).Some?
    ensures |DecodeBuffer(s).value| == DecodedLen(|s|)
    ensures DecodeBuffer(s) == Decode(SkipBreaks(s)) <==> DecodedLen(|SkipBreaks(s)|) == DecodedLen(|s|)
  {
    hide Decode, SkipBreaks;
    SkipShortens(s);
    DecodeSucceedsIff(SkipBreaks(s));
    var b := Decode(SkipBreaks(s)).value;
    if |b| == DecodedLen(|s|) {
      assert b + Zeros(0) == b;
    }
  }

  /** One line break behind two symbols: the part for "A" decodes to "A" and a zero byte. */
  lemma LineBreakAddsZero()
    ensures Decode(SkipBreaks("QQ\n")) == Some(['A'])
    ensures DecodeBuffer("QQ\n") == Some(['A', '\0'])
  {
    assert SkipBreaks("") == "";
    assert "\n"[1..] == "" && SkipBreaks("\n") == "";
    assert "Q\n"[1..] == "\n" && SkipBreaks("Q\n") == "Q";
    assert "QQ\n"[1..] == "Q\n" && SkipBreaks("QQ\n") == "QQ";
    assert Value('Q') == 16 && Ungroup("QQ") == Some(['A']);
    var a: Bytes := ['A'];
    assert Zeros(1) == ['\0'] && a + Zeros(1) == ['A', '\0'];
    assert DecodedLen(|"QQ\n"|) - |a| == 1;
  }
}
