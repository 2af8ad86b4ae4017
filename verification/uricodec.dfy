/** Percent-encoding as ECMAScript's `encodeURIComponent` and `decodeURIComponent`
    perform it (section 2.1 of RFC 3986, code points carried as UTF-8 octets per
    RFC 3629). A failed decode stands for the URIError those functions throw. */
module UriCodec {
  import opened Wrappers
  import JsText

  /** The code points `encodeURIComponent` leaves alone: letters, digits and
      `- _ . ! ~ * ' ( )`. */
  predicate IsUnescaped(c: char) {
    || ('A' <= c <= 'Z') || ('a' <= c <= 'z') || ('0' <= c <= '9')
    || c == '-' || c == '_' || c == '.' || c == '!' || c == '~' || c == '*'
    || c == '\'' || c == '(' || c == ')'
  }

  /** True when every element is an octet. */
  predicate AreBytes(bs: seq<nat>) {
    forall i :: 0 <= i < |bs| ==> bs[i] < 256
  }

  /** Upper-case hex digit, as the encoder writes it. */
  function HexDigit(d: nat): (c: char)
    requires d < 16
    ensures IsUnescaped(c)
  {
    if d < 10 then ('0' as int + d) as char else ('A' as int + d - 10) as char
  }

  /** The value of a hex digit of either case, as the decoder reads it. */
  function HexValue(c: char): (r: Option<nat>)
    ensures r.Some? ==> r.value < 16
  {
    if '0' <= c <= '9' then Some(c as int - '0' as int)
    else if 'A' <= c <= 'F' then Some(c as int - 'A' as int + 10)
    else if 'a' <= c <= 'f' then Some(c as int - 'a' as int + 10)
    else None
  }

  /** One octet written as `%XY`. */
  function Escape(b: nat): (r: string)
    requires b < 256
  {
    ['%', HexDigit(b / 16), HexDigit(b % 16)]
  }

  /** Each octet written as `%XY`, in order. */
  function EscapeAll(bs: seq<nat>): (r: string)
    requires AreBytes(bs)
    ensures |r| == 3 * |bs|
    ensures forall i :: 0 <= i < |r| ==> IsUnescaped(r[i]) || r[i] == '%'
  {
    if bs == [] then [] else Escape(bs[0]) + EscapeAll(bs[1..])
  }

  /** The UTF-8 octets of a code point (section 3 of RFC 3629). */
  function Utf8(c: char): (bs: seq<nat>)
    ensures 1 <= |bs| <= 4 && AreBytes(bs)
  {
    var v := c as int;
    if v < 0x80 then [v]
    else if v < 0x800 then [0xC0 + v / 64, 0x80 + v % 64]
    else if v < 0x10000 then [0xE0 + v / 4096, 0x80 + (v / 64) % 64, 0x80 + v % 64]
    else [0xF0 + v / 262144, 0x80 + (v / 4096) % 64, 0x80 + (v / 64) % 64, 0x80 + v % 64]
  }

  /** How `encodeURIComponent` writes one code point. */
  function EncodeChar(c: char): string {
    if IsUnescaped(c) then [c] else EscapeAll(Utf8(c))
  }

  /** `encodeURIComponent`: only unescaped code points and `%` escapes come out. */
  function Encode(s: string): (r: string)
    ensures forall i :: 0 <= i < |r| ==> IsUnescaped(r[i]) || r[i] == '%'
  {
    if s == [] then [] else EncodeChar(s[0]) + Encode(s[1..])
  }

  /** The octet an escape `%XY` at the front of `s` stands for, if there is one. */
  function EscapedByte(s: string): (r: Option<nat>)
    ensures r.Some? ==> r.value < 256 && |s| >= 3
  {
    if |s| < 3 || s[0] != '%' then None
    else match (HexValue(s[1]), HexValue(s[2]))
      case (Some(h), Some(l)) => Some(16 * h + l)
      case _ => None
  }

  /** `count` consecutive escaped octets at the front of `s`, if they are there. */
  function EscapedBytes(s: string, count: nat): (r: Option<seq<nat>>)
    ensures r.Some? ==> |r.value| == count && 3 * count <= |s| && AreBytes(r.value)
  {
    if count == 0 then Some([])
    else match EscapedByte(s)
      case None => None
      case Some(b) =>
        match EscapedBytes(s[3..], count - 1)
        case None => None
        case Some(rest) => Some([b] + rest)
  }

  /** How many octets a UTF-8 lead octet announces: its leading one bits (1 marks a
      continuation octet, 5 stands for five or more). */
  function LeadingOnes(b: nat): nat {
    if b < 0x80 then 0
    else if b < 0xC0 then 1
    else if b < 0xE0 then 2
    else if b < 0xF0 then 3
    else if b < 0xF8 then 4
    else 5
  }

  /** A UTF-8 continuation octet, `10xxxxxx`. */
  predicate IsContinuation(b: nat) {
    0x80 <= b < 0xC0
  }

  /** The code point a multi-octet UTF-8 sequence encodes, or `None` when the octets
      are not a valid encoding: a bad continuation, an overlong form, a surrogate, or
      a value beyond U+10FFFF. */
  function Utf8Decode(bs: seq<nat>): (r: Option<char>)
    ensures r.Some? ==> r.value as int >= 0x80
  {
    if |bs| == 2 && 0xC0 <= bs[0] < 0xE0 && IsContinuation(bs[1]) then
      var v := (bs[0] - 0xC0) * 64 + (bs[1] - 0x80);
      if 0x80 <= v then Some(v as char) else None
    else if |bs| == 3 && 0xE0 <= bs[0] < 0xF0 && IsContinuation(bs[1]) && IsContinuation(bs[2]) then
      var v := (bs[0] - 0xE0) * 4096 + (bs[1] - 0x80) * 64 + (bs[2] - 0x80);
      if 0x800 <= v && !(0xD800 <= v < 0xE000) then Some(v as char) else None
    else if |bs| == 4 && 0xF0 <= bs[0] < 0xF8 && IsContinuation(bs[1]) && IsContinuation(bs[2])
      && IsContinuation(bs[3]) then
      var v := (bs[0] - 0xF0) * 262144 + (bs[1] - 0x80) * 4096 + (bs[2] - 0x80) * 64 + (bs[3] - 0x80);
      if 0x10000 <= v < 0x110000 then Some(v as char) else None
    else None
  }

  /** The escape sequence at the front of `s`: the code point it stands for and how
      many characters it spans, or `None` where `decodeURIComponent` throws. */
  function DecodeEscape(s: string): (r: Option<(char, nat)>)
    ensures r.Some? ==> 3 <= r.value.1 <= |s|
  {
    match EscapedByte(s)
    case None => None
    case Some(b) =>
      if b < 0x80 then Some((b as char, 3))
      else
        var n := LeadingOnes(b);
        if n == 1 || n > 4 then None
        else match EscapedBytes(s, n)
          case None => None
          case Some(bs) =>
            match Utf8Decode(bs)
            case None => None
            case Some(c) => Some((c, 3 * n))
  }

  /** `c` put in front of a decoded string; a failure stays a failure. */
  function Prepend(c: char, r: Option<string>): Option<string> {
    match r
    case None => None
    case Some(t) => Some([c] + t)
  }

  /** `decodeURIComponent`: every escape is decoded, everything else is copied. */
  function Decode(s: string): (r: Option<string>)
    ensures r.Some? ==> |r.value| <= |s|
    decreases |s|
  {
    if s == [] then Some([])
    else if s[0] != '%' then Prepend(s[0], Decode(s[1..]))
    else match DecodeEscape(s)
      case None => None
      case Some((c, used)) => Prepend(c, Decode(s[used..]))
  }

  // ---- The encoder and the decoder are inverse ---------------------------------------

  /** A hex digit written by the encoder reads back as its value. */
  lemma HexRoundTrip(d: nat)
    requires d < 16
    ensures HexValue(HexDigit(d)) == Some(d)
  {
  }

  /** An escape written by the encoder reads back as its octet. */
  lemma EscapeRoundTrip(b: nat, rest: string)
    requires b < 256
    ensures EscapedByte(Escape(b) + rest) == Some(b)
  {
    HexRoundTrip(b / 16);
    HexRoundTrip(b % 16);
  }

  /** A run of escapes written by the encoder reads back as its octets. */
  lemma {:induction false} EscapeAllRoundTrip(bs: seq<nat>, rest: string)
    requires AreBytes(bs)
    ensures EscapedBytes(EscapeAll(bs) + rest, |bs|) == Some(bs)
  {
    if bs != [] {
      var s := EscapeAll(bs) + rest;
      assert s == Escape(bs[0]) + (EscapeAll(bs[1..]) + rest);
      EscapeRoundTrip(bs[0], EscapeAll(bs[1..]) + rest);
      assert s[3..] == EscapeAll(bs[1..]) + rest;
      EscapeAllRoundTrip(bs[1..], rest);
      assert [bs[0]] + bs[1..] == bs;
    }
  }

  /** The UTF-8 octets of a code point past ASCII announce their own count and decode
      back to the code point. */
  lemma Utf8RoundTrip(c: char)
    requires c as int >= 0x80
    ensures LeadingOnes(Utf8(c)[0]) == |Utf8(c)|
    ensures Utf8Decode(Utf8(c)) == Some(c)
  {
    var v := c as int;
    if v < 0x800 {
      TwoOctets(v);
    } else if v < 0x10000 {
      ThreeOctets(v);
    } else {
      FourOctets(v);
    }
  }

  lemma TwoOctets(v: int)
    requires 0x80 <= v < 0x800
    ensures (0xC0 + v / 64 - 0xC0) * 64 + (0x80 + v % 64 - 0x80) == v
    ensures 0xC0 <= 0xC0 + v / 64 < 0xE0
  {
  }

  lemma ThreeOctets(v: int)
    requires 0x800 <= v < 0x10000
    ensures (0xE0 + v / 4096 - 0xE0) * 4096 + (0x80 + (v / 64) % 64 - 0x80) * 64
      + (0x80 + v % 64 - 0x80) == v
    ensures 0xE0 <= 0xE0 + v / 4096 < 0xF0
  {
    var q := v / 64;
    assert q / 64 == v / 4096;
    assert q == (q / 64) * 64 + q % 64;
    assert v == q * 64 + v % 64;
  }

  lemma FourOctets(v: int)
    requires 0x10000 <= v < 0x110000
    ensures (0xF0 + v / 262144 - 0xF0) * 262144 + (0x80 + (v / 4096) % 64 - 0x80) * 4096
      + (0x80 + (v / 64) % 64 - 0x80) * 64 + (0x80 + v % 64 - 0x80) == v
    ensures 0xF0 <= 0xF0 + v / 262144 < 0xF8
  {
    var q := v / 64;
    var p := v / 4096;
    assert q / 64 == p;
    assert p / 64 == v / 262144;
    assert p == (p / 64) * 64 + p % 64;
    assert q == p * 64 + q % 64;
    assert v == q * 64 + v % 64;
  }

  /** Decoding the encoding of one code point yields that code point and carries on
      right after it. */
  lemma DecodeEncodedChar(c: char, rest: string)
    ensures Decode(EncodeChar(c) + rest) == Prepend(c, Decode(rest))
  {
    if IsUnescaped(c) {
      assert (EncodeChar(c) + rest)[1..] == rest;
    } else if c as int < 0x80 {
      DecodeEscapedAscii(c, rest);
    } else {
      DecodeEscapedMultiByte(c, rest);
    }
  }

  lemma DecodeEscapedAscii(c: char, rest: string)
    requires !IsUnescaped(c) && c as int < 0x80
    ensures Decode(EncodeChar(c) + rest) == Prepend(c, Decode(rest))
  {
    var s := EncodeChar(c) + rest;
    assert EncodeChar(c) == Escape(c as int);
    EscapeRoundTrip(c as int, rest);
    assert DecodeEscape(s) == Some((c, 3));
    assert s[3..] == rest;
  }

  lemma DecodeEscapedMultiByte(c: char, rest: string)
    requires c as int >= 0x80
    ensures Decode(EncodeChar(c) + rest) == Prepend(c, Decode(rest))
  {
    var s := EncodeChar(c) + rest;
    EscapedMultiByte(c, rest);
    assert s[3 * |Utf8(c)|..] == rest;
  }

  /** The escapes the encoder writes for a code point past ASCII form one valid
      UTF-8 sequence standing for that code point. */
  lemma EscapedMultiByte(c: char, rest: string)
    requires c as int >= 0x80
    ensures DecodeEscape(EncodeChar(c) + rest) == Some((c, 3 * |Utf8(c)|))
    ensures 3 * |Utf8(c)| <= |EncodeChar(c) + rest|
  {
    var bs := Utf8(c);
    var s := EncodeChar(c) + rest;
    assert s == EscapeAll(bs) + rest by {
      assert !IsUnescaped(c);
    }
    EscapeAllRoundTrip(bs, rest);
    Utf8RoundTrip(c);
    assert EscapedByte(s) == Some(bs[0]);
  }

  /** `decodeURIComponent(encodeURIComponent(s)) === s` for every string. */
  lemma {:induction false} DecodeEncode(s: string)
    ensures Decode(Encode(s)) == Some(s)
  {
    if s != [] {
      DecodeEncodedChar(s[0], Encode(s[1..]));
      DecodeEncode(s[1..]);
      assert [s[0]] + s[1..] == s;
    }
  }

  /** Distinct strings have distinct encodings. */
  lemma EncodeInjective(s: string, t: string)
    requires Encode(s) == Encode(t)
    ensures s == t
  {
    DecodeEncode(s);
    DecodeEncode(t);
  }

  /** An encoded string holds no cookie delimiter (`;`, `=`) and no white space, so
      `split(';')`, `indexOf('=')` and `trim` leave it whole. */
  lemma EncodeAvoidsDelimiters(s: string)
    ensures ';' !in Encode(s) && '=' !in Encode(s)
    ensures JsText.NoTrimmable(Encode(s))
  {
    var r := Encode(s);
    forall i | 0 <= i < |r|
      ensures r[i] != ';' && r[i] != '=' && !JsText.IsTrimmable(r[i])
    {
      assert IsUnescaped(r[i]) || r[i] == '%';
    }
  }

  /** Text without `%` decodes to itself. */
  lemma {:induction false} DecodePlain(s: string)
    requires '%' !in s
    ensures Decode(s) == Some(s)
  {
    if s != [] {
      DecodePlain(s[1..]);
      assert [s[0]] + s[1..] == s;
    }
  }

  /** Text without `%` in front of the rest is copied and the rest decoded. */
  lemma {:induction false} DecodeAfterPlain(a: string, b: string)
    requires '%' !in a
    ensures Decode(a + b) == match Decode(b) case None => None case Some(t) => Some(a + t)
  {
    if a == [] {
      assert a + b == b;
      if Decode(b).Some? {
        assert a + Decode(b).value == Decode(b).value;
      }
    } else {
      assert (a + b)[1..] == a[1..] + b;
      DecodeAfterPlain(a[1..], b);
      assert [a[0]] + a[1..] == a;
      if Decode(b).Some? {
        assert [a[0]] + (a[1..] + Decode(b).value) == a + Decode(b).value;
      }
    }
  }

  /** An escaped space decodes to a space: `decodeURIComponent('hello%20world')` is
      `'hello world'`. */
  lemma DecodeEscapedSpace()
    ensures Decode("hello%20world") == Some("hello world")
  {
    SpaceEscape();
    HelloWorldText();
    DecodeEncodedChar(' ', "world");
    DecodePlain("world");
    DecodeAfterPlain("hello", "%20" + "world");
  }

  lemma SpaceEscape()
    ensures EncodeChar(' ') == "%20"
  {
    assert Utf8(' ') == [32];
    assert Escape(32) == "%20";
  }

  lemma HelloWorldText()
    ensures "hello%20world" == "hello" + ("%20" + "world")
    ensures "hello" + ([' '] + "world") == "hello world"
  {
  }

  /** A stray `%`, a non-hex digit or a truncated sequence makes
      `decodeURIComponent` throw. */
  lemma IncompleteEscapesFail()
    ensures Decode("%") == None
    ensures Decode("%zz") == None
    ensures Decode("%C3") == None
    ensures Decode("%C3%") == None
  {
    assert EscapedByte("%C3") == Some(0xC3);
    assert EscapedByte("%C3%") == Some(0xC3);
  }

  lemma EscapedBytesCons(s: string, count: nat, b: nat, rest: seq<nat>)
    requires count >= 1 && EscapedByte(s) == Some(b) && EscapedBytes(s[3..], count - 1) == Some(rest)
    ensures EscapedBytes(s, count) == Some([b] + rest)
  {
  }

  lemma EscapedContinuations()
    ensures EscapedBytes("%80", 1) == Some([0x80])
    ensures EscapedBytes("%80%80", 2) == Some([0x80, 0x80])
  {
    assert "%80"[3..] == [];
    EscapedBytesCons("%80", 1, 0x80, []);
    assert [0x80] + [] == [0x80];
    assert "%80%80"[3..] == "%80";
    EscapedBytesCons("%80%80", 2, 0x80, [0x80]);
    assert [0x80] + [0x80] == [0x80, 0x80];
  }

  /** An overlong form (U+0000 written in two octets) makes `decodeURIComponent` throw. */
  lemma OverlongEscapeFails()
    ensures Decode("%C0%80") == None
  {
    EscapedContinuations();
    assert "%C0%80"[3..] == "%80";
    EscapedBytesCons("%C0%80", 2, 0xC0, [0x80]);
    assert [0xC0] + [0x80] == [0xC0, 0x80];
  }

  /** The UTF-8 form of a surrogate (U+D800) makes `decodeURIComponent` throw. */
  lemma SurrogateEscapeFails()
    ensures Decode("%ED%A0%80") == None
  {
    EscapedContinuations();
    assert "%A0%80"[3..] == "%80";
    EscapedBytesCons("%A0%80", 2, 0xA0, [0x80]);
    assert [0xA0] + [0x80] == [0xA0, 0x80];
    assert "%ED%A0%80"[3..] == "%A0%80";
    EscapedBytesCons("%ED%A0%80", 3, 0xED, [0xA0, 0x80]);
    assert [0xED] + [0xA0, 0x80] == [0xED, 0xA0, 0x80];
  }

  /** Four octets denoting U+110000, past the last code point, make
      `decodeURIComponent` throw. */
  lemma BeyondUnicodeEscapeFails()
    ensures Decode("%F4%90%80%80") == None
  {
    EscapedContinuations();
    assert "%90%80%80"[3..] == "%80%80";
    EscapedBytesCons("%90%80%80", 3, 0x90, [0x80, 0x80]);
    assert [0x90] + [0x80, 0x80] == [0x90, 0x80, 0x80];
    assert "%F4%90%80%80"[3..] == "%90%80%80";
    EscapedBytesCons("%F4%90%80%80", 4, 0xF4, [0x90, 0x80, 0x80]);
    assert [0xF4] + [0x90, 0x80, 0x80] == [0xF4, 0x90, 0x80, 0x80];
  }
}
