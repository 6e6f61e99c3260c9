/**
 * `encodeURIComponent` as ECMAScript defines it (section 19.2.6.5 of ECMA-262,
 * 2022 edition): every code point outside the unreserved set becomes the `%XX`
 * escapes of its UTF-8 bytes, with upper-case hex digits. `decodeURIComponent`
 * (section 19.2.6.3) is given beside it as its inverse.
 */
module UriComponent {
  import opened Wrappers

  /** uriAlpha, DecimalDigit and uriMark: what `encodeURIComponent` leaves alone. */
  predicate IsUnreserved(c: char) {
    || ('A' <= c <= 'Z') || ('a' <= c <= 'z') || ('0' <= c <= '9')
    || c == '-' || c == '_' || c == '.' || c == '!' || c == '~' || c == '*'
    || c == '\'' || c == '(' || c == ')'
  }

  predicate IsUpperHexDigit(c: char) {
    ('0' <= c <= '9') || ('A' <= c <= 'F')
  }

  /** The characters an encoded string is made of. */
  predicate IsEncodedChar(c: char) {
    IsUnreserved(c) || c == '%'
  }

  type Byte = b: nat | b < 256

  /** The UTF-8 encoding of one code point. */
  function Utf8(c: char): (bytes: seq<Byte>)
    ensures 1 <= |bytes| <= 4
  {
    var v := c as int;
    if v < 0x80 then [v]
    else if v < 0x800 then [0xC0 + v / 64, 0x80 + v % 64]
    else if v < 0x1_0000 then [0xE0 + v / 4096, 0x80 + (v / 64) % 64, 0x80 + v % 64]
    else [0xF0 + v / 262144, 0x80 + (v / 4096) % 64, 0x80 + (v / 64) % 64, 0x80 + v % 64]
  }

  function HexDigit(v: nat): (c: char)
    requires v < 16
    ensures IsUpperHexDigit(c)
  {
    if v < 10 then '0' + v as char else 'A' + (v - 10) as char
  }

  /** `%XX` for one byte. */
  function Escape(b: Byte): string {
    ['%', HexDigit(b / 16), HexDigit(b % 16)]
  }

  function EscapeAll(bytes: seq<Byte>): (s: string)
    ensures |s| == 3 * |bytes|
  {
    if bytes == [] then [] else Escape(bytes[0]) + EscapeAll(bytes[1..])
  }

  function EncodeChar(c: char): string {
    if IsUnreserved(c) then [c] else EscapeAll(Utf8(c))
  }

  /** `encodeURIComponent(s)`. */
  function Encode(s: string): string {
    if s == [] then [] else EncodeChar(s[0]) + Encode(s[1..])
  }

  /** The value of a hex digit of either case, 16 for anything else. */
  function HexValue(c: char): (v: nat)
    ensures v <= 16
  {
    if '0' <= c <= '9' then c as int - '0' as int
    else if 'A' <= c <= 'F' then c as int - 'A' as int + 10
    else if 'a' <= c <= 'f' then c as int - 'a' as int + 10
    else 16
  }

  /** The byte escaped as `%XX` at position `i`, if there is one. */
  function ByteAt(s: string, i: nat): Option<Byte> {
    if i + 3 <= |s| && s[i] == '%' && HexValue(s[i + 1]) < 16 && HexValue(s[i + 2]) < 16
    then Some(HexValue(s[i + 1]) * 16 + HexValue(s[i + 2]))
    else None
  }

  /** `count` escaped continuation bytes (10xxxxxx) at the start of `s`. */
  function Continuations(s: string, count: nat): (r: Option<seq<Byte>>)
    ensures r.Some? ==> |r.value| == count && 3 * count <= |s|
    ensures r.Some? ==> forall j :: 0 <= j < count ==> 0x80 <= r.value[j] < 0xC0
    decreases count
  {
    if count == 0 then Some([])
    else match ByteAt(s, 0)
      case None => None
      case Some(b) =>
        if !(0x80 <= b < 0xC0) then None
        else match Continuations(s[3..], count - 1)
          case None => None
          case Some(rest) => Some([b] + rest)
  }

  /** Shift the low six bits of each continuation byte into `v`. */
  function Accumulate(v: nat, conts: seq<Byte>): nat
    decreases |conts|
  {
    if conts == [] then v else Accumulate(v * 64 + conts[0] % 64, conts[1..])
  }

  /** The code point escaped as one UTF-8 sequence at the start of `s`, and the length of its escapes. */
  function DecodeSequence(s: string): (r: Option<(char, nat)>)
    ensures r.Some? ==> 3 <= r.value.1 <= |s|
  {
    match ByteAt(s, 0)
    case None => None
    case Some(b0) =>
      if b0 < 0x80 then Some((b0 as char, 3))
      else
        var n := if 0xC0 <= b0 < 0xE0 then 2 else if 0xE0 <= b0 < 0xF0 then 3
                 else if 0xF0 <= b0 < 0xF8 then 4 else 0;
        if n == 0 then None
        else match Continuations(s[3..], n - 1)
          case None => None
          case Some(conts) =>
            var lead := if n == 2 then b0 - 0xC0 else if n == 3 then b0 - 0xE0 else b0 - 0xF0;
            var v := Accumulate(lead, conts);
            var least := if n == 2 then 0x80 else if n == 3 then 0x800 else 0x1_0000;
            if v < least || v > 0x10_FFFF || (0xD800 <= v < 0xE000) then None
            else Some((v as char, 3 * n))
  }

  /** `decodeURIComponent(s)`; `None` where it throws `URIError`. */
  function Decode(s: string): Option<string>
    decreases |s|
  {
    if s == [] then Some([])
    else if s[0] != '%' then
      match Decode(s[1..])
      case None => None
      case Some(rest) => Some([s[0]] + rest)
    else
      match DecodeSequence(s)
      case None => None
      case Some((c, used)) =>
        match Decode(s[used..])
        case None => None
        case Some(rest) => Some([c] + rest)
  }

  lemma HexDigitValue(v: nat)
    requires v < 16
    ensures HexValue(HexDigit(v)) == v
  {
  }

  lemma ByteAtEscape(b: Byte, rest: string)
    ensures ByteAt(Escape(b) + rest, 0) == Some(b)
  {
    HexDigitValue(b / 16);
    HexDigitValue(b % 16);
  }

  /** Escaped continuation bytes read back as themselves. */
  lemma {:induction false} ContinuationsOfEscapes(bytes: seq<Byte>, rest: string)
    requires forall j :: 0 <= j < |bytes| ==> 0x80 <= bytes[j] < 0xC0
    ensures Continuations(EscapeAll(bytes) + rest, |bytes|) == Some(bytes)
  {
    if bytes != [] {
      EscapeAllFirst(bytes, rest);
      ContinuationsOfEscapes(bytes[1..], rest);
      assert [bytes[0]] + bytes[1..] == bytes;
    }
  }

  /** Splitting the escapes of a byte sequence after the first byte. */
  lemma EscapeAllFirst(bytes: seq<Byte>, rest: string)
    requires bytes != []
    ensures ByteAt(EscapeAll(bytes) + rest, 0) == Some(bytes[0])
    ensures (EscapeAll(bytes) + rest)[3..] == EscapeAll(bytes[1..]) + rest
  {
    assert EscapeAll(bytes) + rest == Escape(bytes[0]) + (EscapeAll(bytes[1..]) + rest);
    ByteAtEscape(bytes[0], EscapeAll(bytes[1..]) + rest);
  }

  lemma SixBits(x: nat)
    requires x < 64
    ensures (0x80 + x) % 64 == x
  {
  }

  /** Dividing by 64 twice is dividing by 4096. */
  lemma DivideTwice(x: nat)
    ensures x / 4096 == x / 64 / 64
  {
    var q := x / 64;
    assert x == 4096 * (q / 64) + 64 * (q % 64) + x % 64;
  }

  /** One continuation byte shifted into the accumulated value. */
  lemma AccumulateOne(v: nat, b: Byte, rest: seq<Byte>)
    ensures Accumulate(v, [b] + rest) == Accumulate(v * 64 + b % 64, rest)
  {
    assert ([b] + rest)[1..] == rest;
  }

  /** Shifting `x % 64` back under `x / 64` gives `x`. */
  lemma AccumulateLow(x: nat, rest: seq<Byte>)
    ensures Accumulate(x / 64, [0x80 + x % 64] + rest) == Accumulate(x, rest)
  {
    var b: Byte := 0x80 + x % 64;
    AccumulateOne(x / 64, b, rest);
    SixBits(x % 64);
    assert (x / 64) * 64 + b % 64 == x;
  }

  lemma Utf8Value2(v: int)
    requires 0x80 <= v < 0x800
    ensures 0xC0 <= 0xC0 + v / 64 < 0xE0
    ensures Accumulate(v / 64, [0x80 + v % 64]) == v
  {
    Utf8Value2Tail(v);
  }

  lemma Utf8Value3(v: int)
    requires 0x800 <= v < 0x1_0000
    ensures 0xE0 <= 0xE0 + v / 4096 < 0xF0
    ensures Accumulate(v / 4096, [0x80 + (v / 64) % 64, 0x80 + v % 64]) == v
  {
    var q := v / 64;
    var b1: Byte := 0x80 + q % 64;
    var b2: Byte := 0x80 + v % 64;
    DivideTwice(v);
    assert [b1, b2] == [b1] + [b2];
    AccumulateLow(q, [b2]);
    Utf8Value2Tail(v);
  }

  /** The last continuation byte of any code point. */
  lemma Utf8Value2Tail(v: nat)
    ensures Accumulate(v / 64, [0x80 + v % 64]) == v
  {
    var b: Byte := 0x80 + v % 64;
    AccumulateLow(v, []);
    assert [b] + [] == [b];
  }

  lemma Utf8Value4(v: int)
    requires 0x1_0000 <= v <= 0x10_FFFF
    ensures 0xF0 <= 0xF0 + v / 262144 < 0xF8
    ensures Accumulate(v / 262144, [0x80 + (v / 4096) % 64, 0x80 + (v / 64) % 64, 0x80 + v % 64]) == v
  {
    var q := v / 64;
    var q2 := q / 64;
    var b1: Byte := 0x80 + q2 % 64;
    var b2: Byte := 0x80 + q % 64;
    var b3: Byte := 0x80 + v % 64;
    DivideTwice(v);
    DivideTwice(q);
    DivideThrice(v);
    assert [b1, b2, b3] == [b1] + [b2, b3];
    assert [b2, b3] == [b2] + [b3];
    AccumulateLow(q2, [b2, b3]);
    AccumulateLow(q, [b3]);
    Utf8Value2Tail(v);
  }

  /** Dividing by 64 three times is dividing by 262144. */
  lemma DivideThrice(x: nat)
    ensures x / 262144 == x / 64 / 4096
  {
    var q := x / 64;
    assert x == 262144 * (q / 4096) + 64 * (q % 4096) + x % 64;
  }

  /** The escapes of a code point's UTF-8 bytes decode to that code point. */
  lemma DecodeSequenceOfUtf8(c: char, rest: string)
    requires !IsUnreserved(c)
    ensures DecodeSequence(EscapeAll(Utf8(c)) + rest) == Some((c, 3 * |Utf8(c)|))
  {
    var v := c as int;
    if v < 0x80 {
      EscapeAllFirst(Utf8(c), rest);
    } else if v < 0x800 {
      DecodeTwoByteSequence(c, rest);
    } else if v < 0x1_0000 {
      DecodeThreeByteSequence(c, rest);
    } else {
      DecodeFourByteSequence(c, rest);
    }
  }

  lemma DecodeTwoByteSequence(c: char, rest: string)
    requires 0x80 <= c as int < 0x800
    ensures DecodeSequence(EscapeAll(Utf8(c)) + rest) == Some((c, 6))
  {
    var v := c as int;
    var bytes := Utf8(c);
    EscapeAllFirst(bytes, rest);
    ContinuationsOfEscapes(bytes[1..], rest);
    assert bytes[1..] == [0x80 + v % 64];
    Utf8Value2(v);
  }

  lemma DecodeThreeByteSequence(c: char, rest: string)
    requires 0x800 <= c as int < 0x1_0000
    ensures DecodeSequence(EscapeAll(Utf8(c)) + rest) == Some((c, 9))
  {
    var v := c as int;
    var bytes := Utf8(c);
    EscapeAllFirst(bytes, rest);
    ContinuationsOfEscapes(bytes[1..], rest);
    assert bytes[1..] == [0x80 + (v / 64) % 64, 0x80 + v % 64];
    Utf8Value3(v);
  }

  lemma DecodeFourByteSequence(c: char, rest: string)
    requires 0x1_0000 <= c as int
    ensures DecodeSequence(EscapeAll(Utf8(c)) + rest) == Some((c, 12))
  {
    var v := c as int;
    var bytes := Utf8(c);
    EscapeAllFirst(bytes, rest);
    ContinuationsOfEscapes(bytes[1..], rest);
    assert bytes[1..] == [0x80 + (v / 4096) % 64, 0x80 + (v / 64) % 64, 0x80 + v % 64];
    Utf8Value4(v);
  }

  /** `decodeURIComponent` undoes `encodeURIComponent`. */
  lemma {:induction false} DecodeEncode(s: string)
    ensures Decode(Encode(s)) == Some(s)
  {
    if s != [] {
      var c := s[0];
      var tail := Encode(s[1..]);
      DecodeEncode(s[1..]);
      assert Encode(s) == EncodeChar(c) + tail;
      if IsUnreserved(c) {
        assert (EncodeChar(c) + tail)[1..] == tail;
      } else {
        var bytes := Utf8(c);
        DecodeSequenceOfUtf8(c, tail);
        assert (EscapeAll(bytes) + tail)[3 * |bytes|..] == tail;
      }
      assert [c] + s[1..] == s;
    }
  }

  /** Every character of `t` is one an encoded string is made of. */
  predicate IsEncodedText(t: string) {
    forall i :: 0 <= i < |t| ==> IsEncodedChar(t[i])
  }

  lemma EncodedTextConcat(a: string, b: string)
    requires IsEncodedText(a) && IsEncodedText(b)
    ensures IsEncodedText(a + b)
  {
    forall i | 0 <= i < |a + b| ensures IsEncodedChar((a + b)[i]) {
      if i >= |a| {
        assert (a + b)[i] == b[i - |a|];
      }
    }
  }

  /** Each character `encodeURIComponent` writes is unreserved, `%` or an upper-case hex digit. */
  lemma {:induction false} EncodeAlphabet(s: string)
    ensures IsEncodedText(Encode(s))
  {
    if s != [] {
      EncodeAlphabet(s[1..]);
      if !IsUnreserved(s[0]) {
        EscapeAllAlphabet(Utf8(s[0]));
      }
      EncodedTextConcat(EncodeChar(s[0]), Encode(s[1..]));
    }
  }

  lemma {:induction false} EscapeAllAlphabet(bytes: seq<Byte>)
    ensures IsEncodedText(EscapeAll(bytes))
  {
    if bytes != [] {
      EscapeAllAlphabet(bytes[1..]);
      EncodedTextConcat(Escape(bytes[0]), EscapeAll(bytes[1..]));
    }
  }

  /** Characters left as they are by the encoding. */
  lemma {:induction false} EncodeKeepsUnreserved(s: string)
    requires forall i :: 0 <= i < |s| ==> IsUnreserved(s[i])
    ensures Encode(s) == s
  {
    if s != [] {
      EncodeKeepsUnreserved(s[1..]);
      assert [s[0]] + s[1..] == s;
    }
  }
}
