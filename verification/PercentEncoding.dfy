/** Percent-encoded UTF-8, as CPE URIs use it: `%01` and `%02` stand for the wildcards. */
module PercentEncoding {
  import opened Results
  import opened Strings

  type Byte = n: nat | n < 256

  const DIGITS := "0123456789abcdef"

  /** `%{b:02x}`. */
  function HexByte(b: Byte): (r: string)
    ensures |r| == 3
  {
    ['%', DIGITS[b / 16], DIGITS[b % 16]]
  }

  function HexBytes(bytes: seq<Byte>): string {
    if bytes == [] then "" else HexByte(bytes[0]) + HexBytes(bytes[1..])
  }

  /** `char::encode_utf8`. */
  function Utf8(c: char): seq<Byte> {
    var n := c as int;
    if n < 0x80 then [n]
    else if n < 0x800 then [0xC0 + n / 64, 0x80 + n % 64]
    else if n < 0x10000 then [0xE0 + n / 4096, 0x80 + n / 64 % 64, 0x80 + n % 64]
    else [0xF0 + n / 262144, 0x80 + n / 4096 % 64, 0x80 + n / 64 % 64, 0x80 + n % 64]
  }

  predicate IsAlphanumeric(c: char) {
    '0' <= c <= '9' || 'a' <= c <= 'z' || 'A' <= c <= 'Z'
  }

  predicate Unreserved(c: char) {
    IsAlphanumeric(c) || c == '_' || c == '-' || c == '.'
  }

  function EncodeChar(c: char): string {
    if c == '?' then "%01"
    else if c == '*' then "%02"
    else if Unreserved(c) then [c]
    else HexBytes(Utf8(c))
  }

  function Encode(value: string): string {
    if value == "" then "" else EncodeChar(value[0]) + Encode(value[1..])
  }

  lemma {:induction false} EncodeSnoc(value: string, c: char)
    ensures Encode(value + [c]) == Encode(value) + EncodeChar(c)
  {
    if value == "" {
      assert [c][1..] == "";
    } else {
      assert (value + [c])[1..] == value[1..] + [c];
      EncodeSnoc(value[1..], c);
    }
  }

  /** The loop of `encode_uri_component`, pushing onto its output buffer. */
  method EncodeUriComponent(value: string) returns (out: string)
    ensures out == Encode(value)
  {
    out := "";
    for i := 0 to |value|
      invariant out == Encode(value[..i])
    {
      var c := value[i];
      EncodeSnoc(value[..i], c);
      assert value[..i + 1] == value[..i] + [c];
      if c == '?' {
        out := out + "%01";
      } else if c == '*' {
        out := out + "%02";
      } else if Unreserved(c) {
        out := out + [c];
      } else {
        out := out + HexBytes(Utf8(c));
      }
    }
    assert value[..|value|] == value;
  }

  // ---------------------------------------------------------------- decoding

  function HexValue(c: char): Option<nat> {
    if '0' <= c <= '9' then Some((c as int) - ('0' as int))
    else if 'a' <= c <= 'f' then Some((c as int) - ('a' as int) + 10)
    else None
  }

  /** The byte written at the start of `s`. */
  function ByteAt(s: string): (r: Option<nat>)
    ensures r.Some? ==> |s| >= 3 && r.value < 256
  {
    if |s| < 3 || s[0] != '%' || HexValue(s[1]).None? || HexValue(s[2]).None? then None
    else Some(16 * HexValue(s[1]).value + HexValue(s[2]).value)
  }

  /** The six payload bits of a continuation byte at the start of `s`. */
  function Continuation(s: string): (r: Option<nat>)
    ensures r.Some? ==> |s| >= 3
  {
    var b := ByteAt(s);
    if b.Some? && 0x80 <= b.value < 0xC0 then Some(b.value - 0x80) else None
  }

  function ToChar(n: nat): Option<char> {
    if n < 0xD800 || 0xE000 <= n < 0x110000 then Some(n as char) else None
  }

  /** One character off the front: itself, a wildcard, or percent-encoded UTF-8. */
  function DecodeChar(s: string): (r: Option<(char, nat)>)
    requires s != ""
    ensures r.Some? ==> 1 <= r.value.1 <= |s|
  {
    if s[0] != '%' then Some((s[0], 1))
    else
      var lead := ByteAt(s);
      if lead.None? then None
      else
        var b := lead.value;
        if b == 1 then Some(('?', 3))
        else if b == 2 then Some(('*', 3))
        else if b < 0x80 then Some((b as char, 3))
        else
          var s1 := s[3..];
          var c1 := Continuation(s1);
          if b < 0xC0 || c1.None? then None
          else if b < 0xE0 then WithLength(Two(b - 0xC0, c1.value), 6)
          else
            var s2 := s1[3..];
            var c2 := Continuation(s2);
            if c2.None? then None
            else if b < 0xF0 then WithLength(Three(b - 0xE0, c1.value, c2.value), 9)
            else
              var c3 := Continuation(s2[3..]);
              if c3.None? then None
              else WithLength(Four(b - 0xF0, c1.value, c2.value, c3.value), 12)
  }

  function Two(a: nat, b: nat): nat {
    a * 64 + b
  }

  function Three(a: nat, b: nat, c: nat): nat {
    a * 4096 + b * 64 + c
  }

  function Four(a: nat, b: nat, c: nat, d: nat): nat {
    a * 262144 + b * 4096 + c * 64 + d
  }

  function WithLength(n: nat, len: nat): Option<(char, nat)> {
    match ToChar(n) case Some(c) => Some((c, len)) case None => None
  }

  function Decode(s: string): Option<string> {
    if s == "" then Some("")
    else
      match DecodeChar(s)
      case None => None
      case Some((c, n)) =>
        match Decode(s[n..])
        case None => None
        case Some(rest) => Some([c] + rest)
  }

  // ---------------------------------------------------------------- round trip

  lemma ByteComesBack(b: Byte, rest: string)
    ensures ByteAt(HexByte(b) + rest) == Some(b)
    ensures (HexByte(b) + rest)[3..] == rest
  {
    HexDigit(b / 16);
    HexDigit(b % 16);
  }

  lemma HexDigit(d: nat)
    requires d < 16
    ensures HexValue(DIGITS[d]) == Some(d)
  {
    if d < 10 {
      assert DIGITS[d] == "0123456789"[d];
    } else {
      assert DIGITS[d] == "abcdef"[d - 10];
    }
  }

  lemma ContinuationComesBack(n: nat, rest: string)
    requires n < 64
    ensures Continuation(HexByte(0x80 + n) + rest) == Some(n)
    ensures (HexByte(0x80 + n) + rest)[3..] == rest
  {
    ByteComesBack(0x80 + n, rest);
  }

  /** The two control characters that the wildcards are written as. */
  function Wildcard(c: char): char {
    if c == '\U{0001}' then '?' else if c == '\U{0002}' then '*' else c
  }

  lemma OneByte(c: char, rest: string)
    requires (c as int) < 0x80
    ensures DecodeChar(HexBytes(Utf8(c)) + rest) == Some((Wildcard(c), 3)) && |HexBytes(Utf8(c))| == 3
  {
    var b := c as int;
    assert HexBytes([b]) == HexByte(b);
    ByteComesBack(b, rest);
  }

  /** The bytes of a character one after the other, ahead of more text. */
  lemma HexBytesCons(b: Byte, bytes: seq<Byte>, rest: string)
    ensures HexBytes([b] + bytes) + rest == HexByte(b) + (HexBytes(bytes) + rest)
    ensures |HexBytes([b] + bytes)| == 3 + |HexBytes(bytes)|
  {
    assert ([b] + bytes)[1..] == bytes;
  }

  lemma HexTwo(b0: Byte, b1: Byte, rest: string)
    ensures HexBytes([b0, b1]) + rest == HexByte(b0) + (HexByte(b1) + rest) && |HexBytes([b0, b1])| == 6
  {
    assert [b0, b1] == [b0] + ([b1] + []);
    HexBytesCons(b0, [b1] + [], rest);
    HexBytesCons(b1, [], rest);
    assert HexBytes([]) + rest == rest;
  }

  lemma HexThree(b0: Byte, b1: Byte, b2: Byte, rest: string)
    ensures HexBytes([b0, b1, b2]) + rest == HexByte(b0) + (HexByte(b1) + (HexByte(b2) + rest))
    ensures |HexBytes([b0, b1, b2])| == 9
  {
    assert [b0, b1, b2] == [b0] + [b1, b2];
    HexBytesCons(b0, [b1, b2], rest);
    HexTwo(b1, b2, rest);
  }

  lemma HexFour(b0: Byte, b1: Byte, b2: Byte, b3: Byte, rest: string)
    ensures HexBytes([b0, b1, b2, b3]) + rest == HexByte(b0) + (HexByte(b1) + (HexByte(b2) + (HexByte(b3) + rest)))
    ensures |HexBytes([b0, b1, b2, b3])| == 12
  {
    assert [b0, b1, b2, b3] == [b0] + [b1, b2, b3];
    HexBytesCons(b0, [b1, b2, b3], rest);
    HexThree(b1, b2, b3, rest);
  }

  lemma DecodeTwo(b0: Byte, b1: nat, rest: string)
    requires 0xC0 <= b0 < 0xE0 && b1 < 64
    ensures DecodeChar(HexByte(b0) + (HexByte(0x80 + b1) + rest)) == WithLength(Two(b0 - 0xC0, b1), 6)
  {
    ByteComesBack(b0, HexByte(0x80 + b1) + rest);
    ContinuationComesBack(b1, rest);
  }

  lemma DecodeThree(b0: Byte, b1: nat, b2: nat, rest: string)
    requires 0xE0 <= b0 < 0xF0 && b1 < 64 && b2 < 64
    ensures DecodeChar(HexByte(b0) + (HexByte(0x80 + b1) + (HexByte(0x80 + b2) + rest)))
         == WithLength(Three(b0 - 0xE0, b1, b2), 9)
  {
    ByteComesBack(b0, HexByte(0x80 + b1) + (HexByte(0x80 + b2) + rest));
    ContinuationComesBack(b1, HexByte(0x80 + b2) + rest);
    ContinuationComesBack(b2, rest);
  }

  lemma DecodeFour(b0: Byte, b1: nat, b2: nat, b3: nat, rest: string)
    requires 0xF0 <= b0 && b1 < 64 && b2 < 64 && b3 < 64
    ensures DecodeChar(HexByte(b0) + (HexByte(0x80 + b1) + (HexByte(0x80 + b2) + (HexByte(0x80 + b3) + rest))))
         == WithLength(Four(b0 - 0xF0, b1, b2, b3), 12)
  {
    ByteComesBack(b0, HexByte(0x80 + b1) + (HexByte(0x80 + b2) + (HexByte(0x80 + b3) + rest)));
    ContinuationComesBack(b1, HexByte(0x80 + b2) + (HexByte(0x80 + b3) + rest));
    ContinuationComesBack(b2, HexByte(0x80 + b3) + rest);
    ContinuationComesBack(b3, rest);
  }

  lemma TwoBytes(c: char, bytes: seq<Byte>, a: nat, b: nat, rest: string)
    requires a < 0x20 && b < 64 && Two(a, b) == c as int && bytes == [0xC0 + a, 0x80 + b]
    ensures DecodeChar(HexBytes(bytes) + rest) == Some((c, 6)) && |HexBytes(bytes)| == 6
  {
    HexTwo(bytes[0], bytes[1], rest);
    DecodeTwo(bytes[0], b, rest);
  }

  lemma ThreeBytes(c: char, bytes: seq<Byte>, a: nat, b: nat, d: nat, rest: string)
    requires a < 0x10 && b < 64 && d < 64 && Three(a, b, d) == c as int && bytes == [0xE0 + a, 0x80 + b, 0x80 + d]
    ensures DecodeChar(HexBytes(bytes) + rest) == Some((c, 9)) && |HexBytes(bytes)| == 9
  {
    HexThree(bytes[0], bytes[1], bytes[2], rest);
    DecodeThree(bytes[0], b, d, rest);
  }

  lemma FourBytes(c: char, bytes: seq<Byte>, a: nat, b: nat, d: nat, e: nat, rest: string)
    requires a < 0x10 && b < 64 && d < 64 && e < 64 && Four(a, b, d, e) == c as int
    requires bytes == [0xF0 + a, 0x80 + b, 0x80 + d, 0x80 + e]
    ensures DecodeChar(HexBytes(bytes) + rest) == Some((c, 12)) && |HexBytes(bytes)| == 12
  {
    HexFour(bytes[0], bytes[1], bytes[2], bytes[3], rest);
    DecodeFour(bytes[0], b, d, e, rest);
  }

  /** The payload of the bytes is the code point, and each byte fits. */
  lemma Payload(n: nat)
    requires n < 0x110000
    ensures n < 0x800 ==> n / 64 < 0x20 && Two(n / 64, n % 64) == n
    ensures n < 0x10000 ==> n / 4096 < 0x10 && Three(n / 4096, n / 64 % 64, n % 64) == n
    ensures n / 262144 < 0x10 && Four(n / 262144, n / 4096 % 64, n / 64 % 64, n % 64) == n
  {
    var q := n / 64;
    assert n / 4096 == q / 64;
    assert n / 262144 == q / 64 / 64;
  }

  lemma ManyBytes(c: char, rest: string)
    requires 0x80 <= (c as int)
    ensures DecodeChar(HexBytes(Utf8(c)) + rest) == Some((c, |HexBytes(Utf8(c))|))
  {
    var n, bytes := c as int, Utf8(c);
    Payload(n);
    if n < 0x800 {
      var x, y := n / 64, n % 64;
      assert bytes == [0xC0 + x, 0x80 + y];
      TwoBytes(c, bytes, x, y, rest);
    } else if n < 0x10000 {
      var x, y, z := n / 4096, n / 64 % 64, n % 64;
      assert bytes == [0xE0 + x, 0x80 + y, 0x80 + z];
      ThreeBytes(c, bytes, x, y, z, rest);
    } else {
      var x, y, z, w := n / 262144, n / 4096 % 64, n / 64 % 64, n % 64;
      assert bytes == [0xF0 + x, 0x80 + y, 0x80 + z, 0x80 + w];
      FourBytes(c, bytes, x, y, z, w, rest);
    }
  }

  lemma CharComesBack(c: char, rest: string)
    ensures EncodeChar(c) != ""
    ensures DecodeChar(EncodeChar(c) + rest) == Some((Wildcard(c), |EncodeChar(c)|))
  {
    if c == '?' {
      assert "%01" == HexByte(1) by { assert DIGITS[0] == '0' && DIGITS[1] == '1'; }
      ByteComesBack(1, rest);
    } else if c == '*' {
      assert "%02" == HexByte(2) by { assert DIGITS[0] == '0' && DIGITS[2] == '2'; }
      ByteComesBack(2, rest);
    } else if Unreserved(c) {
    } else if (c as int) < 0x80 {
      OneByte(c, rest);
    } else {
      ManyBytes(c, rest);
    }
  }

  function WildcardAll(v: string): (r: string)
    ensures |r| == |v|
    ensures forall i :: 0 <= i < |v| ==> r[i] == Wildcard(v[i])
  {
    seq(|v|, i requires 0 <= i < |v| => Wildcard(v[i]))
  }

  /** What decoding gives back for any value at all. */
  lemma {:induction false} DecodeOfEncode(v: string)
    ensures Decode(Encode(v)) == Some(WildcardAll(v))
  {
    if v != "" {
      var rest := Encode(v[1..]);
      CharComesBack(v[0], rest);
      DecodeOfEncode(v[1..]);
      var n := |EncodeChar(v[0])|;
      assert Encode(v)[n..] == rest;
      assert WildcardAll(v) == [Wildcard(v[0])] + WildcardAll(v[1..]);
    }
  }

  /** Decoding shortens exactly the texts with a percent sign. */
  lemma {:induction false} DecodeShortens(s: string)
    ensures Decode(s).Some? ==> |Decode(s).value| <= |s| && ('%' in s ==> |Decode(s).value| < |s|)
    ensures '%' !in s ==> Decode(s) == Some(s)
  {
    if s != "" && DecodeChar(s).Some? {
      var n := DecodeChar(s).value.1;
      DecodeShortens(s[n..]);
      assert s[0] != '%' ==> n == 1 && s == [s[0]] + s[1..];
    }
  }

  predicate ControlFree(v: string) {
    '\U{0001}' !in v && '\U{0002}' !in v
  }

  /** A value survives percent-encoding exactly when it is free of the wildcards' codes. */
  lemma EncodingRoundTrip(v: string)
    ensures Decode(Encode(v)) == Some(v) <==> ControlFree(v)
  {
    DecodeOfEncode(v);
    if WildcardAll(v) == v {
      forall i | 0 <= i < |v| ensures v[i] != '\U{0001}' && v[i] != '\U{0002}' {
        assert WildcardAll(v)[i] == Wildcard(v[i]);
      }
    }
  }

  /** Encoded text uses only unreserved characters and `%`; it is empty or `-` only for those values. */
  lemma {:induction false} EncodedAlphabet(v: string)
    ensures forall c :: c in Encode(v) ==> Unreserved(c) || c == '%'
    ensures Encode(v) == "" <==> v == ""
    ensures Encode(v) == "-" <==> v == "-"
  {
    AlphabetOf(v);
    if Encode(v) == "-" {
      DecodeOfEncode(v);
      assert DecodeChar("-") == Some(('-', 1)) && "-"[1..] == "";
      assert WildcardAll(v) == "-";
      assert Wildcard(v[0]) == '-';
    }
    assert Encode("-") == "-";
  }

  lemma {:induction false} AlphabetOf(v: string)
    ensures forall c :: c in Encode(v) ==> Unreserved(c) || c == '%'
    ensures Encode(v) == "" <==> v == ""
  {
    if v != "" {
      AlphabetOf(v[1..]);
      HexBytesAlphabet(Utf8(v[0]));
      CharComesBack(v[0], "");
    }
  }

  lemma {:induction false} HexBytesAlphabet(bytes: seq<Byte>)
    ensures forall d :: d in HexBytes(bytes) ==> Unreserved(d) || d == '%'
  {
    if bytes != [] {
      HexBytesAlphabet(bytes[1..]);
      assert forall d: nat :: d < 16 ==> IsAlphanumeric(DIGITS[d]);
    }
  }

  /** Letters, digits, `_`, `-` and `.` are written as they are, and nothing else is. */
  lemma WrittenAsItIs(c: char)
    ensures Encode([c]) == [c] <==> 'A' <= c <= 'Z' || 'a' <= c <= 'z' || '0' <= c <= '9' || c in "_-."
    ensures Encode([c]) != [c] ==> |Encode([c])| >= 3 && Encode([c])[0] == '%'
  {
    assert [c][1..] == "" && Encode([c]) == EncodeChar(c) + "";
    if EncodeChar(c) != [c] && c != '?' && c != '*' {
      var bytes := Utf8(c);
      assert HexBytes(bytes) == HexByte(bytes[0]) + HexBytes(bytes[1..]);
    }
  }
}
