/** `encodeURIComponent` as section 19.2.6 of ECMA-262 defines it (the Encode abstract
    operation with an empty set of extra unescaped characters), and its inverse
    `decodeURIComponent`. Strings are sequences of Unicode scalar values, so the
    lone surrogates on which `encodeURIComponent` throws a URIError cannot occur. */
module Uri {
  import opened Js

  type Byte = x: int | 0 <= x < 256

  /** uriUnreserved: ASCII letters, decimal digits and the marks - _ . ! ~ * ' ( ). */
  predicate IsUnreserved(c: char) {
    ('A' <= c <= 'Z') || ('a' <= c <= 'z') || IsDigit(c)
    || c == '-' || c == '_' || c == '.' || c == '!' || c == '~' || c == '*' || c == '\''
    || c == '(' || c == ')'
  }

  /** The UTF-8 encoding of one code point (Table 63 of ECMA-262). */
  function Utf8(c: char): (bytes: seq<Byte>)
    ensures 1 <= |bytes| <= 4
    ensures |bytes| == 1 <==> c as int < 0x80
  {
    var n := c as int;
    if n < 0x80 then [n]
    else if n < 0x800 then [0xC0 + n / 64, 0x80 + n % 64]
    else if n < 0x1_0000 then [0xE0 + n / 4096, 0x80 + n / 64 % 64, 0x80 + n % 64]
    else [0xF0 + n / 262144, 0x80 + n / 4096 % 64, 0x80 + n / 64 % 64, 0x80 + n % 64]
  }

  /** An upper-case hexadecimal digit. */
  function HexDigit(d: int): (c: char)
    requires 0 <= d < 16
  {
    if d < 10 then ('0' as int + d) as char else ('A' as int + d - 10) as char
  }

  /** The value of a hexadecimal digit of either case. */
  function HexValue(c: char): (r: Option<int>)
    ensures r.Some? ==> 0 <= r.value < 16
  {
    if '0' <= c <= '9' then Some(c as int - '0' as int)
    else if 'A' <= c <= 'F' then Some(c as int - 'A' as int + 10)
    else if 'a' <= c <= 'f' then Some(c as int - 'a' as int + 10)
    else None
  }

  /** One `%XX` triple per byte. */
  function PercentEncode(bytes: seq<Byte>): (r: string)
    ensures |r| == 3 * |bytes|
  {
    if bytes == [] then []
    else ['%', HexDigit(bytes[0] / 16), HexDigit(bytes[0] % 16)] + PercentEncode(bytes[1..])
  }

  function EncodeChar(c: char): string {
    if IsUnreserved(c) then [c] else PercentEncode(Utf8(c))
  }

  /** `encodeURIComponent(s)`: unreserved characters are copied, every other character
      becomes the `%XX` triples of its UTF-8 bytes. */
  function EncodeURIComponent(s: string): (e: string)
    ensures |e| >= |s|
  {
    if s == [] then [] else EncodeChar(s[0]) + EncodeURIComponent(s[1..])
  }

  /** The byte written as `%XX` at offset `i` of `s`, if there is one. */
  function ByteAt(s: string, i: nat): Option<Byte> {
    if i + 3 <= |s| && s[i] == '%' then
      match (HexValue(s[i + 1]), HexValue(s[i + 2]))
      case (Some(h), Some(l)) => Some(16 * h + l)
      case _ => None
    else None
  }

  /** The six payload bits of the UTF-8 continuation byte in the `k`-th triple. */
  function Continuation(s: string, k: nat): (r: Option<int>)
    ensures r.Some? ==> 0 <= r.value < 64
  {
    match ByteAt(s, 3 * k)
    case Some(b) => if 0x80 <= b < 0xC0 then Some(b - 0x80) else None
    case None => None
  }

  /** Decodes the escape sequence at the start of `s` to one code point and the number
      of characters it takes; `None` where decodeURIComponent throws a URIError
      (a malformed triple, a bad lead or continuation byte, an overlong form, a surrogate
      or a value beyond U+10FFFF). */
  function DecodeEscape(s: string): (r: Option<(char, nat)>)
    requires s != [] && s[0] == '%'
    ensures r.Some? ==> 3 <= r.value.1 <= |s|
  {
    match ByteAt(s, 0)
    case None => None
    case Some(b0) =>
      if b0 < 0x80 then Some((b0 as char, 3))
      else if 0xC0 <= b0 < 0xE0 then
        match Continuation(s, 1)
        case Some(c1) =>
          var cp := (b0 - 0xC0) * 64 + c1;
          if 0x80 <= cp then Some((cp as char, 6)) else None
        case None => None
      else if 0xE0 <= b0 < 0xF0 then
        match (Continuation(s, 1), Continuation(s, 2))
        case (Some(c1), Some(c2)) =>
          var cp := (b0 - 0xE0) * 4096 + c1 * 64 + c2;
          if 0x800 <= cp && !(0xD800 <= cp < 0xE000) then Some((cp as char, 9)) else None
        case _ => None
      else if 0xF0 <= b0 < 0xF8 then
        match (Continuation(s, 1), Continuation(s, 2), Continuation(s, 3))
        case (Some(c1), Some(c2), Some(c3)) =>
          var cp := (b0 - 0xF0) * 262144 + c1 * 4096 + c2 * 64 + c3;
          if 0x1_0000 <= cp < 0x11_0000 then Some((cp as char, 12)) else None
        case _ => None
      else None
  }

  /** `decodeURIComponent(s)` (section 19.2.6.2): `None` where it throws a URIError. */
  function DecodeURIComponent(s: string): Option<string>
    decreases |s|
  {
    if s == [] then Some([])
    else if s[0] != '%' then
      match DecodeURIComponent(s[1..])
      case Some(t) => Some([s[0]] + t)
      case None => None
    else
      match DecodeEscape(s)
      case Some((c, k)) =>
        (match DecodeURIComponent(s[k..])
         case Some(t) => Some([c] + t)
         case None => None)
      case None => None
  }

  // ---------------------------------------------------------------------------------
  // What the encoding looks like

  /** Every character is unreserved or `%`, so none is `&`, `=`, `?`, `/`, `#` or a
      space. */
  predicate IsEncodedText(r: string) {
    forall i :: 0 <= i < |r| ==> IsUnreserved(r[i]) || r[i] == '%'
  }

  lemma {:induction false} PercentEncodeIsEncodedText(bytes: seq<Byte>)
    ensures IsEncodedText(PercentEncode(bytes))
  {
    if bytes != [] {
      PercentEncodeIsEncodedText(bytes[1..]);
    }
  }

  lemma {:induction false} EncodedCharset(s: string)
    ensures IsEncodedText(EncodeURIComponent(s))
  {
    if s != [] {
      EncodedCharset(s[1..]);
      if !IsUnreserved(s[0]) {
        PercentEncodeIsEncodedText(Utf8(s[0]));
      }
    }
  }

  /** A component is left as it is exactly when all its characters are unreserved. */
  lemma {:induction false} EncodeIsIdentityIff(s: string)
    ensures EncodeURIComponent(s) == s <==> forall i :: 0 <= i < |s| ==> IsUnreserved(s[i])
    ensures |EncodeURIComponent(s)| >= |s|
  {
    if s != [] {
      EncodeIsIdentityIff(s[1..]);
      var e := EncodeURIComponent(s);
      if !IsUnreserved(s[0]) {
        assert |e| > |s|;
      } else if e == s {
        assert EncodeURIComponent(s[1..]) == e[1..];
      }
    }
  }

  // ---------------------------------------------------------------------------------
  // The round trip

  lemma HexValueOfHexDigit(d: int)
    requires 0 <= d < 16
    ensures HexValue(HexDigit(d)) == Some(d)
  {
  }

  /** The `k`-th triple of `PercentEncode(bytes)` writes the `k`-th byte. */
  lemma {:induction false} PercentEncodeAt(bytes: seq<Byte>, k: nat)
    requires k < |bytes|
    ensures var r := PercentEncode(bytes);
      r[3 * k] == '%' && r[3 * k + 1] == HexDigit(bytes[k] / 16) && r[3 * k + 2] == HexDigit(bytes[k] % 16)
  {
    if k > 0 {
      PercentEncodeAt(bytes[1..], k - 1);
      var head := ['%', HexDigit(bytes[0] / 16), HexDigit(bytes[0] % 16)];
      var tail := PercentEncode(bytes[1..]);
      assert PercentEncode(bytes) == head + tail;
      assert bytes[1..][k - 1] == bytes[k];
    }
  }

  /** A `%XX` triple holding the digits of `b` reads as `b`. */
  lemma ByteAtTriple(s: string, i: nat, b: Byte)
    requires i + 3 <= |s| && s[i] == '%'
    requires s[i + 1] == HexDigit(b / 16) && s[i + 2] == HexDigit(b % 16)
    ensures ByteAt(s, i) == Some(b)
  {
    HexValueOfHexDigit(b / 16);
    HexValueOfHexDigit(b % 16);
  }

  lemma ByteAtPercentEncode(bytes: seq<Byte>, rest: string, k: nat)
    requires k < |bytes|
    ensures ByteAt(PercentEncode(bytes) + rest, 3 * k) == Some(bytes[k])
  {
    var r := PercentEncode(bytes);
    PercentEncodeAt(bytes, k);
    var s := r + rest;
    var j := 3 * k;
    assert j + 3 <= |r|;
    assert s[j] == r[j] && s[j + 1] == r[j + 1] && s[j + 2] == r[j + 2];
    ByteAtTriple(s, j, bytes[k]);
  }

  lemma FourByteArithmetic(n: int)
    requires 0 <= n
    ensures n / 262144 * 262144 + n / 4096 % 64 * 4096 + n / 64 % 64 * 64 + n % 64 == n
  {
    var q1 := n / 64;
    var q2 := q1 / 64;
    assert n / 4096 == q2;
    assert n / 262144 == q2 / 64;
  }

  lemma ThreeByteArithmetic(n: int)
    requires 0 <= n
    ensures n / 4096 * 4096 + n / 64 % 64 * 64 + n % 64 == n
  {
    var q1 := n / 64;
    assert n / 4096 == q1 / 64;
  }

  lemma DecodeEscapeTwo(s: string, c: char)
    requires 0x80 <= c as int < 0x800 && s != [] && s[0] == '%'
    requires ByteAt(s, 0) == Some(0xC0 + c as int / 64) && ByteAt(s, 3) == Some(0x80 + c as int % 64)
    ensures DecodeEscape(s) == Some((c, 6))
  {
    assert Continuation(s, 1) == Some(c as int % 64);
  }

  lemma DecodeEscapeThree(s: string, c: char)
    requires 0x800 <= c as int < 0x1_0000 && s != [] && s[0] == '%'
    requires ByteAt(s, 0) == Some(0xE0 + c as int / 4096)
    requires ByteAt(s, 3) == Some(0x80 + c as int / 64 % 64) && ByteAt(s, 6) == Some(0x80 + c as int % 64)
    ensures DecodeEscape(s) == Some((c, 9))
  {
    var n := c as int;
    assert Continuation(s, 1) == Some(n / 64 % 64);
    assert Continuation(s, 2) == Some(n % 64);
    ThreeByteArithmetic(n);
  }

  lemma DecodeEscapeFour(s: string, c: char)
    requires 0x1_0000 <= c as int && s != [] && s[0] == '%'
    requires ByteAt(s, 0) == Some(0xF0 + c as int / 262144) && ByteAt(s, 3) == Some(0x80 + c as int / 4096 % 64)
    requires ByteAt(s, 6) == Some(0x80 + c as int / 64 % 64) && ByteAt(s, 9) == Some(0x80 + c as int % 64)
    ensures DecodeEscape(s) == Some((c, 12))
  {
    var n := c as int;
    assert Continuation(s, 1) == Some(n / 4096 % 64);
    assert Continuation(s, 2) == Some(n / 64 % 64);
    assert Continuation(s, 3) == Some(n % 64);
    FourByteArithmetic(n);
  }

  lemma DecodeEscapeOfEncoded(c: char, rest: string)
    requires !IsUnreserved(c)
    ensures var s := PercentEncode(Utf8(c)) + rest;
      s[0] == '%' && DecodeEscape(s) == Some((c, 3 * |Utf8(c)|))
  {
    var bytes := Utf8(c);
    var s := PercentEncode(bytes) + rest;
    var n := c as int;
    ByteAtPercentEncode(bytes, rest, 0);
    PercentEncodeAt(bytes, 0);
    if n < 0x80 {
    } else if n < 0x800 {
      ByteAtPercentEncode(bytes, rest, 1);
      DecodeEscapeTwo(s, c);
    } else if n < 0x1_0000 {
      ByteAtPercentEncode(bytes, rest, 1);
      ByteAtPercentEncode(bytes, rest, 2);
      DecodeEscapeThree(s, c);
    } else {
      ByteAtPercentEncode(bytes, rest, 1);
      ByteAtPercentEncode(bytes, rest, 2);
      ByteAtPercentEncode(bytes, rest, 3);
      DecodeEscapeFour(s, c);
    }
  }

  /** decodeURIComponent undoes encodeURIComponent. */
  lemma {:induction false} DecodeEncode(s: string)
    ensures DecodeURIComponent(EncodeURIComponent(s)) == Some(s)
  {
    if s != [] {
      DecodeEncode(s[1..]);
      var tail := EncodeURIComponent(s[1..]);
      var e := EncodeURIComponent(s);
      assert e == EncodeChar(s[0]) + tail;
      if IsUnreserved(s[0]) {
        assert e[0] == s[0] && e[1..] == tail;
      } else {
        DecodeEscapeOfEncoded(s[0], tail);
        var k := 3 * |Utf8(s[0])|;
        assert e == PercentEncode(Utf8(s[0])) + tail;
        assert e[k..] == tail;
        assert DecodeEscape(e) == Some((s[0], k));
      }
      assert s == [s[0]] + s[1..];
    }
  }

  /** Hence distinct components encode differently. */
  lemma EncodeInjective(s: string, t: string)
    requires EncodeURIComponent(s) == EncodeURIComponent(t)
    ensures s == t
  {
    DecodeEncode(s);
    DecodeEncode(t);
  }

  // ---------------------------------------------------------------------------------
  // Examples

  lemma {:induction false} EncodeAppend(a: string, b: string)
    ensures EncodeURIComponent(a + b) == EncodeURIComponent(a) + EncodeURIComponent(b)
  {
    if a == [] {
      assert a + b == b;
    } else {
      var ab := a + b;
      assert ab[0] == a[0] && ab[1..] == a[1..] + b;
      EncodeAppend(a[1..], b);
      var head := EncodeChar(a[0]);
      calc {
        EncodeURIComponent(ab);
        head + EncodeURIComponent(a[1..] + b);
        head + (EncodeURIComponent(a[1..]) + EncodeURIComponent(b));
        (head + EncodeURIComponent(a[1..])) + EncodeURIComponent(b);
      }
    }
  }

  lemma EncodeOneChar(c: char)
    ensures EncodeURIComponent([c]) == EncodeChar(c)
  {
    assert [c][1..] == [];
  }

  /** "Belek, Antalya" becomes "Belek%2C%20Antalya". */
  lemma ExampleCommaSpace(x: string, y: string)
    ensures EncodeURIComponent(x + ", " + y)
         == EncodeURIComponent(x) + "%2C%20" + EncodeURIComponent(y)
  {
    var ex, ey := EncodeURIComponent(x), EncodeURIComponent(y);
    var comma, space := EncodeURIComponent(","), EncodeURIComponent(" ");
    assert comma == "%2C" by {
      EncodeOneChar(',');
      assert HexDigit(2) == '2' && HexDigit(12) == 'C';
    }
    assert space == "%20" by {
      EncodeOneChar(' ');
      assert HexDigit(2) == '2' && HexDigit(0) == '0';
    }
    calc {
      EncodeURIComponent(x + ", " + y);
      { assert x + ", " + y == x + ("," + (" " + y)); }
      EncodeURIComponent(x + ("," + (" " + y)));
      { EncodeAppend(x, "," + (" " + y)); }
      ex + EncodeURIComponent("," + (" " + y));
      { EncodeAppend(",", " " + y); }
      ex + (comma + EncodeURIComponent(" " + y));
      { EncodeAppend(" ", y); }
      ex + (comma + (space + ey));
      ex + "%2C%20" + ey;
    }
  }

  /** A date such as "16.07.2025", made of digits and dots, is sent as it is. */
  lemma {:induction false} DateUnchanged(d: string)
    requires forall i :: 0 <= i < |d| ==> IsDigit(d[i]) || d[i] == '.'
    ensures EncodeURIComponent(d) == d
  {
    EncodeIsIdentityIff(d);
  }

  lemma ExampleTwoByte()
    ensures EncodeURIComponent("\U{E7}") == "%C3%A7"
  {
    EncodeOneChar('\U{E7}');
    assert Utf8('\U{E7}') == [0xC3, 0xA7];
    assert HexDigit(12) == 'C' && HexDigit(3) == '3' && HexDigit(10) == 'A' && HexDigit(7) == '7';
    assert PercentEncode([0xA7]) == "%A7";
  }

  lemma ExampleFourByte()
    ensures EncodeURIComponent("\U{1F3E8}") == "%F0%9F%8F%A8"
  {
    EncodeOneChar('\U{1F3E8}');
    assert Utf8('\U{1F3E8}') == [0xF0, 0x9F, 0x8F, 0xA8];
    assert HexDigit(15) == 'F' && HexDigit(0) == '0' && HexDigit(9) == '9'
      && HexDigit(8) == '8' && HexDigit(10) == 'A';
    assert PercentEncode([0xA8]) == "%A8";
    assert PercentEncode([0x8F, 0xA8]) == "%8F%A8";
    assert PercentEncode([0x9F, 0x8F, 0xA8]) == "%9F%8F%A8";
  }
}
