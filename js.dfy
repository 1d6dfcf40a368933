/** The few pieces of JavaScript's runtime semantics that the Etstur service relies on:
    the values a parsed JSON payload can hold, truthiness, property reads that may throw,
    white space as regular expressions and `trim` see it, `Number.prototype.toString`
    for integers and `parseInt(s, 10)`. Section numbers refer to ECMA-262. */
module Js {

  datatype Option<+T> = None | Some(value: T)

  /** A JavaScript value as `JSON.parse` or axios produces it, plus `undefined`,
      which is what reading a missing property yields. */
  datatype JsValue =
    | Undefined
    | Null
    | Bool(b: bool)
    | Num(n: real)
    | Str(s: string)
    | Arr(items: seq<JsValue>)
    | Obj(fields: map<string, JsValue>)

  /** The outcome of evaluating an expression: a value, or a thrown TypeError. */
  datatype Completion<+T> = Normal(value: T) | Throw

  predicate Nullish(v: JsValue) {
    v.Undefined? || v.Null?
  }

  /** ToBoolean (section 7.1.2): what `if (v)` and `!v` test. */
  predicate Truthy(v: JsValue)
    ensures Truthy(v) ==> !Nullish(v)
  {
    match v
    case Undefined => false
    case Null => false
    case Bool(b) => b
    case Num(n) => n != 0.0
    case Str(s) => s != ""
    case Arr(_) => true
    case Obj(_) => true
  }

  /** `v?.key`: never throws; `undefined` on a nullish base or a missing key.
      Primitives and arrays have no own property under the keys the service reads. */
  function Prop(v: JsValue, key: string): (r: JsValue)
    ensures v.Obj? && key in v.fields ==> r == v.fields[key]
    ensures !(v.Obj? && key in v.fields) ==> r == Undefined
  {
    match v
    case Obj(fields) => if key in fields then fields[key] else Undefined
    case _ => Undefined
  }

  /** `v.key`: a TypeError when `v` is null or undefined, otherwise `v?.key`. */
  function Get(v: JsValue, key: string): (r: Completion<JsValue>)
    ensures r.Throw? <==> Nullish(v)
    ensures r.Normal? ==> r.value == Prop(v, key)
  {
    if Nullish(v) then Throw else Normal(Prop(v, key))
  }

  /** `v[0]`: a TypeError on a nullish base; the first element of an array, the first
      character of a string, the property "0" of an object, otherwise `undefined`. */
  function First(v: JsValue): (r: Completion<JsValue>)
    ensures r.Throw? <==> Nullish(v)
    ensures v.Arr? && |v.items| > 0 ==> r == Normal(v.items[0])
  {
    match v
    case Undefined => Throw
    case Null => Throw
    case Arr(items) => Normal(if |items| > 0 then items[0] else Undefined)
    case Str(s) => Normal(if |s| > 0 then Str(s[..1]) else Undefined)
    case Obj(fields) => Normal(if "0" in fields then fields["0"] else Undefined)
    case _ => Normal(Undefined)
  }

  /** WhiteSpace or LineTerminator (sections 12.2 and 12.3): the class `\s` of regular
      expressions, what `String.prototype.trim` removes and what `parseInt` skips. */
  predicate IsWhiteSpace(c: char) {
    c == '\t' || c == '\n' || c == '\U{B}' || c == '\U{C}' || c == '\r' || c == ' '
    || c == '\U{A0}' || c == '\U{1680}' || ('\U{2000}' <= c <= '\U{200A}')
    || c == '\U{2028}' || c == '\U{2029}' || c == '\U{202F}' || c == '\U{205F}'
    || c == '\U{3000}' || c == '\U{FEFF}'
  }

  predicate IsDigit(c: char) {
    '0' <= c <= '9'
  }

  function DigitChar(d: int): (c: char)
    requires 0 <= d < 10
    ensures IsDigit(c) && c as int - '0' as int == d
  {
    ('0' as int + d) as char
  }

  /** The decimal digits of a natural number, most significant first, no leading zero. */
  function Digits(n: nat): (s: string)
    ensures |s| > 0 && forall i :: 0 <= i < |s| ==> IsDigit(s[i])
    ensures |s| > 1 ==> s[0] != '0'
    decreases n
  {
    if n < 10 then [DigitChar(n)] else Digits(n / 10) + [DigitChar(n % 10)]
  }

  /** Number::toString (section 6.1.6.1.20) for an integral Number, as `String(n)`,
      template literals and `URLSearchParams.set` produce it. */
  function NumberToString(n: int): (s: string)
    ensures |s| > 0 && (s[0] == '-' <==> n < 0)
    ensures forall i :: (if n < 0 then 1 else 0) <= i < |s| ==> IsDigit(s[i])
  {
    if n < 0 then "-" + Digits(-n) else Digits(n)
  }

  /** The value of a string of decimal digits. */
  function DigitsValue(z: string): nat
    requires forall i :: 0 <= i < |z| ==> IsDigit(z[i])
  {
    if z == [] then 0
    else
      assert IsDigit(z[|z| - 1]);
      10 * DigitsValue(z[..|z| - 1]) + (z[|z| - 1] as int - '0' as int)
  }

  /** The white space at the start of `s` removed, and nothing else. */
  function TrimStart(s: string): (r: string)
    ensures r == [] || !IsWhiteSpace(r[0])
    ensures |r| <= |s| && r == s[|s| - |r|..]
    ensures forall i :: 0 <= i < |s| - |r| ==> IsWhiteSpace(s[i])
  {
    if s != [] && IsWhiteSpace(s[0]) then TrimStart(s[1..]) else s
  }

  /** The white space at the end of `s` removed, and nothing else. */
  function TrimEnd(s: string): (r: string)
    ensures r == [] || !IsWhiteSpace(r[|r| - 1])
    ensures |r| <= |s| && r == s[..|r|]
    ensures forall i :: |r| <= i < |s| ==> IsWhiteSpace(s[i])
  {
    if s != [] && IsWhiteSpace(s[|s| - 1]) then TrimEnd(s[..|s| - 1]) else s
  }

  /** `String.prototype.trim` (section 22.1.3.32) */
  function Trim(s: string): (r: string)
    ensures |r| <= |s|
    ensures r == [] || (!IsWhiteSpace(r[0]) && !IsWhiteSpace(r[|r| - 1]))
  {
    TrimEnd(TrimStart(s))
  }

  lemma {:induction false} TrimStartEmptyIff(s: string)
    ensures TrimStart(s) == [] <==> forall i :: 0 <= i < |s| ==> IsWhiteSpace(s[i])
  {
    if s != [] && IsWhiteSpace(s[0]) {
      TrimStartEmptyIff(s[1..]);
      assert forall i :: 1 <= i < |s| ==> s[i] == s[1..][i - 1];
    }
  }

  /** `trim` gives "" exactly on text made only of white space. */
  lemma TrimEmptyIff(s: string)
    ensures Trim(s) == [] <==> forall i :: 0 <= i < |s| ==> IsWhiteSpace(s[i])
  {
    TrimStartEmptyIff(s);
    var u := TrimStart(s);
    if u != [] {
      assert !IsWhiteSpace(u[0]);
    }
  }

  lemma TrimStartShortens(s: string)
    requires s != [] && IsWhiteSpace(s[0])
    ensures |TrimStart(s)| < |s|
  {
  }

  lemma TrimNonEmptyStartsWord(s: string)
    requires Trim(s) != []
    ensures !IsWhiteSpace(Trim(s)[0])
  {
    var u := TrimStart(s);
    assert TrimEnd(u) == u[..|TrimEnd(u)|];
  }

  /** The longest prefix of `s` made of decimal digits. */
  function LeadingDigits(s: string): (z: string)
    ensures z <= s && forall i :: 0 <= i < |z| ==> IsDigit(z[i])
    ensures |z| < |s| ==> !IsDigit(s[|z|])
  {
    if s != [] && IsDigit(s[0]) then [s[0]] + LeadingDigits(s[1..]) else []
  }

  /** `parseInt(s, 10)` (section 19.2.5); `None` stands for NaN. Negative zero is
      represented by 0. */
  function ParseInt(s: string): (r: Option<int>)
    ensures var t := TrimStart(s);
      var u := if t != [] && (t[0] == '-' || t[0] == '+') then t[1..] else t;
      r.Some? <==> u != [] && IsDigit(u[0])
  {
    var t := TrimStart(s);
    if t != [] && t[0] == '-' then SignedDigits(true, t[1..])
    else if t != [] && t[0] == '+' then SignedDigits(false, t[1..])
    else SignedDigits(false, t)
  }

  /** The part of `parseInt` after the sign: the value of the leading digits, NaN when
      there are none. */
  function SignedDigits(negative: bool, u: string): (r: Option<int>)
    ensures r.Some? <==> u != [] && IsDigit(u[0])
  {
    var z := LeadingDigits(u);
    if z == [] then None
    else
      var value: int := DigitsValue(z);
      Some(if negative then -value else value)
  }

  lemma {:induction false} DigitsValueOfDigits(n: nat)
    ensures DigitsValue(Digits(n)) == n
    decreases n
  {
    var s := Digits(n);
    if n >= 10 {
      DigitsValueOfDigits(n / 10);
      assert s[..|s| - 1] == Digits(n / 10);
    }
  }

  lemma LeadingDigitsOfDigitString(s: string)
    requires forall i :: 0 <= i < |s| ==> IsDigit(s[i])
    ensures LeadingDigits(s) == s
  {
  }

  lemma TrimStartNoSpace(s: string)
    requires s != [] && !IsWhiteSpace(s[0])
    ensures TrimStart(s) == s
  {
  }

  lemma SignedDigitsOfDigits(negative: bool, d: string)
    requires d != [] && forall i :: 0 <= i < |d| ==> IsDigit(d[i])
    ensures SignedDigits(negative, d).Some?
    ensures SignedDigits(negative, d).value == if negative then -(DigitsValue(d) as int) else DigitsValue(d)
  {
    LeadingDigitsOfDigitString(d);
  }

  /** `parseInt` of a digit string is its value. */
  lemma ParseIntOfDigits(d: string)
    requires d != [] && forall i :: 0 <= i < |d| ==> IsDigit(d[i])
    ensures ParseInt(d) == Some(DigitsValue(d))
  {
    assert IsDigit(d[0]);
    TrimStartNoSpace(d);
    SignedDigitsOfDigits(false, d);
  }

  /** `parseInt` of a minus sign before a digit string is the value negated. */
  lemma ParseIntOfNegatedDigits(d: string)
    requires d != [] && forall i :: 0 <= i < |d| ==> IsDigit(d[i])
    ensures ParseInt("-" + d) == Some(-(DigitsValue(d) as int))
  {
    var s := "-" + d;
    TrimStartNoSpace(s);
    assert s[0] == '-' && s[1..] == d;
    SignedDigitsOfDigits(true, d);
  }

  /** `parseInt` reads back what `String` writes for every integer. */
  lemma ParseIntOfNumberToString(n: int)
    ensures ParseInt(NumberToString(n)) == Some(n)
  {
    var m: nat := if n < 0 then -n else n;
    DigitsValueOfDigits(m);
    if n < 0 {
      ParseIntOfNegatedDigits(Digits(m));
    } else {
      ParseIntOfDigits(Digits(m));
    }
  }

  /** Distinct integers print differently. */
  lemma NumberToStringInjective(m: int, n: int)
    requires NumberToString(m) == NumberToString(n)
    ensures m == n
  {
    ParseIntOfNumberToString(m);
    ParseIntOfNumberToString(n);
  }
}
