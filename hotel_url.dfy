/** `generateHotelUrl` of src/services/etsturService.js: a free-text hotel name becomes
    the address of the hotel's page on www.etstur.com. The text before the first comma
    is lower-cased, decomposed (NFD), stripped of combining marks, has the Turkish
    letters replaced, loses every character outside [a-z0-9\s-], is trimmed, split on
    runs of white space, each word gets an upper-case first letter, and the words are
    joined with hyphens.

    Full Unicode lower-casing and normalisation are not modelled: the name's text before
    its first comma is restricted to ASCII and the Turkish letters ç ğ ı ö ş ü Ç Ğ İ Ö Ş Ü,
    on which the steps below are exactly what JavaScript does. */
module HotelUrl {
  import opened Js

  const BaseUrl := "https://www.etstur.com/"

  const TurkishLetters := "çğıöşüÇĞİÖŞÜ"

  predicate InAlphabet(c: char) {
    c as int < 0x80 || c in TurkishLetters
  }

  lemma TurkishLetterCases(c: char)
    ensures c in TurkishLetters <==>
      c == 'ç' || c == 'ğ' || c == 'ı' || c == 'ö' || c == 'ş' || c == 'ü' ||
      c == 'Ç' || c == 'Ğ' || c == 'İ' || c == 'Ö' || c == 'Ş' || c == 'Ü'
  {
    if c in TurkishLetters {
      var i :| 0 <= i < |TurkishLetters| && TurkishLetters[i] == c;
      assert i < 12;
    }
  }

  /** `s.split(',')[0]`: the text before the first comma, or all of `s`. */
  function BeforeFirstComma(s: string): (r: string)
    ensures r <= s && ',' !in r
    ensures |r| < |s| ==> s[|r|] == ','
  {
    if s == [] || s[0] == ',' then [] else [s[0]] + BeforeFirstComma(s[1..])
  }

  /** The names the model covers: the text that `generateHotelUrl` reads is in the alphabet. */
  predicate Supported(hotelName: string) {
    var p := BeforeFirstComma(hotelName);
    forall i :: 0 <= i < |p| ==> InAlphabet(p[i])
  }

  /** Applies a character-to-string step to every character, as the global `replace`
      calls and `toLowerCase`/`normalize` do. */
  function FlatMap(f: char -> string, s: string): string {
    if s == [] then [] else f(s[0]) + FlatMap(f, s[1..])
  }

  // ---------------------------------------------------------------------------------
  // The character steps, lines 11 to 15

  /** `toLowerCase` on the alphabet; capital dotted İ becomes i followed by U+0307. */
  function LowerChar(c: char): string {
    if 'A' <= c <= 'Z' then [(c as int + 32) as char]
    else if c == 'Ç' then "ç"
    else if c == 'Ğ' then "ğ"
    else if c == 'İ' then "i\U{307}"
    else if c == 'Ö' then "ö"
    else if c == 'Ş' then "ş"
    else if c == 'Ü' then "ü"
    else [c]
  }

  /** `normalize("NFD")` on the alphabet: the precomposed Turkish letters split into a
      base letter and a combining mark; dotless ı has no decomposition. */
  function DecomposeChar(c: char): string {
    if c == 'ç' then "c\U{327}"
    else if c == 'ğ' then "g\U{306}"
    else if c == 'ö' then "o\U{308}"
    else if c == 'ş' then "s\U{327}"
    else if c == 'ü' then "u\U{308}"
    else if c == 'Ç' then "C\U{327}"
    else if c == 'Ğ' then "G\U{306}"
    else if c == 'İ' then "I\U{307}"
    else if c == 'Ö' then "O\U{308}"
    else if c == 'Ş' then "S\U{327}"
    else if c == 'Ü' then "U\U{308}"
    else [c]
  }

  predicate IsCombiningMark(c: char) {
    '\U{300}' <= c <= '\U{36F}'
  }

  /** `replace(/[\u0300-\u036f]/g, "")` */
  function StripMarkChar(c: char): string {
    if IsCombiningMark(c) then [] else [c]
  }

  /** The six `replace` calls of lines 13 and 14. */
  function ReplaceTurkishChar(c: char): string {
    if c == 'ç' then "c"
    else if c == 'ğ' then "g"
    else if c == 'ı' then "i"
    else if c == 'ö' then "o"
    else if c == 'ş' then "s"
    else if c == 'ü' then "u"
    else [c]
  }

  /** The characters `replace(/[^a-z0-9\s-]/g, "")` keeps. */
  predicate IsSlugSource(c: char) {
    ('a' <= c <= 'z') || IsDigit(c) || IsWhiteSpace(c) || c == '-'
  }

  function KeepChar(c: char): string {
    if IsSlugSource(c) then [c] else []
  }

  /** Lines 11 to 15 after lower-casing. */
  function CleanText(u: string): string {
    FlatMap(KeepChar, FlatMap(ReplaceTurkishChar, FlatMap(StripMarkChar, FlatMap(DecomposeChar, u))))
  }

  /** Lines 11 to 15: only [a-z0-9-] and white space are left. */
  function CleanName(p: string): (t: string)
    ensures IsCleanText(t)
  {
    KeepIsClean(FlatMap(ReplaceTurkishChar, FlatMap(StripMarkChar, FlatMap(DecomposeChar, FlatMap(LowerChar, p)))));
    CleanText(FlatMap(LowerChar, p))
  }

  // ---------------------------------------------------------------------------------
  // The word steps, lines 16 to 19

  /** `s.split(/\s+/)`: the pieces between maximal runs of white space, with an empty
      first or last piece when `s` starts or ends with white space; `[""]` for "". */
  function SplitOnWhiteSpace(s: string): (words: seq<string>)
    ensures |words| >= 1
    ensures s != [] && !IsWhiteSpace(s[0]) ==> words[0] != []
    decreases |s|
  {
    if s == [] then [""]
    else if IsWhiteSpace(s[0]) then
      TrimStartShortens(s);
      [""] + SplitOnWhiteSpace(TrimStart(s))
    else
      var rest := SplitOnWhiteSpace(s[1..]);
      [[s[0]] + rest[0]] + rest[1..]
  }

  /** `toUpperCase` on the characters a word can still hold here. */
  function UpperChar(c: char): char {
    if 'a' <= c <= 'z' then (c as int - 32) as char else c
  }

  /** `word.charAt(0).toUpperCase() + word.slice(1)` */
  function Capitalize(w: string): (r: string)
    ensures |r| == |w| && forall i :: 0 < i < |r| ==> r[i] == w[i]
    ensures w != [] && !('a' <= w[0] <= 'z') ==> r == w
  {
    if w == [] then [] else [UpperChar(w[0])] + w[1..]
  }

  function CapitalizeAll(words: seq<string>): (r: seq<string>)
    ensures |r| == |words| && forall k :: 0 <= k < |r| ==> r[k] == Capitalize(words[k])
  {
    if words == [] then [] else [Capitalize(words[0])] + CapitalizeAll(words[1..])
  }

  /** `words.join("-")` */
  function JoinWithHyphens(words: seq<string>): (r: string)
    ensures words != [] ==> words[0] <= r
    ensures |words| > 1 ==> |r| > |words[0]| && r[|words[0]|] == '-'
  {
    if words == [] then []
    else if |words| == 1 then words[0]
    else words[0] + "-" + JoinWithHyphens(words[1..])
  }

  function SlugOf(p: string): string {
    JoinWithHyphens(CapitalizeAll(SplitOnWhiteSpace(Trim(CleanName(p)))))
  }

  // ---------------------------------------------------------------------------------
  // Properties of a slug

  predicate IsSlugChar(c: char) {
    ('A' <= c <= 'Z') || ('a' <= c <= 'z') || IsDigit(c) || c == '-'
  }

  /** Only ASCII letters, digits and hyphens: no white space, no `?`, `#` or `/`. */
  predicate IsSlug(s: string) {
    forall i :: 0 <= i < |s| ==> IsSlugChar(s[i])
  }

  /** An upper-case letter only opens a word: it comes first or right after a hyphen. */
  predicate CapitalsStartWords(s: string) {
    forall i :: 0 <= i < |s| && 'A' <= s[i] <= 'Z' ==> i == 0 || s[i - 1] == '-'
  }

  /** A character that survives into the slug: a letter or digit of the alphabet, or a hyphen. */
  predicate IsWordChar(c: char) {
    ('A' <= c <= 'Z') || ('a' <= c <= 'z') || IsDigit(c) || c == '-' || c in TurkishLetters
  }

  /** `generateHotelUrl(hotelName)` (lines 8 to 22). */
  function GenerateHotelUrl(hotelName: string): (url: string)
    requires Supported(hotelName)
    ensures |url| >= |BaseUrl| && url[..|BaseUrl|] == BaseUrl
    ensures IsSlug(url[|BaseUrl|..]) && CapitalsStartWords(url[|BaseUrl|..])
    ensures var p := BeforeFirstComma(hotelName);
      url == BaseUrl <==> forall i :: 0 <= i < |p| ==> !IsWordChar(p[i])
  {
    var p := BeforeFirstComma(hotelName);
    SlugShape(p);
    SlugEmptyIff(p);
    BaseUrl + SlugOf(p)
  }

  // ---------------------------------------------------------------------------------
  // The character steps are one transliteration

  /** What lines 11 to 15 do to one character of the alphabet: ASCII capitals are
      lower-cased, each Turkish letter becomes its Latin base letter (ç Ç to c, ğ Ğ to g,
      ı İ to i, ö Ö to o, ş Ş to s, ü Ü to u), [a-z0-9-] and white space stay, and
      everything else is dropped. */
  function Transliterate(c: char): string {
    if 'A' <= c <= 'Z' then [(c as int + 32) as char]
    else if c == 'ç' || c == 'Ç' then "c"
    else if c == 'ğ' || c == 'Ğ' then "g"
    else if c == 'ı' || c == 'İ' then "i"
    else if c == 'ö' || c == 'Ö' then "o"
    else if c == 'ş' || c == 'Ş' then "s"
    else if c == 'ü' || c == 'Ü' then "u"
    else if IsSlugSource(c) then [c]
    else []
  }

  lemma {:induction false} FlatMapAppend(f: char -> string, a: string, b: string)
    ensures FlatMap(f, a + b) == FlatMap(f, a) + FlatMap(f, b)
  {
    if a == [] {
      assert a + b == b;
    } else {
      var ab := a + b;
      assert ab[0] == a[0] && ab[1..] == a[1..] + b;
      FlatMapAppend(f, a[1..], b);
      calc {
        FlatMap(f, ab);
        f(a[0]) + FlatMap(f, a[1..] + b);
        f(a[0]) + (FlatMap(f, a[1..]) + FlatMap(f, b));
        (f(a[0]) + FlatMap(f, a[1..])) + FlatMap(f, b);
      }
    }
  }

  lemma FlatMapOne(f: char -> string, c: char)
    ensures FlatMap(f, [c]) == f(c)
  {
    assert [c][1..] == [];
  }

  lemma CleanTextAppend(a: string, b: string)
    ensures CleanText(a + b) == CleanText(a) + CleanText(b)
  {
    FlatMapAppend(DecomposeChar, a, b);
    var a1, b1 := FlatMap(DecomposeChar, a), FlatMap(DecomposeChar, b);
    FlatMapAppend(StripMarkChar, a1, b1);
    var a2, b2 := FlatMap(StripMarkChar, a1), FlatMap(StripMarkChar, b1);
    FlatMapAppend(ReplaceTurkishChar, a2, b2);
    var a3, b3 := FlatMap(ReplaceTurkishChar, a2), FlatMap(ReplaceTurkishChar, b2);
    FlatMapAppend(KeepChar, a3, b3);
  }

  /** CleanText of a character that the decomposition leaves alone. */
  lemma CleanTextOne(c: char)
    requires DecomposeChar(c) == [c] && !IsCombiningMark(c)
    ensures CleanText([c]) == FlatMap(KeepChar, ReplaceTurkishChar(c))
  {
    FlatMapOne(DecomposeChar, c);
    FlatMapOne(StripMarkChar, c);
    FlatMapOne(ReplaceTurkishChar, c);
  }

  /** CleanText of a base letter followed by a combining mark. */
  lemma CleanTextMarked(b: char, m: char)
    requires DecomposeChar(b) == [b] && DecomposeChar(m) == [m]
    requires !IsCombiningMark(b) && IsCombiningMark(m)
    requires ReplaceTurkishChar(b) == [b] && IsSlugSource(b)
    ensures CleanText([b, m]) == [b]
  {
    assert [b, m] == [b] + [m];
    FlatMapAppend(DecomposeChar, [b], [m]);
    FlatMapOne(DecomposeChar, b);
    FlatMapOne(DecomposeChar, m);
    FlatMapAppend(StripMarkChar, [b], [m]);
    FlatMapOne(StripMarkChar, b);
    FlatMapOne(StripMarkChar, m);
    assert FlatMap(StripMarkChar, [b, m]) == [b];
    FlatMapOne(ReplaceTurkishChar, b);
    FlatMapOne(KeepChar, b);
  }

  /** CleanText of a precomposed lower-case Turkish letter. */
  lemma CleanTextDecomposed(c: char, b: char, m: char)
    requires DecomposeChar(c) == [b, m]
    requires DecomposeChar(b) == [b] && DecomposeChar(m) == [m]
    requires !IsCombiningMark(b) && IsCombiningMark(m)
    requires ReplaceTurkishChar(b) == [b] && IsSlugSource(b)
    ensures CleanText([c]) == [b]
  {
    FlatMapOne(DecomposeChar, c);
    CleanTextMarked(b, m);
    assert FlatMap(DecomposeChar, [b, m]) == [b, m] by {
      assert [b, m] == [b] + [m];
      FlatMapAppend(DecomposeChar, [b], [m]);
      FlatMapOne(DecomposeChar, b);
      FlatMapOne(DecomposeChar, m);
    }
    assert CleanText([c]) == CleanText([b, m]);
  }

  lemma CleanNameOfChar(c: char)
    requires InAlphabet(c)
    ensures CleanText(LowerChar(c)) == Transliterate(c)
  {
    if 'A' <= c <= 'Z' {
      var d := (c as int + 32) as char;
      CleanTextOne(d);
      FlatMapOne(KeepChar, d);
    } else if c == 'Ç' || c == 'ç' {
      CleanTextDecomposed('ç', 'c', '\U{327}');
    } else if c == 'Ğ' || c == 'ğ' {
      CleanTextDecomposed('ğ', 'g', '\U{306}');
    } else if c == 'İ' {
      CleanTextMarked('i', '\U{307}');
    } else if c == 'ı' {
      CleanTextOne(c);
      FlatMapOne(KeepChar, 'i');
    } else if c == 'Ö' || c == 'ö' {
      CleanTextDecomposed('ö', 'o', '\U{308}');
    } else if c == 'Ş' || c == 'ş' {
      CleanTextDecomposed('ş', 's', '\U{327}');
    } else if c == 'Ü' || c == 'ü' {
      CleanTextDecomposed('ü', 'u', '\U{308}');
    } else {
      assert c as int < 0x80;
      CleanTextOne(c);
      FlatMapOne(KeepChar, c);
    }
  }

  /** Lines 11 to 15 amount to transliterating each character on its own. */
  lemma {:induction false} CleanNameIsTransliteration(p: string)
    requires forall i :: 0 <= i < |p| ==> InAlphabet(p[i])
    ensures CleanName(p) == FlatMap(Transliterate, p)
  {
    if p != [] {
      CleanNameIsTransliteration(p[1..]);
      CleanTextAppend(LowerChar(p[0]), FlatMap(LowerChar, p[1..]));
      CleanNameOfChar(p[0]);
    }
  }

  // ---------------------------------------------------------------------------------
  // The slug's shape

  predicate IsCleanText(t: string) {
    forall i :: 0 <= i < |t| ==> IsSlugSource(t[i])
  }

  lemma {:induction false} KeepIsClean(u: string)
    ensures IsCleanText(FlatMap(KeepChar, u))
  {
    if u != [] {
      KeepIsClean(u[1..]);
    }
  }

  lemma TrimIsClean(t: string)
    requires IsCleanText(t)
    ensures IsCleanText(Trim(t))
  {
    var s := TrimStart(t);
    var k := |t| - |s|;
    assert s == t[k..];
    var r := Trim(t);
    assert r == s[..|r|];
    forall i | 0 <= i < |r| ensures IsSlugSource(r[i]) {
      assert r[i] == t[k + i];
    }
  }

  predicate IsLowerWord(w: string) {
    forall i :: 0 <= i < |w| ==> ('a' <= w[i] <= 'z') || IsDigit(w[i]) || w[i] == '-'
  }

  /** A capitalised word keeps its letters: only a lower-case first letter changes, to
      its capital, and no other letter is a capital. */
  lemma CapitalizeShape(w: string)
    requires IsLowerWord(w)
    ensures var r := Capitalize(w);
      |r| == |w| && IsSlug(r) && forall i :: 0 < i < |r| ==> !('A' <= r[i] <= 'Z')
    ensures var r := Capitalize(w);
      forall i :: 0 < i < |r| ==> r[i] == w[i]
    ensures var r := Capitalize(w);
      w != [] ==> if 'a' <= w[0] <= 'z' then 'A' <= r[0] <= 'Z' && r[0] as int + 32 == w[0] as int
                  else r[0] == w[0]
  {
  }

  lemma {:induction false} JoinShape(words: seq<string>)
    requires forall k :: 0 <= k < |words| ==> IsSlug(words[k]) && CapitalsStartWords(words[k])
    ensures IsSlug(JoinWithHyphens(words)) && CapitalsStartWords(JoinWithHyphens(words))
  {
    if |words| > 1 {
      JoinShape(words[1..]);
      var head, rest := words[0], JoinWithHyphens(words[1..]);
      var j := JoinWithHyphens(words);
      assert j == head + "-" + rest;
      forall i | 0 <= i < |j| && 'A' <= j[i] <= 'Z'
        ensures i == 0 || j[i - 1] == '-'
      {
        if i > |head| + 1 {
          assert j[i] == rest[i - |head| - 1] && j[i - 1] == rest[i - |head| - 2];
        } else if i <= |head| - 1 {
          assert j[i] == head[i];
          assert i > 0 ==> j[i - 1] == head[i - 1];
        }
      }
    }
  }

  /** The pieces of clean text hold only lower-case letters, digits and hyphens. */
  lemma {:induction false} SplitOfCleanText(s: string)
    requires IsCleanText(s)
    ensures forall k :: 0 <= k < |SplitOnWhiteSpace(s)| ==> IsLowerWord(SplitOnWhiteSpace(s)[k])
    decreases |s|, 1
  {
    if s != [] {
      if IsWhiteSpace(s[0]) {
        SplitOfCleanGap(s);
      } else {
        SplitOfCleanWord(s);
      }
    }
  }

  lemma {:induction false} SplitOfCleanGap(s: string)
    requires IsCleanText(s) && s != [] && IsWhiteSpace(s[0])
    ensures forall k :: 0 <= k < |SplitOnWhiteSpace(s)| ==> IsLowerWord(SplitOnWhiteSpace(s)[k])
    decreases |s|, 0
  {
    var u := TrimStart(s);
    assert forall i :: 0 <= i < |u| ==> u[i] == s[|s| - |u| + i];
    TrimStartShortens(s);
    SplitOfCleanText(u);
    var r := SplitOnWhiteSpace(u);
    assert SplitOnWhiteSpace(s) == [""] + r;
    assert forall k :: 1 <= k < |r| + 1 ==> ([""] + r)[k] == r[k - 1];
  }

  lemma {:induction false} SplitOfCleanWord(s: string)
    requires IsCleanText(s) && s != [] && !IsWhiteSpace(s[0])
    ensures forall k :: 0 <= k < |SplitOnWhiteSpace(s)| ==> IsLowerWord(SplitOnWhiteSpace(s)[k])
    decreases |s|, 0
  {
    var t := s[1..];
    assert forall i :: 0 <= i < |t| ==> t[i] == s[i + 1];
    SplitOfCleanText(t);
    var r := SplitOnWhiteSpace(t);
    var first := [s[0]] + r[0];
    assert SplitOnWhiteSpace(s) == [first] + r[1..];
    assert forall i :: 1 <= i < |first| ==> first[i] == r[0][i - 1];
    assert forall k :: 1 <= k < |r| ==> ([first] + r[1..])[k] == r[k];
  }

  lemma SlugShape(p: string)
    ensures IsSlug(SlugOf(p)) && CapitalsStartWords(SlugOf(p))
  {
    var t := Trim(CleanName(p));
    KeepIsClean(FlatMap(ReplaceTurkishChar, FlatMap(StripMarkChar, FlatMap(DecomposeChar, FlatMap(LowerChar, p)))));
    TrimIsClean(CleanName(p));
    var words := SplitOnWhiteSpace(t);
    SplitOfCleanText(t);
    var caps := CapitalizeAll(words);
    forall k | 0 <= k < |caps|
      ensures IsSlug(caps[k]) && CapitalsStartWords(caps[k])
    {
      CapitalizeShape(words[k]);
    }
    JoinShape(caps);
  }

  // ---------------------------------------------------------------------------------
  // The words of the slug

  /** The longest prefix of `s` without white space. */
  function FirstWord(s: string): (w: string)
    ensures w <= s && forall i :: 0 <= i < |w| ==> !IsWhiteSpace(w[i])
    ensures |w| < |s| ==> IsWhiteSpace(s[|w|])
  {
    if s == [] || IsWhiteSpace(s[0]) then [] else [s[0]] + FirstWord(s[1..])
  }

  /** `words[0] + gaps[0] + words[1] + ... + words[|words| - 1]` */
  function Interleave(words: seq<string>, gaps: seq<string>): string
    requires |words| == |gaps| + 1
    decreases |gaps|
  {
    if gaps == [] then words[0] else words[0] + gaps[0] + Interleave(words[1..], gaps[1..])
  }

  /** A word: non-empty, without white space. */
  predicate IsWord(w: string) {
    w != [] && forall i :: 0 <= i < |w| ==> !IsWhiteSpace(w[i])
  }

  /** A gap: a non-empty run of white space. */
  predicate IsGap(g: string) {
    g != [] && forall i :: 0 <= i < |g| ==> IsWhiteSpace(g[i])
  }

  /** `t` is the words `words`, in order, separated by the runs of white space `gaps`. */
  predicate Spaced(t: string, words: seq<string>, gaps: seq<string>) {
    && |words| == |gaps| + 1
    && (forall k :: 0 <= k < |words| ==> IsWord(words[k]))
    && (forall k :: 0 <= k < |gaps| ==> IsGap(gaps[k]))
    && Interleave(words, gaps) == t
  }

  /** Splitting text that starts with white-space-free `w` extends the first piece by `w`. */
  lemma {:induction false} SplitWordPrefix(w: string, x: string)
    requires forall i :: 0 <= i < |w| ==> !IsWhiteSpace(w[i])
    ensures var r := SplitOnWhiteSpace(x);
      SplitOnWhiteSpace(w + x) == [w + r[0]] + r[1..]
    decreases |w|
  {
    var r := SplitOnWhiteSpace(x);
    if w == [] {
      assert w + x == x && w + r[0] == r[0];
    } else {
      var s := w + x;
      assert s[0] == w[0] && s[1..] == w[1..] + x;
      SplitWordPrefix(w[1..], x);
      assert [s[0]] + (w[1..] + r[0]) == w + r[0];
    }
  }

  /** Splitting text that starts with a gap gives an empty first piece, then the pieces
      of what follows the gap. */
  lemma SplitAfterGap(g: string, rest: string)
    requires IsGap(g) && (rest == [] || !IsWhiteSpace(rest[0]))
    ensures SplitOnWhiteSpace(g + rest) == [""] + SplitOnWhiteSpace(rest)
  {
    var s := g + rest;
    var r := TrimStart(s);
    if rest != [] {
      assert s[|g|] == rest[0];
    }
    if |r| > |rest| {
      assert false;
    } else if |r| < |rest| {
      assert false;
    }
    assert r == rest;
  }

  /** Spaced text with more than one word is its first word, its first gap and the
      spaced text of the remaining words and gaps. */
  lemma SpacedTail(t: string, words: seq<string>, gaps: seq<string>) returns (rest: string)
    requires Spaced(t, words, gaps) && gaps != []
    ensures Spaced(rest, words[1..], gaps[1..]) && t == words[0] + (gaps[0] + rest)
    ensures IsGap(gaps[0]) && rest != [] && !IsWhiteSpace(rest[0])
  {
    rest := Interleave(words[1..], gaps[1..]);
    assert forall k :: 0 <= k < |words| - 1 ==> words[1..][k] == words[k + 1];
    assert forall k :: 0 <= k < |gaps| - 1 ==> gaps[1..][k] == gaps[k + 1];
    assert IsWord(words[1]);
    assert rest[0] == words[1][0] by {
      if |gaps| > 1 {
        assert rest == words[1] + gaps[1] + Interleave(words[2..], gaps[2..]);
      }
    }
  }

  /** `split(/\s+/)` recovers the words of text made of words separated by white space. */
  lemma {:induction false} SplitOfSpaced(t: string, words: seq<string>, gaps: seq<string>)
    requires Spaced(t, words, gaps)
    ensures SplitOnWhiteSpace(t) == words
    decreases |gaps|
  {
    var w := words[0];
    if gaps == [] {
      SplitWordPrefix(w, []);
      assert w + [] == t;
    } else {
      var g := gaps[0];
      var rest := SpacedTail(t, words, gaps);
      SplitOfSpaced(rest, words[1..], gaps[1..]);
      SplitAfterGap(g, rest);
      var pieces := SplitOnWhiteSpace(g + rest);
      assert pieces[0] == [] && pieces[1..] == words[1..];
      SplitWordPrefix(w, g + rest);
      assert w + pieces[0] == w;
      assert [w] + words[1..] == words;
    }
  }

  /** A word and a gap in front of spaced text give spaced text. */
  lemma SpacedCons(t: string, w: string, g: string, rest: string, words: seq<string>, gaps: seq<string>)
    requires IsWord(w) && IsGap(g) && Spaced(rest, words, gaps) && t == w + g + rest
    ensures Spaced(t, [w] + words, [g] + gaps)
  {
    var ws, gs := [w] + words, [g] + gaps;
    assert ws[1..] == words && gs[1..] == gaps;
    assert forall k :: 1 <= k < |ws| ==> ws[k] == words[k - 1];
    assert forall k :: 1 <= k < |gs| ==> gs[k] == gaps[k - 1];
  }

  /** Text that starts with white space but does not end with it is a gap followed by
      text that neither starts nor ends with white space. */
  lemma GapThenText(x: string) returns (g: string, rest: string)
    requires x != [] && IsWhiteSpace(x[0]) && !IsWhiteSpace(x[|x| - 1])
    ensures IsGap(g) && x == g + rest
    ensures rest != [] && !IsWhiteSpace(rest[0]) && !IsWhiteSpace(rest[|rest| - 1])
  {
    rest := TrimStart(x);
    g := x[..|x| - |rest|];
    assert x == g + rest;
    assert g != [];
    assert forall i :: 0 <= i < |g| ==> g[i] == x[i];
    assert rest != [];
    assert rest[|rest| - 1] == x[|x| - 1];
  }

  /** Text that starts with a word and goes on past it continues with a gap and then
      with more text that starts with a word. */
  lemma WordThenGap(t: string) returns (w: string, g: string, rest: string)
    requires t != [] && !IsWhiteSpace(t[0]) && !IsWhiteSpace(t[|t| - 1])
    requires |FirstWord(t)| < |t|
    ensures w == FirstWord(t) && IsWord(w) && IsGap(g) && t == w + g + rest
    ensures rest != [] && !IsWhiteSpace(rest[0]) && !IsWhiteSpace(rest[|rest| - 1])
  {
    w := FirstWord(t);
    assert w != [] && w[0] == t[0];
    var x := t[|w|..];
    assert t == w + x && x[0] == t[|w|] && x[|x| - 1] == t[|t| - 1];
    g, rest := GapThenText(x);
  }

  /** Text that neither starts nor ends with white space is made of words separated by
      white space: the words and the gaps between them. */
  lemma {:induction false} SpacedParts(t: string) returns (words: seq<string>, gaps: seq<string>)
    requires t != [] && !IsWhiteSpace(t[0]) && !IsWhiteSpace(t[|t| - 1])
    ensures Spaced(t, words, gaps)
    decreases |t|
  {
    var first := FirstWord(t);
    if |first| == |t| {
      assert first == t && Interleave([t], []) == t;
      words, gaps := [t], [];
    } else {
      var w, g, rest := WordThenGap(t);
      var ws, gs := SpacedParts(rest);
      SpacedCons(t, w, g, rest, ws, gs);
      words, gaps := [w] + ws, [g] + gs;
    }
  }

  /** Text that neither starts nor ends with white space is made of words separated by
      white space, and `split(/\s+/)` returns exactly those words. */
  lemma SpacedSplit(t: string)
    requires t != [] && !IsWhiteSpace(t[0]) && !IsWhiteSpace(t[|t| - 1])
    ensures exists gaps :: Spaced(t, SplitOnWhiteSpace(t), gaps)
  {
    var words, gaps := SpacedParts(t);
    SplitOfSpaced(t, words, gaps);
  }

  /** The slug is the words of the transliterated name, each capitalised, joined by
      hyphens: whatever white space separated two words becomes one hyphen. */
  lemma GenerateHotelUrlWords(hotelName: string, words: seq<string>, gaps: seq<string>)
    requires Supported(hotelName)
    requires Spaced(Trim(FlatMap(Transliterate, BeforeFirstComma(hotelName))), words, gaps)
    ensures GenerateHotelUrl(hotelName) == BaseUrl + JoinWithHyphens(CapitalizeAll(words))
  {
    var p := BeforeFirstComma(hotelName);
    CleanNameIsTransliteration(p);
    SplitOfSpaced(Trim(CleanName(p)), words, gaps);
  }

  /** A name whose transliteration holds a word has its words, and the slug is made
      of them. */
  lemma GenerateHotelUrlHasWords(hotelName: string)
    requires Supported(hotelName)
    requires Trim(FlatMap(Transliterate, BeforeFirstComma(hotelName))) != []
    ensures var t := Trim(FlatMap(Transliterate, BeforeFirstComma(hotelName)));
      exists gaps :: Spaced(t, SplitOnWhiteSpace(t), gaps)
        && GenerateHotelUrl(hotelName) == BaseUrl + JoinWithHyphens(CapitalizeAll(SplitOnWhiteSpace(t)))
  {
    var u := FlatMap(Transliterate, BeforeFirstComma(hotelName));
    var t := Trim(u);
    TrimNonEmptyStartsWord(u);
    var words, gaps := SpacedParts(t);
    SplitOfSpaced(t, words, gaps);
    GenerateHotelUrlWords(hotelName, words, gaps);
  }

  // ---------------------------------------------------------------------------------
  // When the slug is empty

  lemma {:induction false} JoinLength(words: seq<string>)
    requires words != []
    ensures |JoinWithHyphens(words)| >= |words[0]|
  {
  }

  lemma SlugEmptyIfWhiteSpace(p: string)
    ensures SlugOf(p) == [] <==> Trim(CleanName(p)) == []
  {
    var t := Trim(CleanName(p));
    var words := SplitOnWhiteSpace(t);
    if t == [] {
      assert words == [""];
      assert CapitalizeAll(words) == [""];
    } else {
      TrimNonEmptyStartsWord(CleanName(p));
      JoinLength(CapitalizeAll(words));
    }
  }

  predicate AllWhiteSpace(s: string) {
    forall i :: 0 <= i < |s| ==> IsWhiteSpace(s[i])
  }

  lemma AllWhiteSpaceAppend(a: string, b: string)
    ensures AllWhiteSpace(a + b) <==> AllWhiteSpace(a) && AllWhiteSpace(b)
  {
    if AllWhiteSpace(a) && AllWhiteSpace(b) {
      forall i | 0 <= i < |a + b| ensures IsWhiteSpace((a + b)[i]) {
        if i >= |a| {
          assert (a + b)[i] == b[i - |a|];
        }
      }
    }
    if AllWhiteSpace(a + b) {
      forall i | 0 <= i < |a| ensures IsWhiteSpace(a[i]) {
        assert a[i] == (a + b)[i];
      }
      forall i | 0 <= i < |b| ensures IsWhiteSpace(b[i]) {
        assert b[i] == (a + b)[|a| + i];
      }
    }
  }

  lemma TransliterateWordChar(c: char)
    requires InAlphabet(c)
    ensures AllWhiteSpace(Transliterate(c)) <==> !IsWordChar(c)
  {
    TurkishLetterCases(c);
    var t := Transliterate(c);
    if IsWordChar(c) {
      assert |t| == 1 && ('a' <= t[0] <= 'z' || IsDigit(t[0]) || t[0] == '-');
      assert !IsWhiteSpace(t[0]);
    } else if IsSlugSource(c) {
      assert t == [c] && IsWhiteSpace(c);
    } else {
      assert t == [];
    }
  }

  lemma {:induction false} TransliterationAllWhiteSpace(p: string)
    requires forall i :: 0 <= i < |p| ==> InAlphabet(p[i])
    ensures AllWhiteSpace(FlatMap(Transliterate, p)) <==> forall i :: 0 <= i < |p| ==> !IsWordChar(p[i])
  {
    if p != [] {
      TransliterationAllWhiteSpace(p[1..]);
      AllWhiteSpaceAppend(Transliterate(p[0]), FlatMap(Transliterate, p[1..]));
      TransliterateWordChar(p[0]);
      assert forall i :: 1 <= i < |p| ==> p[i] == p[1..][i - 1];
    }
  }

  lemma SlugEmptyIff(p: string)
    requires forall i :: 0 <= i < |p| ==> InAlphabet(p[i])
    ensures SlugOf(p) == [] <==> forall i :: 0 <= i < |p| ==> !IsWordChar(p[i])
  {
    SlugEmptyIfWhiteSpace(p);
    TrimEmptyIff(CleanName(p));
    CleanNameIsTransliteration(p);
    TransliterationAllWhiteSpace(p);
  }

  // ---------------------------------------------------------------------------------
  // What follows the first comma does not matter

  lemma {:induction false} BeforeFirstCommaOfComma(a: string, b: string)
    ensures BeforeFirstComma(a + "," + b) == BeforeFirstComma(a)
  {
    if a == [] {
      assert (a + "," + b)[0] == ',';
    } else {
      var s := a + "," + b;
      assert s[0] == a[0] && s[1..] == a[1..] + "," + b;
      BeforeFirstCommaOfComma(a[1..], b);
    }
  }

  /** `generateHotelUrl("A, B") == generateHotelUrl("A")` for all A and B (line 9). */
  lemma IgnoresTextAfterComma(a: string, b: string)
    requires Supported(a)
    ensures Supported(a + "," + b)
    ensures GenerateHotelUrl(a + "," + b) == GenerateHotelUrl(a)
  {
    BeforeFirstCommaOfComma(a, b);
  }
}
