/** `searchETSUrl` of src/scrapers/etstur.js and the defaults src/main.js applies to the
    counts it is given: the address of Etstur's listing of hotels for a destination and a
    stay. */
module SearchListing {
  import opened Js
  import opened Uri

  const Home := "https://www.etstur.com/"
  const ListingSuffix := "-Otelleri"

  /** `searchETSUrl(searchKey, checkIn, checkOut, adultCount, childCount)` (lines 7 to 10);
      the counts are numbers, which `encodeURIComponent` first turns into text. */
  function SearchETSUrl(searchKey: string, checkIn: string, checkOut: string,
                        adultCount: int, childCount: int): (url: string)
    ensures |url| >= |Home| && url[..|Home|] == Home
  {
    var url := Home + EncodeURIComponent(searchKey) + ListingSuffix
      + "?check_in=" + EncodeURIComponent(checkIn)
      + "&check_out=" + EncodeURIComponent(checkOut)
      + "&adult_1=" + EncodeURIComponent(NumberToString(adultCount))
      + "&child_1=" + EncodeURIComponent(NumberToString(childCount));
    assert url[..|Home|] == Home by {
      assert forall i :: 0 <= i < |Home| ==> url[i] == Home[i];
    }
    url
  }

  /** `parseInt(text, 10) || fallback` (src/main.js lines 23 and 24): NaN and zero give
      the fallback. */
  function CountOrDefault(text: string, fallback: int): (n: int)
    ensures ParseInt(text).None? ==> n == fallback
    ensures ParseInt(text).Some? && ParseInt(text).value != 0 ==> n == ParseInt(text).value
    ensures ParseInt(text) == Some(0) ==> n == fallback
  {
    match ParseInt(text)
    case None => fallback
    case Some(v) => if v == 0 then fallback else v
  }

  /** The adult count of the command line is never zero: an empty, non-numeric or zero
      answer means one adult; a number typed back as it prints is kept. */
  lemma AdultCountDefaults(text: string)
    ensures CountOrDefault(text, 1) != 0
    ensures forall n :: n != 0 && text == NumberToString(n) ==> CountOrDefault(text, 1) == n
    ensures ParseInt(text).None? ==> CountOrDefault(text, 1) == 1
  {
    forall n | n != 0 && text == NumberToString(n) ensures CountOrDefault(text, 1) == n {
      ParseIntOfNumberToString(n);
    }
  }

  /** The child count of the command line is the number typed, zero when there is none. */
  lemma ChildCountDefaults(text: string)
    ensures forall n :: text == NumberToString(n) ==> CountOrDefault(text, 0) == n
    ensures ParseInt(text).None? ==> CountOrDefault(text, 0) == 0
  {
    forall n | text == NumberToString(n) ensures CountOrDefault(text, 0) == n {
      ParseIntOfNumberToString(n);
    }
  }

  // ---------------------------------------------------------------------------------
  // Reading the address back

  /** The text before the first `c` and the text after it. */
  function CutAt(s: string, c: char): (r: Option<(string, string)>)
    ensures r.None? <==> c !in s
    ensures r.Some? ==> s == r.value.0 + [c] + r.value.1 && c !in r.value.0
  {
    if s == [] then None
    else if s[0] == c then Some(([], s[1..]))
    else
      match CutAt(s[1..], c)
      case None => None
      case Some((before, after)) => Some(([s[0]] + before, after))
  }

  lemma {:induction false} CutAtFirst(a: string, c: char, b: string)
    requires c !in a
    ensures CutAt(a + [c] + b, c) == Some((a, b))
    decreases |a|
  {
    var s := a + [c] + b;
    if a == [] {
      assert s[0] == c && s[1..] == b;
    } else {
      CutAtFirst(a[1..], c, b);
      assert s[0] == a[0] && s[1..] == a[1..] + [c] + b;
      assert [a[0]] + a[1..] == a;
    }
  }

  /** The value of a `name=value` field, decoded, or None when the field has another name
      or does not decode. */
  function FieldValue(field: string, name: string): (r: Option<string>)
    ensures r.Some? ==> |field| > |name| && field[..|name| + 1] == name + "="
  {
    var key := name + "=";
    if |field| >= |key| && field[..|key|] == key then DecodeURIComponent(field[|key|..])
    else None
  }

  /** A decoded count. */
  function CountValue(field: string, name: string): Option<int> {
    match FieldValue(field, name)
    case None => None
    case Some(text) => ParseInt(text)
  }

  /** What a listing address asks for. */
  datatype ListingQuery = ListingQuery(searchKey: string, checkIn: string, checkOut: string,
                                       adultCount: int, childCount: int)

  /** The destination in the path `<key>-Otelleri`, decoded. */
  function PathKey(path: string): Option<string> {
    if |path| < |ListingSuffix| || path[|path| - |ListingSuffix|..] != ListingSuffix then None
    else DecodeURIComponent(path[..|path| - |ListingSuffix|])
  }

  /** The query cut at its `&` into exactly four fields: `None` for fewer or more. */
  function Split4(query: string): Option<(string, string, string, string)> {
    match CutAt(query, '&')
    case None => None
    case Some((f1, q1)) =>
      match CutAt(q1, '&')
      case None => None
      case Some((f2, q2)) =>
        match CutAt(q2, '&')
        case None => None
        case Some((f3, f4)) => if '&' in f4 then None else Some((f1, f2, f3, f4))
  }

  /** The four fields of the query, in the order `searchETSUrl` writes them. */
  function QueryFields(query: string): Option<(string, string, int, int)> {
    match Split4(query)
    case None => None
    case Some((f1, f2, f3, f4)) =>
      var checkIn := FieldValue(f1, "check_in");
      var checkOut := FieldValue(f2, "check_out");
      var adults := CountValue(f3, "adult_1");
      var children := CountValue(f4, "child_1");
      if checkIn.None? || checkOut.None? || adults.None? || children.None? then None
      else Some((checkIn.value, checkOut.value, adults.value, children.value))
  }

  /** Reads a listing address written by `SearchETSUrl` back into its five arguments. */
  function ParseSearchUrl(url: string): Option<ListingQuery> {
    if |url| < |Home| || url[..|Home|] != Home then None
    else
      match CutAt(url[|Home|..], '?')
      case None => None
      case Some((path, query)) =>
        match (PathKey(path), QueryFields(query))
        case (Some(key), Some((checkIn, checkOut, adults, children))) =>
          Some(ListingQuery(key, checkIn, checkOut, adults, children))
        case _ => None
  }

  /** An encoded component holds none of the characters that delimit a URL's parts. */
  lemma EncodedHasNoSeparator(s: string)
    ensures var e := EncodeURIComponent(s);
      '?' !in e && '&' !in e && '=' !in e && '/' !in e && '#' !in e && ' ' !in e
  {
    EncodedCharset(s);
  }

  /** A number prints with digits and a minus sign only, which encoding leaves alone. */
  lemma EncodeNumber(n: int)
    ensures EncodeURIComponent(NumberToString(n)) == NumberToString(n)
  {
    EncodeIsIdentityIff(NumberToString(n));
  }

  lemma FieldValueOf(name: string, value: string)
    ensures FieldValue(name + "=" + EncodeURIComponent(value), name) == Some(value)
  {
    var key := name + "=";
    var field := key + EncodeURIComponent(value);
    assert field[..|key|] == key && field[|key|..] == EncodeURIComponent(value);
    DecodeEncode(value);
  }

  lemma CountValueOf(name: string, n: int)
    ensures CountValue(name + "=" + EncodeURIComponent(NumberToString(n)), name) == Some(n)
  {
    FieldValueOf(name, NumberToString(n));
    ParseIntOfNumberToString(n);
  }

  lemma PathKeyOf(searchKey: string)
    ensures PathKey(EncodeURIComponent(searchKey) + ListingSuffix) == Some(searchKey)
  {
    var ek := EncodeURIComponent(searchKey);
    var path := ek + ListingSuffix;
    assert path[|path| - |ListingSuffix|..] == ListingSuffix;
    assert path[..|path| - |ListingSuffix|] == ek;
    DecodeEncode(searchKey);
  }

  lemma Split4Of(f1: string, f2: string, f3: string, f4: string)
    requires '&' !in f1 && '&' !in f2 && '&' !in f3 && '&' !in f4
    ensures Split4(f1 + "&" + (f2 + "&" + (f3 + "&" + f4))) == Some((f1, f2, f3, f4))
  {
    CutAtFirst(f1, '&', f2 + "&" + (f3 + "&" + f4));
    CutAtFirst(f2, '&', f3 + "&" + f4);
    CutAtFirst(f3, '&', f4);
  }

  /** A query `Split4` accepts is exactly four `&`-free fields joined by `&`. */
  lemma Split4Fields(query: string)
    requires Split4(query).Some?
    ensures var (f1, f2, f3, f4) := Split4(query).value;
      query == f1 + "&" + (f2 + "&" + (f3 + "&" + f4))
      && '&' !in f1 && '&' !in f2 && '&' !in f3 && '&' !in f4
  {
    var (f1, q1) := CutAt(query, '&').value;
    var (f2, q2) := CutAt(q1, '&').value;
    var (f3, f4) := CutAt(q2, '&').value;
    assert [('&')] == "&";
  }

  /** A `name=value` field whose name has no `&` has none at all. */
  lemma FieldHasNoAmpersand(name: string, value: string)
    requires '&' !in name
    ensures '&' !in name + "=" + EncodeURIComponent(value)
  {
    EncodedHasNoSeparator(value);
  }

  lemma QueryFieldsOf(checkIn: string, checkOut: string, adultCount: int, childCount: int)
    ensures QueryFields(
      ("check_in=" + EncodeURIComponent(checkIn)) + "&"
      + (("check_out=" + EncodeURIComponent(checkOut)) + "&"
      + (("adult_1=" + EncodeURIComponent(NumberToString(adultCount))) + "&"
      + ("child_1=" + EncodeURIComponent(NumberToString(childCount))))))
      == Some((checkIn, checkOut, adultCount, childCount))
  {
    var f1 := "check_in" + "=" + EncodeURIComponent(checkIn);
    var f2 := "check_out" + "=" + EncodeURIComponent(checkOut);
    var f3 := "adult_1" + "=" + EncodeURIComponent(NumberToString(adultCount));
    var f4 := "child_1" + "=" + EncodeURIComponent(NumberToString(childCount));
    FieldHasNoAmpersand("check_in", checkIn);
    FieldHasNoAmpersand("check_out", checkOut);
    FieldHasNoAmpersand("adult_1", NumberToString(adultCount));
    FieldHasNoAmpersand("child_1", NumberToString(childCount));
    Split4Of(f1, f2, f3, f4);
    assert "check_in=" == "check_in" + "=" && "check_out=" == "check_out" + "=";
    assert "adult_1=" == "adult_1" + "=" && "child_1=" == "child_1" + "=";
    FieldValueOf("check_in", checkIn);
    FieldValueOf("check_out", checkOut);
    CountValueOf("adult_1", adultCount);
    CountValueOf("child_1", childCount);
  }

  lemma DropPrefix(a: string, b: string)
    ensures (a + b)[|a|..] == b
  {
  }

  /** The address split where the parser cuts it. */
  lemma Regroup(s: string, k: string, x: string, q1: string, i: string, q2: string, o: string,
                q3: string, a: string, q4: string, c: string)
    ensures s + k + x + ("?" + q1) + i + ("&" + q2) + o + ("&" + q3) + a + ("&" + q4) + c
         == s + ((k + x) + "?" + ((q1 + i) + "&" + ((q2 + o) + "&" + ((q3 + a) + "&" + (q4 + c)))))
  {
  }

  /** The listing address is the site, the path, a `?` and the four fields. */
  lemma UrlShape(searchKey: string, checkIn: string, checkOut: string, adultCount: int, childCount: int)
    ensures SearchETSUrl(searchKey, checkIn, checkOut, adultCount, childCount)
         == Home + ((EncodeURIComponent(searchKey) + ListingSuffix) + "?" + (
              ("check_in=" + EncodeURIComponent(checkIn)) + "&"
              + (("check_out=" + EncodeURIComponent(checkOut)) + "&"
              + (("adult_1=" + EncodeURIComponent(NumberToString(adultCount))) + "&"
              + ("child_1=" + EncodeURIComponent(NumberToString(childCount)))))))
  {
    var ek, ei, eo := EncodeURIComponent(searchKey), EncodeURIComponent(checkIn), EncodeURIComponent(checkOut);
    var ea, ec := EncodeURIComponent(NumberToString(adultCount)), EncodeURIComponent(NumberToString(childCount));
    LiteralSplits();
    Regroup(Home, ek, ListingSuffix, "check_in=", ei, "check_out=", eo, "adult_1=", ea, "child_1=", ec);
  }

  /** The separators of the template, each one a delimiter and a field name. */
  lemma LiteralSplits()
    ensures "?check_in=" == "?" + "check_in=" && "&check_out=" == "&" + "check_out="
    ensures "&adult_1=" == "&" + "adult_1=" && "&child_1=" == "&" + "child_1="
  {
  }

  /** The parser cuts the address after the site at its first `?`. */
  lemma ParseOfParts(path: string, query: string)
    requires '?' !in path
    ensures ParseSearchUrl(Home + (path + "?" + query)) ==
      match (PathKey(path), QueryFields(query))
      case (Some(key), Some((checkIn, checkOut, adults, children))) =>
        Some(ListingQuery(key, checkIn, checkOut, adults, children))
      case _ => None
  {
    var url := Home + (path + "?" + query);
    DropPrefix(Home, path + "?" + query);
    assert url[..|Home|] == Home;
    CutAtFirst(path, '?', query);
  }

  /** The address `searchETSUrl` builds carries its five arguments unchanged: reading it
      back gives the destination, the dates and the counts it was built from. */
  lemma SearchUrlRoundTrip(searchKey: string, checkIn: string, checkOut: string,
                           adultCount: int, childCount: int)
    ensures ParseSearchUrl(SearchETSUrl(searchKey, checkIn, checkOut, adultCount, childCount))
         == Some(ListingQuery(searchKey, checkIn, checkOut, adultCount, childCount))
  {
    var ek := EncodeURIComponent(searchKey);
    var path := ek + ListingSuffix;
    var query := ("check_in=" + EncodeURIComponent(checkIn)) + "&"
              + (("check_out=" + EncodeURIComponent(checkOut)) + "&"
              + (("adult_1=" + EncodeURIComponent(NumberToString(adultCount))) + "&"
              + ("child_1=" + EncodeURIComponent(NumberToString(childCount)))));
    UrlShape(searchKey, checkIn, checkOut, adultCount, childCount);
    EncodedHasNoSeparator(searchKey);
    assert '?' !in path;
    ParseOfParts(path, query);
    PathKeyOf(searchKey);
    QueryFieldsOf(checkIn, checkOut, adultCount, childCount);
  }

  /** Different searches give different addresses. */
  lemma SearchUrlInjective(k1: string, i1: string, o1: string, a1: int, c1: int,
                           k2: string, i2: string, o2: string, a2: int, c2: int)
    requires SearchETSUrl(k1, i1, o1, a1, c1) == SearchETSUrl(k2, i2, o2, a2, c2)
    ensures k1 == k2 && i1 == i2 && o1 == o2 && a1 == a2 && c1 == c2
  {
    SearchUrlRoundTrip(k1, i1, o1, a1, c1);
    SearchUrlRoundTrip(k2, i2, o2, a2, c2);
  }
}
