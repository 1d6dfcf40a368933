/** `searchHotels` of src/services/etsturService.js: ask the autocomplete endpoint for
    `query` and keep the suggestions whose `type` is "HOTEL". Every failure ends in an
    empty list. */
module HotelSearch {
  import opened Js
  import opened Uri
  import opened Remote

  const AutocompleteUrl := "https://www.etstur.com/v2/autocomplete?q="

  /** The address requested for `query` (line 76). */
  function SearchUrl(query: string): (url: string)
    ensures |url| >= |AutocompleteUrl| && url[..|AutocompleteUrl|] == AutocompleteUrl
    ensures DecodeURIComponent(url[|AutocompleteUrl|..]) == Some(query)
    ensures IsEncodedText(url[|AutocompleteUrl|..])
  {
    var q := EncodeURIComponent(query);
    DecodeEncode(query);
    EncodedCharset(query);
    assert (AutocompleteUrl + q)[|AutocompleteUrl|..] == q;
    AutocompleteUrl + q
  }

  /** The callback of the filter: `item.type === 'HOTEL'`. */
  predicate IsHotel(item: JsValue) {
    Prop(item, "type") == Str("HOTEL")
  }

  /** `items.filter(item => item.type === 'HOTEL')` (line 88): the hotels in their order,
      or a TypeError when some item is null or undefined. */
  function FilterHotels(items: seq<JsValue>): (r: Completion<seq<JsValue>>)
    ensures r.Normal? ==> |r.value| <= |items|
  {
    if items == [] then Normal([])
    else if Nullish(items[0]) then Throw
    else
      match FilterHotels(items[1..])
      case Throw => Throw
      case Normal(rest) => Normal(HotelOrNothing(items[0]) + rest)
  }

  /** The filter throws exactly when some suggestion is null or undefined, and otherwise
      keeps exactly the hotels. */
  lemma {:induction false} FilterHotelsSpec(items: seq<JsValue>)
    ensures FilterHotels(items).Throw? <==> exists i :: 0 <= i < |items| && Nullish(items[i])
    ensures FilterHotels(items).Normal? ==>
      forall x :: x in FilterHotels(items).value <==> x in items && IsHotel(x)
    decreases |items|
  {
    if items != [] && !Nullish(items[0]) {
      var tail := items[1..];
      FilterHotelsSpec(tail);
      assert forall i :: 0 <= i < |tail| ==> tail[i] == items[i + 1];
      assert forall i :: 0 < i < |items| ==> items[i] == tail[i - 1];
      assert forall x :: x in items <==> x == items[0] || x in tail;
    }
  }

  /** What the filter keeps of one suggestion. */
  function HotelOrNothing(item: JsValue): (r: seq<JsValue>)
    ensures r == [item] || r == []
    ensures r == [item] <==> IsHotel(item)
  {
    if IsHotel(item) then [item] else []
  }

  /** The hotel filter keeps the order of the suggestions: filtering a concatenation is
      filtering each part. */
  lemma {:induction false} FilterHotelsAppend(a: seq<JsValue>, b: seq<JsValue>)
    requires FilterHotels(a).Normal? && FilterHotels(b).Normal?
    ensures FilterHotels(a + b) == Normal(FilterHotels(a).value + FilterHotels(b).value)
    decreases |a|
  {
    var fb := FilterHotels(b).value;
    if a == [] {
      assert a + b == b;
      assert [] + fb == fb;
    } else {
      var tail := a[1..];
      FilterHotelsAppend(tail, b);
      var ab := a + b;
      assert ab[0] == a[0] && ab[1..] == tail + b;
      var h := HotelOrNothing(a[0]);
      assert FilterHotels(a).value == h + FilterHotels(tail).value;
      assert FilterHotels(ab).value == h + FilterHotels(tail + b).value;
      assert h + (FilterHotels(tail).value + fb) == (h + FilterHotels(tail).value) + fb;
    }
  }

  /** The shape line 87 checks: a truthy payload with a truthy `success` and an array
      `result`. */
  predicate Recognized(data: JsValue) {
    Truthy(data) && Truthy(Prop(data, "success")) && Prop(data, "result").Arr?
  }

  /** `searchHotels(query)` (lines 75 to 103). A failed request, an unexpected payload and
      a TypeError from the filter all give `[]`. */
  function SearchHotels(query: string, site: Site): (hotels: seq<JsValue>)
    ensures forall x :: x in hotels ==> IsHotel(x)
  {
    match site.getJson(SearchUrl(query))
    case None => []
    case Some(data) =>
      if Recognized(data) then
        FilterHotelsSpec(Prop(data, "result").items);
        match FilterHotels(Prop(data, "result").items)
        case Normal(found) => found
        case Throw => []
      else []
  }

  /** What the search returns: when the endpoint answers with a recognised payload whose
      suggestions are all objects (or at least not null), exactly the hotel suggestions,
      in order; in every other case nothing. */
  lemma SearchHotelsOutcome(query: string, site: Site)
    ensures var answer := site.getJson(SearchUrl(query));
      var hotels := SearchHotels(query, site);
      if answer.Some? && Recognized(answer.value)
         && (forall i :: 0 <= i < |Prop(answer.value, "result").items| ==>
               !Nullish(Prop(answer.value, "result").items[i]))
      then FilterHotels(Prop(answer.value, "result").items) == Normal(hotels)
        && (forall x :: x in hotels <==> x in Prop(answer.value, "result").items && IsHotel(x))
      else hotels == []
  {
    var answer := site.getJson(SearchUrl(query));
    if answer.Some? && Recognized(answer.value) {
      FilterHotelsSpec(Prop(answer.value, "result").items);
    }
  }

  /** A suggestion list made only of hotels comes back whole. */
  lemma {:induction false} FilterHotelsKeepsHotels(items: seq<JsValue>)
    requires forall i :: 0 <= i < |items| ==> IsHotel(items[i])
    ensures FilterHotels(items) == Normal(items)
    decreases |items|
  {
    if items != [] {
      FilterHotelsKeepsHotels(items[1..]);
      assert [items[0]] + items[1..] == items;
    }
  }
}
