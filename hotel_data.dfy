/** `fetchHotelData` of src/services/etsturService.js: look the hotel up, build the
    Referer the room API expects (the hotel page with the stay as query parameters) and
    post the stay to the room API. */
module HotelData {
  import opened Js
  import opened HotelUrl
  import opened HotelLookup
  import opened UrlParams
  import opened Remote

  /** The argument object of `fetchHotelData`. `adults` is held as the text `String(adults)`
      gives, which is what both `set` and `parseInt` read; `None` for the ages is an absent
      property, which the destructuring default turns into `[]`. */
  datatype HotelDataParams = HotelDataParams(
    hotelName: string,
    checkIn: string,
    checkOut: string,
    adults: string,
    childrenAges: Option<seq<int>>)

  /** `childrenAges = []` (line 118). */
  function Ages(p: HotelDataParams): (ages: seq<int>)
    ensures p.childrenAges.None? ==> ages == []
    ensures p.childrenAges.Some? ==> ages == p.childrenAges.value
  {
    match p.childrenAges
    case None => []
    case Some(ages) => ages
  }

  /** `s.replace(/-/g, '.')`: every hyphen becomes a dot and nothing else changes. */
  function ReplaceDashes(s: string): (r: string)
    ensures |r| == |s|
    ensures forall i :: 0 <= i < |s| ==> r[i] == if s[i] == '-' then '.' else s[i]
  {
    if s == [] then [] else [if s[0] == '-' then '.' else s[0]] + ReplaceDashes(s[1..])
  }

  /** The query parameter naming the age of the `n`-th child of the first room. */
  function ChildAgeName(n: int): string {
    "childage_1_" + NumberToString(n)
  }

  /** The four parameters set first (lines 135 to 138). */
  function StayQuery(checkIn: string, checkOut: string, adults: string, childCount: nat): Query {
    [("check_in", ReplaceDashes(checkIn)),
     ("check_out", ReplaceDashes(checkOut)),
     ("adult_1", adults),
     ("child_1", NumberToString(childCount))]
  }

  /** The ages, one parameter per child (lines 139 to 141). */
  function ChildAgeQuery(ages: seq<int>): (q: Query)
    ensures |q| == |ages|
  {
    seq(|ages|, i requires 0 <= i < |ages| => (ChildAgeName(i + 1), NumberToString(ages[i])))
  }

  /** The query of the Referer when every name is new as it is set. */
  function RefererQuery(checkIn: string, checkOut: string, adults: string, ages: seq<int>): (q: Query)
    ensures |q| == 4 + |ages|
  {
    StayQuery(checkIn, checkOut, adults, |ages|) + ChildAgeQuery(ages)
  }

  lemma ChildAgeNameInjective(m: int, n: int)
    requires ChildAgeName(m) == ChildAgeName(n)
    ensures m == n
  {
    var prefix := "childage_1_";
    assert NumberToString(m) == ChildAgeName(m)[|prefix|..];
    assert NumberToString(n) == ChildAgeName(n)[|prefix|..];
    NumberToStringInjective(m, n);
  }

  /** No name of the referer query occurs twice. */
  lemma RefererNamesDistinct(checkIn: string, checkOut: string, adults: string, ages: seq<int>)
    ensures var q := RefererQuery(checkIn, checkOut, adults, ages);
      forall j, k :: 0 <= j < k < |q| ==> q[j].0 != q[k].0
  {
    var q := RefererQuery(checkIn, checkOut, adults, ages);
    forall j, k | 0 <= j < k < |q| ensures q[j].0 != q[k].0 {
      if 4 <= j {
        if q[j].0 == q[k].0 {
          ChildAgeNameInjective(j - 3, k - 3);
        }
      } else if 4 <= k {
        assert |q[k].0| > 11;
      }
    }
  }

  /** A list whose names differ pairwise has distinct names in the sense of `set`. */
  lemma {:induction false} DistinctNamesOfPairwise(l: Query)
    requires forall j, k :: 0 <= j < k < |l| ==> l[j].0 != l[k].0
    ensures DistinctNames(l)
    decreases |l|
  {
    if l != [] {
      assert forall k :: 0 <= k < |l[1..]| ==> l[1..][k] == l[k + 1];
      DistinctNamesOfPairwise(l[1..]);
    }
  }

  /** In a list of distinct names, `get` finds every pair. */
  lemma {:induction false} LookupDistinct(l: Query, name: string, value: string)
    requires DistinctNames(l) && (name, value) in l
    ensures Lookup(l, name) == Some(value)
    decreases |l|
  {
    if l[0] != (name, value) {
      assert (name, value) in l[1..];
      if l[0].0 == name {
        assert false;
      }
      LookupDistinct(l[1..], name, value);
    }
  }

  /** What the room API reads back from the Referer: the dates with dots for hyphens, the
      adults as given, the number of children, and each child's age under its position. */
  lemma RefererReadsBack(checkIn: string, checkOut: string, adults: string, ages: seq<int>)
    ensures var q := RefererQuery(checkIn, checkOut, adults, ages);
      && DistinctNames(q)
      && Lookup(q, "check_in") == Some(ReplaceDashes(checkIn))
      && Lookup(q, "check_out") == Some(ReplaceDashes(checkOut))
      && Lookup(q, "adult_1") == Some(adults)
      && Lookup(q, "child_1") == Some(NumberToString(|ages|))
      && forall i :: 0 <= i < |ages| ==> Lookup(q, ChildAgeName(i + 1)) == Some(NumberToString(ages[i]))
  {
    var q := RefererQuery(checkIn, checkOut, adults, ages);
    RefererNamesDistinct(checkIn, checkOut, adults, ages);
    DistinctNamesOfPairwise(q);
    forall i | 0 <= i < |ages|
      ensures Lookup(q, ChildAgeName(i + 1)) == Some(NumberToString(ages[i]))
    {
      assert q[4 + i] == (ChildAgeName(i + 1), NumberToString(ages[i]));
      LookupDistinct(q, ChildAgeName(i + 1), NumberToString(ages[i]));
    }
    assert q[0] == ("check_in", ReplaceDashes(checkIn));
    assert q[1] == ("check_out", ReplaceDashes(checkOut));
    assert q[2] == ("adult_1", adults);
    assert q[3] == ("child_1", NumberToString(|ages|));
  }

  /** The four `set` calls of lines 135 to 138, on a URL without a query, give the stay
      parameters in that order. */
  lemma StaySets(checkIn: string, checkOut: string, adults: string, childCount: nat)
    ensures var l0 := SetParam([], "check_in", ReplaceDashes(checkIn));
      var l1 := SetParam(l0, "check_out", ReplaceDashes(checkOut));
      var l2 := SetParam(l1, "adult_1", adults);
      SetParam(l2, "child_1", NumberToString(childCount)) == StayQuery(checkIn, checkOut, adults, childCount)
  {
    var stay := StayQuery(checkIn, checkOut, adults, childCount);
    SetParamFresh([], "check_in", ReplaceDashes(checkIn));
    assert [] + [stay[0]] == stay[..1];
    SetParamFresh(stay[..1], "check_out", ReplaceDashes(checkOut));
    assert stay[..1] + [stay[1]] == stay[..2];
    SetParamFresh(stay[..2], "adult_1", adults);
    assert stay[..2] + [stay[2]] == stay[..3];
    SetParamFresh(stay[..3], "child_1", NumberToString(childCount));
    assert stay[..3] + [stay[3]] == stay;
  }

  /** Line 140 for the `i`-th child: its name is new, so the pair goes at the end. */
  lemma ChildAgeSet(checkIn: string, checkOut: string, adults: string, ages: seq<int>, i: nat)
    requires i < |ages|
    ensures var l := StayQuery(checkIn, checkOut, adults, |ages|) + ChildAgeQuery(ages[..i]);
      SetParam(l, ChildAgeName(i + 1), NumberToString(ages[i]))
        == StayQuery(checkIn, checkOut, adults, |ages|) + ChildAgeQuery(ages[..i + 1])
  {
    var stay := StayQuery(checkIn, checkOut, adults, |ages|);
    var l := stay + ChildAgeQuery(ages[..i]);
    var name := ChildAgeName(i + 1);
    forall k | 0 <= k < |l| ensures l[k].0 != name {
      if k < 4 {
        assert |l[k].0| < 11;
      } else if l[k].0 == name {
        ChildAgeNameInjective(k - 3, i + 1);
      }
    }
    SetParamFresh(l, name, NumberToString(ages[i]));
    assert ChildAgeQuery(ages[..i + 1]) == ChildAgeQuery(ages[..i]) + [(name, NumberToString(ages[i]))];
  }

  /** Lines 134 to 141: `new URL(hotelUrl)` and the `set` calls on its search parameters. */
  method BuildReferer(hotelUrl: string, checkIn: string, checkOut: string, adults: string, ages: seq<int>)
    returns (referer: Referer)
    ensures referer == Referer(hotelUrl, RefererQuery(checkIn, checkOut, adults, ages))
  {
    var params := new SearchParams();
    params.Set("check_in", ReplaceDashes(checkIn));
    params.Set("check_out", ReplaceDashes(checkOut));
    params.Set("adult_1", adults);
    params.Set("child_1", NumberToString(|ages|));
    StaySets(checkIn, checkOut, adults, |ages|);
    var stay := StayQuery(checkIn, checkOut, adults, |ages|);
    assert ChildAgeQuery(ages[..0]) == [];
    var i := 0;
    while i < |ages|
      invariant 0 <= i <= |ages|
      invariant params.list == stay + ChildAgeQuery(ages[..i])
    {
      params.Set(ChildAgeName(i + 1), NumberToString(ages[i]));
      ChildAgeSet(checkIn, checkOut, adults, ages, i);
      i := i + 1;
    }
    assert ages[..i] == ages;
    referer := Referer(hotelUrl, params.list);
  }

  /** The body posted to the room API (lines 144 to 154): the dates as given, the adults
      through `parseInt(adults, 10)`, no infants. */
  function RoomRequestFor(hotelId: JsValue, p: HotelDataParams): (r: RoomRequest)
    ensures r.checkIn == p.checkIn && r.checkOut == p.checkOut && r.hotelId == hotelId
    ensures r.room.adultCount == ParseInt(p.adults)
    ensures r.room.childCount == |r.room.childAges| && r.room.childAges == Ages(p)
    ensures r.room.infantCount == 0
  {
    var ages := Ages(p);
    RoomRequest(hotelId, p.checkIn, p.checkOut, Occupancy(ParseInt(p.adults), |ages|, ages, 0))
  }

  /** When `adults` is a number, the request carries that number, and the Referer the same
      text the number prints as. */
  lemma AdultsAgree(hotelId: JsValue, p: HotelDataParams, n: int)
    requires p.adults == NumberToString(n)
    ensures RoomRequestFor(hotelId, p).room.adultCount == Some(n)
    ensures Lookup(RefererQuery(p.checkIn, p.checkOut, p.adults, Ages(p)), "adult_1") == Some(NumberToString(n))
  {
    ParseIntOfNumberToString(n);
    RefererReadsBack(p.checkIn, p.checkOut, p.adults, Ages(p));
  }

  /** `fetchHotelData(params)` (lines 117 to 178): `null` when the lookup fails, without
      posting anything; otherwise the room API's answer, or `null` when the post fails.
      The room API is a pure oracle here, so that no post is made on a failed lookup shows
      in the body (it returns before `postRoom`) but not in the contract. The
      test of `hotelInfo.hotelId` at line 126 never fires on its own, since a found id is
      truthy. */
  method FetchHotelData(p: HotelDataParams, site: Site) returns (data: JsValue)
    requires Supported(p.hotelName)
    ensures GetHotelIdFromName(p.hotelName, site).None? ==> data == Null
    ensures GetHotelIdFromName(p.hotelName, site).Some? ==>
      var info := GetHotelIdFromName(p.hotelName, site).value;
      var answer := site.postRoom(
        RoomRequestFor(info.hotelId, p),
        Referer(GenerateHotelUrl(p.hotelName), RefererQuery(p.checkIn, p.checkOut, p.adults, Ages(p))));
      data == if answer.Some? then answer.value else Null
  {
    var hotelInfo := GetHotelIdFromName(p.hotelName, site);
    if hotelInfo.None? || !Truthy(hotelInfo.value.hotelId) {
      return Null;
    }
    var ages := Ages(p);
    var referer := BuildReferer(hotelInfo.value.hotelUrl, p.checkIn, p.checkOut, p.adults, ages);
    var postData := RoomRequestFor(hotelInfo.value.hotelId, p);
    match site.postRoom(postData, referer)
    case None => data := Null;
    case Some(answer) => data := answer;
  }
}
