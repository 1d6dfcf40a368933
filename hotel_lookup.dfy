/** `getHotelIdFromName` of src/services/etsturService.js: fetch the page whose address
    `generateHotelUrl` guesses, read the Next.js page state embedded in its
    `__NEXT_DATA__` script and take `props.pageProps.data.hotelId` from it. Every failure
    ends in `null`. */
module HotelLookup {
  import opened Js
  import opened HotelUrl
  import opened Remote

  /** The object `{ hotelId, hotelUrl }` returned on success. */
  datatype HotelInfo = HotelInfo(hotelId: JsValue, hotelUrl: string)

  /** `jsonData?.props?.pageProps?.data?.hotelId` (line 48). */
  function NextDataHotelId(json: JsValue): (r: JsValue)
    ensures !(json.Obj? && "props" in json.fields) ==> r == Undefined
  {
    Prop(Prop(Prop(Prop(json, "props"), "pageProps"), "data"), "hotelId")
  }

  /** Lines 31 to 65 of `getHotelIdFromName`: everything after the address is guessed. */
  function LookupAt(hotelUrl: string, site: Site): (r: Option<HotelInfo>)
    ensures r.Some? ==> r.value.hotelUrl == hotelUrl && Truthy(r.value.hotelId)
  {
    match site.getPage(hotelUrl)
    case None => None
    case Some(html) =>
      var script := site.nextDataScript(html);
      if script.None? || script.value == "" then None
      else
        match site.parseJson(script.value)
        case None => None
        case Some(json) =>
          var hotelId := NextDataHotelId(json);
          if Truthy(hotelId) then Some(HotelInfo(hotelId, hotelUrl)) else None
  }

  /** `getHotelIdFromName(hotelName)` (lines 27 to 66); `None` is `null`. */
  function GetHotelIdFromName(hotelName: string, site: Site): (r: Option<HotelInfo>)
    requires Supported(hotelName)
    ensures r.Some? ==> r.value.hotelUrl == GenerateHotelUrl(hotelName) && Truthy(r.value.hotelId)
  {
    LookupAt(GenerateHotelUrl(hotelName), site)
  }

  /** The page state read from `hotelUrl`, when every step up to reading the id
      succeeds. */
  predicate PageState(hotelUrl: string, site: Site, json: JsValue) {
    var page := site.getPage(hotelUrl);
    && page.Some?
    && var script := site.nextDataScript(page.value);
    && script.Some? && script.value != ""
    && site.parseJson(script.value) == Some(json)
  }

  /** The lookup yields `null` exactly in the four failure cases of lines 32 to 65 — the
      page cannot be fetched, the `__NEXT_DATA__` script is missing or empty, its text does
      not parse, the id is absent or falsy — and otherwise the id read from the page
      together with the address. */
  lemma LookupOutcome(hotelUrl: string, site: Site)
    ensures var r := LookupAt(hotelUrl, site);
      && (r.Some? <==> exists json :: PageState(hotelUrl, site, json) && Truthy(NextDataHotelId(json)))
      && (forall json :: PageState(hotelUrl, site, json) && Truthy(NextDataHotelId(json)) ==>
            r == Some(HotelInfo(NextDataHotelId(json), hotelUrl)))
  {
    var r := LookupAt(hotelUrl, site);
    if r.Some? {
      var html := site.getPage(hotelUrl).value;
      var json := site.parseJson(site.nextDataScript(html).value).value;
      assert PageState(hotelUrl, site, json);
    }
  }

  /** `props.pageProps.data.hotelId` of a page state that holds all four levels. */
  lemma NextDataHotelIdOf(json: JsValue, id: JsValue)
    requires json.Obj? && "props" in json.fields
    requires var props := json.fields["props"];
      props.Obj? && "pageProps" in props.fields
      && var pageProps := props.fields["pageProps"];
      pageProps.Obj? && "data" in pageProps.fields
      && var data := pageProps.fields["data"];
      data.Obj? && "hotelId" in data.fields && data.fields["hotelId"] == id
    ensures NextDataHotelId(json) == id
  {
    var props := Prop(json, "props");
    var pageProps := Prop(props, "pageProps");
    var data := Prop(pageProps, "data");
    assert data == pageProps.fields["data"];
  }

  /** A page whose state holds a non-empty string id resolves to that id. */
  lemma LookupFindsStringId(hotelUrl: string, site: Site, json: JsValue, id: string)
    requires PageState(hotelUrl, site, json)
    requires json.Obj? && "props" in json.fields
    requires var props := json.fields["props"];
      props.Obj? && "pageProps" in props.fields
      && var pageProps := props.fields["pageProps"];
      pageProps.Obj? && "data" in pageProps.fields
      && var data := pageProps.fields["data"];
      data.Obj? && "hotelId" in data.fields && data.fields["hotelId"] == Str(id)
    requires id != ""
    ensures LookupAt(hotelUrl, site) == Some(HotelInfo(Str(id), hotelUrl))
  {
    NextDataHotelIdOf(json, Str(id));
    LookupOutcome(hotelUrl, site);
  }

  /** The lookup reads only the text before the first comma: "Cullinan Belek, Antalya"
      and "Cullinan Belek" resolve alike. */
  lemma LookupIgnoresTextAfterComma(a: string, b: string, site: Site)
    requires Supported(a)
    ensures Supported(a + "," + b)
    ensures GetHotelIdFromName(a + "," + b, site) == GetHotelIdFromName(a, site)
  {
    IgnoresTextAfterComma(a, b);
  }
}
