/** What the Etstur service receives from outside: the three HTTP calls it makes to
    www.etstur.com and the two parsers it hands their answers to. Each is a parameter of
    the model (an oracle), so every property below holds whatever the site answers. */
module Remote {
  import opened Js

  /** Query parameters of a URL, in order, as `URLSearchParams` keeps them. */
  type Query = seq<(string, string)>

  /** The `room` object of the room API's request body. */
  datatype Occupancy = Occupancy(
    adultCount: Option<int>,  // parseInt(adults, 10); None is NaN
    childCount: nat,
    childAges: seq<int>,
    infantCount: nat)

  /** The JSON body posted to the room API. */
  datatype RoomRequest = RoomRequest(
    hotelId: JsValue,
    checkIn: string,
    checkOut: string,
    room: Occupancy)

  /** The Referer header sent with the room request: the hotel page's address and the
      query parameters added to it. */
  datatype Referer = Referer(hotelUrl: string, query: Query)

  datatype Site = Site(
    // `axios.get(url)` of an HTML page: the body, or None when the request throws
    getPage: string -> Option<string>,
    // `cheerio.load(html)('#__NEXT_DATA__').html()`: None when there is no such element
    nextDataScript: string -> Option<string>,
    // `JSON.parse(text)`: None when it throws a SyntaxError
    parseJson: string -> Option<JsValue>,
    // `axios.get(url)` of a JSON endpoint: `response.data`, or None when the request throws
    getJson: string -> Option<JsValue>,
    // `axios.post` to the room API: `response.data`, or None when the request throws
    postRoom: (RoomRequest, Referer) -> Option<JsValue>)
}
