/** `parseRoomData` of src/services/etsturService.js: turn the room API's answer into a
    list of offers, one per room, priced by the room's first board option. The function
    has no `try`: a room of the wrong shape makes the whole call throw. */
module RoomData {
  import opened Js

  /** `{ date, amount, currency }` of one night. */
  datatype DailyPrice = DailyPrice(date: JsValue, amount: JsValue, currency: JsValue)

  /** `{ roomName, totalPrice, dailyPrices }` of one room. */
  datatype RoomOffer = RoomOffer(roomName: JsValue, totalPrice: JsValue, dailyPrices: seq<DailyPrice>)

  /** `xs.map(f)` where `f` may throw: the images in order, or a TypeError as soon as one
      element fails. */
  function MapAll<T>(f: JsValue -> Completion<T>, xs: seq<JsValue>): (r: Completion<seq<T>>)
    ensures r.Throw? <==> exists i :: 0 <= i < |xs| && f(xs[i]).Throw?
    ensures r.Normal? ==> |r.value| == |xs| && forall i :: 0 <= i < |xs| ==> f(xs[i]) == Normal(r.value[i])
  {
    if xs == [] then Normal([])
    else
      match f(xs[0])
      case Throw => Throw
      case Normal(y) =>
        match MapAll(f, xs[1..])
        case Throw =>
          assert forall i :: 0 <= i < |xs| - 1 ==> xs[1..][i] == xs[i + 1];
          Throw
        case Normal(ys) =>
          assert forall i :: 0 < i < |xs| ==> xs[i] == xs[1..][i - 1];
          Normal([y] + ys)
  }

  /** `dp => ({ date: dp.date, amount: dp.amount, currency: dp.currency })`. */
  function ParseDailyPrice(dp: JsValue): (r: Completion<DailyPrice>)
    ensures r.Throw? <==> Nullish(dp)
    ensures r.Normal? ==>
              r.value.date == Prop(dp, "date") && r.value.amount == Prop(dp, "amount")
              && r.value.currency == Prop(dp, "currency")
  {
    if Nullish(dp) then Throw
    else Normal(DailyPrice(Prop(dp, "date"), Prop(dp, "amount"), Prop(dp, "currency")))
  }

  /** `v.map(...)` on a value that has no `map` method: only arrays have one. */
  function ItemsToMap(v: JsValue): (r: Completion<seq<JsValue>>)
    ensures r.Normal? <==> v.Arr?
    ensures r.Normal? ==> r.value == v.items
  {
    if v.Arr? then Normal(v.items) else Throw
  }

  /** The `room => { ... }` callback of lines 188 to 202. */
  function ParseRoom(room: JsValue): (r: Completion<RoomOffer>)
    ensures Nullish(room) ==> r.Throw?
  {
    match Get(room, "roomName")
    case Throw => Throw
    case Normal(roomName) =>
      match Get(room, "subBoards")
      case Throw => Throw
      case Normal(subBoards) =>
        match First(subBoards)
        case Throw => Throw
        case Normal(subBoard) =>
          match Get(subBoard, "price")
          case Throw => Throw
          case Normal(price) =>
            match Get(price, "discountedPrice")
            case Throw => Throw
            case Normal(totalPrice) =>
              match Get(subBoard, "dailyPrices")
              case Throw => Throw
              case Normal(dailyPrices) =>
                match ItemsToMap(dailyPrices)
                case Throw => Throw
                case Normal(items) =>
                  match MapAll(ParseDailyPrice, items)
                  case Throw => Throw
                  case Normal(prices) => Normal(RoomOffer(roomName, totalPrice, prices))
  }

  /** The first board option of a room, as `room.subBoards[0]` reads it. */
  function FirstBoard(room: JsValue): JsValue {
    var subBoards := Prop(room, "subBoards");
    if First(subBoards).Normal? then First(subBoards).value else Undefined
  }

  /** What a room must look like for the callback not to throw: an object-like room with
      `subBoards`, whose first entry has a `price` and an array of nights none of which is
      null. */
  predicate WellFormedRoom(room: JsValue) {
    && !Nullish(room)
    && !Nullish(Prop(room, "subBoards"))
    && !Nullish(FirstBoard(room))
    && !Nullish(Prop(FirstBoard(room), "price"))
    && Prop(FirstBoard(room), "dailyPrices").Arr?
    && forall i :: 0 <= i < |Prop(FirstBoard(room), "dailyPrices").items| ==>
         !Nullish(Prop(FirstBoard(room), "dailyPrices").items[i])
  }

  /** A room yields an offer exactly when it is well formed; the offer carries the room's
      name, the discounted price of its first board option, and that option's nights in
      order. */
  lemma ParseRoomSpec(room: JsValue)
    ensures ParseRoom(room).Normal? <==> WellFormedRoom(room)
    ensures ParseRoom(room).Normal? ==>
      var offer := ParseRoom(room).value;
      var nights := Prop(FirstBoard(room), "dailyPrices").items;
      && offer.roomName == Prop(room, "roomName")
      && offer.totalPrice == Prop(Prop(FirstBoard(room), "price"), "discountedPrice")
      && |offer.dailyPrices| == |nights|
      && forall i :: 0 <= i < |nights| ==>
           offer.dailyPrices[i] == DailyPrice(Prop(nights[i], "date"), Prop(nights[i], "amount"), Prop(nights[i], "currency"))
  {
    if WellFormedRoom(room) {
      var nights := Prop(FirstBoard(room), "dailyPrices").items;
      assert !exists i :: 0 <= i < |nights| && ParseDailyPrice(nights[i]).Throw?;
    }
  }

  /** The guard of line 182: a truthy answer with truthy `success`, `result` and
      `result.rooms`. */
  predicate Accepted(resp: JsValue) {
    Truthy(resp) && Truthy(Prop(resp, "success")) && Truthy(Prop(resp, "result"))
    && Truthy(Prop(Prop(resp, "result"), "rooms"))
  }

  /** `parseRoomData(apiResponse)` (lines 181 to 206). */
  function ParseRoomData(resp: JsValue): (r: Completion<seq<RoomOffer>>)
    ensures !Accepted(resp) ==> r == Normal([])
    ensures r.Normal? && Accepted(resp) ==>
              var rooms := Prop(Prop(resp, "result"), "rooms");
              rooms.Arr? && |r.value| == |rooms.items|
  {
    if !Accepted(resp) then Normal([])
    else
      match ItemsToMap(Prop(Prop(resp, "result"), "rooms"))
      case Throw => Throw
      case Normal(rooms) => MapAll(ParseRoom, rooms)
  }

  /** The call throws exactly when the answer passes the guard but its rooms are not an
      array or one of them is not well formed; otherwise the i-th offer is made from the
      i-th room. */
  lemma ParseRoomDataSpec(resp: JsValue)
    ensures var rooms := Prop(Prop(resp, "result"), "rooms");
      ParseRoomData(resp).Throw? <==>
        Accepted(resp) && (!rooms.Arr? || exists i :: 0 <= i < |rooms.items| && !WellFormedRoom(rooms.items[i]))
    ensures var rooms := Prop(Prop(resp, "result"), "rooms");
      ParseRoomData(resp).Normal? && Accepted(resp) ==>
        forall i :: 0 <= i < |rooms.items| ==> ParseRoom(rooms.items[i]) == Normal(ParseRoomData(resp).value[i])
  {
    var rooms := Prop(Prop(resp, "result"), "rooms");
    if Accepted(resp) && rooms.Arr? {
      forall i | 0 <= i < |rooms.items| ensures ParseRoom(rooms.items[i]).Throw? <==> !WellFormedRoom(rooms.items[i]) {
        ParseRoomSpec(rooms.items[i]);
      }
    }
  }

  /** One room without board options (`subBoards: []`) makes the whole answer throw,
      whatever the other rooms hold. */
  lemma EmptyBoardsThrow(resp: JsValue, i: nat)
    requires Accepted(resp)
    requires var rooms := Prop(Prop(resp, "result"), "rooms");
      rooms.Arr? && i < |rooms.items| && rooms.items[i].Obj?
      && Prop(rooms.items[i], "subBoards") == Arr([])
    ensures ParseRoomData(resp).Throw?
  {
    var rooms := Prop(Prop(resp, "result"), "rooms");
    ParseRoomSpec(rooms.items[i]);
    assert FirstBoard(rooms.items[i]) == Undefined;
    ParseRoomDataSpec(resp);
  }
}
