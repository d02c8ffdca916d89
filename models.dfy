/**
 * The entities of station_app/models.py, the two validators
 * (`Route.validate_route`, `Ticket.validate_ticket`), and the stored tables
 * that `Route.save` and `Ticket.save` write to after validating.
 *
 * Times on a route are abstract integers supplied by the caller; stations are
 * identified by their primary key, which is what Django compares when the
 * validator tests `source == destination`.
 */
module Models {
  import opened Common
  import opened Text
  import Dates

  datatype Station = Station(id: nat, name: string)

  datatype Route = Route(
    id: nat,
    source: Station,
    destination: Station,
    sourceDatetime: int,
    destinationDatetime: int)

  /** `carriage_num` and `places_in_carriage` are plain integer columns: nothing keeps them positive. */
  datatype Train = Train(id: nat, name: string, carriageNum: int, placesInCarriage: int)

  datatype Journey = Journey(
    id: nat,
    route: Route,
    train: Train,
    departureTime: Dates.DateTime,
    arrivalTime: Dates.DateTime)

  datatype Order = Order(id: nat, createdAt: int, user: nat)

  /** `order` and `journey` hold the primary keys of the rows the ticket refers to. */
  datatype Ticket = Ticket(id: nat, carriage: int, seat: int, order: nat, journey: nat)

  /** The dictionary a validator raises, `{field: [message, ...]}`, with its one field. */
  datatype FieldError = FieldError(field: string, messages: seq<string>)

  datatype Validation = Passed | Rejected(error: FieldError)

  // ---------------------------------------------------------------------------
  // Route.validate_route

  const SameStationMessage := "source and destination cannot be the same station"
  const TimeOrderMessage := "source_datetime cannot be later than or equal to destination_datetime"

  predicate SameStation(a: Station, b: Station) { a.id == b.id }

  /** The two rules a route must satisfy: distinct stations, and the source time strictly earlier. */
  predicate RouteRulesHold(source: Station, destination: Station, sourceDatetime: int, destinationDatetime: int)
  {
    !SameStation(source, destination) && sourceDatetime < destinationDatetime
  }

  predicate RouteIsValid(r: Route)
  {
    RouteRulesHold(r.source, r.destination, r.sourceDatetime, r.destinationDatetime)
  }

  /**
   * The stations are compared first and their error alone is reported; only
   * distinct stations get the time check, which also rejects equal times.
   */
  function ValidateRoute(source: Station, destination: Station, sourceDatetime: int, destinationDatetime: int)
    : (v: Validation)
    ensures v.Passed? <==> RouteRulesHold(source, destination, sourceDatetime, destinationDatetime)
    ensures SameStation(source, destination) ==>
              v == Rejected(FieldError("source", [SameStationMessage]))
    ensures !SameStation(source, destination) && sourceDatetime >= destinationDatetime ==>
              v == Rejected(FieldError("source_datetime", [TimeOrderMessage]))
  {
    if SameStation(source, destination) then
      Rejected(FieldError("source", [SameStationMessage]))
    else if sourceDatetime >= destinationDatetime then
      Rejected(FieldError("source_datetime", [TimeOrderMessage]))
    else
      Passed
  }

  /** `Route.clean`: the validator applied to the route's own fields. */
  function RouteClean(r: Route): (v: Validation)
    ensures v.Passed? <==> RouteIsValid(r)
  {
    ValidateRoute(r.source, r.destination, r.sourceDatetime, r.destinationDatetime)
  }

  // ---------------------------------------------------------------------------
  // Ticket.validate_ticket

  const CarriageRangePrefix := "carriage number must be in available range: (1, carriage): (1, "
  const SeatRangePrefix := "seat number must be in available range: (1, seats_in_row): (1, "

  /** A range message: the fixed text, then the upper bound as Python prints it, then `)`. */
  function RangeMessage(prefix: string, bound: int): string
  {
    prefix + IntToDecimal(bound) + ")"
  }

  /** The upper bound a range message reports to the client, read back from its text. */
  function EchoedBound(message: string, prefix: string): Option<int>
  {
    if |message| > |prefix| && message[..|prefix|] == prefix && message[|message| - 1] == ')' then
      ReadInt(message[|prefix|..|message| - 1])
    else None
  }

  lemma RangeMessageEchoesBound(prefix: string, bound: int)
    ensures EchoedBound(RangeMessage(prefix, bound), prefix) == Some(bound)
  {
    var m := RangeMessage(prefix, bound);
    assert m[..|prefix|] == prefix;
    assert m[|prefix|..|m| - 1] == IntToDecimal(bound);
    IntRoundTrip(bound);
  }

  predicate CarriageInRange(carriage: int, train: Train) { 1 <= carriage <= train.carriageNum }

  predicate SeatInRange(seat: int, train: Train) { 1 <= seat <= train.placesInCarriage }

  /**
   * The carriage is checked first; a seat error is reported only for a
   * carriage in range. Each message names the upper bound of its range.
   */
  function ValidateTicket(carriage: int, seat: int, train: Train): (v: Validation)
    ensures v.Passed? <==> CarriageInRange(carriage, train) && SeatInRange(seat, train)
    ensures !CarriageInRange(carriage, train) ==>
              v.Rejected? && v.error.field == "carriage" && |v.error.messages| == 1 &&
              EchoedBound(v.error.messages[0], CarriageRangePrefix) == Some(train.carriageNum)
    ensures CarriageInRange(carriage, train) && !SeatInRange(seat, train) ==>
              v.Rejected? && v.error.field == "seat" && |v.error.messages| == 1 &&
              EchoedBound(v.error.messages[0], SeatRangePrefix) == Some(train.placesInCarriage)
  {
    if !CarriageInRange(carriage, train) then
      RangeMessageEchoesBound(CarriageRangePrefix, train.carriageNum);
      Rejected(FieldError("carriage", [RangeMessage(CarriageRangePrefix, train.carriageNum)]))
    else if !SeatInRange(seat, train) then
      RangeMessageEchoesBound(SeatRangePrefix, train.placesInCarriage);
      Rejected(FieldError("seat", [RangeMessage(SeatRangePrefix, train.placesInCarriage)]))
    else
      Passed
  }

  /** The first and last carriage and seat are accepted; one step past either end is not. */
  lemma TicketRangeBoundaries(train: Train)
    requires train.carriageNum >= 1 && train.placesInCarriage >= 1
    ensures ValidateTicket(1, 1, train).Passed?
    ensures ValidateTicket(train.carriageNum, train.placesInCarriage, train).Passed?
    ensures ValidateTicket(0, 1, train).error.field == "carriage"
    ensures ValidateTicket(train.carriageNum + 1, 1, train).error.field == "carriage"
    ensures ValidateTicket(1, 0, train).error.field == "seat"
    ensures ValidateTicket(1, train.placesInCarriage + 1, train).error.field == "seat"
  {
  }

  /** `Ticket.clean` with the journey's train handed to the validator. */
  function TicketClean(t: Ticket, journey: Journey): (v: Validation)
    requires t.journey == journey.id
    ensures v.Passed? <==> CarriageInRange(t.carriage, journey.train) && SeatInRange(t.seat, journey.train)
  {
    ValidateTicket(t.carriage, t.seat, journey.train)
  }

  // ---------------------------------------------------------------------------
  // Ticket.clean as written: it passes `journey.train.carriage_num`, an int,
  // where the validator reads attributes of a train.

  /** A Python value in the validator's `train` position. */
  datatype TrainArgument = TrainObject(train: Train) | PlainInt(value: int)

  /** What running the validator does: it returns, raises its error, or fails on a missing attribute. */
  datatype CleanOutcome = Returned | RaisedValidation(error: FieldError) | RaisedAttributeError

  function CarriageNumAttribute(a: TrainArgument): Option<int>
  {
    match a
    case TrainObject(t) => Some(t.carriageNum)
    case PlainInt(_) => None
  }

  function PlacesAttribute(a: TrainArgument): Option<int>
  {
    match a
    case TrainObject(t) => Some(t.placesInCarriage)
    case PlainInt(_) => None
  }

  /**
   * `validate_ticket` over any Python value. `not 1 <= carriage <= x` reads
   * `x` only when `1 <= carriage`; otherwise the error's f-string reads it.
   * Either way `train.carriage_num` is looked up before anything is decided.
   */
  function ValidateTicketDynamic(carriage: int, seat: int, a: TrainArgument): CleanOutcome
  {
    match CarriageNumAttribute(a)
    case None => RaisedAttributeError
    case Some(carriageNum) =>
      if !(1 <= carriage <= carriageNum) then
        RaisedValidation(FieldError("carriage", [RangeMessage(CarriageRangePrefix, carriageNum)]))
      else match PlacesAttribute(a)
      case None => RaisedAttributeError
      case Some(places) =>
        if !(1 <= seat <= places) then
          RaisedValidation(FieldError("seat", [RangeMessage(SeatRangePrefix, places)]))
        else Returned
  }

  /** `Ticket.clean` exactly as written. */
  function TicketCleanAsWritten(t: Ticket, journey: Journey): CleanOutcome
  {
    ValidateTicketDynamic(t.carriage, t.seat, PlainInt(journey.train.carriageNum))
  }

  /** As written, cleaning any ticket fails, so `Ticket.save` can never store one. */
  lemma TicketCleanAsWrittenAlwaysFails(t: Ticket, journey: Journey)
    ensures TicketCleanAsWritten(t, journey) == RaisedAttributeError
  {
  }

  /** Given a real train, the dynamic validator behaves as `ValidateTicket`. */
  lemma ValidateTicketOnTrain(carriage: int, seat: int, train: Train)
    ensures ValidateTicketDynamic(carriage, seat, TrainObject(train)) ==
            match ValidateTicket(carriage, seat, train)
            case Passed => Returned
            case Rejected(e) => RaisedValidation(e)
  {
  }

  // ---------------------------------------------------------------------------
  // Route.save: validate, then insert or update by primary key.

  ghost predicate DistinctRouteIds(s: seq<Route>)
  {
    forall i, j :: 0 <= i < j < |s| ==> s[i].id != s[j].id
  }

  lemma RouteTailDistinct(s: seq<Route>)
    requires |s| > 0 && DistinctRouteIds(s)
    ensures DistinctRouteIds(s[1..])
    ensures forall x :: x in s[1..] ==> x.id != s[0].id
  {
    forall x | x in s[1..] ensures x.id != s[0].id {
      var k :| 0 <= k < |s[1..]| && s[1..][k] == x;
      assert s[k + 1] == x;
    }
    forall i, j | 0 <= i < j < |s[1..]| ensures s[1..][i].id != s[1..][j].id {
      assert s[1..][i] == s[i + 1] && s[1..][j] == s[j + 1];
    }
  }

  lemma RouteConsDistinct(h: Route, rest: seq<Route>)
    requires DistinctRouteIds(rest) && forall x :: x in rest ==> x.id != h.id
    ensures DistinctRouteIds([h] + rest)
  {
    var u := [h] + rest;
    forall i, j | 0 <= i < j < |u| ensures u[i].id != u[j].id {
      assert u[j] == rest[j - 1];
      if i > 0 {
        assert u[i] == rest[i - 1];
      }
    }
  }

  /** The row with `r`'s key is replaced by `r`; without one, `r` is appended. */
  function Upsert(s: seq<Route>, r: Route): (u: seq<Route>)
    requires DistinctRouteIds(s)
    ensures r in u
    ensures forall x :: x in u ==> x == r || (x in s && x.id != r.id)
    ensures forall x :: x in s && x.id != r.id ==> x in u
    ensures DistinctRouteIds(u)
    decreases |s|
  {
    if s == [] then [r]
    else
      RouteTailDistinct(s);
      assert s == [s[0]] + s[1..];
      if s[0].id == r.id then
        RouteConsDistinct(r, s[1..]);
        [r] + s[1..]
      else
        var rest := Upsert(s[1..], r);
        RouteConsDistinct(s[0], rest);
        [s[0]] + rest
  }

  class RouteTable {
    var routes: seq<Route>

    ghost predicate Valid()
      reads this
    {
      DistinctRouteIds(routes) && forall i :: 0 <= i < |routes| ==> RouteIsValid(routes[i])
    }

    constructor ()
      ensures Valid() && routes == []
    {
      routes := [];
    }

    /** `full_clean()` first; a route that fails it is never written. */
    method Save(r: Route) returns (v: Validation)
      requires Valid()
      modifies this
      ensures Valid()
      ensures v == RouteClean(r)
      ensures v.Passed? ==> routes == Upsert(old(routes), r)
      ensures v.Rejected? ==> routes == old(routes)
    {
      v := RouteClean(r);
      if v.Passed? {
        routes := Upsert(routes, r);
      }
    }
  }

  // ---------------------------------------------------------------------------
  // Ticket.Meta: unique_together = ("carriage", "carriage", "seat") makes
  // (carriage, seat) the key; ordering = ["carriage", "seat"].

  /** The `(carriage, seat)` pair `unique_together` compares. */
  function SeatKey(t: Ticket): (int, int) { (t.carriage, t.seat) }

  predicate SameSeat(a: Ticket, b: Ticket) { SeatKey(a) == SeatKey(b) }

  /** The listing order: by carriage, then by seat. */
  predicate SeatBefore(a: Ticket, b: Ticket)
  {
    a.carriage < b.carriage || (a.carriage == b.carriage && a.seat < b.seat)
  }

  ghost predicate StrictlySorted(s: seq<Ticket>)
  {
    forall i, j :: 0 <= i < j < |s| ==> SeatBefore(s[i], s[j])
  }

  /** Each primary key names one ticket. */
  ghost predicate DistinctTicketIds(s: seq<Ticket>)
  {
    forall x, y :: x in s && y in s && x.id == y.id ==> x == y
  }

  predicate HasSeat(s: seq<Ticket>, carriage: int, seat: int)
  {
    exists k :: 0 <= k < |s| && s[k].carriage == carriage && s[k].seat == seat
  }

  lemma HeadBeforeTail(s: seq<Ticket>)
    requires |s| > 0 && StrictlySorted(s)
    ensures StrictlySorted(s[1..])
    ensures forall x :: x in s[1..] ==> SeatBefore(s[0], x)
  {
    forall x | x in s[1..] ensures SeatBefore(s[0], x) {
      var k :| 0 <= k < |s[1..]| && s[1..][k] == x;
      assert s[k + 1] == x;
    }
  }

  lemma SortedCons(x: Ticket, s: seq<Ticket>)
    requires StrictlySorted(s)
    requires forall y :: y in s ==> SeatBefore(x, y)
    ensures StrictlySorted([x] + s)
  {
    var r := [x] + s;
    forall i, j | 0 <= i < j < |r| ensures SeatBefore(r[i], r[j]) {
      if i == 0 {
        assert r[j] == s[j - 1];
      } else {
        assert r[i] == s[i - 1] && r[j] == s[j - 1];
      }
    }
  }

  /** Two tickets in a sorted table never share a seat. */
  lemma SortedSeatsDistinct(s: seq<Ticket>)
    requires StrictlySorted(s)
    ensures forall i, j :: 0 <= i < |s| && 0 <= j < |s| && i != j ==> !SameSeat(s[i], s[j])
  {
  }

  /** Keeping the head of a sorted table in front of some of its other rows keeps it sorted. */
  lemma KeepHeadSorted(s: seq<Ticket>, rest: seq<Ticket>)
    requires |s| > 0 && forall y :: y in rest ==> y in s[1..]
    ensures StrictlySorted(s) && StrictlySorted(rest) ==> StrictlySorted([s[0]] + rest)
  {
    if StrictlySorted(s) && StrictlySorted(rest) {
      HeadBeforeTail(s);
      SortedCons(s[0], rest);
    }
  }

  lemma TailSorted(s: seq<Ticket>)
    requires |s| > 0
    ensures StrictlySorted(s) ==> StrictlySorted(s[1..])
  {
    if StrictlySorted(s) {
      HeadBeforeTail(s);
    }
  }

  /** The table without the row whose key is `id`, in the same order. */
  function RemoveId(s: seq<Ticket>, id: nat): (r: seq<Ticket>)
    ensures forall t :: t in r <==> t in s && t.id != id
    ensures IsSubsequence(r, s)
    ensures StrictlySorted(s) ==> StrictlySorted(r)
    decreases |s|
  {
    if s == [] then []
    else if s[0].id == id then TailSorted(s); RemoveId(s[1..], id)
    else
      var rest := RemoveId(s[1..], id);
      TailSorted(s);
      KeepHeadSorted(s, rest);
      assert ([s[0]] + rest)[1..] == rest;
      [s[0]] + rest
  }

  lemma NoSeatInTail(s: seq<Ticket>, carriage: int, seat: int)
    requires |s| > 0 && !HasSeat(s, carriage, seat)
    ensures !HasSeat(s[1..], carriage, seat)
  {
    forall k | 0 <= k < |s[1..]| ensures !(s[1..][k].carriage == carriage && s[1..][k].seat == seat) {
      assert s[1..][k] == s[k + 1];
    }
  }

  /** Puts `t` in its (carriage, seat) place in a sorted table that lacks its seat. */
  function InsertSorted(s: seq<Ticket>, t: Ticket): (r: seq<Ticket>)
    requires StrictlySorted(s) && !HasSeat(s, t.carriage, t.seat)
    ensures StrictlySorted(r)
    ensures multiset(r) == multiset(s) + multiset{t}
    ensures forall x :: x in r <==> x in s || x == t
    decreases |s|
  {
    if s == [] then [t]
    else if SeatBefore(t, s[0]) then
      HeadBeforeTail(s);
      SortedCons(t, s);
      [t] + s
    else
      HeadBeforeTail(s);
      NoSeatInTail(s, t.carriage, t.seat);
      var rest := InsertSorted(s[1..], t);
      assert SeatBefore(s[0], t);
      SortedCons(s[0], rest);
      assert s == [s[0]] + s[1..];
      [s[0]] + rest
  }

  /** `SeatTaken` is the unique constraint refusing the write, not a validation error. */
  datatype TicketSave = Stored | Invalid(error: FieldError) | SeatTaken(carriage: int, seat: int)

  class TicketTable {
    /** The stored tickets, kept in listing order. */
    var tickets: seq<Ticket>

    ghost predicate Valid()
      reads this
    {
      StrictlySorted(tickets) && DistinctTicketIds(tickets)
    }

    constructor ()
      ensures Valid() && tickets == []
    {
      tickets := [];
    }

    /**
     * `full_clean()` then write, validating with the corrected `TicketClean`.
     * Only a ticket that passes is written; the write is refused when another
     * stored row has its `(carriage, seat)` (the database's unique
     * constraint), leaving out its own row when it is an update. A refused
     * ticket leaves the table unchanged.
     */
    method Save(t: Ticket, journey: Journey) returns (r: TicketSave)
      requires Valid() && t.journey == journey.id
      modifies this
      ensures Valid()
      ensures r == Stored <==>
                TicketClean(t, journey).Passed? && !HasSeat(RemoveId(old(tickets), t.id), t.carriage, t.seat)
      ensures r.Invalid? <==> TicketClean(t, journey).Rejected?
      ensures r.Invalid? ==> r.error == TicketClean(t, journey).error
      ensures r.SeatTaken? ==> r == SeatTaken(t.carriage, t.seat)
      ensures r == Stored ==> tickets == InsertSorted(RemoveId(old(tickets), t.id), t)
      ensures r != Stored ==> tickets == old(tickets)
    {
      var v := TicketClean(t, journey);
      if v.Rejected? {
        return Invalid(v.error);
      }
      var others := RemoveId(tickets, t.id);
      if HasSeat(others, t.carriage, t.seat) {
        return SeatTaken(t.carriage, t.seat);
      }
      tickets := InsertSorted(others, t);
      r := Stored;
    }
  }

  /**
   * The key leaves the journey out: a seat sold on one journey is taken on
   * every other journey too.
   */
  lemma SeatTakenAcrossJourneys(s: seq<Ticket>, sold: Ticket, t: Ticket)
    requires sold in s && sold.id != t.id && SameSeat(sold, t) && sold.journey != t.journey
    ensures HasSeat(RemoveId(s, t.id), t.carriage, t.seat)
  {
    var r := RemoveId(s, t.id);
    assert sold in r;
    var k :| 0 <= k < |r| && r[k] == sold;
  }
}
