/**
 * The read side of station_app/views.py over in-memory rows: the
 * `tickets_available` annotation of the journey list, the journey list's
 * query-parameter filters, and the per-user order and ticket lists.
 */
module Views {
  import opened Common
  import opened Text
  import opened Dates
  import opened Models

  // ---------------------------------------------------------------------------
  // JourneyViewSet.queryset: tickets_available

  /** `carriage_num * places_in_carriage`. */
  function Capacity(train: Train): int
  {
    train.carriageNum * train.placesInCarriage
  }

  /** `Count("tickets")`: the tickets whose journey is `journeyId`. */
  function TicketsSold(tickets: seq<Ticket>, journeyId: nat): (n: nat)
    ensures n <= |tickets|
    ensures (forall t :: t in tickets ==> t.journey != journeyId) ==> n == 0
    decreases |tickets|
  {
    if tickets == [] then 0
    else (if tickets[0].journey == journeyId then 1 else 0) + TicketsSold(tickets[1..], journeyId)
  }

  /** The derived, never stored, seats-left figure of one journey. */
  function TicketsAvailable(j: Journey, tickets: seq<Ticket>): (a: int)
    ensures Capacity(j.train) - |tickets| <= a <= Capacity(j.train)
  {
    Capacity(j.train) - TicketsSold(tickets, j.id)
  }

  lemma {:induction false} SoldConcat(a: seq<Ticket>, b: seq<Ticket>, journeyId: nat)
    ensures TicketsSold(a + b, journeyId) == TicketsSold(a, journeyId) + TicketsSold(b, journeyId)
    decreases |a|
  {
    if a != [] {
      assert (a + b)[0] == a[0] && (a + b)[1..] == a[1..] + b;
      SoldConcat(a[1..], b, journeyId);
    } else {
      assert a + b == b;
    }
  }

  /** Putting a ticket in its sorted place counts it once, like appending it. */
  lemma {:induction false} SoldAfterInsert(s: seq<Ticket>, t: Ticket, journeyId: nat)
    requires StrictlySorted(s) && !HasSeat(s, t.carriage, t.seat)
    ensures TicketsSold(InsertSorted(s, t), journeyId) ==
            TicketsSold(s, journeyId) + (if t.journey == journeyId then 1 else 0)
    decreases |s|
  {
    if s != [] && !SeatBefore(t, s[0]) {
      HeadBeforeTail(s);
      NoSeatInTail(s, t.carriage, t.seat);
      SoldAfterInsert(s[1..], t, journeyId);
      var r := InsertSorted(s, t);
      assert r[0] == s[0] && r[1..] == InsertSorted(s[1..], t);
    }
  }

  /** With no tickets sold, every seat of the train is available. */
  lemma NoTicketsFullCapacity(j: Journey)
    ensures TicketsAvailable(j, []) == Capacity(j.train)
  {
  }

  /** One more ticket lowers its own journey's figure by one and no other journey's. */
  lemma AvailabilityAfterNewTicket(j: Journey, tickets: seq<Ticket>, t: Ticket)
    ensures TicketsAvailable(j, tickets + [t]) ==
            TicketsAvailable(j, tickets) - (if t.journey == j.id then 1 else 0)
  {
    SoldConcat(tickets, [t], j.id);
  }

  lemma {:induction false} RemoveAbsentId(s: seq<Ticket>, id: nat)
    requires forall x :: x in s ==> x.id != id
    ensures RemoveId(s, id) == s
    decreases |s|
  {
    if s != [] {
      assert s[0] in s;
      RemoveAbsentId(s[1..], id);
      assert s == [s[0]] + s[1..];
    }
  }

  /**
   * A new ticket stored by `TicketTable.Save` lowers its journey's
   * `tickets_available` by exactly one and leaves every other journey's as it was.
   */
  lemma AvailabilityAfterSave(j: Journey, stored: seq<Ticket>, t: Ticket)
    requires StrictlySorted(stored) && forall x :: x in stored ==> x.id != t.id
    requires !HasSeat(stored, t.carriage, t.seat)
    ensures RemoveId(stored, t.id) == stored
    ensures TicketsAvailable(j, InsertSorted(RemoveId(stored, t.id), t)) ==
            TicketsAvailable(j, stored) - (if t.journey == j.id then 1 else 0)
  {
    RemoveAbsentId(stored, t.id);
    SoldAfterInsert(stored, t, j.id);
  }

  // Seats are never oversold.

  /** The seats sold on a journey. */
  function JourneySeats(s: seq<Ticket>, journeyId: nat): (keys: set<(int, int)>)
    ensures forall k :: k in keys ==> exists t :: t in s && t.journey == journeyId && SeatKey(t) == k
    decreases |s|
  {
    if s == [] then {}
    else
      var rest := JourneySeats(s[1..], journeyId);
      assert forall t :: t in s[1..] ==> t in s;
      (if s[0].journey == journeyId then {SeatKey(s[0])} else {}) + rest
  }

  lemma {:induction false} SeatsCountSold(s: seq<Ticket>, journeyId: nat)
    requires StrictlySorted(s)
    ensures |JourneySeats(s, journeyId)| == TicketsSold(s, journeyId)
    decreases |s|
  {
    if s != [] {
      HeadBeforeTail(s);
      SeatsCountSold(s[1..], journeyId);
      forall t | t in s[1..] ensures SeatKey(t) != SeatKey(s[0]) {
        assert SeatBefore(s[0], t);
      }
      assert SeatKey(s[0]) !in JourneySeats(s[1..], journeyId);
    }
  }

  /** Every seat of a train with `carriages` carriages of `places` seats. */
  function SeatGrid(carriages: int, places: int): set<(int, int)>
  {
    set c, p | 1 <= c <= carriages && 1 <= p <= places :: (c, p)
  }

  function CarriageSeats(c: int, places: int): set<(int, int)>
  {
    set p | 1 <= p <= places :: (c, p)
  }

  lemma {:induction false} CarriageSeatsSize(c: int, places: nat)
    ensures |CarriageSeats(c, places)| == places
    decreases places
  {
    if places > 0 {
      CarriageSeatsSize(c, places - 1);
      assert CarriageSeats(c, places) == CarriageSeats(c, places - 1) + {(c, places)};
    } else {
      assert CarriageSeats(c, places) == {};
    }
  }

  lemma {:induction false} SeatGridSize(carriages: nat, places: nat)
    ensures |SeatGrid(carriages, places)| == carriages * places
    decreases carriages
  {
    if carriages > 0 {
      SeatGridSize(carriages - 1, places);
      CarriageSeatsSize(carriages, places);
      var lower, top := SeatGrid(carriages - 1, places), CarriageSeats(carriages, places);
      assert SeatGrid(carriages, places) == lower + top;
      assert lower * top == {};
      assert |lower + top| == |lower| + |top|;
      assert (carriages - 1) * places + places == carriages * places;
    } else {
      assert SeatGrid(carriages, places) == {};
    }
  }

  lemma SubsetSize<T>(a: set<T>, b: set<T>)
    requires a <= b
    ensures |a| <= |b|
  {
    assert b == a + (b - a);
    assert a * (b - a) == {};
  }

  /**
   * With the stored table's key kept unique, every ticket of the journey
   * inside its train's ranges and the train's counts not negative (plain
   * integer fields, so nothing enforces it), no more seats are sold than the
   * train has:
   * `tickets_available` never goes below zero.
   */
  lemma NeverOversold(j: Journey, stored: seq<Ticket>)
    requires StrictlySorted(stored)
    requires j.train.carriageNum >= 0 && j.train.placesInCarriage >= 0
    requires forall t :: t in stored && t.journey == j.id ==>
               CarriageInRange(t.carriage, j.train) && SeatInRange(t.seat, j.train)
    ensures TicketsAvailable(j, stored) >= 0
  {
    var seats := JourneySeats(stored, j.id);
    var grid := SeatGrid(j.train.carriageNum, j.train.placesInCarriage);
    assert seats <= grid by {
      forall k | k in seats ensures k in grid {
        var t :| t in stored && t.journey == j.id && SeatKey(t) == k;
      }
    }
    SubsetSize(seats, grid);
    SeatGridSize(j.train.carriageNum, j.train.placesInCarriage);
    SeatsCountSold(stored, j.id);
  }

  // ---------------------------------------------------------------------------
  // JourneyViewSet.get_queryset: the `source`, `destination` and
  // `departure-date` filters.

  /** The three query parameters; `None` where the request does not carry one. */
  datatype JourneyQuery = JourneyQuery(
    source: Option<string>,
    destination: Option<string>,
    departureDate: Option<string>)

  /** One `.filter(...)` of the view. */
  datatype Criterion =
    | SourceContains(text: string)
    | DestinationContains(text: string)
    | DepartsOn(date: Date)

  /**
   * `route__source__name__icontains`, `route__destination__name__icontains`
   * and `departure_time__date`.
   */
  predicate Matches(j: Journey, c: Criterion)
  {
    match c
    case SourceContains(text) => ContainsIgnoreCase(j.route.source.name, text)
    case DestinationContains(text) => ContainsIgnoreCase(j.route.destination.name, text)
    case DepartsOn(d) => j.departureTime.date == d
  }

  /**
   * What each filter means: a name filter holds exactly when the text,
   * lower-cased, occurs in the lower-cased station name; the date filter
   * holds exactly when the journey departs on that date.
   */
  lemma MatchesMeaning(j: Journey, c: Criterion)
    ensures c.SourceContains? ==> (Matches(j, c) <==> IsInfix(Lower(c.text), Lower(j.route.source.name)))
    ensures c.DestinationContains? ==> (Matches(j, c) <==> IsInfix(Lower(c.text), Lower(j.route.destination.name)))
    ensures c.DepartsOn? ==> (Matches(j, c) <==> j.departureTime.date == c.date)
  {
  }

  predicate MatchesAll(j: Journey, cs: seq<Criterion>)
  {
    forall i :: 0 <= i < |cs| ==> Matches(j, cs[i])
  }

  /** One filter step: the journeys that match `c`, in their order. */
  function KeepMatching(js: seq<Journey>, c: Criterion): (r: seq<Journey>)
    ensures forall j :: j in r <==> j in js && Matches(j, c)
    ensures IsSubsequence(r, js)
    decreases |js|
  {
    if js == [] then []
    else
      var rest := KeepMatching(js[1..], c);
      if Matches(js[0], c) then
        assert ([js[0]] + rest)[1..] == rest;
        [js[0]] + rest
      else rest
  }

  /** All criteria at once, in a single pass: the conjunction the chain of filters means. */
  function KeepMatchingAll(js: seq<Journey>, cs: seq<Criterion>): (r: seq<Journey>)
    ensures forall j :: j in r <==> j in js && MatchesAll(j, cs)
    ensures IsSubsequence(r, js)
    decreases |js|
  {
    if js == [] then []
    else
      var rest := KeepMatchingAll(js[1..], cs);
      if MatchesAll(js[0], cs) then
        assert ([js[0]] + rest)[1..] == rest;
        [js[0]] + rest
      else rest
  }

  lemma {:induction false} KeepNothingRequired(js: seq<Journey>)
    ensures KeepMatchingAll(js, []) == js
    decreases |js|
  {
    if js != [] {
      KeepNothingRequired(js[1..]);
    }
  }

  /** Filtering what a filter kept is filtering once by both. */
  lemma {:induction false} FiltersCompose(js: seq<Journey>, cs: seq<Criterion>, c: Criterion)
    ensures KeepMatching(KeepMatchingAll(js, cs), c) == KeepMatchingAll(js, cs + [c])
    decreases |js|
  {
    if js != [] {
      FiltersCompose(js[1..], cs, c);
      assert MatchesAll(js[0], cs + [c]) <==> MatchesAll(js[0], cs) && Matches(js[0], c) by {
        assert forall i :: 0 <= i < |cs| ==> (cs + [c])[i] == cs[i];
        assert (cs + [c])[|cs|] == c;
      }
      var kept := KeepMatchingAll(js, cs);
      if MatchesAll(js[0], cs) {
        assert kept[0] == js[0] && kept[1..] == KeepMatchingAll(js[1..], cs);
      }
    }
  }

  /** A filter drops no copy of a journey it keeps: each is kept as often as it occurs. */
  lemma {:induction false} KeepMatchingCounts(js: seq<Journey>, c: Criterion)
    ensures forall j :: multiset(KeepMatching(js, c))[j] == if Matches(j, c) then multiset(js)[j] else 0
    decreases |js|
  {
    if js != [] {
      KeepMatchingCounts(js[1..], c);
      assert js == [js[0]] + js[1..];
    }
  }

  lemma {:induction false} KeepMatchingAllCounts(js: seq<Journey>, cs: seq<Criterion>)
    ensures forall j :: multiset(KeepMatchingAll(js, cs))[j] == if MatchesAll(j, cs) then multiset(js)[j] else 0
    decreases |js|
  {
    if js != [] {
      KeepMatchingAllCounts(js[1..], cs);
      assert js == [js[0]] + js[1..];
    }
  }

  /** `if value := query_params.get(name)`: absent and empty parameters are both skipped. */
  function Given(p: Option<string>): (g: Option<string>)
    ensures g.Some? <==> p.Some? && p.value != ""
    ensures g.Some? ==> g == p
  {
    match p
    case Some(text) => if text != "" then Some(text) else None
    case None => None
  }

  /** `strptime` raised: the request fails instead of returning a list. */
  datatype QueryError = MalformedDepartureDate(text: string)

  /** The filters a request asks for, in the view's order; an unreadable date fails the request. */
  function QueryCriteria(q: JourneyQuery): (r: Result<seq<Criterion>, QueryError>)
    ensures r.Err? <==> Given(q.departureDate).Some? && ParseIsoDate(Given(q.departureDate).value).None?
    ensures r.Ok? ==> forall text ::
              (SourceContains(text) in r.value <==> Given(q.source) == Some(text)) &&
              (DestinationContains(text) in r.value <==> Given(q.destination) == Some(text))
    ensures r.Ok? ==> forall d ::
              DepartsOn(d) in r.value <==>
                Given(q.departureDate).Some? && ParseIsoDate(Given(q.departureDate).value) == Some(d)
    ensures r.Ok? ==>
              |r.value| == (if Given(q.source).Some? then 1 else 0) +
                           (if Given(q.destination).Some? then 1 else 0) +
                           (if Given(q.departureDate).Some? then 1 else 0)
  {
    var bySource := (match Given(q.source) case Some(s) => [SourceContains(s)] case None => []);
    var byDestination := (match Given(q.destination) case Some(s) => [DestinationContains(s)] case None => []);
    match Given(q.departureDate)
    case None => Ok(bySource + byDestination)
    case Some(text) =>
      match ParseIsoDate(text)
      case None => Err(MalformedDepartureDate(text))
      case Some(d) => Ok(bySource + byDestination + [DepartsOn(d)])
  }

  /** The view's chain of `.filter` calls, each applied to what the one before kept. */
  function FilterJourneys(js: seq<Journey>, q: JourneyQuery): (r: Result<seq<Journey>, QueryError>)
    ensures r.Err? <==> QueryCriteria(q).Err?
  {
    var bySource := (match Given(q.source) case Some(s) => KeepMatching(js, SourceContains(s)) case None => js);
    var byDestination :=
      (match Given(q.destination) case Some(s) => KeepMatching(bySource, DestinationContains(s)) case None => bySource);
    match Given(q.departureDate)
    case None => Ok(byDestination)
    case Some(text) =>
      match ParseIsoDate(text)
      case None => Err(MalformedDepartureDate(text))
      case Some(d) => Ok(KeepMatching(byDestination, DepartsOn(d)))
  }

  /**
   * The filters are conjunctive: the chain keeps exactly the journeys that
   * match every requested filter, as an order-preserving subsequence.
   */
  lemma FiltersAreConjunctive(js: seq<Journey>, q: JourneyQuery)
    ensures QueryCriteria(q).Ok? ==> FilterJourneys(js, q) == Ok(KeepMatchingAll(js, QueryCriteria(q).value))
  {
    KeepNothingRequired(js);
    var sourceCriteria := (match Given(q.source) case Some(s) => [SourceContains(s)] case None => []);
    var bySource := (match Given(q.source) case Some(s) => KeepMatching(js, SourceContains(s)) case None => js);
    if Given(q.source).Some? {
      FiltersCompose(js, [], SourceContains(Given(q.source).value));
      assert [] + sourceCriteria == sourceCriteria;
    }
    assert bySource == KeepMatchingAll(js, sourceCriteria);
    var placeCriteria := sourceCriteria +
      (match Given(q.destination) case Some(s) => [DestinationContains(s)] case None => []);
    var byDestination :=
      (match Given(q.destination) case Some(s) => KeepMatching(bySource, DestinationContains(s)) case None => bySource);
    if Given(q.destination).Some? {
      FiltersCompose(js, sourceCriteria, DestinationContains(Given(q.destination).value));
    } else {
      assert placeCriteria == sourceCriteria;
    }
    assert byDestination == KeepMatchingAll(js, placeCriteria);
    if QueryCriteria(q).Ok? && Given(q.departureDate).Some? {
      var d := ParseIsoDate(Given(q.departureDate).value).value;
      FiltersCompose(js, placeCriteria, DepartsOn(d));
    }
  }

  /** With no parameter, or only empty ones, the list is the whole table. */
  lemma NoParametersNoFilter(js: seq<Journey>, q: JourneyQuery)
    requires Given(q.source).None? && Given(q.destination).None? && Given(q.departureDate).None?
    ensures FilterJourneys(js, q) == Ok(js)
  {
  }

  /** A `departure-date` sent in `YYYY-MM-DD` form keeps only the journeys leaving that day. */
  lemma DepartureDateFilter(js: seq<Journey>, q: JourneyQuery, d: Date)
    requires IsValidDate(d) && q.departureDate == Some(FormatIsoDate(d))
    ensures FilterJourneys(js, q).Ok?
    ensures forall j :: j in FilterJourneys(js, q).value ==> j in js && j.departureTime.date == d
  {
    ParseFormatRoundTrip(d);
    FiltersAreConjunctive(js, q);
    var cs := QueryCriteria(q).value;
    assert cs[|cs| - 1] == DepartsOn(d);
  }

  /** A journey list row: the journey and its `tickets_available`. */
  datatype JourneyRow = JourneyRow(journey: Journey, ticketsAvailable: int)

  /**
   * The list the journey endpoint returns: row `i` is the `i`-th journey that
   * matches every requested filter, with its `tickets_available`.
   */
  function ListJourneys(js: seq<Journey>, tickets: seq<Ticket>, q: JourneyQuery)
    : (r: Result<seq<JourneyRow>, QueryError>)
    ensures r.Err? <==> QueryCriteria(q).Err?
    ensures r.Ok? ==>
              && QueryCriteria(q).Ok?
              && |r.value| == |KeepMatchingAll(js, QueryCriteria(q).value)|
              && forall i :: 0 <= i < |r.value| ==> r.value[i].journey == KeepMatchingAll(js, QueryCriteria(q).value)[i]
    ensures r.Ok? ==> forall row :: row in r.value ==>
              row.journey in js && MatchesAll(row.journey, QueryCriteria(q).value) &&
              row.ticketsAvailable + TicketsSold(tickets, row.journey.id) == Capacity(row.journey.train)
  {
    FiltersAreConjunctive(js, q);
    match FilterJourneys(js, q)
    case Err(e) => Err(e)
    case Ok(kept) =>
      var rows := seq(|kept|, i requires 0 <= i < |kept| => JourneyRow(kept[i], TicketsAvailable(kept[i], tickets)));
      assert forall row :: row in rows ==> row.journey in kept;
      Ok(rows)
  }

  // ---------------------------------------------------------------------------
  // OrderViewSet: the requesting user's orders, newest first, with total_tickets.

  /** `Count("tickets")` on an order. */
  function TicketCount(tickets: seq<Ticket>, orderId: nat): (n: nat)
    ensures n <= |tickets|
    ensures (forall t :: t in tickets ==> t.order != orderId) ==> n == 0
    decreases |tickets|
  {
    if tickets == [] then 0
    else (if tickets[0].order == orderId then 1 else 0) + TicketCount(tickets[1..], orderId)
  }

  ghost predicate NewestFirst(os: seq<Order>)
  {
    forall i, j :: 0 <= i < j < |os| ==> os[i].createdAt >= os[j].createdAt
  }

  /** `.filter(user=...)`. */
  function OrdersOf(orders: seq<Order>, user: nat): (r: seq<Order>)
    ensures forall o :: o in r <==> o in orders && o.user == user
    ensures IsSubsequence(r, orders)
    decreases |orders|
  {
    if orders == [] then []
    else
      var rest := OrdersOf(orders[1..], user);
      if orders[0].user == user then
        assert ([orders[0]] + rest)[1..] == rest;
        [orders[0]] + rest
      else rest
  }

  lemma {:induction false} OrdersOfCounts(orders: seq<Order>, user: nat)
    ensures forall o :: multiset(OrdersOf(orders, user))[o] == if o.user == user then multiset(orders)[o] else 0
    decreases |orders|
  {
    if orders != [] {
      OrdersOfCounts(orders[1..], user);
      assert orders == [orders[0]] + orders[1..];
    }
  }

  lemma NewestFirstTail(os: seq<Order>)
    requires |os| > 0 && NewestFirst(os)
    ensures NewestFirst(os[1..])
    ensures forall x :: x in os[1..] ==> os[0].createdAt >= x.createdAt
  {
    forall x | x in os[1..] ensures os[0].createdAt >= x.createdAt {
      var k :| 0 <= k < |os[1..]| && os[1..][k] == x;
      assert os[k + 1] == x;
    }
  }

  lemma NewestFirstCons(o: Order, os: seq<Order>)
    requires NewestFirst(os) && forall x :: x in os ==> o.createdAt >= x.createdAt
    ensures NewestFirst([o] + os)
  {
    var r := [o] + os;
    forall i, j | 0 <= i < j < |r| ensures r[i].createdAt >= r[j].createdAt {
      assert r[j] == os[j - 1];
      if i > 0 {
        assert r[i] == os[i - 1];
      }
    }
  }

  /** Putting `o` behind the newest order `os[0]` keeps the list newest-first. */
  lemma InsertBehind(o: Order, os: seq<Order>, rest: seq<Order>)
    requires |os| > 0 && NewestFirst(os) && o.createdAt < os[0].createdAt
    requires NewestFirst(rest) && multiset(rest) == multiset(os[1..]) + multiset{o}
    ensures NewestFirst([os[0]] + rest)
    ensures multiset([os[0]] + rest) == multiset(os) + multiset{o}
  {
    NewestFirstTail(os);
    forall x | x in rest ensures os[0].createdAt >= x.createdAt {
      assert x in multiset(rest);
    }
    NewestFirstCons(os[0], rest);
    assert os == [os[0]] + os[1..];
  }

  /** Puts `o` into a newest-first list in its place by `created_at`. */
  function InsertNewestFirst(o: Order, os: seq<Order>): (r: seq<Order>)
    requires NewestFirst(os)
    ensures NewestFirst(r)
    ensures multiset(r) == multiset(os) + multiset{o}
    decreases |os|
  {
    if os == [] then [o]
    else if o.createdAt >= os[0].createdAt then
      NewestFirstTail(os);
      NewestFirstCons(o, os);
      [o] + os
    else
      NewestFirstTail(os);
      var rest := InsertNewestFirst(o, os[1..]);
      InsertBehind(o, os, rest);
      [os[0]] + rest
  }

  /** `.order_by("-created_at")`; the order of orders created at the same instant is left open by the database. */
  function SortNewestFirst(os: seq<Order>): (r: seq<Order>)
    ensures NewestFirst(r)
    ensures multiset(r) == multiset(os)
    decreases |os|
  {
    if os == [] then []
    else
      assert os == [os[0]] + os[1..];
      InsertNewestFirst(os[0], SortNewestFirst(os[1..]))
  }

  /** An order list row: the order and its `total_tickets`. */
  datatype OrderRow = OrderRow(order: Order, totalTickets: nat)

  /** The orders of a list of rows, in row order. */
  function OrderColumn(rows: seq<OrderRow>): seq<Order>
    decreases |rows|
  {
    if rows == [] then [] else [rows[0].order] + OrderColumn(rows[1..])
  }

  /** `.annotate(total_tickets=Count("tickets"))` over a list of orders. */
  function AnnotateOrders(os: seq<Order>, tickets: seq<Ticket>): (rows: seq<OrderRow>)
    ensures OrderColumn(rows) == os
    ensures forall row :: row in rows ==> row.order in os && row.totalTickets == TicketCount(tickets, row.order.id)
    decreases |os|
  {
    if os == [] then []
    else
      var rest := AnnotateOrders(os[1..], tickets);
      var rows := [OrderRow(os[0], TicketCount(tickets, os[0].id))] + rest;
      assert rows[0].order == os[0] && rows[1..] == rest;
      assert os == [os[0]] + os[1..];
      assert forall row :: row in rest ==> row.order in os;
      rows
  }

  /**
   * The order list of one user: exactly that user's orders, newest first,
   * each with its own ticket count.
   */
  function UserOrders(orders: seq<Order>, tickets: seq<Ticket>, user: nat): (rows: seq<OrderRow>)
    ensures multiset(OrderColumn(rows)) == multiset(OrdersOf(orders, user))
    ensures forall row :: row in rows ==> row.order in orders && row.order.user == user
    ensures NewestFirst(OrderColumn(rows))
    ensures forall row :: row in rows ==> row.totalTickets == TicketCount(tickets, row.order.id)
  {
    var own := OrdersOf(orders, user);
    var sorted := SortNewestFirst(own);
    assert forall o :: o in sorted ==> o in own by {
      forall o | o in sorted ensures o in own {
        assert o in multiset(sorted);
      }
    }
    AnnotateOrders(sorted, tickets)
  }

  // ---------------------------------------------------------------------------
  // TicketViewSet.get_queryset: tickets whose order belongs to the user.

  /** `order__user=user`: the ticket's order row belongs to `user`. */
  predicate OrderBelongsTo(orders: seq<Order>, orderId: nat, user: nat)
  {
    exists o :: o in orders && o.id == orderId && o.user == user
  }

  /** The ticket list of one user, in the table's (carriage, seat) order. */
  function UserTickets(tickets: seq<Ticket>, orders: seq<Order>, user: nat): (r: seq<Ticket>)
    ensures forall t :: t in r <==> t in tickets && OrderBelongsTo(orders, t.order, user)
    ensures IsSubsequence(r, tickets)
    ensures StrictlySorted(tickets) ==> StrictlySorted(r)
    decreases |tickets|
  {
    if tickets == [] then []
    else
      var rest := UserTickets(tickets[1..], orders, user);
      TailSorted(tickets);
      if OrderBelongsTo(orders, tickets[0].order, user) then
        KeepHeadSorted(tickets, rest);
        assert ([tickets[0]] + rest)[1..] == rest;
        [tickets[0]] + rest
      else rest
  }

  lemma {:induction false} UserTicketsCounts(tickets: seq<Ticket>, orders: seq<Order>, user: nat)
    ensures forall t :: multiset(UserTickets(tickets, orders, user))[t] ==
              if OrderBelongsTo(orders, t.order, user) then multiset(tickets)[t] else 0
    decreases |tickets|
  {
    if tickets != [] {
      UserTicketsCounts(tickets[1..], orders, user);
      assert tickets == [tickets[0]] + tickets[1..];
    }
  }
}
