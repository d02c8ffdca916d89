# Station booking backend: validators, ticket table and read-side queries

This project models the decision logic of a Django train-station booking
backend in Dafny and proves properties of it.

- `models.dfy` (module `Models`) covers station_app/models.py. It holds the
  entities: stations, routes, trains, journeys, orders and tickets. It has the
  two validators. `Route.validate_route` checks distinct stations first, then
  that the source time is strictly earlier. `Ticket.validate_ticket` checks the
  carriage range first, then the seat range, and its messages echo the upper
  bound. It also has the two stores that `save()` writes after validating.
  `RouteTable.Save` inserts or updates by primary key. `TicketTable.Save`
  enforces the `unique_together` key and keeps the `(carriage, seat)` listing
  order. It validates with the corrected `Models.TicketClean`, which checks
  against the journey's train. As written, `Ticket.clean` passes an int where
  the validator expects a train, so `Ticket.save` can store no ticket at all
  (see "## Findings").
- `views.dfy` (module `Views`) covers station_app/views.py over in-memory
  rows. It has the `tickets_available` annotation, the journey-list filters
  (`source`, `destination`, `departure-date`), and the user-scoped order and
  ticket lists.
- `dates.dfy` (module `Dates`) models `datetime.strptime(text, "%Y-%m-%d")`,
  which the journey filter uses. It follows Python's own patterns for `%Y`,
  `%m` and `%d`: the first alternative that matches wins, leftover text is an
  error, and the date must exist.
- `text.dfy` (module `Text`) holds Python's `str()` of an integer, ASCII
  lower-casing and substring search. `common.dfy` holds `Option`, `Result`
  and subsequences.

Notes on the code as written:

- `Ticket.Meta.unique_together` is `("carriage", "carriage", "seat")`, so the
  key is `(carriage, seat)` and has no journey in it. The model uses that key.
  `Models.SeatTakenAcrossJourneys` states the consequence: a seat sold on one
  journey cannot be sold on any other journey.
- Stations are compared by primary key. That is what Django's model equality
  does when `validate_route` tests `source == destination`.
- `full_clean` runs `clean()` before `super().save()` writes the row, so a
  range error is reported before a taken seat. Django's own uniqueness check
  in `full_clean` never fires for this key: it builds one lookup per distinct
  field name and skips a check whose two counts differ, and
  `("carriage", "carriage", "seat")` names three fields but yields two
  lookups. A taken seat is therefore refused only by the database's unique
  constraint when the row is written, as an integrity error rather than a
  validation error. `SeatTaken` stands for that refusal. An update does not
  count the ticket's own stored row as a duplicate.
- The code has no journey validator. `JourneySerializer` calls a method that
  does not exist on `Journey`. So no departure-before-arrival rule and no
  "not in the past" rule are modelled for journeys.
- The code has no order-creation transaction, so nothing atomic is modelled.

## Model

| member | source | states |
|---|---|---|
| `Models.ValidateRoute` | station_app/models.py:32-55 | accepts exactly when the stations differ and the source time is strictly earlier; equal stations always give the `"source"` error and nothing else, even if the times are also wrong; distinct stations with source time at or after destination time give the `"source_datetime"` error |
| `Models.RouteClean` | station_app/models.py:57-64 | `Route.clean` accepts a route exactly when it satisfies both route rules |
| `Models.Upsert` | station_app/models.py:66-74 | persisting by primary key: the saved route is present, the other rows are kept, a row with the same key is replaced, and keys stay distinct |
| `Models.RouteTable.Save` | station_app/models.py:66-74 | validation runs before anything is written; a failing route leaves the table unchanged; every stored route satisfies both route rules |
| `Models.ValidateTicket` | station_app/models.py:151-172 | accepts exactly when carriage is in `[1, carriage_num]` and seat is in `[1, places_in_carriage]`; an out-of-range carriage gives the `"carriage"` error whatever the seat; a seat error comes only with a good carriage; each message can be read back to give the range's upper bound |
| `Models.RangeMessageEchoesBound` | station_app/models.py:153-172 | the range message text, with the bound printed as Python prints an int, reads back to that same bound, negative bounds included |
| `Models.TicketRangeBoundaries` | station_app/models.py:153-172 | for a train with at least one carriage and one seat, carriage and seat 1 and the maxima are accepted; 0 and maximum + 1 are rejected on the right field (with 0 carriages even carriage 1 is rejected) |
| `Models.TicketClean` | station_app/models.py:174-180 | `Ticket.clean` checked against the ticket's journey's train accepts exactly the in-range carriage and seat |
| `Models.TicketCleanAsWrittenAlwaysFails` | station_app/models.py:174-180 | as written, `clean` hands an int to the validator, so every ticket hits a missing attribute and no ticket can be saved |
| `Models.ValidateTicketOnTrain` | station_app/models.py:151-172 | the validator run on a real train object returns or raises exactly as `ValidateTicket` decides |
| `Models.RemoveId` | station_app/models.py:182-190 | the uniqueness check sets aside the row being saved: it keeps every other ticket in order and keeps the table sorted |
| `Models.InsertSorted` | station_app/models.py:195-197 | inserting a ticket whose seat is free keeps the table strictly ordered by `(carriage, seat)` and adds exactly that ticket |
| `Models.TicketTable.Save` | station_app/models.py:182-197 | validating with the corrected `TicketClean`, stores the ticket exactly when it validates against its journey's train and no other stored ticket has its `(carriage, seat)`; otherwise it returns the validation error or the taken seat and leaves the table unchanged; the table stays sorted, with unique seats and unique ids |
| `Models.SortedSeatsDistinct` | station_app/models.py:196 | no two stored tickets share a `(carriage, seat)` key |
| `Models.SeatTakenAcrossJourneys` | station_app/models.py:196 | a seat sold on one journey blocks the same seat on a different journey |
| `Text.NatToDecimal` | station_app/models.py:157-159 | the digits printed into an error message are decimal digits without a leading zero |
| `Text.IntRoundTrip` | station_app/models.py:167-169 | Python's `str()` of any int reads back to the same int |
| `Text.Contains` | station_app/views.py:155-157 | substring search answers exactly whether the needle occurs at some position |
| `Text.ContainsIgnoreCase` | station_app/views.py:155-161 | `icontains` is substring containment after lower-casing both sides |
| `Dates.ParseIsoDate` | station_app/views.py:165-167 | `strptime` yields only real dates, with a year in 1..9999 |
| `Dates.ParseFormatRoundTrip` | station_app/views.py:162-167 | every real date written as `YYYY-MM-DD` is read back as that same date |
| `Dates.ParseShortFields` | station_app/views.py:165-167 | one-digit months and days are accepted |
| `Dates.ParseRejectsNonLeapLeapDay` | station_app/views.py:165-167 | 29 February of a non-leap year is rejected |
| `Dates.ParseRejectsLeftover` | station_app/views.py:165-167 | a day of `32` fails because text is left over after matching `3` |
| `Views.TicketsSold` | station_app/views.py:144 | the ticket count of a journey is at most the number of tickets, and zero when no ticket refers to it |
| `Views.TicketsAvailable` | station_app/views.py:141-146 | `tickets_available` lies between capacity minus all tickets and the full capacity |
| `Views.NoTicketsFullCapacity` | station_app/views.py:141-146 | with no tickets, `tickets_available` is the full capacity |
| `Views.AvailabilityAfterNewTicket` | station_app/views.py:141-146 | one more ticket lowers its own journey's figure by one and leaves every other journey's figure alone |
| `Views.SoldAfterInsert` | station_app/views.py:144 | inserting a ticket into the sorted table counts it exactly once for its journey |
| `Views.AvailabilityAfterSave` | station_app/views.py:141-146 | a new ticket stored by the ticket table lowers exactly its journey's `tickets_available`, and by exactly one |
| `Views.NeverOversold` | station_app/views.py:141-146 | if the table's keys are unique, every ticket of a journey is within its train's ranges, and the train's carriage and seat counts are not negative, `tickets_available` is never negative |
| `Views.MatchesMeaning` | station_app/views.py:155-170 | a name filter holds exactly when the lower-cased text occurs in the lower-cased station name; the date filter holds exactly when the journey departs on that date |
| `Views.KeepMatching` | station_app/views.py:155-170 | one `.filter` keeps exactly the matching journeys, in their order |
| `Views.KeepMatchingCounts` | station_app/views.py:155-170 | one `.filter` keeps each matching journey as many times as it occurs and drops every other |
| `Views.KeepMatchingAll` | station_app/views.py:152-171 | the single-pass conjunction of all filters keeps exactly the journeys that match every filter, as a subsequence |
| `Views.KeepMatchingAllCounts` | station_app/views.py:152-171 | the conjunction keeps each journey that matches every filter as many times as it occurs and drops every other |
| `Views.FiltersCompose` | station_app/views.py:152-171 | filtering what a filter kept is the same as filtering once by both |
| `Views.Given` | station_app/views.py:154-164 | a parameter is used only when it is present and non-empty |
| `Views.QueryCriteria` | station_app/views.py:154-169 | a source or destination filter is requested exactly when that parameter is present and non-empty; a date filter exactly when `departure-date` is present, non-empty and parses, for that date; the request fails exactly when it is present, non-empty and does not parse |
| `Views.FilterJourneys` | station_app/views.py:152-171 | the request fails exactly when `departure-date` is present, non-empty and not a date `strptime` accepts |
| `Views.FiltersAreConjunctive` | station_app/views.py:152-171 | the chain of filters equals the conjunction of the requested filters, so the result is an order-preserving subsequence of the journeys that match them all |
| `Views.NoParametersNoFilter` | station_app/views.py:152-171 | with all parameters absent or empty, every journey is listed |
| `Views.DepartureDateFilter` | station_app/views.py:162-170 | a `departure-date` given as `YYYY-MM-DD` is accepted, and only journeys departing on that date are kept |
| `Views.ListJourneys` | station_app/views.py:135-171 | row `i` is the `i`-th journey that matches every requested filter, so no filtered journey is dropped or repeated and the order is kept; each row's `tickets_available` plus the tickets sold for it is its train's capacity |
| `Views.TicketCount` | station_app/views.py:218 | an order's ticket count is at most the number of tickets, and zero when no ticket refers to the order |
| `Views.OrdersOf` | station_app/views.py:224-225 | keeps exactly the requesting user's orders, in their order |
| `Views.OrdersOfCounts` | station_app/views.py:224-225 | each of the user's orders is kept as many times as it occurs; every other order is dropped |
| `Views.InsertNewestFirst` | station_app/views.py:217 | inserting an order into a newest-first list keeps it newest-first and adds exactly that order |
| `Views.SortNewestFirst` | station_app/views.py:217 | the result is newest `created_at` first and a permutation of the input |
| `Views.AnnotateOrders` | station_app/views.py:218 | each row carries its order, in the given order, and that order's ticket count |
| `Views.UserOrders` | station_app/views.py:215-225 | the order list is a permutation of the user's orders, newest first, each with `total_tickets` equal to its ticket count |
| `Views.UserTickets` | station_app/views.py:250-251 | the ticket list keeps exactly the tickets whose order belongs to the user, as a subsequence, and in `(carriage, seat)` order when the table is |
| `Views.UserTicketsCounts` | station_app/views.py:250-251 | each of the user's tickets is kept as many times as it occurs; every other ticket is dropped |

## Left out

- Persistence is modelled as in-memory sequences. Left out: the ORM, `select_related`/`prefetch_related`, and the rest of `full_clean`. That means `clean_fields` type and foreign-key checks, the database's integrity error for a taken seat (the model returns `SeatTaken` in its place, and does not model a backend that never created the constraint), and automatic primary keys (the caller supplies ids).
- Integer columns are unbounded integers. The database's 32-bit column limits are not modelled.
- Float fields (latitude, longitude, distance), `__str__` and `strftime` output are presentation only.
- The `datetime.now` defaults on `Route` are wall-clock effects. Route times are integers supplied by the caller.
- `departure_time__date` takes the stored date as is. The conversion to the current time zone is not modelled.
- `icontains` folds ASCII letters only. Unicode case folding and database collations are not modelled.
- `%Y`, `%m` and `%d` accept ASCII digits only. Python's `\d` also matches other Unicode digits.
- Journeys have no declared ordering. The model lists them in input order.
- For orders created at the same instant, the order is left open. `Views.SortNewestFirst` promises only newest-first and a permutation.
- `Views.NeverOversold` assumes every stored ticket is still within its train's ranges, and that the train's carriage and seat counts are not negative. Editing a train after tickets are sold is not modelled. `carriage_num` and `places_in_carriage` are plain integer fields, so nothing in the code rules out a negative count; for such a train the figure is negative even with no ticket sold (`Views.NoTicketsFullCapacity` gives the product of the two counts).
- Ticket deletion (`DestroyModelMixin`), order creation and its serializer, permissions, JWT endpoints, URL routing, pagination, crew image upload and the OpenAPI annotations are framework glue and are not modelled. station_app/serializers.py is not part of this model.
- Concurrent bookings are not modelled. The code has no booking transaction to model.

## Findings

| source | as written | input that shows it | evidently intended | confidence | as-written member | corrected member |
|---|---|---|---|---|---|---|
| station_app/models.py:174-180 | `Ticket.clean` passes `self.journey.train.carriage_num`, an int, as the validator's `train`; the validator then reads `train.carriage_num`, both in its comparison and in its error message, so `AttributeError` is raised | any ticket, e.g. carriage 1, seat 1 on a train of 2 carriages of 4 seats | pass `self.journey.train`, as the validator's signature expects | high (not executed) | `Models.TicketCleanAsWrittenAlwaysFails` | `Models.TicketClean` |
