# Ticketing system: the seat-occupancy allocator

This project models the allocator of `TicketingDS`, the ticket office of a
multi-route train network, as seen by one caller at a time. It also proves
properties of the model.

- Every route has `coachnum * seatnum` seats.
- Each seat has a 32-bit occupancy mask. Bit `i` stands for the segment from
  station `i + 1` to station `i + 2`, and a set bit means that segment is
  sold.
- Each seat also has a table of the tickets sold on it, indexed by departure
  station.
- One counter numbers the tickets of all routes.

The office has three operations:

- `buyTicket` claims the first seat, in index order, whose mask shares no
  segment with the trip.
- `inquiry` counts the seats that are free for a trip.
- `refundTicket` checks a ticket against the recorded one before it
  releases the ticket's segments.

The model has five modules and a file of scenarios:

- `Segments` (segments.dfy) covers the mask arithmetic. It follows Java
  `int` semantics: a shift distance is reduced to its low five bits, and
  the trip mask is `(1 << (arrival-1)) - (1 << (departure-1))`, computed
  modulo 2^32.
- `Tickets` (tickets.dfy) holds:
  - the `Ticket` record, which takes the place of `buildTicket`;
  - `TicketEqual`;
  - the coach/seat encoding of a seat index, with Java's 32-bit wrap-around
    in the refund's index computation.
- `Occupancy` (occupancy.dfy) specifies one route on values. It has the
  free count and the lowest free seat. It also has the route invariant:
  - each seat's mask is the union of the segments of its recorded tickets;
  - those tickets are pairwise disjoint;
  - each ticket sits at its departure entry and names its route, coach and
    seat;
  - its id is below the counter.
- `TicketingSystem` (ticketing_ds.dfy) has the classes `RouteDs` and
  `TicketingDS`, over arrays:
  - a `bv32` array of masks per route;
  - an `array2` of ticket entries per route.

  `Inquiry`, `BuyTicket` and `RefundTicket` are methods. `Inquiry` and
  `BuyTicket` scan the seats with a loop; `RefundTicket` makes its checks
  in sequence. Each is proved against the `Occupancy` functions, and each
  keeps the office invariant `Valid()`.
- `Scenarios` (scenarios.dfy) strings calls together: a buy then a refund,
  an inquiry around a buy, two buys in a row (whose tickets get consecutive,
  hence distinct, ids) and a two-passenger run on one route.

## Model

| member | source | states |
|---|---|---|
| Segments.TargetSegment | ticketingsystem/TicketingDS.java:59 | For a trip with `1 <= departure < arrival <= 32`, segment `i` is set in the trip mask exactly when `departure - 1 <= i < arrival - 1`. |
| Segments.TargetSegments | ticketingsystem/TicketingDS.java:59 | The trip mask holds bits `departure-1 .. arrival-2` and no other of the 32. |
| Segments.TargetNonEmpty | ticketingsystem/TicketingDS.java:59 | A trip always takes at least one segment: its mask is non-zero. |
| Segments.SameDepartureOverlap | ticketingsystem/TicketingDS.java:59-69 | Two trips from the same station always conflict. So one table entry per departure station and seat is enough. |
| Segments.ClaimedIsTaken | ticketingsystem/TicketingDS.java:63-64 | After the bitwise or of mask and target for a non-empty trip, the seat holds the trip and is no longer free for it. |
| Segments.ClaimThenRelease | ticketingsystem/TicketingDS.java:136 | If the trip was free on the mask, clearing the target bits from the bitwise or of mask and target gives back the original mask. |
| Segments.DisjointMasksShareNoSegment | ticketingsystem/TicketingDS.java:63 | Two masks with `a & b == 0` never both hold a segment. |
| Tickets.TicketEqual | ticketingsystem/TicketingDS.java:170-175 | The field-by-field comparison is true exactly when the two tickets are the same record. |
| Tickets.Wrap32 | ticketingsystem/TicketingDS.java:119 | The Java `int` result is in `[-2^31, 2^31)`, is congruent to the exact result modulo 2^32, and equals it when it is in range. |
| Tickets.SeatEncodingRoundTrip | ticketingsystem/TicketingDS.java:67-68 | Take the coach `s / spc + 1` and the seat `s % spc + 1` that a purchase writes. Refund's formula `(coach-1)*spc + seat-1` maps them back to `s`. |
| Tickets.SeatDecodingRoundTrip | ticketingsystem/TicketingDS.java:119 | Conversely, a coach and seat in range are recovered from the seat index the refund computes. |
| Occupancy.CountFree | ticketingsystem/TicketingDS.java:103-108 | The count is at most the number of seats. It is zero exactly when no seat is free for the trip. |
| Occupancy.FirstFreeFrom | ticketingsystem/TicketingDS.java:61-73 | The scan from seat `from` finds a free seat and none free before it. It finds nothing exactly when no seat from `from` on is free. |
| Occupancy.FirstFree | ticketingsystem/TicketingDS.java:61-73 | The seat a purchase claims is free, and every lower-index seat is not. There is none exactly when no seat is free. |
| Occupancy.SomeFreeIffCounted | ticketingsystem/TicketingDS.java:61-109 | A purchase finds a seat exactly when `inquiry` counts at least one. |
| Occupancy.CountFreeAfterClaim | ticketingsystem/TicketingDS.java:64-70 | Claiming a free seat for a trip lowers the count of seats free for that trip by exactly one. |
| Occupancy.CoveredSegment | ticketingsystem/TicketingDS.java:69-70 | A segment is in the union of a seat's recorded tickets exactly when one of those tickets holds it. |
| Occupancy.CoveredEmpty | ticketingsystem/TicketingDS.java:28-31 | A seat with no recorded ticket holds no segment. |
| Occupancy.CoveredContains | ticketingsystem/TicketingDS.java:69-70 | Every recorded ticket's segments are in the seat's union. |
| Occupancy.CoveredAvoids | ticketingsystem/TicketingDS.java:63 | A trip that conflicts with no recorded ticket does not conflict with their union. |
| Occupancy.CoveredRecord | ticketingsystem/TicketingDS.java:69-70 | Recording a ticket in an empty entry adds exactly its segments to the union. |
| Occupancy.CoveredClear | ticketingsystem/TicketingDS.java:136-141 | With disjoint tickets, clearing an entry removes exactly that ticket's segments from the union. |
| Occupancy.RecordKeepsDisjoint | ticketingsystem/TicketingDS.java:63-70 | Recording a ticket whose trip is free keeps a seat's tickets pairwise disjoint. |
| Occupancy.ClearKeepsDisjoint | ticketingsystem/TicketingDS.java:141 | Clearing an entry keeps a seat's tickets pairwise disjoint. |
| Occupancy.FreeEntryIsEmpty | ticketingsystem/TicketingDS.java:69 | When the trip is free on a seat, the entry for its departure station is empty, so a purchase overwrites no ticket. |
| Occupancy.NoDoubleBooking | ticketingsystem/TicketingDS.java:63-70 | Two tickets recorded on one seat never both hold a segment. |
| Occupancy.EmptyRouteState | ticketingsystem/TicketingDS.java:20-31 | A route with all masks zero and all entries empty satisfies the route invariant with the counter at 0. |
| Occupancy.RouteStateLater | ticketingsystem/TicketingDS.java:66 | Raising the counter keeps the route invariant: every recorded id stays below it. |
| Occupancy.ClaimKeepsSeatState | ticketingsystem/TicketingDS.java:63-70 | A purchase on a seat finds the departure entry empty. The seat stays valid after the bitwise or of mask and target and the record. |
| Occupancy.ClaimKeepsRouteState | ticketingsystem/TicketingDS.java:63-70 | A purchase keeps the route invariant, with the counter one higher. |
| Occupancy.ReleaseKeepsSeatState | ticketingsystem/TicketingDS.java:136-141 | Clearing an entry and removing its segments from the mask keeps the seat valid. |
| Occupancy.ReleaseKeepsRouteState | ticketingsystem/TicketingDS.java:136-141 | A refund keeps the route invariant. |
| Occupancy.RefundAcceptsIffRecorded | ticketingsystem/TicketingDS.java:119-135 | On a valid route, the refund checks pass exactly for tickets recorded on the route. The checks are: seat index in range, mask holds the trip, entry present and equal. |
| Occupancy.ClaimThenReleaseRestores | ticketingsystem/TicketingDS.java:136-141 | A purchase followed by the refund of its ticket gives back the route's masks and tables exactly. |
| Occupancy.RecordedNamesRoute | ticketingsystem/TicketingDS.java:66-69 | A ticket recorded on a valid route names that route, and its id is below the counter. |
| TicketingSystem.RouteDs.constructor | ticketingsystem/TicketingDS.java:20-33 | A new route has `seatNum` zero masks and a `seatNum x stationNum` table of empty entries. |
| TicketingSystem.RouteDs.EmptyIsValid | ticketingsystem/TicketingDS.java:20-33 | A newly built route satisfies the route invariant. |
| TicketingSystem.RouteDs.Claim | ticketingsystem/TicketingDS.java:69-70 | The purchase writes: seat `s`'s mask becomes the bitwise or of mask and target, the ticket is stored at its departure entry, nothing else changes, and the route stays valid with the counter one higher. |
| TicketingSystem.RouteDs.Release | ticketingsystem/TicketingDS.java:136-141 | The refund writes: seat `s`'s mask becomes `mask & ~target`, the entry is cleared, nothing else changes, and the route stays valid. |
| TicketingSystem.NewRoutes | ticketingsystem/TicketingDS.java:44-47 | `routenum` distinct routes (none when it is negative), each with `coachnum * seatnum` seats, all empty and valid. |
| TicketingSystem.TicketingDS.ValidAfterUpdate | ticketingsystem/TicketingDS.java:66 | The office invariant holds once the changed route is valid for the new counter. |
| TicketingSystem.TicketingDS.constructor | ticketingsystem/TicketingDS.java:43-53 | The office has `routenum` empty routes, keeps `coachnum` and `seatnum`, starts the counter at 0, and is valid. |
| TicketingSystem.TicketingDS.Inquiry | ticketingsystem/TicketingDS.java:98-110 | The result is the number of seats whose mask shares no segment with the trip, between 0 and the seat count. Nothing is modified. |
| TicketingSystem.TicketingDS.BuyTicket | ticketingsystem/TicketingDS.java:55-96 | Claims the lowest-index free seat, sets the bitwise or of mask and target, records the ticket, takes the id from the counter and increments it. Coach and seat are decoded from the index. Returns none with no change exactly when every seat conflicts. The office stays valid. |
| TicketingSystem.TicketingDS.RefundTicket | ticketingsystem/TicketingDS.java:112-152 | Succeeds exactly when the checks pass: ticket present, route and seat index in range, mask holds the trip, departure entry present and equal. Then it releases the segments and clears the entry. Otherwise nothing changes. The counter never changes and the office stays valid. |
| TicketingSystem.TicketingDS.RefundableIffSold | ticketingsystem/TicketingDS.java:112-152 | The refund checks accept exactly the tickets sold and not yet refunded. Such a ticket has an id below the counter. |
| TicketingSystem.TicketingDS.SoldIsRefundable | ticketingsystem/TicketingDS.java:112-152 | Every ticket sold and not refunded passes the refund checks. |
| TicketingSystem.TicketingDS.TamperedTicketRejected | ticketingsystem/TicketingDS.java:133 | A ticket with the same route, coach, seat and departure as a sold one, but different in another field (passenger, id or arrival), is refused. A ticket that differs in any way from every sold ticket is refused by `RefundableIffSold`. |
| Scenarios.BuyThenRefund | ticketingsystem/TicketingDS.java:55-152 | After a successful buy, the refund of its ticket succeeds and a second refund fails. The route's masks and tables are back to their state before the buy. |
| Scenarios.InquireBuyInquire | ticketingsystem/TicketingDS.java:55-110 | A buy succeeds exactly when the inquiry before it counts at least one seat. The count then drops by exactly one; otherwise it stays the same. |
| Scenarios.TwoBuys | ticketingsystem/TicketingDS.java:66 | Two successful purchases in a row, on any routes, get consecutive ids from the shared counter, so the second id is one more than the first and the two differ. |
| Scenarios.TripMasks | ticketingsystem/TicketingDS.java:59 | The trip from station 1 to 3 has mask `0b011`, and the trip from 2 to 4 has mask `0b110`. |
| Scenarios.TwoSeats | ticketingsystem/TicketingDS.java:61-109 | On two seats, the count and the seat a buy claims follow from the two masks. |
| Scenarios.AliceAndBob | ticketingsystem/TicketingDS.java:43-152 | One coach of two seats and four stations:<br>- `inquiry(1,1,3)` gives 2, 1, 0, 1 across Alice's buy (1 to 3), Bob's buy (2 to 4) and Alice's refund;<br>- Alice gets coach 1 seat 1 with id 0, and Bob gets seat 2 with id 1;<br>- the refund succeeds once, and a copy of Bob's ticket under another name is refused. |

## Left out

- Concurrency is left out: locks, `AtomicInteger` compare-and-set and the `threadnum` parameter. The model runs one call at a time. Then every compare-and-set succeeds on the value just read. The refund's compare-and-set failure path cannot happen, so it is not modelled.
- The fallback scan of `buyTicket` (lines 75-93) is not modelled separately. It repeats the first scan on the same masks. With one caller, it finds a seat only if the first scan did, so `BuyTicket` has one scan.
- The atomic and the non-atomic copy of each mask are one `bv32` array. With one caller, and with the trips `BuyTicket` admits, the two copies are always equal. A purchase with `departure` outside `1..stationnum` would set the atomic copy, take an id and then throw at line 69, leaving the copies different; `BuyTicket` excludes that input.
- `buyTicketReplay` and `refundTicketReplay` are not modelled. They are stubs that return `true`.
- The seat-selection helper class `SeatReference` is unused in `TicketingDS.java` and is not modelled.
- TicketingSystem.TicketingDS.BuyTicket: requires a valid trip, `1 <= departure < arrival <= stationNum <= 32`, and a route in range. Java's behaviour on other inputs is not modelled. Among those behaviours:
  - a bad route throws `IndexOutOfBoundsException`;
  - more than 32 stations make shift distances wrap, so segments alias;
  - `departure == arrival` gives a zero trip mask, so seat 0 counts as free, an id is taken, and the entry `seatTickets[0][departure-1]` is overwritten; a live ticket stored there can then no longer be refunded;
  - `departure` outside `1..stationnum` sets the atomic mask and takes an id before the store at line 69 throws.
- TicketingSystem.TicketingDS.Inquiry: requires a route in range. Java throws `IndexOutOfBoundsException` to the caller otherwise. Any `departure` and `arrival` are accepted and wrap as in Java.
- TicketingSystem.TicketingDS.constructor: requires non-negative `coachnum` and `seatnum` whose product is below 2^31, and a natural `stationnum`. Other inputs are excluded, and what Java does with them is not modelled.
- The ticket counter is an unbounded natural number. Java's `AtomicLong` wrap after 2^63 purchases is left out.
- Passenger names are never null. Java's `NullPointerException` in `ticketEqual` for a null stored passenger, which the refund turns into `false`, is left out.
- The jagged `Ticket[][]` table is an `array2` of `Option<Ticket>`, `seatNum` by `stationNum`, with `None` for `null`. A ghost copy `rows` of its contents states the invariants on sequences.
- The order in which `refundTicket` meets its checks is kept. Every failed check, including the exceptions it catches, gives `false` with no change.
- TicketingSystem.TicketingDS.RefundTicket: the model does not capture aliasing of the ticket object. In Java, `buyTicket` returns the same `Ticket` object it stores in `seatTickets` (lines 66-71), and its fields are not final (lines 159-166). A caller that changes the returned ticket in place and then refunds it passes `ticketEqual` (line 133), since the stored entry is that same object. If the caller changed `arrival`, line 136 then clears segments that may belong to another ticket on the same seat. Here `Ticket` is an immutable value, so a refund always compares against the ticket as it was sold.
- In the two-passenger run of `Scenarios.AliceAndBob`, Bob's ticket from station 2 to 4 holds segment 1 of seat 2 (mask `0b110`), so `inquiry(1,1,3)` is 1 after Alice's refund.
