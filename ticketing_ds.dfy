/** The ticket office of TicketingDS.java for one caller at a time. Each
    route keeps one occupancy mask per seat and a table of the tickets sold
    on each seat, indexed by departure station; one counter numbers the
    tickets of all routes. */
module TicketingSystem {
  import opened Options
  import opened Segments
  import opened Tickets
  import opened Occupancy

  /** The seats of one route. */
  class RouteDs {
    const seatNum: nat
    /** The occupancy mask of every seat. */
    const seatBits: array<bv32>
    /** seatTickets[s, d]: the ticket sold on seat s that departs from
        station d + 1, if any. */
    const seatTickets: array2<Option<Ticket>>

    /** The contents of seatTickets, seat by seat: rows[s][d] stands for
        seatTickets[s, d] (see Mirrors). */
    ghost var rows: seq<seq<Option<Ticket>>>

    /** Every seat starts with an empty mask and no ticket. */
    constructor (seatNum: nat, stationNum: nat)
      ensures this.seatNum == seatNum
      ensures seatBits.Length == seatNum
      ensures seatTickets.Length0 == seatNum && seatTickets.Length1 == stationNum
      ensures Mirrors() && IsEmpty()
      ensures fresh(seatBits) && fresh(seatTickets)
    {
      this.seatNum := seatNum;
      var bits := new bv32[seatNum];
      for i := 0 to seatNum
        invariant forall j :: 0 <= j < i ==> bits[j] == 0
      {
        bits[i] := 0;
      }
      seatBits := bits;
      seatTickets := new Option<Ticket>[seatNum, stationNum]((_, _) => None);
      rows := seq(seatNum, _ => seq(stationNum, _ => None));
    }

    /** The masks of the seats, in seat index order. */
    ghost function Masks(): seq<bv32>
      reads seatBits
    {
      seatBits[..]
    }

    /** The ticket tables of all seats. */
    ghost function Rows(): seq<seq<Option<Ticket>>>
      reads this
    {
      rows
    }

    /** `rows` has one row per seat and one entry per station. */
    ghost predicate Sized()
      reads this
    {
      |rows| == seatNum && forall s :: 0 <= s < |rows| ==> |rows[s]| == seatTickets.Length1
    }

    /** `rows` holds exactly the entries of seatTickets. */
    ghost predicate Mirrors()
      reads this, seatTickets
    {
      |rows| == seatTickets.Length0 &&
      (forall s :: 0 <= s < |rows| ==> |rows[s]| == seatTickets.Length1) &&
      forall s, d :: 0 <= s < seatTickets.Length0 && 0 <= d < seatTickets.Length1 ==> rows[s][d] == seatTickets[s, d]
    }

    /** No seat holds a segment and no ticket is recorded. */
    ghost predicate IsEmpty()
      reads this, seatBits, seatTickets
    {
      Masks() == seq(seatNum, _ => 0) && rows == seq(seatNum, _ => seq(seatTickets.Length1, _ => None))
    }

    /** An empty route is valid before any ticket is sold. */
    lemma EmptyIsValid(route: int, seatsPerCoach: int)
      requires Mirrors() && IsEmpty() && seatBits.Length == seatNum && seatTickets.Length0 == seatNum
      requires seatNum < TwoTo31 && (seatNum == 0 || 0 < seatsPerCoach)
      ensures Valid(route, seatsPerCoach, seatTickets.Length1, 0)
    {
      EmptyRouteState(seatNum, route, seatsPerCoach, seatTickets.Length1);
    }

    /** The route numbered `route`, with `width` stations, is in a valid
        state while the ticket counter stands at `nextId`. */
    ghost predicate Valid(route: int, seatsPerCoach: int, width: nat, nextId: nat)
      reads this, seatBits, seatTickets
    {
      seatBits.Length == seatNum && seatTickets.Length0 == seatNum && seatTickets.Length1 == width &&
      Mirrors() && RouteState(Masks(), rows, route, seatsPerCoach, width, nextId)
    }

    /** The writes of a successful `buyTicket`: seat s's mask gains the
        trip's segments and ticket t is recorded at its departure station.
        The route stays valid with the counter one past t's id. */
    method Claim(s: nat, t: Ticket, ghost route: int, ghost seatsPerCoach: int, ghost nextId: nat)
      requires Valid(route, seatsPerCoach, seatTickets.Length1, nextId)
      requires s < seatNum && 1 <= t.departure < t.arrival <= seatTickets.Length1 <= 32
      requires Free(seatBits[s], Target(t.departure, t.arrival))
      requires t.route == route && t.coach == CoachOf(s, seatsPerCoach) &&
               t.seat == SeatOf(s, seatsPerCoach) && t.tid == nextId
      modifies this, seatBits, seatTickets
      ensures Valid(route, seatsPerCoach, seatTickets.Length1, nextId + 1)
      ensures Masks() == old(Masks())[s := Union(old(Masks())[s], Target(t.departure, t.arrival))]
      ensures Rows() == old(Rows())[s := old(Rows())[s][t.departure - 1 := Some(t)]]
    {
      ghost var masks := Masks();
      ClaimKeepsRouteState(masks, rows, route, seatsPerCoach, seatTickets.Length1, nextId, s, t);
      seatBits[s] := Union(seatBits[s], Target(t.departure, t.arrival));
      seatTickets[s, t.departure - 1] := Some(t);
      rows := rows[s := rows[s][t.departure - 1 := Some(t)]];
      assert Masks() == masks[s := Union(masks[s], Target(t.departure, t.arrival))];
    }

    /** The writes of a successful `refundTicket`: seat s's mask loses the
        segments `target` of the ticket recorded at entry d, and the entry
        is cleared. The route stays valid. */
    method Release(s: nat, d: nat, target: bv32, ghost route: int, ghost seatsPerCoach: int, ghost nextId: nat)
      requires Valid(route, seatsPerCoach, seatTickets.Length1, nextId)
      requires s < seatNum && d < seatTickets.Length1 && target == Cover(seatTickets[s, d])
      modifies this, seatBits, seatTickets
      ensures Valid(route, seatsPerCoach, seatTickets.Length1, nextId)
      ensures Masks() == old(Masks())[s := Without(old(Masks())[s], target)]
      ensures Rows() == old(Rows())[s := old(Rows())[s][d := None]]
    {
      ghost var masks := Masks();
      ReleaseKeepsRouteState(masks, rows, route, seatsPerCoach, seatTickets.Length1, nextId, s, d);
      seatBits[s] := Without(seatBits[s], target);
      seatTickets[s, d] := None;
      rows := rows[s := rows[s][d := None]];
      assert Masks() == masks[s := Without(masks[s], target)];
    }
  }

  /** The routes the TicketingDS constructor creates, numbered from 1: each
      has `seats` seats, all free, and is valid before any sale. */
  method NewRoutes(routeNum: int, seats: nat, seatsPerCoach: int, stationNum: nat)
    returns (rs: seq<RouteDs>, ghost repr: set<object>)
    requires seats < TwoTo31 && (seats == 0 || 0 < seatsPerCoach)
    ensures |rs| == if routeNum < 0 then 0 else routeNum
    ensures fresh(repr)
    ensures forall r :: 0 <= r < |rs| ==> rs[r] in repr && rs[r].seatBits in repr && rs[r].seatTickets in repr
    ensures forall r, q :: 0 <= r < q < |rs| ==>
      rs[r] != rs[q] && rs[r].seatBits != rs[q].seatBits && rs[r].seatTickets != rs[q].seatTickets
    ensures forall r :: 0 <= r < |rs| ==>
      rs[r].seatNum == seats && rs[r].Valid(r + 1, seatsPerCoach, stationNum, 0) && rs[r].IsEmpty()
  {
    rs := [];
    repr := {};
    var routeIdx := 0;
    while routeIdx < routeNum
      invariant 0 <= routeIdx == |rs| && (routeIdx <= routeNum || routeIdx == 0)
      invariant fresh(repr)
      invariant forall r :: 0 <= r < |rs| ==> rs[r] in repr && rs[r].seatBits in repr && rs[r].seatTickets in repr
      invariant forall r, q :: 0 <= r < q < |rs| ==>
        rs[r] != rs[q] && rs[r].seatBits != rs[q].seatBits && rs[r].seatTickets != rs[q].seatTickets
      invariant forall r :: 0 <= r < |rs| ==>
        rs[r].seatNum == seats && rs[r].Valid(r + 1, seatsPerCoach, stationNum, 0) && rs[r].IsEmpty()
    {
      var routeDs := new RouteDs(seats, stationNum);
      routeDs.EmptyIsValid(routeIdx + 1, seatsPerCoach);
      rs := rs + [routeDs];
      repr := repr + {routeDs, routeDs.seatBits, routeDs.seatTickets};
      routeIdx := routeIdx + 1;
    }
  }

  class TicketingDS {
    const routes: seq<RouteDs>
    /** The number the next ticket sold receives. */
    var ticketId: nat
    const coachesPerRoute: int
    const seatsPerCoach: int
    /** The number of stations on every route. */
    ghost const stationNum: nat
    /** The arrays of all routes. */
    ghost const Repr: set<object>

    /** The layout, which no operation changes: every route has
        coachesPerRoute * seatsPerCoach seats, and the routes' arrays are
        distinct and make up Repr. */
    ghost predicate Shape()
    {
      0 <= coachesPerRoute && 0 <= seatsPerCoach && coachesPerRoute * seatsPerCoach < TwoTo31 &&
      (coachesPerRoute * seatsPerCoach == 0 || 0 < seatsPerCoach) &&
      (forall r :: 0 <= r < |routes| ==>
         routes[r].seatNum == coachesPerRoute * seatsPerCoach &&
         routes[r].seatBits.Length == routes[r].seatNum &&
         routes[r].seatTickets.Length0 == routes[r].seatNum && routes[r].seatTickets.Length1 == stationNum &&
         routes[r] in Repr && routes[r].seatBits in Repr && routes[r].seatTickets in Repr) &&
      (forall r, q :: 0 <= r < q < |routes| ==>
         routes[r] != routes[q] &&
         routes[r].seatBits != routes[q].seatBits && routes[r].seatTickets != routes[q].seatTickets)
    }

    /** Route number r + 1 is valid for the current counter. */
    ghost predicate RouteOk(r: int)
      requires Shape()
      reads this, Repr
    {
      0 <= r < |routes| && routes[r].Valid(r + 1, seatsPerCoach, stationNum, ticketId)
    }

    ghost predicate Valid()
      reads this, Repr
    {
      Shape() && (forall r :: 0 <= r < |routes| ==> routes[r].Sized()) &&
      forall r {:trigger RouteOk(r)} :: 0 <= r < |routes| ==> RouteOk(r)
    }

    /** The office is valid once one route has been brought up to date with
        the counter and the others were valid for an earlier counter value. */
    lemma ValidAfterUpdate(route: int, oldId: nat)
      requires Shape() && 1 <= route <= |routes| && oldId <= ticketId
      requires routes[route - 1].Valid(route, seatsPerCoach, stationNum, ticketId)
      requires forall r :: 0 <= r < |routes| && r != route - 1 ==>
        routes[r].Valid(r + 1, seatsPerCoach, stationNum, oldId)
      ensures Valid()
    {
      forall r | 0 <= r < |routes|
        ensures RouteOk(r)
      {
        if r != route - 1 {
          var other := routes[r];
          RouteStateLater(other.Masks(), other.Rows(), r + 1, seatsPerCoach, stationNum, oldId, ticketId);
        }
      }
    }

    /** `routeNum` routes of `coachNum` coaches of `seatNum` seats each, all
        free, and the ticket counter at zero. */
    constructor (routeNum: int, coachNum: int, seatNum: int, stationNum: nat)
      requires 0 <= coachNum && 0 <= seatNum && coachNum * seatNum < TwoTo31
      ensures Valid() && fresh(Repr)
      ensures |routes| == if routeNum < 0 then 0 else routeNum
      ensures coachesPerRoute == coachNum && seatsPerCoach == seatNum
      ensures this.stationNum == stationNum && ticketId == 0
      ensures forall r :: 0 <= r < |routes| ==> routes[r].IsEmpty()
    {
      var rs;
      ghost var repr;
      rs, repr := NewRoutes(routeNum, coachNum * seatNum, seatNum, stationNum);
      routes := rs;
      Repr := repr;
      coachesPerRoute := coachNum;
      seatsPerCoach := seatNum;
      this.stationNum := stationNum;
      ticketId := 0;
      new;
      forall r | 0 <= r < |routes|
        ensures RouteOk(r)
      {
      }
    }

    /** `inquiry`: the number of seats of the route on which the trip from
        `departure` to `arrival` is free. */
    method Inquiry(route: int, departure: int, arrival: int) returns (count: int)
      requires Valid() && 1 <= route <= |routes|
      ensures count == CountFree(routes[route - 1].Masks(), Target(departure, arrival))
      ensures 0 <= count <= routes[route - 1].seatNum
    {
      assert RouteOk(route - 1);
      count := 0;
      var routeDs := routes[route - 1];
      var target := Target(departure, arrival);
      for seatIdx := 0 to routeDs.seatNum
        invariant count == CountFree(routeDs.seatBits[..seatIdx], target)
      {
        var mask := routeDs.seatBits[seatIdx];
        if Free(mask, target) {
          count := count + 1;
        }
        assert routeDs.seatBits[..seatIdx + 1][..seatIdx] == routeDs.seatBits[..seatIdx];
      }
      assert routeDs.seatBits[..routeDs.seatNum] == routeDs.Masks();
    }

    /** `buyTicket`: the first seat, in seat index order, on which the trip
        from `departure` to `arrival` is free is claimed for it; the ticket
        gets the next id, and is recorded on that seat at its departure
        station. When no seat is free, nothing changes and there is no
        ticket. */
    method BuyTicket(passenger: string, route: int, departure: int, arrival: int) returns (ticket: Option<Ticket>)
      requires Valid()
      requires 1 <= route <= |routes| && 1 <= departure < arrival <= stationNum <= 32
      modifies this, routes[route - 1], routes[route - 1].seatBits, routes[route - 1].seatTickets
      ensures Valid()
      ensures var routeDs := routes[route - 1];
              FirstFree(old(routeDs.Masks()), Target(departure, arrival)).None? ==>
                ticket == None && ticketId == old(ticketId) &&
                routeDs.Masks() == old(routeDs.Masks()) && routeDs.Rows() == old(routeDs.Rows())
      ensures var routeDs := routes[route - 1];
              var target := Target(departure, arrival);
              FirstFree(old(routeDs.Masks()), target).Some? ==>
                var s := FirstFree(old(routeDs.Masks()), target).value;
                ticket == Some(Ticket(old(ticketId), passenger, route,
                                      CoachOf(s, seatsPerCoach), SeatOf(s, seatsPerCoach),
                                      departure, arrival)) &&
                ticketId == old(ticketId) + 1 &&
                routeDs.Masks() == old(routeDs.Masks())[s := Union(old(routeDs.Masks())[s], target)] &&
                routeDs.Rows() == old(routeDs.Rows())[s := old(routeDs.Rows())[s][departure - 1 := ticket]]
    {
      var routeDs := routes[route - 1];
      var target := Target(departure, arrival);
      ghost var masks, rows := routeDs.Masks(), routeDs.Rows();
      assert RouteOk(route - 1);
      var seatIdx := 0;
      while seatIdx < routeDs.seatNum && !Free(routeDs.seatBits[seatIdx], target)
        invariant seatIdx <= routeDs.seatNum
        invariant FirstFreeFrom(masks, target, seatIdx) == FirstFree(masks, target)
      {
        seatIdx := seatIdx + 1;
      }
      if seatIdx == routeDs.seatNum {
        return None;
      }
      var tid := ticketId;
      ticketId := ticketId + 1;
      var t := Ticket(tid, passenger, route, CoachOf(seatIdx, seatsPerCoach), SeatOf(seatIdx, seatsPerCoach),
                      departure, arrival);
      routeDs.Claim(seatIdx, t, route, seatsPerCoach, tid);
      ticket := Some(t);
      forall r | 0 <= r < |routes| && r != route - 1
        ensures routes[r].Valid(r + 1, seatsPerCoach, stationNum, tid)
      {
        assert old(RouteOk(r));
      }
      ValidAfterUpdate(route, tid);
    }

    /** The checks of `refundTicket` pass for t: t names a route of the
        office, and that route accepts it. */
    ghost predicate Refundable(t: Ticket)
      requires Shape()
      reads this, Repr
    {
      1 <= t.route <= |routes| &&
      RefundAccepts(routes[t.route - 1].Masks(), routes[t.route - 1].Rows(), seatsPerCoach, t)
    }

    /** t is recorded on one of the routes: it was sold and not refunded. */
    ghost predicate Sold(t: Ticket)
      reads routes
    {
      exists r :: 0 <= r < |routes| && RecordedIn(routes[r].Rows(), t)
    }

    /** `refundTicket`: a ticket is taken back exactly when the checks pass;
        then its segments are released on its seat and its entry is
        cleared. A missing ticket, an index out of range, segments that
        are not held, or a recorded entry that is absent or differs in any
        field make it fail without changing anything. */
    method RefundTicket(ticket: Option<Ticket>) returns (ok: bool)
      requires Valid()
      modifies if ticket.Some? && 1 <= ticket.value.route <= |routes|
               then {routes[ticket.value.route - 1], routes[ticket.value.route - 1].seatBits,
                     routes[ticket.value.route - 1].seatTickets}
               else {}
      ensures Valid() && ticketId == old(ticketId)
      ensures ok <==> ticket.Some? && old(Refundable(ticket.value))
      ensures !ok ==> unchanged(Repr)
      ensures ok ==>
                var t := ticket.value;
                var routeDs := routes[t.route - 1];
                var s := SeatIndex(t.coach, t.seat, seatsPerCoach);
                routeDs.Masks() == old(routeDs.Masks())[s := Without(old(routeDs.Masks())[s], Target(t.departure, t.arrival))] &&
                routeDs.Rows() == old(routeDs.Rows())[s := old(routeDs.Rows())[s][t.departure - 1 := None]]
    {
      if ticket.None? {
        return false;
      }
      var t := ticket.value;
      var route := t.route;
      var departureIdx := t.departure - 1;
      var seatIdx := SeatIndex(t.coach, t.seat, seatsPerCoach);
      if !(1 <= route <= |routes|) {
        return false;
      }
      var routeDs := routes[route - 1];
      assert RouteOk(route - 1);
      var target := Target(t.departure, t.arrival);
      if !(0 <= seatIdx < routeDs.seatNum) {
        return false;
      }
      var mask := routeDs.seatBits[seatIdx];
      if !Holds(mask, target) {
        return false;
      }
      if !(0 <= departureIdx < routeDs.seatTickets.Length1) {
        return false;
      }
      var stored := routeDs.seatTickets[seatIdx, departureIdx];
      if stored.None? || !TicketEqual(stored.value, t) {
        return false;
      }
      routeDs.Release(seatIdx, departureIdx, target, route, seatsPerCoach, ticketId);
      ok := true;
      forall r | 0 <= r < |routes| && r != route - 1
        ensures routes[r].Valid(r + 1, seatsPerCoach, stationNum, ticketId)
      {
        assert old(RouteOk(r));
      }
      ValidAfterUpdate(route, ticketId);
    }

    /** On a valid office the refund checks accept exactly the tickets that
        are sold and not yet refunded, and such a ticket carries an id
        below the counter. */
    lemma RefundableIffSold(t: Ticket)
      requires Valid()
      ensures Refundable(t) <==> Sold(t)
      ensures Sold(t) ==> 0 <= t.tid < ticketId
    {
      if Sold(t) {
        SoldIsRefundable(t);
      }
      if Refundable(t) {
        var r := t.route - 1;
        assert RouteOk(r);
        RefundAcceptsIffRecorded(routes[r].Masks(), routes[r].Rows(), r + 1, seatsPerCoach, stationNum, ticketId, t);
      }
    }

    /** Only the ticket itself can be refunded: a ticket that agrees with a
        sold one on route, coach, seat and departure station but differs in
        any other field (id, passenger, arrival) is turned down. */
    lemma TamperedTicketRejected(sold: Ticket, forged: Ticket)
      requires Valid() && Sold(sold) && forged != sold
      requires forged.route == sold.route && forged.coach == sold.coach &&
               forged.seat == sold.seat && forged.departure == sold.departure
      ensures !Refundable(forged)
    {
      SoldIsRefundable(sold);
    }

    lemma SoldIsRefundable(t: Ticket)
      requires Valid() && Sold(t)
      ensures Refundable(t) && 0 <= t.tid < ticketId
    {
      var r :| 0 <= r < |routes| && RecordedIn(routes[r].Rows(), t);
      var routeDs := routes[r];
      assert RouteOk(r);
      RecordedNamesRoute(routeDs.Masks(), routeDs.Rows(), r + 1, seatsPerCoach, stationNum, ticketId, t);
      RefundAcceptsIffRecorded(routeDs.Masks(), routeDs.Rows(), r + 1, seatsPerCoach, stationNum, ticketId, t);
    }
  }
}
