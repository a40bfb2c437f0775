/** Sequences of calls on the ticket office and what they are proved to do. */
module Scenarios {
  import opened Options
  import opened Segments
  import opened Tickets
  import opened Occupancy
  import opened TicketingSystem

  /** A purchase followed by the refund of the ticket it returned: the
      refund succeeds, the route is back in the state it had before the
      purchase, and refunding the same ticket once more fails. */
  method BuyThenRefund(office: TicketingDS, passenger: string, route: int, departure: int, arrival: int)
    returns (ticket: Option<Ticket>, refunded: bool, refundedAgain: bool)
    requires office.Valid()
    requires 1 <= route <= |office.routes| && 1 <= departure < arrival <= office.stationNum <= 32
    modifies office, office.routes[route - 1], office.routes[route - 1].seatBits,
             office.routes[route - 1].seatTickets
    ensures office.Valid()
    ensures ticket.Some? ==> refunded && !refundedAgain
    ensures office.routes[route - 1].Masks() == old(office.routes[route - 1].Masks())
    ensures office.routes[route - 1].Rows() == old(office.routes[route - 1].Rows())
  {
    var routeDs := office.routes[route - 1];
    ghost var masks, rows := routeDs.Masks(), routeDs.Rows();
    ghost var nextId := office.ticketId;
    assert office.RouteOk(route - 1);
    ticket := office.BuyTicket(passenger, route, departure, arrival);
    if ticket.None? {
      refunded, refundedAgain := false, false;
      return;
    }
    var t := ticket.value;
    ghost var target := Target(departure, arrival);
    ghost var s := FirstFree(masks, target).value;
    ghost var d := departure - 1;
    ghost var claimed, bought := routeDs.Masks(), routeDs.Rows();
    assert claimed == masks[s := Union(masks[s], target)] && bought == rows[s := rows[s][d := Some(t)]];
    assert rows[s][d] == None by {
      ClaimKeepsRouteState(masks, rows, route, office.seatsPerCoach, office.stationNum, nextId, s, t);
    }
    assert SeatIndex(t.coach, t.seat, office.seatsPerCoach) == s by {
      SeatEncodingRoundTrip(s, office.seatsPerCoach);
    }
    assert office.Refundable(t) by {
      assert bought[s][d] == Some(t);
      assert office.Sold(t);
      office.RefundableIffSold(t);
    }
    refunded := office.RefundTicket(ticket);
    assert routeDs.Masks() == masks && routeDs.Rows() == rows by {
      assert routeDs.Masks() == claimed[s := Without(claimed[s], target)];
      assert routeDs.Rows() == bought[s := bought[s][d := None]];
      ClaimThenReleaseRestores(masks, rows, s, t);
    }
    assert !office.Refundable(t);
    refundedAgain := office.RefundTicket(ticket);
  }

  /** An inquiry, a purchase for the same trip and a second inquiry: the
      purchase succeeds exactly when the first count is at least one, and
      then the count drops by exactly one; otherwise it stays put. */
  method InquireBuyInquire(office: TicketingDS, passenger: string, route: int, departure: int, arrival: int)
    returns (before: int, ticket: Option<Ticket>, after: int)
    requires office.Valid()
    requires 1 <= route <= |office.routes| && 1 <= departure < arrival <= office.stationNum <= 32
    modifies office, office.routes[route - 1], office.routes[route - 1].seatBits,
             office.routes[route - 1].seatTickets
    ensures office.Valid()
    ensures ticket.Some? <==> before >= 1
    ensures ticket.Some? ==> after == before - 1
    ensures ticket.None? ==> after == before
  {
    ghost var masks := office.routes[route - 1].Masks();
    ghost var target := Target(departure, arrival);
    before := office.Inquiry(route, departure, arrival);
    ticket := office.BuyTicket(passenger, route, departure, arrival);
    after := office.Inquiry(route, departure, arrival);
    SomeFreeIffCounted(masks, target);
    if ticket.Some? {
      TargetNonEmpty(departure, arrival);
      CountFreeAfterClaim(masks, target, FirstFree(masks, target).value);
    }
  }

  /** Two purchases in a row, on the same or different routes: when both
      succeed, the second ticket's id is one more than the first's, so ids
      are never issued twice. */
  method TwoBuys(office: TicketingDS, passenger1: string, route1: int, departure1: int, arrival1: int,
                 passenger2: string, route2: int, departure2: int, arrival2: int)
    returns (first: Option<Ticket>, second: Option<Ticket>)
    requires office.Valid() && office.stationNum <= 32
    requires 1 <= route1 <= |office.routes| && 1 <= departure1 < arrival1 <= office.stationNum
    requires 1 <= route2 <= |office.routes| && 1 <= departure2 < arrival2 <= office.stationNum
    modifies office, office.Repr
    ensures office.Valid()
    ensures first.Some? && second.Some? ==> second.value.tid == first.value.tid + 1
  {
    assert office.RouteOk(route1 - 1);
    first := office.BuyTicket(passenger1, route1, departure1, arrival1);
    assert office.RouteOk(route2 - 1);
    second := office.BuyTicket(passenger2, route2, departure2, arrival2);
  }

  /** The trip from station 1 to 3 takes segments 0 and 1; the trip from
      2 to 4 takes segments 1 and 2. */
  lemma TripMasks()
    ensures Target(1, 3) == 3 && Target(2, 4) == 6
  {
    assert ShiftCount(0) == 0 && ShiftCount(1) == 1 && ShiftCount(2) == 2 && ShiftCount(3) == 3;
  }

  /** On a route of two seats: the count of free seats and the seat a
      purchase claims, read off the two masks. */
  lemma TwoSeats(masks: seq<bv32>, target: bv32)
    requires |masks| == 2
    ensures CountFree(masks, target) == (if Free(masks[0], target) then 1 else 0) +
                                        (if Free(masks[1], target) then 1 else 0)
    ensures FirstFree(masks, target) == if Free(masks[0], target) then Some(0)
                                        else if Free(masks[1], target) then Some(1) else None
  {
    assert masks[..1][..0] == [];
    assert masks[..2] == masks;
  }

  /** The mask arithmetic of AliceAndBob. */
  lemma AliceAndBobMasks()
    ensures Free(0, 3) && Free(0, 6) && !Free(3, 3) && !Free(3, 6) && !Free(6, 3)
    ensures Union(0, 3) == 3 && Union(0, 6) == 6 && Without(3, 3) == 0
    ensures Holds(3, 3) && Holds(6, 6)
  {
  }

  /** The office of AliceAndBob between two calls: one route of one coach
      of two seats and four stations, the masks of the two seats, the entry
      of seat 1 for station 1 (Alice's), the entry of seat 2 for station 2
      (Bob's), and the counter. */
  ghost predicate Stage(office: TicketingDS, masks: seq<bv32>, aliceEntry: Option<Ticket>,
                        bobEntry: Option<Ticket>, nextId: nat)
    reads office, office.Repr
  {
    office.Valid() && |office.routes| == 1 && office.seatsPerCoach == 2 && office.stationNum == 4 &&
    office.routes[0].seatNum == 2 && office.ticketId == nextId && office.routes[0].Masks() == masks &&
    office.routes[0].Rows()[0][0] == aliceEntry && office.routes[0].Rows()[1][1] == bobEntry
  }

  method Open() returns (office: TicketingDS)
    ensures Stage(office, [0, 0], None, None, 0)
    ensures fresh(office) && fresh(office.Repr)
  {
    office := new TicketingDS(1, 1, 2, 4);
    var route := office.routes[0];
    assert route.Masks() == [0, 0];
    assert route.Rows()[0] == seq(4, _ => None) && route.Rows()[1] == seq(4, _ => None);
  }

  method FreeSeats(office: TicketingDS, ghost masks: seq<bv32>, ghost aliceEntry: Option<Ticket>,
                   ghost bobEntry: Option<Ticket>, ghost nextId: nat) returns (count: int)
    requires Stage(office, masks, aliceEntry, bobEntry, nextId)
    ensures count == (if Free(masks[0], 3) then 1 else 0) + (if Free(masks[1], 3) then 1 else 0)
  {
    count := office.Inquiry(1, 1, 3);
    TripMasks();
    TwoSeats(masks, 3);
  }

  method BuyAlice(office: TicketingDS) returns (alice: Option<Ticket>)
    requires Stage(office, [0, 0], None, None, 0)
    modifies office, office.Repr
    ensures alice == Some(Ticket(0, "alice", 1, 1, 1, 1, 3))
    ensures Stage(office, [3, 0], alice, None, 1)
  {
    ghost var masks, rows := office.routes[0].Masks(), office.routes[0].Rows();
    assert FirstFree(masks, Target(1, 3)) == Some(0) && Union(0, 3) == 3 by {
      TripMasks();
      TwoSeats(masks, 3);
      AliceAndBobMasks();
    }
    alice := office.BuyTicket("alice", 1, 1, 3);
  }

  method BuyBob(office: TicketingDS, ghost aliceEntry: Option<Ticket>) returns (bob: Option<Ticket>)
    requires Stage(office, [3, 0], aliceEntry, None, 1)
    modifies office, office.Repr
    ensures bob == Some(Ticket(1, "bob", 1, 1, 2, 2, 4))
    ensures Stage(office, [3, 6], aliceEntry, bob, 2)
  {
    ghost var masks, rows := office.routes[0].Masks(), office.routes[0].Rows();
    assert FirstFree(masks, Target(2, 4)) == Some(1) && Union(0, 6) == 6 by {
      TripMasks();
      TwoSeats(masks, 6);
      AliceAndBobMasks();
    }
    bob := office.BuyTicket("bob", 1, 2, 4);
  }

  method RefundAlice(office: TicketingDS, alice: Ticket, ghost bobEntry: Option<Ticket>) returns (ok: bool)
    requires alice == Ticket(0, "alice", 1, 1, 1, 1, 3)
    requires Stage(office, [3, 6], Some(alice), bobEntry, 2)
    modifies office.Repr
    ensures ok && Stage(office, [0, 6], None, bobEntry, 2)
  {
    assert SeatIndex(1, 1, 2) == 0;
    assert Target(1, 3) == 3 && Holds(3, 3) && Without(3, 3) == 0 by {
      TripMasks();
      AliceAndBobMasks();
    }
    ok := office.RefundTicket(Some(alice));
  }

  method RefundTwice(office: TicketingDS, alice: Ticket, ghost masks: seq<bv32>, ghost bobEntry: Option<Ticket>)
    returns (ok: bool)
    requires alice == Ticket(0, "alice", 1, 1, 1, 1, 3)
    requires Stage(office, masks, None, bobEntry, 2)
    modifies office.Repr
    ensures !ok && Stage(office, masks, None, bobEntry, 2)
  {
    assert SeatIndex(1, 1, 2) == 0;
    ok := office.RefundTicket(Some(alice));
  }

  method RefundForged(office: TicketingDS, bob: Ticket, ghost masks: seq<bv32>, ghost aliceEntry: Option<Ticket>)
    returns (ok: bool)
    requires bob == Ticket(1, "bob", 1, 1, 2, 2, 4)
    requires Stage(office, masks, aliceEntry, Some(bob), 2)
    modifies office.Repr
    ensures !ok && Stage(office, masks, aliceEntry, Some(bob), 2)
  {
    assert SeatIndex(1, 2, 2) == 1;
    ok := office.RefundTicket(Some(bob.(passenger := "mallory")));
  }

  /** One coach of two seats and four stations. Alice rides from station 1
      to 3 and gets seat 1; Bob's trip from 2 to 4 overlaps hers, so he gets
      seat 2. The free seats for the trip 1 to 3 go from 2 to 1 to 0, and
      back to 1 once Alice's ticket is refunded; her ticket cannot be
      refunded twice, and a copy of Bob's ticket under another name is
      refused. */
  method AliceAndBob() returns (counts: seq<int>, alice: Option<Ticket>, bob: Option<Ticket>,
                                refunds: seq<bool>)
    ensures counts == [2, 1, 0, 1]
    ensures alice == Some(Ticket(0, "alice", 1, 1, 1, 1, 3))
    ensures bob == Some(Ticket(1, "bob", 1, 1, 2, 2, 4))
    ensures refunds == [true, false, false]
  {
    AliceAndBobMasks();
    var office := Open();
    var before := FreeSeats(office, [0, 0], None, None, 0);
    alice := BuyAlice(office);
    var afterAlice := FreeSeats(office, [3, 0], alice, None, 1);
    bob := BuyBob(office, alice);
    var afterBob := FreeSeats(office, [3, 6], alice, bob, 2);
    var first := RefundAlice(office, alice.value, bob);
    var afterRefund := FreeSeats(office, [0, 6], None, bob, 2);
    var second := RefundTwice(office, alice.value, [0, 6], bob);
    var forged := RefundForged(office, bob.value, [0, 6], None);
    counts := [before, afterAlice, afterBob, afterRefund];
    refunds := [first, second, forged];
  }
}
