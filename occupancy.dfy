/** The specification of one route's seat state, on values: the masks of its
    seats in index order, and for one seat its row of recorded tickets, one
    entry per departure station. The methods of TicketingSystem are proved
    against these functions. */
module Occupancy {
  import opened Options
  import opened Segments
  import opened Tickets

  /** The number of seats free for `target`: what `inquiry` counts. */
  function CountFree(masks: seq<bv32>, target: bv32): (n: nat)
    ensures n <= |masks|
    ensures n == 0 <==> forall s :: 0 <= s < |masks| ==> !Free(masks[s], target)
  {
    if masks == [] then 0
    else
      var last := |masks| - 1;
      CountFree(masks[..last], target) + (if Free(masks[last], target) then 1 else 0)
  }

  /** The lowest seat index at or after `from` whose seat is free for
      `target`, if any: the seat the scan of `buyTicket` claims. */
  function FirstFreeFrom(masks: seq<bv32>, target: bv32, from: nat): (r: Option<nat>)
    requires from <= |masks|
    ensures r.Some? ==> from <= r.value < |masks| && Free(masks[r.value], target)
    ensures r.Some? ==> forall s :: from <= s < r.value ==> !Free(masks[s], target)
    ensures r.None? <==> forall s :: from <= s < |masks| ==> !Free(masks[s], target)
    decreases |masks| - from
  {
    if from == |masks| then None
    else if Free(masks[from], target) then Some(from)
    else FirstFreeFrom(masks, target, from + 1)
  }

  /** The lowest-index seat free for `target`, if any. */
  function FirstFree(masks: seq<bv32>, target: bv32): (r: Option<nat>)
    ensures r.Some? ==> r.value < |masks| && Free(masks[r.value], target)
    ensures r.Some? ==> forall s :: 0 <= s < r.value ==> !Free(masks[s], target)
    ensures r.None? <==> forall s :: 0 <= s < |masks| ==> !Free(masks[s], target)
  {
    FirstFreeFrom(masks, target, 0)
  }

  /** A seat is claimed by some purchase exactly when one is counted free. */
  lemma SomeFreeIffCounted(masks: seq<bv32>, target: bv32)
    ensures FirstFree(masks, target).Some? <==> CountFree(masks, target) >= 1
  {
  }

  /** Claiming a free seat for a non-empty trip lowers the count of seats
      free for that trip by exactly one. */
  lemma {:induction false} CountFreeAfterClaim(masks: seq<bv32>, target: bv32, s: nat)
    requires s < |masks| && Free(masks[s], target) && target != 0
    ensures CountFree(masks[s := Union(masks[s], target)], target) == CountFree(masks, target) - 1
  {
    var claimed := masks[s := Union(masks[s], target)];
    var last := |masks| - 1;
    if s == last {
      assert claimed[..last] == masks[..last];
      ClaimedIsTaken(masks[s], target);
    } else {
      assert claimed[..last] == masks[..last][s := Union(masks[s], target)];
      assert claimed[last] == masks[last];
      CountFreeAfterClaim(masks[..last], target, s);
    }
  }

  /** The segments held by one recorded ticket entry. */
  function Cover(entry: Option<Ticket>): bv32
  {
    match entry
    case None => 0
    case Some(t) => Target(t.departure, t.arrival)
  }

  /** The union of the segments held by the tickets recorded in a row. */
  function Covered(row: seq<Option<Ticket>>): bv32
  {
    if row == [] then 0 else Union(Cover(row[0]), Covered(row[1..]))
  }

  /** No two tickets recorded on one seat hold a common segment. */
  ghost predicate Disjoint(row: seq<Option<Ticket>>)
  {
    forall i, j :: 0 <= i < |row| && 0 <= j < |row| && i != j ==> Free(Cover(row[i]), Cover(row[j]))
  }

  /** A ticket recorded at entry d departs from station d + 1 and arrives at a
      later station of the route (the row has one entry per station). */
  ghost predicate Anchored(row: seq<Option<Ticket>>)
  {
    forall d :: 0 <= d < |row| && row[d].Some? ==>
      row[d].value.departure == d + 1 && d + 1 < row[d].value.arrival <= |row|
  }

  /** Segment i is in the union of a row exactly when some recorded ticket
      holds it. */
  lemma {:induction false} CoveredSegment(row: seq<Option<Ticket>>, i: int)
    requires 0 <= i < 32
    ensures Taken(Covered(row), i) <==> exists d :: 0 <= d < |row| && Taken(Cover(row[d]), i)
  {
    if row != [] {
      CoveredSegment(row[1..], i);
      TakenUnion(Cover(row[0]), Covered(row[1..]), i);
      if exists d :: 0 <= d < |row| && Taken(Cover(row[d]), i) {
        var d :| 0 <= d < |row| && Taken(Cover(row[d]), i);
        if d > 0 {
          assert row[1..][d - 1] == row[d];
        }
      }
      if exists d :: 0 <= d < |row[1..]| && Taken(Cover(row[1..][d]), i) {
        var d :| 0 <= d < |row[1..]| && Taken(Cover(row[1..][d]), i);
        assert row[d + 1] == row[1..][d];
      }
    }
  }

  /** A row with nothing recorded holds no segment. */
  lemma {:induction false} CoveredEmpty(row: seq<Option<Ticket>>)
    requires forall d :: 0 <= d < |row| ==> row[d] == None
    ensures Covered(row) == 0
  {
    if row != [] {
      CoveredEmpty(row[1..]);
      UnionWithZero(0);
    }
  }

  /** Every recorded ticket's segments are in the union of the row. */
  lemma {:induction false} CoveredContains(row: seq<Option<Ticket>>, d: nat)
    requires d < |row|
    ensures Holds(Covered(row), Cover(row[d]))
  {
    if d > 0 {
      CoveredContains(row[1..], d - 1);
      assert row[1..][d - 1] == row[d];
      SubsetOfUnion(Cover(row[0]), Covered(row[1..]), Cover(row[d]));
    } else {
      HoldsOwn(Cover(row[0]), Covered(row[1..]));
    }
  }

  /** A mask that shares no segment with any recorded ticket shares none
      with their union. */
  lemma {:induction false} CoveredAvoids(row: seq<Option<Ticket>>, c: bv32)
    requires forall d :: 0 <= d < |row| ==> Free(Cover(row[d]), c)
    ensures Free(Covered(row), c)
  {
    if row != [] {
      assert Free(Cover(row[0]), c);
      forall k | 0 <= k < |row[1..]|
        ensures Free(Cover(row[1..][k]), c)
      {
        assert row[1..][k] == row[k + 1];
      }
      CoveredAvoids(row[1..], c);
      UnionAvoids(Cover(row[0]), Covered(row[1..]), c);
    }
  }

  /** Recording a ticket in an empty entry adds its segments to the union. */
  lemma {:induction false} CoveredRecord(row: seq<Option<Ticket>>, d: nat, entry: Option<Ticket>)
    requires d < |row| && row[d] == None
    ensures Covered(row[d := entry]) == Union(Covered(row), Cover(entry))
  {
    var rest := Covered(row[1..]);
    if d > 0 {
      assert row[d := entry][1..] == row[1..][d - 1 := entry];
      CoveredRecord(row[1..], d - 1, entry);
      UnionAssoc(Cover(row[0]), rest, Cover(entry));
    } else {
      assert row[d := entry][1..] == row[1..];
      UnionWithZero(rest);
      UnionComm(Cover(entry), rest);
    }
  }

  /** Clearing an entry of a row whose tickets are pairwise disjoint removes
      exactly that ticket's segments from the union. */
  lemma {:induction false} CoveredClear(row: seq<Option<Ticket>>, d: nat)
    requires d < |row| && Disjoint(row)
    ensures Covered(row[d := None]) == Without(Covered(row), Cover(row[d]))
  {
    var c := Cover(row[d]);
    if d > 0 {
      assert row[d := None][1..] == row[1..][d - 1 := None];
      assert row[1..][d - 1] == row[d];
      assert Disjoint(row[1..]) by {
        forall i, j | 0 <= i < |row[1..]| && 0 <= j < |row[1..]| && i != j
          ensures Free(Cover(row[1..][i]), Cover(row[1..][j]))
        {
          assert row[1..][i] == row[i + 1] && row[1..][j] == row[j + 1];
        }
      }
      CoveredClear(row[1..], d - 1);
      assert Free(Cover(row[0]), c);
      RemoveFromUnion(Cover(row[0]), Covered(row[1..]), c);
    } else {
      assert row[d := None][1..] == row[1..];
      forall k | 0 <= k < |row[1..]|
        ensures Free(Cover(row[1..][k]), c)
      {
        assert row[1..][k] == row[k + 1];
        FreeSymmetric(c, Cover(row[k + 1]));
      }
      CoveredAvoids(row[1..], c);
      RemoveOwnPart(Covered(row[1..]), c);
    }
  }

  /** Recording a ticket whose segments are free on the seat keeps the
      seat's tickets pairwise disjoint: no segment is sold twice. */
  lemma RecordKeepsDisjoint(row: seq<Option<Ticket>>, d: nat, entry: Option<Ticket>)
    requires d < |row| && Disjoint(row) && Free(Covered(row), Cover(entry))
    ensures Disjoint(row[d := entry])
  {
    forall k | 0 <= k < |row|
      ensures Free(Cover(row[k]), Cover(entry)) && Free(Cover(entry), Cover(row[k]))
    {
      CoveredContains(row, k);
      PartAvoids(Covered(row), Cover(row[k]), Cover(entry));
      FreeSymmetric(Cover(row[k]), Cover(entry));
    }
  }

  /** Clearing an entry keeps the seat's tickets pairwise disjoint. */
  lemma ClearKeepsDisjoint(row: seq<Option<Ticket>>, d: nat)
    requires d < |row| && Disjoint(row)
    ensures Disjoint(row[d := None])
  {
    forall k | 0 <= k < |row|
      ensures Free(Cover(row[k]), 0) && Free(0, Cover(row[k]))
    {
      FreeOfZero(Cover(row[k]));
    }
  }

  /** When a trip is free on a seat, the seat has no ticket recorded at the
      trip's departure station, so recording the new ticket there overwrites
      nothing. */
  lemma FreeEntryIsEmpty(row: seq<Option<Ticket>>, departure: int, arrival: int)
    requires Anchored(row) && |row| <= 32
    requires 1 <= departure < arrival <= |row|
    requires Free(Covered(row), Target(departure, arrival))
    ensures row[departure - 1] == None
  {
    var d := departure - 1;
    if row[d].Some? {
      SameDepartureOverlap(departure, row[d].value.arrival, arrival);
      CoveredContains(row, d);
      PartAvoids(Covered(row), Cover(row[d]), Target(departure, arrival));
      assert false;
    }
  }

  /** No double booking: two tickets recorded on one seat never both hold a
      segment. */
  lemma NoDoubleBooking(row: seq<Option<Ticket>>, d1: nat, d2: nat, i: int)
    requires Disjoint(row) && d1 < |row| && d2 < |row| && d1 != d2 && 0 <= i < 32
    ensures !(Taken(Cover(row[d1]), i) && Taken(Cover(row[d2]), i))
  {
    DisjointMasksShareNoSegment(Cover(row[d1]), Cover(row[d2]), i);
  }

  /** The state of one seat: its mask is the union of the segments of the
      tickets recorded on it, which are pairwise disjoint and each sit at
      the entry of their departure station. */
  ghost predicate SeatState(mask: bv32, row: seq<Option<Ticket>>)
  {
    mask == Covered(row) && Disjoint(row) && Anchored(row)
  }

  /** Every ticket recorded on a seat names that route, coach and seat, and
      carries an id the counter issued before reaching `nextId`. */
  ghost predicate IssuedFor(row: seq<Option<Ticket>>, route: int, coach: int, seat: int, nextId: nat)
  {
    forall d :: 0 <= d < |row| && row[d].Some? ==>
      row[d].value.route == route && row[d].value.coach == coach &&
      row[d].value.seat == seat && 0 <= row[d].value.tid < nextId
  }

  /** The state of route `route`: one mask and one ticket table of `width`
      entries per seat, seat index s standing for coach CoachOf(s) and seat
      SeatOf(s). */
  ghost predicate RouteState(masks: seq<bv32>, rows: seq<seq<Option<Ticket>>>, route: int,
                             seatsPerCoach: int, width: nat, nextId: nat)
  {
    |masks| == |rows| && |rows| < TwoTo31 && (|rows| == 0 || 0 < seatsPerCoach) &&
    (forall s :: 0 <= s < |rows| ==> |rows[s]| == width) &&
    forall s {:trigger SeatOk(masks, rows, route, seatsPerCoach, width, nextId, s)} :: 0 <= s < |rows| ==>
      SeatOk(masks, rows, route, seatsPerCoach, width, nextId, s)
  }

  /** Seat s of a route is valid. */
  ghost predicate SeatOk(masks: seq<bv32>, rows: seq<seq<Option<Ticket>>>, route: int,
                         seatsPerCoach: int, width: nat, nextId: nat, s: int)
  {
    0 <= s < |masks| && s < |rows| && 0 < seatsPerCoach && |rows[s]| == width &&
    SeatState(masks[s], rows[s]) &&
    IssuedFor(rows[s], route, CoachOf(s, seatsPerCoach), SeatOf(s, seatsPerCoach), nextId)
  }

  /** A route whose masks are all zero and whose entries are all empty, as
      the constructor builds it, is in a valid state. */
  lemma EmptyRouteState(n: nat, route: int, seatsPerCoach: int, width: nat)
    requires n < TwoTo31 && (n == 0 || 0 < seatsPerCoach)
    ensures RouteState(seq(n, _ => 0), seq(n, _ => seq(width, _ => None)), route, seatsPerCoach, width, 0)
  {
    var masks: seq<bv32> := seq(n, _ => 0);
    var rows: seq<seq<Option<Ticket>>> := seq(n, _ => seq(width, _ => None));
    var row: seq<Option<Ticket>> := seq(width, _ => None);
    CoveredEmpty(row);
    FreeOfZero(0);
    assert SeatState(0, row);
    forall s | 0 <= s < n
      ensures SeatOk(masks, rows, route, seatsPerCoach, width, 0, s)
    {
      assert rows[s] == row;
    }
  }

  /** Issuing more ids keeps every recorded id below the counter. */
  lemma RouteStateLater(masks: seq<bv32>, rows: seq<seq<Option<Ticket>>>, route: int,
                        seatsPerCoach: int, width: nat, nextId: nat, laterId: nat)
    requires RouteState(masks, rows, route, seatsPerCoach, width, nextId) && nextId <= laterId
    ensures RouteState(masks, rows, route, seatsPerCoach, width, laterId)
  {
    forall s | 0 <= s < |rows|
      ensures SeatOk(masks, rows, route, seatsPerCoach, width, laterId, s)
    {
      assert SeatOk(masks, rows, route, seatsPerCoach, width, nextId, s);
    }
  }

  /** Recording ticket t on a seat where its trip is free: the entry at its
      departure was empty, and the seat stays valid once its mask gains the
      trip's segments. */
  lemma ClaimKeepsSeatState(mask: bv32, row: seq<Option<Ticket>>, route: int, coach: int, seat: int,
                            nextId: nat, t: Ticket)
    requires SeatState(mask, row) && IssuedFor(row, route, coach, seat, nextId)
    requires 1 <= t.departure < t.arrival <= |row| <= 32
    requires Free(mask, Target(t.departure, t.arrival))
    requires t.route == route && t.coach == coach && t.seat == seat && t.tid == nextId
    ensures row[t.departure - 1] == None
    ensures SeatState(Union(mask, Target(t.departure, t.arrival)), row[t.departure - 1 := Some(t)])
    ensures IssuedFor(row[t.departure - 1 := Some(t)], route, coach, seat, nextId + 1)
  {
    var d := t.departure - 1;
    FreeEntryIsEmpty(row, t.departure, t.arrival);
    CoveredRecord(row, d, Some(t));
    RecordKeepsDisjoint(row, d, Some(t));
    var row' := row[d := Some(t)];
    forall e | 0 <= e < |row'| && row'[e].Some?
      ensures row'[e].value.route == route && row'[e].value.coach == coach &&
              row'[e].value.seat == seat && 0 <= row'[e].value.tid < nextId + 1
    {
      if e != d {
        assert row'[e] == row[e];
      }
    }
  }

  /** A purchase on seat s: the seat's mask gains the trip's segments and the
      ticket is recorded at its departure entry, which was empty. The route
      stays valid with the counter one higher. */
  lemma ClaimKeepsRouteState(masks: seq<bv32>, rows: seq<seq<Option<Ticket>>>, route: int,
                             seatsPerCoach: int, width: nat, nextId: nat, s: nat, t: Ticket)
    requires RouteState(masks, rows, route, seatsPerCoach, width, nextId)
    requires s < |rows| && width <= 32
    requires 1 <= t.departure < t.arrival <= width
    requires Free(masks[s], Target(t.departure, t.arrival))
    requires t.route == route && t.coach == CoachOf(s, seatsPerCoach) &&
             t.seat == SeatOf(s, seatsPerCoach) && t.tid == nextId
    ensures rows[s][t.departure - 1] == None
    ensures RouteState(masks[s := Union(masks[s], Target(t.departure, t.arrival))],
                       rows[s := rows[s][t.departure - 1 := Some(t)]],
                       route, seatsPerCoach, width, nextId + 1)
  {
    assert SeatOk(masks, rows, route, seatsPerCoach, width, nextId, s);
    ClaimKeepsSeatState(masks[s], rows[s], route, t.coach, t.seat, nextId, t);
    RouteStateLater(masks, rows, route, seatsPerCoach, width, nextId, nextId + 1);
    var masks' := masks[s := Union(masks[s], Target(t.departure, t.arrival))];
    var rows' := rows[s := rows[s][t.departure - 1 := Some(t)]];
    var next := nextId + 1;
    forall k | 0 <= k < |rows'|
      ensures SeatOk(masks', rows', route, seatsPerCoach, width, next, k)
    {
      if k != s {
        assert SeatOk(masks, rows, route, seatsPerCoach, width, nextId + 1, k);
      }
    }
  }

  /** Clearing entry d of a valid seat and removing that ticket's segments
      from the mask leaves the seat valid. */
  lemma ReleaseKeepsSeatState(mask: bv32, row: seq<Option<Ticket>>, d: nat)
    requires SeatState(mask, row) && d < |row|
    ensures SeatState(Without(mask, Cover(row[d])), row[d := None])
  {
    CoveredClear(row, d);
    ClearKeepsDisjoint(row, d);
  }

  /** A refund on seat s: the ticket at entry d is removed and its segments
      leave the seat's mask. The route stays valid. */
  lemma ReleaseKeepsRouteState(masks: seq<bv32>, rows: seq<seq<Option<Ticket>>>, route: int,
                               seatsPerCoach: int, width: nat, nextId: nat, s: nat, d: nat)
    requires RouteState(masks, rows, route, seatsPerCoach, width, nextId)
    requires s < |rows| && d < |rows[s]|
    ensures RouteState(masks[s := Without(masks[s], Cover(rows[s][d]))],
                       rows[s := rows[s][d := None]],
                       route, seatsPerCoach, width, nextId)
  {
    assert SeatOk(masks, rows, route, seatsPerCoach, width, nextId, s);
    ReleaseKeepsSeatState(masks[s], rows[s], d);
    assert IssuedFor(rows[s][d := None], route, CoachOf(s, seatsPerCoach), SeatOf(s, seatsPerCoach), nextId);
    var masks' := masks[s := Without(masks[s], Cover(rows[s][d]))];
    var rows' := rows[s := rows[s][d := None]];
    forall k | 0 <= k < |rows'|
      ensures SeatOk(masks', rows', route, seatsPerCoach, width, nextId, k)
    {
      if k != s {
        assert SeatOk(masks, rows, route, seatsPerCoach, width, nextId, k);
      }
    }
  }

  /** The checks `refundTicket` makes on the ticket's route: the seat index
      computed from its coach and seat is in range, the seat's mask holds
      the trip's segments, and the entry at its departure station holds a
      ticket equal to it. */
  predicate RefundAccepts(masks: seq<bv32>, rows: seq<seq<Option<Ticket>>>, seatsPerCoach: int, t: Ticket)
  {
    var s := SeatIndex(t.coach, t.seat, seatsPerCoach);
    0 <= s < |masks| && s < |rows| && Holds(masks[s], Target(t.departure, t.arrival)) &&
    0 <= t.departure - 1 < |rows[s]| && rows[s][t.departure - 1].Some? &&
    TicketEqual(rows[s][t.departure - 1].value, t)
  }

  /** The ticket is recorded somewhere on the route. */
  ghost predicate RecordedIn(rows: seq<seq<Option<Ticket>>>, t: Ticket)
  {
    exists s, d :: 0 <= s < |rows| && 0 <= d < |rows[s]| && rows[s][d] == Some(t)
  }

  /** On a valid route the refund checks accept exactly the tickets recorded
      on it: a sold ticket is always accepted, and a ticket that differs
      from every recorded one in any field is always turned down. */
  lemma RefundAcceptsIffRecorded(masks: seq<bv32>, rows: seq<seq<Option<Ticket>>>, route: int,
                                 seatsPerCoach: int, width: nat, nextId: nat, t: Ticket)
    requires RouteState(masks, rows, route, seatsPerCoach, width, nextId)
    ensures RefundAccepts(masks, rows, seatsPerCoach, t) <==> RecordedIn(rows, t)
  {
    if RefundAccepts(masks, rows, seatsPerCoach, t) {
      var s := SeatIndex(t.coach, t.seat, seatsPerCoach);
      assert rows[s][t.departure - 1] == Some(t);
    }
    if RecordedIn(rows, t) {
      var s, d :| 0 <= s < |rows| && 0 <= d < |rows[s]| && rows[s][d] == Some(t);
      assert SeatOk(masks, rows, route, seatsPerCoach, width, nextId, s);
      assert t.coach == CoachOf(s, seatsPerCoach) && t.seat == SeatOf(s, seatsPerCoach);
      SeatEncodingRoundTrip(s, seatsPerCoach);
      assert t.departure == d + 1;
      CoveredContains(rows[s], d);
    }
  }

  /** Buying a seat and refunding the ticket so bought puts the route back
      in the state it had before the purchase. */
  lemma ClaimThenReleaseRestores(masks: seq<bv32>, rows: seq<seq<Option<Ticket>>>, s: nat, t: Ticket)
    requires s < |masks| && s < |rows| && 0 <= t.departure - 1 < |rows[s]|
    requires Free(masks[s], Target(t.departure, t.arrival)) && rows[s][t.departure - 1] == None
    ensures var target := Target(t.departure, t.arrival);
            var masks' := masks[s := Union(masks[s], target)];
            var rows' := rows[s := rows[s][t.departure - 1 := Some(t)]];
            masks'[s := Without(masks'[s], target)] == masks &&
            rows'[s := rows'[s][t.departure - 1 := None]] == rows
  {
    var target := Target(t.departure, t.arrival);
    ClaimThenRelease(masks[s], target);
    var d := t.departure - 1;
    assert rows[s][d := Some(t)][d := None] == rows[s];
  }

  /** A ticket recorded on a valid route names that route. */
  lemma RecordedNamesRoute(masks: seq<bv32>, rows: seq<seq<Option<Ticket>>>, route: int,
                           seatsPerCoach: int, width: nat, nextId: nat, t: Ticket)
    requires RouteState(masks, rows, route, seatsPerCoach, width, nextId) && RecordedIn(rows, t)
    ensures t.route == route && 0 <= t.tid < nextId
  {
    var s, d :| 0 <= s < |rows| && 0 <= d < |rows[s]| && rows[s][d] == Some(t);
    assert SeatOk(masks, rows, route, seatsPerCoach, width, nextId, s);
    assert IssuedFor(rows[s], route, CoachOf(s, seatsPerCoach), SeatOf(s, seatsPerCoach), nextId);
  }
}
