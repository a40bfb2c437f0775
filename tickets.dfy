/** The ticket record that TicketingDS.java builds, compares and stores,
    and the arithmetic that turns a seat index into a coach and seat number
    and back. */
module Tickets {

  /** The record that `buildTicket` fills in; the datatype constructor plays
      the part of `buildTicket` itself. `tid` is the purchase number drawn
      from the shared counter. */
  datatype Ticket = Ticket(
    tid: int,
    passenger: string,
    route: int,
    coach: int,
    seat: int,
    departure: int,
    arrival: int)

  /** `ticketEqual`: field-by-field comparison of two tickets, passenger
      names compared by content. */
  function TicketEqual(a: Ticket, b: Ticket): (same: bool)
    ensures same <==> a == b
  {
    a.tid == b.tid && a.passenger == b.passenger &&
    a.route == b.route && a.coach == b.coach &&
    a.seat == b.seat && a.departure == b.departure &&
    a.arrival == b.arrival
  }

  const TwoTo31: int := 0x8000_0000
  const TwoTo32: int := 0x1_0000_0000

  /** The value a Java int computation yields for the exact result `x`:
      32-bit two's-complement wrap-around. */
  function Wrap32(x: int): (r: int)
    ensures -TwoTo31 <= r < TwoTo31
    ensures (r - x) % TwoTo32 == 0
    ensures -TwoTo31 <= x < TwoTo31 ==> r == x
  {
    (x + TwoTo31) % TwoTo32 - TwoTo31
  }

  /** Coach number of seat index `seatIdx`, as written by `buyTicket`. */
  function CoachOf(seatIdx: int, seatsPerCoach: int): int
    requires 0 < seatsPerCoach
  {
    seatIdx / seatsPerCoach + 1
  }

  /** Seat number within its coach of seat index `seatIdx`, as written by
      `buyTicket`. */
  function SeatOf(seatIdx: int, seatsPerCoach: int): int
    requires 0 < seatsPerCoach
  {
    seatIdx % seatsPerCoach + 1
  }

  /** The seat index `refundTicket` computes from a ticket's coach and seat,
      `(coach - 1) * seatsPerCoach + seat - 1` in Java int arithmetic. */
  function SeatIndex(coach: int, seat: int, seatsPerCoach: int): int
  {
    Wrap32((coach - 1) * seatsPerCoach + seat - 1)
  }

  /** The coach and seat that a purchase writes decode to the seat index it
      was written from. */
  lemma SeatEncodingRoundTrip(seatIdx: int, seatsPerCoach: int)
    requires 0 <= seatIdx < TwoTo31 && 0 < seatsPerCoach
    ensures SeatIndex(CoachOf(seatIdx, seatsPerCoach), SeatOf(seatIdx, seatsPerCoach), seatsPerCoach) == seatIdx
  {
    var q, m := seatIdx / seatsPerCoach, seatIdx % seatsPerCoach;
    assert (CoachOf(seatIdx, seatsPerCoach) - 1) * seatsPerCoach + SeatOf(seatIdx, seatsPerCoach) - 1
      == q * seatsPerCoach + m == seatIdx;
  }

  /** Conversely, a coach and seat number in range are recovered from the
      seat index they denote. */
  lemma SeatDecodingRoundTrip(coach: int, seat: int, seatsPerCoach: int)
    requires 1 <= coach && 1 <= seat <= seatsPerCoach
    requires (coach - 1) * seatsPerCoach + seat - 1 < TwoTo31
    ensures CoachOf(SeatIndex(coach, seat, seatsPerCoach), seatsPerCoach) == coach
    ensures SeatOf(SeatIndex(coach, seat, seatsPerCoach), seatsPerCoach) == seat
  {
    var x := (coach - 1) * seatsPerCoach + seat - 1;
    assert 0 <= (coach - 1) * seatsPerCoach;
    assert SeatIndex(coach, seat, seatsPerCoach) == x;
    DivModUnique(x, seatsPerCoach, coach - 1, seat - 1);
  }

  /** Euclidean division has one quotient and remainder. */
  lemma DivModUnique(x: int, d: int, q: int, m: int)
    requires 0 < d && 0 <= m < d && x == q * d + m
    ensures x / d == q && x % d == m
  {
    var q', m' := x / d, x % d;
    assert x == q' * d + m';
    assert (q - q') * d == m' - m by {
      assert (q - q') * d == q * d - q' * d;
    }
    if q < q' {
      AtLeastOnce(q' - q, d);
      assert false;
    } else if q > q' {
      AtLeastOnce(q - q', d);
      assert false;
    }
  }

  lemma AtLeastOnce(k: int, d: int)
    requires 1 <= k && 0 < d
    ensures k * d >= d
  {
    assert k * d == (k - 1) * d + d;
    assert (k - 1) * d >= 0;
  }
}
