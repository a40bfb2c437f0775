/** Occupancy masks of TicketingDS.java.
    A seat's mask is a 32-bit Java int; bit i stands for the segment from
    station i + 1 to station i + 2, and a set bit means the segment is sold. */
module Segments {

  /** Java reduces the distance of an int shift to its low five bits. */
  function ShiftCount(k: int): bv5
  {
    Bv5Of(k % 32)
  }

  /** The 5-bit number n, counted up from zero. */
  function Bv5Of(n: nat): bv5
    requires n < 32
  {
    if n == 0 then 0 else Bv5Of(n - 1) + 1
  }

  /** Java's `1 << k` on int. */
  function Shl1(k: int): bv32
  {
    1 << ShiftCount(k)
  }

  /** The mask of the trip [departure, arrival), computed as
      `(1 << (arrival - 1)) - (1 << (departure - 1))` with 32-bit
      wrap-around, for any pair of ints. */
  function Target(departure: int, arrival: int): bv32
  {
    Span(ShiftCount(departure - 1), ShiftCount(arrival - 1))
  }

  /** `(1 << hi) - (1 << lo)` on 5-bit shift distances. */
  function Span(lo: bv5, hi: bv5): bv32
  {
    ((1 as bv32) << hi) - ((1 as bv32) << lo)
  }

  /** Segment i (from station i + 1 to i + 2) is set in `mask`. */
  predicate Taken(mask: bv32, i: int)
    requires 0 <= i < 32
  {
    BitAt(mask, ShiftCount(i))
  }

  /** A seat is free for a trip when its mask shares no segment with the
      trip's mask: `(mask & target) == 0`. */
  predicate Free(mask: bv32, target: bv32)
  {
    mask & target == 0
  }

  /** All of `target`'s segments are set in `mask`: `(mask & target) == target`. */
  predicate Holds(mask: bv32, target: bv32)
  {
    mask & target == target
  }

  /** `mask | target`: the mask with `target`'s segments added. */
  function Union(mask: bv32, target: bv32): bv32
  {
    mask | target
  }

  /** `mask & ~target`: the mask with `target`'s segments removed. */
  function Without(mask: bv32, target: bv32): bv32
  {
    mask & !target
  }

  /** Bit `i` of `mask`, with a 5-bit position. */
  predicate BitAt(mask: bv32, i: bv5)
  {
    mask & (1 << i) != 0
  }

  /** Bv5Of(n) stands for the number n. */
  lemma {:induction false} Bv5OfValue(n: nat)
    requires n < 32
    ensures Bv5Of(n) as int == n
  {
    if n > 0 {
      Bv5OfValue(n - 1);
      Increment(Bv5Of(n - 1));
    }
  }

  lemma Increment(x: bv5)
    requires x as int < 31
    ensures (x + 1) as int == x as int + 1
  {
  }

  /** Counting up to a 5-bit position keeps the order of the numbers. */
  lemma Bv5OfOrder(x: nat, y: nat)
    requires x < 32 && y < 32
    ensures x < y <==> Bv5Of(x) < Bv5Of(y)
    ensures x <= y <==> Bv5Of(x) <= Bv5Of(y)
  {
    Bv5OfValue(x);
    Bv5OfValue(y);
    Compare5(Bv5Of(x), Bv5Of(y));
  }

  lemma Compare5(a: bv5, b: bv5)
    ensures a < b <==> a as int < b as int
    ensures a <= b <==> a as int <= b as int
  {
  }

  /** On 5-bit positions, the difference of two powers of two sets exactly
      the positions from the lower one up to, not including, the higher one. */
  lemma DifferenceOfPowers(lo: bv5, hi: bv5, i: bv5)
    requires lo < hi
    ensures BitAt(Span(lo, hi), i) <==> lo <= i < hi
  {
  }

  lemma Between(lo: int, i: int, hi: int)
    requires 0 <= lo < 32 && 0 <= i < 32 && 0 <= hi < 32
    ensures ShiftCount(lo) <= ShiftCount(i) < ShiftCount(hi) <==> lo <= i < hi
  {
    assert lo % 32 == lo && i % 32 == i && hi % 32 == hi;
    Bv5OfOrder(lo, i);
    Bv5OfOrder(i, hi);
  }

  /** The segment mask of a trip sets segment i exactly when the trip rides
      over it: departure - 1 <= i < arrival - 1. */
  lemma TargetSegment(departure: int, arrival: int, i: int)
    requires 1 <= departure < arrival <= 32 && 0 <= i < 32
    ensures Taken(Target(departure, arrival), i) <==> departure - 1 <= i < arrival - 1
  {
    var lo, hi, k := ShiftCount(departure - 1), ShiftCount(arrival - 1), ShiftCount(i);
    Between(departure - 1, departure - 1, arrival - 1);
    assert lo < hi;
    DifferenceOfPowers(lo, hi, k);
    Between(departure - 1, i, arrival - 1);
  }

  /** The same for all 32 segments at once: the mask of a trip holds the bits
      departure - 1 .. arrival - 2 and no other. */
  lemma TargetSegments(departure: int, arrival: int)
    requires 1 <= departure < arrival <= 32
    ensures forall i :: 0 <= i < 32 ==> (Taken(Target(departure, arrival), i) <==> departure - 1 <= i < arrival - 1)
  {
    forall i | 0 <= i < 32
      ensures Taken(Target(departure, arrival), i) <==> departure - 1 <= i < arrival - 1
    {
      TargetSegment(departure, arrival, i);
    }
  }

  /** A trip always takes at least one segment. */
  lemma TargetNonEmpty(departure: int, arrival: int)
    requires 1 <= departure < arrival <= 32
    ensures Target(departure, arrival) != 0
  {
    TargetSegment(departure, arrival, departure - 1);
  }

  /** Two trips that leave from the same station share their first segment. */
  lemma SameDepartureOverlap(departure: int, arrival1: int, arrival2: int)
    requires 1 <= departure < arrival1 <= 32
    requires departure < arrival2 <= 32
    ensures !Free(Target(departure, arrival1), Target(departure, arrival2))
  {
    TargetSegment(departure, arrival1, departure - 1);
    TargetSegment(departure, arrival2, departure - 1);
    var b := Shl1(departure - 1);
    assert Target(departure, arrival1) & b != 0 && Target(departure, arrival2) & b != 0;
    assert (Target(departure, arrival1) & Target(departure, arrival2)) & b ==
      (Target(departure, arrival1) & b) & (Target(departure, arrival2) & b);
  }

  /** Two masks with no bit in common never both hold a segment. */
  lemma DisjointMasksShareNoSegment(a: bv32, b: bv32, i: int)
    requires Free(a, b) && 0 <= i < 32
    ensures !(Taken(a, i) && Taken(b, i))
  {
    SingleBit(a, b, ShiftCount(i));
  }

  lemma SingleBit(a: bv32, b: bv32, k: bv5)
    requires Free(a, b)
    ensures !(BitAt(a, k) && BitAt(b, k))
  {
    assert (a & (1 << k)) & (b & (1 << k)) == (a & b) & (1 << k);
  }

  // Mask algebra. The bit-vector operators stay inside these small lemmas;
  // everywhere else masks are combined only through Free, Holds, Union and
  // Without, which keeps the solver's work on sequences and quantifiers
  // free of bit-level reasoning.

  lemma ClaimedIsTaken(m: bv32, t: bv32)
    requires t != 0
    ensures !Free(Union(m, t), t) && Holds(Union(m, t), t)
  {
  }

  lemma ClaimThenRelease(m: bv32, t: bv32)
    requires Free(m, t)
    ensures Without(Union(m, t), t) == m
  {
  }

  lemma UnionAvoids(a: bv32, b: bv32, c: bv32)
    requires Free(a, c) && Free(b, c)
    ensures Free(Union(a, b), c)
  {
  }

  lemma PartAvoids(whole: bv32, part: bv32, c: bv32)
    requires Holds(whole, part) && Free(whole, c)
    ensures Free(part, c)
  {
  }

  lemma RemoveFromUnion(a: bv32, rest: bv32, c: bv32)
    requires Free(a, c)
    ensures Union(a, Without(rest, c)) == Without(Union(a, rest), c)
  {
    WithoutDistributes(a, rest, c);
    WithoutAvoided(a, c);
  }

  lemma WithoutDistributes(a: bv32, b: bv32, c: bv32)
    ensures Without(Union(a, b), c) == Union(Without(a, c), Without(b, c))
  {
    assert (a | b) & !c == (a & !c) | (b & !c);
  }

  lemma WithoutAvoided(a: bv32, c: bv32)
    requires Free(a, c)
    ensures Without(a, c) == a
  {
  }

  lemma RemoveOwnPart(rest: bv32, c: bv32)
    requires Free(rest, c)
    ensures Union(0, rest) == Without(Union(c, rest), c)
  {
  }

  lemma SubsetOfUnion(a: bv32, rest: bv32, part: bv32)
    requires Holds(rest, part)
    ensures Holds(Union(a, rest), part)
  {
  }

  lemma HoldsOwn(a: bv32, rest: bv32)
    ensures Holds(Union(a, rest), a)
  {
  }

  lemma UnionAssoc(a: bv32, b: bv32, c: bv32)
    ensures Union(a, Union(b, c)) == Union(Union(a, b), c)
  {
  }

  lemma UnionWithZero(a: bv32)
    ensures Union(0, a) == a && Union(a, 0) == a
  {
  }

  lemma TakenUnion(a: bv32, b: bv32, i: int)
    requires 0 <= i < 32
    ensures Taken(Union(a, b), i) <==> Taken(a, i) || Taken(b, i)
  {
    OrBit(a, b, ShiftCount(i));
  }

  lemma OrBit(a: bv32, b: bv32, k: bv5)
    ensures BitAt(Union(a, b), k) <==> BitAt(a, k) || BitAt(b, k)
  {
    OrBitFrom(a, b, k);
    OrBitTo(a, b, k);
  }

  lemma OrBitFrom(a: bv32, b: bv32, k: bv5)
    ensures BitAt(Union(a, b), k) ==> BitAt(a, k) || BitAt(b, k)
  {
  }

  lemma OrBitTo(a: bv32, b: bv32, k: bv5)
    ensures BitAt(a, k) || BitAt(b, k) ==> BitAt(Union(a, b), k)
  {
  }

  lemma UnionComm(a: bv32, b: bv32)
    ensures Union(a, b) == Union(b, a)
  {
  }

  lemma FreeOfZero(a: bv32)
    ensures Free(a, 0) && Free(0, a)
  {
  }

  lemma FreeSymmetric(a: bv32, b: bv32)
    ensures Free(a, b) <==> Free(b, a)
  {
  }
}
