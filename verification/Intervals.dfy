/** The bit mask that says which ends of an interval are closed: bit 1 is the
    left end, bit 0 the right end. Only the masks 0 to 3 occur at run time. */
module IntervalBounds {

  const RIGHT_BIT: bv8 := 1
  const LEFT_BIT: bv8 := 2

  function LeftBit(bits: bv8): bv8 { bits & LEFT_BIT }

  function RightBit(bits: bv8): bv8 { bits & RIGHT_BIT }

  function ReverseLeft(bits: bv8): bv8 { (!bits >> 1) & RIGHT_BIT }

  function ReverseRight(bits: bv8): bv8 { (!bits << 1) & LEFT_BIT }

  /** The two ends as flags: the form the interval algebra below works with. */
  datatype Bounds = Bounds(leftClosed: bool, rightClosed: bool) {
    function Bits(): bv8 {
      (if leftClosed then LEFT_BIT else 0) | (if rightClosed then RIGHT_BIT else 0)
    }
  }

  const OPEN := Bounds(false, false)
  const LEFT_OPEN := Bounds(false, true)
  const RIGHT_OPEN := Bounds(true, false)
  const CLOSED := Bounds(true, true)

  /** The mask operations mean what the flags say: a reversed left end is a right
      end that is closed exactly when the left end was open, and the other way
      round; and gluing a left bit to a right bit keeps both. */
  lemma MasksAreFlags(a: Bounds, b: Bounds)
    ensures a.Bits() < 4
    ensures a.Bits() == b.Bits() <==> a == b
    ensures ReverseLeft(a.Bits()) == Bounds(false, !a.leftClosed).Bits()
    ensures ReverseRight(a.Bits()) == Bounds(!a.rightClosed, false).Bits()
    ensures LeftBit(a.Bits()) | RightBit(b.Bits()) == Bounds(a.leftClosed, b.rightClosed).Bits()
    ensures LeftBit(ReverseRight(a.Bits())) | RightBit(ReverseLeft(b.Bits()))
         == Bounds(!a.rightClosed, !b.leftClosed).Bits()
  {
    var flags := [false, true];
    assert a.leftClosed in flags && a.rightClosed in flags;
    assert b.leftClosed in flags && b.rightClosed in flags;
  }
}

/** Discrete intervals over integer ticks whose ends may each be open or closed. */
module Intervals {
  import opened IntervalBounds

  datatype Interval = Interval(lo: int, up: int, bounds: Bounds)

  /** An end of an interval together with whether it is closed. */
  datatype Bounded = Bounded(value: int, closed: bool)

  const EMPTY_INTERVAL := Interval(0, 0, RIGHT_OPEN)

  function RightOpen(lo: int, up: int): Interval { Interval(lo, up, RIGHT_OPEN) }

  function Singleton(x: int): Interval { Interval(x, x, CLOSED) }

  function ConstructBounded(lo: Bounded, up: Bounded): Interval {
    Interval(lo.value, up.value, Bounds(lo.closed, up.closed))
  }

  predicate IsRightOpen(i: Interval) { i.bounds == RIGHT_OPEN }

  function First(i: Interval): int { if i.bounds.leftClosed then i.lo else i.lo + 1 }

  function Last(i: Interval): int { if i.bounds.rightClosed then i.up else i.up - 1 }

  predicate IsEmpty(i: Interval)
    ensures IsEmpty(i) <==> Last(i) < First(i)
  {
    if i.bounds == CLOSED then i.up < i.lo
    else if i.bounds == OPEN then i.up <= i.lo || i.up <= i.lo + 1
    else i.up <= i.lo
  }

  /** Does the interval contain the tick? */
  predicate Has(i: Interval, x: int)
    ensures Has(i, x) <==> First(i) <= x <= Last(i)
  {
    && (if i.bounds.leftClosed then i.lo <= x else i.lo < x)
    && (if i.bounds.rightClosed then x <= i.up else x < i.up)
  }

  /** Which ticks the four kinds of intervals have, and when right-open ones meet. */
  lemma TicksByBounds(lo: int, up: int, other: int, end: int, x: int)
    ensures Has(Interval(lo, up, OPEN), x) <==> lo < x < up
    ensures Has(Interval(lo, up, LEFT_OPEN), x) <==> lo < x <= up
    ensures Has(Interval(lo, up, RIGHT_OPEN), x) <==> lo <= x < up
    ensures Has(Interval(lo, up, CLOSED), x) <==> lo <= x <= up
    ensures Intersects(RightOpen(lo, up), RightOpen(other, end)) <==> Max(lo, other) < Min(up, end)
  {
  }

  function BoundedLower(i: Interval): Bounded { Bounded(i.lo, i.bounds.leftClosed) }

  function BoundedUpper(i: Interval): Bounded { Bounded(i.up, i.bounds.rightClosed) }

  function ReverseBoundedLower(i: Interval): Bounded { Bounded(i.lo, !i.bounds.leftClosed) }

  function ReverseBoundedUpper(i: Interval): Bounded { Bounded(i.up, !i.bounds.rightClosed) }

  predicate ExclusiveLess(left: Interval, right: Interval) {
    IsEmpty(left) || IsEmpty(right) || Last(left) < First(right)
  }

  predicate LowerLess(left: Interval, right: Interval) { First(left) < First(right) }

  predicate UpperLess(left: Interval, right: Interval) { Last(left) < Last(right) }

  /** Equality of intervals looks at the ticks only, never at the kind of bounds. */
  predicate Equal(left: Interval, right: Interval) {
    (IsEmpty(left) && IsEmpty(right)) || (First(left) == First(right) && Last(left) == Last(right))
  }

  predicate ContainsInterval(super: Interval, sub: Interval) {
    IsEmpty(sub) || (First(super) <= First(sub) && Last(sub) <= Last(super))
  }

  predicate Touches(left: Interval, right: Interval) { Last(left) + 1 == First(right) }

  predicate Intersects(left: Interval, right: Interval) {
    !(IsEmpty(left) || IsEmpty(right) || ExclusiveLess(left, right) || ExclusiveLess(right, left))
  }

  function Min(a: int, b: int): int { if a < b then a else b }

  function Max(a: int, b: int): int { if a < b then b else a }

  /** Number of ticks of an interval. */
  function Cardinality(i: Interval): nat {
    if IsEmpty(i) then 0
    else (if i.bounds.rightClosed then i.up + 1 else i.up) - First(i)
  }

  function Hull(left: Interval, right: Interval): Interval {
    if IsEmpty(right) then left
    else if IsEmpty(left) then right
    else ConstructBounded(
           if LowerLess(left, right) then BoundedLower(left) else BoundedLower(right),
           if UpperLess(left, right) then BoundedUpper(right) else BoundedUpper(left))
  }

  /** The part of `right` that lies right of `minuend`. */
  function LeftSubtract(right: Interval, minuend: Interval): Interval {
    if ExclusiveLess(minuend, right) then right
    else ConstructBounded(ReverseBoundedUpper(minuend), BoundedUpper(right))
  }

  /** The part of `left` that lies left of `minuend`. */
  function RightSubtract(left: Interval, minuend: Interval): Interval {
    if ExclusiveLess(left, minuend) then left
    else ConstructBounded(BoundedLower(left), ReverseBoundedLower(minuend))
  }

  function Intersection(left: Interval, right: Interval): Interval {
    if IsEmpty(left) || IsEmpty(right) then EMPTY_INTERVAL
    else ConstructBounded(
           if LowerLess(left, right) then BoundedLower(right) else BoundedLower(left),
           if UpperLess(left, right) then BoundedUpper(left) else BoundedUpper(right))
  }

  /** `&` is set intersection, whatever the kinds of bounds. */
  lemma IntersectionIsPointwise(left: Interval, right: Interval, x: int)
    ensures Has(Intersection(left, right), x) <==> Has(left, x) && Has(right, x)
    ensures IsRightOpen(left) && IsRightOpen(right) ==> IsRightOpen(Intersection(left, right))
  {
  }

  /** Subtracting on the left keeps exactly the ticks of `right` above every tick of
      the minuend; an empty minuend takes nothing away. */
  lemma LeftSubtractIsPointwise(right: Interval, minuend: Interval, x: int)
    ensures Has(LeftSubtract(right, minuend), x)
       <==> Has(right, x) && forall y :: Has(minuend, y) ==> y < x
    ensures IsRightOpen(right) && IsRightOpen(minuend) ==> IsRightOpen(LeftSubtract(right, minuend))
  {
    if !IsEmpty(minuend) {
      assert Has(minuend, Last(minuend));
    }
  }

  /** The mirror image of LeftSubtractIsPointwise. */
  lemma RightSubtractIsPointwise(left: Interval, minuend: Interval, x: int)
    ensures Has(RightSubtract(left, minuend), x)
       <==> Has(left, x) && forall y :: Has(minuend, y) ==> x < y
    ensures IsRightOpen(left) && IsRightOpen(minuend) ==> IsRightOpen(RightSubtract(left, minuend))
  {
    if !IsEmpty(minuend) {
      assert Has(minuend, First(minuend));
    }
  }

  /** The hull is the least interval around both operands, and it adds no tick
      when the operands touch or share a tick. */
  lemma HullIsLeast(left: Interval, right: Interval, x: int)
    ensures Has(left, x) || Has(right, x) ==> Has(Hull(left, right), x)
    ensures Has(Hull(left, right), x) ==>
              exists a, b :: (Has(left, a) || Has(right, a)) && (Has(left, b) || Has(right, b)) && a <= x <= b
    ensures Touches(left, right) || Touches(right, left) || Intersects(left, right) ==>
              (Has(Hull(left, right), x) <==> Has(left, x) || Has(right, x))
    ensures IsRightOpen(left) && IsRightOpen(right) ==> IsRightOpen(Hull(left, right))
  {
    if Has(Hull(left, right), x) {
      var h := Hull(left, right);
      assert Has(left, First(h)) || Has(right, First(h));
      assert Has(left, Last(h)) || Has(right, Last(h));
    }
  }

  /** Of two intervals in order the hull takes the lower end of one and the upper end of
      the other, whichever way round they are given. */
  lemma HullEnds(left: Interval, right: Interval)
    requires !IsEmpty(left) && !IsEmpty(right) && First(left) < First(right) && Last(left) < Last(right)
    ensures Hull(left, right) == ConstructBounded(BoundedLower(left), BoundedUpper(right)) == Hull(right, left)
  {
  }

  /** The comparisons of two intervals, read tick by tick. */
  lemma ComparisonsArePointwise(left: Interval, right: Interval)
    ensures Equal(left, right) <==> forall x :: Has(left, x) <==> Has(right, x)
    ensures ContainsInterval(left, right) <==> forall x :: Has(right, x) ==> Has(left, x)
    ensures Intersects(left, right) <==> exists x :: Has(left, x) && Has(right, x)
    ensures ExclusiveLess(left, right) <==> forall x, y :: Has(left, x) && Has(right, y) ==> x < y
    ensures IsEmpty(left) <==> forall x :: !Has(left, x)
    ensures !IsEmpty(left) && !IsEmpty(right) ==>
              (Touches(left, right) <==>
                 && ExclusiveLess(left, right)
                 && forall x :: First(left) <= x <= Last(right) ==> Has(left, x) || Has(right, x))
  {
    assert IsEmpty(left) || (Has(left, First(left)) && Has(left, Last(left)));
    assert IsEmpty(right) || (Has(right, First(right)) && Has(right, Last(right)));
    if !IsEmpty(left) && !IsEmpty(right) && Last(left) + 1 < First(right) {
      assert !Has(left, Last(left) + 1) && !Has(right, Last(left) + 1);
    }
  }
}
