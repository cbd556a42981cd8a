/** Containedness of a segment in a map. */
module Containment {
  import opened Intervals
  import opened Segments

  predicate Linked<V(==)>(s: seq<Seg<V>>, first: nat, k: nat)
    requires first <= k && k + 1 < |s|
  {
    Touches(s[k].itv, s[k + 1].itv) && s[k + 1].val == s[first].val
  }

  /** From `first` to `past` every segment touches the next and holds the same values. */
  predicate RunOf<V(==)>(s: seq<Seg<V>>, first: nat, past: nat)
    requires first <= past < |s|
  {
    forall k {:trigger Linked(s, first, k)} :: first <= k < past ==> Linked(s, first, k)
  }

  /** Throughout the interval the map is defined and holds exactly `w`. */
  ghost predicate HoldsExactly<V(!new)>(s: seq<Seg<V>>, inter: Interval, w: set<V>) {
    forall x :: Has(inter, x) ==> Covers(s, x) && forall v :: Holds(s, x, v) <==> v in w
  }

  /** A run covers everything between its ends. */
  lemma RunCovers<V(!new)>(style: Style, s: seq<Seg<V>>, first: nat, past: nat, x: int) returns (k: nat)
    requires Form(style, s) && first <= past < |s| && RunOf(s, first, past)
    requires First(s[first].itv) <= x <= Last(s[past].itv)
    ensures first <= k <= past && Has(s[k].itv, x) && s[k].val == s[first].val
  {
    k := past;
    while x < First(s[k].itv)
      invariant first <= k <= past && x <= Last(s[k].itv)
      decreases k
    {
      assert Linked(s, first, k - 1);
      k := k - 1;
    }
    assert first < k ==> Linked(s, first, k - 1);
  }

  lemma RunHoldsExactly<V(!new)>(style: Style, s: seq<Seg<V>>, first: nat, past: nat, inter: Interval)
    requires Form(style, s) && first <= past < |s| && RunOf(s, first, past)
    requires First(s[first].itv) <= First(inter) && Last(inter) <= Last(s[past].itv)
    ensures HoldsExactly(s, inter, s[first].val)
  {
    forall x | Has(inter, x)
      ensures Covers(s, x) && forall v :: Holds(s, x, v) <==> v in s[first].val
    {
      var k := RunCovers(style, s, first, past, x);
      HoldsInside(style, s, k, x);
    }
  }

  /** Wherever the interval meets a segment, that segment holds `w`. */
  lemma ExactValue<V(!new)>(style: Style, s: seq<Seg<V>>, inter: Interval, w: set<V>, k: nat, x: int)
    requires Form(style, s) && HoldsExactly(s, inter, w) && k < |s| && Has(s[k].itv, x) && Has(inter, x)
    ensures s[k].val == w
  {
    HoldsInside(style, s, k, x);
    assert forall v :: v in s[k].val <==> Holds(s, x, v);
  }

  /** If the tick behind a segment is defined, the next segment begins there. */
  lemma NextTouches<V(!new)>(style: Style, s: seq<Seg<V>>, k: nat)
    requires Form(style, s) && k + 1 < |s| && Covers(s, Last(s[k].itv) + 1)
    ensures Touches(s[k].itv, s[k + 1].itv)
  {
    var x := Last(s[k].itv) + 1;
    var j :| 0 <= j < |s| && Has(s[j].itv, x);
    assert Apart(style, s[k], s[k + 1]);
    assert j < k ==> Apart(style, s[j], s[k]);
    assert k + 1 < j ==> Apart(style, s[k + 1], s[j]);
    IsGood(style, s, k);
    IsGood(style, s, k + 1);
  }

  /** The test that the map makes, on the overlapped block, is exact. */
  lemma BlockTestIsExact<V(!new)>(style: Style, s: seq<Seg<V>>, inter: Interval, w: set<V>)
    requires Form(style, s) && !IsEmpty(inter)
    ensures var lb, ub := LowerBound(s, inter), UpperBound(s, inter);
            HoldsExactly(s, inter, w) <==>
              && lb < ub && s[lb].val == w
              && ContainsInterval(Hull(s[lb].itv, s[ub - 1].itv), inter)
              && RunOf(s, lb, ub - 1)
  {
    var lb, ub := LowerBound(s, inter), UpperBound(s, inter);
    BoundsSplit(style, s, inter);
    EqualRangeIsOverlap(style, s, inter);
    if lb < ub {
      IsGood(style, s, lb);
      IsGood(style, s, ub - 1);
      assert lb < ub - 1 ==> Apart(style, s[lb], s[ub - 1]);
      if s[lb].val == w && ContainsInterval(Hull(s[lb].itv, s[ub - 1].itv), inter) && RunOf(s, lb, ub - 1) {
        RunHoldsExactly(style, s, lb, ub - 1, inter);
      }
    }
    if HoldsExactly(s, inter, w) {
      ExactImpliesTest(style, s, inter, w);
    }
  }

  lemma ExactImpliesTest<V(!new)>(style: Style, s: seq<Seg<V>>, inter: Interval, w: set<V>)
    requires Form(style, s) && !IsEmpty(inter) && HoldsExactly(s, inter, w)
    ensures var lb, ub := LowerBound(s, inter), UpperBound(s, inter);
            && lb < ub && s[lb].val == w
            && ContainsInterval(Hull(s[lb].itv, s[ub - 1].itv), inter)
            && RunOf(s, lb, ub - 1)
  {
    var lb, ub := LowerBound(s, inter), UpperBound(s, inter);
    BlockSpans(style, s, inter, w);
    BlockValue(style, s, inter, w, lb);
    forall k | lb <= k < ub - 1
      ensures Linked(s, lb, k)
    {
      BlockValue(style, s, inter, w, k + 1);
      BlockTouches(style, s, inter, w, k);
    }
  }

  lemma BlockSpans<V(!new)>(style: Style, s: seq<Seg<V>>, inter: Interval, w: set<V>)
    requires Form(style, s) && !IsEmpty(inter) && HoldsExactly(s, inter, w)
    ensures var lb, ub := LowerBound(s, inter), UpperBound(s, inter);
            lb < ub && ContainsInterval(Hull(s[lb].itv, s[ub - 1].itv), inter)
  {
    var lb, ub := LowerBound(s, inter), UpperBound(s, inter);
    assert Has(inter, First(inter)) && Has(inter, Last(inter));
    var i :| 0 <= i < |s| && Has(s[i].itv, First(inter));
    var j :| 0 <= j < |s| && Has(s[j].itv, Last(inter));
    BlockEndsAt(style, s, inter, i, j);
    IsGood(style, s, i);
    IsGood(style, s, j);
    assert i < j ==> Apart(style, s[i], s[j]);
  }

  /** The segments at the two ends of the interval are the ends of the overlapped block. */
  lemma BlockEndsAt<V(!new)>(style: Style, s: seq<Seg<V>>, inter: Interval, i: nat, j: nat)
    requires Form(style, s) && !IsEmpty(inter) && i < |s| && j < |s|
    requires Has(s[i].itv, First(inter)) && Has(s[j].itv, Last(inter))
    ensures LowerBound(s, inter) == i <= j && UpperBound(s, inter) == j + 1
  {
    BoundsSplit(style, s, inter);
    assert 0 < i ==> Apart(style, s[i - 1], s[i]);
    assert j + 1 < |s| ==> Apart(style, s[j], s[j + 1]);
    assert LowerBound(s, inter) == i;
    assert UpperBound(s, inter) == j + 1;
    EqualRangeIsOverlap(style, s, inter);
    assert Intersects(s[i].itv, inter);
  }

  lemma BlockValue<V(!new)>(style: Style, s: seq<Seg<V>>, inter: Interval, w: set<V>, k: nat)
    requires Form(style, s) && !IsEmpty(inter) && HoldsExactly(s, inter, w)
    requires LowerBound(s, inter) <= k < UpperBound(s, inter)
    ensures s[k].val == w
  {
    BoundsSplit(style, s, inter);
    IsGood(style, s, k);
    ExactValue(style, s, inter, w, k, if First(s[k].itv) < First(inter) then First(inter) else First(s[k].itv));
  }

  lemma BlockTouches<V(!new)>(style: Style, s: seq<Seg<V>>, inter: Interval, w: set<V>, k: nat)
    requires Form(style, s) && !IsEmpty(inter) && HoldsExactly(s, inter, w)
    requires LowerBound(s, inter) <= k && k + 1 < UpperBound(s, inter)
    ensures Touches(s[k].itv, s[k + 1].itv)
  {
    BoundsSplit(style, s, inter);
    assert Apart(style, s[k], s[k + 1]);
    assert Has(inter, Last(s[k].itv) + 1);
    NextTouches(style, s, k);
  }

  /** Looking a tick up finds the segment that covers it, if there is one. */
  lemma FindIsExact<V(!new)>(style: Style, s: seq<Seg<V>>, x: int)
    requires Form(style, s)
    ensures var probe := Singleton(x);
            var it := LowerBound(s, probe);
            if it < |s| && !ExclusiveLess(probe, s[it].itv) then Has(s[it].itv, x)
            else !Covers(s, x) && forall v :: !Holds(s, x, v)
  {
    var probe := Singleton(x);
    BoundsSplit(style, s, probe);
    var it := LowerBound(s, probe);
    forall k | it <= k < |s|
      ensures First(s[it].itv) <= First(s[k].itv) && !IsEmpty(s[it].itv)
    {
      IsGood(style, s, it);
      assert it < k ==> Apart(style, s[it], s[k]);
    }
    CoversHolds(style, s, x);
  }
}
