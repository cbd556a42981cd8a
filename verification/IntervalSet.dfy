/** The joining interval set. Its keys are kept as segments that hold the unit value,
    so that order, lookup and meaning are those of the maps. */
module IntervalSets {
  import opened Intervals
  import opened Segments
  import opened Addition

  function Key(i: Interval): Seg<()> { Seg(i, {()}) }

  ghost predicate UnitOnly(s: seq<Seg<()>>) {
    forall k {:trigger s[k]} :: 0 <= k < |s| ==> s[k].val == {()}
  }

  // ----- what the operations leave behind -----

  /** The addend swallows the block of keys it overlaps. */
  function JoinedUnder(b: seq<Seg<()>>, addend: Interval): Seg<()>
    requires b != []
  {
    Key(Hull(Hull(RightSubtract(b[0].itv, addend), addend), LeftSubtract(b[|b| - 1].itv, addend)))
  }

  function SetAdded(style: Style, s: seq<Seg<()>>, addend: Interval): seq<Seg<()>> {
    if IsEmpty(addend) then s
    else
      var lb, ub := LowerBound(s, addend), UpperBound(s, addend);
      var key := if ub <= lb then Key(addend) else JoinedUnder(s[lb..ub], addend);
      Glue(style, Push(style, s[..lb], key), s[if ub <= lb then lb else ub..])
  }

  lemma JoinedEnds(style: Style, first: Interval, last: Interval, addend: Interval)
    requires !IsEmpty(first) && !IsEmpty(last) && !IsEmpty(addend)
    requires Fits(style, first) && Fits(style, last) && Fits(style, addend)
    requires Intersects(first, addend) && Intersects(last, addend)
    ensures var r := Hull(Hull(RightSubtract(first, addend), addend), LeftSubtract(last, addend));
            && !IsEmpty(r) && Fits(style, r)
            && First(r) == (if First(first) < First(addend) then First(first) else First(addend))
            && Last(r) == (if Last(addend) < Last(last) then Last(last) else Last(addend))
  {
  }

  lemma JoinedUnderCorrect(style: Style, b: seq<Seg<()>>, addend: Interval)
    requires Form(style, b) && UnitOnly(b) && b != [] && !IsEmpty(addend) && Fits(style, addend)
    requires Intersects(b[0].itv, addend) && Intersects(b[|b| - 1].itv, addend)
    ensures var r := JoinedUnder(b, addend);
            && Good(style, r)
            && First(r.itv) == (if First(b[0].itv) < First(addend) then First(b[0].itv) else First(addend))
            && Last(r.itv) == (if Last(addend) < Last(b[|b| - 1].itv) then Last(b[|b| - 1].itv) else Last(addend))
    ensures forall x :: Holds(b, x, ()) || Has(addend, x) <==> Has(JoinedUnder(b, addend).itv, x)
  {
    var n, r := |b| - 1, JoinedUnder(b, addend);
    IsGood(style, b, 0);
    IsGood(style, b, n);
    JoinedEnds(style, b[0].itv, b[n].itv, addend);
    HoldsWithin(style, b);
    forall x | Has(r.itv, x) && !Has(addend, x)
      ensures Holds(b, x, ())
    {
      assert x < First(addend) ==> At(b[0], x, ());
      assert Last(addend) < x ==> At(b[n], x, ());
      HoldsSome(b, x, ());
    }
  }

  lemma UnitPush(style: Style, s: seq<Seg<()>>, key: Seg<()>, q: seq<Seg<()>>)
    requires UnitOnly(s) && UnitOnly(q) && key.val == {()}
    ensures UnitOnly(Glue(style, Push(style, s, key), q))
  {
    assert UnitOnly(Push(style, s, key));
  }

  /** Adding an interval leaves a well-formed set that covers its ticks besides the old ones. */
  lemma SetAddedCorrect(style: Style, s: seq<Seg<()>>, addend: Interval)
    requires Form(style, s) && UnitOnly(s) && Fits(style, addend)
    ensures Form(style, SetAdded(style, s, addend)) && UnitOnly(SetAdded(style, s, addend))
    ensures forall x :: Holds(SetAdded(style, s, addend), x, ()) <==> Holds(s, x, ()) || Has(addend, x)
  {
    if !IsEmpty(addend) {
      var lb, ub := LowerBound(s, addend), UpperBound(s, addend);
      BlockReady(style, s, addend);
      if lb == ub {
        KeyBetween(style, s[..lb], Key(addend), s[lb..]);
      } else {
        JoinedBetween(style, s[..lb], s[lb..ub], s[ub..], addend);
      }
    }
  }

  lemma JoinedBetween(style: Style, a: seq<Seg<()>>, b: seq<Seg<()>>, q: seq<Seg<()>>, addend: Interval)
    requires BlockPre(style, a, b, q, addend) && UnitOnly(a) && UnitOnly(b) && UnitOnly(q)
    ensures var r := Glue(style, Push(style, a, JoinedUnder(b, addend)), q);
            && Form(style, r) && UnitOnly(r)
            && forall x :: Holds(r, x, ()) <==> Holds(a, x, ()) || Holds(b, x, ()) || Holds(q, x, ()) || Has(addend, x)
  {
    JoinedUnderCorrect(style, b, addend);
    KeyBetween(style, a, JoinedUnder(b, addend), q);
  }

  lemma KeyBetween(style: Style, a: seq<Seg<()>>, key: Seg<()>, q: seq<Seg<()>>)
    requires Form(style, a) && Form(style, q) && UnitOnly(a) && UnitOnly(q) && Good(style, key) && key.val == {()}
    requires EndsBefore(a, First(key.itv)) && StartsAfter(q, Last(key.itv))
    ensures Form(style, Glue(style, Push(style, a, key), q)) && UnitOnly(Glue(style, Push(style, a, key), q))
    ensures forall x :: Holds(Glue(style, Push(style, a, key), q), x, ()) <==>
              Holds(a, x, ()) || Has(key.itv, x) || Holds(q, x, ())
  {
    PushCorrect(style, a, key);
    GlueCorrect(style, Push(style, a, key), q);
    UnitPush(style, a, key, q);
  }

  /** In a set a tick is covered exactly when the unit value is held there. */
  lemma UnitCovers(style: Style, s: seq<Seg<()>>)
    requires Form(style, s)
    ensures forall x :: Covers(s, x) <==> Holds(s, x, ())
  {
    forall x
      ensures Covers(s, x) <==> Holds(s, x, ())
    {
      CoversHolds(style, s, x);
      if v: () :| Holds(s, x, v) {
        assert v == ();
      }
    }
  }
}
