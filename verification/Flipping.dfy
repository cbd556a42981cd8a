/** Symmetric difference: what one turn of the flip loop may rely on, and that flipping
    twice restores the map. */
module Flipping {
  import opened Intervals
  import opened Segments
  import opened Addition
  import opened Canonical

  function SymmetricDifference<V(==)>(a: set<V>, b: set<V>): set<V> { (a - b) + (b - a) }

  /** The loop has dealt with the overlapped segments of `s` before position `at`, and
      `span` is the part of the interval behind them. */
  ghost predicate Reached<V>(style: Style, s: seq<Seg<V>>, inter: Interval, at: nat, span: Interval) {
    && LowerBound(s, inter) <= at <= UpperBound(s, inter) <= |s|
    && Fits(style, span) && Last(span) == Last(inter) && First(inter) <= First(span)
    && First(span) == (if at == LowerBound(s, inter) then First(inter) else Last(s[at - 1].itv) + 1)
  }

  lemma ReachedStart<V(!new)>(style: Style, s: seq<Seg<V>>, inter: Interval)
    requires Form(style, s) && Fits(style, inter) && (s != [] ==> !IsEmpty(inter))
    ensures Reached(style, s, inter, LowerBound(s, inter), inter)
  {
    if s != [] {
      EqualRangeIsOverlap(style, s, inter);
    }
  }

  /** One turn: the gap in front of the segment is undefined, the common part is the
      segment's, and the rest of the interval lies behind both. */
  lemma ReachedNext<V(!new)>(style: Style, s: seq<Seg<V>>, inter: Interval, at: nat, span: Interval)
    requires Form(style, s) && !IsEmpty(inter) && Fits(style, inter) && Reached(style, s, inter, at, span)
    requires at < UpperBound(s, inter)
    ensures var covered := s[at].itv;
            && Reached(style, s, inter, at + 1, LeftSubtract(span, covered))
            && First(span) <= Last(covered) && First(covered) <= Last(span)
            && Fits(style, Intersection(span, covered)) && Fits(style, RightSubtract(span, covered))
    ensures forall x :: Has(Intersection(span, s[at].itv), x) <==> Has(s[at].itv, x) && First(span) <= x <= Last(span)
    ensures forall x :: Has(RightSubtract(span, s[at].itv), x) <==> First(span) <= x < First(s[at].itv)
    ensures forall x :: First(span) <= x <= Last(s[at].itv) ==> (Covers(s, x) <==> Has(s[at].itv, x))
  {
    BoundsSplit(style, s, inter);
    IsGood(style, s, at);
    assert 0 < at ==> Apart(style, s[at - 1], s[at]);
    forall x | First(span) <= x <= Last(s[at].itv)
      ensures Covers(s, x) <==> Has(s[at].itv, x)
    {
      NoneBefore(style, s, inter, at, span, x);
      NoneAfter(style, s, at, x);
    }
  }

  /** No segment that the loop has passed reaches into the rest of the interval. */
  lemma NoneBefore<V(!new)>(style: Style, s: seq<Seg<V>>, inter: Interval, at: nat, span: Interval, x: int)
    requires Form(style, s) && Reached(style, s, inter, at, span) && First(span) <= x
    ensures forall k :: 0 <= k < at ==> !Has(s[k].itv, x)
  {
    BoundsSplit(style, s, inter);
    forall k | 0 <= k < at
      ensures !Has(s[k].itv, x)
    {
      assert k < at - 1 ==> Apart(style, s[k], s[at - 1]);
      IsGood(style, s, at - 1);
    }
  }

  lemma NoneAfter<V(!new)>(style: Style, s: seq<Seg<V>>, at: nat, x: int)
    requires Form(style, s) && at < |s| && x <= Last(s[at].itv)
    ensures forall k :: at < k < |s| ==> !Has(s[k].itv, x)
  {
    forall k | at < k < |s|
      ensures !Has(s[k].itv, x)
    {
      assert Apart(style, s[at], s[k]);
    }
  }

  /** Behind the last overlapped segment the rest of the interval is undefined. */
  lemma ReachedEnd<V(!new)>(style: Style, s: seq<Seg<V>>, inter: Interval, span: Interval)
    requires Form(style, s) && Reached(style, s, inter, UpperBound(s, inter), span)
    requires s != [] ==> !IsEmpty(inter)
    ensures forall x :: Has(span, x) ==> !Covers(s, x)
    ensures forall x :: Has(span, x) <==> First(span) <= x <= Last(inter)
  {
    BoundsSplit(style, s, inter);
    forall x | Has(span, x)
      ensures !Covers(s, x)
    {
      NoneBefore(style, s, inter, UpperBound(s, inter), span, x);
    }
  }

  /** A gap in front of a segment overlaps nothing. */
  lemma GapIsFree<V(!new)>(style: Style, s: seq<Seg<V>>, k: nat, gap: Interval)
    requires Form(style, s) && k < |s| && !IsEmpty(gap)
    requires Last(gap) < First(s[k].itv) && EndsBefore(s[..k], First(gap))
    ensures LowerBound(s, gap) == k && UpperBound(s, gap) == k
  {
    BoundsSplit(style, s, gap);
    IsGood(style, s, k);
    if 0 < k {
      IsGood(style, s, k - 1);
      assert s[..k][k - 1] == s[k - 1];
    }
  }

  /** Adding in front of a segment, where nothing is, leaves everything behind that
      segment in place. */
  lemma GapKeepsTail<V(!new)>(style: Style, s: seq<Seg<V>>, k: nat, gap: Interval, w: set<V>)
    requires Form(style, s) && k < |s| && Fits(style, gap)
    requires Has(gap, First(gap)) ==> Last(gap) < First(s[k].itv) && EndsBefore(s[..k], First(gap))
    ensures var r := Added(style, s, gap, w);
            && |s| - k - 1 <= |r| && r[|r| - (|s| - k - 1)..] == s[k + 1..]
            && EndsBefore(r[..|r| - (|s| - k - 1)], Last(s[k].itv) + 1)
  {
    if !IsEmpty(gap) && w != {} {
      var filled := Push(style, s[..k], Seg(gap, w));
      var p, q := Push(style, filled, s[k]), s[k + 1..];
      GapIsFree(style, s, k, gap);
      assert EndsBefore(p, Last(s[k].itv) + 1) by {
        FormSplit(style, s, k);
        IsGood(style, s, k);
        PushCorrect(style, s[..k], Seg(gap, w));
        PushCorrect(style, filled, s[k]);
      }
      assert Added(style, s, gap, w) == p + q by {
        assert s[k..][0] == s[k] && s[k..][1..] == q;
      }
      assert (p + q)[|p|..] == q && (p + q)[..|p|] == p;
    } else {
      IsGood(style, s, k);
      assert s[..k + 1][k] == s[k];
    }
  }

  lemma NothingHeld<V(!new)>(style: Style, s: seq<Seg<V>>)
    requires Form(style, s)
    ensures (forall x, v :: !Holds(s, x, v)) ==> s == []
  {
    if s != [] {
      IsGood(style, s, 0);
      var v :| v in s[0].val;
      HoldsInside(style, s, 0, First(s[0].itv));
      assert Holds(s, First(s[0].itv), v);
    }
  }

  /** The symmetric difference taken twice is what there was, and canonical maps with the
      same meaning are the same. */
  lemma XorTwice<V(!new)>(style: Style, s: seq<Seg<V>>, once: seq<Seg<V>>, twice: seq<Seg<V>>,
                          inter: Interval, w: set<V>)
    requires Form(style, s) && Form(style, twice)
    requires forall x, v :: Holds(once, x, v) <==> (Holds(s, x, v) != On(First(inter), Last(inter), w, x, v))
    requires forall x, v :: Holds(twice, x, v) <==> (Holds(once, x, v) != On(First(inter), Last(inter), w, x, v))
    ensures SameMeaning(twice, s)
    ensures style.joining ==> Same(twice, s)
    ensures style.joining && style.rightOpen ==> twice == s
  {
    if style.joining {
      Unique(style, style, twice, s);
    }
  }

  /** The ticks of the interval that the loop has dealt with. */
  ghost predicate Done(inter: Interval, span: Interval, x: int) { Has(inter, x) && x < First(span) }

  /** What the three containers hold once the loop has reached `span`: the map itself
      with the gaps filled, the ticks to erase, and what to put back there. */
  ghost predicate FlipState<V(!new)>(s: seq<Seg<V>>, inter: Interval, span: Interval, w: set<V>,
                                     now: seq<Seg<V>>, eraser: seq<Seg<()>>, section: seq<Seg<V>>) {
    && (forall x, v :: Holds(now, x, v) <==> Holds(s, x, v) || (Done(inter, span, x) && v in w && !Covers(s, x)))
    && (forall x :: Holds(eraser, x, ()) <==> Done(inter, span, x) && Covers(s, x))
    && (forall x, v :: Holds(section, x, v) <==> Done(inter, span, x) && Covers(s, x) && Holds(s, x, v) != (v in w))
  }

  lemma FlipStep<V(!new)>(style: Style, s: seq<Seg<V>>, inter: Interval, at: nat, span: Interval, w: set<V>,
                          now: seq<Seg<V>>, eraser: seq<Seg<()>>, section: seq<Seg<V>>,
                          now': seq<Seg<V>>, eraser': seq<Seg<()>>, section': seq<Seg<V>>)
    requires Form(style, s) && !IsEmpty(inter) && Fits(style, inter) && Reached(style, s, inter, at, span)
    requires at < UpperBound(s, inter) && FlipState(s, inter, span, w, now, eraser, section)
    requires forall x, v :: Holds(now', x, v) <==>
               Holds(now, x, v) || (Has(RightSubtract(span, s[at].itv), x) && v in w)
    requires forall x :: Holds(eraser', x, ()) <==> Holds(eraser, x, ()) || Has(Intersection(span, s[at].itv), x)
    requires forall x, v :: Holds(section', x, v) <==>
               Holds(section, x, v) || (Has(Intersection(span, s[at].itv), x) && v in SymmetricDifference(w, s[at].val))
    ensures FlipState(s, inter, LeftSubtract(span, s[at].itv), w, now', eraser', section')
  {
    var covered, rest := s[at].itv, LeftSubtract(span, s[at].itv);
    ReachedNext(style, s, inter, at, span);
    forall x
      ensures Has(RightSubtract(span, covered), x) && Has(inter, x) <==>
                Done(inter, rest, x) && !Done(inter, span, x) && !Covers(s, x)
      ensures Has(RightSubtract(span, covered), x) ==> Has(inter, x)
      ensures Has(Intersection(span, covered), x) <==> Done(inter, rest, x) && !Done(inter, span, x) && Covers(s, x)
    {
    }
    forall x, v | Has(covered, x)
      ensures Holds(s, x, v) <==> v in s[at].val
    {
      HoldsInside(style, s, at, x);
    }
  }

  /** After the loop: fill behind the last segment, erase, put back. */
  lemma FlipFinish<V(!new)>(style: Style, s: seq<Seg<V>>, inter: Interval, span: Interval, w: set<V>,
                            now: seq<Seg<V>>, eraser: seq<Seg<()>>, section: seq<Seg<V>>, filled: seq<Seg<V>>,
                            erased: seq<Seg<V>>, result: seq<Seg<V>>)
    requires Form(style, s) && Reached(style, s, inter, UpperBound(s, inter), span)
    requires s != [] ==> !IsEmpty(inter)
    requires FlipState(s, inter, span, w, now, eraser, section)
    requires forall x, v :: Holds(filled, x, v) <==> Holds(now, x, v) || On(First(span), Last(span), w, x, v)
    requires forall x, v :: Holds(erased, x, v) <==> Holds(filled, x, v) && !Holds(eraser, x, ())
    requires forall x, v :: Holds(result, x, v) <==> Holds(erased, x, v) || Holds(section, x, v)
    ensures forall x, v :: Holds(result, x, v) <==> Holds(s, x, v) != On(First(inter), Last(inter), w, x, v)
  {
    ReachedEnd(style, s, inter, span);
    forall x, v
      ensures Holds(result, x, v) <==> Holds(s, x, v) != On(First(inter), Last(inter), w, x, v)
    {
      HoldsSome(s, x, v);
      assert Has(inter, x) <==> Done(inter, span, x) || Has(span, x);
    }
  }
}
