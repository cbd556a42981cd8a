/** What erasing an interval leaves behind, and the proof that it restricts the map to
    the ticks outside the interval. */
module Erasure {
  import opened Intervals
  import opened Segments
  import opened Addition

  /** The part of a segment that survives on one side, if any. */
  function Residual<V>(i: Interval, val: set<V>): seq<Seg<V>> {
    if IsEmpty(i) then [] else [Seg(i, val)]
  }

  function ErasedFromBlock<V>(a: seq<Seg<V>>, b: seq<Seg<V>>, q: seq<Seg<V>>, inter: Interval): seq<Seg<V>>
    requires b != []
  {
    var first, last := b[0], b[|b| - 1];
    (a + Residual(RightSubtract(first.itv, inter), first.val))
    + (Residual(LeftSubtract(last.itv, inter), last.val) + q)
  }

  function Erased<V>(s: seq<Seg<V>>, inter: Interval): seq<Seg<V>> {
    if IsEmpty(inter) then s
    else
      var lb, ub := LowerBound(s, inter), UpperBound(s, inter);
      if ub <= lb then s else ErasedFromBlock(s[..lb], s[lb..ub], s[ub..], inter)
  }

  lemma ErasedFromBlockCorrect<V(!new)>(style: Style, a: seq<Seg<V>>, b: seq<Seg<V>>, q: seq<Seg<V>>, inter: Interval)
    requires BlockPre(style, a, b, q, inter)
    ensures Form(style, ErasedFromBlock(a, b, q, inter))
    ensures forall x, v :: Holds(ErasedFromBlock(a, b, q, inter), x, v) <==>
              (Holds(a, x, v) || Holds(b, x, v) || Holds(q, x, v)) && !Has(inter, x)
  {
    var n := |b| - 1;
    var left := Residual(RightSubtract(b[0].itv, inter), b[0].val);
    var right := Residual(LeftSubtract(b[n].itv, inter), b[n].val);
    IsGood(style, b, 0);
    IsGood(style, b, n);
    OnBothSides(style, a, left, First(inter) - 1, right, q);
    HoldsConcat(a + left, right + q);
    HoldsConcat(a, left);
    HoldsConcat(right, q);
    HoldsWithin(style, a);
    HoldsWithin(style, q);
    forall x, v
      ensures Holds(left, x, v) || Holds(right, x, v) <==> Holds(b, x, v) && !Has(inter, x)
    {
      BlockEnds(style, b, inter, x, v);
    }
  }

  /** Lists that end at a tick and lists that start behind the next one. */
  lemma OnBothSides<V(!new)>(style: Style, a: seq<Seg<V>>, left: seq<Seg<V>>, t: int,
                             right: seq<Seg<V>>, q: seq<Seg<V>>)
    requires Form(style, a) && Form(style, left) && Form(style, right) && Form(style, q)
    requires EndsBefore(a, t + 1) && EndsBefore(left, t + 1)
    requires StartsAfter(right, t + 1) && StartsAfter(q, t + 1)
    requires a != [] && left != [] ==> Apart(style, a[|a| - 1], left[0])
    requires right != [] && q != [] ==> Apart(style, right[|right| - 1], q[0])
    ensures Form(style, (a + left) + (right + q))
  {
    FormConcat(style, a, left);
    FormConcat(style, right, q);
    FormConcat(style, a + left, right + q);
  }

  /** Outside the interval only the two end segments of the block hold anything. */
  lemma BlockEnds<V(!new)>(style: Style, b: seq<Seg<V>>, inter: Interval, x: int, v: V)
    requires Form(style, b) && b != [] && !IsEmpty(inter)
    requires Intersects(b[0].itv, inter) && Intersects(b[|b| - 1].itv, inter)
    ensures Holds(b, x, v) && !Has(inter, x) <==>
              || Holds(Residual(RightSubtract(b[0].itv, inter), b[0].val), x, v)
              || Holds(Residual(LeftSubtract(b[|b| - 1].itv, inter), b[|b| - 1].val), x, v)
  {
    var n := |b| - 1;
    var left := Residual(RightSubtract(b[0].itv, inter), b[0].val);
    var right := Residual(LeftSubtract(b[n].itv, inter), b[n].val);
    IsGood(style, b, 0);
    IsGood(style, b, n);
    HoldsSome(b, x, v);
    HoldsSome(left, x, v);
    HoldsSome(right, x, v);
    assert 0 < n ==> Apart(style, b[0], b[n]);
    if Holds(b, x, v) && !Has(inter, x) {
      var k :| 0 <= k < |b| && At(b[k], x, v);
      assert 0 < k ==> Apart(style, b[0], b[k]);
      assert k < n ==> Apart(style, b[k], b[n]);
      assert x < First(inter) ==> At(left[0], x, v);
      assert Last(inter) < x ==> At(right[0], x, v);
    }
    if Holds(left, x, v) {
      assert At(b[0], x, v);
    }
    if Holds(right, x, v) {
      assert At(b[n], x, v);
    }
  }

  /** Erasing an interval from a well-formed list restricts it to the ticks outside the
      interval, whatever is left over on either side, and keeps it well-formed. */
  lemma ErasedCorrect<V(!new)>(style: Style, s: seq<Seg<V>>, inter: Interval)
    requires Form(style, s) && Fits(style, inter)
    ensures Form(style, Erased(s, inter))
    ensures forall x, v :: Holds(Erased(s, inter), x, v) <==> Holds(s, x, v) && !Has(inter, x)
    ensures forall x :: Covers(Erased(s, inter), x) <==> Covers(s, x) && !Has(inter, x)
  {
    if !IsEmpty(inter) {
      var lb, ub := LowerBound(s, inter), UpperBound(s, inter);
      BlockReady(style, s, inter);
      BlockHolds(style, s, inter);
      if lb < ub {
        ErasedFromBlockCorrect(style, s[..lb], s[lb..ub], s[ub..], inter);
      }
    }
    forall x
      ensures Covers(Erased(s, inter), x) <==> Covers(s, x) && !Has(inter, x)
    {
      CoversWhere(style, Erased(s, inter), s, x, !Has(inter, x));
    }
  }

  /** Erasing one more key of a list of keys. */
  lemma KeyErased<V(!new)>(s: seq<Seg<V>>, now: seq<Seg<V>>, next: seq<Seg<V>>, done: seq<Seg<()>>, key: Seg<()>)
    requires forall x, v :: Holds(now, x, v) <==> Holds(s, x, v) && !Covers(done, x)
    requires forall x, v :: Holds(next, x, v) <==> Holds(now, x, v) && !Has(key.itv, x)
    ensures forall x, v :: Holds(next, x, v) <==> Holds(s, x, v) && !Covers(done + [key], x)
  {
    CoversAppend(done, key);
  }

  /** Erasing an interval adds at most one segment, and erasing everything up to some
      tick adds none. */
  lemma ErasedCount<V(!new)>(style: Style, s: seq<Seg<V>>, inter: Interval)
    requires Form(style, s) && Fits(style, inter)
    ensures |Erased(s, inter)| <= |s| + 1
    ensures s != [] && First(inter) <= First(s[0].itv) ==> |Erased(s, inter)| <= |s|
  {
    if !IsEmpty(inter) {
      var lb, ub := LowerBound(s, inter), UpperBound(s, inter);
      EqualRangeIsOverlap(style, s, inter);
      BoundsSplit(style, s, inter);
      if lb < ub && First(inter) <= First(s[0].itv) {
        IsGood(style, s, 0);
        assert lb == 0;
      }
    }
  }

  // ----- erasing an interval together with its values -----

  /** A segment loses its part inside the interval if it holds exactly `w`. */
  function ErasedEqualOne<V(==)>(seg: Seg<V>, inter: Interval, w: set<V>): seq<Seg<V>> {
    if seg.val != w then [seg]
    else Residual(RightSubtract(seg.itv, inter), seg.val) + Residual(LeftSubtract(seg.itv, inter), seg.val)
  }

  function ErasedEqual<V(==)>(s: seq<Seg<V>>, inter: Interval, w: set<V>): seq<Seg<V>> {
    if s == [] then [] else ErasedEqualOne(s[0], inter, w) + ErasedEqual(s[1..], inter, w)
  }

  /** A part of a segment with its values. */
  ghost predicate PieceOf<V>(a: Seg<V>, s: Seg<V>) {
    a.val == s.val && First(s.itv) <= First(a.itv) && Last(a.itv) <= Last(s.itv)
  }

  lemma PiecesApart<V(!new)>(style: Style, a: Seg<V>, b: Seg<V>, s: Seg<V>, t: Seg<V>)
    requires Good(style, a) && Good(style, b) && PieceOf(a, s) && PieceOf(b, t) && Apart(style, s, t)
    ensures Apart(style, a, b)
  {
  }

  lemma ErasedEqualOneCorrect<V(!new)>(style: Style, seg: Seg<V>, inter: Interval, w: set<V>)
    requires Good(style, seg) && Fits(style, inter) && !IsEmpty(inter)
    ensures var r := ErasedEqualOne(seg, inter, w);
            Form(style, r) && forall k :: 0 <= k < |r| ==> Good(style, r[k]) && PieceOf(r[k], seg)
    ensures forall x, v :: Holds(ErasedEqualOne(seg, inter, w), x, v) <==>
              At(seg, x, v) && !(Has(inter, x) && seg.val == w)
  {
    var r := ErasedEqualOne(seg, inter, w);
    var left, right := RightSubtract(seg.itv, inter), LeftSubtract(seg.itv, inter);
    if seg.val == w && !IsEmpty(left) && !IsEmpty(right) {
      assert r == [Seg(left, w), Seg(right, w)] && Apart(style, r[0], r[1]);
    }
    forall x, v
      ensures Holds(r, x, v) <==> At(seg, x, v) && !(Has(inter, x) && seg.val == w)
    {
      HoldsSome(r, x, v);
      RightSubtractIsPointwise(seg.itv, inter, x);
      LeftSubtractIsPointwise(seg.itv, inter, x);
      assert seg.val != w ==> r[0] == seg;
      assert seg.val == w && !IsEmpty(left) ==> r[0] == Seg(left, w);
      assert seg.val == w && !IsEmpty(right) ==> r[|r| - 1] == Seg(right, w);
    }
  }

  /** Erasing what a map holds exactly as given, within an interval: a tick of the interval
      whose values are `w` becomes undefined, nothing else changes, and the form stays. */
  lemma {:induction false} ErasedEqualCorrect<V(!new)>(style: Style, s: seq<Seg<V>>, inter: Interval, w: set<V>)
    requires Form(style, s) && Fits(style, inter) && !IsEmpty(inter)
    ensures Form(style, ErasedEqual(s, inter, w))
    ensures s == [] ==> ErasedEqual(s, inter, w) == []
    ensures var r := ErasedEqual(s, inter, w); r != [] ==> exists k :: 0 <= k < |s| && PieceOf(r[0], s[k])
    ensures forall x, v :: Holds(ErasedEqual(s, inter, w), x, v) <==>
              exists k :: 0 <= k < |s| && At(s[k], x, v) && !(Has(inter, x) && s[k].val == w)
  {
    if s != [] {
      var one, rest := ErasedEqualOne(s[0], inter, w), ErasedEqual(s[1..], inter, w);
      FormTail(style, s);
      ErasedEqualOneCorrect(style, s[0], inter, w);
      ErasedEqualCorrect(style, s[1..], inter, w);
      if rest != [] {
        var k :| 0 <= k < |s| - 1 && PieceOf(rest[0], s[1..][k]);
        assert s[k + 1] == s[1..][k] && PieceOf(rest[0], s[k + 1]);
        IsGood(style, rest, 0);
        if one != [] {
          assert Apart(style, s[0], s[k + 1]);
          PiecesApart(style, one[|one| - 1], rest[0], s[0], s[k + 1]);
        }
      }
      FormConcat(style, one, rest);
      HoldsConcat(one, rest);
      assert one != [] ==> PieceOf((one + rest)[0], s[0]);
      forall x, v
        ensures Holds(one + rest, x, v) <==>
                  exists k :: 0 <= k < |s| && At(s[k], x, v) && !(Has(inter, x) && s[k].val == w)
      {
        if k :| 0 <= k < |s| - 1 && At(s[1..][k], x, v) && !(Has(inter, x) && s[1..][k].val == w) {
          assert s[k + 1] == s[1..][k];
        }
        if k :| 0 <= k < |s| && At(s[k], x, v) && !(Has(inter, x) && s[k].val == w) {
          assert 0 < k ==> s[1..][k - 1] == s[k];
        }
      }
    }
  }

  lemma {:induction false} ErasedEqualConcat<V(!new)>(a: seq<Seg<V>>, b: seq<Seg<V>>, inter: Interval, w: set<V>)
    ensures ErasedEqual(a + b, inter, w) == ErasedEqual(a, inter, w) + ErasedEqual(b, inter, w)
  {
    if a == [] {
      assert a + b == b;
    } else {
      assert (a + b)[1..] == a[1..] + b;
      ErasedEqualConcat(a[1..], b, inter, w);
    }
  }

  /** Segments away from the interval stay as they are. */
  lemma {:induction false} ErasedEqualElsewhere<V(!new)>(s: seq<Seg<V>>, inter: Interval, w: set<V>)
    requires !IsEmpty(inter)
    requires forall k :: 0 <= k < |s| ==> !IsEmpty(s[k].itv) && !Intersects(s[k].itv, inter)
    ensures ErasedEqual(s, inter, w) == s
  {
    if s != [] {
      ErasedEqualElsewhere(s[1..], inter, w);
      assert s == [s[0]] + s[1..];
    }
  }

  /** What is left of a segment by where it lies. */
  lemma ErasedEqualByPlace<V(!new)>(seg: Seg<V>, inter: Interval, w: set<V>)
    requires !IsEmpty(seg.itv) && Intersects(seg.itv, inter) && seg.val == w
    ensures var r := ErasedEqualOne(seg, inter, w);
            && (Last(seg.itv) <= Last(inter) ==> r == Residual(RightSubtract(seg.itv, inter), w))
            && (First(inter) <= First(seg.itv) ==> r == Residual(LeftSubtract(seg.itv, inter), w))
    ensures First(inter) <= First(seg.itv) && Last(seg.itv) <= Last(inter) ==> ErasedEqualOne(seg, inter, w) == []
  {
  }

  /** Nodes that overlap the interval, begin inside it, and all but the last end inside. */
  ghost predicate BehindStart<V>(block: seq<Seg<V>>, inter: Interval) {
    block != [] && forall k :: 0 <= k < |block| ==> OverlapsFrom(block[k].itv, inter, k < |block| - 1)
  }

  predicate OverlapsFrom(itv: Interval, inter: Interval, ends: bool) {
    !IsEmpty(itv) && Intersects(itv, inter) && First(inter) <= First(itv) && (ends ==> Last(itv) <= Last(inter))
  }

  lemma BehindStartTail<V(!new)>(block: seq<Seg<V>>, inter: Interval)
    requires BehindStart(block, inter) && 1 < |block|
    ensures OverlapsFrom(block[0].itv, inter, true) && BehindStart(block[1..], inter)
  {
    forall k | 0 <= k < |block| - 1
      ensures OverlapsFrom(block[1..][k].itv, inter, k < |block| - 2)
    {
      assert OverlapsFrom(block[k + 1].itv, inter, k + 1 < |block| - 1);
    }
  }

  /** Only the overlapped block changes. */
  lemma ErasedEqualAround<V(!new)>(style: Style, s: seq<Seg<V>>, inter: Interval, w: set<V>)
    requires Form(style, s) && !IsEmpty(inter)
    ensures var lb, ub := LowerBound(s, inter), UpperBound(s, inter);
            lb <= ub && ErasedEqual(s, inter, w) == s[..lb] + ErasedEqual(s[lb..ub], inter, w) + s[ub..]
  {
    var lb, ub := LowerBound(s, inter), UpperBound(s, inter);
    EqualRangeIsOverlap(style, s, inter);
    assert ErasedEqual(s[..lb], inter, w) == s[..lb] by {
      assert s[0..lb] == s[..lb];
      ErasedEqualOutside(style, s, 0, lb, inter, w);
    }
    assert ErasedEqual(s[ub..], inter, w) == s[ub..] by {
      assert s[ub..|s|] == s[ub..];
      ErasedEqualOutside(style, s, ub, |s|, inter, w);
    }
    assert s == s[..lb] + s[lb..ub] + s[ub..];
    ErasedEqualThree(s[..lb], s[lb..ub], s[ub..], inter, w);
  }

  lemma ErasedEqualThree<V(!new)>(a: seq<Seg<V>>, b: seq<Seg<V>>, q: seq<Seg<V>>, inter: Interval, w: set<V>)
    ensures ErasedEqual(a + b + q, inter, w)
         == ErasedEqual(a, inter, w) + ErasedEqual(b, inter, w) + ErasedEqual(q, inter, w)
  {
    ErasedEqualConcat(a + b, q, inter, w);
    ErasedEqualConcat(a, b, inter, w);
  }

  lemma ErasedEqualOutside<V(!new)>(style: Style, s: seq<Seg<V>>, from: nat, to: nat, inter: Interval, w: set<V>)
    requires Form(style, s) && !IsEmpty(inter) && from <= to <= |s|
    requires to <= LowerBound(s, inter) || UpperBound(s, inter) <= from
    ensures ErasedEqual(s[from..to], inter, w) == s[from..to]
  {
    EqualRangeIsOverlap(style, s, inter);
    var part := s[from..to];
    forall k | 0 <= k < |part|
      ensures !IsEmpty(part[k].itv) && !Intersects(part[k].itv, inter)
    {
      IsGood(style, s, from + k);
      assert !Intersects(s[from + k].itv, inter);
    }
    ErasedEqualElsewhere(part, inter, w);
  }

  /** Where the nodes of the overlapped block lie. */
  lemma BlockPlaces<V(!new)>(style: Style, s: seq<Seg<V>>, inter: Interval)
    requires Form(style, s) && !IsEmpty(inter) && LowerBound(s, inter) < UpperBound(s, inter)
    ensures var lb, ub := LowerBound(s, inter), UpperBound(s, inter);
            && !IsEmpty(s[lb].itv) && Intersects(s[lb].itv, inter)
            && (lb + 1 < ub ==> Last(s[lb].itv) <= Last(inter) && BehindStart(s[lb + 1..ub], inter))
  {
    var lb, ub := LowerBound(s, inter), UpperBound(s, inter);
    EqualRangeIsOverlap(style, s, inter);
    BoundsSplit(style, s, inter);
    IsGood(style, s, lb);
    assert Intersects(s[lb].itv, inter);
    forall k | lb + 1 <= k < ub
      ensures OverlapsFrom(s[k].itv, inter, k < ub - 1) && Last(s[lb].itv) <= Last(inter)
    {
      IsGood(style, s, k);
      assert Apart(style, s[lb], s[k]) && Intersects(s[k].itv, inter);
      if k < ub - 1 {
        assert Apart(style, s[k], s[ub - 1]) && Intersects(s[ub - 1].itv, inter);
      }
    }
    if lb + 1 < ub {
      var rest := s[lb + 1..ub];
      forall k | 0 <= k < |rest|
        ensures OverlapsFrom(rest[k].itv, inter, k < |rest| - 1)
      {
        assert rest[k] == s[lb + 1 + k];
      }
      assert Last(s[lb].itv) <= Last(inter) by {
        assert OverlapsFrom(s[lb + 1].itv, inter, lb + 1 < ub - 1);
      }
    }
  }

  /** In terms of what the map holds: a tick is affected when its values are exactly `w`. */
  lemma ErasedEqualMeans<V(!new)>(style: Style, s: seq<Seg<V>>, inter: Interval, w: set<V>)
    requires Form(style, s) && Fits(style, inter) && !IsEmpty(inter)
    ensures forall x, v :: Holds(ErasedEqual(s, inter, w), x, v) <==>
              Holds(s, x, v) && !(Has(inter, x) && forall u :: Holds(s, x, u) <==> u in w)
  {
    ErasedEqualCorrect(style, s, inter, w);
    forall x, v
      ensures Holds(ErasedEqual(s, inter, w), x, v) <==>
                Holds(s, x, v) && !(Has(inter, x) && forall u :: Holds(s, x, u) <==> u in w)
    {
      HoldsSome(s, x, v);
      if k :| 0 <= k < |s| && At(s[k], x, v) {
        HoldsInside(style, s, k, x);
        assert (forall u :: Holds(s, x, u) <==> u in w) <==> s[k].val == w;
        forall i | 0 <= i < |s| && At(s[i], x, v)
          ensures i == k
        {
          assert i < k ==> Apart(style, s[i], s[k]);
          assert k < i ==> Apart(style, s[k], s[i]);
        }
      }
    }
  }

  /** One node done of those that are to be erased or kept. */
  lemma RestMoves<V(!new)>(p: seq<Seg<V>>, todo: seq<Seg<V>>, inter: Interval, w: set<V>)
    requires todo != [] && (todo[0].val == w ==> ErasedEqualOne(todo[0], inter, w) == [])
    ensures p + ErasedEqual(todo, inter, w)
         == (p + if todo[0].val == w then [] else [todo[0]]) + ErasedEqual(todo[1..], inter, w)
  {
  }
}
