/** What subtracting a segment leaves behind, and the proof that it is pointwise
    difference: ticks that lose their last value become undefined, and a split whose
    two sides still hold the same values is undone. */
module Subtraction {
  import opened Intervals
  import opened Segments
  import opened Addition

  lemma NothingLeft<V(!new)>(a: set<V>, w: set<V>)
    requires a - w == {}
    ensures a <= w
  {
    forall v | v in a
      ensures v in w
    {
      assert v !in w ==> v in a - w;
    }
  }

  /** All overlapped segments but the last lie inside the minuend. */
  function SubtractLoop<V(==)>(style: Style, p: seq<Seg<V>>, block: seq<Seg<V>>, w: set<V>): seq<Seg<V>>
    decreases block
  {
    if block == [] then p
    else SubtractLoop(style, PushCombined(style, p, Seg(block[0].itv, block[0].val - w)), block[1..], w)
  }

  lemma {:induction false} SubtractLoopCorrect<V(!new)>(style: Style, p: seq<Seg<V>>, block: seq<Seg<V>>, w: set<V>)
    requires Form(style, p) && Form(style.(joining := false), block)
    requires block != [] ==> EndsBefore(p, First(block[0].itv))
    ensures var r := SubtractLoop(style, p, block, w);
            && Form(style, r) && (block == [] ==> r == p)
            && (block != [] ==> EndsBefore(r, Last(block[|block| - 1].itv) + 1))
    ensures forall x, v :: Holds(SubtractLoop(style, p, block, w), x, v) <==>
              Holds(p, x, v) || (Holds(block, x, v) && v !in w)
    decreases block
  {
    if block != [] {
      var split, n := style.(joining := false), |block| - 1;
      var seg := Seg(block[0].itv, block[0].val - w);
      FormTail(split, block);
      IsGood(split, block, n);
      assert 0 < n ==> Apart(split, block[0], block[n]);
      if seg.val == {} {
        NothingLeft(block[0].val, w);
      } else {
        PushCorrect(style, p, seg);
      }
      SubtractLoopCorrect(style, PushCombined(style, p, seg), block[1..], w);
    }
  }

  function SubtractEnd<V(==)>(style: Style, p: seq<Seg<V>>, seg: Seg<V>, q: seq<Seg<V>>, inter: Interval, w: set<V>)
    : seq<Seg<V>>
  {
    var resid := LeftSubtract(seg.itv, inter);
    if IsEmpty(resid) then
      if seg.val - w == {} then p + q
      else Glue(style, Push(style, p, Seg(seg.itv, seg.val - w)), q)
    else
      var front, back := Seg(RightSubtract(seg.itv, resid), seg.val - w), Seg(resid, seg.val);
      if front.val == {} then p + Glue(style, [back], q)
      else Glue(style, Push(style, Push(style, p, front), back), q)
  }

  lemma SubtractEndCorrect<V(!new)>(style: Style, p: seq<Seg<V>>, seg: Seg<V>, q: seq<Seg<V>>,
                                    inter: Interval, w: set<V>)
    requires Form(style, p) && Good(style, seg) && Form(style, q) && Fits(style, inter) && !IsEmpty(inter)
    requires EndsBefore(p, First(seg.itv)) && First(inter) <= First(seg.itv) <= Last(inter)
    requires q != [] ==> Apart(style, seg, q[0])
    ensures Form(style, SubtractEnd(style, p, seg, q, inter, w))
    ensures forall x, v :: Holds(SubtractEnd(style, p, seg, q, inter, w), x, v) <==>
              Holds(p, x, v) || (At(seg, x, v) && !(x <= Last(inter) && v in w)) || Holds(q, x, v)
  {
    var resid := LeftSubtract(seg.itv, inter);
    if IsEmpty(resid) {
      var combined := Seg(seg.itv, seg.val - w);
      if combined.val == {} {
        NothingLeft(seg.val, w);
        FormConcat(style, p, q);
        HoldsConcat(p, q);
      } else {
        PushCorrect(style, p, combined);
        GlueCorrect(style, Push(style, p, combined), q);
      }
    } else {
      var front, back := Seg(RightSubtract(seg.itv, resid), seg.val - w), Seg(resid, seg.val);
      if front.val == {} {
        NothingLeft(seg.val, w);
        GlueApart(style, [back], q);
        FormOne(style, back);
        FormConcat(style, [back], q);
        FormConcat(style, p, [back] + q);
        HoldsPrepend(back, q);
        HoldsConcat(p, [back] + q);
      } else {
        PushTwo(style, p, front, back, q);
      }
    }
  }

  function SubtractedFromBlock<V(==)>(style: Style, a: seq<Seg<V>>, b: seq<Seg<V>>, q: seq<Seg<V>>,
                                      inter: Interval, w: set<V>): seq<Seg<V>>
    requires b != []
  {
    var p, block, n := SplitLeft(a, b[0], inter), SplitBlock(b, inter), |b| - 1;
    SubtractEnd(style, SubtractLoop(style, p, block[..n], w), block[n], q, inter, w)
  }

  /** What taking the values off a split block, part by part, comes to. */
  lemma SubtractedParts<V(!new)>(style: Style, a: seq<Seg<V>>, b: seq<Seg<V>>, p: seq<Seg<V>>, init: seq<Seg<V>>,
                                 last: Seg<V>, l: seq<Seg<V>>, q: seq<Seg<V>>, r: seq<Seg<V>>,
                                 inter: Interval, w: set<V>)
    requires Form(style, p) && EndsBefore(p, First(inter)) && Form(style, q) && StartsAfter(q, Last(inter))
    requires forall x, v :: Holds(init, x, v) ==> First(inter) <= x <= Last(inter)
    requires First(inter) <= First(last.itv)
    requires forall x, v :: Holds(a, x, v) || Holds(b, x, v) <==> Holds(p, x, v) || Holds(init, x, v) || At(last, x, v)
    requires forall x, v :: Holds(l, x, v) <==> Holds(p, x, v) || (Holds(init, x, v) && v !in w)
    requires forall x, v :: Holds(r, x, v) <==>
               Holds(l, x, v) || (At(last, x, v) && !(x <= Last(inter) && v in w)) || Holds(q, x, v)
    ensures forall x, v :: Holds(r, x, v) <==>
              (Holds(a, x, v) || Holds(b, x, v) || Holds(q, x, v)) && !On(First(inter), Last(inter), w, x, v)
  {
    HoldsWithin(style, p);
    HoldsWithin(style, q);
  }

  lemma SubtractedFromBlockCorrect<V(!new)>(style: Style, a: seq<Seg<V>>, b: seq<Seg<V>>, q: seq<Seg<V>>,
                                            inter: Interval, w: set<V>)
    requires BlockPre(style, a, b, q, inter)
    ensures Form(style, SubtractedFromBlock(style, a, b, q, inter, w))
    ensures forall x, v :: Holds(SubtractedFromBlock(style, a, b, q, inter, w), x, v) <==>
              (Holds(a, x, v) || Holds(b, x, v) || Holds(q, x, v)) && !On(First(inter), Last(inter), w, x, v)
  {
    var p, block, n := SplitLeft(a, b[0], inter), SplitBlock(b, inter), |b| - 1;
    var init, last := block[..n], block[n];
    assert block == init + [last];
    BlockCut(style, a, b, q, inter, p, init, last);
    SubtractedBlockEnds(style, p, init, last, q, inter, w);
    SubtractedParts(style, a, b, p, init, last, SubtractLoop(style, p, init, w), q,
                    SubtractedFromBlock(style, a, b, q, inter, w), inter, w);
  }

  /** Loop and end put together. */
  lemma SubtractedBlockEnds<V(!new)>(style: Style, p: seq<Seg<V>>, init: seq<Seg<V>>, last: Seg<V>, q: seq<Seg<V>>,
                                     inter: Interval, w: set<V>)
    requires Form(style, p) && Form(style.(joining := false), init) && Good(style, last) && Form(style, q)
    requires Fits(style, inter) && !IsEmpty(inter) && First(inter) <= First(last.itv) <= Last(inter)
    requires EndsBefore(p, First(if init == [] then last.itv else init[0].itv)) && EndsBefore(init, First(last.itv))
    requires q != [] ==> Apart(style, last, q[0])
    ensures var l := SubtractLoop(style, p, init, w);
            var r := SubtractEnd(style, l, last, q, inter, w);
            && Form(style, r)
            && (forall x, v :: Holds(l, x, v) <==> Holds(p, x, v) || (Holds(init, x, v) && v !in w))
            && (forall x, v :: Holds(r, x, v) <==>
                  Holds(l, x, v) || (At(last, x, v) && !(x <= Last(inter) && v in w)) || Holds(q, x, v))
  {
    SubtractLoopCorrect(style, p, init, w);
    SubtractEndCorrect(style, SubtractLoop(style, p, init, w), last, q, inter, w);
  }

  function Subtracted<V(==)>(style: Style, s: seq<Seg<V>>, inter: Interval, w: set<V>): seq<Seg<V>> {
    if IsEmpty(inter) || w == {} then s
    else
      var lb, ub := LowerBound(s, inter), UpperBound(s, inter);
      if ub <= lb then s
      else SubtractedFromBlock(style, s[..lb], s[lb..ub], s[ub..], inter, w)
  }

  /** Subtracting a segment from a well-formed list takes exactly its values away on
      exactly its ticks, and the list is well-formed, so canonical, again. */
  lemma SubtractedCorrect<V(!new)>(style: Style, s: seq<Seg<V>>, inter: Interval, w: set<V>)
    requires Form(style, s) && Fits(style, inter)
    ensures Form(style, Subtracted(style, s, inter, w))
    ensures forall x, v :: Holds(Subtracted(style, s, inter, w), x, v) <==>
              Holds(s, x, v) && !On(First(inter), Last(inter), w, x, v)
  {
    if !IsEmpty(inter) && w != {} {
      var lb, ub := LowerBound(s, inter), UpperBound(s, inter);
      BlockReady(style, s, inter);
      BlockHolds(style, s, inter);
      if lb < ub {
        SubtractedFromBlockCorrect(style, s[..lb], s[lb..ub], s[ub..], inter, w);
      }
    }
  }
}
