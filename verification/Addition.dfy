/** What adding a segment leaves behind, as a function on segment lists: the steps of
    the in-place algorithm, and the proof that they amount to pointwise union. */
module Addition {
  import opened Intervals
  import opened Segments

  // ----- the front of the overlapped block -----

  /** The part of the first overlapped segment left of `inter` is split off. */
  function SplitLeft<V>(p: seq<Seg<V>>, cur: Seg<V>, inter: Interval): seq<Seg<V>> {
    var resid := RightSubtract(cur.itv, inter);
    if IsEmpty(resid) then p else p + [Seg(resid, cur.val)]
  }

  /** What remains of the first overlapped segment. */
  function SplitRight<V>(cur: Seg<V>, inter: Interval): Seg<V> {
    var resid := RightSubtract(cur.itv, inter);
    if IsEmpty(resid) then cur else Seg(LeftSubtract(cur.itv, resid), cur.val)
  }

  lemma SplitFrontCorrect<V(!new)>(style: Style, p: seq<Seg<V>>, cur: Seg<V>, inter: Interval)
    requires Form(style, p) && Good(style, cur) && !IsEmpty(inter) && Fits(style, inter)
    requires p != [] ==> Apart(style, p[|p| - 1], cur)
    requires EndsBefore(p, First(inter)) && Intersects(cur.itv, inter)
    ensures var p', cur' := SplitLeft(p, cur, inter), SplitRight(cur, inter);
            && Form(style, p') && EndsBefore(p', First(inter)) && Good(style, cur')
            && First(inter) <= First(cur'.itv) <= Last(inter) && First(cur.itv) <= First(cur'.itv)
            && Last(cur'.itv) == Last(cur.itv) && cur'.val == cur.val
    ensures forall x, v :: Holds(SplitLeft(p, cur, inter), x, v) || At(SplitRight(cur, inter), x, v) <==>
              Holds(p, x, v) || At(cur, x, v)
  {
    var resid := RightSubtract(cur.itv, inter);
    if !IsEmpty(resid) {
      FormAppend(style, p, Seg(resid, cur.val));
      HoldsAppend(p, Seg(resid, cur.val));
    }
  }

  // ----- one step -----

  /** Fill the gap in front of an overlapped segment. */
  function FillGap<V(==)>(style: Style, p: seq<Seg<V>>, seg: Seg<V>, inter: Interval, w: set<V>): seq<Seg<V>> {
    var gap := RightSubtract(inter, seg.itv);
    if IsEmpty(gap) then p else Push(style, p, Seg(gap, w))
  }

  function AddStep<V(==)>(style: Style, p: seq<Seg<V>>, seg: Seg<V>, inter: Interval, w: set<V>): seq<Seg<V>> {
    Push(style, FillGap(style, p, seg, inter, w), Seg(seg.itv, seg.val + w))
  }

  /** The segment in front of which a gap is filled begins inside the addend. */
  ghost predicate StepPre<V>(style: Style, p: seq<Seg<V>>, seg: Seg<V>, inter: Interval, w: set<V>) {
    && Form(style, p) && Good(style, seg) && Fits(style, inter) && w != {}
    && EndsBefore(p, First(inter)) && First(inter) <= First(seg.itv) <= Last(inter)
  }

  lemma FillGapCorrect<V(!new)>(style: Style, p: seq<Seg<V>>, seg: Seg<V>, inter: Interval, w: set<V>)
    requires StepPre(style, p, seg, inter, w)
    ensures Form(style, FillGap(style, p, seg, inter, w))
    ensures EndsBefore(FillGap(style, p, seg, inter, w), First(seg.itv))
    ensures forall x, v :: Holds(FillGap(style, p, seg, inter, w), x, v)
                     <==> Holds(p, x, v) || On(First(inter), First(seg.itv) - 1, w, x, v)
  {
    var gap := RightSubtract(inter, seg.itv);
    if !IsEmpty(gap) {
      PushCorrect(style, p, Seg(gap, w));
    }
  }

  lemma AddStepCorrect<V(!new)>(style: Style, p: seq<Seg<V>>, seg: Seg<V>, inter: Interval, w: set<V>)
    requires StepPre(style, p, seg, inter, w)
    ensures var r := AddStep(style, p, seg, inter, w);
            Form(style, r) && EndsBefore(r, Last(seg.itv) + 1)
    ensures forall x, v :: Holds(AddStep(style, p, seg, inter, w), x, v)
                     <==> Holds(p, x, v) || At(seg, x, v) || On(First(inter), Last(seg.itv), w, x, v)
  {
    var p' := FillGap(style, p, seg, inter, w);
    var combined := Seg(seg.itv, seg.val + w);
    FillGapCorrect(style, p, seg, inter, w);
    PushCorrect(style, p', combined);
  }

  // ----- the loop over all but the last overlapped segment -----

  function AddLoop<V(==)>(style: Style, p: seq<Seg<V>>, block: seq<Seg<V>>, inter: Interval, w: set<V>): seq<Seg<V>>
    decreases block
  {
    if block == [] then p
    else AddLoop(style, AddStep(style, p, block[0], inter, w), block[1..], LeftSubtract(inter, block[0].itv), w)
  }

  /** What is left of the addend behind the loop. */
  function RestAfter<V>(block: seq<Seg<V>>, inter: Interval): Interval {
    if block == [] then inter else RestAfter(block[1..], LeftSubtract(inter, block[0].itv))
  }

  /** What a step and the rest of the loop hold together. */
  lemma LoopMeans<V(!new)>(p: seq<Seg<V>>, block: seq<Seg<V>>, step: seq<Seg<V>>, r: seq<Seg<V>>,
                           from: int, to: int, w: set<V>)
    requires block != [] && from <= Last(block[0].itv) <= to
    requires forall x, v :: Holds(step, x, v) <==>
               Holds(p, x, v) || At(block[0], x, v) || On(from, Last(block[0].itv), w, x, v)
    requires forall x, v :: Holds(r, x, v) <==>
               Holds(step, x, v) || Holds(block[1..], x, v) || On(Last(block[0].itv) + 1, to, w, x, v)
    ensures forall x, v :: Holds(r, x, v) <==> Holds(p, x, v) || Holds(block, x, v) || On(from, to, w, x, v)
  {
  }

  lemma {:induction false} AddLoopCorrect<V(!new)>(style: Style, p: seq<Seg<V>>, block: seq<Seg<V>>,
                                             inter: Interval, w: set<V>)
    requires Form(style, p) && Form(style.(joining := false), block) && Fits(style, inter) && w != {}
    requires EndsBefore(p, First(inter)) && !IsEmpty(inter) && EndsBefore(block, Last(inter))
    requires block != [] ==> First(inter) <= First(block[0].itv)
    ensures var r, rest := AddLoop(style, p, block, inter, w), RestAfter(block, inter);
            && Form(style, r) && EndsBefore(r, First(rest)) && Fits(style, rest)
            && Last(rest) == Last(inter) && First(inter) <= First(rest)
            && First(rest) == (if block == [] then First(inter) else Last(block[|block| - 1].itv) + 1)
    ensures forall x, v :: Holds(AddLoop(style, p, block, inter, w), x, v) <==>
              || Holds(p, x, v) || Holds(block, x, v)
              || On(First(inter), First(RestAfter(block, inter)) - 1, w, x, v)
    decreases block
  {
    if block != [] {
      var split, n := style.(joining := false), |block| - 1;
      var seg, rest := block[0], LeftSubtract(inter, block[0].itv);
      FormTail(split, block);
      assert Good(split, block[n]) && (0 < n ==> Apart(split, seg, block[n]));
      var step := AddStep(style, p, seg, inter, w);
      AddStepCorrect(style, p, seg, inter, w);
      AddLoopCorrect(style, step, block[1..], rest, w);
      var r, to := AddLoop(style, p, block, inter, w), First(RestAfter(block, inter)) - 1;
      assert r == AddLoop(style, step, block[1..], rest, w) && to == First(RestAfter(block[1..], rest)) - 1;
      LoopMeans(p, block, step, r, First(inter), to, w);
    }
  }

  // ----- the last overlapped segment -----

  /** Combine with the last overlapped segment, the gap in front of it being filled; the
      addend may stick out behind it, or it behind the addend. */
  function AddToLast<V(==)>(style: Style, p: seq<Seg<V>>, seg: Seg<V>, q: seq<Seg<V>>, inter: Interval, w: set<V>)
    : seq<Seg<V>>
  {
    var endGap := LeftSubtract(inter, seg.itv);
    if !IsEmpty(endGap) then Glue(style, Push(style, Push(style, p, Seg(seg.itv, seg.val + w)), Seg(endGap, w)), q)
    else
      var resid := LeftSubtract(seg.itv, inter);
      if IsEmpty(resid) then Glue(style, Push(style, p, Seg(seg.itv, seg.val + w)), q)
      else
        Glue(style, Push(style, p, Seg(RightSubtract(seg.itv, resid), seg.val + w)),
             Glue(style, [Seg(resid, seg.val)], q))
  }

  function AddEnd<V(==)>(style: Style, p: seq<Seg<V>>, seg: Seg<V>, q: seq<Seg<V>>, inter: Interval, w: set<V>)
    : seq<Seg<V>>
  {
    AddToLast(style, FillGap(style, p, seg, inter, w), seg, q, inter, w)
  }

  lemma AddToLastCorrect<V(!new)>(style: Style, p: seq<Seg<V>>, seg: Seg<V>, q: seq<Seg<V>>, inter: Interval, w: set<V>)
    requires Form(style, p) && Good(style, seg) && Form(style, q) && Fits(style, inter) && w != {}
    requires EndsBefore(p, First(seg.itv)) && First(inter) <= First(seg.itv) <= Last(inter)
    requires StartsAfter(q, Last(inter)) && (q != [] ==> Apart(style, seg, q[0]))
    ensures Form(style, AddToLast(style, p, seg, q, inter, w))
    ensures forall x, v :: Holds(AddToLast(style, p, seg, q, inter, w), x, v)
                     <==> Holds(p, x, v) || At(seg, x, v) || Holds(q, x, v) || On(First(seg.itv), Last(inter), w, x, v)
  {
    var endGap, resid := LeftSubtract(inter, seg.itv), LeftSubtract(seg.itv, inter);
    if !IsEmpty(endGap) {
      PushTwo(style, p, Seg(seg.itv, seg.val + w), Seg(endGap, w), q);
    } else if IsEmpty(resid) {
      var combined := Seg(seg.itv, seg.val + w);
      PushCorrect(style, p, combined);
      GlueCorrect(style, Push(style, p, combined), q);
    } else {
      var combined, back := Seg(RightSubtract(seg.itv, resid), seg.val + w), Seg(resid, seg.val);
      GlueApart(style, [back], q);
      FormOne(style, back);
      FormConcat(style, [back], q);
      HoldsPrepend(back, q);
      PushCorrect(style, p, combined);
      GlueCorrect(style, Push(style, p, combined), [back] + q);
    }
  }

  lemma AddEndCorrect<V(!new)>(style: Style, p: seq<Seg<V>>, seg: Seg<V>, q: seq<Seg<V>>, inter: Interval, w: set<V>)
    requires StepPre(style, p, seg, inter, w) && Form(style, q) && StartsAfter(q, Last(inter))
    requires q != [] ==> Apart(style, seg, q[0])
    ensures Form(style, AddEnd(style, p, seg, q, inter, w))
    ensures forall x, v :: Holds(AddEnd(style, p, seg, q, inter, w), x, v)
                     <==> Holds(p, x, v) || At(seg, x, v) || Holds(q, x, v) || On(First(inter), Last(inter), w, x, v)
  {
    FillGapCorrect(style, p, seg, inter, w);
    AddToLastCorrect(style, FillGap(style, p, seg, inter, w), seg, q, inter, w);
  }

  /** Two pieces pushed one after the other, then the rest of the list. */
  lemma PushTwo<V(!new)>(style: Style, p: seq<Seg<V>>, a: Seg<V>, b: Seg<V>, q: seq<Seg<V>>)
    requires Form(style, p) && Good(style, a) && Good(style, b) && Form(style, q)
    requires EndsBefore(p, First(a.itv)) && Before(a, b) && (q != [] ==> Before(b, q[0]))
    ensures Form(style, Glue(style, Push(style, Push(style, p, a), b), q))
    ensures forall x, v :: Holds(Glue(style, Push(style, Push(style, p, a), b), q), x, v)
                     <==> Holds(p, x, v) || At(a, x, v) || At(b, x, v) || Holds(q, x, v)
  {
    PushCorrect(style, p, a);
    PushCorrect(style, Push(style, p, a), b);
    GlueCorrect(style, Push(style, Push(style, p, a), b), q);
  }

  // ----- the whole operation -----

  /** A well-formed list cut into the block that the interval overlaps and the two sides. */
  ghost predicate BlockPre<V>(style: Style, a: seq<Seg<V>>, b: seq<Seg<V>>, q: seq<Seg<V>>, inter: Interval) {
    && Form(style, a) && Form(style, b) && Form(style, q) && b != []
    && Fits(style, inter) && !IsEmpty(inter)
    && (a != [] ==> Apart(style, a[|a| - 1], b[0]))
    && (q != [] ==> Apart(style, b[|b| - 1], q[0]))
    && EndsBefore(a, First(inter)) && StartsAfter(q, Last(inter))
    && Intersects(b[0].itv, inter) && Intersects(b[|b| - 1].itv, inter)
  }

  /** The overlapped block with its first segment split at the front of `inter`. */
  function SplitBlock<V>(b: seq<Seg<V>>, inter: Interval): seq<Seg<V>>
    requires b != []
  {
    [SplitRight(b[0], inter)] + b[1..]
  }

  lemma SplitBlockCorrect<V(!new)>(style: Style, a: seq<Seg<V>>, b: seq<Seg<V>>, inter: Interval)
    requires Form(style, a) && Form(style, b) && b != [] && !IsEmpty(inter) && Fits(style, inter)
    requires a != [] ==> Apart(style, a[|a| - 1], b[0])
    requires EndsBefore(a, First(inter)) && Intersects(b[0].itv, inter) && Intersects(b[|b| - 1].itv, inter)
    ensures var p, block, n := SplitLeft(a, b[0], inter), SplitBlock(b, inter), |b| - 1;
            && Form(style, p) && EndsBefore(p, First(inter))
            && Form(style.(joining := false), block) && First(inter) <= First(block[0].itv) <= Last(inter)
            && First(inter) <= First(block[n].itv) <= Last(inter) && Last(block[n].itv) == Last(b[n].itv)
            && block[n].val == b[n].val
            && (0 < n ==> Last(block[n - 1].itv) < First(block[n].itv))
    ensures forall x, v :: Holds(SplitLeft(a, b[0], inter), x, v) || Holds(SplitBlock(b, inter), x, v) <==>
              Holds(a, x, v) || Holds(b, x, v)
  {
    var split, n := style.(joining := false), |b| - 1;
    var first := SplitRight(b[0], inter);
    FormTail(style, b);
    SplitFrontCorrect(style, a, b[0], inter);
    FormWeaken(style, b[1..]);
    FormOne(split, first);
    FormConcat(split, [first], b[1..]);
    HoldsPrepend(first, b[1..]);
    var block := SplitBlock(b, inter);
    assert 0 < n ==> Apart(split, block[n - 1], block[n]) && Apart(split, block[0], block[n]);
  }

  /** The canonical form is in particular a form with every split kept. */
  lemma FormWeaken<V(!new)>(style: Style, s: seq<Seg<V>>)
    requires Form(style, s)
    ensures Form(style.(joining := false), s)
  {
    var split := style.(joining := false);
    forall i | 0 <= i < |s|
      ensures Good(split, s[i])
    {
      assert Good(style, s[i]);
    }
    forall i, j | 0 <= i < j < |s|
      ensures Apart(split, s[i], s[j])
    {
      assert Apart(style, s[i], s[j]);
    }
  }

  function LoopThenEnd<V(==)>(style: Style, p: seq<Seg<V>>, block: seq<Seg<V>>, last: Seg<V>, q: seq<Seg<V>>,
                              inter: Interval, w: set<V>): seq<Seg<V>>
  {
    AddEnd(style, AddLoop(style, p, block, inter, w), last, q, RestAfter(block, inter), w)
  }

  lemma LoopThenEndCorrect<V(!new)>(style: Style, p: seq<Seg<V>>, block: seq<Seg<V>>, last: Seg<V>, q: seq<Seg<V>>,
                              inter: Interval, w: set<V>)
    requires Form(style, p) && Form(style.(joining := false), block) && Good(style, last) && Form(style, q)
    requires Fits(style, inter) && !IsEmpty(inter) && w != {}
    requires EndsBefore(p, First(inter)) && EndsBefore(block, First(last.itv)) && StartsAfter(q, Last(inter))
    requires block != [] ==> First(inter) <= First(block[0].itv)
    requires First(inter) <= First(last.itv) <= Last(inter)
    requires q != [] ==> Apart(style, last, q[0])
    ensures Form(style, LoopThenEnd(style, p, block, last, q, inter, w))
    ensures forall x, v :: Holds(LoopThenEnd(style, p, block, last, q, inter, w), x, v) <==>
              Holds(p, x, v) || Holds(block, x, v) || At(last, x, v) || Holds(q, x, v)
              || On(First(inter), Last(inter), w, x, v)
  {
    AddLoopCorrect(style, p, block, inter, w);
    AddEndCorrect(style, AddLoop(style, p, block, inter, w), last, q, RestAfter(block, inter), w);
  }

  /** The addend overlaps the non-empty block `b` between `a` and `q`. */
  function AddedToBlock<V(==)>(style: Style, a: seq<Seg<V>>, b: seq<Seg<V>>, q: seq<Seg<V>>,
                               inter: Interval, w: set<V>): seq<Seg<V>>
    requires b != []
  {
    var p, block, n := SplitLeft(a, b[0], inter), SplitBlock(b, inter), |b| - 1;
    LoopThenEnd(style, p, block[..n], block[n], q, inter, w)
  }

  /** All but the last segment of a split block lie inside the interval. */
  lemma BlockInit<V(!new)>(style: Style, block: seq<Seg<V>>, init: seq<Seg<V>>, last: Seg<V>, inter: Interval)
    requires Form(style.(joining := false), block) && block == init + [last]
    requires First(inter) <= First(block[0].itv) && First(last.itv) <= Last(inter)
    ensures Good(style, last) && First(inter) <= First(last.itv)
    ensures Form(style.(joining := false), init) && EndsBefore(init, First(last.itv))
    ensures forall x, v :: Holds(block, x, v) <==> Holds(init, x, v) || At(last, x, v)
    ensures forall x, v :: Holds(init, x, v) ==> First(inter) <= x <= Last(inter)
  {
    var split, n := style.(joining := false), |init|;
    assert init == block[..n] && last == block[n];
    FormSlice(split, block, 0, n);
    IsGood(split, block, n);
    if n > 0 {
      assert Apart(split, block[n - 1], block[n]) && Apart(split, block[0], block[n]);
    }
    IsGood(split, block, 0);
    HoldsWithin(split, init);
    HoldsAppend(init, last);
  }

  /** The split block and what is left of it, as the loop and the end of an algorithm
      take them over. */
  lemma BlockCut<V(!new)>(style: Style, a: seq<Seg<V>>, b: seq<Seg<V>>, q: seq<Seg<V>>, inter: Interval,
                          p: seq<Seg<V>>, init: seq<Seg<V>>, last: Seg<V>)
    requires BlockPre(style, a, b, q, inter) && p == SplitLeft(a, b[0], inter)
    requires SplitBlock(b, inter) == init + [last]
    ensures Form(style, p) && Form(style.(joining := false), init) && Good(style, last) && Form(style, q)
    ensures EndsBefore(p, First(inter)) && EndsBefore(init, First(last.itv)) && StartsAfter(q, Last(inter))
    ensures init != [] ==> First(inter) <= First(init[0].itv)
    ensures First(inter) <= First(last.itv) <= Last(inter) && (q != [] ==> Apart(style, last, q[0]))
    ensures forall x, v :: Holds(a, x, v) || Holds(b, x, v) <==> Holds(p, x, v) || Holds(init, x, v) || At(last, x, v)
    ensures forall x, v :: Holds(init, x, v) ==> First(inter) <= x <= Last(inter)
  {
    var block, n := SplitBlock(b, inter), |b| - 1;
    SplitBlockCorrect(style, a, b, inter);
    assert block[..n] == init && block[n] == last;
    BlockInit(style, block, init, last, inter);
  }

  lemma AddedToBlockCorrect<V(!new)>(style: Style, a: seq<Seg<V>>, b: seq<Seg<V>>, q: seq<Seg<V>>,
                                     inter: Interval, w: set<V>)
    requires BlockPre(style, a, b, q, inter) && w != {}
    ensures Form(style, AddedToBlock(style, a, b, q, inter, w))
    ensures forall x, v :: Holds(AddedToBlock(style, a, b, q, inter, w), x, v) <==>
              Holds(a, x, v) || Holds(b, x, v) || Holds(q, x, v) || On(First(inter), Last(inter), w, x, v)
  {
    var p, block, n := SplitLeft(a, b[0], inter), SplitBlock(b, inter), |b| - 1;
    var init, last := block[..n], block[n];
    assert block == init + [last];
    BlockCut(style, a, b, q, inter, p, init, last);
    LoopThenEndCorrect(style, p, init, last, q, inter, w);
    AddedParts(a, b, p, init, last, q, LoopThenEnd(style, p, init, last, q, inter, w), inter, w);
  }

  lemma AddedParts<V(!new)>(a: seq<Seg<V>>, b: seq<Seg<V>>, p: seq<Seg<V>>, init: seq<Seg<V>>, last: Seg<V>,
                            q: seq<Seg<V>>, r: seq<Seg<V>>, inter: Interval, w: set<V>)
    requires forall x, v :: Holds(a, x, v) || Holds(b, x, v) <==> Holds(p, x, v) || Holds(init, x, v) || At(last, x, v)
    requires forall x, v :: Holds(r, x, v) <==>
               Holds(p, x, v) || Holds(init, x, v) || At(last, x, v) || Holds(q, x, v)
               || On(First(inter), Last(inter), w, x, v)
    ensures forall x, v :: Holds(r, x, v) <==>
              Holds(a, x, v) || Holds(b, x, v) || Holds(q, x, v) || On(First(inter), Last(inter), w, x, v)
  {
  }

  function Added<V(==)>(style: Style, s: seq<Seg<V>>, inter: Interval, w: set<V>): seq<Seg<V>> {
    if IsEmpty(inter) || w == {} then s
    else
      var lb, ub := LowerBound(s, inter), UpperBound(s, inter);
      if ub <= lb then Glue(style, Push(style, s[..lb], Seg(inter, w)), s[lb..])
      else AddedToBlock(style, s[..lb], s[lb..ub], s[ub..], inter, w)
  }

  /** How the probe cuts a well-formed list in three. */
  lemma BlockReady<V(!new)>(style: Style, s: seq<Seg<V>>, inter: Interval)
    requires Form(style, s) && !IsEmpty(inter)
    ensures var lb, ub := LowerBound(s, inter), UpperBound(s, inter);
            && lb <= ub && Form(style, s[..lb]) && Form(style, s[lb..ub]) && Form(style, s[ub..])
            && EndsBefore(s[..lb], First(inter)) && StartsAfter(s[ub..], Last(inter))
            && (lb == ub ==> s[lb..ub] == [])
            && (lb < ub ==> Intersects(s[lb].itv, inter) && Intersects(s[ub - 1].itv, inter))
            && (lb < ub && 0 < lb ==> Apart(style, s[lb - 1], s[lb]))
            && (lb < ub < |s| ==> Apart(style, s[ub - 1], s[ub]))
    ensures var lb, ub := LowerBound(s, inter), UpperBound(s, inter);
            forall x, v :: Holds(s, x, v) <==> Holds(s[..lb], x, v) || Holds(s[lb..ub], x, v) || Holds(s[ub..], x, v)
  {
    var lb, ub := LowerBound(s, inter), UpperBound(s, inter);
    EqualRangeIsOverlap(style, s, inter);
    FormSplit(style, s, ub);
    FormSplit(style, s[..ub], lb);
    assert s[..ub][..lb] == s[..lb] && s[..ub][lb..] == s[lb..ub];
    if lb < ub {
      assert Intersects(s[lb].itv, inter) && Intersects(s[ub - 1].itv, inter);
      assert 0 < lb ==> s[..ub][lb - 1] == s[lb - 1];
    }
  }

  /** Inside the interval only the overlapped block holds anything. */
  lemma BlockHolds<V(!new)>(style: Style, s: seq<Seg<V>>, inter: Interval)
    requires Form(style, s) && !IsEmpty(inter)
    ensures LowerBound(s, inter) <= UpperBound(s, inter)
    ensures forall x, v :: Has(inter, x) && Holds(s, x, v) ==>
              Holds(s[LowerBound(s, inter)..UpperBound(s, inter)], x, v)
  {
    BlockReady(style, s, inter);
    HoldsWithin(style, s[..LowerBound(s, inter)]);
    HoldsWithin(style, s[UpperBound(s, inter)..]);
  }

  /** Adding a segment to a well-formed list leaves a well-formed list, canonical when
      the style joins, that holds the added values on the interval besides the old ones. */
  lemma AddedCorrect<V(!new)>(style: Style, s: seq<Seg<V>>, inter: Interval, w: set<V>)
    requires Form(style, s) && Fits(style, inter)
    ensures Form(style, Added(style, s, inter, w))
    ensures forall x, v :: Holds(Added(style, s, inter, w), x, v) <==>
              Holds(s, x, v) || On(First(inter), Last(inter), w, x, v)
  {
    if !IsEmpty(inter) && w != {} {
      var lb, ub := LowerBound(s, inter), UpperBound(s, inter);
      BlockReady(style, s, inter);
      if ub == lb {
        PushCorrect(style, s[..lb], Seg(inter, w));
        GlueCorrect(style, Push(style, s[..lb], Seg(inter, w)), s[lb..]);
      } else {
        AddedToBlockCorrect(style, s[..lb], s[lb..ub], s[ub..], inter, w);
      }
    }
  }

  /** Splitting the first segment of the block in place splits the block. */
  lemma SplitInPlace<V(!new)>(s: seq<Seg<V>>, lb: nat, ub: nat, inter: Interval)
    requires lb < ub <= |s|
    ensures var p, block, n := SplitLeft(s[..lb], s[lb], inter), SplitBlock(s[lb..ub], inter), ub - lb - 1;
            p + [SplitRight(s[lb], inter)] + s[lb + 1..] == p + block[..n] + ([block[n]] + s[ub..])
  {
    var block, n := SplitBlock(s[lb..ub], inter), ub - lb - 1;
    assert block == block[..n] + [block[n]];
    assert [SplitRight(s[lb], inter)] + s[lb + 1..] == block + s[ub..];
  }

  /** The overlapped block, once split, holds no empty interval. */
  lemma SplitBlockNonEmpty<V(!new)>(style: Style, s: seq<Seg<V>>, inter: Interval)
    requires Form(style, s) && Fits(style, inter) && !IsEmpty(inter)
    requires LowerBound(s, inter) < UpperBound(s, inter)
    ensures var block := SplitBlock(s[LowerBound(s, inter)..UpperBound(s, inter)], inter);
            NonEmpty(block) && block[|block| - 1].val != {}
  {
    var lb, ub := LowerBound(s, inter), UpperBound(s, inter);
    EqualRangeIsOverlap(style, s, inter);
    assert Intersects(s[lb].itv, inter);
    forall k | lb <= k < ub
      ensures !IsEmpty(s[k].itv)
    {
      IsGood(style, s, k);
    }
    IsGood(style, s, ub - 1);
  }
}
