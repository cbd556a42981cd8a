/** What inserting a segment leaves behind, and the proof that it fills exactly the
    undefined ticks of the interval and changes no defined one. */
module Insertion {
  import opened Intervals
  import opened Segments
  import opened Addition

  /** Fill the gap in front of a segment; a joining map then looks at both sides of it. */
  function InsertStep<V(==)>(style: Style, p: seq<Seg<V>>, seg: Seg<V>, inter: Interval, w: set<V>): seq<Seg<V>> {
    var gap := RightSubtract(inter, seg.itv);
    if IsEmpty(gap) then p + [seg] else Push(style, Push(style, p, Seg(gap, w)), seg)
  }

  function InsertLoop<V(==)>(style: Style, p: seq<Seg<V>>, block: seq<Seg<V>>, inter: Interval, w: set<V>): seq<Seg<V>>
    decreases block
  {
    if block == [] then p
    else InsertLoop(style, InsertStep(style, p, block[0], inter, w), block[1..], LeftSubtract(inter, block[0].itv), w)
  }

  /** Behind a segment nothing of the addend is left in front of it: meeting the segment
      a second time does nothing. */
  lemma SecondVisit<V(!new)>(seg: Seg<V>, inter: Interval)
    requires !IsEmpty(seg.itv)
    ensures var rest := LeftSubtract(inter, seg.itv);
            IsEmpty(RightSubtract(rest, seg.itv)) && LeftSubtract(rest, seg.itv) == rest
  {
  }

  /** One turn of the loop whose gap found no join on its right: the segment is still
      to come. */
  lemma InsertUnjoined<V(!new)>(style: Style, p: seq<Seg<V>>, block: seq<Seg<V>>, inter: Interval, w: set<V>)
    requires block != [] && !IsEmpty(block[0].itv) && !IsEmpty(RightSubtract(inter, block[0].itv))
    requires var pushed := Push(style, p, Seg(RightSubtract(inter, block[0].itv), w));
             !(style.joining && Joinable(pushed[|pushed| - 1], block[0]))
    ensures var pushed, rest := Push(style, p, Seg(RightSubtract(inter, block[0].itv), w)),
                                LeftSubtract(inter, block[0].itv);
            && InsertLoop(style, pushed, block, rest, w) == InsertLoop(style, p, block, inter, w)
            && RestAfter(block, rest) == RestAfter(block, inter)
  {
    SecondVisit(block[0], inter);
  }

  /** One turn of the loop, whether it has passed the segment or still has it to come. */
  lemma InsertTurned<V(!new)>(style: Style, p: seq<Seg<V>>, todo: seq<Seg<V>>, inter: Interval, w: set<V>,
                              now: seq<Seg<V>>, passed: bool)
    requires todo != [] && NonEmpty(todo)
    requires var pushed := Push(style, p, Seg(RightSubtract(inter, todo[0].itv), w));
             if passed then now == InsertStep(style, p, todo[0], inter, w)
             else
               && now == pushed && !IsEmpty(RightSubtract(inter, todo[0].itv))
               && !(style.joining && Joinable(pushed[|pushed| - 1], todo[0]))
    ensures var left, rest := if passed then todo[1..] else todo, LeftSubtract(inter, todo[0].itv);
            && InsertLoop(style, now, left, rest, w) == InsertLoop(style, p, todo, inter, w)
            && RestAfter(left, rest) == RestAfter(todo, inter) && NonEmpty(left)
            && IsEmpty(RightSubtract(rest, todo[0].itv))
  {
    NonEmptySlice(todo, 0, |todo|);
    NonEmptySlice(todo, 1, |todo|);
    SecondVisit(todo[0], inter);
    if !passed {
      InsertUnjoined(style, p, todo, inter, w);
    }
  }

  function InsertEnd<V(==)>(style: Style, p: seq<Seg<V>>, q: seq<Seg<V>>, gap: Interval, w: set<V>): seq<Seg<V>> {
    if IsEmpty(gap) then p + q else Glue(style, Push(style, p, Seg(gap, w)), q)
  }

  function Inserted<V(==)>(style: Style, s: seq<Seg<V>>, inter: Interval, w: set<V>): seq<Seg<V>> {
    if IsEmpty(inter) || w == {} then s
    else
      var lb, ub := LowerBound(s, inter), UpperBound(s, inter);
      if ub <= lb then Glue(style, Push(style, s[..lb], Seg(inter, w)), s[lb..])
      else InsertIntoBlock(style, s[..lb], s[lb..ub], s[ub..], inter, w)
  }

  function InsertIntoBlock<V(==)>(style: Style, a: seq<Seg<V>>, b: seq<Seg<V>>, q: seq<Seg<V>>,
                                  inter: Interval, w: set<V>): seq<Seg<V>>
    requires b != []
  {
    InsertEnd(style, InsertLoop(style, a, b, inter, w), q,
              LeftSubtract(RestAfter(b, inter), b[|b| - 1].itv), w)
  }

  lemma InsertStepCorrect<V(!new)>(style: Style, p: seq<Seg<V>>, seg: Seg<V>, inter: Interval, w: set<V>)
    requires Form(style, p) && Good(style, seg) && Fits(style, inter) && w != {}
    requires EndsBefore(p, First(inter)) && (p != [] ==> Apart(style, p[|p| - 1], seg))
    requires First(inter) <= Last(seg.itv) && First(seg.itv) <= Last(inter)
    ensures var r := InsertStep(style, p, seg, inter, w);
            Form(style, r) && r != [] && Last(r[|r| - 1].itv) == Last(seg.itv) && r[|r| - 1].val == seg.val
    ensures forall x, v :: Holds(InsertStep(style, p, seg, inter, w), x, v) <==>
              Holds(p, x, v) || At(seg, x, v) || On(First(inter), First(seg.itv) - 1, w, x, v)
  {
    var gap := RightSubtract(inter, seg.itv);
    if IsEmpty(gap) {
      FormAppend(style, p, seg);
      HoldsAppend(p, seg);
    } else {
      PushCorrect(style, p, Seg(gap, w));
      PushCorrect(style, Push(style, p, Seg(gap, w)), seg);
    }
  }

  ghost predicate LoopPre<V>(style: Style, p: seq<Seg<V>>, block: seq<Seg<V>>, inter: Interval, w: set<V>) {
    && Form(style, p) && Form(style, block) && block != [] && Fits(style, inter) && w != {}
    && !IsEmpty(inter) && EndsBefore(p, First(inter)) && (p != [] ==> Apart(style, p[|p| - 1], block[0]))
    && First(inter) <= Last(block[0].itv) && First(block[|block| - 1].itv) <= Last(inter)
  }

  /** What is left of the interval behind a segment that it reaches. */
  lemma RestBehind(style: Style, seg: Interval, inter: Interval)
    requires !IsEmpty(seg) && !IsEmpty(inter) && Fits(style, seg) && Fits(style, inter) && First(inter) <= Last(seg)
    ensures var rest := LeftSubtract(inter, seg);
            First(rest) == Last(seg) + 1 && Last(rest) == Last(inter) && Fits(style, rest)
  {
  }

  /** One node of the loop; after it the loop is where it could have started on the others. */
  lemma LoopPreNext<V(!new)>(style: Style, p: seq<Seg<V>>, block: seq<Seg<V>>, inter: Interval, w: set<V>)
    requires LoopPre(style, p, block, inter, w)
    ensures Good(style, block[0]) && First(block[0].itv) <= Last(inter)
    ensures var rest := LeftSubtract(inter, block[0].itv);
            && First(rest) == Last(block[0].itv) + 1 && Last(rest) == Last(inter) && Fits(style, rest)
            && (1 < |block| ==> LoopPre(style, InsertStep(style, p, block[0], inter, w), block[1..], rest, w))
  {
    var n := |block| - 1;
    var p', rest := InsertStep(style, p, block[0], inter, w), LeftSubtract(inter, block[0].itv);
    FormTail(style, block);
    IsGood(style, block, n);
    assert 0 < n ==> Apart(style, block[0], block[n]);
    RestBehind(style, block[0].itv, inter);
    if 0 < n {
      InsertStepCorrect(style, p, block[0], inter, w);
      IsGood(style, block, 1);
      assert 1 < n ==> Apart(style, block[1], block[n]);
      assert First(rest) <= Last(block[1].itv) && First(block[n].itv) <= Last(rest) && !IsEmpty(rest);
      assert Apart(style, p'[|p'| - 1], block[1]);
    }
  }

  lemma {:induction false} InsertLoopForm<V(!new)>(style: Style, p: seq<Seg<V>>, block: seq<Seg<V>>,
                                                   inter: Interval, w: set<V>)
    requires LoopPre(style, p, block, inter, w)
    ensures var r, last := InsertLoop(style, p, block, inter, w), block[|block| - 1];
            Form(style, r) && r != [] && Last(r[|r| - 1].itv) == Last(last.itv) && r[|r| - 1].val == last.val
    decreases block
  {
    var p', rest := InsertStep(style, p, block[0], inter, w), LeftSubtract(inter, block[0].itv);
    LoopPreNext(style, p, block, inter, w);
    if |block| == 1 {
      InsertStepCorrect(style, p, block[0], inter, w);
      assert block[1..] == [];
    } else {
      InsertLoopForm(style, p', block[1..], rest, w);
    }
  }

  /** What the loop leaves of the interval. */
  lemma {:induction false} LoopRest<V(!new)>(style: Style, p: seq<Seg<V>>, block: seq<Seg<V>>,
                                             inter: Interval, w: set<V>)
    requires LoopPre(style, p, block, inter, w)
    ensures var rest := RestAfter(block, inter);
            && First(rest) == Last(block[|block| - 1].itv) + 1 && Last(rest) == Last(inter) && Fits(style, rest)
    decreases block
  {
    LoopPreNext(style, p, block, inter, w);
    if |block| == 1 {
      assert block[1..] == [];
    } else {
      LoopRest(style, InsertStep(style, p, block[0], inter, w), block[1..], LeftSubtract(inter, block[0].itv), w);
    }
  }

  lemma {:induction false} InsertLoopMeans<V(!new)>(style: Style, p: seq<Seg<V>>, block: seq<Seg<V>>,
                                                    inter: Interval, w: set<V>)
    requires LoopPre(style, p, block, inter, w)
    ensures forall x, v :: Holds(InsertLoop(style, p, block, inter, w), x, v) <==>
              || Holds(p, x, v) || Holds(block, x, v)
              || (On(First(inter), Last(block[|block| - 1].itv), w, x, v) && !Covers(block, x))
    decreases block
  {
    var p', rest := InsertStep(style, p, block[0], inter, w), LeftSubtract(inter, block[0].itv);
    LoopPreNext(style, p, block, inter, w);
    InsertStepCorrect(style, p, block[0], inter, w);
    FormTail(style, block);
    if |block| == 1 {
      assert block == [block[0]] && block[1..] == [];
    } else {
      InsertLoopMeans(style, p', block[1..], rest, w);
      CoversTail(style, block);
      IsGood(style, block, |block| - 1);
      assert Apart(style, block[0], block[|block| - 1]);
    }
  }

  /** Which ticks a list covers, by its first segment and the others. */
  lemma CoversTail<V(!new)>(style: Style, s: seq<Seg<V>>)
    requires Form(style, s) && 1 < |s|
    ensures forall x :: Covers(s, x) <==> Has(s[0].itv, x) || Covers(s[1..], x)
    ensures forall x :: Covers(s[1..], x) ==> First(s[1].itv) <= x
  {
    FormTail(style, s);
    assert s == [s[0]] + s[1..];
    forall x
      ensures Covers(s, x) <==> Has(s[0].itv, x) || Covers(s[1..], x)
      ensures Covers(s[1..], x) ==> First(s[1].itv) <= x
    {
      CoversConcat([s[0]], s[1..], x);
      assert Has(s[0].itv, x) ==> Has([s[0]][0].itv, x);
      if x < First(s[1].itv) {
        NothingBeforeStart(style, s[1..], x);
      }
    }
  }

  /** The gap behind the last node of the block. */
  lemma InsertEndCorrect<V(!new)>(style: Style, p: seq<Seg<V>>, q: seq<Seg<V>>, gap: Interval, w: set<V>)
    requires Form(style, p) && Form(style, q) && Fits(style, gap) && w != {}
    requires p != [] && (q != [] ==> Apart(style, p[|p| - 1], q[0]))
    requires !IsEmpty(gap) ==> EndsBefore(p, First(gap)) && StartsAfter(q, Last(gap))
    ensures Form(style, InsertEnd(style, p, q, gap, w))
    ensures forall x, v :: Holds(InsertEnd(style, p, q, gap, w), x, v) <==>
              Holds(p, x, v) || Holds(q, x, v) || (Has(gap, x) && v in w)
  {
    if IsEmpty(gap) {
      FormConcat(style, p, q);
      HoldsConcat(p, q);
    } else {
      PushCorrect(style, p, Seg(gap, w));
      GlueCorrect(style, Push(style, p, Seg(gap, w)), q);
    }
  }

  /** What filling the gaps, loop and end, comes to. */
  lemma InsertedParts<V(!new)>(style: Style, a: seq<Seg<V>>, b: seq<Seg<V>>, last: Interval, p: seq<Seg<V>>,
                               q: seq<Seg<V>>, gap: Interval, r: seq<Seg<V>>, inter: Interval, w: set<V>)
    requires Form(style, b) && b != [] && last == b[|b| - 1].itv && First(last) <= Last(inter) && !IsEmpty(last)
    requires forall x :: Has(gap, x) <==> Last(last) < x <= Last(inter)
    requires First(inter) <= Last(last)
    requires forall x, v :: Holds(p, x, v) <==>
               Holds(a, x, v) || Holds(b, x, v) || (On(First(inter), Last(last), w, x, v) && !Covers(b, x))
    requires forall x, v :: Holds(r, x, v) <==> Holds(p, x, v) || Holds(q, x, v) || (Has(gap, x) && v in w)
    ensures forall x, v :: Holds(r, x, v) <==>
              || Holds(a, x, v) || Holds(b, x, v) || Holds(q, x, v)
              || (On(First(inter), Last(inter), w, x, v) && !Covers(b, x))
  {
    forall x
      ensures First(last) <= x <= Last(last) ==> Covers(b, x)
      ensures Last(last) < x ==> !Covers(b, x)
    {
      if First(last) <= x <= Last(last) {
        assert Has(b[|b| - 1].itv, x);
      } else if Last(last) < x {
        NothingAfterEnd(style, b, x);
      }
    }
  }

  /** The gap is what the loop has left over. */
  lemma LastGap(style: Style, seg: Interval, rest: Interval)
    requires !IsEmpty(seg) && Fits(style, seg) && Fits(style, rest) && First(rest) == Last(seg) + 1
    ensures var gap := LeftSubtract(rest, seg);
            && Fits(style, gap) && (!IsEmpty(gap) ==> First(gap) == Last(seg) + 1 && Last(gap) == Last(rest))
            && forall x :: Has(gap, x) <==> Last(seg) < x <= Last(rest)
  {
  }

  /** Where the loop stands when it has come to the last node. */
  lemma BlockFilled<V(!new)>(style: Style, a: seq<Seg<V>>, b: seq<Seg<V>>, q: seq<Seg<V>>, inter: Interval, w: set<V>)
    requires BlockPre(style, a, b, q, inter) && w != {}
    ensures var p, last := InsertLoop(style, a, b, inter, w), b[|b| - 1].itv;
            var gap := LeftSubtract(RestAfter(b, inter), last);
            && LoopPre(style, a, b, inter, w) && !IsEmpty(last) && First(last) <= Last(inter)
            && Form(style, p) && p != [] && Fits(style, gap) && (q != [] ==> Apart(style, p[|p| - 1], q[0]))
            && (!IsEmpty(gap) ==> EndsBefore(p, First(gap)) && StartsAfter(q, Last(gap)))
            && (forall x :: Has(gap, x) <==> Last(last) < x <= Last(inter)) && First(inter) <= Last(last)
  {
    var n := |b| - 1;
    IsGood(style, b, 0);
    IsGood(style, b, n);
    assert 0 < n ==> Apart(style, b[0], b[n]);
    InsertLoopForm(style, a, b, inter, w);
    LoopRest(style, a, b, inter, w);
    LastGap(style, b[n].itv, RestAfter(b, inter));
  }

  lemma InsertIntoBlockCorrect<V(!new)>(style: Style, a: seq<Seg<V>>, b: seq<Seg<V>>, q: seq<Seg<V>>,
                                        inter: Interval, w: set<V>)
    requires BlockPre(style, a, b, q, inter) && w != {}
    ensures Form(style, InsertIntoBlock(style, a, b, q, inter, w))
    ensures forall x, v :: Holds(InsertIntoBlock(style, a, b, q, inter, w), x, v) <==>
              || Holds(a, x, v) || Holds(b, x, v) || Holds(q, x, v)
              || (On(First(inter), Last(inter), w, x, v) && !Covers(b, x))
  {
    var p, last := InsertLoop(style, a, b, inter, w), b[|b| - 1].itv;
    var gap := LeftSubtract(RestAfter(b, inter), last);
    BlockFilled(style, a, b, q, inter, w);
    InsertLoopMeans(style, a, b, inter, w);
    InsertEndCorrect(style, p, q, gap, w);
    InsertedParts(style, a, b, last, p, q, gap, InsertIntoBlock(style, a, b, q, inter, w), inter, w);
  }

  /** Inserting a segment into a well-formed list fills exactly the undefined ticks of
      the interval, changes no defined tick, and keeps the list well-formed. */
  lemma InsertedCorrect<V(!new)>(style: Style, s: seq<Seg<V>>, inter: Interval, w: set<V>)
    requires Form(style, s) && Fits(style, inter)
    ensures Form(style, Inserted(style, s, inter, w))
    ensures forall x, v :: Holds(Inserted(style, s, inter, w), x, v) <==>
              Holds(s, x, v) || (On(First(inter), Last(inter), w, x, v) && !Covers(s, x))
  {
    if !IsEmpty(inter) && w != {} {
      var lb, ub := LowerBound(s, inter), UpperBound(s, inter);
      BlockReady(style, s, inter);
      BlockCovers(style, s, inter);
      if ub == lb {
        PushCorrect(style, s[..lb], Seg(inter, w));
        GlueCorrect(style, Push(style, s[..lb], Seg(inter, w)), s[lb..]);
      } else {
        InsertIntoBlockCorrect(style, s[..lb], s[lb..ub], s[ub..], inter, w);
      }
    }
  }

  /** Inside the probe only the overlapped block can cover a tick. */
  lemma BlockCovers<V(!new)>(style: Style, s: seq<Seg<V>>, inter: Interval)
    requires Form(style, s) && !IsEmpty(inter)
    ensures LowerBound(s, inter) <= UpperBound(s, inter)
    ensures forall x :: Has(inter, x) ==>
              (Covers(s, x) <==> Covers(s[LowerBound(s, inter)..UpperBound(s, inter)], x))
  {
    var lb, ub := LowerBound(s, inter), UpperBound(s, inter);
    EqualRangeIsOverlap(style, s, inter);
    forall x | Has(inter, x)
      ensures Covers(s, x) <==> Covers(s[lb..ub], x)
    {
      if k :| 0 <= k < |s| && Has(s[k].itv, x) {
        assert Intersects(s[k].itv, inter);
        assert s[lb..ub][k - lb] == s[k];
      }
      if k :| 0 <= k < ub - lb && Has(s[lb..ub][k].itv, x) {
        assert s[lb + k] == s[lb..ub][k];
      }
    }
  }

  /** Inserting at a key that is there already changes nothing, and neither does joining
      that node to its neighbours. */
  lemma InsertedAtKey<V(!new)>(style: Style, s: seq<Seg<V>>, k: nat, inter: Interval, w: set<V>)
    requires Form(style, s) && k < |s| && Equal(s[k].itv, inter) && !IsEmpty(inter) && w != {}
    ensures Inserted(style, s, inter, w) == s
    ensures Glue(style, Push(style, s[..k], s[k]), s[k + 1..]) == s
  {
    BoundsSplit(style, s, inter);
    assert k < |s| - 1 ==> Apart(style, s[k], s[k + 1]);
    assert 0 < k ==> Apart(style, s[k - 1], s[k]);
    assert LowerBound(s, inter) == k && UpperBound(s, inter) == k + 1;
    var b := s[k..k + 1];
    assert b == [s[k]] && s[..k] + [s[k]] == s[..k + 1];
    GlueApart(style, s[..k + 1], s[k + 1..]);
    assert s[..k + 1] + s[k + 1..] == s;
    SecondVisit(s[k], inter);
    assert b[1..] == [];
    assert InsertLoop(style, s[..k], b, inter, w) == s[..k] + [s[k]];
    assert RestAfter(b, inter) == LeftSubtract(inter, s[k].itv);
    assert InsertIntoBlock(style, s[..k], b, s[k + 1..], inter, w) == s[..k + 1] + s[k + 1..];
  }
}
