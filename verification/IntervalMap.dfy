/** The interval map: a sorted container of disjoint segments, changed in place.
    Positions in `segs` stand for iterators. */
module IntervalMaps {
  import opened Intervals
  import opened Segments
  import opened Addition
  import opened Subtraction
  import opened Insertion
  import opened Erasure
  import opened Canonical
  import opened IntervalSets
  import opened Flipping
  import opened Containment
  import opened Morphisms

  /** Position of the end iterator that stepping back from the first node yields. */
  const NONE := -1

  /** The two in-place combinations of codomain values. */
  datatype Combiner = Plus | Minus

  function Combine<V>(c: Combiner, a: set<V>, b: set<V>): set<V> {
    match c
    case Plus => a + b
    case Minus => a - b
  }

  /** Where the pieces of a list begin. */
  lemma CutThree<T>(p: seq<T>, b: seq<T>, q: seq<T>, s: seq<T>)
    requires s == p + b + q
    ensures s[..|p|] == p && s[|p|..|s| - |q|] == b && s[|s| - |q|..] == q
  {
  }

  lemma BlockPieces<T>(s: seq<T>, first: nat, end: nat)
    requires first < end <= |s|
    ensures s[first..end][0] == s[first] && s[first..end][1..] == s[first + 1..end]
    ensures s[first + 1..] == s[first + 1..end] + s[end..]
  {
  }

  class IntervalMap<V(==,!new)> {
    const style: Style
    var segs: seq<Seg<V>>

    ghost predicate Valid()
      reads this
    {
      Form(style, segs)
    }

    constructor (style: Style)
      ensures Valid() && segs == [] && this.style == style
    {
      this.style := style;
      segs := [];
    }

    // ----- node operations -----

    method InsertNode(at: nat, seg: Seg<V>)
      requires at <= |segs|
      modifies this
      ensures segs == old(segs)[..at] + [seg] + old(segs)[at..]
      ensures segs[..at] == old(segs)[..at] && segs[at] == seg && segs[at + 1..] == old(segs)[at..]
    {
      segs := segs[..at] + [seg] + segs[at..];
    }

    method EraseNode(at: nat)
      requires at < |segs|
      modifies this
      ensures segs == old(segs)[..at] + old(segs)[at + 1..]
    {
      segs := segs[..at] + segs[at + 1..];
    }

    /** Insertion into the tree: refused when a node shares a tick with the key, and
        then some such node is found instead. */
    method TryInsert(seg: Seg<V>) returns (it: nat, inserted: bool)
      requires Valid() && !IsEmpty(seg.itv)
      modifies this
      ensures var lb, ub := LowerBound(old(segs), seg.itv), UpperBound(old(segs), seg.itv);
              if inserted then lb == ub && it == lb && segs == old(segs)[..it] + [seg] + old(segs)[it..]
              else lb <= it < ub <= |segs| && segs == old(segs)
    {
      EqualRangeIsOverlap(style, segs, seg.itv);
      var lb, ub := LowerBound(segs, seg.itv), UpperBound(segs, seg.itv);
      inserted := lb == ub;
      if inserted {
        it := lb;
        InsertNode(it, seg);
      } else {
        it :| lb <= it < ub;
      }
    }

    method SetNode(at: nat, seg: Seg<V>)
      requires at < |segs|
      modifies this
      ensures |segs| == |old(segs)| && segs[..at] == old(segs)[..at] && segs[at] == seg
      ensures segs[at + 1..] == old(segs)[at + 1..]
    {
      segs := segs[at := seg];
    }

    // ----- joining -----

    method JoinNodes(left: nat)
      requires left + 1 < |segs|
      modifies this
      ensures segs == old(segs)[..left]
                    + [Seg(Hull(old(segs)[left].itv, old(segs)[left + 1].itv), old(segs)[left].val)]
                    + old(segs)[left + 2..]
    {
      var right := segs[left + 1].itv;
      EraseNode(left + 1);
      segs := segs[left := Seg(Hull(segs[left].itv, right), segs[left].val)];
    }

    method JoinLeft(it: nat) returns (r: nat)
      requires style.joining && it < |segs|
      modifies this
      ensures segs == Push(style, old(segs)[..it], old(segs)[it]) + old(segs)[it + 1..]
      ensures r == |Push(style, old(segs)[..it], old(segs)[it])| - 1
    {
      r := it;
      if it != 0 && Joinable(segs[it - 1], segs[it]) {
        JoinNodes(it - 1);
        r := it - 1;
      }
    }

    method JoinRight(it: nat)
      requires style.joining && it < |segs|
      modifies this
      ensures segs == old(segs)[..it] + Glue(style, [old(segs)[it]], old(segs)[it + 1..])
    {
      if it + 1 != |segs| && Joinable(segs[it], segs[it + 1]) {
        JoinNodes(it);
      }
    }

    method JoinNeighbours(it: nat) returns (r: nat)
      requires style.joining && it < |segs|
      modifies this
      ensures segs == Glue(style, Push(style, old(segs)[..it], old(segs)[it]), old(segs)[it + 1..])
      ensures r == |Push(style, old(segs)[..it], old(segs)[it])| - 1
    {
      ghost var p := Push(style, segs[..it], segs[it]);
      ghost var q := segs[it + 1..];
      r := JoinLeft(it);
      assert segs == p + q && segs[..r] == p[..r] && segs[r] == p[r] && segs[r + 1..] == q;
      GlueAtLast(style, p, q);
      JoinRight(r);
    }

    // ----- the hooks in which joining and splitting maps differ -----

    method HandleInserted(it: nat) returns (r: nat)
      requires it < |segs|
      modifies this
      ensures segs == Glue(style, Push(style, old(segs)[..it], old(segs)[it]), old(segs)[it + 1..])
      ensures r == |Push(style, old(segs)[..it], old(segs)[it])| - 1
    {
      r := it;
      if style.joining {
        r := JoinNeighbours(it);
      }
    }

    /** The hook for a lead gap: it only looks at the node before the gap. On the first
        node the caller passes the node after the gap, which never joins. */
    method HandleInsertedAfter(prior: int, it: nat)
      requires it < |segs|
      requires prior == it - 1
            || (it == 0 && (prior == NONE || (prior == 1 && 1 < |segs| && Before(segs[0], segs[1])
                                              && !IsEmpty(segs[0].itv) && !IsEmpty(segs[1].itv))))
      modifies this
      ensures segs == Push(style, old(segs)[..it], old(segs)[it]) + old(segs)[it + 1..]
    {
      if style.joining && prior != NONE && Joinable(segs[prior], segs[it]) {
        JoinNodes(prior);
      }
    }

    method HandleLeftCombined(it: nat)
      requires it < |segs|
      modifies this
      ensures segs == PushCombined(style, old(segs)[..it], old(segs)[it]) + old(segs)[it + 1..]
    {
      if segs[it].val == {} {
        EraseNode(it);
      } else if style.joining {
        var _ := JoinLeft(it);
      }
    }

    method HandleCombined(it: nat)
      requires it < |segs|
      modifies this
      ensures segs == if old(segs)[it].val == {} then old(segs)[..it] + old(segs)[it + 1..]
                      else Glue(style, Push(style, old(segs)[..it], old(segs)[it]), old(segs)[it + 1..])
    {
      if segs[it].val == {} {
        EraseNode(it);
      } else if style.joining {
        var _ := JoinNeighbours(it);
      }
    }

    method HandlePrecededCombined(prior: int, it: nat) returns (r: int)
      requires it < |segs|
      modifies this
      ensures segs == if old(segs)[it].val == {} then old(segs)[..it] + old(segs)[it + 1..]
                      else Glue(style, Push(style, old(segs)[..it], old(segs)[it]), old(segs)[it + 1..])
      ensures r == if old(segs)[it].val == {} then prior
                   else |Push(style, old(segs)[..it], old(segs)[it])| - 1
    {
      r := it;
      if segs[it].val == {} {
        EraseNode(it);
        r := prior;
      } else if style.joining {
        r := JoinNeighbours(it);
      }
    }

    /** `it` was shortened and combined, the node after it holds the rest. */
    method HandleSucceededCombined(it: nat)
      requires it + 1 < |segs|
      modifies this
      ensures segs == (var p, q := old(segs)[..it], old(segs)[it + 2..];
                       if old(segs)[it].val == {} then p + Glue(style, [old(segs)[it + 1]], q)
                       else Glue(style, Push(style, Push(style, p, old(segs)[it]), old(segs)[it + 1]), q))
    {
      if segs[it].val == {} {
        EraseNode(it);
        if style.joining {
          JoinRight(it);
        }
      } else if style.joining {
        ghost var p := Push(style, segs[..it], segs[it]);
        ghost var q := segs[it + 1..];
        var left := JoinLeft(it);
        assert segs == p + q;
        assert segs[..left + 1] == p && segs[left + 1] == q[0] && segs[left + 2..] == q[1..];
        var _ := JoinNeighbours(left + 1);
      }
    }

    method HandleReinserted(it: nat)
      requires it < |segs|
      modifies this
      ensures segs == old(segs)[..it] + Glue(style, [old(segs)[it]], old(segs)[it + 1..])
    {
      if style.joining {
        JoinRight(it);
      }
    }

    /** `it` was combined and the addend sticks out beyond it by `gap`. */
    method GapInsertAt(it: nat, gap: Interval, w: set<V>) returns (r: nat)
      requires it < |segs| && w != {}
      modifies this
      ensures segs == (var p, q := old(segs)[..it], old(segs)[it + 1..];
                       if old(segs)[it].val == {} then p + Glue(style, [Seg(gap, w)], q)
                       else Glue(style, Push(style, Push(style, p, old(segs)[it]), Seg(gap, w)), q))
    {
      if segs[it].val == {} {
        segs := segs[it := Seg(gap, w)];
        r := it;
        if style.joining {
          JoinRight(it);
        }
      } else {
        var left := it;
        if style.joining {
          left := JoinLeft(it);
        }
        assert segs[..left + 1] == Push(style, old(segs)[..it], old(segs)[it]);
        assert segs[left + 1..] == old(segs)[it + 1..];
        InsertNode(left + 1, Seg(gap, w));
        assert segs[..left + 1] == Push(style, old(segs)[..it], old(segs)[it]);
        assert segs[left + 2..] == old(segs)[it + 1..];
        r := HandleInserted(left + 1);
      }
    }

    // ----- lookup -----

    /** The values held at a tick, the empty set where the map is undefined. */
    method Select(x: int) returns (r: set<V>)
      requires Valid()
      ensures forall v :: v in r <==> Holds(segs, x, v)
    {
      var probe := Singleton(x);
      var it := LowerBound(segs, probe);
      FindIsExact(style, segs, x);
      if it != |segs| && !ExclusiveLess(probe, segs[it].itv) {
        HoldsInside(style, segs, it, x);
        r := segs[it].val;
      } else {
        r := {};
      }
    }

    /** The number of ticks at which the map is defined. */
    method Cardinality() returns (size: nat)
      ensures size == TickCount(segs)
    {
      size := 0;
      for it := 0 to |segs|
        invariant size + TickCount(segs[it..]) == TickCount(segs)
      {
        assert segs[it..][0] == segs[it] && segs[it..][1..] == segs[it + 1..];
        size := size + Intervals.Cardinality(segs[it].itv);
      }
    }

    /** Do the nodes from `first` to `past` form one run of equal values? */
    method IsJoinable(first: nat, past: nat) returns (b: bool)
      requires first <= past < |segs|
      ensures b <==> RunOf(segs, first, past)
    {
      var it := first;
      while it != past
        invariant first <= it <= past && RunOf(segs, first, it)
      {
        if segs[it + 1].val != segs[first].val || !Touches(segs[it].itv, segs[it + 1].itv) {
          assert !Linked(segs, first, it);
          return false;
        }
        assert Linked(segs, first, it);
        it := it + 1;
      }
      return true;
    }

    /** Is the map defined, with exactly the values `w`, throughout the interval? */
    method ContainsSegment(inter: Interval, w: set<V>) returns (b: bool)
      requires Valid()
      ensures b <==> HoldsExactly(segs, inter, w)
    {
      if IsEmpty(inter) {
        return true;
      }
      BlockTestIsExact(style, segs, inter, w);
      EqualRangeIsOverlap(style, segs, inter);
      var first, end := LowerBound(segs, inter), UpperBound(segs, inter);
      if first == end {
        return false;
      }
      var last := end - 1;
      if w != segs[first].val {
        return false;
      }
      b := ContainsInterval(Hull(segs[first].itv, segs[last].itv), inter);
      if b {
        b := IsJoinable(first, last);
      }
    }

    // ----- addition -----

    /** Split the first overlapped node where the addend begins. */
    method SplitFront(inter: Interval, first: nat) returns (it: nat)
      requires first < |segs|
      modifies this
      ensures segs == SplitLeft(old(segs)[..first], old(segs)[first], inter)
                    + [SplitRight(old(segs)[first], inter)] + old(segs)[first + 1..]
      ensures it == |SplitLeft(old(segs)[..first], old(segs)[first], inter)|
    {
      it := first;
      var resid := RightSubtract(segs[first].itv, inter);
      if !IsEmpty(resid) {
        segs := segs[first := Seg(LeftSubtract(segs[first].itv, resid), segs[first].val)];
        InsertNode(first, Seg(resid, segs[first].val));
        it := first + 1;
      }
    }

    /** Fill the gap in front of a node; `prior` is the node before it. */
    method FillLeadGap(inter: Interval, w: set<V>, it: nat, prior: int) returns (r: nat)
      requires it < |segs| && !IsEmpty(segs[it].itv)
      requires prior == it - 1 || (it == 0 && prior == 0)
      modifies this
      ensures segs == FillGap(style, old(segs)[..it], old(segs)[it], inter, w) + old(segs)[it..]
      ensures r == |FillGap(style, old(segs)[..it], old(segs)[it], inter, w)|
    {
      r := it;
      var gap := RightSubtract(inter, segs[it].itv);
      if !IsEmpty(gap) {
        ghost var filled, rest := Push(style, segs[..it], Seg(gap, w)), segs[it..];
        var after := |segs| - it;
        InsertNode(it, Seg(gap, w));
        // the first node has moved behind the gap
        HandleInsertedAfter(if prior == it then it + 1 else prior, it);
        assert segs == filled + rest;
        r := |segs| - after;
      }
    }

    /** Add to one overlapped node and to the gap in front of it. */
    method AddSegment(inter: Interval, w: set<V>, it: nat) returns (next: nat)
      requires it < |segs| && !IsEmpty(segs[it].itv) && w != {}
      modifies this
      ensures next <= |segs| && segs[next..] == old(segs)[it + 1..]
      ensures segs[..next] == AddStep(style, old(segs)[..it], old(segs)[it], inter, w)
    {
      ghost var seg, q := segs[it], segs[it + 1..];
      var after := |segs| - it - 1;
      var cur := FillLeadGap(inter, w, it, if it == 0 then it else it - 1);
      assert segs[cur] == seg && segs[cur + 1..] == q;
      SetNode(cur, Seg(segs[cur].itv, Combine(Plus, segs[cur].val, w)));
      assert segs[cur].val != {};
      HandleLeftCombined(cur);
      next := |segs| - after;
    }

    /** Add to every overlapped node but the last, which lies `fromEnd` nodes before the end. */
    method AddMain(inter: Interval, w: set<V>, it: nat, fromEnd: nat) returns (rest: Interval, r: nat)
      requires it + fromEnd <= |segs| && w != {}
      requires NonEmpty(segs[it..|segs| - fromEnd])
      modifies this
      ensures var block := old(segs)[it..|old(segs)| - fromEnd];
              && segs == AddLoop(style, old(segs)[..it], block, inter, w) + old(segs)[|old(segs)| - fromEnd..]
              && r == |AddLoop(style, old(segs)[..it], block, inter, w)|
              && rest == RestAfter(block, inter)
    {
      ghost var p, block, q := segs[..it], segs[it..|segs| - fromEnd], segs[|segs| - fromEnd..];
      rest, r := inter, it;
      ghost var todo := block;
      while |segs| - r != fromEnd
        invariant r <= |segs| && segs[r..] == todo + q && NonEmpty(todo)
        invariant AddLoop(style, segs[..r], todo, rest, w) == AddLoop(style, p, block, inter, w)
        invariant RestAfter(todo, rest) == RestAfter(block, inter)
        decreases |todo|
      {
        assert segs[r] == todo[0] && segs[r + 1..] == todo[1..] + q by {
          assert segs[r..][0] == todo[0] && segs[r..][1..] == todo[1..] + q;
        }
        NonEmptySlice(todo, 0, |todo|);
        NonEmptySlice(todo, 1, |todo|);
        var cur := segs[r].itv;
        r := AddSegment(rest, w, r);
        rest := LeftSubtract(rest, cur);
        todo := todo[1..];
      }
    }

    /** Add to the last overlapped node, the gap before it and what sticks out behind it. */
    method AddRear(inter: Interval, w: set<V>, it: nat) returns (r: int)
      requires it < |segs| && !IsEmpty(segs[it].itv) && w != {}
      modifies this
      ensures segs == AddEnd(style, old(segs)[..it], old(segs)[it], old(segs)[it + 1..], inter, w)
    {
      ghost var seg, q := segs[it], segs[it + 1..];
      var prior := if it == 0 then NONE else it - 1;
      var cur := FillLeadGap(inter, w, it, prior);
      assert segs[cur] == seg && segs[cur + 1..] == q;
      r := AddAtEnd(inter, w, cur, prior);
    }

    /** Add to the last overlapped node once the gap in front of it is filled. */
    method AddAtEnd(inter: Interval, w: set<V>, cur: nat, prior: int) returns (r: int)
      requires cur < |segs| && !IsEmpty(segs[cur].itv) && w != {}
      modifies this
      ensures segs == AddToLast(style, old(segs)[..cur], old(segs)[cur], old(segs)[cur + 1..], inter, w)
    {
      ghost var p, q := segs[..cur], segs[cur + 1..];
      var itv := segs[cur].itv;
      var combined := Combine(Plus, segs[cur].val, w);
      assert combined != {};
      var endGap := LeftSubtract(inter, itv);
      if !IsEmpty(endGap) {
        SetNode(cur, Seg(itv, combined));
        r := GapInsertAt(cur, endGap, w);
      } else {
        var resid := LeftSubtract(itv, inter);
        if IsEmpty(resid) {
          SetNode(cur, Seg(itv, combined));
          r := HandlePrecededCombined(prior, cur);
        } else {
          r := SplitBack(cur, resid, combined);
        }
      }
    }

    /** The last node goes on behind the addend: the rest of it becomes a node of its own. */
    method SplitBack(cur: nat, resid: Interval, combined: set<V>) returns (r: int)
      requires cur < |segs| && combined != {}
      modifies this
      ensures var p, seg, q := old(segs)[..cur], old(segs)[cur], old(segs)[cur + 1..];
              segs == Glue(style, Push(style, p, Seg(RightSubtract(seg.itv, resid), combined)),
                           Glue(style, [Seg(resid, seg.val)], q))
    {
      ghost var p, back, q := segs[..cur], Seg(resid, segs[cur].val), segs[cur + 1..];
      var front := RightSubtract(segs[cur].itv, resid);
      SetNode(cur, Seg(front, segs[cur].val));
      InsertNode(cur + 1, Seg(resid, segs[cur].val));
      assert segs[..cur + 1] == p + [segs[cur]] && segs[cur + 1] == back && segs[cur + 2..] == q;
      HandleReinserted(cur + 1);
      ghost var rest := Glue(style, [back], q);
      assert segs == p + [Seg(front, back.val)] + rest;
      SetNode(cur, Seg(front, combined));
      assert segs[..cur] == p && segs[cur + 1..] == rest;
      r := HandlePrecededCombined(cur + 1, cur);
    }

    /** Add the values `w` on the interval: `map += (inter, w)`. */
    method Add(inter: Interval, w: set<V>)
      requires Valid() && Fits(style, inter)
      modifies this
      ensures Valid() && segs == Added(style, old(segs), inter, w)
      ensures forall x, v :: Holds(segs, x, v) <==> Holds(old(segs), x, v) || On(First(inter), Last(inter), w, x, v)
    {
      ghost var s := segs;
      AddedCorrect(style, s, inter, w);
      if IsEmpty(inter) || w == {} {
        return;
      }
      EqualRangeIsOverlap(style, segs, inter);
      var it, inserted := TryInsert(Seg(inter, w));
      if inserted {
        assert segs[..it] == old(segs)[..it] && segs[it] == Seg(inter, w) && segs[it + 1..] == old(segs)[it..];
        var _ := HandleInserted(it);
      } else {
        AddToOverlapped(inter, w);
      }
      assert segs == Added(style, s, inter, w);
    }

    /** Insert with an empty value and combine; a node that was there before is told
        from a new one by its value, which is never empty. */
    method AddAt(inter: Interval, w: set<V>) returns (it: nat, inserted: bool)
      requires Valid() && !IsEmpty(inter)
      modifies this
      ensures var lb, ub := LowerBound(old(segs), inter), UpperBound(old(segs), inter);
              if inserted then lb == ub && it == lb && segs == old(segs)[..it] + [Seg(inter, w)] + old(segs)[it..]
              else lb < ub && segs == old(segs)
    {
      it, inserted := TryInsert(Seg(inter, {}));
      inserted := Equal(segs[it].itv, inter) && segs[it].val == {};
      if inserted {
        assert segs != old(segs) by {
          if segs == old(segs) {
            IsGood(style, segs, it);
          }
        }
        segs := segs[it := Seg(segs[it].itv, Combine(Plus, segs[it].val, w))];
        assert {} + w == w;
      }
    }

    /** Addition with a position to look at first: the hint changes the cost, never the
        result. Returns the hint itself when there is nothing to add. */
    method AddHinted(prior: int, inter: Interval, w: set<V>) returns (r: int)
      requires Valid() && Fits(style, inter)
      modifies this
      ensures Valid() && segs == Added(style, old(segs), inter, w)
      ensures forall x, v :: Holds(segs, x, v) <==> Holds(old(segs), x, v) || On(First(inter), Last(inter), w, x, v)
      ensures IsEmpty(inter) || w == {} ==> r == prior
    {
      ghost var s := segs;
      AddedCorrect(style, s, inter, w);
      r := prior;
      if IsEmpty(inter) || w == {} {
        return;
      }
      var it, inserted := AddAt(inter, w);
      if inserted {
        assert segs[..it] == s[..it] && segs[it] == Seg(inter, w) && segs[it + 1..] == s[it..];
        r := HandleInserted(it);
      } else {
        AddToOverlapped(inter, w);
        r := LowerBound(segs, inter);
      }
      assert segs == Added(style, s, inter, w);
    }

    /** Find the overlapped block and split its first node at the front of the interval:
        the start of both addition and subtraction. */
    method OpenBlock(inter: Interval) returns (it: nat, fromEnd: nat)
      requires Valid() && Fits(style, inter) && !IsEmpty(inter)
      requires LowerBound(segs, inter) < UpperBound(segs, inter)
      modifies this
      ensures 0 < fromEnd && it + fromEnd <= |segs|
      ensures var lb, ub := LowerBound(old(segs), inter), UpperBound(old(segs), inter);
              var b := old(segs)[lb..ub];
              var block, n := SplitBlock(b, inter), |b| - 1;
              && segs[..it] == SplitLeft(old(segs)[..lb], b[0], inter)
              && segs[it..|segs| - fromEnd] == block[..n]
              && segs[|segs| - fromEnd..] == [block[n]] + old(segs)[ub..]
              && NonEmpty(block[..n]) && !IsEmpty(block[n].itv) && block[n].val != {}
    {
      var lb, ub := LowerBound(segs, inter), UpperBound(segs, inter);
      fromEnd := |segs| - ub + 1;
      ghost var a, b, q := segs[..lb], segs[lb..ub], segs[ub..];
      ghost var p, block, n := SplitLeft(a, b[0], inter), SplitBlock(b, inter), |b| - 1;
      SplitBlockNonEmpty(style, segs, inter);
      NonEmptySlice(block, 0, n);
      NonEmptySlice(block, n, |block|);
      SplitInPlace(segs, lb, ub, inter);
      it := SplitFront(inter, lb);
      CutThree(p, block[..n], [block[n]] + q, segs);
    }

    /** The addend overlaps some node. */
    method AddToOverlapped(inter: Interval, w: set<V>)
      requires Valid() && Fits(style, inter) && !IsEmpty(inter) && w != {}
      requires LowerBound(segs, inter) < UpperBound(segs, inter)
      modifies this
      ensures segs == Added(style, old(segs), inter, w)
    {
      var it, fromEnd := OpenBlock(inter);
      ghost var p, tail := AddLoop(style, segs[..it], segs[it..|segs| - fromEnd], inter, w), segs[|segs| - fromEnd..];
      var rest;
      rest, it := AddMain(inter, w, it, fromEnd);
      assert segs[..it] == p && segs[it] == tail[0] && segs[it + 1..] == tail[1..];
      var _ := AddRear(rest, w, it);
    }

    // ----- subtraction -----

    method SubtractMain(w: set<V>, it: nat, fromEnd: nat) returns (r: nat)
      requires it + fromEnd <= |segs|
      modifies this
      ensures var block := old(segs)[it..|old(segs)| - fromEnd];
              && segs == SubtractLoop(style, old(segs)[..it], block, w) + old(segs)[|old(segs)| - fromEnd..]
              && r == |SubtractLoop(style, old(segs)[..it], block, w)|
    {
      ghost var p, block, q := segs[..it], segs[it..|segs| - fromEnd], segs[|segs| - fromEnd..];
      r := it;
      ghost var todo := block;
      while |segs| - r != fromEnd
        invariant r <= |segs| && segs[r..] == todo + q
        invariant SubtractLoop(style, segs[..r], todo, w) == SubtractLoop(style, p, block, w)
        decreases |todo|
      {
        assert segs[r] == todo[0] && segs[r + 1..] == todo[1..] + q by {
          assert segs[r..][0] == todo[0] && segs[r..][1..] == todo[1..] + q;
        }
        r := SubtractOne(w, r);
        todo := todo[1..];
      }
    }

    /** Subtract from one node all of which lies inside the minuend. */
    method SubtractOne(w: set<V>, it: nat) returns (next: nat)
      requires it < |segs|
      modifies this
      ensures next <= |segs| && segs[next..] == old(segs)[it + 1..]
      ensures segs[..next] == PushCombined(style, old(segs)[..it], Seg(old(segs)[it].itv, old(segs)[it].val - w))
    {
      var after := |segs| - it - 1;
      SetNode(it, Seg(segs[it].itv, Combine(Minus, segs[it].val, w)));
      HandleLeftCombined(it);
      next := |segs| - after;
    }

    method SubtractRear(inter: Interval, w: set<V>, it: nat)
      requires it < |segs| && segs[it].val != {}
      modifies this
      ensures segs == SubtractEnd(style, old(segs)[..it], old(segs)[it], old(segs)[it + 1..], inter, w)
    {
      ghost var p, seg, q := segs[..it], segs[it], segs[it + 1..];
      var resid := LeftSubtract(segs[it].itv, inter);
      if IsEmpty(resid) {
        segs := segs[it := Seg(segs[it].itv, Combine(Minus, segs[it].val, w))];
        assert segs[..it] == p && segs[it + 1..] == q;
        HandleCombined(it);
      } else {
        segs := segs[it := Seg(RightSubtract(segs[it].itv, resid), segs[it].val)];
        InsertNode(it + 1, Seg(resid, segs[it].val));
        segs := segs[it := Seg(segs[it].itv, Combine(Minus, segs[it].val, w))];
        assert segs[..it] == p && segs[it + 1] == Seg(resid, seg.val) && segs[it + 2..] == q;
        HandleSucceededCombined(it);
      }
    }

    /** Take the values `w` away on the interval: `map -= (inter, w)`. */
    method Subtract(inter: Interval, w: set<V>)
      requires Valid() && Fits(style, inter)
      modifies this
      ensures Valid() && segs == Subtracted(style, old(segs), inter, w)
      ensures forall x, v :: Holds(segs, x, v) <==> Holds(old(segs), x, v) && !On(First(inter), Last(inter), w, x, v)
    {
      ghost var s := segs;
      SubtractedCorrect(style, s, inter, w);
      if IsEmpty(inter) || w == {} {
        return;
      }
      EqualRangeIsOverlap(style, s, inter);
      if LowerBound(segs, inter) == UpperBound(segs, inter) {
        return;
      }
      SubtractFromOverlapped(inter, w);
      assert segs == Subtracted(style, s, inter, w);
    }

    method SubtractFromOverlapped(inter: Interval, w: set<V>)
      requires Valid() && Fits(style, inter) && !IsEmpty(inter) && w != {}
      requires LowerBound(segs, inter) < UpperBound(segs, inter)
      modifies this
      ensures segs == Subtracted(style, old(segs), inter, w)
    {
      var it, fromEnd := OpenBlock(inter);
      ghost var p, tail := SubtractLoop(style, segs[..it], segs[it..|segs| - fromEnd], w), segs[|segs| - fromEnd..];
      it := SubtractMain(w, it, fromEnd);
      assert segs[..it] == p && segs[it] == tail[0] && segs[it + 1..] == tail[1..];
      SubtractRear(inter, w, it);
    }

    // ----- insertion -----

    /** Insert what lies in front of a node, and join it to its neighbours. */
    method InsertBefore(inter: Interval, w: set<V>, it: nat) returns (r: nat)
      requires it < |segs|
      modifies this
      ensures var gap := RightSubtract(inter, old(segs)[it].itv);
              var pushed := Push(style, old(segs)[..it], Seg(gap, w));
              if IsEmpty(gap) then segs == old(segs) && r == it
              else segs == Glue(style, pushed, old(segs)[it..]) && r == |pushed| - 1
    {
      r := it;
      var gap := RightSubtract(inter, segs[it].itv);
      if !IsEmpty(gap) {
        ghost var p, q := segs[..it], segs[it..];
        InsertNode(it, Seg(gap, w));
        assert segs[..it] == p && segs[it + 1..] == q;
        r := HandleInserted(it);
      }
    }

    /** One turn of the loop below: insert before the node, then step. A gap that joined
        nothing on its right leaves the node itself as the next one to look at. */
    method InsertTurn(inter: Interval, w: set<V>, it: nat) returns (next: nat, ghost passed: bool)
      requires it < |segs|
      modifies this
      ensures next <= |segs|
      ensures var p, seg := old(segs)[..it], old(segs)[it];
              var pushed := Push(style, p, Seg(RightSubtract(inter, seg.itv), w));
              if passed
              then segs[..next] == InsertStep(style, p, seg, inter, w) && segs[next..] == old(segs)[it + 1..]
              else segs[..next] == pushed && segs[next..] == old(segs)[it..]
                   && !IsEmpty(RightSubtract(inter, seg.itv)) && !(style.joining && Joinable(pushed[|pushed| - 1], seg))
    {
      ghost var p, seg, q := segs[..it], segs[it], segs[it + 1..];
      ghost var gap := RightSubtract(inter, segs[it].itv);
      ghost var pushed := Push(style, p, Seg(gap, w));
      var r := InsertBefore(inter, w, it);
      passed := IsEmpty(gap) || (style.joining && Joinable(pushed[|pushed| - 1], seg));
      if IsEmpty(gap) {
        assert segs == p + [seg] + q;
      } else if passed {
        assert segs == Push(style, pushed, seg) + q;
      } else {
        assert segs == pushed + ([seg] + q);
      }
      next := r + 1;
    }

    /** A turn, and what the loop then still has to do: the nodes `left` and the rest of the
        interval. */
    method InsertNext(inter: Interval, w: set<V>, it: nat, ghost todo: seq<Seg<V>>, ghost q: seq<Seg<V>>)
      returns (rest: Interval, next: nat, ghost left: seq<Seg<V>>)
      requires it <= |segs| && segs[it..] == todo + q && todo != [] && NonEmpty(todo)
      modifies this
      ensures next <= |segs| && segs[next..] == left + q && NonEmpty(left)
      ensures InsertLoop(style, segs[..next], left, rest, w) == InsertLoop(style, old(segs)[..it], todo, inter, w)
      ensures RestAfter(left, rest) == RestAfter(todo, inter)
      ensures || |left| < |todo|
              || (left == todo && !IsEmpty(RightSubtract(inter, todo[0].itv))
                  && IsEmpty(RightSubtract(rest, todo[0].itv)))
    {
      ghost var before := segs[..it];
      assert segs[it] == todo[0] && segs[it + 1..] == todo[1..] + q by {
        assert segs[it..][0] == todo[0] && segs[it..][1..] == todo[1..] + q;
      }
      var itv := segs[it].itv;
      ghost var passed;
      next, passed := InsertTurn(inter, w, it);
      InsertTurned(style, before, todo, inter, w, segs[..next], passed);
      left, rest := if passed then todo[1..] else todo, LeftSubtract(inter, itv);
    }

    /** Fill the gaps that the overlapped nodes, up to `fromEnd` nodes before the end,
        leave in the interval. */
    method InsertGaps(inter: Interval, w: set<V>, it: nat, fromEnd: nat) returns (rest: Interval, cur: nat)
      requires it + fromEnd <= |segs|
      requires NonEmpty(segs[it..|segs| - fromEnd])
      modifies this
      ensures var block := old(segs)[it..|old(segs)| - fromEnd];
              && segs == InsertLoop(style, old(segs)[..it], block, inter, w) + old(segs)[|old(segs)| - fromEnd..]
              && cur == |InsertLoop(style, old(segs)[..it], block, inter, w)|
              && rest == RestAfter(block, inter)
    {
      ghost var p, block, q := segs[..it], segs[it..|segs| - fromEnd], segs[|segs| - fromEnd..];
      rest, cur := inter, it;
      ghost var todo := block;
      while |segs| - cur != fromEnd
        invariant cur <= |segs| && segs[cur..] == todo + q && NonEmpty(todo)
        invariant InsertLoop(style, segs[..cur], todo, rest, w) == InsertLoop(style, p, block, inter, w)
        invariant RestAfter(todo, rest) == RestAfter(block, inter)
        decreases |todo|, if todo != [] && !IsEmpty(RightSubtract(rest, todo[0].itv)) then 1 else 0
      {
        rest, cur, todo := InsertNext(rest, w, cur, todo, q);
      }
      assert todo == [] && segs == segs[..cur] + q;
    }

    method InsertMain(inter: Interval, w: set<V>, it: nat, fromEnd: nat) returns (r: int)
      requires it + fromEnd < |segs|
      requires NonEmpty(segs[it..|segs| - fromEnd])
      modifies this
      ensures segs == InsertIntoBlock(style, old(segs)[..it], old(segs)[it..|old(segs)| - fromEnd],
                                      old(segs)[|old(segs)| - fromEnd..], inter, w)
    {
      ghost var p, block, q := segs[..it], segs[it..|segs| - fromEnd], segs[|segs| - fromEnd..];
      ghost var filled := InsertLoop(style, p, block, inter, w);
      var lastInterval := segs[|segs| - fromEnd - 1].itv;
      assert lastInterval == block[|block| - 1].itv;
      var rest, cur := InsertGaps(inter, w, it, fromEnd);
      assert segs == filled + q && cur == |filled|;
      assert segs[..cur] == filled && segs[cur..] == q;
      var gap := LeftSubtract(rest, lastInterval);
      r := InsertRear(gap, w, cur);
      assert segs == InsertEnd(style, filled, q, gap, w);
    }

    method InsertRear(gap: Interval, w: set<V>, at: nat) returns (r: int)
      requires at <= |segs|
      modifies this
      ensures segs == InsertEnd(style, old(segs)[..at], old(segs)[at..], gap, w)
    {
      r := at - 1;
      if !IsEmpty(gap) {
        ghost var p, q := segs[..at], segs[at..];
        InsertNode(at, Seg(gap, w));
        assert segs[..at] == p && segs[at + 1..] == q;
        r := HandleInserted(at);
      }
    }

    method InsertIntoOverlapped(inter: Interval, w: set<V>)
      requires Valid() && Fits(style, inter) && !IsEmpty(inter) && w != {}
      requires LowerBound(segs, inter) < UpperBound(segs, inter)
      modifies this
      ensures segs == Inserted(style, old(segs), inter, w)
    {
      var lb, ub := LowerBound(segs, inter), UpperBound(segs, inter);
      forall k | 0 <= k < ub - lb
        ensures !IsEmpty(segs[lb..ub][k].itv)
      {
        IsGood(style, segs, lb + k);
      }
      assert |segs| - (|segs| - ub) == ub;
      var _ := InsertMain(inter, w, lb, |segs| - ub);
    }

    /** Give the undefined ticks of the interval the values `w`. */
    method Insert(inter: Interval, w: set<V>)
      requires Valid() && Fits(style, inter)
      modifies this
      ensures Valid() && segs == Inserted(style, old(segs), inter, w)
      ensures forall x, v :: Holds(segs, x, v) <==>
                Holds(old(segs), x, v) || (On(First(inter), Last(inter), w, x, v) && !Covers(old(segs), x))
    {
      ghost var s := segs;
      InsertedCorrect(style, s, inter, w);
      if IsEmpty(inter) || w == {} {
        return;
      }
      var it, inserted := TryInsert(Seg(inter, w));
      if inserted {
        assert segs[..it] == s[..it] && segs[it] == Seg(inter, w) && segs[it + 1..] == s[it..];
        var _ := HandleInserted(it);
      } else {
        InsertIntoOverlapped(inter, w);
      }
      assert segs == Inserted(style, s, inter, w);
    }

    /** Insertion with a position to look at first. A node that already has the key,
        unless it is the hint itself, passes for a new one; joining it to its
        neighbours once more does no harm. */
    method InsertHinted(prior: int, inter: Interval, w: set<V>)
      requires Valid() && Fits(style, inter)
      modifies this
      ensures Valid() && segs == Inserted(style, old(segs), inter, w)
      ensures forall x, v :: Holds(segs, x, v) <==>
                Holds(old(segs), x, v) || (On(First(inter), Last(inter), w, x, v) && !Covers(old(segs), x))
    {
      ghost var s := segs;
      InsertedCorrect(style, s, inter, w);
      if IsEmpty(inter) || w == {} {
        return;
      }
      var it, inserted := TryInsert(Seg(inter, w));
      var isHint := !inserted && it == prior;
      if !isHint && Equal(segs[it].itv, inter) {
        if inserted {
          assert segs[..it] == s[..it] && segs[it] == Seg(inter, w) && segs[it + 1..] == s[it..];
        } else {
          InsertedAtKey(style, s, it, inter, w);
        }
        var _ := HandleInserted(it);
      } else {
        InsertIntoOverlapped(inter, w);
      }
      assert segs == Inserted(style, s, inter, w);
    }

    // ----- erasure -----

    /** Drop the interval from the map: `map -= inter`. */
    method Erase(inter: Interval)
      requires Valid() && Fits(style, inter)
      modifies this
      ensures Valid() && segs == Erased(old(segs), inter)
      ensures forall x, v :: Holds(segs, x, v) <==> Holds(old(segs), x, v) && !Has(inter, x)
    {
      ghost var s := segs;
      ErasedCorrect(style, s, inter);
      if IsEmpty(inter) {
        return;
      }
      EqualRangeIsOverlap(style, s, inter);
      var first, end := LowerBound(segs, inter), UpperBound(segs, inter);
      if first == end {
        return;
      }
      if first + 1 == end {
        EraseInOne(first, inter);
      } else {
        EraseAcross(first, end, inter);
      }
      assert segs == Erased(s, inter);
    }

    /** The interval overlaps one node only. */
    method EraseInOne(at: nat, inter: Interval)
      requires at < |segs|
      modifies this
      ensures segs == ErasedFromBlock(old(segs)[..at], [old(segs)[at]], old(segs)[at + 1..], inter)
    {
      var left, right := RightSubtract(segs[at].itv, inter), LeftSubtract(segs[at].itv, inter);
      if !IsEmpty(left) {
        segs := segs[at := Seg(left, segs[at].val)];
        if !IsEmpty(right) {
          InsertNode(at + 1, Seg(right, segs[at].val));
        }
      } else if !IsEmpty(right) {
        segs := segs[at := Seg(LeftSubtract(segs[at].itv, inter), segs[at].val)];
      } else {
        EraseNode(at);
      }
    }

    /** The interval overlaps the nodes from `first` up to but not including `end`. */
    method EraseAcross(first: nat, end: nat, inter: Interval)
      requires first + 1 < end <= |segs|
      modifies this
      ensures segs == ErasedFromBlock(old(segs)[..first], old(segs)[first..end], old(segs)[end..], inter)
    {
      KeepResiduals(first, end, RightSubtract(segs[first].itv, inter), LeftSubtract(segs[end - 1].itv, inter));
    }

    /** Drop the nodes from `first` up to but not including `end`, except that the first and
        the last stay with what is left of their keys. */
    method KeepResiduals(first: nat, end: nat, left: Interval, right: Interval)
      requires first + 1 < end <= |segs|
      modifies this
      ensures segs == old(segs)[..first] + Residual(left, old(segs)[first].val)
                    + (Residual(right, old(segs)[end - 1].val) + old(segs)[end..])
    {
      var start := if IsEmpty(left) then first else first + 1;
      var stop := if IsEmpty(right) then end else end - 1;
      segs := segs[..start] + segs[stop..];
      if !IsEmpty(left) {
        segs := segs[first := Seg(left, segs[first].val)];
      }
      if !IsEmpty(right) {
        segs := segs[start := Seg(right, segs[start].val)];
      }
    }

    /** Erase a segment: the ticks of the interval whose values are exactly `w`. */
    method EraseSegment(inter: Interval, w: set<V>)
      requires Valid() && Fits(style, inter)
      modifies this
      ensures Valid()
      ensures segs == if IsEmpty(inter) || w == {} then old(segs) else ErasedEqual(old(segs), inter, w)
      ensures forall x, v :: Holds(segs, x, v) <==>
                Holds(old(segs), x, v) && !(Has(inter, x) && forall u :: Holds(old(segs), x, u) <==> u in w)
    {
      if IsEmpty(inter) || w == {} {
        return;
      }
      ghost var s := segs;
      EraseEqual(inter, w);
      ErasedEqualCorrect(style, s, inter, w);
      ErasedEqualMeans(style, s, inter, w);
    }

    method EraseEqual(inter: Interval, w: set<V>)
      requires Valid() && !IsEmpty(inter)
      modifies this
      ensures segs == ErasedEqual(old(segs), inter, w)
    {
      var first, end := LowerBound(segs, inter), UpperBound(segs, inter);
      ErasedEqualAround(style, segs, inter, w);
      if first != end {
        BlockPlaces(style, segs, inter);
        EraseEqualBlock(first, end, inter, w);
      } else {
        assert segs == segs[..first] + segs[end..];
      }
    }

    method EraseEqualBlock(first: nat, end: nat, inter: Interval, w: set<V>)
      requires first < end <= |segs| && !IsEmpty(segs[first].itv) && Intersects(segs[first].itv, inter)
      requires first + 1 < end ==> Last(segs[first].itv) <= Last(inter) && BehindStart(segs[first + 1..end], inter)
      modifies this
      ensures segs == old(segs)[..first] + ErasedEqual(old(segs)[first..end], inter, w) + old(segs)[end..]
    {
      if first + 1 == end {
        assert segs[first..end] == [segs[first]];
        EraseEqualInOne(first, inter, w);
      } else {
        assert |segs| - (|segs| - end) == end;
        EraseEqualAcross(first, |segs| - end, inter, w);
      }
    }

    /** The interval overlaps one node. */
    method EraseEqualInOne(at: nat, inter: Interval, w: set<V>)
      requires at < |segs|
      modifies this
      ensures segs == old(segs)[..at] + ErasedEqual([old(segs)[at]], inter, w) + old(segs)[at + 1..]
    {
      ghost var one := [segs[at]];
      assert ErasedEqual(one, inter, w) == ErasedEqualOne(segs[at], inter, w) + ErasedEqual(one[1..], inter, w);
      var rightResid := LeftSubtract(segs[at].itv, inter);
      if segs[at].val == w {
        var leftResid := RightSubtract(segs[at].itv, inter);
        if !IsEmpty(leftResid) {
          segs := segs[at := Seg(leftResid, segs[at].val)];
          if !IsEmpty(rightResid) {
            InsertNode(at + 1, Seg(rightResid, w));
          }
        } else if !IsEmpty(rightResid) {
          segs := segs[at := Seg(rightResid, segs[at].val)];
        } else {
          EraseNode(at);
        }
      }
    }

    /** The interval overlaps several nodes, the last of which has `fromEnd` nodes behind it. */
    method EraseEqualAcross(first: nat, fromEnd: nat, inter: Interval, w: set<V>)
      requires first + 1 + fromEnd < |segs| && BehindStart(segs[first + 1..|segs| - fromEnd], inter)
      requires !IsEmpty(segs[first].itv) && Intersects(segs[first].itv, inter) && Last(segs[first].itv) <= Last(inter)
      modifies this
      ensures segs == old(segs)[..first] + ErasedEqual(old(segs)[first..|old(segs)| - fromEnd], inter, w)
                    + old(segs)[|old(segs)| - fromEnd..]
    {
      ghost var p, rest, q := segs[..first], segs[first + 1..|segs| - fromEnd], segs[|segs| - fromEnd..];
      ghost var block, one := segs[first..|segs| - fromEnd], ErasedEqualOne(segs[first], inter, w);
      assert block[0] == segs[first] && block[1..] == rest && segs[first + 1..] == rest + q by {
        BlockPieces(segs, first, |segs| - fromEnd);
      }
      ghost var others := ErasedEqual(rest, inter, w);
      assert p + ErasedEqual(block, inter, w) + q == (p + one) + others + q by {
        assert ErasedEqual(block, inter, w) == one + others;
      }
      var second := EraseFront(first, inter, w);
      assert segs[..second] == p + one && segs[second..|segs| - fromEnd] == rest && segs[|segs| - fromEnd..] == q by {
        assert (p + one) + (rest + q) == (p + one) + rest + q;
        CutThree(p + one, rest, q, segs);
      }
      EraseRest(second, fromEnd, inter, w);
      assert segs == (p + one) + others + q;
    }

    /** The first overlapped node, if there are others. */
    method EraseFront(first: nat, inter: Interval, w: set<V>) returns (second: nat)
      requires first < |segs|
      requires !IsEmpty(segs[first].itv) && Intersects(segs[first].itv, inter) && Last(segs[first].itv) <= Last(inter)
      modifies this
      ensures segs == old(segs)[..first] + ErasedEqualOne(old(segs)[first], inter, w) + old(segs)[first + 1..]
      ensures second == |old(segs)[..first] + ErasedEqualOne(old(segs)[first], inter, w)|
    {
      second := first + 1;
      if segs[first].val == w {
        var leftResid := RightSubtract(segs[first].itv, inter);
        ErasedEqualByPlace(segs[first], inter, w);
        if IsEmpty(leftResid) {
          EraseNode(first);
          second := first;
        } else {
          segs := segs[first := Seg(leftResid, segs[first].val)];
        }
      }
    }

    /** Go on up to the last overlapped node, which alone can stick out of the interval. */
    method EraseRest(it: nat, fromEnd: nat, inter: Interval, w: set<V>)
      requires it + fromEnd < |segs| && BehindStart(segs[it..|segs| - fromEnd], inter)
      modifies this
      ensures segs == old(segs)[..it] + ErasedEqual(old(segs)[it..|old(segs)| - fromEnd], inter, w)
                    + old(segs)[|old(segs)| - fromEnd..]
    {
      ghost var q, todo := segs[|segs| - fromEnd..], segs[it..|segs| - fromEnd];
      ghost var goal := segs[..it] + ErasedEqual(todo, inter, w);
      var cur: nat := it;
      while cur + fromEnd + 1 != |segs|
        invariant cur + fromEnd < |segs| && segs[cur..] == todo + q && BehindStart(todo, inter)
        invariant segs[..cur] + ErasedEqual(todo, inter, w) == goal
        decreases |todo|
      {
        ghost var p, node, tail := segs[..cur], segs[cur], segs[cur..];
        assert node == tail[0] == todo[0] && segs[cur + 1..] == tail[1..] == todo[1..] + q;
        BehindStartTail(todo, inter);
        if node.val == w {
          ErasedEqualByPlace(node, inter, w);
        }
        cur := EraseIfEqual(cur, w);
        RestMoves(p, todo, inter, w);
        todo := todo[1..];
      }
      assert todo == [todo[0]] && segs[cur] == segs[cur..][0] && segs[cur + 1..] == segs[cur..][1..] == q;
      EraseRear(cur, inter, w);
    }

    method EraseIfEqual(at: nat, w: set<V>) returns (next: nat)
      requires at < |segs|
      modifies this
      ensures next <= |segs| && segs[next..] == old(segs)[at + 1..]
      ensures segs[..next] == old(segs)[..at] + if old(segs)[at].val == w then [] else [old(segs)[at]]
    {
      next := at;
      if segs[at].val == w {
        EraseNode(at);
      } else {
        next := at + 1;
      }
    }

    method EraseRear(at: nat, inter: Interval, w: set<V>)
      requires at < |segs| && BehindStart([segs[at]], inter)
      modifies this
      ensures segs == old(segs)[..at] + ErasedEqual([old(segs)[at]], inter, w) + old(segs)[at + 1..]
    {
      ghost var one := [segs[at]];
      assert one[1..] == [] && OverlapsFrom(one[0].itv, inter, false);
      if segs[at].val == w {
        ErasedEqualByPlace(segs[at], inter, w);
        var rightResid := LeftSubtract(segs[at].itv, inter);
        if IsEmpty(rightResid) {
          EraseNode(at);
        } else {
          segs := segs[at := Seg(rightResid, segs[at].val)];
        }
      }
    }

    /** Assign: afterwards the interval holds exactly `w`. */
    method SetAt(inter: Interval, w: set<V>)
      requires Valid() && Fits(style, inter)
      modifies this
      ensures Valid()
      ensures forall x, v :: Holds(segs, x, v) <==> if Has(inter, x) then v in w else Holds(old(segs), x, v)
    {
      ErasedCorrect(style, segs, inter);
      Erase(inter);
      Insert(inter, w);
    }

    // ----- intersection -----

    /** Add to `section` what this map holds inside the interval. */
    method AddIntersection(section: IntervalMap<V>, inter: Interval)
      requires Valid() && section.Valid() && section != this && section.style == style && Fits(style, inter)
      modifies section
      ensures section.Valid()
      ensures forall x, v :: Holds(section.segs, x, v) <==>
                Holds(old(section.segs), x, v) || (Holds(segs, x, v) && Has(inter, x))
    {
      if IsEmpty(inter) {
        return;
      }
      BlockReady(style, segs, inter);
      BlockHolds(style, segs, inter);
      var it, end := LowerBound(segs, inter), UpperBound(segs, inter);
      var prior := NONE;
      ghost var lb, start := it, section.segs;
      while it != end
        invariant lb <= it <= end <= |segs| && section.Valid()
        invariant forall x, v :: Holds(section.segs, x, v) <==>
                    Holds(start, x, v) || (Holds(segs[lb..it], x, v) && Has(inter, x))
      {
        HoldsAppend(segs[lb..it], segs[it]);
        assert segs[lb..it + 1] == segs[lb..it] + [segs[it]];
        prior := AddCommon(section, prior, it, inter);
        it := it + 1;
      }
    }

    /** One turn of the loop above. */
    method AddCommon(section: IntervalMap<V>, prior: int, it: nat, inter: Interval) returns (r: int)
      requires Valid() && section.Valid() && section != this && section.style == style && Fits(style, inter)
      requires it < |segs|
      modifies section
      ensures section.Valid()
      ensures forall x, v :: Holds(section.segs, x, v) <==>
                Holds(old(section.segs), x, v) || (At(segs[it], x, v) && Has(inter, x))
    {
      var common := Intersection(segs[it].itv, inter);
      IsGood(style, segs, it);
      r := prior;
      if !IsEmpty(common) {
        r := section.AddHinted(prior, common, segs[it].val);
      }
    }

    /** The part of the map inside the interval, as a map of its own: `map & inter`. */
    method IntersectedWith(inter: Interval) returns (section: IntervalMap<V>)
      requires Valid() && Fits(style, inter)
      ensures fresh(section) && section.Valid() && section.style == style
      ensures forall x, v :: Holds(section.segs, x, v) <==> Holds(segs, x, v) && Has(inter, x)
    {
      section := new IntervalMap<V>(style);
      AddIntersection(section, inter);
    }

    // ----- join -----

    /** The last node of the run of joinable nodes that starts at `first`. */
    method RunEnd(first: nat) returns (it: nat)
      requires NonEmpty(segs) && first + 1 < |segs| && Joinable(segs[first], segs[first + 1])
      ensures first < it < |segs| && segs[it].val == segs[first].val && Before(segs[first], segs[it])
      ensures it + 1 < |segs| ==> !Joinable(segs[it], segs[it + 1])
      ensures Pushed(Joining(style), segs[..first] + [Seg(Hull(segs[it].itv, segs[first].itv), segs[first].val)],
                     segs[it + 1..])
           == Pushed(Joining(style), segs[..first + 1], segs[first + 1..])
    {
      it := first;
      var next := first + 1;
      assert segs[..first + 1] == segs[..first] + [Seg(Hull(segs[it].itv, segs[first].itv), segs[first].val)];
      while next != |segs| && Joinable(segs[it], segs[next])
        invariant first <= it < next == it + 1 <= |segs| && segs[it].val == segs[first].val
        invariant it == first || Before(segs[first], segs[it])
        invariant Pushed(Joining(style), segs[..first] + [Seg(Hull(segs[it].itv, segs[first].itv), segs[first].val)],
                         segs[next..])
               == Pushed(Joining(style), segs[..first + 1], segs[first + 1..])
      {
        assert !IsEmpty(segs[first].itv) && !IsEmpty(segs[it].itv) && !IsEmpty(segs[next].itv);
        PushedRun(Joining(style), segs, first, it);
        it, next := it + 1, next + 1;
      }
    }

    /** Merge the run of joinable nodes that starts at `first` into its last node. */
    method JoinRun(first: nat)
      requires NonEmpty(segs) && first + 1 < |segs| && Joinable(segs[first], segs[first + 1])
      modifies this
      ensures first < |segs| < |old(segs)| && NonEmpty(segs)
      ensures first + 1 < |segs| ==> !Joinable(segs[first], segs[first + 1])
      ensures Pushed(Joining(style), segs[..first + 1], segs[first + 1..])
           == Pushed(Joining(style), old(segs)[..first + 1], old(segs)[first + 1..])
    {
      ghost var s := segs;
      var it := RunEnd(first);
      var merged := Seg(Hull(segs[it].itv, segs[first].itv), segs[it].val);
      assert !IsEmpty(s[first].itv) && !IsEmpty(s[it].itv);
      HullEnds(s[first].itv, s[it].itv);
      RunReplaced(s, first, it, merged);
      segs := segs[it := merged];
      segs := segs[..first] + segs[it..];
    }

    /** One turn of the loop of `join`: what comes before `next` is joined, the rest not yet. */
    method JoinTurn(first: nat) returns (it: nat, next: nat)
      requires NonEmpty(segs) && first + 1 < |segs|
      modifies this
      ensures NonEmpty(segs) && it <= next <= |segs| && (next == it + 1 || it == next == |segs|)
      ensures |segs| - it < |old(segs)| - first
      ensures Pushed(Joining(style), segs[..next], segs[next..])
           == Pushed(Joining(style), old(segs)[..first + 1], old(segs)[first + 1..])
    {
      if Joinable(segs[first], segs[first + 1]) {
        JoinRun(first);
        it, next := first + 1, first + 1;
        if next != |segs| {
          PushedOn(Joining(style), segs, it);
          next := next + 1;
        }
      } else {
        PushedOn(Joining(style), segs, first + 1);
        it, next := first + 1, first + 2;
      }
    }

    /** Restore the joined form of a map that kept its splits. */
    method Join()
      requires Valid()
      modifies this
      ensures Valid() && segs == Joined(style, old(segs))
      ensures Form(Joining(style), segs) && SameMeaning(segs, old(segs))
    {
      ghost var s := segs;
      AllNonEmpty(style, s);
      JoinAll();
      JoinedCorrect(style, s);
      FormWeaken(Joining(style), segs);
    }

    method JoinAll()
      requires NonEmpty(segs)
      modifies this
      ensures segs == Joined(style, old(segs))
    {
      ghost var goal := Joined(style, segs);
      var it: nat := 0;
      if it == |segs| {
        return;
      }
      var next: nat := 1;
      assert segs[..1] == Push(Joining(style), [], segs[0]);
      while next != |segs|
        invariant NonEmpty(segs) && it <= next <= |segs| && (next == it + 1 || it == next == |segs|)
        invariant Pushed(Joining(style), segs[..next], segs[next..]) == goal
        decreases |segs| - it
      {
        it, next := JoinTurn(it);
      }
      assert segs == segs[..next] && segs[next..] == [];
    }

    /** Add every segment of another container: `map += operand`. */
    method AddAll(operand: seq<Seg<V>>)
      requires Valid() && AllFit(style, operand)
      modifies this
      ensures Valid() && segs == AddedAll(style, old(segs), operand)
      ensures forall x, v :: Holds(segs, x, v) <==> Holds(old(segs), x, v) || Holds(operand, x, v)
    {
      ghost var s := segs;
      AddedAllCorrect(style, s, operand);
      var prior := NONE;
      for k := 0 to |operand|
        invariant Valid() && AddedAll(style, segs, operand[k..]) == AddedAll(style, s, operand)
      {
        assert operand[k..][1..] == operand[k + 1..];
        prior := AddHinted(prior, operand[k].itv, operand[k].val);
      }
    }

    // ----- erasing a set of intervals, symmetric difference -----

    /** Drop every interval of a set from the map. */
    method EraseSet(eraser: IntervalMap<()>)
      requires Valid() && eraser.Valid() && eraser as object != this && eraser.style.rightOpen == style.rightOpen
      modifies this
      ensures Valid()
      ensures forall x, v :: Holds(segs, x, v) <==> Holds(old(segs), x, v) && !Covers(eraser.segs, x)
    {
      if eraser.segs == [] {
        return;
      }
      if segs != [] {
        FormWeaken(style, segs);
        FormWeaken(eraser.style, eraser.segs);
        CommonTicks(style.(joining := false), eraser.segs, segs);
      }
      var found, it, end := CommonRange(eraser.segs, segs);
      if found {
        EraseRange(eraser, it, end);
      }
    }

    /** Drop the intervals of a set from position `lwb` up to but not including `end`. */
    method EraseRange(eraser: IntervalMap<()>, lwb: nat, end: nat)
      requires Valid() && eraser.Valid() && eraser as object != this && eraser.style.rightOpen == style.rightOpen
      requires lwb <= end <= |eraser.segs|
      modifies this
      ensures Valid()
      ensures forall x, v :: Holds(segs, x, v) <==> Holds(old(segs), x, v) && !Covers(eraser.segs[lwb..end], x)
    {
      ghost var s, keys := segs, eraser.segs;
      var it := lwb;
      while it != end
        invariant lwb <= it <= end && Valid()
        invariant forall x, v :: Holds(segs, x, v) <==> Holds(s, x, v) && !Covers(keys[lwb..it], x)
      {
        ghost var now := segs;
        assert keys[lwb..it + 1] == keys[lwb..it] + [keys[it]];
        EraseKey(eraser, it);
        KeyErased(s, now, segs, keys[lwb..it], keys[it]);
        it := it + 1;
      }
    }

    /** Drop one interval of a set. */
    method EraseKey(eraser: IntervalMap<()>, it: nat)
      requires Valid() && eraser.Valid() && eraser as object != this && eraser.style.rightOpen == style.rightOpen
      requires it < |eraser.segs|
      modifies this
      ensures Valid()
      ensures forall x, v :: Holds(segs, x, v) <==> Holds(old(segs), x, v) && !Has(eraser.segs[it].itv, x)
    {
      IsGood(eraser.style, eraser.segs, it);
      Erase(eraser.segs[it].itv);
    }

    /** One turn of the flip loop: note what the node has in common with the rest of the
        interval, fill the gap in front of it, and step. The node after it stays where
        it is, counted from the end. */
    method FlipTurn(span: Interval, w: set<V>, it: nat, eraser: IntervalMap<()>, section: IntervalMap<V>)
      returns (rest: Interval, next: nat)
      requires Valid() && it < |segs| && EndsBefore(segs[..it], First(span))
      requires eraser.Valid() && UnitOnly(eraser.segs) && section.Valid()
      requires this != section && this as object != eraser && section as object != eraser
      requires eraser.style == Joining(style) && section.style == style
      requires Fits(style, RightSubtract(span, segs[it].itv)) && Fits(style, Intersection(span, segs[it].itv))
      requires First(span) <= Last(segs[it].itv) && First(segs[it].itv) <= Last(span)
      modifies this, eraser, section
      ensures Valid() && eraser.Valid() && UnitOnly(eraser.segs) && section.Valid()
      ensures rest == LeftSubtract(span, old(segs)[it].itv)
      ensures next <= |segs| && segs[next..] == old(segs)[it + 1..]
      ensures EndsBefore(segs[..next], Last(old(segs)[it].itv) + 1)
      ensures forall x, v :: Holds(segs, x, v) <==>
                Holds(old(segs), x, v) || (Has(RightSubtract(span, old(segs)[it].itv), x) && v in w)
      ensures forall x :: Holds(eraser.segs, x, ()) <==>
                Holds(old(eraser.segs), x, ()) || Has(Intersection(span, old(segs)[it].itv), x)
      ensures forall x, v :: Holds(section.segs, x, v) <==>
                || Holds(old(section.segs), x, v)
                || (Has(Intersection(span, old(segs)[it].itv), x) && v in SymmetricDifference(w, old(segs)[it].val))
    {
      ghost var s := segs;
      var covered, coValue := segs[it].itv, segs[it].val;
      var after := |segs| - it - 1;
      var leftOver := RightSubtract(span, covered);
      var common := Intersection(span, covered);
      NoteCommon(eraser, section, common, SymmetricDifference(w, coValue));
      IsGood(style, s, it);
      GapKeepsTail(style, s, it, leftOver, w);
      Add(leftOver, w);
      next := |segs| - after;
      rest := LeftSubtract(span, covered);
    }

    /** The flip loop: walk the overlapped nodes, and the gaps between them, although the
        gaps are filled in the container that is walked. */
    method FlipMain(inter: Interval, w: set<V>, eraser: IntervalMap<()>, section: IntervalMap<V>)
      returns (span: Interval, ghost at: nat)
      requires Valid() && Fits(style, inter) && (segs != [] ==> !IsEmpty(inter))
      requires eraser.segs == [] && section.segs == [] && eraser.style == Joining(style) && section.style == style
      requires this != section && this as object != eraser && section as object != eraser
      modifies this, eraser, section
      ensures Valid() && eraser.Valid() && UnitOnly(eraser.segs) && section.Valid()
      ensures at == UpperBound(old(segs), inter) && Reached(style, old(segs), inter, at, span)
      ensures FlipState(old(segs), inter, span, w, segs, eraser.segs, section.segs)
    {
      ghost var s := segs;
      if s != [] {
        BlockReady(style, s, inter);
      }
      ReachedStart(style, s, inter);
      var it: nat, fromEnd := LowerBound(segs, inter), |segs| - UpperBound(segs, inter);
      span, at := inter, it;
      while |segs| - it != fromEnd
        invariant Valid() && eraser.Valid() && UnitOnly(eraser.segs) && section.Valid()
        invariant Reached(style, s, inter, at, span) && FlipState(s, inter, span, w, segs, eraser.segs, section.segs)
        invariant it <= |segs| && |segs| - it == |s| - at && segs[it..] == s[at..]
        invariant EndsBefore(segs[..it], First(span))
        decreases |s| - at
      {
        assert segs[it] == s[at] && segs[it + 1..] == s[at + 1..] by {
          assert segs[it..][0] == s[at..][0] && segs[it..][1..] == s[at..][1..];
        }
        span, it := FlipNext(s, inter, at, span, w, it, eraser, section);
        at := at + 1;
      }
    }

    /** A turn of the loop, and where the loop then stands in the map `s` it started from. */
    method FlipNext(ghost s: seq<Seg<V>>, ghost inter: Interval, ghost at: nat, span: Interval, w: set<V>, it: nat,
                    eraser: IntervalMap<()>, section: IntervalMap<V>)
      returns (rest: Interval, next: nat)
      requires Valid() && eraser.Valid() && UnitOnly(eraser.segs) && section.Valid()
      requires this != section && this as object != eraser && section as object != eraser
      requires eraser.style == Joining(style) && section.style == style
      requires Form(style, s) && Fits(style, inter) && !IsEmpty(inter) && at < UpperBound(s, inter)
      requires Reached(style, s, inter, at, span) && FlipState(s, inter, span, w, segs, eraser.segs, section.segs)
      requires it < |segs| && segs[it] == s[at] && EndsBefore(segs[..it], First(span))
      modifies this, eraser, section
      ensures Valid() && eraser.Valid() && UnitOnly(eraser.segs) && section.Valid()
      ensures Reached(style, s, inter, at + 1, rest) && FlipState(s, inter, rest, w, segs, eraser.segs, section.segs)
      ensures next <= |segs| && segs[next..] == old(segs)[it + 1..] && EndsBefore(segs[..next], First(rest))
    {
      ReachedNext(style, s, inter, at, span);
      rest, next := FlipTurn(span, w, it, eraser, section);
      FlipStep(style, s, inter, at, span, w, old(segs), old(eraser.segs), old(section.segs), segs, eraser.segs,
               section.segs);
    }

    /** Symmetric difference with a segment: `map ^= (inter, w)`. Keys of the tree must not
        be compared with an empty one. */
    method Flip(inter: Interval, w: set<V>)
      requires Valid() && Fits(style, inter) && (segs != [] ==> !IsEmpty(inter))
      modifies this
      ensures Valid()
      ensures forall x, v :: Holds(segs, x, v) <==> Holds(old(segs), x, v) != On(First(inter), Last(inter), w, x, v)
    {
      ghost var s := segs;
      var eraser := new IntervalMap<()>(Joining(style));
      var section := new IntervalMap<V>(style);
      var span, at := FlipMain(inter, w, eraser, section);
      ghost var now := segs;
      Add(span, w);
      ghost var filled := segs;
      EraseSet(eraser);
      UnitCovers(eraser.style, eraser.segs);
      ghost var erased := segs;
      forall k | 0 <= k < |section.segs|
        ensures Fits(style, section.segs[k].itv)
      {
        IsGood(style, section.segs, k);
      }
      AddAll(section.segs);
      FlipFinish(style, s, inter, span, w, now, eraser.segs, section.segs, filled, erased, segs);
    }

    /** Flipping twice by the same segment restores the meaning, hence a joining map. */
    method FlipTwice(inter: Interval, w: set<V>)
      requires Valid() && Fits(style, inter) && (segs != [] ==> !IsEmpty(inter))
      modifies this
      ensures Valid() && SameMeaning(segs, old(segs))
      ensures style.joining ==> Same(segs, old(segs))
      ensures style.joining && style.rightOpen ==> segs == old(segs)
    {
      ghost var s := segs;
      Flip(inter, w);
      ghost var once := segs;
      NothingHeld(style, once);
      Flip(inter, w);
      XorTwice(style, s, once, segs, inter, w);
    }
  }

  /** The positions in `x1` between which keys can meet keys of `x2`. */
  method CommonRange<A, B>(x1: seq<Seg<A>>, x2: seq<Seg<B>>) returns (found: bool, lwb: nat, upb: nat)
    ensures found <==>
              && x1 != [] && x2 != []
              && First(x2[0].itv) <= Last(x1[|x1| - 1].itv) && First(x1[0].itv) <= Last(x2[|x2| - 1].itv)
    ensures found ==> lwb == LowerBound(x1, x2[0].itv) && upb == UpperBound(x1, x2[|x2| - 1].itv)
    ensures !found ==> lwb == upb == |x1|
  {
    found, lwb, upb := false, |x1|, |x1|;
    if x1 == [] || x2 == [] {
      return;
    }
    if Last(x1[|x1| - 1].itv) < First(x2[0].itv) || Last(x2[|x2| - 1].itv) < First(x1[0].itv) {
      return;
    }
    found, lwb, upb := true, LowerBound(x1, x2[0].itv), UpperBound(x1, x2[|x2| - 1].itv);
  }

  /** Add an interval to a joining interval set. */
  method AddToSet(s: IntervalMap<()>, addend: Interval)
    requires s.Valid() && UnitOnly(s.segs) && s.style.joining && Fits(s.style, addend)
    modifies s
    ensures s.Valid() && UnitOnly(s.segs) && s.segs == SetAdded(s.style, old(s.segs), addend)
    ensures forall x :: Holds(s.segs, x, ()) <==> Holds(old(s.segs), x, ()) || Has(addend, x)
  {
    ghost var keys := s.segs;
    if !IsEmpty(addend) {
      AddKey(s, addend);
    }
    SetAddedCorrect(s.style, keys, addend);
  }

  /** What a flip has in common with a node: to be erased, and to be added again with the
      difference of the values. */
  method NoteCommon<V(==,!new)>(eraser: IntervalMap<()>, section: IntervalMap<V>, common: Interval, w: set<V>)
    requires eraser.Valid() && UnitOnly(eraser.segs) && eraser.style.joining && Fits(eraser.style, common)
    requires section.Valid() && Fits(section.style, common) && section as object != eraser
    modifies eraser, section
    ensures eraser.Valid() && UnitOnly(eraser.segs) && section.Valid()
    ensures forall x :: Holds(eraser.segs, x, ()) <==> Holds(old(eraser.segs), x, ()) || Has(common, x)
    ensures forall x, v :: Holds(section.segs, x, v) <==> Holds(old(section.segs), x, v) || (Has(common, x) && v in w)
  {
    if !IsEmpty(common) {
      AddToSet(eraser, common);
      section.Add(common, w);
    }
  }

  method AddKey(s: IntervalMap<()>, addend: Interval)
    requires s.Valid() && UnitOnly(s.segs) && s.style.joining && !IsEmpty(addend)
    modifies s
    ensures s.segs == SetAdded(s.style, old(s.segs), addend)
  {
    ghost var keys, ub := s.segs, UpperBound(s.segs, addend);
    var it, inserted := s.TryInsert(Key(addend));
    if inserted {
      assert s.segs[..it] == keys[..it] && s.segs[it] == Key(addend) && s.segs[it + 1..] == keys[it..];
      var _ := s.HandleInserted(it);
    } else {
      it := JoinUnder(s, addend, UpperBound(s.segs, addend) - 1);
      assert s.segs[..it] == keys[..it] && s.segs[it + 1..] == keys[ub..];
      assert s.segs[it] == JoinedUnder(keys[it..ub], addend);
      var _ := s.JoinNeighbours(it);
    }
  }

  /** Merge the overlapped keys, up to position `last`, and the addend into the first of them. */
  method JoinUnder(s: IntervalMap<()>, addend: Interval, last: nat) returns (first: nat)
    requires LowerBound(s.segs, addend) <= last < |s.segs| && UnitOnly(s.segs)
    modifies s
    ensures first == LowerBound(old(s.segs), addend) < |s.segs|
    ensures s.segs[..first] == old(s.segs)[..first] && s.segs[first + 1..] == old(s.segs)[last + 1..]
    ensures s.segs[first] == JoinedUnder(old(s.segs)[first..last + 1], addend)
  {
    first := LowerBound(s.segs, addend);
    var left := RightSubtract(s.segs[first].itv, addend);
    var right := LeftSubtract(s.segs[last].itv, addend);
    s.segs := s.segs[..first + 1] + s.segs[last + 1..];
    s.segs := s.segs[first := Key(Hull(Hull(left, addend), right))];
  }

  /** Take a map apart into its single ticks. */
  method Atomize<V(==,!new)>(src: IntervalMap<V>) returns (result: seq<Seg<V>>)
    ensures result == Atoms(src.segs)
  {
    result := [];
    for k := 0 to |src.segs|
      invariant result + Atoms(src.segs[k..]) == Atoms(src.segs)
    {
      var seg := src.segs[k];
      assert src.segs[k..][1..] == src.segs[k + 1..];
      ghost var goal := result + AtomsFrom(seg, First(seg.itv));
      assert goal + Atoms(src.segs[k + 1..]) == Atoms(src.segs);
      var element := First(seg.itv);
      while element <= Last(seg.itv)
        invariant result + AtomsFrom(seg, element) == goal
        decreases Last(seg.itv) - element
      {
        result := result + [Seg(Singleton(element), seg.val)];
        element := element + 1;
      }
      assert result == goal;
    }
  }

  /** Add up single ticks into a joining map. */
  method Cluster<V(==,!new)>(elements: seq<Seg<V>>) returns (result: IntervalMap<V>)
    ensures fresh(result) && result.style == ANY_JOINING && result.Valid()
    ensures result.segs == AddedAll(ANY_JOINING, [], elements)
  {
    result := new IntervalMap<V>(ANY_JOINING);
    for k := 0 to |elements|
      invariant result.Valid()
      invariant AddedAll(ANY_JOINING, result.segs, elements[k..]) == AddedAll(ANY_JOINING, [], elements)
    {
      assert elements[k..][1..] == elements[k + 1..];
      result.Add(elements[k].itv, elements[k].val);
    }
  }
}
