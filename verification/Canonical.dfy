/** The canonical form is unique, and what follows from that. */
module Canonical {
  import opened Intervals
  import opened Segments
  import opened Addition

  /** Equal segments: equal as the map compares keys, by ticks and not by bound kinds. */
  predicate SameSeg<V(==)>(a: Seg<V>, b: Seg<V>) {
    Equal(a.itv, b.itv) && a.val == b.val
  }

  ghost predicate Same<V>(a: seq<Seg<V>>, b: seq<Seg<V>>) {
    |a| == |b| && forall k {:trigger SameSeg(a[k], b[k])} :: 0 <= k < |a| ==> SameSeg(a[k], b[k])
  }

  /** Two canonical lists with the same meaning are the same list of segments, and if
      both hold right-open intervals only they are equal outright. */
  lemma {:induction false} Unique<V(!new)>(sa: Style, sb: Style, a: seq<Seg<V>>, b: seq<Seg<V>>)
    requires sa.joining && sb.joining && Form(sa, a) && Form(sb, b) && SameMeaning(a, b)
    ensures Same(a, b)
    ensures sa.rightOpen && sb.rightOpen ==> a == b
    decreases |a| + |b|
  {
    if a == [] || b == [] {
      BothEmpty(sa, sb, a, b);
    } else {
      StartsEqual(sa, sb, a, b);
      StartsEqual(sb, sa, b, a);
      ValuesEqual(sa, sb, a, b);
      FirstNoShorter(sa, sb, a, b);
      FirstNoShorter(sb, sa, b, a);
      FormTail(sa, a);
      FormTail(sb, b);
      HoldsWithin(sa, a[1..]);
      HoldsWithin(sb, b[1..]);
      Unique(sa, sb, a[1..], b[1..]);
      forall k | 0 <= k < |a|
        ensures SameSeg(a[k], b[k])
      {
        assert 0 < k ==> SameSeg(a[1..][k - 1], b[1..][k - 1]);
      }
      if sa.rightOpen && sb.rightOpen {
        assert a == [a[0]] + a[1..] && b == [b[0]] + b[1..];
      }
    }
  }

  /** A segment list that is not empty holds something. */
  lemma Inhabited<V(!new)>(style: Style, s: seq<Seg<V>>)
    requires Form(style, s) && s != []
    ensures exists x, v :: Holds(s, x, v)
  {
    IsGood(style, s, 0);
    var v :| v in s[0].val;
    assert At(s[0], First(s[0].itv), v);
    assert Holds(s, First(s[0].itv), v);
  }

  lemma BothEmpty<V(!new)>(sa: Style, sb: Style, a: seq<Seg<V>>, b: seq<Seg<V>>)
    requires Form(sa, a) && Form(sb, b) && SameMeaning(a, b) && (a == [] || b == [])
    ensures a == b == []
  {
    if a != [] {
      Inhabited(sa, a);
    }
    if b != [] {
      Inhabited(sb, b);
    }
  }

  lemma StartsEqual<V(!new)>(sa: Style, sb: Style, a: seq<Seg<V>>, b: seq<Seg<V>>)
    requires Form(sa, a) && Form(sb, b) && SameMeaning(a, b) && a != [] && b != []
    ensures First(b[0].itv) <= First(a[0].itv)
  {
    IsGood(sa, a, 0);
    var v :| v in a[0].val;
    assert At(a[0], First(a[0].itv), v);
    assert Holds(b, First(a[0].itv), v);
    HoldsWithin(sb, b);
  }

  lemma ValuesEqual<V(!new)>(sa: Style, sb: Style, a: seq<Seg<V>>, b: seq<Seg<V>>)
    requires Form(sa, a) && Form(sb, b) && SameMeaning(a, b) && a != [] && b != []
    requires First(a[0].itv) == First(b[0].itv)
    ensures a[0].val == b[0].val
  {
    var x := First(a[0].itv);
    IsGood(sa, a, 0);
    IsGood(sb, b, 0);
    HoldsInside(sa, a, 0, x);
    HoldsInside(sb, b, 0, x);
    assert forall v :: v in a[0].val <==> Holds(a, x, v);
    assert forall v :: v in b[0].val <==> Holds(b, x, v);
  }

  /** If the first segment of `a` ended before that of `b`, the next segment of `a`
      would touch it and hold the same values. */
  lemma FirstNoShorter<V(!new)>(sa: Style, sb: Style, a: seq<Seg<V>>, b: seq<Seg<V>>)
    requires sa.joining && Form(sa, a) && Form(sb, b) && SameMeaning(a, b) && a != [] && b != []
    requires First(a[0].itv) == First(b[0].itv) && a[0].val == b[0].val
    ensures Last(b[0].itv) <= Last(a[0].itv)
  {
    var x := Last(a[0].itv) + 1;
    IsGood(sa, a, 0);
    if x <= Last(b[0].itv) {
      HoldsInside(sb, b, 0, x);
      var v :| v in a[0].val;
      assert Holds(a, x, v);
      HoldsSome(a, x, v);
      var k :| 0 <= k < |a| && At(a[k], x, v);
      assert Apart(sa, a[0], a[k]);
      HoldsInside(sa, a, k, x);
      assert false;
    }
  }

  // ----- many additions -----

  /** Add a whole list of segments, one after the other. */
  function AddedAll<V(==)>(style: Style, s: seq<Seg<V>>, items: seq<Seg<V>>): seq<Seg<V>>
    decreases items
  {
    if items == [] then s else AddedAll(style, Added(style, s, items[0].itv, items[0].val), items[1..])
  }

  ghost predicate AllFit<V>(style: Style, items: seq<Seg<V>>) {
    forall k {:trigger items[k]} :: 0 <= k < |items| ==> Fits(style, items[k].itv)
  }

  lemma {:induction false} AddedAllCorrect<V(!new)>(style: Style, s: seq<Seg<V>>, items: seq<Seg<V>>)
    requires Form(style, s) && AllFit(style, items)
    ensures Form(style, AddedAll(style, s, items))
    ensures forall x, v :: Holds(AddedAll(style, s, items), x, v) <==> Holds(s, x, v) || Holds(items, x, v)
    decreases items
  {
    if items != [] {
      AddedCorrect(style, s, items[0].itv, items[0].val);
      AddedAllCorrect(style, Added(style, s, items[0].itv, items[0].val), items[1..]);
    }
  }

  /** What a list of additions amounts to depends only on which segments it contains. */
  lemma SameItemsSameMeaning<V(!new)>(a: seq<Seg<V>>, b: seq<Seg<V>>)
    requires forall seg :: seg in a <==> seg in b
    ensures SameMeaning(a, b)
  {
    forall x, v
      ensures Holds(a, x, v) <==> Holds(b, x, v)
    {
      HoldsSome(a, x, v);
      HoldsSome(b, x, v);
      if k :| 0 <= k < |a| && At(a[k], x, v) {
        assert a[k] in b;
      }
      if k :| 0 <= k < |b| && At(b[k], x, v) {
        assert b[k] in a;
      }
    }
  }

  /** Adding segments in any order, any number of times each, gives the same map. */
  lemma AdditionOrderIrrelevant<V(!new)>(style: Style, s: seq<Seg<V>>, a: seq<Seg<V>>, b: seq<Seg<V>>)
    requires style.joining && Form(style, s) && AllFit(style, a) && AllFit(style, b)
    requires forall seg :: seg in a <==> seg in b
    ensures Same(AddedAll(style, s, a), AddedAll(style, s, b))
    ensures style.rightOpen ==> AddedAll(style, s, a) == AddedAll(style, s, b)
  {
    AddedAllCorrect(style, s, a);
    AddedAllCorrect(style, s, b);
    SameItemsSameMeaning(a, b);
    Unique(style, style, AddedAll(style, s, a), AddedAll(style, s, b));
  }

  // ----- how many segments -----

  /** The ticks at which a value can begin or cease to be held. */
  ghost function Edges<V>(items: seq<Seg<V>>): set<int> {
    if items == [] then {} else {First(items[0].itv), Last(items[0].itv) + 1} + Edges(items[1..])
  }

  lemma {:induction false} EdgesCount<V(!new)>(items: seq<Seg<V>>)
    ensures |Edges(items)| <= 2 * |items|
  {
    if items != [] {
      EdgesCount(items[1..]);
      assert |{First(items[0].itv), Last(items[0].itv) + 1}| <= 2;
    }
  }

  lemma EdgesContain<V(!new)>(items: seq<Seg<V>>, k: nat)
    requires k < |items|
    ensures First(items[k].itv) in Edges(items) && Last(items[k].itv) + 1 in Edges(items)
  {
    if 0 < k {
      EdgesContain(items[1..], k - 1);
    }
  }

  /** Away from the edges a tick holds what the tick before it holds. */
  lemma NoEdgeNoChange<V(!new)>(items: seq<Seg<V>>, x: int, v: V)
    requires x !in Edges(items)
    ensures Holds(items, x, v) <==> Holds(items, x - 1, v)
  {
    HoldsSome(items, x, v);
    HoldsSome(items, x - 1, v);
    forall k | 0 <= k < |items|
      ensures At(items[k], x, v) <==> At(items[k], x - 1, v)
    {
      EdgesContain(items, k);
    }
  }

  ghost function Starts<V>(s: seq<Seg<V>>): set<int> {
    if s == [] then {} else Starts(s[..|s| - 1]) + {First(s[|s| - 1].itv)}
  }

  lemma {:induction false} StartsCount<V(!new)>(style: Style, s: seq<Seg<V>>)
    requires Form(style, s)
    ensures |Starts(s)| == |s|
    ensures forall x :: x in Starts(s) <==> exists k :: 0 <= k < |s| && First(s[k].itv) == x
    decreases |s|
  {
    if s != [] {
      var n := |s| - 1;
      FormSlice(style, s, 0, n);
      StartsCount(style, s[..n]);
      forall k | 0 <= k < n
        ensures First(s[..n][k].itv) < First(s[n].itv)
      {
        IsGood(style, s, k);
        assert Apart(style, s[k], s[n]);
      }
      forall x
        ensures x in Starts(s) <==> exists k :: 0 <= k < |s| && First(s[k].itv) == x
      {
        if k :| 0 <= k < |s| && First(s[k].itv) == x {
          assert k < n ==> First(s[..n][k].itv) == x;
        }
        if x in Starts(s[..n]) {
          var k :| 0 <= k < n && First(s[..n][k].itv) == x;
          assert First(s[k].itv) == x;
        }
      }
    }
  }

  /** In a canonical list every start is a tick whose values differ from those before it. */
  lemma StartIsEdge<V(!new)>(style: Style, s: seq<Seg<V>>, items: seq<Seg<V>>, k: nat)
    requires style.joining && Form(style, s) && SameMeaning(s, items) && k < |s|
    ensures First(s[k].itv) in Edges(items)
  {
    var x := First(s[k].itv);
    IsGood(style, s, k);
    if x !in Edges(items) {
      HoldsInside(style, s, k, x);
      forall v ensures Holds(s, x - 1, v) <==> v in s[k].val {
        NoEdgeNoChange(items, x, v);
        assert Holds(s, x, v) <==> Holds(items, x, v);
        assert Holds(s, x - 1, v) <==> Holds(items, x - 1, v);
      }
      var v :| v in s[k].val;
      HoldsSome(s, x - 1, v);
      var j :| 0 <= j < |s| && At(s[j], x - 1, v);
      assert j < k ==> Apart(style, s[j], s[k]);
      assert k < j ==> Apart(style, s[k], s[j]);
      HoldsInside(style, s, j, x - 1);
      assert false;
    }
  }

  /** So is the tick behind the last segment. */
  lemma EndIsEdge<V(!new)>(style: Style, s: seq<Seg<V>>, items: seq<Seg<V>>)
    requires Form(style, s) && SameMeaning(s, items) && s != []
    ensures Last(s[|s| - 1].itv) + 1 in Edges(items)
  {
    var last := s[|s| - 1];
    var x := Last(last.itv) + 1;
    IsGood(style, s, |s| - 1);
    var v :| v in last.val;
    if x !in Edges(items) {
      NoEdgeNoChange(items, x, v);
      HoldsInside(style, s, |s| - 1, x - 1);
      assert Holds(items, x - 1, v);
      assert Holds(s, x, v);
      HoldsWithin(style, s);
    }
  }

  /** n additions to an empty joining map leave at most 2n - 1 segments. */
  lemma SegmentBound<V(!new)>(style: Style, items: seq<Seg<V>>)
    requires style.joining && AllFit(style, items) && items != []
    ensures |AddedAll(style, [], items)| <= 2 * |items| - 1
  {
    var s := AddedAll(style, [], items);
    AddedAllCorrect(style, [], items);
    if s != [] {
      StartsCount(style, s);
      EndIsEdge(style, s, items);
      var past := Last(s[|s| - 1].itv) + 1;
      forall k | 0 <= k < |s|
        ensures First(s[k].itv) in Edges(items) && First(s[k].itv) < past
      {
        StartIsEdge(style, s, items, k);
        IsGood(style, s, k);
        assert k < |s| - 1 ==> Apart(style, s[k], s[|s| - 1]);
        IsGood(style, s, |s| - 1);
      }
      forall x | x in Starts(s)
        ensures x in Edges(items) && x != past
      {
        var k :| 0 <= k < |s| && First(s[k].itv) == x;
      }
      SubsetCount(Starts(s) + {past}, Edges(items));
      EdgesCount(items);
    }
  }

  lemma SubsetCount(a: set<int>, b: set<int>)
    requires a <= b
    ensures |a| <= |b|
  {
    assert b == a + (b - a);
  }

  // ----- how many ticks -----

  /** The number of ticks the segments add up to. */
  function TickCount<V>(s: seq<Seg<V>>): nat {
    if s == [] then 0 else Cardinality(s[0].itv) + TickCount(s[1..])
  }

  ghost function Range(lo: int, hi: int): (r: set<int>)
    ensures forall x :: x in r <==> lo <= x <= hi
    ensures |r| == if hi < lo then 0 else hi - lo + 1
    decreases hi - lo
  {
    if hi < lo then {} else Range(lo, hi - 1) + {hi}
  }

  /** The cardinality of a map is the number of ticks at which it is defined. */
  lemma {:induction false} TickCountIsDefined<V(!new)>(style: Style, s: seq<Seg<V>>, ticks: set<int>)
    requires Form(style, s)
    requires forall x :: x in ticks <==> Covers(s, x)
    ensures TickCount(s) == |ticks|
    decreases s
  {
    if s == [] {
      forall x
        ensures x !in ticks
      {
        assert !Covers(s, x);
      }
    } else {
      FormTail(style, s);
      var own := Range(First(s[0].itv), Last(s[0].itv));
      forall x
        ensures x in ticks - own <==> Covers(s[1..], x)
      {
        CoversFirst(style, s, x);
      }
      TickCountIsDefined(style, s[1..], ticks - own);
      forall x | x in own
        ensures x in ticks
      {
        CoversFirst(style, s, x);
      }
      SplitCount(ticks, own);
    }
  }

  lemma SplitCount(a: set<int>, b: set<int>)
    requires b <= a
    ensures |a| == |b| + |a - b|
  {
    assert a == b + (a - b);
  }

  /** What a list covers, by its first segment or by the others but never by both. */
  lemma CoversFirst<V(!new)>(style: Style, s: seq<Seg<V>>, x: int)
    requires Form(style, s) && s != []
    ensures Covers(s, x) <==> Has(s[0].itv, x) || Covers(s[1..], x)
    ensures Has(s[0].itv, x) ==> !Covers(s[1..], x)
  {
    FormTail(style, s);
    assert s == [s[0]] + s[1..];
    CoversConcat([s[0]], s[1..], x);
    assert Has(s[0].itv, x) <==> Has([s[0]][0].itv, x);
    if Has(s[0].itv, x) {
      NothingBeforeStart(style, s[1..], x);
    }
  }
}
