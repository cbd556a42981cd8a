/** Conversions between containers: joining a map that kept its splits, and taking a
    map apart into single ticks and putting it together again. */
module Morphisms {
  import opened Intervals
  import opened Segments
  import opened Addition
  import opened Canonical

  // ----- join -----

  function Joining(style: Style): Style { style.(joining := true) }

  /** Push a list of segments one after the other, merging where they can be joined. */
  function Pushed<V(==)>(style: Style, p: seq<Seg<V>>, s: seq<Seg<V>>): seq<Seg<V>>
    decreases s
  {
    if s == [] then p else Pushed(style, Push(style, p, s[0]), s[1..])
  }

  lemma {:induction false} PushedCorrect<V(!new)>(style: Style, p: seq<Seg<V>>, s: seq<Seg<V>>)
    requires Form(style, p) && Form(style.(joining := false), s)
    requires s != [] ==> EndsBefore(p, First(s[0].itv))
    ensures Form(style, Pushed(style, p, s))
    ensures forall x, v :: Holds(Pushed(style, p, s), x, v) <==> Holds(p, x, v) || Holds(s, x, v)
    decreases s
  {
    if s != [] {
      FormTail(style.(joining := false), s);
      IsGood(style.(joining := false), s, 0);
      PushCorrect(style, p, s[0]);
      PushedCorrect(style, Push(style, p, s[0]), s[1..]);
    }
  }

  /** Pushing on a segment that cannot be joined moves the seam one further. */
  lemma PushedOn<V(!new)>(style: Style, s: seq<Seg<V>>, k: nat)
    requires k < |s| && (0 < k ==> !Joinable(s[k - 1], s[k]))
    ensures Pushed(style, s[..k + 1], s[k + 1..]) == Pushed(style, s[..k], s[k..])
  {
    assert s[..k + 1] == Push(style, s[..k], s[k]) && s[k..][1..] == s[k + 1..];
  }

  /** What `join` makes of a list that kept its splits. */
  function Joined<V(==)>(style: Style, s: seq<Seg<V>>): seq<Seg<V>> { Pushed(Joining(style), [], s) }

  lemma JoinedCorrect<V(!new)>(style: Style, s: seq<Seg<V>>)
    requires Form(style, s)
    ensures Form(Joining(style), Joined(style, s)) && SameMeaning(Joined(style, s), s)
  {
    FormWeaken(style, s);
    PushedCorrect(Joining(style), [], s);
  }

  /** A run of segments replaced by one. */
  lemma RunReplaced<V(!new)>(s: seq<Seg<V>>, first: nat, it: nat, merged: Seg<V>)
    requires NonEmpty(s) && first < it < |s| && !IsEmpty(merged.itv)
    ensures var r := s[..first] + [merged] + s[it + 1..];
            && first < |r| < |s| && NonEmpty(r) && r[first] == merged
            && r[..first + 1] == s[..first] + [merged] && r[first + 1..] == s[it + 1..]
            && (first + 1 < |r| ==> it + 1 < |s| && r[first + 1] == s[it + 1])
            && s[it := merged][..first] + s[it := merged][it..] == r
  {
    var r := s[..first] + [merged] + s[it + 1..];
    assert s[it := merged][it..] == [merged] + s[it + 1..];
    forall k | 0 <= k < |r|
      ensures !IsEmpty(r[k].itv)
    {
      assert first < k ==> r[k] == s[it + (k - first)] && !IsEmpty(s[it + (k - first)].itv);
      assert k < first ==> r[k] == s[k] && !IsEmpty(s[k].itv);
    }
  }

  /** Pushing on a segment that can be joined widens the last one: its key becomes the
      hull of the outermost two. */
  lemma PushedRun<V(!new)>(style: Style, s: seq<Seg<V>>, first: nat, it: nat)
    requires style.joining && first <= it && it + 1 < |s|
    requires !IsEmpty(s[first].itv) && !IsEmpty(s[it].itv) && !IsEmpty(s[it + 1].itv)
    requires it == first || Before(s[first], s[it])
    requires Joinable(s[it], s[it + 1]) && s[first].val == s[it].val
    ensures Pushed(style, s[..first] + [Seg(Hull(s[it].itv, s[first].itv), s[first].val)], s[it + 1..])
         == Pushed(style, s[..first] + [Seg(Hull(s[it + 1].itv, s[first].itv), s[first].val)], s[it + 2..])
  {
    var p, head := s[..first], s[first];
    var a, b := Seg(Hull(s[it].itv, head.itv), head.val), Seg(Hull(s[it + 1].itv, head.itv), head.val);
    if it != first {
      HullEnds(head.itv, s[it].itv);
    }
    HullEnds(head.itv, s[it + 1].itv);
    assert (p + [a])[..|p|] == p;
    assert s[it + 1..][1..] == s[it + 2..];
    assert Push(style, p + [a], s[it + 1]) == p + [b];
  }

  /** Joining the splitting map that a list of additions builds gives the joining map
      that the same additions build. */
  lemma SplitThenJoin<V(!new)>(rightOpen: bool, items: seq<Seg<V>>)
    requires AllFit(Style(true, rightOpen), items)
    ensures var split, joined := Style(false, rightOpen), Style(true, rightOpen);
            && Same(Joined(split, AddedAll(split, [], items)), AddedAll(joined, [], items))
            && (rightOpen ==> Joined(split, AddedAll(split, [], items)) == AddedAll(joined, [], items))
  {
    var split, joined := Style(false, rightOpen), Style(true, rightOpen);
    AddedAllCorrect(split, [], items);
    AddedAllCorrect(joined, [], items);
    JoinedCorrect(split, AddedAll(split, [], items));
    Unique(joined, joined, Joined(split, AddedAll(split, [], items)), AddedAll(joined, [], items));
  }

  // ----- atomize and cluster -----

  /** The single ticks of a segment from `x` on, in order. */
  function AtomsFrom<V>(seg: Seg<V>, x: int): seq<Seg<V>>
    decreases Last(seg.itv) - x
  {
    if Last(seg.itv) < x then [] else [Seg(Singleton(x), seg.val)] + AtomsFrom(seg, x + 1)
  }

  function Atoms<V>(s: seq<Seg<V>>): seq<Seg<V>> {
    if s == [] then [] else AtomsFrom(s[0], First(s[0].itv)) + Atoms(s[1..])
  }

  lemma {:induction false} AtomsFromMean<V(!new)>(seg: Seg<V>, from: int)
    ensures forall x, v :: Holds(AtomsFrom(seg, from), x, v) <==> from <= x <= Last(seg.itv) && v in seg.val
    decreases Last(seg.itv) - from
  {
    if from <= Last(seg.itv) {
      AtomsFromMean(seg, from + 1);
      HoldsPrepend(Seg(Singleton(from), seg.val), AtomsFrom(seg, from + 1));
    }
  }

  lemma {:induction false} AtomsMean<V(!new)>(s: seq<Seg<V>>)
    ensures SameMeaning(Atoms(s), s)
  {
    if s != [] {
      AtomsFromMean(s[0], First(s[0].itv));
      AtomsMean(s[1..]);
      HoldsConcat(AtomsFrom(s[0], First(s[0].itv)), Atoms(s[1..]));
    }
  }

  /** The style of a map that takes intervals of every bound kind and joins. */
  const ANY_JOINING := Style(true, false)

  /** Clustering the atoms of a canonical map gives the map back, although it is built
      from closed singletons and the map need not hold a closed interval at all. */
  lemma ClusterOfAtoms<V(!new)>(style: Style, s: seq<Seg<V>>)
    requires style.joining && Form(style, s)
    ensures Same(AddedAll(ANY_JOINING, [], Atoms(s)), s)
  {
    AddedAllCorrect(ANY_JOINING, [], Atoms(s));
    AtomsMean(s);
    Unique(ANY_JOINING, style, AddedAll(ANY_JOINING, [], Atoms(s)), s);
  }

  /** Atoms come out in the order of the ticks, each once. */
  lemma AtomsAscend<V(!new)>(style: Style, s: seq<Seg<V>>)
    requires Form(style, s)
    ensures Form(Style(false, false), Atoms(s))
    ensures forall k :: 0 <= k < |Atoms(s)| ==> First(Atoms(s)[k].itv) == Last(Atoms(s)[k].itv)
    ensures s != [] ==> Atoms(s) != [] && First(Atoms(s)[0].itv) == First(s[0].itv)
  {
    if s != [] {
      var split := Style(false, false);
      FormTail(style, s);
      AtomsFromAscend(s[0], First(s[0].itv));
      AtomsAscend(style, s[1..]);
      FormConcat(split, AtomsFrom(s[0], First(s[0].itv)), Atoms(s[1..]));
    }
  }

  lemma AtomsFromAscend<V(!new)>(seg: Seg<V>, from: int)
    requires seg.val != {}
    ensures var r := AtomsFrom(seg, from);
            && Form(Style(false, false), r)
            && (r != [] ==> First(r[0].itv) == from && Last(r[|r| - 1].itv) == Last(seg.itv))
            && (r == [] <==> Last(seg.itv) < from)
    ensures forall k :: 0 <= k < |AtomsFrom(seg, from)| ==>
              First(AtomsFrom(seg, from)[k].itv) == Last(AtomsFrom(seg, from)[k].itv)
    decreases Last(seg.itv) - from
  {
    if from <= Last(seg.itv) {
      var split := Style(false, false);
      AtomsFromAscend(seg, from + 1);
      FormOne(split, Seg(Singleton(from), seg.val));
      FormConcat(split, [Seg(Singleton(from), seg.val)], AtomsFrom(seg, from + 1));
    }
  }
}
