/** Lists of segments (an interval with the set of values held on it), the order in
    which a map keeps them, and the function from ticks to sets that they stand for. */
module Segments {
  import opened Intervals

  datatype Seg<V> = Seg(itv: Interval, val: set<V>)

  /** `joining` tells a map that merges touching segments of equal value from one that
      keeps every split; `rightOpen` says that only right-open intervals are put in. */
  datatype Style = Style(joining: bool, rightOpen: bool)

  predicate Fits(style: Style, i: Interval) { style.rightOpen ==> IsRightOpen(i) }

  /** What a stored segment must be: some ticks, some values. */
  predicate Good<V>(style: Style, seg: Seg<V>) {
    !IsEmpty(seg.itv) && seg.val != {} && Fits(style, seg.itv)
  }

  predicate Joinable<V(==)>(left: Seg<V>, right: Seg<V>) {
    Touches(left.itv, right.itv) && left.val == right.val
  }

  predicate Before<V>(a: Seg<V>, b: Seg<V>) { Last(a.itv) < First(b.itv) }

  /** How two stored segments, in list order, must lie to each other. */
  ghost predicate Apart<V>(style: Style, a: Seg<V>, b: Seg<V>) {
    Before(a, b) && (style.joining ==> !Joinable(a, b))
  }

  /** The form every map keeps. For a joining style this is the canonical form. */
  ghost predicate Form<V>(style: Style, s: seq<Seg<V>>) {
    && (forall i {:trigger Good(style, s[i])} :: 0 <= i < |s| ==> Good(style, s[i]))
    && (forall i, j {:trigger Apart(style, s[i], s[j])} :: 0 <= i < j < |s| ==> Apart(style, s[i], s[j]))
  }

  /** Does the segment hold the value at the tick? */
  ghost predicate At<V>(seg: Seg<V>, x: int, v: V) {
    Has(seg.itv, x) && v in seg.val
  }

  /** The meaning of a list of segments: which values are held at which tick. */
  ghost predicate Holds<V>(s: seq<Seg<V>>, x: int, v: V) {
    s != [] && (At(s[0], x, v) || Holds(s[1..], x, v))
  }

  /** Two lists mean the same function from ticks to sets. */
  ghost predicate SameMeaning<V(!new)>(a: seq<Seg<V>>, b: seq<Seg<V>>) {
    forall x, v :: Holds(a, x, v) <==> Holds(b, x, v)
  }

  /** Some segment covers the tick. */
  ghost predicate Covers<V>(s: seq<Seg<V>>, x: int) {
    exists k :: 0 <= k < |s| && Has(s[k].itv, x)
  }

  /** The tick lies in the range and the value in the set. */
  ghost predicate On<V>(lo: int, hi: int, w: set<V>, x: int, v: V) {
    lo <= x <= hi && v in w
  }

  lemma {:induction false} HoldsConcat<V(!new)>(a: seq<Seg<V>>, b: seq<Seg<V>>)
    ensures forall x, v :: Holds(a + b, x, v) <==> Holds(a, x, v) || Holds(b, x, v)
  {
    if a == [] {
      assert a + b == b;
    } else {
      assert (a + b)[1..] == a[1..] + b;
      HoldsConcat(a[1..], b);
    }
  }

  lemma HoldsAppend<V(!new)>(s: seq<Seg<V>>, seg: Seg<V>)
    ensures forall x, v :: Holds(s + [seg], x, v) <==> Holds(s, x, v) || At(seg, x, v)
  {
    HoldsConcat(s, [seg]);
    forall x, v
      ensures Holds([seg], x, v) <==> At(seg, x, v)
    {
      assert [seg][1..] == [];
    }
  }

  lemma HoldsPrepend<V(!new)>(seg: Seg<V>, s: seq<Seg<V>>)
    ensures forall x, v :: Holds([seg] + s, x, v) <==> At(seg, x, v) || Holds(s, x, v)
  {
    assert ([seg] + s)[1..] == s;
  }

  /** A value is held exactly by some segment. */
  lemma {:induction false} HoldsSome<V(!new)>(s: seq<Seg<V>>, x: int, v: V)
    ensures Holds(s, x, v) <==> exists k :: 0 <= k < |s| && At(s[k], x, v)
  {
    if s != [] {
      HoldsSome(s[1..], x, v);
      assert forall k :: 0 < k < |s| ==> s[k] == s[1..][k - 1];
    }
  }

  /** In a well-formed list a covering segment alone decides the values. */
  lemma HoldsInside<V(!new)>(style: Style, s: seq<Seg<V>>, k: nat, x: int)
    requires Form(style, s) && k < |s| && Has(s[k].itv, x)
    ensures forall v :: Holds(s, x, v) <==> v in s[k].val
  {
    forall v
      ensures Holds(s, x, v) <==> v in s[k].val
    {
      HoldsSome(s, x, v);
      assert v in s[k].val ==> At(s[k], x, v);
      if i :| 0 <= i < |s| && At(s[i], x, v) && i != k {
        assert i < k ==> Apart(style, s[i], s[k]);
        assert k < i ==> Apart(style, s[k], s[i]);
      }
    }
  }

  /** A tick is covered exactly when some value is held there: no segment is empty-handed. */
  lemma CoversHolds<V(!new)>(style: Style, s: seq<Seg<V>>, x: int)
    requires Form(style, s)
    ensures Covers(s, x) <==> exists v :: Holds(s, x, v)
  {
    if k :| 0 <= k < |s| && Has(s[k].itv, x) {
      assert Good(style, s[k]);
      var v :| v in s[k].val;
      HoldsInside(style, s, k, x);
      assert Holds(s, x, v);
    }
    if v :| Holds(s, x, v) {
      HoldsSome(s, x, v);
    }
  }

  /** A list that holds, at a tick, what another one holds or nothing covers accordingly. */
  lemma CoversWhere<V(!new)>(style: Style, r: seq<Seg<V>>, s: seq<Seg<V>>, x: int, kept: bool)
    requires Form(style, r) && Form(style, s)
    requires forall v :: Holds(r, x, v) <==> Holds(s, x, v) && kept
    ensures Covers(r, x) <==> Covers(s, x) && kept
  {
    CoversHolds(style, r, x);
    CoversHolds(style, s, x);
    if Covers(s, x) && kept {
      var v :| Holds(s, x, v);
      HoldsSome(r, x, v);
    }
    if Covers(r, x) {
      var v :| Holds(r, x, v);
      HoldsSome(s, x, v);
    }
  }

  lemma CoversConcat<V(!new)>(a: seq<Seg<V>>, b: seq<Seg<V>>, x: int)
    ensures Covers(a + b, x) <==> Covers(a, x) || Covers(b, x)
  {
    if k :| 0 <= k < |b| && Has(b[k].itv, x) {
      assert (a + b)[|a| + k] == b[k];
    }
    if k :| 0 <= k < |a| && Has(a[k].itv, x) {
      assert (a + b)[k] == a[k];
    }
  }

  lemma CoversAppend<V(!new)>(s: seq<Seg<V>>, seg: Seg<V>)
    ensures forall x :: Covers(s + [seg], x) <==> Covers(s, x) || Has(seg.itv, x)
  {
    forall x
      ensures Covers(s + [seg], x) <==> Covers(s, x) || Has(seg.itv, x)
    {
      CoversConcat(s, [seg], x);
      assert Has(seg.itv, x) <==> Has([seg][0].itv, x);
    }
  }

  // ----- form -----

  lemma IsGood<V(!new)>(style: Style, s: seq<Seg<V>>, k: nat)
    requires Form(style, s) && k < |s|
    ensures Good(style, s[k])
  {
    assert Good(style, s[k]);
  }

  /** All of the list lies left of the tick. */
  ghost predicate EndsBefore<V>(s: seq<Seg<V>>, t: int) {
    s != [] ==> Last(s[|s| - 1].itv) < t
  }

  /** All of the list lies right of the tick. */
  ghost predicate StartsAfter<V>(s: seq<Seg<V>>, t: int) {
    s != [] ==> t < First(s[0].itv)
  }

  lemma NothingBeforeStart<V(!new)>(style: Style, s: seq<Seg<V>>, x: int)
    requires Form(style, s) && StartsAfter(s, x)
    ensures !Covers(s, x) && forall v :: !Holds(s, x, v)
  {
    forall i | 0 <= i < |s|
      ensures !Has(s[i].itv, x)
    {
      assert Good(style, s[0]) && (0 < i ==> Apart(style, s[0], s[i]));
    }
    CoversHolds(style, s, x);
  }

  lemma NothingAfterEnd<V(!new)>(style: Style, s: seq<Seg<V>>, x: int)
    requires Form(style, s) && EndsBefore(s, x)
    ensures !Covers(s, x) && forall v :: !Holds(s, x, v)
  {
    var n := |s| - 1;
    forall i | 0 <= i < |s|
      ensures !Has(s[i].itv, x)
    {
      assert Good(style, s[n]) && (i < n ==> Apart(style, s[i], s[n]));
    }
    CoversHolds(style, s, x);
  }

  /** Everything a well-formed list holds lies between its first and its last tick. */
  lemma HoldsWithin<V(!new)>(style: Style, s: seq<Seg<V>>)
    requires Form(style, s)
    ensures forall x, v :: Holds(s, x, v) ==> s != [] && First(s[0].itv) <= x <= Last(s[|s| - 1].itv)
  {
    forall x, v | Holds(s, x, v)
      ensures s != [] && First(s[0].itv) <= x <= Last(s[|s| - 1].itv)
    {
      HoldsSome(s, x, v);
      var k :| 0 <= k < |s| && At(s[k], x, v);
      IsGood(style, s, 0);
      IsGood(style, s, |s| - 1);
      assert 0 < k ==> Apart(style, s[0], s[k]);
      assert k < |s| - 1 ==> Apart(style, s[k], s[|s| - 1]);
    }
  }

  lemma FormOne<V(!new)>(style: Style, seg: Seg<V>)
    requires Good(style, seg)
    ensures Form(style, [seg])
  {
  }

  lemma FormConcat<V(!new)>(style: Style, a: seq<Seg<V>>, b: seq<Seg<V>>)
    requires Form(style, a) && Form(style, b)
    requires a != [] && b != [] ==> Apart(style, a[|a| - 1], b[0])
    ensures Form(style, a + b)
  {
    var s, n := a + b, |a|;
    forall i | 0 <= i < |s|
      ensures Good(style, s[i])
    {
      assert i < n ==> Good(style, a[i]);
      assert n <= i ==> Good(style, b[i - n]);
    }
    forall i, j | 0 <= i < j < |s|
      ensures Apart(style, s[i], s[j])
    {
      assert j < n ==> Apart(style, a[i], a[j]);
      assert n <= i ==> Apart(style, b[i - n], b[j - n]);
      if i < n <= j {
        assert Good(style, a[n - 1]) && Good(style, b[0]);
        assert i < n - 1 ==> Apart(style, a[i], a[n - 1]);
        assert n < j ==> Apart(style, b[0], b[j - n]);
      }
    }
  }

  lemma FormAppend<V(!new)>(style: Style, s: seq<Seg<V>>, seg: Seg<V>)
    requires Form(style, s) && Good(style, seg)
    requires s != [] ==> Apart(style, s[|s| - 1], seg)
    ensures Form(style, s + [seg])
  {
    FormOne(style, seg);
    FormConcat(style, s, [seg]);
  }

  lemma FormSlice<V(!new)>(style: Style, s: seq<Seg<V>>, lo: nat, hi: nat)
    requires Form(style, s) && lo <= hi <= |s|
    ensures Form(style, s[lo..hi])
  {
    forall i | 0 <= i < hi - lo
      ensures Good(style, s[lo..hi][i])
    {
      assert Good(style, s[lo + i]);
    }
    forall i, j | 0 <= i < j < hi - lo
      ensures Apart(style, s[lo..hi][i], s[lo..hi][j])
    {
      assert Apart(style, s[lo + i], s[lo + j]);
    }
  }

  /** Cutting a well-formed list in two. */
  lemma FormSplit<V(!new)>(style: Style, s: seq<Seg<V>>, k: nat)
    requires Form(style, s) && k <= |s|
    ensures Form(style, s[..k]) && Form(style, s[k..])
    ensures 0 < k < |s| ==> Apart(style, s[k - 1], s[k])
    ensures forall x, v :: Holds(s, x, v) <==> Holds(s[..k], x, v) || Holds(s[k..], x, v)
  {
    FormSlice(style, s, 0, k);
    FormSlice(style, s, k, |s|);
    assert s == s[..k] + s[k..];
    HoldsConcat(s[..k], s[k..]);
  }

  /** Taking the first segment off a well-formed list. */
  lemma FormTail<V(!new)>(style: Style, s: seq<Seg<V>>)
    requires Form(style, s) && s != []
    ensures Good(style, s[0]) && Form(style, s[1..])
    ensures 1 < |s| ==> Apart(style, s[0], s[1])
    ensures forall x, v :: Holds(s, x, v) <==> At(s[0], x, v) || Holds(s[1..], x, v)
  {
    FormSlice(style, s, 1, |s|);
    assert s == [s[0]] + s[1..];
    HoldsPrepend(s[0], s[1..]);
  }

  /** No segment has an empty interval. */
  ghost predicate NonEmpty<V>(s: seq<Seg<V>>) {
    forall k {:trigger IsEmpty(s[k].itv)} :: 0 <= k < |s| ==> !IsEmpty(s[k].itv)
  }

  lemma NonEmptySlice<V(!new)>(s: seq<Seg<V>>, lo: nat, hi: nat)
    requires NonEmpty(s) && lo <= hi <= |s|
    ensures NonEmpty(s[lo..hi])
    ensures lo < hi ==> !IsEmpty(s[lo].itv)
  {
    forall k | 0 <= k < hi - lo
      ensures !IsEmpty(s[lo..hi][k].itv)
    {
      assert !IsEmpty(s[lo + k].itv);
    }
  }

  lemma AllNonEmpty<V(!new)>(style: Style, s: seq<Seg<V>>)
    requires Form(style, s)
    ensures NonEmpty(s)
  {
    forall k | 0 <= k < |s|
      ensures !IsEmpty(s[k].itv)
    {
      IsGood(style, s, k);
    }
  }

  // ----- building a list from left to right -----

  /** Append a segment at the right end; a joining map merges it into its left
      neighbour when the two touch and hold the same values. */
  function Push<V(==)>(style: Style, s: seq<Seg<V>>, seg: Seg<V>): seq<Seg<V>> {
    if style.joining && s != [] && Joinable(s[|s| - 1], seg)
    then s[..|s| - 1] + [Seg(Hull(s[|s| - 1].itv, seg.itv), s[|s| - 1].val)]
    else s + [seg]
  }

  /** Push, unless the combination left no value: such a segment is dropped. */
  function PushCombined<V(==)>(style: Style, s: seq<Seg<V>>, seg: Seg<V>): seq<Seg<V>> {
    if seg.val == {} then s else Push(style, s, seg)
  }

  /** Put two lists one after the other, merging at the seam when the style joins. */
  function Glue<V(==)>(style: Style, a: seq<Seg<V>>, b: seq<Seg<V>>): seq<Seg<V>> {
    if b == [] then a else Push(style, a, b[0]) + b[1..]
  }

  /** Merging the last segment of a list with what follows is gluing the two lists. */
  lemma GlueAtLast<V(!new)>(style: Style, a: seq<Seg<V>>, b: seq<Seg<V>>)
    requires a != []
    ensures a[..|a| - 1] + Glue(style, [a[|a| - 1]], b) == Glue(style, a, b)
  {
    var n := |a| - 1;
    assert a == a[..n] + [a[n]];
  }

  /** Joining a well-formed list with one that already lies apart changes nothing. */
  lemma GlueApart<V(!new)>(style: Style, a: seq<Seg<V>>, b: seq<Seg<V>>)
    requires a != [] && b != [] ==> Apart(style, a[|a| - 1], b[0])
    ensures Glue(style, a, b) == a + b
  {
    if b != [] {
      assert b == [b[0]] + b[1..];
    }
  }

  lemma PushCorrect<V(!new)>(style: Style, s: seq<Seg<V>>, seg: Seg<V>)
    requires Form(style, s) && Good(style, seg) && EndsBefore(s, First(seg.itv))
    ensures var r := Push(style, s, seg);
            && Form(style, r) && r != []
            && Last(r[|r| - 1].itv) == Last(seg.itv) && r[|r| - 1].val == seg.val
    ensures forall x, v :: Holds(Push(style, s, seg), x, v) <==> Holds(s, x, v) || At(seg, x, v)
  {
    var n := |s| - 1;
    if style.joining && s != [] && Joinable(s[n], seg) {
      var merged := Seg(Hull(s[n].itv, seg.itv), s[n].val);
      assert Good(style, s[n]);
      FormSplit(style, s, n);
      assert Good(style, merged);
      FormAppend(style, s[..n], merged);
      HoldsAppend(s[..n], merged);
      HoldsAppend(s[..n], s[n]);
      assert s == s[..n] + [s[n]];
      forall x, v
        ensures At(merged, x, v) <==> At(s[n], x, v) || At(seg, x, v)
      {
        HullIsLeast(s[n].itv, seg.itv, x);
      }
    } else {
      FormAppend(style, s, seg);
      HoldsAppend(s, seg);
    }
  }

  lemma GlueCorrect<V(!new)>(style: Style, a: seq<Seg<V>>, b: seq<Seg<V>>)
    requires Form(style, a) && Form(style, b)
    requires a != [] && b != [] ==> Before(a[|a| - 1], b[0])
    ensures Form(style, Glue(style, a, b))
    ensures forall x, v :: Holds(Glue(style, a, b), x, v) <==> Holds(a, x, v) || Holds(b, x, v)
  {
    if b != [] {
      var p := Push(style, a, b[0]);
      FormTail(style, b);
      PushCorrect(style, a, b[0]);
      assert b[1..] != [] ==> Apart(style, p[|p| - 1], b[1]);
      FormConcat(style, p, b[1..]);
      HoldsConcat(p, b[1..]);
    }
  }

  // ----- finding the overlapped block -----

  /** The first segment that does not end before the probe begins. */
  function LowerBound<V>(s: seq<Seg<V>>, i: Interval): (r: nat)
    ensures r <= |s|
  {
    if s == [] || First(i) <= Last(s[0].itv) then 0 else 1 + LowerBound(s[1..], i)
  }

  /** The first segment that begins after the probe ends. */
  function UpperBound<V>(s: seq<Seg<V>>, i: Interval): (r: nat)
    ensures r <= |s|
  {
    if s == [] || Last(i) < First(s[0].itv) then 0 else 1 + UpperBound(s[1..], i)
  }

  lemma BoundsSplit<V(!new)>(style: Style, s: seq<Seg<V>>, i: Interval)
    requires Form(style, s)
    ensures forall k :: 0 <= k < |s| ==> (k < LowerBound(s, i) <==> Last(s[k].itv) < First(i))
    ensures forall k :: 0 <= k < |s| ==> (k < UpperBound(s, i) <==> First(s[k].itv) <= Last(i))
  {
    if s != [] {
      FormTail(style, s);
      BoundsSplit(style, s[1..], i);
      forall k | 0 <= k < |s|
        ensures k < LowerBound(s, i) <==> Last(s[k].itv) < First(i)
        ensures k < UpperBound(s, i) <==> First(s[k].itv) <= Last(i)
      {
        assert Good(style, s[k]) && (0 < k ==> Apart(style, s[0], s[k]) && s[k] == s[1..][k - 1]);
      }
    }
  }

  /** On a well-formed list and a non-empty probe, the range between the two bounds
      is exactly the block of segments that share a tick with the probe. */
  lemma EqualRangeIsOverlap<V(!new)>(style: Style, s: seq<Seg<V>>, i: Interval)
    requires Form(style, s) && !IsEmpty(i)
    ensures LowerBound(s, i) <= UpperBound(s, i)
    ensures forall k {:trigger Intersects(s[k].itv, i)} :: 0 <= k < |s| ==>
              (LowerBound(s, i) <= k < UpperBound(s, i) <==> Intersects(s[k].itv, i))
    ensures EndsBefore(s[..LowerBound(s, i)], First(i)) && StartsAfter(s[UpperBound(s, i)..], Last(i))
  {
    BoundsSplit(style, s, i);
    forall k | 0 <= k < |s|
      ensures LowerBound(s, i) <= k < UpperBound(s, i) <==> Intersects(s[k].itv, i)
    {
      assert Good(style, s[k]);
    }
    var lb, ub := LowerBound(s, i), UpperBound(s, i);
    if ub < lb {
      IsGood(style, s, ub);
    }
  }

  /** A list holds and covers nothing outside its hull. */
  lemma CoversWithin<V(!new)>(style: Style, s: seq<Seg<V>>, k: nat, x: int)
    requires Form(style, s) && k < |s| && Has(s[k].itv, x)
    ensures First(s[0].itv) <= x <= Last(s[|s| - 1].itv)
  {
    var n := |s| - 1;
    IsGood(style, s, 0);
    IsGood(style, s, n);
    assert 0 < k ==> Apart(style, s[0], s[k]);
    assert k < n ==> Apart(style, s[k], s[n]);
  }

  /** Only the keys between the two positions of the common range can share a tick with
      the other list, and if there is no common range none does. */
  lemma CommonTicks<A(!new), B(!new)>(style: Style, keys: seq<Seg<A>>, s: seq<Seg<B>>)
    requires Form(style, keys) && Form(style, s) && keys != [] && s != []
    ensures var lwb, upb := LowerBound(keys, s[0].itv), UpperBound(keys, s[|s| - 1].itv);
            lwb <= upb && forall x, v :: Holds(s, x, v) ==> (Covers(keys, x) <==> Covers(keys[lwb..upb], x))
    ensures Last(keys[|keys| - 1].itv) < First(s[0].itv) || Last(s[|s| - 1].itv) < First(keys[0].itv) ==>
              forall x, v :: Holds(s, x, v) ==> !Covers(keys, x)
  {
    var lwb, upb := LowerBound(keys, s[0].itv), UpperBound(keys, s[|s| - 1].itv);
    var lo, hi := First(s[0].itv), Last(s[|s| - 1].itv);
    RangeOrdered(style, keys, s);
    HoldsWithin(style, s);
    forall x | lo <= x <= hi
      ensures Covers(keys, x) <==> Covers(keys[lwb..upb], x)
      ensures Covers(keys, x) ==> First(keys[0].itv) <= x <= Last(keys[|keys| - 1].itv)
    {
      CoversInRange(style, keys, s[0].itv, s[|s| - 1].itv, x);
    }
  }

  /** Between the begin of one probe and the end of another, only the keys from the lower
      bound of the one to the upper bound of the other count. */
  lemma CoversInRange<V(!new)>(style: Style, keys: seq<Seg<V>>, from: Interval, to: Interval, x: int)
    requires Form(style, keys) && LowerBound(keys, from) <= UpperBound(keys, to) && First(from) <= x <= Last(to)
    ensures Covers(keys, x) <==> Covers(keys[LowerBound(keys, from)..UpperBound(keys, to)], x)
    ensures Covers(keys, x) ==> First(keys[0].itv) <= x <= Last(keys[|keys| - 1].itv)
  {
    var lwb, upb := LowerBound(keys, from), UpperBound(keys, to);
    var range := keys[lwb..upb];
    if k :| 0 <= k < |keys| && Has(keys[k].itv, x) {
      BoundsSplit(style, keys, from);
      BoundsSplit(style, keys, to);
      assert range[k - lwb] == keys[k];
      CoversWithin(style, keys, k, x);
    }
    if k :| 0 <= k < |range| && Has(range[k].itv, x) {
      assert keys[lwb + k] == range[k];
    }
  }

  lemma RangeOrdered<A(!new), B(!new)>(style: Style, keys: seq<Seg<A>>, s: seq<Seg<B>>)
    requires Form(style, keys) && Form(style, s) && keys != [] && s != []
    ensures LowerBound(keys, s[0].itv) <= UpperBound(keys, s[|s| - 1].itv)
  {
    var lwb, upb := LowerBound(keys, s[0].itv), UpperBound(keys, s[|s| - 1].itv);
    BoundsSplit(style, keys, s[0].itv);
    BoundsSplit(style, keys, s[|s| - 1].itv);
    IsGood(style, s, 0);
    CoversWithin(style, s, 0, First(s[0].itv));
    if upb < lwb {
      IsGood(style, keys, upb);
    }
  }
}
