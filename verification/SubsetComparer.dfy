/** The comparison of two interval containers by inclusion: one walk over both, driven by
    a small state machine, that finds out whether either is contained in the other. */
module SubsetComparers {
  import opened Intervals
  import opened Segments

  /** The result bits: is left a subset of right, is left a superset of right? */
  datatype Inclusion = Inclusion(subset: bool, superset: bool) {
    function And(other: Inclusion): Inclusion {
      Inclusion(subset && other.subset, superset && other.superset)
    }
  }

  const UNRELATED := Inclusion(false, false)
  const SUBSET := Inclusion(true, false)
  const SUPERSET := Inclusion(false, true)
  const EQUAL := Inclusion(true, true)

  datatype State = NextBoth | NextLeft | NextRight | Stop

  /** The only thing asked of a container here: sorted and disjoint. */
  const SORTED := Style(false, false)

  // ----- inclusion, tick by tick -----

  /** What `a` has at the tick `b` has too: the key, and with `values` also the values. */
  ghost predicate LeqAt<V(!new)>(values: bool, a: seq<Seg<V>>, b: seq<Seg<V>>, x: int) {
    Covers(a, x) ==> Covers(b, x) && (values ==> forall v :: Holds(a, x, v) ==> Holds(b, x, v))
  }

  ghost predicate LeqUpTo<V(!new)>(values: bool, a: seq<Seg<V>>, b: seq<Seg<V>>, t: int) {
    forall x {:trigger LeqAt(values, a, b, x)} :: x <= t ==> LeqAt(values, a, b, x)
  }

  ghost predicate Included<V(!new)>(values: bool, a: seq<Seg<V>>, b: seq<Seg<V>>) {
    forall x {:trigger LeqAt(values, a, b, x)} :: LeqAt(values, a, b, x)
  }

  /** The result bits say exactly what holds up to `t`. */
  ghost predicate ExactUpTo<V(!new)>(values: bool, a: seq<Seg<V>>, b: seq<Seg<V>>, bits: Inclusion, t: int) {
    && (bits.subset <==> LeqUpTo(values, a, b, t))
    && (bits.superset <==> LeqUpTo(values, b, a, t))
  }

  /** Everything before position `k` ends at `t` or earlier, nothing from `k` on does. */
  ghost predicate Passed<V>(s: seq<Seg<V>>, k: nat, t: int) {
    k <= |s| && (0 < k ==> Last(s[k - 1].itv) <= t) && (k < |s| ==> t < Last(s[k].itv))
  }

  /** In the window behind `t` only the segment at `k` matters. */
  lemma OnlyHere<V(!new)>(s: seq<Seg<V>>, k: nat, t: int, x: int)
    requires Form(SORTED, s) && Passed(s, k, t) && t < x && (k < |s| ==> x <= Last(s[k].itv))
    ensures Covers(s, x) <==> k < |s| && Has(s[k].itv, x)
    ensures Covers(s, x) ==> forall v :: Holds(s, x, v) <==> v in s[k].val
  {
    forall i | 0 <= i < |s| && i != k
      ensures !Has(s[i].itv, x)
    {
      assert i < k - 1 ==> Apart(SORTED, s[i], s[k - 1]);
      if i < k {
        IsGood(SORTED, s, k - 1);
      }
      assert k < i ==> Apart(SORTED, s[k], s[i]);
    }
    if k < |s| && Has(s[k].itv, x) {
      HoldsInside(SORTED, s, k, x);
    }
  }

  /** Stepping past a segment. */
  lemma PassedNext<V(!new)>(s: seq<Seg<V>>, k: nat, t: int)
    requires Form(SORTED, s) && k < |s| && t == Last(s[k].itv)
    ensures Passed(s, k + 1, t) && (k + 1 < |s| ==> t < First(s[k + 1].itv))
  {
    assert k + 1 < |s| ==> Apart(SORTED, s[k], s[k + 1]);
    if k + 1 < |s| {
      IsGood(SORTED, s, k + 1);
    }
  }

  /** Jumping to the first segment of `a` that does not end before `probe` begins. */
  lemma PassedJump<V(!new)>(a: seq<Seg<V>>, i: nat, t: int, probe: Interval)
    requires Form(SORTED, a) && Passed(a, i, t) && i < |a| && t < First(a[i].itv) && Last(a[i].itv) < First(probe)
    ensures var k := LowerBound(a, probe);
            && i < k && Last(a[k - 1].itv) < First(probe)
            && (k < |a| ==> First(probe) <= Last(a[k].itv))
            && (k < |a| ==> Last(a[i].itv) < First(a[k].itv) && Last(a[k - 1].itv) < First(a[k].itv))
  {
    var k := LowerBound(a, probe);
    BoundsSplit(SORTED, a, probe);
    if k < |a| {
      assert Apart(SORTED, a[i], a[k]) && Apart(SORTED, a[k - 1], a[k]);
    }
  }

  /** Inclusion of the two current segments in the window behind `t` that both reach. */
  predicate WindowOk<V(==)>(values: bool, p: Seg<V>, q: Seg<V>, t: int) {
    || Min(Last(p.itv), Last(q.itv)) < First(p.itv)
    || ((First(q.itv) <= t + 1 || First(q.itv) <= First(p.itv)) && (values ==> p.val <= q.val))
  }

  lemma WindowExtends<V(!new)>(values: bool, a: seq<Seg<V>>, i: nat, b: seq<Seg<V>>, j: nat, t: int)
    requires Form(SORTED, a) && Form(SORTED, b) && Passed(a, i, t) && Passed(b, j, t) && i < |a| && j < |b|
    ensures var t' := Min(Last(a[i].itv), Last(b[j].itv));
            LeqUpTo(values, a, b, t') <==> LeqUpTo(values, a, b, t) && WindowOk(values, a[i], b[j], t)
  {
    var p, q := a[i], b[j];
    var t' := Min(Last(p.itv), Last(q.itv));
    IsGood(SORTED, a, i);
    forall x | t < x <= t'
      ensures LeqAt(values, a, b, x) <==> (Has(p.itv, x) ==> Has(q.itv, x) && (values ==> p.val <= q.val))
    {
      OnlyHere(a, i, t, x);
      OnlyHere(b, j, t, x);
    }
    if !WindowOk(values, p, q, t) {
      var x := if First(p.itv) <= t then t + 1 else First(p.itv);
      assert !LeqAt(values, a, b, x);
    }
  }

  /** A container that is used up is contained in anything from there on; one that is
      not has a tick left that a used-up one lacks. */
  lemma UsedUp<V(!new)>(values: bool, a: seq<Seg<V>>, b: seq<Seg<V>>, t: int)
    requires Form(SORTED, a) && Form(SORTED, b) && Passed(a, |a|, t)
    ensures Included(values, a, b) <==> LeqUpTo(values, a, b, t)
  {
    forall x | t < x
      ensures LeqAt(values, a, b, x)
    {
      OnlyHere(a, |a|, t, x);
    }
  }

  lemma LeftOver<V(!new)>(values: bool, a: seq<Seg<V>>, i: nat, b: seq<Seg<V>>, t: int)
    requires Form(SORTED, a) && Form(SORTED, b) && Passed(a, i, t) && i < |a| && Passed(b, |b|, t)
    ensures !Included(values, a, b)
  {
    var x := Last(a[i].itv);
    IsGood(SORTED, a, i);
    OnlyHere(b, |b|, t, x);
    assert Has(a[i].itv, x);
    assert !LeqAt(values, a, b, x);
  }

  /** A tick that `a` has and `b` lacks decides. */
  lemma Uncovered<V(!new)>(values: bool, a: seq<Seg<V>>, i: nat, b: seq<Seg<V>>, j: nat, t: int, t': int)
    requires Form(SORTED, a) && Form(SORTED, b) && i < |a| && Passed(b, j, t)
    requires t < First(a[i].itv) && (j < |b| ==> Last(a[i].itv) < First(b[j].itv))
    ensures !Included(values, a, b)
    ensures Last(a[i].itv) <= t' ==> !LeqUpTo(values, a, b, t')
  {
    var x := Last(a[i].itv);
    IsGood(SORTED, a, i);
    if j < |b| {
      IsGood(SORTED, b, j);
    }
    OnlyHere(b, j, t, x);
    assert Has(a[i].itv, x);
    assert !LeqAt(values, a, b, x);
  }

  /** What has been decided up to `t` may only be withdrawn later. */
  lemma UpToIsWeaker<V(!new)>(values: bool, a: seq<Seg<V>>, b: seq<Seg<V>>, t: int)
    requires !LeqUpTo(values, a, b, t)
    ensures !Included(values, a, b)
    ensures forall t' :: t <= t' ==> !LeqUpTo(values, a, b, t')
  {
    var x :| x <= t && !LeqAt(values, a, b, x);
  }

  class SubsetComparer<V(==,!new)> {
    const left: seq<Seg<V>>
    const right: seq<Seg<V>>
    /** Two maps are compared with their values, otherwise keys alone count. */
    const values: bool
    var result: Inclusion
    var priorLeft: nat
    var priorRight: nat
    /** Everything up to this tick has been compared. */
    ghost var done: int

    constructor (left: seq<Seg<V>>, right: seq<Seg<V>>, values: bool)
      requires Form(SORTED, left) && Form(SORTED, right)
      ensures this.left == left && this.right == right && this.values == values
      ensures Ready(NextBoth, 0, 0)
    {
      this.left, this.right, this.values := left, right, values;
      result := EQUAL;
      priorLeft, priorRight := 0, 0;
      var l := if left == [] then 0 else First(left[0].itv) - 1;
      var r := if right == [] then 0 else First(right[0].itv) - 1;
      done := Min(l, r);
      new;
      Start();
    }

    lemma Start()
      requires Form(SORTED, left) && Form(SORTED, right)
      requires left != [] ==> done < First(left[0].itv)
      requires right != [] ==> done < First(right[0].itv)
      ensures LeqUpTo(values, left, right, done) && LeqUpTo(values, right, left, done)
      ensures Passed(left, 0, done) && Passed(right, 0, done)
    {
      forall x | x <= done
        ensures !Covers(left, x) && !Covers(right, x)
      {
        NothingBeforeStart(SORTED, left, x);
        NothingBeforeStart(SORTED, right, x);
      }
      if left != [] {
        IsGood(SORTED, left, 0);
      }
      if right != [] {
        IsGood(SORTED, right, 0);
      }
    }

    /** What holds when the machine is about to act in a state. */
    ghost predicate Ready(state: State, l: nat, r: nat)
      reads this
    {
      && Form(SORTED, left) && Form(SORTED, right)
      && if state == Stop then
           && (result.subset <==> Included(values, left, right))
           && (result.superset <==> Included(values, right, left))
         else
           && ExactUpTo(values, left, right, result, done) && Passed(left, l, done) && Passed(right, r, done)
           && (state != NextRight && l < |left| ==> done < First(left[l].itv))
           && (state != NextLeft && r < |right| ==> done < First(right[r].itv))
           && (state == NextLeft ==>
                 && 0 < l && priorLeft == l - 1 && Last(left[l - 1].itv) == done && r < |right|
                 && (First(right[r].itv) <= done || !result.subset))
           && (state == NextRight ==>
                 && 0 < r && priorRight == r - 1 && Last(right[r - 1].itv) == done && l < |left|
                 && (First(left[l].itv) <= done || !result.superset))
    }

    method RestrictResult(state: Inclusion) returns (r: Inclusion)
      modifies this`result
      ensures result == r == old(result).And(state)
    {
      result := result.And(state);
      return result;
    }

    function CoCompare(l: nat, r: nat): Inclusion
      requires l < |left| && r < |right|
    {
      if values then Inclusion(left[l].val <= right[r].val, right[r].val <= left[l].val) else EQUAL
    }

    /** Step past the segment that ends first, or past both. The bits already tell
        whether the two segments agree in the window that both reach. */
    method Proceed(l: nat, r: nat) returns (state: State, l': nat, r': nat)
      requires Form(SORTED, left) && Form(SORTED, right) && l < |left| && r < |right|
      requires Passed(left, l, done) && Passed(right, r, done)
      requires ExactUpTo(values, left, right, result, Min(Last(left[l].itv), Last(right[r].itv)))
      requires First(right[r].itv) <= Last(left[l].itv) || !result.subset
      requires First(left[l].itv) <= Last(right[r].itv) || !result.superset
      modifies this
      ensures Ready(state, l', r') && state != Stop
      ensures l <= l' && r <= r' && l + r < l' + r'
    {
      done := Min(Last(left[l].itv), Last(right[r].itv));
      if UpperLess(left[l].itv, right[r].itv) {
        priorLeft := l;
        PassedNext(left, l, done);
        return NextLeft, l + 1, r;
      } else if UpperLess(right[r].itv, left[l].itv) {
        priorRight := r;
        PassedNext(right, r, done);
        return NextRight, l, r + 1;
      } else {
        PassedNext(left, l, done);
        PassedNext(right, r, done);
        return NextBoth, l + 1, r + 1;
      }
    }

    /** What the end of the window brings. */
    lemma WindowEnds(l: nat, r: nat)
      requires Form(SORTED, left) && Form(SORTED, right) && l < |left| && r < |right|
      requires Passed(left, l, done) && Passed(right, r, done)
      requires result.subset <==> LeqUpTo(values, left, right, done) && WindowOk(values, left[l], right[r], done)
      requires result.superset <==> LeqUpTo(values, right, left, done) && WindowOk(values, right[r], left[l], done)
      ensures ExactUpTo(values, left, right, result, Min(Last(left[l].itv), Last(right[r].itv)))
    {
      WindowExtends(values, left, l, right, r, done);
      WindowExtends(values, right, r, left, l, done);
    }

    method StepBoth(l: nat, r: nat) returns (state: State, l': nat, r': nat)
      requires Ready(NextBoth, l, r)
      modifies this
      ensures Ready(state, l', r')
      ensures state != Stop ==> l <= l' <= |left| && r <= r' <= |right| && l + r < l' + r'
    {
      state, l', r' := Stop, l, r;
      if l == |left| && r == |right| {
        UsedUp(values, left, right, done);
        UsedUp(values, right, left, done);
      } else if l == |left| {
        UsedUp(values, left, right, done);
        LeftOver(values, right, r, left, done);
        var _ := RestrictResult(SUBSET);
      } else if r == |right| {
        UsedUp(values, right, left, done);
        LeftOver(values, left, l, right, done);
        var _ := RestrictResult(SUPERSET);
      } else if ExclusiveLess(left[l].itv, right[r].itv) {
        state, l' := JumpLeft(l, r);
      } else if ExclusiveLess(right[r].itv, left[l].itv) {
        state, r' := JumpRight(l, r);
      } else {
        state, l', r' := Overlapping(l, r);
      }
    }

    /** Left lies before right with nothing in between: skip left segments up to right. */
    method JumpLeft(l: nat, r: nat) returns (state: State, l': nat)
      requires Ready(NextBoth, l, r) && l < |left| && r < |right| && ExclusiveLess(left[l].itv, right[r].itv)
      modifies this
      ensures Ready(state, l', r) && state in {NextBoth, Stop}
      ensures state != Stop ==> l < l' <= |left|
    {
      IsGood(SORTED, left, l);
      IsGood(SORTED, right, r);
      state, l' := Stop, l;
      Uncovered(values, left, l, right, r, done, Last(left[l].itv));
      var res := RestrictResult(SUPERSET);
      if res == UNRELATED {
        UpToIsWeaker(values, right, left, done);
        return;
      }
      var joint := LowerBound(left, right[r].itv);
      PassedJump(left, l, done, right[r].itv);
      if joint == |left| {
        LeftOver(values, right, r, left, First(right[r].itv) - 1);
        result := UNRELATED;
      } else {
        state, l' := NextBoth, joint;
        ghost var t := Min(First(left[joint].itv), First(right[r].itv)) - 1;
        SkippedLeft(left, right, r, done, t);
        Uncovered(values, left, l, right, r, done, t);
        IsGood(SORTED, left, joint);
        done := t;
      }
    }

    /** The mirror image of JumpLeft. */
    method JumpRight(l: nat, r: nat) returns (state: State, r': nat)
      requires Ready(NextBoth, l, r) && l < |left| && r < |right| && ExclusiveLess(right[r].itv, left[l].itv)
      modifies this
      ensures Ready(state, l, r') && state in {NextBoth, Stop}
      ensures state != Stop ==> r < r' <= |right|
    {
      IsGood(SORTED, left, l);
      IsGood(SORTED, right, r);
      state, r' := Stop, r;
      Uncovered(values, right, r, left, l, done, Last(right[r].itv));
      var res := RestrictResult(SUBSET);
      if res == UNRELATED {
        UpToIsWeaker(values, left, right, done);
        return;
      }
      var joint := LowerBound(right, left[l].itv);
      PassedJump(right, r, done, left[l].itv);
      if joint == |right| {
        LeftOver(values, left, l, right, First(left[l].itv) - 1);
        result := UNRELATED;
      } else {
        state, r' := NextBoth, joint;
        ghost var t := Min(First(right[joint].itv), First(left[l].itv)) - 1;
        SkippedLeft(right, left, l, done, t);
        Uncovered(values, right, r, left, l, done, t);
        IsGood(SORTED, right, joint);
        done := t;
      }
    }

    /** While `a` is skipped up to the next segment of `b`, nothing of `b` is met. */
    lemma SkippedLeft(a: seq<Seg<V>>, b: seq<Seg<V>>, j: nat, t: int, t': int)
      requires Form(SORTED, a) && Form(SORTED, b) && Passed(b, j, t) && j < |b| && t <= t' < First(b[j].itv)
      ensures LeqUpTo(values, b, a, t') <==> LeqUpTo(values, b, a, t)
    {
      IsGood(SORTED, b, j);
      forall x | t < x <= t'
        ensures LeqAt(values, b, a, x)
      {
        OnlyHere(b, j, t, x);
      }
    }

    /** The two current segments share a tick. */
    method Overlapping(l: nat, r: nat) returns (state: State, l': nat, r': nat)
      requires Ready(NextBoth, l, r) && l < |left| && r < |right|
      requires !ExclusiveLess(left[l].itv, right[r].itv) && !ExclusiveLess(right[r].itv, left[l].itv)
      modifies this
      ensures Ready(state, l', r')
      ensures state != Stop ==> l <= l' <= |left| && r <= r' <= |right| && l + r < l' + r'
    {
      WindowExtends(values, left, l, right, r, done);
      WindowExtends(values, right, r, left, l, done);
      state, l', r' := Stop, l, r;
      var res := result;
      if values {
        res := RestrictResult(CoCompare(l, r));
        if res == UNRELATED {
          Withdrawn(l, r);
          return;
        }
      }
      if LowerLess(left[l].itv, right[r].itv) {
        res := RestrictResult(SUPERSET);
      } else if LowerLess(right[r].itv, left[l].itv) {
        res := RestrictResult(SUBSET);
      }
      if res == UNRELATED {
        Withdrawn(l, r);
        return;
      }
      WindowEnds(l, r);
      state, l', r' := Proceed(l, r);
    }

    /** Once both bits are withdrawn the walk may stop: neither inclusion can hold. */
    lemma Withdrawn(l: nat, r: nat)
      requires Form(SORTED, left) && Form(SORTED, right) && l < |left| && r < |right|
      requires Passed(left, l, done) && Passed(right, r, done)
      requires !(LeqUpTo(values, left, right, done) && WindowOk(values, left[l], right[r], done))
      requires !(LeqUpTo(values, right, left, done) && WindowOk(values, right[r], left[l], done))
      ensures !Included(values, left, right) && !Included(values, right, left)
    {
      WindowExtends(values, left, l, right, r, done);
      WindowExtends(values, right, r, left, l, done);
      UpToIsWeaker(values, left, right, Min(Last(left[l].itv), Last(right[r].itv)));
      UpToIsWeaker(values, right, left, Min(Last(left[l].itv), Last(right[r].itv)));
    }

    method StepLeft(l: nat, r: nat) returns (state: State, l': nat, r': nat)
      requires Ready(NextLeft, l, r)
      modifies this
      ensures Ready(state, l', r')
      ensures state != Stop ==> l <= l' <= |left| && r <= r' <= |right| && l + r < l' + r'
    {
      state, l', r' := Stop, l, r;
      if l == |left| {
        UsedUp(values, left, right, done);
        LeftOver(values, right, r, left, done);
        var _ := RestrictResult(SUBSET);
        return;
      }
      IsGood(SORTED, left, l);
      IsGood(SORTED, right, r);
      var res := result;
      if !Touches(left[priorLeft].itv, left[l].itv) && LowerLess(right[r].itv, left[l].itv) {
        res := RestrictResult(SUBSET);
        if res == UNRELATED {
          Withdrawn(l, r);
          return;
        }
      }
      if values && Intersects(left[l].itv, right[r].itv) {
        res := RestrictResult(CoCompare(l, r));
        if res == UNRELATED {
          Withdrawn(l, r);
          return;
        }
      }
      WindowEnds(l, r);
      state, l', r' := Proceed(l, r);
    }

    method StepRight(l: nat, r: nat) returns (state: State, l': nat, r': nat)
      requires Ready(NextRight, l, r)
      modifies this
      ensures Ready(state, l', r')
      ensures state != Stop ==> l <= l' <= |left| && r <= r' <= |right| && l + r < l' + r'
    {
      state, l', r' := Stop, l, r;
      if r == |right| {
        UsedUp(values, right, left, done);
        LeftOver(values, left, l, right, done);
        var _ := RestrictResult(SUPERSET);
        return;
      }
      IsGood(SORTED, left, l);
      IsGood(SORTED, right, r);
      var res := result;
      if !Touches(right[priorRight].itv, right[r].itv) && LowerLess(left[l].itv, right[r].itv) {
        res := RestrictResult(SUPERSET);
        if res == UNRELATED {
          Withdrawn(l, r);
          return;
        }
      }
      if values && Intersects(left[l].itv, right[r].itv) {
        res := RestrictResult(CoCompare(l, r));
        if res == UNRELATED {
          Withdrawn(l, r);
          return;
        }
      }
      WindowEnds(l, r);
      state, l', r' := Proceed(l, r);
    }

    /** Run the machine until it stops: the two bits are the two inclusions. */
    method Run() returns (r: Inclusion)
      requires Ready(NextBoth, 0, 0)
      modifies this
      ensures r.subset <==> Included(values, left, right)
      ensures r.superset <==> Included(values, right, left)
    {
      var state, i: nat, j: nat := NextBoth, 0, 0;
      while state != Stop
        invariant Ready(state, i, j)
        invariant state != Stop ==> i <= |left| && j <= |right|
        decreases if state == Stop then 0 else 1 + (|left| - i) + (|right| - j)
      {
        match state
        case NextBoth => state, i, j := StepBoth(i, j);
        case NextLeft => state, i, j := StepLeft(i, j);
        case NextRight => state, i, j := StepRight(i, j);
      }
      r := result;
    }
  }

  /** Compare two containers by inclusion. */
  method SubsetCompare<V(==,!new)>(left: seq<Seg<V>>, right: seq<Seg<V>>, values: bool) returns (r: Inclusion)
    requires Form(SORTED, left) && Form(SORTED, right)
    ensures r.subset <==> Included(values, left, right)
    ensures r.superset <==> Included(values, right, left)
    ensures !values ==> (r.subset <==> forall x :: Covers(left, x) ==> Covers(right, x))
    ensures !values ==> (r.superset <==> forall x :: Covers(right, x) ==> Covers(left, x))
    ensures values && r.subset ==> forall x, v :: Holds(left, x, v) ==> Holds(right, x, v)
    ensures values && !r.subset ==> exists x, v :: Holds(left, x, v) && !Holds(right, x, v)
    ensures values && r.superset ==> forall x, v :: Holds(right, x, v) ==> Holds(left, x, v)
    ensures values && !r.superset ==> exists x, v :: Holds(right, x, v) && !Holds(left, x, v)
  {
    var step := new SubsetComparer<V>(left, right, values);
    r := step.Run();
    InclusionByTicks(left, right);
    InclusionByTicks(right, left);
  }

  /** Are the two containers equal element by element? */
  method IsElementEqual<V(==,!new)>(left: seq<Seg<V>>, right: seq<Seg<V>>) returns (b: bool)
    requires Form(SORTED, left) && Form(SORTED, right)
    ensures b <==> SameMeaning(left, right)
  {
    var r := SubsetCompare(left, right, true);
    MutualInclusion(left, right);
    b := r == EQUAL;
  }

  /** With values, inclusion at a tick is inclusion of what is held there. */
  lemma LeqHolds<V(!new)>(a: seq<Seg<V>>, b: seq<Seg<V>>, x: int, v: V)
    requires Form(SORTED, a) && LeqAt(true, a, b, x) && Holds(a, x, v)
    ensures Holds(b, x, v)
  {
    CoversHolds(SORTED, a, x);
  }

  lemma HoldsLeq<V(!new)>(a: seq<Seg<V>>, b: seq<Seg<V>>, x: int)
    requires Form(SORTED, a) && Form(SORTED, b) && forall v :: Holds(a, x, v) ==> Holds(b, x, v)
    ensures LeqAt(true, a, b, x)
  {
    CoversHolds(SORTED, a, x);
    if Covers(a, x) {
      var v :| Holds(a, x, v);
      HoldsSome(b, x, v);
    }
  }

  /** Inclusion of keys and inclusion with values, read tick by tick. */
  lemma InclusionByTicks<V(!new)>(a: seq<Seg<V>>, b: seq<Seg<V>>)
    requires Form(SORTED, a) && Form(SORTED, b)
    ensures Included(false, a, b) <==> forall x :: Covers(a, x) ==> Covers(b, x)
    ensures Included(true, a, b) ==> forall x, v :: Holds(a, x, v) ==> Holds(b, x, v)
    ensures !Included(true, a, b) ==> exists x, v :: Holds(a, x, v) && !Holds(b, x, v)
  {
    assert forall x :: LeqAt(false, a, b, x) <==> (Covers(a, x) ==> Covers(b, x));
    if Included(true, a, b) {
      forall x, v | Holds(a, x, v)
        ensures Holds(b, x, v)
      {
        assert LeqAt(true, a, b, x);
        LeqHolds(a, b, x, v);
      }
    } else {
      var x :| !LeqAt(true, a, b, x);
      if forall v :: Holds(a, x, v) ==> Holds(b, x, v) {
        HoldsLeq(a, b, x);
      } else {
        var v :| Holds(a, x, v) && !Holds(b, x, v);
        assert Holds(a, x, v) && !Holds(b, x, v);
      }
    }
  }

  /** Inclusion both ways, values and all, is having the same meaning. */
  lemma MutualInclusion<V(!new)>(a: seq<Seg<V>>, b: seq<Seg<V>>)
    requires Form(SORTED, a) && Form(SORTED, b)
    ensures Included(true, a, b) && Included(true, b, a) <==> SameMeaning(a, b)
  {
    if Included(true, a, b) && Included(true, b, a) {
      forall x, v
        ensures Holds(a, x, v) <==> Holds(b, x, v)
      {
        assert LeqAt(true, a, b, x) && LeqAt(true, b, a, x);
        if Holds(a, x, v) {
          LeqHolds(a, b, x, v);
        }
        if Holds(b, x, v) {
          LeqHolds(b, a, x, v);
        }
      }
    }
    if SameMeaning(a, b) {
      forall x
        ensures LeqAt(true, a, b, x) && LeqAt(true, b, a, x)
      {
        HoldsLeq(a, b, x);
        HoldsLeq(b, a, x);
      }
    }
  }
}
