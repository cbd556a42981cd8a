/** The order of the keys in a search tree, and on which sets of keys it is the strict weak
    order that a search tree needs. */
module KeyOrder {
  import opened Intervals

  /** Neither of two keys is less than the other: the tree takes them for the same key. */
  predicate Equivalent(a: Interval, b: Interval) { !ExclusiveLess(a, b) && !ExclusiveLess(b, a) }

  ghost predicate NonEmptyKeys(keys: seq<Interval>) { forall a :: a in keys ==> !IsEmpty(a) }

  /** A strict partial order whose equivalence is transitive. */
  ghost predicate IsStrictWeak(keys: seq<Interval>) {
    && (forall a :: a in keys ==> !ExclusiveLess(a, a))
    && (forall a, b, c :: a in keys && b in keys && c in keys && ExclusiveLess(a, b) && ExclusiveLess(b, c) ==>
          ExclusiveLess(a, c))
    && (forall a, b, c :: a in keys && b in keys && c in keys && Equivalent(a, b) && Equivalent(b, c) ==>
          Equivalent(a, c))
  }

  /** On non-empty keys the container order is a strict partial order, and two keys
      are equivalent under it exactly when they share a tick. */
  lemma OrderIsStrict(a: Interval, b: Interval, c: Interval)
    requires !IsEmpty(a) && !IsEmpty(b) && !IsEmpty(c)
    ensures !ExclusiveLess(a, a)
    ensures ExclusiveLess(a, b) && ExclusiveLess(b, c) ==> ExclusiveLess(a, c)
    ensures Equivalent(a, b) <==> exists x :: Has(a, x) && Has(b, x)
  {
    ComparisonsArePointwise(a, b);
  }

  /** That equivalence is not transitive on all keys. */
  lemma EquivalenceIsNotTransitive()
    ensures var keys := [RightOpen(0, 2), RightOpen(1, 4), RightOpen(3, 5)];
            NonEmptyKeys(keys) && !IsStrictWeak(keys)
  {
    var keys := [RightOpen(0, 2), RightOpen(1, 4), RightOpen(3, 5)];
    assert Equivalent(keys[0], keys[1]) && Equivalent(keys[1], keys[2]) && !Equivalent(keys[0], keys[2]);
  }

  /** The keys of a container: any two are disjoint or have the same ticks. */
  lemma WeakOnDisjointKeys(keys: seq<Interval>)
    requires NonEmptyKeys(keys)
    requires forall a, b :: a in keys && b in keys ==> Equal(a, b) || !Intersects(a, b)
    ensures IsStrictWeak(keys)
  {
    forall a, b, c | a in keys && b in keys && c in keys && Equivalent(a, b) && Equivalent(b, c)
      ensures Equivalent(a, c)
    {
      assert Intersects(a, b) && Intersects(b, c);
    }
  }

  // ----- the exact condition -----

  predicate SortedByFirst(keys: seq<Interval>) {
    forall i, j :: 0 <= i < j < |keys| ==> First(keys[i]) <= First(keys[j])
  }

  /** One pass over sorted keys, with the least and the greatest last tick of the run of
      overlapping keys at hand: the next key begins behind the whole run, or else no later
      than every key of the run ends. */
  predicate RunsShareATick(keys: seq<Interval>, least: int, greatest: int)
    decreases keys
  {
    keys == []
    || (greatest < First(keys[0]) && RunsShareATick(keys[1..], Last(keys[0]), Last(keys[0])))
    || (First(keys[0]) <= least
        && RunsShareATick(keys[1..], Min(least, Last(keys[0])), Max(greatest, Last(keys[0]))))
  }

  /** Where the pass stands: the keys of the run, which begin at `from` or later, share all
      ticks from their latest begin to `least`, and the others end before the run. */
  ghost predicate InRun(done: seq<Interval>, from: int, least: int, greatest: int) {
    && (exists lo :: lo in done && from <= First(lo) && Last(lo) == least)
    && (exists hi :: hi in done && from <= First(hi) && Last(hi) == greatest)
    && (forall a :: a in done ==>
          if from <= First(a) then First(a) <= least <= Last(a) <= greatest else Last(a) < from)
  }

  lemma {:induction false} PassIsExact(done: seq<Interval>, keys: seq<Interval>, from: int, least: int, greatest: int)
    requires NonEmptyKeys(done + keys) && SortedByFirst(done + keys)
    requires InRun(done, from, least, greatest) && IsStrictWeak(done)
    ensures IsStrictWeak(done + keys) <==> RunsShareATick(keys, least, greatest)
    decreases keys
  {
    if keys == [] {
      assert done + keys == done;
    } else {
      var key, next := keys[0], done + [keys[0]];
      assert next + keys[1..] == done + keys;
      assert key in done + keys;
      LastIsLatest(done, keys);
      if greatest < First(key) {
        KeyBehind(done, key, from, least, greatest);
        PassIsExact(next, keys[1..], First(key), Last(key), Last(key));
      } else if First(key) <= least {
        KeyInRun(done, key, from, least, greatest);
        PassIsExact(next, keys[1..], from, Min(least, Last(key)), Max(greatest, Last(key)));
      } else {
        var lo :| lo in done && from <= First(lo) && Last(lo) == least;
        var hi :| hi in done && from <= First(hi) && Last(hi) == greatest;
        assert lo in done + keys && hi in done + keys;
        assert Equivalent(lo, hi) && Equivalent(hi, key) && !Equivalent(lo, key);
      }
    }
  }

  lemma LastIsLatest(done: seq<Interval>, keys: seq<Interval>)
    requires SortedByFirst(done + keys) && keys != []
    ensures forall a :: a in done ==> First(a) <= First(keys[0])
  {
    var all := done + keys;
    forall a | a in done
      ensures First(a) <= First(keys[0])
    {
      var i :| 0 <= i < |done| && done[i] == a;
      assert all[i] == a && all[|done|] == keys[0];
    }
  }

  /** A key behind the run begins a run of its own. */
  lemma KeyBehind(done: seq<Interval>, key: Interval, from: int, least: int, greatest: int)
    requires NonEmptyKeys(done) && !IsEmpty(key) && InRun(done, from, least, greatest) && IsStrictWeak(done)
    requires greatest < First(key)
    ensures IsStrictWeak(done + [key]) && InRun(done + [key], First(key), Last(key), Last(key))
  {
    var next := done + [key];
    assert key in next;
    forall a | a in done
      ensures Last(a) < First(key)
    {
    }
  }

  /** A key that begins within all keys of the run joins it. */
  lemma KeyInRun(done: seq<Interval>, key: Interval, from: int, least: int, greatest: int)
    requires NonEmptyKeys(done) && !IsEmpty(key) && InRun(done, from, least, greatest) && IsStrictWeak(done)
    requires First(key) <= least && forall a :: a in done ==> First(a) <= First(key)
    ensures IsStrictWeak(done + [key])
    ensures InRun(done + [key], from, Min(least, Last(key)), Max(greatest, Last(key)))
  {
    var next := done + [key];
    assert key in next;
    var lo :| lo in done && from <= First(lo) && Last(lo) == least;
    var hi :| hi in done && from <= First(hi) && Last(hi) == greatest;
    assert lo in next && hi in next;
    forall a | a in done
      ensures Equivalent(a, key) <==> from <= First(a)
    {
    }
    forall a, b | a in done && b in done && from <= First(a)
      ensures Equivalent(a, b) <==> from <= First(b)
    {
    }
  }

  /** On keys sorted by their begin the order is strict weak if and only if in every run of
      overlapping keys the latest begin is no later than the earliest end. */
  lemma WeakExactlyWhen(keys: seq<Interval>)
    requires NonEmptyKeys(keys) && SortedByFirst(keys)
    ensures IsStrictWeak(keys) <==> keys == [] || RunsShareATick(keys[1..], Last(keys[0]), Last(keys[0]))
  {
    if keys != [] {
      var done := [keys[0]];
      assert done + keys[1..] == keys && keys[0] in done && keys[0] in keys;
      PassIsExact(done, keys[1..], First(keys[0]), Last(keys[0]), Last(keys[0]));
    }
  }
}
