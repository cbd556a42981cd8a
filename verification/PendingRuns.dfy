/** What happens to held queries over whole runs of the service. */
module PendingRuns {
  import opened QueryService
  import opened QueueRuns

  /** The queries of a list that end at a tick, in the order of the list. */
  function ByEnd(list: seq<Held>, tend: int): seq<Held> {
    if list == [] then []
    else (if list[0].tend == tend then [list[0]] else []) + ByEnd(list[1..], tend)
  }

  lemma {:induction false} ByEndConcat(a: seq<Held>, b: seq<Held>, tend: int)
    ensures ByEnd(a + b, tend) == ByEnd(a, tend) + ByEnd(b, tend)
  {
    if a == [] {
      assert a + b == b;
    } else {
      assert (a + b)[0] == a[0] && (a + b)[1..] == a[1..] + b;
      ByEndConcat(a[1..], b, tend);
      var first := if a[0].tend == tend then [a[0]] else [];
      assert first + (ByEnd(a[1..], tend) + ByEnd(b, tend)) == (first + ByEnd(a[1..], tend)) + ByEnd(b, tend);
    }
  }

  lemma {:induction false} ByEndOfSlot(slot: Slot, tend: int)
    ensures ByEnd(HeldAt(slot.tend, slot.reqs), tend)
         == if tend == slot.tend then HeldAt(slot.tend, slot.reqs) else []
    decreases slot.reqs
  {
    if slot.reqs != [] {
      ByEndOfSlot(Slot(slot.tend, slot.reqs[1..]), tend);
      assert HeldAt(slot.tend, slot.reqs)[1..] == HeldAt(slot.tend, slot.reqs[1..]);
    }
  }

  /** Entries that end elsewhere contribute nothing. */
  lemma {:induction false} ByEndElsewhere(pending: seq<Slot>, tend: int)
    requires forall i :: 0 <= i < |pending| ==> pending[i].tend != tend
    ensures ByEnd(Flat(pending), tend) == []
  {
    if pending != [] {
      ByEndOfSlot(pending[0], tend);
      ByEndConcat(HeldAt(pending[0].tend, pending[0].reqs), Flat(pending[1..]), tend);
      ByEndElsewhere(pending[1..], tend);
    }
  }

  lemma {:induction false} FlatSplit(pending: seq<Slot>, n: nat)
    requires n <= |pending|
    ensures Flat(pending) == Flat(pending[..n]) + Flat(pending[n..])
  {
    if n > 0 {
      FlatSplit(pending[1..], n - 1);
      assert pending[1..][..n - 1] == pending[..n][1..] && pending[1..][n - 1..] == pending[n..];
    } else {
      assert pending[..0] == [] && pending[0..] == pending;
    }
  }

  /** The release loop goes through exactly the entries that end by the end of the queue. */
  lemma {:induction false} DueIsPrefix(pending: seq<Slot>, queueEnd: int)
    requires PendingOk(pending)
    ensures forall i :: 0 <= i < |pending| ==> (i < DueCount(pending, queueEnd) <==> pending[i].tend <= queueEnd)
    decreases pending
  {
    if pending != [] {
      DueIsPrefix(pending[1..], queueEnd);
      forall i | 0 <= i < |pending|
        ensures i < DueCount(pending, queueEnd) <==> pending[i].tend <= queueEnd
      {
        assert 0 < i ==> pending[i] == pending[1..][i - 1] && pending[0].tend < pending[i].tend;
      }
    }
  }

  /** Putting a query into the pending map does not reach below it. */
  lemma {:induction false} PutPendingAbove(pending: seq<Slot>, tend: int, req: Request, low: int)
    requires low < tend && forall i :: 0 <= i < |pending| ==> low < pending[i].tend
    ensures forall i :: 0 <= i < |PutPending(pending, tend, req)| ==> low < PutPending(pending, tend, req)[i].tend
    decreases pending
  {
    if pending != [] && pending[0].tend < tend {
      PutPendingAbove(pending[1..], tend, req, low);
    }
  }

  /** It keeps the map sorted by key. */
  lemma {:induction false} PutPendingSorted(pending: seq<Slot>, tend: int, req: Request)
    requires PendingOk(pending)
    ensures PendingOk(PutPending(pending, tend, req))
    decreases pending
  {
    if pending != [] && pending[0].tend < tend {
      PutPendingSorted(pending[1..], tend, req);
      PutPendingAbove(pending[1..], tend, req, pending[0].tend);
    }
  }

  /** It appends the query to those that end at the same tick, and moves no other. */
  lemma {:induction false} PutPendingByEnd(pending: seq<Slot>, tend: int, req: Request, e: int)
    requires PendingOk(pending)
    ensures ByEnd(Flat(PutPending(pending, tend, req)), e)
         == ByEnd(Flat(pending), e) + if e == tend then [Held(tend, req)] else []
    decreases pending
  {
    var r := PutPending(pending, tend, req);
    if pending == [] || tend < pending[0].tend {
      assert r[1..] == pending && HeldAt(tend, [req]) == [Held(tend, req)];
      ByEndConcat([Held(tend, req)], Flat(pending), e);
      if e == tend {
        ByEndElsewhere(pending, e);
      }
    } else if tend == pending[0].tend {
      PutIntoFirst(pending, req, e);
    } else {
      var first, rest := HeldAt(pending[0].tend, pending[0].reqs), PutPending(pending[1..], tend, req);
      assert r[1..] == rest;
      PutPendingByEnd(pending[1..], tend, req, e);
      ByEndConcat(first, Flat(rest), e);
      ByEndConcat(first, Flat(pending[1..]), e);
    }
  }

  lemma PutIntoFirst(pending: seq<Slot>, req: Request, e: int)
    requires PendingOk(pending) && pending != []
    ensures var tend, r := pending[0].tend, [Slot(pending[0].tend, pending[0].reqs + [req])] + pending[1..];
            ByEnd(Flat(r), e) == ByEnd(Flat(pending), e) + if e == tend then [Held(tend, req)] else []
  {
    var tend, reqs, rest := pending[0].tend, pending[0].reqs, pending[1..];
    var r := [Slot(tend, reqs + [req])] + rest;
    assert r[1..] == rest;
    HeldAtAppend(tend, reqs, req);
    ByEndOfSlot(Slot(tend, reqs), e);
    ByEndOfSlot(Slot(tend, reqs + [req]), e);
    ByEndConcat(HeldAt(tend, reqs), Flat(rest), e);
    ByEndConcat(HeldAt(tend, reqs + [req]), Flat(rest), e);
    if e == tend {
      ByEndElsewhere(rest, e);
    }
  }

  lemma {:induction false} HeldAtAppend(tend: int, reqs: seq<Request>, req: Request)
    ensures HeldAt(tend, reqs + [req]) == HeldAt(tend, reqs) + [Held(tend, req)]
  {
    if reqs == [] {
      assert reqs + [req] == [req];
    } else {
      assert (reqs + [req])[1..] == reqs[1..] + [req];
      HeldAtAppend(tend, reqs[1..], req);
    }
  }

  // ----- the invariant -----

  function QueriesOf(releases: seq<Release>): seq<Held> {
    if releases == [] then [] else [releases[0].query] + QueriesOf(releases[1..])
  }

  lemma {:induction false} QueriesOfConcat(a: seq<Release>, b: seq<Release>)
    ensures QueriesOf(a + b) == QueriesOf(a) + QueriesOf(b)
  {
    if a == [] {
      assert a + b == b;
    } else {
      assert (a + b)[1..] == a[1..] + b;
      QueriesOfConcat(a[1..], b);
    }
  }

  lemma {:induction false} QueriesOfReleases(due: seq<Held>, batch: nat, queue: Queue)
    ensures QueriesOf(Releases(due, batch, queue)) == due
    decreases due
  {
    if due != [] {
      assert Releases(due, batch, queue)[1..] == Releases(due[1..], batch, queue);
      QueriesOfReleases(due[1..], batch, queue);
    }
  }

  /** For every end tick: the queries ever held with that end, in order of arrival, have
      all been released, in that order, if the queue has reached the tick, and are all
      pending, in that order, if it has not. */
  ghost predicate Accounted(held: seq<Held>, released: seq<Held>, pending: seq<Slot>, queueEnd: int) {
    && PendingOk(pending)
    && (forall i :: 0 <= i < |pending| ==> queueEnd < pending[i].tend)
    && (forall e :: ByEnd(held, e) == if e <= queueEnd then ByEnd(released, e) else ByEnd(Flat(pending), e))
    && (forall e :: e > queueEnd ==> ByEnd(released, e) == [])
  }

  ghost predicate PendingInv(s: State) {
    Accounted(s.held, QueriesOf(s.released), s.pending, QueueEnd(s.queue))
  }

  lemma PendingInvQuery(cfg: Config, s: State, client: nat, seqno: nat, tstart: nat, tspan: nat, detmask: bv64)
    requires PendingInv(s)
    ensures PendingInv(AfterQuery(cfg, s, client, seqno, tstart, tspan, detmask))
  {
    var beg, end := WindowBeg(tstart), WindowEnd(tstart, tspan);
    var t := AfterQuery(cfg, s, client, seqno, tstart, tspan, detmask);
    if Judge(cfg, s.queue, detmask, beg, end) == Delayed {
      var req := Request(client, detmask, beg, seqno);
      PutPendingSorted(s.pending, end, req);
      PutPendingAbove(s.pending, end, req, QueueEnd(s.queue));
      forall e
        ensures ByEnd(t.held, e) == ByEnd(s.held, e) + if e == end then [Held(end, req)] else []
        ensures ByEnd(Flat(t.pending), e) == ByEnd(Flat(s.pending), e) + if e == end then [Held(end, req)] else []
      {
        ByEndConcat(s.held, [Held(end, req)], e);
        PutPendingByEnd(s.pending, end, req, e);
      }
    }
  }

  lemma PendingInvIngest(cfg: Config, s: State, batch: seq<Payload>)
    requires cfg.Valid() && QueueInv(cfg, s) && PendingInv(s) && WellTimedBatch(batch)
    ensures PendingInv(AfterIngest(cfg, s, batch))
  {
    var q, t := Slurped(cfg, s.queue, batch), AfterIngest(cfg, s, batch);
    assert QueueEnd(s.queue) <= QueueEnd(q) == QueueEnd(t.queue) by {
      SlurpedHolds(cfg, s.queue, batch);
      PurgedOk(cfg, q);
    }
    var due := Flat(s.pending[..DueCount(s.pending, QueueEnd(q))]);
    QueriesOfConcat(s.released, Releases(due, s.batches, q));
    QueriesOfReleases(due, s.batches, q);
    ReleaseAccounts(s.held, QueriesOf(s.released), s.pending, QueueEnd(s.queue), QueueEnd(q));
  }

  /** Releasing what the new end of the queue has reached keeps the account. */
  lemma ReleaseAccounts(held: seq<Held>, released: seq<Held>, pending: seq<Slot>, oldEnd: int, newEnd: int)
    requires Accounted(held, released, pending, oldEnd) && oldEnd <= newEnd
    ensures var n := DueCount(pending, newEnd); Accounted(held, released + Flat(pending[..n]), pending[n..], newEnd)
  {
    var n := DueCount(pending, newEnd);
    DueIsPrefix(pending, newEnd);
    PendingRest(pending, n);
    forall e
      ensures ByEnd(held, e) == if e <= newEnd then ByEnd(released + Flat(pending[..n]), e)
                                else ByEnd(Flat(pending[n..]), e)
      ensures e > newEnd ==> ByEnd(released + Flat(pending[..n]), e) == []
    {
      ReleaseMoves(released, pending, oldEnd, newEnd, e);
    }
  }

  lemma PendingRest(pending: seq<Slot>, n: nat)
    requires PendingOk(pending) && n <= |pending|
    ensures PendingOk(pending[n..])
  {
  }

  /** A release moves the queries of the entries that are due behind those released before. */
  lemma ReleaseMoves(before: seq<Held>, pending: seq<Slot>, oldEnd: int, newEnd: int, e: int)
    requires PendingOk(pending) && oldEnd <= newEnd
    requires forall i :: 0 <= i < |pending| ==> oldEnd < pending[i].tend
    requires e > oldEnd ==> ByEnd(before, e) == []
    ensures var n := DueCount(pending, newEnd);
            var after := before + Flat(pending[..n]);
            && (e <= oldEnd ==> ByEnd(after, e) == ByEnd(before, e))
            && (oldEnd < e <= newEnd ==> ByEnd(after, e) == ByEnd(Flat(pending), e))
            && (newEnd < e ==> ByEnd(after, e) == [] && ByEnd(Flat(pending[n..]), e) == ByEnd(Flat(pending), e))
  {
    var n := DueCount(pending, newEnd);
    DueIsPrefix(pending, newEnd);
    FlatSplit(pending, n);
    ByEndConcat(before, Flat(pending[..n]), e);
    ByEndConcat(Flat(pending[..n]), Flat(pending[n..]), e);
    if e <= newEnd {
      ByEndElsewhere(pending[n..], e);
    } else {
      ByEndElsewhere(pending[..n], e);
    }
    if e <= oldEnd {
      ByEndElsewhere(pending[..n], e);
    }
  }

  lemma {:induction false} PendingInvAlways(cfg: Config, events: seq<Event>)
    requires cfg.Valid() && WellTimed(events)
    ensures PendingInv(Run(cfg, events))
    decreases |events|
  {
    if events != [] {
      var n := |events| - 1;
      var s, e := Run(cfg, events[..n]), events[n];
      PendingInvAlways(cfg, events[..n]);
      assert PendingInv(Next(cfg, s, e)) by {
        match e
        case Ingest(batch) =>
          assert e in events;
          QueueInvAlways(cfg, events[..n]);
          PendingInvIngest(cfg, s, batch);
        case Query(client, seqno, tstart, tspan, detmask) =>
          PendingInvQuery(cfg, s, client, seqno, tstart, tspan, detmask);
        case Refused(tstart, tspan) =>
      }
    }
  }

  // ----- the main results -----

  /** Conservation over every run: the queries ever held with an end that the queue has
      reached are released, each as often as it was held and first come first served;
      those with a later end are pending, and nothing else is. */
  lemma HeldIsReleasedOrPending(cfg: Config, events: seq<Event>, tend: int)
    requires cfg.Valid() && WellTimed(events)
    ensures var s := Run(cfg, events);
            if tend <= QueueEnd(s.queue)
            then ByEnd(QueriesOf(s.released), tend) == ByEnd(s.held, tend) && ByEnd(Flat(s.pending), tend) == []
            else ByEnd(Flat(s.pending), tend) == ByEnd(s.held, tend) && ByEnd(QueriesOf(s.released), tend) == []
  {
    var s := Run(cfg, events);
    PendingInvAlways(cfg, events);
    if tend <= QueueEnd(s.queue) {
      ByEndElsewhere(s.pending, tend);
    }
  }

  /** A batch releases exactly the pending queries whose end it brings the queue to, in
      ascending order of their ends, from the queue as it is before the purge. */
  lemma BatchReleasesDue(cfg: Config, events: seq<Event>, batch: seq<Payload>)
    requires cfg.Valid() && WellTimed(events) && WellTimedBatch(batch)
    ensures var s, q := Run(cfg, events), Slurped(cfg, Run(cfg, events).queue, batch);
            var due := Flat(s.pending[..DueCount(s.pending, QueueEnd(q))]);
            && AfterIngest(cfg, s, batch).released == s.released + Releases(due, s.batches, q)
            && (forall h :: h in Flat(s.pending) ==>
                  QueueEnd(s.queue) < h.tend && (h in due <==> h.tend <= QueueEnd(q)))
            && (forall h :: h in due ==> h in Flat(s.pending))
            && (forall i, j :: 0 <= i < j < |due| ==> due[i].tend <= due[j].tend)
  {
    var s, q := Run(cfg, events), Slurped(cfg, Run(cfg, events).queue, batch);
    assert PendingOk(s.pending) && (forall i :: 0 <= i < |s.pending| ==> QueueEnd(s.queue) < s.pending[i].tend) by {
      PendingInvAlways(cfg, events);
    }
    FlatBounds(s.pending, QueueEnd(s.queue) + 1);
    DueSplit(s.pending, QueueEnd(q));
  }

  /** The queries that are due are those of the pending ones that end by the tick. */
  lemma DueSplit(pending: seq<Slot>, queueEnd: int)
    requires PendingOk(pending)
    ensures var due := Flat(pending[..DueCount(pending, queueEnd)]);
            && (forall h :: h in Flat(pending) ==> (h in due <==> h.tend <= queueEnd))
            && (forall h :: h in due ==> h in Flat(pending))
            && (forall i, j :: 0 <= i < j < |due| ==> due[i].tend <= due[j].tend)
  {
    var n := DueCount(pending, queueEnd);
    DueIsPrefix(pending, queueEnd);
    FlatSplit(pending, n);
    FlatBounds(pending[n..], queueEnd + 1);
    FlatBelow(pending[..n], queueEnd);
    FlatAscends(pending[..n]);
  }

  lemma {:induction false} FlatBounds(pending: seq<Slot>, low: int)
    requires forall i :: 0 <= i < |pending| ==> low <= pending[i].tend
    ensures forall h :: h in Flat(pending) ==> low <= h.tend
  {
    if pending != [] {
      FlatBounds(pending[1..], low);
      SlotEnds(pending[0].tend, pending[0].reqs);
    }
  }

  lemma {:induction false} FlatBelow(pending: seq<Slot>, high: int)
    requires forall i :: 0 <= i < |pending| ==> pending[i].tend <= high
    ensures forall h :: h in Flat(pending) ==> h.tend <= high
  {
    if pending != [] {
      FlatBelow(pending[1..], high);
      SlotEnds(pending[0].tend, pending[0].reqs);
    }
  }

  lemma {:induction false} SlotEnds(tend: int, reqs: seq<Request>)
    ensures forall h :: h in HeldAt(tend, reqs) ==> h.tend == tend
  {
    if reqs != [] {
      SlotEnds(tend, reqs[1..]);
    }
  }

  lemma {:induction false} FlatAscends(pending: seq<Slot>)
    requires PendingOk(pending)
    ensures forall i, j :: 0 <= i < j < |Flat(pending)| ==> Flat(pending)[i].tend <= Flat(pending)[j].tend
    decreases pending
  {
    if pending != [] {
      var first, rest := HeldAt(pending[0].tend, pending[0].reqs), Flat(pending[1..]);
      FlatAscends(pending[1..]);
      SlotEnds(pending[0].tend, pending[0].reqs);
      FlatBounds(pending[1..], pending[0].tend);
      var all: seq<Held> := first + rest;
      forall i, j | 0 <= i < j < |all|
        ensures all[i].tend <= all[j].tend
      {
        assert i < |first| ==> first[i] in first;
        assert j < |first| ==> first[j] in first;
        assert |first| <= j ==> rest[j - |first|] in rest;
      }
    }
  }
}
