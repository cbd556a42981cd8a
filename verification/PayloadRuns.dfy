/** What a query is answered with, told from the whole history of the service. */
module PayloadRuns {
  import opened Intervals
  import opened Segments
  import opened QueryService
  import opened QueueRuns
  import opened PendingRuns

  predicate SortedByStart(list: seq<Payload>) {
    forall i, j :: 0 <= i < j < |list| ==> list[i].tstart <= list[j].tstart
  }

  predicate NoRepeats(list: seq<Payload>) {
    forall i, j :: 0 <= i < j < |list| ==> list[i] != list[j]
  }

  /** The queue still holds the message at some tick of the window. */
  ghost predicate Meets(q: Queue, beg: int, end: int, p: Payload) {
    exists x :: beg <= x < end && Holds(q, x, p)
  }

  /** A payload for the window: no message twice, ascending in start time, and with every
      message that the queue holds somewhere in the window and no other. */
  ghost predicate IsPayload(q: Queue, beg: int, end: int, list: seq<Payload>) {
    && NoRepeats(list) && SortedByStart(list)
    && forall p :: p in list <==> Meets(q, beg, end, p)
  }

  lemma {:induction false} CountOfMember(list: seq<Payload>, p: Payload)
    requires NoRepeats(list)
    ensures multiset(list)[p] == if p in list then 1 else 0
  {
    if list != [] {
      assert list == [list[0]] + list[1..];
      CountOfMember(list[1..], p);
    }
  }

  /** Some tick of the window is in the message's interval and was not purged since. */
  ghost predicate LiveIn(log: seq<LogEntry>, p: Payload, beg: int, end: int) {
    exists x :: beg <= x < end && Live(log, p, x)
  }

  /** An answer given right after any run lists each message ever ingested exactly once if
      its interval, without the ranges purged since it came, meets the window, and not at
      all otherwise. */
  lemma AnswerOverRun(cfg: Config, events: seq<Event>, beg: int, end: int, list: seq<Payload>, p: Payload)
    requires cfg.Valid() && WellTimed(events)
    requires IsPayload(Run(cfg, events).queue, beg, end, list)
    ensures multiset(list)[p] == if LiveIn(Run(cfg, events).log, p, beg, end) then 1 else 0
  {
    var s := Run(cfg, events);
    QueueInvAlways(cfg, events);
    CountOfMember(list, p);
    if x :| beg <= x < end && Holds(s.queue, x, p) {
      assert Live(s.log, p, x);
    }
    if x :| beg <= x < end && Live(s.log, p, x) {
      assert Holds(s.queue, x, p);
    }
  }

  /** Such an answer is complete when the window begins no more than the low mark before
      the end of the queue: it lists every accepted message that meets the window. */
  lemma RecentAnswerIsComplete(cfg: Config, events: seq<Event>, beg: int, end: int, list: seq<Payload>, p: Payload)
    requires cfg.Valid() && WellTimed(events)
    requires IsPayload(Run(cfg, events).queue, beg, end, list)
    requires QueueEnd(Run(cfg, events).queue) - cfg.lwm <= beg
    ensures p in list <==> Accepted(p) in Run(cfg, events).log && Intersects(p.Itv(), RightOpen(beg, end))
  {
    var s := Run(cfg, events);
    if x :| beg <= x < end && Holds(s.queue, x, p) {
      RecentWindow(cfg, events, x, p);
      assert Has(p.Itv(), x) && Has(RightOpen(beg, end), x);
    }
    if Accepted(p) in s.log && Intersects(p.Itv(), RightOpen(beg, end)) {
      var x := SharedTick(p.Itv(), RightOpen(beg, end));
      RecentWindow(cfg, events, x, p);
    }
  }

  lemma SharedTick(i: Interval, j: Interval) returns (x: int)
    requires Intersects(i, j)
    ensures Has(i, x) && Has(j, x)
  {
    x := if First(i) < First(j) then First(j) else First(i);
  }

  /** The message was accepted, and no purge since reached the last tick that it shares
      with the window. */
  ghost predicate Survives(log: seq<LogEntry>, p: Payload, end: int) {
    exists i :: 0 <= i < |log| && log[i] == Accepted(p) && ErasuresUpTo(log[i..], LastShared(p, end))
  }

  function LastShared(p: Payload, end: int): int { Min(p.tstart + p.tspan, end) - 1 }

  /** Purges take ticks from 0 up, so the last shared tick decides. */
  lemma LiveInExactlyWhen(log: seq<LogEntry>, p: Payload, beg: int, end: int)
    requires p.WellTimed()
    ensures LiveIn(log, p, beg, end) <==> Intersects(p.Itv(), RightOpen(beg, end)) && Survives(log, p, end)
  {
    var last := LastShared(p, end);
    if x :| beg <= x < end && Live(log, p, x) {
      var i :| 0 <= i < |log| && log[i] == Accepted(p) && Has(p.Itv(), x) && KeptSince(log, i, x);
      assert Has(RightOpen(beg, end), x);
      forall j | 0 <= j < |log[i..]| && log[i..][j].Erasure?
        ensures log[i..][j].newBeg <= last
      {
        assert log[i..][j] == log[i + j];
      }
    }
    if Intersects(p.Itv(), RightOpen(beg, end)) && Survives(log, p, end) {
      var i :| 0 <= i < |log| && log[i] == Accepted(p) && ErasuresUpTo(log[i..], last);
      forall j | i < j < |log| && log[j].Erasure?
        ensures !(0 <= last < log[j].newBeg)
      {
        assert log[i..][j - i] == log[j];
      }
      assert KeptSince(log, i, last);
      assert Live(log, p, last);
    }
  }

  /** Every message in the log came in a batch. */
  lemma AcceptedIsWellTimed(cfg: Config, events: seq<Event>, p: Payload)
    requires WellTimed(events) && Accepted(p) in Run(cfg, events).log
    ensures p.WellTimed()
  {
    LogByMask(cfg, events, p);
  }

  /** The list has every accepted message that meets the window. */
  ghost predicate Complete(log: seq<LogEntry>, beg: int, end: int, list: seq<Payload>) {
    forall p :: Accepted(p) in log && Intersects(p.Itv(), RightOpen(beg, end)) ==> p in list
  }

  ghost predicate AllSurvive(log: seq<LogEntry>, beg: int, end: int) {
    forall p :: Accepted(p) in log && Intersects(p.Itv(), RightOpen(beg, end)) ==> Survives(log, p, end)
  }

  /** A list of what is live in the window is complete if and only if no message of the
      window was purged up to the last tick it shares with it since it last came. */
  lemma CompleteExactlyWhen(log: seq<LogEntry>, beg: int, end: int, list: seq<Payload>)
    requires forall p :: Accepted(p) in log ==> p.WellTimed()
    requires forall p :: multiset(list)[p] == if LiveIn(log, p, beg, end) then 1 else 0
    ensures Complete(log, beg, end, list) <==> AllSurvive(log, beg, end)
  {
    forall p | Accepted(p) in log && Intersects(p.Itv(), RightOpen(beg, end))
      ensures p in list <==> Survives(log, p, end)
    {
      LiveInExactlyWhen(log, p, beg, end);
      assert p in list <==> multiset(list)[p] > 0;
    }
  }

  /** So the answer to a query right after any run is complete exactly when the messages of
      the window survive. */
  lemma AnswerIsCompleteExactlyWhen(cfg: Config, events: seq<Event>, beg: int, end: int, list: seq<Payload>)
    requires cfg.Valid() && WellTimed(events)
    requires IsPayload(Run(cfg, events).queue, beg, end, list)
    ensures Complete(Run(cfg, events).log, beg, end, list) <==> AllSurvive(Run(cfg, events).log, beg, end)
  {
    var log := Run(cfg, events).log;
    forall p | Accepted(p) in log
      ensures p.WellTimed()
    {
      AcceptedIsWellTimed(cfg, events, p);
    }
    forall p
      ensures multiset(list)[p] == if LiveIn(log, p, beg, end) then 1 else 0
    {
      AnswerOverRun(cfg, events, beg, end, list, p);
    }
    CompleteExactlyWhen(log, beg, end, list);
  }

  // ----- success without completeness -----

  const SMALL := Config(1, 2, 8)
  const LONG := Payload(1, 0, 10, 1)
  const LATE := Payload(2, 4, 1, 1)
  const LATE_ARRIVAL := [Ingest([LONG]), Ingest([LATE])]

  lemma EndsAre(q: Queue, lo: int, hi: int)
    requires Form(QUEUE_STYLE, q) && Covers(q, lo) && Covers(q, hi - 1)
    requires forall x :: Covers(q, x) ==> lo <= x < hi
    ensures QueueBeg(q) == lo && QueueEnd(q) == hi
  {
    EndsAreTight(q);
    assert Covers(q, QueueBeg(q)) && Covers(q, QueueEnd(q) - 1);
  }

  /** What a late message does: it moves the begin of the queue back into ticks that were
      purged before, a query there counts as satisfied, and yet its answer lacks a
      message that was accepted and meets the window. */
  lemma SuccessMayLackMessages()
    ensures SMALL.Valid() && WellTimed(LATE_ARRIVAL)
    ensures var s := Run(SMALL, LATE_ARRIVAL);
            && Judge(SMALL, s.queue, 1, 4, 8) == Satisfied
            && Accepted(LONG) in s.log && Intersects(LONG.Itv(), RightOpen(4, 8))
            && !Meets(s.queue, 4, 8, LONG)
  {
    var s := Run(SMALL, [Ingest([LONG])]);
    assert LATE_ARRIVAL[..1] == [Ingest([LONG])];
    AfterLong();
    AfterLate(s);
    assert Accepted(LONG) in AcceptedOf(SMALL, [LONG]);
    assert Has(LONG.Itv(), 4) && Has(RightOpen(4, 8), 4);
  }

  lemma AfterLong()
    ensures var s := Run(SMALL, [Ingest([LONG])]);
            && QueueOk(s.queue) && (forall x, p :: Holds(s.queue, x, p) <==> p == LONG && 8 <= x < 10)
            && Accepted(LONG) in s.log
  {
    assert [Ingest([LONG])][..0] == [];
    var q := Slurped(SMALL, [], [LONG]);
    SlurpedHolds(SMALL, [], [LONG]);
    CoversIfHolds(q, 0, LONG);
    CoversIfHolds(q, 9, LONG);
    forall x | Covers(q, x)
      ensures 0 <= x < 10
    {
      CoversHolds(QUEUE_STYLE, q, x);
    }
    EndsAre(q, 0, 10);
    PurgeArithmetic(SMALL, q);
    PurgedOk(SMALL, q);
    assert AcceptedOf(SMALL, [LONG])[0] == Accepted(LONG);
  }

  lemma AfterLate(s: State)
    requires QueueOk(s.queue) && forall x, p :: Holds(s.queue, x, p) <==> p == LONG && 8 <= x < 10
    ensures var r := AfterIngest(SMALL, s, [LATE]).queue;
            QueueBeg(r) == 4 && QueueEnd(r) == 10 && !Meets(r, 4, 8, LONG)
  {
    var r := Slurped(SMALL, s.queue, [LATE]);
    SlurpedHolds(SMALL, s.queue, [LATE]);
    CoversIfHolds(r, 4, LATE);
    CoversIfHolds(r, 9, LONG);
    forall x | Covers(r, x)
      ensures 4 <= x < 10
    {
      CoversHolds(QUEUE_STYLE, r, x);
    }
    EndsAre(r, 4, 10);
    PurgeArithmetic(SMALL, r);
  }

  const NEXT := Payload(3, 10, 2, 1)

  /** A held query whose window begins before the queue is released all the same, and its
      window is still not inside the queue then: the answer is partial. */
  lemma DelayedMayBePartial()
    ensures var held := AfterQuery(SMALL, Run(SMALL, [Ingest([LONG])]), 1, 1, 0, 12, 1);
            var released := AfterIngest(SMALL, held, [NEXT]).released;
            |released| == 1 && released[0].query == Held(12, Request(1, 1, 0, 1))
            && released[0].query.req.tstart < QueueBeg(released[0].queue)
  {
    var s := Run(SMALL, [Ingest([LONG])]);
    AfterLong();
    EndsAfterLong(s.queue);
    assert [Ingest([LONG])][..0] == [];
    var r := Slurped(SMALL, s.queue, [NEXT]);
    EndsAfterNext(s.queue);
    var req := Request(1, 1, 0, 1);
    assert PutPending([], 12, req) == [Slot(12, [req])];
    assert [Slot(12, [req])][..1] == [Slot(12, [req])] && [Slot(12, [req])][1..] == [];
    assert Flat([Slot(12, [req])]) == [Held(12, req)] by {
      assert [req][1..] == [];
    }
  }

  lemma EndsAfterLong(q: Queue)
    requires QueueOk(q) && forall x, p :: Holds(q, x, p) <==> p == LONG && 8 <= x < 10
    ensures QueueBeg(q) == 8 && QueueEnd(q) == 10
  {
    CoversIfHolds(q, 8, LONG);
    CoversIfHolds(q, 9, LONG);
    forall x | Covers(q, x)
      ensures 8 <= x < 10
    {
      CoversHolds(QUEUE_STYLE, q, x);
    }
    EndsAre(q, 8, 10);
  }

  lemma EndsAfterNext(q: Queue)
    requires QueueOk(q) && forall x, p :: Holds(q, x, p) <==> p == LONG && 8 <= x < 10
    ensures QueueBeg(Slurped(SMALL, q, [NEXT])) == 8 && QueueEnd(Slurped(SMALL, q, [NEXT])) == 12
  {
    var r := Slurped(SMALL, q, [NEXT]);
    SlurpedHolds(SMALL, q, [NEXT]);
    CoversIfHolds(r, 8, LONG);
    CoversIfHolds(r, 11, NEXT);
    forall x | Covers(r, x)
      ensures 8 <= x < 12
    {
      CoversHolds(QUEUE_STYLE, r, x);
    }
    EndsAre(r, 8, 12);
  }

  // ----- the mask that was asked for -----

  predicate Matches(p: Payload, want: bv64) { p.detid & want != 0 }

  /** What the documentation has in an answer: of the messages in the window those that
      match the mask asked for. */
  ghost predicate IsFilteredPayload(q: Queue, beg: int, end: int, want: bv64, list: seq<Payload>) {
    && NoRepeats(list) && SortedByStart(list)
    && forall p :: p in list <==> Meets(q, beg, end, p) && Matches(p, want)
  }

  /** Answers are not filtered, so they are as documented if and only if every message that
      is live in the window matches the mask. */
  lemma FilteredExactlyWhen(cfg: Config, events: seq<Event>, beg: int, end: int, want: bv64, list: seq<Payload>)
    requires cfg.Valid() && WellTimed(events)
    requires IsPayload(Run(cfg, events).queue, beg, end, list)
    ensures IsFilteredPayload(Run(cfg, events).queue, beg, end, want, list) <==>
              forall p :: LiveIn(Run(cfg, events).log, p, beg, end) ==> Matches(p, want)
  {
    var s := Run(cfg, events);
    forall p
      ensures p in list <==> LiveIn(s.log, p, beg, end)
      ensures Meets(s.queue, beg, end, p) <==> LiveIn(s.log, p, beg, end)
    {
      AnswerOverRun(cfg, events, beg, end, list, p);
      CountOfMember(list, p);
    }
  }

  /** A query for detector 2 that counts as satisfied and is answered with a message of
      detector 1. */
  lemma AnswersAreNotFiltered()
    ensures var s := Run(SMALL, [Ingest([LONG])]);
            Judge(SMALL, s.queue, 2, 8, 10) == Satisfied && Meets(s.queue, 8, 10, LONG) && !Matches(LONG, 2)
  {
    var s := Run(SMALL, [Ingest([LONG])]);
    AfterLong();
    EndsAfterLong(s.queue);
    assert Holds(s.queue, 8, LONG);
    assert LONG.detid & 2 == 0;
  }

  // ----- answers to queries that had to wait -----

  /** The step that released the query: it was pending before that batch, and is answered
      from the queue as that batch made it, before its purge. */
  ghost predicate ReleasedBy(cfg: Config, events: seq<Event>, r: Release, k: nat) {
    && k < |events| && events[k].Ingest?
    && r.query in Flat(Run(cfg, events[..k]).pending)
    && r.queue == Slurped(cfg, Run(cfg, events[..k]).queue, events[k].batch)
    && r.query.tend <= QueueEnd(r.queue)
  }

  lemma {:induction false} ReleaseHasStep(cfg: Config, events: seq<Event>, r: Release) returns (k: nat)
    requires cfg.Valid() && WellTimed(events) && r in Run(cfg, events).released
    ensures ReleasedBy(cfg, events, r, k)
    decreases |events|
  {
    var n := |events| - 1;
    var s, e := Run(cfg, events[..n]), events[n];
    if r in s.released {
      k := ReleaseHasStep(cfg, events[..n], r);
      assert events[..n][..k] == events[..k];
    } else {
      k := n;
      assert e.Ingest?;
      assert e in events;
      BatchReleasesDue(cfg, events[..n], e.batch);
    }
  }

  /** The queue of a release holds what came and was not purged, this batch included. */
  lemma ReleaseQueue(cfg: Config, events: seq<Event>, r: Release, k: nat, x: int, p: Payload)
    requires cfg.Valid() && WellTimed(events) && ReleasedBy(cfg, events, r, k)
    ensures Holds(r.queue, x, p) <==>
              Live(Run(cfg, events[..k]).log + AcceptedOf(cfg, events[k].batch), p, x)
  {
    var s, batch := Run(cfg, events[..k]), events[k].batch;
    assert events[k] in events;
    QueueInvAlways(cfg, events[..k]);
    SlurpedHolds(cfg, s.queue, batch);
    LiveAfterBatch(cfg, s.log, batch, p, x);
  }

  /** What had been accepted and purged when the query was released. */
  function LogAtRelease(cfg: Config, events: seq<Event>, k: nat): seq<LogEntry>
    requires k < |events| && events[k].Ingest?
  {
    Run(cfg, events[..k]).log + AcceptedOf(cfg, events[k].batch)
  }

  /** A delayed answer, too, lists each message exactly once or not at all, whatever the
      window that it is made for. */
  lemma DelayedAnswer(cfg: Config, events: seq<Event>, r: Release, k: nat, beg: int, end: int, list: seq<Payload>,
                      p: Payload)
    requires cfg.Valid() && WellTimed(events) && ReleasedBy(cfg, events, r, k)
    requires IsPayload(r.queue, beg, end, list)
    ensures multiset(list)[p] == if LiveIn(LogAtRelease(cfg, events, k), p, beg, end) then 1 else 0
  {
    var log := LogAtRelease(cfg, events, k);
    CountOfMember(list, p);
    if x :| beg <= x < end && Holds(r.queue, x, p) {
      ReleaseQueue(cfg, events, r, k, x, p);
    }
    if x :| beg <= x < end && Live(log, p, x) {
      ReleaseQueue(cfg, events, r, k, x, p);
    }
  }

  /** The answer to a query that had to wait is complete exactly when the messages of the
      window survive up to the batch that released it. */
  lemma DelayedIsCompleteExactlyWhen(cfg: Config, events: seq<Event>, r: Release, k: nat, beg: int, end: int,
                                     list: seq<Payload>)
    requires cfg.Valid() && WellTimed(events) && ReleasedBy(cfg, events, r, k)
    requires IsPayload(r.queue, beg, end, list)
    ensures var log := LogAtRelease(cfg, events, k);
            Complete(log, beg, end, list) <==> AllSurvive(log, beg, end)
  {
    var log := LogAtRelease(cfg, events, k);
    forall p | Accepted(p) in log
      ensures p.WellTimed()
    {
      LogByMask(cfg, events[..k + 1], p);
      assert events[..k + 1][..k] == events[..k];
    }
    forall p
      ensures multiset(list)[p] == if LiveIn(log, p, beg, end) then 1 else 0
    {
      DelayedAnswer(cfg, events, r, k, beg, end, list, p);
    }
    CompleteExactlyWhen(log, beg, end, list);
  }

  /** A delayed answer is complete when the query asks for no more than the low mark:
      however long it waited, it lists exactly the messages accepted by then whose
      interval meets the window. Nothing in the window was purged while it waited. */
  lemma DelayedAnswerIsComplete(cfg: Config, events: seq<Event>, r: Release, k: nat, list: seq<Payload>, p: Payload)
    requires cfg.Valid() && WellTimed(events) && ReleasedBy(cfg, events, r, k)
    requires IsPayload(r.queue, r.query.req.tstart, r.query.tend, list)
    requires r.query.tend - r.query.req.tstart <= cfg.lwm
    ensures p in list <==>
              && Accepted(p) in Run(cfg, events[..k + 1]).log
              && Intersects(p.Itv(), RightOpen(r.query.req.tstart, r.query.tend))
  {
    var s, batch := Run(cfg, events[..k]), events[k].batch;
    var beg, end := r.query.req.tstart, r.query.tend;
    assert events[..k + 1][..k] == events[..k] && events[k] in events;
    QueueInvAlways(cfg, events[..k]);
    PendingInvAlways(cfg, events[..k]);
    FlatBounds(s.pending, QueueEnd(s.queue) + 1);
    var log := s.log + AcceptedOf(cfg, batch);
    NoErasures(cfg, batch, QueueEnd(s.queue) - cfg.lwm);
    assert Accepted(p) in Run(cfg, events[..k + 1]).log <==> Accepted(p) in log;
    if x :| beg <= x < end && Holds(r.queue, x, p) {
      ReleaseQueue(cfg, events, r, k, x, p);
      assert Has(p.Itv(), x) && Has(RightOpen(beg, end), x);
    }
    if Accepted(p) in log && Intersects(p.Itv(), RightOpen(beg, end)) {
      var x := SharedTick(p.Itv(), RightOpen(beg, end));
      var i :| 0 <= i < |log| && log[i] == Accepted(p);
      assert KeptSince(log, i, x);
      assert Live(log, p, x);
      ReleaseQueue(cfg, events, r, k, x, p);
    }
  }
}
