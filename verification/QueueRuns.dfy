/** What holds of the queue over whole runs of the service. */
module QueueRuns {
  import opened Intervals
  import opened Segments
  import opened Addition
  import opened Erasure
  import opened QueryService

  // ----- the ends of the queue -----

  /** Well-formed, and every tick in it is one a well-timed message can have. */
  ghost predicate QueueOk(q: Queue) {
    Form(QUEUE_STYLE, q) && forall x :: Covers(q, x) ==> 0 <= x < TWO_63 - 1
  }

  /** The two ends are the least tick and the tick behind the greatest. */
  lemma EndsAreTight(q: Queue)
    requires Form(QUEUE_STYLE, q)
    ensures forall x :: Covers(q, x) ==> QueueBeg(q) <= x < QueueEnd(q)
    ensures q != [] ==> Covers(q, QueueBeg(q)) && Covers(q, QueueEnd(q) - 1)
  {
    if q != [] {
      var n := |q| - 1;
      IsGood(QUEUE_STYLE, q, 0);
      IsGood(QUEUE_STYLE, q, n);
      assert Has(q[0].itv, QueueBeg(q)) && Has(q[n].itv, QueueEnd(q) - 1);
      forall x | Covers(q, x)
        ensures QueueBeg(q) <= x < QueueEnd(q)
      {
        var k :| 0 <= k < |q| && Has(q[k].itv, x);
        assert 0 < k ==> Apart(QUEUE_STYLE, q[0], q[k]);
        assert k < n ==> Apart(QUEUE_STYLE, q[k], q[n]);
      }
    }
  }

  /** The verdict on a query that is not rejected, told over the ticks of the queue: fully
      late if it ends before all of them, delayed if it ends behind all of them by more
      than the next tick, and else partly late or satisfied by whether it begins before
      all of them. */
  lemma VerdictOverTicks(cfg: Config, q: Queue, want: bv64, beg: int, end: int)
    requires Form(QUEUE_STYLE, q) && !(want == 0 && cfg.detmask & 1 == 1)
    ensures var v := Judge(cfg, q, want, beg, end);
            q != [] ==>
              && (v == FullyLate <==> forall x :: Covers(q, x) ==> end <= x)
              && (v == Delayed <==> forall x :: Covers(q, x) ==> x + 1 < end)
              && (v == PartlyLate <==>
                    && (exists x :: Covers(q, x) && x < end)
                    && (exists x :: Covers(q, x) && end <= x + 1)
                    && forall x :: Covers(q, x) ==> beg < x)
              && (v == Satisfied <==>
                    && (exists x :: Covers(q, x) && x < end)
                    && (exists x :: Covers(q, x) && end <= x + 1)
                    && exists x :: Covers(q, x) && x <= beg)
    ensures q == [] ==> Judge(cfg, q, want, beg, end) == if end <= 1 then FullyLate else Delayed
  {
    BogusExactlyWhen(cfg, q, want, beg, end);
    EndsAreTight(q);
    if q != [] {
      var lo, hi := QueueBeg(q), QueueEnd(q) - 1;
      assert Covers(q, lo) && Covers(q, hi);
    }
  }

  lemma EndsInRange(q: Queue)
    requires QueueOk(q)
    ensures 0 <= QueueEnd(q) < TWO_63 && 0 <= QueueBeg(q) < TWO_63
    ensures q != [] ==> QueueBeg(q) < QueueEnd(q)
  {
    EndsAreTight(q);
  }

  /** A queue that covers at least what another one does ends no earlier. */
  lemma EndGrows(q: Queue, r: Queue)
    requires QueueOk(q) && QueueOk(r) && forall x :: Covers(q, x) ==> Covers(r, x)
    ensures QueueEnd(q) <= QueueEnd(r)
  {
    EndsAreTight(q);
    EndsAreTight(r);
    EndsInRange(r);
    if q != [] {
      assert Covers(r, QueueEnd(q) - 1);
    }
  }

  lemma CoversIfHolds(q: Queue, x: int, p: Payload)
    requires Holds(q, x, p)
    ensures Covers(q, x)
  {
    HoldsSome(q, x, p);
  }

  lemma AddedOk(q: Queue, p: Payload)
    requires QueueOk(q) && p.WellTimed()
    ensures QueueOk(Added(QUEUE_STYLE, q, p.Itv(), {p}))
    ensures QueueEnd(q) <= QueueEnd(Added(QUEUE_STYLE, q, p.Itv(), {p}))
    ensures forall x, v :: Holds(Added(QUEUE_STYLE, q, p.Itv(), {p}), x, v) <==>
              Holds(q, x, v) || (v == p && Has(p.Itv(), x))
  {
    var r := Added(QUEUE_STYLE, q, p.Itv(), {p});
    AddedCorrect(QUEUE_STYLE, q, p.Itv(), {p});
    forall x
      ensures Covers(q, x) ==> Covers(r, x)
      ensures Covers(r, x) ==> 0 <= x < TWO_63 - 1
    {
      CoversHolds(QUEUE_STYLE, q, x);
      CoversHolds(QUEUE_STYLE, r, x);
      if v :| Holds(q, x, v) {
        CoversIfHolds(r, x, v);
      }
      if v :| Holds(r, x, v) {
        if Holds(q, x, v) {
          CoversIfHolds(q, x, v);
        }
      }
    }
    EndGrows(q, r);
  }

  lemma {:induction false} SlurpedByMask(cfg: Config, q: Queue, batch: seq<Payload>)
    requires Form(QUEUE_STYLE, q)
    ensures forall x, p :: Holds(Slurped(cfg, q, batch), x, p) <==>
              Holds(q, x, p) || (p in batch && cfg.Accepts(p) && Has(p.Itv(), x))
    decreases batch
  {
    if batch != [] {
      if cfg.Accepts(batch[0]) {
        AddedCorrect(QUEUE_STYLE, q, batch[0].Itv(), {batch[0]});
        SlurpedByMask(cfg, Added(QUEUE_STYLE, q, batch[0].Itv(), {batch[0]}), batch[1..]);
      } else {
        SlurpedByMask(cfg, q, batch[1..]);
      }
      assert batch == [batch[0]] + batch[1..];
    }
  }

  lemma {:induction false} SlurpedKeeps(cfg: Config, q: Queue, batch: seq<Payload>)
    requires QueueOk(q) && WellTimedBatch(batch)
    ensures QueueOk(Slurped(cfg, q, batch)) && QueueEnd(q) <= QueueEnd(Slurped(cfg, q, batch))
    decreases batch
  {
    if batch != [] {
      if cfg.Accepts(batch[0]) {
        AddedOk(q, batch[0]);
        SlurpedKeeps(cfg, Added(QUEUE_STYLE, q, batch[0].Itv(), {batch[0]}), batch[1..]);
      } else {
        SlurpedKeeps(cfg, q, batch[1..]);
      }
    }
  }

  lemma SlurpedHolds(cfg: Config, q: Queue, batch: seq<Payload>)
    requires QueueOk(q) && WellTimedBatch(batch)
    ensures QueueOk(Slurped(cfg, q, batch)) && QueueEnd(q) <= QueueEnd(Slurped(cfg, q, batch))
    ensures forall x, p :: Holds(Slurped(cfg, q, batch), x, p) <==>
              Holds(q, x, p) || (p in batch && cfg.Accepts(p) && Has(p.Itv(), x))
  {
    SlurpedKeeps(cfg, q, batch);
    SlurpedByMask(cfg, q, batch);
  }

  /** A batch adds exactly its messages whose detector id has a bit in the mask, each on
      the ticks from its start up to but not including its end, */
  lemma SlurpedMeans(cfg: Config, q: Queue, batch: seq<Payload>)
    requires Form(QUEUE_STYLE, q)
    ensures forall x, p :: Holds(Slurped(cfg, q, batch), x, p) <==>
              || Holds(q, x, p)
              || (p in batch && p.detid & !cfg.detmask != p.detid && p.tstart <= x < p.tstart + p.tspan)
  {
    SlurpedByMask(cfg, q, batch);
    forall p: Payload
      ensures cfg.Accepts(p) <==> p.detid & !cfg.detmask != p.detid
    {
      AcceptsSharedBit(cfg, p);
    }
  }

  /** and keeps the queue in order. */
  lemma SlurpedOk(cfg: Config, q: Queue, batch: seq<Payload>)
    requires QueueOk(q) && WellTimedBatch(batch)
    ensures QueueOk(Slurped(cfg, q, batch)) && QueueEnd(q) <= QueueEnd(Slurped(cfg, q, batch))
    ensures forall x, p :: Holds(Slurped(cfg, q, batch), x, p) <==>
              || Holds(q, x, p)
              || (p in batch && p.detid & !cfg.detmask != p.detid && p.tstart <= x < p.tstart + p.tspan)
  {
    SlurpedKeeps(cfg, q, batch);
    SlurpedMeans(cfg, q, batch);
  }

  // ----- purging -----

  /** The conversions do no harm: the span test and the new begin are what they look like,
      except that an empty queue passes the test and asks to purge nothing. */
  lemma PurgeArithmetic(cfg: Config, q: Queue)
    requires cfg.Valid() && QueueOk(q)
    ensures NewBeg(cfg, q) == QueueEnd(q) - cfg.lwm
    ensures q != [] ==> (MustPurge(cfg, q) <==> QueueEnd(q) - QueueBeg(q) > cfg.hwm)
    ensures q == [] ==> MustPurge(cfg, q) && NewBeg(cfg, q) < 0 && Purged(cfg, q) == q
  {
    EndsInRange(q);
    NoWrap(QueueEnd(q), cfg.lwm);
    NoWrap(QueueEnd(q) - QueueBeg(q), 0);
  }

  lemma NoWrap(n: int, k: nat)
    requires n < TWO_63 && k < TWO_63
    ensures 0 <= n ==> ToUint64(n) == n && ToInt64(ToUint64(n) - k) == n - k
    ensures -TWO_63 <= n < 0 ==> ToUint64(n) == n + TWO_64
  {
  }

  /** A purge takes away the ticks below its own new begin and nothing else, never lowers
      the end of the queue, and leaves no more than the high mark. */
  lemma PurgedOk(cfg: Config, q: Queue)
    requires cfg.Valid() && QueueOk(q)
    ensures QueueOk(Purged(cfg, q)) && QueueEnd(Purged(cfg, q)) == QueueEnd(q)
    ensures forall x, p :: Holds(Purged(cfg, q), x, p) <==>
              Holds(q, x, p) && !(MustPurge(cfg, q) && 0 <= x < NewBeg(cfg, q))
    ensures QueueEnd(Purged(cfg, q)) - QueueBeg(Purged(cfg, q)) <= cfg.hwm
  {
    PurgeArithmetic(cfg, q);
    if MustPurge(cfg, q) && q != [] {
      var gone, r := RightOpen(0, NewBeg(cfg, q)), Purged(cfg, q);
      ErasedCorrect(QUEUE_STYLE, q, gone);
      assert forall x :: Has(gone, x) <==> 0 <= x < NewBeg(cfg, q);
      assert forall x :: Covers(r, x) <==> Covers(q, x) && !Has(gone, x);
      EndsAreTight(q);
      EndsAreTight(r);
      assert Covers(r, QueueEnd(q) - 1);
      assert Covers(r, QueueEnd(r) - 1) && Covers(r, QueueBeg(r));
    }
  }

  // ----- the log -----

  /** The message was accepted, covers the tick, and no later purge reached the tick. */
  ghost predicate Live(log: seq<LogEntry>, p: Payload, x: int) {
    exists i :: 0 <= i < |log| && log[i] == Accepted(p) && Has(p.Itv(), x) && KeptSince(log, i, x)
  }

  ghost predicate KeptSince(log: seq<LogEntry>, i: nat, x: int) {
    forall j :: i < j < |log| && log[j].Erasure? ==> !(0 <= x < log[j].newBeg)
  }

  lemma LiveAfterAccept(log: seq<LogEntry>, e: LogEntry, p: Payload, x: int)
    requires e.Accepted?
    ensures Live(log + [e], p, x) <==> Live(log, p, x) || (e.p == p && Has(p.Itv(), x))
  {
    var longer := log + [e];
    if i :| 0 <= i < |log| && log[i] == Accepted(p) && Has(p.Itv(), x) && KeptSince(log, i, x) {
      assert longer[i] == log[i] && KeptSince(longer, i, x);
    }
    if i :| 0 <= i < |longer| && longer[i] == Accepted(p) && Has(p.Itv(), x) && KeptSince(longer, i, x) {
      if i < |log| {
        assert log[i] == Accepted(p);
        forall j | i < j < |log| && log[j].Erasure?
          ensures !(0 <= x < log[j].newBeg)
        {
          assert longer[j] == log[j];
        }
      }
    }
    if e.p == p && Has(p.Itv(), x) {
      assert longer[|log|] == Accepted(p) && KeptSince(longer, |log|, x);
    }
  }

  lemma LiveAfterErasure(log: seq<LogEntry>, e: LogEntry, p: Payload, x: int)
    requires e.Erasure?
    ensures Live(log + [e], p, x) <==> Live(log, p, x) && !(0 <= x < e.newBeg)
  {
    var longer := log + [e];
    if i :| 0 <= i < |log| && log[i] == Accepted(p) && Has(p.Itv(), x) && KeptSince(log, i, x) && !(0 <= x < e.newBeg) {
      assert longer[i] == log[i] && KeptSince(longer, i, x);
    }
    if i :| 0 <= i < |longer| && longer[i] == Accepted(p) && Has(p.Itv(), x) && KeptSince(longer, i, x) {
      assert longer[|log|] == e;
      assert log[i] == Accepted(p);
      forall j | i < j < |log| && log[j].Erasure?
        ensures !(0 <= x < log[j].newBeg)
      {
        assert longer[j] == log[j];
      }
    }
  }

  lemma {:induction false} LiveAfterBatch(cfg: Config, log: seq<LogEntry>, batch: seq<Payload>, p: Payload, x: int)
    ensures Live(log + AcceptedOf(cfg, batch), p, x) <==>
              Live(log, p, x) || (p in batch && cfg.Accepts(p) && Has(p.Itv(), x))
    decreases batch
  {
    if batch == [] {
      assert log + AcceptedOf(cfg, batch) == log;
    } else {
      var rest := AcceptedOf(cfg, batch[1..]);
      assert batch == [batch[0]] + batch[1..];
      if cfg.Accepts(batch[0]) {
        LiveAfterAccept(log, Accepted(batch[0]), p, x);
        LiveAfterBatch(cfg, log + [Accepted(batch[0])], batch[1..], p, x);
        assert log + AcceptedOf(cfg, batch) == (log + [Accepted(batch[0])]) + rest;
      } else {
        LiveAfterBatch(cfg, log, batch[1..], p, x);
        assert log + AcceptedOf(cfg, batch) == log + rest;
      }
    }
  }

  // ----- the invariant of the queue -----

  /** The queue is exactly what its history says, and no purge has come closer to the end
      of the queue than the low mark. */
  ghost predicate QueueInv(cfg: Config, s: State) {
    && QueueOk(s.queue)
    && (forall x, p :: Holds(s.queue, x, p) <==> Live(s.log, p, x))
    && ErasuresUpTo(s.log, QueueEnd(s.queue) - cfg.lwm)
    && QueueEnd(s.queue) - QueueBeg(s.queue) <= cfg.hwm
  }

  lemma QueueInvIngest(cfg: Config, s: State, batch: seq<Payload>)
    requires cfg.Valid() && QueueInv(cfg, s) && WellTimedBatch(batch)
    ensures QueueInv(cfg, AfterIngest(cfg, s, batch))
    ensures QueueEnd(s.queue) <= QueueEnd(AfterIngest(cfg, s, batch).queue)
  {
    var q, t := Slurped(cfg, s.queue, batch), AfterIngest(cfg, s, batch);
    var slurpedLog := s.log + AcceptedOf(cfg, batch);
    SlurpedHolds(cfg, s.queue, batch);
    PurgeArithmetic(cfg, q);
    PurgedOk(cfg, q);
    forall x, p
      ensures Holds(t.queue, x, p) <==> Live(t.log, p, x)
    {
      LiveAfterBatch(cfg, s.log, batch, p, x);
      if MustPurge(cfg, q) {
        LiveAfterErasure(slurpedLog, Erasure(NewBeg(cfg, q)), p, x);
      } else {
        assert t.log == slurpedLog;
      }
    }
    NoErasures(cfg, batch, QueueEnd(t.queue) - cfg.lwm);
  }

  /** No purge of the log went beyond the tick. */
  ghost predicate ErasuresUpTo(log: seq<LogEntry>, t: int) {
    forall i :: 0 <= i < |log| && log[i].Erasure? ==> log[i].newBeg <= t
  }

  lemma {:induction false} NoErasures(cfg: Config, batch: seq<Payload>, t: int)
    ensures ErasuresUpTo(AcceptedOf(cfg, batch), t)
  {
    if batch != [] {
      NoErasures(cfg, batch[1..], t);
    }
  }

  lemma {:induction false} QueueInvAlways(cfg: Config, events: seq<Event>)
    requires cfg.Valid() && WellTimed(events)
    ensures QueueInv(cfg, Run(cfg, events))
    decreases |events|
  {
    if events == [] {
      assert forall x :: !Covers(INITIAL.queue, x);
    } else {
      var n := |events| - 1;
      QueueInvAlways(cfg, events[..n]);
      if events[n].Ingest? {
        assert events[n] in events;
        QueueInvIngest(cfg, Run(cfg, events[..n]), events[n].batch);
      }
    }
  }

  // ----- the main results -----

  /** Recent-window completeness. After any run, however the messages were ordered: at
      every tick not more than the low mark before the end of the queue, the queue holds
      exactly the messages ever accepted whose interval contains the tick. */
  lemma RecentWindow(cfg: Config, events: seq<Event>, x: int, p: Payload)
    requires cfg.Valid() && WellTimed(events)
    requires QueueEnd(Run(cfg, events).queue) - cfg.lwm <= x
    ensures Holds(Run(cfg, events).queue, x, p) <==>
              Accepted(p) in Run(cfg, events).log && p.tstart <= x < p.tstart + p.tspan
  {
    var s := Run(cfg, events);
    QueueInvAlways(cfg, events);
    if i :| 0 <= i < |s.log| && s.log[i] == Accepted(p) && Has(p.Itv(), x) {
      assert KeptSince(s.log, i, x);
      assert Live(s.log, p, x);
    }
  }

  /** Which messages are in the log: those that came in some batch with a bit of the mask. */
  lemma LogIsWhatCame(cfg: Config, events: seq<Event>, p: Payload)
    ensures Accepted(p) in Run(cfg, events).log <==>
              p.detid & !cfg.detmask != p.detid && exists e :: e in events && e.Ingest? && p in e.batch
  {
    LogByMask(cfg, events, p);
    AcceptsSharedBit(cfg, p);
  }

  lemma {:induction false} LogByMask(cfg: Config, events: seq<Event>, p: Payload)
    ensures Accepted(p) in Run(cfg, events).log <==>
              cfg.Accepts(p) && exists e :: e in events && e.Ingest? && p in e.batch
    decreases |events|
  {
    if events != [] {
      var n := |events| - 1;
      var e := events[n];
      LogByMask(cfg, events[..n], p);
      assert events == events[..n] + [e];
      if e.Ingest? {
        AcceptedOfBatch(cfg, e.batch, p);
      }
    }
  }

  lemma {:induction false} AcceptedOfBatch(cfg: Config, batch: seq<Payload>, p: Payload)
    ensures Accepted(p) in AcceptedOf(cfg, batch) <==> cfg.Accepts(p) && p in batch
  {
    if batch != [] {
      AcceptedOfBatch(cfg, batch[1..], p);
      assert batch == [batch[0]] + batch[1..];
    }
  }

  /** Bounded depth: between steps the queue never spans more than the high mark. */
  lemma DepthBounded(cfg: Config, events: seq<Event>)
    requires cfg.Valid() && WellTimed(events)
    ensures var q := Run(cfg, events).queue; QueueEnd(q) - QueueBeg(q) <= cfg.hwm
  {
    QueueInvAlways(cfg, events);
  }

  /** The end of the queue never moves back. */
  lemma {:induction false} EndNeverFalls(cfg: Config, events: seq<Event>, m: nat)
    requires cfg.Valid() && WellTimed(events) && m <= |events|
    ensures QueueEnd(Run(cfg, events[..m]).queue) <= QueueEnd(Run(cfg, events).queue)
    decreases |events|
  {
    if m == |events| {
      assert events[..m] == events;
    } else {
      var n := |events| - 1;
      var s, e := Run(cfg, events[..n]), events[n];
      assert events[..n][..m] == events[..m];
      EndNeverFalls(cfg, events[..n], m);
      assert QueueEnd(s.queue) <= QueueEnd(Next(cfg, s, e).queue) by {
        if e.Ingest? {
          assert e in events;
          QueueInvAlways(cfg, events[..n]);
          QueueInvIngest(cfg, s, e.batch);
        }
      }
    }
  }
}
