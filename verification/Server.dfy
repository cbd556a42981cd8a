/** The query server: its handlers change the interval queue, the pending map and the
    protocol message in place. Each is proved against the machine of `QueryService`. */
module Servers {
  import opened Intervals
  import opened Segments
  import opened Addition
  import opened IntervalMaps
  import opened QueryService
  import opened QueueRuns
  import opened PendingRuns
  import opened PayloadRuns

  const SUCCESS := 200
  const PARTIAL_CONTENT := 206
  const NOT_FOUND := 404
  const COMMAND_INVALID := 500

  /** The protocol message: queries come in it and replies go out in it. */
  datatype Message = Message(seqno: nat, status: nat, tstart: nat, tspan: nat, detmask: bv64, payload: seq<Payload>) {
    function Beg(): int { WindowBeg(tstart) }

    function End(): int { WindowEnd(tstart, tspan) }
  }

  datatype Reply = Result(client: nat, message: Message) | Error(client: nat, message: Message)

  predicate SameWindow(a: Message, b: Message) { a.tstart == b.tstart && a.tspan == b.tspan }

  /** The message asks for the window that the held query asked for. */
  predicate AsksFor(message: Message, h: Held) { message.Beg() == h.req.tstart && message.End() == h.tend }

  /** The message still asks for the window of every query that waits. */
  ghost predicate Intact(pending: seq<Slot>, message: Message) {
    forall h :: h in Flat(pending) ==> AsksFor(message, h)
  }

  /** The reply to a query that was held: success, its number, and the payload for the
      window that the message then asks for. */
  ghost predicate Answers(reply: Reply, h: Held, q: Queue, message: Message) {
    && reply.Result? && reply.client == h.req.client
    && reply.message.seqno == h.req.seqno && reply.message.status == 200
    && SameWindow(reply.message, message)
    && IsPayload(q, reply.message.Beg(), reply.message.End(), reply.message.payload)
  }

  ghost predicate AllAnswered(sent: seq<Reply>, due: seq<Held>, q: Queue, message: Message) {
    |sent| == |due| && forall k :: 0 <= k < |sent| ==> Answers(sent[k], due[k], q, message)
  }

  /** The immediate reply to a query, by verdict. */
  ghost predicate Replies(reply: Reply, client: nat, query: Message, verdict: Verdict, q: Queue) {
    && reply.client == client && reply.message.seqno == query.seqno
    && match verdict
       case Bogus => reply.Error? && reply.message.status == 500 && reply.message.payload == []
       case FullyLate => reply.Result? && reply.message.status == 404 && reply.message.payload == []
       case PartlyLate =>
         && reply.Result? && reply.message.status == 206
         && IsPayload(q, query.Beg(), query.End(), reply.message.payload)
       case Satisfied =>
         && reply.Result? && reply.message.status == 200
         && IsPayload(q, query.Beg(), query.End(), reply.message.payload)
       case Delayed => false
  }

  /** The list has, once each and ascending in start time, the messages that the queue
      holds at some tick from `beg` up to but not including `end`. */
  ghost predicate HasExactly(list: seq<Payload>, q: Queue, beg: int, end: int) {
    && (forall p :: p in list <==> exists x :: beg <= x < end && Holds(q, x, p))
    && (forall i, j :: 0 <= i < j < |list| ==> list[i] != list[j] && list[i].tstart <= list[j].tstart)
  }

  /** What a query for the ticks from `beg` up to but not including `end` is answered with,
      told over the ticks of the queue: 404 without a payload if it ends before all of
      them, nothing yet if it ends behind all of them by more than the next tick, and else
      what the queue holds there, with 206 if it begins before all of them and with 200
      otherwise. On an empty queue it is late if it ends by tick 1. */
  ghost predicate Serves(sent: seq<Reply>, client: nat, seqno: nat, beg: int, end: int, q: Queue) {
    if (q == [] && end <= 1) || (q != [] && forall x :: Covers(q, x) ==> end <= x) then
      && |sent| == 1 && sent[0].Result? && sent[0].client == client && sent[0].message.seqno == seqno
      && sent[0].message.status == 404 && sent[0].message.payload == []
    else if forall x :: Covers(q, x) ==> x + 1 < end then sent == []
    else
      && |sent| == 1 && sent[0].Result? && sent[0].client == client && sent[0].message.seqno == seqno
      && sent[0].message.status == (if forall x :: Covers(q, x) ==> beg < x then 206 else 200)
      && HasExactly(sent[0].message.payload, q, beg, end)
  }

  // ----- the payload of a reply -----

  /** All values of all segments. */
  method AllValues(segs: seq<Seg<Payload>>) returns (unique: set<Payload>)
    ensures forall p :: p in unique <==> exists k :: 0 <= k < |segs| && p in segs[k].val
  {
    unique := {};
    for k := 0 to |segs|
      invariant forall p :: p in unique <==> exists i :: 0 <= i < k && p in segs[i].val
    {
      unique := unique + segs[k].val;
    }
  }

  /** The members of a set, in no particular order. */
  method Listed(s: set<Payload>) returns (list: seq<Payload>)
    ensures NoRepeats(list) && forall p :: p in list <==> p in s
  {
    list := [];
    var rest := s;
    while rest != {}
      invariant NoRepeats(list) && forall p :: p in s <==> p in list || p in rest
      invariant forall p :: p in list ==> p !in rest
      decreases |rest|
    {
      var p :| p in rest;
      list, rest := list + [p], rest - {p};
    }
  }

  /** Put one message into its place in a sorted list. */
  method InsertByStart(list: seq<Payload>, p: Payload) returns (r: seq<Payload>)
    requires SortedByStart(list)
    ensures SortedByStart(r) && multiset(r) == multiset(list) + multiset{p}
  {
    var at: nat := |list|;
    while 0 < at && p.tstart < list[at - 1].tstart
      invariant at <= |list| && (at < |list| ==> p.tstart < list[at].tstart)
    {
      at := at - 1;
    }
    var head, tail := list[..at], list[at..];
    SortedParts(list, at);
    SortedAround(head, p, tail);
    CountsAround(head, p, tail);
    assert list == head + tail;
    r := head + [p] + tail;
  }

  lemma CountsAround(a: seq<Payload>, p: Payload, b: seq<Payload>)
    ensures multiset(a + [p] + b) == multiset(a + b) + multiset{p}
  {
  }

  lemma SortedParts(list: seq<Payload>, at: nat)
    requires SortedByStart(list) && at <= |list|
    ensures SortedByStart(list[..at]) && SortedByStart(list[at..])
  {
  }

  lemma SortedAround(a: seq<Payload>, p: Payload, b: seq<Payload>)
    requires SortedByStart(a) && SortedByStart(b)
    requires (a != [] ==> a[|a| - 1].tstart <= p.tstart) && (b != [] ==> p.tstart < b[0].tstart)
    ensures SortedByStart(a + [p] + b)
  {
    var r := a + [p] + b;
    forall i, j | 0 <= i < j < |r|
      ensures r[i].tstart <= r[j].tstart
    {
      assert i < |a| ==> r[i] == a[i] && r[i].tstart <= p.tstart;
      assert |a| < i ==> r[i] == b[i - |a| - 1];
      assert |a| < j ==> r[j] == b[j - |a| - 1] && p.tstart <= r[j].tstart;
    }
  }

  /** Sorting by start time; messages that start together may come in any order. */
  method SortByStart(list: seq<Payload>) returns (ordered: seq<Payload>)
    ensures SortedByStart(ordered) && multiset(ordered) == multiset(list)
  {
    ordered := [];
    for k := 0 to |list|
      invariant SortedByStart(ordered) && multiset(ordered) == multiset(list[..k])
    {
      assert list[..k + 1] == list[..k] + [list[k]];
      ordered := InsertByStart(ordered, list[k]);
    }
    assert list[..|list|] == list;
  }

  lemma {:induction false} PermutedRepeats(a: seq<Payload>, b: seq<Payload>)
    requires multiset(a) == multiset(b) && NoRepeats(a)
    ensures NoRepeats(b) && forall p :: p in a <==> p in b
  {
    forall p
      ensures p in a <==> p in b
    {
      assert p in a <==> p in multiset(a);
      assert p in b <==> p in multiset(b);
    }
    forall i, j | 0 <= i < j < |b|
      ensures b[i] != b[j]
    {
      CountOfMember(a, b[i]);
      assert b == b[..i] + [b[i]] + b[i + 1..j] + [b[j]] + b[j + 1..];
    }
  }

  class Server {
    const cfg: Config
    const iq: IntervalMap<Payload>
    var pending: seq<Slot>
    /** All clients share this one. */
    var message: Message
    /** Everything that has happened to the server. */
    ghost var events: seq<Event>

    /** The fields are what the machine says after these events. */
    ghost predicate Valid()
      reads this, iq
    {
      && cfg.Valid() && iq.style == QUEUE_STYLE && iq.Valid() && WellTimed(events)
      && iq.segs == Run(cfg, events).queue && pending == Run(cfg, events).pending
      && (message.Beg(), message.End()) == LastWindow(events)
    }

    constructor (cfg: Config)
      requires cfg.Valid()
      ensures Valid() && this.cfg == cfg && events == [] && fresh(iq)
    {
      this.cfg := cfg;
      iq := new IntervalMap<Payload>(QUEUE_STYLE);
      pending, message, events := [], Message(0, 0, 0, 0, 0, []), [];
    }

    // ----- replies -----

    /** Put what the queue holds in the window of the message into the message. */
    method SetPayload()
      requires iq.Valid() && iq.style == QUEUE_STYLE
      modifies this`message
      ensures message == old(message).(payload := message.payload)
      ensures IsPayload(iq.segs, message.Beg(), message.End(), message.payload)
      ensures message.tstart + message.tspan < 0x8000_0000_0000_0000 ==>
                HasExactly(message.payload, iq.segs, message.tstart, message.tstart + message.tspan)
    {
      WindowInNumbers(message.tstart, message.tspan);
      var tbeg := message.tstart;
      var tend := ToUint64(message.tspan + tbeg);
      var want := RightOpen(ToInt64(tbeg), ToInt64(tend));
      var got := iq.IntersectedWith(want);
      var unique := AllValues(got.segs);
      var list := Listed(unique);
      var ordered := SortByStart(list);
      PermutedRepeats(list, ordered);
      forall p
        ensures p in unique <==> Meets(iq.segs, message.Beg(), message.End(), p)
      {
        ValuesAreMet(got.segs, iq.segs, want, p);
      }
      message := message.(payload := ordered);
    }

    /** `set_not_found` and `set_command_invalid`. */
    method SetEmpty(status: nat)
      modifies this`message
      ensures message == old(message).(payload := [], status := status)
    {
      message := message.(payload := [], status := status);
    }

    // ----- ingest -----

    /** Add a message if it matches the detector mask. */
    method SlurpOne(p: Payload)
      requires iq.Valid() && iq.style == QUEUE_STYLE
      modifies iq
      ensures iq.Valid()
      ensures iq.segs == if cfg.Accepts(p) then Added(QUEUE_STYLE, old(iq.segs), p.Itv(), {p}) else old(iq.segs)
    {
      if p.detid & cfg.detmask == 0 {
        return;
      }
      iq.Add(p.Itv(), {p});
    }

    method Slurp(batch: seq<Payload>)
      requires iq.Valid() && iq.style == QUEUE_STYLE
      modifies iq
      ensures iq.Valid() && iq.segs == Slurped(cfg, old(iq.segs), batch)
      ensures forall x, p :: Holds(iq.segs, x, p) <==>
                || Holds(old(iq.segs), x, p)
                || (p in batch && p.detid & !cfg.detmask != p.detid && p.tstart <= x < p.tstart + p.tspan)
    {
      SlurpedMeans(cfg, iq.segs, batch);
      ghost var todo, goal := batch, Slurped(cfg, iq.segs, batch);
      for k := 0 to |batch|
        invariant iq.Valid() && todo == batch[k..] && Slurped(cfg, iq.segs, todo) == goal
      {
        assert todo[0] == batch[k];
        todo := todo[1..];
        SlurpOne(batch[k]);
      }
    }

    /** Cut the queue back to the low mark when it spans more than the high mark. */
    method Purge(queueBeg: int, queueEnd: int)
      requires iq.Valid() && iq.style == QUEUE_STYLE && queueBeg == QueueBeg(iq.segs) && queueEnd == QueueEnd(iq.segs)
      modifies iq
      ensures iq.Valid() && iq.segs == Purged(cfg, old(iq.segs))
    {
      var qspan := queueEnd - queueBeg;
      assert MustPurge(cfg, iq.segs) <==> ToUint64(qspan) > cfg.hwm;
      if ToUint64(qspan) > cfg.hwm {
        var newBeg := ToInt64(ToUint64(queueEnd) - cfg.lwm);
        assert newBeg == NewBeg(cfg, iq.segs);
        iq.Erase(RightOpen(0, newBeg));
      }
    }

    /** Answer the queries of one entry of the pending map. */
    method ReleaseSlot(slot: Slot) returns (sent: seq<Reply>)
      requires iq.Valid() && iq.style == QUEUE_STYLE
      modifies this`message
      ensures SameWindow(message, old(message))
      ensures AllAnswered(sent, HeldAt(slot.tend, slot.reqs), iq.segs, old(message))
    {
      sent := [];
      for j := 0 to |slot.reqs|
        invariant SameWindow(message, old(message))
        invariant AllAnswered(sent, HeldAt(slot.tend, slot.reqs[..j]), iq.segs, old(message))
      {
        var req := slot.reqs[j];
        assert slot.reqs[..j + 1] == slot.reqs[..j] + [req];
        HeldAtAppend(slot.tend, slot.reqs[..j], req);
        message := message.(seqno := req.seqno, status := SUCCESS);
        SetPayload();
        sent := sent + [Result(req.client, message)];
      }
      assert slot.reqs[..|slot.reqs|] == slot.reqs;
    }

    /** Answer, and forget, the pending queries that end by the end of the queue. */
    method ReleaseDue(queueEnd: int) returns (sent: seq<Reply>)
      requires iq.Valid() && iq.style == QUEUE_STYLE
      modifies this`message, this`pending
      ensures SameWindow(message, old(message))
      ensures var n := DueCount(old(pending), queueEnd);
              && pending == old(pending)[n..]
              && AllAnswered(sent, Flat(old(pending)[..n]), iq.segs, old(message))
    {
      sent := [];
      var tokill: nat := 0;
      while tokill < |pending| && pending[tokill].tend <= queueEnd
        invariant pending == old(pending) && tokill <= |pending| && SameWindow(message, old(message))
        invariant DueCount(pending, queueEnd) == tokill + DueCount(pending[tokill..], queueEnd)
        invariant AllAnswered(sent, Flat(pending[..tokill]), iq.segs, old(message))
      {
        var slot := pending[tokill];
        assert pending[tokill..][0] == slot && pending[tokill..][1..] == pending[tokill + 1..];
        ghost var before := message;
        var replies := ReleaseSlot(slot);
        AnswersGrow(sent, replies, pending, tokill, iq.segs, before, old(message));
        sent := sent + replies;
        tokill := tokill + 1;
      }
      EraseSlots(tokill);
    }

    /** Erase the first entries of the pending map. */
    method EraseSlots(n: nat)
      requires n <= |pending|
      modifies this`pending
      ensures pending == old(pending)[n..]
    {
      for k := 0 to n
        invariant pending == old(pending)[k..]
      {
        pending := pending[1..];
      }
    }

    /** One batch: slurp it, answer what has become due, and purge if the queue has grown
        too long. */
    method HandleIngest(batch: seq<Payload>) returns (sent: seq<Reply>)
      requires Valid() && WellTimedBatch(batch)
      modifies this, iq
      ensures Valid() && events == old(events) + [Ingest(batch)]
      ensures SameWindow(message, old(message))
      ensures var q := Slurped(cfg, old(iq.segs), batch);
              AllAnswered(sent, Flat(old(pending)[..DueCount(old(pending), QueueEnd(q))]), q, old(message))
      ensures Intact(old(pending), old(message)) ==> Intact(pending, message)
    {
      ghost var before := Run(cfg, events);
      Slurp(batch);
      var queueEnd, queueBeg := QueueEnd(iq.segs), QueueBeg(iq.segs);
      sent := ReleaseDue(queueEnd);
      Purge(queueBeg, queueEnd);
      RunAppend(cfg, events, Ingest(batch));
      IntactRest(before.pending, DueCount(before.pending, queueEnd), old(message), message);
      events := events + [Ingest(batch)];
    }

    // ----- queries -----

    /** A query is received into the message, over whatever it held for any client. */
    method Receive(seqno: nat, tstart: nat, tspan: nat, detmask: bv64)
      modifies this`message
      ensures message == old(message).(seqno := seqno, tstart := tstart, tspan := tspan, detmask := detmask)
    {
      message := message.(seqno := seqno, tstart := tstart, tspan := tspan, detmask := detmask);
    }

    /** The signed begin and end of the window a query asks for. */
    method Window() returns (queryBeg: int, queryEnd: int)
      ensures queryBeg == message.Beg() && queryEnd == message.End()
    {
      EndAsSum(message.tstart, message.tspan);
      queryBeg := ToInt64(message.tstart);
      queryEnd := ToInt64(message.tspan + ToUint64(queryBeg));
    }

    /** The query that the message holds. */
    method HandleQuery(client: nat) returns (verdict: Verdict)
      modifies this`message, this`pending
      ensures verdict == Judge(cfg, iq.segs, message.detmask, message.Beg(), message.End())
      ensures pending == if verdict != Delayed then old(pending)
                         else PutPending(old(pending), message.End(),
                                         Request(client, message.detmask, message.Beg(), message.seqno))
      ensures message == if verdict == PartlyLate then old(message).(status := 206)
                         else if verdict == Satisfied then old(message).(status := 200) else old(message)
    {
      var seqno, wantDetmask := message.seqno, message.detmask;
      if MaskMismatch(wantDetmask, cfg.detmask) {
        return Bogus;
      }
      var queryBeg, queryEnd := Window();
      var queueBeg, queueEnd := QueueBeg(iq.segs), QueueEnd(iq.segs);
      if queryEnd <= queueBeg {
        return FullyLate;
      } else if queryEnd <= queueEnd {
        if queryBeg < queueBeg {
          message := message.(status := PARTIAL_CONTENT);
          return PartlyLate;
        } else {
          message := message.(status := SUCCESS);
          return Satisfied;
        }
      } else {
        Hold(queryEnd, Request(client, wantDetmask, queryBeg, seqno));
        return Delayed;
      }
    }

    /** `pending[tend].push_back(req)`. */
    method Hold(tend: int, req: Request)
      modifies this`pending
      ensures pending == PutPending(old(pending), tend, req)
    {
      pending := PutPending(pending, tend, req);
    }

    /** What the protocol does and sends for the outcome of a query. */
    method Respond(client: nat, verdict: Verdict) returns (sent: seq<Reply>)
      requires iq.Valid() && iq.style == QUEUE_STYLE
      requires verdict == PartlyLate ==> message.status == 206
      requires verdict == Satisfied ==> message.status == 200
      modifies this`message
      ensures SameWindow(message, old(message))
      ensures if verdict == Delayed then sent == []
              else |sent| == 1 && Replies(sent[0], client, old(message), verdict, iq.segs)
    {
      sent := [];
      match verdict {
        case Bogus =>
          SetEmpty(COMMAND_INVALID);
          sent := [Error(client, message)];
        case FullyLate =>
          SetEmpty(NOT_FOUND);
          sent := [Result(client, message)];
        case PartlyLate | Satisfied =>
          SetPayload();
          sent := [Result(client, message)];
        case Delayed =>
      }
    }

    /** Decide the query that the message holds and answer it unless it is held. */
    method Answer(client: nat) returns (verdict: Verdict, sent: seq<Reply>)
      requires iq.Valid() && iq.style == QUEUE_STYLE
      modifies this`message, this`pending
      ensures SameWindow(message, old(message))
      ensures verdict == Judge(cfg, iq.segs, old(message).detmask, old(message).Beg(), old(message).End())
      ensures pending == if verdict != Delayed then old(pending)
                         else PutPending(old(pending), old(message).End(),
                                         Request(client, old(message).detmask, old(message).Beg(), old(message).seqno))
      ensures if verdict == Delayed then sent == []
              else |sent| == 1 && Replies(sent[0], client, old(message), verdict, iq.segs)
    {
      ghost var query := message;
      verdict := HandleQuery(client);
      ghost var now := message;
      sent := Respond(client, verdict);
      RepliesToQuery(sent, client, now, query, verdict, iq.segs);
    }

    /** A query, from its arrival to the reply. The client gets one reply, or none yet if
        the query is held. The windows of the queries that wait, of this and of all other
        clients, are intact afterwards if and only if they are the window of this one. */
    method Query(client: nat, seqno: nat, tstart: nat, tspan: nat, detmask: bv64)
      returns (verdict: Verdict, sent: seq<Reply>)
      requires Valid()
      modifies this
      ensures Valid() && events == old(events) + [Event.Query(client, seqno, tstart, tspan, detmask)]
      ensures verdict == Judge(cfg, iq.segs, detmask, WindowBeg(tstart), WindowEnd(tstart, tspan))
      ensures message.tstart == tstart && message.tspan == tspan
      ensures if verdict == Delayed then sent == []
              else |sent| == 1 && Replies(sent[0], client, message.(seqno := seqno), verdict, iq.segs)
      ensures detmask == 0 && cfg.detmask & 1 == 1 ==>
                && |sent| == 1 && sent[0].Error? && sent[0].client == client && sent[0].message.seqno == seqno
                && sent[0].message.status == 500 && sent[0].message.payload == []
      ensures !(detmask == 0 && cfg.detmask & 1 == 1) && tstart + tspan < 0x8000_0000_0000_0000 ==>
                Serves(sent, client, seqno, tstart, tstart + tspan, iq.segs)
      ensures !(detmask == 0 && cfg.detmask & 1 == 1) ==>
                Serves(sent, client, seqno, WindowBeg(tstart), WindowEnd(tstart, tspan), iq.segs)
      ensures if sent != [] then pending == old(pending)
              else WaitsLast(pending, WindowEnd(tstart, tspan), Request(client, detmask, WindowBeg(tstart), seqno))
      ensures Intact(pending, message) <==> Intact(old(pending), message)
    {
      ghost var before := pending;
      Receive(seqno, tstart, tspan, detmask);
      ghost var query := message;
      QueryStep(cfg, events, client, query);
      verdict, sent := Answer(client);
      RepliesToQuery(sent, client, query, message.(seqno := seqno), verdict, iq.segs);
      IntactAfter(before, pending, query, message, Request(client, detmask, query.Beg(), seqno));
      PutLast(before, query.End(), Request(client, detmask, query.Beg(), seqno));
      WindowInNumbers(tstart, tspan);
      BogusExactlyWhen(cfg, iq.segs, detmask, query.Beg(), query.End());
      if verdict != Bogus {
        RepliesServe(sent, client, query, cfg, iq.segs);
      }
      events := events + [Event.Query(client, seqno, tstart, tspan, detmask)];
    }

    /** A query of a client that has not said HELLO is an error, but has been received into
        the message before that is noticed: it moves the window all the same. */
    method Refuse(client: nat, seqno: nat, tstart: nat, tspan: nat, detmask: bv64) returns (sent: seq<Reply>)
      requires Valid()
      modifies this`message, this`events
      ensures Valid() && events == old(events) + [Refused(tstart, tspan)]
      ensures message.tstart == tstart && message.tspan == tspan
      ensures |sent| == 1 && Replies(sent[0], client, message.(seqno := seqno), Bogus, iq.segs)
    {
      Receive(seqno, tstart, tspan, detmask);
      SetEmpty(COMMAND_INVALID);
      sent := [Error(client, message)];
      RunAppend(cfg, events, Refused(tstart, tspan));
      events := events + [Refused(tstart, tspan)];
    }
  }

  /** The values of the segments of an intersection are those held inside the interval. */
  lemma ValuesAreMet(got: Queue, q: Queue, want: Interval, p: Payload)
    requires Form(QUEUE_STYLE, got) && IsRightOpen(want)
    requires forall x, v :: Holds(got, x, v) <==> Holds(q, x, v) && Has(want, x)
    ensures (exists k :: 0 <= k < |got| && p in got[k].val) <==> Meets(q, want.lo, want.up, p)
  {
    if k :| 0 <= k < |got| && p in got[k].val {
      IsGood(QUEUE_STYLE, got, k);
      var x := First(got[k].itv);
      HoldsInside(QUEUE_STYLE, got, k, x);
      assert Holds(q, x, p);
    }
    if x :| want.lo <= x < want.up && Holds(q, x, p) {
      HoldsSome(got, x, p);
    }
  }

  lemma RunAppend(cfg: Config, events: seq<Event>, e: Event)
    ensures Run(cfg, events + [e]) == Next(cfg, Run(cfg, events), e)
  {
    assert (events + [e])[..|events|] == events;
  }

  lemma FlatAppend(pending: seq<Slot>, slot: Slot)
    ensures Flat(pending + [slot]) == Flat(pending) + HeldAt(slot.tend, slot.reqs)
  {
    FlatSplit(pending + [slot], |pending|);
    assert (pending + [slot])[..|pending|] == pending && (pending + [slot])[|pending|..] == [slot];
    assert Flat([slot][1..]) == [];
  }

  lemma AnswersGrow(sent: seq<Reply>, replies: seq<Reply>, pending: seq<Slot>, n: nat, q: Queue, now: Message,
                    before: Message)
    requires n < |pending| && SameWindow(now, before) && AllAnswered(sent, Flat(pending[..n]), q, before)
    requires AllAnswered(replies, HeldAt(pending[n].tend, pending[n].reqs), q, now)
    ensures AllAnswered(sent + replies, Flat(pending[..n + 1]), q, before)
  {
    var due := HeldAt(pending[n].tend, pending[n].reqs);
    FlatAppend(pending[..n], pending[n]);
    assert pending[..n + 1] == pending[..n] + [pending[n]];
    forall k | 0 <= k < |replies|
      ensures Answers(replies[k], due[k], q, before)
    {
      assert Answers(replies[k], due[k], q, now);
    }
  }

  /** Adding the span to the begin after its conversion makes no difference. */
  lemma EndAsSum(tstart: nat, tspan: nat)
    ensures ToInt64(tspan + ToUint64(ToInt64(tstart))) == WindowEnd(tstart, tspan)
  {
    var k := tstart / TWO_64;
    assert ToUint64(ToInt64(tstart)) == tstart - k * TWO_64;
    assert (tspan + tstart - k * TWO_64) % TWO_64 == (tspan + tstart) % TWO_64;
  }

  /** What a query does to the machine. */
  lemma QueryStep(cfg: Config, events: seq<Event>, client: nat, m: Message)
    requires WellTimed(events)
    ensures var all := events + [Event.Query(client, m.seqno, m.tstart, m.tspan, m.detmask)];
            var s, t := Run(cfg, events), Run(cfg, all);
            && WellTimed(all) && LastWindow(all) == (m.Beg(), m.End())
            && t.queue == s.queue
            && t.pending == if Judge(cfg, s.queue, m.detmask, m.Beg(), m.End()) != Delayed then s.pending
                            else PutPending(s.pending, m.End(), Request(client, m.detmask, m.Beg(), m.seqno))
  {
    RunAppend(cfg, events, Event.Query(client, m.seqno, m.tstart, m.tspan, m.detmask));
  }

  lemma {:induction false} FlatPut(pending: seq<Slot>, tend: int, req: Request)
    ensures forall h :: h in Flat(PutPending(pending, tend, req)) <==> h in Flat(pending) || h == Held(tend, req)
    decreases pending
  {
    var r := PutPending(pending, tend, req);
    if pending == [] || tend < pending[0].tend {
      assert r[1..] == pending && HeldAt(tend, [req]) == [Held(tend, req)];
    } else if tend == pending[0].tend {
      assert r[1..] == pending[1..];
      HeldAtAppend(tend, pending[0].reqs, req);
    } else {
      assert r[1..] == PutPending(pending[1..], tend, req);
      FlatPut(pending[1..], tend, req);
    }
  }

  /** The request is the last of those that wait for the queue to reach the tick. */
  ghost predicate WaitsLast(pending: seq<Slot>, tend: int, req: Request) {
    exists i :: 0 <= i < |pending| && pending[i].tend == tend && EndsWith(pending[i].reqs, req)
  }

  predicate EndsWith(reqs: seq<Request>, req: Request) { reqs != [] && reqs[|reqs| - 1] == req }

  lemma {:induction false} PutLast(pending: seq<Slot>, tend: int, req: Request)
    ensures WaitsLast(PutPending(pending, tend, req), tend, req)
    decreases pending
  {
    var r := PutPending(pending, tend, req);
    if pending == [] || tend <= pending[0].tend {
      assert EndsWith(r[0].reqs, req);
    } else {
      PutLast(pending[1..], tend, req);
      var i :| 0 <= i < |r[1..]| && r[1..][i].tend == tend && EndsWith(r[1..][i].reqs, req);
      assert r[1 + i] == r[1..][i];
    }
  }

  // ----- what the shared message does to held queries -----

  lemma IntactRest(pending: seq<Slot>, n: nat, before: Message, now: Message)
    requires SameWindow(now, before) && n <= |pending|
    ensures Intact(pending, before) ==> Intact(pending[n..], now)
  {
    FlatSplit(pending, n);
    assert forall h :: h in Flat(pending[n..]) ==> h in Flat(pending);
  }

  /** Of a query only its number and its window matter to the reply. */
  lemma RepliesToQuery(sent: seq<Reply>, client: nat, a: Message, b: Message, verdict: Verdict, q: Queue)
    requires SameWindow(a, b) && a.seqno == b.seqno
    ensures |sent| == 1 && Replies(sent[0], client, a, verdict, q) ==> Replies(sent[0], client, b, verdict, q)
  {
  }

  /** The reply by verdict is the one by the ticks of the queue. */
  lemma RepliesServe(sent: seq<Reply>, client: nat, m: Message, cfg: Config, q: Queue)
    requires Form(QUEUE_STYLE, q) && !(m.detmask == 0 && cfg.detmask & 1 == 1)
    requires var verdict := Judge(cfg, q, m.detmask, m.Beg(), m.End());
             if verdict == Delayed then sent == [] else |sent| == 1 && Replies(sent[0], client, m, verdict, q)
    ensures Serves(sent, client, m.seqno, m.Beg(), m.End(), q)
  {
    VerdictOverTicks(cfg, q, m.detmask, m.Beg(), m.End());
    BogusExactlyWhen(cfg, q, m.detmask, m.Beg(), m.End());
    if q != [] {
      EndsAreTight(q);
    }
  }

  lemma IntactAfter(pending: seq<Slot>, now: seq<Slot>, query: Message, message: Message, req: Request)
    requires SameWindow(message, query) && req.tstart == query.Beg()
    requires now == pending || now == PutPending(pending, query.End(), req)
    ensures Intact(now, message) <==> Intact(pending, query)
  {
    FlatPut(pending, query.End(), req);
  }

  /** Two queries that wait for different windows, of one client or of two, are never both
      intact. */
  lemma NeverBothIntact(pending: seq<Slot>, message: Message, h: Held, g: Held)
    requires h in Flat(pending) && g in Flat(pending)
    requires (h.req.tstart, h.tend) != (g.req.tstart, g.tend)
    ensures !Intact(pending, message)
  {
  }

  lemma DifferingTick(beg: int, end: int, otherBeg: int, otherEnd: int) returns (x: int)
    requires (beg < end || otherBeg < otherEnd) && (beg, end) != (otherBeg, otherEnd)
    ensures (beg <= x < end) != (otherBeg <= x < otherEnd)
  {
    x :=
      if end <= beg || (otherBeg < otherEnd && otherBeg < beg) then otherBeg
      else if otherEnd <= otherBeg || beg < otherBeg then beg
      else Max(end, otherEnd) - 1;
  }

  /** And the window matters: whatever the queue holds, the reply has the payload for the
      window that the held query asked for, if and only if that is the window of the
      message, or both are empty. */
  lemma PayloadIsRightExactlyWhen(h: Held, message: Message)
    ensures (forall q, reply :: Form(QUEUE_STYLE, q) && Answers(reply, h, q, message) ==>
               IsPayload(q, h.req.tstart, h.tend, reply.message.payload)) <==>
              AsksFor(message, h) || (h.tend <= h.req.tstart && message.End() <= message.Beg())
  {
    if !AsksFor(message, h) && (h.req.tstart < h.tend || message.Beg() < message.End()) {
      var x := DifferingTick(h.req.tstart, h.tend, message.Beg(), message.End());
      var p := Payload(0, 0, 1, 1);
      var q := [Seg(RightOpen(x, x + 1), {p})];
      var list := if message.Beg() <= x < message.End() then [p] else [];
      var reply := Result(h.req.client, message.(seqno := h.req.seqno, status := SUCCESS, payload := list));
      assert Holds(q, x, p);
      assert forall y, v :: Holds(q, y, v) ==> y == x && v == p;
      assert Answers(reply, h, q, message);
      assert p in list <==> !Meets(q, h.req.tstart, h.tend, p);
    }
  }

  /** Two clients wait, the first for [100, 200) and the second, which had nothing pending
      before, for [0, 50). */
  const TWO_CLIENTS := [Event.Query(1, 1, 100, 100, 1), Event.Query(2, 1, 0, 50, 1)]
  const WIDE := Config(1, 1000, 1000)
  const WANTED := Payload(1, 100, 100, 1)

  /** The reply that the first then gets, with success, lacks a message that came and
      fills its whole window: it is made for the window of the second. */
  lemma OtherClientMovesWindow(reply: Reply, message: Message)
    requires (message.Beg(), message.End()) == LastWindow(TWO_CLIENTS)
    requires Answers(reply, Held(200, Request(1, 1, 100, 1)), Slurped(WIDE, [], [WANTED]), message)
    ensures WIDE.Valid() && WellTimed(TWO_CLIENTS + [Ingest([WANTED])])
    ensures Held(200, Request(1, 1, 100, 1)) in Flat(Run(WIDE, TWO_CLIENTS).pending)
    ensures Run(WIDE, TWO_CLIENTS).queue == [] && 200 <= QueueEnd(Slurped(WIDE, [], [WANTED]))
    ensures Accepted(WANTED) in Run(WIDE, TWO_CLIENTS + [Ingest([WANTED])]).log && WANTED.Itv() == RightOpen(100, 200)
    ensures reply.message.status == 200 && WANTED !in reply.message.payload
  {
    TwoClientsWait();
    WantedCame();
    RunAppend(WIDE, TWO_CLIENTS, Ingest([WANTED]));
  }

  lemma WantedCame()
    ensures var q := Slurped(WIDE, [], [WANTED]);
            200 <= QueueEnd(q) && forall x :: Holds(q, x, WANTED) ==> 100 <= x < 200
    ensures Accepted(WANTED) in AcceptedOf(WIDE, [WANTED])
  {
    var q := Slurped(WIDE, [], [WANTED]);
    SlurpedHolds(WIDE, [], [WANTED]);
    CoversIfHolds(q, 199, WANTED);
    EndsAreTight(q);
    assert AcceptedOf(WIDE, [WANTED])[0] == Accepted(WANTED);
  }

  lemma TwoClientsWait()
    ensures Held(200, Request(1, 1, 100, 1)) in Flat(Run(WIDE, TWO_CLIENTS).pending)
    ensures Run(WIDE, TWO_CLIENTS).queue == [] && LastWindow(TWO_CLIENTS) == (0, 50)
  {
    assert TWO_CLIENTS[..1] == [TWO_CLIENTS[0]] && [TWO_CLIENTS[0]][..0] == [];
    var s := Run(WIDE, [TWO_CLIENTS[0]]);
    FlatPut([], 200, Request(1, 1, 100, 1));
    FlatPut(s.pending, 50, Request(2, 1, 0, 1));
  }

  // ----- replies to held queries over whole runs -----

  /** The reply to a held query lists exactly what is live in the window of the last query
      of the run, whoever asked that. */
  lemma HeldReplyOverRun(cfg: Config, events: seq<Event>, batch: seq<Payload>, h: Held, reply: Reply,
                         message: Message, p: Payload)
    requires cfg.Valid() && WellTimed(events + [Ingest(batch)]) && h in Flat(Run(cfg, events).pending)
    requires var q := Slurped(cfg, Run(cfg, events).queue, batch);
             h.tend <= QueueEnd(q) && Answers(reply, h, q, message)
    requires (message.Beg(), message.End()) == LastWindow(events)
    ensures var (log, window) := (Run(cfg, events).log + AcceptedOf(cfg, batch), LastWindow(events));
            multiset(reply.message.payload)[p] == if LiveIn(log, p, window.0, window.1) then 1 else 0
  {
    var all, k := events + [Ingest(batch)], |events|;
    var r := Release(h, 0, Slurped(cfg, Run(cfg, events).queue, batch));
    assert all[..k] == events;
    assert ReleasedBy(cfg, all, r, k);
    DelayedAnswer(cfg, all, r, k, message.Beg(), message.End(), reply.message.payload, p);
  }

  /** So if no query for another window came after it, from any client, it lists exactly
      the messages accepted by then that meet the window asked for, provided that the
      window is no longer than the low mark. */
  lemma HeldReplyIsComplete(cfg: Config, events: seq<Event>, batch: seq<Payload>, h: Held, reply: Reply,
                            message: Message, p: Payload)
    requires cfg.Valid() && WellTimed(events + [Ingest(batch)]) && h in Flat(Run(cfg, events).pending)
    requires var q := Slurped(cfg, Run(cfg, events).queue, batch);
             h.tend <= QueueEnd(q) && Answers(reply, h, q, message)
    requires (message.Beg(), message.End()) == LastWindow(events) == (h.req.tstart, h.tend)
    requires h.tend - h.req.tstart <= cfg.lwm
    ensures p in reply.message.payload <==>
              && Accepted(p) in Run(cfg, events + [Ingest(batch)]).log
              && Intersects(p.Itv(), RightOpen(h.req.tstart, h.tend))
  {
    var all, k := events + [Ingest(batch)], |events|;
    var r := Release(h, 0, Slurped(cfg, Run(cfg, events).queue, batch));
    assert all[..k] == events && all[..k + 1] == all;
    assert ReleasedBy(cfg, all, r, k);
    DelayedAnswerIsComplete(cfg, all, r, k, reply.message.payload, p);
  }

  /** What the documentation has for a query: partial content unless its window is inside
      the queue. */
  function DocumentedStatus(q: Queue, h: Held): nat {
    if QueueBeg(q) <= h.req.tstart && h.tend <= QueueEnd(q) then 200 else 206
  }

  /** The reply to a held query has the documented status if and only if the window that
      was asked for is inside the queue, */
  lemma HeldStatusExactlyWhen(reply: Reply, h: Held, q: Queue, message: Message)
    requires Answers(reply, h, q, message)
    ensures reply.message.status == DocumentedStatus(q, h) <==> QueueBeg(q) <= h.req.tstart && h.tend <= QueueEnd(q)
  {
  }

  /** that is, over every run, if and only if the queue that it was released from still
      reaches back to the begin of the window. */
  lemma ReleaseStatusExactlyWhen(cfg: Config, events: seq<Event>, r: Release, reply: Reply, message: Message)
    requires cfg.Valid() && WellTimed(events) && r in Run(cfg, events).released
    requires Answers(reply, r.query, r.queue, message)
    ensures reply.message.status == DocumentedStatus(r.queue, r.query) <==>
              QueueBeg(r.queue) <= r.query.req.tstart
  {
    HeldStatusExactlyWhen(reply, r.query, r.queue, message);
    var k := ReleaseHasStep(cfg, events, r);
  }
}
