/** Detector masks. */
module Masks {
  /** Whether two masks share a bit. */
  predicate Share(a: bv64, b: bv64) { a & b != 0 }

  /** They do if and only if not all bits of the one lie outside the other. */
  lemma ShareABit(a: bv64, b: bv64)
    ensures Share(a, b) <==> a & !b != a
  {
    if a & b == 0 {
      AllOutside(a, b);
    } else {
      SomeInside(a, b);
    }
  }

  lemma AllOutside(a: bv64, b: bv64)
    requires a & b == 0
    ensures a & !b == a
  {
  }

  lemma SomeInside(a: bv64, b: bv64)
    requires a & b != 0
    ensures a & !b != a
  {
    NothingOutside(a, b);
  }

  lemma NothingOutside(a: bv64, b: bv64)
    ensures (a & !b) & b == 0
  {
  }
}

/** The TP query service as a machine over its steps: ingest a batch, take a query. The
    state carries its history, so that what holds over whole runs can be said. */
module QueryService {
  import opened Intervals
  import opened Segments
  import opened Addition
  import opened Erasure
  import Masks

  // ----- machine integers -----

  const TWO_63: int := 0x8000_0000_0000_0000
  const TWO_64: int := 0x1_0000_0000_0000_0000

  /** Conversion to an unsigned 64-bit integer. */
  function ToUint64(n: int): nat { n % TWO_64 }

  /** Conversion to a signed 64-bit integer. */
  function ToInt64(n: int): int {
    var u := n % TWO_64;
    if u < TWO_63 then u else u - TWO_64
  }

  // ----- the queue -----

  /** A TPSet message as it is kept in the queue; `id` stands for the message's identity. */
  datatype Payload = Payload(id: nat, tstart: int, tspan: int, detid: bv64) {
    function Itv(): Interval { RightOpen(tstart, tstart + tspan) }

    /** No time before the epoch and no overflow. */
    predicate WellTimed() { 0 <= tstart && -TWO_63 <= tstart + tspan < TWO_63 }
  }

  type Queue = seq<Seg<Payload>>

  const QUEUE_STYLE := Style(true, true)

  datatype Config = Config(detmask: bv64, lwm: nat, hwm: nat) {
    predicate Valid() { 1 <= lwm <= hwm < TWO_63 }

    predicate Accepts(p: Payload) { Masks.Share(p.detid, detmask) }
  }

  /** A message is let in if and only if some bit of its detector id is in the mask. */
  lemma AcceptsSharedBit(cfg: Config, p: Payload)
    ensures cfg.Accepts(p) <==> p.detid & !cfg.detmask != p.detid
  {
    Masks.ShareABit(p.detid, cfg.detmask);
  }

  function QueueBeg(q: Queue): int { if q == [] then 1 else q[0].itv.lo }

  function QueueEnd(q: Queue): int { if q == [] then 0 else q[|q| - 1].itv.up }

  function Slurped(cfg: Config, q: Queue, batch: seq<Payload>): Queue
    decreases batch
  {
    if batch == [] then q
    else if !cfg.Accepts(batch[0]) then Slurped(cfg, q, batch[1..])
    else Slurped(cfg, Added(QUEUE_STYLE, q, batch[0].Itv(), {batch[0]}), batch[1..])
  }

  /** The signed span is compared with the unsigned mark after conversion. */
  predicate MustPurge(cfg: Config, q: Queue) { ToUint64(QueueEnd(q) - QueueBeg(q)) > cfg.hwm }

  function NewBeg(cfg: Config, q: Queue): int { ToInt64(ToUint64(QueueEnd(q)) - cfg.lwm) }

  function Purged(cfg: Config, q: Queue): Queue {
    if MustPurge(cfg, q) then Erased(q, RightOpen(0, NewBeg(cfg, q))) else q
  }

  // ----- pending queries -----

  datatype Request = Request(client: nat, detmask: bv64, tstart: int, seqno: nat)

  /** A query that was held, with the end of its interval. */
  datatype Held = Held(tend: int, req: Request)

  /** One entry of the pending map: the queries that end at a tick, in order of arrival. */
  datatype Slot = Slot(tend: int, reqs: seq<Request>)

  predicate PendingOk(pending: seq<Slot>) {
    && (forall i, j :: 0 <= i < j < |pending| ==> pending[i].tend < pending[j].tend)
    && (forall i :: 0 <= i < |pending| ==> pending[i].reqs != [])
  }

  /** `pending[tend].push_back(req)` on a map sorted by key. */
  function PutPending(pending: seq<Slot>, tend: int, req: Request): seq<Slot> {
    if pending == [] || tend < pending[0].tend then [Slot(tend, [req])] + pending
    else if tend == pending[0].tend then [Slot(tend, pending[0].reqs + [req])] + pending[1..]
    else [pending[0]] + PutPending(pending[1..], tend, req)
  }

  /** How many entries the release loop goes through. */
  function DueCount(pending: seq<Slot>, queueEnd: int): (n: nat)
    ensures n <= |pending|
  {
    if pending == [] || pending[0].tend > queueEnd then 0 else 1 + DueCount(pending[1..], queueEnd)
  }

  function HeldAt(tend: int, reqs: seq<Request>): seq<Held> {
    if reqs == [] then [] else [Held(tend, reqs[0])] + HeldAt(tend, reqs[1..])
  }

  /** The queries of the entries, in the order the release loop meets them. */
  function Flat(pending: seq<Slot>): seq<Held> {
    if pending == [] then [] else HeldAt(pending[0].tend, pending[0].reqs) + Flat(pending[1..])
  }

  // ----- queries -----

  datatype Verdict = Bogus | FullyLate | PartlyLate | Satisfied | Delayed

  /** The window a query message asks for, after the conversions of the handler. */
  function WindowBeg(tstart: nat): int { ToInt64(tstart) }

  function WindowEnd(tstart: nat, tspan: nat): int { ToInt64(tspan + tstart) }

  /** In numbers: begin and end are the two sums modulo 2^64, taken as signed. So the window
      is the one that was sent if it ends below 2^63. */
  lemma WindowInNumbers(tstart: nat, tspan: nat)
    ensures -0x8000_0000_0000_0000 <= WindowBeg(tstart) < 0x8000_0000_0000_0000
    ensures -0x8000_0000_0000_0000 <= WindowEnd(tstart, tspan) < 0x8000_0000_0000_0000
    ensures (tstart - WindowBeg(tstart)) % 0x1_0000_0000_0000_0000 == 0
    ensures (tstart + tspan - WindowEnd(tstart, tspan)) % 0x1_0000_0000_0000_0000 == 0
    ensures tstart + tspan < 0x8000_0000_0000_0000 ==>
              WindowBeg(tstart) == tstart && WindowEnd(tstart, tspan) == tstart + tspan
  {
    SignedResidue(tstart);
    SignedResidue(tspan + tstart);
  }

  lemma SignedResidue(n: nat)
    ensures (n - ToInt64(n)) % TWO_64 == 0
  {
    var k := n / TWO_64;
    assert n == k * TWO_64 + n % TWO_64;
    if n % TWO_64 < TWO_63 {
      MultipleOf(k);
    } else {
      MultipleOf(k + 1);
    }
  }

  lemma MultipleOf(k: int)
    ensures k * TWO_64 % TWO_64 == 0
  {
  }

  /** The negation binds tighter than the mask. */
  predicate MaskMismatch(want: bv64, detmask: bv64) { (if want == 0 then 1 else 0) & detmask != 0 }

  function Judge(cfg: Config, q: Queue, want: bv64, beg: int, end: int): Verdict {
    if MaskMismatch(want, cfg.detmask) then Bogus
    else if end <= QueueBeg(q) then FullyLate
    else if end <= QueueEnd(q) then
      if beg < QueueBeg(q) then PartlyLate else Satisfied
    else Delayed
  }

  /** Only queries with an empty mask are rejected, and those only by a server whose mask
      has its lowest bit. */
  lemma BogusExactlyWhen(cfg: Config, q: Queue, want: bv64, beg: int, end: int)
    ensures Judge(cfg, q, want, beg, end) == Bogus <==> want == 0 && cfg.detmask & 1 == 1
  {
    assert (if want == 0 then 1 else 0) & cfg.detmask == if want == 0 then cfg.detmask & 1 else 0;
  }

  /** What the documentation has rejected: a mask without a detector that the server covers. */
  predicate NotCovered(want: bv64, detmask: bv64) { want & detmask == 0 }

  /** The mask test rejects what the documentation has rejected exactly for covered masks,
      and for the empty one on a server whose mask has its lowest bit. */
  lemma MaskTestAsDocumented(cfg: Config, q: Queue, want: bv64, beg: int, end: int)
    ensures (Judge(cfg, q, want, beg, end) == Bogus <==> NotCovered(want, cfg.detmask)) <==>
              !NotCovered(want, cfg.detmask) || (want == 0 && cfg.detmask & 1 == 1)
  {
    BogusExactlyWhen(cfg, q, want, beg, end);
  }

  /** A mask that is not covered and not rejected, and one that is rejected. */
  lemma MaskTestWitnesses(q: Queue, beg: int, end: int)
    ensures NotCovered(2, 1) && Judge(Config(1, 1, 1), q, 2, beg, end) != Bogus
    ensures Judge(Config(1, 1, 1), q, 0, beg, end) == Bogus
  {
    BogusExactlyWhen(Config(1, 1, 1), q, 2, beg, end);
    BogusExactlyWhen(Config(1, 1, 1), q, 0, beg, end);
  }

  // ----- the machine -----

  /** What happened to the queue: a message accepted, everything from 0 to a tick purged. */
  datatype LogEntry = Accepted(p: Payload) | Erasure(newBeg: int)

  /** A delayed query that has been answered, the batch that did it, and the queue it was
      answered from. */
  datatype Release = Release(query: Held, batch: nat, queue: Queue)

  /** A batch, a query, or a query that is refused since the client has not said HELLO. */
  datatype Event =
    | Ingest(batch: seq<Payload>)
    | Query(client: nat, seqno: nat, tstart: nat, tspan: nat, detmask: bv64)
    | Refused(tstart: nat, tspan: nat)

  datatype State = State(
    queue: Queue,
    pending: seq<Slot>,
    log: seq<LogEntry>,
    held: seq<Held>,
    released: seq<Release>,
    batches: nat)

  const INITIAL := State([], [], [], [], [], 0)

  function AcceptedOf(cfg: Config, batch: seq<Payload>): seq<LogEntry> {
    if batch == [] then []
    else (if cfg.Accepts(batch[0]) then [Accepted(batch[0])] else []) + AcceptedOf(cfg, batch[1..])
  }

  function Releases(due: seq<Held>, batch: nat, queue: Queue): seq<Release> {
    seq(|due|, k requires 0 <= k < |due| => Release(due[k], batch, queue))
  }

  function AfterIngest(cfg: Config, s: State, batch: seq<Payload>): State {
    var q := Slurped(cfg, s.queue, batch);
    var n := DueCount(s.pending, QueueEnd(q));
    s.(queue := Purged(cfg, q),
       pending := s.pending[n..],
       log := s.log + AcceptedOf(cfg, batch) + if MustPurge(cfg, q) then [Erasure(NewBeg(cfg, q))] else [],
       released := s.released + Releases(Flat(s.pending[..n]), s.batches, q),
       batches := s.batches + 1)
  }

  function AfterQuery(cfg: Config, s: State, client: nat, seqno: nat, tstart: nat, tspan: nat, detmask: bv64): State {
    var beg, end := WindowBeg(tstart), WindowEnd(tstart, tspan);
    if Judge(cfg, s.queue, detmask, beg, end) != Delayed then s
    else
      var req := Request(client, detmask, beg, seqno);
      s.(pending := PutPending(s.pending, end, req), held := s.held + [Held(end, req)])
  }

  function Next(cfg: Config, s: State, e: Event): State {
    match e
    case Ingest(batch) => AfterIngest(cfg, s, batch)
    case Query(client, seqno, tstart, tspan, detmask) => AfterQuery(cfg, s, client, seqno, tstart, tspan, detmask)
    case Refused(tstart, tspan) => s
  }

  function Run(cfg: Config, events: seq<Event>): State {
    if events == [] then INITIAL else Next(cfg, Run(cfg, events[..|events| - 1]), events[|events| - 1])
  }

  /** The window of the last query, whoever asked it, refused or not. Before any query it
      is that of a message that is all zeros. */
  function LastWindow(events: seq<Event>): (int, int) {
    if events == [] then (0, 0)
    else
      match events[|events| - 1]
      case Query(client, seqno, tstart, tspan, detmask) => (WindowBeg(tstart), WindowEnd(tstart, tspan))
      case Refused(tstart, tspan) => (WindowBeg(tstart), WindowEnd(tstart, tspan))
      case Ingest(batch) => LastWindow(events[..|events| - 1])
  }

  /** Every message ever received has sane times. */
  predicate WellTimedBatch(batch: seq<Payload>) { forall p :: p in batch ==> p.WellTimed() }

  predicate WellTimed(events: seq<Event>) {
    forall e :: e in events && e.Ingest? ==> WellTimedBatch(e.batch)
  }
}
