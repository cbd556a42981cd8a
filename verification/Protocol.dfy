/** Counts as octets. */
module Octets {
  lemma CountSurvives(n: nat)
    requires n <= 255
    ensures (n as bv8) as nat == n
  {
    SameOctet(n, (n as bv8) as nat);
  }

  lemma SameOctet(n: nat, m: nat)
    requires n <= 255 && m == (n as bv8) as nat
    ensures m == n
  {
    assert m < 256;
    assert m as bv8 == n as bv8;
  }
}

/** The wire protocol as its grammar gives it: for every message id the fields in order,
    each a number in network byte order or a counted string. The codec is proved
    against it. */
module Protocol {
  import opened Octets

  type Byte = bv8
  type Bytes = seq<Byte>

  datatype Option<T> = None | Some(value: T)

  const HELLO := 1
  const COVERAGE := 2
  const QUERY := 3
  const RESULT := 4
  const PING := 5
  const PONG := 6
  const GOODBYE := 7
  const GOODBYE_OK := 8
  const ERROR := 9

  const SIGNATURE: bv16 := 0xAAA0

  predicate Known(id: nat) { HELLO <= id <= ERROR }

  datatype Field = Nickname | Detmask | Seqno | Tstart | Tspan | Timeout | Status | Reason

  /** The grammar: which fields follow the id in the first frame. */
  function Grammar(id: nat): seq<Field> {
    if id == HELLO then [Nickname]
    else if id == COVERAGE then [Detmask]
    else if id == QUERY then [Seqno, Tstart, Tspan, Detmask, Timeout]
    else if id == RESULT then [Seqno, Status]
    else if id == ERROR then [Status, Reason]
    else []
  }

  /** The fields of a codec object; strings without their terminator. */
  datatype Fields = Fields(
    nickname: Bytes,
    detmask: bv64,
    seqno: bv32,
    tstart: bv64,
    tspan: bv64,
    timeout: bv32,
    status: bv16,
    reason: Bytes)
  {
    ghost predicate Valid() { IsCString(nickname) && IsCString(reason) }
  }

  /** A string as a fixed buffer of 256 characters can hold it. */
  ghost predicate IsCString(s: Bytes) { |s| <= 255 && 0 !in s }

  // ----- numbers -----

  function Be2(n: bv16): Bytes { [(n >> 8) as bv8, (n & 255) as bv8] }

  function Be4(n: bv32): Bytes {
    [(n >> 24) as bv8, ((n >> 16) & 255) as bv8, ((n >> 8) & 255) as bv8, (n & 255) as bv8]
  }

  function Be8(n: bv64): Bytes {
    [(n >> 56) as bv8, ((n >> 48) & 255) as bv8, ((n >> 40) & 255) as bv8, ((n >> 32) & 255) as bv8,
     ((n >> 24) & 255) as bv8, ((n >> 16) & 255) as bv8, ((n >> 8) & 255) as bv8, (n & 255) as bv8]
  }

  function FromBe2(b: Bytes): bv16
    requires |b| >= 2
  {
    (b[0] as bv16 << 8) + b[1] as bv16
  }

  function FromBe4(b: Bytes): bv32
    requires |b| >= 4
  {
    (b[0] as bv32 << 24) + (b[1] as bv32 << 16) + (b[2] as bv32 << 8) + b[3] as bv32
  }

  function FromBe8(b: Bytes): bv64
    requires |b| >= 8
  {
    (b[0] as bv64 << 56) + (b[1] as bv64 << 48) + (b[2] as bv64 << 40) + (b[3] as bv64 << 32)
    + (b[4] as bv64 << 24) + (b[5] as bv64 << 16) + (b[6] as bv64 << 8) + b[7] as bv64
  }

  lemma NumbersSurvive(n: bv16, m: bv32, k: bv64)
    ensures FromBe2(Be2(n)) == n && FromBe4(Be4(m)) == m && FromBe8(Be8(k)) == k
  {
  }

  lemma OnlyHeadCounts(b: Bytes, tail: Bytes)
    ensures |b| == 2 ==> FromBe2(b + tail) == FromBe2(b)
    ensures |b| == 4 ==> FromBe4(b + tail) == FromBe4(b)
    ensures |b| == 8 ==> FromBe8(b + tail) == FromBe8(b)
    ensures (b + tail)[|b|..] == tail
  {
  }

  lemma NumberSurvives(n: bv16, m: bv32, k: bv64, tail: Bytes)
    ensures FromBe2(Be2(n) + tail) == n && (Be2(n) + tail)[2..] == tail
    ensures FromBe4(Be4(m) + tail) == m && (Be4(m) + tail)[4..] == tail
    ensures FromBe8(Be8(k) + tail) == k && (Be8(k) + tail)[8..] == tail
  {
    NumbersSurvive(n, m, k);
    OnlyHeadCounts(Be2(n), tail);
    OnlyHeadCounts(Be4(m), tail);
    OnlyHeadCounts(Be8(k), tail);
  }

  // ----- strings -----

  /** What a C string holds: the bytes before the first zero. */
  function UpToNul(s: Bytes): Bytes {
    if s == [] || s[0] == 0 then [] else [s[0]] + UpToNul(s[1..])
  }

  lemma {:induction false} UpToNulIsPrefix(s: Bytes)
    ensures var r := UpToNul(s);
            |r| <= |s| && r == s[..|r|] && 0 !in r && (|r| < |s| ==> s[|r|] == 0)
  {
    if s != [] && s[0] != 0 {
      UpToNulIsPrefix(s[1..]);
    }
  }

  lemma {:induction false} NothingToCut(s: Bytes)
    requires 0 !in s
    ensures UpToNul(s) == s
  {
    if s != [] {
      assert s == [s[0]] + s[1..];
      NothingToCut(s[1..]);
    }
  }

  lemma {:induction false} CutAtTerminator(s: Bytes, tail: Bytes)
    ensures UpToNul(s + [0] + tail) == UpToNul(s)
  {
    if s != [] {
      assert (s + [0] + tail)[1..] == s[1..] + [0] + tail;
      CutAtTerminator(s[1..], tail);
    } else {
      assert s + [0] + tail == [0] + tail;
    }
  }

  function PutString(s: Bytes): Bytes
    requires |s| <= 255
  {
    [|s| as bv8] + s
  }

  // ----- fields -----

  function PutField(f: Fields, k: Field): Bytes
    requires |f.nickname| <= 255 && |f.reason| <= 255
  {
    match k
    case Nickname => PutString(f.nickname)
    case Detmask => Be8(f.detmask)
    case Seqno => Be4(f.seqno)
    case Tstart => Be8(f.tstart)
    case Tspan => Be8(f.tspan)
    case Timeout => Be4(f.timeout)
    case Status => Be2(f.status)
    case Reason => PutString(f.reason)
  }

  /** How many bytes the field takes at the head of the bytes; a string tells its own
      length in its first byte. */
  function Width(k: Field, b: Bytes): nat {
    match k
    case Nickname => if b == [] then 1 else 1 + b[0] as nat
    case Detmask => 8
    case Seqno => 4
    case Tstart => 8
    case Tspan => 8
    case Timeout => 4
    case Status => 2
    case Reason => if b == [] then 1 else 1 + b[0] as nat
  }

  function GetField(f: Fields, k: Field, b: Bytes): Fields
    requires Width(k, b) <= |b|
  {
    match k
    case Nickname => f.(nickname := UpToNul(b[1..Width(k, b)]))
    case Detmask => f.(detmask := FromBe8(b))
    case Seqno => f.(seqno := FromBe4(b))
    case Tstart => f.(tstart := FromBe8(b))
    case Tspan => f.(tspan := FromBe8(b))
    case Timeout => f.(timeout := FromBe4(b))
    case Status => f.(status := FromBe2(b))
    case Reason => f.(reason := UpToNul(b[1..Width(k, b)]))
  }

  function PutFields(f: Fields, ks: seq<Field>): Bytes
    requires |f.nickname| <= 255 && |f.reason| <= 255
  {
    if ks == [] then [] else PutField(f, ks[0]) + PutFields(f, ks[1..])
  }

  /** Read fields one after the other, into `f`, as far as the bytes reach. The second part
      is what follows the last of them, if all could be read. */
  function GetFields(f: Fields, ks: seq<Field>, b: Bytes): (Fields, Option<Bytes>)
    decreases ks
  {
    if ks == [] then (f, Some(b))
    else if Width(ks[0], b) > |b| then (f, None)
    else GetFields(GetField(f, ks[0], b), ks[1..], b[Width(ks[0], b)..])
  }

  /** Are there enough bytes for the fields? */
  predicate Enough(ks: seq<Field>, b: Bytes)
    decreases ks
  {
    ks == [] || (Width(ks[0], b) <= |b| && Enough(ks[1..], b[Width(ks[0], b)..]))
  }

  lemma {:induction false} ReadIffEnough(f: Fields, ks: seq<Field>, b: Bytes)
    ensures GetFields(f, ks, b).1.Some? <==> Enough(ks, b)
    decreases ks
  {
    if ks != [] && Width(ks[0], b) <= |b| {
      ReadIffEnough(GetField(f, ks[0], b), ks[1..], b[Width(ks[0], b)..]);
    }
  }

  /** `f` with the value that `g` has in one field. */
  function Copied(f: Fields, g: Fields, k: Field): Fields {
    match k
    case Nickname => f.(nickname := g.nickname)
    case Detmask => f.(detmask := g.detmask)
    case Seqno => f.(seqno := g.seqno)
    case Tstart => f.(tstart := g.tstart)
    case Tspan => f.(tspan := g.tspan)
    case Timeout => f.(timeout := g.timeout)
    case Status => f.(status := g.status)
    case Reason => f.(reason := g.reason)
  }

  function CopiedAll(f: Fields, g: Fields, ks: seq<Field>): Fields
    decreases ks
  {
    if ks == [] then f else CopiedAll(Copied(f, g, ks[0]), g, ks[1..])
  }

  lemma StringSurvives(s: Bytes, tail: Bytes)
    requires IsCString(s)
    ensures var b := PutString(s) + tail;
            && b != [] && b[0] as nat == |s| && b[1 + |s|..] == tail && UpToNul(b[1..1 + |s|]) == s
  {
    var b := PutString(s) + tail;
    CountSurvives(|s|);
    assert b[1..1 + |s|] == s;
    NothingToCut(s);
  }

  lemma FieldSurvives(f: Fields, g: Fields, k: Field, tail: Bytes)
    requires g.Valid()
    ensures var b := PutField(g, k) + tail;
            && Width(k, b) == |PutField(g, k)| && GetField(f, k, b) == Copied(f, g, k)
            && b[Width(k, b)..] == tail
  {
    match k {
      case Nickname => StringSurvives(g.nickname, tail);
      case Reason => StringSurvives(g.reason, tail);
      case Detmask => NumberSurvives(0, 0, g.detmask, tail);
      case Seqno => NumberSurvives(0, g.seqno, 0, tail);
      case Tstart => NumberSurvives(0, 0, g.tstart, tail);
      case Tspan => NumberSurvives(0, 0, g.tspan, tail);
      case Timeout => NumberSurvives(0, g.timeout, 0, tail);
      case Status => NumberSurvives(g.status, 0, 0, tail);
    }
  }

  /** Reading what was written gives back the fields of the grammar, leaves the others
      alone, and consumes exactly what was written. */
  lemma {:induction false} FieldsSurvive(f: Fields, g: Fields, ks: seq<Field>, tail: Bytes)
    requires g.Valid()
    ensures GetFields(f, ks, PutFields(g, ks) + tail) == (CopiedAll(f, g, ks), Some(tail))
    decreases ks
  {
    if ks == [] {
      assert PutFields(g, ks) + tail == tail;
    } else {
      var rest := PutFields(g, ks[1..]) + tail;
      assert PutFields(g, ks) + tail == PutField(g, ks[0]) + rest;
      FieldSurvives(f, g, ks[0], rest);
      FieldsSurvive(Copied(f, g, ks[0]), g, ks[1..], tail);
    }
  }

  /** A proper prefix of what was written is not enough to read. */
  lemma {:induction false} PrefixIsNotEnough(g: Fields, ks: seq<Field>, n: nat)
    requires g.Valid() && n < |PutFields(g, ks)|
    ensures !Enough(ks, PutFields(g, ks)[..n])
    decreases ks
  {
    var head, rest := PutField(g, ks[0]), PutFields(g, ks[1..]);
    var b := PutFields(g, ks)[..n];
    FieldSurvives(g, g, ks[0], rest);
    if |head| <= n {
      assert b == head + rest[..n - |head|];
      FieldSurvives(g, g, ks[0], rest[..n - |head|]);
      PrefixIsNotEnough(g, ks[1..], n - |head|);
    }
  }

  predicate SameField(f: Fields, g: Fields, k: Field) {
    match k
    case Nickname => f.nickname == g.nickname
    case Detmask => f.detmask == g.detmask
    case Seqno => f.seqno == g.seqno
    case Tstart => f.tstart == g.tstart
    case Tspan => f.tspan == g.tspan
    case Timeout => f.timeout == g.timeout
    case Status => f.status == g.status
    case Reason => f.reason == g.reason
  }

  lemma {:induction false} CopiedOrKept(f: Fields, g: Fields, ks: seq<Field>, k: Field)
    ensures SameField(CopiedAll(f, g, ks), if k in ks then g else f, k)
    decreases ks
  {
    if ks != [] {
      CopiedOrKept(Copied(f, g, ks[0]), g, ks[1..], k);
      OneCopied(f, g, CopiedAll(f, g, ks), ks[0], k);
      assert k in ks <==> k == ks[0] || k in ks[1..];
    }
  }

  lemma OneCopied(f: Fields, g: Fields, r: Fields, c: Field, k: Field)
    ensures SameField(r, Copied(f, g, c), k) ==> SameField(r, if k == c then g else f, k)
  {
  }

  // ----- messages -----

  /** All that a codec object holds of a message. */
  datatype Contents = Contents(id: nat, fields: Fields, payload: Option<seq<Bytes>>, routing: Option<Bytes>)

  /** The first frame: signature, id, fields. */
  function Head(c: Contents): Bytes
    requires |c.fields.nickname| <= 255 && |c.fields.reason| <= 255
  {
    Be2(SIGNATURE) + [(c.id % 256) as bv8] + PutFields(c.fields, Grammar(c.id))
  }

  /** The frames behind it. A result without a payload has one empty frame. */
  function Tail(c: Contents): seq<Bytes> {
    if c.id != RESULT then [] else if c.payload.None? then [[]] else c.payload.value
  }

  datatype WireFrame = WireFrame(data: Bytes, more: bool)

  /** Frames as they go out: every one but the last announces another. */
  function Flagged(parts: seq<Bytes>): seq<WireFrame> {
    if parts == [] then [] else [WireFrame(parts[0], |parts| > 1)] + Flagged(parts[1..])
  }

  /** Receiving what is left of a message: the frames up to the first that announces no
      other, and what stays in the socket. */
  function Delivered(wire: seq<WireFrame>): (seq<Bytes>, seq<WireFrame>) {
    if wire == [] then ([], [])
    else if !wire[0].more then ([wire[0].data], wire[1..])
    else
      var (parts, rest) := Delivered(wire[1..]);
      ([wire[0].data] + parts, rest)
  }

  lemma {:induction false} FlaggedIsOneMessage(parts: seq<Bytes>, next: seq<WireFrame>)
    requires parts != []
    ensures Delivered(Flagged(parts) + next) == (parts, next)
  {
    assert Flagged(parts) + next == [WireFrame(parts[0], |parts| > 1)] + (Flagged(parts[1..]) + next);
    if |parts| > 1 {
      FlaggedIsOneMessage(parts[1..], next);
      assert parts == [parts[0]] + parts[1..];
    } else {
      assert parts == [parts[0]] && Flagged(parts[1..]) + next == next;
    }
  }

  const OK := 0
  const INTERRUPTED := -1
  const MALFORMED := -2

  /** What a call that receives leaves: its return code, the codec object, and the frames
      that are still in the socket. */
  type Outcome = (int, Contents, seq<WireFrame>)

  /** Reading what follows the id. Only a result takes the frames behind the first one out
      of the socket. */
  function ParsedBody(c: Contents, b: Bytes, more: bool, wire: seq<WireFrame>): Outcome {
    if !Known(c.id) then (MALFORMED, c, wire)
    else
      var (fields, rest) := GetFields(c.fields, Grammar(c.id), b);
      if c.id == RESULT && rest.Some? then
        var (payload, left) := if more then Delivered(wire) else ([], wire);
        (OK, c.(fields := fields, payload := Some(payload)), left)
      else (OK, c.(fields := fields), wire)
  }

  /** Reading a message from its first frame, with the frames behind it still in the socket.
      A frame that ends too early is given up with what was read so far, and with return
      code 0. */
  function Parsed(c: Contents, b: Bytes, more: bool, wire: seq<WireFrame>): Outcome {
    if |b| < 2 then (OK, c, wire)
    else if FromBe2(b) != SIGNATURE then (MALFORMED, c, wire)
    else if |b| < 3 then (OK, c, wire)
    else ParsedBody(c.(id := b[2] as nat), b[3..], more, wire)
  }

  /** Receiving a message; a router socket puts the routing id of the sender in front. */
  function Received(c: Contents, router: bool, wire: seq<WireFrame>): Outcome
    decreases router
  {
    if router then
      if wire == [] then (INTERRUPTED, c.(routing := None), wire)
      else if !wire[0].more then (INTERRUPTED, c.(routing := Some(wire[0].data)), wire[1..])
      else Received(c.(routing := Some(wire[0].data)), false, wire[1..])
    else if wire == [] then (INTERRUPTED, c, wire)
    else Parsed(c, wire[0].data, wire[0].more, wire[1..])
  }

  /** What a receiver holds after the message of `c`. */
  function AfterMessage(c: Contents, d: Contents): Contents {
    d.(id := c.id,
       fields := CopiedAll(d.fields, c.fields, Grammar(c.id)),
       payload := if c.id == RESULT then Some(Tail(c)) else d.payload)
  }

  // ----- the main results -----

  /** Round trip: what was sent comes back, for each of the nine kinds. The receiver gets
      the fields of that kind, keeps its others, gets the payload frames in order, and
      leaves the frames of the next message alone. */
  lemma RoundTrip(c: Contents, d: Contents, next: seq<WireFrame>)
    requires Known(c.id) && c.fields.Valid()
    ensures Parsed(d, Head(c), Tail(c) != [], Flagged(Tail(c)) + next) == (OK, AfterMessage(c, d), next)
  {
    var b := Head(c);
    HeadOpens(c);
    FieldsSurvive(d.fields, c.fields, Grammar(c.id), []);
    assert PutFields(c.fields, Grammar(c.id)) + [] == b[3..];
    if Tail(c) != [] {
      FlaggedIsOneMessage(Tail(c), next);
    } else {
      assert Flagged(Tail(c)) + next == next;
    }
  }

  lemma HeadOpens(c: Contents)
    requires Known(c.id) && c.fields.Valid()
    ensures |Head(c)| >= 3 && FromBe2(Head(c)) == SIGNATURE && Head(c)[2] as nat == c.id
    ensures Head(c)[3..] == PutFields(c.fields, Grammar(c.id))
  {
    CountSurvives(c.id);
    NumbersSurvive(SIGNATURE, 0, 0);
    var rest := [(c.id % 256) as bv8] + PutFields(c.fields, Grammar(c.id));
    OnlyHeadCounts(Be2(SIGNATURE), rest);
    assert Head(c) == Be2(SIGNATURE) + rest;
  }

  /** The frames that one object sends. */
  function Sent(c: Contents): seq<WireFrame>
    requires |c.fields.nickname| <= 255 && |c.fields.reason| <= 255
  {
    Flagged([Head(c)] + Tail(c))
  }

  /** From one object's send to another's receive, within a stream of messages: receiving
      restores the message and takes exactly its frames out of the socket. A router socket
      has put the sender's routing id in front. */
  lemma SentIsReceived(c: Contents, d: Contents, sender: Bytes, next: seq<WireFrame>)
    requires Known(c.id) && c.fields.Valid()
    ensures Received(d, false, Sent(c) + next) == (OK, AfterMessage(c, d), next)
    ensures Received(d, true, [WireFrame(sender, true)] + Sent(c) + next) ==
              (OK, AfterMessage(c, d).(routing := Some(sender)), next)
  {
    var parts := [Head(c)] + Tail(c);
    assert parts[1..] == Tail(c);
    assert (Sent(c) + next)[1..] == Flagged(Tail(c)) + next;
    assert ([WireFrame(sender, true)] + Sent(c) + next)[1..] == Sent(c) + next;
    RoundTrip(c, d, next);
    RoundTrip(c, d.(routing := Some(sender)), next);
  }

  ghost predicate Sendable(cs: seq<Contents>) {
    forall c :: c in cs ==> Known(c.id) && c.fields.Valid()
  }

  function SentAll(cs: seq<Contents>): seq<WireFrame>
    requires Sendable(cs)
  {
    if cs == [] then [] else Sent(cs[0]) + SentAll(cs[1..])
  }

  /** What the same object holds after each of so many calls, if all of them succeed. */
  function ReceivedAll(d: Contents, n: nat, wire: seq<WireFrame>): Option<(seq<Contents>, seq<WireFrame>)>
    decreases n
  {
    if n == 0 then Some(([], wire))
    else
      var (code, now, left) := Received(d, false, wire);
      var rest := ReceivedAll(now, n - 1, left);
      if code != OK || rest.None? then None else Some(([now] + rest.value.0, rest.value.1))
  }

  function AfterEach(cs: seq<Contents>, d: Contents): seq<Contents>
    decreases cs
  {
    if cs == [] then [] else [AfterMessage(cs[0], d)] + AfterEach(cs[1..], AfterMessage(cs[0], d))
  }

  /** A whole stream: as many calls as there are messages restore them one by one, in
      order, and leave behind exactly what came after them. */
  lemma {:induction false} StreamIsReceived(cs: seq<Contents>, d: Contents, next: seq<WireFrame>)
    requires Sendable(cs)
    ensures ReceivedAll(d, |cs|, SentAll(cs) + next) == Some((AfterEach(cs, d), next))
    decreases cs
  {
    if cs == [] {
      assert SentAll(cs) + next == next;
    } else {
      var rest := SentAll(cs[1..]) + next;
      assert SentAll(cs) + next == Sent(cs[0]) + rest;
      assert Received(d, false, Sent(cs[0]) + rest) == (OK, AfterMessage(cs[0], d), rest) by {
        SentIsReceived(cs[0], d, [], rest);
      }
      StreamIsReceived(cs[1..], AfterMessage(cs[0], d), next);
    }
  }

  /** Is the frame too short for what it announces to be? */
  predicate TooShort(b: Bytes) {
    || |b| < 2
    || (FromBe2(b) == SIGNATURE && (|b| < 3 || (Known(b[2] as nat) && !Enough(Grammar(b[2] as nat), b[3..]))))
  }

  /** The frame follows the grammar, bytes behind the last field aside. */
  predicate WellFormed(b: Bytes) {
    |b| >= 3 && FromBe2(b) == SIGNATURE && Known(b[2] as nat) && Enough(Grammar(b[2] as nat), b[3..])
  }

  /** The return code is what its documentation says, 0 for a message received and -2 for
      one that is malformed, unless the frame is too short: then it is 0 as well. */
  lemma CodeIsAsDocumented(c: Contents, b: Bytes, more: bool, wire: seq<WireFrame>)
    ensures Parsed(c, b, more, wire).0 == (if WellFormed(b) then OK else MALFORMED) <==> !TooShort(b)
    ensures TooShort(b) ==> Parsed(c, b, more, wire).0 == OK
  {
  }

  /** So cutting a message short anywhere goes unnoticed. */
  lemma TruncationGoesUnnoticed(c: Contents, d: Contents, n: nat, more: bool, wire: seq<WireFrame>)
    requires Known(c.id) && c.fields.Valid() && n < |Head(c)|
    ensures var (code, now, left) := Parsed(d, Head(c)[..n], more, wire);
            code == OK && now.payload == d.payload && left == wire
    ensures TooShort(Head(c)[..n])
  {
    var b := Head(c)[..n];
    HeadOpens(c);
    if n >= 2 {
      assert FromBe2(b) == FromBe2(Head(c));
    }
    if n >= 3 {
      assert b[3..] == PutFields(c.fields, Grammar(c.id))[..n - 3];
      PrefixIsNotEnough(c.fields, Grammar(c.id), n - 3);
      ReadIffEnough(d.fields, Grammar(c.id), b[3..]);
    }
  }

  /** A call takes a whole message out of the socket if and only if its first frame stands
      alone, or is that of a result with all its fields. Otherwise the frames behind the
      first stay, and the next call takes them for a message. */
  lemma StaysInStepExactlyWhen(c: Contents, wire: seq<WireFrame>)
    requires wire != []
    ensures Received(c, false, wire).2 == Delivered(wire).1 <==>
              || |wire| == 1 || !wire[0].more
              || (WellFormed(wire[0].data) && wire[0].data[2] as nat == RESULT)
  {
    var b := wire[0].data;
    DeliveredTakes(wire[1..]);
    if |b| >= 3 {
      ReadIffEnough(c.fields, Grammar(b[2] as nat), b[3..]);
    }
  }

  lemma {:induction false} DeliveredTakes(wire: seq<WireFrame>)
    ensures wire != [] ==> |Delivered(wire).1| < |wire|
  {
    if wire != [] && wire[0].more {
      DeliveredTakes(wire[1..]);
    }
  }
}
