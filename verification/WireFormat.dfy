/** The wire format octet by octet and what a message leaves with its receiver field by
    field, for each kind by its number: what the grammar of `Protocol` comes to. */
module WireFormat {
  import opened Octets
  import opened Protocol

  // ----- the first frame -----

  /** The number in the octets from a position on, most significant first. */
  function At2(b: Bytes, k: nat): bv16
    requires k + 2 <= |b|
  {
    (b[k] as bv16 << 8) + b[k + 1] as bv16
  }

  function At4(b: Bytes, k: nat): bv32
    requires k + 4 <= |b|
  {
    (b[k] as bv32 << 24) + (b[k + 1] as bv32 << 16) + (b[k + 2] as bv32 << 8) + b[k + 3] as bv32
  }

  function At8(b: Bytes, k: nat): bv64
    requires k + 8 <= |b|
  {
    (b[k] as bv64 << 56) + (b[k + 1] as bv64 << 48) + (b[k + 2] as bv64 << 40) + (b[k + 3] as bv64 << 32)
    + (b[k + 4] as bv64 << 24) + (b[k + 5] as bv64 << 16) + (b[k + 6] as bv64 << 8) + b[k + 7] as bv64
  }

  /** From a position on: the number of characters in one octet, then the characters. */
  predicate TextAt(b: Bytes, k: nat, text: Bytes) {
    k < |b| && b[k] as nat == |text| && k + 1 + |text| <= |b| && b[k + 1..k + 1 + |text|] == text
  }

  lemma Octets2(n: bv16, b: Bytes, k: nat)
    requires k + 2 <= |b| && b[k..k + 2] == Be2(n)
    ensures At2(b, k) == n
  {
    NumbersSurvive(n, 0, 0);
    forall i | 0 <= i < 2
      ensures b[k + i] == Be2(n)[i]
    {
      assert b[k + i] == b[k..k + 2][i];
    }
    assert At2(b, k) == FromBe2(Be2(n));
  }

  lemma Octets4(n: bv32, b: Bytes, k: nat)
    requires k + 4 <= |b| && b[k..k + 4] == Be4(n)
    ensures At4(b, k) == n
  {
    NumbersSurvive(0, n, 0);
    forall i | 0 <= i < 4
      ensures b[k + i] == Be4(n)[i]
    {
      assert b[k + i] == b[k..k + 4][i];
    }
    assert b[k] == Be4(n)[0];
    assert At4(b, k) == FromBe4(Be4(n));
  }

  lemma Octets8(n: bv64, b: Bytes, k: nat)
    requires k + 8 <= |b| && b[k..k + 8] == Be8(n)
    ensures At8(b, k) == n
  {
    NumbersSurvive(0, 0, n);
    forall i | 0 <= i < 8
      ensures b[k + i] == Be8(n)[i]
    {
      assert b[k + i] == b[k..k + 8][i];
    }
    assert b[k] == Be8(n)[0];
    assert At8(b, k) == FromBe8(Be8(n));
  }

  lemma OneFirst(f: Fields, k: Field, rest: seq<Field>)
    requires f.Valid()
    ensures PutFields(f, [k] + rest) == PutField(f, k) + PutFields(f, rest)
  {
    assert ([k] + rest)[1..] == rest;
  }

  /** Every frame opens with the two octets of the signature and the number of the kind. */
  lemma FrameOpens(c: Contents)
    requires 1 <= c.id <= 9 && c.fields.Valid()
    ensures var b := Head(c);
            |b| >= 3 && b[0] == 0xAA && b[1] == 0xA0 && b[2] as nat == c.id
    ensures 5 <= c.id <= 8 ==> |Head(c)| == 3
  {
    HeadOpens(c);
  }

  /** A query: sequence number, begin, span, mask and timeout, at these offsets. */
  lemma QueryFrame(c: Contents)
    requires c.id == 3 && c.fields.Valid()
    ensures var b := Head(c);
            && |b| == 35
            && At4(b, 3) == c.fields.seqno && At8(b, 7) == c.fields.tstart && At8(b, 15) == c.fields.tspan
            && At8(b, 23) == c.fields.detmask && At4(b, 31) == c.fields.timeout
  {
    var f, b := c.fields, Head(c);
    HeadOpens(c);
    QueryBody(f);
    var r := b[3..];
    Shifted(b, r, 0, 4);
    Shifted(b, r, 4, 12);
    Shifted(b, r, 12, 20);
    Shifted(b, r, 20, 28);
    Shifted(b, r, 28, 32);
    Octets4(f.seqno, b, 3);
    Octets8(f.tstart, b, 7);
    Octets8(f.tspan, b, 15);
    Octets8(f.detmask, b, 23);
    Octets4(f.timeout, b, 31);
  }

  lemma Shifted(b: Bytes, r: Bytes, i: nat, j: nat)
    requires 3 <= |b| && r == b[3..] && i <= j <= |r|
    ensures b[3 + i..3 + j] == r[i..j]
  {
    forall k | 0 <= k < j - i
      ensures b[3 + i..3 + j][k] == r[i..j][k]
    {
      assert b[3 + i..3 + j][k] == b[3 + (i + k)] && r[i..j][k] == r[i + k];
    }
  }

  lemma QueryBody(f: Fields)
    requires f.Valid()
    ensures var b := PutFields(f, Grammar(3));
            && |b| == 32 && b[..4] == Be4(f.seqno) && b[4..12] == Be8(f.tstart) && b[12..20] == Be8(f.tspan)
            && b[20..28] == Be8(f.detmask) && b[28..32] == Be4(f.timeout)
  {
    OneFirst(f, Seqno, [Tstart, Tspan, Detmask, Timeout]);
    OneFirst(f, Tstart, [Tspan, Detmask, Timeout]);
    OneFirst(f, Tspan, [Detmask, Timeout]);
    OneFirst(f, Detmask, [Timeout]);
    OneFirst(f, Timeout, []);
    assert [Seqno] + [Tstart, Tspan, Detmask, Timeout] == Grammar(3);
    assert [Tstart] + [Tspan, Detmask, Timeout] == [Tstart, Tspan, Detmask, Timeout];
    assert [Tspan] + [Detmask, Timeout] == [Tspan, Detmask, Timeout];
    assert [Detmask] + [Timeout] == [Detmask, Timeout];
    assert [Timeout] + [] == [Timeout];
    FiveParts(Be4(f.seqno), Be8(f.tstart), Be8(f.tspan), Be8(f.detmask), Be4(f.timeout));
  }

  lemma FiveParts(a: Bytes, b: Bytes, c: Bytes, d: Bytes, e: Bytes)
    requires |a| == 4 && |b| == 8 && |c| == 8 && |d| == 8 && |e| == 4
    ensures var r := a + (b + (c + (d + (e + []))));
            |r| == 32 && r[..4] == a && r[4..12] == b && r[12..20] == c && r[20..28] == d && r[28..32] == e
  {
  }

  /** A result: sequence number and status. */
  lemma ResultFrame(c: Contents)
    requires c.id == 4 && c.fields.Valid()
    ensures var b := Head(c);
            |b| == 9 && At4(b, 3) == c.fields.seqno && At2(b, 7) == c.fields.status
  {
    var f, b := c.fields, Head(c);
    HeadOpens(c);
    OneFirst(f, Seqno, [Status]);
    OneFirst(f, Status, []);
    assert [Seqno] + [Status] == [Seqno, Status] && [Status] + [] == [Status];
    assert b[3..] == Be4(f.seqno) + Be2(f.status);
    assert b[3..7] == Be4(f.seqno) by {
      assert b[3..7] == b[3..][..4];
    }
    assert b[7..9] == Be2(f.status) by {
      assert b[7..9] == b[3..][4..6];
    }
    Octets4(f.seqno, b, 3);
    Octets2(f.status, b, 7);
  }

  /** A greeting: the nickname. */
  lemma HelloFrame(c: Contents)
    requires c.id == 1 && c.fields.Valid()
    ensures var b := Head(c);
            |b| == 4 + |c.fields.nickname| && TextAt(b, 3, c.fields.nickname)
  {
    var b, text := Head(c), c.fields.nickname;
    HeadOpens(c);
    OneFirst(c.fields, Nickname, []);
    assert [Nickname] + [] == [Nickname];
    assert b[3..] == PutString(text);
    StringStands(b, 3, text);
  }

  /** The answer to it: the mask of the server. */
  lemma CoverageFrame(c: Contents)
    requires c.id == 2 && c.fields.Valid()
    ensures |Head(c)| == 11 && At8(Head(c), 3) == c.fields.detmask
  {
    var b := Head(c);
    HeadOpens(c);
    OneFirst(c.fields, Detmask, []);
    assert [Detmask] + [] == [Detmask];
    assert b[3..11] == b[3..] == Be8(c.fields.detmask);
    Octets8(c.fields.detmask, b, 3);
  }

  /** An error: status and reason. */
  lemma ErrorFrame(c: Contents)
    requires c.id == 9 && c.fields.Valid()
    ensures var b := Head(c);
            |b| == 6 + |c.fields.reason| && At2(b, 3) == c.fields.status && TextAt(b, 5, c.fields.reason)
  {
    var b, text := Head(c), c.fields.reason;
    HeadOpens(c);
    OneFirst(c.fields, Status, [Reason]);
    OneFirst(c.fields, Reason, []);
    assert [Status] + [Reason] == [Status, Reason] && [Reason] + [] == [Reason];
    assert b[3..] == Be2(c.fields.status) + PutString(text);
    assert b[3..5] == Be2(c.fields.status) by {
      assert b[3..5] == b[3..][..2];
    }
    assert b[5..] == PutString(text) by {
      assert b[5..] == b[3..][2..];
    }
    Octets2(c.fields.status, b, 3);
    StringStands(b, 5, text);
  }

  lemma StringStands(b: Bytes, k: nat, text: Bytes)
    requires k <= |b| && IsCString(text) && b[k..] == PutString(text)
    ensures |b| == k + 1 + |text| && TextAt(b, k, text)
  {
    CountSurvives(|text|);
    assert |b[k..]| == 1 + |text|;
    TextOf(b, k, |text|);
    BehindOne(|text| as bv8, text);
  }

  lemma BehindOne(n: Byte, text: Bytes)
    ensures ([n] + text)[1..1 + |text|] == text
  {
    var r := ([n] + text)[1..1 + |text|];
    forall i | 0 <= i < |text|
      ensures r[i] == text[i]
    {
      assert r[i] == ([n] + text)[1 + i];
    }
  }

  // ----- what the receiver is left with -----

  /** Which fields each kind sets, with the values of the sender; all others stay. */
  lemma ReceivedFields(c: Contents, d: Contents)
    requires 1 <= c.id <= 9 && c.fields.Valid()
    ensures var (code, now, left) := Received(d, false, Sent(c));
            && code == 0 && left == [] && now.id == c.id && now.routing == d.routing
            && now.fields ==
               if c.id == 1 then d.fields.(nickname := c.fields.nickname)
               else if c.id == 2 then d.fields.(detmask := c.fields.detmask)
               else if c.id == 3 then
                 d.fields.(seqno := c.fields.seqno, tstart := c.fields.tstart, tspan := c.fields.tspan,
                           detmask := c.fields.detmask, timeout := c.fields.timeout)
               else if c.id == 4 then d.fields.(seqno := c.fields.seqno, status := c.fields.status)
               else if c.id == 9 then d.fields.(status := c.fields.status, reason := c.fields.reason)
               else d.fields
  {
    SentIsReceived(c, d, [], []);
    assert Sent(c) + [] == Sent(c);
    QueryCopied(d.fields, c.fields);
    OthersCopied(d.fields, c.fields);
  }

  lemma CopiedFirst(f: Fields, g: Fields, k: Field, rest: seq<Field>)
    ensures CopiedAll(f, g, [k] + rest) == CopiedAll(Copied(f, g, k), g, rest)
  {
    assert ([k] + rest)[1..] == rest;
  }

  lemma OthersCopied(f: Fields, g: Fields)
    ensures CopiedAll(f, g, Grammar(1)) == f.(nickname := g.nickname)
    ensures CopiedAll(f, g, Grammar(2)) == f.(detmask := g.detmask)
    ensures CopiedAll(f, g, Grammar(4)) == f.(seqno := g.seqno, status := g.status)
    ensures CopiedAll(f, g, Grammar(9)) == f.(status := g.status, reason := g.reason)
  {
    assert [Nickname] + [] == [Nickname] && [Detmask] + [] == [Detmask];
    assert [Seqno] + [Status] == [Seqno, Status] && [Status] + [Reason] == [Status, Reason];
    assert [Status] + [] == [Status] && [Reason] + [] == [Reason];
    CopiedFirst(f, g, Nickname, []);
    CopiedFirst(f, g, Detmask, []);
    CopiedFirst(f, g, Seqno, [Status]);
    CopiedFirst(Copied(f, g, Seqno), g, Status, []);
    CopiedFirst(f, g, Status, [Reason]);
    CopiedFirst(Copied(f, g, Status), g, Reason, []);
  }

  lemma QueryCopied(f: Fields, g: Fields)
    ensures CopiedAll(f, g, Grammar(3)) ==
              f.(seqno := g.seqno, tstart := g.tstart, tspan := g.tspan, detmask := g.detmask, timeout := g.timeout)
  {
    var r := CopiedAll(f, g, Grammar(3));
    forall k
      ensures SameField(r, if k in Grammar(3) then g else f, k)
    {
      CopiedOrKept(f, g, Grammar(3), k);
    }
    assert SameField(r, g, Seqno) && SameField(r, g, Tstart) && SameField(r, g, Tspan) && SameField(r, g, Detmask)
           && SameField(r, g, Timeout);
    assert SameField(r, f, Nickname) && SameField(r, f, Status) && SameField(r, f, Reason);
  }

  /** A result carries its payload, frame by frame and in order; one without a payload is
      received with a single empty frame. Other kinds have one frame and no payload. */
  lemma ReceivedPayload(c: Contents, d: Contents)
    requires 1 <= c.id <= 9 && c.fields.Valid()
    ensures var now := Received(d, false, Sent(c)).1;
            now.payload ==
            if c.id != 4 then d.payload
            else if c.payload == None then Some([[]])
            else c.payload
  {
    SentIsReceived(c, d, [], []);
    assert Sent(c) + [] == Sent(c);
  }

  /** The frames that are sent: the first is the head, frame `1 + k` carries part `k` of the
      payload, and all but the last announce another one. */
  lemma SentFrames(c: Contents)
    requires 1 <= c.id <= 9 && c.fields.Valid()
    ensures var wire := Sent(c);
            && wire != [] && wire[0].data == Head(c)
            && (forall i :: 0 <= i < |wire| ==> (wire[i].more <==> i + 1 < |wire|))
            && (c.id != 4 ==> |wire| == 1)
            && (c.id == 4 && c.payload == None ==> |wire| == 2 && wire[1].data == [])
            && (c.id == 4 && c.payload != None ==>
                  && |wire| == 1 + |c.payload.value|
                  && forall k :: 0 <= k < |c.payload.value| ==> wire[1 + k].data == c.payload.value[k])
  {
    var parts := [Head(c)] + Tail(c);
    FlaggedAt(parts);
    assert forall k :: 0 <= k < |Tail(c)| ==> parts[1 + k] == Tail(c)[k];
  }

  lemma {:induction false} FlaggedAt(parts: seq<Bytes>)
    ensures |Flagged(parts)| == |parts|
    ensures forall i :: 0 <= i < |parts| ==> Flagged(parts)[i] == WireFrame(parts[i], i + 1 < |parts|)
    decreases parts
  {
    if parts != [] {
      FlaggedAt(parts[1..]);
    }
  }

  // ----- what a receiver accepts -----

  /** A first frame of one of the nine kinds with room for all its fields. */
  predicate Complete(b: Bytes) {
    && |b| >= 3 && b[0] == 0xAA && b[1] == 0xA0
    && (var id := b[2] as nat;
        if id == 1 then |b| >= 4 && |b| >= 4 + b[3] as nat
        else if id == 2 then |b| >= 11
        else if id == 3 then |b| >= 35
        else if id == 4 then |b| >= 9
        else if id == 9 then |b| >= 6 && |b| >= 6 + b[5] as nat
        else 5 <= id <= 8)
  }

  /** That is what the grammar asks for. */
  lemma WellFormedInOctets(b: Bytes)
    ensures WellFormed(b) <==> Complete(b)
  {
    if |b| >= 3 {
      assert FromBe2(b) == 0xAAA0 <==> b[0] == 0xAA && b[1] == 0xA0;
      var r := b[3..];
      EnoughQuery(r);
      EnoughOthers(r);
    }
  }

  lemma EnoughFirst(k: Field, rest: seq<Field>, b: Bytes)
    ensures Enough([k] + rest, b) <==> Width(k, b) <= |b| && Enough(rest, b[Width(k, b)..])
  {
    assert ([k] + rest)[1..] == rest;
  }

  lemma EnoughQuery(r: Bytes)
    ensures Enough(Grammar(3), r) <==> |r| >= 32
  {
    assert [Seqno] + [Tstart, Tspan, Detmask, Timeout] == Grammar(3);
    assert [Tstart] + [Tspan, Detmask, Timeout] == [Tstart, Tspan, Detmask, Timeout];
    EnoughFirst(Seqno, [Tstart, Tspan, Detmask, Timeout], r);
    if |r| >= 12 {
      EnoughFirst(Tstart, [Tspan, Detmask, Timeout], r[4..]);
      EnoughBehind(r[4..][8..]);
    } else if |r| >= 4 {
      EnoughFirst(Tstart, [Tspan, Detmask, Timeout], r[4..]);
    }
  }

  lemma EnoughBehind(r: Bytes)
    ensures Enough([Tspan, Detmask, Timeout], r) <==> |r| >= 20
  {
    assert [Tspan] + [Detmask, Timeout] == [Tspan, Detmask, Timeout];
    assert [Detmask] + [Timeout] == [Detmask, Timeout];
    EnoughFirst(Tspan, [Detmask, Timeout], r);
    if |r| >= 8 {
      EnoughFirst(Detmask, [Timeout], r[8..]);
    }
  }

  lemma EnoughOthers(r: Bytes)
    ensures Enough([Seqno, Status], r) <==> |r| >= 6
    ensures Enough([Status, Reason], r) <==> |r| >= 3 && |r| >= 3 + r[2] as nat
    ensures Enough([Nickname], r) <==> |r| >= 1 && |r| >= 1 + r[0] as nat
    ensures Enough([Detmask], r) <==> |r| >= 8
  {
    assert [Seqno] + [Status] == [Seqno, Status] && [Status] + [Reason] == [Status, Reason];
    EnoughFirst(Seqno, [Status], r);
    EnoughFirst(Status, [Reason], r);
  }

  /** The fields that a complete frame sets, from their octets. */
  function Read(f: Fields, b: Bytes): Fields
    requires Complete(b)
  {
    if b[2] == 1 then f.(nickname := UpToNul(b[4..4 + b[3] as nat]))
    else if b[2] == 2 then f.(detmask := At8(b, 3))
    else if b[2] == 3 then
      f.(seqno := At4(b, 3), tstart := At8(b, 7), tspan := At8(b, 15), detmask := At8(b, 23), timeout := At4(b, 31))
    else if b[2] == 4 then f.(seqno := At4(b, 3), status := At2(b, 7))
    else if b[2] == 9 then f.(status := At2(b, 3), reason := UpToNul(b[6..6 + b[5] as nat]))
    else f
  }

  /** What a complete frame leaves, whoever wrote it: its fields, and for a result the
      frames behind it. */
  lemma ReadInOctets(c: Contents, b: Bytes, more: bool, wire: seq<WireFrame>)
    requires Complete(b)
    ensures var (code, now, left) := Parsed(c, b, more, wire);
            && code == 0 && now.id == b[2] as nat && now.routing == c.routing && now.fields == Read(c.fields, b)
            && (b[2] != 4 ==> now.payload == c.payload && left == wire)
            && (b[2] == 4 && more ==> now.payload == Some(Delivered(wire).0) && left == Delivered(wire).1)
            && (b[2] == 4 && !more ==> now.payload == Some([]) && left == wire)
  {
    WellFormedInOctets(b);
    ReadIffEnough(c.fields, Grammar(b[2] as nat), b[3..]);
    FieldsRead(c.fields, b);
    assert FromBe2(b) == SIGNATURE;
  }

  lemma FieldsRead(f: Fields, b: Bytes)
    requires Complete(b)
    ensures GetFields(f, Grammar(b[2] as nat), b[3..]).0 == Read(f, b)
  {
    if b[2] == 1 {
      HelloRead(f, b);
    } else if b[2] == 2 {
      CoverageRead(f, b);
    } else if b[2] == 3 {
      QueryRead(f, b);
    } else if b[2] == 4 {
      ResultRead(f, b);
    } else if b[2] == 9 {
      ErrorRead(f, b);
    }
  }

  lemma ReadFirst(f: Fields, k: Field, rest: seq<Field>, b: Bytes)
    requires Width(k, b) <= |b|
    ensures GetFields(f, [k] + rest, b) == GetFields(GetField(f, k, b), rest, b[Width(k, b)..])
  {
    assert ([k] + rest)[1..] == rest;
  }

  lemma Inverse(b: Bytes, k: nat)
    requires k <= |b|
    ensures k + 4 <= |b| ==> Be4(At4(b, k)) == b[k..k + 4]
    ensures k + 8 <= |b| ==> Be8(At8(b, k)) == b[k..k + 8]
  {
  }

  lemma QueryRead(f: Fields, b: Bytes)
    requires Complete(b) && b[2] == 3
    ensures GetFields(f, Grammar(3), b[3..]).0 == Read(f, b)
  {
    var g := Fields([], At8(b, 23), At4(b, 3), At8(b, 7), At8(b, 15), At4(b, 31), 0, []);
    QueryIsBody(g, b);
    FieldsSurvive(f, g, Grammar(3), b[35..]);
    QueryCopied(f, g);
  }

  lemma QueryIsBody(g: Fields, b: Bytes)
    requires |b| >= 35 && g.Valid() && g.seqno == At4(b, 3) && g.tstart == At8(b, 7) && g.tspan == At8(b, 15)
    requires g.detmask == At8(b, 23) && g.timeout == At4(b, 31)
    ensures b[3..] == PutFields(g, Grammar(3)) + b[35..]
  {
    QueryBody(g);
    Inverse(b, 3);
    Inverse(b, 7);
    Inverse(b, 15);
    Inverse(b, 23);
    Inverse(b, 31);
    QuerySlices(b, PutFields(g, Grammar(3)));
  }

  lemma QuerySlices(b: Bytes, body: Bytes)
    requires |b| >= 35 && |body| == 32
    requires body[..4] == b[3..7] && body[4..12] == b[7..15] && body[12..20] == b[15..23]
    requires body[20..28] == b[23..31] && body[28..32] == b[31..35]
    ensures b[3..] == body + b[35..]
  {
    assert body == body[..4] + (body[4..12] + (body[12..20] + (body[20..28] + body[28..32])));
    assert b[3..] == b[3..7] + (b[7..15] + (b[15..23] + (b[23..31] + (b[31..35] + b[35..]))));
  }

  lemma CoverageRead(f: Fields, b: Bytes)
    requires |b| >= 11
    ensures GetFields(f, Grammar(2), b[3..]).0 == f.(detmask := At8(b, 3))
  {
    assert [Detmask] + [] == [Detmask];
    ReadFirst(f, Detmask, [], b[3..]);
  }

  lemma ResultRead(f: Fields, b: Bytes)
    requires |b| >= 9
    ensures GetFields(f, Grammar(4), b[3..]).0 == f.(seqno := At4(b, 3), status := At2(b, 7))
  {
    assert [Seqno] + [Status] == [Seqno, Status] && [Status] + [] == [Status];
    SeqnoFirst(f, [Status], b, 3);
    StatusFirst(f.(seqno := At4(b, 3)), [], b, 7);
  }

  lemma SeqnoFirst(f: Fields, rest: seq<Field>, b: Bytes, k: nat)
    requires |b| >= k + 4
    ensures GetFields(f, [Seqno] + rest, b[k..]) == GetFields(f.(seqno := At4(b, k)), rest, b[k + 4..])
  {
    ReadFirst(f, Seqno, rest, b[k..]);
    assert b[k..][4..] == b[k + 4..];
  }

  lemma HelloRead(f: Fields, b: Bytes)
    requires |b| >= 4 && |b| >= 4 + b[3] as nat
    ensures GetFields(f, Grammar(1), b[3..]).0 == f.(nickname := UpToNul(b[4..4 + b[3] as nat]))
  {
    assert [Nickname] + [] == [Nickname];
    TextOf(b, 3, b[3] as nat);
    ReadFirst(f, Nickname, [], b[3..]);
  }

  lemma ErrorRead(f: Fields, b: Bytes)
    requires |b| >= 6 && |b| >= 6 + b[5] as nat
    ensures GetFields(f, Grammar(9), b[3..]).0 == f.(status := At2(b, 3), reason := UpToNul(b[6..6 + b[5] as nat]))
  {
    assert [Status] + [Reason] == [Status, Reason];
    StatusFirst(f, [Reason], b, 3);
    ReasonLast(f.(status := At2(b, 3)), b, 5, b[5] as nat);
  }

  lemma StatusFirst(f: Fields, rest: seq<Field>, b: Bytes, k: nat)
    requires |b| >= k + 2
    ensures GetFields(f, [Status] + rest, b[k..]) == GetFields(f.(status := At2(b, k)), rest, b[k + 2..])
  {
    ReadFirst(f, Status, rest, b[k..]);
    assert b[k..][2..] == b[k + 2..];
  }

  lemma ReasonLast(f: Fields, b: Bytes, k: nat, n: nat)
    requires |b| >= k + 1 && b[k] as nat == n && |b| >= k + 1 + n
    ensures GetFields(f, [Reason], b[k..]).0 == f.(reason := UpToNul(b[k + 1..k + 1 + n]))
  {
    assert [Reason] + [] == [Reason];
    TextOf(b, k, n);
    ReadFirst(f, Reason, [], b[k..]);
  }

  lemma TextOf(b: Bytes, k: nat, n: nat)
    requires |b| >= k + 1 + n
    ensures b[k..][0] == b[k] && b[k..][1..1 + n] == b[k + 1..k + 1 + n]
  {
    var rest := b[k..];
    var text, same := rest[1..1 + n], b[k + 1..k + 1 + n];
    forall i | 0 <= i < n
      ensures text[i] == same[i]
    {
      assert text[i] == rest[1 + i] && same[i] == b[k + (1 + i)];
    }
  }

  /** The return code: -2 for a wrong signature or an unknown kind, if the frame reaches
      that far, and 0 otherwise, complete or not. */
  lemma CodeInOctets(c: Contents, b: Bytes, more: bool, wire: seq<WireFrame>)
    ensures Parsed(c, b, more, wire).0 ==
              if |b| >= 2 && (b[0] != 0xAA || b[1] != 0xA0) then -2
              else if |b| >= 3 && !(1 <= b[2] as nat <= 9) then -2
              else 0
  {
    if |b| >= 2 {
      assert FromBe2(b) == 0xAAA0 <==> b[0] == 0xAA && b[1] == 0xA0;
    }
  }

  /** Nothing to receive, or only the routing id of a sender: that is -1, and a router then
      knows no sender, or that one. */
  lemma NothingReceived(c: Contents, sender: Bytes, next: seq<WireFrame>)
    ensures Received(c, false, []) == (-1, c, []) && Received(c, true, []) == (-1, c.(routing := None), [])
    ensures Received(c, true, [WireFrame(sender, false)] + next) == (-1, c.(routing := Some(sender)), next)
  {
    assert ([WireFrame(sender, false)] + next)[1..] == next;
  }
}
