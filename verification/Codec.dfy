/** The codec object: it writes a message into frames and reads one back, with a needle
    that moves over the first frame. Proved against the grammar in `Protocol`. */
module Codecs {
  import opened Protocol
  import opened WireFormat

  /** How much the fields of each kind of message take. */
  lemma BodySizes(f: Fields)
    requires |f.nickname| <= 255 && |f.reason| <= 255
    ensures |PutFields(f, Grammar(HELLO))| == 1 + |f.nickname|
    ensures |PutFields(f, Grammar(COVERAGE))| == 8
    ensures |PutFields(f, Grammar(QUERY))| == 4 + 8 + 8 + 8 + 4
    ensures |PutFields(f, Grammar(RESULT))| == 4 + 2
    ensures |PutFields(f, Grammar(ERROR))| == 2 + 1 + |f.reason|
  {
    SizeOfFirst(f, [Nickname], []);
    SizeOfFirst(f, [Detmask], []);
    SizeOfFirst(f, [Seqno, Status], [Status]);
    SizeOfFirst(f, [Status], []);
    SizeOfFirst(f, [Status, Reason], [Reason]);
    SizeOfFirst(f, [Reason], []);
    SizeOfFirst(f, [Seqno, Tstart, Tspan, Detmask, Timeout], [Tstart, Tspan, Detmask, Timeout]);
    SizeOfFirst(f, [Tstart, Tspan, Detmask, Timeout], [Tspan, Detmask, Timeout]);
    SizeOfFirst(f, [Tspan, Detmask, Timeout], [Detmask, Timeout]);
    SizeOfFirst(f, [Detmask, Timeout], [Timeout]);
    SizeOfFirst(f, [Timeout], []);
  }

  lemma SizeOfFirst(f: Fields, ks: seq<Field>, rest: seq<Field>)
    requires |f.nickname| <= 255 && |f.reason| <= 255 && ks != [] && rest == ks[1..]
    ensures |PutFields(f, ks)| == FieldSize(f, ks[0]) + |PutFields(f, rest)|
  {
    SizeOfField(f, ks[0]);
    assert PutFields(f, ks) == PutField(f, ks[0]) + PutFields(f, rest);
  }

  lemma SizeOfField(f: Fields, k: Field)
    requires |f.nickname| <= 255 && |f.reason| <= 255
    ensures |PutField(f, k)| == FieldSize(f, k)
  {
  }

  function FieldSize(f: Fields, k: Field): nat {
    match k
    case Nickname => 1 + |f.nickname|
    case Reason => 1 + |f.reason|
    case Detmask => 8
    case Tstart => 8
    case Tspan => 8
    case Seqno => 4
    case Timeout => 4
    case Status => 2
  }

  /** Reading the fields into `c` from the bytes comes out as `d`, and all could be read. */
  ghost predicate ReadsAs(c: Contents, ks: seq<Field>, b: Bytes, d: Contents, ok: bool) {
    var (fields, rest) := GetFields(c.fields, ks, b);
    d == c.(fields := fields) && (ok <==> rest.Some?)
  }

  /** Reading one field does what the grammar says, or changes no field. */
  ghost predicate StepAs(c: Contents, k: Field, b: Bytes, d: Contents, rest: Bytes, ok: bool) {
    if Width(k, b) <= |b| then ok && d == c.(fields := GetField(c.fields, k, b)) && rest == b[Width(k, b)..]
    else !ok && d == c
  }

  /** Reading `ks` into `c` goes on as reading `rest` into `d`. */
  ghost predicate Leads(c: Contents, ks: seq<Field>, b: Bytes, d: Contents, rest: seq<Field>, left: Bytes) {
    d == c.(fields := d.fields) && GetFields(c.fields, ks, b) == GetFields(d.fields, rest, left)
  }

  /** One step of reading a message. */
  lemma Stepped(c0: Contents, all: seq<Field>, b0: Bytes, c: Contents, ks: seq<Field>, b: Bytes, d: Contents,
                rest: Bytes, ok: bool)
    requires Leads(c0, all, b0, c, ks, b) && ks != [] && StepAs(c, ks[0], b, d, rest, ok)
    ensures ok ==> Leads(c0, all, b0, d, ks[1..], rest)
    ensures !ok ==> ReadsAs(c0, all, b0, d, false)
  {
  }

  /** A fixed buffer that holds a C string. */
  ghost predicate HoldsString(buf: array<Byte>)
    reads buf
  {
    buf.Length == 256 && |UpToNul(buf[..])| < 256
  }

  /** `strlen`. */
  method StrLen(host: array<Byte>) returns (n: nat)
    requires HoldsString(host)
    ensures n == |UpToNul(host[..])|
  {
    UpToNulIsPrefix(host[..]);
    n := 0;
    while host[n] != 0
      invariant n <= |UpToNul(host[..])|
      decreases 256 - n
    {
      n := n + 1;
    }
  }

  class Codec {
    var id: nat
    /** The data of the frame at hand. */
    var buffer: array<Byte>
    var needle: nat
    var ceiling: nat
    const nickname: array<Byte>
    var detmask: bv64
    var seqno: bv32
    var tstart: bv64
    var tspan: bv64
    var timeout: bv32
    var status: bv16
    var payload: Option<seq<Bytes>>
    const reason: array<Byte>
    var routing: Option<Bytes>

    ghost predicate Valid()
      reads this`buffer, nickname, reason
    {
      && nickname != reason && buffer != nickname && buffer != reason
      && HoldsString(nickname) && HoldsString(reason)
    }

    /** The message in the fields. */
    ghost function View(): Contents
      reads this`id, this`detmask, this`seqno, this`tstart, this`tspan, this`timeout, this`status, this`payload
      reads this`routing, nickname, reason
    {
      Contents(id,
               Fields(UpToNul(nickname[..]), detmask, seqno, tstart, tspan, timeout, status, UpToNul(reason[..])),
               payload, routing)
    }

    constructor ()
      ensures Valid() && fresh(nickname) && fresh(reason) && fresh(buffer)
      ensures View() == Contents(0, Fields([], 0, 0, 0, 0, 0, 0, []), None, None)
    {
      id, needle, ceiling := 0, 0, 0;
      detmask, seqno, tstart, tspan, timeout, status := 0, 0, 0, 0, 0, 0;
      payload, routing := None, None;
      buffer := new Byte[0];
      nickname := new Byte[256](_ => 0);
      reason := new Byte[256](_ => 0);
    }

    // ----- writing -----

    method PutOctets(host: Bytes)
      requires needle + |host| <= buffer.Length
      modifies this`needle, buffer
      ensures needle == old(needle) + |host| && buffer[..needle] == old(buffer[..needle]) + host
    {
      forall i | 0 <= i < |host| {
        buffer[needle + i] := host[i];
      }
      needle := needle + |host|;
    }

    method PutNumber1(host: Byte)
      requires needle + 1 <= buffer.Length
      modifies this`needle, buffer
      ensures needle == old(needle) + 1 && buffer[..needle] == old(buffer[..needle]) + [host]
    {
      buffer[needle] := host;
      needle := needle + 1;
    }

    method PutNumber2(host: bv16)
      requires needle + 2 <= buffer.Length
      modifies this`needle, buffer
      ensures needle == old(needle) + 2 && buffer[..needle] == old(buffer[..needle]) + Be2(host)
    {
      PutOctets([((host >> 8) & 255) as Byte, (host & 255) as Byte]);
    }

    method PutNumber4(host: bv32)
      requires needle + 4 <= buffer.Length
      modifies this`needle, buffer
      ensures needle == old(needle) + 4 && buffer[..needle] == old(buffer[..needle]) + Be4(host)
    {
      PutOctets([((host >> 24) & 255) as Byte, ((host >> 16) & 255) as Byte,
                 ((host >> 8) & 255) as Byte, (host & 255) as Byte]);
    }

    method PutNumber8(host: bv64)
      requires needle + 8 <= buffer.Length
      modifies this`needle, buffer
      ensures needle == old(needle) + 8 && buffer[..needle] == old(buffer[..needle]) + Be8(host)
    {
      PutOctets([((host >> 56) & 255) as Byte, ((host >> 48) & 255) as Byte,
                 ((host >> 40) & 255) as Byte, ((host >> 32) & 255) as Byte,
                 ((host >> 24) & 255) as Byte, ((host >> 16) & 255) as Byte,
                 ((host >> 8) & 255) as Byte, (host & 255) as Byte]);
    }

    /** Count and text. */
    method PutCounted(text: Bytes)
      requires |text| <= 255 && needle + 1 + |text| <= buffer.Length
      modifies this`needle, buffer
      ensures needle == old(needle) + 1 + |text|
      ensures buffer[..needle] == old(buffer[..needle]) + PutString(text)
    {
      ghost var before := buffer[..needle];
      var count := |text| as Byte;
      PutNumber1(count);
      PutOctets(text);
      assert before + [count] + text == before + ([count] + text);
    }

    method PutCString(host: array<Byte>)
      requires Valid() && host in {nickname, reason} && needle + 1 + |UpToNul(host[..])| <= buffer.Length
      modifies this`needle, buffer
      ensures needle == old(needle) + 1 + |old(UpToNul(host[..]))|
      ensures buffer[..needle] == old(buffer[..needle]) + PutString(old(UpToNul(host[..])))
    {
      UpToNulIsPrefix(host[..]);
      var size := StrLen(host);
      var text := host[..size];
      assert text == UpToNul(host[..]);
      PutCounted(text);
    }

    // ----- reading -----

    predicate InFrame()
      reads this`needle, this`ceiling, this`buffer
    {
      needle <= ceiling <= buffer.Length
    }

    /** The bytes between needle and ceiling. */
    ghost function Rest(): Bytes
      requires InFrame()
      reads this`needle, this`ceiling, this`buffer, buffer
    {
      buffer[needle..ceiling]
    }

    ghost predicate Reading()
      reads this`buffer, this`needle, this`ceiling, nickname, reason
    {
      Valid() && InFrame()
    }

    method GetNumber1() returns (ok: bool, host: Byte)
      requires InFrame()
      modifies this`needle
      ensures InFrame() && (ok <==> 1 <= |old(Rest())|)
      ensures if ok then host == old(Rest())[0] && Rest() == old(Rest())[1..] else Rest() == old(Rest())
    {
      if needle + 1 > ceiling {
        return false, 0;
      }
      ok, host := true, buffer[needle];
      needle := needle + 1;
    }

    method GetNumber2() returns (ok: bool, host: bv16)
      requires InFrame()
      modifies this`needle
      ensures InFrame() && (ok <==> 2 <= |old(Rest())|)
      ensures if ok then host == FromBe2(old(Rest())) && Rest() == old(Rest())[2..] else Rest() == old(Rest())
    {
      if needle + 2 > ceiling {
        return false, 0;
      }
      ghost var b := Rest();
      assert forall i :: 0 <= i < 2 ==> b[i] == buffer[needle + i];
      ok, host := true, (buffer[needle] as bv16 << 8) + buffer[needle + 1] as bv16;
      needle := needle + 2;
    }

    method GetNumber4() returns (ok: bool, host: bv32)
      requires InFrame()
      modifies this`needle
      ensures InFrame() && (ok <==> 4 <= |old(Rest())|)
      ensures if ok then host == FromBe4(old(Rest())) && Rest() == old(Rest())[4..] else Rest() == old(Rest())
    {
      if needle + 4 > ceiling {
        return false, 0;
      }
      ghost var b := Rest();
      assert forall i :: 0 <= i < 4 ==> b[i] == buffer[needle + i];
      ok := true;
      host := (buffer[needle] as bv32 << 24) + (buffer[needle + 1] as bv32 << 16)
            + (buffer[needle + 2] as bv32 << 8) + buffer[needle + 3] as bv32;
      needle := needle + 4;
    }

    method GetNumber8() returns (ok: bool, host: bv64)
      requires InFrame()
      modifies this`needle
      ensures InFrame() && (ok <==> 8 <= |old(Rest())|)
      ensures if ok then host == FromBe8(old(Rest())) && Rest() == old(Rest())[8..] else Rest() == old(Rest())
    {
      if needle + 8 > ceiling {
        return false, 0;
      }
      ghost var b := Rest();
      assert forall i :: 0 <= i < 8 ==> b[i] == buffer[needle + i];
      ok := true;
      host := (buffer[needle] as bv64 << 56) + (buffer[needle + 1] as bv64 << 48)
            + (buffer[needle + 2] as bv64 << 40) + (buffer[needle + 3] as bv64 << 32)
            + (buffer[needle + 4] as bv64 << 24) + (buffer[needle + 5] as bv64 << 16)
            + (buffer[needle + 6] as bv64 << 8) + buffer[needle + 7] as bv64;
      needle := needle + 8;
    }

    method GetOctets(host: array<Byte>, size: nat)
      requires Reading() && host in {nickname, reason} && needle + size <= ceiling && size < host.Length
      modifies this`needle, host
      ensures needle == old(needle) + size && host[..size] == old(Rest())[..size]
    {
      forall i | 0 <= i < size {
        host[i] := buffer[needle + i];
      }
      needle := needle + size;
    }

    /** Text and terminator. */
    method GetText(host: array<Byte>, size: nat)
      requires Reading() && host in {nickname, reason} && size <= |Rest()| && size < host.Length
      modifies this`needle, host
      ensures Reading() && Rest() == old(Rest())[size..]
      ensures UpToNul(host[..]) == UpToNul(old(Rest())[..size])
    {
      ghost var s := Rest()[..size];
      GetOctets(host, size);
      host[size] := 0;
      assert host[..] == s + [0] + host[size + 1..];
      CutAtTerminator(s, host[size + 1..]);
      UpToNulIsPrefix(s);
    }

    /** The count of a string. */
    method GetCount() returns (ok: bool, size: nat)
      requires InFrame()
      modifies this`needle
      ensures InFrame() && (ok <==> old(Rest()) != [])
      ensures ok ==> size == old(Rest())[0] as nat && Rest() == old(Rest())[1..]
    {
      var count;
      ok, count := GetNumber1();
      size := count as nat;
    }

    /** Text of a known count, if there is as much. */
    method GetCounted(host: array<Byte>, size: nat) returns (ok: bool)
      requires Reading() && host in {nickname, reason} && size < host.Length
      modifies this`needle, host
      ensures Reading() && (ok <==> size <= |old(Rest())|)
      ensures if ok then UpToNul(host[..]) == UpToNul(old(Rest())[..size]) && Rest() == old(Rest())[size..]
              else host[..] == old(host[..])
    {
      ok := needle + size <= ceiling;
      if ok {
        GetText(host, size);
      }
    }

    /** The count fits any buffer of 256, terminator included. */
    method GetCString(host: array<Byte>) returns (ok: bool)
      requires Reading() && host in {nickname, reason}
      modifies this`needle, host
      ensures Reading() && (ok <==> Width(Nickname, old(Rest())) <= |old(Rest())|)
      ensures var n := Width(Nickname, old(Rest()));
              if ok then UpToNul(host[..]) == UpToNul(old(Rest())[1..n]) && Rest() == old(Rest())[n..]
              else host[..] == old(host[..])
    {
      ghost var b, n := Rest(), Width(Nickname, Rest());
      assert n <= |b| ==> b[1..][..n - 1] == b[1..n] && b[1..][n - 1..] == b[n..];
      var size;
      ok, size := GetCount();
      if ok {
        assert size == n - 1;
        ok := GetCounted(host, size);
      }
    }

    // ----- sending -----

    /** How long the first frame is going to be. */
    method FrameSize() returns (size: nat)
      requires Valid()
      ensures size == |Head(View())|
    {
      BodySizes(View().fields);
      size := 2 + 1;
      if id == HELLO {
        var n := StrLen(nickname);
        size := size + 1 + n;
      } else if id == COVERAGE {
        size := size + 8;
      } else if id == QUERY {
        size := size + 4;
        size := size + 8;
        size := size + 8;
        size := size + 8;
        size := size + 4;
      } else if id == RESULT {
        size := size + 4;
        size := size + 2;
      } else if id == ERROR {
        size := size + 2;
        var n := StrLen(reason);
        size := size + 1 + n;
      }
    }

    /** `PUT_...` of one field of the object. */
    method PutFrom(k: Field)
      requires Valid() && needle + |PutField(View().fields, k)| <= buffer.Length
      modifies this`needle, buffer
      ensures Valid() && View() == old(View())
      ensures needle == old(needle) + |PutField(View().fields, k)|
      ensures buffer[..needle] == old(buffer[..needle]) + PutField(View().fields, k)
    {
      match k {
        case Nickname => PutCString(nickname);
        case Detmask => PutNumber8(detmask);
        case Seqno => PutNumber4(seqno);
        case Tstart => PutNumber8(tstart);
        case Tspan => PutNumber8(tspan);
        case Timeout => PutNumber4(timeout);
        case Status => PutNumber2(status);
        case Reason => PutCString(reason);
      }
    }

    /** One `PUT_...` after the other. */
    method PutAll(ks: seq<Field>)
      requires Valid() && needle + |PutFields(View().fields, ks)| <= buffer.Length
      modifies this`needle, buffer
      ensures Valid() && View() == old(View())
      ensures needle == old(needle) + |PutFields(View().fields, ks)|
      ensures buffer[..needle] == old(buffer[..needle]) + PutFields(View().fields, ks)
    {
      ghost var c, at, goal := View(), needle, buffer[..needle] + PutFields(View().fields, ks);
      for i := 0 to |ks|
        invariant Valid() && View() == c && needle + |PutFields(c.fields, ks[i..])| == |goal| <= buffer.Length
        invariant buffer[..needle] + PutFields(c.fields, ks[i..]) == goal
      {
        assert ks[i..][0] == ks[i] && ks[i..][1..] == ks[i + 1..];
        ghost var before, one, rest := buffer[..needle], PutField(c.fields, ks[i]), PutFields(c.fields, ks[i + 1..]);
        assert (before + one) + rest == before + (one + rest);
        PutFrom(ks[i]);
      }
    }

    /** Write the fields of the message behind what is in the frame. */
    method PutBody()
      requires Valid() && needle + |PutFields(View().fields, Grammar(id))| <= buffer.Length
      modifies this`needle, buffer
      ensures Valid() && View() == old(View())
      ensures needle == old(needle) + |PutFields(View().fields, Grammar(id))|
      ensures buffer[..needle] == old(buffer[..needle]) + PutFields(View().fields, Grammar(id))
    {
      if id == HELLO {
        PutAll([Nickname]);
      } else if id == COVERAGE {
        PutAll([Detmask]);
      } else if id == QUERY {
        PutAll([Seqno, Tstart, Tspan, Detmask, Timeout]);
      } else if id == RESULT {
        PutAll([Seqno, Status]);
      } else if id == ERROR {
        PutAll([Status, Reason]);
      }
    }

    method PutSignature(number: Byte)
      requires needle == 0 && 3 <= buffer.Length
      modifies this`needle, buffer
      ensures needle == 3 && buffer[..3] == Be2(SIGNATURE) + [number]
    {
      PutNumber2(0xAAA0);
      PutNumber1(number);
    }

    /** Write the first frame, which is as long as was worked out before. */
    method PutHead()
      requires Valid()
      modifies this`needle, this`buffer
      ensures Valid() && fresh(buffer) && needle == buffer.Length && View() == old(View()) && buffer[..] == Head(View())
    {
      var frameSize := FrameSize();
      buffer := new Byte[frameSize];
      needle := 0;
      PutSignature((id % 256) as Byte);
      PutBody();
      assert buffer[..needle] == buffer[..];
    }

    /** Send the message. Every frame but the last announces another one. */
    method Send(router: bool) returns (wire: seq<WireFrame>)
      requires Valid()
      modifies this`needle, this`buffer
      ensures Valid() && View() == old(View())
      ensures wire == (if router && routing.Some? then [WireFrame(routing.value, true)] else []) + Sent(View())
      ensures 1 <= id <= 9 ==> Carries(wire[if router && routing.Some? then 1 else 0..])
    {
      wire := [];
      if router && routing.Some? {
        wire := wire + [WireFrame(routing.value, true)];
      }
      PutHead();
      ghost var before := wire;
      wire := SendData(wire);
      assert wire[|before|..] == Sent(View());
      if 1 <= id <= 9 {
        SentCarries();
      }
    }

    /** The frames are this object's message: the number of its kind, its fields at their
        places in the first frame, and its payload frame by frame. All but the last frame
        announce another one. */
    ghost predicate Carries(wire: seq<WireFrame>)
      reads this, nickname, reason
    {
      && wire != [] && |wire[0].data| >= 3
      && (var b := wire[0].data;
          && b[0] == 0xAA && b[1] == 0xA0 && b[2] as nat == id
          && (id == 1 ==> TextAt(b, 3, UpToNul(nickname[..])))
          && (id == 2 ==> |b| == 11 && At8(b, 3) == detmask)
          && (id == 3 ==>
                && |b| == 35 && At4(b, 3) == seqno && At8(b, 7) == tstart && At8(b, 15) == tspan
                && At8(b, 23) == detmask && At4(b, 31) == timeout)
          && (id == 4 ==> |b| == 9 && At4(b, 3) == seqno && At2(b, 7) == status)
          && (id == 9 ==> |b| >= 6 && At2(b, 3) == status && TextAt(b, 5, UpToNul(reason[..]))))
      && (forall i :: 0 <= i < |wire| ==> (wire[i].more <==> i + 1 < |wire|))
      && (id != 4 ==> |wire| == 1)
      && (id == 4 && payload == None ==> |wire| == 2 && wire[1].data == [])
      && (id == 4 && payload != None ==>
            && |wire| == 1 + |payload.value|
            && forall k :: 0 <= k < |payload.value| ==> wire[1 + k].data == payload.value[k])
    }

    lemma SentCarries()
      requires Valid() && 1 <= id <= 9
      ensures Carries(Sent(View()))
    {
      var c := View();
      UpToNulIsPrefix(nickname[..]);
      UpToNulIsPrefix(reason[..]);
      SentFrames(c);
      FrameOpens(c);
      if id == 1 {
        HelloFrame(c);
      } else if id == 2 {
        CoverageFrame(c);
      } else if id == 3 {
        QueryFrame(c);
      } else if id == 4 {
        ResultFrame(c);
      } else if id == 9 {
        ErrorFrame(c);
      }
    }

    /** Send the frame that has been written, and the payload behind it. */
    method SendData(before: seq<WireFrame>) returns (wire: seq<WireFrame>)
      requires Valid() && buffer[..] == Head(View())
      ensures wire == before + Flagged([Head(View())] + Tail(View()))
    {
      var havePayload, nbrFrames: nat := false, 1;
      if id == RESULT {
        nbrFrames := nbrFrames + if payload.Some? then |payload.value| else 1;
        havePayload := true;
      }
      ghost var head, tail := Head(View()), Tail(View());
      assert ([head] + tail)[1..] == tail;
      nbrFrames := nbrFrames - 1;
      wire := before + [WireFrame(buffer[..], nbrFrames != 0)];
      assert wire + Flagged(tail) == before + Flagged([head] + tail);
      if havePayload {
        if payload.Some? {
          wire := SendPayload(wire, nbrFrames);
        } else {
          assert Flagged([[]]) == [WireFrame([], false)];
          wire := wire + [WireFrame([], false)];
        }
      }
    }

    /** The frames of the payload; `nbrFrames` counts those that are still to be sent. */
    method SendPayload(before: seq<WireFrame>, nbrFrames: nat) returns (wire: seq<WireFrame>)
      requires payload.Some? && nbrFrames == |payload.value|
      ensures wire == before + Flagged(payload.value)
    {
      wire := before;
      var left := nbrFrames;
      var frames := payload.value;
      for k := 0 to |frames|
        invariant left == |frames| - k && wire + Flagged(frames[k..]) == before + Flagged(frames)
      {
        left := left - 1;
        assert frames[k..][0] == frames[k] && frames[k..][1..] == frames[k + 1..];
        wire := wire + [WireFrame(frames[k], left != 0)];
      }
    }

    // ----- receiving -----

    method GetDetmask() returns (ok: bool)
      requires InFrame()
      modifies this`needle, this`detmask
      ensures InFrame() && StepAs(old(View()), Detmask, old(Rest()), View(), Rest(), ok)
    {
      var host;
      ok, host := GetNumber8();
      if ok {
        detmask := host;
      }
    }

    method GetSeqno() returns (ok: bool)
      requires InFrame()
      modifies this`needle, this`seqno
      ensures InFrame() && StepAs(old(View()), Seqno, old(Rest()), View(), Rest(), ok)
    {
      var host;
      ok, host := GetNumber4();
      if ok {
        seqno := host;
      }
    }

    method GetTstart() returns (ok: bool)
      requires InFrame()
      modifies this`needle, this`tstart
      ensures InFrame() && StepAs(old(View()), Tstart, old(Rest()), View(), Rest(), ok)
    {
      var host;
      ok, host := GetNumber8();
      if ok {
        tstart := host;
      }
    }

    method GetTspan() returns (ok: bool)
      requires InFrame()
      modifies this`needle, this`tspan
      ensures InFrame() && StepAs(old(View()), Tspan, old(Rest()), View(), Rest(), ok)
    {
      var host;
      ok, host := GetNumber8();
      if ok {
        tspan := host;
      }
    }

    method GetTimeout() returns (ok: bool)
      requires InFrame()
      modifies this`needle, this`timeout
      ensures InFrame() && StepAs(old(View()), Timeout, old(Rest()), View(), Rest(), ok)
    {
      var host;
      ok, host := GetNumber4();
      if ok {
        timeout := host;
      }
    }

    method GetStatus() returns (ok: bool)
      requires InFrame()
      modifies this`needle, this`status
      ensures InFrame() && StepAs(old(View()), Status, old(Rest()), View(), Rest(), ok)
    {
      var host;
      ok, host := GetNumber2();
      if ok {
        status := host;
      }
    }

    method GetNickname() returns (ok: bool)
      requires Reading()
      modifies this`needle, nickname
      ensures Reading() && StepAs(old(View()), Nickname, old(Rest()), View(), Rest(), ok)
    {
      ok := GetCString(nickname);
    }

    method GetReason() returns (ok: bool)
      requires Reading()
      modifies this`needle, reason
      ensures Reading() && StepAs(old(View()), Reason, old(Rest()), View(), Rest(), ok)
    {
      ok := GetCString(reason);
    }

    /** `GET_...` into one field of the object. */
    method GetInto(k: Field) returns (ok: bool)
      requires Reading()
      modifies this`needle, this`detmask, this`seqno, this`tstart, this`tspan, this`timeout, this`status
      modifies nickname, reason
      ensures Reading() && StepAs(old(View()), k, old(Rest()), View(), Rest(), ok)
    {
      match k {
        case Nickname => ok := GetNickname();
        case Detmask => ok := GetDetmask();
        case Seqno => ok := GetSeqno();
        case Tstart => ok := GetTstart();
        case Tspan => ok := GetTspan();
        case Timeout => ok := GetTimeout();
        case Status => ok := GetStatus();
        case Reason => ok := GetReason();
      }
    }

    /** One `GET_...` after the other; the first that fails ends it. */
    method GetAll(ks: seq<Field>) returns (ok: bool)
      requires Reading()
      modifies this`needle, this`detmask, this`seqno, this`tstart, this`tspan, this`timeout, this`status
      modifies nickname, reason
      ensures Reading() && ReadsAs(old(View()), ks, old(Rest()), View(), ok)
    {
      ghost var c, b := View(), Rest();
      ok := true;
      for i := 0 to |ks|
        invariant Reading() && ok && Leads(c, ks, b, View(), ks[i..], Rest())
      {
        ghost var d, left := View(), Rest();
        assert ks[i..][0] == ks[i] && ks[i..][1..] == ks[i + 1..];
        ok := GetInto(ks[i]);
        Stepped(c, ks, b, d, ks[i..], left, View(), Rest(), ok);
        if !ok {
          return;
        }
      }
    }

    /** `zmsg_recv`: the frames up to the first that announces no other. */
    method RecvFrames(wire: seq<WireFrame>) returns (frames: seq<Bytes>, left: seq<WireFrame>)
      ensures (frames, left) == Delivered(wire)
    {
      frames, left := [], wire;
      var more := true;
      ghost var (parts, rest) := Delivered(wire);
      assert frames + parts == parts;
      while more && left != []
        invariant if more then frames + Delivered(left).0 == parts && Delivered(left).1 == rest
                  else frames == parts && left == rest
        decreases |left|
      {
        more := left[0].more;
        assert frames + ([left[0].data] + Delivered(left[1..]).0) == frames + [left[0].data] + Delivered(left[1..]).0;
        frames, left := frames + [left[0].data], left[1..];
      }
      assert left == [] ==> frames + Delivered(left).0 == frames;
    }

    /** Read the message that the frame holds; `more` says whether it announced others. */
    method Parse(more: bool, wire: seq<WireFrame>) returns (rc: int, left: seq<WireFrame>)
      requires Reading()
      modifies this`needle, this`id, this`detmask, this`seqno, this`tstart, this`tspan, this`timeout, this`status
      modifies this`payload, nickname, reason
      ensures Reading() && (rc, View(), left) == Parsed(old(View()), old(Rest()), more, wire)
    {
      var ok, signature := GetNumber2();
      if !ok {
        return OK, wire;
      }
      if signature != 0xAAA0 {
        return MALFORMED, wire;
      }
      var number;
      ok, number := GetNumber1();
      if !ok {
        return OK, wire;
      }
      id := number as nat;
      rc, left := GetBody(more, wire);
    }

    /** The switch over the message id. */
    method GetBody(more: bool, wire: seq<WireFrame>) returns (rc: int, left: seq<WireFrame>)
      requires Reading()
      modifies this`needle, this`detmask, this`seqno, this`tstart, this`tspan, this`timeout, this`status
      modifies this`payload, nickname, reason
      ensures Reading() && (rc, View(), left) == ParsedBody(old(View()), old(Rest()), more, wire)
    {
      var ok := true;
      left := wire;
      if id == HELLO {
        ok := GetAll([Nickname]);
      } else if id == COVERAGE {
        ok := GetAll([Detmask]);
      } else if id == QUERY {
        ok := GetAll([Seqno, Tstart, Tspan, Detmask, Timeout]);
      } else if id == RESULT {
        ok := GetAll([Seqno, Status]);
        if ok {
          left := GetPayload(more, wire);
        }
      } else if id == PING || id == PONG || id == GOODBYE || id == GOODBYE_OK {
      } else if id == ERROR {
        ok := GetAll([Status, Reason]);
      } else {
        return MALFORMED, left;
      }
      return OK, left;
    }

    /** The frames behind a result, if any. */
    method GetPayload(more: bool, wire: seq<WireFrame>) returns (left: seq<WireFrame>)
      modifies this`payload
      ensures (payload, left) == if more then (Some(Delivered(wire).0), Delivered(wire).1) else (Some([]), wire)
    {
      left := wire;
      payload := Some([]);
      if more {
        var frames;
        frames, left := RecvFrames(wire);
        payload := Some(frames);
      }
    }

    /** Receive a message from a socket that has the frames in `wire`, and leave the others
        in it. */
    method Recv(router: bool, wire: seq<WireFrame>) returns (rc: int, left: seq<WireFrame>)
      requires Valid()
      modifies this, nickname, reason
      ensures Valid() && (rc, View(), left) == Received(old(View()), router, wire)
      ensures !router && wire != [] && Complete(wire[0].data) ==>
                rc == 0 && id == wire[0].data[2] as nat && View().fields == Read(old(View()).fields, wire[0].data)
    {
      left := wire;
      ghost var c := View();
      if router {
        routing := None;
        if left == [] {
          return INTERRUPTED, left;
        }
        var first := left[0];
        routing, left := Some(first.data), left[1..];
        if !first.more {
          return INTERRUPTED, left;
        }
      }
      if left == [] {
        return INTERRUPTED, left;
      }
      if !router && Complete(left[0].data) {
        ReadInOctets(c, left[0].data, left[0].more, left[1..]);
      }
      Open(left[0].data);
      rc, left := Parse(left[0].more, left[1..]);
    }

    /** Take a received frame: needle at its begin, ceiling at its end. */
    method Open(frame: Bytes)
      requires Valid()
      modifies this`buffer, this`needle, this`ceiling
      ensures Reading() && fresh(buffer) && Rest() == frame
    {
      buffer := new Byte[|frame|](i requires 0 <= i < |frame| => frame[i]);
      needle, ceiling := 0, |frame|;
    }
  }
}
