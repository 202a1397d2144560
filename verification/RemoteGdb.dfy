/**
 * Sending and receiving GDB packets over a byte stream.
 */
module RemoteGdb {
  import opened GdbPacket
  import opened Wrappers

  // ----- the receiver as a function of the incoming bytes -----

  function Sum(data: seq<Byte>): nat
  {
    if data == [] then 0 else Sum(data[..|data| - 1]) + data[|data| - 1]
  }

  function Checksum(data: seq<Byte>): Byte { Sum(data) % 256 }

  /** What follows the first start character. */
  function AfterStart(input: seq<Byte>): (rest: Option<seq<Byte>>)
    ensures rest.Some? ==> |rest.value| < |input|
  {
    if input == [] then None else if input[0] == START then Some(input[1..]) else AfterStart(input[1..])
  }

  /** The payload up to the end character, at most `room` bytes, each cut to 7 bits. */
  datatype Body = Body(data: seq<Byte>, rest: seq<Byte>, full: bool) | Eof

  function ReadBody(input: seq<Byte>, room: nat): (b: Body)
    ensures b.Body? ==> |b.rest| <= |input| && |b.data| <= room && (b.full <==> |b.data| == room)
  {
    if room == 0 then Body([], input, true)
    else if input == [] then Eof
    else if input[0] == END then Body([], input[1..], false)
    else
      match ReadBody(input[1..], room - 1)
      case Eof => Eof
      case Body(data, rest, full) => Body([input[0] % 128] + data, rest, full)
  }

  /** A length, the exception for a lost client, a copy of negative length, or a terminator past the buffer. */
  datatype Outcome = Received(len: nat) | BadClient | Undefined | Overrun

  /** The outcome, the bytes left unread, the bytes written and the buffer. */
  datatype Reception = Reception(outcome: Outcome, rest: seq<Byte>, written: seq<Byte>, buf: seq<Byte>)

  /** The buffer with data at its front. */
  function Over(buf: seq<Byte>, data: seq<Byte>): seq<Byte>
    requires |data| <= |buf|
  {
    data + buf[|data|..]
  }

  /** The buffer after a payload has been stored and terminated in it. */
  function Stored(buf: seq<Byte>, data: seq<Byte>): (b: seq<Byte>)
    requires |data| < |buf|
    ensures |b| == |buf|
  {
    data + [0] + buf[|data| + 1..]
  }

  predicate ChecksOut(data: seq<Byte>, h: Byte, l: Byte) { Checksum(data) - 16 * Digit2I(h) - Digit2I(l) == 0 }

  /** A packet with matching checksum: acknowledge it, and strip a sequence number. */
  function Accept(data: seq<Byte>, rest: seq<Byte>, buf: seq<Byte>, before: seq<Byte>): Reception
    requires 3 <= |buf| && |data| < |buf|
  {
    if buf[2] != COLON then Reception(Received(|data|), rest, before + [GOOD], buf)
    else if |data| < 3 then Reception(Undefined, rest, before + [GOOD] + [buf[0]] + [buf[1]], buf)
    else
      var len := |data| - 3;
      Reception(Received(len), rest, before + [GOOD] + [buf[0]] + [buf[1]], buf[3..3 + len] + buf[len..])
  }

  /** One packet: the end of recv, or a complaint and another try. */
  datatype Attempt = Finished(r: Reception) | Complain(rest: seq<Byte>, buf: seq<Byte>)

  function Lost(before: seq<Byte>, buf: seq<Byte>): Attempt { Finished(Reception(BadClient, [], before, buf)) }

  function TryPacket(input: seq<Byte>, buf: seq<Byte>, maxlen: nat, before: seq<Byte>): (a: Attempt)
    requires maxlen <= |buf| && 3 <= |buf|
    ensures a.Complain? ==> |a.rest| < |input| && |a.buf| == |buf|
  {
    match AfterStart(input)
    case None => Lost(before, buf)
    case Some(r1) =>
      match ReadBody(r1, maxlen)
      case Eof => Lost(before, buf)
      case Body(data, r2, full) =>
        if |data| == |buf| then Finished(Reception(Overrun, r2, before, data)) else
        var b1 := Stored(buf, data);
        if full then Complain(r2, b1)
        else if |r2| < 2 then Lost(before, buf)
        else if ChecksOut(data, r2[0], r2[1]) then Finished(Accept(data, r2[2..], b1, before))
        else Complain(r2[2..], b1)
  }

  /** recv, after `before` has been written. */
  function Receive(input: seq<Byte>, buf: seq<Byte>, maxlen: nat, before: seq<Byte>): Reception
    requires maxlen <= |buf| && 3 <= |buf|
    decreases |input|
  {
    match TryPacket(input, buf, maxlen, before)
    case Finished(r) => r
    case Complain(rest, buf') => Receive(rest, buf', maxlen, before + [BAD])
  }

  // ----- what the receiver makes of frames -----

  /** A frame with any payload bytes and check characters. */
  function RawFrame(data: seq<Byte>, h: Byte, l: Byte): seq<Byte> { [START] + data + [END, h, l] }

  /** The frame that send transmits. */
  function Frame(payload: seq<Byte>): seq<Byte>
  {
    RawFrame(payload, I2Digit(Checksum(payload) / 16), I2Digit(Checksum(payload)))
  }

  function Masked(data: seq<Byte>): (r: seq<Byte>)
    ensures |r| == |data|
  {
    seq(|data|, i requires 0 <= i < |data| => data[i] % 128)
  }

  lemma {:induction false} AfterJunk(junk: seq<Byte>, rest: seq<Byte>)
    requires START !in junk
    ensures AfterStart(junk + ([START] + rest)) == Some(rest)
  {
    var input := junk + ([START] + rest);
    if junk == [] {
      assert input == [START] + rest && input[1..] == rest;
    } else {
      assert input[0] == junk[0] && input[1..] == junk[1..] + ([START] + rest);
      AfterJunk(junk[1..], rest);
    }
  }

  lemma {:induction false} BodyOf(data: seq<Byte>, rest: seq<Byte>, room: nat)
    requires END !in data && |data| < room
    ensures ReadBody(data + ([END] + rest), room) == Body(Masked(data), rest, false)
  {
    var input := data + ([END] + rest);
    if data == [] {
      assert input == [END] + rest && input[1..] == rest && Masked(data) == [];
    } else {
      assert input[0] == data[0] && input[1..] == data[1..] + ([END] + rest);
      BodyOf(data[1..], rest, room - 1);
      assert Masked(data) == [data[0] % 128] + Masked(data[1..]);
    }
  }

  /** One complete frame after junk: checked, and either accepted or answered with a complaint. */
  lemma TryFrame(junk: seq<Byte>, data: seq<Byte>, h: Byte, l: Byte, more: seq<Byte>, buf: seq<Byte>, maxlen: nat,
                 before: seq<Byte>)
    requires maxlen <= |buf| && 3 <= |buf| && START !in junk && END !in data && |data| < maxlen
    ensures var b1 := Stored(buf, Masked(data));
            TryPacket(junk + RawFrame(data, h, l) + more, buf, maxlen, before) ==
            if ChecksOut(Masked(data), h, l) then Finished(Accept(Masked(data), more, b1, before))
            else Complain(more, b1)
  {
    var input := junk + RawFrame(data, h, l) + more;
    var after := [h, l] + more;
    assert input == junk + ([START] + (data + ([END] + after)));
    AfterJunk(junk, data + ([END] + after));
    BodyOf(data, after, maxlen);
    assert after[2..] == more;
  }

  /** send's checksum is right for 7-bit payloads. */
  lemma FrameChecksOut(payload: seq<Byte>)
    requires forall i :: 0 <= i < |payload| ==> payload[i] < 128
    ensures Masked(payload) == payload
    ensures ChecksOut(payload, I2Digit(Checksum(payload) / 16), I2Digit(Checksum(payload)))
  {
    Nibbles(Checksum(payload));
  }

  /** Junk without a start character, then a frame whose check characters do not match. */
  datatype Damaged = Damaged(junk: seq<Byte>, data: seq<Byte>, h: Byte, l: Byte)

  predicate IsDamaged(d: Damaged, maxlen: nat)
  {
    START !in d.junk && END !in d.data && |d.data| < maxlen && !ChecksOut(Masked(d.data), d.h, d.l)
  }

  function Stream(bad: seq<Damaged>): seq<Byte>
  {
    if bad == [] then [] else bad[0].junk + RawFrame(bad[0].data, bad[0].h, bad[0].l) + Stream(bad[1..])
  }

  function Complaints(n: nat): seq<Byte> { if n == 0 then [] else [BAD] + Complaints(n - 1) }

  /** The payload arrived, whole, or, with a colon third, without its sequence number, which is echoed. */
  ghost predicate Delivered(r: Reception, payload: seq<Byte>, more: seq<Byte>, before: seq<Byte>, size: nat)
  {
    var sequenced := |payload| > 2 && payload[2] == COLON;
    && r.outcome == Received(if sequenced then |payload| - 3 else |payload|)
    && r.rest == more
    && r.written == before + [GOOD] + (if sequenced then payload[..2] else [])
    && |r.buf| == size >= r.outcome.len && r.buf[..r.outcome.len] == if sequenced then payload[3..] else payload
  }

  /** A payload of less than two bytes leaves an old third byte, which must not be a colon. */
  predicate NoStaleColon(payload: seq<Byte>, buf: seq<Byte>)
    requires 3 <= |buf|
  {
    2 <= |payload| || buf[2] != COLON
  }

  lemma DeliveredNow(payload: seq<Byte>, rest: seq<Byte>, buf: seq<Byte>, before: seq<Byte>)
    requires 3 <= |buf| && |payload| < |buf|
    ensures Delivered(Accept(payload, rest, Stored(buf, payload), before), payload, rest, before, |buf|)
            <==> NoStaleColon(payload, buf)
  {
    var b := Stored(buf, payload);
    assert b[..|payload|] == payload;
    if |payload| > 2 && payload[2] == COLON {
      var len := |payload| - 3;
      assert b[3..3 + len] == payload[3..];
      assert before + [GOOD] + [b[0]] + [b[1]] == before + [GOOD] + payload[..2];
    } else {
      assert b[2] == if |payload| > 2 then payload[2] else if |payload| == 2 then 0 else buf[2];
      assert before + [GOOD] + [] == before + [GOOD];
    }
  }

  /**
   * The frame that send makes of a payload is acknowledged and received, unless a stale colon is
   * taken for its third byte.
   */
  lemma FrameReceived(junk: seq<Byte>, payload: seq<Byte>, more: seq<Byte>, buf: seq<Byte>, maxlen: nat,
                      before: seq<Byte>)
    requires maxlen <= |buf| && 3 <= |buf| && |payload| < maxlen
    requires START !in junk && END !in payload && forall i :: 0 <= i < |payload| ==> payload[i] < 128
    ensures Delivered(Receive(junk + Frame(payload) + more, buf, maxlen, before), payload, more, before, |buf|)
            <==> NoStaleColon(payload, buf)
  {
    var h, l := I2Digit(Checksum(payload) / 16), I2Digit(Checksum(payload));
    FrameChecksOut(payload);
    TryFrame(junk, payload, h, l, more, buf, maxlen, before);
    DeliveredNow(payload, more, buf, before);
  }

  /** A damaged frame is answered with '-' and then forgotten. */
  lemma DamagedRefused(d: Damaged, rest: seq<Byte>, buf: seq<Byte>, maxlen: nat, before: seq<Byte>)
    requires maxlen <= |buf| && 3 <= |buf| && IsDamaged(d, maxlen)
    ensures Receive(d.junk + RawFrame(d.data, d.h, d.l) + rest, buf, maxlen, before) ==
            Receive(rest, Stored(buf, Masked(d.data)), maxlen, before + [BAD])
  {
    TryFrame(d.junk, d.data, d.h, d.l, rest, buf, maxlen, before);
  }

  /** The buffer that damaged frames leave. */
  function Leftover(bad: seq<Damaged>, buf: seq<Byte>, maxlen: nat): (b: seq<Byte>)
    requires maxlen <= |buf| && forall i :: 0 <= i < |bad| ==> IsDamaged(bad[i], maxlen)
    ensures |b| == |buf|
  {
    if bad == [] then buf
    else
      assert IsDamaged(bad[0], maxlen);
      Leftover(bad[1..], Stored(buf, Masked(bad[0].data)), maxlen)
  }

  lemma {:induction false} StreamRefused(bad: seq<Damaged>, rest: seq<Byte>, buf: seq<Byte>, maxlen: nat,
                                         before: seq<Byte>)
    requires maxlen <= |buf| && 3 <= |buf| && forall i :: 0 <= i < |bad| ==> IsDamaged(bad[i], maxlen)
    ensures Receive(Stream(bad) + rest, buf, maxlen, before) ==
            Receive(rest, Leftover(bad, buf, maxlen), maxlen, before + Complaints(|bad|))
    decreases |bad|
  {
    if bad == [] {
      assert Stream(bad) + rest == rest && before + Complaints(0) == before;
    } else {
      var d, later := bad[0], Stream(bad[1..]) + rest;
      assert Stream(bad) + rest == d.junk + RawFrame(d.data, d.h, d.l) + later;
      assert before + [BAD] + Complaints(|bad| - 1) == before + Complaints(|bad|);
      DamagedRefused(d, later, buf, maxlen, before);
      StreamRefused(bad[1..], rest, Stored(buf, Masked(d.data)), maxlen, before + [BAD]);
    }
  }

  /**
   * After any number of damaged frames, each answered with '-', the frame that send makes
   * of a payload is acknowledged and received, if and only if no stale colon is in the way.
   */
  lemma SentIsReceived(bad: seq<Damaged>, junk: seq<Byte>, payload: seq<Byte>, more: seq<Byte>,
                       buf: seq<Byte>, maxlen: nat, before: seq<Byte>)
    requires maxlen <= |buf| && 3 <= |buf| && |payload| < maxlen
    requires forall i :: 0 <= i < |bad| ==> IsDamaged(bad[i], maxlen)
    requires START !in junk && END !in payload && forall i :: 0 <= i < |payload| ==> payload[i] < 128
    ensures Delivered(Receive(Stream(bad) + (junk + Frame(payload) + more), buf, maxlen, before),
                      payload, more, before + Complaints(|bad|), |buf|)
            <==> NoStaleColon(payload, Leftover(bad, buf, maxlen))
  {
    StreamRefused(bad, junk + Frame(payload) + more, buf, maxlen, before);
    FrameReceived(junk, payload, more, Leftover(bad, buf, maxlen), maxlen, before + Complaints(|bad|));
  }

  // ----- over-long packets -----

  /** The stream is damaged frames, then junk, then a packet that goes on for maxlen bytes. */
  ghost predicate IsLong(input: seq<Byte>, maxlen: nat, bad: seq<Damaged>, junk: seq<Byte>, body: seq<Byte>,
                         more: seq<Byte>)
  {
    && (forall i :: 0 <= i < |bad| ==> IsDamaged(bad[i], maxlen))
    && START !in junk && END !in body && |body| == maxlen
    && input == Stream(bad) + (junk + ([START] + (body + more)))
  }

  ghost predicate LongStream(input: seq<Byte>, maxlen: nat)
  {
    exists bad, junk, body, more :: IsLong(input, maxlen, bad, junk, body, more)
  }

  lemma {:induction false} FullBody(body: seq<Byte>, more: seq<Byte>)
    requires END !in body
    ensures ReadBody(body + more, |body|) == Body(Masked(body), more, true)
  {
    if body == [] {
      assert body + more == more && Masked(body) == [];
    } else {
      assert (body + more)[1..] == body[1..] + more;
      FullBody(body[1..], more);
      assert Masked(body) == [body[0] % 128] + Masked(body[1..]);
    }
  }

  lemma {:induction false} StartFound(input: seq<Byte>) returns (junk: seq<Byte>)
    requires AfterStart(input).Some?
    ensures START !in junk && input == junk + ([START] + AfterStart(input).value)
  {
    if input[0] == START {
      junk := [];
    } else {
      junk := StartFound(input[1..]);
      junk := [input[0]] + junk;
    }
  }

  lemma {:induction false} BodyFound(input: seq<Byte>, room: nat) returns (raw: seq<Byte>)
    requires ReadBody(input, room).Body?
    ensures var b := ReadBody(input, room);
            END !in raw && b.data == Masked(raw) && input == raw + (if b.full then b.rest else [END] + b.rest)
  {
    if room == 0 || input[0] == END {
      raw := [];
    } else {
      raw := BodyFound(input[1..], room - 1);
      assert Masked([input[0]] + raw) == [input[0] % 128] + Masked(raw);
      raw := [input[0]] + raw;
    }
  }

  lemma OverrunOnLong(bad: seq<Damaged>, junk: seq<Byte>, body: seq<Byte>, more: seq<Byte>, buf: seq<Byte>,
                      before: seq<Byte>)
    requires 3 <= |buf| == |body| && forall i :: 0 <= i < |bad| ==> IsDamaged(bad[i], |buf|)
    requires START !in junk && END !in body
    ensures Receive(Stream(bad) + (junk + ([START] + (body + more))), buf, |buf|, before).outcome == Overrun
  {
    var tail := junk + ([START] + (body + more));
    StreamRefused(bad, tail, buf, |buf|, before);
    AfterJunk(junk, body + more);
    FullBody(body, more);
  }

  lemma NeverOverrun(input: seq<Byte>, buf: seq<Byte>, maxlen: nat, before: seq<Byte>)
    requires maxlen < |buf| && 3 <= |buf|
    ensures !Receive(input, buf, maxlen, before).outcome.Overrun?
    decreases |input|
  {
    var a := TryPacket(input, buf, maxlen, before);
    if a.Complain? { NeverOverrun(a.rest, a.buf, maxlen, before + [BAD]); }
  }

  /** A frame that does not check out, taken apart. */
  lemma FrameApart(junk: seq<Byte>, raw: seq<Byte>, rest: seq<Byte>, maxlen: nat) returns (d: Damaged)
    requires START !in junk && END !in raw && |raw| < maxlen && |rest| >= 2
    requires !ChecksOut(Masked(raw), rest[0], rest[1])
    ensures IsDamaged(d, maxlen)
    ensures junk + ([START] + (raw + ([END] + rest))) == d.junk + RawFrame(d.data, d.h, d.l) + rest[2..]
  {
    d := Damaged(junk, raw, rest[0], rest[1]);
    assert rest == [d.h, d.l] + rest[2..];
  }

  /** Where a run that overruns starts: with an over-long packet, or with a damaged frame. */
  lemma PacketApart(input: seq<Byte>, buf: seq<Byte>, before: seq<Byte>)
    returns (junk: seq<Byte>, raw: seq<Byte>, d: Damaged)
    requires 3 <= |buf| && Receive(input, buf, |buf|, before).outcome.Overrun?
    ensures match TryPacket(input, buf, |buf|, before)
            case Finished(r) =>
              START !in junk && END !in raw && |raw| == |buf| && input == junk + ([START] + (raw + r.rest))
            case Complain(rest, _) => IsDamaged(d, |buf|) && input == d.junk + RawFrame(d.data, d.h, d.l) + rest
  {
    junk := StartFound(input);
    var r1 := AfterStart(input).value;
    raw := BodyFound(r1, |buf|);
    var b := ReadBody(r1, |buf|);
    if b.full {
      d := Damaged([], [], 0, 0);
    } else {
      d := FrameApart(junk, raw, b.rest, |buf|);
    }
  }

  lemma {:induction false} LongOnOverrun(input: seq<Byte>, buf: seq<Byte>, before: seq<Byte>)
    requires 3 <= |buf| && Receive(input, buf, |buf|, before).outcome.Overrun?
    ensures LongStream(input, |buf|)
    decreases |input|
  {
    var junk, raw, d := PacketApart(input, buf, before);
    var a := TryPacket(input, buf, |buf|, before);
    if a.Complain? {
      LongOnOverrun(a.rest, a.buf, before + [BAD]);
      var bad, junk', body, more :| IsLong(a.rest, |buf|, bad, junk', body, more);
      var bad' := [d] + bad;
      assert bad'[1..] == bad;
      assert Stream(bad') + (junk' + ([START] + (body + more))) == input;
      assert IsLong(input, |buf|, bad', junk', body, more);
    } else {
      assert Stream([]) + (junk + ([START] + (raw + a.r.rest))) == input;
      assert IsLong(input, |buf|, [], junk, raw, a.r.rest);
    }
  }

  /**
   * The terminating store leaves the buffer if and only if maxlen is all of it and, after
   * damaged frames, a packet goes on for that many bytes.
   */
  lemma OverrunWhen(input: seq<Byte>, buf: seq<Byte>, maxlen: nat, before: seq<Byte>)
    requires maxlen <= |buf| && 3 <= |buf|
    ensures Receive(input, buf, maxlen, before).outcome.Overrun? <==> maxlen == |buf| && LongStream(input, maxlen)
  {
    if maxlen < |buf| {
      NeverOverrun(input, buf, maxlen, before);
    } else if Receive(input, buf, maxlen, before).outcome.Overrun? {
      LongOnOverrun(input, buf, before);
    } else if LongStream(input, maxlen) {
      var bad, junk, body, more :| IsLong(input, maxlen, bad, junk, body, more);
      OverrunOnLong(bad, junk, body, more, buf, before);
    }
  }

  /** A packet of as many letters as the buffer has bytes: the terminator has no place. */
  lemma OverrunExample(buf: seq<Byte>, before: seq<Byte>)
    requires 3 <= |buf|
    ensures Receive([START] + seq(|buf|, _ => 97), buf, |buf|, before).outcome == Overrun
  {
    var body: seq<Byte> := seq(|buf|, _ => 97);
    OverrunOnLong([], [], body, [], buf, before);
    assert Stream([]) + ([] + ([START] + (body + []))) == [START] + body;
  }

  /**
   * A stale colon: "ab:" arrives with a wrong checksum, then "m" as send frames it. The colon
   * is taken for the end of a sequence number, and the length becomes negative.
   */
  lemma StaleColon(buf: seq<Byte>, maxlen: nat, before: seq<Byte>)
    requires 4 <= maxlen <= |buf|
    ensures Receive(RawFrame([97, 98, COLON], 48, 48) + Frame([109]), buf, maxlen, before).outcome == Undefined
  {
    var d := Damaged([], [97, 98, COLON], 48, 48);
    assert Masked(d.data) == d.data && !ChecksOut(d.data, d.h, d.l) by { WrongChecksum(); }
    DamagedRefused(d, Frame([109]), buf, maxlen, before);
    assert [] + RawFrame(d.data, d.h, d.l) + Frame([109]) == RawFrame(d.data, d.h, d.l) + Frame([109]);
    var b := Stored(buf, d.data);
    var h, l := I2Digit(Checksum([109]) / 16), I2Digit(Checksum([109]));
    FrameChecksOut([109]);
    TryFrame([], [109], h, l, [], b, maxlen, before + [BAD]);
    assert [] + Frame([109]) + [] == Frame([109]);
    assert b[2] == COLON && Stored(b, [109])[2] == b[2];
  }

  lemma WrongChecksum()
    ensures !ChecksOut([97, 98, COLON], 48, 48)
  {
    var data: seq<Byte> := [97, 98, COLON];
    assert data[..2] == [97, 98] && data[..2][..1] == [97] && data[..2][..1][..0] == [];
    assert Sum([97]) == 97 && Sum([97, 98]) == 195;
  }

  // ----- the connection -----

  /** Whether a frame got through, everything written for it, and what is left to read. */
  datatype Sending = Sending(ok: bool, written: seq<Byte>, rest: seq<Byte>)

  /** Send the frame, after `before` has been written, until an acknowledgement is not a complaint. */
  function Transmit(frame: seq<Byte>, acks: seq<Byte>, before: seq<Byte>): Sending
  {
    if acks == [] then Sending(false, before + frame, [])
    else if acks[0] % 128 == BAD then Transmit(frame, acks[1..], before + frame)
    else Sending(true, before + frame, acks[1..])
  }

  function Copies(frame: seq<Byte>, n: nat): seq<Byte> { if n == 0 then [] else frame + Copies(frame, n - 1) }

  /** n complaints and then something else make send write the frame n + 1 times and stop after that answer. */
  lemma {:induction false} RetransmitsOnComplaint(frame: seq<Byte>, acks: seq<Byte>, before: seq<Byte>, n: nat)
    requires n < |acks| && acks[n] % 128 != BAD && forall i :: 0 <= i < n ==> acks[i] % 128 == BAD
    ensures Transmit(frame, acks, before) == Sending(true, before + Copies(frame, n + 1), acks[n + 1..])
    decreases n
  {
    if n == 0 {
      assert Copies(frame, 1) == frame + [] == frame;
    } else {
      RetransmitsOnComplaint(frame, acks[1..], before + frame, n - 1);
      assert before + frame + Copies(frame, n) == before + (frame + Copies(frame, n));
    }
  }

  class Connection {
    var input: seq<Byte>    // what the other side will still send
    var output: seq<Byte>   // what has been written

    /** None is the exception for a client that cannot be read. */
    method GetByte() returns (b: Option<Byte>)
      modifies this`input
      ensures if old(input) == [] then b.None? && input == [] else b == Some(old(input)[0]) && input == old(input)[1..]
    {
      if input == [] {
        return None;
      }
      b := Some(input[0]);
      input := input[1..];
    }

    method PutByte(b: Byte)
      modifies this`output
      ensures output == old(output) + [b]
    {
      output := output + [b];
    }

    /** send: one frame, again and again until the acknowledgement is not '-'. */
    method Send(payload: seq<Byte>) returns (ok: bool)
      requires 0 !in payload
      modifies this
      ensures Sending(ok, output, input) == Transmit(Frame(payload), old(input), old(output))
    {
      while true
        invariant Transmit(Frame(payload), input, output) == Transmit(Frame(payload), old(input), old(output))
        decreases |input|
      {
        SendFrame(payload);
        var c := GetByte();
        if c.None? {
          return false;
        }
        if c.value % 128 != BAD {
          return true;
        }
      }
    }

    method SendFrame(payload: seq<Byte>)
      modifies this`output
      ensures output == old(output) + Frame(payload)
    {
      PutByte(START);
      var csum: nat := 0;
      for i := 0 to |payload|
        invariant output == old(output) + [START] + payload[..i] && csum == Checksum(payload[..i])
      {
        PutByte(payload[i]);
        assert payload[..i + 1][..i] == payload[..i];
        csum := (csum + payload[i]) % 256;
      }
      assert payload[..|payload|] == payload;
      PutByte(END);
      PutByte(I2Digit(csum / 16));
      PutByte(I2Digit(csum));
      assert output == old(output) + Frame(payload);
    }

    // ----- receive -----

    /** Find the beginning of a packet. */
    method SkipToStart() returns (ok: bool)
      modifies this`input
      ensures match AfterStart(old(input)) case None => !ok && input == [] case Some(rest) => ok && input == rest
    {
      while true
        invariant AfterStart(input) == AfterStart(old(input))
        decreases |input|
      {
        var c := GetByte();
        if c.None? {
          return false;
        }
        if c.value == START {
          return true;
        }
      }
    }

    /** Read the payload into the buffer and add it up. */
    method ReadPayload(bp: array<Byte>, maxlen: nat) returns (ok: bool, len: nat, csum: nat)
      requires maxlen <= bp.Length
      modifies this`input, bp
      ensures var b := ReadBody(old(input), maxlen);
              if b.Eof? then !ok
              else
                && ok && len == |b.data| && csum == Sum(b.data) && input == b.rest
                && bp[..] == Over(old(bp[..]), b.data)
    {
      len, csum := 0, 0;
      ghost var data: seq<Byte>, was, all := [], bp[..], ReadBody(input, maxlen);
      PartialStart(input, maxlen);
      assert Over(was, []) == was;
      while len < maxlen
        invariant len == |data| <= maxlen && csum == Sum(data) && bp[..] == Over(was, data)
        invariant Partial(all, data, input, maxlen - len)
        decreases maxlen - len
      {
        PartialStep(all, data, input, maxlen - len);
        var c := GetByte();
        if c.None? {
          return false, len, csum;
        }
        if c.value == END {
          return true, len, csum;
        }
        var m: Byte := c.value % 128;
        StoreByte(bp, len, m, data, was);
        csum := csum + m;
        len := len + 1;
        data := data + [m];
      }
      PartialStep(all, data, input, 0);
      return true, len, csum;
    }

    method StoreByte(bp: array<Byte>, len: nat, m: Byte, ghost data: seq<Byte>, ghost was: seq<Byte>)
      requires len == |data| < |was| == bp.Length && bp[..] == Over(was, data)
      modifies bp
      ensures bp[..] == Over(was, data + [m])
    {
      bp[len] := m;
    }

    /** One pass of recv's loop; None asks for another one. */
    method RecvPacket(bp: array<Byte>, maxlen: nat) returns (r: Option<Outcome>)
      requires maxlen <= bp.Length && 3 <= bp.Length
      modifies this, bp
      ensures match TryPacket(old(input), old(bp[..]), maxlen, old(output))
              case Complain(rest, buf) => r.None? && input == rest && bp[..] == buf && output == old(output) + [BAD]
              case Finished(e) =>
                && r == Some(e.outcome) && output == e.written
                && (e.outcome.Received? ==> input == e.rest && bp[..] == e.buf)
    {
      var found := SkipToStart();
      if !found {
        return Some(BadClient);
      }
      ghost var body := ReadBody(input, maxlen);
      var ok, len, csum := ReadPayload(bp, maxlen);
      if !ok {
        return Some(BadClient);
      }
      csum := csum % 256;
      if len == bp.Length {
        return Some(Overrun);  // the terminator has no place
      }
      Terminate(bp, len, body.data, old(bp[..]));
      if len >= maxlen {
        PutByte(BAD);
        return None;
      }
      var digits := GetDigits();
      if digits.None? {
        return Some(BadClient);
      }
      if csum - 16 * Digit2I(digits.value.0) - Digit2I(digits.value.1) == 0 {
        var n := Acknowledge(bp, len, body.data, input);
        return Some(n);
      }
      PutByte(BAD);
      return None;
    }

    /** The two check characters. */
    method GetDigits() returns (r: Option<(Byte, Byte)>)
      modifies this`input
      ensures if |old(input)| < 2 then r.None?
              else r == Some((old(input)[0], old(input)[1])) && input == old(input)[2..]
    {
      var h := GetByte();
      if h.None? {
        return None;
      }
      var l := GetByte();
      if l.None? {
        return None;
      }
      return Some((h.value, l.value));
    }

    method Terminate(bp: array<Byte>, len: nat, ghost data: seq<Byte>, ghost was: seq<Byte>)
      requires len == |data| < |was| == bp.Length && bp[..] == Over(was, data)
      modifies bp
      ensures bp[..] == Stored(was, data)
    {
      bp[len] := 0;
    }

    /** The good case: '+', and a sequence number echoed and removed. */
    method Acknowledge(bp: array<Byte>, len: nat, ghost data: seq<Byte>, ghost rest: seq<Byte>) returns (r: Outcome)
      requires 3 <= bp.Length && len == |data| < bp.Length && input == rest
      modifies this`output, bp
      ensures var e := Accept(data, rest, old(bp[..]), old(output));
              r == e.outcome && output == e.written && bp[..] == e.buf
    {
      PutByte(GOOD);
      if bp[2] == COLON {
        PutByte(bp[0]);
        PutByte(bp[1]);
        if len < 3 {
          return Undefined;
        }
        MoveDown(bp, len - 3);
        return Received(len - 3);
      }
      return Received(len);
    }

    /** recv: packets are read until one checks out. */
    method Recv(bp: array<Byte>, maxlen: nat) returns (r: Outcome)
      requires maxlen <= bp.Length && 3 <= bp.Length
      modifies this, bp
      ensures var e := Receive(old(input), old(bp[..]), maxlen, old(output));
              && r == e.outcome && output == e.written
              && (r.Received? ==> input == e.rest && bp[..] == e.buf)
    {
      while true
        invariant Receive(input, bp[..], maxlen, output) == Receive(old(input), old(bp[..]), maxlen, old(output))
        decreases |input|
      {
        var done := RecvPacket(bp, maxlen);
        if done.Some? {
          return done.value;
        }
      }
    }

    /** memcpy(bp, bp + 3, len) */
    method MoveDown(bp: array<Byte>, len: nat)
      requires 3 + len <= bp.Length
      modifies bp
      ensures bp[..] == old(bp[..])[3..3 + len] + old(bp[..])[len..]
    {
      for i := 0 to len
        invariant forall k :: 0 <= k < i ==> bp[k] == old(bp[..])[3 + k]
        invariant forall k :: i <= k < bp.Length ==> bp[k] == old(bp[..])[k]
      {
        bp[i] := bp[i + 3];
      }
    }
  }

  /** data has been read of the whole body, and there is room for so many bytes more of rest. */
  ghost predicate Partial(all: Body, data: seq<Byte>, rest: seq<Byte>, room: nat)
  {
    match ReadBody(rest, room)
    case Eof => all.Eof?
    case Body(more, after, full) => all == Body(data + more, after, full)
  }

  lemma PartialStart(input: seq<Byte>, room: nat)
    ensures Partial(ReadBody(input, room), [], input, room)
  {
    var b := ReadBody(input, room);
    if b.Body? { assert [] + b.data == b.data; }
  }

  /** How reading goes on: no room, no input, the end character, or one more byte. */
  lemma PartialStep(all: Body, data: seq<Byte>, rest: seq<Byte>, room: nat)
    requires Partial(all, data, rest, room)
    ensures room == 0 ==> all == Body(data, rest, true)
    ensures room > 0 && rest == [] ==> all.Eof?
    ensures room > 0 && rest != [] && rest[0] == END ==> all == Body(data, rest[1..], false)
    ensures room > 0 && rest != [] && rest[0] != END ==>
              Partial(all, data + [rest[0] % 128], rest[1..], room - 1)
    ensures rest != [] ==> Sum(data + [rest[0] % 128]) == Sum(data) + rest[0] % 128
  {
    assert data + [] == data;
    if rest != [] {
      var m: Byte := rest[0] % 128;
      assert (data + [m])[..|data|] == data;
      if room > 0 && rest[0] != END {
        var b := ReadBody(rest[1..], room - 1);
        if b.Body? { assert data + ([m] + b.data) == (data + [m]) + b.data; }
      }
    }
  }
}
