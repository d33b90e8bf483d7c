/** Reading a short-burst-data message that the modem delivers in arbitrary pieces, between polls of the driver. */
module IridiumReassembly {
  import opened Iridium
  import opened IridiumRun

  // ---- Lines and polls ----

  /** A line from the modem, not empty. */
  predicate IsLine(i: Input) {
    i.Process? && i.e.EvRxSerial? && i.e.line != ""
  }

  predicate IsPoll(i: Input) {
    i.Process? && i.e.EvTxSerial?
  }

  /** The poll does not find the front sentence out of retries. */
  predicate Patient(m: Machine, now: real)
    requires m.mode.InCommand?
  {
    var q := m.mode.cmd.atOut;
    q == [] || q[0].tries < RETRIES_BEFORE_RESET || now <= q[0].lastSend + Timeout(q[0].text)
  }

  /** Lines and patient polls, in any order. */
  predicate Served(m: Machine, inputs: seq<Input>)
    decreases |inputs|
  {
    inputs == [] || (
      && Accepts(m, inputs[0])
      && (IsLine(inputs[0]) || (IsPoll(inputs[0]) && m.mode.InCommand? && Patient(m, inputs[0].now)))
      && Served(Apply(m, inputs[0]), inputs[1..]))
  }

  /** The text of the lines. */
  function Joined(inputs: seq<Input>): string {
    if inputs == [] then ""
    else (if IsLine(inputs[0]) then inputs[0].e.line else "") + Joined(inputs[1..])
  }

  lemma {:induction false} JoinedSplits(inputs: seq<Input>, k: nat)
    requires k <= |inputs|
    ensures Joined(inputs) == Joined(inputs[..k]) + Joined(inputs[k..])
    decreases k
  {
    if k == 0 {
      assert inputs[..0] == [] && inputs[0..] == inputs;
    } else {
      JoinedSplits(inputs[1..], k - 1);
      assert inputs[..k][1..] == inputs[1..][..k - 1] && inputs[k..] == inputs[1..][k - 1..];
    }
  }

  /** The text before the k-th input, seen from the second input on. */
  lemma JoinedBefore(inputs: seq<Input>, k: nat)
    requires 0 < k <= |inputs|
    ensures Joined(inputs[..k]) == Joined(inputs[..1]) + Joined(inputs[1..][..k - 1])
    ensures Joined(inputs[..1]) == if IsLine(inputs[0]) then inputs[0].e.line else ""
  {
    assert inputs[..k][1..] == inputs[1..][..k - 1];
    assert inputs[..1][1..] == [] && Joined([]) == "";
    var first := if IsLine(inputs[0]) then inputs[0].e.line else "";
    assert first + "" == first;
  }

  // ---- One input while reading ----

  /** The machine is at rest, waiting for the data of a read command. */
  predicate Reading(m: Machine) {
    WithinCapacity(m) && m.cfg.targetBitRate > 0 && m.mode.InCommand? && ReadingSbd(m.mode.cmd)
  }

  /**
   All inputs but the last are silent; the last one delivers exactly the payload, holds it for the
   driver and ends the read.
   */
  predicate DeliversAtLast(m: Machine, inputs: seq<Input>, payload: string)
    decreases |inputs|
  {
    inputs != [] && Accepts(m, inputs[0]) &&
    var m' := Apply(m, inputs[0]);
    if |inputs| == 1 then
      && m.mode.InCommand? && m'.mode.InCommand? && m.mode.cmd.atOut != []
      && m'.history.delivered == m.history.delivered + [payload]
      && m'.received != [] && m'.received[|m'.received| - 1] == payload
      && m'.mode.cmd.atOut == m.mode.cmd.atOut[1..] + [Sentence(m.nextNumber, "", 0.0, 0)]
      && m'.mode.cmd.sbd == (if m.mode.cmd.sbd.SbdReceive? then SbdReady else m.mode.cmd.sbd)
    else
      m'.history.delivered == m.history.delivered && DeliversAtLast(m', inputs[1..], payload)
  }

  /** A line that does not complete the message only grows the buffer. */
  lemma PieceIsKept(m: Machine, i: Input)
    requires Reading(m) && IsLine(i) && !Complete(Collected(m.mode.cmd.rxBuffer, i.e.line))
    ensures Accepts(m, i)
    ensures Apply(m, i) == m.(mode := InCommand(m.mode.cmd.(rxBuffer := Collected(m.mode.cmd.rxBuffer, i.e.line))))
  {
    var r := HandleSbdRx(m, i.e.line);
    assert Dispatch(m, i.e, i.now, i.callFirst(0)) == r;
    assert [i.e][1..] + r.posted == [];
    assert Drain(r.machine, [], i.now, i.callFirst, 1) == r.machine;
  }

  /** The line that completes the message delivers it and takes the read command off the queue. */
  lemma LastPieceDelivers(m: Machine, i: Input, payload: string)
    requires Reading(m) && IsLine(i)
    requires var b := Collected(m.mode.cmd.rxBuffer, i.e.line);
      Complete(b) && payload == b[2..2 + 256 * Byte(b[0]) + Byte(b[1])]
    ensures DeliversAtLast(m, [i], payload)
  {
    var r := HandleSbdRx(m, i.e.line);
    assert Dispatch(m, i.e, i.now, i.callFirst(0)) == r;
    assert [i.e][1..] + r.posted == [EvSBDReceiveComplete];
    var r' := Dispatch(r.machine, EvSBDReceiveComplete, i.now, i.callFirst(1));
    assert r' == SbdDispatch(r.machine, EvSBDReceiveComplete) && r'.posted == [];
    assert [EvSBDReceiveComplete][1..] + r'.posted == [];
    assert Drain(r.machine, [EvSBDReceiveComplete], i.now, i.callFirst, 1) == r'.machine;
  }

  /** A patient poll throws away what has been collected so far and is otherwise silent. */
  lemma PollEmptiesBuffer(m: Machine, i: Input)
    requires Reading(m) && Accepts(m, i) && IsPoll(i) && Patient(m, i.now)
    ensures Reading(Apply(m, i)) && Apply(m, i).mode.cmd.rxBuffer == ""
    ensures Apply(m, i).history.delivered == m.history.delivered
  {
    var r := CommandTx(m, i.now);
    assert Dispatch(m, i.e, i.now, i.callFirst(0)) == r;
    assert [i.e][1..] + r.posted == [];
    assert Drain(r.machine, [], i.now, i.callFirst, 1) == r.machine;
  }

  // ---- Collecting ----

  /** A length of two bytes, high byte first, and that many bytes of payload. */
  predicate IsMessage(header: string, payload: string) {
    |header| == 2 && |payload| == 256 * Byte(header[0]) + Byte(header[1])
  }

  /** What has been collected agrees with the message it is the start of. */
  lemma StartsLike(b: string, more: string, header: string, payload: string)
    requires IsMessage(header, payload) && header + payload <= b + more
    ensures |b| < |header + payload| ==> !Complete(b)
    ensures |b| >= |header + payload| ==> Complete(b) && b[2..2 + 256 * Byte(b[0]) + Byte(b[1])] == payload
  {
    var t := header + payload;
    assert forall k | 0 <= k < |t| :: (b + more)[k] == t[k];
    if |b| >= 2 {
      assert b[0] == (b + more)[0] == header[0] && b[1] == (b + more)[1] == header[1];
    }
    if |b| >= |t| {
      assert b[..|t|] == t && b[2..2 + |payload|] == t[2..];
    }
  }

  /** No poll comes after more than this many characters of the lines. */
  ghost predicate PollsWithin(inputs: seq<Input>, bound: int) {
    forall k | 0 <= k < |inputs| && IsPoll(inputs[k]) :: |Joined(inputs[..k])| <= bound
  }

  lemma PollsWithinRest(inputs: seq<Input>, bound: int)
    requires inputs != [] && PollsWithin(inputs, bound)
    ensures PollsWithin(inputs[1..], bound - |Joined(inputs[..1])|)
  {
    var rest := inputs[1..];
    forall k | 0 <= k < |rest| && IsPoll(rest[k])
      ensures |Joined(rest[..k])| <= bound - |Joined(inputs[..1])|
    {
      assert rest[k] == inputs[k + 1];
      JoinedBefore(inputs, k + 1);
    }
  }

  /** The message is the next thing to arrive after the buffer, and is complete only with the last input. */
  predicate Arrives(buffer: string, inputs: seq<Input>, message: string) {
    && inputs != [] && message <= buffer + Joined(inputs)
    && |buffer| + |Joined(inputs[..|inputs| - 1])| < |message|
  }

  lemma ArrivesBehind(buffer: string, inputs: seq<Input>, message: string)
    requires |inputs| > 1 && Arrives(buffer, inputs, message)
    ensures Arrives(buffer + Joined(inputs[..1]), inputs[1..], message)
  {
    JoinedBefore(inputs, |inputs| - 1);
    JoinedSplits(inputs, 1);
    assert buffer + Joined(inputs) == buffer + Joined(inputs[..1]) + Joined(inputs[1..]);
  }

  /** A first line that makes the buffer b, and the lines after it. */
  lemma {:induction false} CollectsFrom(m: Machine, inputs: seq<Input>, b: string, header: string, payload: string)
    requires Reading(m) && Served(m, inputs) && IsMessage(header, payload) && header[0] != '\n'
    requires inputs != [] && IsLine(inputs[0]) && b == Collected(m.mode.cmd.rxBuffer, inputs[0].e.line)
    requires if |inputs| == 1 then header + payload <= b else Arrives(b, inputs[1..], header + payload)
    requires PollsWithin(inputs[1..], -|b|)
    ensures DeliversAtLast(m, inputs, payload)
    decreases |inputs|, 0
  {
    var i, rest := inputs[0], inputs[1..];
    if rest == [] {
      assert inputs == [i] && b + "" == b;
      StartsLike(b, "", header, payload);
      LastPieceDelivers(m, i, payload);
    } else {
      StartsLike(b, Joined(rest), header, payload);
      PieceIsKept(m, i);
      CollectsMessage(Apply(m, i), rest, header, payload);
    }
  }

  /** Collecting from the buffer's present contents, once a leading newline is out of the way. */
  lemma {:induction false} CollectsMessage(m: Machine, inputs: seq<Input>, header: string, payload: string)
    requires Reading(m) && Served(m, inputs) && IsMessage(header, payload) && header[0] != '\n'
    requires Arrives(m.mode.cmd.rxBuffer, inputs, header + payload) && PollsWithin(inputs, -|m.mode.cmd.rxBuffer|)
    ensures DeliversAtLast(m, inputs, payload)
    decreases |inputs|, 1
  {
    var b, i, rest := m.mode.cmd.rxBuffer, inputs[0], inputs[1..];
    JoinedBefore(inputs, 1);
    PollsWithinRest(inputs, -|b|);
    if rest == [] {
      assert inputs == [i] && inputs[..0] == [] && inputs[..1] == inputs;
    } else {
      ArrivesBehind(b, inputs, header + payload);
    }
    if IsLine(i) {
      FirstIsHeader(b, inputs, header, payload);
      CollectsFrom(m, inputs, b + i.e.line, header, payload);
    } else {
      assert |Joined(inputs[..0])| == 0 && b == "";
      PollEmptiesBuffer(m, i);
      assert b + Joined(inputs[..1]) == "";
      CollectsMessage(Apply(m, i), rest, header, payload);
    }
  }

  /** The line is added whole, for it does not start with a newline when it is the first. */
  lemma FirstIsHeader(b: string, inputs: seq<Input>, header: string, payload: string)
    requires IsMessage(header, payload) && header[0] != '\n'
    requires Arrives(b, inputs, header + payload) && IsLine(inputs[0])
    ensures Collected(b, inputs[0].e.line) == b + inputs[0].e.line
  {
    assert (b + Joined(inputs))[0] == (header + payload)[0];
  }

  /** A newline left over from the command before is dropped with the first line. */
  lemma {:induction false} CollectsAfterNewline(m: Machine, inputs: seq<Input>, header: string, payload: string)
    requires Reading(m) && m.mode.cmd.rxBuffer == "" && Served(m, inputs)
    requires IsMessage(header, payload) && header[0] != '\n'
    requires Arrives("", inputs, "\n" + header + payload) && PollsWithin(inputs, 1)
    ensures DeliversAtLast(m, inputs, payload)
    decreases |inputs|
  {
    var i, rest := inputs[0], inputs[1..];
    JoinedBefore(inputs, 1);
    PollsWithinRest(inputs, 1);
    assert |inputs| == 1 ==> inputs[..1] == inputs;
    if IsLine(i) {
      NewlineDropped(inputs, header, payload);
      CollectsFrom(m, inputs, i.e.line[1..], header, payload);
    } else {
      PollEmptiesBuffer(m, i);
      ArrivesBehind("", inputs, "\n" + header + payload);
      assert "" + Joined(inputs[..1]) == "";
      CollectsAfterNewline(Apply(m, i), rest, header, payload);
    }
  }

  lemma NewlineDropped(inputs: seq<Input>, header: string, payload: string)
    requires Arrives("", inputs, "\n" + header + payload) && IsLine(inputs[0])
    ensures var line := inputs[0].e.line;
      && line[0] == '\n' && Collected("", line) == line[1..]
      && if |inputs| == 1 then header + payload <= line[1..] else Arrives(line[1..], inputs[1..], header + payload)
  {
    var line, rest := inputs[0].e.line, inputs[1..];
    assert "" + Joined(inputs) == line + Joined(rest) && "\n" + header + payload == "\n" + (header + payload);
    WithoutNewline(line, Joined(rest), header + payload);
    if rest == [] {
      assert line[1..] + "" == line[1..];
    } else {
      JoinedBefore(inputs, |inputs| - 1);
    }
  }

  lemma WithoutNewline(line: string, more: string, t: string)
    requires line != "" && "\n" + t <= line + more
    ensures line[0] == '\n' && t <= line[1..] + more
  {
    var u := line + more;
    assert u[..|t| + 1] == "\n" + t && u[0] == line[0];
    assert u[1..] == line[1..] + more && u[1..][..|t|] == u[..|t| + 1][1..] == t;
  }

  // ---- The whole message ----

  /**
   A machine waiting for data is served the text, complete only with the last input; polls come
   only before its first byte, that is before the message or right after a left-over newline.
   */
  ghost predicate Feeds(m: Machine, inputs: seq<Input>, newline: string, message: string) {
    && (newline == "" || newline == "\n")
    && Reading(m) && m.mode.cmd.rxBuffer == "" && Served(m, inputs)
    && Arrives("", inputs, newline + message) && PollsWithin(inputs, |newline|)
  }

  /** However the text is cut into lines, with or without a left-over newline, the payload arrives once and whole. */
  lemma Reassembles(m: Machine, inputs: seq<Input>, newline: string, header: string, payload: string)
    requires IsMessage(header, payload) && header[0] != '\n'
    requires Feeds(m, inputs, newline, header + payload)
    ensures DeliversAtLast(m, inputs, payload)
  {
    if newline == "" {
      assert newline + (header + payload) == header + payload;
      CollectsMessage(m, inputs, header, payload);
    } else {
      assert newline + (header + payload) == "\n" + header + payload;
      CollectsAfterNewline(m, inputs, header, payload);
    }
  }

  lemma OneDelivery(m: Machine, i: Input, payload: string, payload': string)
    requires DeliversAtLast(m, [i], payload) && DeliversAtLast(m, [i], payload')
    ensures payload == payload'
  {
    var d := m.history.delivered;
    assert (d + [payload])[|d|] == (d + [payload'])[|d|];
  }

  /** A line after which too little is collected does not deliver the payload. */
  lemma TooShortLine(m: Machine, i: Input, payload: string)
    requires Reading(m) && IsLine(i) && |Collected(m.mode.cmd.rxBuffer, i.e.line)| < |payload| + 2
    ensures !DeliversAtLast(m, [i], payload)
  {
    var b := Collected(m.mode.cmd.rxBuffer, i.e.line);
    if DeliversAtLast(m, [i], payload) {
      if Complete(b) {
        var other := b[2..2 + 256 * Byte(b[0]) + Byte(b[1])];
        LastPieceDelivers(m, i, other);
        OneDelivery(m, i, payload, other);
      } else {
        PieceIsKept(m, i);
      }
    }
  }

  /** A length whose high byte is a newline loses that byte when it comes first: no reading machine gets the message. */
  lemma NewlineLengthFails(m: Machine, i: Input, header: string, payload: string)
    requires Reading(m) && m.mode.cmd.rxBuffer == "" && IsMessage(header, payload) && header[0] == '\n'
    requires IsLine(i) && i.e.line == header + payload
    ensures !DeliversAtLast(m, [i], payload)
  {
    TooShortLine(m, i, payload);
  }

  /** Every way of sending this message to the machine works. */
  ghost predicate AlwaysReassembled(m: Machine, header: string, payload: string) {
    forall inputs: seq<Input>, newline: string | Feeds(m, inputs, newline, header + payload) ::
      DeliversAtLast(m, inputs, payload)
  }

  /**
   On every reading machine, reassembly is independent of the cuts exactly when the high length
   byte is not a newline.
   */
  lemma ReassembledIff(m: Machine, header: string, payload: string)
    requires Reading(m) && m.mode.cmd.rxBuffer == "" && IsMessage(header, payload)
    ensures AlwaysReassembled(m, header, payload) <==> header[0] != '\n'
  {
    if header[0] == '\n' {
      var i := Process(EvRxSerial(header + payload, false), 0.0, n => false);
      WholeLineFeeds(m, i, header + payload);
      NewlineLengthFails(m, i, header, payload);
    } else {
      forall inputs: seq<Input>, newline: string | Feeds(m, inputs, newline, header + payload)
        ensures DeliversAtLast(m, inputs, payload)
      {
        Reassembles(m, inputs, newline, header, payload);
      }
    }
  }

  lemma WholeLineFeeds(m: Machine, i: Input, message: string)
    requires Reading(m) && m.mode.cmd.rxBuffer == "" && IsLine(i) && i.e.line == message
    ensures Feeds(m, [i], "", message)
  {
    assert Accepts(m, i) && [i][1..] == [] && [i][..0] == [];
    assert Joined([i]) == message + "" == message == "" + message;
  }

  // ---- Polls within the message ----

  /** With too little still to come, the payload is not delivered. */
  lemma {:induction false} TooLittleLeft(m: Machine, inputs: seq<Input>, payload: string)
    requires Reading(m) && Served(m, inputs) && inputs != [] && IsLine(inputs[|inputs| - 1])
    requires |m.mode.cmd.rxBuffer| + |Joined(inputs)| < |payload| + 2
    ensures !DeliversAtLast(m, inputs, payload)
    decreases |inputs|
  {
    var i, rest := inputs[0], inputs[1..];
    JoinedSplits(inputs, 1);
    JoinedBefore(inputs, 1);
    if rest == [] {
      assert inputs == [i];
      TooShortLine(m, i, payload);
    } else {
      assert rest[|rest| - 1] == inputs[|inputs| - 1];
      if IsPoll(i) {
        PollEmptiesBuffer(m, i);
        TooLittleLeft(Apply(m, i), rest, payload);
      } else {
        NotYet(m, inputs, payload);
        if !Complete(Collected(m.mode.cmd.rxBuffer, i.e.line)) {
          PieceIsKept(m, i);
          TooLittleLeft(Apply(m, i), rest, payload);
        }
      }
    }
  }

  /** A line before the last that completes some message delivers too early. */
  lemma NotYet(m: Machine, inputs: seq<Input>, payload: string)
    requires Reading(m) && |inputs| > 1 && IsLine(inputs[0])
    ensures Complete(Collected(m.mode.cmd.rxBuffer, inputs[0].e.line)) ==> !DeliversAtLast(m, inputs, payload)
  {
    var i, b := inputs[0], Collected(m.mode.cmd.rxBuffer, inputs[0].e.line);
    if Complete(b) {
      LastPieceDelivers(m, i, b[2..2 + 256 * Byte(b[0]) + Byte(b[1])]);
      assert |Apply(m, i).history.delivered| == |m.history.delivered| + 1;
    }
  }

  /** A poll with less than the message still to come is a poll too late. */
  lemma {:induction false} LatePollLoses(m: Machine, inputs: seq<Input>, k: nat, payload: string)
    requires Reading(m) && Served(m, inputs) && k < |inputs| && IsLine(inputs[|inputs| - 1]) && IsPoll(inputs[k])
    requires |Joined(inputs[k..])| < |payload| + 2
    ensures !DeliversAtLast(m, inputs, payload)
    decreases k
  {
    var i, rest := inputs[0], inputs[1..];
    assert rest[|rest| - 1] == inputs[|inputs| - 1];
    if k == 0 {
      assert inputs[0..] == inputs;
      PollEmptiesBuffer(m, i);
      TooLittleLeft(Apply(m, i), rest, payload);
    } else {
      assert inputs[k..] == rest[k - 1..];
      if IsPoll(i) {
        PollEmptiesBuffer(m, i);
        LatePollLoses(Apply(m, i), rest, k - 1, payload);
      } else {
        NotYet(m, inputs, payload);
        if !Complete(Collected(m.mode.cmd.rxBuffer, i.e.line)) {
          PieceIsKept(m, i);
          LatePollLoses(Apply(m, i), rest, k - 1, payload);
        }
      }
    }
  }

  lemma LastLineCompletes(inputs: seq<Input>)
    requires inputs != [] && IsLine(inputs[|inputs| - 1])
    ensures Arrives("", inputs, Joined(inputs))
  {
    var last := |inputs| - 1;
    JoinedSplits(inputs, last);
    JoinedBefore(inputs[last..], 1);
    assert inputs[last..][..1] == inputs[last..] && inputs[last..][0] == inputs[last];
    assert "" + Joined(inputs) == Joined(inputs);
  }

  /**
   A message sent alone, cut into lines with polls anywhere between them, is delivered exactly
   when no poll falls behind its first byte: the driver must see all of it in one pass.
   */
  lemma DeliveredBetweenPollsIff(m: Machine, inputs: seq<Input>, newline: string, header: string, payload: string)
    requires Reading(m) && m.mode.cmd.rxBuffer == "" && Served(m, inputs)
    requires inputs != [] && IsLine(inputs[|inputs| - 1])
    requires (newline == "" || newline == "\n") && IsMessage(header, payload) && header[0] != '\n'
    requires Joined(inputs) == newline + (header + payload)
    ensures DeliversAtLast(m, inputs, payload) <==> PollsWithin(inputs, |newline|)
  {
    if PollsWithin(inputs, |newline|) {
      LastLineCompletes(inputs);
      Reassembles(m, inputs, newline, header, payload);
    } else {
      var k :| 0 <= k < |inputs| && IsPoll(inputs[k]) && |Joined(inputs[..k])| > |newline|;
      JoinedSplits(inputs, k);
      LatePollLoses(m, inputs, k, payload);
    }
  }
}
