/**
 What reaches the modem: the contents of the output buffers follow from their traffic, and the
 traffic is that of the AT writes, the blocks of short-burst data and the call packets.
 */
module IridiumWire {
  import Text
  import opened Iridium
  import opened IridiumRun
  import opened IridiumAt
  import opened IridiumSbd
  import opened IridiumTheorems

  // ---- The buffers as a replay of their traffic ----

  /** The last elements, as many as the buffer holds. */
  function Newest(s: seq<string>, capacity: nat): seq<string> {
    if |s| > capacity then s[|s| - capacity..] else s
  }

  function Foremost(s: seq<string>, capacity: nat): seq<string> {
    if |s| > capacity then s[..capacity] else s
  }

  predicate IsPush(t: Traffic) {
    t.AtOut? || t.BlockOut? || t.PacketOut? || t.LineOut?
  }

  /** The lines that wait to be written to the modem. */
  function Serial(ts: seq<Traffic>): seq<string> {
    if ts == [] then []
    else
      var before, t := Serial(ts[..|ts| - 1]), ts[|ts| - 1];
      if IsPush(t) then Newest(before + [t.line], SERIAL_CAPACITY)
      else if t.FrontOut? then Foremost([t.line] + before, SERIAL_CAPACITY)
      else if t.TakenOut? && before != [] then before[1..]
      else before
  }

  /** The packets that wait for a call. */
  function Waiting(ts: seq<Traffic>): seq<string> {
    if ts == [] then []
    else
      var before, t := Waiting(ts[..|ts| - 1]), ts[|ts| - 1];
      if t.Buffered? then Newest(before + [t.packet], DATA_CAPACITY)
      else if t.PacketOut? && before != [] then before[1..]
      else before
  }

  /** Every packet sent is the one that had waited longest. */
  predicate InTurn(ts: seq<Traffic>) {
    ts == [] || (
      var before, t := ts[..|ts| - 1], ts[|ts| - 1];
      InTurn(before) && (t.PacketOut? ==> Waiting(before) != [] && t.line == Waiting(before)[0]))
  }

  function AtLines(ts: seq<Traffic>): seq<string> {
    if ts == [] then [] else
      AtLines(ts[..|ts| - 1]) + (if ts[|ts| - 1].AtOut? then [ts[|ts| - 1].line] else [])
  }

  function BlockLines(ts: seq<Traffic>): seq<string> {
    if ts == [] then [] else
      BlockLines(ts[..|ts| - 1]) + (if ts[|ts| - 1].BlockOut? then [ts[|ts| - 1].line] else [])
  }

  function PacketLines(ts: seq<Traffic>): seq<string> {
    if ts == [] then [] else
      PacketLines(ts[..|ts| - 1]) + (if ts[|ts| - 1].PacketOut? then [ts[|ts| - 1].line] else [])
  }

  function BufferedPackets(ts: seq<Traffic>): seq<string> {
    if ts == [] then [] else
      BufferedPackets(ts[..|ts| - 1]) + (if ts[|ts| - 1].Buffered? then [ts[|ts| - 1].packet] else [])
  }

  /** How often a packet found the buffer full, which costs the oldest one. */
  function Drops(ts: seq<Traffic>): nat {
    if ts == [] then 0
    else
      var before, t := ts[..|ts| - 1], ts[|ts| - 1];
      Drops(before) + (if t.Buffered? && |Waiting(before)| == DATA_CAPACITY then 1 else 0)
  }

  /** The blocks that the session log says were written. */
  function WrittenBlocks(log: seq<SbdAction>): seq<string> {
    if log == [] then [] else
      WrittenBlocks(log[..|log| - 1]) + (if log[|log| - 1].BlockWritten? then [log[|log| - 1].block] else [])
  }

  // ---- Packets are sent in the order in which they were buffered ----

  /** The first sequence is the second with some elements left out. */
  ghost predicate Subsequence(s: seq<string>, t: seq<string>) {
    s == [] || (t != [] && (
      (s[|s| - 1] == t[|t| - 1] && Subsequence(s[..|s| - 1], t[..|t| - 1])) || Subsequence(s, t[..|t| - 1])))
  }

  lemma {:induction false} LeavingOneOut(a: seq<string>, x: string, b: seq<string>, t: seq<string>)
    requires Subsequence(a + [x] + b, t)
    ensures Subsequence(a + b, t)
    decreases |t|
  {
    var s := a + [x] + b;
    var t' := t[..|t| - 1];
    if a + b == [] {
    } else if Subsequence(s, t') {
      LeavingOneOut(a, x, b, t');
    } else if b == [] {
      assert s[..|s| - 1] == a == a + b;
      Longer(a, t', t[|t| - 1]);
      assert t == t' + [t[|t| - 1]];
    } else {
      var c := b[..|b| - 1];
      assert s[..|s| - 1] == a + [x] + c && (a + b)[..|a + b| - 1] == a + c;
      LeavingOneOut(a, x, c, t');
    }
  }

  lemma Longer(s: seq<string>, t: seq<string>, x: string)
    requires Subsequence(s, t)
    ensures Subsequence(s, t + [x])
  {
    assert (t + [x])[..|t|] == t;
  }

  lemma Extended(s: seq<string>, t: seq<string>, x: string)
    requires Subsequence(s, t)
    ensures Subsequence(s + [x], t + [x])
  {
    assert (s + [x])[..|s|] == s && (t + [x])[..|t|] == t;
  }

  lemma {:induction false} WaitingBound(ts: seq<Traffic>)
    ensures |Waiting(ts)| <= DATA_CAPACITY
    decreases |ts|
  {
    if ts != [] {
      WaitingBound(ts[..|ts| - 1]);
    }
  }

  /**
   The packets sent, followed by those still waiting, are the packets buffered, in the order of
   buffering, less one for every time the buffer was full.
   */
  lemma {:induction false} SentInOrder(ts: seq<Traffic>)
    requires InTurn(ts)
    ensures Subsequence(PacketLines(ts) + Waiting(ts), BufferedPackets(ts))
    ensures |BufferedPackets(ts)| == |PacketLines(ts)| + |Waiting(ts)| + Drops(ts)
    decreases |ts|
  {
    if ts != [] {
      var before, t := ts[..|ts| - 1], ts[|ts| - 1];
      SentInOrder(before);
      WaitingBound(before);
      var p, w, b := PacketLines(before), Waiting(before), BufferedPackets(before);
      if t.Buffered? {
        PacketJoins(p, w, b, t.packet);
        assert p + [] == p;
      } else if t.PacketOut? {
        assert p + [w[0]] + w[1..] == p + w && b + [] == b;
      } else {
        assert p + [] == p && b + [] == b;
      }
    }
  }

  lemma PacketJoins(p: seq<string>, w: seq<string>, b: seq<string>, x: string)
    requires Subsequence(p + w, b) && |w| <= DATA_CAPACITY
    ensures Subsequence(p + Newest(w + [x], DATA_CAPACITY), b + [x])
  {
    if |w| == DATA_CAPACITY {
      assert p + w == p + [w[0]] + w[1..];
      LeavingOneOut(p, w[0], w[1..], b);
      Extended(p + w[1..], b, x);
      assert (w + [x])[1..] == w[1..] + [x] && p + (w[1..] + [x]) == p + w[1..] + [x];
    } else {
      Extended(p + w, b, x);
      assert p + (w + [x]) == p + w + [x];
    }
  }

  // ---- The invariant ----

  /** A command goes out between "AT" and a carriage return; only the escape sequence goes out bare. */
  predicate IsAtLine(line: string, text: string) {
    if text == "+++" then line == "+++"
    else |line| == |text| + 3 && line[..2] == "AT" && line[2..|line| - 1] == text && line[|line| - 1] == '\r'
  }

  ghost predicate AtLinesMatch(lines: seq<string>, writes: seq<AtWrite>) {
    |lines| == |writes| && forall i | 0 <= i < |lines| :: IsAtLine(lines[i], writes[i].text)
  }

  /** The messages for the driver are the latest ones delivered. */
  predicate HoldsLatest(received: seq<string>, delivered: seq<string>) {
    |received| <= |delivered| && received == delivered[|delivered| - |received|..]
  }

  ghost predicate WireInvariant(m: Machine) {
    var ts := m.history.traffic;
    && m.serialTx == Serial(ts) && m.dataOut == Waiting(ts) && InTurn(ts)
    && AtLinesMatch(AtLines(ts), m.history.writes)
    && BlockLines(ts) == WrittenBlocks(m.history.sbd)
    && HoldsLatest(m.received, m.history.delivered)
  }

  /** Nothing has happened to the buffers or to the logs about them. */
  ghost predicate SameWire(m: Machine, m': Machine) {
    && m'.serialTx == m.serialTx && m'.dataOut == m.dataOut && m'.received == m.received
    && m'.history.traffic == m.history.traffic && m'.history.writes == m.history.writes
    && m'.history.delivered == m.history.delivered
    && WrittenBlocks(m'.history.sbd) == WrittenBlocks(m.history.sbd)
  }

  /** One more piece of traffic, and what it does to everything read off the traffic. */
  lemma OneMore(ts: seq<Traffic>, t: Traffic)
    ensures var ts' := ts + [t];
      && ts'[..|ts'| - 1] == ts && ts'[|ts'| - 1] == t
      && AtLines(ts') == AtLines(ts) + (if t.AtOut? then [t.line] else [])
      && BlockLines(ts') == BlockLines(ts) + (if t.BlockOut? then [t.line] else [])
  {
    assert (ts + [t])[..|ts|] == ts;
  }

  lemma OneMoreStep(log: seq<SbdAction>, action: SbdAction)
    ensures WrittenBlocks(log + [action]) == WrittenBlocks(log) + (if action.BlockWritten? then [action.block] else [])
  {
    assert (log + [action])[..|log|] == log;
  }

  lemma PushedIsNewest(s: seq<string>, x: string, capacity: nat)
    requires |s| <= capacity && capacity > 0
    ensures PushBack(s, x, capacity) == Newest(s + [x], capacity)
    ensures PushFront(s, x, capacity) == Foremost([x] + s, capacity)
  {
    if |s| == capacity {
      assert (s + [x])[1..] == s[1..] + [x] && ([x] + s)[..capacity] == [x] + s[..capacity - 1];
    }
  }

  lemma LatestAfterDelivery(received: seq<string>, delivered: seq<string>, x: string)
    requires HoldsLatest(received, delivered) && |received| <= RECEIVED_CAPACITY
    ensures HoldsLatest(PushBack(received, x, RECEIVED_CAPACITY), delivered + [x])
  {
    var n := |delivered| - |received|;
    assert (delivered + [x])[n..] == received + [x];
    if |received| == RECEIVED_CAPACITY {
      assert (delivered + [x])[n + 1..] == (received + [x])[1..] == received[1..] + [x];
    }
  }

  // ---- One reaction ----

  lemma TxKeepsWire(m: Machine, now: real)
    requires m.mode.InCommand? && WithinCapacity(m) && WireInvariant(m)
    ensures WireInvariant(CommandTx(m, now).machine)
  {
    var m', ts := CommandTx(m, now).machine, m.history.traffic;
    if m'.history.writes != m.history.writes {
      var s := m.mode.cmd.atOut[0];
      var line := AtLine(s.text);
      OneMore(ts, AtOut(line));
      PushedIsNewest(m.serialTx, line, SERIAL_CAPACITY);
      AtLineIsFramed(s.text);
      assert m'.history.traffic == ts + [AtOut(line)];
    }
  }

  lemma AtLineIsFramed(text: string)
    ensures IsAtLine(AtLine(text), text)
  {
    if text != "+++" {
      var line := "AT" + text + "\r";
      assert line[..2] == "AT" && line[2..|line| - 1] == text;
    }
  }

  lemma BlockKeepsWire(m: Machine)
    requires m.mode.InCommand? && WithinCapacity(m) && WireInvariant(m)
    ensures WireInvariant(WriteSbdBlock(m))
  {
    var data := m.mode.cmd.data;
    OneMore(m.history.traffic, BlockOut(data));
    OneMoreStep(m.history.sbd, BlockWritten(data));
    PushedIsNewest(m.serialTx, data, SERIAL_CAPACITY);
  }

  lemma PacketKeepsWire(m: Machine, now: real)
    requires m.call.OnCall? && WithinCapacity(m) && m.cfg.targetBitRate > 0 && WireInvariant(m)
    ensures WireInvariant(OnCallTx(m, now))
  {
    if m.dataOut != [] {
      OneMore(m.history.traffic, PacketOut(m.dataOut[0]));
      PushedIsNewest(m.serialTx, m.dataOut[0], SERIAL_CAPACITY);
    }
  }

  lemma FrontKeepsWire(m: Machine, line: string)
    requires WithinCapacity(m) && WireInvariant(m)
    ensures WireInvariant(PutFront(m, line))
  {
    OneMore(m.history.traffic, FrontOut(line));
    PushedIsNewest(m.serialTx, line, SERIAL_CAPACITY);
  }

  lemma LineKeepsWire(m: Machine, line: string)
    requires m.mode.InCommand? && WithinCapacity(m) && Readable(m, EvRxSerial(line, false)) && WireInvariant(m)
    ensures WireInvariant(CommandRx(m, line).machine)
  {
    var m' := CommandRx(m, line).machine;
    if ReadingSbd(m.mode.cmd) {
      var b := Collected(m.mode.cmd.rxBuffer, line);
      if Complete(b) {
        LatestAfterDelivery(m.received, m.history.delivered, b[2..2 + 256 * Byte(b[0]) + Byte(b[1])]);
      }
    } else {
      assert SameWire(m, m');
    }
  }

  lemma OnCallLineKeepsWire(m: Machine, line: string, decodes: bool, now: real)
    requires m.call.OnCall? && WithinCapacity(m) && WireInvariant(m)
    ensures WireInvariant(OnCallRx(m, line, decodes, now).machine)
  {
    LatestAfterDelivery(m.received, m.history.delivered, line);
  }

  lemma SbdLeavesWire(m: Machine, e: Event)
    requires m.mode.InCommand? && WithinCapacity(m) && IsSbdEvent(e) && !e.EvSBDWriteReady?
    ensures SameWire(m, SbdDispatch(m, e).machine)
  {
    var log := m.history.sbd;
    if e.EvSBDBeginData? {
      OneMoreStep(log, Begun(e.data));
    } else if e.EvSBDSendBufferCleared? {
      var data := m.mode.cmd.data;
      OneMoreStep(log, LengthQueued("+SBDWB=" + Text.Decimal(if |data| >= 2 then |data| - 2 else 0)));
    }
  }

  lemma SbdKeepsWire(m: Machine, e: Event)
    requires m.mode.InCommand? && WithinCapacity(m) && IsSbdEvent(e) && WireInvariant(m)
    ensures WireInvariant(SbdDispatch(m, e).machine)
  {
    if e.EvSBDWriteReady? {
      BlockKeepsWire(m);
    } else {
      SbdLeavesWire(m, e);
    }
  }

  lemma MainLeavesWire(m: Machine, e: Event, now: real)
    requires m.mode.InCommand? && WithinCapacity(m) && Readable(m, e) && !IsSerial(e)
    ensures SameWire(m, MainDispatch(m, e, now).machine)
  {
  }

  lemma CallKeepsWire(m: Machine, e: Event, now: real, callFirst: bool)
    requires CanDispatch(m, e) && IsCallEvent(e) && WireInvariant(m)
    ensures WireInvariant(CallDispatch(m, e, now, callFirst).machine)
  {
    if e.EvConnect? && m.call.NotOnCall? {
      FrontKeepsWire(m.(call := OnCall(now, now, 0.0, 0, 0, false, false, false)), "goby\r");
    } else if m.call.OnCall? && e.EvTxOnCallSerial? {
      PacketKeepsWire(m, now);
    } else if m.call.OnCall? && e.EvRxOnCallSerial? {
      OnCallLineKeepsWire(m, e.line, e.decodes, now);
    } else if m.call.OnCall? && e.EvSendBye? {
      FrontKeepsWire(m.(call := m.call.(byeSent := true)), "bye\r");
    } else {
      CallLeavesWire(m, e, now, callFirst);
    }
  }

  lemma CallLeavesWire(m: Machine, e: Event, now: real, callFirst: bool)
    requires CanDispatch(m, e) && IsCallEvent(e) && !(e.EvConnect? && m.call.NotOnCall?)
    requires m.call.OnCall? ==> e.EvReset? || e.EvNoCarrier? || e.EvConnect?
    ensures SameWire(m, CallDispatch(m, e, now, callFirst).machine)
  {
  }

  lemma DispatchKeepsWire(m: Machine, e: Event, now: real, callFirst: bool)
    requires CanDispatch(m, e) && WireInvariant(m)
    ensures WireInvariant(Dispatch(m, e, now, callFirst).machine)
  {
    if IsCallEvent(e) {
      CallKeepsWire(m, e, now, callFirst);
    } else if m.mode.Online? {
      assert SameWire(m, OnlineDispatch(m, e).machine);
    } else if IsSbdEvent(e) {
      SbdKeepsWire(m, e);
    } else if e.EvTxSerial? {
      TxKeepsWire(m, now);
    } else if e.EvRxSerial? {
      LineKeepsWire(m, e.line);
    } else {
      MainLeavesWire(m, e, now);
    }
  }

  // ---- Runs ----

  lemma {:induction false} DrainKeepsWire(m: Machine, queue: seq<Event>, now: real, callFirst: nat -> bool, n: nat)
    requires Drainable(m, queue) && WireInvariant(m)
    ensures WireInvariant(Drain(m, queue, now, callFirst, n))
    decreases TotalWeight(queue)
  {
    if queue != [] {
      var e, q := queue[0], queue[1..];
      assert queue == [e] + q;
      var r := Dispatch(m, e, now, callFirst(n));
      DispatchKeepsWire(m, e, now, callFirst(n));
      PostedIsLighter(m, e, now, callFirst(n));
      TotalWeightConcat(q, r.posted);
      DrainOne(m, e, q, now, callFirst, n);
      DrainKeepsWire(r.machine, q + r.posted, now, callFirst, n + 1);
    }
  }

  lemma BufferingKeepsWire(m: Machine, packet: string)
    requires WithinCapacity(m) && WireInvariant(m)
    ensures WireInvariant(LogTraffic(m.(dataOut := PushBack(m.dataOut, packet, DATA_CAPACITY)), Buffered(packet)))
  {
    OneMore(m.history.traffic, Buffered(packet));
    PushedIsNewest(m.dataOut, packet, DATA_CAPACITY);
  }

  lemma DriverLineKeepsWire(m: Machine, line: string)
    requires WithinCapacity(m) && WireInvariant(m)
    ensures WireInvariant(PutBack(m, LineOut(line)))
  {
    OneMore(m.history.traffic, LineOut(line));
    PushedIsNewest(m.serialTx, line, SERIAL_CAPACITY);
  }

  lemma TakingKeepsWire(m: Machine)
    requires m.serialTx != [] && WireInvariant(m)
    ensures WireInvariant(LogTraffic(m.(serialTx := m.serialTx[1..]), TakenOut))
  {
    OneMore(m.history.traffic, TakenOut);
  }

  lemma ApplyKeepsWire(m: Machine, i: Input)
    requires Accepts(m, i) && WireInvariant(m)
    ensures WireInvariant(Apply(m, i))
  {
    if i.Process? {
      DrainKeepsWire(m, [i.e], i.now, i.callFirst, 0);
    } else if i.BufferData? {
      BufferingKeepsWire(m, i.packet);
    } else if i.PushSerial? {
      DriverLineKeepsWire(m, i.line);
    } else if i.WriteSerial? && m.serialTx != [] {
      TakingKeepsWire(m);
    }
  }

  lemma {:induction false} RunKeepsWire(m: Machine, inputs: seq<Input>)
    requires CanRun(m, inputs) && WireInvariant(m)
    ensures WireInvariant(Run(m, inputs))
    decreases |inputs|
  {
    if inputs != [] {
      ApplyKeepsWire(m, inputs[0]);
      RunKeepsWire(Apply(m, inputs[0]), inputs[1..]);
    }
  }

  lemma InitialWire(cfg: DriverConfig)
    ensures WireInvariant(Initial(cfg))
  {
  }

  // ---- What the runs put on the wire ----

  /**
   In every run the serial buffer holds what its traffic leaves in it; the AT lines of the traffic
   are the AT writes.
   */
  lemma CommandsReachModem(cfg: DriverConfig, inputs: seq<Input>)
    requires CanRun(Initial(cfg), inputs)
    ensures var m := Run(Initial(cfg), inputs); var ts := m.history.traffic;
      && m.serialTx == Serial(ts)
      && |AtLines(ts)| == |m.history.writes|
      && forall i | 0 <= i < |AtLines(ts)| :: IsAtLine(AtLines(ts)[i], m.history.writes[i].text)
  {
    InitialWire(cfg);
    RunKeepsWire(Initial(cfg), inputs);
  }

  /** A block is a payload and its byte sum modulo 65536, high byte first. */
  predicate IsBlockOf(block: string, payload: string) {
    && |block| == |payload| + 2 && block[..|payload|] == payload
    && 256 * Byte(block[|payload|]) + Byte(block[|payload| + 1]) == ByteSum(payload) % 65536
  }

  /** A session with this payload, not empty, was begun, and this is its block. */
  predicate IsSessionBlock(log: seq<SbdAction>, block: string, payload: string) {
    Begun(payload) in log && payload != "" && IsBlockOf(block, payload)
  }

  ghost predicate HasSession(log: seq<SbdAction>, block: string) {
    exists payload: string :: IsSessionBlock(log, block, payload)
  }

  ghost predicate AreSessionBlocks(log: seq<SbdAction>, blocks: seq<string>) {
    forall k | 0 <= k < |blocks| :: HasSession(log, blocks[k])
  }

  /**
   In every run the blocks put into the serial buffer are exactly the blocks of the session log, in
   order and each once, and each is the payload of a session that was begun, with its byte sum.
   */
  lemma BlocksReachModem(cfg: DriverConfig, inputs: seq<Input>)
    requires cfg.targetBitRate > 0 && CanRun(Initial(cfg), inputs)
    ensures var m := Run(Initial(cfg), inputs); var ts := m.history.traffic;
      && BlockLines(ts) == WrittenBlocks(m.history.sbd)
      && AreSessionBlocks(m.history.sbd, BlockLines(ts))
  {
    InitialWire(cfg);
    RunKeepsWire(Initial(cfg), inputs);
    InitialInvariant(cfg);
    RunKeepsInvariant(Initial(cfg), inputs);
    FaithfulBlocks(Run(Initial(cfg), inputs).history.sbd);
  }

  lemma {:induction false} FaithfulBlocks(log: seq<SbdAction>)
    requires Faithful(log)
    ensures AreSessionBlocks(log, WrittenBlocks(log))
    decreases |log|
  {
    if log != [] {
      var before, last := log[..|log| - 1], log[|log| - 1];
      FaithfulBlocks(before);
      assert log == before + [last];
      MoreBlocks(before, last, WrittenBlocks(before));
      if last.BlockWritten? {
        var payload := CurrentSession(before).payload;
        FramedIsPayloadAndSum(payload);
        SessionWasBegun(before);
        assert IsSessionBlock(log, last.block, payload);
        assert HasSession(log, last.block);
      }
    }
  }

  lemma MoreBlocks(log: seq<SbdAction>, last: SbdAction, blocks: seq<string>)
    requires AreSessionBlocks(log, blocks)
    ensures AreSessionBlocks(log + [last], blocks)
  {
    forall k | 0 <= k < |blocks|
      ensures HasSession(log + [last], blocks[k])
    {
      assert HasSession(log, blocks[k]);
      var payload: string :| IsSessionBlock(log, blocks[k], payload);
      assert IsSessionBlock(log + [last], blocks[k], payload);
    }
  }

  lemma {:induction false} SessionWasBegun(log: seq<SbdAction>)
    requires CurrentSession(log).Session?
    ensures Begun(CurrentSession(log).payload) in log
    decreases |log|
  {
    if !log[|log| - 1].Begun? {
      SessionWasBegun(log[..|log| - 1]);
      assert forall x | x in log[..|log| - 1] :: x in log;
    }
  }

  /** The packets that the driver asked to buffer, in order. */
  function AskedToBuffer(inputs: seq<Input>): seq<string> {
    if inputs == [] then []
    else (if inputs[0].BufferData? then [inputs[0].packet] else []) + AskedToBuffer(inputs[1..])
  }

  /** Only the driver's own requests buffer packets. */
  ghost predicate SameBuffered(m: Machine, m': Machine) {
    BufferedPackets(m'.history.traffic) == BufferedPackets(m.history.traffic)
  }

  lemma DispatchBuffersNothing(m: Machine, e: Event, now: real, callFirst: bool)
    requires CanDispatch(m, e)
    ensures SameBuffered(m, Dispatch(m, e, now, callFirst).machine)
  {
    var ts, ts' := m.history.traffic, Dispatch(m, e, now, callFirst).machine.history.traffic;
    DispatchTraffic(m, e, now, callFirst);
    if ts' != ts {
      assert ts'[..|ts'| - 1] == ts;
      assert BufferedPackets(ts) + [] == BufferedPackets(ts);
    }
  }

  ghost predicate AtMostOne(ts: seq<Traffic>, ts': seq<Traffic>) {
    ts' == ts || (|ts'| == |ts| + 1 && ts' == ts + [ts'[|ts|]] && (IsPush(ts'[|ts|]) || ts'[|ts|].FrontOut?)
                  && !ts'[|ts|].LineOut?)
  }

  lemma CallTraffic(m: Machine, e: Event, now: real, callFirst: bool)
    requires CanDispatch(m, e) && IsCallEvent(e)
    ensures AtMostOne(m.history.traffic, CallDispatch(m, e, now, callFirst).machine.history.traffic)
  {
  }

  lemma CommandTraffic(m: Machine, e: Event, now: real)
    requires m.mode.InCommand? && WithinCapacity(m) && Readable(m, e)
    ensures AtMostOne(m.history.traffic, CommandDispatch(m, e, now).machine.history.traffic)
  {
    if IsSbdEvent(e) {
      assert AtMostOne(m.history.traffic, SbdDispatch(m, e).machine.history.traffic);
    } else if e.EvTxSerial? {
      assert AtMostOne(m.history.traffic, CommandTx(m, now).machine.history.traffic);
    } else if e.EvRxSerial? {
      assert AtMostOne(m.history.traffic, CommandRx(m, e.line).machine.history.traffic);
    } else {
      MainLeavesWire(m, e, now);
    }
  }

  /** A reaction puts at most one line of its own into the serial buffer; it takes nothing off and buffers nothing. */
  lemma DispatchTraffic(m: Machine, e: Event, now: real, callFirst: bool)
    requires CanDispatch(m, e)
    ensures AtMostOne(m.history.traffic, Dispatch(m, e, now, callFirst).machine.history.traffic)
  {
    if IsCallEvent(e) {
      CallTraffic(m, e, now, callFirst);
    } else if m.mode.InCommand? {
      CommandTraffic(m, e, now);
    }
  }

  lemma {:induction false} DrainBuffersNothing(m: Machine, queue: seq<Event>, now: real, callFirst: nat -> bool, n: nat)
    requires Drainable(m, queue)
    ensures SameBuffered(m, Drain(m, queue, now, callFirst, n))
    decreases TotalWeight(queue)
  {
    if queue != [] {
      var e, q := queue[0], queue[1..];
      assert queue == [e] + q;
      var r := Dispatch(m, e, now, callFirst(n));
      DispatchBuffersNothing(m, e, now, callFirst(n));
      PostedIsLighter(m, e, now, callFirst(n));
      TotalWeightConcat(q, r.posted);
      DrainOne(m, e, q, now, callFirst, n);
      DrainBuffersNothing(r.machine, q + r.posted, now, callFirst, n + 1);
    }
  }

  lemma {:induction false} RunBuffers(m: Machine, inputs: seq<Input>)
    requires CanRun(m, inputs)
    ensures BufferedPackets(Run(m, inputs).history.traffic)
         == BufferedPackets(m.history.traffic) + AskedToBuffer(inputs)
    decreases |inputs|
  {
    var b := BufferedPackets(m.history.traffic);
    if inputs == [] {
      assert b + [] == b;
    } else {
      var i := inputs[0];
      var m' := Apply(m, i);
      var asked := if i.BufferData? then [i.packet] else [];
      assert BufferedPackets(m'.history.traffic) == b + asked by {
        ApplyBuffers(m, i);
      }
      RunBuffers(m', inputs[1..]);
      assert b + asked + AskedToBuffer(inputs[1..]) == b + (asked + AskedToBuffer(inputs[1..]));
    }
  }

  lemma ApplyBuffers(m: Machine, i: Input)
    requires Accepts(m, i)
    ensures BufferedPackets(Apply(m, i).history.traffic)
         == BufferedPackets(m.history.traffic) + (if i.BufferData? then [i.packet] else [])
  {
    var ts, ts' := m.history.traffic, Apply(m, i).history.traffic;
    assert BufferedPackets(ts) + [] == BufferedPackets(ts);
    if i.Process? {
      DrainBuffersNothing(m, [i.e], i.now, i.callFirst, 0);
    } else if ts' != ts {
      assert ts'[..|ts'| - 1] == ts;
    }
  }

  /**
   In every run the packets sent on calls, followed by those still buffered, are the packets the
   driver asked to send, in that order, less one for every time the buffer was full.
   */
  lemma PacketsInOrder(cfg: DriverConfig, inputs: seq<Input>)
    requires CanRun(Initial(cfg), inputs)
    ensures var m := Run(Initial(cfg), inputs); var ts := m.history.traffic;
      && m.dataOut == Waiting(ts) && InTurn(ts)
      && Subsequence(PacketLines(ts) + m.dataOut, AskedToBuffer(inputs))
      && |AskedToBuffer(inputs)| == |PacketLines(ts)| + |m.dataOut| + Drops(ts)
  {
    InitialWire(cfg);
    RunKeepsWire(Initial(cfg), inputs);
    RunBuffers(Initial(cfg), inputs);
    SentInOrder(Run(Initial(cfg), inputs).history.traffic);
    assert [] + AskedToBuffer(inputs) == AskedToBuffer(inputs);
  }

  /** In every run the messages held for the driver are the latest ones delivered. */
  lemma LatestAreHeld(cfg: DriverConfig, inputs: seq<Input>)
    requires CanRun(Initial(cfg), inputs)
    ensures var m := Run(Initial(cfg), inputs); HoldsLatest(m.received, m.history.delivered)
  {
    InitialWire(cfg);
    RunKeepsWire(Initial(cfg), inputs);
  }

  // ---- Single steps ----

  lemma NewestOf(s: seq<string>, x: string, capacity: nat)
    requires |s| <= capacity && capacity > 0
    ensures var s' := Newest(s + [x], capacity);
      s' != [] && s'[|s'| - 1] == x && s'[..|s'| - 1] == if |s| == capacity then s[1..] else s
  {
  }

  /** A poll that finds the front sentence due puts it at the end of the serial buffer, in the form for the modem. */
  lemma PollSendsCommand(m: Machine, i: Input)
    requires Accepts(m, i) && i.Process? && i.e.EvTxSerial? && IsDue(m, i.now)
    requires m.mode.cmd.atOut[0].tries < RETRIES_BEFORE_RESET
    ensures var tx := Apply(m, i).serialTx;
      && tx != [] && IsAtLine(tx[|tx| - 1], m.mode.cmd.atOut[0].text)
      && tx[..|tx| - 1] == if |m.serialTx| == SERIAL_CAPACITY then m.serialTx[1..] else m.serialTx
  {
    var r := CommandTx(m, i.now);
    assert [i.e] + [] == [i.e] && [] + r.posted == r.posted == [];
    DrainOne(m, i.e, [], i.now, i.callFirst, 0);
    assert Dispatch(m, i.e, i.now, i.callFirst(0)) == r;
    var text := m.mode.cmd.atOut[0].text;
    AtLineIsFramed(text);
    PushedIsNewest(m.serialTx, AtLine(text), SERIAL_CAPACITY);
    NewestOf(m.serialTx, AtLine(text), SERIAL_CAPACITY);
  }

  /** The time the last packet takes at the target rate is over. */
  predicate IsDueOnCall(m: Machine, now: real)
    requires m.cfg.targetBitRate > 0
  {
    m.call.OnCall? && (now - m.call.lastTx) * m.cfg.targetBitRate as real > 8.0 * m.call.lastBytes as real
  }

  lemma DueMeansWaited(now: real, lastTx: real, bytes: real, bits: real)
    requires bits > 0.0
    ensures now > lastTx + bytes / (bits / 8.0) <==> (now - lastTx) * bits > 8.0 * bytes
  {
    var wait := bytes / (bits / 8.0);
    assert wait * (bits / 8.0) == bytes;
    assert wait * bits == 8.0 * bytes;
    var d := now - lastTx - wait;
    assert d * bits == (now - lastTx) * bits - wait * bits;
    if d > 0.0 {
      assert d * bits > 0.0;
    } else {
      assert d * bits <= 0.0;
    }
  }

  /**
   A poll on a call moves exactly the oldest packet to the end of the serial buffer if one waits
   and the last one's time is over, and otherwise leaves the machine as it is.
   */
  lemma PollSendsPacket(m: Machine, i: Input)
    requires Accepts(m, i) && i.Process? && i.e.EvTxSerial? && m.mode.Online? && m.call.OnCall?
    ensures var m' := Apply(m, i);
      if m.dataOut != [] && IsDueOnCall(m, i.now) then
        && m'.dataOut == m.dataOut[1..]
        && m'.serialTx == Newest(m.serialTx + [m.dataOut[0]], SERIAL_CAPACITY)
        && m'.call == m.call.(lastTx := i.now, lastBytes := |m.dataOut[0]|,
                              totalBytes := m.call.totalBytes + |m.dataOut[0]|)
      else m' == m
  {
    var e := EvTxOnCallSerial;
    assert [i.e] + [] == [i.e] && [] + [e] == [e] && [e] + [] == [e];
    DrainOne(m, i.e, [], i.now, i.callFirst, 0);
    DrainOne(m, e, [], i.now, i.callFirst, 1);
    var m' := OnCallTx(m, i.now);
    assert Dispatch(m, e, i.now, i.callFirst(1)) == Reaction(m', []);
    assert Apply(m, i) == m';
    DueMeansWaited(i.now, m.call.lastTx, m.call.lastBytes as real, m.cfg.targetBitRate as real);
    if m.dataOut != [] {
      PushedIsNewest(m.serialTx, m.dataOut[0], SERIAL_CAPACITY);
    }
  }

  /** A packet to be sent waits at the end, in place of the oldest one if five wait already. */
  lemma PacketIsBuffered(m: Machine, packet: string)
    requires Accepts(m, BufferData(packet))
    ensures Apply(m, BufferData(packet)).dataOut == Newest(m.dataOut + [packet], DATA_CAPACITY)
  {
    PushedIsNewest(m.dataOut, packet, DATA_CAPACITY);
  }

  // ---- Lines on a call ----

  /** The text of a line is one of the words of the call protocol. */
  predicate IsWord(line: string, word: string) {
    Text.Trim(line) == word
  }

  lemma LineReachesCall(m: Machine, i: Input)
    requires Accepts(m, i) && i.Process? && i.e.EvRxSerial? && m.mode.Online? && m.call.OnCall?
    requires !Text.Contains(i.e.line, "NO CARRIER")
    ensures Apply(m, i) == OnCallRx(m, i.e.line, i.e.decodes, i.now).machine
  {
    var e := EvRxOnCallSerial(i.e.line, i.e.decodes);
    assert [i.e] + [] == [i.e] && [] + [e] == [e] && [e] + [] == [e];
    DrainOne(m, i.e, [], i.now, i.callFirst, 0);
    DrainOne(m, e, [], i.now, i.callFirst, 1);
    var r := OnCallRx(m, i.e.line, i.e.decodes, i.now);
    assert Dispatch(m, e, i.now, i.callFirst(1)) == r && r.posted == [];
  }

  /**
   A line on a call is a greeting, which changes nothing; a good-bye, which is noted; a packet,
   which is delivered once and held for the driver; or else it is ignored.
   */
  lemma LineOnCall(m: Machine, i: Input)
    requires Accepts(m, i) && i.Process? && i.e.EvRxSerial? && m.mode.Online? && m.call.OnCall?
    requires !Text.Contains(i.e.line, "NO CARRIER")
    ensures var m', line := Apply(m, i), i.e.line;
      if IsWord(line, "bye") then m' == m.(call := m.call.(byeReceived := true))
      else if IsWord(line, "goby") || !i.e.decodes then m' == m
      else
        && m'.history.delivered == m.history.delivered + [line]
        && m'.received == Newest(m.received + [line], RECEIVED_CAPACITY)
        && m' == m.(call := m.call.(lastRx := i.now), received := m'.received, history := m'.history)
  {
    LineReachesCall(m, i);
    PushedIsNewest(m.received, i.e.line, RECEIVED_CAPACITY);
  }

  /** A good-bye of our own goes out before everything that still waits. */
  lemma ByeGoesFirst(m: Machine, i: Input)
    requires Accepts(m, i) && i.Process? && i.e.EvSendBye? && m.call.OnCall?
    ensures var m' := Apply(m, i);
      && m'.serialTx == Foremost(["bye\r"] + m.serialTx, SERIAL_CAPACITY)
      && m' == m.(call := m.call.(byeSent := true), serialTx := m'.serialTx, history := m'.history)
  {
    assert [i.e] + [] == [i.e];
    DrainOne(m, i.e, [], i.now, i.callFirst, 0);
    var m' := SendBye(m);
    assert Dispatch(m, i.e, i.now, i.callFirst(0)) == Reaction(m', []);
    assert Apply(m, i) == m';
    PushedIsNewest(m.serialTx, "bye\r", SERIAL_CAPACITY);
  }
}
