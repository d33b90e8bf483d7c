/** Integrity of short-burst-data sessions. */
module IridiumSbd {
  import opened Arithmetic
  import opened Basics
  import opened Text
  import opened Iridium
  import opened IridiumRun
  import opened IridiumSafety

  // ---- What a history of session steps must look like ----

  datatype Session = NoSession | Session(payload: string)

  /** The session most recently begun. */
  function CurrentSession(log: seq<SbdAction>): Session {
    if log == [] then NoSession
    else
      var last := log[|log| - 1];
      if last.Begun? then Session(last.payload) else CurrentSession(log[..|log| - 1])
  }

  /**
   Every announced length is the length of the session's payload, and every block written is that
   payload followed by its checksum.
   */
  ghost predicate Faithful(log: seq<SbdAction>) {
    log == [] || (
      var before := log[..|log| - 1];
      Faithful(before) &&
      match log[|log| - 1]
      case Begun(_) => true
      case LengthQueued(command) =>
        CurrentSession(before).Session? && command == "+SBDWB=" + Decimal(|CurrentSession(before).payload|)
      case BlockWritten(block) =>
        var session := CurrentSession(before);
        session.Session? && session.payload != "" && block == Framed(session.payload))
  }

  /** The command announces, in decimal notation, the length of the session's payload. */
  predicate Announces(command: string, session: Session) {
    && session.Session? && "+SBDWB=" <= command
    && var digits := command[|"+SBDWB="|..];
       (forall c | c in digits :: IsDigit(c)) && DigitsValue(digits) == |session.payload|
  }

  /** Step by step: each length is that of the payload of the session then current, and each block its frame. */
  lemma {:induction false} FaithfulSteps(log: seq<SbdAction>, k: nat)
    requires Faithful(log) && k < |log|
    ensures var session := CurrentSession(log[..k]);
      && (log[k].LengthQueued? ==> Announces(log[k].command, session))
      && (log[k].BlockWritten? ==> session.Session? && session.payload != "" && log[k].block == Framed(session.payload))
    decreases |log|
  {
    var n, before := |log| - 1, log[..|log| - 1];
    if k < n {
      FaithfulSteps(before, k);
      assert before[..k] == log[..k] && before[k] == log[k];
    } else if log[k].LengthQueued? {
      var digits := Decimal(|CurrentSession(before).payload|);
      DecimalDenotes(|CurrentSession(before).payload|);
      assert ("+SBDWB=" + digits)[7..] == digits;
    }
  }

  lemma Logged(log: seq<SbdAction>, action: SbdAction)
    ensures (log + [action])[..|log|] == log && (log + [action])[|log|] == action
    ensures !action.Begun? ==> CurrentSession(log + [action]) == CurrentSession(log)
    ensures action.Begun? ==> CurrentSession(log + [action]) == Session(action.payload)
  {
  }

  // ---- The invariant ----

  predicate AsksForBlock(e: Event) {
    e == EvAck("READY") || e.EvSBDWriteReady?
  }

  predicate ClearsBuffer(e: Event) {
    (e.EvAck? && e.response != "" && e.response[0] == '0') || e.EvSBDSendBufferCleared?
  }

  ghost predicate SbdInvariant(m: Machine, q: seq<Event>) {
    && Faithful(m.history.sbd)
    && (forall a, b | a in q && b in q && AsksForBlock(a) :: !ClearsBuffer(b))
    && (m.mode.InCommand? ==>
          var cmd := m.mode.cmd;
          && (cmd.sbd.SbdReady? || cmd.sbd.SbdReceive? ==> cmd.data == "")
          && (cmd.sbd.SbdClearBuffers? || cmd.sbd.SbdWrite? || cmd.sbd.SbdTransmit? ==>
                CurrentSession(m.history.sbd).Session? && cmd.data == Framed(CurrentSession(m.history.sbd).payload))
          && (cmd.sbd.SbdWrite? && cmd.data == "" ==>
                EvSBDWriteComplete in q && forall e | e in q :: !AsksForBlock(e)))
  }

  // ---- Reactions that leave the sessions alone ----

  ghost predicate SbdUntouched(m: Machine, e: Event, m': Machine, posted: seq<Event>) {
    && m'.history.sbd == m.history.sbd
    && (m'.mode.InCommand? ==>
          (m'.mode.cmd.sbd.SbdReady? && m'.mode.cmd.data == "")
          || (m.mode.InCommand? && m'.mode.cmd.sbd == m.mode.cmd.sbd && m'.mode.cmd.data == m.mode.cmd.data))
    && (forall a | a in posted && AsksForBlock(a) :: AsksForBlock(e) || e.EvRxSerial?)
    && (forall a | a in posted && ClearsBuffer(a) :: ClearsBuffer(e) || e.EvRxSerial?)
    && (forall a, b | a in posted && b in posted && AsksForBlock(a) :: !ClearsBuffer(b))
    && !e.EvSBDWriteComplete?
  }

  lemma UntouchedKeepsSbd(m: Machine, e: Event, q: seq<Event>, m': Machine, posted: seq<Event>)
    requires QueueShape([e] + q) && SbdInvariant(m, [e] + q) && SbdUntouched(m, e, m', posted)
    ensures SbdInvariant(m', q + posted)
  {
    assert forall x | x in q :: x in [e] + q;
    assert e in [e] + q;
    if e.EvRxSerial? {
      assert q == [];
    }
  }

  lemma CallLeavesSbd(m: Machine, e: Event, now: real, callFirst: bool)
    requires CanDispatch(m, e) && IsCallEvent(e)
    ensures var r := CallDispatch(m, e, now, callFirst); SbdUntouched(m, e, r.machine, r.posted)
  {
    if e.EvNoCarrier? {
      NoCarrierLeavesSbd(m, callFirst);
    } else if e.EvReset? {
      ResetLeavesSbd(m);
    } else if m.call.OnCall? {
      OnCallLeavesSbd(m, e, now, callFirst);
    }
  }

  lemma ResetLeavesSbd(m: Machine)
    requires WithinCapacity(m)
    ensures SbdUntouched(m, EvReset, EnterConfigure(m.(call := NotOnCall)), LeavingCall(m) + LeavingConfigure(m))
  {
  }

  lemma OnCallLeavesSbd(m: Machine, e: Event, now: real, callFirst: bool)
    requires CanDispatch(m, e) && IsCallEvent(e) && !e.EvNoCarrier? && !e.EvReset? && m.call.OnCall?
    ensures var r := CallDispatch(m, e, now, callFirst); SbdUntouched(m, e, r.machine, r.posted)
  {
    var r := CallDispatch(m, e, now, callFirst);
    assert r.machine.mode == m.mode && r.machine.history.sbd == m.history.sbd;
    assert r.posted == [] || r.posted == [EvNoCarrier];
  }

  lemma NoCarrierLeavesSbd(m: Machine, callFirst: bool)
    requires WithinCapacity(m)
    ensures var r := NoCarrier(m, callFirst); SbdUntouched(m, EvNoCarrier, r.machine, r.posted)
  {
  }

  lemma MainLeavesSbd(m: Machine, e: Event, now: real)
    requires m.mode.InCommand? && WithinCapacity(m) && Readable(m, e) && !IsSbdEvent(e)
    ensures var r := MainDispatch(m, e, now); SbdUntouched(m, e, r.machine, r.posted)
  {
    if e.EvRxSerial? {
      LineLeavesSbd(m, e);
    } else if e.EvAck? {
      AckLeavesSbd(m, e);
    }
  }

  lemma LineLeavesSbd(m: Machine, e: Event)
    requires m.mode.InCommand? && WithinCapacity(m) && Readable(m, e) && e.EvRxSerial?
    ensures var r := CommandRx(m, e.line); SbdUntouched(m, e, r.machine, r.posted)
  {
  }

  lemma AckLeavesSbd(m: Machine, e: Event)
    requires m.mode.InCommand? && WithinCapacity(m) && e.EvAck?
    ensures var r := CommandAck(m, e.response); SbdUntouched(m, e, r.machine, r.posted)
  {
  }

  lemma OnlineLeavesSbd(m: Machine, e: Event)
    requires m.mode.Online? && WithinCapacity(m) && !IsSbdEvent(e)
    ensures var r := OnlineDispatch(m, e); SbdUntouched(m, e, r.machine, r.posted)
  {
  }

  // ---- Reactions of the SBD region ----

  lemma BeginKeepsSbd(m: Machine, data: string, ringAlert: bool, q: seq<Event>)
    requires SbdInvariant(m, [EvSBDBeginData(data, ringAlert)] + q)
    requires m.mode.InCommand? && WithinCapacity(m)
    ensures SbdInvariant(BeginSbd(m, data, ringAlert), q)
  {
    Logged(m.history.sbd, Begun(data));
    assert forall x | x in q :: x in [EvSBDBeginData(data, ringAlert)] + q;
  }

  lemma FramedLength(payload: string)
    ensures payload != "" ==> |Framed(payload)| == |payload| + 2
    ensures Framed(payload) == "" <==> payload == ""
  {
  }

  lemma ClearedKeepsSbd(m: Machine, q: seq<Event>)
    requires SbdInvariant(m, [EvSBDSendBufferCleared] + q)
    requires m.mode.InCommand? && WithinCapacity(m) && m.mode.cmd.sbd.SbdClearBuffers?
    ensures var r := EnterSbdWrite(m); SbdInvariant(r.machine, q + r.posted)
  {
    var e := EvSBDSendBufferCleared;
    assert e in [e] + q;
    assert forall x | x in q :: x in [e] + q;
    FramedLength(CurrentSession(m.history.sbd).payload);
    if m.mode.cmd.data != "" {
      LengthKeepsFaith(m.history.sbd);
      assert q + [] == q;
    }
  }

  lemma LengthKeepsFaith(log: seq<SbdAction>)
    requires Faithful(log) && CurrentSession(log).Session?
    ensures var log' := log + [LengthQueued("+SBDWB=" + Decimal(|CurrentSession(log).payload|))];
      Faithful(log') && CurrentSession(log') == CurrentSession(log)
  {
    Logged(log, LengthQueued("+SBDWB=" + Decimal(|CurrentSession(log).payload|)));
  }

  lemma WriteKeepsSbd(m: Machine, q: seq<Event>)
    requires SbdInvariant(m, [EvSBDWriteReady] + q)
    requires m.mode.InCommand? && WithinCapacity(m) && m.mode.cmd.sbd.SbdWrite?
    ensures SbdInvariant(WriteSbdBlock(m), q)
  {
    assert EvSBDWriteReady in [EvSBDWriteReady] + q;
    assert forall x | x in q :: x in [EvSBDWriteReady] + q;
    FramedLength(CurrentSession(m.history.sbd).payload);
    Logged(m.history.sbd, BlockWritten(m.mode.cmd.data));
  }

  lemma LaterStatesKeepSbd(m: Machine, e: Event, q: seq<Event>)
    requires SbdInvariant(m, [e] + q) && m.mode.InCommand? && WithinCapacity(m)
    requires e.EvSBDWriteComplete? || e.EvSBDTransmitComplete? || e.EvSBDReceiveComplete?
    ensures var r := SbdDispatch(m, e); r.posted == [] && SbdInvariant(r.machine, q)
  {
    assert forall x | x in q :: x in [e] + q;
  }

  lemma IgnoredKeepsSbd(m: Machine, e: Event, q: seq<Event>)
    requires SbdInvariant(m, [e] + q) && (e.EvSBDWriteComplete? && m.mode.InCommand? ==> !m.mode.cmd.sbd.SbdWrite?)
    ensures SbdInvariant(m, q)
  {
    assert forall x | x in q :: x in [e] + q;
  }

  lemma SbdRegionKeepsSbd(m: Machine, e: Event, q: seq<Event>)
    requires SbdInvariant(m, [e] + q) && m.mode.InCommand? && WithinCapacity(m) && IsSbdEvent(e)
    ensures var r := SbdDispatch(m, e); SbdInvariant(r.machine, q + r.posted)
  {
    assert q + [] == q;
    var sbd := m.mode.cmd.sbd;
    if e.EvSBDBeginData? && sbd.SbdReady? {
      BeginKeepsSbd(m, e.data, e.ringAlert, q);
    } else if e.EvSBDSendBufferCleared? && sbd.SbdClearBuffers? {
      ClearedKeepsSbd(m, q);
    } else if e.EvSBDWriteReady? && sbd.SbdWrite? {
      WriteKeepsSbd(m, q);
    } else if e.EvSBDWriteComplete? || e.EvSBDTransmitComplete? || e.EvSBDReceiveComplete? {
      LaterStatesKeepSbd(m, e, q);
    } else {
      IgnoredKeepsSbd(m, e, q);
    }
  }

  lemma DispatchKeepsSbd(m: Machine, e: Event, q: seq<Event>, now: real, callFirst: bool)
    requires QueueShape([e] + q) && SbdInvariant(m, [e] + q) && CanDispatch(m, e)
    ensures var r := Dispatch(m, e, now, callFirst); SbdInvariant(r.machine, q + r.posted)
  {
    var r := Dispatch(m, e, now, callFirst);
    if IsCallEvent(e) {
      CallLeavesSbd(m, e, now, callFirst);
      UntouchedKeepsSbd(m, e, q, r.machine, r.posted);
    } else if IsSbdEvent(e) {
      if m.mode.InCommand? {
        SbdRegionKeepsSbd(m, e, q);
      } else {
        IgnoredKeepsSbd(m, e, q);
        assert q + [] == q;
      }
    } else {
      if m.mode.InCommand? {
        MainLeavesSbd(m, e, now);
      } else {
        OnlineLeavesSbd(m, e);
      }
      UntouchedKeepsSbd(m, e, q, r.machine, r.posted);
    }
  }

  // ---- Begin requests ----

  /** A begin request that does not find the SBD region at rest changes nothing at all. */
  lemma BusySessionIgnoresBegin(m: Machine, data: string, ringAlert: bool, now: real, callFirst: nat -> bool)
    requires Accepts(m, Process(EvSBDBeginData(data, ringAlert), now, callFirst))
    requires m.mode.InCommand? ==> !m.mode.cmd.sbd.SbdReady?
    ensures Apply(m, Process(EvSBDBeginData(data, ringAlert), now, callFirst)) == m
  {
    var e := EvSBDBeginData(data, ringAlert);
    assert Dispatch(m, e, now, callFirst(0)) == Reaction(m, []);
    assert [e][1..] + [] == [];
    assert Drain(m, [], now, callFirst, 1) == m;
  }

  // ---- The checksum ----

  /** The accumulating loop over 32-bit words. */
  method Checksum(data: string) returns (csum: nat)
    ensures csum == ByteSum(data) % UINT32
  {
    csum := 0;
    for i := 0 to |data|
      invariant csum == ByteSum(data[..i]) % UINT32
    {
      assert data[..i + 1][..i] == data[..i];
      csum := (csum + Byte(data[i])) % UINT32;
    }
    assert data[..|data|] == data;
  }

  /** The framed data that the object stores. */
  method Frame(data: string) returns (framed: string)
    ensures framed == Framed(data)
  {
    if data == "" {
      return data;
    }
    var csum := Checksum(data);
    LowHalf(ByteSum(data));
    framed := data + [(csum / 256 % 256) as char] + [(csum % 256) as char];
    assert framed == Framed(data);
  }

  lemma LowHalf(x: nat)
    ensures x % UINT32 / 256 % 256 == x / 256 % 256
    ensures x % UINT32 % 256 == x % 256
  {
    var q, r := x / UINT32, x % UINT32;
    DivModUnique(x, q * 0x100_0000 + r / 256, r % 256, 256);
    DivModUnique(x / 256, q * 0x1_0000 + r / 256 / 256, r / 256 % 256, 256);
  }

  /** The two trailing bytes are the byte sum of the payload modulo 65536, high byte first. */
  lemma FramedIsPayloadAndSum(payload: string)
    requires payload != ""
    ensures var b := Framed(payload);
      && |b| == |payload| + 2 && b[..|payload|] == payload
      && 256 * Byte(b[|payload|]) + Byte(b[|payload| + 1]) == ByteSum(payload) % 65536
  {
    var s := ByteSum(payload);
    TwoBytes(s);
    var high, low := s / 256 % 256, s % 256;
    assert Framed(payload) == payload + [high as char, low as char];
    assert Byte(high as char) == high && Byte(low as char) == low;
  }

  lemma TwoBytes(s: nat)
    ensures s % 65536 == 256 * (s / 256 % 256) + s % 256
  {
    DivModUnique(s, s / 256 / 256, 256 * (s / 256 % 256) + s % 256, 65536);
  }

  // ---- Answers to a transmission ----

  /** Numbers separated by commas, each behind some blanks. */
  function Listed(numbers: seq<nat>, blanks: string): string {
    if numbers == [] then ""
    else blanks + Decimal(numbers[0]) + (if |numbers| == 1 then "" else "," + Listed(numbers[1..], blanks))
  }

  const SEPARATORS := {':', ','}

  function Fields(numbers: seq<nat>, blanks: string): seq<string> {
    seq(|numbers|, i requires 0 <= i < |numbers| => blanks + Decimal(numbers[i]))
  }

  lemma {:induction false} ListedSplits(numbers: seq<nat>, blanks: string)
    requires numbers != [] && IsBlank(blanks)
    ensures Split(Listed(numbers, blanks), SEPARATORS) == Fields(numbers, blanks)
    decreases |numbers|
  {
    var field := blanks + Decimal(numbers[0]);
    assert forall c | c in field :: c in blanks || c in Decimal(numbers[0]);
    if |numbers| == 1 {
      assert field + "" == field;
      SplitNone(field, SEPARATORS);
      assert Fields(numbers, blanks) == [field];
    } else {
      var rest := numbers[1..];
      ListedSplits(rest, blanks);
      assert field + ("," + Listed(rest, blanks)) == field + "," + Listed(rest, blanks);
      SplitFirst(field, ',', Listed(rest, blanks), SEPARATORS);
      assert Fields(numbers, blanks) == [field] + Fields(rest, blanks);
    }
  }

  /**
   An answer with a name, a colon and numbers reports a waiting message exactly when there are six
   numbers, the first of them at most four and the third of them one.
   */
  lemma ReplyMeans(name: string, numbers: seq<nat>, blanks: string)
    requires (forall c | c in name :: c !in SEPARATORS) && numbers != [] && IsBlank(blanks)
    ensures MessageReceived(name + ":" + Listed(numbers, blanks))
       <==> |numbers| == 6 && numbers[0] <= 4 && numbers[2] == 1
  {
    var reply := name + ":" + Listed(numbers, blanks);
    SplitFirst(name, ':', Listed(numbers, blanks), SEPARATORS);
    ListedSplits(numbers, blanks);
    var fields := [name] + Fields(numbers, blanks);
    assert Split(reply, SEPARATORS) == fields;
    if |numbers| == 6 {
      FieldValue(blanks, numbers[0]);
      FieldValue(blanks, numbers[2]);
      assert fields[1] == blanks + Decimal(numbers[0]) && fields[3] == blanks + Decimal(numbers[2]);
    }
  }

  lemma FieldValue(blanks: string, n: nat)
    requires IsBlank(blanks)
    ensures AsInt(Trim(blanks + Decimal(n))) == if n <= INT_MAX then n else INT_MAX
  {
    TrimNumber(blanks, Decimal(n));
    AsIntOfDecimal(n);
  }
}
