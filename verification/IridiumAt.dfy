/** The AT command queue: stop and wait, with bounded retries. */
module IridiumAt {
  import opened Iridium
  import opened IridiumSafety

  // ---- The log of written sentences ----

  /** How often the sentence with this number has been written. */
  function TimesWritten(writes: seq<AtWrite>, number: nat): nat {
    if writes == [] then 0
    else
      TimesWritten(writes[..|writes| - 1], number) + (if writes[|writes| - 1].number == number then 1 else 0)
  }

  /** How long the driver waits for an answer to each of its commands, in seconds. */
  lemma TimeoutOfCommands(number: string, length: string)
    ensures Timeout("") == Timeout("+CEER") == Timeout("E") == 2.0
    ensures Timeout("+++") == 6.0 && Timeout("H") == 10.0 && Timeout("D" + number) == 60.0
    ensures Timeout("A") == Timeout("AT") == 30.0
    ensures Timeout("+SBDIX") == Timeout("+SBDIXA") == 60.0
    ensures Timeout("+SBDD2") == Timeout("+SBDRB") == Timeout("+SBDWB=" + length) == 2.0
  {
    var sbdi := "+SBDI";
    assert "+SBDIX"[..5] == sbdi && "+SBDIXA"[..5] == sbdi;
    assert sbdi[4] == 'I' && "+SBDD2"[4] == 'D' && "+SBDRB"[4] == 'R' && ("+SBDWB=" + length)[4] == 'W';
    assert ("D" + number)[0] == 'D' && ("+SBDWB=" + length)[0] == '+' && "+CEER"[1] == 'C' && sbdi[1] == 'S';
    assert "+CEER"[0] == '+' && "AT"[0] == 'A' && "E"[0] == 'E' && "H"[0] == 'H' && "A"[0] == 'A';
    assert ("+SBDWB=" + length)[1] == 'S' && "+++"[1] == '+';
  }

  /** Writes of the same sentence are more than its timeout apart. */
  ghost predicate WellSpaced(writes: seq<AtWrite>) {
    forall i, j | 0 <= i < j < |writes| && writes[i].number == writes[j].number ::
      writes[i].text == writes[j].text && writes[i].time + Timeout(writes[i].text) < writes[j].time
  }

  ghost predicate WritesInvariant(writes: seq<AtWrite>, nextNumber: nat) {
    && WellSpaced(writes)
    && (forall number: nat :: TimesWritten(writes, number) <= RETRIES_BEFORE_RESET)
    && (forall w | w in writes :: w.number < nextNumber)
  }

  lemma {:induction false} UnwrittenCount(writes: seq<AtWrite>, number: nat)
    requires forall w | w in writes :: w.number != number
    ensures TimesWritten(writes, number) == 0
  {
    if writes != [] {
      UnwrittenCount(writes[..|writes| - 1], number);
    }
  }

  // ---- The queue ----

  /** What the counters of a sentence say about the log. */
  ghost predicate Accounted(s: Sentence, writes: seq<AtWrite>) {
    && TimesWritten(writes, s.number) == (if s.tries < RETRIES_BEFORE_RESET then s.tries else RETRIES_BEFORE_RESET)
    && (forall w | w in writes && w.number == s.number :: s.tries > 0 && w.text == s.text && w.time <= s.lastSend)
  }

  /** Only the front sentence may have been written. */
  ghost predicate QueueInvariant(atOut: seq<Sentence>, nextNumber: nat, writes: seq<AtWrite>) {
    && (forall i, j | 0 <= i < j < |atOut| :: atOut[i].number != atOut[j].number)
    && (forall i | 0 <= i < |atOut| :: atOut[i].number < nextNumber && Accounted(atOut[i], writes))
    && (forall i | 0 < i < |atOut| :: atOut[i].tries == 0)
  }

  ghost predicate AtInvariant(m: Machine) {
    && WritesInvariant(m.history.writes, m.nextNumber)
    && (m.mode.InCommand? ==> QueueInvariant(m.mode.cmd.atOut, m.nextNumber, m.history.writes))
  }

  /** The retries of the front sentence are exceeded only while a reset is on its way. */
  ghost predicate RetryInvariant(m: Machine, q: seq<Event>) {
    m.mode.InCommand? && m.mode.cmd.atOut != [] ==>
      m.mode.cmd.atOut[0].tries <= RETRIES_BEFORE_RESET || EvReset in q
  }

  // ---- Operations on the queue ----

  lemma FreshIsAccounted(writes: seq<AtWrite>, nextNumber: nat, text: string)
    requires WritesInvariant(writes, nextNumber)
    ensures Accounted(Sentence(nextNumber, text, 0.0, 0), writes)
  {
    UnwrittenCount(writes, nextNumber);
  }

  lemma PushAtKeeps(m: Machine, text: string)
    requires m.mode.InCommand? && WithinCapacity(m) && AtInvariant(m)
    ensures AtInvariant(PushAt(m, text))
    ensures PushAt(m, text).mode.cmd.atOut != []
    ensures forall q | RetryInvariant(m, q) :: RetryInvariant(PushAt(m, text), q)
  {
    FreshIsAccounted(m.history.writes, m.nextNumber, text);
  }

  lemma {:induction false} PushAllAtKeeps(m: Machine, texts: seq<string>)
    requires m.mode.InCommand? && WithinCapacity(m) && AtInvariant(m)
    ensures AtInvariant(PushAllAt(m, texts))
    ensures forall q | RetryInvariant(m, q) :: RetryInvariant(PushAllAt(m, texts), q)
  {
    if texts != [] {
      PushAllAtKeeps(m, texts[..|texts| - 1]);
      PushAtKeeps(PushAllAt(m, texts[..|texts| - 1]), texts[|texts| - 1]);
    }
  }

  lemma EmptyQueueKeeps(m: Machine, main: MainState)
    requires AtInvariant(m)
    ensures AtInvariant(EnterCommand(m, main)) && RetryInvariant(EnterCommand(m, main), [])
  {
  }

  /** Taking the front off, as an answer does. */
  lemma PopKeeps(m: Machine, cmd: Command)
    requires m.mode.InCommand? && AtInvariant(m) && m.mode.cmd.atOut != [] && cmd.atOut == m.mode.cmd.atOut[1..]
    ensures AtInvariant(m.(mode := InCommand(cmd))) && RetryInvariant(m.(mode := InCommand(cmd)), [])
  {
  }

  lemma InsertKeeps(m: Machine, cmd: Command)
    requires m.mode.InCommand? && WithinCapacity(m) && AtInvariant(m) && m.mode.cmd.atOut != []
    requires cmd.atOut == InsertSecond(m.mode.cmd.atOut, Sentence(m.nextNumber, "E", 0.0, 0), AT_CAPACITY)
    ensures AtInvariant(m.(mode := InCommand(cmd), nextNumber := m.nextNumber + 1))
    ensures forall q | RetryInvariant(m, q) ::
      RetryInvariant(m.(mode := InCommand(cmd), nextNumber := m.nextNumber + 1), q)
  {
    FreshIsAccounted(m.history.writes, m.nextNumber, "E");
  }

  // ---- Writing the front sentence ----

  lemma CountAfterWrite(writes: seq<AtWrite>, w: AtWrite, number: nat)
    ensures TimesWritten(writes + [w], number) == TimesWritten(writes, number) + (if w.number == number then 1 else 0)
  {
    assert (writes + [w])[..|writes|] == writes;
  }

  lemma SpacingAfterWrite(writes: seq<AtWrite>, w: AtWrite)
    requires WellSpaced(writes)
    requires forall v | v in writes && v.number == w.number :: v.text == w.text && v.time + Timeout(v.text) < w.time
    ensures WellSpaced(writes + [w])
  {
    var writes' := writes + [w];
    forall i, j | 0 <= i < j < |writes'| && writes'[i].number == writes'[j].number
      ensures writes'[i].text == writes'[j].text && writes'[i].time + Timeout(writes'[i].text) < writes'[j].time
    {
      assert writes'[i] == writes[i] && writes[i] in writes;
    }
  }

  lemma WriteKeepsLog(writes: seq<AtWrite>, nextNumber: nat, s: Sentence, now: real)
    requires WritesInvariant(writes, nextNumber) && Accounted(s, writes) && s.number < nextNumber
    requires s.tries < RETRIES_BEFORE_RESET && s.lastSend + Timeout(s.text) < now
    ensures WritesInvariant(writes + [AtWrite(s.number, s.text, now)], nextNumber)
    ensures Accounted(s.(tries := s.tries + 1, lastSend := now), writes + [AtWrite(s.number, s.text, now)])
  {
    var w := AtWrite(s.number, s.text, now);
    forall number: nat
      ensures TimesWritten(writes + [w], number) <= RETRIES_BEFORE_RESET
    {
      CountAfterWrite(writes, w, number);
    }
    CountAfterWrite(writes, w, s.number);
    assert Timeout(s.text) > 0.0;
    SpacingAfterWrite(writes, w);
  }

  lemma OthersStayAccounted(writes: seq<AtWrite>, w: AtWrite, s: Sentence)
    requires Accounted(s, writes) && s.number != w.number
    ensures Accounted(s, writes + [w])
  {
    assert (writes + [w])[..|writes|] == writes;
  }

  /** The queue after its front was written. */
  lemma WriteKeepsQueue(atOut: seq<Sentence>, nextNumber: nat, writes: seq<AtWrite>, now: real)
    requires atOut != [] && QueueInvariant(atOut, nextNumber, writes)
    requires var s := atOut[0];
      Accounted(s.(tries := s.tries + 1, lastSend := now), writes + [AtWrite(s.number, s.text, now)])
    ensures var s := atOut[0];
      QueueInvariant([s.(tries := s.tries + 1, lastSend := now)] + atOut[1..], nextNumber,
                     writes + [AtWrite(s.number, s.text, now)])
  {
    var s := atOut[0];
    var w, atOut' := AtWrite(s.number, s.text, now), [s.(tries := s.tries + 1, lastSend := now)] + atOut[1..];
    assert forall i | 0 < i < |atOut| :: atOut'[i] == atOut[i];
    assert forall i | 0 <= i < |atOut| :: atOut'[i].number == atOut[i].number;
    forall i | 0 < i < |atOut|
      ensures Accounted(atOut'[i], writes + [w])
    {
      OthersStayAccounted(writes, w, atOut[i]);
    }
  }

  /** The front sentence has waited longer than its timeout. */
  predicate IsDue(m: Machine, now: real) {
    m.mode.InCommand? && m.mode.cmd.atOut != [] && var s := m.mode.cmd.atOut[0]; s.lastSend + Timeout(s.text) < now
  }

  lemma TxWrites(m: Machine, now: real)
    requires WithinCapacity(m) && AtInvariant(m) && IsDue(m, now) && m.mode.cmd.atOut[0].tries < RETRIES_BEFORE_RESET
    ensures var r := CommandTx(m, now); AtInvariant(r.machine) && RetryInvariant(r.machine, [])
  {
    var s := m.mode.cmd.atOut[0];
    WriteKeepsLog(m.history.writes, m.nextNumber, s, now);
    WriteKeepsQueue(m.mode.cmd.atOut, m.nextNumber, m.history.writes, now);
    var m' := CommandTx(m, now).machine;
    assert m'.mode.cmd.atOut == [s.(tries := s.tries + 1, lastSend := now)] + m.mode.cmd.atOut[1..];
    assert m'.history.writes == m.history.writes + [AtWrite(s.number, s.text, now)];
  }

  lemma TxResets(m: Machine, now: real)
    requires WithinCapacity(m) && AtInvariant(m) && IsDue(m, now) && m.mode.cmd.atOut[0].tries >= RETRIES_BEFORE_RESET
    ensures var r := CommandTx(m, now); AtInvariant(r.machine) && r.posted == [EvReset]
  {
    var atOut, m' := m.mode.cmd.atOut, CommandTx(m, now).machine;
    var s := atOut[0];
    assert m'.mode.cmd.atOut == [s.(tries := s.tries + 1)] + atOut[1..] && m'.history.writes == m.history.writes;
    assert forall i | 0 < i < |atOut| :: m'.mode.cmd.atOut[i] == atOut[i];
    assert forall i | 0 <= i < |atOut| :: m'.mode.cmd.atOut[i].number == atOut[i].number;
  }

  lemma TxKeeps(m: Machine, now: real)
    requires m.mode.InCommand? && WithinCapacity(m) && AtInvariant(m) && RetryInvariant(m, [])
    ensures var r := CommandTx(m, now); AtInvariant(r.machine) && RetryInvariant(r.machine, r.posted)
  {
    var r := CommandTx(m, now);
    if !IsDue(m, now) {
      assert SameQueue(m, r.machine);
      SameQueueKeeps(m, r.machine, r.posted);
    } else if m.mode.cmd.atOut[0].tries < RETRIES_BEFORE_RESET {
      TxWrites(m, now);
    } else {
      TxResets(m, now);
    }
  }

  // ---- Dispatch ----

  /** Both invariants after a reaction, given the events still waiting. */
  ghost predicate Kept(r: Reaction, q: seq<Event>) {
    AtInvariant(r.machine) && RetryInvariant(r.machine, q + r.posted)
  }

  ghost predicate SameQueue(m: Machine, m': Machine) {
    && m'.mode.InCommand? == m.mode.InCommand?
    && (m.mode.InCommand? ==> m'.mode.cmd.atOut == m.mode.cmd.atOut)
    && m'.nextNumber == m.nextNumber && m'.history.writes == m.history.writes
  }

  lemma SameQueueKeeps(m: Machine, m': Machine, q: seq<Event>)
    requires AtInvariant(m) && RetryInvariant(m, q) && SameQueue(m, m')
    ensures AtInvariant(m') && RetryInvariant(m', q)
  {
  }

  lemma ReadKeeps(m: Machine, line: string, q: seq<Event>)
    requires m.mode.InCommand? && WithinCapacity(m) && ReadingSbd(m.mode.cmd)
    requires line != "" || m.mode.cmd.rxBuffer != ""
    requires AtInvariant(m) && RetryInvariant(m, q)
    ensures Kept(HandleSbdRx(m, line), q)
  {
    var b := Collected(m.mode.cmd.rxBuffer, line);
    if Complete(b) {
      var cmd := m.mode.cmd.(rxBuffer := b, atOut := m.mode.cmd.atOut[1..]);
      PopKeeps(m, cmd);
      var data := b[2..2 + 256 * Byte(b[0]) + Byte(b[1])];
      var popped := m.(mode := InCommand(cmd), received := PushBack(m.received, data, RECEIVED_CAPACITY),
                       history := m.history.(delivered := m.history.delivered + [data]));
      assert RetryInvariant(popped, []);
      PushAtKeeps(popped, "");
    }
  }

  lemma LineKeeps(m: Machine, line: string, q: seq<Event>)
    requires m.mode.InCommand? && WithinCapacity(m) && Readable(m, EvRxSerial(line, false))
    requires AtInvariant(m) && RetryInvariant(m, q)
    ensures Kept(CommandRx(m, line), q)
  {
    var cmd := m.mode.cmd;
    if ReadingSbd(cmd) {
      ReadKeeps(m, line, q);
    } else if cmd.atOut != [] {
      InsertKeeps(m, cmd.(atOut := InsertSecond(cmd.atOut, Sentence(m.nextNumber, "E", 0.0, 0), AT_CAPACITY)));
    }
  }

  lemma AckKeeps(m: Machine, response: string, q: seq<Event>)
    requires m.mode.InCommand? && WithinCapacity(m) && AtInvariant(m) && RetryInvariant(m, q)
    ensures Kept(CommandAck(m, response), q)
  {
    var cmd := m.mode.cmd;
    if cmd.atOut == [] {
      PushAtKeeps(m, "AT");
    } else {
      PopKeeps(m, cmd.(atOut := cmd.atOut[1..]));
    }
  }

  lemma DialKeeps(m: Machine, attempts: nat, q: seq<Event>)
    requires m.mode.InCommand? && WithinCapacity(m) && AtInvariant(m) && RetryInvariant(m, q)
    ensures AtInvariant(DialNow(m, attempts)) && RetryInvariant(DialNow(m, attempts), q)
  {
    PushAtKeeps(SetMain(m, Dial(attempts)), "D" + m.cfg.number);
  }

  lemma MainKeeps(m: Machine, e: Event, q: seq<Event>, now: real)
    requires m.mode.InCommand? && WithinCapacity(m) && Readable(m, e) && !IsSbdEvent(e) && !e.EvReset? && !e.EvTxSerial?
    requires AtInvariant(m) && RetryInvariant(m, q)
    ensures Kept(MainDispatch(m, e, now), q)
  {
    if e.EvRxSerial? {
      LineKeeps(m, e.line, q);
    } else if e.EvAck? {
      AckKeeps(m, e.response, q);
    } else if e.EvDial? {
      DialKeeps(m, 1, q);
    } else if e.EvRing? {
      PushAtKeeps(SetMain(m, Answer), "A");
    }
  }

  lemma BeginKeeps(m: Machine, data: string, ringAlert: bool, q: seq<Event>)
    requires m.mode.InCommand? && WithinCapacity(m) && AtInvariant(m) && RetryInvariant(m, q)
    ensures AtInvariant(BeginSbd(m, data, ringAlert)) && RetryInvariant(BeginSbd(m, data, ringAlert), q)
  {
    var cmd := m.mode.cmd.(sbd := SbdClearBuffers, data := Framed(data), ringAlert := ringAlert, rxBuffer := "");
    PushAtKeeps(m.(mode := InCommand(cmd)), "+SBDD2");
  }

  lemma WriteKeeps(m: Machine, q: seq<Event>)
    requires m.mode.InCommand? && WithinCapacity(m) && AtInvariant(m) && RetryInvariant(m, q)
    ensures Kept(EnterSbdWrite(m), q)
  {
    var data := m.mode.cmd.data;
    PushAtKeeps(SetSbd(m, SbdWrite), "+SBDWB=" + Text.Decimal(if |data| >= 2 then |data| - 2 else 0));
  }

  lemma TransmitKeeps(m: Machine, q: seq<Event>)
    requires m.mode.InCommand? && WithinCapacity(m) && AtInvariant(m) && RetryInvariant(m, q)
    ensures AtInvariant(EnterSbdTransmit(m)) && RetryInvariant(EnterSbdTransmit(m), q)
  {
    PushAtKeeps(SetSbd(m, SbdTransmit), if m.mode.cmd.ringAlert then "+SBDIXA" else "+SBDIX");
  }

  lemma ReceiveKeeps(m: Machine, sbdi: string, q: seq<Event>)
    requires m.mode.InCommand? && WithinCapacity(m) && AtInvariant(m) && RetryInvariant(m, q)
    ensures AtInvariant(LeaveSbdTransmit(m, sbdi)) && RetryInvariant(LeaveSbdTransmit(m, sbdi), q)
  {
    PushAtKeeps(SetSbd(m.(mode := InCommand(m.mode.cmd.(data := ""))), SbdReceive), "+SBDRB");
  }

  lemma SbdKeeps(m: Machine, e: Event, q: seq<Event>)
    requires m.mode.InCommand? && WithinCapacity(m) && IsSbdEvent(e)
    requires AtInvariant(m) && RetryInvariant(m, q)
    ensures Kept(SbdDispatch(m, e), q)
  {
    if e.EvSBDBeginData? {
      BeginKeeps(m, e.data, e.ringAlert, q);
    } else if e.EvSBDSendBufferCleared? {
      WriteKeeps(m, q);
    } else if e.EvSBDWriteComplete? {
      TransmitKeeps(m, q);
    } else if e.EvSBDTransmitComplete? {
      ReceiveKeeps(m, e.sbdi, q);
    } else {
      SameQueueKeeps(m, SbdDispatch(m, e).machine, q);
    }
  }

  lemma ConfigureKeeps(m: Machine)
    requires AtInvariant(m) && WithinCapacity(m)
    ensures AtInvariant(EnterConfigure(m)) && RetryInvariant(EnterConfigure(m), [])
  {
    EmptyQueueKeeps(m, Configure);
    PushAllAtKeeps(EnterCommand(m, Configure), [""] + m.cfg.config);
  }

  lemma NoCarrierKeeps(m: Machine, callFirst: bool, q: seq<Event>)
    requires WithinCapacity(m) && AtInvariant(m) && RetryInvariant(m, q)
    ensures Kept(NoCarrier(m, callFirst), q)
  {
    if m.mode.InCommand? && m.mode.cmd.main.Dial? {
      DialKeeps(m, m.mode.cmd.main.attempts + 1, q);
    }
  }

  lemma CallKeeps(m: Machine, e: Event, q: seq<Event>, now: real, callFirst: bool)
    requires CanDispatch(m, e) && IsCallEvent(e) && !e.EvReset?
    requires AtInvariant(m) && RetryInvariant(m, q)
    ensures Kept(CallDispatch(m, e, now, callFirst), q)
  {
    if e.EvNoCarrier? {
      NoCarrierKeeps(m, callFirst, q);
    } else {
      SameQueueKeeps(m, CallDispatch(m, e, now, callFirst).machine, q);
    }
  }

  lemma OnlineKeeps(m: Machine, e: Event, q: seq<Event>)
    requires m.mode.Online? && WithinCapacity(m) && AtInvariant(m)
    ensures Kept(OnlineDispatch(m, e), q)
  {
    if e.EvHangup? {
      EmptyQueueKeeps(RequestHangup(m), HangingUp);
      PushAllAtKeeps(EnterCommand(RequestHangup(m), HangingUp), ["+++", "H"]);
    } else if e.EvDisconnect? {
      EmptyQueueKeeps(m, PostDisconnected);
      PushAtKeeps(EnterCommand(m, PostDisconnected), "+CEER");
    }
  }

  lemma DispatchKeepsAt(m: Machine, e: Event, q: seq<Event>, now: real, callFirst: bool)
    requires QueueShape([e] + q) && CanDispatch(m, e) && AtInvariant(m) && RetryInvariant(m, [e] + q)
    ensures Kept(Dispatch(m, e, now, callFirst), q)
  {
    assert e in [e] + q;
    if e.EvReset? {
      ConfigureKeeps(m.(call := NotOnCall));
    } else if IsCallEvent(e) {
      CallKeeps(m, e, q, now, callFirst);
    } else if m.mode.Online? {
      OnlineKeeps(m, e, q);
    } else if IsSbdEvent(e) {
      SbdKeeps(m, e, q);
    } else if e.EvTxSerial? {
      assert q == [];
      TxKeeps(m, now);
    } else {
      MainKeeps(m, e, q, now);
    }
  }
}
