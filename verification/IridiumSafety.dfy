/** What holds of the statechart between any two reactions, hence at rest, in every run. */
module IridiumSafety {
  import opened Iridium

  // ---- The event queue ----

  /** On the way to going online. */
  predicate Opens(e: Event) {
    e.EvConnect? || e.EvOnline?
  }

  /** May end the call, or lead to an event that does. */
  predicate Closes(e: Event) {
    || IsSerial(e) || e.EvRxOnCallSerial? || e.EvNoCarrier? || e.EvDisconnect? || e.EvReset? || e.EvHangup?
    || e == EvAck("OK")
  }

  /** Opening and closing events never wait together, and a serial event waits alone. */
  ghost predicate QueueShape(q: seq<Event>) {
    && (forall e | e in q && IsSerial(e) :: |q| == 1)
    && (forall a, b | a in q && b in q && Opens(a) :: !Closes(b))
  }

  /** The part each posted event plays, given the event reacted to. */
  ghost predicate PostsInOrder(e: Event, posted: seq<Event>) {
    && (forall a | a in posted :: !IsSerial(a))
    && (forall a | a in posted && Opens(a) :: e.EvConnect? || e.EvRxSerial?)
    && (forall a | a in posted && Closes(a) :: Closes(e))
    && (forall a, b | a in posted && b in posted && Opens(a) :: !Closes(b))
  }

  lemma LinePostsInOrder(m: Machine, e: Event)
    requires m.mode.InCommand? && WithinCapacity(m) && Readable(m, e) && e.EvRxSerial?
    ensures PostsInOrder(e, CommandRx(m, e.line).posted)
  {
  }

  lemma SbdPostsInOrder(m: Machine, e: Event)
    requires m.mode.InCommand? && WithinCapacity(m) && IsSbdEvent(e)
    ensures PostsInOrder(e, SbdDispatch(m, e).posted)
  {
  }

  lemma MainPostsInOrder(m: Machine, e: Event, now: real)
    requires m.mode.InCommand? && WithinCapacity(m) && !e.EvRxSerial?
    ensures PostsInOrder(e, MainDispatch(m, e, now).posted)
  {
    if e.EvAck? {
      AckPostsInOrder(m, e);
    }
  }

  lemma AckPostsInOrder(m: Machine, e: Event)
    requires m.mode.InCommand? && WithinCapacity(m) && e.EvAck?
    ensures PostsInOrder(e, CommandAck(m, e.response).posted)
  {
  }

  lemma CommandPostsInOrder(m: Machine, e: Event, now: real)
    requires m.mode.InCommand? && WithinCapacity(m) && Readable(m, e)
    ensures PostsInOrder(e, CommandDispatch(m, e, now).posted)
  {
    if IsSbdEvent(e) {
      SbdPostsInOrder(m, e);
    } else if e.EvRxSerial? {
      LinePostsInOrder(m, e);
    } else {
      MainPostsInOrder(m, e, now);
    }
  }

  lemma CallPostsInOrder(m: Machine, e: Event, now: real, callFirst: bool)
    requires CanDispatch(m, e) && IsCallEvent(e)
    ensures PostsInOrder(e, CallDispatch(m, e, now, callFirst).posted)
  {
  }

  lemma DispatchPostsInOrder(m: Machine, e: Event, now: real, callFirst: bool)
    requires CanDispatch(m, e)
    ensures PostsInOrder(e, Dispatch(m, e, now, callFirst).posted)
  {
    if IsCallEvent(e) {
      CallPostsInOrder(m, e, now, callFirst);
    } else if m.mode.Online? {
      assert PostsInOrder(e, OnlineDispatch(m, e).posted);
    } else {
      CommandPostsInOrder(m, e, now);
    }
  }

  lemma PostingKeepsQueueShape(e: Event, q: seq<Event>, posted: seq<Event>)
    requires QueueShape([e] + q) && PostsInOrder(e, posted)
    ensures QueueShape(q + posted)
  {
    if IsSerial(e) {
      assert e in [e] + q;
      assert q == [];
    }
    assert forall x | x in q :: x in [e] + q;
    assert e in [e] + q;
  }

  // ---- Call and command states ----

  ghost predicate CallInvariant(m: Machine, q: seq<Event>) {
    && (m.mode.Online? ==> m.call.OnCall? || EvDisconnect in q)
    && (EvOnline in q ==> m.call.OnCall?)
    && (EvDisconnect in q ==> m.call.NotOnCall?)
    && (m.mode.InCommand? && m.mode.cmd.main.Dial? ==> m.call.NotOnCall? || EvOnline in q)
    && (m.mode.InCommand? && m.call.OnCall? ==> m.call.hangupRequested || EvOnline in q)
  }

  /** What a reaction of the Command state can do to the call. */
  ghost predicate CommandEffect(m: Machine, e: Event, m': Machine, posted: seq<Event>) {
    && m.mode.InCommand? && m'.call == m.call
    && EvDisconnect !in posted && EvOnline !in posted
    && (e == EvOnline <==> m'.mode.Online?)
    && (m'.mode.InCommand? && m'.mode.cmd.main.Dial? ==> m.mode.cmd.main.Dial? || m.call.NotOnCall?)
  }

  lemma CommandHasEffect(m: Machine, e: Event, now: real)
    requires m.mode.InCommand? && WithinCapacity(m) && Readable(m, e) && !IsCallEvent(e)
    ensures var r := CommandDispatch(m, e, now); CommandEffect(m, e, r.machine, r.posted)
  {
    if IsSbdEvent(e) {
      var r := SbdDispatch(m, e);
      assert CommandEffect(m, e, r.machine, r.posted);
    } else {
      var r := MainDispatch(m, e, now);
      assert CommandEffect(m, e, r.machine, r.posted);
    }
  }

  lemma CommandEffectKeepsCall(m: Machine, e: Event, q: seq<Event>, m': Machine, posted: seq<Event>)
    requires CallInvariant(m, [e] + q) && CommandEffect(m, e, m', posted)
    ensures CallInvariant(m', q + posted)
  {
  }

  lemma NoCarrierKeepsCall(m: Machine, q: seq<Event>, callFirst: bool)
    requires QueueShape([EvNoCarrier] + q) && CallInvariant(m, [EvNoCarrier] + q) && WithinCapacity(m)
    ensures var r := NoCarrier(m, callFirst); CallInvariant(r.machine, q + r.posted)
  {
    assert forall x | x in q :: x in [EvNoCarrier] + q;
    assert EvNoCarrier in [EvNoCarrier] + q;
  }

  lemma ResetKeepsCall(m: Machine, q: seq<Event>, now: real, callFirst: bool)
    requires QueueShape([EvReset] + q) && CanDispatch(m, EvReset)
    ensures var r := CallDispatch(m, EvReset, now, callFirst); CallInvariant(r.machine, q + r.posted)
  {
    assert forall x | x in q :: x in [EvReset] + q;
    assert EvReset in [EvReset] + q;
  }

  lemma ConnectKeepsCall(m: Machine, q: seq<Event>, now: real)
    requires QueueShape([EvConnect] + q) && CallInvariant(m, [EvConnect] + q) && WithinCapacity(m) && m.call.NotOnCall?
    ensures var r := StartCall(m, now); CallInvariant(r.machine, q + r.posted)
  {
    assert forall x | x in q :: x in [EvConnect] + q;
    assert EvConnect in [EvConnect] + q && Opens(EvConnect) && Closes(EvDisconnect);
    assert EvDisconnect !in q;
    assert (q + [EvOnline])[|q|] == EvOnline;
  }

  lemma CallKeepsCall(m: Machine, e: Event, q: seq<Event>, now: real, callFirst: bool)
    requires QueueShape([e] + q) && CallInvariant(m, [e] + q) && CanDispatch(m, e) && IsCallEvent(e)
    ensures var r := CallDispatch(m, e, now, callFirst); CallInvariant(r.machine, q + r.posted)
  {
    if e.EvNoCarrier? {
      NoCarrierKeepsCall(m, q, callFirst);
    } else if e.EvReset? {
      ResetKeepsCall(m, q, now, callFirst);
    } else if e.EvConnect? && m.call.NotOnCall? {
      ConnectKeepsCall(m, q, now);
    } else {
      var r := CallDispatch(m, e, now, callFirst);
      assert r.machine.mode == m.mode && r.machine.call.OnCall? == m.call.OnCall?;
      assert m.call.OnCall? ==> r.machine.call.hangupRequested == m.call.hangupRequested;
      assert EvOnline !in r.posted && EvDisconnect !in r.posted;
    }
  }

  lemma OnlineKeepsCall(m: Machine, e: Event, q: seq<Event>)
    requires QueueShape([e] + q) && CallInvariant(m, [e] + q) && WithinCapacity(m) && m.mode.Online? && !IsCallEvent(e)
    ensures var r := OnlineDispatch(m, e); CallInvariant(r.machine, q + r.posted)
  {
    assert e in [e] + q;
  }

  lemma DispatchKeepsCall(m: Machine, e: Event, q: seq<Event>, now: real, callFirst: bool)
    requires QueueShape([e] + q) && CallInvariant(m, [e] + q) && CanDispatch(m, e)
    ensures var r := Dispatch(m, e, now, callFirst); CallInvariant(r.machine, q + r.posted)
  {
    if IsCallEvent(e) {
      CallKeepsCall(m, e, q, now, callFirst);
    } else if m.mode.Online? {
      OnlineKeepsCall(m, e, q);
    } else {
      var r := CommandDispatch(m, e, now);
      CommandHasEffect(m, e, now);
      CommandEffectKeepsCall(m, e, q, r.machine, r.posted);
    }
  }

  // ---- Dialling ----

  function MaxDials(cfg: DriverConfig): int {
    if cfg.dialAttempts > 1 then cfg.dialAttempts else 1
  }

  /** No visit to Dial has queued more dial commands than allowed; the last entry counts the current visit. */
  ghost predicate DialInvariant(m: Machine) {
    && (forall n | n in m.history.dials :: n <= MaxDials(m.cfg))
    && (m.mode.InCommand? && m.mode.cmd.main.Dial? ==>
          var d := m.history.dials;
          d != [] && d[|d| - 1] == m.mode.cmd.main.attempts >= 1)
  }

  lemma DialNowKeepsDials(m: Machine, attempts: nat)
    requires m.mode.InCommand? && WithinCapacity(m) && DialInvariant(m)
    requires attempts == 1 || (1 < attempts && m.mode.cmd.main == Dial(attempts - 1) && attempts <= m.cfg.dialAttempts)
    ensures DialInvariant(DialNow(m, attempts))
  {
    var d, d' := m.history.dials, DialNow(m, attempts).history.dials;
    assert d != [] ==> forall n | n in d[..|d| - 1] :: n in d;
    assert forall n | n in d' :: n == attempts || n in d;
  }

  lemma NoCarrierKeepsDials(m: Machine, callFirst: bool)
    requires WithinCapacity(m) && DialInvariant(m)
    ensures DialInvariant(NoCarrier(m, callFirst).machine)
  {
    if m.mode.InCommand? && m.mode.cmd.main.Dial? && m.mode.cmd.main.attempts < m.cfg.dialAttempts {
      DialNowKeepsDials(m, m.mode.cmd.main.attempts + 1);
    }
  }

  lemma CallKeepsDials(m: Machine, e: Event, now: real, callFirst: bool)
    requires CanDispatch(m, e) && IsCallEvent(e) && !e.EvNoCarrier? && DialInvariant(m)
    ensures DialInvariant(CallDispatch(m, e, now, callFirst).machine)
  {
  }

  /** Nothing is dialled, and Dial is not entered. */
  ghost predicate SameDials(m: Machine, m': Machine) {
    && m'.cfg == m.cfg && m'.history.dials == m.history.dials
    && (m'.mode.InCommand? && m'.mode.cmd.main.Dial? ==> m.mode.InCommand? && m.mode.cmd.main == m'.mode.cmd.main)
  }

  lemma MainKeepsDials(m: Machine, e: Event, now: real)
    requires m.mode.InCommand? && WithinCapacity(m) && Readable(m, e) && !e.EvDial?
    ensures SameDials(m, MainDispatch(m, e, now).machine)
  {
  }

  lemma CommandKeepsDials(m: Machine, e: Event, now: real)
    requires m.mode.InCommand? && WithinCapacity(m) && Readable(m, e) && DialInvariant(m)
    ensures DialInvariant(CommandDispatch(m, e, now).machine)
  {
    if e.EvDial? {
      DialNowKeepsDials(m, 1);
    } else if IsSbdEvent(e) {
      assert SameDials(m, SbdDispatch(m, e).machine);
    } else {
      MainKeepsDials(m, e, now);
    }
  }

  lemma DispatchKeepsDials(m: Machine, e: Event, now: real, callFirst: bool)
    requires CanDispatch(m, e) && DialInvariant(m)
    ensures DialInvariant(Dispatch(m, e, now, callFirst).machine)
  {
    if e.EvNoCarrier? {
      NoCarrierKeepsDials(m, callFirst);
    } else if IsCallEvent(e) {
      CallKeepsDials(m, e, now, callFirst);
    } else if m.mode.InCommand? {
      CommandKeepsDials(m, e, now);
    } else {
      assert DialInvariant(OnlineDispatch(m, e).machine);
    }
  }
}
