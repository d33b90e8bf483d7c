/** The guarantees of the statechart over every run of the driver. */
module IridiumTheorems {
  import opened Iridium
  import opened IridiumRun
  import opened IridiumSafety
  import opened IridiumSbd
  import opened IridiumAt

  // ---- Pacing ----

  /** The bytes sent before the last packet were covered by the time since the call began. */
  ghost predicate Paced(m: Machine) {
    m.call.OnCall? ==>
      && m.call.lastBytes <= m.call.totalBytes
      && ByteRate(m.cfg) * (m.call.lastTx - m.call.start) >= (m.call.totalBytes - m.call.lastBytes) as real
  }

  lemma SendKeepsPace(rate: real, start: real, lastTx: real, last: real, total: real, now: real)
    requires rate > 0.0 && rate * (lastTx - start) >= total - last && now > lastTx + last / rate
    ensures rate * (now - start) >= total
  {
    assert rate * (now - start) == rate * (now - lastTx) + rate * (lastTx - start);
    assert rate * (now - lastTx - last / rate) > 0.0;
    assert rate * (last / rate) == last;
    assert rate * (now - lastTx) == rate * (now - lastTx - last / rate) + rate * (last / rate);
  }

  lemma OnCallTxKeepsPace(m: Machine, now: real)
    requires m.call.OnCall? && WithinCapacity(m) && m.cfg.targetBitRate > 0 && Paced(m)
    ensures Paced(OnCallTx(m, now))
  {
    var c := m.call;
    if m.dataOut != [] && now > c.lastTx + c.lastBytes as real / ByteRate(m.cfg) {
      SendKeepsPace(ByteRate(m.cfg), c.start, c.lastTx, c.lastBytes as real, c.totalBytes as real, now);
    }
  }

  lemma CallKeepsPace(m: Machine, e: Event, now: real, callFirst: bool)
    requires CanDispatch(m, e) && IsCallEvent(e) && Paced(m)
    ensures Paced(CallDispatch(m, e, now, callFirst).machine)
  {
    if m.call.OnCall? && e.EvTxOnCallSerial? {
      OnCallTxKeepsPace(m, now);
    } else {
      CountersAreKept(m, e, now, callFirst);
    }
  }

  /** Only sending touches the counters of a call, and a new call starts them at zero. */
  lemma CountersAreKept(m: Machine, e: Event, now: real, callFirst: bool)
    requires CanDispatch(m, e) && IsCallEvent(e) && !(m.call.OnCall? && e.EvTxOnCallSerial?)
    ensures var m' := CallDispatch(m, e, now, callFirst).machine;
      && m'.cfg == m.cfg
      && (m'.call.OnCall? ==>
            || (m'.call.lastBytes == m'.call.totalBytes == 0 && m'.call.lastTx == m'.call.start)
            || (m.call.OnCall? && m'.call.lastBytes == m.call.lastBytes && m'.call.totalBytes == m.call.totalBytes
                && m'.call.lastTx == m.call.lastTx && m'.call.start == m.call.start))
  {
  }

  lemma CommandKeepsPace(m: Machine, e: Event, now: real)
    requires m.mode.InCommand? && WithinCapacity(m) && Readable(m, e) && !IsCallEvent(e) && Paced(m)
    ensures Paced(CommandDispatch(m, e, now).machine)
  {
    var r := CommandDispatch(m, e, now);
    CommandHasEffect(m, e, now);
    assert r.machine.call == m.call && r.machine.cfg == m.cfg;
  }

  lemma DispatchKeepsPace(m: Machine, e: Event, now: real, callFirst: bool)
    requires CanDispatch(m, e) && Paced(m)
    ensures Paced(Dispatch(m, e, now, callFirst).machine)
  {
    if IsCallEvent(e) {
      CallKeepsPace(m, e, now, callFirst);
    } else if m.mode.InCommand? {
      CommandKeepsPace(m, e, now);
    } else {
      assert Paced(OnlineDispatch(m, e).machine);
    }
  }

  // ---- Everything together ----

  ghost predicate Invariant(m: Machine, q: seq<Event>) {
    && WithinCapacity(m) && m.cfg.targetBitRate > 0
    && QueueShape(q) && CallInvariant(m, q) && DialInvariant(m)
    && SbdInvariant(m, q) && AtInvariant(m) && RetryInvariant(m, q) && Paced(m)
  }

  lemma DispatchKeepsInvariant(m: Machine, e: Event, q: seq<Event>, now: real, callFirst: bool)
    requires Invariant(m, [e] + q) && CanDispatch(m, e)
    ensures var r := Dispatch(m, e, now, callFirst); Invariant(r.machine, q + r.posted)
  {
    var r := Dispatch(m, e, now, callFirst);
    DispatchPostsInOrder(m, e, now, callFirst);
    PostingKeepsQueueShape(e, q, r.posted);
    DispatchKeepsCall(m, e, q, now, callFirst);
    DispatchKeepsDials(m, e, now, callFirst);
    DispatchKeepsSbd(m, e, q, now, callFirst);
    DispatchKeepsAt(m, e, q, now, callFirst);
    DispatchKeepsPace(m, e, now, callFirst);
  }

  /** The invariant holds before and after every single reaction, so also when no event is left. */
  lemma {:induction false} DrainKeepsInvariant(m: Machine, queue: seq<Event>, now: real, callFirst: nat -> bool, n: nat)
    requires Drainable(m, queue) && Invariant(m, queue)
    ensures Invariant(Drain(m, queue, now, callFirst, n), []) && Drain(m, queue, now, callFirst, n).cfg == m.cfg
    decreases TotalWeight(queue)
  {
    if queue != [] {
      var e, q := queue[0], queue[1..];
      assert queue == [e] + q;
      var r := Dispatch(m, e, now, callFirst(n));
      DispatchKeepsInvariant(m, e, q, now, callFirst(n));
      PostedIsLighter(m, e, now, callFirst(n));
      TotalWeightConcat(q, r.posted);
      DrainOne(m, e, q, now, callFirst, n);
      DrainKeepsInvariant(r.machine, q + r.posted, now, callFirst, n + 1);
    }
  }

  lemma ApplyKeepsInvariant(m: Machine, i: Input)
    requires Invariant(m, []) && Accepts(m, i)
    ensures Invariant(Apply(m, i), []) && Apply(m, i).cfg == m.cfg
  {
    if i.Process? {
      DrainKeepsInvariant(m, [i.e], i.now, i.callFirst, 0);
    }
  }

  lemma {:induction false} RunKeepsInvariant(m: Machine, inputs: seq<Input>)
    requires Invariant(m, []) && CanRun(m, inputs)
    ensures Invariant(Run(m, inputs), []) && Run(m, inputs).cfg == m.cfg
    decreases |inputs|
  {
    if inputs != [] {
      ApplyKeepsInvariant(m, inputs[0]);
      RunKeepsInvariant(Apply(m, inputs[0]), inputs[1..]);
    }
  }

  lemma InitialInvariant(cfg: DriverConfig)
    requires cfg.targetBitRate > 0
    ensures Invariant(Initial(cfg), []) && Initial(cfg).cfg == cfg
  {
    ConfigureKeeps(Machine(cfg, Online, NotOnCall, [], [], [], 0, History([], [], [], [], [])));
  }

  // ---- The guarantees at rest ----

  /**
   Call safety: online means on a call, dialling means not on one, and a call outlives Online
   only after a hang-up request.
   */
  lemma CallSafety(cfg: DriverConfig, inputs: seq<Input>)
    requires cfg.targetBitRate > 0 && CanRun(Initial(cfg), inputs)
    ensures var m := Run(Initial(cfg), inputs);
      && (m.mode.Online? ==> m.call.OnCall?)
      && (m.mode.InCommand? && m.mode.cmd.main.Dial? ==> m.call.NotOnCall?)
      && (m.mode.InCommand? && m.call.OnCall? ==> m.call.hangupRequested)
      && (forall n | n in m.history.dials :: n <= MaxDials(cfg))
  {
    InitialInvariant(cfg);
    RunKeepsInvariant(Initial(cfg), inputs);
  }

  /** SBD integrity: nothing stored between sessions, and only faithful blocks and lengths go out. */
  lemma SbdIntegrity(cfg: DriverConfig, inputs: seq<Input>)
    requires cfg.targetBitRate > 0 && CanRun(Initial(cfg), inputs)
    ensures var m := Run(Initial(cfg), inputs);
      && (forall k | 0 <= k < |m.history.sbd| ::
            var action, session := m.history.sbd[k], CurrentSession(m.history.sbd[..k]);
            && (action.LengthQueued? ==> Announces(action.command, session))
            && (action.BlockWritten? ==>
                  session.Session? && session.payload != "" && action.block == Framed(session.payload)))
      && (m.mode.InCommand? && (m.mode.cmd.sbd.SbdReady? || m.mode.cmd.sbd.SbdReceive?) ==> m.mode.cmd.data == "")
      && (m.mode.InCommand? && !m.mode.cmd.sbd.SbdReady? && !m.mode.cmd.sbd.SbdReceive? ==>
            var session := CurrentSession(m.history.sbd);
            session.Session? && m.mode.cmd.data == Framed(session.payload)
            && (m.mode.cmd.sbd.SbdWrite? ==> session.payload != ""))
  {
    InitialInvariant(cfg);
    RunKeepsInvariant(Initial(cfg), inputs);
    var m := Run(Initial(cfg), inputs);
    if CurrentSession(m.history.sbd).Session? {
      FramedLength(CurrentSession(m.history.sbd).payload);
    }
    var log := m.history.sbd;
    forall k | 0 <= k < |log|
      ensures var action, session := log[k], CurrentSession(log[..k]);
        && (action.LengthQueued? ==> Announces(action.command, session))
        && (action.BlockWritten? ==>
              session.Session? && session.payload != "" && action.block == Framed(session.payload))
    {
      FaithfulSteps(log, k);
    }
  }

  /** Stop and wait: only the front sentence was ever written, none too often, and never too soon again. */
  lemma StopAndWait(cfg: DriverConfig, inputs: seq<Input>)
    requires cfg.targetBitRate > 0 && CanRun(Initial(cfg), inputs)
    ensures var m := Run(Initial(cfg), inputs);
      && WellSpaced(m.history.writes)
      && (forall number: nat :: TimesWritten(m.history.writes, number) <= RETRIES_BEFORE_RESET)
      && (m.mode.InCommand? ==>
            forall i, w | 0 < i < |m.mode.cmd.atOut| && w in m.history.writes :: w.number != m.mode.cmd.atOut[i].number)
  {
    InitialInvariant(cfg);
    RunKeepsInvariant(Initial(cfg), inputs);
  }

  /** Pacing: in every call, whatever the clock readings. */
  lemma CallsArePaced(cfg: DriverConfig, inputs: seq<Input>)
    requires cfg.targetBitRate > 0 && CanRun(Initial(cfg), inputs)
    ensures Paced(Run(Initial(cfg), inputs))
  {
    InitialInvariant(cfg);
    RunKeepsInvariant(Initial(cfg), inputs);
  }

  // ---- Starting over ----

  /** Only the events that a reset leaves behind, which a configuring machine ignores. */
  lemma LeftoversIgnored(m: Machine, q: seq<Event>, now: real, callFirst: nat -> bool, n: nat)
    requires Drainable(m, q) && m.mode.InCommand? && forall e | e in q :: e == EvDisconnect || e == EvConfigured
    ensures Drain(m, q, now, callFirst, n) == m
    decreases |q|
  {
    if q != [] {
      assert q[0] in q && forall e | e in q[1..] :: e in q;
      assert Dispatch(m, q[0], now, callFirst(n)) == Reaction(m, []);
      assert q[1..] + [] == q[1..];
      LeftoversIgnored(m, q[1..], now, callFirst, n + 1);
    }
  }

  lemma ResetConfigures(m: Machine, now: real, callFirst: nat -> bool, n: nat)
    requires Drainable(m, [EvReset])
    ensures Drain(m, [EvReset], now, callFirst, n) == EnterConfigure(m.(call := NotOnCall))
  {
    var r := Dispatch(m, EvReset, now, callFirst(n));
    assert [EvReset] + [] == [EvReset] && [] + r.posted == r.posted;
    DrainOne(m, EvReset, [], now, callFirst, n);
    LeftoversIgnored(r.machine, r.posted, now, callFirst, n + 1);
  }

  /** When the last retry times out, the whole queue is discarded and the machine configures afresh. */
  lemma RetriesExceededResets(m: Machine, now: real, callFirst: nat -> bool)
    requires Accepts(m, Process(EvTxSerial, now, callFirst)) && m.mode.InCommand? && m.mode.cmd.atOut != []
    requires var s := m.mode.cmd.atOut[0]; s.tries == RETRIES_BEFORE_RESET && s.lastSend + Timeout(s.text) < now
    ensures Apply(m, Process(EvTxSerial, now, callFirst)) == EnterConfigure(m.(call := NotOnCall))
  {
    var r := CommandTx(m, now);
    assert [EvTxSerial] + [] == [EvTxSerial] && [] + [EvReset] == [EvReset];
    DrainOne(m, EvTxSerial, [], now, callFirst, 0);
    assert Dispatch(m, EvTxSerial, now, callFirst(0)) == r && r.posted == [EvReset];
    ResetConfigures(r.machine, now, callFirst, 1);
    assert EnterCommand(r.machine.(call := NotOnCall), Configure) == EnterCommand(m.(call := NotOnCall), Configure);
  }

  // ---- Giving up ----

  /** Polls, each later than the timeout of the front sentence, and no answer in between. */
  predicate Unanswered(m: Machine, polls: seq<Input>)
    decreases |polls|
  {
    polls == [] || (
      && Accepts(m, polls[0]) && polls[0].Process? && polls[0].e.EvTxSerial? && IsDue(m, polls[0].now)
      && Unanswered(Apply(m, polls[0]), polls[1..]))
  }

  /** While there are retries left, such a poll writes the front sentence again. */
  lemma OverdueIsRetried(m: Machine, i: Input)
    requires Accepts(m, i) && i.Process? && i.e.EvTxSerial? && IsDue(m, i.now)
    requires m.mode.cmd.atOut[0].tries < RETRIES_BEFORE_RESET
    ensures var m', s := Apply(m, i), m.mode.cmd.atOut[0];
      && WithinCapacity(m') && m'.mode.InCommand? && m'.cfg == m.cfg && m'.nextNumber == m.nextNumber
      && m'.mode.cmd.atOut == [s.(tries := s.tries + 1, lastSend := i.now)] + m.mode.cmd.atOut[1..]
      && m'.history.writes == m.history.writes + [AtWrite(s.number, s.text, i.now)]
  {
    var r := CommandTx(m, i.now);
    assert Dispatch(m, i.e, i.now, i.callFirst(0)) == r && r.posted == [];
    assert [i.e][1..] + r.posted == [];
    assert Drain(r.machine, [], i.now, i.callFirst, 1) == r.machine;
  }

  /** The same commands are queued whatever else the machine holds. */
  lemma {:induction false} QueuesTheSame(m: Machine, m': Machine, texts: seq<string>)
    requires m.mode.InCommand? && m'.mode == m.mode && m'.nextNumber == m.nextNumber
    requires WithinCapacity(m) && WithinCapacity(m')
    ensures PushAllAt(m, texts).mode == PushAllAt(m', texts).mode
    ensures PushAllAt(m, texts).nextNumber == PushAllAt(m', texts).nextNumber
    decreases |texts|
  {
    if texts != [] {
      QueuesTheSame(m, m', texts[..|texts| - 1]);
    }
  }

  /** Off the call and configuring from scratch, with the queue of old discarded. */
  predicate StartedOver(m: Machine, m': Machine)
    requires WithinCapacity(m)
  {
    m'.call.NotOnCall? && m'.mode == EnterConfigure(m).mode && m'.nextNumber == EnterConfigure(m).nextNumber
  }

  /** From a sentence written t times, the retries left are used up one by one, and the next poll starts over. */
  lemma {:induction false} UnansweredStartsOver(m: Machine, polls: seq<Input>)
    requires WithinCapacity(m) && Unanswered(m, polls) && m.mode.InCommand? && m.mode.cmd.atOut != []
    requires |polls| + m.mode.cmd.atOut[0].tries == RETRIES_BEFORE_RESET + 1 && polls != []
    ensures CanRun(m, polls) && StartedOver(m, Run(m, polls))
    ensures |Run(m, polls).history.writes| == |m.history.writes| + |polls| - 1
    decreases |polls|
  {
    var i, rest := polls[0], polls[1..];
    if |polls| == 1 {
      assert i == Process(EvTxSerial, i.now, i.callFirst) && rest == [];
      RetriesExceededResets(m, i.now, i.callFirst);
      QueuesTheSame(EnterCommand(m.(call := NotOnCall), Configure), EnterCommand(m, Configure), [""] + m.cfg.config);
      assert Run(m, polls) == Run(Apply(m, i), rest) == Apply(m, i);
    } else {
      OverdueIsRetried(m, i);
      var m' := Apply(m, i);
      UnansweredStartsOver(m', rest);
      QueuesTheSame(EnterCommand(m', Configure), EnterCommand(m, Configure), [""] + m.cfg.config);
    }
  }

  /**
   In every run, a queue that is not answered is given up at the poll after the last retry of its
   front: at the latest at the fourth that finds it overdue.
   */
  lemma GivesUpAtTheFourth(cfg: DriverConfig, inputs: seq<Input>, polls: seq<Input>)
    requires cfg.targetBitRate > 0 && CanRun(Initial(cfg), inputs)
    requires var m := Run(Initial(cfg), inputs); m.mode.InCommand? && m.mode.cmd.atOut != [] && Unanswered(m, polls)
    requires |polls| == RETRIES_BEFORE_RESET + 1
    ensures var m := Run(Initial(cfg), inputs);
      && WithinCapacity(m)
      && var k := RETRIES_BEFORE_RESET + 1 - m.mode.cmd.atOut[0].tries;
         0 < k <= |polls| && CanRun(m, polls[..k]) && StartedOver(m, Run(m, polls[..k]))
  {
    InitialInvariant(cfg);
    RunKeepsInvariant(Initial(cfg), inputs);
    var m := Run(Initial(cfg), inputs);
    var k := RETRIES_BEFORE_RESET + 1 - m.mode.cmd.atOut[0].tries;
    UnansweredPrefix(m, polls, k);
    UnansweredStartsOver(m, polls[..k]);
  }

  lemma {:induction false} UnansweredPrefix(m: Machine, polls: seq<Input>, k: nat)
    requires Unanswered(m, polls) && k <= |polls|
    ensures Unanswered(m, polls[..k])
    decreases k
  {
    if k > 0 {
      UnansweredPrefix(Apply(m, polls[0]), polls[1..], k - 1);
      assert polls[..k][1..] == polls[1..][..k - 1];
    }
  }
}
