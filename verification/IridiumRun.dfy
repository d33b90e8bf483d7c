/** Processing one event to the end, and whole runs of the driver. */
module IridiumRun {
  import opened Iridium

  /** Larger than the weights of all events that the reaction to this one can post. */
  function Weight(e: Event): nat {
    match e
    case EvRxSerial(_, _) => 9
    case EvTxSerial => 4
    case EvAck(_) => 5
    case EvRxOnCallSerial(_, _) => 3
    case EvReset => 3
    case EvConnect => 3
    case EvNoCarrier => 2
    case EvOnline => 2
    case EvAtEmpty => 2
    case EvSBDSendBufferCleared => 2
    case _ => 1
  }

  function TotalWeight(events: seq<Event>): nat {
    if events == [] then 0 else Weight(events[0]) + TotalWeight(events[1..])
  }

  lemma {:induction false} TotalWeightConcat(a: seq<Event>, b: seq<Event>)
    ensures TotalWeight(a + b) == TotalWeight(a) + TotalWeight(b)
  {
    if a == [] {
      assert a + b == b;
    } else {
      assert (a + b)[1..] == a[1..] + b;
      TotalWeightConcat(a[1..], b);
    }
  }

  lemma SmallWeights(events: seq<Event>)
    ensures |events| == 1 ==> TotalWeight(events) == Weight(events[0])
    ensures |events| == 2 ==> TotalWeight(events) == Weight(events[0]) + Weight(events[1])
  {
    if |events| == 1 {
      assert events[1..] == [];
    } else if |events| == 2 {
      assert events[1..] == [events[1]] && events[1..][1..] == [];
    }
  }

  lemma AckPostsLight(m: Machine, response: string)
    requires m.mode.InCommand? && WithinCapacity(m)
    ensures TotalWeight(CommandAck(m, response).posted) < 5
  {
    SmallWeights(CommandAck(m, response).posted);
  }

  lemma LinePostsLight(m: Machine, line: string)
    requires m.mode.InCommand? && WithinCapacity(m) && Readable(m, EvRxSerial(line, false))
    ensures TotalWeight(CommandRx(m, line).posted) < 9
  {
    SmallWeights(CommandRx(m, line).posted);
  }

  lemma SbdPostsLight(m: Machine, e: Event)
    requires m.mode.InCommand? && WithinCapacity(m) && IsSbdEvent(e)
    ensures TotalWeight(SbdDispatch(m, e).posted) < Weight(e)
  {
    SmallWeights(SbdDispatch(m, e).posted);
  }

  lemma CommandPostsLight(m: Machine, e: Event, now: real)
    requires m.mode.InCommand? && WithinCapacity(m) && Readable(m, e)
    ensures TotalWeight(CommandDispatch(m, e, now).posted) < Weight(e)
  {
    if IsSbdEvent(e) {
      SbdPostsLight(m, e);
    } else if e.EvRxSerial? {
      LinePostsLight(m, e.line);
    } else if e.EvAck? {
      AckPostsLight(m, e.response);
    } else {
      SmallWeights(MainDispatch(m, e, now).posted);
    }
  }

  lemma CallPostsLight(m: Machine, e: Event, now: real, callFirst: bool)
    requires CanDispatch(m, e) && IsCallEvent(e)
    ensures TotalWeight(CallDispatch(m, e, now, callFirst).posted) < Weight(e)
  {
    var posted := CallDispatch(m, e, now, callFirst).posted;
    SmallWeights(posted);
    assert |posted| <= 2;
  }

  lemma OnlinePostsLight(m: Machine, e: Event)
    requires m.mode.Online? && WithinCapacity(m)
    ensures TotalWeight(OnlineDispatch(m, e).posted) < Weight(e)
  {
    SmallWeights(OnlineDispatch(m, e).posted);
  }

  /** What a reaction posts is together lighter than the event it reacts to. */
  lemma PostedIsLighter(m: Machine, e: Event, now: real, callFirst: bool)
    requires CanDispatch(m, e)
    ensures TotalWeight(Dispatch(m, e, now, callFirst).posted) < Weight(e)
  {
    if IsCallEvent(e) {
      CallPostsLight(m, e, now, callFirst);
    } else if m.mode.InCommand? {
      CommandPostsLight(m, e, now);
    } else {
      OnlinePostsLight(m, e);
    }
  }

  /** Queued events that are not lines can be dispatched whatever happens before them. */
  predicate Drainable(m: Machine, queue: seq<Event>) {
    && WithinCapacity(m) && m.cfg.targetBitRate > 0
    && (queue != [] ==> Readable(m, queue[0]))
    && forall i | 0 < i < |queue| :: !IsSerial(queue[i])
  }

  /**
   Dispatches queued events until none is left. The order in which regions are asked for the n-th
   event is callFirst(n).
   */
  function Drain(m: Machine, queue: seq<Event>, now: real, callFirst: nat -> bool, n: nat): Machine
    requires Drainable(m, queue)
    decreases TotalWeight(queue)
  {
    if queue == [] then m
    else
      PostedIsLighter(m, queue[0], now, callFirst(n));
      var r := Dispatch(m, queue[0], now, callFirst(n));
      TotalWeightConcat(queue[1..], r.posted);
      Drain(r.machine, queue[1..] + r.posted, now, callFirst, n + 1)
  }

  /** One event is reacted to; what it posts goes behind the others. */
  lemma DrainOne(m: Machine, e: Event, q: seq<Event>, now: real, callFirst: nat -> bool, n: nat)
    requires Drainable(m, [e] + q)
    ensures var r := Dispatch(m, e, now, callFirst(n));
      Drainable(r.machine, q + r.posted)
      && Drain(m, [e] + q, now, callFirst, n) == Drain(r.machine, q + r.posted, now, callFirst, n + 1)
  {
    assert ([e] + q)[0] == e && ([e] + q)[1..] == q;
    var r := Dispatch(m, e, now, callFirst(n));
    assert forall i | 0 <= i < |q| :: q[i] == ([e] + q)[i + 1];
    assert forall i | 0 <= i < |r.posted| :: r.posted[i] in r.posted;
  }

  /** An event whose reaction posts nothing. */
  lemma DrainAlone(m: Machine, e: Event, now: real, callFirst: nat -> bool, n: nat)
    requires Drainable(m, [e]) && Dispatch(m, e, now, callFirst(n)).posted == []
    ensures Drain(m, [e], now, callFirst, n) == Dispatch(m, e, now, callFirst(n)).machine
  {
    assert [e] == [e] + [];
    DrainOne(m, e, [], now, callFirst, n);
  }

  /** Everything the driver does to the machine. */
  datatype Input =
    | Process(e: Event, now: real, callFirst: nat -> bool)
    | BufferData(packet: string)
    | PushSerial(line: string)
    | WriteSerial
    | TakeReceived

  /** The events the driver itself sends; the others are only ever posted by reactions. */
  predicate IsExternal(e: Event) {
    IsSerial(e) || e.EvNoCarrier? || e.EvHangup? || e.EvDial? || e.EvSBDBeginData? || e.EvSendBye?
  }

  predicate Accepts(m: Machine, i: Input) {
    && WithinCapacity(m) && m.cfg.targetBitRate > 0
    && (i.Process? ==> IsExternal(i.e) && Readable(m, i.e))
  }

  function Apply(m: Machine, i: Input): Machine
    requires Accepts(m, i)
  {
    match i
    case Process(e, now, callFirst) => Drain(m, [e], now, callFirst, 0)
    case BufferData(packet) => LogTraffic(m.(dataOut := PushBack(m.dataOut, packet, DATA_CAPACITY)), Buffered(packet))
    case PushSerial(line) => PutBack(m, LineOut(line))
    case WriteSerial => if m.serialTx == [] then m else LogTraffic(m.(serialTx := m.serialTx[1..]), TakenOut)
    case TakeReceived => if m.received == [] then m else m.(received := m.received[1..])
  }

  predicate CanRun(m: Machine, inputs: seq<Input>)
    decreases |inputs|
  {
    inputs == [] || (Accepts(m, inputs[0]) && CanRun(Apply(m, inputs[0]), inputs[1..]))
  }

  function Run(m: Machine, inputs: seq<Input>): Machine
    requires CanRun(m, inputs)
    decreases |inputs|
  {
    if inputs == [] then m else Run(Apply(m, inputs[0]), inputs[1..])
  }
}
