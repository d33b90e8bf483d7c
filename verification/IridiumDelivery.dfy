/** Messages from the modem on their way to the driver. */
module IridiumDelivery {
  import opened Iridium
  import opened IridiumRun
  import opened IridiumWire

  /** Messages are only added at the end; as many more wait for the driver, as far as there is room. */
  ghost predicate Grows(m: Machine, m': Machine) {
    && m.history.delivered <= m'.history.delivered
    && var n := |m.received| + |m'.history.delivered| - |m.history.delivered|;
       |m'.received| == if n > RECEIVED_CAPACITY then RECEIVED_CAPACITY else n
  }

  lemma CommandGrows(m: Machine, e: Event, now: real)
    requires CanDispatch(m, e) && m.mode.InCommand? && !IsCallEvent(e)
    ensures Grows(m, CommandDispatch(m, e, now).machine)
  {
    if IsSbdEvent(e) {
      if !e.EvSBDWriteReady? {
        SbdLeavesWire(m, e);
      }
    } else if !IsSerial(e) {
      MainLeavesWire(m, e, now);
    }
  }

  lemma CallGrows(m: Machine, e: Event, now: real, callFirst: bool)
    requires CanDispatch(m, e) && IsCallEvent(e)
    ensures Grows(m, CallDispatch(m, e, now, callFirst).machine)
  {
    if !(e.EvConnect? && m.call.NotOnCall?) && (m.call.OnCall? ==> e.EvReset? || e.EvNoCarrier? || e.EvConnect?) {
      CallLeavesWire(m, e, now, callFirst);
    }
  }

  lemma DispatchGrows(m: Machine, e: Event, now: real, callFirst: bool)
    requires CanDispatch(m, e)
    ensures Grows(m, Dispatch(m, e, now, callFirst).machine)
  {
    if IsCallEvent(e) {
      CallGrows(m, e, now, callFirst);
    } else if m.mode.InCommand? {
      CommandGrows(m, e, now);
    } else {
      assert SameWire(m, OnlineDispatch(m, e).machine);
    }
  }

  lemma {:induction false} DrainGrows(m: Machine, queue: seq<Event>, now: real, callFirst: nat -> bool, n: nat)
    requires Drainable(m, queue)
    ensures Grows(m, Drain(m, queue, now, callFirst, n))
    decreases TotalWeight(queue)
  {
    if queue != [] {
      var e, q := queue[0], queue[1..];
      assert queue == [e] + q;
      var r := Dispatch(m, e, now, callFirst(n));
      DispatchGrows(m, e, now, callFirst(n));
      PostedIsLighter(m, e, now, callFirst(n));
      TotalWeightConcat(q, r.posted);
      DrainOne(m, e, q, now, callFirst, n);
      DrainGrows(r.machine, q + r.posted, now, callFirst, n + 1);
    }
  }

  /** The messages that the driver takes, in the order in which it takes them. */
  function Taken(m: Machine, inputs: seq<Input>): seq<string>
    requires CanRun(m, inputs)
    decreases |inputs|
  {
    if inputs == [] then []
    else
      (if inputs[0].TakeReceived? && m.received != [] then [m.received[0]] else [])
      + Taken(Apply(m, inputs[0]), inputs[1..])
  }

  /** What an input delivers finds room beside what waits already. */
  predicate Fits(m: Machine, i: Input)
    requires Accepts(m, i)
  {
    |m.received| + |Apply(m, i).history.delivered| - |m.history.delivered| <= RECEIVED_CAPACITY
  }

  predicate AllFit(m: Machine, inputs: seq<Input>)
    requires CanRun(m, inputs)
    decreases |inputs|
  {
    inputs == [] || (Fits(m, inputs[0]) && AllFit(Apply(m, inputs[0]), inputs[1..]))
  }

  /** The messages delivered that no longer wait. */
  function Gone(m: Machine): seq<string>
    requires HoldsLatest(m.received, m.history.delivered)
  {
    m.history.delivered[..|m.history.delivered| - |m.received|]
  }

  lemma ApplyTakes(m: Machine, i: Input)
    requires Accepts(m, i) && WireInvariant(m)
    ensures WireInvariant(Apply(m, i))
    ensures var taken := if i.TakeReceived? && m.received != [] then [m.received[0]] else [];
      if Fits(m, i) then Gone(Apply(m, i)) == Gone(m) + taken else |Gone(Apply(m, i))| > |Gone(m)| + |taken|
  {
    ApplyKeepsWire(m, i);
    if i.Process? {
      DrainGrows(m, [i.e], i.now, i.callFirst, 0);
    }
  }

  lemma {:induction false} RunTakes(m: Machine, inputs: seq<Input>)
    requires CanRun(m, inputs) && WireInvariant(m)
    ensures WireInvariant(Run(m, inputs))
    ensures var gone := Gone(Run(m, inputs));
      if AllFit(m, inputs) then gone == Gone(m) + Taken(m, inputs) else |gone| > |Gone(m)| + |Taken(m, inputs)|
    decreases |inputs|
  {
    if inputs != [] {
      ApplyTakes(m, inputs[0]);
      RunTakes(Apply(m, inputs[0]), inputs[1..]);
    }
  }

  /**
   In every run the messages taken by the driver followed by those still waiting are exactly the
   messages delivered, in order, if and only if every delivery found room.
   */
  lemma TakenInOrderIff(cfg: DriverConfig, inputs: seq<Input>)
    requires CanRun(Initial(cfg), inputs)
    ensures var m := Run(Initial(cfg), inputs);
      Taken(Initial(cfg), inputs) + m.received == m.history.delivered <==> AllFit(Initial(cfg), inputs)
  {
    InitialWire(cfg);
    RunTakes(Initial(cfg), inputs);
    var m := Run(Initial(cfg), inputs);
    assert Gone(m) + m.received == m.history.delivered;
  }
}
