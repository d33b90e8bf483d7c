/** Lines that the modem sends on its own: rings, alerts, errors, lost carriers, echoes and codes. */
module IridiumIncoming {
  import opened Text
  import opened Iridium
  import opened IridiumRun
  import opened IridiumTheorems
  import opened IridiumReassembly
  import opened IridiumSession

  // ---- A ring ----

  lemma RingShows(m: Machine, v: View, i: Input)
    requires Answered(m, v, i, "RING") && v.main.Ready? && v.texts == []
    ensures Shows(Apply(m, i), v.(main := Answer, texts := ["A"]))
  {
    LinePosts(m, v, i, "RING");
    assert LineEvents("RING") == [EvRing];
    assert Dispatch(m, EvRing, i.now, i.callFirst(1)) == Reaction(PushAt(SetMain(m, Answer), "A"), []);
    DrainAlone(m, EvRing, i.now, i.callFirst, 1);
    PushShows(SetMain(m, Answer), "A");
    assert [] + ["A"] == ["A"];
  }

  /** A ring at rest is answered; when the modem connects, the machine is online on a new call, greeting first. */
  lemma RingConnects(m: Machine, ring: Input, inputs: seq<Input>, line: string)
    requires AtRest(m) && m.mode.cmd.main.Ready? && m.call.NotOnCall? && Answered(m, ViewOf(m), ring, "RING")
    requires "CONNECT" <= line && Dialogue(Apply(m, ring), inputs, [line])
    ensures CanRun(Apply(m, ring), inputs) && inputs != [] && IsLine(inputs[|inputs| - 1])
    ensures var m' := Run(Apply(m, ring), inputs);
      && m'.mode.Online? && m'.call == NewCall(inputs[|inputs| - 1].now)
      && m'.serialTx != [] && m'.serialTx[0] == "goby\r"
  {
    var v := ViewOf(m);
    RingShows(m, v, ring);
    ConnectsAtLast(Apply(m, ring), v.(main := Answer, texts := ["A"]), inputs, line);
  }

  /**
   While the machine is configuring, dialing, answering or waiting after a call, a ring changes
   nothing, unless the line is read as part of a message.
   */
  lemma RingIsIgnored(m: Machine, v: View, i: Input)
    requires Answered(m, v, i, "RING") && !v.main.Ready? && IsPlain(v)
    ensures Apply(m, i) == m
  {
    assert "RING"[0] == 'R' && "AT"[0] == 'A';
    LinePosts(m, v, i, "RING");
    assert LineEvents("RING") == [EvRing];
    DrainAlone(m, EvRing, i.now, i.callFirst, 1);
  }

  // ---- A ring alert ----

  lemma AlertEvents()
    ensures LineEvents("SBDRING") == [EvSBDBeginData("", true)]
  {
    var line := "SBDRING";
    assert line[0] == 'S' && "CONNECT"[0] == 'C' && "+SBDI"[0] == '+';
  }

  lemma AlertShows(m: Machine, v: View, i: Input)
    requires Answered(m, v, i, "SBDRING") && v.texts == [] && v.sbd.SbdReady?
    ensures Shows(Apply(m, i), Alerted(v))
  {
    LinePosts(m, v, i, "SBDRING");
    var e := EvSBDBeginData("", true);
    AlertEvents();
    DrainAlone(m, e, i.now, i.callFirst, 1);
    BegunShows(m, v, "", true);
  }

  /** A mailbox check begun for an alert. */
  function Alerted(v: View): View {
    v.(sbd := SbdClearBuffers, data := "", ringAlert := true, texts := ["+SBDD2"], rxBuffer := "",
       sbdLog := v.sbdLog + [Begun("")])
  }

  /** An alert at rest starts a mailbox check, which is transmitted as the answer to an alert and runs to its end. */
  lemma AlertRuns(m: Machine, alert: Input, inputs: seq<Input>, reply: string)
    requires AtRest(m) && Answered(m, ViewOf(m), alert, "SBDRING") && "+SBDI" <= reply
    ensures Dialogue(Apply(m, alert), inputs, ["0"]) ==>
      && CanRun(Apply(m, alert), inputs)
      && Shows(Run(Apply(m, alert), inputs),
               Alerted(ViewOf(m)).(sbd := SbdTransmit, texts := ["+SBDD2", "+SBDIXA"]))
    ensures Dialogue(Apply(m, alert), inputs, ["0", "OK", reply, "OK"]) ==>
      CanRun(Apply(m, alert), inputs) && Shows(Run(Apply(m, alert), inputs), Ended(Alerted(ViewOf(m)), reply))
  {
    var v := Alerted(ViewOf(m));
    AlertShows(m, ViewOf(m), alert);
    MailboxLeads(v, reply);
    AlertTransmits(v);
    if Dialogue(Apply(m, alert), inputs, ["0", "OK", reply, "OK"]) {
      assert Engaged(Apply(m, alert), v, inputs, ["0", "OK", reply, "OK"]);
    }
    if Dialogue(Apply(m, alert), inputs, ["0"]) {
      assert Engaged(Apply(m, alert), v, inputs, ["0"]);
    }
  }

  lemma AlertTransmits(v: View)
    requires v.texts == ["+SBDD2"] && v.sbd.SbdClearBuffers? && v.data == "" && v.ringAlert
    ensures Leads(v, ["0"], v.(sbd := SbdTransmit, texts := ["+SBDD2", "+SBDIXA"]))
  {
    var v1 := v.(sbd := SbdTransmit, texts := ["+SBDD2", "+SBDIXA"]);
    forall m: Machine, i: Input | Answered(m, v, i, "0") ensures Shows(Apply(m, i), v1) {
      ZeroSkips(m, v, i);
    }
    LeadsNowhere(v1);
    LeadsOn(v, "0", v1, [], v1);
    assert ["0"] + [] == ["0"];
  }

  // ---- An error ----

  /** An error ends any call and makes the machine configure from scratch. */
  lemma ErrorReconfigures(m: Machine, v: View, i: Input)
    requires Answered(m, v, i, "ERROR") && IsPlain(v)
    ensures Apply(m, i) == EnterConfigure(m.(call := NotOnCall))
  {
    if v.texts != [] {
      NoEcho("ERROR", v.texts[0]);
    }
    LinePosts(m, v, i, "ERROR");
    assert LineEvents("ERROR") == [EvReset];
    ResetConfigures(m, i.now, i.callFirst, 1);
  }

  // ---- A lost carrier ----

  /** Off the call, asking the modem for the reason. */
  function AfterLoss(m: Machine): View {
    View(m.cfg, PostDisconnected, SbdReady, "", false, ["+CEER"], "", NotOnCall,
         m.history.sbd, m.history.dials, m.history.delivered)
  }

  lemma LossShows(m: Machine, i: Input)
    requires m.mode.Online? && m.call.OnCall? && Accepts(m, i) && IsLine(i) && Contains(i.e.line, "NO CARRIER")
    ensures Shows(Apply(m, i), AfterLoss(m))
  {
    var e := EvRxOnCallSerial(i.e.line, i.e.decodes);
    assert [i.e] + [] == [i.e] && [] + [e] == [e] && [e] + [] == [e];
    DrainOne(m, i.e, [], i.now, i.callFirst, 0);
    assert Dispatch(m, i.e, i.now, i.callFirst(0)) == Reaction(m, [e]);
    assert [] + [EvNoCarrier] == [EvNoCarrier] == [EvNoCarrier] + [];
    DrainOne(m, e, [], i.now, i.callFirst, 1);
    assert Dispatch(m, e, i.now, i.callFirst(1)) == Reaction(m, [EvNoCarrier]);
    LossReacts(m, i.now, i.callFirst);
  }

  lemma LossReacts(m: Machine, now: real, callFirst: nat -> bool)
    requires m.mode.Online? && m.call.OnCall? && Drainable(m, [EvNoCarrier])
    ensures Shows(Drain(m, [EvNoCarrier], now, callFirst, 2), AfterLoss(m))
  {
    assert [EvNoCarrier] + [] == [EvNoCarrier] && [] + [EvDisconnect] == [EvDisconnect] == [EvDisconnect] + [];
    DrainOne(m, EvNoCarrier, [], now, callFirst, 2);
    var m1 := m.(call := NotOnCall);
    assert Dispatch(m, EvNoCarrier, now, callFirst(2)) == NoCarrier(m, callFirst(2)) == Reaction(m1, [EvDisconnect]);
    DrainOne(m1, EvDisconnect, [], now, callFirst, 3);
    var m2 := PushAt(EnterCommand(m1, PostDisconnected), "+CEER");
    assert Dispatch(m1, EvDisconnect, now, callFirst(3)) == Reaction(m2, []);
    PushShows(EnterCommand(m1, PostDisconnected), "+CEER");
    assert [] + ["+CEER"] == ["+CEER"];
    DrainNone(m2, now, callFirst, 4);
  }

  lemma EmptyMakesReady(m: Machine, now: real, callFirst: nat -> bool, n: nat)
    requires m.mode.InCommand? && m.mode.cmd.main.PostDisconnected? && Drainable(m, [EvAtEmpty])
    ensures Drain(m, [EvAtEmpty], now, callFirst, n) == SetMain(m, Ready)
  {
    assert Dispatch(m, EvAtEmpty, now, callFirst(n)) == Reaction(SetMain(m, Ready), []);
    DrainAlone(m, EvAtEmpty, now, callFirst, n);
  }

  lemma OkAfterLoss(m: Machine, v: View, i: Input)
    requires v.main.PostDisconnected? && v.texts == ["+CEER"] && Answered(m, v, i, "OK")
    ensures Shows(Apply(m, i), v.(main := Ready, texts := []))
  {
    AnswerIsAck(m, v, i, "OK");
    AckPops(m, v, "OK");
    assert v.texts[1..] == [];
    EmptyMakesReady(CommandAck(m, "OK").machine, i.now, i.callFirst, 2);
  }

  /** A lost carrier ends the call; once the modem has answered for it, the machine is ready and at rest. */
  lemma CarrierLossEndsCall(m: Machine, loss: Input, inputs: seq<Input>)
    requires m.mode.Online? && m.call.OnCall? && Accepts(m, loss) && IsLine(loss) && Contains(loss.e.line, "NO CARRIER")
    requires Dialogue(Apply(m, loss), inputs, ["OK"])
    ensures CanRun(Apply(m, loss), inputs)
    ensures var m' := Run(Apply(m, loss), inputs); AtRest(m') && m'.mode.cmd.main.Ready? && m'.call.NotOnCall?
  {
    LossShows(m, loss);
    var v := AfterLoss(m);
    var v1 := v.(main := Ready, texts := []);
    forall m: Machine, i: Input | Answered(m, v, i, "OK") ensures Shows(Apply(m, i), v1) {
      OkAfterLoss(m, v, i);
    }
    LeadsNowhere(v1);
    LeadsOn(v, "OK", v1, [], v1);
    assert ["OK"] + [] == ["OK"];
    assert Engaged(Apply(m, loss), v, inputs, ["OK"]);
    assert |Run(Apply(m, loss), inputs).mode.cmd.atOut| == |ViewOf(Run(Apply(m, loss), inputs)).texts|;
  }

  // ---- Echoes and codes ----

  /** An echo of the front command makes the machine turn echoes off right after it. */
  lemma EchoIsTurnedOff(m: Machine, v: View, i: Input)
    requires v.texts != [] && |v.texts| < AT_CAPACITY && v.texts[0] != "E" && IsPlain(v)
    requires Answered(m, v, i, "AT" + v.texts[0])
    ensures Shows(Apply(m, i), v.(texts := [v.texts[0], "E"] + v.texts[1..]))
  {
    assert v.texts[0] == m.mode.cmd.atOut[0].text;
    var r := CommandRx(m, i.e.line);
    assert Dispatch(m, i.e, i.now, i.callFirst(0)) == r && r.posted == [];
    DrainAlone(m, i.e, i.now, i.callFirst, 0);
    assert Texts(r.machine.mode.cmd.atOut) == [v.texts[0], "E"] + v.texts[1..];
  }

  /** The numeric codes for a failed write change nothing. */
  lemma CodesAreIgnored(m: Machine, v: View, i: Input, code: string)
    requires (code == "1" || code == "2" || code == "3") && Answered(m, v, i, code) && IsPlain(v)
    ensures Apply(m, i) == m
  {
    assert LineEvents(code) == [EvAck(code)] == [EvAck(code)] + [];
    LineAcks(m, v, i, code, []);
    assert CommandAck(m, code) == Reaction(m, []);
    assert [] + CommandAck(m, code).posted == [];
    DrainNone(m, i.now, i.callFirst, 2);
  }
}
