/**
 Whole dialogues with a modem that answers: a short-burst-data session and a call, from a machine
 at rest to a machine at rest, however often the driver polls in between.
 */
module IridiumSession {
  import opened Text
  import opened Iridium
  import opened IridiumRun
  import opened IridiumSafety
  import opened IridiumSbd
  import opened IridiumReassembly
  import opened IridiumWire

  // ---- What a dialogue depends on ----

  function Texts(sentences: seq<Sentence>): seq<string> {
    seq(|sentences|, i requires 0 <= i < |sentences| => sentences[i].text)
  }

  /** The machine in Command without times, counters and serial buffers. */
  datatype View = View(cfg: DriverConfig, main: MainState, sbd: SbdState, data: string, ringAlert: bool,
                       texts: seq<string>, rxBuffer: string, call: Call, sbdLog: seq<SbdAction>,
                       dials: seq<nat>, delivered: seq<string>)

  function ViewOf(m: Machine): View
    requires m.mode.InCommand?
  {
    var cmd := m.mode.cmd;
    View(m.cfg, cmd.main, cmd.sbd, cmd.data, cmd.ringAlert, Texts(cmd.atOut), cmd.rxBuffer, m.call,
         m.history.sbd, m.history.dials, m.history.delivered)
  }

  predicate Shows(m: Machine, v: View) {
    WithinCapacity(m) && m.cfg.targetBitRate > 0 && m.mode.InCommand? && ViewOf(m) == v
  }

  /** The modem's lines, in this order, with any number of patient polls around them. */
  predicate Dialogue(m: Machine, inputs: seq<Input>, lines: seq<string>)
    decreases |inputs|
  {
    if inputs == [] then lines == []
    else
      && Accepts(m, inputs[0])
      && if IsPoll(inputs[0]) then
           m.mode.InCommand? && Patient(m, inputs[0].now) && Dialogue(Apply(m, inputs[0]), inputs[1..], lines)
         else
           && lines != [] && IsLine(inputs[0]) && Trim(inputs[0].e.line) == lines[0]
           && Dialogue(Apply(m, inputs[0]), inputs[1..], lines[1..])
  }

  lemma {:induction false} DialogueRuns(m: Machine, inputs: seq<Input>, lines: seq<string>)
    requires Dialogue(m, inputs, lines)
    ensures CanRun(m, inputs)
    decreases |inputs|
  {
    if inputs != [] {
      DialogueRuns(Apply(m, inputs[0]), inputs[1..], if IsPoll(inputs[0]) then lines else lines[1..]);
    }
  }

  /** A patient poll changes nothing that a dialogue depends on, but for the buffer of a read it restarts. */
  lemma PollIsInvisible(m: Machine, i: Input)
    requires Accepts(m, i) && IsPoll(i) && m.mode.InCommand? && Patient(m, i.now)
    requires ReadingSbd(m.mode.cmd) ==> m.mode.cmd.rxBuffer == ""
    ensures Shows(Apply(m, i), ViewOf(m))
  {
    var r := CommandTx(m, i.now);
    assert Dispatch(m, i.e, i.now, i.callFirst(0)) == r;
    assert r.posted == [];
    assert [i.e][1..] + r.posted == [];
    assert Apply(m, i) == Drain(r.machine, [], i.now, i.callFirst, 1) == r.machine;
    assert Texts(r.machine.mode.cmd.atOut) == Texts(m.mode.cmd.atOut);
  }

  // ---- Draining step by step ----

  lemma DrainNone(m: Machine, now: real, callFirst: nat -> bool, n: nat)
    requires Drainable(m, [])
    ensures Drain(m, [], now, callFirst, n) == m
  {
  }

  // ---- From line to line ----

  predicate IsPlain(v: View) {
    v.texts == [] || v.texts[0] != "+SBDRB"
  }

  /** A poll restarts no read that has already received something. */
  predicate Pollable(v: View) {
    IsPlain(v) || v.rxBuffer == ""
  }

  /** Up to the first line only polls happen, and they do not show. */
  lemma {:induction false} UpToLine(m: Machine, v: View, inputs: seq<Input>, lines: seq<string>)
    returns (m': Machine, i: Input, rest: seq<Input>)
    requires Shows(m, v) && Pollable(v) && lines != [] && Dialogue(m, inputs, lines)
    ensures Shows(m', v) && Accepts(m', i) && IsLine(i) && Trim(i.e.line) == lines[0]
    ensures Dialogue(Apply(m', i), rest, lines[1..]) && CanRun(m, inputs) && CanRun(Apply(m', i), rest)
    ensures Run(m, inputs) == Run(Apply(m', i), rest)
    decreases |inputs|
  {
    DialogueRuns(m, inputs, lines);
    if IsPoll(inputs[0]) {
      assert ReadingSbd(m.mode.cmd) ==> v.texts[0] == m.mode.cmd.atOut[0].text;
      PollIsInvisible(m, inputs[0]);
      m', i, rest := UpToLine(Apply(m, inputs[0]), v, inputs[1..], lines);
    } else {
      m', i, rest := m, inputs[0], inputs[1..];
      DialogueRuns(Apply(m', i), rest, lines[1..]);
    }
  }

  lemma {:induction false} OnlyPolls(m: Machine, v: View, inputs: seq<Input>)
    requires Shows(m, v) && Pollable(v) && Dialogue(m, inputs, [])
    ensures CanRun(m, inputs) && Shows(Run(m, inputs), v)
    decreases |inputs|
  {
    if inputs != [] {
      assert ReadingSbd(m.mode.cmd) ==> v.texts[0] == m.mode.cmd.atOut[0].text;
      PollIsInvisible(m, inputs[0]);
      OnlyPolls(Apply(m, inputs[0]), v, inputs[1..]);
    }
  }

  predicate Answered(m: Machine, v: View, i: Input, line: string) {
    Shows(m, v) && Accepts(m, i) && IsLine(i) && Trim(i.e.line) == line
  }

  /** One line moves every machine that shows the one view to the other. */
  ghost predicate Moves(v: View, line: string, v': View) {
    forall m: Machine, i: Input | Answered(m, v, i, line) :: Shows(Apply(m, i), v')
  }

  predicate Engaged(m: Machine, v: View, inputs: seq<Input>, lines: seq<string>) {
    Shows(m, v) && Dialogue(m, inputs, lines)
  }

  /** So do these lines, whatever polls there are before, between and after them. */
  ghost predicate Leads(v: View, lines: seq<string>, v': View) {
    forall m: Machine, inputs: seq<Input> | Engaged(m, v, inputs, lines) ::
      CanRun(m, inputs) && Shows(Run(m, inputs), v')
  }

  lemma LeadsNowhere(v: View)
    requires Pollable(v)
    ensures Leads(v, [], v)
  {
    forall m: Machine, inputs: seq<Input> | Engaged(m, v, inputs, [])
      ensures CanRun(m, inputs) && Shows(Run(m, inputs), v)
    {
      OnlyPolls(m, v, inputs);
    }
  }

  lemma LeadsOn(v: View, line: string, v1: View, lines: seq<string>, v': View)
    requires Pollable(v) && Moves(v, line, v1) && Leads(v1, lines, v')
    ensures Leads(v, [line] + lines, v')
  {
    forall m: Machine, inputs: seq<Input> | Engaged(m, v, inputs, [line] + lines)
      ensures CanRun(m, inputs) && Shows(Run(m, inputs), v')
    {
      var m1, i, rest := UpToLine(m, v, inputs, [line] + lines);
      assert Answered(m1, v, i, line) && ([line] + lines)[1..] == lines;
      assert Engaged(Apply(m1, i), v1, rest, lines);
    }
  }

  // ---- Single answers ----

  /** A line that no echo and no read takes away stands for its events. */
  lemma LinePosts(m: Machine, v: View, i: Input, text: string)
    requires Shows(m, v) && Accepts(m, i) && IsLine(i) && Trim(i.e.line) == text && IsPlain(v)
    requires v.texts == [] || text != "AT" + v.texts[0]
    ensures Drainable(m, LineEvents(text))
    ensures Apply(m, i) == Drain(m, LineEvents(text), i.now, i.callFirst, 1)
  {
    assert v.texts != [] ==> v.texts[0] == m.mode.cmd.atOut[0].text;
    var r := CommandRx(m, i.e.line);
    assert r == Reaction(m, LineEvents(text));
    assert Dispatch(m, i.e, i.now, i.callFirst(0)) == r;
    assert [i.e] + [] == [i.e];
    DrainOne(m, i.e, [], i.now, i.callFirst, 0);
    assert [] + r.posted == r.posted;
  }

  lemma AnswerEvents(text: string)
    requires text == "OK" || text == "READY" || text == "0"
    ensures LineEvents(text) == [EvAck(text)]
  {
  }

  lemma ReplyEvents(reply: string)
    requires "+SBDI" <= reply
    ensures reply[0] == '+' && LineEvents(reply) == [EvSBDTransmitComplete(reply)]
  {
    assert reply[0] == "+SBDI"[0];
    assert "CONNECT"[0] == 'C';
  }

  lemma NoEcho(text: string, sentence: string)
    requires text != "" && text[0] != 'A'
    ensures text != "AT" + sentence
  {
    assert ("AT" + sentence)[0] == 'A';
  }

  /** The machine is neither configuring nor hanging up, so an empty queue moves nothing. */
  predicate Settled(v: View) {
    !v.main.Configure? && !v.main.HangingUp? && !v.main.PostDisconnected?
  }

  lemma EmptyIsIgnored(m: Machine, now: real, callFirst: nat -> bool, n: nat)
    requires Drainable(m, [EvAtEmpty]) && m.mode.InCommand? && Settled(ViewOf(m))
    ensures Drain(m, [EvAtEmpty], now, callFirst, n) == m
  {
    assert [EvAtEmpty] + [] == [EvAtEmpty];
    DrainOne(m, EvAtEmpty, [], now, callFirst, n);
  }

  /** An acknowledgement is the Command state's to react to, before the events behind it. */
  lemma AckDrains(m: Machine, text: string, q: seq<Event>, now: real, callFirst: nat -> bool, n: nat)
    requires m.mode.InCommand? && Drainable(m, [EvAck(text)] + q)
    ensures var r := CommandAck(m, text);
      && Drainable(r.machine, q + r.posted)
      && Drain(m, [EvAck(text)] + q, now, callFirst, n) == Drain(r.machine, q + r.posted, now, callFirst, n + 1)
  {
    DrainOne(m, EvAck(text), q, now, callFirst, n);
    assert Dispatch(m, EvAck(text), now, callFirst(n)) == MainDispatch(m, EvAck(text), now) == CommandAck(m, text);
  }

  lemma LineAcks(m: Machine, v: View, i: Input, text: string, q: seq<Event>)
    requires Answered(m, v, i, text) && IsPlain(v)
    requires text != "" && text[0] != 'A' && LineEvents(text) == [EvAck(text)] + q
    ensures var r := CommandAck(m, text);
      Drainable(r.machine, q + r.posted) && Apply(m, i) == Drain(r.machine, q + r.posted, i.now, i.callFirst, 2)
  {
    if v.texts != [] {
      NoEcho(text, v.texts[0]);
    }
    LinePosts(m, v, i, text);
    AckDrains(m, text, q, i.now, i.callFirst, 1);
  }

  /** An answer reaches the Command state as an acknowledgement. */
  lemma AnswerIsAck(m: Machine, v: View, i: Input, text: string)
    requires Shows(m, v) && IsPlain(v) && Accepts(m, i) && IsLine(i) && Trim(i.e.line) == text
    requires text == "OK" || text == "READY" || text == "0"
    ensures var r := CommandAck(m, text);
      Drainable(r.machine, r.posted) && Apply(m, i) == Drain(r.machine, r.posted, i.now, i.callFirst, 2)
  {
    AnswerEvents(text);
    assert [EvAck(text)] == [EvAck(text)] + [];
    LineAcks(m, v, i, text, []);
    var r := CommandAck(m, text);
    assert [] + r.posted == r.posted;
  }

  /** It takes the front sentence off. */
  lemma AckPops(m: Machine, v: View, text: string)
    requires Shows(m, v) && v.texts != [] && (text == "OK" || text == "READY")
    ensures var r := CommandAck(m, text);
      && Shows(r.machine, v.(texts := v.texts[1..]))
      && r.posted == AckEvents(v.texts[0], text, |v.texts| == 1)
  {
    var r := CommandAck(m, text);
    assert m.mode.cmd.atOut[0].text == v.texts[0];
    assert Texts(r.machine.mode.cmd.atOut) == v.texts[1..];
  }

  /** OK answers the front sentence, unless it was a dial or a hang-up. */
  lemma OkPops(m: Machine, v: View, i: Input)
    requires Shows(m, v) && (Settled(v) || |v.texts| > 1) && IsPlain(v) && v.texts != []
    requires v.texts[0] != "" ==> v.texts[0][0] != 'H' && v.texts[0][0] != 'D'
    requires Accepts(m, i) && IsLine(i) && Trim(i.e.line) == "OK"
    ensures Shows(Apply(m, i), v.(texts := v.texts[1..]))
  {
    AnswerIsAck(m, v, i, "OK");
    AckPops(m, v, "OK");
    var r := CommandAck(m, "OK");
    if |v.texts| == 1 {
      assert r.posted == [EvAtEmpty];
      EmptyIsIgnored(r.machine, i.now, i.callFirst, 2);
    } else {
      DrainNone(r.machine, i.now, i.callFirst, 2);
    }
  }

  /** READY to a length sends the stored block. */
  lemma ReadyWrites(m: Machine, v: View, i: Input)
    requires Shows(m, v) && Settled(v) && IsPlain(v) && |v.texts| == 1 && v.sbd.SbdWrite?
    requires Accepts(m, i) && IsLine(i) && Trim(i.e.line) == "READY"
    ensures Shows(Apply(m, i), v.(texts := [], sbdLog := v.sbdLog + [BlockWritten(v.data)]))
    ensures Apply(m, i).serialTx == Newest(m.serialTx + [v.data], SERIAL_CAPACITY)
  {
    AnswerIsAck(m, v, i, "READY");
    AckPops(m, v, "READY");
    var r := CommandAck(m, "READY");
    assert r.posted == [EvSBDWriteReady] + [EvAtEmpty];
    DrainOne(r.machine, EvSBDWriteReady, [EvAtEmpty], i.now, i.callFirst, 2);
    var m2 := WriteSbdBlock(r.machine);
    assert Dispatch(r.machine, EvSBDWriteReady, i.now, i.callFirst(2)) == Reaction(m2, []);
    assert [EvAtEmpty] + [] == [EvAtEmpty] && v.texts[1..] == [];
    EmptyIsIgnored(m2, i.now, i.callFirst, 3);
    PushedIsNewest(m.serialTx, v.data, SERIAL_CAPACITY);
  }

  /** READY puts the payload of the session and its byte sum at the end of the serial buffer, behind what was there. */
  lemma ReadySendsBlock(m: Machine, v: View, i: Input, payload: string)
    requires Shows(m, v) && Settled(v) && IsPlain(v) && |v.texts| == 1 && v.sbd.SbdWrite?
    requires payload != "" && v.data == Framed(payload)
    requires Accepts(m, i) && IsLine(i) && Trim(i.e.line) == "READY"
    ensures var tx := Apply(m, i).serialTx;
      && tx != [] && IsBlockOf(tx[|tx| - 1], payload)
      && tx[..|tx| - 1] == if |m.serialTx| == SERIAL_CAPACITY then m.serialTx[1..] else m.serialTx
  {
    ReadyWrites(m, v, i);
    FramedIsPayloadAndSum(payload);
    NewestOf(m.serialTx, v.data, SERIAL_CAPACITY);
  }

  function LengthCommand(payload: string): string {
    "+SBDWB=" + Decimal(|payload|)
  }

  function TransmitCommand(ringAlert: bool): string {
    if ringAlert then "+SBDIXA" else "+SBDIX"
  }

  lemma PushShows(m: Machine, text: string)
    requires m.mode.InCommand? && WithinCapacity(m) && |m.mode.cmd.atOut| < AT_CAPACITY
    ensures Texts(PushAt(m, text).mode.cmd.atOut) == Texts(m.mode.cmd.atOut) + [text]
  {
  }

  /** Zero to the clearing of the buffers announces the payload. */
  lemma ZeroAnnounces(m: Machine, v: View, i: Input, payload: string)
    requires Shows(m, v) && v.texts == ["+SBDD2"] && v.sbd.SbdClearBuffers?
    requires payload != "" && v.data == Framed(payload)
    requires Accepts(m, i) && IsLine(i) && Trim(i.e.line) == "0"
    ensures Shows(Apply(m, i), v.(sbd := SbdWrite, texts := ["+SBDD2", LengthCommand(payload)],
                                  sbdLog := v.sbdLog + [LengthQueued(LengthCommand(payload))]))
  {
    AnswerIsAck(m, v, i, "0");
    assert m.mode.cmd.atOut[0].text == v.texts[0];
    assert CommandAck(m, "0") == Reaction(m, [EvSBDSendBufferCleared]);
    assert [EvSBDSendBufferCleared] + [] == [EvSBDSendBufferCleared];
    DrainOne(m, EvSBDSendBufferCleared, [], i.now, i.callFirst, 2);
    FramedLength(payload);
    PushShows(SetSbd(m, SbdWrite), LengthCommand(payload));
    var r := EnterSbdWrite(m);
    assert Dispatch(m, EvSBDSendBufferCleared, i.now, i.callFirst(2)) == r && r.posted == [];
    assert ["+SBDD2"] + [LengthCommand(payload)] == ["+SBDD2", LengthCommand(payload)];
  }

  /** Zero with an empty queue ends the write and starts the transmission. */
  lemma ZeroTransmits(m: Machine, v: View, i: Input)
    requires Shows(m, v) && v.texts == [] && v.sbd.SbdWrite?
    requires Accepts(m, i) && IsLine(i) && Trim(i.e.line) == "0"
    ensures Shows(Apply(m, i), v.(sbd := SbdTransmit, texts := ["AT", TransmitCommand(v.ringAlert)]))
  {
    AnswerIsAck(m, v, i, "0");
    assert m.mode.cmd.atOut == [];
    var r := CommandAck(m, "0");
    assert r == Reaction(PushAt(m, "AT"), [EvSBDWriteComplete]);
    CompleteTransmits(r.machine, i.now, i.callFirst, 2);
    PushShows(m, "AT");
    PushShows(SetSbd(r.machine, SbdTransmit), TransmitCommand(v.ringAlert));
    assert [] + ["AT"] + [TransmitCommand(v.ringAlert)] == ["AT", TransmitCommand(v.ringAlert)];
  }

  /** Where the answer to a transmission leads. */
  function Transmitted(v: View, reply: string): View {
    if MessageReceived(reply) then v.(sbd := SbdReceive, data := "", texts := v.texts + ["+SBDRB"])
    else v.(sbd := SbdReady, data := "")
  }

  lemma ReplyEnds(m: Machine, v: View, i: Input, reply: string)
    requires Shows(m, v) && IsPlain(v) && |v.texts| == 1 && v.sbd.SbdTransmit?
    requires "+SBDI" <= reply && Accepts(m, i) && IsLine(i) && Trim(i.e.line) == reply
    ensures Shows(Apply(m, i), Transmitted(v, reply))
  {
    ReplyEvents(reply);
    NoEcho(reply, v.texts[0]);
    LinePosts(m, v, i, reply);
    var e := EvSBDTransmitComplete(reply);
    assert [e] + [] == [e];
    DrainOne(m, e, [], i.now, i.callFirst, 1);
    var m2 := LeaveSbdTransmit(m, reply);
    assert Dispatch(m, e, i.now, i.callFirst(1)) == Reaction(m2, []);
    if MessageReceived(reply) {
      PushShows(SetSbd(m.(mode := InCommand(m.mode.cmd.(data := ""))), SbdReceive), "+SBDRB");
    }
  }

  lemma BeginShows(m: Machine, v: View, i: Input)
    requires Shows(m, v) && v.texts == [] && v.sbd.SbdReady? && Accepts(m, i) && i.Process? && i.e.EvSBDBeginData?
    ensures Shows(Apply(m, i), v.(sbd := SbdClearBuffers, data := Framed(i.e.data), ringAlert := i.e.ringAlert,
                                  texts := ["+SBDD2"], rxBuffer := "", sbdLog := v.sbdLog + [Begun(i.e.data)]))
  {
    assert Dispatch(m, i.e, i.now, i.callFirst(0)) == Reaction(BeginSbd(m, i.e.data, i.e.ringAlert), []);
    DrainAlone(m, i.e, i.now, i.callFirst, 0);
    BegunShows(m, v, i.e.data, i.e.ringAlert);
  }

  lemma BegunShows(m: Machine, v: View, data: string, ringAlert: bool)
    requires Shows(m, v) && v.texts == []
    ensures Shows(BeginSbd(m, data, ringAlert),
                  v.(sbd := SbdClearBuffers, data := Framed(data), ringAlert := ringAlert,
                     texts := ["+SBDD2"], rxBuffer := "", sbdLog := v.sbdLog + [Begun(data)]))
  {
    assert Texts(BeginSbd(m, data, ringAlert).mode.cmd.atOut) == ["+SBDD2"];
  }

  // ---- A whole session ----

  predicate Quiet(v: View) {
    Settled(v) && v.rxBuffer == ""
  }

  lemma OkMoves(v: View)
    requires (Settled(v) || |v.texts| > 1) && IsPlain(v) && v.texts != []
    requires v.texts[0] != "" ==> v.texts[0][0] != 'H' && v.texts[0][0] != 'D'
    ensures Moves(v, "OK", v.(texts := v.texts[1..]))
  {
    forall m: Machine, i: Input | Answered(m, v, i, "OK") ensures Shows(Apply(m, i), v.(texts := v.texts[1..])) {
      OkPops(m, v, i);
    }
  }

  /** The end of a session: the answer to the transmission, and its OK. */
  lemma ReplyLeads(v: View, reply: string)
    requires Quiet(v) && v.texts == [TransmitCommand(v.ringAlert)] && v.sbd.SbdTransmit? && "+SBDI" <= reply
    ensures Leads(v, [reply, "OK"], Ended(v, reply))
  {
    var v1 := Transmitted(v, reply);
    forall m: Machine, i: Input | Answered(m, v, i, reply) ensures Shows(Apply(m, i), v1) {
      ReplyEnds(m, v, i, reply);
    }
    OkMoves(v1);
    var v2 := v1.(texts := v1.texts[1..]);
    assert v2 == Ended(v, reply);
    LeadsNowhere(v2);
    LeadsOn(v1, "OK", v2, [], v2);
    LeadsOn(v, reply, v1, ["OK"] + [], v2);
    assert [reply] + (["OK"] + []) == [reply, "OK"];
  }

  /** At rest, or about to read the message that was waiting. */
  function Ended(v: View, reply: string): View {
    if MessageReceived(reply) then v.(sbd := SbdReceive, data := "", texts := ["+SBDRB"])
    else v.(sbd := SbdReady, data := "", texts := [])
  }

  /** From the written block on: it is taken, transmitted and answered. */
  lemma BlockLeads(v: View, reply: string)
    requires Quiet(v) && v.texts == [] && v.sbd.SbdWrite? && "+SBDI" <= reply
    ensures Leads(v, ["0", "OK", reply, "OK"], Ended(v, reply))
  {
    var v1 := v.(sbd := SbdTransmit, texts := ["AT", TransmitCommand(v.ringAlert)]);
    forall m: Machine, i: Input | Answered(m, v, i, "0") ensures Shows(Apply(m, i), v1) {
      ZeroTransmits(m, v, i);
    }
    OkMoves(v1);
    var v2 := v1.(texts := v1.texts[1..]);
    ReplyLeads(v2, reply);
    assert Ended(v2, reply) == Ended(v, reply);
    LeadsOn(v1, "OK", v2, [reply, "OK"], Ended(v, reply));
    LeadsOn(v, "0", v1, ["OK"] + [reply, "OK"], Ended(v, reply));
    assert ["0"] + (["OK"] + [reply, "OK"]) == ["0", "OK", reply, "OK"];
  }

  /** From the announced length on: the modem is ready, and the block goes out. */
  lemma LengthLeads(v: View, reply: string)
    requires Quiet(v) && |v.texts| == 2 && v.texts[0] == "+SBDD2" && v.texts[1] != "+SBDRB" && v.sbd.SbdWrite?
    requires "+SBDI" <= reply
    ensures Leads(v, ["OK", "READY", "0", "OK", reply, "OK"],
                  Ended(v.(sbdLog := v.sbdLog + [BlockWritten(v.data)]), reply))
  {
    var tail := ["0", "OK", reply, "OK"];
    OkMoves(v);
    var v1 := v.(texts := v.texts[1..]);
    var v2 := v1.(texts := [], sbdLog := v.sbdLog + [BlockWritten(v.data)]);
    forall m: Machine, i: Input | Answered(m, v1, i, "READY") ensures Shows(Apply(m, i), v2) {
      ReadyWrites(m, v1, i);
    }
    BlockLeads(v2, reply);
    var v' := Ended(v2, reply);
    LeadsOn(v1, "READY", v2, tail, v');
    LeadsOn(v, "OK", v1, ["READY"] + tail, v');
    assert ["OK"] + (["READY"] + tail) == ["OK", "READY", "0", "OK", reply, "OK"];
    assert v' == Ended(v.(sbdLog := v.sbdLog + [BlockWritten(v.data)]), reply);
  }

  /** From the cleared buffers on. */
  lemma ClearedLeads(v: View, payload: string, reply: string)
    requires Quiet(v) && v.texts == ["+SBDD2"] && v.sbd.SbdClearBuffers? && "+SBDI" <= reply
    requires payload != "" && v.data == Framed(payload)
    ensures Leads(v, ["0", "OK", "READY", "0", "OK", reply, "OK"],
                  Ended(v.(sbdLog := v.sbdLog + [LengthQueued(LengthCommand(payload)), BlockWritten(v.data)]), reply))
  {
    var v1 := v.(sbd := SbdWrite, texts := ["+SBDD2", LengthCommand(payload)],
                 sbdLog := v.sbdLog + [LengthQueued(LengthCommand(payload))]);
    forall m: Machine, i: Input | Answered(m, v, i, "0") ensures Shows(Apply(m, i), v1) {
      ZeroAnnounces(m, v, i, payload);
    }
    LengthLeads(v1, reply);
    var tail := ["OK", "READY", "0", "OK", reply, "OK"];
    var v' := Ended(v1.(sbdLog := v1.sbdLog + [BlockWritten(v.data)]), reply);
    LeadsOn(v, "0", v1, tail, v');
    assert v1.sbdLog + [BlockWritten(v.data)]
        == v.sbdLog + [LengthQueued(LengthCommand(payload)), BlockWritten(v.data)];
    assert ["0"] + tail == ["0", "OK", "READY", "0", "OK", reply, "OK"];
  }

  /** In Command, with nothing queued and no session. */
  predicate AtRest(m: Machine) {
    && WithinCapacity(m) && m.cfg.targetBitRate > 0 && m.mode.InCommand?
    && Settled(ViewOf(m)) && m.mode.cmd.atOut == [] && m.mode.cmd.sbd.SbdReady?
  }

  /** What a session with this payload leaves behind, before anything is read. */
  function AfterSession(v: View, payload: string, ringAlert: bool, reply: string): View {
    var log := v.sbdLog + [Begun(payload), LengthQueued(LengthCommand(payload)), BlockWritten(Framed(payload))];
    Ended(v.(ringAlert := ringAlert, rxBuffer := "", sbdLog := log), reply)
  }

  /**
   A session with a modem that answers each command runs to its end: exactly one length and one
   block go out, both of this payload, and the machine is at rest again or reading what was received.
   */
  lemma SessionRuns(m: Machine, begin: Input, inputs: seq<Input>, reply: string)
    requires AtRest(m) && Accepts(m, begin) && begin.Process? && begin.e.EvSBDBeginData? && begin.e.data != ""
    requires "+SBDI" <= reply
    requires Dialogue(Apply(m, begin), inputs, ["0", "OK", "READY", "0", "OK", reply, "OK"])
    ensures CanRun(Apply(m, begin), inputs)
    ensures Shows(Run(Apply(m, begin), inputs), AfterSession(ViewOf(m), begin.e.data, begin.e.ringAlert, reply))
  {
    var v, p := ViewOf(m), begin.e.data;
    BeginShows(m, v, begin);
    var v1 := v.(sbd := SbdClearBuffers, data := Framed(p), ringAlert := begin.e.ringAlert,
                 texts := ["+SBDD2"], rxBuffer := "", sbdLog := v.sbdLog + [Begun(p)]);
    ClearedLeads(v1, p, reply);
    assert Engaged(Apply(m, begin), v1, inputs, ["0", "OK", "READY", "0", "OK", reply, "OK"]);
    assert v1.sbdLog + [LengthQueued(LengthCommand(p)), BlockWritten(v1.data)]
        == v.sbdLog + [Begun(p), LengthQueued(LengthCommand(p)), BlockWritten(Framed(p))];
  }

  /** In a session exactly one block goes to the modem: the payload and its byte sum. */
  lemma SessionSendsBlock(m: Machine, begin: Input, inputs: seq<Input>, reply: string)
    requires AtRest(m) && Accepts(m, begin) && begin.Process? && begin.e.EvSBDBeginData? && begin.e.data != ""
    requires "+SBDI" <= reply && WireInvariant(m)
    requires Dialogue(Apply(m, begin), inputs, ["0", "OK", "READY", "0", "OK", reply, "OK"])
    ensures CanRun(Apply(m, begin), inputs)
    ensures var before := BlockLines(m.history.traffic);
      var after := BlockLines(Run(Apply(m, begin), inputs).history.traffic);
      |after| == |before| + 1 && after[..|before|] == before && IsBlockOf(after[|before|], begin.e.data)
  {
    SessionRuns(m, begin, inputs, reply);
    ApplyKeepsWire(m, begin);
    RunKeepsWire(Apply(m, begin), inputs);
    FramedIsPayloadAndSum(begin.e.data);
    OneBlockMore(m.history.sbd, begin.e.data);
  }

  lemma OneBlockMore(log: seq<SbdAction>, p: string)
    ensures var log' := log + [Begun(p), LengthQueued(LengthCommand(p)), BlockWritten(Framed(p))];
      WrittenBlocks(log') == WrittenBlocks(log) + [Framed(p)]
  {
    var one, two := log + [Begun(p)], log + [Begun(p)] + [LengthQueued(LengthCommand(p))];
    OneMoreStep(log, Begun(p));
    OneMoreStep(one, LengthQueued(LengthCommand(p)));
    OneMoreStep(two, BlockWritten(Framed(p)));
    assert two + [BlockWritten(Framed(p))] == log + [Begun(p), LengthQueued(LengthCommand(p)), BlockWritten(Framed(p))];
    assert WrittenBlocks(log) + [] + [] == WrittenBlocks(log);
  }

  // ---- A mailbox check ----

  /** Zero to the clearing of the buffers goes straight to the transmission when there is no payload. */
  lemma ZeroSkips(m: Machine, v: View, i: Input)
    requires Shows(m, v) && v.texts == ["+SBDD2"] && v.sbd.SbdClearBuffers? && v.data == ""
    requires Accepts(m, i) && IsLine(i) && Trim(i.e.line) == "0"
    ensures Shows(Apply(m, i), v.(sbd := SbdTransmit, texts := ["+SBDD2", TransmitCommand(v.ringAlert)]))
  {
    AnswerIsAck(m, v, i, "0");
    assert m.mode.cmd.atOut[0].text == v.texts[0];
    assert CommandAck(m, "0") == Reaction(m, [EvSBDSendBufferCleared]);
    assert [EvSBDSendBufferCleared] + [] == [EvSBDSendBufferCleared];
    DrainOne(m, EvSBDSendBufferCleared, [], i.now, i.callFirst, 2);
    var m2 := SetSbd(m, SbdWrite);
    assert Dispatch(m, EvSBDSendBufferCleared, i.now, i.callFirst(2)) == Reaction(m2, [EvSBDWriteComplete]);
    assert [] + [EvSBDWriteComplete] == [EvSBDWriteComplete];
    CompleteTransmits(m2, i.now, i.callFirst, 3);
    PushShows(SetSbd(m2, SbdTransmit), TransmitCommand(v.ringAlert));
    assert ["+SBDD2"] + [TransmitCommand(v.ringAlert)] == ["+SBDD2", TransmitCommand(v.ringAlert)];
  }

  lemma CompleteTransmits(m: Machine, now: real, callFirst: nat -> bool, n: nat)
    requires m.mode.InCommand? && m.mode.cmd.sbd.SbdWrite? && Drainable(m, [EvSBDWriteComplete])
    ensures Drain(m, [EvSBDWriteComplete], now, callFirst, n) == EnterSbdTransmit(m)
  {
    assert [EvSBDWriteComplete] + [] == [EvSBDWriteComplete];
    DrainOne(m, EvSBDWriteComplete, [], now, callFirst, n);
    assert Dispatch(m, EvSBDWriteComplete, now, callFirst(n)) == Reaction(EnterSbdTransmit(m), []);
    DrainNone(EnterSbdTransmit(m), now, callFirst, n + 1);
  }

  /** A session without payload announces and writes nothing. */
  lemma MailboxCheckRuns(m: Machine, begin: Input, inputs: seq<Input>, reply: string)
    requires AtRest(m) && Accepts(m, begin) && begin.Process? && begin.e.EvSBDBeginData? && begin.e.data == ""
    requires "+SBDI" <= reply
    requires Dialogue(Apply(m, begin), inputs, ["0", "OK", reply, "OK"])
    ensures CanRun(Apply(m, begin), inputs)
    ensures var v := ViewOf(m);
      Shows(Run(Apply(m, begin), inputs),
            Ended(v.(ringAlert := begin.e.ringAlert, rxBuffer := "", sbdLog := v.sbdLog + [Begun("")]), reply))
  {
    var v := ViewOf(m);
    BeginShows(m, v, begin);
    var v1 := v.(sbd := SbdClearBuffers, data := "", ringAlert := begin.e.ringAlert,
                 texts := ["+SBDD2"], rxBuffer := "", sbdLog := v.sbdLog + [Begun("")]);
    MailboxLeads(v1, reply);
    assert Engaged(Apply(m, begin), v1, inputs, ["0", "OK", reply, "OK"]);
  }

  lemma MailboxLeads(v: View, reply: string)
    requires Quiet(v) && v.texts == ["+SBDD2"] && v.sbd.SbdClearBuffers? && v.data == "" && "+SBDI" <= reply
    ensures Leads(v, ["0", "OK", reply, "OK"], Ended(v, reply))
  {
    var v1 := v.(sbd := SbdTransmit, texts := ["+SBDD2", TransmitCommand(v.ringAlert)]);
    forall m: Machine, i: Input | Answered(m, v, i, "0") ensures Shows(Apply(m, i), v1) {
      ZeroSkips(m, v, i);
    }
    OkMoves(v1);
    var v2 := v1.(texts := v1.texts[1..]);
    ReplyLeads(v2, reply);
    assert Ended(v2, reply) == Ended(v, reply);
    LeadsOn(v1, "OK", v2, [reply, "OK"], Ended(v, reply));
    LeadsOn(v, "0", v1, ["OK"] + [reply, "OK"], Ended(v, reply));
    assert ["0"] + (["OK"] + [reply, "OK"]) == ["0", "OK", reply, "OK"];
  }

  /** A message announced in the answer is then delivered once and whole, however its text is cut into lines. */
  lemma SessionDelivers(m: Machine, begin: Input, inputs: seq<Input>, reply: string,
                        more: seq<Input>, newline: string, header: string, message: string)
    requires AtRest(m) && Accepts(m, begin) && begin.Process? && begin.e.EvSBDBeginData? && begin.e.data != ""
    requires "+SBDI" <= reply && MessageReceived(reply)
    requires Dialogue(Apply(m, begin), inputs, ["0", "OK", "READY", "0", "OK", reply, "OK"])
    requires IsMessage(header, message) && header[0] != '\n' && (newline == "" || newline == "\n")
    requires CanRun(Apply(m, begin), inputs) && Served(Run(Apply(m, begin), inputs), more)
    requires Arrives("", more, newline + (header + message)) && PollsWithin(more, |newline|)
    ensures DeliversAtLast(Run(Apply(m, begin), inputs), more, message)
  {
    SessionRuns(m, begin, inputs, reply);
    var m' := Run(Apply(m, begin), inputs);
    assert ViewOf(m').texts[0] == m'.mode.cmd.atOut[0].text;
    Reassembles(m', more, newline, header, message);
  }

  // ---- A call ----

  /** Dialling without an answer. */
  predicate IsRefusal(line: string) {
    line == "NO CARRIER" || line == "NO DIALTONE" || line == "BUSY"
  }

  /** A plain OK to a dial command is a failure as well. */
  predicate IsFailure(line: string) {
    IsRefusal(line) || line == "OK"
  }

  function Dialling(v: View, attempts: nat): View {
    v.(main := Dial(attempts), texts := ["D" + v.cfg.number], dials := v.dials + [attempts])
  }

  lemma DialShows(m: Machine, v: View, i: Input)
    requires Shows(m, v) && v.main.Ready? && v.call.NotOnCall? && v.texts == []
    requires Accepts(m, i) && i.Process? && i.e.EvDial?
    ensures Shows(Apply(m, i), Dialling(v, 1))
  {
    assert [i.e] + [] == [i.e];
    DrainOne(m, i.e, [], i.now, i.callFirst, 0);
    var m2 := DialNow(m, 1);
    assert Dispatch(m, i.e, i.now, i.callFirst(0)) == Reaction(m2, []);
    assert Texts(m2.mode.cmd.atOut) == ["D" + v.cfg.number];
  }

  /** Where a failed attempt leads: to the next one while there are any left, else back to Ready. */
  function Failed(v: View, attempts: nat): View {
    if attempts < v.cfg.dialAttempts then Dialling(v, attempts + 1)
    else v.(main := Ready, texts := [], dials := v.dials + [attempts])
  }

  lemma FailureEvents(line: string)
    requires IsRefusal(line)
    ensures LineEvents(line) == [EvAck(line)] + [EvNoCarrier] && line[0] != 'A'
  {
  }

  lemma FailureIsAcked(m: Machine, v: View, line: string)
    requires Shows(m, v) && |v.texts| == 1 && IsRefusal(line)
    ensures CommandAck(m, line) == Reaction(m.(mode := InCommand(m.mode.cmd.(atOut := []))), [EvAtEmpty])
  {
    assert m.mode.cmd.atOut[1..] == [];
  }

  lemma FailureAcks(m: Machine, v: View, i: Input, line: string)
    requires Shows(m, v) && |v.texts| == 1 && v.texts[0] != "" && v.texts[0][0] == 'D' && IsFailure(line)
    requires Accepts(m, i) && IsLine(i) && Trim(i.e.line) == line
    ensures var m2 := m.(mode := InCommand(m.mode.cmd.(atOut := [])));
      Drainable(m2, [EvNoCarrier, EvAtEmpty])
      && Apply(m, i) == Drain(m2, [EvNoCarrier, EvAtEmpty], i.now, i.callFirst, 2)
  {
    assert [EvNoCarrier] + [EvAtEmpty] == [EvNoCarrier, EvAtEmpty];
    if line == "OK" {
      AnswerIsAck(m, v, i, "OK");
      OkToDial(m, v);
    } else {
      FailureEvents(line);
      LineAcks(m, v, i, line, [EvNoCarrier]);
      FailureIsAcked(m, v, line);
    }
  }

  lemma OkToDial(m: Machine, v: View)
    requires Shows(m, v) && |v.texts| == 1 && v.texts[0] != "" && v.texts[0][0] == 'D'
    ensures CommandAck(m, "OK")
         == Reaction(m.(mode := InCommand(m.mode.cmd.(atOut := []))), [EvNoCarrier] + [EvAtEmpty])
  {
    assert m.mode.cmd.atOut[0].text == v.texts[0] && m.mode.cmd.atOut[1..] == [];
  }

  lemma FailureMoves(v: View, attempts: nat, line: string)
    requires v.call.NotOnCall? && attempts >= 1 && IsFailure(line)
    ensures Moves(Dialling(v, attempts), line, Failed(v, attempts))
  {
    var v1 := Dialling(v, attempts);
    assert v1.texts[0][0] == 'D';
    forall m: Machine, i: Input | Answered(m, v1, i, line) ensures Shows(Apply(m, i), Failed(v, attempts)) {
      FailureAcks(m, v1, i, line);
      var m2 := m.(mode := InCommand(m.mode.cmd.(atOut := [])));
      FailureReacts(m2, v, attempts, i.now, i.callFirst);
    }
  }

  lemma FailureReacts(m: Machine, v: View, attempts: nat, now: real, callFirst: nat -> bool)
    requires v.call.NotOnCall? && attempts >= 1 && Shows(m, Dialling(v, attempts).(texts := []))
    requires Drainable(m, [EvNoCarrier, EvAtEmpty])
    ensures Shows(Drain(m, [EvNoCarrier, EvAtEmpty], now, callFirst, 2), Failed(v, attempts))
  {
    assert [EvNoCarrier] + [EvAtEmpty] == [EvNoCarrier, EvAtEmpty] && [EvAtEmpty] + [] == [EvAtEmpty];
    DrainOne(m, EvNoCarrier, [EvAtEmpty], now, callFirst, 2);
    FailureShows(m, v, attempts, callFirst(2));
    var r := NoCarrier(m, callFirst(2));
    assert Dispatch(m, EvNoCarrier, now, callFirst(2)) == r;
    EmptyIsIgnored(r.machine, now, callFirst, 3);
  }

  lemma FailureShows(m: Machine, v: View, attempts: nat, callFirst: bool)
    requires v.call.NotOnCall? && attempts >= 1 && Shows(m, Dialling(v, attempts).(texts := []))
    ensures var r := NoCarrier(m, callFirst); r.posted == [] && Shows(r.machine, Failed(v, attempts))
  {
    var r := NoCarrier(m, callFirst);
    assert m.history.dials[..|m.history.dials| - 1] == v.dials;
    assert attempts < v.cfg.dialAttempts ==> Texts(r.machine.mode.cmd.atOut) == ["D" + v.cfg.number];
  }

  lemma FailureLeadsOn(v: View, attempts: nat, line: string, lines: seq<string>, v': View)
    requires v.call.NotOnCall? && attempts >= 1 && IsFailure(line) && Leads(Failed(v, attempts), lines, v')
    ensures Leads(Dialling(v, attempts), [line] + lines, v')
  {
    FailureMoves(v, attempts, line);
    assert Dialling(v, attempts).texts[0][0] == 'D';
    LeadsOn(Dialling(v, attempts), line, Failed(v, attempts), lines, v');
  }

  function GivenUp(v: View): View {
    v.(main := Ready, texts := [], dials := v.dials + [MaxDials(v.cfg)])
  }

  lemma LastFailure(v: View, attempts: nat)
    requires attempts == MaxDials(v.cfg)
    ensures Leads(Failed(v, attempts), [], GivenUp(v))
  {
    assert Failed(v, attempts) == GivenUp(v);
    LeadsNowhere(GivenUp(v));
  }

  predicate AreFailures(lines: seq<string>) {
    forall k | 0 <= k < |lines| :: IsFailure(lines[k])
  }

  lemma {:induction false} FailuresLead(v: View, attempts: nat, lines: seq<string>)
    requires v.call.NotOnCall? && attempts >= 1 && AreFailures(lines)
    requires |lines| == MaxDials(v.cfg) - attempts + 1 && lines != []
    ensures Leads(Dialling(v, attempts), lines, GivenUp(v))
    decreases |lines|
  {
    if |lines| == 1 {
      LastFailure(v, attempts);
      FailureLeadsOn(v, attempts, lines[0], [], GivenUp(v));
      assert [lines[0]] + [] == lines;
    } else {
      FailuresLead(v, attempts + 1, lines[1..]);
      NextFailure(v, attempts, lines, GivenUp(v));
    }
  }

  lemma NextFailure(v: View, attempts: nat, lines: seq<string>, v': View)
    requires v.call.NotOnCall? && 1 <= attempts < v.cfg.dialAttempts && lines != [] && AreFailures(lines)
    requires Leads(Dialling(v, attempts + 1), lines[1..], v')
    ensures Leads(Dialling(v, attempts), lines, v')
  {
    FailureLeadsOn(v, attempts, lines[0], lines[1..], v');
    assert [lines[0]] + lines[1..] == lines;
  }

  /** A dial that always fails is tried exactly as often as configured, at least once, and then given up. */
  lemma DialGivesUp(m: Machine, dial: Input, inputs: seq<Input>, lines: seq<string>)
    requires AtRest(m) && m.mode.cmd.main.Ready? && m.call.NotOnCall?
    requires Accepts(m, dial) && dial.Process? && dial.e.EvDial?
    requires |lines| == MaxDials(m.cfg) && AreFailures(lines)
    requires Dialogue(Apply(m, dial), inputs, lines)
    ensures CanRun(Apply(m, dial), inputs)
    ensures Shows(Run(Apply(m, dial), inputs), ViewOf(m).(dials := m.history.dials + [MaxDials(m.cfg)]))
  {
    var v := ViewOf(m);
    DialShows(m, v, dial);
    FailuresLead(v, 1, lines);
    assert Engaged(Apply(m, dial), Dialling(v, 1), inputs, lines);
  }

  lemma ConnectEvents(line: string)
    requires "CONNECT" <= line
    ensures line[0] == 'C' && LineEvents(line) == [EvAck(line)] + [EvConnect]
  {
    assert line[0] == "CONNECT"[0];
  }

  lemma ConnectIsAcked(m: Machine, v: View, line: string)
    requires Shows(m, v) && |v.texts| == 1 && "CONNECT" <= line && line[0] == 'C'
    ensures CommandAck(m, line) == Reaction(m.(mode := InCommand(m.mode.cmd.(atOut := []))), [EvAtEmpty])
  {
    assert m.mode.cmd.atOut[1..] == [];
  }

  /** Dialling or answering. */
  predicate Calling(main: MainState) {
    main.Dial? || main.Answer?
  }

  /** A call just started at this time. */
  function NewCall(now: real): Call {
    OnCall(now, now, 0.0, 0, 0, false, false, false)
  }

  lemma ConnectReacts(m: Machine, now: real, callFirst: nat -> bool)
    requires m.mode.InCommand? && Calling(m.mode.cmd.main) && m.call.NotOnCall? && Drainable(m, [EvConnect, EvAtEmpty])
    ensures var m' := Drain(m, [EvConnect, EvAtEmpty], now, callFirst, 2);
      m'.mode.Online? && m'.call == NewCall(now) && m'.serialTx != [] && m'.serialTx[0] == "goby\r"
  {
    assert [EvConnect] + [EvAtEmpty] == [EvConnect, EvAtEmpty];
    DrainOne(m, EvConnect, [EvAtEmpty], now, callFirst, 2);
    var r := StartCall(m, now);
    assert Dispatch(m, EvConnect, now, callFirst(2)) == r;
    GoesOnline(r.machine, now, callFirst);
  }

  lemma GoesOnline(m: Machine, now: real, callFirst: nat -> bool)
    requires m.mode.InCommand? && Calling(m.mode.cmd.main) && Drainable(m, [EvAtEmpty] + [EvOnline])
    ensures Drain(m, [EvAtEmpty] + [EvOnline], now, callFirst, 3) == m.(mode := Online)
  {
    DrainOne(m, EvAtEmpty, [EvOnline], now, callFirst, 3);
    assert Dispatch(m, EvAtEmpty, now, callFirst(3)) == Reaction(m, []);
    assert [EvOnline] + [] == [EvOnline];
    DrainOne(m, EvOnline, [], now, callFirst, 4);
    assert Dispatch(m, EvOnline, now, callFirst(4)) == Reaction(m.(mode := Online), []);
    DrainNone(m.(mode := Online), now, callFirst, 5);
  }

  lemma ConnectGoesOnline(m: Machine, v: View, i: Input, line: string)
    requires v.call.NotOnCall? && Calling(v.main) && |v.texts| == 1 && IsPlain(v) && "CONNECT" <= line
    requires Answered(m, v, i, line)
    ensures var m' := Apply(m, i);
      m'.mode.Online? && m'.call == NewCall(i.now) && m'.serialTx != [] && m'.serialTx[0] == "goby\r"
  {
    ConnectEvents(line);
    LineAcks(m, v, i, line, [EvConnect]);
    ConnectIsAcked(m, v, line);
    assert [EvConnect] + [EvAtEmpty] == [EvConnect, EvAtEmpty];
    ConnectReacts(m.(mode := InCommand(m.mode.cmd.(atOut := []))), i.now, i.callFirst);
  }

  /** A dial that is answered ends online, on a call that starts now, with the greeting first in line. */
  lemma DialConnects(m: Machine, dial: Input, inputs: seq<Input>, line: string)
    requires AtRest(m) && m.mode.cmd.main.Ready? && m.call.NotOnCall?
    requires Accepts(m, dial) && dial.Process? && dial.e.EvDial?
    requires "CONNECT" <= line && Dialogue(Apply(m, dial), inputs, [line])
    ensures CanRun(Apply(m, dial), inputs) && inputs != [] && IsLine(inputs[|inputs| - 1])
    ensures var m' := Run(Apply(m, dial), inputs);
      && m'.mode.Online? && m'.call == NewCall(inputs[|inputs| - 1].now)
      && m'.serialTx != [] && m'.serialTx[0] == "goby\r"
  {
    var v := ViewOf(m);
    DialShows(m, v, dial);
    assert Dialling(v, 1).texts[0][0] == 'D';
    ConnectsAtLast(Apply(m, dial), Dialling(v, 1), inputs, line);
  }

  lemma {:induction false} ConnectsAtLast(m: Machine, v: View, inputs: seq<Input>, line: string)
    requires v.call.NotOnCall? && Calling(v.main) && |v.texts| == 1 && IsPlain(v) && "CONNECT" <= line
    requires Shows(m, v) && Dialogue(m, inputs, [line])
    ensures CanRun(m, inputs) && inputs != [] && IsLine(inputs[|inputs| - 1])
    ensures var m' := Run(m, inputs);
      && m'.mode.Online? && m'.call == NewCall(inputs[|inputs| - 1].now)
      && m'.serialTx != [] && m'.serialTx[0] == "goby\r"
    decreases |inputs|
  {
    var m1 := Apply(m, inputs[0]);
    if IsPoll(inputs[0]) {
      assert v.texts[0] == m.mode.cmd.atOut[0].text;
      PollIsInvisible(m, inputs[0]);
      ConnectsAtLast(m1, v, inputs[1..], line);
      assert inputs[1..][|inputs| - 2] == inputs[|inputs| - 1];
    } else {
      ConnectGoesOnline(m, v, inputs[0], line);
      assert [line][1..] == [];
      assert inputs[1..] == [];
      assert Run(m1, inputs[1..]) == m1;
    }
  }

  // ---- Hanging up ----

  lemma HangupShows(m: Machine, i: Input)
    requires m.mode.Online? && m.call.OnCall? && Accepts(m, i) && i.Process? && i.e.EvHangup?
    ensures Shows(Apply(m, i), View(m.cfg, HangingUp, SbdReady, "", false, ["+++", "H"], "",
                                    m.call.(hangupRequested := true), m.history.sbd, m.history.dials,
                                    m.history.delivered))
  {
    assert [i.e] + [] == [i.e];
    DrainOne(m, i.e, [], i.now, i.callFirst, 0);
    var m1 := EnterCommand(RequestHangup(m), HangingUp);
    var m2 := PushAllAt(m1, ["+++", "H"]);
    assert Dispatch(m, i.e, i.now, i.callFirst(0)) == Reaction(m2, []);
    assert ["+++", "H"][..1] == ["+++"] && ["+++"][..0] == [];
    assert PushAllAt(m1, ["+++"]) == PushAt(PushAllAt(m1, []), "+++") == PushAt(m1, "+++");
    assert m2 == PushAt(PushAt(m1, "+++"), "H");
    PushShows(m1, "+++");
    PushShows(PushAt(m1, "+++"), "H");
    assert [] + ["+++"] + ["H"] == ["+++", "H"];
  }

  lemma HangupReacts(m: Machine, v: View, now: real, callFirst: nat -> bool)
    requires Shows(m, v) && v.main.HangingUp? && v.call.OnCall? && Drainable(m, [EvNoCarrier, EvAtEmpty])
    ensures Shows(Drain(m, [EvNoCarrier, EvAtEmpty], now, callFirst, 2), v.(main := Ready, call := NotOnCall))
  {
    assert [EvNoCarrier] + [EvAtEmpty] == [EvNoCarrier, EvAtEmpty];
    DrainOne(m, EvNoCarrier, [EvAtEmpty], now, callFirst, 2);
    var m1 := m.(call := NotOnCall);
    assert Dispatch(m, EvNoCarrier, now, callFirst(2)) == NoCarrier(m, callFirst(2)) == Reaction(m1, [EvDisconnect]);
    BecomesReady(m1, now, callFirst);
  }

  lemma BecomesReady(m: Machine, now: real, callFirst: nat -> bool)
    requires m.mode.InCommand? && m.mode.cmd.main.HangingUp? && Drainable(m, [EvAtEmpty] + [EvDisconnect])
    ensures Drain(m, [EvAtEmpty] + [EvDisconnect], now, callFirst, 3) == SetMain(m, Ready)
  {
    DrainOne(m, EvAtEmpty, [EvDisconnect], now, callFirst, 3);
    var m1 := SetMain(m, Ready);
    assert Dispatch(m, EvAtEmpty, now, callFirst(3)) == Reaction(m1, []);
    assert [EvDisconnect] + [] == [EvDisconnect];
    DrainOne(m1, EvDisconnect, [], now, callFirst, 4);
    assert Dispatch(m1, EvDisconnect, now, callFirst(4)) == Reaction(m1, []);
    DrainNone(m1, now, callFirst, 5);
  }

  lemma OkHangsUp(m: Machine, v: View, i: Input)
    requires v.main.HangingUp? && v.call.OnCall? && v.texts == ["H"] && Answered(m, v, i, "OK")
    ensures Shows(Apply(m, i), v.(main := Ready, call := NotOnCall, texts := []))
  {
    AnswerIsAck(m, v, i, "OK");
    AckPops(m, v, "OK");
    var r := CommandAck(m, "OK");
    assert r.posted == [EvNoCarrier, EvAtEmpty] && v.texts[1..] == [];
    HangupReacts(r.machine, v.(texts := []), i.now, i.callFirst);
  }

  /** Hanging up, with both commands answered, ends the call and leaves the machine ready and at rest. */
  lemma HangupEndsCall(m: Machine, hangup: Input, inputs: seq<Input>)
    requires m.mode.Online? && m.call.OnCall? && Accepts(m, hangup) && hangup.Process? && hangup.e.EvHangup?
    requires Dialogue(Apply(m, hangup), inputs, ["OK", "OK"])
    ensures CanRun(Apply(m, hangup), inputs)
    ensures var m' := Run(Apply(m, hangup), inputs); AtRest(m') && m'.mode.cmd.main.Ready? && m'.call.NotOnCall?
  {
    HangupShows(m, hangup);
    var v := View(m.cfg, HangingUp, SbdReady, "", false, ["+++", "H"], "",
                  m.call.(hangupRequested := true), m.history.sbd, m.history.dials, m.history.delivered);
    HangupLeads(v);
    assert Engaged(Apply(m, hangup), v, inputs, ["OK", "OK"]);
    assert |Run(Apply(m, hangup), inputs).mode.cmd.atOut| == |ViewOf(Run(Apply(m, hangup), inputs)).texts|;
  }

  lemma HangupLeads(v: View)
    requires v.main.HangingUp? && v.call.OnCall? && v.texts == ["+++", "H"]
    ensures Leads(v, ["OK", "OK"], v.(main := Ready, call := NotOnCall, texts := []))
  {
    OkMoves(v);
    var v1 := v.(texts := v.texts[1..]);
    var v2 := v.(main := Ready, call := NotOnCall, texts := []);
    assert v1.texts == ["H"];
    forall m: Machine, i: Input | Answered(m, v1, i, "OK") ensures Shows(Apply(m, i), v2) {
      OkHangsUp(m, v1, i);
    }
    LeadsNowhere(v2);
    LeadsOn(v1, "OK", v2, [], v2);
    LeadsOn(v, "OK", v1, ["OK"] + [], v2);
    assert ["OK"] + (["OK"] + []) == ["OK", "OK"];
  }

  // ---- Configuring ----

  /** The commands queued, as long as the buffer holds them all. */
  lemma {:induction false} PushAllShows(m: Machine, texts: seq<string>)
    requires m.mode.InCommand? && WithinCapacity(m) && |m.mode.cmd.atOut| + |texts| <= AT_CAPACITY
    ensures Texts(PushAllAt(m, texts).mode.cmd.atOut) == Texts(m.mode.cmd.atOut) + texts
    decreases |texts|
  {
    if texts == [] {
      assert Texts(m.mode.cmd.atOut) + texts == Texts(m.mode.cmd.atOut);
    } else {
      var first, last := texts[..|texts| - 1], texts[|texts| - 1];
      PushAllShows(m, first);
      assert |PushAllAt(m, first).mode.cmd.atOut| == |Texts(PushAllAt(m, first).mode.cmd.atOut)|;
      PushShows(PushAllAt(m, first), last);
      assert Texts(m.mode.cmd.atOut) + first + [last] == Texts(m.mode.cmd.atOut) + texts;
    }
  }

  /** The machine as initiated, with its configuration commands queued behind an empty one. */
  function Configuring(cfg: DriverConfig, texts: seq<string>): View {
    View(cfg, Configure, SbdReady, "", false, texts, "", NotOnCall, [], [], [])
  }

  lemma InitialShows(cfg: DriverConfig)
    requires cfg.targetBitRate > 0 && |cfg.config| < AT_CAPACITY
    ensures Shows(Initial(cfg), Configuring(cfg, [""] + cfg.config))
  {
    var m := EnterCommand(Machine(cfg, Online, NotOnCall, [], [], [], 0, History([], [], [], [], [])), Configure);
    PushAllShows(m, [""] + cfg.config);
    assert Texts(m.mode.cmd.atOut) + ([""] + cfg.config) == [""] + cfg.config;
  }

  /** A lost carrier means nothing to a machine that is configuring off a call. */
  lemma CarrierIsIgnored(m: Machine, q: seq<Event>, now: real, callFirst: nat -> bool, n: nat)
    requires m.mode.InCommand? && m.mode.cmd.main.Configure? && m.call.NotOnCall? && Drainable(m, [EvNoCarrier] + q)
    ensures Drainable(m, q) && Drain(m, [EvNoCarrier] + q, now, callFirst, n) == Drain(m, q, now, callFirst, n + 1)
  {
    DrainOne(m, EvNoCarrier, q, now, callFirst, n);
    assert Dispatch(m, EvNoCarrier, now, callFirst(n)) == NoCarrier(m, callFirst(n)) == Reaction(m, []);
    assert q + [] == q;
  }

  lemma EmptyEndsConfiguring(m: Machine, now: real, callFirst: nat -> bool, n: nat)
    requires m.mode.InCommand? && m.mode.cmd.main.Configure? && Drainable(m, [EvAtEmpty])
    ensures Drain(m, [EvAtEmpty], now, callFirst, n) == SetMain(m, Ready)
  {
    var m1 := SetMain(m, Ready);
    assert [EvAtEmpty] + [] == [EvAtEmpty] && [] + [EvConfigured] == [EvConfigured];
    DrainOne(m, EvAtEmpty, [], now, callFirst, n);
    assert Dispatch(m, EvAtEmpty, now, callFirst(n)) == Reaction(m1, [EvConfigured]);
    ConfiguredIsIgnored(m1, now, callFirst, n + 1);
  }

  lemma ConfiguredIsIgnored(m: Machine, now: real, callFirst: nat -> bool, n: nat)
    requires m.mode.InCommand? && Drainable(m, [EvConfigured])
    ensures Drain(m, [EvConfigured], now, callFirst, n) == m
  {
    assert [EvConfigured] + [] == [EvConfigured];
    DrainOne(m, EvConfigured, [], now, callFirst, n);
    assert Dispatch(m, EvConfigured, now, callFirst(n)) == Reaction(m, []);
    DrainNone(m, now, callFirst, n + 1);
  }

  /** What is left to configure after one command; with the last one the machine is ready. */
  function AfterOk(cfg: DriverConfig, texts: seq<string>): View
    requires texts != []
  {
    if |texts| == 1 then Configuring(cfg, []).(main := Ready) else Configuring(cfg, texts[1..])
  }

  /** OK takes any configuration command off, also one that elsewhere would mean a lost carrier. */
  lemma OkConfigures(m: Machine, cfg: DriverConfig, texts: seq<string>, i: Input)
    requires texts != [] && texts[0] != "+SBDRB" && Answered(m, Configuring(cfg, texts), i, "OK")
    ensures Shows(Apply(m, i), AfterOk(cfg, texts))
  {
    var v := Configuring(cfg, texts);
    AnswerIsAck(m, v, i, "OK");
    AckPops(m, v, "OK");
    var r := CommandAck(m, "OK");
    assert |texts| == 1 ==> texts[1..] == [];
    ConfiguringDrains(r.machine, texts[0], |texts| == 1, i.now, i.callFirst);
  }

  /** What an answer posts while configuring does nothing but end it with the last command. */
  lemma ConfiguringDrains(m: Machine, text: string, last: bool, now: real, callFirst: nat -> bool)
    requires m.mode.InCommand? && m.mode.cmd.main.Configure? && m.call.NotOnCall?
    requires Drainable(m, AckEvents(text, "OK", last))
    ensures Drain(m, AckEvents(text, "OK", last), now, callFirst, 2) == if last then SetMain(m, Ready) else m
  {
    var carrier := if text != "" && (text[0] == 'H' || text[0] == 'D') then [EvNoCarrier] else [];
    var empty := if last then [EvAtEmpty] else [];
    assert AckEvents(text, "OK", last) == carrier + empty;
    if carrier == [] {
      assert carrier + empty == empty;
      EmptyDrains(m, last, now, callFirst, 2);
    } else {
      CarrierIsIgnored(m, empty, now, callFirst, 2);
      EmptyDrains(m, last, now, callFirst, 3);
    }
  }

  lemma EmptyDrains(m: Machine, last: bool, now: real, callFirst: nat -> bool, n: nat)
    requires m.mode.InCommand? && m.mode.cmd.main.Configure? && Drainable(m, if last then [EvAtEmpty] else [])
    ensures Drain(m, if last then [EvAtEmpty] else [], now, callFirst, n) == if last then SetMain(m, Ready) else m
  {
    if last {
      EmptyEndsConfiguring(m, now, callFirst, n);
    } else {
      DrainNone(m, now, callFirst, n);
    }
  }

  lemma OkMovesOn(cfg: DriverConfig, texts: seq<string>)
    requires texts != [] && texts[0] != "+SBDRB"
    ensures Moves(Configuring(cfg, texts), "OK", AfterOk(cfg, texts))
  {
    var v := Configuring(cfg, texts);
    forall m: Machine, i: Input | Answered(m, v, i, "OK") ensures Shows(Apply(m, i), AfterOk(cfg, texts)) {
      OkConfigures(m, cfg, texts, i);
    }
  }

  function Oks(n: nat): seq<string> {
    if n == 0 then [] else ["OK"] + Oks(n - 1)
  }

  lemma OkLeadsOn(cfg: DriverConfig, texts: seq<string>, lines: seq<string>, v: View)
    requires texts != [] && texts[0] != "+SBDRB" && Leads(AfterOk(cfg, texts), lines, v)
    ensures Leads(Configuring(cfg, texts), ["OK"] + lines, v)
  {
    OkMovesOn(cfg, texts);
    LeadsOn(Configuring(cfg, texts), "OK", AfterOk(cfg, texts), lines, v);
  }

  function Configured(cfg: DriverConfig): View {
    Configuring(cfg, []).(main := Ready)
  }

  lemma {:induction false} OksLead(cfg: DriverConfig, texts: seq<string>, lines: seq<string>)
    requires texts != [] && (forall k | 0 <= k < |texts| :: texts[k] != "+SBDRB") && lines == Oks(|texts|)
    ensures Leads(Configuring(cfg, texts), lines, Configured(cfg))
    decreases |texts|
  {
    var rest := Oks(|texts| - 1);
    assert lines == ["OK"] + rest;
    if |texts| == 1 {
      assert rest == [] && AfterOk(cfg, texts) == Configured(cfg);
      LeadsNowhere(Configured(cfg));
    } else {
      assert AfterOk(cfg, texts) == Configuring(cfg, texts[1..]);
      OksLead(cfg, texts[1..], rest);
    }
    OkLeadsOn(cfg, texts, rest, Configured(cfg));
  }

  /** A machine whose configuration commands are all answered with OK ends at rest, ready and off a call. */
  lemma ConfigurationEnds(cfg: DriverConfig, inputs: seq<Input>)
    requires cfg.targetBitRate > 0 && |cfg.config| < AT_CAPACITY && "+SBDRB" !in cfg.config
    requires Dialogue(Initial(cfg), inputs, Oks(|cfg.config| + 1))
    ensures CanRun(Initial(cfg), inputs)
    ensures var m := Run(Initial(cfg), inputs); AtRest(m) && m.mode.cmd.main.Ready? && m.call.NotOnCall?
  {
    var texts := [""] + cfg.config;
    InitialShows(cfg);
    OksLead(cfg, texts, Oks(|texts|));
    assert Engaged(Initial(cfg), Configuring(cfg, texts), inputs, Oks(|texts|));
    assert |Run(Initial(cfg), inputs).mode.cmd.atOut| == |ViewOf(Run(Initial(cfg), inputs)).texts|;
  }
}
