/**
 The state machine as an object whose reactions update its fields, each proved to do what the
 corresponding reaction of the statechart does.
 */
module IridiumFsm {
  import opened Text
  import opened Iridium
  import opened IridiumRun
  import opened IridiumSbd
  import opened IridiumTheorems
  import opened IridiumWire

  class IridiumDriverFsm {
    const cfg: DriverConfig
    var online: bool
    // the Command state
    var main: MainState
    var sbd: SbdState
    var data: string
    var ringAlert: bool
    var atOut: seq<Sentence>
    var rxBuffer: string
    // the call region
    var call: Call
    // buffers shared with the driver
    var serialTx: seq<string>
    var received: seq<string>
    var dataOut: seq<string>
    var nextNumber: nat
    ghost var history: History

    ghost function Now(): Machine
      reads this
    {
      Machine(cfg, if online then Online else InCommand(Command(main, sbd, data, ringAlert, atOut, rxBuffer)),
              call, serialTx, received, dataOut, nextNumber, history)
    }

    constructor (cfg: DriverConfig)
      requires cfg.targetBitRate > 0
      ensures Now() == Initial(cfg) && Invariant(Now(), []) && WireInvariant(Now())
    {
      this.cfg := cfg;
      online, main, sbd, data, ringAlert, atOut, rxBuffer := true, Configure, SbdReady, "", false, [], "";
      call, serialTx, received, dataOut, nextNumber := NotOnCall, [], [], [], 0;
      history := History([], [], [], [], []);
      new;
      Configuring();
      InitialInvariant(cfg);
      InitialWire(cfg);
    }

    // ---- The buffers shared with the driver ----

    /** Puts a line at the back of the serial buffer, whose oldest line is lost when it is full. */
    method Send(t: Traffic)
      requires |serialTx| <= SERIAL_CAPACITY && (t.AtOut? || t.BlockOut? || t.PacketOut? || t.LineOut?)
      modifies this`serialTx, this`history
      ensures Now() == PutBack(old(Now()), t)
    {
      if |serialTx| == SERIAL_CAPACITY {
        serialTx := serialTx[1..];
      }
      serialTx := serialTx + [t.line];
      history := history.(traffic := history.traffic + [t]);
    }

    /** Puts a line at its front, which costs the last line when it is full. */
    method SendFirst(line: string)
      requires |serialTx| <= SERIAL_CAPACITY
      modifies this`serialTx, this`history
      ensures Now() == PutFront(old(Now()), line)
    {
      if |serialTx| == SERIAL_CAPACITY {
        serialTx := serialTx[..|serialTx| - 1];
      }
      serialTx := [line] + serialTx;
      history := history.(traffic := history.traffic + [FrontOut(line)]);
    }

    /** Keeps a packet for the next call, in place of the oldest one when there are too many. */
    method BufferDataOut(packet: string)
      requires Accepts(Now(), BufferData(packet)) && WireInvariant(Now())
      modifies this`dataOut, this`history
      ensures Now() == Apply(old(Now()), BufferData(packet)) && WireInvariant(Now())
    {
      ApplyKeepsWire(Now(), BufferData(packet));
      if |dataOut| == DATA_CAPACITY {
        dataOut := dataOut[1..];
      }
      dataOut := dataOut + [packet];
      history := history.(traffic := history.traffic + [Buffered(packet)]);
    }

    // ---- The AT queue ----

    method PushAtCommand(text: string)
      requires !online && WithinCapacity(Now())
      modifies this`atOut, this`nextNumber
      ensures Now() == PushAt(old(Now()), text)
    {
      if |atOut| == AT_CAPACITY {
        atOut := atOut[1..];
      }
      atOut := atOut + [Sentence(nextNumber, text, 0.0, 0)];
      nextNumber := nextNumber + 1;
    }

    /** Replaces whatever is active on the command side by a new Command state. */
    method NewCommand(state: MainState)
      requires WithinCapacity(Now())
      modifies this
      ensures Now() == EnterCommand(old(Now()), state) && WithinCapacity(Now())
    {
      online, main, sbd, data, ringAlert, atOut, rxBuffer := false, state, SbdReady, "", false, [], "";
    }

    method Configuring()
      requires WithinCapacity(Now())
      modifies this
      ensures Now() == EnterConfigure(old(Now()))
    {
      NewCommand(Configure);
      ghost var m := Now();
      PushAtCommand("");
      assert ([""] + cfg.config)[..1] == [""] && [""][..0] == [];
      assert PushAllAt(m, [""]) == PushAt(PushAllAt(m, []), "") == PushAt(m, "");
      for i := 0 to |cfg.config|
        invariant !online && WithinCapacity(Now())
        invariant Now() == PushAllAt(m, ([""] + cfg.config)[..i + 1])
      {
        PushAtCommand(cfg.config[i]);
        ghost var texts := ([""] + cfg.config)[..i + 2];
        assert texts[..|texts| - 1] == ([""] + cfg.config)[..i + 1] && texts[|texts| - 1] == cfg.config[i];
      }
      assert ([""] + cfg.config)[..|cfg.config| + 1] == [""] + cfg.config;
    }

    // ---- Reactions of Command ----

    /** Adds a line to the buffer, without the newline that the command before may have left over. */
    method Collect(line: string)
      requires line != "" || rxBuffer != ""
      modifies this`rxBuffer
      ensures rxBuffer == Collected(old(rxBuffer), line)
    {
      if rxBuffer == "" && line[0] == '\n' {
        rxBuffer := line[1..];
      } else {
        rxBuffer := rxBuffer + line;
      }
    }

    method HandleSbd(line: string) returns (posted: seq<Event>)
      requires !online && WithinCapacity(Now()) && ReadingSbd(Now().mode.cmd)
      requires line != "" || rxBuffer != ""
      modifies this
      ensures Reaction(Now(), posted) == HandleSbdRx(old(Now()), line)
    {
      posted := [];
      Collect(line);
      if |rxBuffer| < 2 {
        return;
      }
      var size := 256 * Byte(rxBuffer[0]) + Byte(rxBuffer[1]);
      if |rxBuffer| < 2 + size {
        return;
      }
      var message := rxBuffer[2..2 + size];
      received := PushBack(received, message, RECEIVED_CAPACITY);
      history := history.(delivered := history.delivered + [message]);
      atOut := atOut[1..];
      ghost var cmd := Command(main, sbd, data, ringAlert, atOut, rxBuffer);
      assert Now() == old(Now()).(mode := InCommand(cmd), received := received, history := history);
      PushAtCommand("");
      posted := [EvSBDReceiveComplete];
    }

    method ReactRx(line: string) returns (posted: seq<Event>)
      requires !online && WithinCapacity(Now()) && Readable(Now(), EvRxSerial(line, false))
      modifies this
      ensures Reaction(Now(), posted) == CommandRx(old(Now()), line)
    {
      if atOut != [] && atOut[0].text == "+SBDRB" {
        posted := HandleSbd(line);
        return;
      }
      var text := Trim(line);
      if atOut != [] && atOut[0].text != "E" && text == "AT" + atOut[0].text {
        atOut := InsertSecond(atOut, Sentence(nextNumber, "E", 0.0, 0), AT_CAPACITY);
        nextNumber := nextNumber + 1;
        posted := [];
      } else {
        posted := LineEvents(text);
      }
    }

    method ReactTx(now: real) returns (posted: seq<Event>)
      requires !online && WithinCapacity(Now())
      modifies this
      ensures Reaction(Now(), posted) == CommandTx(old(Now()), now)
    {
      posted := [];
      if atOut != [] {
        var s := atOut[0];
        if s.text == "+SBDRB" {
          rxBuffer := "";
        }
        if s.lastSend + Timeout(s.text) < now {
          s := s.(tries := s.tries + 1);
          if s.tries > RETRIES_BEFORE_RESET {
            posted := [EvReset];
          } else {
            Send(AtOut(AtLine(s.text)));
            s := s.(lastSend := now);
            history := history.(writes := history.writes + [AtWrite(s.number, s.text, now)]);
          }
          atOut := [s] + atOut[1..];
        }
      }
    }

    method ReactAck(response: string) returns (posted: seq<Event>)
      requires !online && WithinCapacity(Now())
      modifies this
      ensures Reaction(Now(), posted) == CommandAck(old(Now()), response)
    {
      posted := [];
      if response != "" && response[0] == '0' {
        if atOut != [] && atOut[0].text == "+SBDD2" {
          posted := [EvSBDSendBufferCleared];
        } else if atOut == [] {
          posted := [EvSBDWriteComplete];
          PushAtCommand("AT");
        }
        return;
      }
      if response != "" && '1' <= response[0] <= '3' {
        return;
      }
      if atOut != [] {
        var text := atOut[0].text;
        if text != "" && response == "OK" && (text[0] == 'H' || text[0] == 'D') {
          posted := [EvNoCarrier];
        }
        if response == "READY" {
          posted := posted + [EvSBDWriteReady];
        }
        atOut := atOut[1..];
        if atOut == [] {
          posted := posted + [EvAtEmpty];
        }
      }
    }

    method DialOnce(attempts: nat)
      requires !online && WithinCapacity(Now())
      modifies this
      ensures Now() == DialNow(old(Now()), attempts)
    {
      main := Dial(attempts);
      PushAtCommand("D" + cfg.number);
      history := LogDial(Now(), attempts).history;
    }

    // ---- Reactions of the SBD region ----

    method SetDataAndClear(payload: string, alert: bool)
      requires !online && WithinCapacity(Now())
      modifies this
      ensures Now() == BeginSbd(old(Now()), payload, alert)
    {
      data := Frame(payload);
      ringAlert := alert;
      sbd := SbdClearBuffers;
      rxBuffer := "";
      assert Now() == old(Now()).(mode := InCommand(Command(main, sbd, data, ringAlert, atOut, rxBuffer)));
      PushAtCommand("+SBDD2");
      history := history.(sbd := history.sbd + [Begun(payload)]);
    }

    method Write() returns (posted: seq<Event>)
      requires !online && WithinCapacity(Now())
      modifies this
      ensures Reaction(Now(), posted) == EnterSbdWrite(old(Now()))
    {
      sbd := SbdWrite;
      posted := [];
      if data == "" {
        posted := [EvSBDWriteComplete];
      } else {
        var command := "+SBDWB=" + Decimal(if |data| >= 2 then |data| - 2 else 0);
        PushAtCommand(command);
        history := history.(sbd := history.sbd + [LengthQueued(command)]);
      }
    }

    method ReactSbd(e: Event) returns (posted: seq<Event>)
      requires !online && WithinCapacity(Now()) && IsSbdEvent(e)
      modifies this
      ensures Reaction(Now(), posted) == SbdDispatch(old(Now()), e)
    {
      posted := [];
      if e.EvSBDBeginData? && sbd.SbdReady? {
        SetDataAndClear(e.data, e.ringAlert);
      } else if e.EvSBDSendBufferCleared? && sbd.SbdClearBuffers? {
        posted := Write();
      } else if e.EvSBDWriteReady? && sbd.SbdWrite? {
        Send(BlockOut(data));
        history := history.(sbd := history.sbd + [BlockWritten(data)]);
      } else if e.EvSBDWriteComplete? && sbd.SbdWrite? {
        sbd := SbdTransmit;
        PushAtCommand(if ringAlert then "+SBDIXA" else "+SBDIX");
      } else if e.EvSBDTransmitComplete? && sbd.SbdTransmit? {
        data := "";
        if MessageReceived(e.sbdi) {
          sbd := SbdReceive;
          PushAtCommand("+SBDRB");
        } else {
          sbd := SbdReady;
        }
      } else if e.EvSBDReceiveComplete? && sbd.SbdReceive? {
        sbd := SbdReady;
      }
    }

    // ---- Reactions of the main region and of Online ----

    method ReactMain(e: Event, now: real) returns (posted: seq<Event>)
      requires !online && WithinCapacity(Now()) && Readable(Now(), e)
      modifies this
      ensures Reaction(Now(), posted) == MainDispatch(old(Now()), e, now)
    {
      posted := [];
      if e.EvRxSerial? {
        posted := ReactRx(e.line);
      } else if e.EvTxSerial? {
        posted := ReactTx(now);
      } else if e.EvAck? {
        posted := ReactAck(e.response);
      } else if e.EvOnline? || (e.EvAtEmpty? && (main.Configure? || main.HangingUp? || main.PostDisconnected?)) {
        if main.Configure? {
          posted := [EvConfigured];
        }
        if e.EvOnline? {
          online := true;
        } else {
          main := Ready;
        }
      } else if e.EvRing? && main.Ready? {
        main := Answer;
        PushAtCommand("A");
      } else if e.EvDial? && main.Ready? && call.NotOnCall? {
        DialOnce(1);
      }
    }

    method ReactOnline(e: Event) returns (posted: seq<Event>)
      requires online && WithinCapacity(Now())
      modifies this
      ensures Reaction(Now(), posted) == OnlineDispatch(old(Now()), e)
    {
      posted := [];
      if e.EvRxSerial? {
        posted := [EvRxOnCallSerial(e.line, e.decodes)];
      } else if e.EvTxSerial? {
        posted := [EvTxOnCallSerial];
      } else if e.EvHangup? {
        if call.OnCall? {
          call := call.(hangupRequested := true);
        }
        NewCommand(HangingUp);
        ghost var m := Now();
        PushAtCommand("+++");
        PushAtCommand("H");
        assert ["+++", "H"][..1] == ["+++"] && ["+++"][..0] == [];
        assert PushAllAt(m, ["+++"]) == PushAt(PushAllAt(m, []), "+++") == PushAt(m, "+++");
      } else if e.EvDisconnect? {
        NewCommand(PostDisconnected);
        PushAtCommand("+CEER");
      }
    }

    // ---- Reactions of the call region ----

    method ReactNoCarrier(callFirst: bool) returns (posted: seq<Event>)
      requires WithinCapacity(Now())
      modifies this
      ensures Reaction(Now(), posted) == NoCarrier(old(Now()), callFirst)
    {
      posted := [];
      var awaiting := !online && (main.Dial? || main.Answer?);
      if call.OnCall? && (callFirst || !awaiting) {
        call := NotOnCall;
        posted := [EvDisconnect];
      } else if awaiting {
        if main.Dial? && main.attempts < cfg.dialAttempts {
          DialOnce(main.attempts + 1);
        } else {
          main := Ready;
        }
      }
    }

    method ReactOnCallRx(line: string, decodes: bool, now: real) returns (posted: seq<Event>)
      requires call.OnCall? && WithinCapacity(Now())
      modifies this
      ensures Reaction(Now(), posted) == OnCallRx(old(Now()), line, decodes, now)
    {
      posted := [];
      if Contains(line, "NO CARRIER") {
        posted := [EvNoCarrier];
      } else if Trim(line) == "goby" {
      } else if Trim(line) == "bye" {
        call := call.(byeReceived := true);
      } else if decodes {
        received := PushBack(received, line, RECEIVED_CAPACITY);
        history := history.(delivered := history.delivered + [line]);
        call := call.(lastRx := now);
      }
    }

    method ReactOnCallTx(now: real)
      requires call.OnCall? && WithinCapacity(Now()) && cfg.targetBitRate > 0
      modifies this
      ensures Now() == OnCallTx(old(Now()), now)
    {
      var sendWait := call.lastBytes as real / ByteRate(cfg);
      if dataOut != [] && now > call.lastTx + sendWait {
        var packet := dataOut[0];
        Send(PacketOut(packet));
        dataOut := dataOut[1..];
        call := call.(lastBytes := |packet|, totalBytes := call.totalBytes + |packet|);
        call := call.(lastTx := now);
      }
    }

    method ReactCall(e: Event, now: real, callFirst: bool) returns (posted: seq<Event>)
      requires CanDispatch(Now(), e) && IsCallEvent(e)
      modifies this
      ensures Reaction(Now(), posted) == CallDispatch(old(Now()), e, now, callFirst)
    {
      posted := [];
      if e.EvReset? {
        if call.OnCall? {
          posted := [EvDisconnect];
        }
        if !online && main.Configure? {
          posted := posted + [EvConfigured];
        }
        call := NotOnCall;
        Configuring();
      } else if e.EvNoCarrier? {
        posted := ReactNoCarrier(callFirst);
      } else if e.EvConnect? {
        if call.NotOnCall? {
          call := OnCall(now, now, 0.0, 0, 0, false, false, false);
          SendFirst("goby\r");
          posted := [EvOnline];
        }
      } else if call.OnCall? {
        if e.EvRxOnCallSerial? {
          posted := ReactOnCallRx(e.line, e.decodes, now);
        } else if e.EvTxOnCallSerial? {
          ReactOnCallTx(now);
        } else {
          SendFirst("bye\r");
          call := call.(byeSent := true);
        }
      }
    }

    // ---- Processing events ----

    method React(e: Event, now: real, callFirst: bool) returns (posted: seq<Event>)
      requires CanDispatch(Now(), e)
      modifies this
      ensures Reaction(Now(), posted) == Dispatch(old(Now()), e, now, callFirst)
    {
      if IsCallEvent(e) {
        posted := ReactCall(e, now, callFirst);
      } else if online {
        posted := ReactOnline(e);
      } else if IsSbdEvent(e) {
        posted := ReactSbd(e);
      } else {
        posted := ReactMain(e, now);
      }
    }

    /** One event and everything it causes. The loop ends because reactions post only lighter events. */
    method ProcessEvent(e: Event, now: real, callFirst: nat -> bool)
      requires Accepts(Now(), Process(e, now, callFirst)) && Invariant(Now(), []) && WireInvariant(Now())
      modifies this
      ensures Now() == Apply(old(Now()), Process(e, now, callFirst)) && Invariant(Now(), []) && WireInvariant(Now())
    {
      ApplyKeepsInvariant(Now(), Process(e, now, callFirst));
      ApplyKeepsWire(Now(), Process(e, now, callFirst));
      ReactToAll(e, now, callFirst);
    }

    method ReactToAll(e: Event, now: real, callFirst: nat -> bool)
      requires Drainable(Now(), [e])
      modifies this
      ensures Now() == Drain(old(Now()), [e], now, callFirst, 0)
    {
      var queue, n := [e], 0;
      while queue != []
        invariant Drainable(Now(), queue)
        invariant Drain(Now(), queue, now, callFirst, n) == Drain(old(Now()), [e], now, callFirst, 0)
        decreases TotalWeight(queue)
      {
        var next, rest := queue[0], queue[1..];
        assert queue == [next] + rest;
        DrainOne(Now(), next, rest, now, callFirst, n);
        PostedIsLighter(Now(), next, now, callFirst(n));
        var posted := React(next, now, callFirst(n));
        TotalWeightConcat(rest, posted);
        queue, n := rest + posted, n + 1;
      }
    }
  }
}
