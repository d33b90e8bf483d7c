/**
 The Iridium modem driver's statechart. A machine is its active states with their data, the
 buffers shared with the driver, and a history of what it did. One event is dispatched at a time;
 what its reaction posts is queued behind the events already waiting.
 */
module Iridium {
  import opened Text

  const AT_CAPACITY := 100
  const SERIAL_CAPACITY := 10
  const RECEIVED_CAPACITY := 10
  const DATA_CAPACITY := 5
  const RETRIES_BEFORE_RESET := 3

  datatype DriverConfig = DriverConfig(config: seq<string>, number: string, dialAttempts: int, targetBitRate: int)

  datatype Event =
    | EvRxSerial(line: string, decodes: bool) // decodes: the line is a well-formed call packet
    | EvTxSerial
    | EvRxOnCallSerial(line: string, decodes: bool)
    | EvTxOnCallSerial
    | EvAck(response: string)
    | EvAtEmpty
    | EvReset
    | EvDial
    | EvRing
    | EvOnline
    | EvHangup
    | EvConnect
    | EvNoCarrier
    | EvDisconnect
    | EvSendBye
    | EvConfigured
    | EvSBDBeginData(data: string, ringAlert: bool)
    | EvSBDSendBufferCleared
    | EvSBDWriteReady
    | EvSBDWriteComplete
    | EvSBDTransmitComplete(sbdi: string)
    | EvSBDReceiveComplete

  /** An AT command waiting for its answer. The number tells sentences apart; the driver has none. */
  datatype Sentence = Sentence(number: nat, text: string, lastSend: real, tries: nat)

  datatype MainState = Configure | Ready | HangingUp | PostDisconnected | Dial(attempts: nat) | Answer
  datatype SbdState = SbdReady | SbdClearBuffers | SbdWrite | SbdTransmit | SbdReceive

  datatype Command = Command(main: MainState, sbd: SbdState, data: string, ringAlert: bool,
                             atOut: seq<Sentence>, rxBuffer: string)

  datatype Mode = InCommand(cmd: Command) | Online

  /** hangupRequested records whether a hang-up was asked for during this call. */
  datatype Call =
    | NotOnCall
    | OnCall(start: real, lastTx: real, lastRx: real, lastBytes: nat, totalBytes: nat,
             byeReceived: bool, byeSent: bool, hangupRequested: bool)

  datatype AtWrite = AtWrite(number: nat, text: string, time: real)
  datatype SbdAction = Begun(payload: string) | LengthQueued(command: string) | BlockWritten(block: string)

  /** What happens to the serial buffer and to the buffer of call packets, in order. */
  datatype Traffic =
    | AtOut(line: string)      // put at the back of the serial buffer: an AT command,
    | BlockOut(line: string)   // a block of short-burst data,
    | PacketOut(line: string)  // a call packet,
    | LineOut(line: string)    // or a line of the driver
    | FrontOut(line: string)   // put at its front
    | TakenOut                 // taken off its front
    | Buffered(packet: string) // a packet to be sent on a call

  /**
   What the machine has done so far: the AT sentences it wrote, its SBD session steps, the
   messages it delivered, for every visit to Dial how many dial commands it queued, and the
   traffic of its output buffers.
   */
  datatype History = History(writes: seq<AtWrite>, sbd: seq<SbdAction>, delivered: seq<string>, dials: seq<nat>,
                             traffic: seq<Traffic>)

  datatype Machine = Machine(cfg: DriverConfig, mode: Mode, call: Call, serialTx: seq<string>,
                             received: seq<string>, dataOut: seq<string>, nextNumber: nat, history: History)

  /** What a reaction does to the machine, and the events it posts. */
  datatype Reaction = Reaction(machine: Machine, posted: seq<Event>)

  // ---- Circular buffers: when full, the element at the other end is lost ----

  function PushBack<T>(s: seq<T>, x: T, capacity: nat): seq<T>
    requires |s| <= capacity && capacity > 0
  {
    if |s| == capacity then s[1..] + [x] else s + [x]
  }

  function PushFront<T>(s: seq<T>, x: T, capacity: nat): seq<T>
    requires |s| <= capacity && capacity > 0
  {
    if |s| == capacity then [x] + s[..capacity - 1] else [x] + s
  }

  /** Insertion just behind the front; in a full buffer the front is lost. */
  function InsertSecond<T>(s: seq<T>, x: T, capacity: nat): seq<T>
    requires 0 < |s| <= capacity
  {
    if |s| == capacity then [x] + s[1..] else [s[0], x] + s[1..]
  }

  predicate WithinCapacity(m: Machine) {
    && |m.serialTx| <= SERIAL_CAPACITY
    && |m.received| <= RECEIVED_CAPACITY
    && |m.dataOut| <= DATA_CAPACITY
    && (m.mode.InCommand? ==> |m.mode.cmd.atOut| <= AT_CAPACITY)
  }

  /** Every reaction respects the buffers and the configuration, and posts only internal events. */
  predicate Sound(m: Machine, r: Reaction) {
    WithinCapacity(r.machine) && r.machine.cfg == m.cfg && forall x | x in r.posted :: !IsSerial(x)
  }

  /** The events that only the driver itself sends. */
  predicate IsSerial(e: Event) {
    e.EvRxSerial? || e.EvTxSerial?
  }

  /** Only the queue, the receive buffer, the serial buffers and the logs of writes differ. */
  predicate SameStates(m: Machine, m': Machine) {
    && m.mode.InCommand? && m'.mode.InCommand?
    && m'.mode.cmd == m.mode.cmd.(atOut := m'.mode.cmd.atOut, rxBuffer := m'.mode.cmd.rxBuffer)
    && m'.call == m.call
    && m'.history.sbd == m.history.sbd && m'.history.dials == m.history.dials
  }

  // ---- Checksum and framing of SBD payloads ----

  function Byte(c: char): nat {
    c as int % 256
  }

  function ByteSum(data: string): nat {
    if data == "" then 0 else ByteSum(data[..|data| - 1]) + Byte(data[|data| - 1])
  }

  /** The payload with its two checksum bytes; a mailbox check has no payload and no checksum. */
  function Framed(payload: string): string {
    if payload == "" then ""
    else
      var csum := ByteSum(payload);
      payload + [(csum / 256 % 256) as char, (csum % 256) as char]
  }

  // ---- The AT command queue ----

  function PushAt(m: Machine, text: string): (m': Machine)
    requires m.mode.InCommand? && WithinCapacity(m)
    ensures m'.mode.InCommand? && WithinCapacity(m')
    ensures m' == m.(mode := m'.mode, nextNumber := m'.nextNumber)
    ensures m'.mode.cmd == m.mode.cmd.(atOut := m'.mode.cmd.atOut)
  {
    var cmd := m.mode.cmd;
    var sentence := Sentence(m.nextNumber, text, 0.0, 0);
    m.(mode := InCommand(cmd.(atOut := PushBack(cmd.atOut, sentence, AT_CAPACITY))), nextNumber := m.nextNumber + 1)
  }

  function PushAllAt(m: Machine, texts: seq<string>): (m': Machine)
    requires m.mode.InCommand? && WithinCapacity(m)
    ensures m'.mode.InCommand? && WithinCapacity(m')
    ensures m' == m.(mode := m'.mode, nextNumber := m'.nextNumber)
    ensures m'.mode.cmd == m.mode.cmd.(atOut := m'.mode.cmd.atOut)
  {
    if texts == [] then m else PushAt(PushAllAt(m, texts[..|texts| - 1]), texts[|texts| - 1])
  }

  function Timeout(text: string): real {
    if "+SBDI" <= text then 60.0
    else if text == "+++" then 6.0
    else if text == "" then 2.0
    else if text[0] == 'D' then 60.0
    else if text[0] == 'A' then 30.0
    else if text[0] == 'H' then 10.0
    else 2.0
  }

  function AtLine(text: string): string {
    if text == "+++" then text else "AT" + text + "\r"
  }

  // ---- Entering states ----

  /** A new Command state: empty queue, SBD at rest. */
  function EnterCommand(m: Machine, main: MainState): Machine {
    m.(mode := InCommand(Command(main, SbdReady, "", false, [], "")))
  }

  function EnterConfigure(m: Machine): (m': Machine)
    requires WithinCapacity(m)
    ensures WithinCapacity(m') && m'.cfg == m.cfg
  {
    PushAllAt(EnterCommand(m, Configure), [""] + m.cfg.config)
  }

  function SetMain(m: Machine, main: MainState): Machine
    requires m.mode.InCommand?
  {
    m.(mode := InCommand(m.mode.cmd.(main := main)))
  }

  function SetSbd(m: Machine, sbd: SbdState): Machine
    requires m.mode.InCommand?
  {
    m.(mode := InCommand(m.mode.cmd.(sbd := sbd)))
  }

  function LogSbd(m: Machine, action: SbdAction): Machine {
    m.(history := m.history.(sbd := m.history.sbd + [action]))
  }

  function LogTraffic(m: Machine, t: Traffic): Machine {
    m.(history := m.history.(traffic := m.history.traffic + [t]))
  }

  /** Puts a line at the back of the serial buffer. */
  function PutBack(m: Machine, t: Traffic): Machine
    requires |m.serialTx| <= SERIAL_CAPACITY && (t.AtOut? || t.BlockOut? || t.PacketOut? || t.LineOut?)
  {
    LogTraffic(m.(serialTx := PushBack(m.serialTx, t.line, SERIAL_CAPACITY)), t)
  }

  /** Puts a line at the front of the serial buffer. */
  function PutFront(m: Machine, line: string): Machine
    requires |m.serialTx| <= SERIAL_CAPACITY
  {
    LogTraffic(m.(serialTx := PushFront(m.serialTx, line, SERIAL_CAPACITY)), FrontOut(line))
  }

  function LogDial(m: Machine, attempts: nat): Machine {
    var d := m.history.dials;
    m.(history := m.history.(dials := if attempts == 1 || d == [] then d + [attempts] else d[..|d| - 1] + [attempts]))
  }

  /** Queues a dial command as the given attempt of this visit to Dial. */
  function DialNow(m: Machine, attempts: nat): (m': Machine)
    requires m.mode.InCommand? && WithinCapacity(m)
    ensures WithinCapacity(m') && m'.cfg == m.cfg
  {
    LogDial(PushAt(SetMain(m, Dial(attempts)), "D" + m.cfg.number), attempts)
  }

  // ---- Reactions of the Command state ----

  /** The events that a line from the modem stands for. */
  function LineEvents(line: string): seq<Event> {
    if line == "OK" then [EvAck(line)]
    else if line == "RING" then [EvRing]
    else if line == "NO CARRIER" then [EvAck(line), EvNoCarrier]
    else if "CONNECT" <= line then [EvAck(line), EvConnect]
    else if line == "NO DIALTONE" || line == "BUSY" then [EvAck(line), EvNoCarrier]
    else if line == "ERROR" then [EvReset]
    else if line == "0" || line == "1" || line == "2" || line == "3" then [EvAck(line)]
    else if line == "READY" then [EvAck(line)]
    else if "+SBDI" <= line then [EvSBDTransmitComplete(line)]
    else if line == "SBDRING" then [EvSBDBeginData("", true)]
    else []
  }

  /** A line may be handed to an SBD read that has nothing buffered only if it is not empty. */
  predicate Readable(m: Machine, e: Event) {
    e.EvRxSerial? && m.mode.InCommand? && ReadingSbd(m.mode.cmd) ==> e.line != "" || m.mode.cmd.rxBuffer != ""
  }

  predicate ReadingSbd(cmd: Command) {
    cmd.atOut != [] && cmd.atOut[0].text == "+SBDRB"
  }

  function CommandRx(m: Machine, line: string): (r: Reaction)
    requires m.mode.InCommand? && WithinCapacity(m) && Readable(m, EvRxSerial(line, false))
    ensures Sound(m, r) && SameStates(m, r.machine)
  {
    var cmd := m.mode.cmd;
    if ReadingSbd(cmd) then
      HandleSbdRx(m, line)
    else
      var text := Trim(line);
      if cmd.atOut != [] && cmd.atOut[0].text != "E" && text == "AT" + cmd.atOut[0].text then
        var echoOff := Sentence(m.nextNumber, "E", 0.0, 0);
        Reaction(m.(mode := InCommand(cmd.(atOut := InsertSecond(cmd.atOut, echoOff, AT_CAPACITY))),
                    nextNumber := m.nextNumber + 1), [])
      else
        Reaction(m, LineEvents(text))
  }

  /** The bytes collected for the message being read, once this line is added. */
  function Collected(buffer: string, line: string): string
    requires line != "" || buffer != ""
  {
    if buffer == "" && line[0] == '\n' then line[1..] else buffer + line
  }

  /** A collected message is complete when its two length bytes and that many more are there. */
  predicate Complete(buffer: string) {
    |buffer| >= 2 && |buffer| >= 2 + 256 * Byte(buffer[0]) + Byte(buffer[1])
  }

  function HandleSbdRx(m: Machine, line: string): (r: Reaction)
    requires m.mode.InCommand? && WithinCapacity(m) && ReadingSbd(m.mode.cmd)
    requires line != "" || m.mode.cmd.rxBuffer != ""
    ensures Sound(m, r) && SameStates(m, r.machine)
  {
    var b := Collected(m.mode.cmd.rxBuffer, line);
    if !Complete(b) then
      Reaction(m.(mode := InCommand(m.mode.cmd.(rxBuffer := b))), [])
    else
      var data := b[2..2 + 256 * Byte(b[0]) + Byte(b[1])];
      var popped := m.(mode := InCommand(m.mode.cmd.(rxBuffer := b, atOut := m.mode.cmd.atOut[1..])),
                       received := PushBack(m.received, data, RECEIVED_CAPACITY),
                       history := m.history.(delivered := m.history.delivered + [data]));
      Reaction(PushAt(popped, ""), [EvSBDReceiveComplete])
  }

  function CommandTx(m: Machine, now: real): (r: Reaction)
    requires m.mode.InCommand? && WithinCapacity(m)
    ensures Sound(m, r) && SameStates(m, r.machine)
  {
    var cmd := m.mode.cmd;
    if cmd.atOut == [] then
      Reaction(m, [])
    else
      var s := cmd.atOut[0];
      var cleared := if s.text == "+SBDRB" then cmd.(rxBuffer := "") else cmd;
      if s.lastSend + Timeout(s.text) < now then
        if s.tries + 1 > RETRIES_BEFORE_RESET then
          Reaction(m.(mode := InCommand(cleared.(atOut := [s.(tries := s.tries + 1)] + cmd.atOut[1..]))), [EvReset])
        else
          var sent := s.(tries := s.tries + 1, lastSend := now);
          var logged := m.history.(writes := m.history.writes + [AtWrite(s.number, s.text, now)]);
          var written := m.(mode := InCommand(cleared.(atOut := [sent] + cmd.atOut[1..])), history := logged);
          Reaction(PutBack(written, AtOut(AtLine(s.text))), [])
      else
        Reaction(m.(mode := InCommand(cleared)), [])
  }

  /** The events posted when an answer takes the front sentence off the queue. */
  function AckEvents(text: string, response: string, last: bool): (events: seq<Event>)
    ensures |events| <= 2
    ensures forall e | e in events ::
      (e == EvNoCarrier && response == "OK") || (e == EvSBDWriteReady && response == "READY") || e == EvAtEmpty
  {
    var answered :=
      if response == "OK" && text != "" && (text[0] == 'H' || text[0] == 'D') then [EvNoCarrier]
      else if response == "READY" then [EvSBDWriteReady]
      else [];
    if last then answered + [EvAtEmpty] else answered
  }

  function CommandAck(m: Machine, response: string): (r: Reaction)
    requires m.mode.InCommand? && WithinCapacity(m)
    ensures Sound(m, r) && SameStates(m, r.machine)
  {
    var cmd := m.mode.cmd;
    if response != "" && response[0] == '0' then
      if cmd.atOut != [] && cmd.atOut[0].text == "+SBDD2" then Reaction(m, [EvSBDSendBufferCleared])
      else if cmd.atOut == [] then Reaction(PushAt(m, "AT"), [EvSBDWriteComplete])
      else Reaction(m, [])
    else if response != "" && '1' <= response[0] <= '3' then
      Reaction(m, [])
    else if cmd.atOut == [] then
      Reaction(m, [])
    else
      var rest := cmd.atOut[1..];
      Reaction(m.(mode := InCommand(cmd.(atOut := rest))), AckEvents(cmd.atOut[0].text, response, rest == []))
  }

  // ---- Reactions of the SBD region ----

  function BeginSbd(m: Machine, data: string, ringAlert: bool): (m': Machine)
    requires m.mode.InCommand? && WithinCapacity(m)
    ensures WithinCapacity(m') && m'.cfg == m.cfg
  {
    var cmd := m.mode.cmd.(sbd := SbdClearBuffers, data := Framed(data), ringAlert := ringAlert, rxBuffer := "");
    LogSbd(PushAt(m.(mode := InCommand(cmd)), "+SBDD2"), Begun(data))
  }

  function EnterSbdWrite(m: Machine): (r: Reaction)
    requires m.mode.InCommand? && WithinCapacity(m)
    ensures Sound(m, r)
  {
    var data := m.mode.cmd.data;
    if data == "" then
      Reaction(SetSbd(m, SbdWrite), [EvSBDWriteComplete])
    else
      var command := "+SBDWB=" + Decimal(if |data| >= 2 then |data| - 2 else 0);
      Reaction(LogSbd(PushAt(SetSbd(m, SbdWrite), command), LengthQueued(command)), [])
  }

  function WriteSbdBlock(m: Machine): (m': Machine)
    requires m.mode.InCommand? && WithinCapacity(m)
    ensures WithinCapacity(m') && m'.cfg == m.cfg
  {
    LogSbd(PutBack(m, BlockOut(m.mode.cmd.data)), BlockWritten(m.mode.cmd.data))
  }

  function EnterSbdTransmit(m: Machine): (m': Machine)
    requires m.mode.InCommand? && WithinCapacity(m)
    ensures WithinCapacity(m') && m'.cfg == m.cfg
  {
    PushAt(SetSbd(m, SbdTransmit), if m.mode.cmd.ringAlert then "+SBDIXA" else "+SBDIX")
  }

  /** The answer to a transmission reports success and a message waiting for us. */
  predicate MessageReceived(sbdi: string) {
    var fields := Split(sbdi, {':', ','});
    |fields| == 7 && AsInt(Trim(fields[1])) <= 4 && AsInt(Trim(fields[3])) == 1
  }

  function LeaveSbdTransmit(m: Machine, sbdi: string): (m': Machine)
    requires m.mode.InCommand? && WithinCapacity(m)
    ensures WithinCapacity(m') && m'.cfg == m.cfg
  {
    var cleared := m.(mode := InCommand(m.mode.cmd.(data := "")));
    if MessageReceived(sbdi) then PushAt(SetSbd(cleared, SbdReceive), "+SBDRB") else SetSbd(cleared, SbdReady)
  }

  // ---- Reactions of the call region ----

  function StartCall(m: Machine, now: real): (r: Reaction)
    requires WithinCapacity(m)
    ensures Sound(m, r)
  {
    Reaction(PutFront(m.(call := OnCall(now, now, 0.0, 0, 0, false, false, false)), "goby\r"), [EvOnline])
  }

  function OnCallRx(m: Machine, line: string, decodes: bool, now: real): (r: Reaction)
    requires m.call.OnCall? && WithinCapacity(m)
    ensures Sound(m, r)
  {
    if Contains(line, "NO CARRIER") then Reaction(m, [EvNoCarrier])
    else if Trim(line) == "goby" then Reaction(m, [])
    else if Trim(line) == "bye" then Reaction(m.(call := m.call.(byeReceived := true)), [])
    else if decodes then
      Reaction(m.(call := m.call.(lastRx := now),
                  received := PushBack(m.received, line, RECEIVED_CAPACITY),
                  history := m.history.(delivered := m.history.delivered + [line])), [])
    else Reaction(m, [])
  }

  function ByteRate(cfg: DriverConfig): real {
    cfg.targetBitRate as real / 8.0
  }

  function OnCallTx(m: Machine, now: real): (m': Machine)
    requires m.call.OnCall? && WithinCapacity(m) && m.cfg.targetBitRate > 0
    ensures WithinCapacity(m') && m'.cfg == m.cfg
  {
    if m.dataOut != [] && now > m.call.lastTx + m.call.lastBytes as real / ByteRate(m.cfg) then
      var packet := m.dataOut[0];
      var call := m.call.(lastBytes := |packet|, totalBytes := m.call.totalBytes + |packet|, lastTx := now);
      PutBack(m.(dataOut := m.dataOut[1..], call := call), PacketOut(packet))
    else m
  }

  function SendBye(m: Machine): (m': Machine)
    requires m.call.OnCall? && WithinCapacity(m)
    ensures WithinCapacity(m') && m'.cfg == m.cfg
  {
    PutFront(m.(call := m.call.(byeSent := true)), "bye\r")
  }

  // ---- Dispatch ----

  /** Leaving Configure posts an event that no state reacts to. */
  function LeavingConfigure(m: Machine): seq<Event> {
    if m.mode.InCommand? && m.mode.cmd.main == Configure then [EvConfigured] else []
  }

  /** Leaving a call tells the command side. */
  function LeavingCall(m: Machine): seq<Event> {
    if m.call.OnCall? then [EvDisconnect] else []
  }

  predicate CommandAwaitsCarrier(m: Machine) {
    m.mode.InCommand? && (m.mode.cmd.main.Dial? || m.mode.cmd.main.Answer?)
  }

  /**
   The orthogonal regions are asked in an arbitrary order and the first one that reacts consumes
   the event. A lost carrier is the only event that two regions may want; callFirst says whether
   the call region is asked first.
   */
  function NoCarrier(m: Machine, callFirst: bool): (r: Reaction)
    requires WithinCapacity(m)
    ensures Sound(m, r)
  {
    if m.call.OnCall? && (callFirst || !CommandAwaitsCarrier(m)) then
      Reaction(m.(call := NotOnCall), LeavingCall(m))
    else if !CommandAwaitsCarrier(m) then
      Reaction(m, [])
    else if m.mode.cmd.main.Dial? && m.mode.cmd.main.attempts < m.cfg.dialAttempts then
      Reaction(DialNow(m, m.mode.cmd.main.attempts + 1), [])
    else
      Reaction(SetMain(m, Ready), [])
  }

  /** The events the SBD region reacts to. */
  predicate IsSbdEvent(e: Event) {
    e.EvSBDBeginData? || e.EvSBDSendBufferCleared? || e.EvSBDWriteReady? || e.EvSBDWriteComplete?
    || e.EvSBDTransmitComplete? || e.EvSBDReceiveComplete?
  }

  function SbdDispatch(m: Machine, e: Event): (r: Reaction)
    requires m.mode.InCommand? && WithinCapacity(m) && IsSbdEvent(e)
    ensures Sound(m, r)
  {
    var sbd := m.mode.cmd.sbd;
    match e
    case EvSBDBeginData(data, ringAlert) => Reaction(if sbd.SbdReady? then BeginSbd(m, data, ringAlert) else m, [])
    case EvSBDSendBufferCleared => if sbd.SbdClearBuffers? then EnterSbdWrite(m) else Reaction(m, [])
    case EvSBDWriteReady => Reaction(if sbd.SbdWrite? then WriteSbdBlock(m) else m, [])
    case EvSBDWriteComplete => Reaction(if sbd.SbdWrite? then EnterSbdTransmit(m) else m, [])
    case EvSBDTransmitComplete(sbdi) => Reaction(if sbd.SbdTransmit? then LeaveSbdTransmit(m, sbdi) else m, [])
    case EvSBDReceiveComplete => Reaction(if sbd.SbdReceive? then SetSbd(m, SbdReady) else m, [])
  }

  function MainDispatch(m: Machine, e: Event, now: real): (r: Reaction)
    requires m.mode.InCommand? && WithinCapacity(m) && Readable(m, e)
    ensures Sound(m, r)
  {
    var main := m.mode.cmd.main;
    match e
    case EvRxSerial(line, _) => CommandRx(m, line)
    case EvTxSerial => CommandTx(m, now)
    case EvAck(response) => CommandAck(m, response)
    case EvOnline => Reaction(m.(mode := Online), LeavingConfigure(m))
    case EvAtEmpty =>
      if main.Configure? || main.HangingUp? || main.PostDisconnected?
      then Reaction(SetMain(m, Ready), LeavingConfigure(m)) else Reaction(m, [])
    case EvRing => Reaction(if main.Ready? then PushAt(SetMain(m, Answer), "A") else m, [])
    case EvDial => Reaction(if main.Ready? && m.call.NotOnCall? then DialNow(m, 1) else m, [])
    case _ => Reaction(m, [])
  }

  function CommandDispatch(m: Machine, e: Event, now: real): (r: Reaction)
    requires m.mode.InCommand? && WithinCapacity(m) && Readable(m, e)
    ensures Sound(m, r)
  {
    if IsSbdEvent(e) then SbdDispatch(m, e) else MainDispatch(m, e, now)
  }

  function RequestHangup(m: Machine): Machine {
    if m.call.OnCall? then m.(call := m.call.(hangupRequested := true)) else m
  }

  function OnlineDispatch(m: Machine, e: Event): (r: Reaction)
    requires m.mode.Online? && WithinCapacity(m)
    ensures Sound(m, r)
  {
    match e
    case EvRxSerial(line, decodes) => Reaction(m, [EvRxOnCallSerial(line, decodes)])
    case EvTxSerial => Reaction(m, [EvTxOnCallSerial])
    case EvHangup => Reaction(PushAllAt(EnterCommand(RequestHangup(m), HangingUp), ["+++", "H"]), [])
    case EvDisconnect => Reaction(PushAt(EnterCommand(m, PostDisconnected), "+CEER"), [])
    case _ => Reaction(m, [])
  }

  predicate CanDispatch(m: Machine, e: Event) {
    WithinCapacity(m) && m.cfg.targetBitRate > 0 && Readable(m, e)
  }

  /** Events that only the call region or the machine as a whole reacts to, or that both regions may want. */
  predicate IsCallEvent(e: Event) {
    e.EvReset? || e.EvNoCarrier? || e.EvConnect? || e.EvRxOnCallSerial? || e.EvTxOnCallSerial? || e.EvSendBye?
  }

  function CallDispatch(m: Machine, e: Event, now: real, callFirst: bool): (r: Reaction)
    requires CanDispatch(m, e) && IsCallEvent(e)
    ensures Sound(m, r)
  {
    match e
    case EvReset => Reaction(EnterConfigure(m.(call := NotOnCall)), LeavingCall(m) + LeavingConfigure(m))
    case EvNoCarrier => NoCarrier(m, callFirst)
    case EvConnect => if m.call.NotOnCall? then StartCall(m, now) else Reaction(m, [])
    case EvRxOnCallSerial(line, decodes) => if m.call.OnCall? then OnCallRx(m, line, decodes, now) else Reaction(m, [])
    case EvTxOnCallSerial => Reaction(if m.call.OnCall? then OnCallTx(m, now) else m, [])
    case EvSendBye => Reaction(if m.call.OnCall? then SendBye(m) else m, [])
  }

  /** One event, offered to the active states. */
  function Dispatch(m: Machine, e: Event, now: real, callFirst: bool): (r: Reaction)
    requires CanDispatch(m, e)
    ensures Sound(m, r)
  {
    if IsCallEvent(e) then CallDispatch(m, e, now, callFirst)
    else if m.mode.InCommand? then CommandDispatch(m, e, now)
    else OnlineDispatch(m, e)
  }

  /** The machine as initiated: configuring, not on a call. */
  function Initial(cfg: DriverConfig): Machine {
    EnterConfigure(Machine(cfg, Online, NotOnCall, [], [], [], 0, History([], [], [], [], [])))
  }
}
