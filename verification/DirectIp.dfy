/** DirectIP messages of the Iridium short-burst-data service: the reader and the writer. */
module DirectIp {
  import opened Arithmetic
  import opened Basics

  const PRE_HEADER_SIZE := 3
  const IEI_SIZE := 3

  // ---- Numbers, high byte first ----

  function Big(bytes: seq<byte>): nat {
    if bytes == [] then 0 else Pair(Big(bytes[..|bytes| - 1]), bytes[|bytes| - 1])
  }

  lemma BigOfOneMore(data: seq<byte>, start: nat, n: nat)
    requires start + n < |data|
    ensures Big(data[start..start + n + 1]) == Pair(Big(data[start..start + n]), data[start + n])
  {
    assert data[start..start + n + 1][..n] == data[start..start + n];
  }

  function Uint16Bytes(n: nat): seq<byte> {
    [n / 256 % 256, n % 256]
  }

  function Uint32Bytes(n: nat): seq<byte> {
    [n / 0x100_0000 % 256, n / 0x1_0000 % 256, n / 256 % 256, n % 256]
  }

  /** A signed byte widened to an unsigned 32-bit number. */
  function SignExtended8(b: byte): nat {
    if b < 128 then b else UINT32 - 256 + b
  }

  /** A two-byte two's complement number. */
  function Signed16(n: nat): int
    requires n < 65536
  {
    if n < 32768 then n else n - 65536
  }

  // ---- What the reader keeps ----

  datatype MoHeader = MoHeader(length: nat, cdrReference: nat, imei: seq<byte>, sessionStatus: nat,
                               momsn: nat, mtmsn: nat, timeOfSession: nat)
  datatype Confirmation = Confirmation(length: nat, clientId: nat, imei: seq<byte>, autoRefId: nat, status: int)

  function HeaderOf(length: nat, c: seq<byte>): MoHeader
    requires |c| == 28
  {
    MoHeader(length, Big(c[..4]), c[4..19], SignExtended8(c[19]), Big(c[20..22]), Big(c[22..24]), Big(c[24..28]))
  }

  function ConfirmationOf(length: nat, c: seq<byte>): Confirmation
    requires |c| == 25
  {
    BigOfTwo(c[23..25]);
    Confirmation(length, Big(c[..4]), c[4..19], Big(c[19..23]), Signed16(Big(c[23..25])))
  }

  lemma BigOfTwo(bytes: seq<byte>)
    requires |bytes| == 2
    ensures Big(bytes) == Pair(bytes[0], bytes[1]) < 65536
  {
    assert bytes[..1][..0] == [] && Big(bytes[..1]) == bytes[0];
  }

  lemma BigOfFour(bytes: seq<byte>)
    requires |bytes| == 4
    ensures Big(bytes) == Pair(Pair(Pair(bytes[0], bytes[1]), bytes[2]), bytes[3])
  {
    BigOfTwo(bytes[..2]);
    assert bytes[..3][..2] == bytes[..2];
    assert Big(bytes[..3]) == Pair(Big(bytes[..2]), bytes[2]);
  }

  /** One byte is split off the low end. */
  lemma LowByte(n: nat, q: nat)
    requires q == n / 256
    ensures n == Pair(q, n % 256)
  {
  }

  lemma BytesOfUint32(n: nat)
    requires n < UINT32
    ensures n / 0x1_0000 == n / 0x100 / 256 && n / 0x100_0000 == n / 0x1_0000 / 256 && n / 0x100_0000 < 256
  {
    var a, b, c := n / 0x100, n / 0x100 / 256, n / 0x100 / 256 / 256;
    DivModUnique(n, b, 0x100 * (a % 256) + n % 0x100, 0x1_0000);
    DivModUnique(n, c, 0x1_0000 * (b % 256) + 0x100 * (a % 256) + n % 0x100, 0x100_0000);
  }

  lemma Assembled(n: int, q1: int, q2: int, q3: int, bytes: seq<byte>)
    requires |bytes| == 4 && n == Pair(q1, bytes[3]) && q1 == Pair(q2, bytes[2]) && q2 == Pair(q3, bytes[1])
    requires q3 == bytes[0]
    ensures Big(bytes) == n
  {
    BigOfFour(bytes);
  }

  lemma SmallMod(q: int)
    requires 0 <= q < 256
    ensures q % 256 == q
  {
  }

  /** Numbers are read back as they were written. */
  lemma Uint32RoundTrip(n: nat)
    requires n < UINT32
    ensures Big(Uint32Bytes(n)) == n
  {
    var q1, q2, q3 := n / 0x100, n / 0x1_0000, n / 0x100_0000;
    BytesOfUint32(n);
    SmallMod(q3);
    LowByte(q2, q3);
    LowByte(q1, q2);
    LowByte(n, q1);
    Assembled(n, q1, q2, q3, Uint32Bytes(n));
  }

  lemma Uint16RoundTrip(n: nat)
    requires n < 65536
    ensures Big(Uint16Bytes(n)) == n
  {
    SmallMod(n / 256);
    BigOfTwo(Uint16Bytes(n));
  }

  /** A mobile-originated header as the gateway sends it. */
  function PrintedHeader(cdr: nat, imei: seq<byte>, status: byte, momsn: nat, mtmsn: nat, time: nat): seq<byte> {
    Uint32Bytes(cdr) + imei + [status] + Uint16Bytes(momsn) + Uint16Bytes(mtmsn) + Uint32Bytes(time)
  }

  lemma HeaderFields(cdr: nat, imei: seq<byte>, status: byte, momsn: nat, mtmsn: nat, time: nat)
    requires cdr < UINT32 && |imei| == 15 && momsn < 65536 && mtmsn < 65536 && time < UINT32
    ensures var c := PrintedHeader(cdr, imei, status, momsn, mtmsn, time);
      |c| == 28 && HeaderOf(28, c) == MoHeader(28, cdr, imei, SignExtended8(status), momsn, mtmsn, time)
  {
    var c := PrintedHeader(cdr, imei, status, momsn, mtmsn, time);
    assert c[..4] == Uint32Bytes(cdr) && c[4..19] == imei && c[19] == status;
    assert c[20..22] == Uint16Bytes(momsn) && c[22..24] == Uint16Bytes(mtmsn) && c[24..28] == Uint32Bytes(time);
    Uint32RoundTrip(cdr);
    Uint16RoundTrip(momsn);
    Uint16RoundTrip(mtmsn);
    Uint32RoundTrip(time);
  }

  /** Every field of a header is read back; its signed status byte becomes a 32-bit unsigned number. */
  lemma HeaderRoundTrip(cdr: nat, imei: seq<byte>, status: int, momsn: nat, mtmsn: nat, time: nat)
    requires cdr < UINT32 && |imei| == 15 && -128 <= status < 128
    requires momsn < 65536 && mtmsn < 65536 && time < UINT32
    ensures var c := PrintedHeader(cdr, imei, if status < 0 then status + 256 else status, momsn, mtmsn, time);
      var read := if status < 0 then status + UINT32 else status;
      |c| == 28 && HeaderOf(28, c) == MoHeader(28, cdr, imei, read, momsn, mtmsn, time)
  {
    HeaderFields(cdr, imei, if status < 0 then status + 256 else status, momsn, mtmsn, time);
  }

  /** A confirmation as the gateway sends it, its status in two's complement. */
  function PrintedConfirmation(clientId: nat, imei: seq<byte>, autoRefId: nat, status: int): seq<byte>
    requires -32768 <= status < 32768
  {
    Uint32Bytes(clientId) + imei + Uint32Bytes(autoRefId) + Uint16Bytes(if status < 0 then status + 65536 else status)
  }

  lemma ConfirmationRoundTrip(clientId: nat, imei: seq<byte>, autoRefId: nat, status: int)
    requires clientId < UINT32 && |imei| == 15 && autoRefId < UINT32 && -32768 <= status < 32768
    ensures var c := PrintedConfirmation(clientId, imei, autoRefId, status);
      |c| == 25 && ConfirmationOf(25, c) == Confirmation(25, clientId, imei, autoRefId, status)
  {
    var c := PrintedConfirmation(clientId, imei, autoRefId, status);
    var bits := if status < 0 then status + 65536 else status;
    assert c[..4] == Uint32Bytes(clientId) && c[4..19] == imei && c[19..23] == Uint32Bytes(autoRefId);
    assert c[23..25] == Uint16Bytes(bits);
    Uint32RoundTrip(clientId);
    Uint32RoundTrip(autoRefId);
    Uint16RoundTrip(bits);
  }

  // ---- The walk over the elements ----

  /** Where the walk stopped and the positions of the elements it visited, or that it ran off the buffer. */
  datatype Walked = OutOfRange | Done(pos: nat, visited: seq<nat>)

  /** How much of the buffer an element makes the reader look at, besides its three leading bytes. */
  function Needed(iei: byte, length: nat): nat {
    if iei == 0x01 then 28 else if iei == 0x02 then length else if iei == 0x44 then 25 else 0
  }

  /** How far an element moves the reader on; a confirmation is read and then skipped as well. */
  function Advance(iei: byte, length: nat): nat {
    if iei == 0x01 then 28 else if iei == 0x44 then 25 + length else length
  }

  function Length(data: seq<byte>, pos: nat): nat
    requires pos + IEI_SIZE <= |data|
  {
    Pair(data[pos + 1], data[pos + 2])
  }

  predicate InRange(data: seq<byte>, pos: nat) {
    pos + IEI_SIZE <= |data| && pos + IEI_SIZE + Needed(data[pos], Length(data, pos)) <= |data|
  }

  function Next(data: seq<byte>, pos: nat): nat
    requires InRange(data, pos)
  {
    pos + IEI_SIZE + Advance(data[pos], Length(data, pos))
  }

  function Prepend(visited: seq<nat>, w: Walked): Walked {
    match w
    case OutOfRange => OutOfRange
    case Done(pos, more) => Done(pos, visited + more)
  }

  /** From the element at pos, one element after another until end is reached. */
  function Walk(data: seq<byte>, pos: nat, end: nat): (w: Walked)
    ensures w.Done? ==> forall p | p in w.visited :: InRange(data, p)
    decreases end - pos
  {
    if !InRange(data, pos) then OutOfRange
    else if Next(data, pos) < end then Prepend([pos], Walk(data, Next(data, pos), end))
    else Done(Next(data, pos), [pos])
  }

  /**
   The walk starts at its first element, moves on by at least three bytes each time and stops
   at the end or beyond.
   */
  lemma {:induction false} WalkAdvances(data: seq<byte>, pos: nat, end: nat)
    requires Walk(data, pos, end).Done?
    ensures var w := Walk(data, pos, end);
      && w.visited != [] && w.visited[0] == pos && w.pos >= end && w.pos >= w.visited[|w.visited| - 1] + IEI_SIZE
      && forall i | 0 < i < |w.visited| :: w.visited[i - 1] + IEI_SIZE <= w.visited[i] < end
    decreases end - pos
  {
    if Next(data, pos) < end {
      var rest := Walk(data, Next(data, pos), end);
      WalkAdvances(data, Next(data, pos), end);
      var visited := Walk(data, pos, end).visited;
      assert forall i | 0 < i < |visited| :: visited[i] == rest.visited[i - 1];
    }
  }

  // ---- What is kept of the elements ----

  /** The last element of each kind: its announced length and the bytes taken. */
  datatype Raw = Raw(length: nat, content: seq<byte>)
  datatype Fields = Fields(header: Option<Raw>, body: Option<Raw>, confirm: Option<Raw>)

  const NOTHING := Fields(None, None, None)

  function Taken(data: seq<byte>, pos: nat, fields: Fields): Fields
    requires InRange(data, pos)
  {
    var length, c := Length(data, pos), pos + IEI_SIZE;
    if data[pos] == 0x01 then fields.(header := Some(Raw(length, data[c..c + 28])))
    else if data[pos] == 0x02 then fields.(body := Some(Raw(length, data[c..c + length])))
    else if data[pos] == 0x44 then fields.(confirm := Some(Raw(length, data[c..c + 25])))
    else fields
  }

  /** What is held after visiting these elements, later ones replacing earlier ones. */
  function Collected(data: seq<byte>, visited: seq<nat>, fields: Fields): Fields
    requires forall p | p in visited :: InRange(data, p)
    decreases |visited|
  {
    if visited == [] then fields else
      assert visited[0] in visited;
      Collected(data, visited[1..], Taken(data, visited[0], fields))
  }

  /** The reader over a buffer that holds a whole message. */
  class SbdMessageReader {
    const data: seq<byte>
    var pos: nat
    var protocolVer: nat
    var overallLength: nat
    var header: Option<MoHeader>
    var confirm: Option<Confirmation>
    var body: Option<seq<byte>>

    /** The decoded fields are those of the elements taken. */
    ghost predicate Decodes(fields: Fields)
      reads this
    {
      && (fields.header.Some? <==> header.Some?)
      && (header.Some? ==> |fields.header.value.content| == 28
                           && header.value == HeaderOf(fields.header.value.length, fields.header.value.content))
      && (fields.confirm.Some? <==> confirm.Some?)
      && (confirm.Some? ==>
            var raw := fields.confirm.value;
            |raw.content| == 25 && confirm.value == ConfirmationOf(raw.length, raw.content))
      && (fields.body.Some? <==> body.Some?)
      && (body.Some? ==> body.value == fields.body.value.content)
    }

    constructor (data: seq<byte>)
      ensures this.data == data && pos == 0 && Decodes(NOTHING)
    {
      this.data := data;
      pos, protocolVer, overallLength := 0, 0, 0;
      header, body, confirm := None, None, None;
    }

    method ReadByte() returns (b: Option<byte>)
      modifies this`pos
      ensures b.Some? <==> old(pos) < |data|
      ensures b.Some? ==> b.value == data[old(pos)] && pos == old(pos) + 1
    {
      b := if pos < |data| then Some(data[pos]) else None;
      pos := pos + 1;
    }

    /** Accumulates the bytes of an unsigned number. */
    method ReadUint(size: nat) returns (u: Option<nat>)
      requires size > 0
      modifies this`pos
      ensures u.Some? <==> old(pos) + size <= |data|
      ensures u.Some? ==> u.value == Big(data[old(pos)..old(pos) + size]) && pos == old(pos) + size
    {
      var v: nat, start := 0, pos;
      for i := 0 to size
        invariant pos == start + i && (i > 0 ==> pos <= |data|)
        invariant v == if i == 0 then 0 else Big(data[start..start + i])
      {
        var b := ReadByte();
        if b.None? {
          return None;
        }
        BigOfOneMore(data, start, i);
        v := Pair(v, b.value);
      }
      u := Some(v);
    }

    method ReadChars(size: nat) returns (s: Option<seq<byte>>)
      modifies this`pos
      ensures s.Some? <==> old(pos) + size <= |data|
      ensures s.Some? ==> s.value == data[old(pos)..old(pos) + size] && pos == old(pos) + size
    {
      s := if pos + size <= |data| then Some(data[pos..pos + size]) else None;
      pos := pos + size;
    }

    /** A header element. */
    method TakeHeader(length: nat) returns (ok: bool)
      modifies this`pos, this`header
      ensures ok <==> old(pos) + 28 <= |data|
      ensures ok ==> pos == old(pos) + 28 && header == Some(HeaderOf(length, data[old(pos)..old(pos) + 28]))
    {
      var cdr := ReadUint(4);
      var imei := ReadChars(15);
      var status := ReadByte();
      var momsn := ReadUint(2);
      var mtmsn := ReadUint(2);
      var time := ReadUint(4);
      ok := cdr.Some? && imei.Some? && status.Some? && momsn.Some? && mtmsn.Some? && time.Some?;
      if ok {
        ghost var p, c := old(pos), data[old(pos)..old(pos) + 28];
        SliceOfSlice(data, p, 28, 0, 4);
        SliceOfSlice(data, p, 28, 4, 19);
        SliceOfSlice(data, p, 28, 20, 22);
        SliceOfSlice(data, p, 28, 22, 24);
        SliceOfSlice(data, p, 28, 24, 28);
        assert c[19] == data[p + 19] && c[..4] == c[0..4];
        header := Some(MoHeader(length, cdr.value, imei.value, SignExtended8(status.value),
                                momsn.value, mtmsn.value, time.value));
      }
    }

    method TakeConfirmation(length: nat) returns (ok: bool)
      modifies this`pos, this`confirm
      ensures ok <==> old(pos) + 25 <= |data|
      ensures ok ==> pos == old(pos) + 25 && confirm == Some(ConfirmationOf(length, data[old(pos)..old(pos) + 25]))
    {
      var id := ReadUint(4);
      var imei := ReadChars(15);
      var ref := ReadUint(4);
      var status := ReadUint(2);
      ok := id.Some? && imei.Some? && ref.Some? && status.Some?;
      if ok {
        ghost var p, c := old(pos), data[old(pos)..old(pos) + 25];
        SliceOfSlice(data, p, 25, 0, 4);
        SliceOfSlice(data, p, 25, 4, 19);
        SliceOfSlice(data, p, 25, 19, 23);
        SliceOfSlice(data, p, 25, 23, 25);
        assert c[..4] == c[0..4];
        BigOfTwo(c[23..25]);
        confirm := Some(Confirmation(length, id.value, imei.value, ref.value, Signed16(status.value)));
      }
    }

    /** The element at the reader's position. */
    method TakeElement(ghost fields: Fields) returns (ok: bool)
      requires Decodes(fields)
      modifies this`pos, this`header, this`body, this`confirm
      ensures ok <==> InRange(data, old(pos))
      ensures ok ==> pos == Next(data, old(pos)) && Decodes(Taken(data, old(pos), fields))
    {
      var iei := ReadByte();
      var length := ReadUint(2);
      if iei.None? || length.None? {
        return false;
      }
      BigOfTwo(data[old(pos) + 1..old(pos) + 3]);
      assert length.value == Length(data, old(pos));
      if iei.value == 0x01 {
        ok := TakeHeader(length.value);
      } else if iei.value == 0x02 {
        body := ReadChars(length.value);
        ok := body.Some?;
      } else {
        ok := true;
        if iei.value == 0x44 {
          ok := TakeConfirmation(length.value);
        }
        pos := pos + length.value;
      }
    }

    /** One element, then the handler again while the message goes on. */
    method HandleElements(ghost fields: Fields) returns (ok: bool)
      requires Decodes(fields)
      modifies this`pos, this`header, this`body, this`confirm
      ensures var w := Walk(data, old(pos), overallLength + PRE_HEADER_SIZE);
        && (ok <==> w.Done?)
        && (ok ==> pos == w.pos && Decodes(Collected(data, w.visited, fields)))
      decreases overallLength + PRE_HEADER_SIZE - pos
    {
      ghost var start := pos;
      ok := TakeElement(fields);
      if ok {
        ghost var fields' := Taken(data, start, fields);
        CollectedOne(data, start, fields);
        if pos < overallLength + PRE_HEADER_SIZE {
          ghost var w := Walk(data, pos, overallLength + PRE_HEADER_SIZE);
          ok := HandleElements(fields');
          if ok {
            assert ([start] + w.visited)[1..] == w.visited;
          }
        }
      }
    }

    /** A whole message: the pre-header, then the elements up to its overall length. */
    method ReadMessage() returns (ok: bool)
      requires pos == 0 && Decodes(NOTHING)
      modifies this
      ensures ok <==> |data| >= 3 && Walk(data, 3, Length(data, 0) + PRE_HEADER_SIZE).Done?
      ensures ok ==> var w := Walk(data, 3, Length(data, 0) + PRE_HEADER_SIZE);
        && overallLength == Length(data, 0) && protocolVer == SignExtended8(data[0])
        && pos == w.pos && Decodes(Collected(data, w.visited, NOTHING))
      ensures forall es | HoldsMessage(data, es) ::
        ok && pos == PRE_HEADER_SIZE + Size(es) && Decodes(KeptAll(NOTHING, es))
    {
      forall es | HoldsMessage(data, es)
        ensures var w := Walk(data, 3, Length(data, 0) + PRE_HEADER_SIZE);
          w.Done? && w.pos == PRE_HEADER_SIZE + Size(es) && Collected(data, w.visited, NOTHING) == KeptAll(NOTHING, es)
      {
        MessageIsRead(data, es);
      }
      var version := ReadByte();
      var length := ReadUint(2);
      if version.None? || length.None? {
        return false;
      }
      BigOfTwo(data[1..3]);
      protocolVer, overallLength := SignExtended8(version.value), length.value;
      ok := HandleElements(NOTHING);
    }
  }

  lemma SliceOfSlice(data: seq<byte>, p: nat, n: nat, i: nat, j: nat)
    requires p + n <= |data| && i <= j <= n
    ensures data[p..p + n][i..j] == data[p + i..p + j]
  {
    var a, b := data[p..p + n][i..j], data[p + i..p + j];
    assert |a| == |b| && forall k | 0 <= k < |a| :: a[k] == data[p + i + k] == b[k];
    assert a == b;
  }

  lemma CollectedOne(data: seq<byte>, pos: nat, fields: Fields)
    requires InRange(data, pos)
    ensures Collected(data, [pos], fields) == Taken(data, pos, fields)
  {
    assert [pos][1..] == [];
  }

  // ---- Well-formed messages ----

  /** An information element: its kind, its length in two bytes, its content. */
  datatype Element = Element(iei: byte, high: byte, low: byte, content: seq<byte>)

  /** The data holds the element at this position. */
  predicate Holds(data: seq<byte>, pos: nat, e: Element) {
    && pos + IEI_SIZE + |e.content| <= |data|
    && data[pos] == e.iei && data[pos + 1] == e.high && data[pos + 2] == e.low
    && data[pos + IEI_SIZE..pos + IEI_SIZE + |e.content|] == e.content
  }

  /** The elements lie one after another from this position on. */
  predicate LaidOut(data: seq<byte>, pos: nat, es: seq<Element>)
    decreases |es|
  {
    es == [] || (Holds(data, pos, es[0]) && LaidOut(data, pos + IEI_SIZE + |es[0].content|, es[1..]))
  }

  function Size(es: seq<Element>): nat {
    if es == [] then 0 else IEI_SIZE + |es[0].content| + Size(es[1..])
  }

  /** The length field says how long the content is. */
  predicate Honest(e: Element) {
    |e.content| == Pair(e.high, e.low)
  }

  /** Besides, headers have their fixed size, and there is no confirmation. */
  predicate WellFormed(e: Element) {
    Honest(e) && (e.iei == 0x01 ==> |e.content| == 28) && e.iei != 0x44
  }

  function Kept(fields: Fields, e: Element): Fields
    requires WellFormed(e)
  {
    if e.iei == 0x01 then fields.(header := Some(Raw(28, e.content)))
    else if e.iei == 0x02 then fields.(body := Some(Raw(|e.content|, e.content)))
    else fields
  }

  /** The last header and the last payload, if any. */
  function KeptAll(fields: Fields, es: seq<Element>): Fields
    requires forall e | e in es :: WellFormed(e)
    decreases |es|
  {
    if es == [] then fields else
      assert es[0] in es;
      KeptAll(Kept(fields, es[0]), es[1..])
  }

  /** Where the elements start. */
  function Positions(pos: nat, es: seq<Element>): seq<nat>
    decreases |es|
  {
    if es == [] then [] else [pos] + Positions(pos + IEI_SIZE + |es[0].content|, es[1..])
  }

  lemma ElementIsPassed(data: seq<byte>, pos: nat, e: Element)
    requires WellFormed(e) && Holds(data, pos, e)
    ensures InRange(data, pos) && Next(data, pos) == pos + IEI_SIZE + |e.content|
  {
  }

  lemma ElementIsTaken(data: seq<byte>, pos: nat, e: Element, fields: Fields)
    requires WellFormed(e) && Holds(data, pos, e)
    ensures InRange(data, pos) && Taken(data, pos, fields) == Kept(fields, e)
  {
  }

  /** The walk goes through well-formed elements, visiting each, to what lies beyond them. */
  lemma {:induction false} WalkPasses(data: seq<byte>, pos: nat, end: nat, es: seq<Element>)
    requires forall e | e in es :: WellFormed(e)
    requires LaidOut(data, pos, es) && pos + Size(es) < end
    ensures Walk(data, pos, end) == Prepend(Positions(pos, es), Walk(data, pos + Size(es), end))
    decreases |es|
  {
    var beyond := pos + Size(es);
    var w := Walk(data, beyond, end);
    if es == [] {
      PrependTwice([], [], w);
    } else {
      var e, rest := es[0], es[1..];
      RestIsWellFormed(es);
      var pos' := pos + IEI_SIZE + |e.content|;
      assert pos' + Size(rest) == beyond;
      WalkPasses(data, pos', end, rest);
      var visited := Positions(pos', rest);
      assert Positions(pos, es) == [pos] + visited;
      WalkPassesOne(data, pos, end, e, visited, w);
    }
  }

  lemma RestIsWellFormed(es: seq<Element>)
    requires es != [] && forall e | e in es :: WellFormed(e)
    ensures WellFormed(es[0]) && forall e | e in es[1..] :: WellFormed(e)
  {
    assert es[0] in es && forall e | e in es[1..] :: e in es;
  }

  lemma WalkPassesOne(data: seq<byte>, pos: nat, end: nat, e: Element, visited: seq<nat>, w: Walked)
    requires WellFormed(e) && Holds(data, pos, e) && pos + IEI_SIZE + |e.content| < end
    requires Walk(data, pos + IEI_SIZE + |e.content|, end) == Prepend(visited, w)
    ensures Walk(data, pos, end) == Prepend([pos] + visited, w)
  {
    ElementIsPassed(data, pos, e);
    PrependTwice([pos], visited, w);
  }

  lemma PrependTwice(a: seq<nat>, b: seq<nat>, w: Walked)
    ensures Prepend(a, Prepend(b, w)) == Prepend(a + b, w)
    ensures Prepend([], w) == w
  {
    if w.Done? {
      assert a + (b + w.visited) == (a + b) + w.visited && [] + w.visited == w.visited;
    }
  }

  /** The walk visits every element once and ends exactly where they end. */
  lemma {:induction false} WalkVisitsAll(data: seq<byte>, pos: nat, es: seq<Element>)
    requires es != [] && forall e | e in es :: WellFormed(e)
    requires LaidOut(data, pos, es)
    ensures Walk(data, pos, pos + Size(es)) == Done(pos + Size(es), Positions(pos, es))
    decreases |es|
  {
    var e, rest := es[0], es[1..];
    assert e in es && forall x | x in rest :: x in es;
    var pos' := pos + IEI_SIZE + |e.content|;
    ElementIsPassed(data, pos, e);
    if rest != [] {
      assert Size(rest) > 0;
      WalkVisitsAll(data, pos', rest);
    }
  }

  /** What visiting the elements leaves behind: the last header and the last payload. */
  lemma {:induction false} CollectsLast(data: seq<byte>, pos: nat, es: seq<Element>, fields: Fields)
    requires (forall e | e in es :: WellFormed(e)) && LaidOut(data, pos, es)
    ensures forall p | p in Positions(pos, es) :: InRange(data, p)
    ensures Collected(data, Positions(pos, es), fields) == KeptAll(fields, es)
    decreases |es|
  {
    if es != [] {
      var e, rest := es[0], es[1..];
      assert e in es && forall x | x in rest :: x in es;
      var pos' := pos + IEI_SIZE + |e.content|;
      ElementIsTaken(data, pos, e, fields);
      CollectsLast(data, pos', rest, Kept(fields, e));
      assert Positions(pos, es)[1..] == Positions(pos', rest);
    }
  }

  /** The reader steps from an honest element to the next one only if it is well-formed. */
  lemma StepMeansWellFormed(data: seq<byte>, pos: nat, e: Element)
    requires Honest(e) && Holds(data, pos, e) && InRange(data, pos)
    ensures Next(data, pos) == pos + IEI_SIZE + |e.content| <==> WellFormed(e)
  {
  }

  /** A walk over honest elements that visits each of them and ends where they end has met only well-formed ones. */
  lemma {:induction false} VisitedAreWellFormed(data: seq<byte>, pos: nat, es: seq<Element>)
    requires es != [] && (forall e | e in es :: Honest(e)) && LaidOut(data, pos, es)
    requires Walk(data, pos, pos + Size(es)) == Done(pos + Size(es), Positions(pos, es))
    ensures forall e | e in es :: WellFormed(e)
    decreases |es|
  {
    var e, rest, end := es[0], es[1..], pos + Size(es);
    assert e in es && forall x | x in rest :: x in es;
    var pos' := pos + IEI_SIZE + |e.content|;
    StepMeansWellFormed(data, pos, e);
    if rest == [] {
      assert Positions(pos, es) == [pos];
      SecondVisited(data, pos, end);
    } else {
      assert Positions(pos, es)[1] == pos';
      SecondVisited(data, pos, end);
      assert Positions(pos, es)[1..] == Positions(pos', rest);
      VisitedAreWellFormed(data, pos', rest);
    }
    assert forall x | x in es :: x == e || x in rest;
  }

  /** If the walk goes on after its first element, then from the place where that element leads. */
  lemma SecondVisited(data: seq<byte>, pos: nat, end: nat)
    requires Walk(data, pos, end).Done?
    ensures var w := Walk(data, pos, end);
      && InRange(data, pos) && (|w.visited| == 1 <==> Next(data, pos) >= end)
      && (|w.visited| == 1 ==> w.pos == Next(data, pos))
      && (|w.visited| > 1 ==> w.visited[1] == Next(data, pos)
                              && Walk(data, Next(data, pos), end) == Done(w.pos, w.visited[1..]))
  {
    if Next(data, pos) < end {
      var rest := Walk(data, Next(data, pos), end);
      WalkAdvances(data, Next(data, pos), end);
      assert ([pos] + rest.visited)[1..] == rest.visited;
    }
  }

  /** The walk is right about a message of honest elements exactly when they are all well-formed. */
  lemma WalkVisitsAllIff(data: seq<byte>, pos: nat, es: seq<Element>)
    requires es != [] && (forall e | e in es :: Honest(e)) && LaidOut(data, pos, es)
    ensures Walk(data, pos, pos + Size(es)) == Done(pos + Size(es), Positions(pos, es))
       <==> forall e | e in es :: WellFormed(e)
  {
    if Walk(data, pos, pos + Size(es)) == Done(pos + Size(es), Positions(pos, es)) {
      VisitedAreWellFormed(data, pos, es);
    }
    if forall e | e in es :: WellFormed(e) {
      WalkVisitsAll(data, pos, es);
    }
  }

  /** Behind well-formed elements, an element that leads to the end or beyond it ends the walk. */
  lemma WalkEndsWith(data: seq<byte>, pos: nat, es: seq<Element>, end: nat)
    requires (forall e | e in es :: WellFormed(e)) && LaidOut(data, pos, es)
    requires var p := pos + Size(es); p < end && InRange(data, p) && Next(data, p) >= end
    ensures var p := pos + Size(es); Walk(data, pos, end) == Done(Next(data, p), Positions(pos, es) + [p])
  {
    WalkPasses(data, pos, end, es);
  }

  /** A confirmation closing the message, whatever its length, carries the reader 25 bytes past the end. */
  lemma ConfirmationOvershoots(data: seq<byte>, pos: nat, es: seq<Element>, c: Element)
    requires (forall e | e in es :: WellFormed(e)) && c.iei == 0x44 && Honest(c)
    requires LaidOut(data, pos, es) && Holds(data, pos + Size(es), c) && pos + Size(es) + 28 <= |data|
    ensures var end := pos + Size(es) + IEI_SIZE + |c.content|;
      Walk(data, pos, end) == Done(end + 25, Positions(pos, es) + [pos + Size(es)])
  {
    var p, end := pos + Size(es), pos + Size(es) + IEI_SIZE + |c.content|;
    assert InRange(data, p) && Next(data, p) == end + 25;
    WalkEndsWith(data, pos, es, end);
  }

  /** A closing header that is too short does so by what it lacks. */
  lemma ShortHeaderOvershoots(data: seq<byte>, pos: nat, es: seq<Element>, h: Element)
    requires (forall e | e in es :: WellFormed(e)) && h.iei == 0x01 && Honest(h) && |h.content| < 28
    requires LaidOut(data, pos, es) && Holds(data, pos + Size(es), h) && pos + Size(es) + 31 <= |data|
    ensures var end := pos + Size(es) + IEI_SIZE + |h.content|;
      Walk(data, pos, end) == Done(end + 28 - |h.content|, Positions(pos, es) + [pos + Size(es)])
  {
    var p, end := pos + Size(es), pos + Size(es) + IEI_SIZE + |h.content|;
    assert InRange(data, p) && Next(data, p) == end + 28 - |h.content|;
    WalkEndsWith(data, pos, es, end);
  }

  // ---- Which header and which payload are kept ----

  /** The last element of this kind, if there is one at all. */
  ghost predicate LastOfKind(es: seq<Element>, iei: byte, last: Option<seq<byte>>) {
    match last
    case None => forall k | 0 <= k < |es| :: es[k].iei != iei
    case Some(content) =>
      exists i :: 0 <= i < |es| && es[i].iei == iei && es[i].content == content
                  && forall k | i < k < |es| :: es[k].iei != iei
  }

  function ContentOf(raw: Option<Raw>): Option<seq<byte>> {
    if raw.Some? then Some(raw.value.content) else None
  }

  lemma {:induction false} KeptFromTheEnd(fields: Fields, es: seq<Element>)
    requires es != [] && forall e | e in es :: WellFormed(e)
    ensures (forall e | e in es[..|es| - 1] :: WellFormed(e)) && WellFormed(es[|es| - 1])
    ensures KeptAll(fields, es) == Kept(KeptAll(fields, es[..|es| - 1]), es[|es| - 1])
    decreases |es|
  {
    assert es[0] in es && es[|es| - 1] in es;
    assert forall e | e in es[..|es| - 1] :: e in es;
    if |es| > 1 {
      assert forall e | e in es[1..] :: e in es;
      KeptFromTheEnd(Kept(fields, es[0]), es[1..]);
      assert es[1..][..|es| - 2] == es[..|es| - 1][1..];
    }
  }

  lemma LastOfKindAfter(es: seq<Element>, iei: byte, before: Option<seq<byte>>)
    requires es != [] && LastOfKind(es[..|es| - 1], iei, before)
    ensures var e := es[|es| - 1]; LastOfKind(es, iei, if e.iei == iei then Some(e.content) else before)
  {
    var n := |es| - 1;
    assert forall k | 0 <= k < n :: es[..n][k] == es[k];
    if es[n].iei != iei && before.Some? {
      var i :| 0 <= i < n && es[..n][i].iei == iei && es[..n][i].content == before.value
               && forall k | i < k < n :: es[..n][k].iei != iei;
      assert forall k | i < k < |es| :: es[k].iei != iei;
    }
  }

  /** What is kept is the content of the last header and of the last payload, with their lengths, and nothing else. */
  lemma {:induction false} KeptAllIsLast(es: seq<Element>)
    requires forall e | e in es :: WellFormed(e)
    ensures var f := KeptAll(NOTHING, es);
      && LastOfKind(es, 0x01, ContentOf(f.header)) && LastOfKind(es, 0x02, ContentOf(f.body)) && f.confirm.None?
      && (f.header.Some? ==> f.header.value.length == 28)
      && (f.body.Some? ==> f.body.value.length == |f.body.value.content|)
    decreases |es|
  {
    if es != [] {
      KeptFromTheEnd(NOTHING, es);
      var before := es[..|es| - 1];
      KeptAllIsLast(before);
      var f := KeptAll(NOTHING, before);
      LastOfKindAfter(es, 0x01, ContentOf(f.header));
      LastOfKindAfter(es, 0x02, ContentOf(f.body));
    }
  }

  /** A buffer that starts with a message of these elements: its length in bytes one and two, then the elements. */
  ghost predicate HoldsMessage(data: seq<byte>, es: seq<Element>) {
    && es != [] && (forall e | e in es :: WellFormed(e))
    && |data| >= 3 && Length(data, 0) == Size(es) && LaidOut(data, PRE_HEADER_SIZE, es)
  }

  /** Reading such a buffer ends exactly at the end of the message, holding its last header and its last payload. */
  lemma MessageIsRead(data: seq<byte>, es: seq<Element>)
    requires HoldsMessage(data, es)
    ensures var w := Walk(data, PRE_HEADER_SIZE, Length(data, 0) + PRE_HEADER_SIZE);
      && w.Done? && w.pos == PRE_HEADER_SIZE + Size(es) && w.visited == Positions(PRE_HEADER_SIZE, es)
      && var f := Collected(data, w.visited, NOTHING);
         && f == KeptAll(NOTHING, es)
         && LastOfKind(es, 0x01, ContentOf(f.header)) && LastOfKind(es, 0x02, ContentOf(f.body)) && f.confirm.None?
  {
    WalkVisitsAll(data, PRE_HEADER_SIZE, es);
    CollectsLast(data, PRE_HEADER_SIZE, es, NOTHING);
    KeptAllIsLast(es);
  }

  // ---- The writer ----

  const MT_HEADER: byte := 0x41
  const MT_PAYLOAD: byte := 0x42
  const HEADER_SIZE := 21
  const FLUSH_MT_QUEUE := 0x01

  /** The flags come after fifteen characters; what a longer identifier has beyond that stays behind them. */
  function MtHeader(clientId: nat, imei: seq<byte>): seq<byte>
    requires |imei| >= 15
  {
    [MT_HEADER] + Uint16Bytes(HEADER_SIZE) + Uint32Bytes(clientId) + imei[..15] + Uint16Bytes(FLUSH_MT_QUEUE)
    + (imei + [0, 0])[17..]
  }

  /** A mobile-terminated message; lengths are cut to sixteen bits. */
  function MtMessage(clientId: nat, imei: seq<byte>, payload: seq<byte>): seq<byte>
    requires |imei| >= 15
  {
    var body := MtHeader(clientId, imei) + [MT_PAYLOAD] + Uint16Bytes(|payload|) + payload;
    [1] + Uint16Bytes(|body|) + body
  }

  class MtWriter {
    var clientId: nat

    constructor ()
      ensures clientId == 0
    {
      clientId := 0;
    }

    method CreateDataMessage(payload: seq<byte>, imei: seq<byte>) returns (message: seq<byte>)
      requires |imei| >= 15 && clientId < UINT32
      modifies this
      ensures message == MtMessage(old(clientId), imei, payload)
      ensures |imei| == 15 ==> Carries(message, old(clientId), imei, payload)
      ensures clientId == (old(clientId) + 1) % UINT32
    {
      if |imei| == 15 {
        MtMessageCarries(clientId, imei, payload);
      }
      var header := FillHeader(clientId, imei);
      clientId := (clientId + 1) % UINT32;
      var body := header + [MT_PAYLOAD] + Uint16Bytes(|payload|) + payload;
      message := [1] + Uint16Bytes(|body|) + body;
    }

    /** Fills the header field by field, the moving position starting each field where the last one ended. */
    static method FillHeader(id: nat, imei: seq<byte>) returns (bytes: seq<byte>)
      requires |imei| >= 15
      ensures bytes == MtHeader(id, imei)
    {
      var header := new byte[IEI_SIZE + HEADER_SIZE + |imei| - 15](_ => 0);
      var pos := 0;
      header[pos] := MT_HEADER;
      pos := pos + 1;
      PutBytes(header, pos, Uint16Bytes(HEADER_SIZE));
      pos := pos + 2;
      PutBytes(header, pos, Uint32Bytes(id));
      pos := pos + 4;
      PutBytes(header, pos, imei);
      pos := pos + 15;
      PutBytes(header, pos, Uint16Bytes(FLUSH_MT_QUEUE));
      bytes := header[..];
      assert bytes[..7] == [MT_HEADER] + Uint16Bytes(HEADER_SIZE) + Uint32Bytes(id);
      assert bytes[7..22] == imei[..15] && bytes[22..24] == Uint16Bytes(FLUSH_MT_QUEUE);
      assert bytes[24..] == (imei + [0, 0])[17..];
      assert bytes == bytes[..7] + bytes[7..22] + bytes[22..24] + bytes[24..];
    }

    static method PutBytes(a: array<byte>, pos: nat, bytes: seq<byte>)
      requires pos + |bytes| <= a.Length
      modifies a
      ensures forall k | 0 <= k < a.Length :: a[k] == if pos <= k < pos + |bytes| then bytes[k - pos] else old(a[k])
    {
      for i := 0 to |bytes|
        invariant forall k | 0 <= k < a.Length :: a[k] == if pos <= k < pos + i then bytes[k - pos] else old(a[k])
      {
        a[pos + i] := bytes[i];
      }
    }
  }

  lemma PairOfBytes(n: nat)
    requires n < 65536
    ensures Pair(Uint16Bytes(n)[0], Uint16Bytes(n)[1]) == n
  {
  }

  /** The bytes of a message that the reader looks at. */
  lemma MtMessageLayout(clientId: nat, imei: seq<byte>, payload: seq<byte>)
    requires |imei| == 15
    ensures var m, n := MtMessage(clientId, imei, payload), |payload|;
      && |m| == 30 + n
      && m[1] == Uint16Bytes(27 + n)[0] && m[2] == Uint16Bytes(27 + n)[1]
      && m[3] == MT_HEADER && m[4] == Uint16Bytes(21)[0] && m[5] == Uint16Bytes(21)[1]
      && m[27] == MT_PAYLOAD && m[28] == Uint16Bytes(n)[0] && m[29] == Uint16Bytes(n)[1]
  {
    var h := MtHeader(clientId, imei);
    var body := h + [MT_PAYLOAD] + Uint16Bytes(|payload|) + payload;
    assert |h| == 24 && h[0] == MT_HEADER && h[1] == Uint16Bytes(21)[0] && h[2] == Uint16Bytes(21)[1];
    assert body[0] == h[0] && body[1] == h[1] && body[2] == h[2];
    assert body[24] == MT_PAYLOAD && body[25] == Uint16Bytes(|payload|)[0] && body[26] == Uint16Bytes(|payload|)[1];
    var m := MtMessage(clientId, imei, payload);
    assert m == [1] + Uint16Bytes(|body|) + body;
    assert forall k | 0 <= k < |body| :: m[k + 3] == body[k];
  }

  /**
   The bytes of a message hold, each at its place, the version, the client id, the identifier, the
   flags and the payload.
   */
  predicate Carries(message: seq<byte>, clientId: nat, imei: seq<byte>, payload: seq<byte>) {
    && |message| == 30 + |payload| && message[0] == 1
    && Big(message[6..10]) == clientId && message[10..25] == imei && Big(message[25..27]) == 1
    && message[30..] == payload
  }

  lemma MtMessageCarries(clientId: nat, imei: seq<byte>, payload: seq<byte>)
    requires |imei| == 15 && clientId < UINT32
    ensures Carries(MtMessage(clientId, imei, payload), clientId, imei, payload)
  {
    var h := MtHeader(clientId, imei);
    var body := h + [MT_PAYLOAD] + Uint16Bytes(|payload|) + payload;
    var m := MtMessage(clientId, imei, payload);
    assert (imei + [0, 0])[17..] == [] && imei[..15] == imei;
    assert |h| == 24 && h[3..7] == Uint32Bytes(clientId) && h[7..22] == imei;
    assert h[22..24] == Uint16Bytes(FLUSH_MT_QUEUE);
    assert body[..24] == h && body[27..] == payload;
    assert m == [1] + Uint16Bytes(|body|) + body && m[3..] == body;
    assert m[6..10] == body[3..7] == h[3..7] && m[10..25] == body[7..22] == h[7..22];
    assert m[25..27] == body[22..24] == h[22..24] && m[30..] == body[27..];
    Uint32RoundTrip(clientId);
    Uint16RoundTrip(FLUSH_MT_QUEUE);
  }

  /** What a gateway reads from the elements that a walk visits. */
  datatype MtFields = MtFields(clientId: nat, imei: seq<byte>, flags: nat, payload: seq<byte>)

  /** The content of the element at this position. */
  function ContentAt(data: seq<byte>, pos: nat): seq<byte>
    requires pos + IEI_SIZE <= |data| && pos + IEI_SIZE + Length(data, pos) <= |data|
  {
    data[pos + IEI_SIZE..pos + IEI_SIZE + Length(data, pos)]
  }

  /** The header element's content in its three fields, and the payload element's as it is. */
  function FieldsOf(header: seq<byte>, payload: seq<byte>): MtFields
    requires |header| == HEADER_SIZE
  {
    MtFields(Big(header[..4]), header[4..19], Big(header[19..21]), payload)
  }

  /** Whoever walks a written message and reads its two elements gets back what was written. */
  lemma MtRoundTrip(clientId: nat, imei: seq<byte>, payload: seq<byte>)
    requires |imei| == 15 && clientId < UINT32 && |payload| <= 65508
    ensures var m := MtMessage(clientId, imei, payload);
      && |m| >= 30 && Length(m, 0) + PRE_HEADER_SIZE == |m|
      && Walk(m, PRE_HEADER_SIZE, |m|) == Done(|m|, [3, 27])
      && m[3] == MT_HEADER && Length(m, 3) == HEADER_SIZE && m[27] == MT_PAYLOAD && 30 + Length(m, 27) == |m|
      && FieldsOf(ContentAt(m, 3), ContentAt(m, 27)) == MtFields(clientId, imei, 1, payload)
  {
    var m := MtMessage(clientId, imei, payload);
    MtMessageLayout(clientId, imei, payload);
    MtMessageCarries(clientId, imei, payload);
    ReaderAcceptsWriter(clientId, imei, payload, m);
    PairOfBytes(21);
    PairOfBytes(|payload|);
    var header := ContentAt(m, 3);
    assert header == m[6..27];
    SliceOfSlice(m, 6, 21, 0, 4);
    SliceOfSlice(m, 6, 21, 4, 19);
    SliceOfSlice(m, 6, 21, 19, 21);
    assert header[..4] == header[0..4];
    assert ContentAt(m, 27) == m[30..];
  }

  /**
   The reader over a message of the writer: two elements, ending exactly at the end. The buffer
   may be too small for the payload, which the reader only skips.
   */
  lemma ReaderAcceptsWriter(clientId: nat, imei: seq<byte>, payload: seq<byte>, data: seq<byte>)
    requires |imei| == 15 && |payload| <= 65508 && |data| >= 30
    requires var m := MtMessage(clientId, imei, payload);
      forall k | 0 <= k < |m| && k < |data| :: data[k] == m[k]
    ensures var m := MtMessage(clientId, imei, payload);
      && Length(data, 0) + PRE_HEADER_SIZE == |m|
      && Walk(data, PRE_HEADER_SIZE, |m|) == Done(|m|, [3, 27])
  {
    MtMessageLayout(clientId, imei, payload);
    PairOfBytes(27 + |payload|);
    PairOfBytes(21);
    PairOfBytes(|payload|);
    var end := 30 + |payload|;
    assert Length(data, 3) == 21 && Length(data, 27) == |payload| && Length(data, 0) == 27 + |payload|;
    assert Walk(data, 27, end) == Done(end, [27]);
  }
}
