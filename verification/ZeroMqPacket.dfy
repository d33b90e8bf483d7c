/** Packets of the publish/subscribe transport: marshalling scheme, identifier, NUL, body. */
module ZeroMqPacket {
  import opened Arithmetic
  import opened Basics
  import opened Bits
  import opened Text

  const MARSHALLING_PROTOBUF := 2
  const MARSHALLING_MOOS := 4
  const MARSHALLING_MAX := 6
  const MARSHALLING_SIZE := 4
  const NUL := '\0'
  const SLASH := '/'

  datatype Decoded = Invalid | Packet(scheme: nat, identifier: string, body: string)

  /** Strings are byte strings. */
  predicate IsBytes(s: string) {
    forall i | 0 <= i < |s| :: s[i] as int < 256
  }

  function SchemeBytes(scheme: nat): string {
    [(scheme / 0x100_0000 % 256) as char, (scheme / 0x1_0000 % 256) as char,
     (scheme / 0x100 % 256) as char, (scheme % 256) as char]
  }

  function MakeHeader(scheme: nat, identifier: string): string {
    SchemeBytes(scheme) + identifier + [NUL]
  }

  function Encode(scheme: nat, identifier: string, body: string): string {
    MakeHeader(scheme, identifier) + body
  }

  /**
   One step of the decoder's accumulation: the number is shifted left by eight bits and combined
   by exclusive or with a signed byte, whose sign bit reaches all higher bits.
   */
  function ShiftIn(m: nat, b: nat): nat
    requires m < UINT32 && b < 256
  {
    var shifted := m * 256 % UINT32;
    if b < 128 then shifted + b else 0xFFFF_FF00 - shifted + b
  }

  /** The byte comes in below the word's low 24 bits, which its sign turns over. */
  function ShiftedBits(word: seq<bool>, byte: seq<bool>): seq<bool>
    requires |word| == 32 && |byte| == 8
  {
    byte + (if byte[7] then Not(word[..24]) else word[..24])
  }

  lemma XorIsShiftedBits(word: seq<bool>, byte: seq<bool>)
    requires |word| == 32 && |byte| == 8
    ensures Xor(ShiftLeft(word, 8), SignExtend(byte, 32)) == ShiftedBits(word, byte)
  {
  }

  lemma NumberOfShiftedBits(word: seq<bool>, byte: seq<bool>)
    requires |word| == 32 && |byte| == 8
    ensures var low := Number(word[..24]);
      Number(ShiftedBits(word, byte)) == Number(byte) + 256 * (if byte[7] then 0xFF_FFFF - low else low)
  {
    Powers();
    NumberOfNot(word[..24]);
    NumberOfConcat(byte, if byte[7] then Not(word[..24]) else word[..24]);
  }

  lemma WordSplits(word: seq<bool>)
    requires |word| == 32
    ensures Number(word) == Number(word[..24]) + 0x100_0000 * Number(word[24..]) < UINT32
    ensures Number(word[..24]) < 0x100_0000 && Number(word[24..]) < 256
  {
    Powers();
    assert word == word[..24] + word[24..];
    NumberOfConcat(word[..24], word[24..]);
    NumberBound(word[..24]);
    NumberBound(word[24..]);
    NumberBound(word);
  }

  lemma ShiftInSplits(low: nat, high: nat, b: nat)
    requires low < 0x100_0000 && high < 256 && b < 256
    ensures ShiftIn(low + 0x100_0000 * high, b) == b + 256 * (if b < 128 then low else 0xFF_FFFF - low)
  {
    DivModUnique((low + 0x100_0000 * high) * 256, high, low * 256, UINT32);
  }

  /** On the bits of a 32-bit word and a byte, the step is that shift and that exclusive or. */
  lemma ShiftInIsXor(word: seq<bool>, byte: seq<bool>)
    requires |word| == 32 && |byte| == 8
    ensures Number(word) < UINT32 && Number(byte) < 256
    ensures Number(Xor(ShiftLeft(word, 8), SignExtend(byte, 32))) == ShiftIn(Number(word), Number(byte))
  {
    XorIsShiftedBits(word, byte);
    NumberOfShiftedBits(word, byte);
    WordSplits(word);
    SignOfByte(byte);
    ShiftInSplits(Number(word[..24]), Number(word[24..]), Number(byte));
  }

  lemma ShiftInFits(m: nat, b: nat)
    requires m < UINT32 && b < 256
    ensures ShiftIn(m, b) < UINT32 && ShiftIn(m, b) % 256 == b
    ensures ShiftIn(m, b) / 256 == if b < 128 then m % 0x100_0000 else 0xFF_FFFF - m % 0x100_0000
  {
    var q, r := m / 0x100_0000, m % 0x100_0000;
    DivModUnique(m * 256, q, r * 256, UINT32);
    if b < 128 {
      DivModUnique(ShiftIn(m, b), r, b, 256);
    } else {
      DivModUnique(ShiftIn(m, b), 0xFF_FFFF - r, b, 256);
    }
  }

  /** The number the decoder accumulates from the leading bytes. */
  function Accumulated(raw: string): (m: nat)
    requires IsBytes(raw)
    ensures m < UINT32
  {
    if raw == "" then 0
    else
      ShiftInFits(Accumulated(raw[..|raw| - 1]), raw[|raw| - 1] as int);
      ShiftIn(Accumulated(raw[..|raw| - 1]), raw[|raw| - 1] as int)
  }

  /** A packet without terminator makes the decoder take the body from beyond the end, which fails. */
  function Decode(raw: string): Decoded
    requires IsBytes(raw)
  {
    if |raw| < MARSHALLING_SIZE then Invalid
    else
      var scheme := Accumulated(raw[..MARSHALLING_SIZE]);
      var rest := raw[MARSHALLING_SIZE..];
      var nul := Find(rest, NUL);
      FindIsFirst(rest, NUL);
      if scheme > MARSHALLING_MAX || nul >= |rest| then Invalid
      else Packet(scheme, rest[..nul], rest[nul + 1..])
  }

  method MakeHeaderBytes(scheme: nat, identifier: string) returns (header: string)
    ensures header == MakeHeader(scheme, identifier)
  {
    header := "";
    var shift := 0x100_0000;
    for i := 0 to 4
      invariant shift == [0x100_0000, 0x1_0000, 0x100, 1, 0][i]
      invariant header == SchemeBytes(scheme)[..i]
    {
      header := header + [(scheme / shift % 256) as char];
      shift := shift / 256;
    }
    header := header + identifier + [NUL];
  }

  method DecodePacket(raw: string) returns (packet: Decoded)
    requires IsBytes(raw)
    ensures packet == Decode(raw)
  {
    if |raw| < MARSHALLING_SIZE {
      return Invalid;
    }
    var m: nat := 0;
    for i := 0 to MARSHALLING_SIZE
      invariant m < UINT32 && m == Accumulated(raw[..i])
    {
      assert raw[..i + 1][..i] == raw[..i];
      ShiftInFits(m, raw[i] as int);
      m := ShiftIn(m, raw[i] as int);
    }
    if m > MARSHALLING_MAX {
      return Invalid;
    }
    var rest := raw[MARSHALLING_SIZE..];
    var nul := Find(rest, NUL);
    FindIsFirst(rest, NUL);
    var identifier := rest[..nul];
    var headerSize := MARSHALLING_SIZE + |identifier| + 1;
    if headerSize > |raw| {
      return Invalid;
    }
    assert raw[headerSize..] == rest[nul + 1..];
    packet := Packet(m, identifier, raw[headerSize..]);
  }

  // ---- Headers ----

  /** The high bytes must all be zero: the sign extension lets nothing else through. */
  lemma HeaderAcceptedIff(raw: string)
    requires |raw| == MARSHALLING_SIZE && IsBytes(raw)
    ensures Accumulated(raw) <= MARSHALLING_MAX
       <==> raw[0] == NUL && raw[1] == NUL && raw[2] == NUL && raw[3] as int <= MARSHALLING_MAX
    ensures Accumulated(raw) <= MARSHALLING_MAX ==> Accumulated(raw) == raw[3] as int
  {
    assert raw[..3][..2] == raw[..2] && raw[..2][..1] == raw[..1] && raw[..1][..0] == "";
    var m1, m2, m3 := Accumulated(raw[..1]), Accumulated(raw[..2]), Accumulated(raw[..3]);
    assert Accumulated("") == 0 && m1 == ShiftIn(0, raw[0] as int);
    assert m2 == ShiftIn(m1, raw[1] as int);
    assert m3 == ShiftIn(m2, raw[2] as int);
    FourBytes(raw[0] as int, raw[1] as int, raw[2] as int, raw[3] as int, m1, m2, m3);
  }

  lemma FourBytes(b0: nat, b1: nat, b2: nat, b3: nat, m1: nat, m2: nat, m3: nat)
    requires b0 < 256 && b1 < 256 && b2 < 256 && b3 < 256 && m1 < UINT32 && m2 < UINT32 && m3 < UINT32
    requires m1 == ShiftIn(0, b0) && m2 == ShiftIn(m1, b1) && m3 == ShiftIn(m2, b2)
    ensures ShiftIn(m3, b3) <= MARSHALLING_MAX <==> b0 == 0 && b1 == 0 && b2 == 0 && b3 <= MARSHALLING_MAX
    ensures ShiftIn(m3, b3) <= MARSHALLING_MAX ==> ShiftIn(m3, b3) == b3
  {
    if ShiftIn(m3, b3) <= MARSHALLING_MAX {
      NothingShiftedAbove(m3, b3);
      ZeroLow24(m2, b2);
      ZeroLow16(m1, b1);
      ShiftInFits(0, b0);
    }
  }

  lemma NothingShiftedAbove(m: nat, b: nat)
    requires m < UINT32 && b < 256 && ShiftIn(m, b) <= MARSHALLING_MAX
    ensures b == ShiftIn(m, b) && m % 0x100_0000 == 0
  {
    ShiftInFits(m, b);
  }

  lemma ZeroLow24(m: nat, b: nat)
    requires m < UINT32 && b < 256 && ShiftIn(m, b) % 0x100_0000 == 0
    ensures b == 0 && m % 0x1_0000 == 0
  {
    ShiftInFits(m, b);
    var y, q := ShiftIn(m, b), m / 0x100_0000;
    var t := y / 0x100_0000;
    DivModUnique(y, 0x1_0000 * t, 0, 256);
    DivModUnique(m, 256 * q + t, 0, 0x1_0000);
  }

  lemma ZeroLow16(m: nat, b: nat)
    requires m < UINT32 && b < 256 && ShiftIn(m, b) % 0x1_0000 == 0
    ensures b == 0 && m % 0x100 == 0
  {
    ShiftInFits(m, b);
    var y, q := ShiftIn(m, b), m / 0x100_0000;
    var t := y / 0x1_0000;
    DivModUnique(y, 256 * t, 0, 256);
    DivModUnique(m, 0x1_0000 * q + t, 0, 256);
  }

  // ---- Round trip ----

  lemma SchemeRoundTrip(scheme: nat)
    requires scheme <= MARSHALLING_MAX
    ensures IsBytes(SchemeBytes(scheme)) && Accumulated(SchemeBytes(scheme)) == scheme
  {
    HeaderAcceptedIff(SchemeBytes(scheme));
  }

  lemma BytesOf(a: string, b: string)
    ensures IsBytes(a + b) <==> IsBytes(a) && IsBytes(b)
  {
    if IsBytes(a + b) {
      assert forall i | 0 <= i < |a| :: a[i] == (a + b)[i];
      assert forall i | 0 <= i < |b| :: b[i] == (a + b)[|a| + i];
    }
  }

  /** What the decoder makes of an encoded packet: everything up to the first NUL is the identifier. */
  lemma DecodeOfEncode(scheme: nat, identifier: string, body: string)
    requires scheme <= MARSHALLING_MAX && IsBytes(identifier) && IsBytes(body)
    ensures IsBytes(Encode(scheme, identifier, body))
    ensures var rest := identifier + [NUL] + body; var nul := Find(rest, NUL);
      nul < |rest| && Decode(Encode(scheme, identifier, body)) == Packet(scheme, rest[..nul], rest[nul + 1..])
  {
    var raw, rest := Encode(scheme, identifier, body), identifier + [NUL] + body;
    SchemeRoundTrip(scheme);
    BytesOf(identifier + [NUL], body);
    BytesOf(identifier, [NUL]);
    BytesOf(SchemeBytes(scheme), rest);
    assert raw == SchemeBytes(scheme) + rest;
    assert raw[..MARSHALLING_SIZE] == SchemeBytes(scheme) && raw[MARSHALLING_SIZE..] == rest;
    FindIsFirst(rest, NUL);
    assert rest[|identifier|] == NUL && NUL in rest;
  }

  /** Decoding undoes encoding exactly when the identifier has no NUL in it. */
  lemma RoundTripIff(scheme: nat, identifier: string, body: string)
    requires scheme <= MARSHALLING_MAX && IsBytes(identifier) && IsBytes(body)
    ensures IsBytes(Encode(scheme, identifier, body))
    ensures Decode(Encode(scheme, identifier, body)) == Packet(scheme, identifier, body) <==> NUL !in identifier
  {
    DecodeOfEncode(scheme, identifier, body);
    var rest := identifier + [NUL] + body;
    FindIsFirst(rest, NUL);
    if NUL !in identifier {
      assert rest[..|identifier|] == identifier && rest[|identifier| + 1..] == body;
      FirstIsFound(rest, NUL, |identifier|);
    }
  }

  lemma AcceptedFront(front: string)
    requires |front| == MARSHALLING_SIZE && IsBytes(front) && Accumulated(front) <= MARSHALLING_MAX
    ensures front == SchemeBytes(Accumulated(front))
  {
    HeaderAcceptedIff(front);
    var scheme := Accumulated(front);
    assert SchemeBytes(scheme) == [NUL, NUL, NUL, scheme as char];
  }

  /** Everything the decoder accepts is the encoding of what it returns. */
  lemma AcceptedIsEncoded(raw: string)
    requires IsBytes(raw) && Decode(raw).Packet?
    ensures var p := Decode(raw); raw == Encode(p.scheme, p.identifier, p.body) && NUL !in p.identifier
  {
    var front, rest := raw[..MARSHALLING_SIZE], raw[MARSHALLING_SIZE..];
    FindIsFirst(rest, NUL);
    AcceptedFront(front);
    FirstNulSplits(rest);
    var p := Decode(raw);
    assert raw == front + rest;
    Associates(front, p.identifier, p.body);
  }

  lemma FirstNulSplits(rest: string)
    requires NUL in rest
    ensures var nul := Find(rest, NUL);
      nul < |rest| && NUL !in rest[..nul] && rest == rest[..nul] + [NUL] + rest[nul + 1..]
  {
    FindIsFirst(rest, NUL);
    SplitAt(rest, Find(rest, NUL));
  }

  lemma Associates(front: string, identifier: string, body: string)
    ensures front + (identifier + [NUL] + body) == front + identifier + [NUL] + body
  {
  }

  // ---- Subscription filters ----

  /** A filter is a header without its terminator; the transport delivers the packets it is a prefix of. */
  function Filter(scheme: nat, identifier: string): string {
    var header := MakeHeader(scheme, identifier);
    header[..|header| - 1]
  }

  predicate Delivered(filter: string, raw: string) {
    filter <= raw
  }

  /** A packet is delivered exactly when the schemes agree and the subscribed identifier starts the packet's. */
  lemma FilterIsExact(scheme: nat, subscribed: string, scheme': nat, identifier: string, body: string)
    requires scheme <= MARSHALLING_MAX && scheme' <= MARSHALLING_MAX
    requires NUL !in subscribed
    ensures Delivered(Filter(scheme, subscribed), Encode(scheme', identifier, body))
       <==> scheme == scheme' && subscribed <= identifier
  {
    var filter, raw := Filter(scheme, subscribed), Encode(scheme', identifier, body);
    var rest := identifier + [NUL] + body;
    assert filter == SchemeBytes(scheme) + subscribed;
    assert raw == SchemeBytes(scheme') + rest;
    assert raw[MARSHALLING_SIZE..] == rest && filter[MARSHALLING_SIZE..] == subscribed;
    if filter <= raw {
      assert filter[3] == raw[3] && subscribed <= rest;
      assert rest[|identifier|] == NUL;
      assert forall i | 0 <= i < |subscribed| :: subscribed[i] == rest[i] == identifier[i];
    }
    if scheme == scheme' && subscribed <= identifier {
      assert forall i | 0 <= i < |subscribed| :: subscribed[i] == identifier[i] == rest[i];
      assert subscribed <= rest;
      assert raw[..|filter|] == filter;
    }
  }
}
