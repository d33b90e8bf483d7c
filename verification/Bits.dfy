/** Machine words as bits, least significant first, and the numbers they stand for. */
module Bits {

  function PowerOfTwo(n: nat): nat {
    if n == 0 then 1 else 2 * PowerOfTwo(n - 1)
  }

  function Number(bits: seq<bool>): nat {
    if bits == [] then 0 else (if bits[0] then 1 else 0) + 2 * Number(bits[1..])
  }

  function Zeros(n: nat): seq<bool> {
    seq(n, i => false)
  }

  /** Shifting left drops as many bits at the top as come in at the bottom. */
  function ShiftLeft(bits: seq<bool>, n: nat): (r: seq<bool>)
    requires n <= |bits|
    ensures |r| == |bits|
  {
    Zeros(n) + bits[..|bits| - n]
  }

  /** A signed number widened: the sign bit reaches all higher bits. */
  function SignExtend(bits: seq<bool>, size: nat): (r: seq<bool>)
    requires 0 < |bits| <= size
    ensures |r| == size
  {
    bits + seq(size - |bits|, i => bits[|bits| - 1])
  }

  function Xor(a: seq<bool>, b: seq<bool>): (r: seq<bool>)
    requires |a| == |b|
    ensures |r| == |a|
  {
    seq(|a|, i requires 0 <= i < |a| => a[i] != b[i])
  }

  function Not(bits: seq<bool>): seq<bool> {
    seq(|bits|, i requires 0 <= i < |bits| => !bits[i])
  }

  lemma {:induction false} NumberOfConcat(a: seq<bool>, b: seq<bool>)
    ensures Number(a + b) == Number(a) + PowerOfTwo(|a|) * Number(b)
    decreases |a|
  {
    if a == [] {
      assert a + b == b;
    } else {
      assert (a + b)[1..] == a[1..] + b && (a + b)[0] == a[0];
      NumberOfConcat(a[1..], b);
      Doubled(PowerOfTwo(|a| - 1), Number(b));
    }
  }

  lemma Doubled(p: nat, n: nat)
    ensures 2 * (p * n) == (2 * p) * n
  {
  }

  lemma {:induction false} NumberBound(bits: seq<bool>)
    ensures Number(bits) < PowerOfTwo(|bits|)
    decreases |bits|
  {
    if bits != [] {
      NumberBound(bits[1..]);
    }
  }

  lemma {:induction false} NumberOfNot(bits: seq<bool>)
    ensures Number(Not(bits)) == PowerOfTwo(|bits|) - 1 - Number(bits)
    decreases |bits|
  {
    if bits != [] {
      assert Not(bits)[1..] == Not(bits[1..]) && Not(bits)[0] == !bits[0];
      NumberOfNot(bits[1..]);
    }
  }

  lemma Powers()
    ensures PowerOfTwo(7) == 128 && PowerOfTwo(8) == 256
    ensures PowerOfTwo(24) == 0x100_0000 && PowerOfTwo(32) == 0x1_0000_0000
  {
    assert PowerOfTwo(4) == 16 && PowerOfTwo(7) == 128 && PowerOfTwo(8) == 256;
    assert PowerOfTwo(12) == 4096 && PowerOfTwo(16) == 65536;
    assert PowerOfTwo(20) == 0x10_0000 && PowerOfTwo(24) == 0x100_0000;
    assert PowerOfTwo(28) == 0x1000_0000 && PowerOfTwo(32) == 0x1_0000_0000;
  }

  /** The sign bit of a byte says whether its number is at least 128. */
  lemma SignOfByte(byte: seq<bool>)
    requires |byte| == 8
    ensures Number(byte) < 256 && (byte[7] <==> Number(byte) >= 128)
  {
    Powers();
    NumberBound(byte);
    NumberBound(byte[..7]);
    NumberOfConcat(byte[..7], byte[7..]);
    assert byte == byte[..7] + byte[7..] && byte[7..] == [byte[7]] && [byte[7]][1..] == [];
    assert Number(byte[7..]) == if byte[7] then 1 else 0;
  }
}
