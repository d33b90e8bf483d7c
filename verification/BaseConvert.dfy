/** Conversion of digit strings between number bases, least significant digit first. */
module BaseConvert {
  import opened Arithmetic

  /** The number that a string of digits denotes. */
  function Value(s: seq<nat>, base: nat): nat {
    if s == [] then 0 else s[0] + base * Value(s[1..], base)
  }

  /** The digits of a number, without zeros at the most significant end. */
  function Digits(v: nat, base: nat): (s: seq<nat>)
    requires base >= 2
    ensures forall d | d in s :: d < base
  {
    if v == 0 then [] else
      QuotientSmaller(v, base);
      [v % base] + Digits(v / base, base)
  }

  lemma QuotientSmaller(v: nat, base: nat)
    requires v > 0 && base >= 2
    ensures 0 <= v / base < v
  {
    var q := v / base;
    assert v == q * base + v % base;
    assert q * base >= q * 2 by { MulMonotone(2, base, q); }
  }

  /** How many zeros there are at the most significant end. */
  function MsZeros(s: seq<nat>): nat {
    if s != [] && s[|s| - 1] == 0 then 1 + MsZeros(s[..|s| - 1]) else 0
  }

  function Zeros(n: nat): seq<nat> {
    seq(n, i => 0)
  }

  function Converted(source: seq<nat>, sourceBase: nat, sinkBase: nat): seq<nat>
    requires sinkBase >= 2
  {
    Digits(Value(source, sourceBase), sinkBase) + Zeros(MsZeros(source))
  }

  predicate ValidDigits(s: seq<nat>, base: nat) {
    forall d | d in s :: d < base
  }

  /** The first pass: from the most significant digit down, summing up and counting zeros. */
  method ReadNumber(source: seq<nat>, base: nat) returns (number: nat, msZeros: nat)
    ensures number == Value(source, base) && msZeros == MsZeros(source)
  {
    number, msZeros := 0, 0;
    var nonZero := false;
    var i := |source| - 1;
    assert source[..|source|] == source;
    while i >= 0
      invariant -1 <= i < |source|
      invariant number == if i >= 0 then base * Value(source[i + 1..], base) else Value(source, base)
      invariant nonZero ==> msZeros == MsZeros(source)
      invariant !nonZero ==> msZeros + MsZeros(source[..i + 1]) == MsZeros(source)
    {
      var byte := source[i];
      assert source[..i + 1][..i] == source[..i];
      number := number + byte;
      assert number == Value(source[i..], base) by {
        assert source[i..][0] == byte && source[i..][1..] == source[i + 1..];
      }
      if i > 0 {
        number := base * number;
      } else {
        assert source[i..] == source;
      }
      if byte == 0 && !nonZero {
        msZeros := msZeros + 1;
      } else {
        nonZero := true;
      }
      i := i - 1;
    }
  }

  /** The conversion: read the number, write its remainders, put the zeros back. */
  method Convert(source: seq<nat>, sourceBase: nat, sinkBase: nat) returns (sink: seq<nat>)
    requires 2 <= sourceBase <= 256 && 2 <= sinkBase <= 256
    ensures sink == Converted(source, sourceBase, sinkBase)
  {
    var number: nat, msZeros: nat := ReadNumber(source, sourceBase);
    sink := [];
    ghost var v := number;
    while number != 0
      invariant sink + Digits(number, sinkBase) == Digits(v, sinkBase)
      decreases number
    {
      QuotientSmaller(number, sinkBase);
      var quotient, remainder := number / sinkBase, number % sinkBase;
      assert sink + ([remainder] + Digits(quotient, sinkBase)) == (sink + [remainder]) + Digits(quotient, sinkBase);
      sink, number := sink + [remainder], quotient;
    }
    for k := 0 to msZeros
      invariant sink == Digits(v, sinkBase) + Zeros(k)
    {
      sink := sink + [0];
    }
  }

  // ---- What the digits denote ----

  lemma {:induction false} DigitsDenote(v: nat, base: nat)
    requires base >= 2
    ensures Value(Digits(v, base), base) == v
  {
    if v > 0 {
      QuotientSmaller(v, base);
      DigitsDenote(v / base, base);
      assert Digits(v, base)[1..] == Digits(v / base, base);
    }
  }

  lemma {:induction false} ZerosDenoteNothing(s: seq<nat>, n: nat, base: nat)
    ensures Value(s + Zeros(n), base) == Value(s, base)
    decreases |s| + n
  {
    if s != [] {
      assert (s + Zeros(n))[1..] == s[1..] + Zeros(n);
      ZerosDenoteNothing(s[1..], n, base);
    } else if n > 0 {
      assert (s + Zeros(n))[1..] == s + Zeros(n - 1);
      ZerosDenoteNothing(s, n - 1, base);
    } else {
      assert s + Zeros(n) == s;
    }
  }

  lemma {:induction false} DigitsEndNonZero(v: nat, base: nat)
    requires base >= 2 && v > 0
    ensures Digits(v, base) != [] && Digits(v, base)[|Digits(v, base)| - 1] != 0
  {
    QuotientSmaller(v, base);
    if v / base > 0 {
      DigitsEndNonZero(v / base, base);
    }
  }

  /** The zeros added at the end are exactly the zeros found there again. */
  lemma {:induction false} ZerosFound(v: nat, base: nat, n: nat)
    requires base >= 2
    ensures MsZeros(Digits(v, base) + Zeros(n)) == n
    decreases n
  {
    var s := Digits(v, base) + Zeros(n);
    if n > 0 {
      assert s[..|s| - 1] == Digits(v, base) + Zeros(n - 1);
      ZerosFound(v, base, n - 1);
    } else {
      assert s == Digits(v, base);
      if v > 0 {
        DigitsEndNonZero(v, base);
      }
    }
  }

  /** The converted string denotes the same number in valid digits, with the same zeros in front. */
  lemma ConvertedDenotesTheSame(source: seq<nat>, sourceBase: nat, sinkBase: nat)
    requires sinkBase >= 2
    ensures Value(Converted(source, sourceBase, sinkBase), sinkBase) == Value(source, sourceBase)
    ensures MsZeros(Converted(source, sourceBase, sinkBase)) == MsZeros(source)
    ensures ValidDigits(Converted(source, sourceBase, sinkBase), sinkBase)
  {
    var v := Value(source, sourceBase);
    DigitsDenote(v, sinkBase);
    ZerosDenoteNothing(Digits(v, sinkBase), MsZeros(source), sinkBase);
    ZerosFound(v, sinkBase, MsZeros(source));
  }

  // ---- Round trip ----

  /** A valid string is the digits of its number and its zeros. */
  lemma {:induction false} ValidIsCanonical(s: seq<nat>, base: nat)
    requires base >= 2 && ValidDigits(s, base)
    ensures s == Digits(Value(s, base), base) + Zeros(MsZeros(s))
    decreases |s|
  {
    if s != [] {
      var t := s[1..];
      assert s[0] in s && forall d | d in t :: d in s;
      ValidIsCanonical(t, base);
      var v, w := Value(s, base), Value(t, base);
      DivModUnique(v, w, s[0], base);
      TailZeros(s);
      if v == 0 {
        assert w == 0 by { if w > 0 { MulMonotone(1, w, base); } }
        assert t == Zeros(MsZeros(t));
        assert s == Zeros(MsZeros(s));
      } else {
        assert Digits(v, base) == [s[0]] + Digits(w, base);
        if MsZeros(t) == |t| {
          assert Digits(w, base) == [];
        }
      }
    }
  }

  lemma {:induction false} TailZeros(s: seq<nat>)
    requires s != []
    ensures MsZeros(s[1..]) <= |s| - 1
    ensures MsZeros(s) == if MsZeros(s[1..]) == |s| - 1 && s[0] == 0 then |s| else MsZeros(s[1..])
    decreases |s|
  {
    if |s| > 1 && s[|s| - 1] == 0 {
      assert s[..|s| - 1][1..] == s[1..][..|s| - 2];
      TailZeros(s[..|s| - 1]);
    }
  }

  /** Converting there and back gives the string again, leading zeros and all, exactly when its digits are valid. */
  lemma RoundTripIff(s: seq<nat>, a: nat, b: nat)
    requires a >= 2 && b >= 2
    ensures Converted(Converted(s, a, b), b, a) == s <==> ValidDigits(s, a)
  {
    ConvertedDenotesTheSame(s, a, b);
    ConvertedDenotesTheSame(Converted(s, a, b), b, a);
    if ValidDigits(s, a) {
      ValidIsCanonical(s, a);
    }
  }

  // ---- Length ----

  function Power(base: nat, n: nat): nat {
    if n == 0 then 1 else base * Power(base, n - 1)
  }

  lemma {:induction false} ValueBound(s: seq<nat>, base: nat)
    requires ValidDigits(s, base)
    ensures Value(s, base) < Power(base, |s|)
  {
    if s != [] {
      assert s[0] in s && forall d | d in s[1..] :: d in s;
      ValueBound(s[1..], base);
      DigitInFront(s[0], Value(s[1..], base), Power(base, |s| - 1), base);
    }
  }

  lemma DigitInFront(d: nat, v: nat, p: nat, base: nat)
    requires d < base && v < p
    ensures d + base * v < base * p
  {
    MulMonotone(v + 1, p, base);
    assert (v + 1) * base == base * v + base;
  }

  lemma {:induction false} DigitsBound(v: nat, base: nat, m: nat)
    requires base >= 2 && v < Power(base, m)
    ensures |Digits(v, base)| <= m
    decreases m
  {
    if v > 0 {
      assert m > 0;
      QuotientSmaller(v, base);
      assert v / base < Power(base, m - 1) by {
        if v / base >= Power(base, m - 1) {
          MulMonotone(Power(base, m - 1), v / base, base);
        }
      }
      DigitsBound(v / base, base, m - 1);
    }
  }

  /** An n-digit source needs at most m digits, besides its zeros, whenever a^n <= b^m. */
  lemma ConvertedLength(s: seq<nat>, a: nat, b: nat, m: nat)
    requires b >= 2 && ValidDigits(s, a) && Power(a, |s|) <= Power(b, m)
    ensures |Converted(s, a, b)| - MsZeros(s) <= m
  {
    ValueBound(s, a);
    DigitsBound(Value(s, a), b, m);
  }
}
