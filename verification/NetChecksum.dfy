/** The Internet checksum (section 1 of RFC 1071, section 3.1 of RFC 791). */
module NetChecksum {
  import opened Arithmetic
  import opened Basics

  /** The data as 16-bit words, high byte first; a last single byte is a high byte. */
  function Words(data: seq<byte>): (words: seq<nat>)
    ensures |words| == (|data| + 1) / 2
    ensures forall w | w in words :: w < 65536
  {
    if data == [] then []
    else if |data| == 1 then [Pair(data[0], 0)]
    else [Pair(data[0], data[1])] + Words(data[2..])
  }

  function Sum(words: seq<nat>): nat {
    if words == [] then 0 else words[0] + Sum(words[1..])
  }

  /** Adding the carries back in until sixteen bits are left. */
  function Fold(x: nat): (r: nat)
    ensures r < 65536
  {
    if x < 65536 then x else Fold(x % 65536 + x / 65536)
  }

  function Checksum(data: seq<byte>): nat {
    65535 - Fold(Sum(Words(data)) % UINT32)
  }

  /** The two loops, on a 32-bit accumulator that wraps around. */
  method NetChecksum(data: seq<byte>) returns (checksum: nat)
    ensures checksum == Checksum(data) < 65536
  {
    var sum, p, len := 0, 0, |data|;
    ghost var total: nat := 0;
    while len > 1
      invariant 0 <= len && p + len == |data|
      invariant total + Sum(Words(data[p..])) == Sum(Words(data)) && sum == total % UINT32
    {
      var word := Pair(data[p], data[p + 1]);
      assert data[p..][2..] == data[p + 2..];
      assert Words(data[p..])[0] == word && Words(data[p..])[1..] == Words(data[p + 2..]);
      AddWrapped(total, word);
      sum, total := (sum + word) % UINT32, total + word;
      p, len := p + 2, len - 2;
    }
    if len == 1 {
      var word := Pair(data[p], 0);
      assert Words(data[p..]) == [word] && Sum([word]) == word;
      AddWrapped(total, word);
      sum, total := (sum + word) % UINT32, total + word;
    } else {
      assert data[p..] == [];
    }
    sum := FoldCarries(sum);
    checksum := 65535 - sum;
  }

  method FoldCarries(x: nat) returns (sum: nat)
    ensures sum == Fold(x)
  {
    sum := x;
    while sum >= 65536
      invariant Fold(sum) == Fold(x)
    {
      sum := sum % 65536 + sum / 65536;
    }
  }

  lemma AddWrapped(total: nat, word: nat)
    ensures (total % UINT32 + word) % UINT32 == (total + word) % UINT32
  {
    var x := total + word;
    DivModUnique(total % UINT32 + word, x / UINT32 - total / UINT32, x % UINT32, UINT32);
  }

  // ---- Folding ----

  /** Folding keeps the sum modulo 65535 and yields zero only for zero. */
  lemma {:induction false} FoldKeepsResidue(x: nat)
    ensures Fold(x) % 65535 == x % 65535
    ensures Fold(x) == 0 <==> x == 0
    decreases x
  {
    if x >= 65536 {
      var y := x % 65536 + x / 65536;
      FoldKeepsResidue(y);
      assert x == y + (x / 65536) * 65535;
      DivModUnique(x, y / 65535 + x / 65536, y % 65535, 65535);
    }
  }

  /** The complement of the folded sum cancels the sum, and only for zero is the result not 65535. */
  lemma FoldedComplement(x: nat)
    ensures (x + 65535 - Fold(x)) % 65535 == 0
    ensures Fold(x) == 65535 <==> x > 0 && x % 65535 == 0
  {
    FoldKeepsResidue(x);
    var f := Fold(x);
    DivModUnique(x + 65535 - f, x / 65535 + 1 - f / 65535, 0, 65535);
    if f < 65535 {
      DivModUnique(f, 0, f, 65535);
    }
  }

  /** Data verifies exactly when its words add up to a positive multiple of 65535. */
  lemma VerifiesIff(data: seq<byte>)
    requires |data| <= 131074
    ensures Checksum(data) == 0 <==> Sum(Words(data)) > 0 && Sum(Words(data)) % 65535 == 0
  {
    SumFits(data);
    NoWrap(Sum(Words(data)));
    FoldedComplement(Sum(Words(data)));
  }

  lemma NoWrap(x: nat)
    requires x < UINT32
    ensures x % UINT32 == x
  {
  }

  // ---- Overflow ----

  lemma {:induction false} SumBound(words: seq<nat>, bound: nat)
    requires forall w | w in words :: w <= bound
    ensures Sum(words) <= |words| * bound
  {
    if words != [] {
      assert words[0] in words && forall w | w in words[1..] :: w in words;
      SumBound(words[1..], bound);
      assert |words| * bound == bound + (|words| - 1) * bound;
    }
  }

  lemma SumFits(data: seq<byte>)
    requires |data| <= 131074
    ensures Sum(Words(data)) < UINT32
  {
    SumBound(Words(data), 65535);
    MulMonotone(|Words(data)|, 65537, 65535);
  }

  function Ones(n: nat): seq<byte> {
    seq(n, i => 255)
  }

  lemma {:induction false} OnesSum(n: nat)
    ensures Sum(Words(Ones(n))) == n / 2 * 65535 + (if n % 2 == 1 then 65280 else 0)
    decreases n
  {
    if n == 1 {
      assert Words(Ones(1)) == [65280] && [65280][1..] == [];
    } else if n > 1 {
      OnesSum(n - 2);
      assert Ones(n)[2..] == Ones(n - 2);
      assert Words(Ones(n))[1..] == Words(Ones(n - 2)) && Words(Ones(n))[0] == 65535;
    }
  }

  /** The accumulator cannot overflow exactly up to 131074 bytes. */
  lemma AccumulatorSufficesIff(n: nat)
    ensures (forall data: seq<byte> | |data| == n :: Sum(Words(data)) < UINT32) <==> n <= 131074
  {
    if n <= 131074 {
      forall data: seq<byte> | |data| == n
        ensures Sum(Words(data)) < UINT32
      {
        SumFits(data);
      }
    } else {
      OnesSum(n);
      MulMonotone(65537, n / 2, 65535);
      assert |Ones(n)| == n && Sum(Words(Ones(n))) >= UINT32;
    }
  }

  // ---- Placing the checksum ----

  function Place(data: seq<byte>, k: nat, checksum: nat): seq<byte>
    requires k + 1 < |data| && checksum < 65536
  {
    data[k := checksum / 256][k + 1 := checksum % 256]
  }

  lemma {:induction false} PlacingAdds(data: seq<byte>, k: nat, checksum: nat)
    requires k % 2 == 0 && k + 1 < |data| && checksum < 65536 && data[k] == 0 && data[k + 1] == 0
    ensures Sum(Words(Place(data, k, checksum))) == Sum(Words(data)) + checksum
    decreases k
  {
    var placed := Place(data, k, checksum);
    if k == 0 {
      assert placed[2..] == data[2..];
      assert Words(placed)[1..] == Words(data)[1..];
    } else {
      assert placed[2..] == Place(data[2..], k - 2, checksum);
      PlacingAdds(data[2..], k - 2, checksum);
      assert Words(placed)[1..] == Words(placed[2..]) && Words(data)[1..] == Words(data[2..]);
      assert Words(placed)[0] == Words(data)[0];
    }
  }

  /** Data with the checksum in its zeroed 16-bit field verifies. */
  lemma ChecksummedDataVerifies(data: seq<byte>, k: nat)
    requires |data| <= 131074 && k % 2 == 0 && k + 1 < |data| && data[k] == 0 && data[k + 1] == 0
    ensures Checksum(Place(data, k, Checksum(data))) == 0
  {
    var c, s := Checksum(data), Sum(Words(data));
    PlacingAdds(data, k, c);
    SumFits(data);
    NoWrap(s);
    FoldedComplement(s);
    FoldKeepsResidue(s);
    VerifiesIff(Place(data, k, c));
  }

  // ---- Word order ----

  lemma MultisetWithout(b: seq<nat>, i: nat)
    requires i < |b|
    ensures multiset(b[..i] + b[i + 1..]) == multiset(b) - multiset{b[i]}
  {
    assert b == b[..i] + [b[i]] + b[i + 1..];
    assert multiset(b) == multiset(b[..i]) + multiset{b[i]} + multiset(b[i + 1..]);
  }

  lemma MultisetOfTail(a: seq<nat>)
    requires a != []
    ensures multiset(a[1..]) == multiset(a) - multiset{a[0]}
  {
    MultisetWithout(a, 0);
    assert a[..0] + a[1..] == a[1..];
  }

  lemma SameElement(x: nat, a: seq<nat>, b: seq<nat>)
    requires x in a && multiset(a) == multiset(b)
    ensures x in b
  {
    assert x in multiset(b);
  }

  lemma TakeOut(b: seq<nat>, x: nat) returns (rest: seq<nat>)
    requires x in b
    ensures Sum(b) == x + Sum(rest) && multiset(rest) == multiset(b) - multiset{x}
  {
    var i :| 0 <= i < |b| && b[i] == x;
    rest := b[..i] + b[i + 1..];
    MultisetWithout(b, i);
    var tail := [x] + b[i + 1..];
    assert b == b[..i] + tail && tail[1..] == b[i + 1..];
    SumConcat(b[..i], tail);
    SumConcat(b[..i], b[i + 1..]);
  }

  lemma {:induction false} SumOfPermutation(a: seq<nat>, b: seq<nat>)
    requires multiset(a) == multiset(b)
    ensures Sum(a) == Sum(b)
    decreases |a|
  {
    if a != [] {
      SameElement(a[0], a, b);
      var rest := TakeOut(b, a[0]);
      MultisetOfTail(a);
      SumOfPermutation(a[1..], rest);
    }
  }

  lemma {:induction false} SumConcat(a: seq<nat>, b: seq<nat>)
    ensures Sum(a + b) == Sum(a) + Sum(b)
  {
    if a == [] {
      assert a + b == b;
    } else {
      assert (a + b)[1..] == a[1..] + b;
      SumConcat(a[1..], b);
    }
  }

  /** A last single byte counts as if a zero byte followed it. */
  lemma {:induction false} OddIsPadded(data: seq<byte>)
    requires |data| % 2 == 1
    ensures Words(data + [0]) == Words(data) && Checksum(data + [0]) == Checksum(data)
    decreases |data|
  {
    if |data| == 1 {
      assert data + [0] == [data[0], 0] && (data + [0])[2..] == [];
    } else {
      assert (data + [0])[2..] == data[2..] + [0];
      OddIsPadded(data[2..]);
    }
  }

  /** The checksum does not depend on the order of the words. */
  lemma OrderDoesNotMatter(a: seq<byte>, b: seq<byte>)
    requires multiset(Words(a)) == multiset(Words(b))
    ensures Checksum(a) == Checksum(b)
  {
    SumOfPermutation(Words(a), Words(b));
  }
}
