/** The string operations the sources take from the C++ and Boost libraries. */
module Text {

  predicate IsSpace(c: char) {
    c == ' ' || '\t' <= c <= '\r'
  }

  function TrimLeft(s: string): string {
    if s != "" && IsSpace(s[0]) then TrimLeft(s[1..]) else s
  }

  function TrimRight(s: string): string {
    if s != "" && IsSpace(s[|s| - 1]) then TrimRight(s[..|s| - 1]) else s
  }

  function Trim(s: string): string {
    TrimLeft(TrimRight(s))
  }

  predicate Contains(s: string, t: string) {
    t <= s || (s != "" && Contains(s[1..], t))
  }

  /** Splits at every separator; there is always one more field than separators. */
  function Split(s: string, separators: set<char>): (fields: seq<string>)
    ensures |fields| > 0
  {
    if s == "" then [""]
    else
      var rest := Split(s[1..], separators);
      if s[0] in separators then [""] + rest else [[s[0]] + rest[0]] + rest[1..]
  }

  predicate IsDigit(c: char) {
    '0' <= c <= '9'
  }

  function DigitsValue(s: string): nat
    requires forall c | c in s :: IsDigit(c)
  {
    if s == "" then 0
    else
      assert IsDigit(s[|s| - 1]);
      10 * DigitsValue(s[..|s| - 1]) + (s[|s| - 1] as int - '0' as int)
  }

  const INT_MAX := 0x7FFF_FFFF

  /** A cast from string to int; text that is not an int in range gives the largest int. */
  function AsInt(s: string): int {
    var negative := s != "" && s[0] == '-';
    var digits := if s != "" && (s[0] == '-' || s[0] == '+') then s[1..] else s;
    if digits == "" || exists c | c in digits :: !IsDigit(c) then INT_MAX
    else
      var v: int := if negative then -(DigitsValue(digits) as int) else DigitsValue(digits);
      if -INT_MAX - 1 <= v <= INT_MAX then v else INT_MAX
  }

  /** Decimal notation. */
  function Decimal(n: nat): (s: string)
    ensures s != "" && forall c | c in s :: IsDigit(c)
  {
    var digit := ('0' as int + n % 10) as char;
    if n < 10 then [digit] else Decimal(n / 10) + [digit]
  }

  lemma {:induction false} DecimalDenotes(n: nat)
    ensures DigitsValue(Decimal(n)) == n
  {
    var s := Decimal(n);
    if n >= 10 {
      DecimalDenotes(n / 10);
      assert s[..|s| - 1] == Decimal(n / 10);
    } else {
      assert s[..|s| - 1] == "";
    }
  }

  /** The index of the first occurrence, or the length. */
  function Find(s: string, c: char): nat {
    if s == "" || s[0] == c then 0 else 1 + Find(s[1..], c)
  }

  lemma {:induction false} FindIsFirst(s: string, c: char)
    ensures Find(s, c) <= |s| && c !in s[..Find(s, c)]
    ensures Find(s, c) < |s| <==> c in s
    ensures c in s ==> s[Find(s, c)] == c
  {
    if s != "" && s[0] != c {
      FindIsFirst(s[1..], c);
      var n := Find(s[1..], c);
      assert s[..1 + n] == [s[0]] + s[1..][..n];
      assert s == [s[0]] + s[1..];
    }
  }

  lemma FirstIsFound(s: string, c: char, n: nat)
    requires n < |s| && s[n] == c && c !in s[..n]
    ensures Find(s, c) == n
  {
    FindIsFirst(s, c);
  }

  lemma SplitAt(s: string, n: nat)
    requires n < |s|
    ensures s == s[..n] + [s[n]] + s[n + 1..]
  {
  }

  // ---- Fields and numbers ----

  /** Up to a separator there is one field. */
  lemma {:induction false} SplitFirst(a: string, c: char, b: string, separators: set<char>)
    requires c in separators && forall x | x in a :: x !in separators
    ensures Split(a + [c] + b, separators) == [a] + Split(b, separators)
    decreases |a|
  {
    var t := a + [c] + b;
    if a == "" {
      assert t[1..] == b;
    } else {
      assert t[1..] == a[1..] + [c] + b && t[0] == a[0] && a[0] in a;
      assert forall x | x in a[1..] :: x in a;
      SplitFirst(a[1..], c, b, separators);
      assert ([a[1..]] + Split(b, separators))[1..] == Split(b, separators);
      assert [a[0]] + a[1..] == a;
    }
  }

  /** Without separators there is only one. */
  lemma {:induction false} SplitNone(s: string, separators: set<char>)
    requires forall x | x in s :: x !in separators
    ensures Split(s, separators) == [s]
    decreases |s|
  {
    if s != "" {
      assert s[0] in s && forall x | x in s[1..] :: x in s;
      SplitNone(s[1..], separators);
      assert [s[0]] + s[1..] == s;
    }
  }

  predicate IsBlank(s: string) {
    forall c | c in s :: c == ' '
  }

  /** Blanks before a number do not count. */
  lemma {:induction false} TrimNumber(blanks: string, digits: string)
    requires IsBlank(blanks) && digits != "" && forall c | c in digits :: IsDigit(c)
    ensures Trim(blanks + digits) == digits
    decreases |blanks|
  {
    var s := blanks + digits;
    assert s[|s| - 1] == digits[|digits| - 1] && digits[|digits| - 1] in digits;
    assert TrimRight(s) == s;
    TrimBlanks(blanks, digits);
  }

  lemma {:induction false} TrimBlanks(blanks: string, digits: string)
    requires IsBlank(blanks) && digits != "" && forall c | c in digits :: IsDigit(c)
    ensures TrimLeft(blanks + digits) == digits
    decreases |blanks|
  {
    if blanks == "" {
      assert blanks + digits == digits && digits[0] in digits;
    } else {
      assert (blanks + digits)[1..] == blanks[1..] + digits && blanks[0] in blanks;
      assert forall c | c in blanks[1..] :: c in blanks;
      TrimBlanks(blanks[1..], digits);
    }
  }

  /** The cast undoes decimal notation, as far as an int reaches. */
  lemma AsIntOfDecimal(n: nat)
    ensures AsInt(Decimal(n)) == if n <= INT_MAX then n else INT_MAX
  {
    var s := Decimal(n);
    DecimalDenotes(n);
    assert s[0] in s && IsDigit(s[0]);
  }
}
