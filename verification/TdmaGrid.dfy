/**
 The slot grid that every node of a TDMA cycle shares. A slot is named by a pair (k, i): the
 i-th slot of the k-th cycle after the reference. All times are whole microseconds.
 */
module TdmaGrid {
  import opened Arithmetic

  const MICROSECONDS_PER_DAY: int := 86_400_000_000

  datatype Slot = Slot(src: int, length: nat, alwaysInitiate: bool, slotIndex: int)

  /** Sum of the lengths of the slots before slot i. */
  function Offset(slots: seq<Slot>, i: nat): (sum: nat)
    requires i <= |slots|
  {
    if i == 0 then 0 else Offset(slots, i - 1) + slots[i - 1].length
  }

  function Cycle(slots: seq<Slot>): nat {
    Offset(slots, |slots|)
  }

  function Boundary(reference: int, slots: seq<Slot>, k: int, i: nat): int
    requires i <= |slots|
  {
    reference + k * Cycle(slots) + Offset(slots, i)
  }

  /** True iff slot (k, i) comes strictly before slot (l, j) on the grid. */
  predicate Before(k: int, i: nat, l: int, j: nat) {
    k < l || (k == l && i < j)
  }

  /** The moment t is the start of slot i of some cycle. */
  ghost predicate OnGrid(reference: int, slots: seq<Slot>, i: nat, t: int) {
    i < |slots| && exists k: int :: t == Boundary(reference, slots, k, i)
  }

  lemma {:induction false} OffsetMonotone(slots: seq<Slot>, i: nat, j: nat)
    requires i <= j <= |slots|
    ensures Offset(slots, i) <= Offset(slots, j)
    decreases j - i
  {
    if i < j {
      OffsetMonotone(slots, i, j - 1);
    }
  }

  /** A slot ends no later than any slot after it begins: the grid has no overlaps. */
  lemma BoundariesInOrder(reference: int, slots: seq<Slot>, k: int, i: nat, l: int, j: nat)
    requires i < |slots| && j < |slots|
    requires Before(k, i, l, j)
    ensures Boundary(reference, slots, k, i) + slots[i].length <= Boundary(reference, slots, l, j)
  {
    assert Offset(slots, i) + slots[i].length == Offset(slots, i + 1);
    if k == l {
      OffsetMonotone(slots, i + 1, j);
    } else {
      OffsetMonotone(slots, i + 1, |slots|);
      LaterCycle(k, l, Cycle(slots));
    }
  }

  lemma LaterCycle(k: int, l: int, c: nat)
    requires k < l
    ensures k * c + c <= l * c
  {
    MulMonotone(k + 1, l, c);
    assert (k + 1) * c == k * c + c;
  }

  predicate Disjoint(t: int, length: nat, u: int, length': nat) {
    t + length <= u || u + length' <= t || length == 0 || length' == 0
  }

  /** Two intervals stay disjoint when the second is moved by any number of whole periods. */
  predicate DisjointModulo(x: int, length: nat, y: int, length': nat, period: nat) {
    length == 0 || length' == 0 || (
      period > 0 && var o := (y - x) % period; length <= o && o + length' <= period)
  }

  function Periods(m: int, period: nat): int {
    m * period
  }

  /** The offset of the second interval behind the first, and how many periods take it there. */
  lemma OffsetModulo(x: int, y: int, period: nat, m: int)
    requires period > 0
    ensures var q, o := (y - x) / period, (y - x) % period;
      0 <= o < period && y + Periods(m, period) - x == Periods(q + m, period) + o
  {
    var q := (y - x) / period;
    assert (q + m) * period == q * period + m * period;
  }

  lemma PeriodsBetween(m: int, n: int, period: nat)
    ensures Periods(n - m, period) == Periods(n, period) - Periods(m, period)
  {
    assert (n - m) * period == n * period - m * period;
  }

  /** Two intervals within one period, one after the other. */
  lemma EarlierModulo(x: nat, length: nat, y: nat, length': nat, period: nat)
    requires x + length <= y && y + length' <= period
    ensures DisjointModulo(x, length, y, length', period) && DisjointModulo(y, length', x, length, period)
  {
    if length != 0 && length' != 0 {
      DivModUnique(y - x, 0, y - x, period);
      DivModUnique(x - y, -1, x - y + period, period);
    }
  }

  lemma ModuloMeansDisjoint(x: int, length: nat, y: int, length': nat, period: nat, m: int)
    requires DisjointModulo(x, length, y, length', period)
    ensures Disjoint(x, length, y + Periods(m, period), length')
  {
    if length != 0 && length' != 0 {
      OffsetModulo(x, y, period, m);
      var n := (y - x) / period + m;
      if n >= 0 {
        MulMonotone(0, n, period);
      } else {
        MulMonotone(n, -1, period);
      }
    }
  }

  /** Otherwise some number of periods makes them overlap. */
  lemma OverlapSomewhere(x: int, length: nat, y: int, length': nat, period: nat) returns (m: int)
    requires period > 0 && !DisjointModulo(x, length, y, length', period)
    ensures !Disjoint(x, length, y + Periods(m, period), length')
  {
    var q, o := (y - x) / period, (y - x) % period;
    m := if o < length then -q else -q - 1;
    OffsetModulo(x, y, period, m);
    assert o < length ==> q + m == 0;
    assert o >= length ==> q + m == -1;
  }

  lemma DistinctSlotsDisjoint(reference: int, slots: seq<Slot>, i: nat, t: int, j: nat, u: int)
    requires OnGrid(reference, slots, i, t) && OnGrid(reference, slots, j, u)
    requires i != j
    ensures Disjoint(t, slots[i].length, u, slots[j].length)
  {
    var k: int :| t == Boundary(reference, slots, k, i);
    var l: int :| u == Boundary(reference, slots, l, j);
    if Before(k, i, l, j) {
      BoundariesInOrder(reference, slots, k, i, l, j);
    } else {
      BoundariesInOrder(reference, slots, l, j, k, i);
    }
  }

  /** References that differ by whole cycles give the same grid. */
  lemma SameGrid(reference: int, reference': int, slots: seq<Slot>, m: int, i: nat, t: int)
    requires reference' == reference + m * Cycle(slots)
    requires OnGrid(reference', slots, i, t)
    ensures OnGrid(reference, slots, i, t)
  {
    var k: int :| t == Boundary(reference', slots, k, i);
    assert (k + m) * Cycle(slots) == k * Cycle(slots) + m * Cycle(slots);
    assert t == Boundary(reference, slots, k + m, i);
  }

  /** The slot after (k, i) starts where (k, i) ends. */
  lemma NextBoundary(reference: int, slots: seq<Slot>, k: int, i: nat)
    requires i < |slots|
    ensures Boundary(reference, slots, k, i) + slots[i].length
         == if i + 1 < |slots| then Boundary(reference, slots, k, i + 1)
            else Boundary(reference, slots, k + 1, 0)
  {
    assert (k + 1) * Cycle(slots) == k * Cycle(slots) + Cycle(slots);
  }

  /**
   Walks slot by slot from slot i at time t to the first slot not before now. With a positive
   cycle this ends even when single slots have length zero.
   */
  function FirstNotBefore(slots: seq<Slot>, i: nat, t: int, now: int): (r: (nat, int))
    requires i < |slots| && Cycle(slots) > 0
    ensures r.0 < |slots| && r.1 >= now && r.1 >= t
    decreases now - (t - Offset(slots, i)), |slots| - i
  {
    if t >= now then
      (i, t)
    else if i + 1 < |slots| then
      FirstNotBefore(slots, i + 1, t + slots[i].length, now)
    else
      FirstNotBefore(slots, 0, t + slots[i].length, now)
  }

  /** The walk stays on the grid and stops at the first boundary, in slot order, not before now. */
  lemma {:induction false} FirstNotBeforeIsEarliest(reference: int, slots: seq<Slot>, k: int, i: nat, now: int)
    returns (l: int)
    requires i < |slots| && Cycle(slots) > 0
    ensures var r := FirstNotBefore(slots, i, Boundary(reference, slots, k, i), now);
      && r.1 == Boundary(reference, slots, l, r.0)
      && !Before(l, r.0, k, i)
      && forall m: int, j: nat | j < |slots| && !Before(m, j, k, i) && Before(m, j, l, r.0) ::
           Boundary(reference, slots, m, j) < now
    decreases now - (Boundary(reference, slots, k, i) - Offset(slots, i)), |slots| - i
  {
    NextBoundary(reference, slots, k, i);
    if Boundary(reference, slots, k, i) >= now {
      l := k;
    } else if i + 1 < |slots| {
      l := FirstNotBeforeIsEarliest(reference, slots, k, i + 1, now);
    } else {
      l := FirstNotBeforeIsEarliest(reference, slots, k + 1, 0, now);
    }
  }

  /** Every slot fits into the cycle, from its offset on. */
  lemma SlotInCycle(slots: seq<Slot>, i: nat)
    requires i < |slots|
    ensures Offset(slots, i) + slots[i].length <= Cycle(slots)
  {
    OffsetMonotone(slots, i + 1, |slots|);
  }

  /** Different slots of a list stay disjoint modulo the cycle. */
  lemma {:induction false} DistinctSlotsModulo(slots: seq<Slot>, i: nat, j: nat)
    requires i < |slots| && j < |slots| && i != j
    ensures DisjointModulo(Offset(slots, i), slots[i].length, Offset(slots, j), slots[j].length, Cycle(slots))
  {
    SlotInCycle(slots, i);
    SlotInCycle(slots, j);
    if i < j {
      OffsetMonotone(slots, i + 1, j);
      EarlierModulo(Offset(slots, i), slots[i].length, Offset(slots, j), slots[j].length, Cycle(slots));
    } else {
      OffsetMonotone(slots, j + 1, i);
      EarlierModulo(Offset(slots, j), slots[j].length, Offset(slots, i), slots[i].length, Cycle(slots));
    }
  }
}
