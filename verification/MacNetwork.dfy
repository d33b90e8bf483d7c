/**
 Runs of one scheduler, and of several schedulers that know nothing of each other but the slot
 list and the reference time.
 */
module MacNetwork {
  import opened Arithmetic
  import opened TdmaGrid
  import opened MacManager

  /** One thing that can happen to a scheduler, with the clock readings it takes. */
  datatype Step =
    | StartupStep(cfg: Config, now: int, later: int)
    | RestartStep(now: int, later: int)
    | ShutdownStep
    | TimerStep(clock: int, now: int, later: int)
    | EditStep(slots: seq<Slot>, now: int, later: int) // the list is changed and update() called

  predicate Enabled(s: State, step: Step) {
    match step
    case StartupStep(cfg, now, _) => !s.started && (cfg.macType != NoMac ==> Schedulable(Configured(s, cfg), now))
    case RestartStep(now, _) => s.started || Schedulable(s, now)
    case ShutdownStep => true
    case TimerStep(clock, now, _) => s.armed && s.current < |s.slots| && (Skewed(s, clock) ==> Schedulable(s, now))
    case EditStep(slots, now, _) => Schedulable(s.(slots := slots), now)
  }

  function Apply(s: State, step: Step): State
    requires Enabled(s, step)
  {
    match step
    case StartupStep(cfg, now, later) => Startup(s, cfg, now, later)
    case RestartStep(now, later) => Restart(s, now, later)
    case ShutdownStep => Shutdown(s)
    case TimerStep(clock, now, later) => BeginSlot(s, clock, now, later)
    case EditStep(slots, now, later) => Update(s.(slots := slots), now, later)
  }

  /** The transmissions a step initiates: none or one. */
  function Initiated(s: State, step: Step): seq<Transmission>
    requires Enabled(s, step)
  {
    if step.TimerStep? && !Skewed(s, step.clock) && Transmits(s.cfg, s.slots[s.current])
    then [Transmission(s.next, s.slots[s.current])]
    else []
  }

  predicate CanRun(s: State, steps: seq<Step>)
    decreases |steps|
  {
    steps == [] || (Enabled(s, steps[0]) && CanRun(Apply(s, steps[0]), steps[1..]))
  }

  function Final(s: State, steps: seq<Step>): State
    requires CanRun(s, steps)
    decreases |steps|
  {
    if steps == [] then s else Final(Apply(s, steps[0]), steps[1..])
  }

  function Sent(s: State, steps: seq<Step>): seq<Transmission>
    requires CanRun(s, steps)
    decreases |steps|
  {
    if steps == [] then [] else Initiated(s, steps[0]) + Sent(Apply(s, steps[0]), steps[1..])
  }

  // ---- One scheduler ----

  lemma StepKeepsInvariant(s: State, step: Step)
    requires Invariant(s) && Enabled(s, step)
    ensures Invariant(Apply(s, step))
  {
    match step
    case StartupStep(cfg, now, later) =>
      var t := Configured(s, cfg).(started := true);
      if cfg.macType != NoMac && t.slots != [] {
        UpdateAligns(t, now, later);
      }
    case RestartStep(now, later) =>
      if !s.started && s.slots != [] {
        UpdateAligns(s.(started := true), now, later);
      }
    case ShutdownStep =>
    case TimerStep(clock, now, later) =>
      if Skewed(s, clock) {
        UpdateAligns(s, now, later);
      } else {
        var r: int :| IsReference(s.cfg, r) && OnGrid(r, s.slots, s.current, s.next);
        var k: int :| s.next == Boundary(r, s.slots, k, s.current);
        NextBoundary(r, s.slots, k, s.current);
        var t := Apply(s, step);
        assert OnGrid(r, t.slots, t.current, t.next);
      }
    case EditStep(slots, now, later) =>
      if slots != [] {
        UpdateAligns(s.(slots := slots), now, later);
      }
  }

  /** In every run the timer is pending iff the node is started with a non-empty list, and then at a grid boundary. */
  lemma {:induction false} EveryRunStaysOnGrid(s: State, steps: seq<Step>)
    requires Invariant(s) && CanRun(s, steps)
    ensures Invariant(Final(s, steps))
    decreases |steps|
  {
    if steps != [] {
      StepKeepsInvariant(s, steps[0]);
      EveryRunStaysOnGrid(Apply(s, steps[0]), steps[1..]);
    }
  }

  /** The slots announced while the timer fires at the given clock readings, none of them skewed. */
  ghost predicate OnTime(s: State, clocks: seq<int>)
    decreases |clocks|
  {
    clocks == [] ||
    (s.armed && s.current < |s.slots| && !Skewed(s, clocks[0]) && OnTime(BeginSlot(s, clocks[0], 0, 0), clocks[1..]))
  }

  ghost function Announced(s: State, clocks: seq<int>): seq<Transmission>
    requires OnTime(s, clocks)
    decreases |clocks|
  {
    if clocks == [] then [] else
      [Signalled(s, clocks[0]).value] + Announced(BeginSlot(s, clocks[0], 0, 0), clocks[1..])
  }

  /** Firing on time visits the slots in cyclic order, each starting exactly where the last one ended. */
  lemma {:induction false} SlotsFollowWithoutGap(s: State, clocks: seq<int>, j: nat)
    requires OnTime(s, clocks) && s.cfg.macType != NoMac && j < |clocks|
    ensures |Announced(s, clocks)| == |clocks|
    ensures Announced(s, clocks)[j].slot == s.slots[(s.current + j) % |s.slots|]
    ensures j == 0 ==> Announced(s, clocks)[j].time == s.next
    ensures j > 0 ==>
      Announced(s, clocks)[j].time == Announced(s, clocks)[j - 1].time + Announced(s, clocks)[j - 1].slot.length
    decreases |clocks|
  {
    AnnouncedLength(s, clocks);
    if j == 0 {
      DivModUnique(s.current, 0, s.current, |s.slots|);
    } else {
      var s' := BeginSlot(s, clocks[0], 0, 0);
      assert s'.slots == s.slots && s'.cfg == s.cfg && s'.next == s.next + s.slots[s.current].length;
      assert (s'.current + (j - 1)) % |s.slots| == (s.current + j) % |s.slots| by {
        WrappedIndex(s.current, j, |s.slots|);
      }
      SlotsFollowWithoutGap(s', clocks[1..], j - 1);
    }
  }

  // ---- What is sent of what is announced ----

  /** The slots announced in a run, stamped with their times. */
  function SlotStarts(s: State, steps: seq<Step>): seq<Transmission>
    requires CanRun(s, steps)
    decreases |steps|
  {
    if steps == [] then []
    else
      var here := if steps[0].TimerStep? && !Skewed(s, steps[0].clock)
                  then [Transmission(s.next, s.slots[s.current])] else [];
      here + SlotStarts(Apply(s, steps[0]), steps[1..])
  }

  /** Those that poll a vehicle. */
  function Polls(ts: seq<Transmission>): seq<Transmission> {
    if ts == [] then [] else (if ts[0].slot.src != 0 then [ts[0]] else []) + Polls(ts[1..])
  }

  /** Those of one node. */
  function OwnOrUnconditional(ts: seq<Transmission>, id: int): seq<Transmission> {
    if ts == [] then []
    else (if ts[0].slot.src == id || ts[0].slot.alwaysInitiate then [ts[0]] else []) + OwnOrUnconditional(ts[1..], id)
  }

  /** The node has this type throughout the run. */
  predicate KeepsType(s: State, steps: seq<Step>, macType: MacType) {
    s.cfg.macType == macType && forall k | 0 <= k < |steps| && steps[k].StartupStep? :: steps[k].cfg.macType == macType
  }

  lemma KeepsTypeAfter(s: State, steps: seq<Step>, macType: MacType)
    requires steps != [] && CanRun(s, steps) && KeepsType(s, steps, macType)
    ensures KeepsType(Apply(s, steps[0]), steps[1..], macType)
  {
    assert forall k | 0 <= k < |steps| - 1 :: steps[1..][k] == steps[k + 1];
  }

  /**
   In every run a polling node sends in exactly the announced slots of a vehicle, at their times;
   its own id plays no part.
   */
  lemma {:induction false} PollingSends(s: State, steps: seq<Step>)
    requires CanRun(s, steps) && KeepsType(s, steps, Polled)
    ensures Sent(s, steps) == Polls(SlotStarts(s, steps))
    decreases |steps|
  {
    if steps != [] {
      var s', rest := Apply(s, steps[0]), SlotStarts(Apply(s, steps[0]), steps[1..]);
      KeepsTypeAfter(s, steps, Polled);
      PollingSends(s', steps[1..]);
      if steps[0].TimerStep? && !Skewed(s, steps[0].clock) {
        var t := Transmission(s.next, s.slots[s.current]);
        assert SlotStarts(s, steps) == [t] + rest && ([t] + rest)[1..] == rest;
      } else {
        assert [] + rest == rest && [] + Sent(s', steps[1..]) == Sent(s', steps[1..]);
      }
    }
  }

  /** A decentralized node that keeps its id sends in exactly the announced slots that are its own or unconditional. */
  lemma {:induction false} DecentralizedSends(s: State, steps: seq<Step>, id: int)
    requires CanRun(s, steps) && KeepsType(s, steps, FixedDecentralized) && s.cfg.modemId == id
    requires forall k | 0 <= k < |steps| && steps[k].StartupStep? :: steps[k].cfg.modemId == id
    ensures Sent(s, steps) == OwnOrUnconditional(SlotStarts(s, steps), id)
    decreases |steps|
  {
    if steps != [] {
      var s', rest := Apply(s, steps[0]), SlotStarts(Apply(s, steps[0]), steps[1..]);
      KeepsTypeAfter(s, steps, FixedDecentralized);
      assert forall k | 0 <= k < |steps| - 1 :: steps[1..][k] == steps[k + 1];
      DecentralizedSends(s', steps[1..], id);
      if steps[0].TimerStep? && !Skewed(s, steps[0].clock) {
        var t := Transmission(s.next, s.slots[s.current]);
        assert SlotStarts(s, steps) == [t] + rest && ([t] + rest)[1..] == rest;
      } else {
        assert [] + rest == rest && [] + Sent(s', steps[1..]) == Sent(s', steps[1..]);
      }
    }
  }

  /** The timer firing at these clock readings, and nothing else. */
  function Firing(clocks: seq<int>): seq<Step> {
    seq(|clocks|, i requires 0 <= i < |clocks| => TimerStep(clocks[i], 0, 0))
  }

  /** On time, what a run announces is what the slots in cyclic order are. */
  lemma {:induction false} OnTimeStarts(s: State, clocks: seq<int>)
    requires OnTime(s, clocks)
    ensures CanRun(s, Firing(clocks)) && SlotStarts(s, Firing(clocks)) == Announced(s, clocks)
    decreases |clocks|
  {
    if clocks != [] {
      OnTimeStarts(BeginSlot(s, clocks[0], 0, 0), clocks[1..]);
      assert Firing(clocks)[1..] == Firing(clocks[1..]);
    }
  }

  /** On time, a polling node polls all vehicles of its list in cyclic order, whoever it is itself. */
  lemma PollingInTurn(s: State, clocks: seq<int>)
    requires OnTime(s, clocks) && s.cfg.macType == Polled
    ensures CanRun(s, Firing(clocks)) && Sent(s, Firing(clocks)) == Polls(Announced(s, clocks))
  {
    OnTimeStarts(s, clocks);
    PollingSends(s, Firing(clocks));
  }

  lemma WrappedIndex(i: nat, j: nat, n: nat)
    requires i < n && j > 0
    ensures ((if i + 1 == n then 0 else i + 1) + (j - 1)) % n == (i + j) % n
  {
    if i + 1 == n {
      DivModUnique(i + j, (j - 1) / n + 1, (j - 1) % n, n);
    }
  }

  lemma {:induction false} AnnouncedLength(s: State, clocks: seq<int>)
    requires OnTime(s, clocks)
    ensures |Announced(s, clocks)| == |clocks|
    decreases |clocks|
  {
    if clocks != [] {
      AnnouncedLength(BeginSlot(s, clocks[0], 0, 0), clocks[1..]);
    }
  }

  // ---- Several schedulers ----

  /** What the nodes of one network agree on. */
  datatype Plan = Plan(slots: seq<Slot>, refTime: RefTime)

  /** Steps of a decentralized node with the given identity that follows the plan. */
  predicate FollowsPlan(plan: Plan, id: int, s: State, step: Step) {
    match step
    case StartupStep(cfg, _, _) =>
      cfg.macType == FixedDecentralized && cfg.modemId == id && cfg.slots == plan.slots && cfg.refTime == plan.refTime
    case EditStep(slots, _, _) => slots == s.slots
    case _ => true
  }

  predicate NodeRun(plan: Plan, id: int, s: State, steps: seq<Step>): (run: bool)
    ensures run ==> CanRun(s, steps)
    decreases |steps|
  {
    steps == [] ||
    (Enabled(s, steps[0]) && FollowsPlan(plan, id, s, steps[0]) && NodeRun(plan, id, Apply(s, steps[0]), steps[1..]))
  }

  ghost predicate NodeState(plan: Plan, id: int, s: State) {
    && Invariant(s)
    && (s.slots != [] ==>
          s.slots == Numbered(plan.slots) && s.cfg.macType == FixedDecentralized
          && s.cfg.modemId == id && s.cfg.refTime == plan.refTime)
  }

  /** Everything that a node following the plan ever initiates, from power-up. */
  ghost predicate CanSend(plan: Plan, id: int, t: Transmission) {
    exists steps: seq<Step> :: NodeRun(plan, id, INITIAL, steps) && t in Sent(INITIAL, steps)
  }

  /** The references the nodes compute all give one grid. */
  predicate OneGrid(plan: Plan) {
    var c := Cycle(Numbered(plan.slots));
    c > 0 && (plan.refTime.Fixed? || MICROSECONDS_PER_DAY % c == 0)
  }

  function GridReference(plan: Plan): int {
    if plan.refTime.Fixed? then plan.refTime.reference else 0
  }

  lemma AlignedToOneGrid(plan: Plan, r: int, i: nat, t: int)
    requires OneGrid(plan)
    requires plan.refTime.Fixed? ==> r == plan.refTime.reference
    requires plan.refTime.StartOfDay? ==> r % MICROSECONDS_PER_DAY == 0
    requires OnGrid(r, Numbered(plan.slots), i, t)
    ensures OnGrid(GridReference(plan), Numbered(plan.slots), i, t)
  {
    if plan.refTime.StartOfDay? {
      var c := Cycle(Numbered(plan.slots));
      var perDay := MICROSECONDS_PER_DAY / c;
      var days := r / MICROSECONDS_PER_DAY;
      assert r == days * (perDay * c);
      assert r == (days * perDay) * c;
      SameGrid(0, r, Numbered(plan.slots), days * perDay, i, t);
    }
  }

  // ---- Which plans are free of collisions ----

  /**
   How far the grids of two nodes can be apart: whole cycles for a fixed reference; whole days as
   well, if each node references the start of its own day.
   */
  function Period(plan: Plan): nat {
    var c := Cycle(Numbered(plan.slots));
    if plan.refTime.Fixed? then c else Gcd(MICROSECONDS_PER_DAY, c)
  }

  /** A time at which some node following the plan may start slot i. */
  function SlotTime(plan: Plan, m: int, i: nat): int
    requires i < |plan.slots|
  {
    GridReference(plan) + Periods(m, Period(plan)) + Offset(Numbered(plan.slots), i)
  }

  /** The node transmits in slot i: it is its own, or an unconditional one. */
  predicate Owns(plan: Plan, id: int, i: nat)
    requires i < |plan.slots|
  {
    plan.slots[i].src == id || plan.slots[i].alwaysInitiate
  }

  /** A transmission is one of the slots the node owns, at a time the plan allows. */
  ghost predicate Lawful(plan: Plan, id: int, t: Transmission) {
    exists i: nat, m: int ::
      i < |plan.slots| && Owns(plan, id, i) && t.slot == Numbered(plan.slots)[i] && t.time == SlotTime(plan, m, i)
  }

  lemma AlignedToPeriod(plan: Plan, r: int, i: nat, t: int) returns (m: int)
    requires plan.refTime.Fixed? ==> r == plan.refTime.reference
    requires plan.refTime.StartOfDay? ==> r % MICROSECONDS_PER_DAY == 0
    requires OnGrid(r, Numbered(plan.slots), i, t)
    ensures i < |plan.slots| && t == SlotTime(plan, m, i)
  {
    var slots := Numbered(plan.slots);
    var c, day := Cycle(slots), MICROSECONDS_PER_DAY;
    var k: int :| t == Boundary(r, slots, k, i);
    if plan.refTime.Fixed? {
      m := k;
    } else {
      var x, y := GcdDivides(day, c);
      var d := r / day;
      m := d * x + k * y;
      assert r == d * day;
      SumOfMultiples(d, x, k, y, Period(plan));
    }
  }

  lemma SumOfMultiples(d: int, x: int, k: int, y: int, g: nat)
    ensures d * (x * g) + k * (y * g) == Periods(d * x + k * y, g)
  {
    assert d * (x * g) == (d * x) * g && k * (y * g) == (k * y) * g;
  }

  lemma {:induction false} SentIsLawful(plan: Plan, id: int, s: State, steps: seq<Step>, t: Transmission)
    requires NodeState(plan, id, s) && NodeRun(plan, id, s, steps) && t in Sent(s, steps)
    ensures Lawful(plan, id, t)
    decreases |steps|
  {
    var step, s' := steps[0], Apply(s, steps[0]);
    if t in Initiated(s, step) {
      InitiatedIsLawful(plan, id, s, step, t);
    } else {
      StepKeepsInvariant(s, step);
      assert t in Sent(s', steps[1..]);
      SentIsLawful(plan, id, s', steps[1..], t);
    }
  }

  lemma InitiatedIsLawful(plan: Plan, id: int, s: State, step: Step, t: Transmission)
    requires NodeState(plan, id, s) && Enabled(s, step) && t in Initiated(s, step)
    ensures Lawful(plan, id, t)
  {
    var i := s.current;
    var r: int :| IsReference(s.cfg, r) && OnGrid(r, s.slots, i, s.next);
    var m := AlignedToPeriod(plan, r, i, s.next);
    assert t == Transmission(s.next, Numbered(plan.slots)[i]);
    assert Owns(plan, id, i) && t.time == SlotTime(plan, m, i);
  }

  lemma SendsAreLawful(plan: Plan, id: int, t: Transmission)
    requires CanSend(plan, id, t)
    ensures Lawful(plan, id, t)
  {
    var steps: seq<Step> :| NodeRun(plan, id, INITIAL, steps) && t in Sent(INITIAL, steps);
    SentIsLawful(plan, id, INITIAL, steps, t);
  }

  /** A transmission names the configured slot it belongs to, which the node owns. */
  lemma SentNamesItsSlot(plan: Plan, id: int, t: Transmission)
    requires CanSend(plan, id, t)
    ensures var i := t.slot.slotIndex;
      0 <= i < |plan.slots| && Owns(plan, id, i) && t.slot == plan.slots[i].(slotIndex := i)
  {
    SendsAreLawful(plan, id, t);
  }

  ghost predicate NeverCollide(plan: Plan, a: int, b: int) {
    forall t, u | CanSend(plan, a, t) && CanSend(plan, b, u) :: Disjoint(t.time, t.slot.length, u.time, u.slot.length)
  }

  /** The slots that the two nodes own do not overlap, however many periods their grids are apart. */
  predicate KeepApart(plan: Plan, a: int, b: int) {
    var slots := Numbered(plan.slots);
    forall i, j | 0 <= i < |plan.slots| && 0 <= j < |plan.slots| && Owns(plan, a, i) && Owns(plan, b, j) ::
      DisjointModulo(Offset(slots, i), slots[i].length, Offset(slots, j), slots[j].length, Period(plan))
  }

  /** Two nodes whose slots keep apart never overlap, however they are started, restarted or re-synchronised. */
  lemma NodesNeverCollide(plan: Plan, a: int, b: int, t: Transmission, u: Transmission)
    requires KeepApart(plan, a, b) && CanSend(plan, a, t) && CanSend(plan, b, u)
    ensures Disjoint(t.time, t.slot.length, u.time, u.slot.length)
  {
    SendsAreLawful(plan, a, t);
    SendsAreLawful(plan, b, u);
    var i: nat, m: int :| i < |plan.slots| && Owns(plan, a, i) && t.slot == Numbered(plan.slots)[i]
                          && t.time == SlotTime(plan, m, i);
    var j: nat, n: int :| j < |plan.slots| && Owns(plan, b, j) && u.slot == Numbered(plan.slots)[j]
                          && u.time == SlotTime(plan, n, j);
    SlotTimesDisjoint(plan, m, i, n, j);
  }

  lemma SlotTimesDisjoint(plan: Plan, m: int, i: nat, n: int, j: nat)
    requires i < |plan.slots| && j < |plan.slots|
    requires var slots := Numbered(plan.slots);
      DisjointModulo(Offset(slots, i), slots[i].length, Offset(slots, j), slots[j].length, Period(plan))
    ensures var slots := Numbered(plan.slots);
      Disjoint(SlotTime(plan, m, i), slots[i].length, SlotTime(plan, n, j), slots[j].length)
  {
    var slots, g := Numbered(plan.slots), Period(plan);
    ModuloMeansDisjoint(Offset(slots, i), slots[i].length, Offset(slots, j), slots[j].length, g, n - m);
    PeriodsBetween(m, n, g);
  }

  // ---- Every allowed time is used ----

  /** A node running on time comes to every later slot and transmits in it if it owns it. */
  lemma {:induction false} Reaches(plan: Plan, id: int, s: State, r: int, l: int, k: int, i: nat)
    returns (steps: seq<Step>)
    requires s.armed && s.cfg.macType == FixedDecentralized && s.cfg.modemId == id
    requires i < |s.slots| && s.current < |s.slots| && s.next == Boundary(r, s.slots, l, s.current)
    requires !Before(k, i, l, s.current) && (s.slots[i].src == id || s.slots[i].alwaysInitiate)
    ensures NodeRun(plan, id, s, steps) && Transmission(Boundary(r, s.slots, k, i), s.slots[i]) in Sent(s, steps)
    decreases k - l, |s.slots| - s.current
  {
    var step := TimerStep(s.next, s.next, s.next);
    if k == l && s.current == i {
      steps := [step];
    } else {
      var s' := Apply(s, step);
      NextBoundary(r, s.slots, l, s.current);
      var rest := Reaches(plan, id, s', r, if s.current + 1 == |s.slots| then l + 1 else l, k, i);
      steps := [step] + rest;
      assert steps[1..] == rest;
    }
  }

  /** The reference of a node started at the beginning of day d. */
  function ReferenceOfDay(plan: Plan, d: int): int {
    if plan.refTime.Fixed? then plan.refTime.reference else d * MICROSECONDS_PER_DAY
  }

  /** Started at its reference, a node sends in each slot it owns of every cycle from the next one on. */
  lemma SendsEverySlot(plan: Plan, id: int, d: int, k: int, i: nat)
    requires i < |plan.slots| && Owns(plan, id, i) && Cycle(Numbered(plan.slots)) > 0 && k >= 1
    ensures var slots := Numbered(plan.slots);
      CanSend(plan, id, Transmission(Boundary(ReferenceOfDay(plan, d), slots, k, i), slots[i]))
  {
    var r := ReferenceOfDay(plan, d);
    var cfg := Config(id, FixedDecentralized, plan.slots, false, plan.refTime);
    StartsAtReference(plan, cfg, d);
    var start := StartupStep(cfg, r, r);
    var s := Apply(INITIAL, start);
    var steps := Reaches(plan, id, s, r, 1, k, i);
    var run := [start] + steps;
    assert run[1..] == steps && NodeRun(plan, id, INITIAL, run);
    assert Sent(INITIAL, run) == Initiated(INITIAL, start) + Sent(s, steps);
  }

  lemma StartsAtReference(plan: Plan, cfg: Config, d: int)
    requires cfg == Config(cfg.modemId, FixedDecentralized, plan.slots, false, plan.refTime)
    requires plan.slots != [] && Cycle(Numbered(plan.slots)) > 0
    ensures var r, slots := ReferenceOfDay(plan, d), Numbered(plan.slots);
      && Enabled(INITIAL, StartupStep(cfg, r, r))
      && Apply(INITIAL, StartupStep(cfg, r, r)) == State(cfg, slots, 0, Boundary(r, slots, 1, 0), true, true)
  {
    var r, slots := ReferenceOfDay(plan, d), Numbered(plan.slots);
    var c := Cycle(slots);
    if plan.refTime.StartOfDay? {
      DivModUnique(r, d, 0, MICROSECONDS_PER_DAY);
    }
    assert Reference(cfg, r) == r;
    DivModUnique(c, 1, 0, c);
    assert CyclesSinceReference(cfg, slots, r) == 1;
  }

  /** Days and cycles that are apart by this many periods. */
  lemma Realised(plan: Plan, m: int) returns (d: int, d': int, k: int, k': int)
    ensures k >= 1 && k' >= 1
    ensures var c := Cycle(Numbered(plan.slots));
      ReferenceOfDay(plan, d') + k' * c == ReferenceOfDay(plan, d) + k * c + Periods(m, Period(plan))
  {
    var c, day := Cycle(Numbered(plan.slots)), MICROSECONDS_PER_DAY;
    var x, y := 0, 1;
    if plan.refTime.StartOfDay? {
      x, y := Bezout(day, c);
    }
    var u, v := m * x, m * y;
    d, k := if u < 0 then -u else 0, if v < 0 then 1 - v else 1;
    d', k' := d + u, k + v;
    Combined(d, k, m, x, y, day, c);
    Combined(0, k, m, 0, 1, 0, c);
  }

  lemma Combined(d: int, k: int, m: int, x: int, y: int, day: int, c: int)
    ensures (d + m * x) * day + (k + m * y) * c == d * day + k * c + m * (x * day + y * c)
  {
    assert (d + m * x) * day == d * day + m * (x * day);
    assert (k + m * y) * c == k * c + m * (y * c);
  }

  /** Slots that do not keep apart collide in some pair of runs. */
  lemma OverlapHappens(plan: Plan, a: int, b: int, i: nat, j: nat)
    requires i < |plan.slots| && j < |plan.slots| && Owns(plan, a, i) && Owns(plan, b, j)
    requires var slots := Numbered(plan.slots);
      !DisjointModulo(Offset(slots, i), slots[i].length, Offset(slots, j), slots[j].length, Period(plan))
    ensures !NeverCollide(plan, a, b)
  {
    var slots := Numbered(plan.slots);
    PeriodIsPositive(plan, i);
    var m := OverlapSomewhere(Offset(slots, i), slots[i].length, Offset(slots, j), slots[j].length, Period(plan));
    var d, d', k, k' := Realised(plan, m);
    SendsEverySlot(plan, a, d, k, i);
    SendsEverySlot(plan, b, d', k', j);
    var t := Transmission(Boundary(ReferenceOfDay(plan, d), slots, k, i), slots[i]);
    var u := Transmission(Boundary(ReferenceOfDay(plan, d'), slots, k', j), slots[j]);
    assert CanSend(plan, a, t) && CanSend(plan, b, u);
    assert !Disjoint(t.time, t.slot.length, u.time, u.slot.length);
  }

  lemma PeriodIsPositive(plan: Plan, i: nat)
    requires i < |plan.slots| && plan.slots[i].length > 0
    ensures Cycle(Numbered(plan.slots)) > 0 && Period(plan) > 0
  {
    SlotInCycle(Numbered(plan.slots), i);
    var x, y := GcdDivides(MICROSECONDS_PER_DAY, Cycle(Numbered(plan.slots)));
  }

  /** For every plan: two nodes never collide exactly when the slots they own keep apart. */
  lemma CollisionFreeIff(plan: Plan, a: int, b: int)
    ensures NeverCollide(plan, a, b) <==> KeepApart(plan, a, b)
  {
    if KeepApart(plan, a, b) {
      forall t, u | CanSend(plan, a, t) && CanSend(plan, b, u)
        ensures Disjoint(t.time, t.slot.length, u.time, u.slot.length)
      {
        NodesNeverCollide(plan, a, b, t, u);
      }
    } else {
      var slots := Numbered(plan.slots);
      var i, j :| 0 <= i < |plan.slots| && 0 <= j < |plan.slots| && Owns(plan, a, i) && Owns(plan, b, j)
                  && !DisjointModulo(Offset(slots, i), slots[i].length,
                                     Offset(slots, j), slots[j].length, Period(plan));
      OverlapHappens(plan, a, b, i, j);
    }
  }

  // ---- Plans with one grid ----

  predicate NoSharedSlot(plan: Plan) {
    forall i | 0 <= i < |plan.slots| :: plan.slots[i].alwaysInitiate ==> plan.slots[i].length == 0
  }

  /** An unconditional slot of positive length makes any two nodes collide, under every plan. */
  lemma SharedSlotCollides(plan: Plan, a: int, b: int, i: nat)
    requires i < |plan.slots| && plan.slots[i].alwaysInitiate && plan.slots[i].length > 0
    ensures !NeverCollide(plan, a, b)
  {
    PeriodIsPositive(plan, i);
    OverlapHappens(plan, a, b, i, i);
  }

  /** With one grid for all nodes, that is the only way to collide. */
  lemma CollisionFreeOnOneGridIff(plan: Plan, a: int, b: int)
    requires OneGrid(plan) && a != b
    ensures NeverCollide(plan, a, b) <==> NoSharedSlot(plan)
  {
    if NoSharedSlot(plan) {
      OneGridKeepsApart(plan, a, b);
      CollisionFreeIff(plan, a, b);
    } else {
      var i :| 0 <= i < |plan.slots| && plan.slots[i].alwaysInitiate && plan.slots[i].length > 0;
      SharedSlotCollides(plan, a, b, i);
    }
  }

  lemma OneGridKeepsApart(plan: Plan, a: int, b: int)
    requires OneGrid(plan) && NoSharedSlot(plan) && a != b
    ensures KeepApart(plan, a, b)
  {
    var slots := Numbered(plan.slots);
    if plan.refTime.StartOfDay? {
      GcdOfDivisor(MICROSECONDS_PER_DAY, Cycle(slots));
    }
    forall i, j | 0 <= i < |plan.slots| && 0 <= j < |plan.slots| && Owns(plan, a, i) && Owns(plan, b, j)
      ensures DisjointModulo(Offset(slots, i), slots[i].length, Offset(slots, j), slots[j].length, Period(plan))
    {
      if i != j {
        DistinctSlotsModulo(slots, i, j);
      }
    }
  }

  /** Two slots of 3.5 seconds, one for each node: the day is not a whole number of their cycles. */
  const SEVEN_SECONDS := Plan([Slot(1, 3_500_000, false, 0), Slot(2, 3_500_000, false, 1)], StartOfDay)

  /** Started on different days, the two nodes collide although neither slot is shared. */
  lemma SevenSecondsCollide()
    ensures NoSharedSlot(SEVEN_SECONDS) && !OneGrid(SEVEN_SECONDS) && !NeverCollide(SEVEN_SECONDS, 1, 2)
  {
    var slots := Numbered(SEVEN_SECONDS.slots);
    assert Offset(slots, 0) == 0 && Offset(slots, 1) == 3_500_000 && Cycle(slots) == 7_000_000;
    assert Gcd(1_000_000, 0) == 1_000_000 && Gcd(6_000_000, 1_000_000) == 1_000_000;
    assert Gcd(7_000_000, 6_000_000) == 1_000_000 && Period(SEVEN_SECONDS) == 1_000_000;
    OverlapHappens(SEVEN_SECONDS, 1, 2, 0, 1);
  }

  // ---- Midnight ----

  lemma OneStepRun(s: State, step: Step)
    requires Enabled(s, step)
    ensures CanRun(s, [step]) && Final(s, [step]) == Apply(s, step)
  {
    assert [step][1..] == [];
    assert Final(Apply(s, step), []) == Apply(s, step);
  }

  /** All nodes that reference the start of their day share one grid. */
  ghost predicate MidnightSafe(slots: seq<Slot>) {
    forall id: int, steps: seq<Step> |
      NodeRun(Plan(slots, StartOfDay), id, INITIAL, steps) && Final(INITIAL, steps).armed ::
      OnGrid(0, Numbered(slots), Final(INITIAL, steps).current, Final(INITIAL, steps).next)
  }

  lemma {:induction false} NodeRunKeepsState(plan: Plan, id: int, s: State, steps: seq<Step>)
    requires NodeState(plan, id, s) && NodeRun(plan, id, s, steps)
    ensures NodeState(plan, id, Final(s, steps))
    decreases |steps|
  {
    if steps != [] {
      StepKeepsInvariant(s, steps[0]);
      NodeRunKeepsState(plan, id, Apply(s, steps[0]), steps[1..]);
    }
  }

  /** The grid survives midnight exactly when the cycle divides the day. */
  lemma OneGridAcrossMidnightIff(slots: seq<Slot>)
    requires Cycle(Numbered(slots)) > 0
    ensures MidnightSafe(slots) <==> MICROSECONDS_PER_DAY % Cycle(Numbered(slots)) == 0
  {
    var c := Cycle(Numbered(slots));
    var plan := Plan(slots, StartOfDay);
    if MICROSECONDS_PER_DAY % c == 0 {
      forall id: int, steps: seq<Step> | NodeRun(plan, id, INITIAL, steps) && Final(INITIAL, steps).armed
        ensures OnGrid(0, Numbered(slots), Final(INITIAL, steps).current, Final(INITIAL, steps).next)
      {
        NodeRunKeepsState(plan, id, INITIAL, steps);
        var s := Final(INITIAL, steps);
        var r: int :| IsReference(s.cfg, r) && OnGrid(r, s.slots, s.current, s.next);
        AlignedToOneGrid(plan, r, s.current, s.next);
      }
    } else {
      var day := MICROSECONDS_PER_DAY;
      var start := StartupStep(Config(1, FixedDecentralized, slots, false, StartOfDay), day, day);
      var steps := [start];
      assert Reference(start.cfg, day) == day;
      assert CyclesSinceReference(start.cfg, Numbered(slots), day) == 1;
      assert NodeRun(plan, 1, INITIAL, steps);
      var s := Final(INITIAL, steps);
      OneStepRun(INITIAL, start);
      assert s.current == 0 && s.next == day + c;
      if MidnightSafe(slots) {
        var k: int :| s.next == Boundary(0, Numbered(slots), k, 0);
        assert day == (k - 1) * c;
        DivModUnique(day, k - 1, 0, c);
      }
    }
  }
}
