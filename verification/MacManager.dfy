/**
 The medium access scheduler of one node: a list of slots, the slot to run next, when it starts,
 and a timer. Every clock reading is a parameter of the step that takes it.
 */
module MacManager {
  import opened Basics
  import opened TdmaGrid

  const ALLOWED_SKEW: int := 2_000_000
  const BROADCAST_ID: int := 0

  datatype MacType = NoMac | FixedDecentralized | Polled
  datatype RefTime = StartOfDay | Fixed(reference: int)

  datatype Config = Config(modemId: int, macType: MacType, slots: seq<Slot>,
                           startInMiddle: bool, refTime: RefTime)

  /** What is signalled when a slot starts: the slot stamped with its scheduled start. */
  datatype Transmission = Transmission(time: int, slot: Slot)

  datatype State = State(cfg: Config, slots: seq<Slot>, current: nat, next: int, started: bool, armed: bool)

  const DEFAULT_CONFIG := Config(0, NoMac, [], true, StartOfDay)
  const INITIAL := State(DEFAULT_CONFIG, [], 0, 0, false, false)

  function Reference(cfg: Config, now: int): int {
    match cfg.refTime
    case StartOfDay => now / MICROSECONDS_PER_DAY * MICROSECONDS_PER_DAY
    case Fixed(r) => r
  }

  /**
   The clock readings for which the conversion of the cycle count to a 32-bit unsigned number is
   defined; it truncates toward zero, so it is defined down to just above minus one.
   */
  predicate CountRepresentable(cfg: Config, slots: seq<Slot>, now: int) {
    var c := Cycle(slots);
    c > 0 &&
    var elapsed := now - Reference(cfg, now);
    elapsed > -2 * c && (elapsed + c) / c < UINT32
  }

  /** The list may be scheduled at this clock reading. */
  predicate Schedulable(s: State, now: int) {
    s.slots == [] || CountRepresentable(s.cfg, s.slots, now)
  }

  function CyclesSinceReference(cfg: Config, slots: seq<Slot>, now: int): int
    requires CountRepresentable(cfg, slots, now)
  {
    var c := Cycle(slots);
    var elapsed := now - Reference(cfg, now);
    if elapsed + c >= 0 then (elapsed + c) / c else 0
  }

  function NextCycleTime(cfg: Config, slots: seq<Slot>, now: int): int
    requires CountRepresentable(cfg, slots, now)
  {
    Reference(cfg, now) + CyclesSinceReference(cfg, slots, now) * Cycle(slots)
  }

  function Increment(s: State): State
    requires s.current < |s.slots|
  {
    if s.cfg.macType == NoMac then s
    else s.(next := s.next + s.slots[s.current].length,
            current := if s.current + 1 == |s.slots| then 0 else s.current + 1)
  }

  predicate StartsInMiddle(s: State) {
    s.cfg.startInMiddle && |s.slots| > 1 && s.cfg.macType != NoMac
  }

  /** Rescheduling from the clock, which is read once for the cycle and once for the slot. */
  function Update(s: State, now: int, later: int): State
    requires Schedulable(s, now)
  {
    if s.slots == [] then
      s.(armed := false)
    else
      var cycle := NextCycleTime(s.cfg, s.slots, now);
      var (i, t) := if StartsInMiddle(s)
                    then FirstNotBefore(s.slots, 0, cycle - Cycle(s.slots), later)
                    else (0, cycle);
      s.(current := i, next := t, armed := s.armed || s.started)
  }

  function Restart(s: State, now: int, later: int): State
    requires s.started || Schedulable(s, now)
  {
    if s.started then s else Update(s.(started := true), now, later)
  }

  function Numbered(slots: seq<Slot>): seq<Slot> {
    seq(|slots|, i requires 0 <= i < |slots| => slots[i].(slotIndex := i))
  }

  /** The state in which startup hands over to restart. */
  function Configured(s: State, cfg: Config): State {
    if cfg.macType == NoMac then s.(cfg := cfg) else s.(cfg := cfg, slots := Numbered(cfg.slots))
  }

  function Startup(s: State, cfg: Config, now: int, later: int): State
    requires !s.started
    requires cfg.macType != NoMac ==> Schedulable(Configured(s, cfg), now)
  {
    if cfg.macType == NoMac then Configured(s, cfg) else Restart(Configured(s, cfg), now, later)
  }

  function Shutdown(s: State): State {
    s.(armed := false, current := 0, started := false)
  }

  predicate Skewed(s: State, now: int) {
    now - s.next > ALLOWED_SKEW || s.next - now > ALLOWED_SKEW
  }

  predicate Transmits(cfg: Config, slot: Slot) {
    match cfg.macType
    case FixedDecentralized => slot.src == cfg.modemId || slot.alwaysInitiate
    case Polled => slot.src != BROADCAST_ID
    case NoMac => true
  }

  function BeginSlot(s: State, clock: int, now: int, later: int): State
    requires s.current < |s.slots|
    requires Skewed(s, clock) ==> Schedulable(s, now)
  {
    if Skewed(s, clock) then Update(s, now, later) else Increment(s).(armed := true)
  }

  function Signalled(s: State, clock: int): Option<Transmission>
    requires s.current < |s.slots|
  {
    if Skewed(s, clock) then None else Some(Transmission(s.next, s.slots[s.current]))
  }

  /** The invariant of a node: the timer is set exactly when it should be, and to a grid boundary. */
  ghost predicate Invariant(s: State) {
    && (s.armed <==> s.started && s.slots != [])
    && (s.armed ==> Aligned(s))
  }

  ghost predicate IsReference(cfg: Config, r: int) {
    match cfg.refTime
    case StartOfDay => r % MICROSECONDS_PER_DAY == 0
    case Fixed(reference) => r == reference
  }

  ghost predicate Aligned(s: State) {
    exists r: int :: IsReference(s.cfg, r) && OnGrid(r, s.slots, s.current, s.next)
  }

  /** The scheduler object. The list is a field that the methods reassign. */
  class MacManager {
    var cfg: Config
    var slots: seq<Slot>
    var current: nat
    var next: int
    var started: bool
    var armed: bool

    ghost function Now(): State
      reads this
    {
      State(cfg, slots, current, next, started, armed)
    }

    constructor ()
      ensures Now() == INITIAL && Invariant(Now())
    {
      cfg, slots, current, next, started, armed := DEFAULT_CONFIG, [], 0, 0, false, false;
    }

    method CycleDuration() returns (length: nat)
      ensures length == Cycle(slots)
    {
      length := 0;
      for i := 0 to |slots|
        invariant length == Offset(slots, i)
      {
        length := length + slots[i].length;
      }
    }

    method ComputeNextCycleTime(now: int) returns (t: int)
      requires CountRepresentable(cfg, slots, now)
      ensures t == NextCycleTime(cfg, slots, now)
    {
      var reference := Reference(cfg, now);
      var sinceReference := now - reference;
      var c := CycleDuration();
      var cycles := if sinceReference + c >= 0 then (sinceReference + c) / c else 0;
      t := reference + cycles * c;
    }

    method IncrementSlot()
      requires current < |slots|
      modifies this`next, this`current
      ensures Now() == Increment(old(Now()))
    {
      if cfg.macType != NoMac {
        next := next + slots[current].length;
        current := current + 1;
        if current == |slots| {
          current := 0;
        }
      }
    }

    method UpdateCycle(now: int, later: int)
      requires Schedulable(Now(), now)
      modifies this`next, this`current, this`armed
      ensures Now() == Update(old(Now()), now, later)
    {
      if |slots| == 0 {
        armed := false;
        return;
      }
      current := 0;
      next := ComputeNextCycleTime(now);
      if cfg.startInMiddle && |slots| > 1 && cfg.macType != NoMac {
        var c := CycleDuration();
        next := next - c;
        ghost var r := FirstNotBefore(slots, current, next, later);
        while next < later
          invariant current < |slots|
          invariant FirstNotBefore(slots, current, next, later) == r
          invariant armed == old(armed)
          decreases later - (next - Offset(slots, current)), |slots| - current
        {
          IncrementSlot();
        }
      }
      if started {
        armed := true;
      }
    }

    method RestartCycle(now: int, later: int)
      requires started || Schedulable(Now(), now)
      modifies this
      ensures Now() == Restart(old(Now()), now, later)
    {
      if started {
        return;
      }
      started := true;
      UpdateCycle(now, later);
    }

    method StartupWith(config: Config, now: int, later: int)
      requires !started
      requires config.macType != NoMac ==> Schedulable(Configured(Now(), config), now)
      modifies this
      ensures Now() == Startup(old(Now()), config, now, later)
    {
      cfg := config;
      if cfg.macType == NoMac {
        return;
      }
      slots := [];
      for i := 0 to |cfg.slots|
        invariant cfg == config && !started && armed == old(armed) && current == old(current) && next == old(next)
        invariant slots == Numbered(cfg.slots)[..i]
      {
        slots := slots + [cfg.slots[i].(slotIndex := i)];
      }
      assert Now() == Configured(old(Now()), config);
      RestartCycle(now, later);
    }

    method ShutdownCycle()
      modifies this
      ensures Now() == Shutdown(old(Now()))
    {
      armed := false;
      current := 0;
      started := false;
    }

    /** The timer handler. */
    method TimerFired(clock: int, now: int, later: int)
      returns (initiated: Option<Transmission>, slotStarted: Option<Transmission>)
      requires armed && current < |slots|
      requires Skewed(Now(), clock) ==> Schedulable(Now(), now)
      modifies this
      ensures Now() == BeginSlot(old(Now()), clock, now, later)
      ensures slotStarted == old(Signalled(Now(), clock))
      ensures slotStarted.Some? <==> -2_000_000 <= clock - old(next) <= 2_000_000
      ensures initiated == slotStarted || initiated == None
      ensures cfg.macType == Polled && slotStarted.Some? ==>
        (initiated == slotStarted <==> slotStarted.value.slot.src != 0)
      ensures cfg.macType == FixedDecentralized && slotStarted.Some? ==>
        (initiated == slotStarted <==>
           slotStarted.value.slot.src == cfg.modemId || slotStarted.value.slot.alwaysInitiate)
      ensures cfg.macType == NoMac ==> initiated == slotStarted
      ensures cfg.macType == NoMac && slotStarted.Some? ==> current == old(current) && next == old(next)
      ensures initiated == if slotStarted.Some? && Transmits(cfg, slotStarted.value.slot) then slotStarted else None
    {
      initiated, slotStarted := None, None;
      if clock - next > ALLOWED_SKEW || next - clock > ALLOWED_SKEW {
        UpdateCycle(now, later);
        return;
      }
      var s := slots[current];
      var transmitting := true;
      match cfg.macType {
        case FixedDecentralized => transmitting := s.src == cfg.modemId || s.alwaysInitiate;
        case Polled => transmitting := s.src != BROADCAST_ID;
        case NoMac =>
      }
      if transmitting {
        initiated := Some(Transmission(next, s));
      }
      slotStarted := Some(Transmission(next, s));
      IncrementSlot();
      armed := true;
    }
  }

  /**
   The next cycle starts on a cycle boundary, in (now, now + cycle] exactly when the reference
   is no more than one cycle ahead.
   */
  lemma NextCycleTimeIsNext(cfg: Config, slots: seq<Slot>, now: int)
    requires CountRepresentable(cfg, slots, now)
    ensures slots != [] ==> OnGrid(Reference(cfg, now), slots, 0, NextCycleTime(cfg, slots, now))
    ensures now < NextCycleTime(cfg, slots, now)
    ensures NextCycleTime(cfg, slots, now) <= now + Cycle(slots) <==> Reference(cfg, now) - now <= Cycle(slots)
  {
    var c := Cycle(slots);
    var n := CyclesSinceReference(cfg, slots, now);
    var elapsed := now - Reference(cfg, now);
    if elapsed + c >= 0 {
      assert elapsed + c == (elapsed + c) / c * c + (elapsed + c) % c;
    }
    assert NextCycleTime(cfg, slots, now) == Boundary(Reference(cfg, now), slots, n, 0);
  }

  /** A reference more than one cycle ahead delays the next cycle until it. */
  lemma FarReferenceDelays()
    ensures var cfg, slots := DEFAULT_CONFIG.(refTime := Fixed(3)), [Slot(1, 2, false, 0)];
      CountRepresentable(cfg, slots, 0) && NextCycleTime(cfg, slots, 0) == 3 > 0 + Cycle(slots)
  {
    var slots := [Slot(1, 2, false, 0)];
    assert Offset(slots, 0) == 0 && Cycle(slots) == 2;
  }

  /** The reference is the configured one, or the last midnight. */
  lemma ReferenceIsReference(cfg: Config, now: int)
    ensures IsReference(cfg, Reference(cfg, now))
    ensures cfg.refTime.StartOfDay? ==> Reference(cfg, now) <= now < Reference(cfg, now) + MICROSECONDS_PER_DAY
  {
  }

  /** Rescheduling a non-empty list leaves the node on the grid, whatever the two clock readings. */
  lemma UpdateAligns(s: State, now: int, later: int)
    requires s.slots != [] && CountRepresentable(s.cfg, s.slots, now)
    ensures Aligned(Update(s, now, later))
    ensures Update(s, now, later).current < |s.slots|
  {
    var r := Reference(s.cfg, now);
    var n := CyclesSinceReference(s.cfg, s.slots, now);
    var c := Cycle(s.slots);
    ReferenceIsReference(s.cfg, now);
    assert Boundary(r, s.slots, n, 0) == NextCycleTime(s.cfg, s.slots, now);
    if StartsInMiddle(s) {
      assert Boundary(r, s.slots, n - 1, 0) == Boundary(r, s.slots, n, 0) - c by {
        assert (n - 1) * c == n * c - c;
      }
      var l := FirstNotBeforeIsEarliest(r, s.slots, n - 1, 0, later);
    }
    var u := Update(s, now, later);
    assert OnGrid(r, u.slots, u.current, u.next);
  }

  /** Shut down and restarted, a node goes on as the clock says, wherever in its cycle it was before. */
  lemma ShutdownForgets(s: State, t: State, now: int, later: int)
    requires Schedulable(s, now) && s.cfg == t.cfg && s.slots == t.slots && (s.slots == [] ==> s.next == t.next)
    ensures Restart(Shutdown(s), now, later) == Restart(Shutdown(t), now, later)
    ensures Shutdown(s).slots == s.slots && !Shutdown(s).armed && !Shutdown(s).started
  {
  }

  /**
   Without starting in the middle, the first slot runs at the next cycle boundary, at most one cycle
   from now.
   */
  lemma UpdateWaitsForCycle(s: State, now: int, later: int)
    requires s.slots != [] && CountRepresentable(s.cfg, s.slots, now)
    requires !s.cfg.startInMiddle || |s.slots| == 1 || s.cfg.macType == NoMac
    ensures var u := Update(s, now, later);
      && u.current == 0 && OnGrid(Reference(s.cfg, now), s.slots, 0, u.next) && now < u.next
      && (Reference(s.cfg, now) - now <= Cycle(s.slots) ==> u.next <= now + Cycle(s.slots))
  {
    NextCycleTimeIsNext(s.cfg, s.slots, now);
  }

  /**
   Starting in the middle picks the earliest boundary of the grid that is not before the second
   clock reading, provided the clock did not step back between the readings and the reference is
   no more than one cycle ahead.
   */
  lemma UpdatePicksEarliestSlot(s: State, now: int, later: int)
    requires CountRepresentable(s.cfg, s.slots, now)
    requires s.cfg.startInMiddle && |s.slots| > 1 && s.cfg.macType != NoMac
    requires now <= later && Reference(s.cfg, now) - now <= Cycle(s.slots)
    ensures var u := Update(s, now, later);
      && OnGrid(Reference(s.cfg, now), s.slots, u.current, u.next)
      && later <= u.next
      && forall m: int, j: nat | j < |s.slots| && later <= Boundary(Reference(s.cfg, now), s.slots, m, j) ::
           u.next <= Boundary(Reference(s.cfg, now), s.slots, m, j)
  {
    var r := Reference(s.cfg, now);
    var n := CyclesSinceReference(s.cfg, s.slots, now);
    var c := Cycle(s.slots);
    var u := Update(s, now, later);
    NextCycleTimeIsNext(s.cfg, s.slots, now);
    assert Boundary(r, s.slots, n - 1, 0) == NextCycleTime(s.cfg, s.slots, now) - c by {
      assert (n - 1) * c == n * c - c;
    }
    var l := FirstNotBeforeIsEarliest(r, s.slots, n - 1, 0, later);
    forall m: int, j: nat | j < |s.slots| && later <= Boundary(r, s.slots, m, j)
      ensures u.next <= Boundary(r, s.slots, m, j)
    {
      if Before(l, u.current, m, j) {
        BoundariesInOrder(r, s.slots, l, u.current, m, j);
      } else if Before(m, j, n - 1, 0) {
        BoundariesInOrder(r, s.slots, m, j, n - 1, 0);
      }
    }
  }
}
