/** Subscriptions and publications of a MOOS application across connects and disconnects. */
module MoosApp {

  datatype Request = Request(name: string, blackout: int)
  datatype WildRequest = WildRequest(variable: string, app: string, blackout: int)
  datatype Msg = Msg(key: string, value: string)

  /**
   What the application asked for and what reached the server: every subscription requested, the
   registrations made since the last disconnect, every message published, every message posted.
   */
  datatype Log = Log(requested: seq<Request>, wildRequested: seq<WildRequest>,
                     registered: seq<Request>, wildRegistered: seq<WildRequest>,
                     published: seq<Msg>, posted: seq<Msg>)

  datatype App = App(connected: bool, startedUp: bool,
                     pending: seq<Request>, existing: seq<Request>,
                     wildPending: seq<WildRequest>, wildExisting: seq<WildRequest>,
                     buffer: seq<Msg>, log: Log)

  const INITIAL := App(false, false, [], [], [], [], [], Log([], [], [], [], [], []))

  predicate Live(a: App) {
    a.connected && a.startedUp
  }

  /** Registers everything pending, in order; a failed registration is not kept apart. */
  function TrySubscribing(a: App): App {
    if !Live(a) then a
    else a.(pending := [], existing := a.existing + a.pending,
            wildPending := [], wildExisting := a.wildExisting + a.wildPending,
            log := a.log.(registered := a.log.registered + a.pending,
                          wildRegistered := a.log.wildRegistered + a.wildPending))
  }

  function Subscribe(a: App, r: Request): App {
    TrySubscribing(a.(pending := a.pending + [r], log := a.log.(requested := a.log.requested + [r])))
  }

  function SubscribeWild(a: App, r: WildRequest): App {
    TrySubscribing(a.(wildPending := a.wildPending + [r], log := a.log.(wildRequested := a.log.wildRequested + [r])))
  }

  function Publish(a: App, m: Msg): App {
    var log := a.log.(published := a.log.published + [m]);
    if Live(a) then a.(log := log.(posted := log.posted + [m])) else a.(buffer := a.buffer + [m], log := log)
  }

  function PublishAll(a: App, ms: seq<Msg>): App {
    if ms == [] then a else Publish(PublishAll(a, ms[..|ms| - 1]), ms[|ms| - 1])
  }

  /** Connecting registers what is pending and publishes the configured initial values. */
  function Connect(a: App, initial: seq<Msg>): App {
    PublishAll(TrySubscribing(a.(connected := true)), initial)
  }

  function Disconnect(a: App): App {
    a.(connected := false, pending := a.pending + a.existing, existing := [],
       wildPending := a.wildPending + a.wildExisting, wildExisting := [],
       log := a.log.(registered := [], wildRegistered := []))
  }

  function StartUp(a: App): App {
    TrySubscribing(a.(startedUp := true))
  }

  /** The first part of every iteration: posting what was buffered. */
  function Flush(a: App): App {
    if !Live(a) then a else a.(buffer := [], log := a.log.(posted := a.log.posted + a.buffer))
  }

  datatype Step =
    | DoSubscribe(r: Request)
    | DoSubscribeWild(w: WildRequest)
    | DoPublish(m: Msg)
    | DoConnect(initial: seq<Msg>)
    | DoDisconnect
    | DoStartUp
    | DoIterate

  function Apply(a: App, step: Step): App {
    match step
    case DoSubscribe(r) => Subscribe(a, r)
    case DoSubscribeWild(w) => SubscribeWild(a, w)
    case DoPublish(m) => Publish(a, m)
    case DoConnect(initial) => Connect(a, initial)
    case DoDisconnect => Disconnect(a)
    case DoStartUp => StartUp(a)
    case DoIterate => Flush(a)
  }

  function Run(a: App, steps: seq<Step>): App {
    if steps == [] then a else Apply(Run(a, steps[..|steps| - 1]), steps[|steps| - 1])
  }

  // ---- Conservation ----

  /** One kind of subscription: nothing lost, doubled or reordered, and registered exactly while live. */
  ghost predicate Conserved<T(!new)>(live: bool, pending: seq<T>, existing: seq<T>, requested: seq<T>,
                                     registered: seq<T>)
  {
    && existing + pending == requested
    && (live ==> pending == [])
    && (!live ==> existing == [])
    && registered == existing
  }

  ghost predicate Invariant(a: App) {
    && Conserved(Live(a), a.pending, a.existing, a.log.requested, a.log.registered)
    && Conserved(Live(a), a.wildPending, a.wildExisting, a.log.wildRequested, a.log.wildRegistered)
    && multiset(a.log.posted) + multiset(a.buffer) == multiset(a.log.published)
  }

  lemma TryKeepsInvariant(a: App)
    requires a.existing + a.pending == a.log.requested && a.wildExisting + a.wildPending == a.log.wildRequested
    requires a.log.registered == a.existing && a.log.wildRegistered == a.wildExisting
    requires !Live(a) ==> a.existing == [] && a.wildExisting == []
    requires multiset(a.log.posted) + multiset(a.buffer) == multiset(a.log.published)
    ensures Invariant(TrySubscribing(a))
  {
    var b := TrySubscribing(a);
    assert Live(a) ==> b.existing + [] == a.log.requested && b.wildExisting + [] == a.log.wildRequested;
  }

  lemma SubscribeKeeps(a: App, r: Request)
    requires Invariant(a)
    ensures Invariant(Subscribe(a, r))
  {
    TryKeepsInvariant(a.(pending := a.pending + [r], log := a.log.(requested := a.log.requested + [r])));
  }

  lemma SubscribeWildKeeps(a: App, w: WildRequest)
    requires Invariant(a)
    ensures Invariant(SubscribeWild(a, w))
  {
    var log := a.log.(wildRequested := a.log.wildRequested + [w]);
    TryKeepsInvariant(a.(wildPending := a.wildPending + [w], log := log));
  }

  lemma PublishKeeps(a: App, m: Msg)
    requires Invariant(a)
    ensures Invariant(Publish(a, m))
  {
    assert multiset(a.log.published + [m]) == multiset(a.log.published) + multiset{m};
  }

  lemma {:induction false} PublishAllKeeps(a: App, ms: seq<Msg>)
    requires Invariant(a)
    ensures Invariant(PublishAll(a, ms))
  {
    if ms != [] {
      PublishAllKeeps(a, ms[..|ms| - 1]);
      PublishKeeps(PublishAll(a, ms[..|ms| - 1]), ms[|ms| - 1]);
    }
  }

  lemma DisconnectKeeps(a: App)
    requires Invariant(a)
    ensures Invariant(Disconnect(a))
  {
    assert Live(a) ==> [] + a.existing == a.existing + [] && [] + a.wildExisting == a.wildExisting + [];
  }

  lemma FlushKeeps(a: App)
    requires Invariant(a)
    ensures Invariant(Flush(a))
  {
    assert multiset(a.log.posted + a.buffer) == multiset(a.log.posted) + multiset(a.buffer);
  }

  lemma StepKeepsInvariant(a: App, step: Step)
    requires Invariant(a)
    ensures Invariant(Apply(a, step))
  {
    match step
    case DoSubscribe(r) => SubscribeKeeps(a, r);
    case DoSubscribeWild(w) => SubscribeWildKeeps(a, w);
    case DoPublish(m) => PublishKeeps(a, m);
    case DoConnect(initial) =>
      TryKeepsInvariant(a.(connected := true));
      PublishAllKeeps(TrySubscribing(a.(connected := true)), initial);
    case DoDisconnect => DisconnectKeeps(a);
    case DoStartUp => TryKeepsInvariant(a.(startedUp := true));
    case DoIterate => FlushKeeps(a);
  }

  lemma {:induction false} RunKeepsInvariant(a: App, steps: seq<Step>)
    requires Invariant(a)
    ensures Invariant(Run(a, steps))
    decreases |steps|
  {
    if steps != [] {
      RunKeepsInvariant(a, steps[..|steps| - 1]);
      StepKeepsInvariant(Run(a, steps[..|steps| - 1]), steps[|steps| - 1]);
    }
  }

  /**
   In every run: subscriptions are conserved, and while live each request is registered in the
   present session, in the order of the requests; messages are posted once or still buffered.
   */
  lemma EveryRunConserves(steps: seq<Step>)
    ensures var a := Run(INITIAL, steps);
      && Invariant(a)
      && (Live(a) ==> a.log.registered == a.log.requested
                      && a.log.wildRegistered == a.log.wildRequested)
      && (!Live(a) ==> a.pending == a.log.requested
                       && a.wildPending == a.log.wildRequested)
  {
    RunKeepsInvariant(INITIAL, steps);
  }

  // ---- Order of messages ----

  lemma {:induction false} RotatedIsUniform(m: Msg, b: seq<Msg>)
    ensures [m] + b == b + [m] <==> forall x | x in b :: x == m
    decreases |b|
  {
    if b != [] {
      var c := b[1..];
      assert b == [b[0]] + c;
      if [m] + b == b + [m] {
        assert ([m] + b)[0] == (b + [m])[0] == b[0];
        assert ([m] + b)[1..] == b == [m] + c && (b + [m])[1..] == c + [m];
        RotatedIsUniform(m, c);
      }
      if forall x | x in b :: x == m {
        assert b[0] in b;
        RotatedIsUniform(m, c);
        assert forall x | x in c :: x in b;
        assert [m] + ([m] + c) == [m] + (c + [m]) == b + [m];
      }
    }
  }

  /** What reached the server, followed by what is still buffered, is what was published. */
  predicate InOrder(a: App) {
    a.log.posted + a.buffer == a.log.published
  }

  /**
   Publishing keeps messages in order exactly when no different message is waiting in the
   buffer of a live application.
   */
  lemma PublishKeepsOrderIff(a: App, m: Msg)
    requires InOrder(a)
    ensures InOrder(Publish(a, m)) <==> !Live(a) || forall x | x in a.buffer :: x == m
  {
    var p := a.log.posted;
    assert (p + a.buffer) + [m] == p + (a.buffer + [m]) && (p + [m]) + a.buffer == p + ([m] + a.buffer);
    assert (p + (a.buffer + [m]))[|p|..] == a.buffer + [m] && (p + ([m] + a.buffer))[|p|..] == [m] + a.buffer;
    RotatedIsUniform(m, a.buffer);
  }

  /** The messages that a step publishes. */
  function Publishes(step: Step): seq<Msg> {
    match step
    case DoPublish(m) => [m]
    case DoConnect(initial) => initial
    case _ => []
  }

  /** Whether the application is live when a step publishes. */
  predicate PublishesLive(a: App, step: Step) {
    if step.DoConnect? then a.startedUp else Live(a)
  }

  /** Publishing in front of the buffer or behind it makes no difference. */
  predicate Undisturbed(a: App, step: Step) {
    PublishesLive(a, step) ==> Publishes(step) + a.buffer == a.buffer + Publishes(step)
  }

  lemma {:induction false} PublishAllAtOnce(a: App, ms: seq<Msg>)
    ensures var b := PublishAll(a, ms);
      && Live(b) == Live(a) && b.log.published == a.log.published + ms
      && b.log.posted == (if Live(a) then a.log.posted + ms else a.log.posted)
      && b.buffer == (if Live(a) then a.buffer else a.buffer + ms)
    decreases |ms|
  {
    if ms == [] {
      assert a.log.published + ms == a.log.published && a.log.posted + ms == a.log.posted && a.buffer + ms == a.buffer;
    } else {
      var first, last := ms[..|ms| - 1], ms[|ms| - 1];
      PublishAllAtOnce(a, first);
      assert forall s: seq<Msg> :: s + first + [last] == s + (first + [last]);
      assert first + [last] == ms;
    }
  }

  /** Order after publishing some messages at once, exactly. */
  lemma CommutesIff(posted: seq<Msg>, buffer: seq<Msg>, ms: seq<Msg>)
    ensures (posted + ms) + buffer == (posted + buffer) + ms <==> ms + buffer == buffer + ms
  {
    var s, t := (posted + ms) + buffer, (posted + buffer) + ms;
    assert s == posted + (ms + buffer) && t == posted + (buffer + ms);
    assert s[|posted|..] == ms + buffer && t[|posted|..] == buffer + ms;
  }

  /** A step keeps the order exactly when it is undisturbed. */
  lemma StepKeepsOrderIff(a: App, step: Step)
    requires InOrder(a)
    ensures InOrder(Apply(a, step)) <==> Undisturbed(a, step)
  {
    var ms := Publishes(step);
    CommutesIff(a.log.posted, a.buffer, ms);
    assert (a.log.posted + a.buffer) + ms == a.log.posted + (a.buffer + ms);
    if step.DoPublish? {
      assert PublishAll(a, [step.m]) == Publish(PublishAll(a, [step.m][..0]), step.m) == Publish(a, step.m);
      PublishAllAtOnce(a, [step.m]);
    } else if step.DoConnect? {
      PublishAllAtOnce(TrySubscribing(a.(connected := true)), ms);
    } else {
      assert ms + a.buffer == a.buffer == a.buffer + ms;
      assert a.log.posted + a.buffer + [] == a.log.posted + a.buffer;
    }
  }

  /** The order holds at every point of the run. */
  predicate AlwaysInOrder(steps: seq<Step>) {
    InOrder(Run(INITIAL, steps)) && (steps == [] || AlwaysInOrder(steps[..|steps| - 1]))
  }

  predicate AllUndisturbed(steps: seq<Step>) {
    steps == [] || (
      var before := steps[..|steps| - 1];
      AllUndisturbed(before) && Undisturbed(Run(INITIAL, before), steps[|steps| - 1]))
  }

  /** A run never mixes up messages exactly when each of its steps finds nothing in its way. */
  lemma {:induction false} RunStaysInOrderIff(steps: seq<Step>)
    ensures AlwaysInOrder(steps) <==> AllUndisturbed(steps)
    decreases |steps|
  {
    if steps != [] {
      var before := steps[..|steps| - 1];
      RunStaysInOrderIff(before);
      if InOrder(Run(INITIAL, before)) {
        StepKeepsOrderIff(Run(INITIAL, before), steps[|steps| - 1]);
      }
    }
  }

  /** A message published just after going live overtakes one that was buffered before. */
  lemma BufferedMessageIsOvertaken(x: Msg, y: Msg)
    ensures var a := Run(INITIAL, [DoPublish(x), DoConnect([]), DoStartUp, DoPublish(y)]);
      a.log.published == [x, y] && a.log.posted + a.buffer == [y, x]
  {
    var one, two := [DoPublish(x)], [DoPublish(x), DoConnect([])];
    var three, four := two + [DoStartUp], [DoPublish(x), DoConnect([]), DoStartUp, DoPublish(y)];
    assert one[..0] == [] && two[..1] == one && three[..2] == two && four[..3] == three;
    var a := Publish(INITIAL, x);
    assert Run(INITIAL, one) == a;
    assert Run(INITIAL, two) == Connect(a, []) == a.(connected := true);
    var b := StartUp(a.(connected := true));
    assert Run(INITIAL, three) == b && Run(INITIAL, four) == Publish(b, y);
    assert [x] + [y] == [x, y] && [] + [y] + [x] == [y, x];
  }

  // ---- The application object ----

  class MoosApplication {
    var connected: bool
    var startedUp: bool
    var pending: seq<Request>
    var existing: seq<Request>
    var wildPending: seq<WildRequest>
    var wildExisting: seq<WildRequest>
    var buffer: seq<Msg>
    ghost var log: Log

    ghost function Now(): App
      reads this
    {
      App(connected, startedUp, pending, existing, wildPending, wildExisting, buffer, log)
    }

    constructor ()
      ensures Now() == INITIAL && Invariant(Now())
    {
      connected, startedUp, pending, existing, wildPending, wildExisting, buffer := false, false, [], [], [], [], [];
      log := Log([], [], [], [], [], []);
    }

    method Register()
      modifies this
      ensures Now() == TrySubscribing(old(Now()))
    {
      if connected && startedUp {
        while pending != []
          invariant existing + pending == old(existing + pending)
          invariant Now() == old(Now()).(pending := pending, existing := existing, log := log)
          invariant log == old(log).(registered := log.registered)
          invariant log.registered + pending == old(log.registered + pending)
          decreases |pending|
        {
          existing := existing + [pending[0]];
          log := log.(registered := log.registered + [pending[0]]);
          pending := pending[1..];
        }
        ghost var middle := Now();
        while wildPending != []
          invariant wildExisting + wildPending == old(wildExisting + wildPending)
          invariant Now() == middle.(wildPending := wildPending, wildExisting := wildExisting, log := log)
          invariant log == middle.log.(wildRegistered := log.wildRegistered)
          invariant log.wildRegistered + wildPending == old(log.wildRegistered + wildPending)
          decreases |wildPending|
        {
          wildExisting := wildExisting + [wildPending[0]];
          log := log.(wildRegistered := log.wildRegistered + [wildPending[0]]);
          wildPending := wildPending[1..];
        }
      }
    }

    method SubscribeTo(r: Request)
      requires Invariant(Now())
      modifies this
      ensures Now() == Subscribe(old(Now()), r) && Invariant(Now())
    {
      SubscribeKeeps(Now(), r);
      pending := pending + [r];
      log := log.(requested := log.requested + [r]);
      Register();
    }

    method SubscribeToWild(w: WildRequest)
      requires Invariant(Now())
      modifies this
      ensures Now() == SubscribeWild(old(Now()), w) && Invariant(Now())
    {
      SubscribeWildKeeps(Now(), w);
      wildPending := wildPending + [w];
      log := log.(wildRequested := log.wildRequested + [w]);
      Register();
    }

    method PublishMessage(m: Msg)
      modifies this
      ensures Now() == Publish(old(Now()), m)
    {
      log := log.(published := log.published + [m]);
      if connected && startedUp {
        log := log.(posted := log.posted + [m]);
      } else {
        buffer := buffer + [m];
      }
    }

    method OnConnectToServer(initial: seq<Msg>)
      requires Invariant(Now())
      modifies this
      ensures Now() == Connect(old(Now()), initial) && Invariant(Now())
    {
      StepKeepsInvariant(Now(), DoConnect(initial));
      connected := true;
      Register();
      ghost var a := Now();
      for i := 0 to |initial|
        invariant Now() == PublishAll(a, initial[..i])
      {
        assert initial[..i + 1][..i] == initial[..i];
        PublishMessage(initial[i]);
      }
      assert initial[..|initial|] == initial;
    }

    method OnDisconnectFromServer()
      requires Invariant(Now())
      modifies this
      ensures Now() == Disconnect(old(Now())) && Invariant(Now())
    {
      DisconnectKeeps(Now());
      connected := false;
      pending, existing := pending + existing, [];
      wildPending, wildExisting := wildPending + wildExisting, [];
      log := log.(registered := [], wildRegistered := []);
    }

    method OnStartUp()
      requires Invariant(Now())
      modifies this
      ensures Now() == StartUp(old(Now())) && Invariant(Now())
    {
      StepKeepsInvariant(Now(), DoStartUp);
      startedUp := true;
      Register();
    }

    method FlushBuffer()
      requires Invariant(Now())
      modifies this
      ensures Now() == Flush(old(Now())) && Invariant(Now())
    {
      FlushKeeps(Now());
      while buffer != [] && connected && startedUp
        invariant Now() == old(Now()).(buffer := buffer, log := log)
        invariant log == old(log).(posted := log.posted) && log.posted + buffer == old(log.posted + buffer)
        invariant !(connected && startedUp) ==> Now() == old(Now())
        decreases |buffer|
      {
        log := log.(posted := log.posted + [buffer[0]]);
        buffer := buffer[1..];
      }
    }
  }
}
