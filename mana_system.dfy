/** The player's mana pool (Assets/Scripts/Managers/ManaSystem.cs).

    A bounded resource that is spent by abilities, restored by pickups and
    regenerates over time.  Regeneration stops on every spend and resumes
    once `manaRegenDelay` seconds have passed since the last one.  Two
    UnityEvents report what happens: `OnManaChanged(current, max)` and the
    edge-triggered `OnManaAvailable(bool)`.

    The engine clock is a parameter: `now` is `Time.time` and `dt` is
    `Time.deltaTime` of the frame.  The class `ManaSystem` is the component
    itself; each of its methods is proved to move its state exactly as a
    step function on the value `ManaState` does, and the properties of the
    component are proved about those step functions. */
module Mana {
  import opened Mathf

  /** One invocation of a UnityEvent, in the order the component fires them. */
  datatype Event =
    | ManaChanged(current: real, max: real)
    | ManaAvailable(available: bool)

  /** The serialized settings of the component. */
  datatype ManaConfig = ManaConfig(maxMana: real, regenRate: real, regenDelay: real)

  /** The defaults written in the component: 100 mana, 20 per second, 1 second delay. */
  const DefaultConfig := ManaConfig(100.0, 20.0, 1.0)

  /** Everything the component holds: its settings, `currentMana`,
      `isRegenerating`, `lastManaUseTime`, and every event fired so far. */
  datatype ManaState = ManaState(
    config: ManaConfig,
    current: real,
    regenerating: bool,
    lastUse: real,
    log: seq<Event>)

  /** The component before `Start`: the serialized `currentMana` and
      `isRegenerating` as the inspector left them (0 and true unless changed),
      the private `lastManaUseTime` at 0, and nothing fired yet. */
  function Initial(config: ManaConfig, current: real, regenerating: bool): (m: ManaState)
    ensures m.config == config && m.log == []
    ensures m.current == current && m.regenerating == regenerating && m.lastUse == 0.0
  {
    ManaState(config, current, regenerating, 0.0, [])
  }

  ghost predicate InBounds(m: ManaState)
  {
    0.0 <= m.current <= m.config.maxMana
  }

  /** The events fired in one step that took the log from `m.log` to `r.log`. */
  function Emitted(m: ManaState, r: ManaState): seq<Event>
    requires |m.log| <= |r.log|
  {
    r.log[|m.log|..]
  }

  /** `Start`: fill the pool and announce it once. */
  function Started(m: ManaState): (r: ManaState)
    ensures r.config == m.config && r.regenerating == m.regenerating && r.lastUse == m.lastUse
    ensures r.current == m.config.maxMana
    ensures r.log == m.log + [ManaChanged(m.config.maxMana, m.config.maxMana)]
  {
    m.(current := m.config.maxMana,
       log := m.log + [ManaChanged(m.config.maxMana, m.config.maxMana)])
  }

  /** What `SpendMana` fires: always the change, and the depletion on a crossing to zero. */
  function SpendEvents(previous: real, current: real, max: real): seq<Event>
  {
    [ManaChanged(current, max)]
      + (if previous > 0.0 && current <= 0.0 then [ManaAvailable(false)] else [])
  }

  /** `SpendMana(amount)` at time `now`. */
  function Spent(m: ManaState, amount: real, now: real): (r: ManaState)
    ensures r.config == m.config
    ensures r.current >= 0.0
    ensures amount <= m.current ==> r.current == m.current - amount
    ensures amount >= m.current ==> r.current == 0.0
    ensures !r.regenerating && r.lastUse == now
    ensures |r.log| > |m.log| && r.log[..|m.log|] == m.log
    ensures r.log[|m.log|] == ManaChanged(r.current, m.config.maxMana)
    ensures |r.log| <= |m.log| + 2 && forall k :: |m.log| < k < |r.log| ==> r.log[k].ManaAvailable?
    ensures ManaAvailable(false) in Emitted(m, r) <==> m.current > 0.0 && r.current <= 0.0
    ensures ManaAvailable(true) !in Emitted(m, r)
  {
    var current := Max(m.current - amount, 0.0);
    ManaState(m.config, current, false, now,
              m.log + SpendEvents(m.current, current, m.config.maxMana))
  }

  /** The balance check of `TrySpendMana`. */
  predicate CanSpend(m: ManaState, amount: real)
  {
    m.current >= amount
  }

  /** `TrySpendMana(amount)`: the success flag and the new state. */
  function TrySpent(m: ManaState, amount: real, now: real): (r: (bool, ManaState))
    ensures r.0 <==> m.current >= amount
    ensures r.0 ==> r.1 == Spent(m, amount, now)
    ensures !r.0 ==> r.1 == m
  {
    if CanSpend(m, amount) then (true, Spent(m, amount, now)) else (false, m)
  }

  /** What `RestoreMana` and the regeneration fire for a change `previous` to `current`. */
  function GainEvents(previous: real, current: real, max: real): seq<Event>
  {
    [ManaChanged(current, max)]
      + (if previous <= 0.0 && current > 0.0 then [ManaAvailable(true)] else [])
  }

  /** `RestoreMana(amount)`. */
  function Restored(m: ManaState, amount: real): (r: ManaState)
    ensures r.config == m.config && r.regenerating == m.regenerating && r.lastUse == m.lastUse
    ensures r.current <= m.config.maxMana
    ensures m.current + amount <= m.config.maxMana ==> r.current == m.current + amount
    ensures m.current + amount >= m.config.maxMana ==> r.current == m.config.maxMana
    ensures |r.log| > |m.log| && r.log[..|m.log|] == m.log
    ensures r.log[|m.log|] == ManaChanged(r.current, m.config.maxMana)
    ensures |r.log| <= |m.log| + 2 && forall k :: |m.log| < k < |r.log| ==> r.log[k].ManaAvailable?
    ensures ManaAvailable(true) in Emitted(m, r) <==> m.current <= 0.0 && r.current > 0.0
    ensures ManaAvailable(false) !in Emitted(m, r)
  {
    var current := Min(m.current + amount, m.config.maxMana);
    m.(current := current, log := m.log + GainEvents(m.current, current, m.config.maxMana))
  }

  /** Whether regeneration runs this frame: it already did, or the delay is over. */
  predicate Resumes(m: ManaState, now: real)
  {
    m.regenerating || now - m.lastUse >= m.config.regenDelay
  }

  /** `HandleManaRegeneration` for a frame at time `now` lasting `dt`. */
  function Regenerated(m: ManaState, now: real, dt: real): (r: ManaState)
    ensures r.config == m.config && r.lastUse == m.lastUse
    ensures r.regenerating <==> Resumes(m, now)
    ensures !Resumes(m, now) ==> r == m
    ensures m.current >= m.config.maxMana ==> r.current == m.current && r.log == m.log
    ensures r.current == m.current ==> r.log == m.log
    ensures Resumes(m, now) && m.current < m.config.maxMana ==>
              r.current == Min(m.current + m.config.regenRate * dt, m.config.maxMana)
    ensures |r.log| >= |m.log| && r.log[..|m.log|] == m.log
    ensures r.current != m.current ==> |r.log| > |m.log| && r.log[|m.log|] == ManaChanged(r.current, m.config.maxMana)
    ensures |r.log| <= |m.log| + 2 && forall k :: |m.log| < k < |r.log| ==> r.log[k].ManaAvailable?
    ensures ManaAvailable(true) in Emitted(m, r) <==> m.current <= 0.0 && r.current > 0.0
    ensures ManaAvailable(false) !in Emitted(m, r)
  {
    var regenerating := Resumes(m, now);
    if regenerating && m.current < m.config.maxMana then
      var current := Min(m.current + m.config.regenRate * dt, m.config.maxMana);
      var events := if current != m.current then GainEvents(m.current, current, m.config.maxMana) else [];
      m.(regenerating := true, current := current, log := m.log + events)
    else
      m.(regenerating := regenerating)
  }

  /** One call into the component, with the clock values it reads. */
  datatype ManaCall =
    | SpendCall(amount: real, now: real)
    | TrySpendCall(amount: real, now: real)
    | RestoreCall(amount: real)
    | RegenCall(now: real, dt: real)

  function Apply(m: ManaState, c: ManaCall): (r: ManaState)
    ensures r.config == m.config
  {
    match c
    case SpendCall(amount, now) => Spent(m, amount, now)
    case TrySpendCall(amount, now) => TrySpent(m, amount, now).1
    case RestoreCall(amount) => Restored(m, amount)
    case RegenCall(now, dt) => Regenerated(m, now, dt)
  }

  /** The component after a sequence of calls, first call first. */
  function Run(m: ManaState, calls: seq<ManaCall>): (r: ManaState)
    ensures r.config == m.config
    decreases |calls|
  {
    if calls == [] then m else Run(Apply(m, calls[0]), calls[1..])
  }

  /** The amounts and the frame time are not negative. */
  predicate NonNegative(c: ManaCall)
  {
    match c
    case SpendCall(amount, _) => amount >= 0.0
    case TrySpendCall(amount, _) => amount >= 0.0
    case RestoreCall(amount) => amount >= 0.0
    case RegenCall(_, dt) => dt >= 0.0
  }

  /** With non-negative amounts, time step and rate, every call keeps
      `0 <= currentMana <= maxMana`. */
  lemma StepKeepsBounds(m: ManaState, c: ManaCall)
    requires InBounds(m) && m.config.regenRate >= 0.0 && NonNegative(c)
    ensures InBounds(Apply(m, c))
  {
  }

  lemma {:induction false} RunKeepsBounds(m: ManaState, calls: seq<ManaCall>)
    requires InBounds(m) && m.config.regenRate >= 0.0
    requires forall k :: 0 <= k < |calls| ==> NonNegative(calls[k])
    ensures InBounds(Run(m, calls))
    decreases |calls|
  {
    if calls != [] {
      StepKeepsBounds(m, calls[0]);
      RunKeepsBounds(Apply(m, calls[0]), calls[1..]);
    }
  }

  /** Only a spend stops regeneration: no other call clears `isRegenerating`. */
  lemma OnlySpendStopsRegeneration(m: ManaState, c: ManaCall)
    requires m.regenerating && !Apply(m, c).regenerating
    ensures c.SpendCall? || (c.TrySpendCall? && CanSpend(m, c.amount))
  {
  }

  /** The value an event carries to `OnManaAvailable` listeners, if it is one of theirs. */
  function Notified(e: Event): seq<bool>
  {
    if e.ManaAvailable? then [e.available] else []
  }

  /** The values carried by the `OnManaAvailable` invocations of a log, in order. */
  function Availabilities(log: seq<Event>): (av: seq<bool>)
    ensures |av| <= |log|
  {
    if log == [] then [] else Notified(log[0]) + Availabilities(log[1..])
  }

  lemma {:induction false} AvailabilitiesAppend(a: seq<Event>, b: seq<Event>)
    ensures Availabilities(a + b) == Availabilities(a) + Availabilities(b)
    decreases |a|
  {
    if a == [] {
      assert a + b == b;
    } else {
      var ab := a + b;
      assert ab != [] && ab[0] == a[0] && ab[1..] == a[1..] + b;
      assert Availabilities(ab) == Notified(a[0]) + Availabilities(a[1..] + b);
      AvailabilitiesAppend(a[1..], b);
      assert Availabilities(a) == Notified(a[0]) + Availabilities(a[1..]);
    }
  }

  /** A listener never hears the same availability twice in a row, and the
      first thing it can hear is the depletion. */
  ghost predicate Alternating(av: seq<bool>)
  {
    (|av| > 0 ==> !av[0]) && forall k :: 0 < k < |av| ==> av[k] != av[k - 1]
  }

  /** The edge-triggered `OnManaAvailable` stream tells the truth: the
      notifications alternate, and the last one heard (or "available", before
      any) is `HasMana`. */
  ghost predicate AvailabilityTracksMana(m: ManaState)
  {
    var av := Availabilities(m.log);
    Alternating(av) && (if av == [] then m.current > 0.0 else av[|av| - 1] == (m.current > 0.0))
  }

  lemma SpendEventsAvailabilities(previous: real, current: real, max: real)
    ensures Availabilities(SpendEvents(previous, current, max)) ==
              if previous > 0.0 && current <= 0.0 then [false] else []
  {
    var e := SpendEvents(previous, current, max);
    assert e[1..] == if previous > 0.0 && current <= 0.0 then [ManaAvailable(false)] else [];
    if previous > 0.0 && current <= 0.0 {
      assert e[1..][1..] == [];
    }
  }

  lemma GainEventsAvailabilities(previous: real, current: real, max: real)
    ensures Availabilities(GainEvents(previous, current, max)) ==
              if previous <= 0.0 && current > 0.0 then [true] else []
  {
    var e := GainEvents(previous, current, max);
    assert e[1..] == if previous <= 0.0 && current > 0.0 then [ManaAvailable(true)] else [];
    if previous <= 0.0 && current > 0.0 {
      assert e[1..][1..] == [];
    }
  }

  /** What a change from `previous` to `current` adds to the availability
      stream when it is reported: the new value on a crossing of zero. */
  function Crossing(previous: real, current: real): seq<bool>
  {
    if (previous > 0.0) != (current > 0.0) then [current > 0.0] else []
  }

  lemma SpentAvailabilities(m: ManaState, amount: real, now: real)
    requires InBounds(m) && amount >= 0.0
    ensures Availabilities(Spent(m, amount, now).log)
              == Availabilities(m.log) + Crossing(m.current, Spent(m, amount, now).current)
  {
    var r := Spent(m, amount, now);
    assert r.log == m.log + SpendEvents(m.current, r.current, m.config.maxMana);
    AvailabilitiesAppend(m.log, SpendEvents(m.current, r.current, m.config.maxMana));
    SpendEventsAvailabilities(m.current, r.current, m.config.maxMana);
  }

  lemma RestoredAvailabilities(m: ManaState, amount: real)
    requires InBounds(m) && amount >= 0.0
    ensures Availabilities(Restored(m, amount).log)
              == Availabilities(m.log) + Crossing(m.current, Restored(m, amount).current)
  {
    var r := Restored(m, amount);
    assert r.log == m.log + GainEvents(m.current, r.current, m.config.maxMana);
    AvailabilitiesAppend(m.log, GainEvents(m.current, r.current, m.config.maxMana));
    GainEventsAvailabilities(m.current, r.current, m.config.maxMana);
  }

  lemma RegeneratedAvailabilities(m: ManaState, now: real, dt: real)
    requires m.config.regenRate >= 0.0 && dt >= 0.0
    ensures Availabilities(Regenerated(m, now, dt).log)
              == Availabilities(m.log) + Crossing(m.current, Regenerated(m, now, dt).current)
  {
    var r := Regenerated(m, now, dt);
    if r.current != m.current {
      assert r.log == m.log + GainEvents(m.current, r.current, m.config.maxMana);
      AvailabilitiesAppend(m.log, GainEvents(m.current, r.current, m.config.maxMana));
      GainEventsAvailabilities(m.current, r.current, m.config.maxMana);
    } else {
      assert r.log == m.log;
    }
  }

  /** The availability notifications one call fires: the new value on a
      crossing of zero, nothing otherwise. */
  lemma StepAvailabilities(m: ManaState, c: ManaCall)
    requires InBounds(m) && m.config.regenRate >= 0.0 && NonNegative(c)
    ensures Availabilities(Apply(m, c).log) == Availabilities(m.log) + Crossing(m.current, Apply(m, c).current)
  {
    match c
    case SpendCall(amount, now) =>
      SpentAvailabilities(m, amount, now);
    case TrySpendCall(amount, now) =>
      if CanSpend(m, amount) {
        SpentAvailabilities(m, amount, now);
      }
    case RestoreCall(amount) =>
      RestoredAvailabilities(m, amount);
    case RegenCall(now, dt) =>
      RegeneratedAvailabilities(m, now, dt);
  }

  lemma AlternatingExtend(av: seq<bool>, b: bool)
    requires Alternating(av)
    requires if av == [] then !b else b != av[|av| - 1]
    ensures Alternating(av + [b])
  {
    var av' := av + [b];
    assert forall k :: 0 <= k < |av| ==> av'[k] == av[k];
  }

  lemma StepTracksAvailability(m: ManaState, c: ManaCall)
    requires InBounds(m) && m.config.regenRate >= 0.0 && NonNegative(c)
    requires AvailabilityTracksMana(m)
    ensures AvailabilityTracksMana(Apply(m, c))
  {
    var r := Apply(m, c);
    var av := Availabilities(m.log);
    StepAvailabilities(m, c);
    if (m.current > 0.0) != (r.current > 0.0) {
      assert Availabilities(r.log) == av + [r.current > 0.0];
      AlternatingExtend(av, r.current > 0.0);
    } else {
      assert Availabilities(r.log) == av;
    }
  }

  /** Over any run of non-negative calls the availability stream keeps telling the truth. */
  lemma {:induction false} RunTracksAvailability(m: ManaState, calls: seq<ManaCall>)
    requires InBounds(m) && m.config.regenRate >= 0.0
    requires forall k :: 0 <= k < |calls| ==> NonNegative(calls[k])
    requires AvailabilityTracksMana(m)
    ensures AvailabilityTracksMana(Run(m, calls))
    decreases |calls|
  {
    if calls != [] {
      StepKeepsBounds(m, calls[0]);
      StepTracksAvailability(m, calls[0]);
      RunTracksAvailability(Apply(m, calls[0]), calls[1..]);
    }
  }

  /** `Start` on a fresh component with a positive maximum establishes both
      invariants, whatever the inspector left in `currentMana` and `isRegenerating`. */
  lemma StartEstablishesInvariants(config: ManaConfig, current: real, regenerating: bool)
    requires config.maxMana > 0.0
    ensures InBounds(Started(Initial(config, current, regenerating)))
    ensures AvailabilityTracksMana(Started(Initial(config, current, regenerating)))
  {
    var r := Started(Initial(config, current, regenerating));
    assert Availabilities(r.log) == Availabilities([ManaChanged(config.maxMana, config.maxMana)]);
  }

  /** The `OnManaChanged` invocations of a log, in order. */
  function Changes(log: seq<Event>): (ch: seq<Event>)
    ensures |ch| <= |log|
    ensures forall k :: 0 <= k < |ch| ==> ch[k].ManaChanged?
  {
    if log == [] then [] else (if log[0].ManaChanged? then [log[0]] else []) + Changes(log[1..])
  }

  lemma {:induction false} ChangesAppend(a: seq<Event>, b: seq<Event>)
    ensures Changes(a + b) == Changes(a) + Changes(b)
    decreases |a|
  {
    if a == [] {
      assert a + b == b;
    } else {
      var ab := a + b;
      assert ab != [] && ab[0] == a[0] && ab[1..] == a[1..] + b;
      assert Changes(ab) == (if a[0].ManaChanged? then [a[0]] else []) + Changes(a[1..] + b);
      ChangesAppend(a[1..], b);
      assert Changes(a) == (if a[0].ManaChanged? then [a[0]] else []) + Changes(a[1..]);
    }
  }

  /** A report followed only by availability notifications: its one change is the report. */
  lemma {:induction false} ReportChanges(e: Event, rest: seq<Event>)
    requires e.ManaChanged?
    requires forall k :: 0 <= k < |rest| ==> rest[k].ManaAvailable?
    ensures Changes([e] + rest) == [e]
    decreases |rest|
  {
    var er := [e] + rest;
    assert er[0] == e && er[1..] == rest;
    NoChanges(rest);
  }

  lemma {:induction false} NoChanges(rest: seq<Event>)
    requires forall k :: 0 <= k < |rest| ==> rest[k].ManaAvailable?
    ensures Changes(rest) == []
    decreases |rest|
  {
    if rest != [] {
      NoChanges(rest[1..]);
    }
  }

  /** The `OnManaChanged` stream tells the truth: something was reported, and
      the last report carries the current balance and the maximum. */
  ghost predicate ChangeTracksMana(m: ManaState)
  {
    var ch := Changes(m.log);
    ch != [] && ch[|ch| - 1] == ManaChanged(m.current, m.config.maxMana)
  }

  /** A call that fires one report of the new balance and then only
      availability notifications leaves the change stream truthful. */
  lemma ReportKeepsChangeTruthful(m: ManaState, r: ManaState)
    requires r.config == m.config
    requires |r.log| > |m.log| && r.log[..|m.log|] == m.log
    requires r.log[|m.log|] == ManaChanged(r.current, m.config.maxMana)
    requires forall k :: |m.log| < k < |r.log| ==> r.log[k].ManaAvailable?
    ensures ChangeTracksMana(r)
  {
    var tail := r.log[|m.log| + 1..];
    assert r.log == m.log + ([r.log[|m.log|]] + tail);
    assert forall k :: 0 <= k < |tail| ==> tail[k] == r.log[|m.log| + 1 + k];
    ChangesAppend(m.log, [r.log[|m.log|]] + tail);
    ReportChanges(r.log[|m.log|], tail);
  }

  /** `Start` reports the filled pool, whatever the log held before. */
  lemma StartedReportsMana(m: ManaState)
    ensures ChangeTracksMana(Started(m))
  {
    var r := Started(m);
    ReportKeepsChangeTruthful(m, r);
  }

  /** Every call keeps the last `OnManaChanged` equal to the current balance. */
  lemma StepTracksChange(m: ManaState, c: ManaCall)
    requires ChangeTracksMana(m)
    ensures ChangeTracksMana(Apply(m, c))
  {
    var r := Apply(m, c);
    if |r.log| > |m.log| && r.log[|m.log|].ManaChanged? {
      ReportKeepsChangeTruthful(m, r);
    } else {
      assert r.log == m.log && r.current == m.current;
    }
  }

  lemma {:induction false} RunTracksChange(m: ManaState, calls: seq<ManaCall>)
    requires ChangeTracksMana(m)
    ensures ChangeTracksMana(Run(m, calls))
    decreases |calls|
  {
    if calls != [] {
      StepTracksChange(m, calls[0]);
      RunTracksChange(Apply(m, calls[0]), calls[1..]);
    }
  }

  /** Regeneration is not prorated: with the defaults, 70 mana spent at time 10 and a
      frame at time 11.1 lasting 0.6 s adds the whole 20 * 0.6, not 20 * 0.1. */
  lemma RegenerationNotProrated()
    ensures Regenerated(Regenerated(ManaState(DefaultConfig, 70.0, false, 10.0, []), 10.5, 0.5), 11.1, 0.6).current == 82.0
  {
    var m := ManaState(DefaultConfig, 70.0, false, 10.0, []);
    assert !Resumes(m, 10.5);
    var m1 := Regenerated(m, 10.5, 0.5);
    assert m1 == m;
    assert Resumes(m1, 11.1);
  }

  /** The `ManaSystem` component.  Its settings are fixed after construction;
      `events` records every UnityEvent invocation. */
  class ManaSystem {
    const maxMana: real
    const manaRegenRate: real
    const manaRegenDelay: real
    var currentMana: real
    var isRegenerating: bool
    var lastManaUseTime: real
    ghost var events: seq<Event>

    function Config(): ManaConfig
    {
      ManaConfig(maxMana, manaRegenRate, manaRegenDelay)
    }

    ghost function Model(): ManaState
      reads this
    {
      ManaState(Config(), currentMana, isRegenerating, lastManaUseTime, events)
    }

    /** The component as loaded: its settings and the serialized state. */
    constructor (maxMana: real, manaRegenRate: real, manaRegenDelay: real, currentMana: real, isRegenerating: bool)
      ensures Model() == Initial(ManaConfig(maxMana, manaRegenRate, manaRegenDelay), currentMana, isRegenerating)
    {
      this.maxMana := maxMana;
      this.manaRegenRate := manaRegenRate;
      this.manaRegenDelay := manaRegenDelay;
      this.currentMana := currentMana;
      this.isRegenerating := isRegenerating;
      lastManaUseTime := 0.0;
      events := [];
    }

    /** `CurrentMana`: the balance, which the last `OnManaChanged` reported. */
    function CurrentMana(): (r: real)
      reads this
      ensures ChangeTracksMana(Model()) ==>
                Changes(events)[|Changes(events)| - 1] == ManaChanged(r, maxMana)
    {
      currentMana
    }

    /** `ManaPercentage`: the fill ratio of the pool. */
    function ManaPercentage(): (r: real)
      reads this
      requires maxMana != 0.0
      ensures InBounds(Model()) ==> 0.0 <= r <= 1.0
      ensures r == 1.0 <==> currentMana == maxMana
    {
      currentMana / maxMana
    }

    /** `HasMana` agrees with the last `OnManaAvailable` notification. */
    function HasMana(): (r: bool)
      reads this
      ensures AvailabilityTracksMana(Model()) && Availabilities(events) != [] ==>
                r == Availabilities(events)[|Availabilities(events)| - 1]
      ensures AvailabilityTracksMana(Model()) && Availabilities(events) == [] ==> r
    {
      currentMana > 0.0
    }

    method Start()
      modifies this
      ensures Model() == Started(old(Model()))
    {
      currentMana := maxMana;
      events := events + [ManaChanged(currentMana, maxMana)];
    }

    method HandleManaRegeneration(now: real, dt: real)
      modifies this
      ensures Model() == Regenerated(old(Model()), now, dt)
    {
      ghost var before := Model();
      if !isRegenerating && now - lastManaUseTime >= manaRegenDelay {
        isRegenerating := true;
      }
      if isRegenerating && currentMana < maxMana {
        var previousMana := currentMana;
        currentMana := Min(currentMana + manaRegenRate * dt, maxMana);
        if currentMana != previousMana {
          events := events + [ManaChanged(currentMana, maxMana)];
          if previousMana <= 0.0 && currentMana > 0.0 {
            events := events + [ManaAvailable(true)];
          }
          assert events == before.log + GainEvents(previousMana, currentMana, maxMana);
        }
      }
    }

    method TrySpendMana(amount: real, now: real) returns (ok: bool)
      modifies this
      ensures TrySpent(old(Model()), amount, now) == (ok, Model())
    {
      if currentMana >= amount {
        SpendMana(amount, now);
        return true;
      }
      return false;
    }

    method SpendMana(amount: real, now: real)
      modifies this
      ensures Model() == Spent(old(Model()), amount, now)
    {
      var previousMana := currentMana;
      currentMana := Max(currentMana - amount, 0.0);
      isRegenerating := false;
      lastManaUseTime := now;
      events := events + [ManaChanged(currentMana, maxMana)];
      if previousMana > 0.0 && currentMana <= 0.0 {
        events := events + [ManaAvailable(false)];
      }
    }

    method RestoreMana(amount: real)
      modifies this
      ensures Model() == Restored(old(Model()), amount)
    {
      var previousMana := currentMana;
      currentMana := Min(currentMana + amount, maxMana);
      events := events + [ManaChanged(currentMana, maxMana)];
      if previousMana <= 0.0 && currentMana > 0.0 {
        events := events + [ManaAvailable(true)];
      }
    }
  }
}
