/** The ability scheduler of the player (Assets/Scripts/Player/PlayerController.cs):
    six ability slots, a parallel array of cooldown timers, and the admission
    check that spends mana and starts a cooldown.

    Each frame `Update` first tries every slot whose button was pressed, in
    slot order, and only then counts the timers down by the frame time.  A
    timer is decremented only while it is positive and is never clamped, so
    it may end below zero; a slot is ready whenever its timer is `<= 0`.

    The class `PlayerController` holds the two arrays and the reference to
    the mana component; its methods are proved to act as the functions on
    the value `Controller` below, about which the properties are proved. */
module Player {
  import opened Optional
  import opened Mathf
  import opened Mana
  import opened Abilities

  /** The number of ability buttons, and of slots in both arrays. */
  const SlotCount := 6

  /** The state the scheduler changes: the cooldown timers, and the mana
      component when one was found at startup. */
  datatype Controller = Controller(cooldowns: seq<real>, mana: Option<ManaState>)

  /** The checks `TryUseAbility` makes, in its order: a mana component, an
      ability in the slot, a timer that is not positive, enough mana. */
  predicate Admitted(slots: seq<Option<Ability>>, s: Controller, i: nat)
    requires i < |slots| && i < |s.cooldowns|
  {
    s.mana.Some? && slots[i].Some? && s.cooldowns[i] <= 0.0
    && CanSpend(s.mana.value, slots[i].value.manaCost)
  }

  /** `TryUseAbility(i)` at time `now`.  A denied request changes nothing;
      an admitted one spends the cost and restarts the slot's timer. */
  function AbilityUsed(slots: seq<Option<Ability>>, s: Controller, i: nat, now: real): (r: Controller)
    requires i < |slots| == |s.cooldowns|
    ensures |r.cooldowns| == |s.cooldowns| && (r.mana.Some? <==> s.mana.Some?)
    ensures s.mana.None? ==> r == s
    ensures slots[i].None? || s.cooldowns[i] > 0.0 ==> r == s
    ensures s.mana.Some? && slots[i].Some? && s.mana.value.current < slots[i].value.manaCost ==> r == s
    ensures Admitted(slots, s, i) ==>
              r.mana.value == Spent(s.mana.value, slots[i].value.manaCost, now)
              && r.mana.value.current == s.mana.value.current - slots[i].value.manaCost
              && r.cooldowns[i] == slots[i].value.cooldownDuration
    ensures forall k :: 0 <= k < |s.cooldowns| && k != i ==> r.cooldowns[k] == s.cooldowns[k]
  {
    if s.mana.None? then s
    else if slots[i].None? || s.cooldowns[i] > 0.0 then s
    else
      var ability := slots[i].value;
      if !CanSpend(s.mana.value, ability.manaCost) then s
      else Controller(s.cooldowns[i := ability.cooldownDuration],
                      Some(Spent(s.mana.value, ability.manaCost, now)))
  }

  /** `HandleAbilities` after its loop has looked at the first `n` slots. */
  function PressesHandled(slots: seq<Option<Ability>>, s: Controller, pressed: seq<bool>, n: nat, now: real): (r: Controller)
    requires |slots| == |s.cooldowns| && n <= |pressed| && n <= |slots|
    ensures |r.cooldowns| == |s.cooldowns| && (r.mana.Some? <==> s.mana.Some?)
    ensures s.mana.None? ==> r == s
    ensures forall k :: n <= k < |s.cooldowns| ==> r.cooldowns[k] == s.cooldowns[k]
    ensures forall k :: 0 <= k < n && !pressed[k] ==> r.cooldowns[k] == s.cooldowns[k]
    decreases n
  {
    if n == 0 then s
    else
      var t := PressesHandled(slots, s, pressed, n - 1, now);
      if pressed[n - 1] then AbilityUsed(slots, t, n - 1, now) else t
  }

  /** `UpdateCooldowns(dt)`: positive timers lose `dt`, the others stay. */
  function CooldownsTicked(cooldowns: seq<real>, dt: real): (r: seq<real>)
    ensures |r| == |cooldowns|
    ensures forall k :: 0 <= k < |cooldowns| && cooldowns[k] <= 0.0 ==> r[k] == cooldowns[k]
    ensures forall k :: 0 <= k < |cooldowns| && cooldowns[k] > 0.0 ==> r[k] == cooldowns[k] - dt
  {
    if cooldowns == [] then []
    else [if cooldowns[0] > 0.0 then cooldowns[0] - dt else cooldowns[0]]
         + CooldownsTicked(cooldowns[1..], dt)
  }

  /** The ability part of `Update`: presses first, then the timers. */
  function FrameUpdated(slots: seq<Option<Ability>>, s: Controller, pressed: seq<bool>, now: real, dt: real): (r: Controller)
    requires |slots| == |s.cooldowns| == |pressed|
    ensures |r.cooldowns| == |s.cooldowns|
    ensures r.mana == PressesHandled(slots, s, pressed, |pressed|, now).mana
    ensures forall k :: 0 <= k < |pressed| && !pressed[k] ==>
              r.cooldowns[k] == if s.cooldowns[k] > 0.0 then s.cooldowns[k] - dt else s.cooldowns[k]
  {
    var h := PressesHandled(slots, s, pressed, |pressed|, now);
    h.(cooldowns := CooldownsTicked(h.cooldowns, dt))
  }

  /** Slots that are not pressed do nothing: the loop passes over them. */
  lemma {:induction false} UnpressedSlotsIdle(slots: seq<Option<Ability>>, s: Controller, pressed: seq<bool>, a: nat, n: nat, now: real)
    requires |slots| == |s.cooldowns| && a <= n <= |pressed| && n <= |slots|
    requires forall k :: a <= k < n ==> !pressed[k]
    ensures PressesHandled(slots, s, pressed, n, now) == PressesHandled(slots, s, pressed, a, now)
    decreases n
  {
    if n > a {
      UnpressedSlotsIdle(slots, s, pressed, a, n - 1, now);
    }
  }

  /** Two buttons pressed in one frame are handled in slot order, the
      second seeing the state the first one left. */
  lemma TwoPressesInSlotOrder(slots: seq<Option<Ability>>, s: Controller, pressed: seq<bool>, i: nat, j: nat, now: real)
    requires |slots| == |s.cooldowns| == |pressed|
    requires i < j < |pressed|
    requires forall k :: 0 <= k < |pressed| ==> (pressed[k] <==> k == i || k == j)
    ensures PressesHandled(slots, s, pressed, |pressed|, now)
              == AbilityUsed(slots, AbilityUsed(slots, s, i, now), j, now)
  {
    var first := AbilityUsed(slots, s, i, now);
    UnpressedSlotsIdle(slots, s, pressed, 0, i, now);
    assert PressesHandled(slots, s, pressed, i, now) == s;
    assert pressed[i];
    assert PressesHandled(slots, s, pressed, i + 1, now) == first;
    UnpressedSlotsIdle(slots, s, pressed, i + 1, j, now);
    assert PressesHandled(slots, s, pressed, j, now) == first;
    assert pressed[j];
    assert PressesHandled(slots, s, pressed, j + 1, now) == AbilityUsed(slots, first, j, now);
    UnpressedSlotsIdle(slots, s, pressed, j + 1, |pressed|, now);
  }

  /** Both of two ready, bound slots are admitted exactly when the balance
      covers the first cost and then the second from what is left. */
  lemma BothAdmittedIff(slots: seq<Option<Ability>>, s: Controller, i: nat, j: nat, now: real)
    requires |slots| == |s.cooldowns| && i < |slots| && j < |slots| && i != j
    requires s.mana.Some? && slots[i].Some? && slots[j].Some?
    requires s.cooldowns[i] <= 0.0 && s.cooldowns[j] <= 0.0
    ensures Admitted(slots, s, i) && Admitted(slots, AbilityUsed(slots, s, i, now), j)
            <==> s.mana.value.current >= slots[i].value.manaCost
                 && s.mana.value.current - slots[i].value.manaCost >= slots[j].value.manaCost
  {
  }

  /** The slot's timer, once set during the loop, is not touched by the slots after it. */
  lemma {:induction false} LaterSlotsKeepCooldown(slots: seq<Option<Ability>>, s: Controller, pressed: seq<bool>, i: nat, n: nat, now: real)
    requires |slots| == |s.cooldowns| && i < n <= |pressed| && n <= |slots|
    ensures PressesHandled(slots, s, pressed, n, now).cooldowns[i]
              == PressesHandled(slots, s, pressed, i + 1, now).cooldowns[i]
    decreases n
  {
    if n > i + 1 {
      LaterSlotsKeepCooldown(slots, s, pressed, i, n - 1, now);
    }
  }

  /** Activations run before the timers tick, so a slot admitted this frame
      ends it one frame time below its duration. */
  lemma ActivatedSlotEndsFrameTicked(slots: seq<Option<Ability>>, s: Controller, pressed: seq<bool>, i: nat, now: real, dt: real)
    requires |slots| == |s.cooldowns| == |pressed| && i < |pressed|
    requires pressed[i] && Admitted(slots, PressesHandled(slots, s, pressed, i, now), i)
    requires slots[i].value.cooldownDuration > 0.0
    ensures FrameUpdated(slots, s, pressed, now, dt).cooldowns[i] == slots[i].value.cooldownDuration - dt
  {
    LaterSlotsKeepCooldown(slots, s, pressed, i, |pressed|, now);
  }

  /** A timer is not clamped: half a second left and a one-second frame leaves -0.5. */
  lemma CooldownGoesBelowZero()
    ensures CooldownsTicked([0.5], 1.0) == [-0.5]
  {
  }

  /** A full default pool and a 30-mana, 2-second ability in slot 0: the
      first request is admitted and leaves 70 mana and a 2-second timer; a
      second request before any tick is denied and changes nothing. */
  lemma AdmissionScenario(now: real)
    ensures var slots := [Some(Ability(30.0, 2.0)), None, None, None, None, None];
            var s := Controller([0.0, 0.0, 0.0, 0.0, 0.0, 0.0], Some(Started(Initial(DefaultConfig, 0.0, true))));
            var r := AbilityUsed(slots, s, 0, now);
            r.mana.value.current == 70.0 && r.cooldowns[0] == 2.0
            && AbilityUsed(slots, r, 0, now) == r
  {
  }

  /** A position of the player's transform. */
  datatype Position = Position(x: real, y: real, z: real)

  /** The four boundary settings of the component. */
  datatype Bounds = Bounds(left: real, right: real, top: real, bottom: real)

  /** The defaults written in the component. */
  const DefaultBounds := Bounds(-10.0, 10.0, 5.0, -5.0)

  predicate Ordered(b: Bounds)
  {
    b.left <= b.right && b.bottom <= b.top
  }

  predicate Inside(p: Position, b: Bounds)
  {
    b.left <= p.x <= b.right && b.bottom <= p.y <= b.top
  }

  /** `ConstrainToBoundaries`: clamp x and y, keep z. */
  function ConstrainToBoundaries(pos: Position, b: Bounds): (r: Position)
    ensures Ordered(b) ==> Inside(r, b)
    ensures Inside(pos, b) ==> r == pos
    ensures r.z == pos.z
  {
    pos.(x := Clamp(pos.x, b.left, b.right), y := Clamp(pos.y, b.bottom, b.top))
  }

  /** With the default boundaries, a player at (12, -7) is pulled back to the
      corner (10, -5), and its depth is kept. */
  lemma ConstrainToDefaultBounds(z: real)
    ensures ConstrainToBoundaries(Position(12.0, -7.0, z), DefaultBounds) == Position(10.0, -5.0, z)
  {
  }

  lemma ConstrainIdempotent(pos: Position, b: Bounds)
    requires Ordered(b)
    ensures ConstrainToBoundaries(ConstrainToBoundaries(pos, b), b) == ConstrainToBoundaries(pos, b)
  {
    ClampIdempotent(pos.x, b.left, b.right);
    ClampIdempotent(pos.y, b.bottom, b.top);
  }

  /** The ability part of the `PlayerController` component.  The arrays and
      the mana component are fixed after `Awake`; the timers change in place. */
  class PlayerController {
    const abilities: array<Option<Ability>>
    const abilityCooldowns: array<real>
    const manaSystem: ManaSystem?

    ghost predicate Valid()
    {
      abilities.Length == SlotCount && abilityCooldowns.Length == SlotCount
    }

    function Slots(): seq<Option<Ability>>
      reads abilities
    {
      abilities[..]
    }

    ghost function Model(): Controller
      reads this, abilityCooldowns, manaSystem
    {
      Controller(abilityCooldowns[..], if manaSystem == null then None else Some(manaSystem.Model()))
    }

    /** The component after `Awake`: the bound abilities and the timers as
        the inspector left them (all 0 unless changed), and the mana
        component if one was found. */
    constructor (slots: seq<Option<Ability>>, cooldowns: seq<real>, manaSystem: ManaSystem?)
      requires |slots| == SlotCount && |cooldowns| == SlotCount
      ensures Valid() && Slots() == slots && this.manaSystem == manaSystem
      ensures fresh(abilities) && fresh(abilityCooldowns)
      ensures abilityCooldowns[..] == cooldowns
    {
      abilities := new Option<Ability>[SlotCount](k requires 0 <= k < |slots| => slots[k]);
      abilityCooldowns := new real[SlotCount](k requires 0 <= k < |cooldowns| => cooldowns[k]);
      this.manaSystem := manaSystem;
    }

    method TryUseAbility(abilityIndex: nat, now: real)
      requires Valid() && abilityIndex < SlotCount
      modifies abilityCooldowns, manaSystem
      ensures Model() == AbilityUsed(Slots(), old(Model()), abilityIndex, now)
    {
      if manaSystem == null {
        return;
      }
      if abilities[abilityIndex].None? || abilityCooldowns[abilityIndex] > 0.0 {
        return;
      }
      var ability := abilities[abilityIndex].value;
      if !CanActivate(ability, manaSystem) {
        return;
      }
      // `ability.Activate` spawns the effect through the engine and changes
      // nothing this model holds.
      manaSystem.SpendMana(ability.manaCost, now);
      abilityCooldowns[abilityIndex] := ability.cooldownDuration;
    }

    /** `pressed[i]`: the button of slot `i` exists and was pressed this frame. */
    method HandleAbilities(pressed: seq<bool>, now: real)
      requires Valid() && |pressed| == SlotCount
      modifies abilityCooldowns, manaSystem
      ensures Model() == PressesHandled(Slots(), old(Model()), pressed, SlotCount, now)
    {
      var i := 0;
      while i < SlotCount
        invariant 0 <= i <= SlotCount
        invariant Model() == PressesHandled(Slots(), old(Model()), pressed, i, now)
      {
        if pressed[i] {
          TryUseAbility(i, now);
        }
        i := i + 1;
      }
    }

    method UpdateCooldowns(dt: real)
      modifies abilityCooldowns
      ensures abilityCooldowns[..] == CooldownsTicked(old(abilityCooldowns[..]), dt)
    {
      var i := 0;
      while i < abilityCooldowns.Length
        invariant 0 <= i <= abilityCooldowns.Length
        invariant forall k :: 0 <= k < i ==>
                    abilityCooldowns[k] == if old(abilityCooldowns[k]) > 0.0 then old(abilityCooldowns[k]) - dt else old(abilityCooldowns[k])
        invariant forall k :: i <= k < abilityCooldowns.Length ==> abilityCooldowns[k] == old(abilityCooldowns[k])
      {
        if abilityCooldowns[i] > 0.0 {
          abilityCooldowns[i] := abilityCooldowns[i] - dt;
        }
        i := i + 1;
      }
    }

    /** The ability part of `Update` for a frame at `now` lasting `dt`. */
    method Update(pressed: seq<bool>, now: real, dt: real)
      requires Valid() && |pressed| == SlotCount
      modifies abilityCooldowns, manaSystem
      ensures Model() == FrameUpdated(Slots(), old(Model()), pressed, now, dt)
    {
      HandleAbilities(pressed, now);
      UpdateCooldowns(dt);
    }
  }
}
