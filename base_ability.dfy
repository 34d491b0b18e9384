/** An ability definition (Assets/Scripts/Abilities/BaseAbility.cs): what it
    costs and how long it cools down, and the mana gate `CanActivate`.

    The name, description, icon, prefab, damage, speed and lifetime of the
    asset only matter to `Activate`, which spawns the effect through the
    engine; the model keeps the two numbers the scheduler reads. */
module Abilities {
  import opened Mana

  datatype Ability = Ability(manaCost: real, cooldownDuration: real)

  /** A freshly created ability asset. */
  function NewAbility(): (a: Ability)
    ensures a.manaCost == 10.0 && a.cooldownDuration == 2.0
  {
    Ability(10.0, 2.0)
  }

  /** `CanActivate(manaSystem)`: reads the balance and nothing else, and
      holds exactly when `TrySpendMana(manaCost)` would succeed. */
  predicate CanActivate(a: Ability, manaSystem: ManaSystem)
    reads manaSystem
    ensures CanActivate(a, manaSystem) <==> CanSpend(manaSystem.Model(), a.manaCost)
  {
    manaSystem.CurrentMana() >= a.manaCost
  }

  /** When the gate is open, spending the cost takes exactly the cost: the
      clamp at zero in `SpendMana` never applies. */
  lemma ActivationSpendsExactly(a: Ability, m: ManaState, now: real)
    requires CanSpend(m, a.manaCost)
    ensures Spent(m, a.manaCost, now).current == m.current - a.manaCost
  {
  }
}
