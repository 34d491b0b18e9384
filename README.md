# Mana and ability scheduling of MAGE RAGE, in Dafny

This project models the part of the MAGE RAGE player that decides whether an ability may fire:

- the `ManaSystem` component. It is a bounded pool of mana that regenerates over time. Regeneration stops on every spend and resumes once `manaRegenDelay` seconds have passed since the last one. The component reports changes through two UnityEvents: `OnManaChanged(current, max)`, and the edge-triggered `OnManaAvailable(bool)`.
- the `BaseAbility` asset. The model keeps its cost and its cooldown, and the gate `CanActivate`.
- the ability part of `PlayerController`. It has six slots, an array of per-slot cooldown timers, and `TryUseAbility`, which checks in order: a mana component, a bound slot, a timer that is not positive, enough mana. It then spends the cost and starts the timer. `HandleAbilities` tries the pressed slots in slot order. `UpdateCooldowns` counts the timers down. `Update` runs the activations first and the tick after. `ConstrainToBoundaries` clamps the position.

Files:

- `mathf.dfy`: the Unity `Mathf.Min`, `Mathf.Max` and `Mathf.Clamp` the code calls. They are written with the engine's comparisons.
- `optional.dfy`: `Option`, used for an empty slot or a missing mana component.
- `mana_system.dfy`: the `ManaSystem` class, the value `ManaState` with the log of fired events, one step function per operation, and the lemmas.
- `base_ability.dfy`: the `Ability` record, `CanActivate`, and the exact-spend lemma.
- `player_controller.dfy`: the `PlayerController` class over its two arrays, the value `Controller` with one function per operation, the boundary clamp, and the lemmas.

Each method of the two classes is proved to move the object exactly as a step function moves its abstract value (`Model()`). The properties are proved about those step functions. The engine clock becomes a parameter: `now` stands for `Time.time` and `dt` for `Time.deltaTime`. The input system becomes `pressed: seq<bool>`, where `pressed[i]` means that ability action `i` exists and was pressed this frame. Numbers are `real`.

The model follows the code in these details:

- A cooldown timer is decremented only while it is positive and is not clamped at 0, so it can end below zero. A slot is ready when its timer is `<= 0`, not only when it is exactly 0 (`Player.CooldownGoesBelowZero`).
- `Update` tries the abilities before it ticks the timers. So a timer that reaches zero during this frame's tick can be used only on the next frame, and a slot fired this frame ends the frame at `cooldownDuration - dt` (`Player.ActivatedSlotEndsFrameTicked`).
- Once the delay is over, regeneration adds the whole `rate * dt` of that frame, not the part after the delay (`Mana.RegenerationNotProrated`).
- Regeneration is suspended by the flag `isRegenerating` together with `lastManaUseTime`.
- A denied activation just returns. It reports no error value and changes nothing.
- `Activate` returns nothing and runs before the spend.

## Model

| member | source | states |
|---|---|---|
| `Mathf.Min` | Assets/Scripts/Managers/ManaSystem.cs:49 | the result is at most both arguments and is one of them; the regeneration and `RestoreMana` (line 97) cap the balance with it |
| `Mathf.Max` | Assets/Scripts/Managers/ManaSystem.cs:78 | the result is at least both arguments and is one of them; `SpendMana` floors the balance at 0 with it |
| `Mathf.Clamp` | Assets/Scripts/Player/PlayerController.cs:183-184 | with `min <= max` the result lies in `[min, max]`; a value already inside is unchanged; the result is always the value or one of the bounds |
| `Mathf.ClampIdempotent` | Assets/Scripts/Player/PlayerController.cs:183-184 | clamping twice into an ordered interval equals clamping once |
| `Mana.Initial` | Assets/Scripts/Managers/ManaSystem.cs:7-19 | before `Start` the component holds the serialized `currentMana` and `isRegenerating` it was given (0 and true by default), has last-use time 0 and has fired nothing |
| `Mana.Started` | Assets/Scripts/Managers/ManaSystem.cs:26-30 | `Start` fills the pool to `maxMana` and fires exactly one `OnManaChanged(maxMana, maxMana)`; the regeneration flag and last-use time are untouched |
| `Mana.Spent` | Assets/Scripts/Managers/ManaSystem.cs:75-92 | `SpendMana(a)` never leaves the balance negative; it takes exactly `a` when the balance covers it and leaves 0 when it does not; it stops regeneration and stamps `now`; it fires exactly one `OnManaChanged`, first, with the new balance, and after it at most one availability notification; it fires `OnManaAvailable(false)` iff the balance went from positive to `<= 0`; it never fires `OnManaAvailable(true)` |
| `Mana.TrySpent` | Assets/Scripts/Managers/ManaSystem.cs:65-73 | `TrySpendMana(a)` succeeds iff `currentMana >= a`; on success it is exactly `SpendMana(a)`; on failure no field changes and no event fires |
| `Mana.Restored` | Assets/Scripts/Managers/ManaSystem.cs:94-106 | `RestoreMana(a)` never exceeds `maxMana`; it adds exactly `a` when that fits and fills the pool otherwise; the regeneration flag and last-use time are untouched; it fires exactly one `OnManaChanged`, first, with the new balance, and after it at most one availability notification; it fires `OnManaAvailable(true)` iff the balance went from `<= 0` to positive; it never fires `OnManaAvailable(false)` |
| `Mana.Regenerated` | Assets/Scripts/Managers/ManaSystem.cs:37-63 | a regeneration frame changes nothing while the flag is off and the delay has not passed; otherwise the flag becomes true and, below the maximum, the balance becomes `min(current + rate*dt, max)`; at full mana, or when the balance does not move, no event fires; a change fires exactly one `OnManaChanged`, first, with the new balance, and at most one availability notification after it; `OnManaAvailable(true)` fires iff the balance crossed from `<= 0` to positive; `OnManaAvailable(false)` never fires; the last-use time is untouched |
| `Mana.StepKeepsBounds` | Assets/Scripts/Managers/ManaSystem.cs:37-106 | with non-negative amounts, rate and `dt`, every call keeps `0 <= currentMana <= maxMana` |
| `Mana.RunKeepsBounds` | Assets/Scripts/Managers/ManaSystem.cs:37-106 | the same holds after any sequence of such calls, by induction on the sequence |
| `Mana.OnlySpendStopsRegeneration` | Assets/Scripts/Managers/ManaSystem.cs:37-92 | if a call turns regeneration off, that call was a `SpendMana`, or a `TrySpendMana` that succeeded |
| `Mana.SpendEventsAvailabilities` | Assets/Scripts/Managers/ManaSystem.cs:84-91 | the availability notifications a spend fires are `[false]` on a crossing to `<= 0` and none otherwise |
| `Mana.GainEventsAvailabilities` | Assets/Scripts/Managers/ManaSystem.cs:99-105 | the availability notifications a restore or a regeneration fires are `[true]` on a crossing to positive and none otherwise |
| `Mana.SpentAvailabilities` | Assets/Scripts/Managers/ManaSystem.cs:75-92 | for an in-bound balance and a non-negative amount, a spend adds `false` to the availability stream exactly when the balance crossed from positive to `<= 0`, and nothing otherwise |
| `Mana.RestoredAvailabilities` | Assets/Scripts/Managers/ManaSystem.cs:94-106 | for an in-bound balance and a non-negative amount, a restore adds `true` to the availability stream exactly when the balance crossed from `<= 0` to positive, and nothing otherwise |
| `Mana.RegeneratedAvailabilities` | Assets/Scripts/Managers/ManaSystem.cs:37-63 | with a non-negative rate and `dt`, a regeneration frame adds `true` to the availability stream exactly on a crossing to positive, and nothing otherwise |
| `Mana.StepAvailabilities` | Assets/Scripts/Managers/ManaSystem.cs:37-106 | for in-bound state and non-negative inputs, a call adds to the availability stream exactly the new value of `HasMana` when it changed, and nothing when it did not |
| `Mana.StepTracksAvailability` | Assets/Scripts/Managers/ManaSystem.cs:37-106 | each call keeps the availability stream truthful: the notifications alternate, the first one is `false`, and the last one heard equals `HasMana` |
| `Mana.RunTracksAvailability` | Assets/Scripts/Managers/ManaSystem.cs:37-106 | the availability stream stays truthful over any sequence of non-negative calls, so no crossing is reported twice and none is missed |
| `Mana.StartEstablishesInvariants` | Assets/Scripts/Managers/ManaSystem.cs:26-30 | `Start` on a fresh component with a positive maximum, whatever its serialized balance and flag, gives an in-bound balance and a truthful, still empty, availability stream |
| `Mana.Changes` | Assets/Scripts/Managers/ManaSystem.cs:16 | the `OnManaChanged` invocations of a log are all change reports and are no more than the log |
| `Mana.ChangesAppend` | Assets/Scripts/Managers/ManaSystem.cs:16 | the change reports of two logs in a row are those of the first followed by those of the second |
| `Mana.ReportKeepsChangeTruthful` | Assets/Scripts/Managers/ManaSystem.cs:54-105 | a call that fires one report of the new balance and then only availability notifications leaves the last `OnManaChanged` equal to `(currentMana, maxMana)` |
| `Mana.StartedReportsMana` | Assets/Scripts/Managers/ManaSystem.cs:26-30 | after `Start` the last `OnManaChanged` carries the balance and the maximum, whatever came before |
| `Mana.StepTracksChange` | Assets/Scripts/Managers/ManaSystem.cs:37-106 | every call, with any inputs, keeps the last `OnManaChanged` equal to the current balance and the maximum |
| `Mana.RunTracksChange` | Assets/Scripts/Managers/ManaSystem.cs:37-106 | the same holds after any sequence of calls, by induction on the sequence, so a UI listening to `OnManaChanged` always shows the true balance |
| `Mana.RegenerationNotProrated` | Assets/Scripts/Managers/ManaSystem.cs:40-49 | with the default settings and 70 mana spent at time 10, a frame at 10.5 adds nothing; a 0.6 s frame at 11.1 adds the whole 12 and not the 2 after the delay |
| `Mana.ManaSystem.constructor` | Assets/Scripts/Managers/ManaSystem.cs:7-19 | the component's abstract value is `Initial` of its settings and its serialized balance and flag |
| `Mana.ManaSystem.CurrentMana` | Assets/Scripts/Managers/ManaSystem.cs:21 | when the change stream is truthful, `CurrentMana` is the balance the last `OnManaChanged` reported |
| `Mana.ManaSystem.ManaPercentage` | Assets/Scripts/Managers/ManaSystem.cs:23 | for an in-bound balance the ratio lies in `[0, 1]`; it is 1 exactly when the pool is full |
| `Mana.ManaSystem.HasMana` | Assets/Scripts/Managers/ManaSystem.cs:24 | when the availability stream is truthful, `HasMana` equals the last `OnManaAvailable` value, or is true before any |
| `Mana.ManaSystem.Start` | Assets/Scripts/Managers/ManaSystem.cs:26-30 | moves the component as `Started` |
| `Mana.ManaSystem.HandleManaRegeneration` | Assets/Scripts/Managers/ManaSystem.cs:32-63 | moves the component as `Regenerated` for the frame `(now, dt)`; `Update` only calls it |
| `Mana.ManaSystem.TrySpendMana` | Assets/Scripts/Managers/ManaSystem.cs:65-73 | returns and moves the component as `TrySpent` |
| `Mana.ManaSystem.SpendMana` | Assets/Scripts/Managers/ManaSystem.cs:75-92 | moves the component as `Spent` |
| `Mana.ManaSystem.RestoreMana` | Assets/Scripts/Managers/ManaSystem.cs:94-106 | moves the component as `Restored` |
| `Abilities.NewAbility` | Assets/Scripts/Abilities/BaseAbility.cs:12-13 | a fresh ability costs 10 mana and cools down for 2 seconds |
| `Abilities.CanActivate` | Assets/Scripts/Abilities/BaseAbility.cs:52-55 | reads only the mana component and changes nothing; holds exactly when `TrySpendMana(manaCost)` would succeed |
| `Abilities.ActivationSpendsExactly` | Assets/Scripts/Abilities/BaseAbility.cs:52-55 | when the gate holds, spending the cost leaves exactly `current - manaCost`, so the clamp at zero never applies |
| `Player.AbilityUsed` | Assets/Scripts/Player/PlayerController.cs:115-154 | `TryUseAbility(i)` changes nothing without a mana component, for an empty slot, for a positive timer, or when mana is short; a timer `<= 0`, even a negative one, counts as ready; on admission mana drops by exactly the cost, the slot's timer becomes `cooldownDuration`, and every other slot keeps its timer |
| `Player.PressesHandled` | Assets/Scripts/Player/PlayerController.cs:103-113 | the loop over the slots keeps the slot count, changes nothing without a mana component, and never touches a slot that was not pressed or not yet reached |
| `Player.CooldownsTicked` | Assets/Scripts/Player/PlayerController.cs:156-165 | `UpdateCooldowns(dt)` leaves every timer `<= 0` unchanged and lowers every positive timer by exactly `dt`, with no clamp at 0 |
| `Player.FrameUpdated` | Assets/Scripts/Player/PlayerController.cs:76-90 | over a frame, mana changes only through the activations, and a slot that was not pressed only ticks |
| `Player.UnpressedSlotsIdle` | Assets/Scripts/Player/PlayerController.cs:105-112 | slots whose button was not pressed leave the state as it was |
| `Player.TwoPressesInSlotOrder` | Assets/Scripts/Player/PlayerController.cs:105-112 | with exactly slots `i < j` pressed, the frame equals trying `i` and then trying `j` on the state `i` left |
| `Player.BothAdmittedIff` | Assets/Scripts/Player/PlayerController.cs:129-143 | for two ready, bound slots, both are admitted iff mana covers the first cost and then the second from the reduced balance |
| `Player.LaterSlotsKeepCooldown` | Assets/Scripts/Player/PlayerController.cs:105-112 | once the loop has passed slot `i`, the later slots do not change its timer |
| `Player.ActivatedSlotEndsFrameTicked` | Assets/Scripts/Player/PlayerController.cs:78-80 | a slot admitted this frame with a positive duration ends the frame at `cooldownDuration - dt`, because activations run before the tick |
| `Player.CooldownGoesBelowZero` | Assets/Scripts/Player/PlayerController.cs:160-162 | a timer with 0.5 s left after a 1 s tick reads -0.5 |
| `Player.AdmissionScenario` | Assets/Scripts/Player/PlayerController.cs:115-154 | with a full default pool and a 30-mana, 2 s ability, the first request leaves 70 mana and a 2 s timer, and an immediate second request changes nothing |
| `Player.ConstrainToBoundaries` | Assets/Scripts/Player/PlayerController.cs:180-186 | with ordered bounds, x ends in `[left, right]` and y in `[bottom, top]`; a position already inside is unchanged; z is kept |
| `Player.ConstrainToDefaultBounds` | Assets/Scripts/Player/PlayerController.cs:13-16 | with the default boundaries, a player at (12, -7) is moved to the corner (10, -5) and keeps its depth |
| `Player.ConstrainIdempotent` | Assets/Scripts/Player/PlayerController.cs:180-186 | with ordered bounds, constraining twice equals constraining once |
| `Player.PlayerController.constructor` | Assets/Scripts/Player/PlayerController.cs:19-20 | six bound-or-empty slots, six timers holding the serialized values (0 by default), and the mana component if one was found |
| `Player.PlayerController.TryUseAbility` | Assets/Scripts/Player/PlayerController.cs:115-154 | moves the timers and the mana component as `AbilityUsed` |
| `Player.PlayerController.HandleAbilities` | Assets/Scripts/Player/PlayerController.cs:103-113 | the loop moves the state as `PressesHandled` over all six slots |
| `Player.PlayerController.UpdateCooldowns` | Assets/Scripts/Player/PlayerController.cs:156-165 | the in-place loop leaves the timer array equal to `CooldownsTicked` of its old contents |
| `Player.PlayerController.Update` | Assets/Scripts/Player/PlayerController.cs:76-90 | the activations followed by the tick move the state as `FrameUpdated` |

## Left out

- Movement: `HandleInput`, `HandleMovement`, `FixedUpdate`'s rigidbody velocity, the debug joystick loop in `Update`, the gizmos and every `Debug.Log` are engine calls. Only the clamp of `ConstrainToBoundaries` is modelled, as a function on a position.
- `Awake`, `OnEnable` and `OnDisable` look up components and input actions through the engine. The constructor takes their results instead: the bound slots, the serialized timers and the mana component, if any. A missing input action becomes a `pressed` flag that is always false.
- `BaseAbility.Activate` instantiates a prefab and starts a projectile through the engine. It changes no modelled state, so `TryUseAbility` only marks where it is called. The name, description, icon, damage, speed and lifetime of an ability are read only by it.
- `ManaSystem.OnGUI` is debug drawing.
- `Projectile`, `ParallaxBackground` and `CameraFollow` are not part of this model: they are physics, presentation and a single engine smoothing call.
- Floating point is modelled as `real`: no rounding, no NaN, no infinities. The exact `!=` comparison in the regeneration is therefore exact on reals.
- The engine decides the order of `ManaSystem.Update` and `PlayerController.Update` within a frame. No order is assumed: each component's frame is modelled on its own.
- The inspector can resize the serialized `abilities` and `abilityCooldowns` arrays. A shorter array makes `TryUseAbility` throw an index exception for the missing slots. A longer `abilities` has entries no button reaches, and a longer `abilityCooldowns` has extra timers that `UpdateCooldowns` also ticks, since it loops over the array's own length. The model keeps both arrays at the six slots the input loop iterates over, so it does not cover resized arrays.
- Mana.ManaSystem.ManaPercentage: requires `maxMana != 0`; with a maximum of 0 the code divides by zero and yields an infinity or NaN, which has no `real` counterpart. A negative maximum is admitted, but no balance is then in bounds, so the `[0, 1]` range says nothing for it.
- Mana.StartEstablishesInvariants: assumes a positive `maxMana` and a fresh component; before `Start` the availability stream says nothing.
- Negative amounts, a negative regeneration rate or a negative `dt` are accepted by every operation. The bounds and availability lemmas are stated only for non-negative inputs, because the code keeps neither property for negative ones.
