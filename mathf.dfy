/** The three Unity `Mathf` helpers the core relies on, over `real`.
    Each is written with the comparison the engine uses, so ties and
    unordered bounds behave as they do in the game. */
module Mathf {

  /** `Mathf.Min(a, b)`: `a < b ? a : b`. */
  function Min(a: real, b: real): (r: real)
    ensures r <= a && r <= b
    ensures r == a || r == b
  {
    if a < b then a else b
  }

  /** `Mathf.Max(a, b)`: `a > b ? a : b`. */
  function Max(a: real, b: real): (r: real)
    ensures r >= a && r >= b
    ensures r == a || r == b
  {
    if a > b then a else b
  }

  /** `Mathf.Clamp(value, min, max)`: raise to `min` first, otherwise lower to `max`. */
  function Clamp(value: real, min: real, max: real): (r: real)
    ensures min <= max ==> min <= r <= max
    ensures min <= value <= max ==> r == value
    ensures r == value || r == min || r == max
  {
    if value < min then min else if value > max then max else value
  }

  /** Clamping into an ordered interval is idempotent. */
  lemma ClampIdempotent(value: real, min: real, max: real)
    requires min <= max
    ensures Clamp(Clamp(value, min, max), min, max) == Clamp(value, min, max)
  {
  }
}
