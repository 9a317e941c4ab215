/**
 * The auto-switch delay: the value read from storage or from the interval
 * selector is turned into a number and validated.
 */
module Delay {

  /**
   * What JavaScript's `Number(value)` yields for the stored or selected value:
   * a finite number, or something that is not finite (NaN, an infinity).
   */
  datatype Num = Finite(value: real) | NotFinite

  /** The built-in delay, in milliseconds. */
  const DefaultDelay: real := 20000.0

  /** A parse result the source accepts as a delay: finite and positive. */
  predicate Acceptable(n: Num)
  {
    n.Finite? && n.value > 0.0
  }

  /** normalizeBackgroundAutoSwitchDelay: keep an acceptable delay, otherwise the default. */
  function Normalize(n: Num): (r: real)
    ensures r > 0.0
    ensures Acceptable(n) ==> r == n.value
    ensures !Acceptable(n) ==> r == DefaultDelay
  {
    if !n.Finite? || n.value <= 0.0 then DefaultDelay else n.value
  }

  /** Normalising an already normalised delay changes nothing. */
  lemma NormalizeIdempotent(n: Num)
    ensures Normalize(Finite(Normalize(n))) == Normalize(n)
  {
  }

  /** Non-finite, zero and negative inputs all give the default delay. */
  lemma RejectedInputsGiveDefault(x: real)
    requires x <= 0.0
    ensures Normalize(Finite(x)) == DefaultDelay
    ensures Normalize(NotFinite) == DefaultDelay
  {
  }
}
