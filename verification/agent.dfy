/** A demand-response agent: it senses the "DR" intensity at its node and
    offers a share of its sheddable load, clamped to the bounds the
    household allows (nothing below 0 kW, nothing above its capacity).
    The hyperbolic tangent is not defined here; it is a parameter `tanh`,
    and the lemmas state which of its properties they rely on. */
module Agents {
  import opened Graph

  /** The intensity is scaled by this factor before the tanh. */
  const Steepness: real := 1.5

  /** `offeredKw` is the last offer made; the agent's display name and base
      load play no part in any computation and are not modelled. */
  datatype Agent = Agent(node: Node, maxShedKw: real, offeredKw: real)

  function Min(a: real, b: real): real
  {
    if b < a then b else a
  }

  function Max(a: real, b: real): real
  {
    if b > a then b else a
  }

  /** The bounds the household allows: the desired offer is clamped first
      from above by the capacity `maxShedKw`, then from below by 0. */
  function Clamp(maxShedKw: real, desired: real): (kw: real)
    ensures kw >= 0.0
    ensures maxShedKw >= 0.0 ==> kw <= maxShedKw
    ensures maxShedKw <= 0.0 ==> kw == 0.0
    ensures 0.0 <= desired <= maxShedKw ==> kw == desired
    ensures maxShedKw >= 0.0 && desired < 0.0 ==> kw == 0.0
    ensures maxShedKw >= 0.0 && desired > maxShedKw ==> kw == maxShedKw
  {
    Max(0.0, Min(maxShedKw, desired))
  }

  /** The fraction of its capacity an agent offers at a given intensity. */
  function Fraction(intensity: real, tanh: real -> real): real
  {
    tanh(Steepness * intensity)
  }

  /** The agent senses `intensity`, records its offer and returns it.
      Nothing but the recorded offer changes. */
  function PerceiveAndOffer(a: Agent, intensity: real, tanh: real -> real): (r: (Agent, real))
    ensures r.0 == a.(offeredKw := r.1)
    ensures 0.0 <= r.1
    ensures a.maxShedKw >= 0.0 ==> r.1 <= a.maxShedKw
    ensures a.maxShedKw <= 0.0 ==> r.1 == 0.0
  {
    var kw := Clamp(a.maxShedKw, Fraction(intensity, tanh) * a.maxShedKw);
    (a.(offeredKw := kw), kw)
  }

  /** With no signal (and tanh(0) = 0) an agent offers nothing, whatever its
      capacity, even a negative one. */
  lemma OfferAtZero(a: Agent, tanh: real -> real)
    requires tanh(0.0) == 0.0
    ensures PerceiveAndOffer(a, 0.0, tanh).1 == 0.0
  {
  }

  /** Scaling by a non-negative capacity keeps the order of fractions. */
  lemma MulMonotone(m: real, f1: real, f2: real)
    requires m >= 0.0 && f1 <= f2
    ensures f1 * m <= f2 * m
    ensures m > 0.0 && f1 < f2 ==> f1 * m < f2 * m
  {
  }

  /** A larger clamped value never comes from a smaller desired one. */
  lemma ClampMonotone(maxShedKw: real, d1: real, d2: real)
    requires d1 <= d2
    ensures Clamp(maxShedKw, d1) <= Clamp(maxShedKw, d2)
  {
  }

  /** If tanh is non-decreasing, a stronger signal never lowers an agent's
      offer. */
  lemma PerceiveMonotone(a: Agent, i1: real, i2: real, tanh: real -> real)
    requires forall x, y :: x <= y ==> tanh(x) <= tanh(y)
    requires a.maxShedKw >= 0.0 && i1 <= i2
    ensures PerceiveAndOffer(a, i1, tanh).1 <= PerceiveAndOffer(a, i2, tanh).1
  {
  }

  /** While tanh stays within [0, 1) at the sensed intensity, the offer is
      exactly fraction * capacity and, for a positive capacity, strictly
      below it: the clamp never fires. */
  lemma OfferUnclamped(a: Agent, intensity: real, tanh: real -> real)
    requires 0.0 <= Fraction(intensity, tanh) < 1.0
    requires a.maxShedKw > 0.0
    ensures PerceiveAndOffer(a, intensity, tanh).1 == Fraction(intensity, tanh) * a.maxShedKw
    ensures PerceiveAndOffer(a, intensity, tanh).1 < a.maxShedKw
  {
    var fr := Fraction(intensity, tanh);
    MulMonotone(a.maxShedKw, 0.0, fr);
    MulMonotone(a.maxShedKw, fr, 1.0);
  }

  /** The offer does not depend on the previous offer. */
  lemma OfferIgnoresLastOffer(a: Agent, x: real, intensity: real, tanh: real -> real)
    ensures PerceiveAndOffer(a.(offeredKw := x), intensity, tanh).1 == PerceiveAndOffer(a, intensity, tanh).1
  {
  }
}
