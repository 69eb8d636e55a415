/** The rotation type the engine is generic over, with the Euler-angle
    conversions of one fixed convention (axis sequence and unit). */
module Rotations {

  /** `compose(p, q)` is the product p * q: apply q first, then p.
      `fromEuler` and `asEuler` convert between angle triples of type A and
      rotations of type R under the convention chosen for the whole run. */
  datatype RotationGroup<!A, !R(!new)> = RotationGroup(
    compose: (R, R) -> R,
    inv: R -> R,
    identity: R,
    fromEuler: A -> R,
    asEuler: R -> A)
  {
    // Each law is stated at given elements, so that a proof instantiates it
    // only where it names it.

    ghost predicate Associative(p: R, q: R, s: R) {
      compose(compose(p, q), s) == compose(p, compose(q, s))
    }

    ghost predicate Neutral(p: R) {
      compose(identity, p) == p && compose(p, identity) == p
    }

    ghost predicate Inverted(p: R) {
      compose(p, inv(p)) == identity && compose(inv(p), p) == identity
    }

    /** Converting a rotation to angles and back yields the same rotation;
        nothing is said about angles converted to a rotation and back. */
    ghost predicate RoundTrips(p: R) {
      fromEuler(asEuler(p)) == p
    }

    /** The group laws and the one fact about the angle conversions that the
        code relies on. */
    ghost predicate Lawful() {
      && (forall p, q, s :: Associative(p, q, s))
      && (forall p :: Neutral(p))
      && (forall p :: Inverted(p))
      && (forall p :: RoundTrips(p))
    }
  }

  /** (F * P^-1) * P == F: the maneuver computed for a commanded attitude
      carries the previous attitude to the commanded one. */
  lemma DivideThenCompose<A, R(!new)>(g: RotationGroup<A, R>, f: R, p: R)
    requires g.Lawful()
    ensures g.compose(g.compose(f, g.inv(p)), p) == f
  {
    assert g.Associative(f, g.inv(p), p);
    assert g.Inverted(p);
    assert g.Neutral(f);
  }

  /** (M * P) * P^-1 == M: undoing the previous attitude recovers the maneuver. */
  lemma ComposeThenDivide<A, R(!new)>(g: RotationGroup<A, R>, m: R, p: R)
    requires g.Lawful()
    ensures g.compose(g.compose(m, p), g.inv(p)) == m
  {
    assert g.Associative(m, p, g.inv(p));
    assert g.Inverted(p);
    assert g.Neutral(m);
  }

  /** The maneuver that takes p to f is unique: it is f * p^-1. */
  lemma ManeuverIsUnique<A, R(!new)>(g: RotationGroup<A, R>, m: R, p: R, f: R)
    requires g.Lawful()
    ensures g.compose(m, p) == f <==> m == g.compose(f, g.inv(p))
  {
    ComposeThenDivide(g, m, p);
    DivideThenCompose(g, f, p);
  }

  /** Right cancellation: m * p == n * p only when m == n. */
  lemma CancelRight<A, R(!new)>(g: RotationGroup<A, R>, m: R, n: R, p: R)
    requires g.Lawful()
    ensures g.compose(m, p) == g.compose(n, p) <==> m == n
  {
    ComposeThenDivide(g, m, p);
    ComposeThenDivide(g, n, p);
  }

  /** Euler angles determine the rotation they were read from. */
  lemma AsEulerInjective<A, R(!new)>(g: RotationGroup<A, R>, p: R, q: R)
    requires g.Lawful()
    ensures g.asEuler(p) == g.asEuler(q) <==> p == q
  {
    assert g.RoundTrips(p) && g.RoundTrips(q);
  }

  /** Reading a rotation's angles and converting them back is the identity. */
  lemma RoundTrip<A, R(!new)>(g: RotationGroup<A, R>, p: R)
    requires g.Lawful()
    ensures g.fromEuler(g.asEuler(p)) == p
  {
    assert g.RoundTrips(p);
  }

  /** p * p^-1 is the identity rotation, whichever rotation p is. */
  lemma SelfManeuverIsIdentity<A, R(!new)>(g: RotationGroup<A, R>, p: R)
    requires g.Lawful()
    ensures g.compose(p, g.inv(p)) == g.identity
  {
    assert g.Inverted(p);
  }
}
