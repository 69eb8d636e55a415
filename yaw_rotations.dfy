// An exact instance of the rotation engine: rotations about the Z axis
// alone (pitch and roll zero), in whole degrees. It is the setting of the
// worked examples of the format rules in attitude_control_utils.py.

module YawRotations {
  import opened Basics
  import opened Rotations
  import opened AttitudeControlUtils
  import opened MainScript

  /** A rotation about Z, as its angle in degrees in [0, 360). */
  type Heading = h: int | 0 <= h < 360

  /** Rotating by q, then by p. */
  function Turn(p: Heading, q: Heading): (r: Heading)
    ensures r == (p + q) % 360
  {
    if p + q >= 360 then p + q - 360 else p + q
  }

  /** The opposite rotation. */
  function Reverse(p: Heading): (r: Heading)
    ensures (p + r) % 360 == 0
  {
    if p == 0 then 0 else 360 - p
  }

  /** from_euler for a yaw angle in degrees: any integer, taken modulo 360. */
  function FromYaw(yaw: int): (h: Heading)
    ensures (h - yaw) % 360 == 0
  {
    yaw % 360
  }

  /** as_euler reports yaw in (-180, 180]. */
  function AsYaw(h: Heading): (yaw: int)
    ensures -180 < yaw <= 180
    ensures FromYaw(yaw) == h
  {
    if h > 180 then h - 360 else h
  }

  /** The ZYX Euler convention in degrees, restricted to yaw. */
  const Yaw: RotationGroup<int, Heading> := RotationGroup(Turn, Reverse, 0, FromYaw, AsYaw)

  /** Yaw rotations satisfy every law the engine relies on. */
  lemma YawLawful()
    ensures Yaw.Lawful()
  {
    forall p: Heading, q: Heading, s: Heading
      ensures Yaw.Associative(p, q, s)
    {
      assert Turn(Turn(p, q), s) == Turn(p, Turn(q, s));
    }
    forall p: Heading
      ensures Yaw.Neutral(p) && Yaw.Inverted(p) && Yaw.RoundTrips(p)
    {
      assert Turn(p, Reverse(p)) == 0;
    }
  }

  /** Initial yaw 15 with commanded attitude 35: the maneuver is 20. */
  lemma CommandedAttitudeExample()
    ensures SingleRotation(Yaw, 15, 35, CommandedAttitude) == Ok((20, 35))
    ensures Yaw.asEuler(SingleRotation(Yaw, 15, 35, CommandedAttitude).value.0) == 20
  {
  }

  /** Initial yaw 15 with commanded maneuver 35: the resulting attitude is 50. */
  lemma CommandedManeuverExample()
    ensures SingleRotation(Yaw, 15, 35, CommandedManeuver) == Ok((35, 50))
    ensures Yaw.asEuler(SingleRotation(Yaw, 15, 35, CommandedManeuver).value.1) == 50
  {
  }

  /** Commanded attitudes 30, 100, 60 from yaw 10 call for maneuvers 20, 70
      and -40, the last one reported in (-180, 180]. */
  lemma CombineExample()
    ensures Outputs(Run(Yaw, 10, [1, 2, 3], map[1 := 30, 2 := 100, 3 := 60], CommandedAttitude))
         == Ok((map[1 := 20, 2 := 70, 3 := -40], map[0 := 10, 1 := 30, 2 := 100, 3 := 60]))
  {
    var angles := map[1 := 30, 2 := 100, 3 := 60];
    assert [1, 2, 3][..2] == [1, 2] && [1, 2][..1] == [1] && [1][..0] == [];
    var c1 := Composition(map[1 := 20], map[0 := 10, 1 := 30], Some(30 as Heading));
    assert Run(Yaw, 10, [1], angles, CommandedAttitude) == Ok(c1);
    var c2 := Composition(map[1 := 20, 2 := 70], map[0 := 10, 1 := 30, 2 := 100], Some(100 as Heading));
    assert Run(Yaw, 10, [1, 2], angles, CommandedAttitude) == Ok(c2);
    assert Run(Yaw, 10, [1, 2, 3], angles, CommandedAttitude)
        == Ok(Composition(map[1 := 20, 2 := 70, 3 := -40], map[0 := 10, 1 := 30, 2 := 100, 3 := 60], Some(60 as Heading)));
  }

  /** A first key other than 1 leaves nothing to convert to angles. */
  lemma FirstKeyNotOneExample()
    ensures Run(Yaw, 10, [2], map[2 := 30], CommandedAttitude) == Err(NotARotation)
  {
    assert [2][..0] == [];
  }

  /** A mode string other than the two recognised ones is rejected. */
  lemma UnrecognisedModeExample()
    ensures SingleRotation(Yaw, 15, 35, AngleTypeOf("commanded_rotation")) == Err(InvalidMode)
  {
  }

  /** The attitude chain 0 then 45 calls for the maneuver 45. */
  lemma ComputeManeuverExample()
    ensures var w := ManeuverWalk(Yaw, map[0 := 0, 1 := 45], 2, [0, 1]);
      w.Ok? && |w.value| == 2 && w.value[1].maneuver == Some(45)
  {
    assert [0, 1][..1] == [0] && [0][..0] == [];
  }

  /** Yaw rotations commute, so either order of two commanded maneuvers ends
      in the same attitude. */
  lemma YawOrderIrrelevant(initial: int, a: int, b: int)
    ensures var first := Run(Yaw, initial, Steps(2), map[1 := a, 2 := b], CommandedManeuver);
      var second := Run(Yaw, initial, Steps(2), map[1 := b, 2 := a], CommandedManeuver);
      && first.Ok? && second.Ok?
      && 2 in first.value.attitudes && 2 in second.value.attitudes
      && first.value.attitudes[2] == second.value.attitudes[2]
  {
    YawLawful();
    ManeuverOrderMatters(Yaw, initial, a, b);
  }
}
