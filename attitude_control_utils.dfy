/** The step resolver (compute_single_rotation), the sequence composer
    (combine_rotations) and the count check and index walk of the reporter
    (print_maneuvers). Angles of type A, rotations of type R. */
module AttitudeControlUtils {
  import opened Basics
  import opened Rotations

  /** The interpretation of a step's angles, read from the euler_angle_type
      string: the two strings the code recognises, and every other string. */
  datatype AngleType = CommandedAttitude | CommandedManeuver | Unrecognised

  /** Classifies a euler_angle_type string by exact string equality. */
  function AngleTypeOf(name: string): (t: AngleType)
    ensures t == CommandedAttitude <==> name == "commanded_attitude"
    ensures t == CommandedManeuver <==> name == "commanded_maneuver"
  {
    assert "commanded_attitude"[10] != "commanded_maneuver"[10];
    if name == "commanded_attitude" then CommandedAttitude
    else if name == "commanded_maneuver" then CommandedManeuver
    else Unrecognised
  }

  // ---------------------------------------------------------------------
  // compute_single_rotation
  // ---------------------------------------------------------------------

  /** One step: from the previous attitude's angles and the step's angles,
      the pair (maneuver, final attitude). A commanded attitude is taken as
      the final attitude; a commanded maneuver is applied on the left of the
      previous attitude. Any other mode is a ValueError. */
  function SingleRotation<A, R(!new)>(g: RotationGroup<A, R>, initial: A, angles: A, mode: AngleType): (r: Result<(R, R)>)
    ensures r.Ok? <==> !mode.Unrecognised?
    ensures r.Err? ==> r.error == InvalidMode
    ensures mode == CommandedAttitude ==> r.Ok? && r.value.1 == g.fromEuler(angles)
    ensures mode == CommandedManeuver ==>
      r.Ok? && r.value.0 == g.fromEuler(angles) && r.value.1 == g.compose(r.value.0, g.fromEuler(initial))
  {
    var start := g.fromEuler(initial);
    if mode == CommandedAttitude then
      var final := g.fromEuler(angles);
      Ok((g.compose(final, g.inv(start)), final))
    else if mode == CommandedManeuver then
      var maneuver := g.fromEuler(angles);
      Ok((maneuver, g.compose(maneuver, start)))
    else
      Err(InvalidMode)
  }

  /** In commanded-attitude mode the maneuver is the one and only rotation
      that carries the initial attitude to the commanded one. */
  lemma CommandedAttitudeManeuver<A, R(!new)>(g: RotationGroup<A, R>, initial: A, angles: A, m: R)
    requires g.Lawful()
    ensures var r := SingleRotation(g, initial, angles, CommandedAttitude);
      && r.Ok?
      && g.compose(r.value.0, g.fromEuler(initial)) == r.value.1
      && (g.compose(m, g.fromEuler(initial)) == r.value.1 <==> m == r.value.0)
  {
    ManeuverIsUnique(g, m, g.fromEuler(initial), g.fromEuler(angles));
    DivideThenCompose(g, g.fromEuler(angles), g.fromEuler(initial));
  }

  /** The two modes are dual: feeding the maneuver of a commanded attitude
      back as a commanded maneuver gives the same pair. */
  lemma SingleRotationDuality<A, R(!new)>(g: RotationGroup<A, R>, initial: A, angles: A)
    requires g.Lawful()
    ensures var byAttitude := SingleRotation(g, initial, angles, CommandedAttitude);
      && byAttitude.Ok?
      && SingleRotation(g, initial, g.asEuler(byAttitude.value.0), CommandedManeuver) == byAttitude
  {
    var maneuver := g.compose(g.fromEuler(angles), g.inv(g.fromEuler(initial)));
    RoundTrip(g, maneuver);
    DivideThenCompose(g, g.fromEuler(angles), g.fromEuler(initial));
  }

  // ---------------------------------------------------------------------
  // combine_rotations
  // ---------------------------------------------------------------------

  /** The variables combine_rotations carries between iterations. While
      `resulting` is None the Python variable resulting_attitude still holds
      the caller's raw initial angles, not a rotation. */
  datatype Composition<A, R> = Composition(maneuvers: map<int, A>, attitudes: map<int, A>, resulting: Option<R>)

  /** The state before the loop. */
  function Initial<A, R>(initial: A): Composition<A, R> {
    Composition(map[], map[0 := initial], None)
  }

  /** One iteration of the loop, for dictionary entry key: angles. Key 1
      starts from attitude_dictionary[0]; every other key starts from the
      angles of the running rotation, which fails while there is none. */
  function Step<A, R(!new)>(g: RotationGroup<A, R>, c: Composition<A, R>, key: int, angles: A, mode: AngleType)
    : (r: Result<Composition<A, R>>)
    requires 0 in c.attitudes
    ensures r.Ok? <==> (key == 1 || c.resulting.Some?) && !mode.Unrecognised?
    ensures r.Err? ==> r.error == if key != 1 && c.resulting.None? then NotARotation else InvalidMode
  {
    if key != 1 && c.resulting.None? then Err(NotARotation)
    else
      var start := if key == 1 then c.attitudes[0] else g.asEuler(c.resulting.value);
      match SingleRotation(g, start, angles, mode)
      case Err(e) => Err(e)
      case Ok(pair) =>
        Ok(Composition(c.maneuvers[key := g.asEuler(pair.0)], c.attitudes[key := g.asEuler(pair.1)], Some(pair.1)))
  }

  /** A successful iteration writes key in both dictionaries, leaves every
      other entry as it was, and leaves a running rotation behind. */
  lemma StepFrame<A, R(!new)>(g: RotationGroup<A, R>, c: Composition<A, R>, key: int, angles: A, mode: AngleType)
    requires 0 in c.attitudes
    requires Step(g, c, key, angles, mode).Ok?
    ensures var next := Step(g, c, key, angles, mode).value;
      && next.maneuvers.Keys == c.maneuvers.Keys + {key}
      && next.attitudes.Keys == c.attitudes.Keys + {key}
      && (forall k :: k in c.maneuvers && k != key ==> next.maneuvers[k] == c.maneuvers[k])
      && (forall k :: k in c.attitudes && k != key ==> next.attitudes[k] == c.attitudes[k])
      && next.resulting.Some?
  {
  }

  /** The state after the loop has visited `keys`, in that order; key 0 of
      the attitudes is always present. */
  function Run<A, R(!new)>(g: RotationGroup<A, R>, initial: A, keys: seq<int>, angles: map<int, A>, mode: AngleType)
    : (r: Result<Composition<A, R>>)
    requires forall k <- keys :: k in angles
    ensures r.Ok? ==> 0 in r.value.attitudes
    decreases |keys|
  {
    if keys == [] then Ok(Initial(initial))
    else
      var last := keys[|keys| - 1];
      match Run(g, initial, keys[..|keys| - 1], angles, mode)
      case Err(e) => Err(e)
      case Ok(c) => Step(g, c, last, angles[last], mode)
  }

  /** Visiting one more key runs one more Step on the state reached so far. */
  lemma RunExtends<A, R(!new)>(g: RotationGroup<A, R>, initial: A, keys: seq<int>, angles: map<int, A>, mode: AngleType, i: nat)
    requires forall k <- keys :: k in angles
    requires i < |keys|
    requires Run(g, initial, keys[..i], angles, mode).Ok?
    ensures Run(g, initial, keys[..i + 1], angles, mode)
         == Step(g, Run(g, initial, keys[..i], angles, mode).value, keys[i], angles[keys[i]], mode)
  {
    assert keys[..i + 1][..i] == keys[..i];
  }

  /** The two dictionaries combine_rotations returns. */
  function Outputs<A, R>(r: Result<Composition<A, R>>): Result<(map<int, A>, map<int, A>)> {
    match r
    case Err(e) => Err(e)
    case Ok(c) => Ok((c.maneuvers, c.attitudes))
  }

  /** Once a prefix of the loop has failed, the whole run fails the same way. */
  lemma {:induction false} RunFailurePersists<A, R(!new)>(
    g: RotationGroup<A, R>, initial: A, keys: seq<int>, angles: map<int, A>, mode: AngleType, n: nat)
    requires forall k <- keys :: k in angles
    requires n <= |keys|
    requires Run(g, initial, keys[..n], angles, mode).Err?
    ensures Run(g, initial, keys, angles, mode) == Run(g, initial, keys[..n], angles, mode)
    decreases |keys| - n
  {
    if n < |keys| {
      assert keys[..n + 1][..n] == keys[..n];
      RunFailurePersists(g, initial, keys, angles, mode, n + 1);
    } else {
      assert keys[..n] == keys;
    }
  }

  /** combine_rotations over the dictionary whose iteration order is keys. */
  method CombineRotations<A, R(!new)>(g: RotationGroup<A, R>, initial: A, keys: seq<int>, angles: map<int, A>, mode: AngleType)
    returns (r: Result<(map<int, A>, map<int, A>)>)
    requires IsKeyOrder(keys, angles)
    ensures r == Outputs(Run(g, initial, keys, angles, mode))
  {
    var maneuvers: map<int, A> := map[];
    var attitudes: map<int, A> := map[0 := initial];
    var resulting: Option<R> := None;
    var i := 0;
    while i < |keys|
      invariant i <= |keys|
      invariant Run(g, initial, keys[..i], angles, mode) == Ok(Composition(maneuvers, attitudes, resulting))
    {
      var key := keys[i];
      RunExtends(g, initial, keys, angles, mode, i);
      var start: A;
      if key == 1 {
        start := attitudes[0];
      } else if resulting.Some? {
        start := g.asEuler(resulting.value);
      } else {
        RunFailurePersists(g, initial, keys, angles, mode, i + 1);
        return Err(NotARotation);
      }
      var step := SingleRotation(g, start, angles[key], mode);
      if step.Err? {
        RunFailurePersists(g, initial, keys, angles, mode, i + 1);
        return Err(step.error);
      }
      var (rotation, final) := step.value;
      maneuvers := maneuvers[key := g.asEuler(rotation)];
      attitudes := attitudes[key := g.asEuler(final)];
      resulting := Some(final);
      i := i + 1;
    }
    assert keys[..i] == keys;
    r := Ok((maneuvers, attitudes));
  }

  // ---------------------------------------------------------------------
  // What combine_rotations promises
  // ---------------------------------------------------------------------

  /** Each visited key adds exactly its own entry to both dictionaries and
      nothing else is added; key 0 of the attitudes stays bound to the
      caller's initial attitude unless 0 is itself a visited key. */
  lemma {:induction false} RunShape<A, R(!new)>(g: RotationGroup<A, R>, initial: A, keys: seq<int>, angles: map<int, A>, mode: AngleType)
    requires forall k <- keys :: k in angles
    requires Run(g, initial, keys, angles, mode).Ok?
    ensures var c := Run(g, initial, keys, angles, mode).value;
      && c.maneuvers.Keys == (set k <- keys)
      && c.attitudes.Keys == (set k <- keys) + {0}
      && (0 !in keys ==> c.attitudes[0] == initial)
      && (c.resulting.Some? <==> keys != [])
    decreases |keys|
  {
    if keys != [] {
      var prefix := keys[..|keys| - 1];
      var last := keys[|keys| - 1];
      RunShape(g, initial, prefix, angles, mode);
      var c := Run(g, initial, prefix, angles, mode).value;
      assert Run(g, initial, keys, angles, mode) == Step(g, c, last, angles[last], mode);
      assert keys == prefix + [last];
      assert (set k <- keys) == (set k <- prefix) + {last};
    }
  }

  /** The count invariant: when the input has no key 0 there is exactly one
      more attitude than maneuvers (a key 0 would replace the initial
      attitude instead). */
  lemma CountInvariant<A, R(!new)>(g: RotationGroup<A, R>, initial: A, keys: seq<int>, angles: map<int, A>, mode: AngleType)
    requires forall k <- keys :: k in angles
    requires Run(g, initial, keys, angles, mode).Ok?
    ensures var c := Run(g, initial, keys, angles, mode).value;
      |c.attitudes| == if 0 in keys then |c.maneuvers| else |c.maneuvers| + 1
  {
    RunShape(g, initial, keys, angles, mode);
    var c := Run(g, initial, keys, angles, mode).value;
    var visited := set k <- keys;
    assert c.maneuvers.Keys == visited;
    assert c.attitudes.Keys == visited + {0};
    if 0 in keys {
      assert 0 in visited;
      assert c.attitudes.Keys == c.maneuvers.Keys;
    } else {
      assert 0 !in visited;
      assert |visited + {0}| == |visited| + 1;
    }
  }

  /** When the run fails and why. A first key other than 1 reads the angles
      of a rotation that does not exist yet (AttributeError); otherwise an
      unrecognised mode fails at the first step (ValueError); otherwise
      every step succeeds. An empty input never fails, whatever the mode. */
  lemma {:induction false} RunOutcome<A, R(!new)>(g: RotationGroup<A, R>, initial: A, keys: seq<int>, angles: map<int, A>, mode: AngleType)
    requires forall k <- keys :: k in angles
    ensures var r := Run(g, initial, keys, angles, mode);
      && (r.Ok? <==> keys == [] || (keys[0] == 1 && !mode.Unrecognised?))
      && (r.Err? ==> r.error == if keys[0] != 1 then NotARotation else InvalidMode)
    decreases |keys|
  {
    if keys != [] {
      var prefix := keys[..|keys| - 1];
      RunOutcome(g, initial, prefix, angles, mode);
      if |prefix| > 0 {
        assert prefix[0] == keys[0];
        if Run(g, initial, prefix, angles, mode).Ok? {
          RunShape(g, initial, prefix, angles, mode);
        }
      }
    }
  }

  /** The keys 1..n in ascending order: the input the code is written for. */
  function Steps(n: nat): (r: seq<int>)
    ensures |r| == n && forall i :: 0 <= i < n ==> r[i] == i + 1
    ensures forall k :: k in r <==> 1 <= k <= n
  {
    Range(1, n + 1)
  }

  /** The attitude after k commanded maneuvers: maneuvers 1..k applied in
      turn, each on the left of the attitude before it. */
  ghost function ManeuverChain<A, R(!new)>(g: RotationGroup<A, R>, initial: A, angles: map<int, A>, k: nat): R
    requires forall j :: 1 <= j <= k ==> j in angles
  {
    if k == 0 then g.fromEuler(initial)
    else g.compose(g.fromEuler(angles[k]), ManeuverChain(g, initial, angles, k - 1))
  }

  /** The attitude commanded at step k, step 0 being the initial attitude. */
  ghost function Commanded<A, R(!new)>(g: RotationGroup<A, R>, initial: A, angles: map<int, A>, k: nat): R
    requires 1 <= k ==> k in angles
  {
    if k == 0 then g.fromEuler(initial) else g.fromEuler(angles[k])
  }

  /** Step k of the input 1..n: the step that closes the prefix 1..k-1. */
  lemma StepsExtend(n: nat)
    requires n > 0
    ensures Steps(n)[..n - 1] == Steps(n - 1)
  {
  }

  /** Over keys 1..n, the run is the run over 1..n-1 followed by step n. */
  lemma RunUnfoldsSteps<A, R(!new)>(g: RotationGroup<A, R>, initial: A, angles: map<int, A>, mode: AngleType, n: nat)
    requires n > 0
    requires forall j :: 1 <= j <= n ==> j in angles
    requires Run(g, initial, Steps(n - 1), angles, mode).Ok?
    ensures Run(g, initial, Steps(n), angles, mode)
         == Step(g, Run(g, initial, Steps(n - 1), angles, mode).value, n, angles[n], mode)
  {
    StepsExtend(n);
  }

  /** Step k of a commanded-maneuver run is recorded as the angles of the
      commanded rotation, and the attitude after it as the angles of the
      chain of maneuvers 1..k. */
  ghost predicate ManeuverStepRecorded<A, R(!new)>(g: RotationGroup<A, R>, initial: A, angles: map<int, A>, c: Composition<A, R>, k: nat)
    requires 1 <= k && forall j :: 1 <= j <= k ==> j in angles
  {
    && k in c.maneuvers && k in c.attitudes
    && c.maneuvers[k] == g.asEuler(g.fromEuler(angles[k]))
    && c.attitudes[k] == g.asEuler(ManeuverChain(g, initial, angles, k))
  }

  /** Step k of a commanded-attitude run is recorded as the angles of the
      commanded attitude, and its maneuver as the angles of commanded
      attitude k times the inverse of commanded attitude k - 1. */
  ghost predicate AttitudeStepRecorded<A, R(!new)>(g: RotationGroup<A, R>, initial: A, angles: map<int, A>, c: Composition<A, R>, k: nat)
    requires 1 <= k && k in angles && (k > 1 ==> k - 1 in angles)
  {
    && k in c.maneuvers && k in c.attitudes
    && c.attitudes[k] == g.asEuler(g.fromEuler(angles[k]))
    && c.maneuvers[k] == g.asEuler(g.compose(Commanded(g, initial, angles, k), g.inv(Commanded(g, initial, angles, k - 1))))
  }

  /** Commanded-maneuver run over keys 1..n: every step is recorded as
      ManeuverStepRecorded says; step 1 starts from the initial attitude and
      each later step from the previous result, read back through its Euler
      angles. */
  lemma {:induction false} CommandedManeuverRun<A, R(!new)>(g: RotationGroup<A, R>, initial: A, angles: map<int, A>, n: nat)
    requires g.Lawful()
    requires forall j :: 1 <= j <= n ==> j in angles
    ensures var r := Run(g, initial, Steps(n), angles, CommandedManeuver);
      && r.Ok?
      && r.value.attitudes[0] == initial
      && (forall k :: 1 <= k <= n ==> ManeuverStepRecorded(g, initial, angles, r.value, k))
      && (n > 0 ==> r.value.resulting == Some(ManeuverChain(g, initial, angles, n)))
  {
    if n > 0 {
      CommandedManeuverRun(g, initial, angles, n - 1);
      RunUnfoldsSteps(g, initial, angles, CommandedManeuver, n);
      ManeuverStepExtends(g, initial, angles, Run(g, initial, Steps(n - 1), angles, CommandedManeuver).value, n);
    }
  }

  /** Step n of a commanded-maneuver run, on the state after steps 1..n-1. */
  lemma ManeuverStepExtends<A, R(!new)>(g: RotationGroup<A, R>, initial: A, angles: map<int, A>, c: Composition<A, R>, n: nat)
    requires g.Lawful()
    requires 1 <= n
    requires forall j :: 1 <= j <= n ==> j in angles
    requires 0 in c.attitudes && c.attitudes[0] == initial
    requires forall k :: 1 <= k < n ==> ManeuverStepRecorded(g, initial, angles, c, k)
    requires n > 1 ==> c.resulting == Some(ManeuverChain(g, initial, angles, n - 1))
    ensures var r := Step(g, c, n, angles[n], CommandedManeuver);
      && r.Ok?
      && r.value.attitudes[0] == initial
      && (forall k :: 1 <= k <= n ==> ManeuverStepRecorded(g, initial, angles, r.value, k))
      && r.value.resulting == Some(ManeuverChain(g, initial, angles, n))
  {
    var before := ManeuverChain(g, initial, angles, n - 1);
    var start := if n == 1 then c.attitudes[0] else g.asEuler(c.resulting.value);
    if n > 1 {
      RoundTrip(g, before);
    }
    assert g.fromEuler(start) == before;
    var rotation := g.fromEuler(angles[n]);
    var final := g.compose(rotation, before);
    assert SingleRotation(g, start, angles[n], CommandedManeuver) == Ok((rotation, final));
    var next := Composition(c.maneuvers[n := g.asEuler(rotation)], c.attitudes[n := g.asEuler(final)], Some(final));
    assert Step(g, c, n, angles[n], CommandedManeuver) == Ok(next);
    forall k | 1 <= k <= n
      ensures ManeuverStepRecorded(g, initial, angles, next, k)
    {
      if k < n {
        assert ManeuverStepRecorded(g, initial, angles, c, k);
      }
    }
  }

  /** Commanded-attitude run over keys 1..n: every step is recorded as
      AttitudeStepRecorded says; step 1 starts from the initial attitude and
      each later step from the previous commanded attitude, read back
      through its Euler angles. */
  lemma {:induction false} CommandedAttitudeRun<A, R(!new)>(g: RotationGroup<A, R>, initial: A, angles: map<int, A>, n: nat)
    requires g.Lawful()
    requires forall j :: 1 <= j <= n ==> j in angles
    ensures var r := Run(g, initial, Steps(n), angles, CommandedAttitude);
      && r.Ok?
      && r.value.attitudes[0] == initial
      && (forall k :: 1 <= k <= n ==> AttitudeStepRecorded(g, initial, angles, r.value, k))
      && (n > 0 ==> r.value.resulting == Some(g.fromEuler(angles[n])))
  {
    if n > 0 {
      CommandedAttitudeRun(g, initial, angles, n - 1);
      RunUnfoldsSteps(g, initial, angles, CommandedAttitude, n);
      AttitudeStepExtends(g, initial, angles, Run(g, initial, Steps(n - 1), angles, CommandedAttitude).value, n);
    }
  }

  /** Step n of a commanded-attitude run, on the state after steps 1..n-1. */
  lemma AttitudeStepExtends<A, R(!new)>(g: RotationGroup<A, R>, initial: A, angles: map<int, A>, c: Composition<A, R>, n: nat)
    requires g.Lawful()
    requires 1 <= n
    requires forall j :: 1 <= j <= n ==> j in angles
    requires 0 in c.attitudes && c.attitudes[0] == initial
    requires forall k :: 1 <= k < n ==> AttitudeStepRecorded(g, initial, angles, c, k)
    requires n > 1 ==> c.resulting == Some(g.fromEuler(angles[n - 1]))
    ensures var r := Step(g, c, n, angles[n], CommandedAttitude);
      && r.Ok?
      && r.value.attitudes[0] == initial
      && (forall k :: 1 <= k <= n ==> AttitudeStepRecorded(g, initial, angles, r.value, k))
      && r.value.resulting == Some(g.fromEuler(angles[n]))
  {
    var before := Commanded(g, initial, angles, n - 1);
    var start := if n == 1 then c.attitudes[0] else g.asEuler(c.resulting.value);
    if n > 1 {
      RoundTrip(g, before);
    }
    assert g.fromEuler(start) == before;
    var final := g.fromEuler(angles[n]);
    var rotation := g.compose(final, g.inv(before));
    assert SingleRotation(g, start, angles[n], CommandedAttitude) == Ok((rotation, final));
    var next := Composition(c.maneuvers[n := g.asEuler(rotation)], c.attitudes[n := g.asEuler(final)], Some(final));
    assert Step(g, c, n, angles[n], CommandedAttitude) == Ok(next);
    forall k | 1 <= k <= n
      ensures AttitudeStepRecorded(g, initial, angles, next, k)
    {
      if k < n {
        assert AttitudeStepRecorded(g, initial, angles, c, k);
      }
    }
  }

  /** Either mode, keys 1..n: the run succeeds, its maneuvers are keyed by
      exactly 1..n, its attitudes by exactly 0..n, and key 0 still holds the
      initial attitude. */
  lemma RunOverSteps<A, R(!new)>(g: RotationGroup<A, R>, initial: A, angles: map<int, A>, mode: AngleType, n: nat)
    requires forall j :: 1 <= j <= n ==> j in angles
    requires !mode.Unrecognised?
    ensures var r := Run(g, initial, Steps(n), angles, mode);
      && r.Ok?
      && (forall k :: k in r.value.maneuvers <==> 1 <= k <= n)
      && (forall k :: k in r.value.attitudes <==> 0 <= k <= n)
      && r.value.attitudes[0] == initial
      && |r.value.maneuvers| == n && |r.value.attitudes| == n + 1
  {
    RunOutcome(g, initial, Steps(n), angles, mode);
    RunShape(g, initial, Steps(n), angles, mode);
    var c := Run(g, initial, Steps(n), angles, mode).value;
    StepsMapSizes(c.maneuvers, c.attitudes, n);
  }

  /** Maneuvers keyed by 1..n and attitudes keyed by 0..n number n and n + 1. */
  lemma StepsMapSizes<A>(maneuvers: map<int, A>, attitudes: map<int, A>, n: nat)
    requires maneuvers.Keys == set k <- Steps(n)
    requires attitudes.Keys == (set k <- Steps(n)) + {0}
    ensures forall k :: k in maneuvers <==> 1 <= k <= n
    ensures forall k :: k in attitudes <==> 0 <= k <= n
    ensures |maneuvers| == n && |attitudes| == n + 1
  {
    assert forall k :: k in maneuvers <==> k in Steps(n);
    assert forall k :: k in attitudes <==> k in Steps(n) || k == 0;
    RangeMapSize(maneuvers, 1, n + 1);
    RangeMapSize(attitudes, 0, n + 1);
  }

  /** Either mode, keys 1..n: every recorded maneuver carries the recorded
      attitude before it to the recorded attitude after it. */
  lemma RecordedManeuversLink<A, R(!new)>(g: RotationGroup<A, R>, initial: A, angles: map<int, A>, mode: AngleType, n: nat, k: nat)
    requires g.Lawful()
    requires forall j :: 1 <= j <= n ==> j in angles
    requires !mode.Unrecognised?
    requires 1 <= k <= n
    ensures var r := Run(g, initial, Steps(n), angles, mode);
      && r.Ok?
      && k in r.value.maneuvers && k in r.value.attitudes && k - 1 in r.value.attitudes
      && g.compose(g.fromEuler(r.value.maneuvers[k]), g.fromEuler(r.value.attitudes[k - 1]))
         == g.fromEuler(r.value.attitudes[k])
  {
    if mode == CommandedManeuver {
      CommandedManeuverRun(g, initial, angles, n);
      var c := Run(g, initial, Steps(n), angles, mode).value;
      ManeuverLinkAt(g, initial, angles, c, n, k);
    } else {
      CommandedAttitudeRun(g, initial, angles, n);
      var c := Run(g, initial, Steps(n), angles, mode).value;
      AttitudeLinkAt(g, initial, angles, c, n, k);
    }
  }

  /** RecordedManeuversLink at one step of a commanded-maneuver run. */
  lemma ManeuverLinkAt<A, R(!new)>(g: RotationGroup<A, R>, initial: A, angles: map<int, A>, c: Composition<A, R>, n: nat, k: nat)
    requires g.Lawful()
    requires forall j :: 1 <= j <= n ==> j in angles
    requires 0 in c.attitudes && c.attitudes[0] == initial
    requires forall j :: 1 <= j <= n ==> ManeuverStepRecorded(g, initial, angles, c, j)
    requires 1 <= k <= n
    ensures k in c.maneuvers && k in c.attitudes && k - 1 in c.attitudes
    ensures g.compose(g.fromEuler(c.maneuvers[k]), g.fromEuler(c.attitudes[k - 1])) == g.fromEuler(c.attitudes[k])
  {
    assert ManeuverStepRecorded(g, initial, angles, c, k);
    var before := ManeuverChain(g, initial, angles, k - 1);
    RoundTrip(g, g.fromEuler(angles[k]));
    RoundTrip(g, ManeuverChain(g, initial, angles, k));
    if k > 1 {
      assert ManeuverStepRecorded(g, initial, angles, c, k - 1);
      RoundTrip(g, before);
    }
    assert g.fromEuler(c.attitudes[k - 1]) == before;
  }

  /** RecordedManeuversLink at one step of a commanded-attitude run. */
  lemma AttitudeLinkAt<A, R(!new)>(g: RotationGroup<A, R>, initial: A, angles: map<int, A>, c: Composition<A, R>, n: nat, k: nat)
    requires g.Lawful()
    requires forall j :: 1 <= j <= n ==> j in angles
    requires 0 in c.attitudes && c.attitudes[0] == initial
    requires forall j :: 1 <= j <= n ==> AttitudeStepRecorded(g, initial, angles, c, j)
    requires 1 <= k <= n
    ensures k in c.maneuvers && k in c.attitudes && k - 1 in c.attitudes
    ensures g.compose(g.fromEuler(c.maneuvers[k]), g.fromEuler(c.attitudes[k - 1])) == g.fromEuler(c.attitudes[k])
  {
    assert AttitudeStepRecorded(g, initial, angles, c, k);
    var before := Commanded(g, initial, angles, k - 1);
    var after := Commanded(g, initial, angles, k);
    RoundTrip(g, g.compose(after, g.inv(before)));
    RoundTrip(g, after);
    if k > 1 {
      assert AttitudeStepRecorded(g, initial, angles, c, k - 1);
      RoundTrip(g, before);
    }
    assert g.fromEuler(c.attitudes[k - 1]) == before;
    DivideThenCompose(g, after, before);
  }

  /** Commanding the maneuvers of a commanded-attitude run, from the same
      initial attitude, chains back to the commanded attitudes. */
  lemma {:induction false} RecoveredManeuversChain<A, R(!new)>(g: RotationGroup<A, R>, initial: A, angles: map<int, A>, c: Composition<A, R>, n: nat, k: nat)
    requires g.Lawful()
    requires forall j :: 1 <= j <= n ==> j in angles
    requires forall j :: 1 <= j <= n ==> AttitudeStepRecorded(g, initial, angles, c, j)
    requires k <= n
    ensures forall j :: 1 <= j <= k ==> j in c.maneuvers
    ensures ManeuverChain(g, initial, c.maneuvers, k) == Commanded(g, initial, angles, k)
  {
    if k > 0 {
      RecoveredManeuversChain(g, initial, angles, c, n, k - 1);
      assert AttitudeStepRecorded(g, initial, angles, c, k);
      var before := Commanded(g, initial, angles, k - 1);
      var after := Commanded(g, initial, angles, k);
      RoundTrip(g, g.compose(after, g.inv(before)));
      DivideThenCompose(g, after, before);
    }
  }

  /** AttitudeRunDuality at one key. */
  lemma AttitudeDualityAt<A, R(!new)>(g: RotationGroup<A, R>, initial: A, angles: map<int, A>, c1: Composition<A, R>, c2: Composition<A, R>, n: nat, k: nat)
    requires g.Lawful()
    requires forall j :: 1 <= j <= n ==> j in angles
    requires forall j :: 1 <= j <= n ==> AttitudeStepRecorded(g, initial, angles, c1, j)
    requires forall j :: 1 <= j <= n ==> j in c1.maneuvers
    requires forall j :: 1 <= j <= n ==> ManeuverStepRecorded(g, initial, c1.maneuvers, c2, j)
    requires 1 <= k <= n
    ensures k in c1.maneuvers && k in c1.attitudes && k in c2.maneuvers && k in c2.attitudes
    ensures c2.maneuvers[k] == c1.maneuvers[k] && c2.attitudes[k] == c1.attitudes[k]
  {
    assert AttitudeStepRecorded(g, initial, angles, c1, k);
    assert ManeuverStepRecorded(g, initial, c1.maneuvers, c2, k);
    RecoveredManeuversChain(g, initial, angles, c1, n, k);
    RoundTrip(g, g.compose(Commanded(g, initial, angles, k), g.inv(Commanded(g, initial, angles, k - 1))));
  }

  /** Duality: feeding the maneuvers of a commanded-attitude run back as
      commanded maneuvers, with the same initial attitude, reproduces both
      dictionaries exactly. */
  lemma AttitudeRunDuality<A, R(!new)>(g: RotationGroup<A, R>, initial: A, angles: map<int, A>, n: nat)
    requires g.Lawful()
    requires forall j :: 1 <= j <= n ==> j in angles
    ensures var byAttitude := Run(g, initial, Steps(n), angles, CommandedAttitude);
      && byAttitude.Ok?
      && (forall j :: 1 <= j <= n ==> j in byAttitude.value.maneuvers)
      && Outputs(Run(g, initial, Steps(n), byAttitude.value.maneuvers, CommandedManeuver)) == Outputs(byAttitude)
  {
    CommandedAttitudeRun(g, initial, angles, n);
    RunOverSteps(g, initial, angles, CommandedAttitude, n);
    var c1 := Run(g, initial, Steps(n), angles, CommandedAttitude).value;
    CommandedManeuverRun(g, initial, c1.maneuvers, n);
    RunOverSteps(g, initial, c1.maneuvers, CommandedManeuver, n);
    RunShape(g, initial, Steps(n), angles, CommandedAttitude);
    RunShape(g, initial, Steps(n), c1.maneuvers, CommandedManeuver);
    AttitudeDualityMaps(g, initial, angles, c1, Run(g, initial, Steps(n), c1.maneuvers, CommandedManeuver).value, n);
  }

  /** AttitudeRunDuality on the two recorded states. */
  lemma AttitudeDualityMaps<A, R(!new)>(g: RotationGroup<A, R>, initial: A, angles: map<int, A>, c1: Composition<A, R>, c2: Composition<A, R>, n: nat)
    requires g.Lawful()
    requires forall j :: 1 <= j <= n ==> j in angles
    requires forall j :: 1 <= j <= n ==> AttitudeStepRecorded(g, initial, angles, c1, j)
    requires forall j :: 1 <= j <= n ==> j in c1.maneuvers
    requires forall j :: 1 <= j <= n ==> ManeuverStepRecorded(g, initial, c1.maneuvers, c2, j)
    requires forall k :: k in c1.maneuvers <==> 1 <= k <= n
    requires forall k :: k in c1.attitudes <==> 0 <= k <= n
    requires c2.maneuvers.Keys == c1.maneuvers.Keys && c2.attitudes.Keys == c1.attitudes.Keys
    requires c1.attitudes[0] == c2.attitudes[0]
    ensures c2.maneuvers == c1.maneuvers && c2.attitudes == c1.attitudes
  {
    forall k | 1 <= k <= n
      ensures c2.maneuvers[k] == c1.maneuvers[k] && c2.attitudes[k] == c1.attitudes[k]
    {
      AttitudeDualityAt(g, initial, angles, c1, c2, n, k);
    }
    assert forall k | k in c1.maneuvers :: c2.maneuvers[k] == c1.maneuvers[k];
    assert forall k | k in c1.attitudes :: c2.attitudes[k] == c1.attitudes[k];
  }

  /** ManeuverRunDuality at one key. */
  lemma ManeuverDualityAt<A, R(!new)>(g: RotationGroup<A, R>, initial: A, angles: map<int, A>, c1: Composition<A, R>, c2: Composition<A, R>, n: nat, k: nat)
    requires g.Lawful()
    requires forall j :: 1 <= j <= n ==> j in angles
    requires forall j :: 1 <= j <= n ==> ManeuverStepRecorded(g, initial, angles, c1, j)
    requires forall j :: 1 <= j <= n ==> j in c1.attitudes
    requires forall j :: 1 <= j <= n ==> AttitudeStepRecorded(g, initial, c1.attitudes, c2, j)
    requires 1 <= k <= n
    ensures k in c1.maneuvers && k in c1.attitudes && k in c2.maneuvers && k in c2.attitudes
    ensures c2.maneuvers[k] == c1.maneuvers[k] && c2.attitudes[k] == c1.attitudes[k]
  {
    assert ManeuverStepRecorded(g, initial, angles, c1, k);
    assert AttitudeStepRecorded(g, initial, c1.attitudes, c2, k);
    var before := ManeuverChain(g, initial, angles, k - 1);
    var after := ManeuverChain(g, initial, angles, k);
    RoundTrip(g, after);
    assert Commanded(g, initial, c1.attitudes, k) == after;
    if k > 1 {
      assert ManeuverStepRecorded(g, initial, angles, c1, k - 1);
      RoundTrip(g, before);
    }
    assert Commanded(g, initial, c1.attitudes, k - 1) == before;
    ComposeThenDivide(g, g.fromEuler(angles[k]), before);
  }

  /** The dual direction: taking the attitudes of a commanded-maneuver run
      as commanded attitudes, with the same initial attitude, reproduces
      both dictionaries exactly. */
  lemma ManeuverRunDuality<A, R(!new)>(g: RotationGroup<A, R>, initial: A, angles: map<int, A>, n: nat)
    requires g.Lawful()
    requires forall j :: 1 <= j <= n ==> j in angles
    ensures var byManeuver := Run(g, initial, Steps(n), angles, CommandedManeuver);
      && byManeuver.Ok?
      && (forall j :: 1 <= j <= n ==> j in byManeuver.value.attitudes)
      && Outputs(Run(g, initial, Steps(n), byManeuver.value.attitudes, CommandedAttitude)) == Outputs(byManeuver)
  {
    CommandedManeuverRun(g, initial, angles, n);
    RunOverSteps(g, initial, angles, CommandedManeuver, n);
    var c1 := Run(g, initial, Steps(n), angles, CommandedManeuver).value;
    CommandedAttitudeRun(g, initial, c1.attitudes, n);
    RunOverSteps(g, initial, c1.attitudes, CommandedAttitude, n);
    RunShape(g, initial, Steps(n), angles, CommandedManeuver);
    RunShape(g, initial, Steps(n), c1.attitudes, CommandedAttitude);
    ManeuverDualityMaps(g, initial, angles, c1, Run(g, initial, Steps(n), c1.attitudes, CommandedAttitude).value, n);
  }

  /** ManeuverRunDuality on the two recorded states. */
  lemma ManeuverDualityMaps<A, R(!new)>(g: RotationGroup<A, R>, initial: A, angles: map<int, A>, c1: Composition<A, R>, c2: Composition<A, R>, n: nat)
    requires g.Lawful()
    requires forall j :: 1 <= j <= n ==> j in angles
    requires forall j :: 1 <= j <= n ==> ManeuverStepRecorded(g, initial, angles, c1, j)
    requires forall j :: 1 <= j <= n ==> j in c1.attitudes
    requires forall j :: 1 <= j <= n ==> AttitudeStepRecorded(g, initial, c1.attitudes, c2, j)
    requires forall k :: k in c1.maneuvers <==> 1 <= k <= n
    requires forall k :: k in c1.attitudes <==> 0 <= k <= n
    requires c2.maneuvers.Keys == c1.maneuvers.Keys && c2.attitudes.Keys == c1.attitudes.Keys
    requires c1.attitudes[0] == c2.attitudes[0]
    ensures c2.maneuvers == c1.maneuvers && c2.attitudes == c1.attitudes
  {
    forall k | 1 <= k <= n
      ensures c2.maneuvers[k] == c1.maneuvers[k] && c2.attitudes[k] == c1.attitudes[k]
    {
      ManeuverDualityAt(g, initial, angles, c1, c2, n, k);
    }
    assert forall k | k in c1.maneuvers :: c2.maneuvers[k] == c1.maneuvers[k];
    assert forall k | k in c1.attitudes :: c2.attitudes[k] == c1.attitudes[k];
  }

  /** Order matters: commanding maneuvers a then b ends in the same attitude
      as b then a exactly when the two rotations commute. */
  lemma ManeuverOrderMatters<A, R(!new)>(g: RotationGroup<A, R>, initial: A, a: A, b: A)
    requires g.Lawful()
    ensures var first := Run(g, initial, Steps(2), map[1 := a, 2 := b], CommandedManeuver);
      var second := Run(g, initial, Steps(2), map[1 := b, 2 := a], CommandedManeuver);
      && first.Ok? && second.Ok?
      && 2 in first.value.attitudes && 2 in second.value.attitudes
      && (first.value.attitudes[2] == second.value.attitudes[2]
          <==> g.compose(g.fromEuler(b), g.fromEuler(a)) == g.compose(g.fromEuler(a), g.fromEuler(b)))
  {
    var ab := map[1 := a, 2 := b];
    var ba := map[1 := b, 2 := a];
    CommandedManeuverRun(g, initial, ab, 2);
    CommandedManeuverRun(g, initial, ba, 2);
    assert ManeuverStepRecorded(g, initial, ab, Run(g, initial, Steps(2), ab, CommandedManeuver).value, 2);
    assert ManeuverStepRecorded(g, initial, ba, Run(g, initial, Steps(2), ba, CommandedManeuver).value, 2);
    var p, fa, fb := g.fromEuler(initial), g.fromEuler(a), g.fromEuler(b);
    assert ManeuverChain(g, initial, ab, 1) == g.compose(fa, p);
    assert ManeuverChain(g, initial, ab, 2) == g.compose(fb, g.compose(fa, p));
    assert ManeuverChain(g, initial, ba, 1) == g.compose(fb, p);
    assert ManeuverChain(g, initial, ba, 2) == g.compose(fa, g.compose(fb, p));
    AsEulerInjective(g, g.compose(fb, g.compose(fa, p)), g.compose(fa, g.compose(fb, p)));
    assert g.Associative(fb, fa, p) && g.Associative(fa, fb, p);
    CancelRight(g, g.compose(fb, fa), g.compose(fa, fb), p);
  }

  // ---------------------------------------------------------------------
  // print_maneuvers
  // ---------------------------------------------------------------------

  /** The caller's attitude dictionary, which print_maneuvers writes to. */
  class AttitudeTable<A> {
    var entries: map<int, A>

    constructor (entries: map<int, A>)
      ensures this.entries == entries
    {
      this.entries := entries;
    }
  }

  /** One block of the trace: starting attitude, maneuver, ending attitude. */
  datatype Visit<A> = Visit(start: A, maneuver: A, end: A)

  /** The count check done before anything is written or visited: it passes
      exactly when there is one more attitude than maneuvers, and otherwise
      reports the signed difference with the message for its sign. */
  function CheckCounts<A>(maneuvers: map<int, A>, attitudes: map<int, A>): (r: Option<Error>)
    ensures r.None? <==> |attitudes| == |maneuvers| + 1
    ensures |attitudes| - |maneuvers| > 1 ==> r == Some(AttitudesWithoutManeuvers(|attitudes| - |maneuvers|))
    ensures |attitudes| - |maneuvers| < 1 ==> r == Some(ManeuversWithoutAttitudes(|attitudes| - |maneuvers|))
  {
    var difference := |attitudes| - |maneuvers|;
    if difference > 1 then Some(AttitudesWithoutManeuvers(difference))
    else if difference < 1 then Some(ManeuversWithoutAttitudes(difference))
    else None
  }

  /** The visits to indices 1..n in ascending order, index i paired with
      i - 1; the first lookup that misses (attitude i - 1, maneuver i,
      attitude i, in that order) is a KeyError. With no index to visit no
      lookup is made; otherwise the walk succeeds exactly when attitudes
      0..n and maneuvers 1..n are all present, with one visit per index. */
  function Trace<A>(maneuvers: map<int, A>, attitudes: map<int, A>, n: nat): (r: Result<seq<Visit<A>>>)
    ensures r.Ok? <==> n == 0 || ((forall i :: 0 <= i <= n ==> i in attitudes) && (forall i :: 1 <= i <= n ==> i in maneuvers))
    ensures r.Ok? ==> |r.value| == n
  {
    if n == 0 then Ok([])
    else
      match Trace(maneuvers, attitudes, n - 1)
      case Err(e) => Err(e)
      case Ok(visits) =>
        if n - 1 !in attitudes then Err(MissingKey(n - 1))
        else if n !in maneuvers then Err(MissingKey(n))
        else if n !in attitudes then Err(MissingKey(n))
        else Ok(visits + [Visit(attitudes[n - 1], maneuvers[n], attitudes[n])])
  }

  /** Once a visit has failed, the whole walk fails the same way. */
  lemma {:induction false} TraceFailurePersists<A>(maneuvers: map<int, A>, attitudes: map<int, A>, i: nat, n: nat)
    requires i <= n
    requires Trace(maneuvers, attitudes, i).Err?
    ensures Trace(maneuvers, attitudes, n) == Trace(maneuvers, attitudes, i)
    decreases n - i
  {
    if i < n {
      TraceFailurePersists(maneuvers, attitudes, i + 1, n);
    }
  }

  /** When attitudes 0..n and maneuvers 1..n are all present, the walk
      visits 1..n in ascending order, each with its predecessor. */
  lemma {:induction false} TraceComplete<A>(maneuvers: map<int, A>, attitudes: map<int, A>, n: nat)
    requires forall i :: 0 <= i <= n ==> i in attitudes
    requires forall i :: 1 <= i <= n ==> i in maneuvers
    ensures var r := Trace(maneuvers, attitudes, n);
      && r.Ok? && |r.value| == n
      && forall i :: 1 <= i <= n ==> r.value[i - 1] == Visit(attitudes[i - 1], maneuvers[i], attitudes[i])
  {
    if n > 0 {
      TraceComplete(maneuvers, attitudes, n - 1);
    }
  }

  /** A failed walk names a key that really is missing, and every visit
      before the one that needed that key went through. */
  lemma {:induction false} TraceMissing<A>(maneuvers: map<int, A>, attitudes: map<int, A>, n: nat)
    requires Trace(maneuvers, attitudes, n).Err?
    ensures var e := Trace(maneuvers, attitudes, n).error;
      && e.MissingKey? && 0 <= e.key <= n
      && (e.key !in attitudes || (1 <= e.key && e.key !in maneuvers))
      && (e.key == 0 || Trace(maneuvers, attitudes, e.key - 1).Ok?)
  {
    if n > 0 && Trace(maneuvers, attitudes, n - 1).Err? {
      TraceMissing(maneuvers, attitudes, n - 1);
    }
  }

  /** print_maneuvers: the count check, then attitude_dictionary[0] is
      overwritten with initial_attitude and the indices 1..N are walked. */
  method PrintManeuvers<A>(initial: A, maneuvers: map<int, A>, attitudes: AttitudeTable<A>) returns (r: Result<seq<Visit<A>>>)
    modifies attitudes
    ensures CheckCounts(maneuvers, old(attitudes.entries)).Some? ==>
      && r == Err(CheckCounts(maneuvers, old(attitudes.entries)).value)
      && attitudes.entries == old(attitudes.entries)
    ensures CheckCounts(maneuvers, old(attitudes.entries)).None? ==>
      && attitudes.entries == old(attitudes.entries)[0 := initial]
      && r == Trace(maneuvers, attitudes.entries, |maneuvers|)
  {
    var difference := |attitudes.entries| - |maneuvers|;
    if difference > 1 {
      return Err(AttitudesWithoutManeuvers(difference));
    } else if difference < 1 {
      return Err(ManeuversWithoutAttitudes(difference));
    }
    var count := |maneuvers|;
    attitudes.entries := attitudes.entries[0 := initial];
    var visits: seq<Visit<A>> := [];
    for i := 1 to count + 1
      invariant Trace(maneuvers, attitudes.entries, i - 1) == Ok(visits)
    {
      if i - 1 !in attitudes.entries {
        TraceFailurePersists(maneuvers, attitudes.entries, i, count);
        return Err(MissingKey(i - 1));
      }
      if i !in maneuvers || i !in attitudes.entries {
        TraceFailurePersists(maneuvers, attitudes.entries, i, count);
        return Err(MissingKey(i));
      }
      visits := visits + [Visit(attitudes.entries[i - 1], maneuvers[i], attitudes.entries[i])];
    }
    r := Ok(visits);
  }

  /** The output of combine_rotations over keys 1..n passes the count check,
      already has the initial attitude at key 0, and is walked in full. */
  lemma CombineThenReport<A, R(!new)>(g: RotationGroup<A, R>, initial: A, angles: map<int, A>, mode: AngleType, n: nat)
    requires forall j :: 1 <= j <= n ==> j in angles
    requires !mode.Unrecognised?
    ensures var r := Run(g, initial, Steps(n), angles, mode);
      && r.Ok?
      && CheckCounts(r.value.maneuvers, r.value.attitudes).None?
      && r.value.attitudes[0 := initial] == r.value.attitudes
      && (forall i :: 0 <= i <= n ==> i in r.value.attitudes)
      && (forall i :: 1 <= i <= n ==> i in r.value.maneuvers)
    ensures var c := Run(g, initial, Steps(n), angles, mode).value;
      && Trace(c.maneuvers, c.attitudes, n).Ok?
      && |Trace(c.maneuvers, c.attitudes, n).value| == n
      && forall i :: 0 <= i < n ==>
           Trace(c.maneuvers, c.attitudes, n).value[i] == Visit(c.attitudes[i], c.maneuvers[i + 1], c.attitudes[i + 1])
  {
    RunOverSteps(g, initial, angles, mode, n);
    var c := Run(g, initial, Steps(n), angles, mode).value;
    TraceComplete(c.maneuvers, c.attitudes, n);
  }
}
