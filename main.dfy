// compute_attitude and compute_maneuver of main.py: the attitudes and
// maneuvers each function works out before it draws them, one panel per
// dictionary entry. The figure itself is not modelled; a panel records what
// is handed to plot_setup for it.

module MainScript {
  import opened Basics
  import opened Rotations
  import opened AttitudeControlUtils

  /** The title of a panel. */
  datatype Label = InputAttitude | InitialAttitude | FinalAttitude | ManeuverNumber(index: int)

  /** What one subplot shows: its position in the grid (attitude_index + 1),
      its title, the attitude drawn and the maneuver angles printed, if any. */
  datatype Panel<A, R> = Panel(slot: int, title: Label, attitude: R, maneuver: Option<A>)

  /** compute_attitude's state: attitude_list and the panels drawn so far. */
  datatype AttitudeView<A, R> = AttitudeView(attitudes: seq<R>, panels: seq<Panel<A, R>>)

  /** The title used for index i of a dictionary with more than one entry,
      whose last index is last. */
  function LabelAt(i: int, last: int): (l: Label)
    ensures l == InitialAttitude <==> i == 0
    ensures l == FinalAttitude <==> i != 0 && i == last
    ensures l.ManeuverNumber? <==> i != 0 && i != last
    ensures l.ManeuverNumber? ==> l.index == i
  {
    if i == 0 then InitialAttitude
    else if i == last then FinalAttitude
    else ManeuverNumber(i)
  }

  // ---------------------------------------------------------------------
  // compute_attitude
  // ---------------------------------------------------------------------

  /** compute_attitude over the entries whose keys are listed, in that order.
      attitude_list starts with the attitude at key 0. With a single entry
      that entry is applied as it is; otherwise key 0 is skipped and every
      other entry is a maneuver applied on the left of the last attitude. */
  function AttitudeWalk<A, R(!new)>(g: RotationGroup<A, R>, d: map<int, A>, total: int, keys: seq<int>): (v: AttitudeView<A, R>)
    requires 0 in d
    requires forall k <- keys :: k in d
    ensures |v.attitudes| >= 1 && v.attitudes[0] == g.fromEuler(d[0])
    ensures |v.panels| == |keys|
    decreases |keys|
  {
    if keys == [] then AttitudeView([g.fromEuler(d[0])], [])
    else
      var before := AttitudeWalk(g, d, total, keys[..|keys| - 1]);
      var index := keys[|keys| - 1];
      var rotation := g.fromEuler(d[index]);
      if total == 1 then
        AttitudeView(before.attitudes + [rotation], before.panels + [Panel(index + 1, InputAttitude, rotation, Some(d[index]))])
      else if index == 0 then
        AttitudeView(before.attitudes, before.panels + [Panel(1, InitialAttitude, rotation, None)])
      else
        var post := g.compose(rotation, before.attitudes[|before.attitudes| - 1]);
        AttitudeView(before.attitudes + [post], before.panels + [Panel(index + 1, LabelAt(index, total - 1), post, Some(d[index]))])
  }

  /** compute_attitude: a KeyError without key 0, otherwise the attitude
      list and the panels of AttitudeWalk, with len(euler_angle_dictionary)
      as the number of entries. */
  method ComputeAttitude<A, R(!new)>(g: RotationGroup<A, R>, keys: seq<int>, d: map<int, A>) returns (r: Result<AttitudeView<A, R>>)
    requires IsKeyOrder(keys, d)
    ensures 0 !in d ==> r == Err(MissingKey(0))
    ensures 0 in d ==> r == Ok(AttitudeWalk(g, d, |d|, keys))
  {
    if 0 !in d {
      return Err(MissingKey(0));
    }
    var total := |d|;
    var attitudes := [g.fromEuler(d[0])];
    var panels: seq<Panel<A, R>> := [];
    for i := 0 to |keys|
      invariant AttitudeWalk(g, d, total, keys[..i]) == AttitudeView(attitudes, panels)
    {
      assert keys[..i + 1][..i] == keys[..i];
      var index := keys[i];
      var rotation := g.fromEuler(d[index]);
      if total == 1 {
        panels := panels + [Panel(index + 1, InputAttitude, rotation, Some(d[index]))];
        attitudes := attitudes + [rotation];
      } else if index == 0 {
        panels := panels + [Panel(1, InitialAttitude, rotation, None)];
      } else {
        var post := g.compose(rotation, attitudes[|attitudes| - 1]);
        panels := panels + [Panel(index + 1, LabelAt(index, total - 1), post, Some(d[index]))];
        attitudes := attitudes + [post];
      }
    }
    assert keys[..|keys|] == keys;
    return Ok(AttitudeView(attitudes, panels));
  }

  /** Entry i of a walk over keys 0..last is recorded as the chain of
      maneuvers 1..i applied to the attitude at key 0, and drawn under the
      title for i. */
  ghost predicate AttitudeRecorded<A, R(!new)>(g: RotationGroup<A, R>, d: map<int, A>, last: nat, v: AttitudeView<A, R>, i: nat)
    requires forall j :: 0 <= j <= last ==> j in d
    requires i <= last
  {
    && i < |v.attitudes| && i < |v.panels|
    && v.attitudes[i] == ManeuverChain(g, d[0], d, i)
    && v.panels[i] == Panel(i + 1, LabelAt(i, last), v.attitudes[i], if i == 0 then None else Some(d[i]))
  }

  /** Keys 0..last in order, more than one of them: after the first m + 1
      entries the attitude list holds the chains 0..m. */
  lemma {:induction false} AttitudeWalkPrefix<A, R(!new)>(g: RotationGroup<A, R>, d: map<int, A>, last: nat, m: nat)
    requires 1 <= last && m <= last
    requires forall j :: 0 <= j <= last ==> j in d
    ensures var v := AttitudeWalk(g, d, last + 1, Range(0, m + 1));
      && |v.attitudes| == m + 1 && |v.panels| == m + 1
      && forall i :: 0 <= i <= m ==> AttitudeRecorded(g, d, last, v, i)
  {
    AttitudeWalkUnfold(g, d, last + 1, m);
    if m > 0 {
      AttitudeWalkPrefix(g, d, last, m - 1);
      AttitudeWalkStep(g, d, last, AttitudeWalk(g, d, last + 1, Range(0, m)), m);
    } else {
      assert AttitudeRecorded(g, d, last, AttitudeWalk(g, d, last + 1, Range(0, 1)), 0);
    }
  }

  /** Over keys 0..m of a dictionary with more than one entry, the walk is
      the walk over 0..m-1 followed by key m. */
  lemma AttitudeWalkUnfold<A, R(!new)>(g: RotationGroup<A, R>, d: map<int, A>, total: int, m: nat)
    requires total != 1
    requires forall j :: 0 <= j <= m ==> j in d
    ensures var before := AttitudeWalk(g, d, total, Range(0, m));
      m == 0 ==> (AttitudeWalk(g, d, total, Range(0, m + 1))
                  == AttitudeView(before.attitudes, before.panels + [Panel(1, InitialAttitude, g.fromEuler(d[0]), None)]))
    ensures var before := AttitudeWalk(g, d, total, Range(0, m));
      var post := g.compose(g.fromEuler(d[m]), before.attitudes[|before.attitudes| - 1]);
      m > 0 ==> (AttitudeWalk(g, d, total, Range(0, m + 1))
                 == AttitudeView(before.attitudes + [post], before.panels + [Panel(m + 1, LabelAt(m, total - 1), post, Some(d[m]))]))
  {
    var keys := Range(0, m + 1);
    RangeDropLast(0, m + 1);
    assert keys[..|keys| - 1] == Range(0, m) && keys[|keys| - 1] == m;
  }

  /** One more entry of a walk over keys 0..last, on the view after 0..m-1. */
  lemma AttitudeWalkStep<A, R(!new)>(g: RotationGroup<A, R>, d: map<int, A>, last: nat, before: AttitudeView<A, R>, m: nat)
    requires 1 <= m <= last
    requires forall j :: 0 <= j <= last ==> j in d
    requires |before.attitudes| == m && |before.panels| == m
    requires forall i :: 0 <= i < m ==> AttitudeRecorded(g, d, last, before, i)
    ensures var post := g.compose(g.fromEuler(d[m]), before.attitudes[m - 1]);
      var v := AttitudeView(before.attitudes + [post], before.panels + [Panel(m + 1, LabelAt(m, last), post, Some(d[m]))]);
      forall i :: 0 <= i <= m ==> AttitudeRecorded(g, d, last, v, i)
  {
    var post := g.compose(g.fromEuler(d[m]), before.attitudes[m - 1]);
    var v := AttitudeView(before.attitudes + [post], before.panels + [Panel(m + 1, LabelAt(m, last), post, Some(d[m]))]);
    assert AttitudeRecorded(g, d, last, before, m - 1);
    forall i | 0 <= i <= m
      ensures AttitudeRecorded(g, d, last, v, i)
    {
      if i < m {
        assert AttitudeRecorded(g, d, last, before, i);
      }
    }
  }

  /** Keys 0..last in order, more than one of them: attitude_list holds one
      attitude per key, each the previous one turned by that key's maneuver,
      and the panels are titled Initial, Maneuver 1 .. last - 1, Final. */
  lemma AttitudeListOverRange<A, R(!new)>(g: RotationGroup<A, R>, d: map<int, A>, last: nat)
    requires 1 <= last
    requires forall j :: 0 <= j <= last ==> j in d
    ensures forall k <- Range(0, last + 1) :: k in d
    ensures var v := AttitudeWalk(g, d, last + 1, Range(0, last + 1));
      && |v.attitudes| == last + 1 && |v.panels| == last + 1
      && v.attitudes[0] == g.fromEuler(d[0])
      && (forall i :: 1 <= i <= last ==> v.attitudes[i] == g.compose(g.fromEuler(d[i]), v.attitudes[i - 1]))
      && (forall i :: 0 <= i <= last ==>
            v.panels[i] == Panel(i + 1, LabelAt(i, last), v.attitudes[i], if i == 0 then None else Some(d[i])))
  {
    AttitudeWalkPrefix(g, d, last, last);
    var v := AttitudeWalk(g, d, last + 1, Range(0, last + 1));
    forall i | 0 <= i <= last
      ensures v.panels[i] == Panel(i + 1, LabelAt(i, last), v.attitudes[i], if i == 0 then None else Some(d[i]))
      ensures i >= 1 ==> v.attitudes[i] == g.compose(g.fromEuler(d[i]), v.attitudes[i - 1])
    {
      assert AttitudeRecorded(g, d, last, v, i);
      if i >= 1 {
        assert AttitudeRecorded(g, d, last, v, i - 1);
      }
    }
  }

  /** A dictionary holding only key 0: its entry is applied as it is, so
      attitude_list holds that attitude twice, drawn as the input attitude. */
  lemma AttitudeSingleEntry<A, R(!new)>(g: RotationGroup<A, R>, a: A)
    ensures AttitudeWalk(g, map[0 := a], 1, [0])
         == AttitudeView([g.fromEuler(a), g.fromEuler(a)], [Panel(1, InputAttitude, g.fromEuler(a), Some(a))])
  {
    assert [0][..0] == [];
  }

  /** compute_attitude agrees with combine_rotations in commanded-maneuver
      mode: starting from the attitude at key 0 with maneuvers 1..last, the
      attitudes combine_rotations records are the Euler angles of the
      entries of attitude_list. */
  lemma ComputeAttitudeMatchesCombine<A, R(!new)>(g: RotationGroup<A, R>, d: map<int, A>, last: nat)
    requires g.Lawful()
    requires 1 <= last
    requires forall j :: 0 <= j <= last ==> j in d
    ensures forall k <- Range(0, last + 1) :: k in d
    ensures var r := Run(g, d[0], Steps(last), d, CommandedManeuver);
      var v := AttitudeWalk(g, d, last + 1, Range(0, last + 1));
      && r.Ok? && |v.attitudes| == last + 1
      && forall k :: 1 <= k <= last ==> k in r.value.attitudes && r.value.attitudes[k] == g.asEuler(v.attitudes[k])
  {
    AttitudeWalkPrefix(g, d, last, last);
    CommandedManeuverRun(g, d[0], d, last);
    var c := Run(g, d[0], Steps(last), d, CommandedManeuver).value;
    var v := AttitudeWalk(g, d, last + 1, Range(0, last + 1));
    forall k | 1 <= k <= last
      ensures k in c.attitudes && c.attitudes[k] == g.asEuler(v.attitudes[k])
    {
      assert AttitudeRecorded(g, d, last, v, k);
      assert ManeuverStepRecorded(g, d[0], d, c, k);
    }
  }

  // ---------------------------------------------------------------------
  // compute_maneuver
  // ---------------------------------------------------------------------

  /** The panel compute_maneuver draws for the entry at index: with a single
      entry, and at index 0, it draws the maneuver rotation itself; at any
      other index it draws the attitude at that index and prints the
      maneuver angles. */
  function ManeuverPanel<A, R(!new)>(g: RotationGroup<A, R>, index: int, total: int, post: R, maneuver: R): (p: Panel<A, R>)
    ensures p.slot == index + 1
    ensures p.attitude == if total == 1 || index == 0 then maneuver else post
    ensures p.maneuver == if total != 1 && index == 0 then None else Some(g.asEuler(maneuver))
  {
    if total == 1 then Panel(index + 1, InputAttitude, maneuver, Some(g.asEuler(maneuver)))
    else if index == 0 then Panel(1, InitialAttitude, maneuver, None)
    else Panel(index + 1, LabelAt(index, total - 1), post, Some(g.asEuler(maneuver)))
  }

  /** compute_maneuver over the entries whose keys are listed, in that order:
      each maneuver turns the attitude at index - 1 (at index 0, the attitude
      at 0 itself) into the attitude at index; a missing predecessor is a
      KeyError. */
  function ManeuverWalk<A, R(!new)>(g: RotationGroup<A, R>, d: map<int, A>, total: int, keys: seq<int>): (r: Result<seq<Panel<A, R>>>)
    requires forall k <- keys :: k in d
    ensures r.Ok? ==> |r.value| == |keys|
    decreases |keys|
  {
    if keys == [] then Ok([])
    else
      match ManeuverWalk(g, d, total, keys[..|keys| - 1])
      case Err(e) => Err(e)
      case Ok(panels) =>
        var index := keys[|keys| - 1];
        var pre := if index == 0 then 0 else index - 1;
        if pre !in d then Err(MissingKey(pre))
        else
          var post := g.fromEuler(d[index]);
          var maneuver := g.compose(post, g.inv(g.fromEuler(d[pre])));
          Ok(panels + [ManeuverPanel(g, index, total, post, maneuver)])
  }

  /** The prefix of keys up to i, when it is a prefix of a longer key order. */
  lemma ManeuverWalkExtends<A, R(!new)>(g: RotationGroup<A, R>, d: map<int, A>, total: int, keys: seq<int>, i: nat)
    requires forall k <- keys :: k in d
    requires i < |keys|
    ensures keys[..i + 1][..i] == keys[..i]
    ensures ManeuverWalk(g, d, total, keys[..i + 1]) ==
      match ManeuverWalk(g, d, total, keys[..i])
      case Err(e) => Err(e)
      case Ok(panels) =>
        var index := keys[i];
        var pre := if index == 0 then 0 else index - 1;
        if pre !in d then Err(MissingKey(pre))
        else Ok(panels + [ManeuverPanel(g, index, total, g.fromEuler(d[index]), g.compose(g.fromEuler(d[index]), g.inv(g.fromEuler(d[pre]))))])
  {
    assert keys[..i + 1][..i] == keys[..i];
  }

  /** Once an entry has failed, the whole walk fails the same way. */
  lemma {:induction false} ManeuverWalkFailurePersists<A, R(!new)>(g: RotationGroup<A, R>, d: map<int, A>, total: int, keys: seq<int>, i: nat)
    requires forall k <- keys :: k in d
    requires i <= |keys|
    requires ManeuverWalk(g, d, total, keys[..i]).Err?
    ensures ManeuverWalk(g, d, total, keys) == ManeuverWalk(g, d, total, keys[..i])
    decreases |keys| - i
  {
    if i < |keys| {
      ManeuverWalkExtends(g, d, total, keys, i);
      ManeuverWalkFailurePersists(g, d, total, keys, i + 1);
    } else {
      assert keys[..i] == keys;
    }
  }

  /** compute_maneuver: the panels of ManeuverWalk, with
      len(attitude_dictionary) as the number of entries. */
  method ComputeManeuver<A, R(!new)>(g: RotationGroup<A, R>, keys: seq<int>, d: map<int, A>) returns (r: Result<seq<Panel<A, R>>>)
    requires IsKeyOrder(keys, d)
    ensures r == ManeuverWalk(g, d, |d|, keys)
  {
    var total := |d|;
    var panels: seq<Panel<A, R>> := [];
    for i := 0 to |keys|
      invariant ManeuverWalk(g, d, total, keys[..i]) == Ok(panels)
    {
      ManeuverWalkExtends(g, d, total, keys, i);
      var index := keys[i];
      var pre := if index == 0 then 0 else index - 1;
      if pre !in d {
        ManeuverWalkFailurePersists(g, d, total, keys, i + 1);
        return Err(MissingKey(pre));
      }
      var post := g.fromEuler(d[index]);
      var maneuver := g.compose(post, g.inv(g.fromEuler(d[pre])));
      panels := panels + [ManeuverPanel(g, index, total, post, maneuver)];
    }
    assert keys[..|keys|] == keys;
    return Ok(panels);
  }

  /** compute_maneuver succeeds exactly when every non-zero key has its
      predecessor in the dictionary. */
  lemma {:induction false} ManeuverWalkOutcome<A, R(!new)>(g: RotationGroup<A, R>, d: map<int, A>, total: int, keys: seq<int>)
    requires forall k <- keys :: k in d
    ensures ManeuverWalk(g, d, total, keys).Ok? <==> forall j :: 0 <= j < |keys| ==> PredecessorPresent(d, keys[j])
    decreases |keys|
  {
    if keys != [] {
      var prefix := keys[..|keys| - 1];
      ManeuverWalkOutcome(g, d, total, prefix);
      assert forall j :: 0 <= j < |prefix| ==> prefix[j] == keys[j];
    }
  }

  /** The lookup compute_maneuver makes before index k cannot fail. */
  ghost predicate PredecessorPresent<A>(d: map<int, A>, k: int) {
    k == 0 || k - 1 in d
  }

  /** A failed compute_maneuver names a missing predecessor of one of its keys. */
  lemma {:induction false} ManeuverWalkNamesMissingKey<A, R(!new)>(g: RotationGroup<A, R>, d: map<int, A>, total: int, keys: seq<int>)
    requires forall k <- keys :: k in d
    requires ManeuverWalk(g, d, total, keys).Err?
    ensures var e := ManeuverWalk(g, d, total, keys).error;
      e.MissingKey? && e.key !in d && e.key + 1 in keys
    decreases |keys|
  {
    var prefix := keys[..|keys| - 1];
    if ManeuverWalk(g, d, total, prefix).Err? {
      ManeuverWalkNamesMissingKey(g, d, total, prefix);
      var j :| 0 <= j < |prefix| && prefix[j] == ManeuverWalk(g, d, total, prefix).error.key + 1;
      assert keys[j] == prefix[j];
    }
  }

  /** The maneuver compute_maneuver works out at index i > 0: the attitude
      at i times the inverse of the attitude at i - 1. */
  ghost function ManeuverBetween<A, R(!new)>(g: RotationGroup<A, R>, d: map<int, A>, i: nat): R
    requires i in d && (i > 0 ==> i - 1 in d)
  {
    g.compose(g.fromEuler(d[i]), g.inv(g.fromEuler(d[if i == 0 then 0 else i - 1])))
  }

  /** Panel i of a walk over keys 0..last is the one drawn for index i. */
  ghost predicate ManeuverRecorded<A, R(!new)>(g: RotationGroup<A, R>, d: map<int, A>, last: nat, panels: seq<Panel<A, R>>, i: nat)
    requires forall j :: 0 <= j <= last ==> j in d
    requires i <= last
  {
    i < |panels| && panels[i] == ManeuverPanel(g, i, last + 1, g.fromEuler(d[i]), ManeuverBetween(g, d, i))
  }

  /** Keys 0..last in order: the walk over the first m + 1 entries succeeds
      with the panels for indices 0..m. */
  lemma {:induction false} ManeuverWalkPrefix<A, R(!new)>(g: RotationGroup<A, R>, d: map<int, A>, last: nat, m: nat)
    requires m <= last
    requires forall j :: 0 <= j <= last ==> j in d
    ensures forall k <- Range(0, m + 1) :: k in d
    ensures var r := ManeuverWalk(g, d, last + 1, Range(0, m + 1));
      && r.Ok? && |r.value| == m + 1
      && forall i :: 0 <= i <= m ==> ManeuverRecorded(g, d, last, r.value, i)
  {
    if m > 0 {
      ManeuverWalkPrefix(g, d, last, m - 1);
      ManeuverWalkUnfold(g, d, last + 1, m);
      ManeuverWalkStep(g, d, last, ManeuverWalk(g, d, last + 1, Range(0, m)).value, m);
    } else {
      ManeuverWalkUnfold(g, d, last + 1, 0);
      assert ManeuverRecorded(g, d, last, ManeuverWalk(g, d, last + 1, Range(0, 1)).value, 0);
    }
  }

  /** Over keys 0..m, the walk is the walk over 0..m-1 followed by key m. */
  lemma ManeuverWalkUnfold<A, R(!new)>(g: RotationGroup<A, R>, d: map<int, A>, total: int, m: nat)
    requires forall j :: 0 <= j <= m ==> j in d
    requires ManeuverWalk(g, d, total, Range(0, m)).Ok?
    ensures forall k <- Range(0, m + 1) :: k in d
    ensures ManeuverWalk(g, d, total, Range(0, m + 1))
         == Ok(ManeuverWalk(g, d, total, Range(0, m)).value + [ManeuverPanel(g, m, total, g.fromEuler(d[m]), ManeuverBetween(g, d, m))])
  {
    var keys := Range(0, m + 1);
    RangeDropLast(0, m + 1);
    assert keys[..|keys| - 1] == Range(0, m) && keys[|keys| - 1] == m;
  }

  /** One more entry of a walk over keys 0..last, on the panels for 0..m-1. */
  lemma ManeuverWalkStep<A, R(!new)>(g: RotationGroup<A, R>, d: map<int, A>, last: nat, before: seq<Panel<A, R>>, m: nat)
    requires 1 <= m <= last
    requires forall j :: 0 <= j <= last ==> j in d
    requires |before| == m
    requires forall i :: 0 <= i < m ==> ManeuverRecorded(g, d, last, before, i)
    ensures var panels := before + [ManeuverPanel(g, m, last + 1, g.fromEuler(d[m]), ManeuverBetween(g, d, m))];
      forall i :: 0 <= i <= m ==> ManeuverRecorded(g, d, last, panels, i)
  {
    var panels := before + [ManeuverPanel(g, m, last + 1, g.fromEuler(d[m]), ManeuverBetween(g, d, m))];
    forall i | 0 <= i <= m
      ensures ManeuverRecorded(g, d, last, panels, i)
    {
      if i < m {
        assert ManeuverRecorded(g, d, last, before, i);
      }
    }
  }

  /** Keys 0..last in order, more than one of them: the panel at index 0
      draws the identity rotation (the maneuver from the attitude at 0 to
      itself), and every later panel draws the attitude at its index and
      prints the angles of the maneuver that turns the attitude before it
      into that attitude. */
  lemma ManeuversOverRange<A, R(!new)>(g: RotationGroup<A, R>, d: map<int, A>, last: nat)
    requires g.Lawful()
    requires 1 <= last
    requires forall j :: 0 <= j <= last ==> j in d
    ensures forall k <- Range(0, last + 1) :: k in d
    ensures var r := ManeuverWalk(g, d, last + 1, Range(0, last + 1));
      && r.Ok? && |r.value| == last + 1
      && r.value[0] == Panel(1, InitialAttitude, g.identity, None)
      && forall i :: 1 <= i <= last ==>
           && r.value[i].title == LabelAt(i, last)
           && r.value[i].attitude == g.fromEuler(d[i])
           && r.value[i].maneuver.Some?
           && g.compose(g.fromEuler(r.value[i].maneuver.value), g.fromEuler(d[i - 1])) == g.fromEuler(d[i])
  {
    ManeuverWalkPrefix(g, d, last, last);
    var panels := ManeuverWalk(g, d, last + 1, Range(0, last + 1)).value;
    assert ManeuverRecorded(g, d, last, panels, 0);
    SelfManeuverIsIdentity(g, g.fromEuler(d[0]));
    forall i | 1 <= i <= last
      ensures panels[i].title == LabelAt(i, last) && panels[i].attitude == g.fromEuler(d[i])
      ensures panels[i].maneuver.Some?
      ensures g.compose(g.fromEuler(panels[i].maneuver.value), g.fromEuler(d[i - 1])) == g.fromEuler(d[i])
    {
      assert ManeuverRecorded(g, d, last, panels, i);
      RoundTrip(g, ManeuverBetween(g, d, i));
      DivideThenCompose(g, g.fromEuler(d[i]), g.fromEuler(d[i - 1]));
    }
  }

  /** A dictionary holding only key 0: its attitude is its own predecessor,
      so the one panel draws the identity rotation, titled as the input
      attitude, and prints its angles. */
  lemma ManeuverSingleEntry<A, R(!new)>(g: RotationGroup<A, R>, a: A)
    requires g.Lawful()
    ensures ManeuverWalk(g, map[0 := a], 1, [0]) == Ok([Panel(1, InputAttitude, g.identity, Some(g.asEuler(g.identity)))])
  {
    var d := map[0 := a];
    assert [0][..0] == [];
    assert ManeuverWalk(g, d, 1, []) == Ok([]);
    SelfManeuverIsIdentity(g, g.fromEuler(a));
    var maneuver := g.compose(g.fromEuler(a), g.inv(g.fromEuler(d[0])));
    assert maneuver == g.identity;
    var panel := ManeuverPanel(g, 0, 1, g.fromEuler(d[0]), maneuver);
    assert panel == Panel(1, InputAttitude, g.identity, Some(g.asEuler(g.identity)));
    assert [] + [panel] == [panel];
    assert ManeuverWalk(g, d, 1, [0]) == Ok([] + [panel]);
  }

  /** The maneuvers compute_maneuver prints chain back to the attitudes it
      was given, starting from the attitude at key 0. */
  lemma {:induction false} RebuiltChain<A, R(!new)>(g: RotationGroup<A, R>, d: map<int, A>, m: map<int, A>, last: nat, i: nat)
    requires g.Lawful()
    requires forall j :: 0 <= j <= last ==> j in d && j in m
    requires m[0] == d[0]
    requires forall j :: 1 <= j <= last ==> m[j] == g.asEuler(ManeuverBetween(g, d, j))
    requires i <= last
    ensures ManeuverChain(g, m[0], m, i) == g.fromEuler(d[i])
  {
    if i > 0 {
      RebuiltChain(g, d, m, last, i - 1);
      RoundTrip(g, ManeuverBetween(g, d, i));
      DivideThenCompose(g, g.fromEuler(d[i]), g.fromEuler(d[i - 1]));
    }
  }

  /** Round trip between the two plots: the attitude at key 0 followed by
      the maneuver angles compute_maneuver prints, given to compute_attitude,
      reproduce every attitude of the original dictionary. */
  lemma ManeuversRebuildAttitudes<A, R(!new)>(g: RotationGroup<A, R>, d: map<int, A>, m: map<int, A>, last: nat)
    requires g.Lawful()
    requires 1 <= last
    requires forall j :: 0 <= j <= last ==> j in d && j in m
    requires m[0] == d[0]
    requires var w := ManeuverWalk(g, d, last + 1, Range(0, last + 1));
      w.Ok? && |w.value| == last + 1 && forall j :: 1 <= j <= last ==> w.value[j].maneuver == Some(m[j])
    ensures forall k <- Range(0, last + 1) :: k in m
    ensures var v := AttitudeWalk(g, m, last + 1, Range(0, last + 1));
      && |v.attitudes| == last + 1
      && forall i :: 0 <= i <= last ==> v.attitudes[i] == g.fromEuler(d[i])
  {
    ManeuverWalkPrefix(g, d, last, last);
    var panels := ManeuverWalk(g, d, last + 1, Range(0, last + 1)).value;
    forall j | 1 <= j <= last
      ensures m[j] == g.asEuler(ManeuverBetween(g, d, j))
    {
      assert ManeuverRecorded(g, d, last, panels, j);
    }
    AttitudeWalkPrefix(g, m, last, last);
    var v := AttitudeWalk(g, m, last + 1, Range(0, last + 1));
    forall i | 0 <= i <= last
      ensures v.attitudes[i] == g.fromEuler(d[i])
    {
      assert AttitudeRecorded(g, m, last, v, i);
      RebuiltChain(g, d, m, last, i);
    }
  }

  /** compute_maneuver agrees with combine_rotations in commanded-attitude
      mode: taking the attitude at key 0 as the initial attitude, the angles
      it prints for index k are the maneuver combine_rotations records. */
  lemma ComputeManeuverMatchesCombine<A, R(!new)>(g: RotationGroup<A, R>, d: map<int, A>, last: nat)
    requires g.Lawful()
    requires 1 <= last
    requires forall j :: 0 <= j <= last ==> j in d
    ensures forall k <- Range(0, last + 1) :: k in d
    ensures var r := Run(g, d[0], Steps(last), d, CommandedAttitude);
      var w := ManeuverWalk(g, d, last + 1, Range(0, last + 1));
      && r.Ok? && w.Ok? && |w.value| == last + 1
      && forall k :: 1 <= k <= last ==> k in r.value.maneuvers && w.value[k].maneuver == Some(r.value.maneuvers[k])
  {
    ManeuverWalkPrefix(g, d, last, last);
    CommandedAttitudeRun(g, d[0], d, last);
    var c := Run(g, d[0], Steps(last), d, CommandedAttitude).value;
    var panels := ManeuverWalk(g, d, last + 1, Range(0, last + 1)).value;
    forall k | 1 <= k <= last
      ensures k in c.maneuvers && panels[k].maneuver == Some(c.maneuvers[k])
    {
      assert ManeuverRecorded(g, d, last, panels, k);
      assert AttitudeStepRecorded(g, d[0], d, c, k);
    }
  }
}
