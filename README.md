# Rotations_Project: the rotation-composition engine

This project models the part of Rotations_Project that composes spacecraft
attitudes and maneuvers. It covers five pieces of the Python code:

- `compute_single_rotation` resolves one step. The step's Euler angles are
  read as one of two things:
  - a *commanded attitude*: the maneuver is `final * initial^-1`;
  - a *commanded maneuver*: the final attitude is `maneuver * initial`.
- `combine_rotations` walks an angle dictionary. It fills a maneuver
  dictionary (keys 1..N) and an attitude dictionary (keys 0..N). The running
  attitude is carried from step to step through its Euler angles.
- `print_maneuvers` checks that there is exactly one more attitude than
  maneuvers. It then overwrites attitude 0 with the initial attitude and
  visits the indices 1..N, each paired with the index before it.
- `compute_attitude` (main.py) accumulates `maneuver * last attitude` over a
  dictionary whose entry 0 is the starting attitude.
- `compute_maneuver` (main.py) recovers `att[i] * att[i-1]^-1` from
  consecutive attitudes.

The engine is generic over the rotation type. `Rotations.RotationGroup`
bundles five operations:

- `compose`, `inv` and `identity`;
- scipy's `from_euler` and `as_euler`, for one fixed axis sequence and unit.

`RotationGroup.Lawful()` states the group laws. It also states the one fact
about the angle conversions that the code relies on, `from_euler(as_euler(r)) == r`.
Every property below is proved from these laws alone.

`YawRotations` is an exact instance: rotations about Z in whole degrees. The
worked examples of the format rules are proved on it.

A Python dictionary is modelled as a map plus its iteration order, a `seq`
of distinct keys (`Basics.IsKeyOrder`). The exceptions the modelled
arithmetic and bookkeeping raise are `Err` values of `Basics.Error`:

- ValueError for an unknown mode: `InvalidMode`;
- AttributeError when `.as_euler` is called on raw angles: `NotARotation`;
- KeyError: `MissingKey`;
- the two ValueErrors of `print_maneuvers`: `AttitudesWithoutManeuvers` and
  `ManeuversWithoutAttitudes`.

The errors of the subplot grid in main.py are not among them (see
"## Left out"). The mode of `compute_single_rotation` and
`combine_rotations` is always passed explicitly; their default
`euler_angle_type='commanded_attitude'` is not modelled.

The code is followed where it does unplanned things:

- The first key of `combine_rotations` must be 1. Otherwise the loop calls
  `.as_euler` on the caller's raw angle array, which fails.
- Key 1 always restarts from `attitude_dictionary[0]`.
- An input key 0 replaces the initial attitude. When that happens the count
  of attitudes equals the count of maneuvers.
- With a single entry, `compute_attitude` applies that entry again (there is
  no `continue`), so `attitude_list` holds the attitude twice.
- At index 0, `compute_maneuver` draws the maneuver from the attitude at index
  0 to itself. That maneuver is the identity, not the attitude.

The methods mirror the loops of the source:

- `CombineRotations`, `ComputeAttitude` and `ComputeManeuver` each have a
  `while` or `for` loop. Each is proved equal to a specification function
  (`Run`, `AttitudeWalk`, `ManeuverWalk`) defined by recursion on the
  prefix of keys visited.
- `PrintManeuvers` writes to the caller's dictionary, which is modelled as
  the class `AttitudeTable`.

## Model

| member | source | states |
|---|---|---|
| Rotations.DivideThenCompose | attitude_control_utils.py:11 | (F * P^-1) * P == F: the commanded-attitude maneuver carries P to F |
| Rotations.ComposeThenDivide | main.py:110 | (M * P) * P^-1 == M: dividing by the previous attitude recovers the maneuver |
| Rotations.ManeuverIsUnique | attitude_control_utils.py:11 | M * P == F holds exactly when M == F * P^-1 |
| Rotations.CancelRight | attitude_control_utils.py:15 | M * P == N * P holds exactly when M == N |
| Rotations.AsEulerInjective | attitude_control_utils.py:35 | two rotations have the same Euler angles exactly when they are equal |
| Rotations.RoundTrip | attitude_control_utils.py:35 | the assumed law from_euler(as_euler(r)) == r, one conjunct of Lawful() restated for use; line 35 followed by line 8 relies on it |
| Rotations.SelfManeuverIsIdentity | main.py:101-110 | the assumed inverse law p * p^-1 == identity, one conjunct of Lawful() restated for use; it makes the index-0 maneuver the identity |
| AttitudeControlUtils.AngleTypeOf | attitude_control_utils.py:9-18 | a mode is commanded attitude or commanded maneuver exactly when the string equals that name |
| AttitudeControlUtils.SingleRotation | attitude_control_utils.py:6-18 | succeeds exactly for the two recognised modes and fails with InvalidMode otherwise; commanded attitude: the final attitude is from_euler(angles); commanded maneuver: the maneuver is from_euler(angles) and the final attitude is maneuver * initial |
| AttitudeControlUtils.CommandedAttitudeManeuver | attitude_control_utils.py:9-12 | commanded attitude: maneuver * initial == final, and the returned maneuver is the only rotation that does so |
| AttitudeControlUtils.SingleRotationDuality | attitude_control_utils.py:9-16 | the angles of a commanded-attitude maneuver, given back as a commanded maneuver, give the same (maneuver, final) pair |
| AttitudeControlUtils.Step | attitude_control_utils.py:28-42 | one iteration succeeds exactly when the key is 1 or a running rotation exists, and the mode is recognised; otherwise NotARotation (no running rotation, key not 1) or InvalidMode |
| AttitudeControlUtils.StepFrame | attitude_control_utils.py:41-42 | a successful iteration adds the key to both dictionaries, leaves every other entry unchanged and leaves a running rotation |
| AttitudeControlUtils.Run | attitude_control_utils.py:23-42 | the loop as a function of the keys visited so far; every successful state still holds attitude key 0 |
| AttitudeControlUtils.CombineRotations | attitude_control_utils.py:21-44 | the loop returns exactly the two dictionaries of the run over the key order, or that run's error |
| AttitudeControlUtils.RunFailurePersists | attitude_control_utils.py:26-37 | once a step raises, the whole call raises the same error |
| AttitudeControlUtils.RunShape | attitude_control_utils.py:23-42 | maneuver keys are exactly the input keys; attitude keys are the input keys plus 0; attitude 0 keeps the initial attitude unless 0 is an input key |
| AttitudeControlUtils.CountInvariant | attitude_control_utils.py:24-42 | len(attitudes) == len(maneuvers) + 1 when the input has no key 0, and len(attitudes) == len(maneuvers) when it has one |
| AttitudeControlUtils.RunOutcome | attitude_control_utils.py:26-37 | the call succeeds exactly when the input is empty, or its first key is 1 and the mode is recognised; otherwise the error is NotARotation for a first key other than 1, else InvalidMode |
| AttitudeControlUtils.CommandedManeuverRun | attitude_control_utils.py:28-42 | keys 1..N, commanded maneuvers: step 1 starts from attitude 0, each later step from the previous result read back through its angles; maneuver k is from_euler(angles k), attitude k is maneuvers k..1 applied to the initial attitude |
| AttitudeControlUtils.CommandedAttitudeRun | attitude_control_utils.py:28-42 | keys 1..N, commanded attitudes: attitude k is the commanded attitude k, and maneuver k is commanded k times the inverse of commanded k-1, with commanded 0 the initial attitude |
| AttitudeControlUtils.RunOverSteps | attitude_control_utils.py:23-44 | keys 1..N in either mode: success, maneuvers keyed by exactly 1..N, attitudes by exactly 0..N, attitude 0 the initial attitude, N maneuvers and N + 1 attitudes |
| AttitudeControlUtils.RecordedManeuversLink | attitude_control_utils.py:26-42 | keys 1..N in either mode: each recorded maneuver k carries recorded attitude k-1 to recorded attitude k |
| AttitudeControlUtils.AttitudeRunDuality | attitude_control_utils.py:9-42 | the maneuvers of a commanded-attitude run, given back as commanded maneuvers from the same initial attitude, reproduce both dictionaries exactly |
| AttitudeControlUtils.ManeuverRunDuality | attitude_control_utils.py:9-42 | the attitudes of a commanded-maneuver run, given back as commanded attitudes from the same initial attitude, reproduce both dictionaries exactly |
| AttitudeControlUtils.ManeuverOrderMatters | attitude_control_utils.py:15 | two commanded maneuvers a then b end in the same attitude as b then a exactly when the two rotations commute |
| AttitudeControlUtils.CheckCounts | attitude_control_utils.py:48-52 | the count check passes exactly when there is one more attitude than maneuvers; otherwise it gives the signed difference, with the error for its sign |
| AttitudeControlUtils.Trace | attitude_control_utils.py:55-59 | the walk over 1..n succeeds exactly when n is 0 or attitudes 0..n and maneuvers 1..n are all present, and then yields one visit per index |
| AttitudeControlUtils.TraceComplete | attitude_control_utils.py:55-59 | with attitudes 0..N and maneuvers 1..N present, the walk visits 1..N in ascending order, each as (attitude i-1, maneuver i, attitude i) |
| AttitudeControlUtils.TraceMissing | attitude_control_utils.py:55-59 | a walk that fails names a key in 0..N that is really missing from the dictionary it was looked up in, and the walk over the indices before that key succeeds |
| AttitudeControlUtils.PrintManeuvers | attitude_control_utils.py:47-59 | a failing count check raises and leaves the caller's attitudes unchanged; otherwise attitude 0 is overwritten with the initial attitude and the result is the walk over 1..len(maneuvers) of the updated dictionary |
| AttitudeControlUtils.CombineThenReport | attitude_control_utils.py:47-59 | the output of combine_rotations over keys 1..N passes the count check, already holds the initial attitude at 0, and is walked in full, visit i being (attitude i, maneuver i+1, attitude i+1) |
| MainScript.AttitudeWalk | main.py:52-84 | attitude_list starts with from_euler(entry 0), and one panel is drawn per visited entry |
| MainScript.ComputeAttitude | main.py:50-90 | a KeyError when key 0 is missing; otherwise the attitude list and panels of the walk over the iteration order, with len(dictionary) as the entry count |
| MainScript.AttitudeWalkPrefix | main.py:57-84 | keys 0..last: after m+1 entries the list holds the chains 0..m, and each panel has its title and drawn attitude |
| MainScript.AttitudeListOverRange | main.py:52-84 | keys 0..last with last >= 1: entry 0 seeds attitude_list and is not applied; each later entry is applied as maneuver * attitude_list[-1] and appended, one attitude per key; titles Initial, Maneuver 1.., Final |
| MainScript.AttitudeSingleEntry | main.py:68-70 | a dictionary holding only key 0 gives the list [r, r] and one Input Attitude panel |
| MainScript.ComputeAttitudeMatchesCombine | main.py:76-84 | the attitudes of compute_attitude are, as Euler angles, the attitudes combine_rotations records in commanded-maneuver mode from entry 0 |
| MainScript.ManeuverWalk | main.py:100-134 | the loop as a function of the keys visited so far; a successful walk draws one panel per visited entry |
| MainScript.ComputeManeuver | main.py:93-138 | the loop returns exactly the panels of the walk over the iteration order, or its KeyError |
| MainScript.ManeuverWalkOutcome | main.py:101-106 | compute_maneuver succeeds exactly when every non-zero key has its predecessor in the dictionary |
| MainScript.ManeuverWalkNamesMissingKey | main.py:104-106 | a KeyError names a key that is missing and whose successor is an input key |
| MainScript.ManeuversOverRange | main.py:101-134 | keys 0..last with last >= 1: panel 0 draws the identity; each later panel draws attitude i and prints a maneuver that carries attitude i-1 to attitude i |
| MainScript.ManeuverSingleEntry | main.py:121-123 | a dictionary holding only key 0 gives one Input Attitude panel drawing the identity rotation |
| MainScript.ManeuversRebuildAttitudes | main.py:104-110 | the maneuvers compute_maneuver prints, given to compute_attitude with the same entry 0, rebuild every attitude of the original dictionary |
| MainScript.ComputeManeuverMatchesCombine | main.py:104-111 | the maneuver angles compute_maneuver prints are the maneuvers combine_rotations records in commanded-attitude mode from entry 0 |
| YawRotations.Turn | attitude_control_utils.py:15 | composing two yaw rotations adds their angles modulo 360 |
| YawRotations.Reverse | attitude_control_utils.py:11 | inverting a yaw rotation gives the angle that sums with it to 0 modulo 360 |
| YawRotations.FromYaw | attitude_control_utils.py:8 | from_euler of a yaw angle is that angle modulo 360 |
| YawRotations.AsYaw | attitude_control_utils.py:35 | as_euler reports yaw in (-180, 180], and from_euler of the result gives the rotation back |
| YawRotations.YawLawful | attitude_control_utils.py:229-233 | yaw rotations satisfy every law the engine relies on |
| YawRotations.CommandedAttitudeExample | attitude_control_utils.py:229-231 | initial yaw 15 with commanded attitude 35 gives maneuver 20 |
| YawRotations.CommandedManeuverExample | attitude_control_utils.py:232-233 | initial yaw 15 with commanded maneuver 35 gives resulting attitude 50 |
| YawRotations.CombineExample | attitude_control_utils.py:240-252 | initial yaw 10 with commanded attitudes 30, 100, 60 gives maneuvers 20, 70, -40 and attitudes 10, 30, 100, 60 |
| YawRotations.FirstKeyNotOneExample | attitude_control_utils.py:25-37 | a dictionary whose first key is 2 fails with NotARotation |
| YawRotations.UnrecognisedModeExample | attitude_control_utils.py:17-18 | the mode "commanded_rotation" is rejected as InvalidMode |
| YawRotations.ComputeManeuverExample | test_rotation_functions.py:37-45 | the attitude chain 0 then 45 gives the maneuver 45 |
| YawRotations.YawOrderIrrelevant | attitude_control_utils.py:15 | yaw rotations commute, so two commanded maneuvers in either order end in the same attitude |

## Left out

- Plotting and layout are not modelled: `plot_setup`, the figures, subplot grid sizing with floating-point `sqrt` and `ceil`, titles and text placement. A `MainScript.Panel` records only what would be handed to `plot_setup`: the grid slot, the title, the rotation drawn and the maneuver angles printed.
- The subplot grid and its errors are not modelled. For n entries the grid has rows = ceil(sqrt(n)) and columns = ceil(n / rows), and the entry with key k asks for subplot k + 1. matplotlib raises ValueError when k + 1 is below 1 or above rows * columns. For example, keys {0, 1, 2, 4} give a 2 x 2 grid and key 4 fails; keys 0..5 plus 8 give a 3 x 3 grid and key 8 fits. Where Python raises this error, ComputeAttitude and ComputeManeuver still return Ok, with a panel whose slot is off the grid.
- MainScript.ComputeManeuver: returns Ok([]) for an empty dictionary. Python raises ZeroDivisionError there, because rows = 0 and the column count divides by it. (compute_attitude fails earlier with a KeyError on key 0, which ComputeAttitude models.)
- scipy's trigonometry is not modelled. It is floating point inside a library that is not part of this model. Rotations are an abstract lawful group, and the Euler conversions are abstract functions with the one round trip the code relies on. Gimbal lock, the non-uniqueness of `as_euler` and round-trip drift are therefore out of scope.
- The axis sequence and the `degrees` flag are one fixed convention per `RotationGroup` value. They are not separate parameters.
- Rejection of non-numeric or wrongly shaped angles is not modelled; it is raised by numpy and scipy, not by this code. Angles are values of the abstract type `A`.
- The mode string is classified once into `AttitudeControlUtils.AngleType` by `AngleTypeOf`. It is not re-compared at each step, which gives the same branches.
- The text of `print` is not modelled. `PrintManeuvers` returns the visits `print_maneuvers` would print, in order, or the exception. Lines printed before a KeyError are not kept.
- `compute_attitude` and `compute_maneuver` return nothing in Python; they only draw. The model returns the attitude list and the panels that would be drawn.
- Output dictionaries are maps; their insertion order is not modelled because nothing reads it.
- Module-level script code is not modelled: the inputs and calls at the end of both files, plus old_main.py and the test and animation scripts. Those inputs serve only as worked examples.
- Rotations by multiples of 90 degrees are not modelled as a second instance, so there is no concrete non-commuting instance. Order dependence is stated for every rotation group by `ManeuverOrderMatters`.
- YawRotations.AsYaw: reports a half turn as 180, where scipy may report -180; both denote the same rotation.
- AttitudeControlUtils.CommandedManeuverRun, CommandedAttitudeRun, RunOverSteps, RecordedManeuversLink, AttitudeRunDuality, ManeuverRunDuality and CombineThenReport: stated for keys 1..N in ascending order, the input the format rules prescribe. For other key orders RunShape, CountInvariant and RunOutcome still apply.
- MainScript.AttitudeListOverRange, ManeuversOverRange, ManeuversRebuildAttitudes, ComputeAttitudeMatchesCombine and ComputeManeuverMatchesCombine: stated for keys 0..last in ascending order with last >= 1. The single-entry case is covered separately by AttitudeSingleEntry and ManeuverSingleEntry.
