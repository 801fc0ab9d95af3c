/** One control step of the Multiranger "follow" demo: pick the nearest of the four
    horizontal range readings, map its distance to a body-frame velocity command, and
    stop when something is detected above the drone.

    Distances are exact reals (metres), not IEEE doubles; a reading of None means the
    sensor saw nothing in range. Body frame: x points forward, y points left. */
module MultirangerFollow {

  datatype Option<+T> = None | Some(value: T)

  /** The four horizontal sensors. */
  datatype Dir = Front | Back | Left | Right

  /** One sample of the deck: four horizontal readings and the upward one. */
  datatype Readings = Readings(front: Option<real>, back: Option<real>,
                               left: Option<real>, right: Option<real>,
                               up: Option<real>)

  /** What one iteration of the main loop does. */
  datatype Outcome =
    | Stop                        // the loop breaks: obstacle above
    | Move(vx: real, vy: real)    // start_linear_motion(vx, vy, 0.0) is issued
    | UpReadingMissing            // `up < 0.25` on None raises TypeError

  const MIN_DISTANCE: real := 0.3
  const MAX_DISTANCE: real := 1.0
  const VELOCITY: real := 0.3
  const UP_STOP_DISTANCE: real := 0.25

  // ---------------------------------------------------------------------------
  // Readings and the readings table
  // ---------------------------------------------------------------------------

  function Reading(m: Readings, d: Dir): Option<real>
  {
    match d
    case Front => m.front
    case Back => m.back
    case Left => m.left
    case Right => m.right
  }

  /** Position of a direction in the order the readings table is built. */
  function Rank(d: Dir): nat
  {
    match d
    case Front => 0
    case Back => 1
    case Left => 2
    case Right => 3
  }

  predicate AllMissing(m: Readings)
  {
    forall d: Dir :: Reading(m, d).None?
  }

  /** Keys strictly increase in table order, so every key occurs at most once. */
  predicate KeysInOrder<V>(t: seq<(Dir, V)>)
  {
    forall i, j :: 0 <= i < j < |t| ==> Rank(t[i].0) < Rank(t[j].0)
  }

  /** The dictionary literal of the source: one entry per direction, in insertion order. */
  function Table(m: Readings): (t: seq<(Dir, Option<real>)>)
    ensures KeysInOrder(t)
    ensures forall d, o :: (d, o) in t <==> o == Reading(m, d)
  {
    var t := [(Front, m.front), (Back, m.back), (Left, m.left), (Right, m.right)];
    assert forall d :: t[Rank(d)] == (d, Reading(m, d));
    t
  }

  /** The comprehension that drops the missing readings, keeping insertion order. */
  function Present(t: seq<(Dir, Option<real>)>): (p: seq<(Dir, real)>)
    ensures forall d, v :: (d, v) in p <==> (d, Some(v)) in t
    ensures KeysInOrder(t) ==> KeysInOrder(p)
  {
    if t == [] then []
    else
      var rest := Present(t[1..]);
      assert forall e :: e in t[1..] ==> e in t;
      match t[0].1
      case None => rest
      case Some(v) =>
        assert KeysInOrder(t) ==> forall j :: 0 <= j < |rest| ==> Rank(t[0].0) < Rank(rest[j].0) by {
          if KeysInOrder(t) {
            forall j | 0 <= j < |rest| ensures Rank(t[0].0) < Rank(rest[j].0) {
              assert (rest[j].0, Some(rest[j].1)) in t[1..];
            }
          }
        }
        [(t[0].0, v)] + rest
  }

  // ---------------------------------------------------------------------------
  // min(distances, key=distances.get)
  // ---------------------------------------------------------------------------

  /** The scan performed by Python's `min` with a key: `best` is the entry kept so far,
      `k` the next entry to look at; a later entry replaces `best` only when its
      reading is strictly smaller, so the first minimal entry wins. */
  function MinFrom(s: seq<(Dir, real)>, best: nat, k: nat): (i: nat)
    requires best < k <= |s|
    requires forall j :: 0 <= j < k ==> s[best].1 <= s[j].1
    requires forall j :: 0 <= j < best ==> s[best].1 < s[j].1
    ensures best <= i < |s|
    ensures forall j :: 0 <= j < |s| ==> s[i].1 <= s[j].1
    ensures forall j :: 0 <= j < i ==> s[i].1 < s[j].1
    decreases |s| - k
  {
    if k == |s| then best
    else if s[k].1 < s[best].1 then MinFrom(s, k, k + 1)
    else MinFrom(s, best, k + 1)
  }

  /** Index of the first entry with the smallest reading. */
  function MinIndex(s: seq<(Dir, real)>): (i: nat)
    requires s != []
    ensures i < |s|
    ensures forall j :: 0 <= j < |s| ==> s[i].1 <= s[j].1
    ensures forall j :: 0 <= j < i ==> s[i].1 < s[j].1
  {
    MinFrom(s, 0, 1)
  }

  // ---------------------------------------------------------------------------
  // get_nearest_direction
  // ---------------------------------------------------------------------------

  function GetNearestDirection(m: Readings): (r: (Option<Dir>, Option<real>))
    ensures r.0.None? <==> r.1.None?
    ensures r.0.None? <==> AllMissing(m)
    ensures r.0.Some? ==> Reading(m, r.0.value) == r.1
  {
    var present := Present(Table(m));
    if present == [] then
      assert forall d :: Reading(m, d).Some? ==> (d, Reading(m, d).value) in present;
      (None, None)
    else
      var e := present[MinIndex(present)];
      assert (e.0, Some(e.1)) in Table(m);
      (Some(e.0), Some(e.1))
  }

  /** The independent description of the nearest direction: `d` reads `v`, no reading
      is smaller, and every direction earlier in table order reads strictly more. */
  predicate IsNearest(m: Readings, d: Dir, v: real)
  {
    && Reading(m, d) == Some(v)
    && (forall d' :: Reading(m, d').Some? ==> v <= Reading(m, d').value)
    && (forall d' :: Reading(m, d').Some? && Rank(d') < Rank(d) ==> v < Reading(m, d').value)
  }

  /** The returned distance is no larger than any present reading, and ties go to the
      direction that comes first in the order front, back, left, right. */
  lemma NearestIsFirstMinimal(m: Readings)
    requires !AllMissing(m)
    ensures GetNearestDirection(m).0.Some?
    ensures IsNearest(m, GetNearestDirection(m).0.value, GetNearestDirection(m).1.value)
  {
    var present := Present(Table(m));
    var i := MinIndex(present);
    var e := present[i];
    assert GetNearestDirection(m) == (Some(e.0), Some(e.1));
    forall d' | Reading(m, d').Some?
      ensures e.1 <= Reading(m, d').value
      ensures Rank(d') < Rank(e.0) ==> e.1 < Reading(m, d').value
    {
      var v' := Reading(m, d').value;
      assert (d', v') in present;
      var j :| 0 <= j < |present| && present[j] == (d', v');
      assert Rank(d') < Rank(e.0) ==> j < i;
    }
  }

  /** IsNearest pins down a single direction and distance. */
  lemma NearestIsUnique(m: Readings, d1: Dir, v1: real, d2: Dir, v2: real)
    requires IsNearest(m, d1, v1) && IsNearest(m, d2, v2)
    ensures d1 == d2 && v1 == v2
  {
    assert v1 <= v2 && v2 <= v1;
  }

  /** get_nearest_direction returns (d, v) exactly when d is the nearest direction and
      v its reading, and (None, None) exactly when every reading is missing. */
  lemma NearestCharacterized(m: Readings, d: Dir, v: real)
    ensures GetNearestDirection(m) == (Some(d), Some(v)) <==> IsNearest(m, d, v)
    ensures GetNearestDirection(m) == (None, None) <==> AllMissing(m)
  {
    var r := GetNearestDirection(m);
    if !AllMissing(m) {
      NearestIsFirstMinimal(m);
      if IsNearest(m, d, v) {
        NearestIsUnique(m, d, v, r.0.value, r.1.value);
      }
    } else {
      assert Reading(m, d).None?;
    }
  }

  // ---------------------------------------------------------------------------
  // Distance-to-velocity policy
  // ---------------------------------------------------------------------------

  /** Unit vector from the drone toward the obstacle seen by sensor `d`. */
  function Toward(d: Dir): (real, real)
  {
    match d
    case Front => (1.0, 0.0)
    case Back => (-1.0, 0.0)
    case Left => (0.0, 1.0)
    case Right => (0.0, -1.0)
  }

  function Scale(k: real, u: (real, real)): (real, real)
  {
    (k * u.0, k * u.1)
  }

  /** The decision table of the main loop: approach a far obstacle, back away from a
      near one, hold in the band [MIN_DISTANCE, MAX_DISTANCE] or when nothing is seen. */
  function Policy(dir: Option<Dir>, dist: Option<real>): (v: (real, real))
    ensures dir.Some? && dist.Some? && dist.value > MAX_DISTANCE ==>
              v == Scale(VELOCITY, Toward(dir.value))
    ensures dir.Some? && dist.Some? && dist.value < MIN_DISTANCE ==>
              v == Scale(-VELOCITY, Toward(dir.value))
    ensures v == (0.0, 0.0) <==>
              dir.None? || dist.None? || MIN_DISTANCE <= dist.value <= MAX_DISTANCE
  {
    if dir.Some? && dist.Some? then
      var distance := dist.value;
      if distance > MAX_DISTANCE then
        match dir.value
        case Front => (VELOCITY, 0.0)
        case Back => (-VELOCITY, 0.0)
        case Left => (0.0, VELOCITY)
        case Right => (0.0, -VELOCITY)
      else if distance < MIN_DISTANCE then
        match dir.value
        case Front => (-VELOCITY, 0.0)
        case Back => (VELOCITY, 0.0)
        case Left => (0.0, -VELOCITY)
        case Right => (0.0, VELOCITY)
      else
        (0.0, 0.0)
    else
      (0.0, 0.0)
  }

  /** Outside the hold band exactly one component moves, at speed VELOCITY: front/back
      drive only vx, left/right only vy. */
  lemma PolicyMovesOneAxis(d: Dir, x: real)
    requires x > MAX_DISTANCE || x < MIN_DISTANCE
    ensures var v := Policy(Some(d), Some(x));
      && (d == Front || d == Back ==> v.1 == 0.0 && (v.0 == VELOCITY || v.0 == -VELOCITY))
      && (d == Left || d == Right ==> v.0 == 0.0 && (v.1 == VELOCITY || v.1 == -VELOCITY))
  {
  }

  /** Retreating from a near obstacle is the exact negation of approaching a far one. */
  lemma RetreatNegatesApproach(d: Dir, far: real, near: real)
    requires far > MAX_DISTANCE && near < MIN_DISTANCE
    ensures var a := Policy(Some(d), Some(far));
      Policy(Some(d), Some(near)) == (-a.0, -a.1)
  {
  }

  // ---------------------------------------------------------------------------
  // One iteration of the main loop
  // ---------------------------------------------------------------------------

  /** The upward check runs before any motion command: a close upward reading stops
      the loop, a missing one raises, otherwise the policy's command is issued. */
  function Step(m: Readings): (o: Outcome)
    ensures o == UpReadingMissing <==> m.up.None?
    ensures o == Stop <==> m.up.Some? && m.up.value < UP_STOP_DISTANCE
    ensures o.Move? ==> m.up.Some? && m.up.value >= UP_STOP_DISTANCE
  {
    var (direction, distance) := GetNearestDirection(m);
    match m.up
    case None => UpReadingMissing
    case Some(up) =>
      if up < UP_STOP_DISTANCE then Stop
      else
        var v := Policy(direction, distance);
        Move(v.0, v.1)
  }

  /** End to end: with a clear upward reading, the command issued steers toward the
      nearest obstacle when it is far, away from it when it is near, and is zero in the
      hold band or when no horizontal reading is present. */
  lemma StepFollowsNearest(m: Readings, d: Dir, x: real)
    requires m.up.Some? && m.up.value >= UP_STOP_DISTANCE
    ensures AllMissing(m) ==> Step(m) == Move(0.0, 0.0)
    ensures IsNearest(m, d, x) && x > MAX_DISTANCE ==>
              Step(m) == Move(VELOCITY * Toward(d).0, VELOCITY * Toward(d).1)
    ensures IsNearest(m, d, x) && x < MIN_DISTANCE ==>
              Step(m) == Move(-VELOCITY * Toward(d).0, -VELOCITY * Toward(d).1)
    ensures IsNearest(m, d, x) && MIN_DISTANCE <= x <= MAX_DISTANCE ==>
              Step(m) == Move(0.0, 0.0)
  {
    NearestCharacterized(m, d, x);
  }
}
