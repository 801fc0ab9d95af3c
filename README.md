# Multiranger follow demo — decision step

This project models the reactive core of the Crazyflie "follow" demo in
`multiranger/multiranger_follow.py`. On every iteration the demo reads four
horizontal range sensors (front, back, left, right) and one upward sensor. It picks
the nearest horizontal obstacle and turns its distance into a body-frame velocity
command. The drone approaches an obstacle that is too far away, backs away from one
that is too close, and holds still in between. An obstacle above the drone ends
the demo.

The model is one Dafny module, `MultirangerFollow`, in `multiranger_follow.dfy`:

- `Readings` is one sample of the deck. Each reading is an `Option<real>` in metres.
  `None` means the sensor saw nothing in range.
- `Dir` has one constructor per horizontal sensor.
- `Table` is the readings dictionary in its insertion order. `Present` drops the
  missing entries. `MinIndex` and `MinFrom` are the scan that Python's
  `min(..., key=...)` performs. `GetNearestDirection` combines them.
- `IsNearest` is an independent description of the nearest direction: it is present,
  no reading is smaller, and every earlier direction in the order front, back, left,
  right reads strictly more. `NearestCharacterized` proves that `GetNearestDirection`
  returns exactly the pair that satisfies it.
- `Policy` is the velocity decision table, lifted out of the main loop as a pure
  function. `Toward` gives the unit vector toward each sensor's obstacle (x forward,
  y left). `Policy` is specified against that vector.
- `Step` is one iteration of the loop. It returns `Stop` (the loop breaks),
  `Move(vx, vy)` (the call `start_linear_motion(vx, vy, 0.0)`), or
  `UpReadingMissing`.

Constants: `MIN_DISTANCE` = 0.3, `MAX_DISTANCE` = 1.0, `VELOCITY` = 0.3, and the
upward stop threshold 0.25.

Python 3 raises `TypeError` when line 81 compares a `None` upward reading with 0.25.
That exception is not a `KeyboardInterrupt`, so it leaves the loop and the demo. The
model makes this an explicit outcome, `UpReadingMissing`, and does not treat a missing
upward reading as clear.

## Model

| member | source | states |
|---|---|---|
| MultirangerFollow.Table | multiranger/multiranger_follow.py:43-48 | the dictionary holds exactly one entry per direction, carrying that direction's reading, with keys in the order front, back, left, right |
| MultirangerFollow.Present | multiranger/multiranger_follow.py:51 | an entry (d, v) survives the filter iff the table held d with reading Some(v); insertion order is kept |
| MultirangerFollow.MinFrom | multiranger/multiranger_follow.py:57 | the scan of `min` returns an index whose reading is no larger than any entry, and every earlier entry reads strictly more (a later entry replaces the best only when strictly smaller) |
| MultirangerFollow.MinIndex | multiranger/multiranger_follow.py:57 | `min` over a non-empty dictionary returns its first entry with the smallest reading |
| MultirangerFollow.GetNearestDirection | multiranger/multiranger_follow.py:41-58 | the result is (None, None) iff all four readings are missing; the direction and distance are missing together; a returned direction's reading equals the returned distance |
| MultirangerFollow.NearestIsFirstMinimal | multiranger/multiranger_follow.py:43-58 | when some reading is present, the returned distance is no larger than any present reading, and every direction before the returned one in the order front, back, left, right reads strictly more |
| MultirangerFollow.NearestIsUnique | multiranger/multiranger_follow.py:57 | at most one direction and distance can be the first minimal reading |
| MultirangerFollow.NearestCharacterized | multiranger/multiranger_follow.py:41-58 | the function returns (d, v) iff d is the first minimal present direction reading v, and returns (None, None) iff every reading is missing |
| MultirangerFollow.Policy | multiranger/multiranger_follow.py:78-108 | beyond MAX_DISTANCE the command is VELOCITY toward the obstacle; below MIN_DISTANCE it is VELOCITY away from it; the command is (0, 0) iff nothing is detected or the distance lies in the inclusive band [MIN_DISTANCE, MAX_DISTANCE] |
| MultirangerFollow.PolicyMovesOneAxis | multiranger/multiranger_follow.py:86-105 | outside the hold band exactly one component is nonzero with magnitude VELOCITY; front and back drive only vx, left and right only vy |
| MultirangerFollow.RetreatNegatesApproach | multiranger/multiranger_follow.py:86-105 | for every direction, the too-close command is the exact negation of the too-far command |
| MultirangerFollow.Step | multiranger/multiranger_follow.py:77-112 | the step stops iff the upward reading is below 0.25; it fails iff the upward reading is missing; a motion command is issued only when the upward reading is present and at least 0.25 |
| MultirangerFollow.StepFollowsNearest | multiranger/multiranger_follow.py:77-112 | with a clear upward reading, the issued command moves toward the nearest obstacle when it is far, away from it when it is near, and is zero in the hold band or when no horizontal reading is present |

## Left out

- The radio link, driver initialisation, URI choice from the environment or the command line, arming, and the `SyncCrazyflie`, `MotionCommander` and `Multiranger` context managers. These are vendor-library calls whose behaviour is not visible here. The readings are parameters of the model, and the command is its result.
- The `while True` loop, its `time.sleep` pacing and `UPDATE_RATE`. These are real-time behaviour. The model covers one iteration, `Step`.
- The `print` output and the audio playback through `os.system`. These are terminal and shell I/O.
- `KeyboardInterrupt` handling. This is asynchronous, signal-driven control flow.
- IEEE floating point. The step only compares readings with constants and assigns constants, so exact reals stand in for doubles.
- `DESIRED_DISTANCE` is declared but never used, so it has no counterpart.
