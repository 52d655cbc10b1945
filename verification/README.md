# Upkie servo environment: a Dafny model

This project models the joint-command layer of the `UpkieServos` environment
of the Upkie wheeled biped (`upkie/envs/upkie_servos.py`):

- the two closed vocabularies, the six joint names (`JOINT_NAMES`) and the six
  servo command fields (`ACTION_KEYS`), in the order the environment visits them;
- the constructor's check that the robot model has exactly the six expected
  joints (`ModelError` otherwise);
- the constructor's per-(joint, field) tables, `default_action`, `min_action`
  and `max_action`, and the low/high bounds of the action and observation
  space descriptors, all built from each joint's position range, velocity
  limit and torque limit;
- `get_spine_action`, which turns a possibly partial environment action
  `{joint: {field: value}}` into the complete spine command
  `{"servo": {joint: {field: value}}}`. For each joint and field it takes the
  caller's value, or else the table default, or else fails with
  `ActionError`; it then clamps the value into the field's bounds;
- `get_env_observation` (the identity) and `get_reward` (the constant 1).

Modules, one per file:

- `Results` (`results.dfy`): `Option` and `Result`, which stand in for the
  source's exceptions.
- `ServoNames` (`servo_names.dfy`): the `Joint` and `Key` enumerations, their
  strings and iteration order, and the parsers from strings.
- `Clamping` (`clamp.dfy`): the clamp with its warned flag.
- `ServoTables` (`servo_tables.dfy`): the robot model, the joint-set check, the
  tables, and their invariants.
- `SpineAction` (`spine_action.dfy`): the translator as two loops, as in the
  source, with a declarative reference command `Command`.
- `SpineActionFacts` (`spine_action_facts.dfy`): what the translator promises
  about its output.
- `EnvInterface` (`env_interface.dfy`): the observation and reward hooks.

Modelling choices:

- Tables are keyed by the `Joint` and `Key` enumerations. The source keys them
  by the name strings, but after the joint-set check every name in the model
  is one of the six, so nothing is lost.
- Actions and commands stay keyed by strings, because callers may put any key
  in them.
- Table construction is modelled as the source's loop over the model's joint
  names (`AddJoints`). It is proved equal to an order-free reference
  definition (`ReferenceServos`), so order and repetitions in the model's name
  list do not matter.
- The robot model is an input: the joint names after the root joint, and the
  limits of each joint. The limits are what `box_position_limits`,
  `box_velocity_limits` and `box_torque_limits` report. Those helpers are not
  part of this model; the table invariants assume what they are expected to
  deliver: `q_min <= q_max`, `v_max >= 0`, `tau_max >= 0`.
- `clamp_and_warn` (`upkie/utils/clamp.py`) is not part of this model. It is
  modelled as follows: a value below the lower bound becomes the lower bound,
  a value above the upper bound becomes the upper bound, and either case
  raises a warning; any other value passes unchanged. The warning is kept as
  the `warned` flag of the result, and its log text is dropped.

Behaviours of the code worth stating:

- A joint missing from the environment action altogether raises
  `ActionError`, just as a missing `position` or `velocity` does. The lookup
  `env_action[joint]` fails inside the same `try` block, so the error names
  that joint and the first field, `position`.
- `ModelError` carries the expected name tuple and the model's name list as
  found, in model order.
- Unknown joints and fields in the action are neither rejected nor passed on.
  `SpineActionFacts.ExtraEntriesIgnored` and `SpineActionFacts.CommandShape`
  state this.

## Model

| member | source | states |
|---|---|---|
| `ServoNames.ParseJoint` | upkie/envs/upkie_servos.py:98-105 | a string names a joint exactly when it is one of the six `JOINT_NAMES`, and then it is that joint's string |
| `ServoNames.ParseKey` | upkie/envs/upkie_servos.py:89-96 | a string names a command field exactly when it is one of the six `ACTION_KEYS`, and then it is that field's string |
| `ServoNames.OrdersAgree` | upkie/envs/upkie_servos.py:89-105 | the enumerations visit joints and fields in tuple order, and position i of each tuple parses back to the i-th joint or field |
| `ServoNames.JointNamesBijective` | upkie/envs/upkie_servos.py:98-105 | distinct joints have distinct names, each joint's name parses back to it, and the name set is exactly the names of the six joints |
| `ServoNames.KeyNamesInjective` | upkie/envs/upkie_servos.py:89-96 | distinct fields have distinct names, and the field-name set is exactly the names of the six fields |
| `Clamping.ClampAndWarn` | upkie/envs/upkie_servos.py:262-267 | the clamp warns exactly when the value is outside [lo, hi]; otherwise the value is unchanged; below lo it gives lo, otherwise above hi it gives hi, and with lo <= hi the result lies in [lo, hi] |
| `Clamping.ClampIsNearest` | upkie/envs/upkie_servos.py:262-267 | the clamped value is at least as close to the input as any point of [lo, hi] |
| `Clamping.ClampIdempotent` | upkie/envs/upkie_servos.py:262-267 | clamping a clamped value changes nothing and does not warn |
| `ServoTables.BuildServos` | upkie/envs/upkie_servos.py:139-224 | construction fails exactly when the model's joint-name set differs from the six names, and the error carries the expected tuple and the names found; otherwise every joint has limits and the tables are the reference tables |
| `ServoTables.AddJoints` | upkie/envs/upkie_servos.py:152-218 | the construction loop gives every joint the model names an entry in each of the five tables, and adds no entry for any other joint |
| `ServoTables.AddJointsRows` | upkie/envs/upkie_servos.py:152-218 | after the construction loop, each joint named in the model has the default, bound and space rows of that name's limits |
| `ServoTables.AddJointsUntouched` | upkie/envs/upkie_servos.py:152-218 | the construction loop leaves the rows of joints the model does not name as they were |
| `ServoTables.AddJointsIsReference` | upkie/envs/upkie_servos.py:139-218 | once the joint-set check passes, the loop's tables equal the order-free reference tables |
| `ServoTables.RowsDetermineTables` | upkie/envs/upkie_servos.py:147-224 | tables holding, for every joint, exactly the rows its limits give are the reference tables |
| `ServoTables.ConstructedTablesValid` | upkie/envs/upkie_servos.py:154-218 | with sane limits, the constructed tables are full; every min is at most its max; defaults exist only for the four defaulted fields and lie within their bounds; both space descriptors carry exactly the table bounds |
| `ServoTables.ConstructedTablesComplete` | upkie/envs/upkie_servos.py:147-177 | whatever the limits, every joint of the constructed tables has a default row and a bound for each of the six fields, so the translator's table lookups succeed |
| `ServoTables.SaneRowsValid` | upkie/envs/upkie_servos.py:154-218 | the rows a joint's sane limits give satisfy all the per-joint table invariants |
| `ServoTables.ConstructedJointRows` | upkie/envs/upkie_servos.py:154-177 | each field's bounds: position [q_min, q_max], velocity [-v_max, v_max], feedforward torque [-tau_max, tau_max], gain scales [0, 1], maximum torque [0, tau_max]; defaults 0, 1, 1 and tau_max, and none for position or velocity |
| `ServoTables.JointOrderIrrelevant` | upkie/envs/upkie_servos.py:139-145 | models whose joint lists have the same set of names are accepted or rejected alike and get the same tables |
| `SpineAction.JointCommand` | upkie/envs/upkie_servos.py:249-268 | one joint's pass succeeds exactly when all six fields resolve, and then returns the reference row; on failure it names this joint and a field that fails, and every earlier field resolves |
| `SpineAction.Resolve` | upkie/envs/upkie_servos.py:252-261 | a field that cannot be resolved fails with the `ActionError` for this joint and this field (the error of lines 258-261); when it fails is stated by `SpineActionFacts.ResolveFailsExactly`, and where a resolved value comes from by `SpineActionFacts.ResolvedValueSource` |
| `SpineAction.GetSpineAction` | upkie/envs/upkie_servos.py:241-269 | the translator succeeds exactly when every field of every joint resolves, and then returns the reference command; otherwise it reports a failing (joint, field) before which, in visiting order, every field resolves, and no command is produced |
| `SpineAction.RowAssembled` | upkie/envs/upkie_servos.py:250-268 | once all six fields are written, the joint's row is the reference row |
| `SpineAction.ServoAssembled` | upkie/envs/upkie_servos.py:248-269 | once all six joints are written, the command is the reference command |
| `SpineAction.RowThroughAt` | upkie/envs/upkie_servos.py:250-267 | after the first t fields, each of them holds its resolved and clamped value |
| `SpineAction.ServoThroughAt` | upkie/envs/upkie_servos.py:248-268 | after the first i joints, each of them holds its reference row |
| `SpineActionFacts.CommandAt` | upkie/envs/upkie_servos.py:262-268 | the command holds each field of each joint under its names, with its resolved value after clamping |
| `SpineActionFacts.ResolvedValueSource` | upkie/envs/upkie_servos.py:252-257 | a resolved field belongs to a joint present in the action, and its value is the caller's when the joint's action has the field, otherwise the field's default |
| `SpineActionFacts.ResolveFailsExactly` | upkie/envs/upkie_servos.py:252-261 | a field fails exactly when its joint is missing from the action, or it is position or velocity and the joint's action lacks it; the error names that joint and field |
| `SpineActionFacts.FailureIsUndefaulted` | upkie/envs/upkie_servos.py:252-261 | for a joint present in the action, only position or velocity can fail, and only when absent |
| `SpineActionFacts.CommandWithinBounds` | upkie/envs/upkie_servos.py:262-267 | every commanded value lies within [min_action, max_action] of its joint and field |
| `SpineActionFacts.SuppliedValueClamped` | upkie/envs/upkie_servos.py:253-267 | a supplied value within bounds is commanded unchanged; one below min is commanded as min; one above max is commanded as max |
| `SpineActionFacts.SuppliedValueWarns` | upkie/envs/upkie_servos.py:262-267 | the clamp warns about a supplied value exactly when it is out of bounds |
| `SpineActionFacts.OmittedFieldTakesDefault` | upkie/envs/upkie_servos.py:253-267 | a field omitted for a present joint of an accepted action is a defaulted one, and is commanded as exactly its default without a warning |
| `SpineActionFacts.SameFieldsSameRow` | upkie/envs/upkie_servos.py:250-268 | rows whose fields clamp to the same values are equal |
| `SpineActionFacts.SameRowsSameCommand` | upkie/envs/upkie_servos.py:248-269 | commands whose rows agree joint by joint are equal |
| `SpineActionFacts.SameEntriesSameResolve` | upkie/envs/upkie_servos.py:252-257 | a field resolves alike in two actions with the same entries for the six joints and six fields |
| `SpineActionFacts.ExtraEntriesIgnored` | upkie/envs/upkie_servos.py:248-269 | actions that agree on the six joints and six fields are accepted alike and give the same command, whatever else they hold |
| `SpineActionFacts.FedBackField` | upkie/envs/upkie_servos.py:252-267 | a commanded value fed back as an action resolves to itself and is not clamped again |
| `SpineActionFacts.CommandIsFixpoint` | upkie/envs/upkie_servos.py:248-269 | a command's servo part, fed back as an action, is accepted without warnings and gives the same command |
| `SpineActionFacts.CommandShape` | upkie/envs/upkie_servos.py:248-269 | the command's only key is "servo", which holds exactly the six joint names, each with exactly the six field names; other joints in the action never appear |
| `SpineActionFacts.LeftHipOvershoot` | upkie/envs/upkie_servos.py:262-267 | with left-hip position bounds [-1, 1], a supplied position of 1.5 is commanded as 1 with a warning |
| `SpineActionFacts.RightWheelWithoutVelocity` | upkie/envs/upkie_servos.py:252-261 | in an action where every joint gives a position and a velocity except the right wheel, which gives no velocity, the right wheel's velocity is the one field that fails, so the action is rejected |
| `SpineActionFacts.RejectRightWheelWithoutVelocity` | upkie/envs/upkie_servos.py:248-261 | the translator rejects that action with exactly the error for the right wheel's velocity |
| `SpineActionFacts.RightWheelVelocityMessage` | upkie/envs/upkie_servos.py:258-261 | that error's message names the key "velocity" and the joint "right_wheel" |
| `EnvInterface.GetEnvObservation` | upkie/envs/upkie_servos.py:232-239 | the environment observation is the spine observation unchanged |
| `EnvInterface.GetReward` | upkie/envs/upkie_servos.py:271-283 | the reward is 1 for any observation and action |

## Left out

- Loading the robot through `upkie_description` and pinocchio, and the
  `box_position_limits`, `box_velocity_limits` and `box_torque_limits` helpers.
  These are foreign libraries, so the model takes their output as an input
  (`RobotModel`). The same holds for `model.joints[model.getJointId(name)]` and
  the `idx_q`/`idx_v` indexing: each joint's limits are looked up by name.
- `UpkieBaseEnv`, meaning the spine connection, `reset` and `step`, and the
  constructor parameters `fall_pitch`, `frequency`, `shm_name` and
  `spine_config`. These are I/O plumbing outside the joint-command layer.
- gymnasium's `spaces.Dict` and `spaces.Box`: only their low and high bounds
  are modelled (`Box`), not the `float32` dtype or the shape.
- Floating point: values are Dafny reals. NaN, infinities, rounding and the
  `float32` conversion of the space bounds are not modelled.
- The log text of `clamp_and_warn` and the order of its warnings across a
  call. Each field's clamp keeps only its `warned` flag.
- `robot` and `version` attributes: they hold the pinocchio wrapper and a
  constant, and nothing in the command layer reads them.
- The example script `examples/wheeled_balancing_torque_control.py`. It is a
  control loop against a live spine, with float arithmetic on the IMU pitch,
  and it has no logic beyond calling the modelled operations.
- `SpineAction.GetSpineAction`: the error is reported as the failing (joint,
  field) pair; its message text is a function of the pair
  (`ActionError.Message`), checked for one concrete pair only.
