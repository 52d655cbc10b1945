/** The two closed vocabularies of the servo environment: the six actuated
    joints of the robot and the six fields of a servo command, with the exact
    strings the environment uses for them and the order in which it visits them. */
module ServoNames {
  import opened Results

  datatype Joint = LeftHip | LeftKnee | LeftWheel | RightHip | RightKnee | RightWheel

  datatype Key = Position | Velocity | FeedforwardTorque | KpScale | KdScale | MaximumTorque

  /** The joint names, in the order of the environment's `JOINT_NAMES` tuple. */
  const JointNames: seq<string> :=
    ["left_hip", "left_knee", "left_wheel", "right_hip", "right_knee", "right_wheel"]

  /** The command fields, in the order of the environment's `ACTION_KEYS` tuple. */
  const ActionKeyNames: seq<string> :=
    ["position", "velocity", "feedforward_torque", "kp_scale", "kd_scale", "maximum_torque"]

  /** The joints in iteration order. */
  const Joints: seq<Joint> := [LeftHip, LeftKnee, LeftWheel, RightHip, RightKnee, RightWheel]

  /** The command fields in iteration order. */
  const ActionKeys: seq<Key> := [Position, Velocity, FeedforwardTorque, KpScale, KdScale, MaximumTorque]

  const AllJoints: set<Joint> := {LeftHip, LeftKnee, LeftWheel, RightHip, RightKnee, RightWheel}

  const AllKeys: set<Key> := {Position, Velocity, FeedforwardTorque, KpScale, KdScale, MaximumTorque}

  const JointNameSet: set<string> := set n | n in JointNames

  const ActionKeyNameSet: set<string> := set n | n in ActionKeyNames

  /** Position of a joint in the iteration order. */
  function JointIndex(j: Joint): (i: nat)
    ensures i < |Joints| && Joints[i] == j
  {
    match j
    case LeftHip => 0
    case LeftKnee => 1
    case LeftWheel => 2
    case RightHip => 3
    case RightKnee => 4
    case RightWheel => 5
  }

  /** Position of a command field in the iteration order. */
  function KeyIndex(k: Key): (i: nat)
    ensures i < |ActionKeys| && ActionKeys[i] == k
  {
    match k
    case Position => 0
    case Velocity => 1
    case FeedforwardTorque => 2
    case KpScale => 3
    case KdScale => 4
    case MaximumTorque => 5
  }

  /** The string under which a joint appears in actions, commands and the robot model. */
  function JointName(j: Joint): (n: string)
    ensures n == JointNames[JointIndex(j)]
  {
    JointNames[JointIndex(j)]
  }

  /** The string under which a field appears in actions and commands. */
  function KeyName(k: Key): (n: string)
    ensures n == ActionKeyNames[KeyIndex(k)]
  {
    ActionKeyNames[KeyIndex(k)]
  }

  /** The joint a robot-model name denotes, if it is one of the six. */
  function ParseJoint(n: string): (r: Option<Joint>)
    ensures r.Some? <==> n in JointNameSet
    ensures r.Some? ==> JointName(r.value) == n
  {
    if n == "left_hip" then Some(LeftHip)
    else if n == "left_knee" then Some(LeftKnee)
    else if n == "left_wheel" then Some(LeftWheel)
    else if n == "right_hip" then Some(RightHip)
    else if n == "right_knee" then Some(RightKnee)
    else if n == "right_wheel" then Some(RightWheel)
    else None
  }

  /** The field a command name denotes, if it is one of the six. */
  function ParseKey(n: string): (r: Option<Key>)
    ensures r.Some? <==> n in ActionKeyNameSet
    ensures r.Some? ==> KeyName(r.value) == n
  {
    if n == "position" then Some(Position)
    else if n == "velocity" then Some(Velocity)
    else if n == "feedforward_torque" then Some(FeedforwardTorque)
    else if n == "kp_scale" then Some(KpScale)
    else if n == "kd_scale" then Some(KdScale)
    else if n == "maximum_torque" then Some(MaximumTorque)
    else None
  }

  /** The enumeration orders, the name tuples and the parsers line up position
      by position. */
  lemma OrdersAgree()
    ensures forall i | 0 <= i < |Joints| ::
      JointIndex(Joints[i]) == i && JointName(Joints[i]) == JointNames[i] && ParseJoint(JointNames[i]) == Some(Joints[i])
    ensures forall i | 0 <= i < |ActionKeys| ::
      KeyIndex(ActionKeys[i]) == i && KeyName(ActionKeys[i]) == ActionKeyNames[i] && ParseKey(ActionKeyNames[i]) == Some(ActionKeys[i])
    ensures forall k: Key :: ParseKey(KeyName(k)) == Some(k)
  {
  }

  lemma JointIndexOfNth(i: nat)
    requires i < |Joints|
    ensures JointIndex(Joints[i]) == i
  {
  }

  lemma KeyIndexOfNth(t: nat)
    requires t < |ActionKeys|
    ensures KeyIndex(ActionKeys[t]) == t
  {
  }

  /** Distinct joints have distinct names, and every name in the joint tuple
      is the name of exactly one joint. */
  lemma JointNamesBijective()
    ensures forall a: Joint, b: Joint :: JointName(a) == JointName(b) ==> a == b
    ensures forall j: Joint :: ParseJoint(JointName(j)) == Some(j)
    ensures JointNameSet == set j | j in AllJoints :: JointName(j)
  {
  }

  /** Distinct fields have distinct names. */
  lemma KeyNamesInjective()
    ensures forall a: Key, b: Key :: KeyName(a) == KeyName(b) ==> a == b
    ensures ActionKeyNameSet == set k | k in AllKeys :: KeyName(k)
  {
  }

  /** The enumerations and their finite-set forms agree. */
  lemma EnumerationsComplete()
    ensures forall j: Joint :: j in AllJoints
    ensures forall k: Key :: k in AllKeys
  {
    forall j: Joint ensures j in AllJoints {
      assert Joints[JointIndex(j)] == j;
    }
    forall k: Key ensures k in AllKeys {
      assert ActionKeys[KeyIndex(k)] == k;
    }
  }
}
