/** Construction of the servo environment: the check that the robot model has
    exactly the expected joints, and the per-(joint, field) default, lower-bound
    and upper-bound tables plus the action and observation space bounds built
    from the model's joint limits. */
module ServoTables {
  import opened Results
  import opened ServoNames

  /** The limits the kinematic model reports for one joint: the position
      range, and the velocity and torque magnitudes. */
  datatype JointLimits = JointLimits(qMin: real, qMax: real, vMax: real, tauMax: real)

  /** What the limit helpers are expected to deliver. */
  predicate SaneLimits(l: JointLimits) {
    l.qMin <= l.qMax && 0.0 <= l.vMax && 0.0 <= l.tauMax
  }

  /** The loaded robot as the environment sees it: the model's joint names
      after the root joint, in model order, and the limits of each joint. */
  datatype RobotModel = RobotModel(jointNames: seq<string>, limits: map<string, JointLimits>)

  /** The model can report limits for each of its own joints. */
  predicate LimitsCover(m: RobotModel) {
    forall n | n in m.jointNames :: n in m.limits
  }

  predicate LimitsSane(m: RobotModel) {
    LimitsCover(m) && forall n | n in m.jointNames :: SaneLimits(m.limits[n])
  }

  /** A scalar range `[low, high]` of a space descriptor (a one-element box). */
  datatype Box = Box(low: real, high: real)

  type Table = map<Joint, map<Key, real>>

  type Space = map<Joint, map<Key, Box>>

  /** Raised when the model's joint set is not the expected one; carries the
      expected names and the names found. */
  datatype ModelError = ModelError(expected: seq<string>, got: seq<string>)

  /** The constructed environment's tables. */
  datatype Servos = Servos(
    defaultAction: Table,
    minAction: Table,
    maxAction: Table,
    actionSpace: Space,
    observationSpace: Space)

  /** The fields that have a default; position and velocity deliberately have none. */
  const DefaultedKeys: set<Key> := {FeedforwardTorque, KpScale, KdScale, MaximumTorque}

  function DefaultRow(l: JointLimits): map<Key, real> {
    map[FeedforwardTorque := 0.0, KpScale := 1.0, KdScale := 1.0, MaximumTorque := l.tauMax]
  }

  function MaxRow(l: JointLimits): map<Key, real> {
    map[Position := l.qMax, Velocity := l.vMax, FeedforwardTorque := l.tauMax,
        KpScale := 1.0, KdScale := 1.0, MaximumTorque := l.tauMax]
  }

  function MinRow(l: JointLimits): map<Key, real> {
    map[Position := l.qMin, Velocity := -l.vMax, FeedforwardTorque := -l.tauMax,
        KpScale := 0.0, KdScale := 0.0, MaximumTorque := 0.0]
  }

  function SpaceRow(l: JointLimits): map<Key, Box> {
    map[Position := Box(l.qMin, l.qMax),
        Velocity := Box(-l.vMax, l.vMax),
        FeedforwardTorque := Box(-l.tauMax, l.tauMax),
        KpScale := Box(0.0, 1.0),
        KdScale := Box(0.0, 1.0),
        MaximumTorque := Box(0.0, l.tauMax)]
  }

  /** Joint `j` has the five rows that limits `l` give it. */
  predicate HasRows(s: Servos, j: Joint, l: JointLimits) {
    && j in s.defaultAction && s.defaultAction[j] == DefaultRow(l)
    && j in s.minAction && s.minAction[j] == MinRow(l)
    && j in s.maxAction && s.maxAction[j] == MaxRow(l)
    && j in s.actionSpace && s.actionSpace[j] == SpaceRow(l)
    && j in s.observationSpace && s.observationSpace[j] == SpaceRow(l)
  }

  /** Joint `j` has the same rows (or the same absence of rows) in `s` and `t`. */
  predicate SameRows(s: Servos, t: Servos, j: Joint) {
    && (j in s.defaultAction <==> j in t.defaultAction)
    && (j in s.defaultAction ==> s.defaultAction[j] == t.defaultAction[j])
    && (j in s.minAction <==> j in t.minAction)
    && (j in s.minAction ==> s.minAction[j] == t.minAction[j])
    && (j in s.maxAction <==> j in t.maxAction)
    && (j in s.maxAction ==> s.maxAction[j] == t.maxAction[j])
    && (j in s.actionSpace <==> j in t.actionSpace)
    && (j in s.actionSpace ==> s.actionSpace[j] == t.actionSpace[j])
    && (j in s.observationSpace <==> j in t.observationSpace)
    && (j in s.observationSpace ==> s.observationSpace[j] == t.observationSpace[j])
  }

  const NoJoints: Servos := Servos(map[], map[], map[], map[], map[])

  /** One iteration of the construction loop: (re)define every row of joint `j`. */
  function WithJoint(s: Servos, j: Joint, l: JointLimits): Servos
  {
    Servos(
      s.defaultAction[j := DefaultRow(l)],
      s.minAction[j := MinRow(l)],
      s.maxAction[j := MaxRow(l)],
      s.actionSpace[j := SpaceRow(l)],
      s.observationSpace[j := SpaceRow(l)])
  }

  /** Joint `j` has an entry in each of the five tables. */
  predicate HasEntries(s: Servos, j: Joint) {
    && j in s.defaultAction && j in s.minAction && j in s.maxAction
    && j in s.actionSpace && j in s.observationSpace
  }

  /** The construction loop over the model's joint names, in model order. It
      gives an entry to each joint the model names and to no other joint. */
  function AddJoints(names: seq<string>, limits: map<string, JointLimits>, acc: Servos): (r: Servos)
    requires forall n | n in names :: n in limits && n in JointNameSet
    ensures forall j: Joint :: HasEntries(r, j) <==> HasEntries(acc, j) || JointName(j) in names
    decreases |names|
  {
    if names == [] then acc
    else
      var j := ParseJoint(names[0]).value;
      WithJointEntries(names, limits, acc);
      AddJoints(names[1..], limits, WithJoint(acc, j, limits[names[0]]))
  }

  /** One loop iteration moves the first name from the names still to visit
      to the joints with entries. */
  lemma WithJointEntries(names: seq<string>, limits: map<string, JointLimits>, acc: Servos)
    requires names != [] && names[0] in limits && names[0] in JointNameSet
    ensures forall j: Joint ::
              HasEntries(WithJoint(acc, ParseJoint(names[0]).value, limits[names[0]]), j) || JointName(j) in names[1..]
              <==> HasEntries(acc, j) || JointName(j) in names
  {
    var j0 := ParseJoint(names[0]).value;
    forall j: Joint
      ensures HasEntries(WithJoint(acc, j0, limits[names[0]]), j) || JointName(j) in names[1..]
              <==> HasEntries(acc, j) || JointName(j) in names
    {
      assert JointName(j) in names <==> JointName(j) == names[0] || JointName(j) in names[1..];
      if JointName(j) == names[0] {
        JointNamesBijective();
      }
    }
  }

  /** The loop leaves the rows of a joint it does not visit as they were. */
  lemma {:induction false} AddJointsUntouched(names: seq<string>, limits: map<string, JointLimits>, acc: Servos, j: Joint)
    requires forall n | n in names :: n in limits && n in JointNameSet
    requires JointName(j) !in names
    ensures SameRows(AddJoints(names, limits, acc), acc, j)
    decreases |names|
  {
    if names != [] {
      var j0 := ParseJoint(names[0]).value;
      assert j0 != j;
      AddJointsUntouched(names[1..], limits, WithJoint(acc, j0, limits[names[0]]), j);
    }
  }

  /** Every joint the loop visits ends with the rows its limits give, however
      often and wherever its name occurs in the list. */
  lemma {:induction false} AddJointsRows(names: seq<string>, limits: map<string, JointLimits>, acc: Servos, j: Joint)
    requires forall n | n in names :: n in limits && n in JointNameSet
    requires JointName(j) in names
    ensures HasRows(AddJoints(names, limits, acc), j, limits[JointName(j)])
    decreases |names|
  {
    var j0 := ParseJoint(names[0]).value;
    var acc' := WithJoint(acc, j0, limits[names[0]]);
    if JointName(j) in names[1..] {
      AddJointsRows(names[1..], limits, acc', j);
    } else {
      assert names[0] == JointName(j) && j0 == j;
      AddJointsUntouched(names[1..], limits, acc', j);
    }
  }

  /** Every joint's name has limits. */
  predicate CoversAllJoints(limits: map<string, JointLimits>) {
    forall j: Joint :: JointName(j) in limits
  }

  /** Order-free reference definition of the constructed tables. */
  function ReferenceServos(limits: map<string, JointLimits>): Servos
    requires CoversAllJoints(limits)
  {
    Servos(
      map j | j in AllJoints :: DefaultRow(limits[JointName(j)]),
      map j | j in AllJoints :: MinRow(limits[JointName(j)]),
      map j | j in AllJoints :: MaxRow(limits[JointName(j)]),
      map j | j in AllJoints :: SpaceRow(limits[JointName(j)]),
      map j | j in AllJoints :: SpaceRow(limits[JointName(j)]))
  }

  /** The joint-name check and table construction of the environment constructor. */
  function BuildServos(m: RobotModel): (r: Result<Servos, ModelError>)
    requires LimitsCover(m)
    ensures r.Err? <==> (set n | n in m.jointNames) != JointNameSet
    ensures r.Err? ==> r.error == ModelError(JointNames, m.jointNames)
    ensures r.Ok? ==> CoversAllJoints(m.limits) && r.value == ReferenceServos(m.limits)
  {
    if (set n | n in m.jointNames) != JointNameSet then
      Err(ModelError(JointNames, m.jointNames))
    else
      var s := AddJoints(m.jointNames, m.limits, NoJoints);
      AddJointsIsReference(m);
      Ok(s)
  }

  /** When the names check passes, the loop builds exactly the reference tables. */
  lemma AddJointsIsReference(m: RobotModel)
    requires LimitsCover(m)
    requires (set n | n in m.jointNames) == JointNameSet
    ensures CoversAllJoints(m.limits)
    ensures AddJoints(m.jointNames, m.limits, NoJoints) == ReferenceServos(m.limits)
  {
    forall j: Joint
      ensures JointName(j) in m.jointNames
      ensures HasRows(AddJoints(m.jointNames, m.limits, NoJoints), j, m.limits[JointName(j)])
    {
      assert JointName(j) in JointNameSet;
      AddJointsRows(m.jointNames, m.limits, NoJoints, j);
    }
    RowsDetermineTables(AddJoints(m.jointNames, m.limits, NoJoints), m.limits);
  }

  /** Tables holding, for every joint, exactly the rows its limits give are the
      reference tables. */
  lemma RowsDetermineTables(s: Servos, limits: map<string, JointLimits>)
    requires CoversAllJoints(limits)
    requires forall j: Joint :: HasRows(s, j, limits[JointName(j)])
    ensures s == ReferenceServos(limits)
  {
    var r := ReferenceServos(limits);
    forall j: Joint
      ensures j in s.defaultAction && j in r.defaultAction && s.defaultAction[j] == r.defaultAction[j]
      ensures j in s.minAction && j in r.minAction && s.minAction[j] == r.minAction[j]
      ensures j in s.maxAction && j in r.maxAction && s.maxAction[j] == r.maxAction[j]
      ensures j in s.actionSpace && j in r.actionSpace && s.actionSpace[j] == r.actionSpace[j]
      ensures j in s.observationSpace && j in r.observationSpace && s.observationSpace[j] == r.observationSpace[j]
    {
      assert HasRows(s, j, limits[JointName(j)]);
      ReferenceHasRows(limits, j);
    }
    TotalMapsEqual(s.defaultAction, r.defaultAction);
    TotalMapsEqual(s.minAction, r.minAction);
    TotalMapsEqual(s.maxAction, r.maxAction);
    TotalMapsEqual(s.actionSpace, r.actionSpace);
    TotalMapsEqual(s.observationSpace, r.observationSpace);
  }

  /** Two maps defined on every joint with equal values are equal. */
  lemma TotalMapsEqual<V>(a: map<Joint, V>, b: map<Joint, V>)
    requires forall j: Joint :: j in a && j in b && a[j] == b[j]
    ensures a == b
  {
  }

  /** Every joint has a default row and a full lower- and upper-bound row:
      what the command translator looks up. */
  predicate TablesComplete(s: Servos) {
    forall j: Joint ::
      && j in s.defaultAction && j in s.minAction && j in s.maxAction
      && (forall k: Key :: k in s.minAction[j] && k in s.maxAction[j])
  }

  /** The invariants one joint's rows keep: full bound rows with the lower
      bound at most the upper one, a default only for the four defaulted
      fields and within its bounds, and space descriptors carrying exactly
      the table bounds. */
  predicate JointRowsValid(s: Servos, j: Joint) {
    && j in s.defaultAction && j in s.minAction && j in s.maxAction
    && j in s.actionSpace && j in s.observationSpace
    && (forall k: Key :: k in s.minAction[j] && k in s.maxAction[j] && k in s.actionSpace[j])
    && (forall k: Key :: k in s.defaultAction[j] <==> k in DefaultedKeys)
    && (forall k: Key :: s.minAction[j][k] <= s.maxAction[j][k])
    && (forall k: Key | k in s.defaultAction[j] ::
          s.minAction[j][k] <= s.defaultAction[j][k] <= s.maxAction[j][k])
    && (forall k: Key :: s.actionSpace[j][k] == Box(s.minAction[j][k], s.maxAction[j][k]))
    && s.observationSpace[j] == s.actionSpace[j]
  }

  /** The invariants the constructed tables keep for the environment's lifetime. */
  predicate ValidServos(s: Servos) {
    forall j: Joint :: JointRowsValid(s, j)
  }

  lemma ValidServosComplete(s: Servos)
    requires ValidServos(s)
    ensures TablesComplete(s)
  {
    forall j: Joint ensures j in s.defaultAction && j in s.minAction && j in s.maxAction
      && (forall k: Key :: k in s.minAction[j] && k in s.maxAction[j])
    {
      assert JointRowsValid(s, j);
    }
  }

  /** With limits as the model helpers deliver them, construction yields
      tables where every lower bound is at most its upper bound, every default
      lies within its bounds, only the four defaulted fields have a default,
      and both space descriptors carry exactly the table bounds. */
  lemma ConstructedTablesValid(m: RobotModel)
    requires LimitsSane(m)
    requires BuildServos(m).Ok?
    ensures ValidServos(BuildServos(m).value)
    ensures BuildServos(m).value.observationSpace == BuildServos(m).value.actionSpace
  {
    var s := BuildServos(m).value;
    forall j: Joint ensures JointRowsValid(s, j) {
      assert JointName(j) in JointNameSet;
      BuiltHasRows(m, j);
      SaneRowsValid(s, j, m.limits[JointName(j)]);
    }
  }

  /** Whatever the limits, construction leaves every joint with a default row
      and full bound rows: every lookup the translator makes into the bound
      tables succeeds. */
  lemma ConstructedTablesComplete(m: RobotModel)
    requires LimitsCover(m)
    requires BuildServos(m).Ok?
    ensures TablesComplete(BuildServos(m).value)
  {
    var s := BuildServos(m).value;
    forall j: Joint
      ensures j in s.defaultAction && j in s.minAction && j in s.maxAction
      ensures forall k: Key :: k in s.minAction[j] && k in s.maxAction[j]
    {
      BuiltHasRows(m, j);
      forall k: Key ensures k in s.minAction[j] && k in s.maxAction[j] {
        match k
        case Position =>
        case Velocity =>
        case FeedforwardTorque =>
        case KpScale =>
        case KdScale =>
        case MaximumTorque =>
      }
    }
  }

  /** Sane limits give a joint valid rows. */
  lemma SaneRowsValid(s: Servos, j: Joint, l: JointLimits)
    requires HasRows(s, j, l)
    requires SaneLimits(l)
    ensures JointRowsValid(s, j)
  {
    forall k: Key ensures k in MinRow(l) && k in MaxRow(l) && k in SpaceRow(l) {
      match k
      case Position =>
      case Velocity =>
      case FeedforwardTorque =>
      case KpScale =>
      case KdScale =>
      case MaximumTorque =>
    }
  }

  /** The reference tables give each joint the rows of its own limits. */
  lemma ReferenceHasRows(limits: map<string, JointLimits>, j: Joint)
    requires CoversAllJoints(limits)
    ensures HasRows(ReferenceServos(limits), j, limits[JointName(j)])
  {
    assert j in AllJoints by { EnumerationsComplete(); }
  }

  /** The constructed tables give each joint the rows of its own limits. */
  lemma BuiltHasRows(m: RobotModel, j: Joint)
    requires LimitsCover(m)
    requires BuildServos(m).Ok?
    ensures JointName(j) in m.limits
    ensures HasRows(BuildServos(m).value, j, m.limits[JointName(j)])
  {
    ReferenceHasRows(m.limits, j);
  }

  /** The bounds and default of each field of a constructed joint, in terms of
      that joint's model limits: position within the model's range, velocity
      and feedforward torque symmetric about zero, maximum torque from zero to
      the torque limit, both gain scales within [0, 1]; no default for
      position or velocity. */
  lemma ConstructedJointRows(m: RobotModel, j: Joint)
    requires LimitsCover(m)
    requires BuildServos(m).Ok?
    ensures JointName(j) in m.limits
    ensures FieldBounds(BuildServos(m).value, j, m.limits[JointName(j)])
  {
    BuiltHasRows(m, j);
    RowsGiveBounds(BuildServos(m).value, j, m.limits[JointName(j)]);
  }

  lemma RowsGiveBounds(s: Servos, j: Joint, l: JointLimits)
    requires HasRows(s, j, l)
    ensures FieldBounds(s, j, l)
  {
  }

  /** The per-field bounds and defaults of joint `j` as the limits `l` give them. */
  predicate FieldBounds(s: Servos, j: Joint, l: JointLimits) {
    && j in s.minAction && j in s.maxAction && j in s.defaultAction
    && Position in s.minAction[j] && Position in s.maxAction[j]
    && Velocity in s.minAction[j] && Velocity in s.maxAction[j]
    && FeedforwardTorque in s.minAction[j] && FeedforwardTorque in s.maxAction[j]
    && KpScale in s.minAction[j] && KpScale in s.maxAction[j]
    && KdScale in s.minAction[j] && KdScale in s.maxAction[j]
    && MaximumTorque in s.minAction[j] && MaximumTorque in s.maxAction[j]
    && s.minAction[j][Position] == l.qMin && s.maxAction[j][Position] == l.qMax
    && s.minAction[j][Velocity] == -l.vMax && s.maxAction[j][Velocity] == l.vMax
    && s.minAction[j][FeedforwardTorque] == -l.tauMax && s.maxAction[j][FeedforwardTorque] == l.tauMax
    && s.minAction[j][KpScale] == 0.0 && s.maxAction[j][KpScale] == 1.0
    && s.minAction[j][KdScale] == 0.0 && s.maxAction[j][KdScale] == 1.0
    && s.minAction[j][MaximumTorque] == 0.0 && s.maxAction[j][MaximumTorque] == l.tauMax
    && Position !in s.defaultAction[j] && Velocity !in s.defaultAction[j]
    && FeedforwardTorque in s.defaultAction[j] && s.defaultAction[j][FeedforwardTorque] == 0.0
    && KpScale in s.defaultAction[j] && s.defaultAction[j][KpScale] == 1.0
    && KdScale in s.defaultAction[j] && s.defaultAction[j][KdScale] == 1.0
    && MaximumTorque in s.defaultAction[j] && s.defaultAction[j][MaximumTorque] == l.tauMax
  }

  /** The joint check compares sets: models listing the same joint names in
      any order, or with repetitions, are accepted or rejected alike, and
      accepted ones get identical tables. */
  lemma JointOrderIrrelevant(m1: RobotModel, m2: RobotModel)
    requires LimitsCover(m1) && LimitsCover(m2)
    requires (set n | n in m1.jointNames) == (set n | n in m2.jointNames)
    requires m1.limits == m2.limits
    ensures BuildServos(m1).Ok? <==> BuildServos(m2).Ok?
    ensures BuildServos(m1).Ok? ==> BuildServos(m1).value == BuildServos(m2).value
  {
  }
}
