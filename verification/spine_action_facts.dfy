/** What the translator promises about the command it builds from tables
    that keep the construction invariants: which inputs it rejects, where
    each output value comes from, that every output value respects its
    bounds, that entries it does not look at are irrelevant, and that a
    command fed back as an action reproduces itself. */
module SpineActionFacts {
  import opened Results
  import opened ServoNames
  import opened ServoTables
  import opened Clamping
  import opened SpineAction

  /** Where field `k` of joint `j` sits in the reference command. */
  lemma CommandAt(s: Servos, action: EnvAction, j: Joint, k: Key)
    requires TablesComplete(s)
    requires Resolvable(s, action)
    ensures JointName(j) in Command(s, action)["servo"]
    ensures KeyName(k) in Command(s, action)["servo"][JointName(j)]
    ensures Command(s, action)["servo"][JointName(j)][KeyName(k)] == ClampedField(s, action, j, k).value
  {
    OrdersAgree();
    JointNamesBijective();
    assert JointName(j) in JointNameSet;
    assert KeyName(k) in ActionKeyNameSet by { KeyNamesInjective(); }
  }

  /** The value the command gives field `k` of joint `j`. */
  function CommandValue(s: Servos, action: EnvAction, j: Joint, k: Key): real
    requires TablesComplete(s)
    requires Resolvable(s, action)
  {
    CommandAt(s, action, j, k);
    Command(s, action)["servo"][JointName(j)][KeyName(k)]
  }

  /** A field fails to resolve exactly when its joint is missing from the
      action, or when it is position or velocity (the two fields without a
      default) and the joint's action lacks it. */
  lemma ResolveFailsExactly(s: Servos, action: EnvAction, j: Joint, k: Key)
    requires TablesComplete(s) && ValidServos(s)
    ensures Resolve(s, action, j, k).Err? <==>
              || JointName(j) !in action
              || ((k == Position || k == Velocity) && KeyName(k) !in action[JointName(j)])
    ensures Resolve(s, action, j, k).Err? ==> Resolve(s, action, j, k).error == ActionError(j, k)
  {
    assert JointRowsValid(s, j);
  }

  /** A rejected action names, as its missing field, one without a default:
      the translator never fails on a defaulted field. */
  lemma FailureIsUndefaulted(s: Servos, action: EnvAction, j: Joint, k: Key)
    requires TablesComplete(s) && ValidServos(s)
    requires Resolve(s, action, j, k).Err?
    requires JointName(j) in action
    ensures k == Position || k == Velocity
    ensures KeyName(k) !in action[JointName(j)]
  {
    ResolveFailsExactly(s, action, j, k);
  }

  /** Where a resolved value comes from: the caller's value when the joint's
      action has the field, and otherwise the table default. */
  lemma ResolvedValueSource(s: Servos, action: EnvAction, j: Joint, k: Key)
    requires TablesComplete(s)
    requires Resolve(s, action, j, k).Ok?
    ensures JointName(j) in action
    ensures KeyName(k) in action[JointName(j)] ==>
              Resolve(s, action, j, k).value == action[JointName(j)][KeyName(k)]
    ensures KeyName(k) !in action[JointName(j)] ==>
              k in s.defaultAction[j] && Resolve(s, action, j, k).value == s.defaultAction[j][k]
  {
  }

  /** Every value of the command lies within its field's bounds. */
  lemma CommandWithinBounds(s: Servos, action: EnvAction, j: Joint, k: Key)
    requires TablesComplete(s) && ValidServos(s)
    requires Resolvable(s, action)
    ensures s.minAction[j][k] <= CommandValue(s, action, j, k) <= s.maxAction[j][k]
  {
    CommandAt(s, action, j, k);
    assert JointRowsValid(s, j);
  }

  /** A value the caller supplies reaches the command unchanged when it is
      within bounds, and as the nearest bound otherwise. */
  lemma SuppliedValueClamped(s: Servos, action: EnvAction, j: Joint, k: Key)
    requires TablesComplete(s) && ValidServos(s)
    requires Resolvable(s, action)
    requires JointName(j) in action && KeyName(k) in action[JointName(j)]
    ensures var v := action[JointName(j)][KeyName(k)];
            && (s.minAction[j][k] <= v <= s.maxAction[j][k] ==> CommandValue(s, action, j, k) == v)
            && (v < s.minAction[j][k] ==> CommandValue(s, action, j, k) == s.minAction[j][k])
            && (s.maxAction[j][k] < v ==> CommandValue(s, action, j, k) == s.maxAction[j][k])
  {
    CommandAt(s, action, j, k);
    assert JointRowsValid(s, j);
  }

  /** The clamp warns about a value the caller supplies exactly when it is out of bounds. */
  lemma SuppliedValueWarns(s: Servos, action: EnvAction, j: Joint, k: Key)
    requires TablesComplete(s)
    requires Resolve(s, action, j, k).Ok?
    requires JointName(j) in action && KeyName(k) in action[JointName(j)]
    ensures ClampedField(s, action, j, k).warned
        <==> OutOfBounds(action[JointName(j)][KeyName(k)], s.minAction[j][k], s.maxAction[j][k])
  {
  }

  /** A defaulted field the caller leaves out reaches the command as exactly
      its default, without a warning. */
  lemma OmittedFieldTakesDefault(s: Servos, action: EnvAction, j: Joint, k: Key)
    requires TablesComplete(s) && ValidServos(s)
    requires Resolvable(s, action)
    requires JointName(j) in action && KeyName(k) !in action[JointName(j)]
    ensures k in DefaultedKeys && k in s.defaultAction[j]
    ensures CommandValue(s, action, j, k) == s.defaultAction[j][k]
    ensures !ClampedField(s, action, j, k).warned
  {
    CommandAt(s, action, j, k);
    ResolveFailsExactly(s, action, j, k);
    assert JointRowsValid(s, j);
  }

  /** Two actions hold the same entries for the six joints and their six fields. */
  predicate SameServoEntries(a1: EnvAction, a2: EnvAction) {
    forall j: Joint ::
      && (JointName(j) in a1 <==> JointName(j) in a2)
      && (JointName(j) in a1 ==> forall k: Key ::
            && (KeyName(k) in a1[JointName(j)] <==> KeyName(k) in a2[JointName(j)])
            && (KeyName(k) in a1[JointName(j)] ==> a1[JointName(j)][KeyName(k)] == a2[JointName(j)][KeyName(k)]))
  }

  /** Rows whose fields clamp to the same values are the same row. */
  lemma SameFieldsSameRow(s: Servos, a1: EnvAction, a2: EnvAction, j: Joint)
    requires TablesComplete(s)
    requires forall k: Key :: Resolve(s, a1, j, k).Ok? && Resolve(s, a2, j, k).Ok?
    requires forall k: Key :: ClampedField(s, a1, j, k).value == ClampedField(s, a2, j, k).value
    ensures CommandRow(s, a1, j) == CommandRow(s, a2, j)
  {
    var r1 := CommandRow(s, a1, j);
    var r2 := CommandRow(s, a2, j);
    forall n | n in ActionKeyNameSet ensures r1[n] == r2[n] {
      var k := ParseKey(n).value;
      assert ClampedField(s, a1, j, k).value == ClampedField(s, a2, j, k).value;
    }
  }

  /** Commands whose rows agree joint by joint are the same command. */
  lemma SameRowsSameCommand(s: Servos, a1: EnvAction, a2: EnvAction)
    requires TablesComplete(s)
    requires Resolvable(s, a1) && Resolvable(s, a2)
    requires forall j: Joint :: CommandRow(s, a1, j) == CommandRow(s, a2, j)
    ensures Command(s, a1) == Command(s, a2)
  {
    var c1 := Command(s, a1)["servo"];
    var c2 := Command(s, a2)["servo"];
    forall n | n in JointNameSet ensures c1[n] == c2[n] {
      var j := ParseJoint(n).value;
      assert CommandRow(s, a1, j) == CommandRow(s, a2, j);
    }
    assert c1 == c2;
  }

  /** Actions with the same entries for a field resolve it alike. */
  lemma SameEntriesSameResolve(s: Servos, a1: EnvAction, a2: EnvAction, j: Joint, k: Key)
    requires TablesComplete(s)
    requires SameServoEntries(a1, a2)
    ensures Resolve(s, a1, j, k) == Resolve(s, a2, j, k)
  {
    var n := JointName(j);
    assert n in a1 <==> n in a2;
    if n in a1 {
      assert KeyName(k) in a1[n] <==> KeyName(k) in a2[n];
    }
  }

  /** Entries the translator never reads, such as unknown joints or unknown
      fields, change neither whether an action is accepted nor its command. */
  lemma ExtraEntriesIgnored(s: Servos, a1: EnvAction, a2: EnvAction)
    requires TablesComplete(s)
    requires SameServoEntries(a1, a2)
    ensures Resolvable(s, a1) <==> Resolvable(s, a2)
    ensures Resolvable(s, a1) ==> Command(s, a1) == Command(s, a2)
  {
    forall j: Joint, k: Key ensures Resolve(s, a1, j, k) == Resolve(s, a2, j, k) {
      SameEntriesSameResolve(s, a1, a2, j, k);
    }
    if Resolvable(s, a1) {
      forall j: Joint ensures CommandRow(s, a1, j) == CommandRow(s, a2, j) {
        SameFieldsSameRow(s, a1, a2, j);
      }
      SameRowsSameCommand(s, a1, a2);
    }
  }

  /** A field fed back from a command resolves to its commanded value, which
      the clamp leaves as it is. */
  lemma FedBackField(s: Servos, action: EnvAction, j: Joint, k: Key)
    requires TablesComplete(s) && ValidServos(s)
    requires Resolvable(s, action)
    ensures Resolve(s, Command(s, action)["servo"], j, k) == Ok(ClampedField(s, action, j, k).value)
    ensures ClampedField(s, Command(s, action)["servo"], j, k) == Clamped(ClampedField(s, action, j, k).value, false)
  {
    CommandWithinBounds(s, action, j, k);
    CommandAt(s, action, j, k);
  }

  /** Feeding a command's servo part back in as an action is accepted and
      reproduces the same command: the translator is idempotent, and the
      clamp warns on none of the fed-back values. */
  lemma CommandIsFixpoint(s: Servos, action: EnvAction)
    requires TablesComplete(s) && ValidServos(s)
    requires Resolvable(s, action)
    ensures Resolvable(s, Command(s, action)["servo"])
    ensures forall j: Joint, k: Key :: !ClampedField(s, Command(s, action)["servo"], j, k).warned
    ensures Command(s, Command(s, action)["servo"]) == Command(s, action)
  {
    var again := Command(s, action)["servo"];
    forall j: Joint, k: Key
      ensures Resolve(s, again, j, k).Ok?
      ensures ClampedField(s, again, j, k) == Clamped(ClampedField(s, action, j, k).value, false)
    {
      FedBackField(s, action, j, k);
    }
    forall j: Joint ensures CommandRow(s, again, j) == CommandRow(s, action, j) {
      SameFieldsSameRow(s, again, action, j);
    }
    SameRowsSameCommand(s, again, action);
  }

  /** The command has the single entry `"servo"`, which holds exactly the six
      joint names, each with exactly the six field names: entries of the
      action for other joints or fields never reach it. */
  lemma CommandShape(s: Servos, action: EnvAction)
    requires TablesComplete(s)
    requires Resolvable(s, action)
    ensures Command(s, action).Keys == {"servo"}
    ensures Command(s, action)["servo"].Keys == JointNameSet
    ensures forall n | n in JointNameSet :: Command(s, action)["servo"][n].Keys == ActionKeyNameSet
    ensures forall n | n in action && n !in JointNameSet :: n !in Command(s, action)["servo"]
  {
  }

  /** A position above its upper bound is commanded as that bound, with a
      warning: with position bounds [-1, 1] on the left hip, 1.5 becomes 1. */
  lemma LeftHipOvershoot(s: Servos, action: EnvAction)
    requires TablesComplete(s) && ValidServos(s)
    requires s.minAction[LeftHip][Position] == -1.0 && s.maxAction[LeftHip][Position] == 1.0
    requires "left_hip" in action && "position" in action["left_hip"] && action["left_hip"]["position"] == 1.5
    requires Resolvable(s, action)
    ensures "left_hip" in Command(s, action)["servo"]
    ensures "position" in Command(s, action)["servo"]["left_hip"]
    ensures Command(s, action)["servo"]["left_hip"]["position"] == 1.0
    ensures ClampedField(s, action, LeftHip, Position).warned
  {
    SuppliedValueClamped(s, action, LeftHip, Position);
  }

  /** Every joint of the action gives a position and a velocity, except the
      right wheel, which gives a position only. */
  predicate RightWheelLacksVelocity(action: EnvAction) {
    forall j: Joint ::
      && JointName(j) in action
      && KeyName(Position) in action[JointName(j)]
      && (KeyName(Velocity) in action[JointName(j)] <==> j != RightWheel)
  }

  /** In such an action the right wheel's velocity is the one field that
      fails to resolve, so the action is rejected. */
  lemma RightWheelWithoutVelocity(s: Servos, action: EnvAction)
    requires TablesComplete(s) && ValidServos(s)
    requires RightWheelLacksVelocity(action)
    ensures forall j: Joint, k: Key :: Resolve(s, action, j, k).Err? <==> j == RightWheel && k == Velocity
    ensures !Resolvable(s, action)
  {
    forall j: Joint, k: Key
      ensures Resolve(s, action, j, k).Err? <==> j == RightWheel && k == Velocity
    {
      ResolveFailsExactly(s, action, j, k);
    }
    assert Resolve(s, action, RightWheel, Velocity).Err?;
  }

  /** The translator rejects such an action with the error for the right
      wheel's velocity. */
  method RejectRightWheelWithoutVelocity(s: Servos, action: EnvAction) returns (r: Result<SpineCommand, ActionError>)
    requires TablesComplete(s) && ValidServos(s)
    requires RightWheelLacksVelocity(action)
    ensures r == Err(ActionError(RightWheel, Velocity))
  {
    RightWheelWithoutVelocity(s, action);
    r := GetSpineAction(s, action);
  }

  /** The error for the right wheel's missing velocity names both. */
  lemma RightWheelVelocityMessage()
    ensures ActionError(RightWheel, Velocity).Message() == "Missing key \"velocity\" required for joint \"right_wheel\""
  {
    assert KeyName(Velocity) == "velocity";
    assert JointName(RightWheel) == "right_wheel";
    VelocityRightWheelText();
  }

  lemma VelocityRightWheelText()
    ensures MissingKeyMessage("velocity", "right_wheel") == "Missing key \"velocity\" required for joint \"right_wheel\""
  {
    var m := MissingKeyMessage("velocity", "right_wheel");
    var expected := "Missing key \"velocity\" required for joint \"right_wheel\"";
    assert |m| == |expected|;
    forall i | 0 <= i < |m| ensures m[i] == expected[i] { }
  }
}
