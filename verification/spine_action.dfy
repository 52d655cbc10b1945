/** The per-tick translation of an environment action (joint name -> field
    name -> value, possibly partial) into the complete command the spine
    forwards to the servos: every field of every joint resolved from the
    caller's value or the table default, then clamped into the table bounds. */
module SpineAction {
  import opened Results
  import opened ServoNames
  import opened ServoTables
  import opened Clamping

  /** An environment action: any joints, any fields, values as supplied. */
  type EnvAction = map<string, map<string, real>>

  /** A spine action: `"servo"` -> joint name -> field name -> value. */
  type SpineCommand = map<string, map<string, map<string, real>>>

  /** Raised when a field has neither a caller value nor a default, or when
      the joint is missing from the action altogether. */
  datatype ActionError = ActionError(joint: Joint, key: Key) {
    function Message(): string {
      MissingKeyMessage(KeyName(key), JointName(joint))
    }
  }

  /** The text of the error for field name `key` of joint name `joint`. */
  function MissingKeyMessage(key: string, joint: string): string {
    "Missing key \"" + key + "\" required for joint \"" + joint + "\""
  }

  /** The raw value of one field: the caller's value when the joint's action
      has that field, else the table default. Looking into a joint the action
      does not have fails for every field; a field with neither a caller value
      nor a default fails too. */
  function Resolve(s: Servos, action: EnvAction, j: Joint, k: Key): (r: Result<real, ActionError>)
    requires TablesComplete(s)
    ensures r.Err? ==> r.error == ActionError(j, k)
  {
    if JointName(j) !in action then Err(ActionError(j, k))
    else if KeyName(k) in action[JointName(j)] then Ok(action[JointName(j)][KeyName(k)])
    else if k in s.defaultAction[j] then Ok(s.defaultAction[j][k])
    else Err(ActionError(j, k))
  }

  /** Every field of every joint resolves. */
  predicate Resolvable(s: Servos, action: EnvAction)
    requires TablesComplete(s)
  {
    forall j: Joint, k: Key :: Resolve(s, action, j, k).Ok?
  }

  /** Field `k` of joint `j` is visited before field `k'` of joint `j'`. */
  predicate Precedes(j: Joint, k: Key, j': Joint, k': Key) {
    JointIndex(j) < JointIndex(j') || (j == j' && KeyIndex(k) < KeyIndex(k'))
  }

  /** The resolved value of one field run through the clamp. */
  function ClampedField(s: Servos, action: EnvAction, j: Joint, k: Key): Clamped
    requires TablesComplete(s)
    requires Resolve(s, action, j, k).Ok?
  {
    ClampAndWarn(Resolve(s, action, j, k).value, s.minAction[j][k], s.maxAction[j][k])
  }

  /** Reference definition of one joint's command: every field name, clamped value. */
  function CommandRow(s: Servos, action: EnvAction, j: Joint): map<string, real>
    requires TablesComplete(s)
    requires forall k: Key :: Resolve(s, action, j, k).Ok?
  {
    map n | n in ActionKeyNameSet :: ClampedField(s, action, j, ParseKey(n).value).value
  }

  /** Reference definition of the whole command. */
  function Command(s: Servos, action: EnvAction): SpineCommand
    requires TablesComplete(s)
    requires Resolvable(s, action)
  {
    map["servo" := map n | n in JointNameSet :: CommandRow(s, action, ParseJoint(n).value)]
  }

  /** The first `t` fields of `joint` resolve. */
  predicate KeysResolve(s: Servos, action: EnvAction, joint: Joint, t: nat)
    requires TablesComplete(s)
    requires t <= |ActionKeys|
  {
    forall u | 0 <= u < t :: Resolve(s, action, joint, ActionKeys[u]).Ok?
  }

  /** Read by field: every field whose position is below `t` resolves. */
  lemma KeysResolveBelow(s: Servos, action: EnvAction, joint: Joint, t: nat)
    requires TablesComplete(s)
    requires t <= |ActionKeys| && KeysResolve(s, action, joint, t)
    ensures forall k: Key :: KeyIndex(k) < t ==> Resolve(s, action, joint, k).Ok?
  {
    forall k: Key | KeyIndex(k) < t ensures Resolve(s, action, joint, k).Ok? {
      assert ActionKeys[KeyIndex(k)] == k;
    }
  }

  /** The row after the translator has written the first `t` fields of `joint`, in order. */
  function RowThrough(s: Servos, action: EnvAction, joint: Joint, t: nat): map<string, real>
    requires TablesComplete(s)
    requires t <= |ActionKeys| && KeysResolve(s, action, joint, t)
  {
    if t == 0 then map[]
    else
      var k := ActionKeys[t - 1];
      RowThrough(s, action, joint, t - 1)[KeyName(k) := ClampedField(s, action, joint, k).value]
  }

  /** The first `i` joints resolve completely. */
  predicate JointsResolve(s: Servos, action: EnvAction, i: nat)
    requires TablesComplete(s)
    requires i <= |Joints|
  {
    forall u, k: Key | 0 <= u < i :: Resolve(s, action, Joints[u], k).Ok?
  }

  /** The servo part after the translator has written the first `i` joints, in order. */
  function ServoThrough(s: Servos, action: EnvAction, i: nat): map<string, map<string, real>>
    requires TablesComplete(s)
    requires i <= |Joints| && JointsResolve(s, action, i)
  {
    if i == 0 then map[]
    else
      var j := Joints[i - 1];
      ServoThrough(s, action, i - 1)[JointName(j) := CommandRow(s, action, j)]
  }

  /** Writing field `t` extends the row through `t` to the row through `t + 1`. */
  lemma RowStep(s: Servos, action: EnvAction, joint: Joint, t: nat)
    requires TablesComplete(s)
    requires t < |ActionKeys| && KeysResolve(s, action, joint, t)
    requires Resolve(s, action, joint, ActionKeys[t]).Ok?
    ensures KeysResolve(s, action, joint, t + 1)
    ensures RowThrough(s, action, joint, t + 1)
         == RowThrough(s, action, joint, t)[KeyName(ActionKeys[t]) := ClampedField(s, action, joint, ActionKeys[t]).value]
  {
  }

  /** A field that fails after `t` resolved ones is the joint's first failing field. */
  lemma RowFails(s: Servos, action: EnvAction, joint: Joint, t: nat)
    requires TablesComplete(s)
    requires t < |ActionKeys| && KeysResolve(s, action, joint, t)
    requires Resolve(s, action, joint, ActionKeys[t]).Err?
    ensures var e := Resolve(s, action, joint, ActionKeys[t]).error;
      && !(forall k: Key :: Resolve(s, action, joint, k).Ok?)
      && e.joint == joint && Resolve(s, action, joint, e.key).Err?
      && (forall k: Key :: KeyIndex(k) < KeyIndex(e.key) ==> Resolve(s, action, joint, k).Ok?)
  {
    KeyIndexOfNth(t);
    KeysResolveBelow(s, action, joint, t);
  }

  /** One joint's pass of the translator: its fields in order, stopping at
      the first one that cannot be resolved. */
  method JointCommand(s: Servos, action: EnvAction, joint: Joint) returns (r: Result<map<string, real>, ActionError>)
    requires TablesComplete(s)
    ensures r.Ok? <==> forall k: Key :: Resolve(s, action, joint, k).Ok?
    ensures r.Ok? ==> r.value == CommandRow(s, action, joint)
    ensures r.Err? ==> r.error.joint == joint && Resolve(s, action, joint, r.error.key).Err?
    ensures r.Err? ==> forall k: Key :: KeyIndex(k) < KeyIndex(r.error.key) ==> Resolve(s, action, joint, k).Ok?
  {
    var servoAction: map<string, real> := map[];
    var t := 0;
    while t < |ActionKeys|
      invariant 0 <= t <= |ActionKeys|
      invariant KeysResolve(s, action, joint, t)
      invariant servoAction == RowThrough(s, action, joint, t)
    {
      var key := ActionKeys[t];
      var value := Resolve(s, action, joint, key);
      if value.Err? {
        RowFails(s, action, joint, t);
        r := Err(value.error);
        return;
      }
      var c := ClampedField(s, action, joint, key);
      RowStep(s, action, joint, t);
      servoAction := servoAction[KeyName(key) := c.value];
      t := t + 1;
    }
    RowAssembled(s, action, joint);
    r := Ok(servoAction);
  }

  /** The row through `t` holds field `k` exactly when `k` is among the first `t` fields. */
  lemma {:induction false} RowThroughHas(s: Servos, action: EnvAction, joint: Joint, t: nat, k: Key)
    requires TablesComplete(s)
    requires t <= |ActionKeys| && KeysResolve(s, action, joint, t)
    ensures KeyName(k) in RowThrough(s, action, joint, t) <==> KeyIndex(k) < t
    decreases t
  {
    if t > 0 {
      RowThroughHas(s, action, joint, t - 1, k);
      KeyIndexOfNth(t - 1);
      KeyNamesInjective();
    }
  }

  /** A field among the first `t` holds its clamped value in the row through `t`. */
  lemma {:induction false} RowThroughAt(s: Servos, action: EnvAction, joint: Joint, t: nat, k: Key)
    requires TablesComplete(s)
    requires t <= |ActionKeys| && KeysResolve(s, action, joint, t)
    requires KeyIndex(k) < t
    ensures Resolve(s, action, joint, k).Ok?
    ensures KeyName(k) in RowThrough(s, action, joint, t)
    ensures RowThrough(s, action, joint, t)[KeyName(k)] == ClampedField(s, action, joint, k).value
    decreases t
  {
    RowThroughHas(s, action, joint, t, k);
    KeyIndexOfNth(t - 1);
    if KeyIndex(k) < t - 1 {
      RowThroughAt(s, action, joint, t - 1, k);
      KeyNamesInjective();
      assert KeyName(k) != KeyName(ActionKeys[t - 1]);
    } else {
      assert k == ActionKeys[t - 1];
    }
  }

  /** The row through `t` has no key other than field names. */
  lemma {:induction false} RowThroughNames(s: Servos, action: EnvAction, joint: Joint, t: nat)
    requires TablesComplete(s)
    requires t <= |ActionKeys| && KeysResolve(s, action, joint, t)
    ensures RowThrough(s, action, joint, t).Keys <= ActionKeyNameSet
    decreases t
  {
    if t > 0 {
      RowThroughNames(s, action, joint, t - 1);
      assert ActionKeyNames[t - 1] in ActionKeyNameSet;
      OrdersAgree();
    }
  }

  /** Once all six fields are written, the row is the joint's command row. */
  lemma RowAssembled(s: Servos, action: EnvAction, joint: Joint)
    requires TablesComplete(s)
    requires KeysResolve(s, action, joint, |ActionKeys|)
    ensures forall k: Key :: Resolve(s, action, joint, k).Ok?
    ensures RowThrough(s, action, joint, |ActionKeys|) == CommandRow(s, action, joint)
  {
    forall k: Key ensures Resolve(s, action, joint, k).Ok? {
      assert ActionKeys[KeyIndex(k)] == k;
    }
    var row := RowThrough(s, action, joint, |ActionKeys|);
    var c := CommandRow(s, action, joint);
    RowThroughNames(s, action, joint, |ActionKeys|);
    forall n | n in ActionKeyNameSet ensures n in row && row[n] == c[n] {
      RowThroughAt(s, action, joint, |ActionKeys|, ParseKey(n).value);
    }
  }

  /** Writing joint `i` extends the servo part through `i` to the one through `i + 1`. */
  lemma ServoStep(s: Servos, action: EnvAction, i: nat)
    requires TablesComplete(s)
    requires i < |Joints| && JointsResolve(s, action, i)
    requires forall k: Key :: Resolve(s, action, Joints[i], k).Ok?
    ensures JointsResolve(s, action, i + 1)
    ensures ServoThrough(s, action, i + 1)
         == ServoThrough(s, action, i)[JointName(Joints[i]) := CommandRow(s, action, Joints[i])]
  {
  }

  /** The servo part through `i` holds joint `j` exactly when `j` is among the first `i` joints. */
  lemma {:induction false} ServoThroughHas(s: Servos, action: EnvAction, i: nat, j: Joint)
    requires TablesComplete(s)
    requires i <= |Joints| && JointsResolve(s, action, i)
    ensures JointName(j) in ServoThrough(s, action, i) <==> JointIndex(j) < i
    decreases i
  {
    if i > 0 {
      ServoThroughHas(s, action, i - 1, j);
      JointIndexOfNth(i - 1);
      JointNamesBijective();
    }
  }

  /** A joint among the first `i` holds its command row in the servo part through `i`. */
  lemma {:induction false} ServoThroughAt(s: Servos, action: EnvAction, i: nat, j: Joint)
    requires TablesComplete(s)
    requires i <= |Joints| && JointsResolve(s, action, i)
    requires JointIndex(j) < i
    ensures forall k: Key :: Resolve(s, action, j, k).Ok?
    ensures JointName(j) in ServoThrough(s, action, i)
    ensures ServoThrough(s, action, i)[JointName(j)] == CommandRow(s, action, j)
    decreases i
  {
    ServoThroughHas(s, action, i, j);
    JointIndexOfNth(i - 1);
    if JointIndex(j) < i - 1 {
      ServoThroughAt(s, action, i - 1, j);
      JointNamesBijective();
      assert JointName(j) != JointName(Joints[i - 1]);
    } else {
      assert j == Joints[i - 1];
    }
  }

  /** The servo part through `i` has no key other than joint names. */
  lemma {:induction false} ServoThroughNames(s: Servos, action: EnvAction, i: nat)
    requires TablesComplete(s)
    requires i <= |Joints| && JointsResolve(s, action, i)
    ensures ServoThrough(s, action, i).Keys <= JointNameSet
    decreases i
  {
    if i > 0 {
      ServoThroughNames(s, action, i - 1);
      assert JointNames[i - 1] in JointNameSet;
      OrdersAgree();
    }
  }

  /** Once all six joints are written, the servo part is the reference command's. */
  lemma ServoAssembled(s: Servos, action: EnvAction)
    requires TablesComplete(s)
    requires JointsResolve(s, action, |Joints|)
    ensures Resolvable(s, action)
    ensures map["servo" := ServoThrough(s, action, |Joints|)] == Command(s, action)
  {
    forall j: Joint, k: Key ensures Resolve(s, action, j, k).Ok? {
      assert Joints[JointIndex(j)] == j;
    }
    var servo := ServoThrough(s, action, |Joints|);
    var c := Command(s, action)["servo"];
    ServoThroughNames(s, action, |Joints|);
    forall n | n in JointNameSet ensures n in servo && servo[n] == c[n] {
      ServoThroughAt(s, action, |Joints|, ParseJoint(n).value);
    }
    assert servo == c;
  }

  /** The translator: joints in the environment's order, fields in the
      environment's order, each field resolved and clamped; stops with an
      `ActionError` at the first field that cannot be resolved, so no partial
      command is ever returned. */
  method GetSpineAction(s: Servos, action: EnvAction) returns (r: Result<SpineCommand, ActionError>)
    requires TablesComplete(s)
    ensures r.Ok? <==> Resolvable(s, action)
    ensures r.Ok? ==> r.value == Command(s, action)
    ensures r.Err? ==> Resolve(s, action, r.error.joint, r.error.key).Err?
    ensures r.Err? ==> forall j: Joint, k: Key ::
              Precedes(j, k, r.error.joint, r.error.key) ==> Resolve(s, action, j, k).Ok?
  {
    var servo: map<string, map<string, real>> := map[];
    var i := 0;
    while i < |Joints|
      invariant 0 <= i <= |Joints|
      invariant JointsResolve(s, action, i)
      invariant servo == ServoThrough(s, action, i)
    {
      var joint := Joints[i];
      var row := JointCommand(s, action, joint);
      if row.Err? {
        JointIndexOfNth(i);
        r := Err(row.error);
        return;
      }
      ServoStep(s, action, i);
      servo := servo[JointName(joint) := row.value];
      i := i + 1;
    }
    ServoAssembled(s, action);
    r := Ok(map["servo" := servo]);
  }
}
