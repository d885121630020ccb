/**
  The parts of the scene model that the writer and the environment info touch.

  The scene itself (links, geometry, kinematics) lies outside this model:
  it appears only as the structural info records below, whose remaining
  fields are carried as opaque key/value pairs, and as the mutable state a
  body exposes (DOF values and root transform). `dReal` values are carried
  as `real` and never computed with; they are only copied and compared.
 */
module Scene {
  import opened Wrappers

  /** Structural fields of an info record that this model only carries along. */
  type Details = seq<(string, string)>

  /** Root pose: a rotation quaternion and a translation. */
  datatype Transform = Transform(rot: (real, real, real, real), trans: (real, real, real))

  /** The identity pose, `Transform()` in the source. */
  const Identity := Transform((1.0, 0.0, 0.0, 0.0), (0.0, 0.0, 0.0))

  /** The fields of `KinBody::KinBodyInfo` that the writer and the merge read or write. */
  datatype KinBodyInfo = KinBodyInfo(id: string, name: string, referenceUri: string, details: Details)

  /** A robot's connected body: its name and the URI it is loaded from. */
  datatype ConnectedBodyInfo = ConnectedBodyInfo(name: string, uri: string)

  /** What `RobotBase::RobotBaseInfo` adds to `KinBodyInfo`. */
  datatype RobotExtras = RobotExtras(connectedBodies: seq<ConnectedBodyInfo>, details: Details)

  /**
    A body info record. `robot` is present exactly when the record is a
    `RobotBaseInfo`, the dynamic type the source tests with a pointer cast.
   */
  datatype BodyInfo = BodyInfo(base: KinBodyInfo, robot: Option<RobotExtras>) {
    predicate IsRobot() { robot.Some? }
  }

  /** A default-constructed `KinBodyInfo`. */
  const DefaultKinBodyInfo := KinBodyInfo([], [], [], [])

  /** The extras of a default-constructed `RobotBaseInfo`. */
  const DefaultRobotExtras := RobotExtras([], [])

  /** A joint: its name, the index of its first DOF in the body, and how many DOFs it owns. */
  datatype Joint = Joint(name: string, dofIndex: nat, dof: nat) {
    predicate OwnsDof(i: nat) { dofIndex <= i < dofIndex + dof }
  }

  /** The mutable state `KinBodyStateSaver` captures: DOF values and root pose. */
  datatype BodyState = BodyState(dofValues: seq<real>, transform: Transform)

  /** A grab relation held by a body. */
  datatype GrabbedInfo = GrabbedInfo(grabbedName: string, details: Details)

  /** The environment a body belongs to; `unit` is what `GetUnit` returns. */
  datatype EnvRef = EnvRef(id: nat, unit: (string, real))

  /** A live scene member: a plain body or, when `isRobot`, a robot. */
  datatype KinBody = KinBody(
    env: EnvRef,
    isRobot: bool,
    joints: seq<Joint>,
    state: BodyState,
    grabbed: seq<GrabbedInfo>)
  {
    function Dof(): nat { |state.dofValues| }

    /** Some joint owns DOF `i`. */
    ghost predicate HasOwner(i: nat) {
      exists k :: 0 <= k < |joints| && joints[k].OwnsDof(i)
    }

    /** Every DOF index is owned by some joint: `GetJointFromDOFIndex` never fails. */
    ghost predicate DofsCovered() {
      forall i: nat :: i < Dof() ==> HasOwner(i)
    }
  }

  /** `GetJointFromDOFIndex`: the first joint that owns DOF `i`. */
  function JointOfDof(joints: seq<Joint>, i: nat): (r: Option<Joint>)
    ensures r.Some? ==> r.value in joints && r.value.OwnsDof(i)
    ensures r.None? ==> forall k :: 0 <= k < |joints| ==> !joints[k].OwnsDof(i)
  {
    if |joints| == 0 then None
    else if joints[0].OwnsDof(i) then Some(joints[0])
    else
      var r := JointOfDof(joints[1..], i);
      assert forall k :: 0 < k < |joints| ==> joints[k] == joints[1..][k - 1];
      r
  }
}
