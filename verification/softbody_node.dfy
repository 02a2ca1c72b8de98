/**
 * A soft-body node: a record whose setters are guarded by the node type. A static node can be
 * moved by hand but never has a velocity or an accumulated force; a dynamic node is driven by
 * the forces applied to it. Every operation is a pure transition from one node state to the next.
 */
module SoftBodyNode {
  import opened Geometry

  datatype NodeType = Static | Dynamic

  /** The node's contact with a rigid body; only `active` is touched by the node itself. */
  datatype BodyContact = BodyContact(
    shape: nat,
    normal1: Vec3,
    localPoint1: Vec3,
    localPoint2: Vec3,
    normalImpulse: real,
    t1: Vec3,
    t2: Vec3,
    tangentImpulse: (real, real),
    active: bool)

  /** `userData`, `body` and the contact's `shape` are handles standing for the C++ `b3SoftBodyNode`'s pointers. */
  datatype Node = Node(
    nodeType: NodeType,
    position: Vec3,
    velocity: Vec3,
    force: Vec3,
    mass: real,
    invMass: real,
    radius: real,
    friction: real,
    userData: nat,
    vertex: nat,
    bodyContact: BodyContact,
    body: nat)

  /** A static node is at rest: no velocity and no pending force. */
  predicate AtRest(n: Node) {
    n.nodeType == Static ==> n.velocity == Zero && n.force == Zero
  }

  /**
   * Changing the type clears the accumulated force and deactivates the body contact; becoming
   * static also stops the node. Setting the type a node already has changes nothing.
   */
  function SetType(n: Node, t: NodeType): (r: Node)
    ensures r.nodeType == t
    ensures n.nodeType == t ==> r == n
    ensures n.nodeType != t ==> r.force == Zero && !r.bodyContact.active
    ensures n.nodeType != t && t == Static ==> r.velocity == Zero
    ensures t == Dynamic ==> r.velocity == n.velocity
    ensures r.(nodeType := n.nodeType, force := n.force, velocity := n.velocity,
               bodyContact := r.bodyContact.(active := n.bodyContact.active)) == n
  {
    if n.nodeType == t then n
    else
      var stopped := if t == Static then Zero else n.velocity;
      n.(nodeType := t, force := Zero, velocity := stopped,
         bodyContact := n.bodyContact.(active := false))
  }

  function GetType(n: Node): NodeType { n.nodeType }

  function GetVertex(n: Node): nat { n.vertex }

  function GetPosition(n: Node): Vec3 { n.position }

  function GetVelocity(n: Node): Vec3 { n.velocity }

  function GetMass(n: Node): real { n.mass }

  function GetRadius(n: Node): real { n.radius }

  function GetFriction(n: Node): real { n.friction }

  /** Moves the node whatever its type; nothing else changes. */
  function SetPosition(n: Node, p: Vec3): (r: Node)
    ensures GetPosition(r) == p
    ensures r.(position := n.position) == n
  {
    n.(position := p)
  }

  /** Ignored by a static node; a dynamic node takes the new velocity and nothing else changes. */
  function SetVelocity(n: Node, v: Vec3): (r: Node)
    ensures n.nodeType == Static ==> r == n
    ensures n.nodeType == Dynamic ==> GetVelocity(r) == v && r.(velocity := n.velocity) == n
  {
    if n.nodeType == Static then n else n.(velocity := v)
  }

  /** Sets the radius whatever the type; nothing else changes. */
  function SetRadius(n: Node, radius: real): (r: Node)
    ensures GetRadius(r) == radius
    ensures r.(radius := n.radius) == n
  {
    n.(radius := radius)
  }

  /** Sets the friction coefficient whatever the type; nothing else changes. */
  function SetFriction(n: Node, friction: real): (r: Node)
    ensures GetFriction(r) == friction
    ensures r.(friction := n.friction) == n
  {
    n.(friction := friction)
  }

  /** Ignored unless the node is dynamic; a dynamic node adds `f` to its accumulated force. */
  function ApplyForce(n: Node, f: Vec3): (r: Node)
    ensures n.nodeType != Dynamic ==> r == n
    ensures n.nodeType == Dynamic ==> r.force == Add(n.force, f) && r.(force := n.force) == n
  {
    if n.nodeType != Dynamic then n else n.(force := Add(n.force, f))
  }

  /** Every state-changing operation of the node's interface. */
  datatype NodeOp =
    | SetTypeOp(t: NodeType)
    | SetPositionOp(p: Vec3)
    | SetVelocityOp(v: Vec3)
    | SetRadiusOp(radius: real)
    | SetFrictionOp(friction: real)
    | ApplyForceOp(f: Vec3)

  function Apply(n: Node, op: NodeOp): Node {
    match op
    case SetTypeOp(t) => SetType(n, t)
    case SetPositionOp(p) => SetPosition(n, p)
    case SetVelocityOp(v) => SetVelocity(n, v)
    case SetRadiusOp(radius) => SetRadius(n, radius)
    case SetFrictionOp(friction) => SetFriction(n, friction)
    case ApplyForceOp(f) => ApplyForce(n, f)
  }

  function ApplyAll(n: Node, ops: seq<NodeOp>): Node
    decreases |ops|
  {
    if |ops| == 0 then n else ApplyAll(Apply(n, ops[0]), ops[1..])
  }

  /** Turning a dynamic node static brings it to rest. */
  lemma BecomingStaticRests(n: Node)
    requires n.nodeType == Dynamic
    ensures AtRest(SetType(n, Static))
  {
  }

  /** No single operation can give a resting static node a velocity or a force. */
  lemma ApplyKeepsAtRest(n: Node, op: NodeOp)
    requires AtRest(n)
    ensures AtRest(Apply(n, op))
  {
  }

  /** Once at rest, a node stays at rest under any sequence of operations. */
  lemma {:induction false} ApplyAllKeepsAtRest(n: Node, ops: seq<NodeOp>)
    requires AtRest(n)
    ensures AtRest(ApplyAll(n, ops))
    decreases |ops|
  {
    if |ops| > 0 {
      ApplyKeepsAtRest(n, ops[0]);
      ApplyAllKeepsAtRest(Apply(n, ops[0]), ops[1..]);
    }
  }

  /** Applying two forces one after the other is applying their sum. */
  lemma ApplyForceAdditive(n: Node, f: Vec3, g: Vec3)
    ensures ApplyForce(ApplyForce(n, f), g) == ApplyForce(n, Add(f, g))
  {
  }

  function ApplyForces(n: Node, fs: seq<Vec3>): Node
    decreases |fs|
  {
    if |fs| == 0 then n else ApplyForces(ApplyForce(n, fs[0]), fs[1..])
  }

  /** Applying a batch of forces one by one is applying their total once. */
  lemma {:induction false} ApplyForcesIsSum(n: Node, fs: seq<Vec3>)
    ensures ApplyForces(n, fs) == ApplyForce(n, Sum(fs))
    decreases |fs|
  {
    if |fs| == 0 {
      assert Sum(fs) == Zero;
    } else {
      ApplyForcesIsSum(ApplyForce(n, fs[0]), fs[1..]);
      ApplyForceAdditive(n, fs[0], Sum(fs[1..]));
    }
  }

  /** Setting the type twice is setting it once. */
  lemma SetTypeIdempotent(n: Node, t: NodeType)
    ensures SetType(SetType(n, t), t) == SetType(n, t)
  {
  }
}
