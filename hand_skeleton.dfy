/**
 * The hand-joint cache of WebXRController: a dictionary from joint index to a
 * joint node, grown the first time an enabled joint is seen and updated in
 * place afterwards, and the guarded switch that shows or hides every cached
 * node.
 *
 * The pose arithmetic is not modelled: it enters as a JointGeometry, two
 * uninterpreted functions fixed for the duration of one joint loop.
 */
module HandSkeleton {
  import opened Common

  /** WebXRHandData.LITTLE_PHALANX_TIP: the last joint index of a WebXR hand. */
  const LITTLE_PHALANX_TIP: nat := 24
  /** Number of joints in a hand snapshot (indices 0 .. LITTLE_PHALANX_TIP). */
  const JOINT_COUNT: nat := LITTLE_PHALANX_TIP + 1
  /** Scale of a new node whose joint reports no positive radius. */
  const DEFAULT_JOINT_SCALE: real := 0.005

  /** WebXRJointData. */
  datatype JointPose = JointPose(enabled: bool, position: Vec3, rotation: Quat, radius: real)

  /** A joint's pose relative to the wrist. */
  datatype LocalPose = LocalPose(position: Vec3, rotation: Quat)

  /** The instantiated joint Transform: local pose, uniform scale, and its GameObject's active flag. */
  datatype JointNode = JointNode(localPosition: Vec3, localRotation: Quat, localScale: real, active: bool)

  type Joints = map<int, JointNode>

  /**
   * The pose arithmetic of one joint loop. `localize(wrist, joint)` is the
   * wrist-relative pose (the inverse wrist rotation applied to the joint's
   * offset and rotation); an existing node takes it as its local pose.
   * A new node is instantiated with that same pose as its WORLD pose under
   * the controller's transform; `placeNew(p)` is the local pose the node then
   * has, which depends on the transform's current world pose.
   */
  datatype JointGeometry = JointGeometry(localize: (JointPose, JointPose) -> LocalPose,
                                         placeNew: LocalPose -> LocalPose)

  /** The uniform scale given to a newly created node. */
  function JointScale(radius: real): (s: real)
    ensures s > 0.0
    ensures s == radius || s == DEFAULT_JOINT_SCALE
    ensures s == radius <==> radius > 0.0
  {
    if radius > 0.0 then radius else DEFAULT_JOINT_SCALE
  }

  /**
   * One iteration of the joint loop for joint index i: a disabled joint
   * changes nothing, an enabled one updates or adds exactly key i.
   */
  function CacheJoint(cache: Joints, i: int, wrist: JointPose, joint: JointPose,
                      geo: JointGeometry, prefabActive: bool): (r: Joints)
    ensures !joint.enabled ==> r == cache
    ensures joint.enabled ==> r.Keys == cache.Keys + {i}
    ensures forall k :: k in cache && k != i ==> r[k] == cache[k]
  {
    if !joint.enabled then cache
    else
      var local := geo.localize(wrist, joint);
      if i in cache then
        cache[i := cache[i].(localPosition := local.position, localRotation := local.rotation)]
      else
        var placed := geo.placeNew(local);
        cache[i := JointNode(placed.position, placed.rotation, JointScale(joint.radius), prefabActive)]
  }

  /** The joint loop over indices 0 .. n-1 (the wrist, index 0, included). */
  function UpdateJoints(cache: Joints, joints: seq<JointPose>, n: nat,
                        geo: JointGeometry, prefabActive: bool): (r: Joints)
    requires 0 < |joints| && n <= |joints|
    ensures cache.Keys <= r.Keys
    decreases n
  {
    if n == 0 then cache
    else CacheJoint(UpdateJoints(cache, joints, n - 1, geo, prefabActive), n - 1, joints[0], joints[n - 1], geo, prefabActive)
  }

  /**
   * What the joint loop does. Keys grow by exactly the enabled indices below
   * n (so the cache never shrinks and gains no other key). An enabled joint's
   * existing node takes the wrist-relative pose and keeps its scale and
   * active flag; a new node gets the placement of that pose,
   * JointScale(radius) and the prefab's active flag. Every other node is
   * untouched.
   */
  lemma {:induction false} JointLoopEffect(cache: Joints, joints: seq<JointPose>, n: nat,
                                           geo: JointGeometry, prefabActive: bool)
    requires 0 < |joints| && n <= |joints|
    ensures var r := UpdateJoints(cache, joints, n, geo, prefabActive);
      && (forall k :: k in r <==> k in cache || (0 <= k < n && joints[k].enabled))
      && (forall i :: 0 <= i < n && joints[i].enabled ==>
            && (var p := if i in cache then geo.localize(joints[0], joints[i])
                         else geo.placeNew(geo.localize(joints[0], joints[i]));
                r[i].localPosition == p.position && r[i].localRotation == p.rotation)
            && r[i].localScale == (if i in cache then cache[i].localScale else JointScale(joints[i].radius))
            && r[i].active == (if i in cache then cache[i].active else prefabActive))
      && (forall k :: k in cache && !(0 <= k < n && joints[k].enabled) ==> r[k] == cache[k])
  {
    forall k {
      JointLoopAt(cache, joints, n, geo, prefabActive, k);
    }
  }

  /** JointLoopEffect for a single key k, by induction on the number of iterations. */
  lemma {:induction false} JointLoopAt(cache: Joints, joints: seq<JointPose>, n: nat,
                                       geo: JointGeometry, prefabActive: bool, k: int)
    requires 0 < |joints| && n <= |joints|
    ensures var r := UpdateJoints(cache, joints, n, geo, prefabActive);
      && (k in r <==> k in cache || (0 <= k < n && joints[k].enabled))
      && (0 <= k < n && joints[k].enabled ==>
            && (var p := if k in cache then geo.localize(joints[0], joints[k])
                         else geo.placeNew(geo.localize(joints[0], joints[k]));
                r[k].localPosition == p.position && r[k].localRotation == p.rotation)
            && r[k].localScale == (if k in cache then cache[k].localScale else JointScale(joints[k].radius))
            && r[k].active == (if k in cache then cache[k].active else prefabActive))
      && (k in cache && !(0 <= k < n && joints[k].enabled) ==> r[k] == cache[k])
    decreases n
  {
    if n > 0 {
      JointLoopAt(cache, joints, n - 1, geo, prefabActive, k);
    }
  }

  /**
   * Re-sending the same snapshot adds no node: the second pass only updates,
   * so afterwards every enabled joint's node sits at its wrist-relative pose,
   * including the nodes the first pass created at their placement.
   */
  lemma ResendAddsNoNode(cache: Joints, joints: seq<JointPose>, n: nat,
                         geo: JointGeometry, prefabActive: bool)
    requires 0 < |joints| && n <= |joints|
    ensures var once := UpdateJoints(cache, joints, n, geo, prefabActive);
            var twice := UpdateJoints(once, joints, n, geo, prefabActive);
            && twice.Keys == once.Keys
            && forall i :: 0 <= i < n && joints[i].enabled ==>
                 i in twice &&
                 twice[i].localPosition == geo.localize(joints[0], joints[i]).position &&
                 twice[i].localRotation == geo.localize(joints[0], joints[i]).rotation
  {
    var once := UpdateJoints(cache, joints, n, geo, prefabActive);
    var twice := UpdateJoints(once, joints, n, geo, prefabActive);
    JointLoopEffect(cache, joints, n, geo, prefabActive);
    JointLoopEffect(once, joints, n, geo, prefabActive);
    assert forall k :: k in twice <==> k in once;
  }

  /** A set of indices all below n has at most n members. */
  lemma {:induction false} IndexSetBounded(s: set<int>, n: nat)
    requires forall k :: k in s ==> 0 <= k < n
    ensures |s| <= n
    decreases n
  {
    if n == 0 {
      assert forall k :: k !in s;
      assert s == {};
    } else {
      IndexSetBounded(s - {n - 1}, n - 1);
    }
  }

  /**
   * The cache is an arena of bounded size: starting from joint indices only,
   * it never holds more than JOINT_COUNT nodes however many snapshots arrive.
   */
  lemma CacheBounded(cache: Joints, joints: seq<JointPose>,
                     geo: JointGeometry, prefabActive: bool)
    requires |joints| == JOINT_COUNT
    requires forall k :: k in cache ==> 0 <= k < JOINT_COUNT
    ensures var r := UpdateJoints(cache, joints, JOINT_COUNT, geo, prefabActive);
            (forall k :: k in r ==> 0 <= k < JOINT_COUNT) && |r.Keys| <= JOINT_COUNT
  {
    var r := UpdateJoints(cache, joints, JOINT_COUNT, geo, prefabActive);
    JointLoopEffect(cache, joints, JOINT_COUNT, geo, prefabActive);
    IndexSetBounded(r.Keys, JOINT_COUNT);
  }

  /** A member of a non-empty index set. */
  lemma SomeIndex(s: set<int>) returns (k: int)
    requires s != {}
    ensures k in s
  {
    if forall j :: j !in s {
      assert false;
    }
    k :| k in s;
  }

  /** Every node's active flag is v. */
  ghost predicate AllActive(nodes: Joints, v: bool)
  {
    forall k :: k in nodes ==> nodes[k].active == v
  }

  /** If every cached node and the prefab have the same active flag, so does every node after an update. */
  lemma {:induction false} UpdateKeepsAllActive(cache: Joints, joints: seq<JointPose>, n: nat,
                                               geo: JointGeometry, v: bool)
    requires 0 < |joints| && n <= |joints|
    requires AllActive(cache, v)
    ensures AllActive(UpdateJoints(cache, joints, n, geo, v), v)
  {
    JointLoopEffect(cache, joints, n, geo, v);
  }

  /** The `foreach` of SetHandJointsVisible: every node gets active flag v, nothing else changes. */
  function SetAllActive(nodes: Joints, v: bool): (r: Joints)
    ensures r.Keys == nodes.Keys
    ensures AllActive(r, v)
    ensures forall k :: k in nodes ==> r[k].(active := nodes[k].active) == nodes[k]
  {
    map k | k in nodes :: nodes[k].(active := v)
  }

  /** The cached nodes together with the handJointsVisible flag. */
  datatype JointSet = JointSet(nodes: Joints, visible: bool)

  /**
   * SetHandJointsVisible: when the request equals the stored flag nothing is
   * written; otherwise the flag is stored and every cached node takes it.
   */
  function SetHandJointsVisible(s: JointSet, visible: bool): (r: JointSet)
    ensures r.visible == visible && r.nodes.Keys == s.nodes.Keys
    ensures visible == s.visible ==> r == s
    ensures visible != s.visible ==> AllActive(r.nodes, visible)
    ensures forall k :: k in s.nodes ==> r.nodes[k].(active := s.nodes[k].active) == s.nodes[k]
  {
    if s.visible == visible then s
    else JointSet(SetAllActive(s.nodes, visible), visible)
  }

  /**
   * What the hand handlers keep true of the cache: it holds joint indices
   * only, and when new nodes start active (the prefab is active) every node
   * is shown exactly when the stored flag says so.
   */
  ghost predicate JointInvariant(s: JointSet, prefabActive: bool)
  {
    && (forall k :: k in s.nodes ==> 0 <= k < JOINT_COUNT)
    && (prefabActive ==> AllActive(s.nodes, s.visible))
  }

  /** A disabled hand snapshot (hiding the joints) keeps the invariant. */
  lemma HideKeepsInvariant(s: JointSet, prefabActive: bool)
    requires JointInvariant(s, prefabActive)
    ensures JointInvariant(SetHandJointsVisible(s, false), prefabActive)
  {
  }

  /**
   * An enabled hand snapshot (showing the joints, then running the joint
   * loop) keeps the invariant, and leaves the flag set.
   */
  lemma ShowAndUpdateKeepsInvariant(s: JointSet, joints: seq<JointPose>,
                                    geo: JointGeometry, prefabActive: bool)
    requires |joints| == JOINT_COUNT
    requires JointInvariant(s, prefabActive)
    ensures var shown := SetHandJointsVisible(s, true);
            JointInvariant(JointSet(UpdateJoints(shown.nodes, joints, JOINT_COUNT, geo, prefabActive), true), prefabActive)
  {
    var shown := SetHandJointsVisible(s, true);
    if prefabActive {
      GuardOnlySavesWrites(s, true);
      UpdateKeepsAllActive(shown.nodes, joints, JOINT_COUNT, geo, true);
    }
    JointLoopEffect(shown.nodes, joints, JOINT_COUNT, geo, prefabActive);
  }

  /** Two identical calls in a row equal one call. */
  lemma SetHandJointsVisibleIdempotent(s: JointSet, visible: bool)
    ensures SetHandJointsVisible(SetHandJointsVisible(s, visible), visible) == SetHandJointsVisible(s, visible)
  {
  }

  /**
   * The guard only saves writes: while every node agrees with the stored flag,
   * the guarded call leaves the nodes exactly as the unguarded loop would.
   */
  lemma GuardOnlySavesWrites(s: JointSet, visible: bool)
    requires AllActive(s.nodes, s.visible)
    ensures SetHandJointsVisible(s, visible).nodes == SetAllActive(s.nodes, visible)
    ensures AllActive(SetHandJointsVisible(s, visible).nodes, visible)
  {
    if s.visible == visible {
      assert forall k :: k in s.nodes ==> SetAllActive(s.nodes, visible)[k] == s.nodes[k];
    }
  }
}
