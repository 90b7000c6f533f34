/**
 * The pose computed by Model::CalculateBoneTransform: a depth-first walk of
 * the node tree that composes each node's local transform with its parent's
 * global transform and writes `global * offset` into the slot of every
 * registered bone.
 *
 * The walk is described by the sequence of nodes it visits, in order, each
 * with its global transform (`Visits`); the pose buffer is what writing those
 * visits into it, one after another, leaves behind (`WritePose`).
 */
module Pose {
  import opened Common
  import opened Transform
  import opened Keyframes
  import opened BoneRegistry

  /** aiNode: its name, its rest transform (mTransformation) and its children, in order. */
  datatype Node = Node(name: string, transformation: Mat4, children: seq<Node>)

  /** One node reached by the walk, with the global transform computed for it. */
  datatype Visit = Visit(name: string, global: Mat4)

  /** `translation * rotation * scale` built from a channel sampled at `t`. */
  function ChannelTransform(t: real, c: NodeAnim): Mat4
    requires WellFormedChannel(c)
  {
    Mul(Mul(InterpolateTranslation(t, c), InterpolateRotation(t, c)), InterpolateScaling(t, c))
  }

  /**
   * The local transform of a node: its rest transform when no channel animates
   * it, otherwise T * R * S from the first channel with its name.
   */
  function LocalTransform(node: Node, animation: Animation, t: real): Mat4
    requires WellFormedAnimation(animation)
  {
    match FindNodeAnim(animation, node.name)
    case None => node.transformation
    case Some(i) => ChannelTransform(t, animation.channels[i])
  }

  /** Which transform LocalTransform picks: the rest one without a channel, else the first channel's. */
  lemma LocalTransformChoice(node: Node, animation: Animation, t: real)
    requires WellFormedAnimation(animation)
    ensures (forall j :: 0 <= j < |animation.channels| ==> animation.channels[j].nodeName != node.name) ==>
              LocalTransform(node, animation, t) == node.transformation
    ensures forall i :: 0 <= i < |animation.channels| && animation.channels[i].nodeName == node.name &&
                        (forall j :: 0 <= j < i ==> animation.channels[j].nodeName != node.name) ==>
              LocalTransform(node, animation, t) == ChannelTransform(t, animation.channels[i])
  {
    var found := FindNodeAnim(animation, node.name);
    forall i | 0 <= i < |animation.channels| && animation.channels[i].nodeName == node.name &&
               (forall j :: 0 <= j < i ==> animation.channels[j].nodeName != node.name)
      ensures LocalTransform(node, animation, t) == ChannelTransform(t, animation.channels[i])
    {
      assert found.Some?;
      assert found.value == i;
    }
  }

  /** The number of nodes in the tree under `node`, itself included. */
  function NodeCount(node: Node): nat
    decreases node, 1
  {
    1 + ChildrenNodeCount(node, |node.children|)
  }

  /** The number of nodes in the trees under the first `k` children of `node`. */
  function ChildrenNodeCount(node: Node, k: nat): nat
    requires k <= |node.children|
    decreases node, 0, k
  {
    if k == 0 then 0 else ChildrenNodeCount(node, k - 1) + NodeCount(node.children[k - 1])
  }

  /**
   * The visits of CalculateBoneTransform(node, animation, t, parent): the node
   * itself, with global transform `parent * local`, then the visits of each of
   * its children in order, each started from that global transform. The walk
   * starts at the node and makes one visit per node of its tree.
   */
  function Visits(node: Node, animation: Animation, t: real, parent: Mat4): (r: seq<Visit>)
    requires WellFormedAnimation(animation)
    ensures |r| == NodeCount(node) && r[0].name == node.name
    decreases node, 1, 0
  {
    var global := Mul(parent, LocalTransform(node, animation, t));
    [Visit(node.name, global)] + ChildVisits(node, |node.children|, animation, t, global)
  }

  /** The visits of the first `k` children of `node`, each started from `global`: one per node of their trees. */
  function ChildVisits(node: Node, k: nat, animation: Animation, t: real, global: Mat4): (r: seq<Visit>)
    requires WellFormedAnimation(animation)
    requires k <= |node.children|
    ensures |r| == ChildrenNodeCount(node, k)
    decreases node, 0, k
  {
    if k == 0 then []
    else ChildVisits(node, k - 1, animation, t, global) + Visits(node.children[k - 1], animation, t, global)
  }

  /** Every registered bone has a slot in a buffer of `n` slots. */
  predicate IdsBelow(bones: map<string, BoneInfo>, n: nat)
  {
    forall name :: name in bones ==> 0 <= bones[name].id < n
  }

  /**
   * The pose buffer after the visits: each visited registered bone, in visit
   * order, overwrites its slot with `global * offset`; nothing else is written.
   */
  function WritePose(slots: seq<Mat4>, visits: seq<Visit>, bones: map<string, BoneInfo>): (r: seq<Mat4>)
    requires IdsBelow(bones, |slots|)
    ensures |r| == |slots|
    decreases |visits|
  {
    if visits == [] then slots
    else
      var s := WritePose(slots, visits[..|visits| - 1], bones);
      var v := visits[|visits| - 1];
      if v.name in bones then s[bones[v.name].id := Mul(v.global, bones[v.name].offset)] else s
  }

  // ---------------------------------------------------------------------------
  // Properties of writing the pose

  /** Writing two runs of visits is writing the first, then the second. */
  lemma {:induction false} WritePoseAppend(slots: seq<Mat4>, a: seq<Visit>, b: seq<Visit>, bones: map<string, BoneInfo>)
    requires IdsBelow(bones, |slots|)
    ensures WritePose(slots, a + b, bones) == WritePose(WritePose(slots, a, bones), b, bones)
    decreases |b|
  {
    if b == [] {
      assert a + b == a;
    } else {
      assert (a + b)[..|a + b| - 1] == a + b[..|b| - 1];
      WritePoseAppend(slots, a, b[..|b| - 1], bones);
    }
  }

  /** A slot that no visited registered bone owns keeps its old value. */
  lemma {:induction false} WritePoseUntouched(slots: seq<Mat4>, visits: seq<Visit>, bones: map<string, BoneInfo>, k: nat)
    requires IdsBelow(bones, |slots|) && k < |slots|
    requires forall j :: 0 <= j < |visits| && visits[j].name in bones ==> bones[visits[j].name].id != k
    ensures WritePose(slots, visits, bones)[k] == slots[k]
    decreases |visits|
  {
    if visits != [] {
      WritePoseUntouched(slots, visits[..|visits| - 1], bones, k);
    }
  }

  /**
   * The slot of the bone visited at position `j` holds that visit's
   * `global * offset` when no later visit writes the same slot.
   */
  lemma {:induction false} WritePoseLastWriter(slots: seq<Mat4>, visits: seq<Visit>, bones: map<string, BoneInfo>, j: nat)
    requires IdsBelow(bones, |slots|)
    requires j < |visits| && visits[j].name in bones
    requires forall i :: j < i < |visits| && visits[i].name in bones ==>
               bones[visits[i].name].id != bones[visits[j].name].id
    ensures WritePose(slots, visits, bones)[bones[visits[j].name].id] ==
            Mul(visits[j].global, bones[visits[j].name].offset)
    decreases |visits|
  {
    if j < |visits| - 1 {
      WritePoseLastWriter(slots, visits[..|visits| - 1], bones, j);
    }
  }

  /** The names of the visited nodes are pairwise distinct. */
  predicate DistinctNames(visits: seq<Visit>)
  {
    forall i, j :: 0 <= i < j < |visits| ==> visits[i].name != visits[j].name
  }

  /**
   * When node names are unique and the registry is dense, each visited
   * registered bone's slot ends up holding its own `global * offset`.
   */
  lemma PoseOfUniqueBone(slots: seq<Mat4>, visits: seq<Visit>, r: Registry, j: nat)
    requires Dense(r) && IdsBelow(r.infoMap, |slots|)
    requires DistinctNames(visits)
    requires j < |visits| && visits[j].name in r.infoMap
    ensures WritePose(slots, visits, r.infoMap)[r.infoMap[visits[j].name].id] ==
            Mul(visits[j].global, r.infoMap[visits[j].name].offset)
  {
    WritePoseLastWriter(slots, visits, r.infoMap, j);
  }

  // ---------------------------------------------------------------------------
  // Properties of the walk

  /** The visits of the first `k1` children come first among those of the first `k2`. */
  lemma {:induction false} ChildVisitsPrefix(node: Node, k1: nat, k2: nat, animation: Animation, t: real, global: Mat4)
    requires WellFormedAnimation(animation)
    requires k1 <= k2 <= |node.children|
    ensures var short := ChildVisits(node, k1, animation, t, global);
            var long := ChildVisits(node, k2, animation, t, global);
            |short| <= |long| && long[..|short|] == short
    decreases k2
  {
    var short := ChildVisits(node, k1, animation, t, global);
    var long := ChildVisits(node, k2, animation, t, global);
    if k1 < k2 {
      ChildVisitsPrefix(node, k1, k2 - 1, animation, t, global);
      var mid := ChildVisits(node, k2 - 1, animation, t, global);
      var sub := Visits(node.children[k2 - 1], animation, t, global);
      assert long == mid + sub;
      PrefixOfAppend(mid, sub, short);
    } else {
      assert long[..|short|] == short;
    }
  }

  /** A prefix of `a` is a prefix of `a + b`. */
  lemma PrefixOfAppend<T>(a: seq<T>, b: seq<T>, p: seq<T>)
    requires |p| <= |a| && a[..|p|] == p
    ensures |p| <= |a + b| && (a + b)[..|p|] == p
  {
    assert (a + b)[..|p|] == a[..|p|];
  }

  /** If `s` starts with `a + b`, then `b` sits in `s` right after `a`. */
  lemma RunAfterPrefix<T>(s: seq<T>, a: seq<T>, b: seq<T>)
    requires |a + b| <= |s| && s[..|a + b|] == a + b
    ensures s[|a|..|a| + |b|] == b
  {
    forall k | 0 <= k < |b|
      ensures s[|a|..|a| + |b|][k] == b[k]
    {
      assert s[|a| + k] == s[..|a + b|][|a| + k] == (a + b)[|a| + k];
    }
  }

  /**
   * Parent before child: the walk from `node` first visits `node` with
   * `parent * local`, and the whole walk of child `i`, started from that global
   * transform, appears in it as one contiguous run after the runs of the
   * earlier children.
   */
  lemma ChildSubtreeVisits(node: Node, animation: Animation, t: real, parent: Mat4, i: nat)
    requires WellFormedAnimation(animation)
    requires i < |node.children|
    ensures var global := Mul(parent, LocalTransform(node, animation, t));
            var all := Visits(node, animation, t, parent);
            var start := 1 + |ChildVisits(node, i, animation, t, global)|;
            var sub := Visits(node.children[i], animation, t, global);
            && all[0] == Visit(node.name, global)
            && start + |sub| <= |all|
            && all[start..start + |sub|] == sub
  {
    var global := Mul(parent, LocalTransform(node, animation, t));
    var before := ChildVisits(node, i, animation, t, global);
    var upto := ChildVisits(node, i + 1, animation, t, global);
    var every := ChildVisits(node, |node.children|, animation, t, global);
    var sub := Visits(node.children[i], animation, t, global);
    var all := Visits(node, animation, t, parent);
    ChildVisitsPrefix(node, i + 1, |node.children|, animation, t, global);
    assert upto == before + sub;
    RunAfterPrefix(every, before, sub);
    assert all == [Visit(node.name, global)] + every;
    RunAfterHead(Visit(node.name, global), every, |before|, sub);
  }

  /** A run of `s` at `off` sits one place later in `[x] + s`. */
  lemma RunAfterHead<T>(x: T, s: seq<T>, off: nat, b: seq<T>)
    requires off + |b| <= |s| && s[off..off + |b|] == b
    ensures ([x] + s)[1 + off..1 + off + |b|] == b
  {
    assert ([x] + s)[1 + off..1 + off + |b|] == s[off..off + |b|];
  }

  /** Every channel has a single key on each of its tracks. */
  predicate SingleKeyed(animation: Animation)
  {
    forall i :: 0 <= i < |animation.channels| ==>
      && |animation.channels[i].positionKeys| == 1
      && |animation.channels[i].rotationKeys| == 1
      && |animation.channels[i].scalingKeys| == 1
  }

  /** With single-key channels the walk, and so the pose, does not depend on time. */
  lemma {:induction false} SingleKeyVisitsTimeInvariant(node: Node, animation: Animation, t1: real, t2: real, parent: Mat4)
    requires WellFormedAnimation(animation) && SingleKeyed(animation)
    ensures Visits(node, animation, t1, parent) == Visits(node, animation, t2, parent)
    decreases node, 1, 0
  {
    assert LocalTransform(node, animation, t1) == LocalTransform(node, animation, t2);
    var global := Mul(parent, LocalTransform(node, animation, t1));
    SingleKeyChildVisitsTimeInvariant(node, |node.children|, animation, t1, t2, global);
  }

  lemma {:induction false} SingleKeyChildVisitsTimeInvariant(node: Node, k: nat, animation: Animation, t1: real, t2: real, global: Mat4)
    requires WellFormedAnimation(animation) && SingleKeyed(animation)
    requires k <= |node.children|
    ensures ChildVisits(node, k, animation, t1, global) == ChildVisits(node, k, animation, t2, global)
    decreases node, 0, k
  {
    if k > 0 {
      SingleKeyChildVisitsTimeInvariant(node, k - 1, animation, t1, t2, global);
      SingleKeyVisitsTimeInvariant(node.children[k - 1], animation, t1, t2, global);
    }
  }
}
