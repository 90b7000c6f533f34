/**
 * class Model of model.hpp, without its asset loading and GPU upload: the bone
 * registry and the vertex bone slots filled while meshes are processed
 * (ExtractBoneWeightForVertices, SetVertexBoneData), the per-frame pose update
 * (UpdateAnimation, CalculateBoneTransform), and the free function fillIndices.
 */
module Model {
  import opened Common
  import opened Transform
  import opened Keyframes
  import opened BoneRegistry
  import opened Pose
  import opened Mesh

  // ---------------------------------------------------------------------------
  // Vertex bone slots

  /** The first slot at or after `from` whose bone id is negative (empty). */
  function FirstEmptySlot(slots: seq<Influence>, from: nat): (r: Option<nat>)
    requires from <= |slots|
    decreases |slots| - from
    ensures r.Some? ==>
              && from <= r.value < |slots|
              && slots[r.value].boneId < 0
              && forall j :: from <= j < r.value ==> slots[j].boneId >= 0
    ensures r.None? <==> forall j :: from <= j < |slots| ==> slots[j].boneId >= 0
  {
    if from == |slots| then None
    else if slots[from].boneId < 0 then Some(from)
    else FirstEmptySlot(slots, from + 1)
  }

  /**
   * The slots after SetVertexBoneData: (boneId, weight) goes into the
   * lowest-index empty slot and no other slot changes; when every slot is
   * occupied the weight is dropped and nothing changes.
   */
  function AddBoneData(slots: seq<Influence>, boneId: int, weight: real): (r: seq<Influence>)
    ensures |r| == |slots|
    ensures (forall j :: 0 <= j < |slots| ==> slots[j].boneId >= 0) ==> r == slots
    ensures forall i :: 0 <= i < |slots| && slots[i].boneId < 0 && (forall j :: 0 <= j < i ==> slots[j].boneId >= 0) ==>
              r == slots[i := Influence(boneId, weight)]
    ensures forall j :: 0 <= j < |slots| ==> r[j] == slots[j] || r[j] == Influence(boneId, weight)
    ensures forall j :: 0 <= j < |slots| && slots[j].boneId >= 0 ==> r[j] == slots[j]
  {
    match FirstEmptySlot(slots, 0)
    case None => slots
    case Some(i) => slots[i := Influence(boneId, weight)]
  }

  /** Every weight names one of `n` vertices. */
  predicate WeightsBelow(weights: seq<VertexWeight>, n: nat)
  {
    forall i :: 0 <= i < |weights| ==> weights[i].vertexId < n
  }

  predicate BoneWeightsBelow(bones: seq<Bone>, n: nat)
  {
    forall b :: 0 <= b < |bones| ==> WeightsBelow(bones[b].weights, n)
  }

  /** The slots of all vertices after adding the bone `boneId` with each of `weights`, in order. */
  function ApplyWeights(slots: seq<seq<Influence>>, boneId: int, weights: seq<VertexWeight>): (r: seq<seq<Influence>>)
    requires WeightsBelow(weights, |slots|)
    ensures |r| == |slots|
    ensures forall v :: 0 <= v < |slots| ==> |r[v]| == |slots[v]|
    ensures forall v, j :: 0 <= v < |slots| && 0 <= j < |slots[v]| ==> r[v][j] == slots[v][j] || r[v][j].boneId == boneId
    decreases |weights|
  {
    if weights == [] then slots
    else
      var s := ApplyWeights(slots, boneId, weights[..|weights| - 1]);
      var w := weights[|weights| - 1];
      s[w.vertexId := AddBoneData(s[w.vertexId], boneId, w.weight)]
  }

  /** One more weight: weight i applied on top of weights[..i]. */
  lemma ApplyStep(slots: seq<seq<Influence>>, boneId: int, weights: seq<VertexWeight>, i: nat)
    requires i < |weights| && WeightsBelow(weights, |slots|)
    ensures WeightsBelow(weights[..i], |slots|) && WeightsBelow(weights[..i + 1], |slots|)
    ensures var s := ApplyWeights(slots, boneId, weights[..i]);
            ApplyWeights(slots, boneId, weights[..i + 1]) ==
            s[weights[i].vertexId := AddBoneData(s[weights[i].vertexId], boneId, weights[i].weight)]
  {
    var next := weights[..i + 1];
    assert next[..|next| - 1] == weights[..i];
    assert next[|next| - 1] == weights[i];
  }

  /**
   * The slots of all vertices after ExtractBoneWeightForVertices processed
   * `bones` in order, starting from registry `r`: each bone's weights are added
   * under the id the registry gives its name at that point.
   */
  function ExtractInfluences(r: Registry, slots: seq<seq<Influence>>, bones: seq<Bone>): (res: seq<seq<Influence>>)
    requires BoneWeightsBelow(bones, |slots|)
    ensures |res| == |slots|
    ensures forall v :: 0 <= v < |slots| ==> |res[v]| == |slots[v]|
    decreases |bones|
  {
    if bones == [] then slots
    else
      var prefix := bones[..|bones| - 1];
      var last := bones[|bones| - 1];
      var id := Register(RegisterAll(r, prefix), last.name, last.offsetMatrix).1;
      ApplyWeights(ExtractInfluences(r, slots, prefix), id, last.weights)
  }

  /** Vertices with no weight in `bones` keep their slots. */
  predicate Unweighted(bones: seq<Bone>, v: nat)
  {
    forall b, k :: 0 <= b < |bones| && 0 <= k < |bones[b].weights| ==> bones[b].weights[k].vertexId != v
  }

  lemma {:induction false} ApplyWeightsElsewhere(slots: seq<seq<Influence>>, boneId: int, weights: seq<VertexWeight>, v: nat)
    requires WeightsBelow(weights, |slots|) && v < |slots|
    requires forall k :: 0 <= k < |weights| ==> weights[k].vertexId != v
    ensures ApplyWeights(slots, boneId, weights)[v] == slots[v]
    decreases |weights|
  {
    if weights != [] {
      ApplyWeightsElsewhere(slots, boneId, weights[..|weights| - 1], v);
    }
  }

  /** A vertex that no bone weighs keeps the slots it had. */
  lemma {:induction false} ExtractLeavesUnweightedVertex(r: Registry, slots: seq<seq<Influence>>, bones: seq<Bone>, v: nat)
    requires BoneWeightsBelow(bones, |slots|) && v < |slots|
    requires Unweighted(bones, v)
    ensures ExtractInfluences(r, slots, bones)[v] == slots[v]
    decreases |bones|
  {
    if bones != [] {
      var prefix := bones[..|bones| - 1];
      var last := bones[|bones| - 1];
      assert Unweighted(prefix, v) by {
        forall b, k | 0 <= b < |prefix| && 0 <= k < |prefix[b].weights|
          ensures prefix[b].weights[k].vertexId != v
        {
          assert prefix[b] == bones[b];
        }
      }
      ExtractLeavesUnweightedVertex(r, slots, prefix, v);
      var id := Register(RegisterAll(r, prefix), last.name, last.offsetMatrix).1;
      ApplyWeightsElsewhere(ExtractInfluences(r, slots, prefix), id, last.weights, v);
    }
  }

  /** Every occupied slot holds the id of a bone of registry `r`. */
  predicate SlotsRegistered(slots: seq<seq<Influence>>, r: Registry)
  {
    forall v, i :: 0 <= v < |slots| && 0 <= i < |slots[v]| && slots[v][i].boneId >= 0 ==> slots[v][i].boneId in Ids(r)
  }

  lemma {:induction false} ApplyWeightsRegistered(slots: seq<seq<Influence>>, boneId: int, weights: seq<VertexWeight>, r: Registry)
    requires WeightsBelow(weights, |slots|)
    requires SlotsRegistered(slots, r) && boneId in Ids(r)
    ensures SlotsRegistered(ApplyWeights(slots, boneId, weights), r)
    decreases |weights|
  {
    if weights != [] {
      ApplyWeightsRegistered(slots, boneId, weights[..|weights| - 1], r);
    }
  }

  lemma RegisteredGrows(slots: seq<seq<Influence>>, r: Registry, r': Registry)
    requires SlotsRegistered(slots, r)
    requires forall n :: n in r.infoMap ==> n in r'.infoMap && r'.infoMap[n] == r.infoMap[n]
    ensures SlotsRegistered(slots, r')
  {
    forall v, i | 0 <= v < |slots| && 0 <= i < |slots[v]| && slots[v][i].boneId >= 0
      ensures slots[v][i].boneId in Ids(r')
    {
      var n :| n in r.infoMap && r.infoMap[n].id == slots[v][i].boneId;
      assert r'.infoMap[n].id == slots[v][i].boneId;
    }
  }

  /**
   * Skinning never points at an unregistered bone: if every occupied slot held
   * a registered id before, every occupied slot holds one of the final
   * registry's ids after ExtractBoneWeightForVertices.
   */
  lemma {:induction false} ExtractKeepsSlotsRegistered(r: Registry, slots: seq<seq<Influence>>, bones: seq<Bone>)
    requires BoneWeightsBelow(bones, |slots|)
    requires SlotsRegistered(slots, r)
    ensures SlotsRegistered(ExtractInfluences(r, slots, bones), RegisterAll(r, bones))
    decreases |bones|
  {
    if bones != [] {
      var prefix := bones[..|bones| - 1];
      var last := bones[|bones| - 1];
      ExtractKeepsSlotsRegistered(r, slots, prefix);
      var before := RegisterAll(r, prefix);
      var (after, id) := Register(before, last.name, last.offsetMatrix);
      RegisteredGrows(ExtractInfluences(r, slots, prefix), before, after);
      assert id in Ids(after);
      ApplyWeightsRegistered(ExtractInfluences(r, slots, prefix), id, last.weights, after);
    }
  }

  /** One more bone: registration of bone i, then its weights, on top of bones[..i]. */
  lemma ExtractStep(r: Registry, slots: seq<seq<Influence>>, bones: seq<Bone>, i: nat)
    requires i < |bones| && BoneWeightsBelow(bones, |slots|)
    ensures BoneWeightsBelow(bones[..i], |slots|) && BoneWeightsBelow(bones[..i + 1], |slots|)
    ensures RegisterAll(r, bones[..i + 1]) == Register(RegisterAll(r, bones[..i]), bones[i].name, bones[i].offsetMatrix).0
    ensures ExtractInfluences(r, slots, bones[..i + 1]) ==
            ApplyWeights(ExtractInfluences(r, slots, bones[..i]),
                         Register(RegisterAll(r, bones[..i]), bones[i].name, bones[i].offsetMatrix).1,
                         bones[i].weights)
  {
    var next := bones[..i + 1];
    assert next[..|next| - 1] == bones[..i];
    assert next[|next| - 1] == bones[i];
  }

  // ---------------------------------------------------------------------------
  // Vertices as the source stores them

  /** Every vertex has its slot arrays, and no two vertices share an array (they are values in the source). */
  predicate DistinctVertices(vs: seq<Vertex>)
  {
    && (forall i :: 0 <= i < |vs| ==> vs[i].Valid())
    && (forall i, j :: 0 <= i < |vs| && 0 <= j < |vs| && i != j ==>
          vs[i].boneIds != vs[j].boneIds && vs[i].weights != vs[j].weights)
  }

  /** The slots of every vertex. */
  ghost function InfluencesOf(vs: seq<Vertex>): (r: seq<seq<Influence>>)
    requires forall i :: 0 <= i < |vs| ==> vs[i].Valid()
    reads set i | 0 <= i < |vs| :: vs[i].boneIds
    reads set i | 0 <= i < |vs| :: vs[i].weights
    ensures |r| == |vs|
    ensures forall i :: 0 <= i < |vs| ==> r[i] == vs[i].Influences()
  {
    seq(|vs|, i requires 0 <= i < |vs|
                reads set j | 0 <= j < |vs| :: vs[j].boneIds
                reads set j | 0 <= j < |vs| :: vs[j].weights
              => vs[i].Influences())
  }

  // ---------------------------------------------------------------------------
  // Animation clock

  /** aiScene, as far as the pose update reads it. */
  datatype Scene = Scene(rootNode: Node, animations: seq<Animation>)

  /** The clip rate: mTicksPerSecond, or 25 ticks per second when the file gives 0. */
  function TicksPerSecond(animation: Animation): (r: real)
    ensures animation.ticksPerSecond == 0.0 ==> r == 25.0
    ensures animation.ticksPerSecond != 0.0 ==> r == animation.ticksPerSecond
  {
    if animation.ticksPerSecond != 0.0 then animation.ticksPerSecond else 25.0
  }

  /** Rounding toward zero, as C's fmod uses. */
  function Trunc(q: real): (n: int)
    ensures 0.0 <= q ==> n as real <= q < n as real + 1.0
    ensures q < 0.0 ==> n as real - 1.0 < q <= n as real
  {
    if 0.0 <= q then q.Floor else -((-q).Floor)
  }

  /** fmod: `x - trunc(x / y) * y`, which has the sign of `x` and magnitude below |y|. */
  function FMod(x: real, y: real): (r: real)
    requires y != 0.0
    ensures 0.0 <= x && 0.0 < y ==> 0.0 <= r < y
  {
    FModRange(x, y);
    x - (Trunc(x / y) as real) * y
  }

  lemma FModRange(x: real, y: real)
    requires y != 0.0
    ensures 0.0 <= x && 0.0 < y ==> 0.0 <= x - (Trunc(x / y) as real) * y < y
  {
    if 0.0 <= x && 0.0 < y {
      QuotientSign(x, y);
      RemainderRange(x, y, x / y, Trunc(x / y) as real);
    }
  }

  /** With q the exact quotient and n its whole part, x - n*y lies in [0, y). */
  lemma RemainderRange(x: real, y: real, q: real, n: real)
    requires 0.0 < y && q * y == x && n <= q < n + 1.0
    ensures 0.0 <= x - n * y < y
  {
    var frac := q - n;
    assert x - n * y == frac * y;
    assert 0.0 <= frac * y;
    assert (1.0 - frac) * y > 0.0;
  }

  lemma QuotientSign(x: real, y: real)
    requires 0.0 <= x && 0.0 < y
    ensures 0.0 <= x / y && x / y * y == x
  {
    var q := x / y;
    assert q * y == x;
    if q < 0.0 {
      assert false;
    }
  }

  /** A quotient is the factor that gives back the dividend. */
  lemma QuotientOf(a: real, d: real, z: real)
    requires d != 0.0 && a == z * d
    ensures a / d == z
  {
    var q := a / d;
    assert q * d == a;
    assert (q - z) * d == 0.0;
  }

  /**
   * The clip-local time UpdateAnimation samples at: the clock scaled to ticks,
   * wrapped by the clip length; for a forward clock and rate it lies in
   * [0, duration).
   */
  function ClipTime(currentTime: real, animation: Animation): (r: real)
    requires animation.duration != 0.0
    ensures 0.0 <= currentTime && 0.0 <= animation.ticksPerSecond && 0.0 < animation.duration ==>
              0.0 <= r < animation.duration
  {
    var ticks := currentTime * TicksPerSecond(animation);
    assert 0.0 <= currentTime && 0.0 <= animation.ticksPerSecond ==> 0.0 <= ticks;
    FMod(ticks, animation.duration)
  }

  /** The clip loops: one more clip length of ticks gives the same clip time. */
  lemma {:induction false} ClipTimeLoops(ticks: real, duration: real)
    requires 0.0 <= ticks && 0.0 < duration
    ensures FMod(ticks + duration, duration) == FMod(ticks, duration)
  {
    var q := ticks / duration;
    assert q * duration == ticks;
    QuotientOf(ticks + duration, duration, q + 1.0);
    QuotientSign(ticks, duration);
    assert Trunc(q + 1.0) == Trunc(q) + 1;
  }

  // ---------------------------------------------------------------------------
  // fillIndices

  /** aiFace: the vertex indices of one face. */
  datatype Face = Face(indices: seq<nat>)

  /** The indices of all faces, face after face. */
  function Flatten(faces: seq<Face>): seq<nat>
    decreases |faces|
  {
    if faces == [] then [] else Flatten(faces[..|faces| - 1]) + faces[|faces| - 1].indices
  }

  /** The sum of the face sizes. */
  function IndexCount(faces: seq<Face>): nat
    decreases |faces|
  {
    if faces == [] then 0 else IndexCount(faces[..|faces| - 1]) + |faces[|faces| - 1].indices|
  }

  /** fillIndices: every face's indices, in face order. */
  method FillIndices(faces: seq<Face>) returns (indices: seq<nat>)
    ensures indices == Flatten(faces)
    ensures |indices| == IndexCount(faces)
  {
    indices := [];
    for i := 0 to |faces|
      invariant indices == Flatten(faces[..i])
    {
      var face := faces[i];
      for j := 0 to |face.indices|
        invariant indices == Flatten(faces[..i]) + face.indices[..j]
      {
        indices := indices + [face.indices[j]];
      }
      assert faces[..i + 1][..i] == faces[..i];
      assert face.indices[..|face.indices|] == face.indices;
    }
    assert faces[..|faces|] == faces;
    FlattenLength(faces);
  }

  lemma {:induction false} FlattenLength(faces: seq<Face>)
    ensures |Flatten(faces)| == IndexCount(faces)
    decreases |faces|
  {
    if faces != [] {
      FlattenLength(faces[..|faces| - 1]);
    }
  }

  /** Index k of face f sits right after the indices of the faces before f. */
  lemma {:induction false} FlattenAt(faces: seq<Face>, f: nat, k: nat)
    requires f < |faces| && k < |faces[f].indices|
    ensures IndexCount(faces[..f]) + k < |Flatten(faces)|
    ensures Flatten(faces)[IndexCount(faces[..f]) + k] == faces[f].indices[k]
    decreases |faces|
  {
    var prefix := faces[..|faces| - 1];
    FlattenLength(prefix);
    if f == |faces| - 1 {
      assert faces[..f] == prefix;
    } else {
      assert prefix[..f] == faces[..f];
      assert prefix[f] == faces[f];
      FlattenAt(prefix, f, k);
    }
  }

  // ---------------------------------------------------------------------------
  // The model

  class Model {
    var boneInfoMap: map<string, BoneInfo>
    var boneCounter: int

    /** A model before any mesh is processed: no bones, counter 0. */
    constructor ()
      ensures Registered() == EmptyRegistry()
    {
      boneInfoMap := map[];
      boneCounter := 0;
    }

    /** The registry state (m_BoneInfoMap, m_BoneCounter). */
    function Registered(): Registry
      reads this
    {
      Registry(boneInfoMap, boneCounter)
    }

    /**
     * SetVertexBoneData: puts (boneId, weight) into the first empty slot of
     * the vertex, or drops it when the four slots are taken.
     */
    method SetVertexBoneData(vertex: Vertex, boneId: int, weight: real)
      requires vertex.Valid()
      modifies vertex.boneIds, vertex.weights
      ensures vertex.Influences() == AddBoneData(old(vertex.Influences()), boneId, weight)
    {
      for i := 0 to MAX_BONE_INFLUENCE
        invariant forall j :: 0 <= j < i ==> vertex.boneIds[j] >= 0
        invariant vertex.Influences() == old(vertex.Influences())
      {
        if vertex.boneIds[i] < 0 {
          vertex.weights[i] := weight;
          vertex.boneIds[i] := boneId;
          assert vertex.Influences() == old(vertex.Influences())[i := Influence(boneId, weight)];
          return;
        }
      }
    }

    /**
     * ExtractBoneWeightForVertices: registers each bone of a mesh by name and
     * adds its weights to the vertices it moves.
     */
    method ExtractBoneWeightForVertices(vertices: seq<Vertex>, bones: seq<Bone>)
      requires DistinctVertices(vertices)
      requires BoneWeightsBelow(bones, |vertices|)
      modifies this
      modifies set i | 0 <= i < |vertices| :: vertices[i].boneIds
      modifies set i | 0 <= i < |vertices| :: vertices[i].weights
      ensures Registered() == RegisterAll(old(Registered()), bones)
      ensures InfluencesOf(vertices) == ExtractInfluences(old(Registered()), old(InfluencesOf(vertices)), bones)
    {
      ghost var reg0 := Registered();
      ghost var slots0 := InfluencesOf(vertices);
      var boneIndex := 0;
      while boneIndex < |bones|
        invariant 0 <= boneIndex <= |bones|
        invariant BoneWeightsBelow(bones[..boneIndex], |slots0|)
        invariant Registered() == RegisterAll(reg0, bones[..boneIndex])
        invariant InfluencesOf(vertices) == ExtractInfluences(reg0, slots0, bones[..boneIndex])
      {
        ExtractStep(reg0, slots0, bones, boneIndex);
        ExtractBone(vertices, bones[boneIndex]);
        boneIndex := boneIndex + 1;
      }
      assert bones[..|bones|] == bones;
    }

    /**
     * One pass of ExtractBoneWeightForVertices: looks the bone's name up,
     * registering it with the next id when it is new, then adds the bone's
     * weights to the vertices.
     */
    method ExtractBone(vertices: seq<Vertex>, bone: Bone)
      requires DistinctVertices(vertices)
      requires WeightsBelow(bone.weights, |vertices|)
      modifies this
      modifies set i | 0 <= i < |vertices| :: vertices[i].boneIds
      modifies set i | 0 <= i < |vertices| :: vertices[i].weights
      ensures Registered() == Register(old(Registered()), bone.name, bone.offsetMatrix).0
      ensures InfluencesOf(vertices) ==
              ApplyWeights(old(InfluencesOf(vertices)), Register(old(Registered()), bone.name, bone.offsetMatrix).1, bone.weights)
    {
      ghost var before := InfluencesOf(vertices);
      var boneId := FindOrAddBone(bone.name, bone.offsetMatrix);
      assert InfluencesOf(vertices) == before;
      ghost var registered := Registered();
      assert this as object !in (set i | 0 <= i < |vertices| :: vertices[i].boneIds as object);
      assert this as object !in (set i | 0 <= i < |vertices| :: vertices[i].weights as object);
      AddBoneWeights(vertices, boneId, bone.weights);
      assert boneInfoMap == registered.infoMap && boneCounter == registered.counter;
    }

    /**
     * The lookup of ExtractBoneWeightForVertices: the id of a known bone
     * name, or a new entry with the next id for an unknown one.
     */
    method FindOrAddBone(boneName: string, offset: Mat4) returns (boneId: int)
      modifies this
      ensures (Registered(), boneId) == Register(old(Registered()), boneName, offset)
    {
      if boneName !in boneInfoMap {
        boneInfoMap := boneInfoMap[boneName := BoneInfo(boneCounter, offset)];
        boneId := boneCounter;
        boneCounter := boneCounter + 1;
      } else {
        boneId := boneInfoMap[boneName].id;
      }
    }

    /** SetVertexBoneData on vertex `vertexId`, seen on the slots of all vertices. */
    method SetVertexBoneDataIn(vertices: seq<Vertex>, vertexId: nat, boneId: int, weight: real)
      requires DistinctVertices(vertices) && vertexId < |vertices|
      modifies vertices[vertexId].boneIds, vertices[vertexId].weights
      ensures InfluencesOf(vertices) ==
              old(InfluencesOf(vertices))[vertexId := AddBoneData(old(InfluencesOf(vertices))[vertexId], boneId, weight)]
    {
      ghost var current := InfluencesOf(vertices);
      SetVertexBoneData(vertices[vertexId], boneId, weight);
      assert forall v :: 0 <= v < |vertices| && v != vertexId ==> vertices[v].Influences() == current[v];
    }

    /**
     * The weight loop of ExtractBoneWeightForVertices: adds bone `boneId`
     * with each weight to the vertex it names, in order.
     */
    method AddBoneWeights(vertices: seq<Vertex>, boneId: int, weights: seq<VertexWeight>)
      requires DistinctVertices(vertices)
      requires WeightsBelow(weights, |vertices|)
      modifies set i | 0 <= i < |vertices| :: vertices[i].boneIds
      modifies set i | 0 <= i < |vertices| :: vertices[i].weights
      ensures InfluencesOf(vertices) == ApplyWeights(old(InfluencesOf(vertices)), boneId, weights)
    {
      ghost var start := InfluencesOf(vertices);
      var weightIndex := 0;
      while weightIndex < |weights|
        invariant 0 <= weightIndex <= |weights|
        invariant InfluencesOf(vertices) == ApplyWeights(start, boneId, weights[..weightIndex])
      {
        var w := weights[weightIndex];
        ApplyStep(start, boneId, weights, weightIndex);
        SetVertexBoneDataIn(vertices, w.vertexId, boneId, w.weight);
        weightIndex := weightIndex + 1;
      }
      assert weights[..|weights|] == weights;
    }

    /**
     * CalculateBoneTransform: walks the tree below `node` and writes the
     * pose of every registered bone it reaches into `transforms`.
     */
    method CalculateBoneTransform(node: Node, animation: Animation, animationTime: real, parentTransform: Mat4,
                                  transforms: array<Mat4>)
      requires WellFormedAnimation(animation)
      requires IdsBelow(boneInfoMap, transforms.Length)
      modifies transforms
      ensures transforms[..] == WritePose(old(transforms[..]), Visits(node, animation, animationTime, parentTransform), boneInfoMap)
      decreases node
    {
      var globalTransformation := WriteNodePose(node, animation, animationTime, parentTransform, transforms);
      ghost var self := [Visit(node.name, globalTransformation)];
      assert self[..0] == [];
      assert self + ChildVisits(node, 0, animation, animationTime, globalTransformation) == self;
      for i := 0 to |node.children|
        invariant transforms[..] ==
                  WritePose(old(transforms[..]), self + ChildVisits(node, i, animation, animationTime, globalTransformation), boneInfoMap)
      {
        ghost var done := self + ChildVisits(node, i, animation, animationTime, globalTransformation);
        ghost var sub := Visits(node.children[i], animation, animationTime, globalTransformation);
        CalculateBoneTransform(node.children[i], animation, animationTime, globalTransformation, transforms);
        WritePoseAppend(old(transforms[..]), done, sub, boneInfoMap);
        assert self + ChildVisits(node, i + 1, animation, animationTime, globalTransformation) == done + sub;
      }
      assert self + ChildVisits(node, |node.children|, animation, animationTime, globalTransformation) ==
             Visits(node, animation, animationTime, parentTransform);
    }

    /**
     * The part of CalculateBoneTransform before the recursion: the node's
     * global transform, written into its bone's slot when it is a bone.
     */
    method WriteNodePose(node: Node, animation: Animation, animationTime: real, parentTransform: Mat4,
                         transforms: array<Mat4>) returns (globalTransformation: Mat4)
      requires WellFormedAnimation(animation)
      requires IdsBelow(boneInfoMap, transforms.Length)
      modifies transforms
      ensures globalTransformation == Mul(parentTransform, LocalTransform(node, animation, animationTime))
      ensures transforms[..] == WritePose(old(transforms[..]), [Visit(node.name, globalTransformation)], boneInfoMap)
    {
      var nodeName := node.name;
      var nodeTransform := node.transformation;
      var nodeAnim := FindNodeAnim(animation, nodeName);
      if nodeAnim.Some? {
        var channel := animation.channels[nodeAnim.value];
        var translation := InterpolateTranslation(animationTime, channel);
        var rotation := InterpolateRotation(animationTime, channel);
        var scale := InterpolateScaling(animationTime, channel);
        nodeTransform := Mul(Mul(translation, rotation), scale);
      }
      globalTransformation := Mul(parentTransform, nodeTransform);
      ghost var visits := [Visit(nodeName, globalTransformation)];
      assert visits[..0] == [];
      if nodeName in boneInfoMap {
        var index := boneInfoMap[nodeName].id;
        var offset := boneInfoMap[nodeName].offset;
        transforms[index] := Mul(globalTransformation, offset);
      }
    }

    /**
     * UpdateAnimation: with no animation nothing is written; otherwise the
     * pose of clip 0, at the clip time of `currentTime`, is written from the
     * root with the identity as parent transform.
     */
    method UpdateAnimation(currentTime: real, scene: Scene, transforms: array<Mat4>)
      requires |scene.animations| > 0 ==>
                 scene.animations[0].duration != 0.0 && WellFormedAnimation(scene.animations[0])
      requires IdsBelow(boneInfoMap, transforms.Length)
      modifies transforms
      ensures |scene.animations| == 0 ==> transforms[..] == old(transforms[..])
      ensures |scene.animations| > 0 ==>
                transforms[..] == WritePose(old(transforms[..]),
                                            Visits(scene.rootNode, scene.animations[0],
                                                   ClipTime(currentTime, scene.animations[0]), Identity),
                                            boneInfoMap)
    {
      if |scene.animations| > 0 {
        var animation := scene.animations[0];
        var animationTime := ClipTime(currentTime, animation);
        CalculateBoneTransform(scene.rootNode, animation, animationTime, Identity, transforms);
      }
    }
  }
}
