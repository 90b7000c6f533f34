/**
 * Animation channels and keyframe sampling (Model::FindNodeAnim,
 * Model::Get{Position,Rotation,Scaling}Index, Model::GetLerpFactor and
 * Model::Interpolate{Translation,Rotation,Scaling}).
 */
module Keyframes {
  import opened Common
  import opened Transform

  /** A time-stamped keyframe (aiVectorKey, aiQuatKey); times are in ticks. */
  datatype Key<V> = Key(time: real, value: V)

  /** aiNodeAnim: the three keyframe tracks of the node named `nodeName`. */
  datatype NodeAnim = NodeAnim(
    nodeName: string,
    positionKeys: seq<Key<Vec3>>,
    rotationKeys: seq<Key<Quat>>,
    scalingKeys: seq<Key<Vec3>>)

  /** aiAnimation: a clip with its duration (ticks), rate and channels. */
  datatype Animation = Animation(duration: real, ticksPerSecond: real, channels: seq<NodeAnim>)

  /** Key times are strictly increasing, as the importer delivers them. */
  predicate Increasing<V>(keys: seq<Key<V>>)
  {
    forall i, j :: 0 <= i < j < |keys| ==> keys[i].time < keys[j].time
  }

  /** A track the importer produces: at least one key, times strictly increasing. */
  predicate WellFormedTrack<V>(keys: seq<Key<V>>)
  {
    |keys| >= 1 && Increasing(keys)
  }

  predicate WellFormedChannel(c: NodeAnim)
  {
    WellFormedTrack(c.positionKeys) && WellFormedTrack(c.rotationKeys) && WellFormedTrack(c.scalingKeys)
  }

  predicate WellFormedAnimation(a: Animation)
  {
    forall i :: 0 <= i < |a.channels| ==> WellFormedChannel(a.channels[i])
  }

  // ---------------------------------------------------------------------------
  // Channel lookup

  /** The loop of FindNodeAnim, from channel `from` on. */
  function FindChannelFrom(channels: seq<NodeAnim>, nodeName: string, from: nat): (r: Option<nat>)
    requires from <= |channels|
    decreases |channels| - from
    ensures r.Some? ==>
              && from <= r.value < |channels|
              && channels[r.value].nodeName == nodeName
              && forall j :: from <= j < r.value ==> channels[j].nodeName != nodeName
    ensures r.None? <==> forall j :: from <= j < |channels| ==> channels[j].nodeName != nodeName
  {
    if from == |channels| then None
    else if channels[from].nodeName == nodeName then Some(from)
    else FindChannelFrom(channels, nodeName, from + 1)
  }

  /**
   * The position of the first channel, in channel order, animating `nodeName`;
   * None (the source's nullptr) exactly when no channel does.
   */
  function FindNodeAnim(animation: Animation, nodeName: string): (r: Option<nat>)
    ensures r.Some? ==>
              && r.value < |animation.channels|
              && animation.channels[r.value].nodeName == nodeName
              && forall j :: 0 <= j < r.value ==> animation.channels[j].nodeName != nodeName
    ensures r.None? <==> forall j :: 0 <= j < |animation.channels| ==> animation.channels[j].nodeName != nodeName
  {
    FindChannelFrom(animation.channels, nodeName, 0)
  }

  // ---------------------------------------------------------------------------
  // Bracket search

  /**
   * The loop shared by GetPositionIndex, GetRotationIndex and GetScalingIndex,
   * from `index` on: the first `i >= index` with `t < keys[i + 1].time`, or 0
   * when the loop runs out.
   */
  function ScanKeys<V>(keys: seq<Key<V>>, t: real, index: nat): (r: nat)
    requires index < |keys|
    decreases |keys| - index
    ensures r == 0 || index <= r < |keys| - 1
    ensures (exists j :: index < j < |keys| && t < keys[j].time) ==>
              && index <= r
              && r + 1 < |keys|
              && t < keys[r + 1].time
              && forall j :: index < j <= r ==> keys[j].time <= t
    ensures (forall j :: index < j < |keys| ==> keys[j].time <= t) ==> r == 0
  {
    if index + 1 >= |keys| then 0
    else if t < keys[index + 1].time then index
    else ScanKeys(keys, t, index + 1)
  }

  /**
   * Get{Position,Rotation,Scaling}Index on one track: the lower key of the
   * bracket used for sampling at time `t`. The result is the first `i` with
   * `t < keys[i + 1].time`; when there is none (t at or past the last key) it
   * is 0, as written in the source. With two or more keys, `r + 1` is a key.
   */
  function KeyIndex<V>(keys: seq<Key<V>>, t: real): (r: nat)
    requires |keys| >= 1
    ensures |keys| >= 2 ==> r + 1 < |keys|
    ensures |keys| == 1 ==> r == 0
    ensures (exists j :: 1 <= j < |keys| && t < keys[j].time) ==>
              && t < keys[r + 1].time
              && forall j :: 1 <= j <= r ==> keys[j].time <= t
    ensures (forall j :: 1 <= j < |keys| ==> keys[j].time <= t) ==> r == 0
  {
    ScanKeys(keys, t, 0)
  }

  /** GetLerpFactor: where `t` lies between two key times, as a fraction. */
  function LerpFactor(t: real, last: real, next: real): (f: real)
    requires last != next
    ensures t == last ==> f == 0.0
    ensures t == next ==> f == 1.0
    ensures last < next && last <= t < next ==> 0.0 <= f < 1.0
    ensures last < next && next < t ==> 1.0 < f
  {
    var f := (t - last) / (next - last);
    QuotientBounds(t - last, next - last);
    f
  }

  /** How a quotient compares with 0 and 1, from how the dividend compares with the divisor. */
  lemma QuotientBounds(a: real, d: real)
    requires d != 0.0
    ensures a == 0.0 ==> a / d == 0.0
    ensures a == d ==> a / d == 1.0
    ensures 0.0 < d && 0.0 <= a < d ==> 0.0 <= a / d < 1.0
    ensures 0.0 < d && d < a ==> 1.0 < a / d
  {
    var q := a / d;
    assert q * d == a;
    if 0.0 < d {
      if q < 0.0 { assert q * d < 0.0; }
      if 1.0 <= q { assert (q - 1.0) * d >= 0.0; }
      if q <= 1.0 { assert (1.0 - q) * d >= 0.0; }
    }
  }

  // ---------------------------------------------------------------------------
  // Sampling

  /** The vector sampled from a position or scaling track at time `t`. */
  function SampleVec(keys: seq<Key<Vec3>>, t: real): (r: Vec3)
    requires WellFormedTrack(keys)
    ensures |keys| == 1 ==> r == keys[0].value
  {
    if |keys| == 1 then keys[0].value
    else
      var i := KeyIndex(keys, t);
      Mix(keys[i].value, keys[i + 1].value, LerpFactor(t, keys[i].time, keys[i + 1].time))
  }

  /** The orientation sampled from a rotation track at time `t`. */
  function SampleQuat(keys: seq<Key<Quat>>, t: real): (r: Quat)
    requires WellFormedTrack(keys)
    ensures |keys| == 1 ==> r == keys[0].value
  {
    if |keys| == 1 then keys[0].value
    else
      var i := KeyIndex(keys, t);
      Slerp(keys[i].value, keys[i + 1].value, LerpFactor(t, keys[i].time, keys[i + 1].time))
  }

  /** InterpolateTranslation: a pure translation by the sampled position. */
  function InterpolateTranslation(t: real, nodeAnim: NodeAnim): (m: Mat4)
    requires WellFormedChannel(nodeAnim)
    ensures |nodeAnim.positionKeys| == 1 ==> m == Translate(nodeAnim.positionKeys[0].value)
  {
    Translate(SampleVec(nodeAnim.positionKeys, t))
  }

  /** InterpolateRotation: a pure rotation by the sampled orientation. */
  function InterpolateRotation(t: real, nodeAnim: NodeAnim): (m: Mat4)
    requires WellFormedChannel(nodeAnim)
    ensures |nodeAnim.rotationKeys| == 1 ==> m == Rotate(nodeAnim.rotationKeys[0].value)
  {
    Rotate(SampleQuat(nodeAnim.rotationKeys, t))
  }

  /** InterpolateScaling: a pure scale by the sampled factors. */
  function InterpolateScaling(t: real, nodeAnim: NodeAnim): (m: Mat4)
    requires WellFormedChannel(nodeAnim)
    ensures |nodeAnim.scalingKeys| == 1 ==> m == Scale(nodeAnim.scalingKeys[0].value)
  {
    Scale(SampleVec(nodeAnim.scalingKeys, t))
  }

  // ---------------------------------------------------------------------------
  // Properties of the bracket search and of sampling

  /**
   * Inside the span of the keys, the bracket found holds `t`, so the lerp
   * factor is a proper fraction.
   */
  lemma BracketHoldsTime<V>(keys: seq<Key<V>>, t: real)
    requires |keys| >= 2 && Increasing(keys)
    requires keys[0].time <= t < keys[|keys| - 1].time
    ensures var i := KeyIndex(keys, t);
            && keys[i].time <= t < keys[i + 1].time
            && 0.0 <= LerpFactor(t, keys[i].time, keys[i + 1].time) < 1.0
  {
    var i := KeyIndex(keys, t);
    assert t < keys[|keys| - 1].time;
    if i > 0 {
      assert keys[i].time <= t;
    }
  }

  /** Sampled at the time of key `k` (not the last one), a track yields that key's value. */
  lemma SampleVecAtKey(keys: seq<Key<Vec3>>, k: nat)
    requires WellFormedTrack(keys)
    requires k == 0 || k < |keys| - 1
    ensures SampleVec(keys, keys[k].time) == keys[k].value
  {
    if |keys| > 1 {
      var t := keys[k].time;
      assert t < keys[k + 1].time;
      var i := KeyIndex(keys, t);
      assert i == k;
      assert LerpFactor(t, keys[i].time, keys[i + 1].time) == 0.0;
    }
  }

  /** With two keys, sampling at the second key's time yields its value. */
  lemma SampleVecAtLastOfTwo(keys: seq<Key<Vec3>>)
    requires WellFormedTrack(keys) && |keys| == 2
    ensures SampleVec(keys, keys[1].time) == keys[1].value
  {
    assert KeyIndex(keys, keys[1].time) == 0;
  }

  /**
   * The fallback to index 0, as written: with three or more keys, a time at or
   * past the last key is sampled on the FIRST segment, with a lerp factor above
   * 1, so the value is extrapolated from keys 0 and 1 instead of held at the
   * last key.
   */
  lemma PastLastKeyUsesFirstSegment(keys: seq<Key<Vec3>>, t: real)
    requires WellFormedTrack(keys) && |keys| >= 3
    requires keys[|keys| - 1].time <= t
    ensures KeyIndex(keys, t) == 0
    ensures 1.0 < LerpFactor(t, keys[0].time, keys[1].time)
    ensures SampleVec(keys, t) == Mix(keys[0].value, keys[1].value, LerpFactor(t, keys[0].time, keys[1].time))
  {
    forall j | 1 <= j < |keys|
      ensures keys[j].time <= t
    {
      assert j == |keys| - 1 || keys[j].time < keys[|keys| - 1].time;
    }
    assert keys[1].time < keys[|keys| - 1].time;
  }
}
