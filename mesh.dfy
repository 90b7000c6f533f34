/**
 * The vertex layout and the sampler naming of mesh.hpp: the fixed
 * MAX_BONE_INFLUENCE bone slots of a Vertex, Vertex::SetBoneDataDefault, and
 * the per-type texture counters of Mesh::Draw.
 */
module Mesh {

  /** MAX_BONE_INFLUENCE: the number of bone slots of a vertex. */
  const MAX_BONE_INFLUENCE: nat := 4

  /** One bone slot of a vertex: a bone id (negative when the slot is empty) and its weight. */
  datatype Influence = Influence(boneId: int, weight: real)

  /** The slots of a vertex after SetBoneDataDefault: every id -1, every weight 0. */
  function NoInfluences(): (s: seq<Influence>)
    ensures |s| == MAX_BONE_INFLUENCE
  {
    seq(MAX_BONE_INFLUENCE, _ => Influence(-1, 0.0))
  }

  /**
   * The bone part of struct Vertex: the arrays m_BoneIDs and m_Weights, of
   * MAX_BONE_INFLUENCE entries each. Positions, normals, texture coordinates
   * and tangents are not part of this model.
   */
  class Vertex {
    const boneIds: array<int>
    const weights: array<real>

    /** Both arrays have exactly MAX_BONE_INFLUENCE slots. */
    predicate Valid()
    {
      boneIds.Length == MAX_BONE_INFLUENCE && weights.Length == MAX_BONE_INFLUENCE
    }

    constructor ()
      ensures Valid() && fresh(boneIds) && fresh(weights)
    {
      boneIds := new int[MAX_BONE_INFLUENCE];
      weights := new real[MAX_BONE_INFLUENCE];
    }

    /** The slots, slot i pairing m_BoneIDs[i] with m_Weights[i]. */
    ghost function Influences(): (s: seq<Influence>)
      requires Valid()
      reads boneIds, weights
      ensures |s| == MAX_BONE_INFLUENCE
      ensures forall i :: 0 <= i < MAX_BONE_INFLUENCE ==> s[i] == Influence(boneIds[i], weights[i])
    {
      seq(MAX_BONE_INFLUENCE, i requires 0 <= i < MAX_BONE_INFLUENCE reads boneIds, weights =>
        Influence(boneIds[i], weights[i]))
    }

    /** SetBoneDataDefault: empties every slot. */
    method SetBoneDataDefault()
      requires Valid()
      modifies boneIds, weights
      ensures Influences() == NoInfluences()
    {
      for i := 0 to MAX_BONE_INFLUENCE
        invariant forall j :: 0 <= j < i ==> boneIds[j] == -1 && weights[j] == 0.0
      {
        boneIds[i] := -1;
        weights[i] := 0.0;
      }
    }
  }

  // ---------------------------------------------------------------------------
  // Sampler uniform naming in Mesh::Draw

  /** struct Texture: the GL texture id, the sampler type name and the file path. */
  datatype Texture = Texture(id: nat, typeName: string, path: string)

  /** What Draw does for one texture: activate unit `unit`, set the sampler uniform to `unit`, bind the texture. */
  datatype SamplerBinding = SamplerBinding(unit: nat, uniform: string, textureId: nat)

  /** The four sampler types that Draw numbers. */
  predicate IsCountedType(name: string)
  {
    name == "texture_diffuse" || name == "texture_specular" || name == "texture_normal" || name == "texture_height"
  }

  /** How many of `textures` have type `name`. */
  function CountOfType(textures: seq<Texture>, name: string): nat
    decreases |textures|
  {
    if textures == [] then 0
    else CountOfType(textures[..|textures| - 1], name) + (if textures[|textures| - 1].typeName == name then 1 else 0)
  }

  function DigitChar(d: nat): char
    requires d < 10
  {
    "0123456789"[d]
  }

  /** std::to_string for an unsigned counter: its decimal digits. */
  function DecimalString(n: nat): (s: string)
    ensures |s| >= 1
    ensures n >= 10 ==> |s| >= 2
    decreases n
  {
    if n < 10 then [DigitChar(n)] else DecimalString(n / 10) + [DigitChar(n % 10)]
  }

  /**
   * The uniform name Draw gives texture `i`: its type followed, for the four
   * counted types, by how many textures of that type the list holds up to and
   * including it; a type outside the four gets no suffix.
   */
  function UniformName(textures: seq<Texture>, i: nat): (r: string)
    requires i < |textures|
    ensures |textures[i].typeName| <= |r| && r[..|textures[i].typeName|] == textures[i].typeName
    ensures !IsCountedType(textures[i].typeName) ==> r == textures[i].typeName
  {
    var name := textures[i].typeName;
    name + (if IsCountedType(name) then DecimalString(CountOfType(textures[..i + 1], name)) else "")
  }

  /**
   * The sampler bookkeeping of Mesh::Draw: `hasTexture` is set when the list
   * is non-empty, and texture i is bound to unit i under its uniform name.
   */
  method Draw(textures: seq<Texture>) returns (hasTexture: bool, bindings: seq<SamplerBinding>)
    ensures hasTexture <==> |textures| > 0
    ensures |bindings| == |textures|
    ensures forall i :: 0 <= i < |textures| ==>
              bindings[i] == SamplerBinding(i, UniformName(textures, i), textures[i].id)
  {
    var diffuse: nat, normal: nat, specular: nat, height: nat := 1, 1, 1, 1;
    hasTexture := |textures| > 0;
    bindings := [];
    for i := 0 to |textures|
      invariant |bindings| == i
      invariant BoundInOrder(textures, bindings)
      invariant diffuse == 1 + CountOfType(textures[..i], "texture_diffuse")
      invariant specular == 1 + CountOfType(textures[..i], "texture_specular")
      invariant normal == 1 + CountOfType(textures[..i], "texture_normal")
      invariant height == 1 + CountOfType(textures[..i], "texture_height")
    {
      CountStep(textures, i, "texture_diffuse");
      CountStep(textures, i, "texture_specular");
      CountStep(textures, i, "texture_normal");
      CountStep(textures, i, "texture_height");
      var number := "";
      var name := textures[i].typeName;
      if name == "texture_diffuse" {
        number := DecimalString(diffuse);
        assert name + number == UniformName(textures, i);
        diffuse := diffuse + 1;
      } else if name == "texture_specular" {
        number := DecimalString(specular);
        assert name + number == UniformName(textures, i);
        specular := specular + 1;
      } else if name == "texture_normal" {
        number := DecimalString(normal);
        assert name + number == UniformName(textures, i);
        normal := normal + 1;
      } else if name == "texture_height" {
        number := DecimalString(height);
        assert name + number == UniformName(textures, i);
        height := height + 1;
      }
      var binding := SamplerBinding(i, name + number, textures[i].id);
      assert binding.uniform == UniformName(textures, i);
      BindingsGrow(textures, bindings, binding);
      bindings := bindings + [binding];
    }
  }

  /** Binding j of `bindings` is texture j's: unit j, its uniform name, its id. */
  predicate BoundInOrder(textures: seq<Texture>, bindings: seq<SamplerBinding>)
    requires |bindings| <= |textures|
  {
    forall j :: 0 <= j < |bindings| ==> bindings[j] == SamplerBinding(j, UniformName(textures, j), textures[j].id)
  }

  /** Appending the binding of the next texture keeps the bindings in order. */
  lemma BindingsGrow(textures: seq<Texture>, bindings: seq<SamplerBinding>, b: SamplerBinding)
    requires |bindings| < |textures| && BoundInOrder(textures, bindings)
    requires b == SamplerBinding(|bindings|, UniformName(textures, |bindings|), textures[|bindings|].id)
    ensures BoundInOrder(textures, bindings + [b])
  {
    var longer := bindings + [b];
    forall j | 0 <= j < |longer|
      ensures longer[j] == SamplerBinding(j, UniformName(textures, j), textures[j].id)
    {
      if j < |bindings| {
        assert longer[j] == bindings[j];
      }
    }
  }

  /** One more texture adds one to the count of its own type and nothing to the others. */
  lemma CountStep(textures: seq<Texture>, i: nat, name: string)
    requires i < |textures|
    ensures CountOfType(textures[..i + 1], name) ==
            CountOfType(textures[..i], name) + if textures[i].typeName == name then 1 else 0
  {
    assert textures[..i + 1][..i] == textures[..i];
  }

  // ---------------------------------------------------------------------------
  // Properties of the naming

  /** Different numbers print differently. */
  lemma {:induction false} DecimalStringInjective(a: nat, b: nat)
    requires DecimalString(a) == DecimalString(b)
    ensures a == b
    decreases a
  {
    var s := DecimalString(a);
    if a >= 10 && b >= 10 {
      assert s[|s| - 1] == DigitChar(a % 10) == DigitChar(b % 10);
      assert DecimalString(a / 10) == s[..|s| - 1] == DecimalString(b / 10);
      DecimalStringInjective(a / 10, b / 10);
    }
  }

  /** A later texture of a type has a strictly larger count of that type. */
  lemma {:induction false} CountOfTypeGrows(textures: seq<Texture>, i: nat, j: nat)
    requires i < j < |textures|
    ensures CountOfType(textures[..i + 1], textures[j].typeName) < CountOfType(textures[..j + 1], textures[j].typeName)
    decreases j
  {
    var name := textures[j].typeName;
    assert textures[..j + 1][..j] == textures[..j];
    if i + 1 < j {
      CountOfTypeMonotone(textures, i + 1, j, name);
    }
  }

  lemma {:induction false} CountOfTypeMonotone(textures: seq<Texture>, m: nat, n: nat, name: string)
    requires m <= n <= |textures|
    ensures CountOfType(textures[..m], name) <= CountOfType(textures[..n], name)
    decreases n
  {
    if m < n {
      assert textures[..n][..n - 1] == textures[..n - 1];
      CountOfTypeMonotone(textures, m, n - 1, name);
    }
  }

  /** Two textures of the same counted type never share a uniform name. */
  lemma SameTypeUniformsDistinct(textures: seq<Texture>, i: nat, j: nat)
    requires i < j < |textures|
    requires textures[i].typeName == textures[j].typeName && IsCountedType(textures[j].typeName)
    ensures UniformName(textures, i) != UniformName(textures, j)
  {
    var name := textures[j].typeName;
    var a := CountOfType(textures[..i + 1], name);
    var b := CountOfType(textures[..j + 1], name);
    CountOfTypeGrows(textures, i, j);
    if UniformName(textures, i) == UniformName(textures, j) {
      assert (name + DecimalString(a))[|name|..] == DecimalString(a);
      assert (name + DecimalString(b))[|name|..] == DecimalString(b);
      DecimalStringInjective(a, b);
    }
  }

  /** The first texture of a counted type is numbered 1. */
  lemma FirstOfTypeIsNumberedOne(textures: seq<Texture>, i: nat)
    requires i < |textures| && IsCountedType(textures[i].typeName)
    requires forall j :: 0 <= j < i ==> textures[j].typeName != textures[i].typeName
    ensures UniformName(textures, i) == textures[i].typeName + "1"
  {
    NoneOfType(textures[..i], textures[i].typeName);
    assert textures[..i + 1][..i] == textures[..i];
  }

  lemma {:induction false} NoneOfType(textures: seq<Texture>, name: string)
    requires forall j :: 0 <= j < |textures| ==> textures[j].typeName != name
    ensures CountOfType(textures, name) == 0
    decreases |textures|
  {
    if textures != [] {
      NoneOfType(textures[..|textures| - 1], name);
    }
  }
}
