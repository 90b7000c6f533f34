# Skeletal animation bookkeeping of the game engine's model loader

This project models, in Dafny, the bookkeeping core of `model.hpp` and `mesh.hpp`.
It leaves out the GPU and asset-import plumbing.

- **Bone registry.** `Model::ExtractBoneWeightForVertices` maps each bone name to an id and an offset matrix (`m_BoneInfoMap`). New names get the next value of `m_BoneCounter`. Each bone's vertex weights go into the vertices it moves.
- **Vertex bone slots.** Each vertex has `MAX_BONE_INFLUENCE` (4) slots. `Vertex::SetBoneDataDefault` empties them (id -1, weight 0). `Model::SetVertexBoneData` fills the first empty slot, or drops the weight when all four are taken.
- **Keyframes.** Covered: the bracket search of `GetPositionIndex`/`GetRotationIndex`/`GetScalingIndex`, including its fall-back to index 0; `GetLerpFactor`; the single-key short cuts of `Interpolate*`; and `FindNodeAnim`.
- **Pose.** `CalculateBoneTransform` walks the node tree depth first. It composes each node's local transform with its parent's global transform. For every registered bone it writes `global * offset` into that bone's slot of the pose buffer.
- **Animation clock.** `UpdateAnimation` samples clip 0 at `fmod(currentTime * ticksPerSecond, duration)`. It falls back to 25 ticks per second when the clip gives 0, and does nothing when the scene has no animation.
- **Small helpers.** `fillIndices` flattens face indices. `Mesh::Draw` numbers the sampler uniforms per type and sets the `hasTexture` flag. `loadMaterialTextures` splits a texture path into `filename` and `parentDir` and builds the `mappedName` used to look the texture up.

Matrices, vectors and quaternions are kept symbolic: `Transform.Mat4` is a term algebra with an uninterpreted product `Mul`. The proved facts about the pose are therefore structural: which slots get written, with which composition of factors, and which stay untouched. Times and weights are reals.

The source is C++, and the model follows its form:
- Code that changes state is written as methods: `class Model`, with the map and counter as fields; `class Vertex`, with its two slot arrays; the pose buffer as an `array`; and the loops of `fillIndices` and `Draw`. Each method is proved against a specification function.
- Read-only scans and the path arithmetic are functions, with lemmas about them.

Modules, one per file:
- `Common` (`common.dfy`)
- `Transform` (`transform.dfy`)
- `Keyframes` (`keyframes.dfy`)
- `BoneRegistry` (`bone_registry.dfy`)
- `Pose` (`pose.dfy`)
- `Mesh` (`mesh.dfy`)
- `Model` (`model.dfy`)
- `TexturePaths` (`texture_paths.dfy`)

## Model

| member | source | states |
|---|---|---|
| Transform.Mix | model.hpp:197 | mixing at factor 0 gives the first vector, at factor 1 the second, and mixing a vector with itself gives it back |
| Keyframes.FindChannelFrom | model.hpp:180-186 | the scan from channel `from` returns the first channel at or after it with the node's name, and none exactly when no such channel exists |
| Keyframes.FindNodeAnim | model.hpp:178-187 | the first channel, in channel order, whose name equals the node name; none (nullptr) iff no channel has that name |
| Keyframes.ScanKeys | model.hpp:237-243 | the loop from `index` returns the first i >= index with t < keys[i+1].time, or 0 when the loop runs out |
| Keyframes.KeyIndex | model.hpp:235-263 | with n >= 2 keys the index is in [0, n-2] so index+1 is a key; it is the first i with t < keys[i+1].time, and 0 when there is none; with one key it is 0 |
| Keyframes.LerpFactor | model.hpp:228-233 | the factor is 0 at the earlier key, 1 at the later one, in [0,1) between them and above 1 past the later one |
| Keyframes.SampleVec | model.hpp:189-199 | a single-key track yields key 0's value whatever the time |
| Keyframes.SampleQuat | model.hpp:201-214 | a single-key rotation track yields key 0's orientation whatever the time |
| Keyframes.InterpolateTranslation | model.hpp:189-199 | with one position key the result is the translation by key 0 and does not depend on the time |
| Keyframes.InterpolateRotation | model.hpp:201-214 | with one rotation key the result is the rotation by key 0 and does not depend on the time |
| Keyframes.InterpolateScaling | model.hpp:216-226 | with one scaling key the result is the scale by key 0 and does not depend on the time |
| Keyframes.BracketHoldsTime | model.hpp:194-196 | inside the span of the keys, the bracket found holds t (keys[i].time <= t < keys[i+1].time), so the lerp factor is in [0,1) |
| Keyframes.SampleVecAtKey | model.hpp:194-198 | sampling at the time of any key but the last yields that key's value |
| Keyframes.SampleVecAtLastOfTwo | model.hpp:194-198 | with two keys, sampling at the second key's time yields its value |
| Keyframes.PastLastKeyUsesFirstSegment | model.hpp:235-243 | with three or more keys, a time at or past the last key falls back to index 0 and is extrapolated on the first segment with a factor above 1 |
| BoneRegistry.EmptyRegistry | model.hpp:119-120 | the registry of a new Model is dense and hands out no ids |
| BoneRegistry.Register | model.hpp:338-352 | a known name returns its id and changes nothing; a new name gets id = counter, its offset is stored and the counter goes up by 1; other entries are kept and density is preserved |
| BoneRegistry.RegisterTwice | model.hpp:340-352 | registering a name a second time returns the first id and keeps the first offset |
| BoneRegistry.RegisterAll | model.hpp:336-352 | registering a list of bones raises the counter by at most one per bone and never lowers it |
| BoneRegistry.RegisterAllKeepsDense | model.hpp:336-352 | any sequence of registrations keeps counter == number of names, ids below the counter and ids distinct |
| BoneRegistry.RegisterAllNames | model.hpp:336-352 | after registering bones the names are the old ones plus the bones' names, and old entries keep their id and offset |
| BoneRegistry.DenseIdsAreRange | model.hpp:342-347 | in a dense registry the ids are exactly {0 .. counter-1} |
| Pose.LocalTransformChoice | model.hpp:153-162 | the local transform is the rest transform when no channel names the node, and T*R*S of the first channel with its name otherwise |
| Pose.Visits | model.hpp:150-175 | the walk starts at the node itself and makes exactly one visit per node of its tree |
| Pose.ChildVisits | model.hpp:174-175 | the walks of the first k children make one visit per node of those children's trees |
| Pose.WritePose | model.hpp:167-171 | writing the visits keeps the buffer's size; which slots change is stated by the three lemmas below |
| Pose.WritePoseAppend | model.hpp:167-175 | writing the visits of two walks in turn is writing their concatenation |
| Pose.WritePoseUntouched | model.hpp:167-171 | a slot owned by no visited registered bone keeps its old value |
| Pose.WritePoseLastWriter | model.hpp:167-171 | the slot of a visited registered bone holds its `global * offset` unless a later visit writes the same slot |
| Pose.PoseOfUniqueBone | model.hpp:167-171 | with a dense registry and distinct node names, every visited registered bone's slot ends up holding its own `global * offset` |
| Pose.ChildVisitsPrefix | model.hpp:174-175 | the walks of the first k1 children come first among those of the first k2 children |
| Pose.ChildSubtreeVisits | model.hpp:150-175 | the walk visits the node first with `parent * local`; child i's whole walk, started from that global transform, is one contiguous run after the earlier children's runs |
| Pose.SingleKeyVisitsTimeInvariant | model.hpp:150-175 | when every channel track has a single key, the walk (and so the pose) does not depend on the animation time |
| Pose.SingleKeyChildVisitsTimeInvariant | model.hpp:174-175 | the same time independence for the walks of a node's children |
| Mesh.Vertex.constructor | mesh.hpp:23-24 | a vertex has MAX_BONE_INFLUENCE id slots and as many weight slots, in arrays of its own |
| Mesh.Vertex.SetBoneDataDefault | mesh.hpp:26-33 | afterwards all four ids are -1 and all four weights 0 |
| Mesh.UniformName | mesh.hpp:103-121 | the uniform name starts with the texture's type; a type outside the four counted ones gets no suffix |
| Mesh.Draw | mesh.hpp:92-123 | hasTexture iff the list is non-empty; texture i is bound to unit i under type + (1-based count of its type up to and including it) |
| Mesh.DecimalStringInjective | mesh.hpp:107-117 | different counter values print as different suffixes |
| Mesh.CountOfTypeGrows | mesh.hpp:103-117 | a later texture of a type has a strictly larger count of that type |
| Mesh.CountOfTypeMonotone | mesh.hpp:103-117 | the count of a type never decreases along the list |
| Mesh.SameTypeUniformsDistinct | mesh.hpp:103-121 | two textures of the same counted type never get the same uniform name |
| Mesh.FirstOfTypeIsNumberedOne | mesh.hpp:94-108 | the first texture of a counted type is named type + "1" |
| Mesh.NoneOfType | mesh.hpp:94-97 | a list without a type counts 0 of it, so the counter starts at 1 |
| Model.FirstEmptySlot | model.hpp:323-331 | the lowest slot whose id is negative, and none exactly when all slots are occupied |
| Model.AddBoneData | model.hpp:321-332 | (boneId, weight) goes into the lowest empty slot and nothing else changes; with all slots occupied the slots are unchanged; occupied slots are never overwritten |
| Model.ApplyWeights | model.hpp:356-363 | adding one bone's weights keeps the number of vertices and of slots per vertex, and every slot is either unchanged or now holds that bone's id |
| Model.ExtractInfluences | model.hpp:334-364 | extracting the bones keeps the number of vertices and of slots per vertex |
| Model.ApplyWeightsElsewhere | model.hpp:356-362 | a vertex no weight names keeps its slots |
| Model.ExtractLeavesUnweightedVertex | model.hpp:334-364 | a vertex that no bone weighs keeps the slots it had |
| Model.ApplyWeightsRegistered | model.hpp:356-362 | adding a registered bone's weights keeps every occupied slot pointing at a registered id |
| Model.ExtractKeepsSlotsRegistered | model.hpp:334-364 | after extraction every occupied slot holds an id of the final registry |
| Model.Trunc | model.hpp:144 | rounding toward zero: the integer between q and 0 that is less than 1 away from q |
| Model.FMod | model.hpp:144 | for a non-negative dividend and positive divisor the remainder lies in [0, divisor) |
| Model.TicksPerSecond | model.hpp:142 | the clip's own rate when it is non-zero, 25 ticks per second when the file gives 0 |
| Model.ClipTime | model.hpp:141-144 | for a forward clock and rate the sampled clip time lies in [0, duration) |
| Model.ClipTimeLoops | model.hpp:144 | one more clip length of ticks gives the same clip time |
| Model.FillIndices | model.hpp:101-114 | the output is every face's indices in face order, and its length is the sum of the face sizes |
| Model.FlattenLength | model.hpp:101-114 | the flattened list has as many indices as the faces together |
| Model.FlattenAt | model.hpp:101-114 | index k of face f sits at position (sizes of the faces before f) + k |
| Model.Model.constructor | model.hpp:119-120 | before any mesh is processed, a Model has an empty bone map and counter 0 |
| Model.Model.SetVertexBoneData | model.hpp:321-332 | the vertex's slots become AddBoneData of its old slots |
| Model.Model.ExtractBoneWeightForVertices | model.hpp:334-364 | the registry becomes the old one with every bone registered in order, and every vertex's slots become those of adding each bone's weights under that bone's id |
| Model.Model.ExtractBone | model.hpp:338-363 | one bone: the registry is updated by Register and its weights are added under the id Register returns |
| Model.Model.FindOrAddBone | model.hpp:338-352 | the map, counter and id change exactly as Register says |
| Model.Model.SetVertexBoneDataIn | model.hpp:358-362 | SetVertexBoneData on one vertex changes that vertex's slots only |
| Model.Model.AddBoneWeights | model.hpp:356-363 | the slots of all vertices become those of adding the bone's weights one after another |
| Model.Model.WriteNodePose | model.hpp:152-171 | the node's global transform is `parent * local`, and the buffer becomes the old one with that single visit written |
| Model.Model.CalculateBoneTransform | model.hpp:150-176 | the pose buffer becomes the old one with the walk's visits written in visit order: registered bones only, `parent * local * offset` each |
| Model.Model.UpdateAnimation | model.hpp:137-148 | with no animation nothing is written; otherwise the walk of clip 0 from the root at the clip time, with the identity as parent, is written |
| TexturePaths.SizeSub | model.hpp:420-421 | size_t subtraction of two size_t values: the difference when it is not negative, otherwise the difference plus 2^64 |
| TexturePaths.FindLastOf | model.hpp:413-414 | the last position at or before pos holding one of the characters, none when there is none |
| TexturePaths.LastSpec | model.hpp:413-415 | when a position is found, it holds a separator ('/' or '\\') |
| TexturePaths.LastSpecIsLastSeparator | model.hpp:413-415 | combining the last '\\' and the last '/' finds the last separator of either kind |
| TexturePaths.Substr | model.hpp:421 | at most count characters from pos, all of the rest when count runs past the end |
| TexturePaths.Filename | model.hpp:417 | the file name is a suffix of the path: the whole path when there is no separator, otherwise the characters after the last one |
| TexturePaths.ParentDirAsWritten | model.hpp:418-422 | parentDir as the code computes it: empty without a separator, never longer than the path |
| TexturePaths.ParentDir | model.hpp:418-422 | the corrected parentDir: empty without a separator and when the last separator is the first character |
| TexturePaths.MappedName | model.hpp:428-431 | a name other than "diffuse.png", or an empty directory, keeps the file name; otherwise the name has the form "diffuse_" ... ".png" |
| TexturePaths.NamesOf | model.hpp:413-431 | as written: the file name is the whole path without a separator, else what follows the last separator, and holds no separator; parentDir is the separator-free segment that ends at the last separator and starts after the previous one or at the start, and is the file name itself when the only separator is the first character; mappedName is "diffuse_" + parentDir + ".png" ("diffuse_helmets.png" for "helmet") for "diffuse.png" under a non-empty parentDir, else the file name |
| TexturePaths.NamesOfCorrected | model.hpp:413-431 | the same split with the corrected parentDir, which is empty when the only separator is the first character |
| TexturePaths.ParentDirAsWrittenSplit | model.hpp:418-422 | parentDir as written: empty without a separator, the file name when the last separator is first, otherwise the separator-free segment ending at the last separator |
| TexturePaths.ParentDirSplit | model.hpp:418-422 | the corrected parentDir: empty without a separator or when the last separator is first, otherwise the separator-free segment ending at the last separator |
| TexturePaths.AsWrittenBetween | model.hpp:420-421 | with a previous separator at p before the last one at k, the size_t arithmetic as written cuts out exactly the characters between them |
| TexturePaths.FromStart | model.hpp:420-421 | with no separator before the last one at k, both versions cut out the first k characters |
| TexturePaths.AsWrittenLeading | model.hpp:420-421 | when the only separator is the first character, parentDir as written equals the file name |
| TexturePaths.CorrectedBetween | model.hpp:420-421 | with a previous separator at p, the corrected parentDir is the characters between p and the last separator |
| TexturePaths.FilenameSplits | model.hpp:417 | the file name holds no separator; it is the whole path without separators, otherwise what follows the last separator |
| TexturePaths.ParentDirHasNoSeparator | model.hpp:418-422 | the directory segment holds no separator |
| TexturePaths.ParentDirPrecedesLastSeparator | model.hpp:418-422 | the directory segment ends right at the last separator and starts after the previous separator or at the start; it is empty without separators |
| TexturePaths.ParentDirAgrees | model.hpp:418-422 | the code as written and the corrected segment agree unless the only separator is the first character |
| TexturePaths.LeadingSeparatorSplit | model.hpp:413-417 | "/diffuse.png" has its last separator at 0 and file name "diffuse.png" |
| TexturePaths.DiffuseUnderDiffuse | model.hpp:428-430 | "diffuse.png" under a directory named "diffuse.png" is looked up as "diffuse_diffuse.png.png" |
| TexturePaths.LeadingSeparatorAsWritten | model.hpp:420-421 | as written, "/diffuse.png" gets parentDir "diffuse.png" and is looked up as "diffuse_diffuse.png.png" |
| TexturePaths.LeadingSeparatorCorrected | model.hpp:418-431 | corrected, "/diffuse.png" has no directory segment and keeps the name "diffuse.png" |
| TexturePaths.MappedNameChanges | model.hpp:428-431 | the name changes iff it is "diffuse.png" with a non-empty directory segment |
| TexturePaths.MappedNameRecoversDir | model.hpp:430 | apart from "helmet", the directory segment can be read back from "diffuse_<dir>.png" |
| TexturePaths.MappedNameInjective | model.hpp:429-431 | two directories give the same mapped name only when they are "helmet" and "helmets" |

## Left out

- Asset import is not modelled: `loadModel`, `processNode`, `processMesh` and `fillVertices` read `aiScene`/`aiMesh` structures. Their outputs enter the model as inputs: a node tree, a channel list, a bone list per mesh and a face list.
- `loadTexture` and the forced texture paths are not modelled, because they call stb_image and OpenGL. The same holds for the GL calls of `Draw`, `setupMesh` and `bindbuffer`.
- The texture lookup order (`mappedPath`, then `texturesDir + filename`, then `fullPath`) is not modelled, because it depends on which files load.
- Floating point is not modelled: times, weights and lerp factors are exact reals, and `glm::mix` is exact linear interpolation. `glm::slerp`, `mat4_cast`, `glm::translate` and `glm::scale` are symbolic constructors, and matrix products are the uninterpreted `Mul`.
- The `AssimpGLMHelpers` conversions are not modelled: matrices and vectors arrive already converted.
- main.cpp and shader.cpp are not part of this model: window, input, audio, camera, frame timing and shader plumbing. The 100-slot pose buffer of main.cpp is the caller's `transforms` array.
- The 32-bit width of `int m_BoneCounter` and of the `unsigned int` texture counters is not modelled; the model's counters are unbounded.
- Vertices are `Vertex` objects that each own their two slot arrays, with no two vertices sharing an array. This is the value semantics of `vector<Vertex>`; other aliasing is not modelled.
- Model.Model.ExtractBoneWeightForVertices: requires every vertex id to be below the number of vertices. The source's `assert(vertexId <= vertices.size())` admits one past the end, which would write out of bounds.
- Model.Model.CalculateBoneTransform: requires every registered id to be a slot of `transforms`. The source does not check this.
- Model.Model.UpdateAnimation: requires clip 0 to have a non-zero duration, where `fmod` would yield NaN. It also requires every channel of clip 0 to be well formed (`WellFormedAnimation`): at least one key per track, with strictly increasing key times. This is the data invariant of the importer's channels, not a check the source makes. Without it the source reads past the end of an empty track (the key loop at model.hpp:237-241 and the key reads at model.hpp:196), and divides by zero in `GetLerpFactor` on equal timestamps. With distinct but unordered times it runs, but the bracket search has no meaning. The requirement covers every channel, including channels that no node names.
- Model.Model.CalculateBoneTransform, Model.Model.WriteNodePose, Pose.LocalTransform, Pose.Visits, Pose.ChildVisits, Keyframes.SampleVec, Keyframes.SampleQuat, Keyframes.InterpolateTranslation, Keyframes.InterpolateRotation, Keyframes.InterpolateScaling: require the same well-formed channels or tracks, for the same reason.
- Keyframes.LerpFactor: requires the two key times to differ. Equal timestamps divide by zero in the source.
- Model.FMod: requires a non-zero divisor. The source's `fmod` yields NaN there.
- TexturePaths.LastSpecIsLastSeparator: requires the path to be shorter than `npos`, as every `std::string` is. The same bound appears in TexturePaths.ParentDirAsWritten, TexturePaths.NamesOf, TexturePaths.NamesOfCorrected and the path lemmas.
- TexturePaths.LastSpec: its own contract states only that the position found holds a separator. That it is the last separator of either kind is stated by TexturePaths.LastSpecIsLastSeparator.
- Pose.LocalTransform: has no contract of its own. What it picks (the rest transform, or T * R * S of the first channel with the node's name) is stated by Pose.LocalTransformChoice.

## Findings

| source | as written | input that shows it | evidently intended | confidence | as-written member | corrected member |
|---|---|---|---|---|---|---|
| model.hpp:420-421 | when the last separator is at position 0, `lastSpec - 1` wraps to `npos`. The search then finds the same separator again (`prevSpec == lastSpec`), and `lastSpec - prevSpec - 1` wraps too, so `parentDir` is everything after the separator | `"/diffuse.png"`: parentDir is `"diffuse.png"` and the mapped name is `"diffuse_diffuse.png.png"` | no directory segment (`""`), so `"diffuse.png"` keeps its name | high; not executed | TexturePaths.LeadingSeparatorAsWritten | TexturePaths.LeadingSeparatorCorrected |
