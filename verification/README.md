# Bone chain and Vector3 algebra of the `gm` geometry toolkit

This project models two parts of a small C++ 3D geometry and kinematics
library and proves properties of the models in Dafny.

**`Kinematics` (skeleton.dfy)** models `Skeleton`, an append-only chain
of bones.
- Bones live in an external arena: `map<BoneId, Option<BoneId>>` gives each
  bone's single child link. A bone missing from the map has no child.
- A skeleton records its `root` (the first bone appended), its `tail` (the
  last bone appended, `end_bode` in the source) and the arena.
- A bone pointer that may be null is an `Option<BoneId>`.
- `AddBone` is `add_bone`. On an empty skeleton the bone becomes root and
  tail. Otherwise it becomes the child of the tail and then the tail.
- `AllBones` is `all_bones`: the do-while walk from the root that collects
  bones until a null child link.
- `AllBones` requires `Traversable`: no bone is reached twice on the walk
  from the root. Its loop terminates by a counting argument: the bones
  collected are distinct and all lie in the arena. `ChainAcyclic` proves
  the converse, so the precondition asks for no more than termination.

**`Vectors` (vector3.dfy)** models the structural algebra of `Vector3`
over `real` components:
- single-component replacement (`with_x/y/z`) and increment (`adding_x/y/z`);
- the y/z swap `flip_height`;
- `cross` and `dot`;
- the component-wise `+ - *` operators against a vector and `+ - * /`
  against a scalar, in value-returning and compound form. A compound form
  returns the receiver's new value.

Every compound operator but one leaves its receiver equal to the result of
its value-returning form. The exception is the compound scalar `-=`:
scalar `-` (Vector3.cpp:169-175) subtracts, but `-=` (177-181) repeats the
body of `/=` (147-152) and divides. `SubScalarAssignAsWritten` models the
code as written. `SubScalarAssign` subtracts, matching scalar `-`. See
Findings.

## Model

| member | source | states |
|---|---|---|
| Kinematics.AddBone | source/3D/kinematics/Skeleton.cpp:13-24 | On an empty skeleton the bone becomes root and tail and no link changes. On a non-empty one the old tail's child becomes the bone and the bone becomes the tail. The root stays, and no other bone's child changes. A null tail under a non-null root is an error. |
| Kinematics.AllBones | source/3D/kinematics/Skeleton.cpp:26-40 | Terminates whenever the walk from the root never revisits a bone. Returns the empty sequence exactly when the root is null. Otherwise it returns a sequence that starts at the root, where each bone's child is the next one and the last bone has no child. |
| Kinematics.ChainUnique | source/3D/kinematics/Skeleton.cpp:32-38 | Only one sequence is a chain from a given bone, so the result of `all_bones` is fully determined. |
| Kinematics.ChainFollow | source/3D/kinematics/Skeleton.cpp:34-38 | Walking child links from the root visits the chain's bones in order, then reaches null. |
| Kinematics.ChainDistinct | source/3D/kinematics/Skeleton.cpp:34-38 | No bone occurs twice in a chain. |
| Kinematics.ChainAcyclic | source/3D/kinematics/Skeleton.cpp:32-38 | If a finite chain hangs from a bone, the walk from it never revisits a bone. So the precondition of `AllBones` holds whenever the do-while loop ends. |
| Kinematics.TracksLists | source/3D/kinematics/Skeleton.cpp:13-40 | A skeleton built by appending `bs` (root first, tail last) is traversable, and `bs` is the one and only sequence `all_bones` can return. |
| Kinematics.AddBoneExtends | source/3D/kinematics/Skeleton.cpp:13-24 | Appending a fresh, childless bone to a skeleton built from `bs` gives a skeleton built from `bs + [b]`. |
| Kinematics.AllBonesGrowsByOne | source/3D/kinematics/Skeleton.cpp:13-40 | After one more append, `all_bones` is the previous result with the new bone at the end, one element longer. |
| Kinematics.AddAllTracks | source/3D/kinematics/Skeleton.cpp:13-24 | Appending distinct childless bones one at a time succeeds at every step, and the chain equals everything appended so far. |
| Kinematics.AppendOrder | source/3D/kinematics/Skeleton.cpp:13-40 | From an empty skeleton, after appending distinct childless bones, `all_bones` returns exactly those bones in append order, and the last one appended is the tail. With no appends the result is empty. |
| Kinematics.NullBoneStrandsTail | source/3D/kinematics/Skeleton.cpp:15-22 | Appending a null bone to a non-empty chain keeps the chain and nulls the tail. The next append then dereferences null (an error here). |
| Vectors.WithX | source/geometry/3D/Vector3.cpp:33 | The x component is the given value; y and z are unchanged. |
| Vectors.WithY | source/geometry/3D/Vector3.cpp:34 | The y component is the given value; x and z are unchanged. |
| Vectors.WithZ | source/geometry/3D/Vector3.cpp:35 | The z component is the given value; x and y are unchanged. |
| Vectors.WithLastWins | source/geometry/3D/Vector3.cpp:33-35 | Replacing a component with its own value changes nothing. Of two replacements of the same component, the second wins. |
| Vectors.AddingX | source/geometry/3D/Vector3.cpp:37 | Same as replacing x with x plus the value; y and z are unchanged. |
| Vectors.AddingY | source/geometry/3D/Vector3.cpp:38 | Same as replacing y with y plus the value; x and z are unchanged. |
| Vectors.AddingZ | source/geometry/3D/Vector3.cpp:39 | Same as replacing z with z plus the value; x and y are unchanged. |
| Vectors.AddingAccumulates | source/geometry/3D/Vector3.cpp:37-39 | Two increments of one component add up, and adding `-a` undoes adding `a`. |
| Vectors.FlipHeight | source/geometry/3D/Vector3.cpp:74-77 | y and z are exchanged and x is kept. |
| Vectors.FlipHeightInvolution | source/geometry/3D/Vector3.cpp:74-77 | Flipping twice gives back the original vector. |
| Vectors.CrossOrthogonal | source/geometry/3D/Vector3.cpp:53-63 | The cross product has zero dot product with each of its operands. |
| Vectors.CrossUnitAxes | source/geometry/3D/Vector3.cpp:53-59 | Crossing the x, y or z unit axis with any `b` gives `{0, -b.z, b.y}`, `{b.z, 0, -b.x}` or `{-b.y, b.x, 0}`, the right-hand rule. |
| Vectors.CrossRightHanded | source/geometry/3D/Vector3.cpp:53-59 | x × y = z, y × z = x and z × x = y on the unit axes. |
| Vectors.CrossHomogeneous | source/geometry/3D/Vector3.cpp:53-59 | Scaling the first operand by `s` scales the cross product by `s`. With additivity and `CrossUnitAxes`, this fixes every value of the cross product. |
| Vectors.CrossAlgebra | source/geometry/3D/Vector3.cpp:53-59 | `a × b` is `b × a` scaled by -1. `a × a` is the zero vector. The cross product is additive in its first operand. |
| Vectors.DotSymmetricBilinear | source/geometry/3D/Vector3.cpp:61-63 | `a · b == b · a`, and `(a + b) · c == a · c + b · c`. |
| Vectors.AddAssign | source/geometry/3D/Vector3.cpp:87-92 | Leaves the receiver equal to the value-returning `+` with the same operand. |
| Vectors.SubAssign | source/geometry/3D/Vector3.cpp:102-107 | Leaves the receiver equal to the value-returning `-` with the same operand. |
| Vectors.MulAssign | source/geometry/3D/Vector3.cpp:117-122 | Leaves the receiver equal to the value-returning component-wise `*`. |
| Vectors.AddSubInverse | source/geometry/3D/Vector3.cpp:79-100 | `(a + b) - b == a` and `(a - b) + b == a`. Addition commutes and the zero vector is its identity. `a - a` is zero. |
| Vectors.MulProperties | source/geometry/3D/Vector3.cpp:109-130 | The component-wise product commutes and has the all-ones vector as identity. Multiplying by the scalar `s` equals the component-wise product with `{s, s, s}`. |
| Vectors.ScaleAssign | source/geometry/3D/Vector3.cpp:132-137 | Leaves the receiver equal to the value-returning scalar `*`. |
| Vectors.DivAssign | source/geometry/3D/Vector3.cpp:147-152 | Leaves the receiver equal to the value-returning scalar `/`. |
| Vectors.AddScalarAssign | source/geometry/3D/Vector3.cpp:162-167 | Leaves the receiver equal to the value-returning scalar `+`. |
| Vectors.SubScalarAssignAsWritten | source/geometry/3D/Vector3.cpp:177-182 | As written, the compound scalar `-=` leaves the receiver equal to the value-returning scalar `/`, not scalar `-`. |
| Vectors.SubScalarAssign | source/geometry/3D/Vector3.cpp:169-175 | The corrected compound scalar `-=` leaves the receiver equal to the value-returning scalar `-`. |
| Vectors.SubScalarAssignAsWrittenDiffers | source/geometry/3D/Vector3.cpp:169-182 | For every vector, the as-written `-=` with scalar `1` leaves the vector unchanged, which differs from scalar `-` and from the corrected `-=`. On `{1, 1, 1}` it gives `{1, 1, 1}`, while scalar `-` gives the zero vector. |
| Vectors.ScalarInverses | source/geometry/3D/Vector3.cpp:124-175 | Scalar `+` and `-` undo each other. Scaling by `s` and dividing by `s` undo each other for non-zero `s`. The compound scalar `+=` followed by the corrected `-=` restores the vector. |
| Vectors.ScaleDistributes | source/geometry/3D/Vector3.cpp:124-130 | Scaling distributes over vector addition, and `(s a) · b == s (a · b)`. |

## Left out

- `length`, `set_length`, `with_length`, `normalize`, `normalized` (Vector3.cpp:21-31, 65-72): they need `sqrt` and divide by the length without a guard. This is floating-point numerics with no exact real counterpart.
- `rotated_x/y/z` and `orbit_shift` (Vector3.cpp:41-43, 184-190): they use the rotation-matrix factory of `Matrix4`, which is not part of this model, and trigonometry.
- `xy_angle` and `xz_angle` (Vector3.cpp:45-51): thin wrappers around `std::atan2`.
- `to_string` (Vector3.cpp:192-194): its text depends on `std::to_string` float formatting.
- `point` (Vector3.cpp:17-19): a `reinterpret_cast` of the component storage, a memory-layout trick.
- `Color` and `Size` (source/Color.hpp, source/2D/Primitives/Size.hpp): declarations only, with no behaviour to model. `Color::random` is also nondeterministic.
- IEEE `float` rounding, infinities and NaN: components are `real`, so every identity above holds exactly. Rounding could break some of them for floats.
- Vectors.Div: requires a non-zero divisor. In the source, dividing by zero gives infinities or NaN, and `real` has no such values.
- Vectors.DivAssign: requires a non-zero divisor, for the same reason as `Div`.
- Vectors.SubScalarAssignAsWritten: requires a non-zero divisor, for the same reason as `Div`.
- The return of a self-reference from compound operators and `flip_height`, used for chaining. Each compound form returns the receiver's new value instead.
- Ownership and lifetime of `Bone` storage, held through raw non-owning pointers. Every `BoneId` stands for a live bone, so a dangling pointer is not modelled.
- `Bone` itself is not part of this model. Only its child link is kept, as the arena's map. The model assumes that `add_child` overwrites that link and that `child` reads it.
- Kinematics.AllBones: on a chain whose child links loop back, the source's do-while never ends. The model instead requires `Traversable`, meaning no bone is reached twice from the root. `ChainAcyclic` shows this holds whenever the walk ends, so the requirement is exactly termination.
- Thread safety: the code is single-threaded.
- `all_bones` is `const`. Here it is a method over an immutable value, so it cannot change the skeleton.

## Findings

| source | as written | input that shows it | evidently intended | confidence | as-written member | corrected member |
|---|---|---|---|---|---|---|
| source/geometry/3D/Vector3.cpp:177-181 | the compound scalar `-=` divides each component by the scalar | `{1, 1, 1} -= 1` leaves `{1, 1, 1}`; scalar `-` gives `{0, 0, 0}` | subtract the scalar from each component, as scalar `-` does (Vector3.cpp:169-175) | high; not executed | Vectors.SubScalarAssignAsWritten, Vectors.SubScalarAssignAsWrittenDiffers | Vectors.SubScalarAssign |
