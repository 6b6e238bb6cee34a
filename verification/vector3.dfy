/** A model of the structural algebra of `Vector3`: single-component
    replacement and increment, the y/z swap, cross and dot products, and
    the component-wise operators in their value-returning and compound
    forms.

    Components are `real`, an idealisation of the source's `float`. A
    compound operator mutates its receiver in place; here it returns the
    receiver's new value.
 */
module Vectors {

  datatype Vector3 = Vector3(x: real, y: real, z: real)

  const Zero: Vector3 := Vector3(0.0, 0.0, 0.0)

  // ---------------------------------------------------------------------
  // Single-component replacement and increment
  // ---------------------------------------------------------------------

  /** `with_x`: a copy whose x component is `value`. */
  function WithX(v: Vector3, value: real): (r: Vector3)
    ensures r.x == value && r.y == v.y && r.z == v.z
  {
    v.(x := value)
  }

  /** `with_y`: a copy whose y component is `value`. */
  function WithY(v: Vector3, value: real): (r: Vector3)
    ensures r.y == value && r.x == v.x && r.z == v.z
  {
    v.(y := value)
  }

  /** `with_z`: a copy whose z component is `value`. */
  function WithZ(v: Vector3, value: real): (r: Vector3)
    ensures r.z == value && r.x == v.x && r.y == v.y
  {
    v.(z := value)
  }

  /** `adding_x`: a copy with `value` added to x only. */
  function AddingX(v: Vector3, value: real): (r: Vector3)
    ensures r == WithX(v, v.x + value)
  {
    v.(x := v.x + value)
  }

  /** `adding_y`: a copy with `value` added to y only. */
  function AddingY(v: Vector3, value: real): (r: Vector3)
    ensures r == WithY(v, v.y + value)
  {
    v.(y := v.y + value)
  }

  /** `adding_z`: a copy with `value` added to z only. */
  function AddingZ(v: Vector3, value: real): (r: Vector3)
    ensures r == WithZ(v, v.z + value)
  {
    v.(z := v.z + value)
  }

  /** Replacing a component with its own value changes nothing, and a
      second replacement of the same component overrides the first. */
  lemma WithLastWins(v: Vector3, a: real, b: real)
    ensures WithX(v, v.x) == v && WithY(v, v.y) == v && WithZ(v, v.z) == v
    ensures WithX(WithX(v, a), b) == WithX(v, b)
    ensures WithY(WithY(v, a), b) == WithY(v, b)
    ensures WithZ(WithZ(v, a), b) == WithZ(v, b)
  {
  }

  /** Increments on one component accumulate, and adding `-a` undoes adding `a`. */
  lemma AddingAccumulates(v: Vector3, a: real, b: real)
    ensures AddingX(AddingX(v, a), b) == AddingX(v, a + b)
    ensures AddingY(AddingY(v, a), b) == AddingY(v, a + b)
    ensures AddingZ(AddingZ(v, a), b) == AddingZ(v, a + b)
    ensures AddingX(AddingX(v, a), -a) == v
    ensures AddingY(AddingY(v, a), -a) == v
    ensures AddingZ(AddingZ(v, a), -a) == v
  {
  }

  // ---------------------------------------------------------------------
  // Axis convention swap
  // ---------------------------------------------------------------------

  /** `flip_height`: exchange the y and z components, keep x. */
  function FlipHeight(v: Vector3): (r: Vector3)
    ensures r.x == v.x && r.y == v.z && r.z == v.y
  {
    Vector3(v.x, v.z, v.y)
  }

  /** Flipping twice restores the vector. */
  lemma FlipHeightInvolution(v: Vector3)
    ensures FlipHeight(FlipHeight(v)) == v
  {
  }

  // ---------------------------------------------------------------------
  // Products
  // ---------------------------------------------------------------------

  /** `dot`: the inner product. */
  function Dot(a: Vector3, b: Vector3): real
  {
    a.x * b.x + a.y * b.y + a.z * b.z
  }

  /** `cross`: the right-handed cross product. */
  function Cross(a: Vector3, b: Vector3): Vector3
  {
    Vector3(a.y * b.z - a.z * b.y,
            a.z * b.x - a.x * b.z,
            a.x * b.y - a.y * b.x)
  }

  /** The cross product is orthogonal to both of its operands. */
  lemma CrossOrthogonal(a: Vector3, b: Vector3)
    ensures Dot(a, Cross(a, b)) == 0.0
    ensures Dot(b, Cross(a, b)) == 0.0
  {
  }

  /** The dot product is symmetric and additive in its first operand. */
  lemma DotSymmetricBilinear(a: Vector3, b: Vector3, c: Vector3)
    ensures Dot(a, b) == Dot(b, a)
    ensures Dot(Add(a, b), c) == Dot(a, c) + Dot(b, c)
  {
  }

  /** The cross product is anti-commutative, vanishes on a vector with
      itself and is additive in its first operand. */
  lemma CrossAlgebra(a: Vector3, b: Vector3, c: Vector3)
    ensures Cross(a, b) == Scale(Cross(b, a), -1.0)
    ensures Cross(a, a) == Zero
    ensures Cross(Add(a, b), c) == Add(Cross(a, c), Cross(b, c))
  {
  }

  /** Crossing a unit axis with any vector, as the right-hand rule gives it. */
  lemma CrossUnitAxes(b: Vector3)
    ensures Cross(Vector3(1.0, 0.0, 0.0), b) == Vector3(0.0, -b.z, b.y)
    ensures Cross(Vector3(0.0, 1.0, 0.0), b) == Vector3(b.z, 0.0, -b.x)
    ensures Cross(Vector3(0.0, 0.0, 1.0), b) == Vector3(-b.y, b.x, 0.0)
  {
  }

  /** The cross product follows the right-hand rule on the unit axes:
      x × y = z, y × z = x and z × x = y. */
  lemma CrossRightHanded()
    ensures Cross(Vector3(1.0, 0.0, 0.0), Vector3(0.0, 1.0, 0.0)) == Vector3(0.0, 0.0, 1.0)
    ensures Cross(Vector3(0.0, 1.0, 0.0), Vector3(0.0, 0.0, 1.0)) == Vector3(1.0, 0.0, 0.0)
    ensures Cross(Vector3(0.0, 0.0, 1.0), Vector3(1.0, 0.0, 0.0)) == Vector3(0.0, 1.0, 0.0)
  {
    CrossUnitAxes(Vector3(0.0, 1.0, 0.0));
    CrossUnitAxes(Vector3(0.0, 0.0, 1.0));
    CrossUnitAxes(Vector3(1.0, 0.0, 0.0));
  }

  lemma ScaleOutOfDifference(p: real, q: real, u: real, w: real, s: real)
    ensures (p * s) * q - (u * s) * w == (p * q - u * w) * s
  {
    assert (p * s) * q == (p * q) * s;
    assert (u * s) * w == (u * w) * s;
  }

  /** The cross product is homogeneous in its first operand. With
      additivity in the first operand and `CrossUnitAxes` this fixes every
      value of `Cross`. */
  lemma CrossHomogeneous(a: Vector3, b: Vector3, s: real)
    ensures Cross(Scale(a, s), b) == Scale(Cross(a, b), s)
  {
    var lhs := Cross(Scale(a, s), b);
    var rhs := Scale(Cross(a, b), s);
    assert lhs.x == rhs.x by { ScaleOutOfDifference(a.y, b.z, a.z, b.y, s); }
    assert lhs.y == rhs.y by { ScaleOutOfDifference(a.z, b.x, a.x, b.z, s); }
    assert lhs.z == rhs.z by { ScaleOutOfDifference(a.x, b.y, a.y, b.x, s); }
  }

  // ---------------------------------------------------------------------
  // Component-wise operators against another vector
  // ---------------------------------------------------------------------

  /** `operator +` with a vector. */
  function Add(a: Vector3, b: Vector3): Vector3
  {
    Vector3(a.x + b.x, a.y + b.y, a.z + b.z)
  }

  /** `operator -` with a vector. */
  function Sub(a: Vector3, b: Vector3): Vector3
  {
    Vector3(a.x - b.x, a.y - b.y, a.z - b.z)
  }

  /** `operator *` with a vector: the component-wise product. */
  function Mul(a: Vector3, b: Vector3): Vector3
  {
    Vector3(a.x * b.x, a.y * b.y, a.z * b.z)
  }

  /** `operator +=` with a vector. */
  function AddAssign(v: Vector3, w: Vector3): (r: Vector3)
    ensures r == Add(v, w)
  {
    v.(x := v.x + w.x).(y := v.y + w.y).(z := v.z + w.z)
  }

  /** `operator -=` with a vector. */
  function SubAssign(v: Vector3, w: Vector3): (r: Vector3)
    ensures r == Sub(v, w)
  {
    v.(x := v.x - w.x).(y := v.y - w.y).(z := v.z - w.z)
  }

  /** `operator *=` with a vector. */
  function MulAssign(v: Vector3, w: Vector3): (r: Vector3)
    ensures r == Mul(v, w)
  {
    v.(x := v.x * w.x).(y := v.y * w.y).(z := v.z * w.z)
  }

  /** Vector addition and subtraction undo each other; addition commutes
      and the zero vector is its identity. */
  lemma AddSubInverse(a: Vector3, b: Vector3)
    ensures Sub(Add(a, b), b) == a
    ensures Add(Sub(a, b), b) == a
    ensures Add(a, b) == Add(b, a)
    ensures Add(a, Zero) == a && Sub(a, Zero) == a
    ensures Sub(a, a) == Zero
  {
  }

  /** The component-wise product commutes, has the all-ones vector as its
      identity, and scaling is the product with a constant vector. */
  lemma MulProperties(a: Vector3, b: Vector3, s: real)
    ensures Mul(a, b) == Mul(b, a)
    ensures Mul(a, Vector3(1.0, 1.0, 1.0)) == a
    ensures Mul(a, Vector3(s, s, s)) == Scale(a, s)
  {
  }

  // ---------------------------------------------------------------------
  // Component-wise operators against a scalar
  // ---------------------------------------------------------------------

  /** `operator *` with a scalar. */
  function Scale(v: Vector3, s: real): Vector3
  {
    Vector3(v.x * s, v.y * s, v.z * s)
  }

  /** `operator /` with a scalar. */
  function Div(v: Vector3, s: real): Vector3
    requires s != 0.0
  {
    Vector3(v.x / s, v.y / s, v.z / s)
  }

  /** `operator +` with a scalar: the scalar is added to every component. */
  function AddScalar(v: Vector3, s: real): Vector3
  {
    Vector3(v.x + s, v.y + s, v.z + s)
  }

  /** `operator -` with a scalar: the scalar is subtracted from every component. */
  function SubScalar(v: Vector3, s: real): Vector3
  {
    Vector3(v.x - s, v.y - s, v.z - s)
  }

  /** `operator *=` with a scalar. */
  function ScaleAssign(v: Vector3, s: real): (r: Vector3)
    ensures r == Scale(v, s)
  {
    v.(x := v.x * s).(y := v.y * s).(z := v.z * s)
  }

  /** `operator /=` with a scalar. */
  function DivAssign(v: Vector3, s: real): (r: Vector3)
    requires s != 0.0
    ensures r == Div(v, s)
  {
    v.(x := v.x / s).(y := v.y / s).(z := v.z / s)
  }

  /** `operator +=` with a scalar. */
  function AddScalarAssign(v: Vector3, s: real): (r: Vector3)
    ensures r == AddScalar(v, s)
  {
    v.(x := v.x + s).(y := v.y + s).(z := v.z + s)
  }

  /** `operator -=` with a scalar, as the source writes it: every
      component is divided by the scalar, so it behaves as `/=` does. */
  function SubScalarAssignAsWritten(v: Vector3, s: real): (r: Vector3)
    requires s != 0.0
    ensures r == Div(v, s)
  {
    v.(x := v.x / s).(y := v.y / s).(z := v.z / s)
  }

  /** `operator -=` with a scalar, as evidently intended: it agrees with
      the value-returning `operator -`. */
  function SubScalarAssign(v: Vector3, s: real): (r: Vector3)
    ensures r == SubScalar(v, s)
  {
    v.(x := v.x - s).(y := v.y - s).(z := v.z - s)
  }

  /** The compound scalar subtraction as written disagrees with the
      value-returning one: with the scalar 1 it leaves every vector as it
      was, while subtraction lowers every component by 1; on {1, 1, 1} it
      gives {1, 1, 1} where subtraction gives the zero vector. */
  lemma SubScalarAssignAsWrittenDiffers(v: Vector3)
    ensures SubScalarAssignAsWritten(v, 1.0) == v
    ensures SubScalarAssignAsWritten(v, 1.0) != SubScalar(v, 1.0)
    ensures SubScalarAssignAsWritten(v, 1.0) != SubScalarAssign(v, 1.0)
    ensures SubScalarAssignAsWritten(Vector3(1.0, 1.0, 1.0), 1.0) == Vector3(1.0, 1.0, 1.0)
    ensures SubScalar(Vector3(1.0, 1.0, 1.0), 1.0) == Zero
  {
  }

  /** Scalar addition and subtraction undo each other, as do scaling and
      division by the same non-zero scalar. */
  lemma ScalarInverses(v: Vector3, s: real)
    ensures SubScalar(AddScalar(v, s), s) == v
    ensures AddScalar(SubScalar(v, s), s) == v
    ensures s != 0.0 ==> Div(Scale(v, s), s) == v
    ensures s != 0.0 ==> Scale(Div(v, s), s) == v
    ensures SubScalarAssign(AddScalarAssign(v, s), s) == v
  {
    if s != 0.0 {
      MulDivCancel(v.x, s);
      MulDivCancel(v.y, s);
      MulDivCancel(v.z, s);
    }
  }

  lemma MulDivCancel(a: real, s: real)
    requires s != 0.0
    ensures (a * s) / s == a && (a / s) * s == a
  {
  }

  /** Scaling distributes over vector addition and moves out of the dot
      product. */
  lemma ScaleDistributes(a: Vector3, b: Vector3, s: real)
    ensures Scale(Add(a, b), s) == Add(Scale(a, s), Scale(b, s))
    ensures Dot(Scale(a, s), b) == s * Dot(a, b)
  {
  }
}
