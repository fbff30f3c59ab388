/**
  The checked tuple algebra of `pkg/tracer`. Add, Subtract, Negate,
  Magnitude, Normalize and Dot first check the kinds of their operands,
  reject the combinations that have no geometric meaning with one of six
  named errors, and otherwise compute component-wise. The constructors,
  Multiply and Divide check nothing and never fail. Add and Subtract
  derive the result kind from `w` arithmetic; Multiply and Divide leave
  `w` alone.
 */
module Tracer {
  import opened Tuples
  import opened Reals

  datatype Error =
    | CannotAddPoints
    | CannotDotPoint
    | CannotMeasurePoint
    | CannotNegatePoint
    | CannotNormalizePoint
    | CannotSubtractPoint

  /**
    Go's `(T, error)` pair. `value` exists on both arms because Go always
    returns one; on the error arm it is the zero value of `T`.
   */
  datatype Result<T> = Ok(value: T) | Err(value: T, error: Error)

  function NewPoint(x: real, y: real, z: real): (t: Tuple)
    ensures IsPoint(t) && !IsVector(t)
    ensures t.x == x && t.y == y && t.z == z
  {
    Tuple(x, y, z, PointW)
  }

  function NewVector(x: real, y: real, z: real): (t: Tuple)
    ensures IsVector(t) && !IsPoint(t)
    ensures t.x == x && t.y == y && t.z == z
  {
    Tuple(x, y, z, VectorW)
  }

  function Add(a: Tuple, b: Tuple): (r: Result<Tuple>)
    ensures r.Err? <==> IsPoint(a) && IsPoint(b)
    ensures r.Err? ==> r == Err(Zero, CannotAddPoints)
    ensures IsPoint(a) && IsVector(b) ==> r.Ok? && IsPoint(r.value)
    ensures IsVector(a) && IsPoint(b) ==> r.Ok? && IsPoint(r.value)
    ensures IsVector(a) && IsVector(b) ==> r.Ok? && IsVector(r.value)
  {
    if IsPoint(a) && IsPoint(b) then
      Err(Zero, CannotAddPoints)
    else
      Ok(Tuple(a.x + b.x, a.y + b.y, a.z + b.z, a.w + b.w))
  }

  function Subtract(a: Tuple, b: Tuple): (r: Result<Tuple>)
    ensures r.Err? <==> IsPoint(b)
    ensures r.Err? ==> r == Err(Zero, CannotSubtractPoint)
    ensures IsPoint(a) && IsVector(b) ==> r.Ok? && IsPoint(r.value)
    ensures IsVector(a) && IsVector(b) ==> r.Ok? && IsVector(r.value)
  {
    if IsPoint(b) then
      Err(Zero, CannotSubtractPoint)
    else
      Ok(Tuple(a.x - b.x, a.y - b.y, a.z - b.z, a.w - b.w))
  }

  function Negate(t: Tuple): (r: Result<Tuple>)
    ensures r.Err? <==> IsPoint(t)
    ensures r.Err? ==> r == Err(Zero, CannotNegatePoint)
    ensures IsVector(t) ==> r.Ok? && IsVector(r.value)
  {
    if IsPoint(t) then
      Err(Zero, CannotNegatePoint)
    else
      Ok(Tuple(-t.x, -t.y, -t.z, -t.w))
  }

  /** Scales x, y and z; never fails and never changes `w`, so the kind is kept. */
  function Multiply(t: Tuple, s: real): (r: Result<Tuple>)
    ensures r.Ok?
    ensures r.value.w == t.w && KindOf(r.value) == KindOf(t)
  {
    Ok(Tuple(t.x * s, t.y * s, t.z * s, t.w))
  }

  /** Divides x, y and z; never fails and never changes `w`. */
  function Divide(t: Tuple, s: real): (r: Result<Tuple>)
    requires s != 0.0
    ensures r.Ok?
    ensures r.value.w == t.w && KindOf(r.value) == KindOf(t)
  {
    Ok(Tuple(t.x / s, t.y / s, t.z / s, t.w))
  }

  /** Euclidean length of (x, y, z), computed with the given square root. */
  function Magnitude(t: Tuple, sqrt: real -> real): (r: Result<real>)
    requires IsSquareRoot(sqrt)
    ensures r.Err? <==> IsPoint(t)
    ensures r.Err? ==> r == Err(0.0, CannotMeasurePoint)
    ensures r.Ok? ==> 0.0 <= r.value && Square(r.value) == SquaredLength(t)
    ensures r.Ok? ==> (r.value == 0.0 <==> !HasLength(t))
  {
    if IsPoint(t) then
      Err(0.0, CannotMeasurePoint)
    else
      SquaredLengthSign(t);
      RootIsZeroIff(sqrt, SquaredLength(t));
      Ok(sqrt(SquaredLength(t)))
  }

  /**
    The input divided by its own magnitude. The point check comes first,
    so a point is rejected without its magnitude being consulted; the
    zero-length non-point (a division by zero in floating point) is
    excluded by the precondition.
   */
  function Normalize(t: Tuple, sqrt: real -> real): (r: Result<Tuple>)
    requires IsSquareRoot(sqrt)
    requires IsPoint(t) || HasLength(t)
    ensures r.Err? <==> IsPoint(t)
    ensures r.Err? ==> r == Err(Zero, CannotNormalizePoint)
    ensures r.Ok? ==> r.value.w == t.w && KindOf(r.value) == KindOf(t)
    ensures r.Ok? ==> Multiply(r.value, Magnitude(t, sqrt).value) == Ok(t)
  {
    if IsPoint(t) then
      Err(Zero, CannotNormalizePoint)
    else
      var m := Magnitude(t, sqrt).value;
      MultiplyUndoesDivide(t, m);
      Divide(t, m)
  }

  function Dot(a: Tuple, b: Tuple): (r: Result<real>)
    ensures r.Err? <==> IsPoint(a) || IsPoint(b)
    ensures r.Err? ==> r == Err(0.0, CannotDotPoint)
  {
    if IsPoint(a) || IsPoint(b) then
      Err(0.0, CannotDotPoint)
    else
      Ok(a.x * b.x + a.y * b.y + a.z * b.z)
  }

  /** Multiplying by `s` undoes dividing by `s`, on all four components. */
  lemma MultiplyUndoesDivide(t: Tuple, s: real)
    requires s != 0.0
    ensures Multiply(Divide(t, s).value, s) == Ok(t)
  {
    var x, y, z := t.x / s, t.y / s, t.z / s;
    assert Divide(t, s).value == Tuple(x, y, z, t.w);
    Cancel(t.x, s);
    Cancel(t.y, s);
    Cancel(t.z, s);
    assert x * s == t.x && y * s == t.y && z * s == t.z;
    assert Multiply(Tuple(x, y, z, t.w), s).value == Tuple(x * s, y * s, z * s, t.w);
  }

  /** Dividing by `s` undoes multiplying by `s`, on all four components. */
  lemma DivideUndoesMultiply(t: Tuple, s: real)
    requires s != 0.0
    ensures Divide(Multiply(t, s).value, s) == Ok(t)
  {
    var x, y, z := t.x * s, t.y * s, t.z * s;
    assert Multiply(t, s).value == Tuple(x, y, z, t.w);
    Cancel(t.x, s);
    Cancel(t.y, s);
    Cancel(t.z, s);
    assert x / s == t.x && y / s == t.y && z / s == t.z;
    assert Divide(Tuple(x, y, z, t.w), s).value == Tuple(x / s, y / s, z / s, t.w);
  }

  /** Add agrees with the legality table on well-formed operands: point
      plus point is rejected, and otherwise the `w` sum yields the kind
      the table names. */
  lemma AddFollowsKindTable(a: Tuple, b: Tuple)
    requires KindOf(a) != Neither && KindOf(b) != Neither
    ensures Add(a, b).Err? <==> SumVerdict(KindOf(a), KindOf(b)) == Rejected
    ensures Add(a, b).Ok? ==> SumVerdict(KindOf(a), KindOf(b)) == Yields(KindOf(Add(a, b).value))
  {
  }

  /** Subtract agrees with the legality table on well-formed operands. */
  lemma SubtractFollowsKindTable(a: Tuple, b: Tuple)
    requires KindOf(a) != Neither && KindOf(b) != Neither
    ensures Subtract(a, b).Err? <==> DifferenceVerdict(KindOf(a), KindOf(b)) == Rejected
    ensures Subtract(a, b).Ok? ==> DifferenceVerdict(KindOf(a), KindOf(b)) == Yields(KindOf(Subtract(a, b).value))
  {
  }

  /** Negate agrees with the legality table on well-formed operands. */
  lemma NegateFollowsKindTable(t: Tuple)
    requires KindOf(t) != Neither
    ensures Negate(t).Err? <==> NegationVerdict(KindOf(t)) == Rejected
    ensures Negate(t).Ok? ==> NegationVerdict(KindOf(t)) == Yields(KindOf(Negate(t).value))
  {
  }

  /** Add is commutative on every input, error results included. */
  lemma AddIsCommutative(a: Tuple, b: Tuple)
    ensures Add(a, b) == Add(b, a)
  {
  }

  /** Subtracting `b` undoes adding it, whenever both calls are legal. */
  lemma SubtractUndoesAdd(a: Tuple, b: Tuple)
    requires Add(a, b).Ok? && !IsPoint(b)
    ensures Subtract(Add(a, b).value, b) == Ok(a)
  {
  }

  /** Adding `b` back undoes subtracting it: a legal subtraction is always
      followed by a legal addition. */
  lemma AddUndoesSubtract(a: Tuple, b: Tuple)
    requires !IsPoint(b)
    ensures Add(Subtract(a, b).value, b) == Ok(a)
  {
  }

  /**
    Subtracting `b` is adding its negation exactly when `b` is not a point
    and the pair is not a point with a `b` whose `w` is -1: negating such a
    `b` produces a point, which Add then refuses to add to a point.
   */
  lemma SubtractAsAddNegation(a: Tuple, b: Tuple)
    ensures Subtract(a, b) == Add(a, Negate(b).value)
        <==> !IsPoint(b) && !(IsPoint(a) && b.w == -1.0)
  {
  }

  /** Negating twice gives back the input exactly when neither negation is
      of a point, that is when `w` is neither 1 nor -1; on vectors it always does. */
  lemma NegateTwice(t: Tuple)
    ensures Negate(t).Ok? && Negate(Negate(t).value) == Ok(t) <==> t.w != 1.0 && t.w != -1.0
    ensures IsVector(t) ==> Negate(Negate(t).value) == Ok(t)
  {
  }

  /** The dot product is commutative on every input, error results included. */
  lemma DotIsCommutative(a: Tuple, b: Tuple)
    ensures Dot(a, b) == Dot(b, a)
  {
  }

  /** The dot product never reads `w`: changing the `w` of an operand,
      without making it a point, leaves the result unchanged. */
  lemma DotIgnoresW(a: Tuple, b: Tuple, w: real)
    requires !IsPoint(a) && !IsPoint(b) && w != PointW
    ensures Dot(a.(w := w), b) == Dot(a, b)
  {
    var c := a.(w := w);
    assert c.x == a.x && c.y == a.y && c.z == a.z && !IsPoint(c);
    var before, after := Dot(a, b), Dot(c, b);
    assert before.Ok? && after.Ok?;
    var p, q, r := a.x * b.x, a.y * b.y, a.z * b.z;
    assert before.value == p + q + r;
    assert after.value == p + q + r;
  }

  /** The dot product is additive in its first operand: dotting a sum
      is summing the dot products. */
  lemma DotDistributesOverAdd(a: Tuple, b: Tuple, c: Tuple)
    requires !IsPoint(a) && !IsPoint(b) && !IsPoint(c)
    requires a.w + b.w != PointW
    ensures Add(a, b).Ok? && Dot(Add(a, b).value, c).Ok?
    ensures Dot(Add(a, b).value, c).value == Dot(a, c).value + Dot(b, c).value
  {
    var e := Add(a, b).value;
    assert e == Tuple(a.x + b.x, a.y + b.y, a.z + b.z, a.w + b.w);
    var sum, left, right := Dot(e, c), Dot(a, c), Dot(b, c);
    assert sum.Ok? && left.Ok? && right.Ok?;
    assert (a.x + b.x) * c.x == a.x * c.x + b.x * c.x;
    assert (a.y + b.y) * c.y == a.y * c.y + b.y * c.y;
    assert (a.z + b.z) * c.z == a.z * c.z + b.z * c.z;
    assert sum.value == (a.x + b.x) * c.x + (a.y + b.y) * c.y + (a.z + b.z) * c.z;
    assert left.value == a.x * c.x + a.y * c.y + a.z * c.z;
    assert right.value == b.x * c.x + b.y * c.y + b.z * c.z;
  }

  /** The dot product is homogeneous in its first operand: scaling it by
      `s` scales the result by `s`. */
  lemma DotScalesWithMultiply(a: Tuple, b: Tuple, s: real)
    requires !IsPoint(a) && !IsPoint(b)
    ensures Dot(Multiply(a, s).value, b).Ok?
    ensures Dot(Multiply(a, s).value, b).value == s * Dot(a, b).value
  {
    var m := Multiply(a, s).value;
    assert m == Tuple(a.x * s, a.y * s, a.z * s, a.w);
    var scaled, plain := Dot(m, b), Dot(a, b);
    assert scaled.Ok? && plain.Ok?;
    var p, q, r := a.x * b.x, a.y * b.y, a.z * b.z;
    assert (a.x * s) * b.x == s * p;
    assert (a.y * s) * b.y == s * q;
    assert (a.z * s) * b.z == s * r;
    assert scaled.value == s * p + s * q + s * r;
    assert plain.value == p + q + r;
  }

  /** The dot product of a non-point with itself is its squared length,
      the square of its magnitude. */
  lemma DotWithSelf(t: Tuple, sqrt: real -> real)
    requires IsSquareRoot(sqrt)
    requires !IsPoint(t)
    ensures Dot(t, t).Ok?
    ensures Dot(t, t).value == SquaredLength(t)
    ensures Dot(t, t).value == Square(Magnitude(t, sqrt).value)
  {
    var d := Dot(t, t);
    assert d.Ok? && d.value == t.x * t.x + t.y * t.y + t.z * t.z;
    assert Square(t.x) == t.x * t.x && Square(t.y) == t.y * t.y && Square(t.z) == t.z * t.z;
  }

  /** A normalized non-point has magnitude exactly one. */
  lemma NormalizedHasUnitLength(t: Tuple, sqrt: real -> real)
    requires IsSquareRoot(sqrt)
    requires !IsPoint(t) && HasLength(t)
    ensures Magnitude(Normalize(t, sqrt).value, sqrt) == Ok(1.0)
  {
    var m := Magnitude(t, sqrt).value;
    var n := Normalize(t, sqrt).value;
    assert n == Tuple(t.x / m, t.y / m, t.z / m, t.w);
    ScaledToUnit(t.x, t.y, t.z, m);
    assert SquaredLength(n) == 1.0;
    RootOfOne(sqrt);
  }

  /** Normalizing a normalized non-point changes nothing. */
  lemma NormalizeIsIdempotent(t: Tuple, sqrt: real -> real)
    requires IsSquareRoot(sqrt)
    requires !IsPoint(t) && HasLength(t)
    ensures HasLength(Normalize(t, sqrt).value)
    ensures Normalize(Normalize(t, sqrt).value, sqrt) == Normalize(t, sqrt)
  {
    var n := Normalize(t, sqrt).value;
    NormalizedHasUnitLength(t, sqrt);
    assert Magnitude(n, sqrt).value == 1.0;
    assert HasLength(n);
    Cancel(n.x, 1.0);
    Cancel(n.y, 1.0);
    Cancel(n.z, 1.0);
    assert Normalize(n, sqrt) == Divide(n, 1.0);
  }

  /** Normalizing keeps the direction: the normalized tuple dotted with
      the input gives the input's (positive) magnitude. */
  lemma NormalizeKeepsDirection(t: Tuple, sqrt: real -> real)
    requires IsSquareRoot(sqrt)
    requires !IsPoint(t) && HasLength(t)
    ensures 0.0 < Magnitude(t, sqrt).value
    ensures Dot(Normalize(t, sqrt).value, t) == Ok(Magnitude(t, sqrt).value)
  {
    var m := Magnitude(t, sqrt).value;
    var n := Normalize(t, sqrt).value;
    assert n == Tuple(t.x / m, t.y / m, t.z / m, t.w);
    var d := Dot(n, t);
    assert d.Ok?;
    var p, q, r := n.x * t.x, n.y * t.y, n.z * t.z;
    assert d.value == p + q + r;
    assert p == (t.x / m) * t.x && q == (t.y / m) * t.y && r == (t.z / m) * t.z;
    ScaledDotOriginal(t.x, t.y, t.z, m);
    assert p + q + r == m;
  }

  /** Scaling a non-point by `s` scales its magnitude by |s|. */
  lemma MultiplyScalesMagnitude(t: Tuple, s: real, sqrt: real -> real)
    requires IsSquareRoot(sqrt)
    requires !IsPoint(t)
    ensures Magnitude(Multiply(t, s).value, sqrt).Ok?
    ensures Magnitude(Multiply(t, s).value, sqrt).value == Abs(s) * Magnitude(t, sqrt).value
  {
    var u := Multiply(t, s).value;
    assert u == Tuple(t.x * s, t.y * s, t.z * s, t.w);
    var l := SquaredLength(t);
    assert SquaredLength(u) == Square(s) * l by {
      ScaledSumOfSquares(t.x, t.y, t.z, s);
    }
    assert sqrt(Square(s) * l) == Abs(s) * sqrt(l) by {
      SquaredLengthSign(t);
      RootOfScaled(sqrt, l, s);
    }
    var before, after := Magnitude(t, sqrt), Magnitude(u, sqrt);
    assert before.Ok? && before.value == sqrt(l);
    assert after.Ok? && after.value == sqrt(SquaredLength(u));
  }
}
