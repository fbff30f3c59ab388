/**
  The homogeneous-coordinate tuple that both tracer packages share: four
  real components, with `w` tagging the kind (1 for a point, 0 for a
  vector). Go's float64 is modelled as `real`, so the arithmetic is exact.
 */
module Tuples {
  import opened Reals

  datatype Tuple = Tuple(x: real, y: real, z: real, w: real)

  /** The point sentinel (`pointW` / `PointW`). */
  const PointW: real := 1.0

  /** The vector sentinel (`vectorW` / `VectorW`). */
  const VectorW: real := 0.0

  /** Go's zero value `Tuple{}`, returned alongside every error. */
  const Zero: Tuple := Tuple(0.0, 0.0, 0.0, 0.0)

  predicate IsPoint(t: Tuple) {
    t.w == PointW
  }

  predicate IsVector(t: Tuple) {
    t.w == VectorW
  }

  /** Sum of the squares of x, y and z; `w` plays no part in length. */
  function SquaredLength(t: Tuple): real {
    Square(t.x) + Square(t.y) + Square(t.z)
  }

  /** True when x, y and z are not all zero. */
  predicate HasLength(t: Tuple) {
    t.x != 0.0 || t.y != 0.0 || t.z != 0.0
  }

  /** The kind a tuple is classified as; any `w` outside {0, 1} is neither. */
  datatype Kind = PointKind | VectorKind | Neither

  function KindOf(t: Tuple): Kind {
    if IsPoint(t) then PointKind
    else if IsVector(t) then VectorKind
    else Neither
  }

  /** Classification compares `w` alone: no tuple is both kinds, and only
      the two sentinel values of `w` give a kind at all. */
  lemma KindsAreExclusive(t: Tuple)
    ensures !(IsPoint(t) && IsVector(t))
    ensures KindOf(t) != Neither <==> t.w == 1.0 || t.w == 0.0
    ensures forall u: Tuple :: u.w == t.w ==> KindOf(u) == KindOf(t)
  {
  }

  /** The zero value returned on every error path classifies as a vector. */
  lemma ZeroIsVector()
    ensures IsVector(Zero) && !IsPoint(Zero)
    ensures SquaredLength(Zero) == 0.0 && !HasLength(Zero)
  {
  }

  /** A sum of squares is never negative, and is zero exactly when every
      component is zero. */
  lemma SquaredLengthSign(t: Tuple)
    ensures SquaredLength(t) >= 0.0
    ensures SquaredLength(t) > 0.0 <==> HasLength(t)
  {
    SquareSign(t.x);
    SquareSign(t.y);
    SquareSign(t.z);
  }

  /**
    The legality table of the two-kind algebra, written out independently
    of the `w` arithmetic that the operations use to derive result kinds:
    which kind a well-formed operation yields, or that it is rejected.
   */
  datatype Verdict = Rejected | Yields(kind: Kind)

  function SumVerdict(a: Kind, b: Kind): Verdict
    requires a != Neither && b != Neither
  {
    match (a, b)
    case (PointKind, PointKind) => Rejected
    case (PointKind, VectorKind) => Yields(PointKind)
    case (VectorKind, PointKind) => Yields(PointKind)
    case (VectorKind, VectorKind) => Yields(VectorKind)
  }

  function DifferenceVerdict(a: Kind, b: Kind): Verdict
    requires a != Neither && b != Neither
  {
    match (a, b)
    case (_, PointKind) => Rejected
    case (PointKind, VectorKind) => Yields(PointKind)
    case (VectorKind, VectorKind) => Yields(VectorKind)
  }

  function NegationVerdict(a: Kind): Verdict
    requires a != Neither
  {
    match a
    case PointKind => Rejected
    case VectorKind => Yields(VectorKind)
  }
}
