/**
  The older, unchecked tuple algebra of `tracer`: the same component-wise
  arithmetic with no kind checks and no errors. Every operation is total,
  so kind-breaking combinations silently produce tuples of neither kind,
  and Multiply and Divide scale `w` along with x, y and z.
 */
module LegacyTracer {
  import opened Tuples

  function Point(x: real, y: real, z: real): (t: Tuple)
    ensures IsPoint(t) && !IsVector(t)
    ensures t.x == x && t.y == y && t.z == z
  {
    Tuple(x, y, z, PointW)
  }

  function Vector(x: real, y: real, z: real): (t: Tuple)
    ensures IsVector(t) && !IsPoint(t)
    ensures t.x == x && t.y == y && t.z == z
  {
    Tuple(x, y, z, VectorW)
  }

  /** Point plus point is accepted and gives `w` = 2, which is neither kind. */
  function Add(a: Tuple, b: Tuple): (r: Tuple)
    ensures IsPoint(a) && IsVector(b) ==> IsPoint(r)
    ensures IsVector(a) && IsPoint(b) ==> IsPoint(r)
    ensures IsVector(a) && IsVector(b) ==> IsVector(r)
    ensures IsPoint(a) && IsPoint(b) ==> r.w == 2.0 && KindOf(r) == Neither
  {
    Tuple(a.x + b.x, a.y + b.y, a.z + b.z, a.w + b.w)
  }

  /** Point minus point is a vector here; vector minus point has `w` = -1. */
  function Subtract(a: Tuple, b: Tuple): (r: Tuple)
    ensures IsPoint(a) && IsVector(b) ==> IsPoint(r)
    ensures IsVector(a) && IsVector(b) ==> IsVector(r)
    ensures IsPoint(a) && IsPoint(b) ==> IsVector(r)
    ensures IsVector(a) && IsPoint(b) ==> r.w == -1.0 && KindOf(r) == Neither
  {
    Tuple(a.x - b.x, a.y - b.y, a.z - b.z, a.w - b.w)
  }

  /** Negation keeps vectors vectors (-0 = 0) and takes points out of both kinds. */
  function Negate(t: Tuple): (r: Tuple)
    ensures IsVector(t) ==> IsVector(r)
    ensures IsPoint(t) ==> r.w == -1.0 && KindOf(r) == Neither
  {
    Tuple(-t.x, -t.y, -t.z, -t.w)
  }

  /** Scaling `w` as well keeps vectors vectors, but a point stays a point
      only when the scalar is one. */
  function Multiply(t: Tuple, s: real): (r: Tuple)
    ensures IsVector(t) ==> IsVector(r)
    ensures IsPoint(t) ==> (IsPoint(r) <==> s == 1.0)
  {
    Tuple(t.x * s, t.y * s, t.z * s, t.w * s)
  }

  function Divide(t: Tuple, s: real): (r: Tuple)
    requires s != 0.0
    ensures IsVector(t) ==> IsVector(r)
    ensures IsPoint(t) ==> (IsPoint(r) <==> s == 1.0)
  {
    Tuple(t.x / s, t.y / s, t.z / s, t.w / s)
  }

  lemma AddIsCommutative(a: Tuple, b: Tuple)
    ensures Add(a, b) == Add(b, a)
  {
  }

  /** Subtraction is addition of the negation, on every input. */
  lemma SubtractIsAddNegation(a: Tuple, b: Tuple)
    ensures Subtract(a, b) == Add(a, Negate(b))
  {
  }

  /** Negation is an involution on every input. */
  lemma NegateIsInvolution(t: Tuple)
    ensures Negate(Negate(t)) == t
  {
  }

  /** Subtracting `b` undoes adding it, on every input. */
  lemma SubtractUndoesAdd(a: Tuple, b: Tuple)
    ensures Subtract(Add(a, b), b) == a
  {
  }

  /** Add agrees with the legality table wherever the table accepts, and
      turns the one rejected pair, point plus point, into a tuple of neither kind. */
  lemma AddFollowsKindTable(a: Tuple, b: Tuple)
    requires KindOf(a) != Neither && KindOf(b) != Neither
    ensures SumVerdict(KindOf(a), KindOf(b)) == Yields(KindOf(Add(a, b)))
        || (SumVerdict(KindOf(a), KindOf(b)) == Rejected && KindOf(Add(a, b)) == Neither)
  {
  }

  /** Subtract agrees with the difference table wherever the table accepts.
      Of the two pairs the table rejects, point minus point silently gives a
      vector and vector minus point gives a tuple of neither kind. */
  lemma SubtractFollowsKindTable(a: Tuple, b: Tuple)
    requires KindOf(a) != Neither && KindOf(b) != Neither
    ensures DifferenceVerdict(KindOf(a), KindOf(b)).Yields? ==>
              KindOf(Subtract(a, b)) == DifferenceVerdict(KindOf(a), KindOf(b)).kind
    ensures DifferenceVerdict(KindOf(a), KindOf(b)) == Rejected ==>
              KindOf(Subtract(a, b)) == (if IsPoint(a) then VectorKind else Neither)
  {
  }

  /** Negate agrees with the negation table on vectors, and turns the
      rejected point into a tuple of neither kind. */
  lemma NegateFollowsKindTable(t: Tuple)
    requires KindOf(t) != Neither
    ensures NegationVerdict(KindOf(t)) == Yields(KindOf(Negate(t)))
        || (NegationVerdict(KindOf(t)) == Rejected && KindOf(Negate(t)) == Neither)
  {
  }

  /** Dividing by `s` restores all four components after multiplying by `s`. */
  lemma DivideUndoesMultiply(t: Tuple, s: real)
    requires s != 0.0
    ensures Divide(Multiply(t, s), s) == t
  {
  }

  /** Multiplying by `s` restores all four components after dividing by `s`. */
  lemma MultiplyUndoesDivide(t: Tuple, s: real)
    requires s != 0.0
    ensures Multiply(Divide(t, s), s) == t
  {
  }
}
