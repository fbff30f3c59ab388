/**
  How the checked `pkg/tracer` algebra relates to the older unchecked
  `tracer` one: on the operand kinds it accepts, each checked operation
  returns exactly what the unchecked one computes; the only arithmetic
  difference is that the older Multiply and Divide also scale `w`.
 */
module Versions {
  import opened Tuples
  import opened Reals
  import Tracer
  import LegacyTracer

  lemma ConstructorsAgree(x: real, y: real, z: real)
    ensures Tracer.NewPoint(x, y, z) == LegacyTracer.Point(x, y, z)
    ensures Tracer.NewVector(x, y, z) == LegacyTracer.Vector(x, y, z)
  {
  }

  /** Checked Add is the unchecked sum guarded by the point-plus-point check. */
  lemma CheckedAddGuardsUncheckedAdd(a: Tuple, b: Tuple)
    ensures Tracer.Add(a, b) ==
      if IsPoint(a) && IsPoint(b) then Tracer.Err(Zero, Tracer.CannotAddPoints)
      else Tracer.Ok(LegacyTracer.Add(a, b))
  {
  }

  /** Checked Subtract is the unchecked difference guarded by the point-subtrahend check. */
  lemma CheckedSubtractGuardsUncheckedSubtract(a: Tuple, b: Tuple)
    ensures Tracer.Subtract(a, b) ==
      if IsPoint(b) then Tracer.Err(Zero, Tracer.CannotSubtractPoint)
      else Tracer.Ok(LegacyTracer.Subtract(a, b))
  {
  }

  /** Checked Negate is the unchecked negation guarded by the point check. */
  lemma CheckedNegateGuardsUncheckedNegate(t: Tuple)
    ensures Tracer.Negate(t) ==
      if IsPoint(t) then Tracer.Err(Zero, Tracer.CannotNegatePoint)
      else Tracer.Ok(LegacyTracer.Negate(t))
  {
  }

  /** The two Multiply versions agree on x, y and z always, and on the
      whole tuple exactly when `w` is zero or the scalar is one. */
  lemma MultiplyVersionsDifferOnlyInW(t: Tuple, s: real)
    ensures Tracer.Multiply(t, s).value.x == LegacyTracer.Multiply(t, s).x
    ensures Tracer.Multiply(t, s).value.y == LegacyTracer.Multiply(t, s).y
    ensures Tracer.Multiply(t, s).value.z == LegacyTracer.Multiply(t, s).z
    ensures Tracer.Multiply(t, s).value == LegacyTracer.Multiply(t, s) <==> t.w == 0.0 || s == 1.0
  {
  }

  /** The two Divide versions agree on x, y and z always, and on the
      whole tuple exactly when `w` is zero or the scalar is one. */
  lemma DivideVersionsDifferOnlyInW(t: Tuple, s: real)
    requires s != 0.0
    ensures Tracer.Divide(t, s).value.x == LegacyTracer.Divide(t, s).x
    ensures Tracer.Divide(t, s).value.y == LegacyTracer.Divide(t, s).y
    ensures Tracer.Divide(t, s).value.z == LegacyTracer.Divide(t, s).z
    ensures Tracer.Divide(t, s).value == LegacyTracer.Divide(t, s) <==> t.w == 0.0 || s == 1.0
  {
    if t.w != 0.0 && s != 1.0 {
      NonZeroProduct(t.w, 1.0 - s);
      QuotientIsNonZero(t.w * (1.0 - s), s);
      Cancel(t.w, s);
      calc {
        t.w / s - t.w;
        == t.w / s - (t.w * s) / s;
        == (t.w - t.w * s) / s;
        == (t.w * (1.0 - s)) / s;
      }
    }
  }
}
