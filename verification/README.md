# Homogeneous tuple algebra of ray-tracer-go, in Dafny

This project models the tuple primitive of the `ray-tracer-go` library: a
four-component value `(X, Y, Z, W)` whose `W` tags its kind, 1 for a point
and 0 for a vector. The repository holds two versions of the algebra, and
both are modelled.

- `pkg/tracer/tracer.go` (module `Tracer`, file `tracer.dfy`) is the current
  version. Add, Subtract, Negate, Magnitude, Normalize and Dot check their
  operands' kinds first; the constructors, Multiply and Divide check nothing
  and never fail. The checks reject point + point, anything minus a point,
  negating a point, and the magnitude, normalisation or dot product of a
  point. A rejection returns the zero value
  together with one of six named errors. Otherwise the operation computes
  component-wise. Add and Subtract derive the result's kind from `W`
  arithmetic. Multiply and Divide leave `W` alone.
- `tracer/tracer.go` (module `LegacyTracer`, file `legacy_tracer.dfy`) is the
  older version. It has the same arithmetic with no checks and no errors, and
  its Multiply and Divide scale `W` as well.

The shared pieces are in separate modules:

- `Tuples` (`tuples.dfy`) holds the `Tuple` datatype, the two `W` sentinels,
  the kind predicates and Go's zero value `Tuple{}`. It also writes out the
  legality of each operand-kind combination as an explicit table
  (`SumVerdict`, `DifferenceVerdict`, `NegationVerdict`). This table is
  independent of the `W` arithmetic. The checked version is proved to follow
  all three tables. For the older version, the lemmas state where it follows
  the tables and what it silently produces for the pairs the tables reject.
- `Reals` (`reals.dfy`) holds squares, and the exact square root that the
  magnitude is computed with.
- `Versions` (`versions.dfy`) relates the two algebras to each other.

Go's `(T, error)` return is the datatype `Tracer.Result<T> = Ok(value) |
Err(value, error)`. Its `value` field exists on both arms because Go always
returns one. On the error arm it is the zero value.

Coordinates are `real`, so every arithmetic identity below is exact.

Normalize checks for a point itself, before it consults Magnitude, and
reports its own error, `CannotNormalizePoint` (pkg/tracer/tracer.go:108-112).

## Model

| member | source | states |
|---|---|---|
| Tuples.KindsAreExclusive | pkg/tracer/tracer.go:34-40 | `IsPoint` and `IsVector`, the same tests in both files (also tracer/tracer.go:20-26), decide kind by `W` alone: no tuple is both a point and a vector, and a `W` outside {0, 1} is neither kind |
| Tuples.ZeroIsVector | pkg/tracer/tracer.go:38-44 | the zero tuple returned on every error path has `W` = 0, so it reports itself a vector and not a point |
| Tuples.SquaredLengthSign | pkg/tracer/tracer.go:104 | the sum of squared x, y, z passed to the square root is never negative, and is positive exactly when some component is non-zero |
| Tracer.NewPoint | pkg/tracer/tracer.go:26-28 | the constructed tuple is a point and not a vector, and keeps the given x, y, z |
| Tracer.NewVector | pkg/tracer/tracer.go:30-32 | the constructed tuple is a vector and not a point, and keeps the given x, y, z |
| Tracer.Add | pkg/tracer/tracer.go:42-53 | fails exactly when both operands are points, with `CannotAddPoints` and the zero tuple; point+vector and vector+point give a point, vector+vector gives a vector |
| Tracer.Subtract | pkg/tracer/tracer.go:55-66 | fails exactly when the second operand is a point, whatever the first is, with `CannotSubtractPoint` and the zero tuple; point−vector gives a point, vector−vector a vector |
| Tracer.Negate | pkg/tracer/tracer.go:68-79 | fails exactly on a point, with `CannotNegatePoint` and the zero tuple; a negated vector is a vector |
| Tracer.Multiply | pkg/tracer/tracer.go:81-88 | never fails and keeps `W`, and with it the kind |
| Tracer.Divide | pkg/tracer/tracer.go:90-97 | never fails for a non-zero scalar and keeps `W`, and with it the kind |
| Tracer.Magnitude | pkg/tracer/tracer.go:99-105 | fails exactly on a point, with `CannotMeasurePoint` and 0; otherwise returns a non-negative value whose square is x²+y²+z², which is zero exactly for a zero-length tuple |
| Tracer.Normalize | pkg/tracer/tracer.go:107-115 | fails exactly on a point, with `CannotNormalizePoint` and the zero tuple, whatever its length; otherwise keeps `W`, and the result scaled by the input's magnitude is the input again |
| Tracer.Dot | pkg/tracer/tracer.go:117-123 | fails exactly when either operand is a point, with `CannotDotPoint` and 0 |
| Tracer.MultiplyUndoesDivide | pkg/tracer/tracer.go:81-97 | for a non-zero scalar, multiplying after dividing restores the tuple |
| Tracer.DivideUndoesMultiply | pkg/tracer/tracer.go:81-97 | for a non-zero scalar, dividing after multiplying restores the tuple |
| Tracer.AddFollowsKindTable | pkg/tracer/tracer.go:42-53 | on points and vectors, Add rejects exactly the pairs the legality table rejects, and the kind derived from `W` arithmetic is the one the table names |
| Tracer.SubtractFollowsKindTable | pkg/tracer/tracer.go:55-66 | on points and vectors, Subtract rejects exactly what the table rejects and yields the kind the table names |
| Tracer.NegateFollowsKindTable | pkg/tracer/tracer.go:68-79 | on points and vectors, Negate rejects exactly what the table rejects and yields the kind the table names |
| Tracer.AddIsCommutative | pkg/tracer/tracer.go:42-53 | Add(a, b) = Add(b, a) for every pair, error results included |
| Tracer.SubtractUndoesAdd | pkg/tracer/tracer.go:42-66 | whenever the addition is legal and `b` is not a point, subtracting `b` from a + b gives back `a` |
| Tracer.AddUndoesSubtract | pkg/tracer/tracer.go:42-66 | whenever the subtraction is legal, adding `b` back is legal too and gives back `a` |
| Tracer.SubtractAsAddNegation | pkg/tracer/tracer.go:42-79 | Subtract(a, b) equals Add(a, Negate(b)) exactly when `b` is not a point and not the case of a point `a` with a `b` whose `W` is −1 |
| Tracer.NegateTwice | pkg/tracer/tracer.go:68-79 | negating twice succeeds and gives back the input exactly when `W` is neither 1 nor −1, so always for vectors |
| Tracer.DotIsCommutative | pkg/tracer/tracer.go:117-123 | Dot(a, b) = Dot(b, a) for every pair, error results included |
| Tracer.DotIgnoresW | pkg/tracer/tracer.go:117-123 | changing an operand's `W`, without making it a point, does not change the dot product |
| Tracer.DotDistributesOverAdd | pkg/tracer/tracer.go:117-123 | the dot product of a sum of non-points is the sum of the dot products |
| Tracer.DotScalesWithMultiply | pkg/tracer/tracer.go:117-123 | scaling the first operand by `s` scales the dot product by `s`; with `DotDistributesOverAdd`, `DotIsCommutative` and `DotWithSelf`, and `DotIgnoresW` to set a non-zero `W` to 0 first, this fixes the value as x·x′ + y·y′ + z·z′ by polarisation |
| Tracer.DotWithSelf | pkg/tracer/tracer.go:99-123 | a non-point dotted with itself is its squared length, the square of its magnitude |
| Tracer.NormalizedHasUnitLength | pkg/tracer/tracer.go:99-115 | a normalized non-point of non-zero length has magnitude exactly 1 |
| Tracer.NormalizeIsIdempotent | pkg/tracer/tracer.go:107-115 | normalizing a normalized non-point changes nothing |
| Tracer.NormalizeKeepsDirection | pkg/tracer/tracer.go:107-123 | the normalized tuple dotted with the input gives the input's positive magnitude, so the direction is kept |
| Tracer.MultiplyScalesMagnitude | pkg/tracer/tracer.go:81-105 | scaling a non-point by `s` scales its magnitude by the absolute value of `s` |
| LegacyTracer.Point | tracer/tracer.go:12-14 | the constructed tuple is a point and not a vector, and keeps the given x, y, z |
| LegacyTracer.Vector | tracer/tracer.go:16-18 | the constructed tuple is a vector and not a point, and keeps the given x, y, z |
| LegacyTracer.Add | tracer/tracer.go:28-35 | total: point+vector and vector+point give a point, vector+vector a vector, and point+point is accepted with `W` = 2, neither kind |
| LegacyTracer.Subtract | tracer/tracer.go:37-44 | total: point−vector gives a point, vector−vector and point−point a vector, and vector−point has `W` = −1, neither kind |
| LegacyTracer.Negate | tracer/tracer.go:46-53 | total: a negated vector stays a vector (−0 = 0), and a negated point has `W` = −1, neither kind |
| LegacyTracer.Multiply | tracer/tracer.go:55-62 | scales `W` too: a vector stays a vector, but a point stays a point only for the scalar 1 |
| LegacyTracer.Divide | tracer/tracer.go:64-71 | scales `W` too: a vector stays a vector, but a point stays a point only for the scalar 1 |
| LegacyTracer.AddIsCommutative | tracer/tracer.go:28-35 | Add(a, b) = Add(b, a) for every pair |
| LegacyTracer.SubtractIsAddNegation | tracer/tracer.go:28-53 | Subtract(a, b) = Add(a, Negate(b)) for every pair |
| LegacyTracer.NegateIsInvolution | tracer/tracer.go:46-53 | negating twice gives back any tuple |
| LegacyTracer.SubtractUndoesAdd | tracer/tracer.go:28-44 | subtracting `b` from a + b gives back `a` for every pair |
| LegacyTracer.AddFollowsKindTable | tracer/tracer.go:28-35 | on points and vectors, Add yields the kind the legality table names, and turns the one pair the table rejects into a tuple of neither kind |
| LegacyTracer.SubtractFollowsKindTable | tracer/tracer.go:37-44 | on points and vectors, Subtract yields the kind the difference table names where it accepts; the rejected point − point silently gives a vector, and vector − point a tuple of neither kind |
| LegacyTracer.NegateFollowsKindTable | tracer/tracer.go:46-53 | a negated vector is a vector as the negation table says, and the rejected point becomes a tuple of neither kind |
| LegacyTracer.DivideUndoesMultiply | tracer/tracer.go:55-71 | for a non-zero scalar, dividing after multiplying restores all four components |
| LegacyTracer.MultiplyUndoesDivide | tracer/tracer.go:55-71 | for a non-zero scalar, multiplying after dividing restores all four components |
| Versions.ConstructorsAgree | tracer/tracer.go:12-18 | the two versions' point and vector constructors build the same tuples |
| Versions.CheckedAddGuardsUncheckedAdd | pkg/tracer/tracer.go:42-53 | the checked Add is the unchecked sum behind the point-plus-point guard |
| Versions.CheckedSubtractGuardsUncheckedSubtract | pkg/tracer/tracer.go:55-66 | the checked Subtract is the unchecked difference behind the point-subtrahend guard |
| Versions.CheckedNegateGuardsUncheckedNegate | pkg/tracer/tracer.go:68-79 | the checked Negate is the unchecked negation behind the point guard |
| Versions.MultiplyVersionsDifferOnlyInW | tracer/tracer.go:55-62 | the older Multiply and the checked one (pkg/tracer/tracer.go:81-88, which keeps `W`) always agree on x, y, z, and agree on the whole tuple exactly when `W` is 0 or the scalar is 1 |
| Versions.DivideVersionsDifferOnlyInW | tracer/tracer.go:64-71 | the older Divide and the checked one (pkg/tracer/tracer.go:90-97, which keeps `W`) always agree on x, y, z, and agree on the whole tuple exactly when `W` is 0 or the scalar is 1 |

## Left out

- IEEE-754 behaviour is not modelled: coordinates are exact reals, with no rounding, NaN or infinities. The tests' `InDelta` tolerance comparisons are not modelled either.
- Tracer.Divide: requires a non-zero scalar. In Go a zero scalar yields ±Inf or NaN rather than failing.
- LegacyTracer.Divide: requires a non-zero scalar, for the same reason.
- Tracer.Normalize: requires a point or a tuple of non-zero length. In Go a zero-length vector divides by a zero magnitude and yields NaN components.
- Tracer.Magnitude: `math.Sqrt` is not modelled as code. It is a parameter `sqrt` that must be the exact non-negative square root of every non-negative real (`Reals.IsSquareRoot`). `math.Pow(x, 2)` is `Reals.Square(x)`.
- Tracer.Normalize: takes the same `sqrt` parameter as the magnitude. Unit length is therefore proved exactly, not within a tolerance.
- The error messages, and Go's error identity (`errors.New`, `errors.Is`), are not modelled. The six errors are the constructors of `Tracer.Error`.
- The distinction between pointer and value receivers in `tracer/tracer.go` is not modelled, because no operation mutates its receiver.
- The test helpers are not modelled, and neither is the empty "cannot calculate the magnitude of a point" subtest, which asserts nothing.
