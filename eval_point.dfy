/**
  Evaluated points of a constrained direct search and the bi-criterion
  order on them. A point carries its coordinates, its objective value f and
  its aggregate constraint violation h; either value is absent while it is
  undefined (not evaluated yet, or the evaluation failed).
*/
module EvalPoints {
  import opened Wrappers

  /** A point of the variable space, one real per variable. */
  type Point = seq<real>

  datatype EvalPoint = EvalPoint(x: Point, f: Option<real>, h: Option<real>)

  /** The barrier threshold hMax: a real bound, or INF (the default). */
  datatype Threshold = Finite(bound: real) | Infinity {
    /** `h <= hMax`; every real is below INF. */
    predicate Admits(h: real) {
      Infinity? || h <= bound
    }
  }

  /** Both f and h are defined, so the point can be classified. */
  predicate HasValues(p: EvalPoint) {
    p.f.Some? && p.h.Some?
  }

  predicate IsFeasible(p: EvalPoint) {
    HasValues(p) && p.h.value == 0.0
  }

  predicate IsInfeasible(p: EvalPoint) {
    HasValues(p) && p.h.value > 0.0
  }

  /** h is defined and h <= hMax. */
  predicate WithinHMax(p: EvalPoint, hMax: Threshold) {
    p.h.Some? && hMax.Admits(p.h.value)
  }

  /**
    p dominates q in (f, h): no worse in both, strictly better in one.
    Points with an undefined value neither dominate nor are dominated.
  */
  predicate Dominates(p: EvalPoint, q: EvalPoint) {
    && HasValues(p) && HasValues(q)
    && p.f.value <= q.f.value && p.h.value <= q.h.value
    && (p.f.value < q.f.value || p.h.value < q.h.value)
  }

  /** Some member of s dominates p. */
  predicate DominatedBy(p: EvalPoint, s: seq<EvalPoint>) {
    exists q :: q in s && Dominates(q, p)
  }

  lemma DominatesAsymmetric(p: EvalPoint, q: EvalPoint)
    ensures Dominates(p, q) ==> !Dominates(q, p)
  {}

  lemma DominatesTransitive(p: EvalPoint, q: EvalPoint, r: EvalPoint)
    requires Dominates(p, q) && Dominates(q, r)
    ensures Dominates(p, r)
  {}

  /** Points with equal (f, h) do not dominate each other, so both are kept. */
  lemma EqualValuesNeitherDominates(p: EvalPoint, q: EvalPoint)
    requires p.f == q.f && p.h == q.h
    ensures !Dominates(p, q) && !Dominates(q, p)
  {}

  /** Squared Euclidean distance between two points of the same dimension. */
  function SqDist(a: Point, b: Point): (d: real)
    requires |a| == |b|
    ensures d >= 0.0
    ensures a == b ==> d == 0.0
  {
    if |a| == 0 then 0.0
    else (a[0] - b[0]) * (a[0] - b[0]) + SqDist(a[1..], b[1..])
  }

  lemma {:induction false} SqDistSymmetric(a: Point, b: Point)
    requires |a| == |b|
    ensures SqDist(a, b) == SqDist(b, a)
  {
    if |a| != 0 {
      SqDistSymmetric(a[1..], b[1..]);
      assert (a[0] - b[0]) * (a[0] - b[0]) == (b[0] - a[0]) * (b[0] - a[0]);
    }
  }
}
