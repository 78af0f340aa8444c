/**
  A simple merge of evaluated points into the barrier's incumbents, standing
  in for the progressive-barrier merge of updateWithPoints. The feasible
  incumbents are the feasible points of best objective (ties kept in arrival
  order); the infeasible incumbents are the Pareto frontier in (f, h) of the
  infeasible points with h <= hMax. hMax itself is not changed here.
*/
module IncumbentMerge {
  import opened Wrappers
  import opened EvalPoints

  /** Feasible incumbents: all feasible, all with the objective of the first one. */
  predicate ValidFeas(s: seq<EvalPoint>) {
    forall i :: 0 <= i < |s| ==> IsFeasible(s[i]) && s[i].f == s[0].f
  }

  /** Infeasible incumbents: infeasible, within hMax, none dominating another. */
  predicate ValidInf(s: seq<EvalPoint>, hMax: Threshold) {
    && (forall p :: p in s ==> IsInfeasible(p) && hMax.Admits(p.h.value))
    && (forall p, q :: p in s && q in s ==> !Dominates(p, q))
  }

  /** Fold one point into the feasible incumbents. */
  function InsertFeasible(s: seq<EvalPoint>, p: EvalPoint): (r: seq<EvalPoint>)
    requires ValidFeas(s)
    ensures ValidFeas(r)
  {
    if !IsFeasible(p) then s
    else if s == [] || p.f.value < s[0].f.value then [p]
    else if p.f.value == s[0].f.value && p !in s then s + [p]
    else s
  }

  /** The members of s that p does not dominate, in their original order. */
  function RemoveDominatedBy(s: seq<EvalPoint>, p: EvalPoint): (r: seq<EvalPoint>)
    ensures forall q :: q in r <==> q in s && !Dominates(p, q)
  {
    if s == [] then []
    else
      var last := s[|s| - 1];
      RemoveDominatedBy(s[..|s| - 1], p) + (if Dominates(p, last) then [] else [last])
  }

  /** Fold one point into the infeasible incumbents. */
  function InsertInfeasible(s: seq<EvalPoint>, p: EvalPoint, hMax: Threshold): (r: seq<EvalPoint>)
    ensures ValidInf(s, hMax) ==> ValidInf(r, hMax)
  {
    if IsInfeasible(p) && hMax.Admits(p.h.value) && p !in s && !DominatedBy(p, s)
    then RemoveDominatedBy(s, p) + [p]
    else s
  }

  /** The feasible incumbents after folding in pts from left to right. */
  function MergeFeasible(s: seq<EvalPoint>, pts: seq<EvalPoint>): (r: seq<EvalPoint>)
    requires ValidFeas(s)
    ensures ValidFeas(r)
  {
    if pts == [] then s
    else InsertFeasible(MergeFeasible(s, pts[..|pts| - 1]), pts[|pts| - 1])
  }

  /** The infeasible incumbents after folding in pts from left to right. */
  function MergeInfeasible(s: seq<EvalPoint>, pts: seq<EvalPoint>, hMax: Threshold): (r: seq<EvalPoint>)
    ensures ValidInf(s, hMax) ==> ValidInf(r, hMax)
  {
    if pts == [] then s
    else InsertInfeasible(MergeInfeasible(s, pts[..|pts| - 1], hMax), pts[|pts| - 1], hMax)
  }

  // ---------------------------------------------------------------------
  // Progress: the feasible incumbents only improve, the infeasible ones
  // only ever cover more.

  /**
    n is at least as good as o: o is empty, or n has a better best
    objective, or the same best objective and extends o.
  */
  predicate FeasAdvanced(o: seq<EvalPoint>, n: seq<EvalPoint>)
    requires ValidFeas(o) && ValidFeas(n)
  {
    o == [] ||
    (n != [] && (n[0].f.value < o[0].f.value ||
                 (n[0].f.value == o[0].f.value && |o| <= |n| && o == n[..|o|])))
  }

  /** Every member of o is kept in n or dominated by a member of n. */
  predicate InfCovered(o: seq<EvalPoint>, n: seq<EvalPoint>) {
    forall p :: p in o ==> p in n || DominatedBy(p, n)
  }

  /**
    One insertion keeps the feasible incumbents advanced from o, and an
    insertion that changes them cannot bring them back to o.
  */
  lemma InsertFeasibleAdvances(o: seq<EvalPoint>, m: seq<EvalPoint>, p: EvalPoint)
    requires ValidFeas(o) && ValidFeas(m) && FeasAdvanced(o, m)
    ensures FeasAdvanced(o, InsertFeasible(m, p))
    ensures InsertFeasible(m, p) != m ==> InsertFeasible(m, p) != o
  {
    var n := InsertFeasible(m, p);
    if n != m && n == m + [p] && o != [] && m[0].f.value == o[0].f.value {
      assert o == m[..|o|];
      assert n[..|o|] == m[..|o|];
    }
  }

  /**
    One insertion keeps the infeasible incumbents covering o, and an
    insertion that changes them cannot bring them back to o.
  */
  lemma InsertInfeasibleCovers(o: seq<EvalPoint>, m: seq<EvalPoint>, p: EvalPoint, hMax: Threshold)
    requires InfCovered(o, m)
    ensures InfCovered(o, InsertInfeasible(m, p, hMax))
    ensures InsertInfeasible(m, p, hMax) != m ==> InsertInfeasible(m, p, hMax) != o
  {
    var n := InsertInfeasible(m, p, hMax);
    if n != m {
      assert p in n;
      forall x | x in o ensures x in n || DominatedBy(x, n) {
        if x in m {
          if Dominates(p, x) { assert p in n; } else { assert x in n; }
        } else {
          var q :| q in m && Dominates(q, x);
          if Dominates(p, q) {
            DominatesTransitive(p, q, x);
          } else {
            assert q in n;
          }
        }
      }
    }
  }

  /** Best feasible objective never gets worse: the result is advanced from s. */
  lemma {:induction false} MergeFeasibleAdvances(s: seq<EvalPoint>, pts: seq<EvalPoint>)
    requires ValidFeas(s)
    ensures FeasAdvanced(s, MergeFeasible(s, pts))
  {
    if pts != [] {
      MergeFeasibleAdvances(s, pts[..|pts| - 1]);
      InsertFeasibleAdvances(s, MergeFeasible(s, pts[..|pts| - 1]), pts[|pts| - 1]);
    }
  }

  /** Every former infeasible incumbent is kept or dominated by a new one. */
  lemma {:induction false} MergeInfeasibleCovers(s: seq<EvalPoint>, pts: seq<EvalPoint>, hMax: Threshold)
    ensures InfCovered(s, MergeInfeasible(s, pts, hMax))
  {
    if pts != [] {
      MergeInfeasibleCovers(s, pts[..|pts| - 1], hMax);
      InsertInfeasibleCovers(s, MergeInfeasible(s, pts[..|pts| - 1], hMax), pts[|pts| - 1], hMax);
    }
  }

  // ---------------------------------------------------------------------
  // Absorption: after a merge, feeding the same points again changes nothing.

  /** Inserting p into s would leave s as it is. */
  predicate FeasAbsorbs(s: seq<EvalPoint>, p: EvalPoint)
    requires ValidFeas(s)
  {
    !IsFeasible(p) || (s != [] && (s[0].f.value < p.f.value || (s[0].f.value == p.f.value && p in s)))
  }

  predicate InfAbsorbs(s: seq<EvalPoint>, p: EvalPoint, hMax: Threshold) {
    !(IsInfeasible(p) && hMax.Admits(p.h.value)) || p in s || DominatedBy(p, s)
  }

  lemma InsertFeasibleAbsorbs(s: seq<EvalPoint>, x: EvalPoint, p: EvalPoint)
    requires ValidFeas(s)
    ensures FeasAbsorbs(InsertFeasible(s, x), x)
    ensures FeasAbsorbs(s, p) ==> FeasAbsorbs(InsertFeasible(s, x), p)
  {
    var n := InsertFeasible(s, x);
    if s != [] && n == s + [x] { assert n[0] == s[0]; }
  }

  lemma InsertInfeasibleAbsorbs(s: seq<EvalPoint>, x: EvalPoint, p: EvalPoint, hMax: Threshold)
    ensures InfAbsorbs(InsertInfeasible(s, x, hMax), x, hMax)
    ensures InfAbsorbs(s, p, hMax) ==> InfAbsorbs(InsertInfeasible(s, x, hMax), p, hMax)
  {
    if InfAbsorbs(s, p, hMax) && IsInfeasible(p) && hMax.Admits(p.h.value) {
      InsertInfeasibleCovers([p], s, x, hMax);
    }
  }

  /** After a merge, every merged point is absorbed by the feasible incumbents. */
  lemma {:induction false} MergeFeasibleAbsorbsAll(s: seq<EvalPoint>, pts: seq<EvalPoint>)
    requires ValidFeas(s)
    ensures forall p :: p in pts ==> FeasAbsorbs(MergeFeasible(s, pts), p)
  {
    if pts != [] {
      var prefix, x := pts[..|pts| - 1], pts[|pts| - 1];
      MergeFeasibleAbsorbsAll(s, prefix);
      forall p | p in pts ensures FeasAbsorbs(MergeFeasible(s, pts), p) {
        InsertFeasibleAbsorbs(MergeFeasible(s, prefix), x, p);
        if p != x { assert p in prefix; }
      }
    }
  }

  /** After a merge, every merged point is absorbed by the infeasible incumbents. */
  lemma {:induction false} MergeInfeasibleAbsorbsAll(s: seq<EvalPoint>, pts: seq<EvalPoint>, hMax: Threshold)
    ensures forall p :: p in pts ==> InfAbsorbs(MergeInfeasible(s, pts, hMax), p, hMax)
  {
    if pts != [] {
      var prefix, x := pts[..|pts| - 1], pts[|pts| - 1];
      MergeInfeasibleAbsorbsAll(s, prefix, hMax);
      forall p | p in pts ensures InfAbsorbs(MergeInfeasible(s, pts, hMax), p, hMax) {
        InsertInfeasibleAbsorbs(MergeInfeasible(s, prefix, hMax), x, p, hMax);
        if p != x { assert p in prefix; }
      }
    }
  }

  lemma {:induction false} MergeFeasibleOfAbsorbed(s: seq<EvalPoint>, pts: seq<EvalPoint>)
    requires ValidFeas(s)
    requires forall p :: p in pts ==> FeasAbsorbs(s, p)
    ensures MergeFeasible(s, pts) == s
  {
    if pts != [] {
      MergeFeasibleOfAbsorbed(s, pts[..|pts| - 1]);
      assert pts[|pts| - 1] in pts;
    }
  }

  lemma {:induction false} MergeInfeasibleOfAbsorbed(s: seq<EvalPoint>, pts: seq<EvalPoint>, hMax: Threshold)
    requires forall p :: p in pts ==> InfAbsorbs(s, p, hMax)
    ensures MergeInfeasible(s, pts, hMax) == s
  {
    if pts != [] {
      MergeInfeasibleOfAbsorbed(s, pts[..|pts| - 1], hMax);
      assert pts[|pts| - 1] in pts;
    }
  }

  /** Merging the same batch twice gives the incumbents of merging it once. */
  lemma MergeIdempotent(feas: seq<EvalPoint>, inf: seq<EvalPoint>, pts: seq<EvalPoint>, hMax: Threshold)
    requires ValidFeas(feas)
    ensures MergeFeasible(MergeFeasible(feas, pts), pts) == MergeFeasible(feas, pts)
    ensures MergeInfeasible(MergeInfeasible(inf, pts, hMax), pts, hMax) == MergeInfeasible(inf, pts, hMax)
  {
    MergeFeasibleAbsorbsAll(feas, pts);
    MergeFeasibleOfAbsorbed(MergeFeasible(feas, pts), pts);
    MergeInfeasibleAbsorbsAll(inf, pts, hMax);
    MergeInfeasibleOfAbsorbed(MergeInfeasible(inf, pts, hMax), pts, hMax);
  }

  /** The best feasible objective after a merge is at most that of every feasible point merged. */
  lemma MergeFeasibleKeepsBest(s: seq<EvalPoint>, pts: seq<EvalPoint>, p: EvalPoint)
    requires ValidFeas(s) && p in pts && IsFeasible(p)
    ensures MergeFeasible(s, pts) != [] && MergeFeasible(s, pts)[0].f.value <= p.f.value
  {
    MergeFeasibleAbsorbsAll(s, pts);
  }

  /** A single feasible point fed to empty incumbents becomes the sole feasible incumbent. */
  lemma FirstFeasiblePoint()
    ensures MergeFeasible([], [EvalPoint([1.0, 2.0], Some(5.0), Some(0.0))]) == [EvalPoint([1.0, 2.0], Some(5.0), Some(0.0))]
  {
    var pts := [EvalPoint([1.0, 2.0], Some(5.0), Some(0.0))];
    assert pts[..0] == [];
  }
}
