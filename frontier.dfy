/**
  Extraction of the non-dominated infeasible points of a barrier: keep the
  points whose h is defined and at most hMax, then keep those of them that
  no other kept point dominates in (f, h).
*/
module Frontier {
  import opened Wrappers
  import opened EvalPoints

  /** The points of pts with h <= hMax, in their original order. */
  function Candidates(pts: seq<EvalPoint>, hMax: Threshold): (c: seq<EvalPoint>)
    ensures |c| <= |pts|
  {
    if pts == [] then []
    else
      var last := pts[|pts| - 1];
      Candidates(pts[..|pts| - 1], hMax) + (if WithinHMax(last, hMax) then [last] else [])
  }

  /** The members of s that no member of c dominates, in their original order. */
  function NonDominatedAmong(s: seq<EvalPoint>, c: seq<EvalPoint>): (r: seq<EvalPoint>)
    ensures |r| <= |s|
  {
    if s == [] then []
    else
      var last := s[|s| - 1];
      NonDominatedAmong(s[..|s| - 1], c) + (if DominatedBy(last, c) then [] else [last])
  }

  lemma {:induction false} CandidatesMembers(pts: seq<EvalPoint>, hMax: Threshold, p: EvalPoint)
    ensures p in Candidates(pts, hMax) <==> p in pts && WithinHMax(p, hMax)
  {
    if pts != [] {
      var prefix := pts[..|pts| - 1];
      CandidatesMembers(prefix, hMax, p);
      assert pts == prefix + [pts[|pts| - 1]];
    }
  }

  lemma {:induction false} NonDominatedAmongMembers(s: seq<EvalPoint>, c: seq<EvalPoint>, p: EvalPoint)
    ensures p in NonDominatedAmong(s, c) <==> p in s && !DominatedBy(p, c)
  {
    if s != [] {
      var prefix := s[..|s| - 1];
      NonDominatedAmongMembers(prefix, c, p);
      assert s == prefix + [s[|s| - 1]];
    }
  }

  /** The non-dominated points among those of pts with h <= hMax. */
  function NonDominatedInf(pts: seq<EvalPoint>, hMax: Threshold): (r: seq<EvalPoint>)
    ensures |r| <= |pts|
  {
    var c := Candidates(pts, hMax);
    NonDominatedAmong(c, c)
  }

  /** Membership: p is returned exactly when it is a candidate that no candidate dominates. */
  lemma NonDominatedInfMembers(pts: seq<EvalPoint>, hMax: Threshold, p: EvalPoint)
    ensures p in NonDominatedInf(pts, hMax) <==>
              p in pts && WithinHMax(p, hMax) &&
              forall q :: q in pts && WithinHMax(q, hMax) ==> !Dominates(q, p)
  {
    var c := Candidates(pts, hMax);
    CandidatesMembers(pts, hMax, p);
    NonDominatedAmongMembers(c, c, p);
    if p in pts && WithinHMax(p, hMax) && DominatedBy(p, c) {
      var q :| q in c && Dominates(q, p);
      CandidatesMembers(pts, hMax, q);
    }
    if p in NonDominatedInf(pts, hMax) {
      forall q | q in pts && WithinHMax(q, hMax) ensures !Dominates(q, p) {
        CandidatesMembers(pts, hMax, q);
      }
    }
  }

  /** No returned point dominates another returned point. */
  lemma NonDominatedInfIsAntichain(pts: seq<EvalPoint>, hMax: Threshold, p: EvalPoint, q: EvalPoint)
    requires p in NonDominatedInf(pts, hMax) && q in NonDominatedInf(pts, hMax)
    ensures !Dominates(p, q)
  {
    NonDominatedInfMembers(pts, hMax, q);
    NonDominatedInfMembers(pts, hMax, p);
  }

  /** The candidates of c that dominate p. */
  ghost function DominatorsOf(p: EvalPoint, c: seq<EvalPoint>): set<EvalPoint>
  {
    set q | q in c && Dominates(q, p)
  }

  /** A dominated member has a dominator that is itself not dominated. */
  lemma {:induction false} UndominatedDominator(p: EvalPoint, c: seq<EvalPoint>)
    requires DominatedBy(p, c)
    ensures exists q :: q in c && !DominatedBy(q, c) && Dominates(q, p)
    decreases |DominatorsOf(p, c)|
  {
    var q :| q in c && Dominates(q, p);
    if DominatedBy(q, c) {
      var above, below := DominatorsOf(q, c), DominatorsOf(p, c);
      assert |above| < |below| by {
        forall r | r in above ensures r in below {
          DominatesTransitive(r, q, p);
        }
        assert q in below - above;
        assert below == above + (below - above);
      }
      UndominatedDominator(q, c);
      var r :| r in c && !DominatedBy(r, c) && Dominates(r, q);
      DominatesTransitive(r, q, p);
    }
  }

  /** Every candidate left out is dominated by a point that is returned. */
  lemma ExcludedCandidateIsDominatedByReturned(pts: seq<EvalPoint>, hMax: Threshold, p: EvalPoint)
    requires p in pts && WithinHMax(p, hMax) && p !in NonDominatedInf(pts, hMax)
    ensures exists q :: q in NonDominatedInf(pts, hMax) && Dominates(q, p)
  {
    var c := Candidates(pts, hMax);
    CandidatesMembers(pts, hMax, p);
    NonDominatedAmongMembers(c, c, p);
    UndominatedDominator(p, c);
    var q :| q in c && !DominatedBy(q, c) && Dominates(q, p);
    NonDominatedAmongMembers(c, c, q);
  }

  lemma {:induction false} CandidatesOfAdmitted(pts: seq<EvalPoint>, hMax: Threshold)
    requires forall i :: 0 <= i < |pts| ==> WithinHMax(pts[i], hMax)
    ensures Candidates(pts, hMax) == pts
  {
    if pts != [] {
      var prefix := pts[..|pts| - 1];
      CandidatesOfAdmitted(prefix, hMax);
      assert prefix + [pts[|pts| - 1]] == pts;
    }
  }

  lemma {:induction false} NonDominatedAmongOfUndominated(s: seq<EvalPoint>, c: seq<EvalPoint>)
    requires forall i :: 0 <= i < |s| ==> !DominatedBy(s[i], c)
    ensures NonDominatedAmong(s, c) == s
  {
    if s != [] {
      var prefix := s[..|s| - 1];
      NonDominatedAmongOfUndominated(prefix, c);
      var last := s[|s| - 1];
      assert !DominatedBy(last, c);
      assert NonDominatedAmong(s, c) == prefix + [last];
      assert prefix + [last] == s;
    }
  }

  lemma {:induction false} NonDominatedAmongOfDominated(s: seq<EvalPoint>, c: seq<EvalPoint>)
    requires forall i :: 0 <= i < |s| ==> DominatedBy(s[i], c)
    ensures NonDominatedAmong(s, c) == []
  {
    if s != [] {
      NonDominatedAmongOfDominated(s[..|s| - 1], c);
    }
  }

  /** A list within hMax in which no point dominates another is returned unchanged. */
  lemma NonDominatedInfOfAntichain(pts: seq<EvalPoint>, hMax: Threshold)
    requires forall p :: p in pts ==> WithinHMax(p, hMax)
    requires forall p, q :: p in pts && q in pts ==> !Dominates(p, q)
    ensures NonDominatedInf(pts, hMax) == pts
  {
    CandidatesOfAdmitted(pts, hMax);
    NonDominatedAmongOfUndominated(pts, pts);
  }

  /**
    Two infeasible points (f, h) = (2, 1) and (1, 2) under hMax = 3 do not
    dominate each other: both are returned.
  */
  lemma TwoIncomparablePoints()
    ensures NonDominatedInf([EvalPoint([0.0], Some(2.0), Some(1.0)), EvalPoint([1.0], Some(1.0), Some(2.0))], Finite(3.0))
            == [EvalPoint([0.0], Some(2.0), Some(1.0)), EvalPoint([1.0], Some(1.0), Some(2.0))]
  {
    var a, b := EvalPoint([0.0], Some(2.0), Some(1.0)), EvalPoint([1.0], Some(1.0), Some(2.0));
    NonDominatedInfOfAntichain([a, b], Finite(3.0));
  }

  /** Adding a third point (1, 1), which dominates both, leaves it as the only point returned. */
  lemma ThirdPointDominatesBoth()
    ensures NonDominatedInf([EvalPoint([0.0], Some(2.0), Some(1.0)), EvalPoint([1.0], Some(1.0), Some(2.0)),
                             EvalPoint([2.0], Some(1.0), Some(1.0))], Finite(3.0))
            == [EvalPoint([2.0], Some(1.0), Some(1.0))]
  {
    var a, b, c := EvalPoint([0.0], Some(2.0), Some(1.0)), EvalPoint([1.0], Some(1.0), Some(2.0)),
                   EvalPoint([2.0], Some(1.0), Some(1.0));
    var pts := [a, b, c];
    CandidatesOfAdmitted(pts, Finite(3.0));
    assert Dominates(c, a) && Dominates(c, b) && c in pts;
    assert !DominatedBy(c, pts);
    NonDominatedAmongOfDominated(pts[..2], pts);
  }
}
