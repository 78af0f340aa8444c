/**
  The DiscoMads barrier: a progressive barrier that also knows an exclusion
  radius, used to detect points lying close to revealing points (points
  flagged near a discontinuity of the blackbox).
*/
module DiscoMads {
  import opened Wrappers
  import opened EvalPoints
  import Frontier
  import OrderStatistic
  import opened IncumbentMerge

  /** The error conditions the barrier's helpers can run into. */
  datatype BarrierError =
    | DimensionMismatch  // distance between points of different sizes
    | UndefinedValue     // comparison with an undefined exclusion radius
    | IndexOutOfRange    // rank beyond the end of the list

  class DiscoMadsBarrier {
    /** Undefined (None) when the barrier was copied: the copy does not carry it over. */
    var exclusionRadius: Option<real>
    var hMax: Threshold
    /** Feasible incumbents. */
    var xFeas: seq<EvalPoint>
    /** Infeasible incumbents. */
    var xInf: seq<EvalPoint>

    ghost predicate Valid()
      reads this
    {
      ValidFeas(xFeas) && ValidInf(xInf, hMax)
    }

    /** A barrier with no incumbents yet; hMax defaults to INF and the radius to 1.0. */
    constructor (hMax: Threshold := Infinity, exclusionRadius: real := 1.0)
      ensures Valid()
      ensures this.hMax == hMax && this.exclusionRadius == Some(exclusionRadius)
      ensures xFeas == [] && xInf == []
    {
      this.hMax := hMax;
      this.exclusionRadius := Some(exclusionRadius);
      xFeas, xInf := [], [];
    }

    /** Copies the progressive-barrier state only; the exclusion radius is left undefined. */
    constructor Copy(b: DiscoMadsBarrier)
      requires b.Valid()
      ensures Valid()
      ensures hMax == b.hMax && xFeas == b.xFeas && xInf == b.xInf
      ensures exclusionRadius == None
    {
      hMax, xFeas, xInf := b.hMax, b.xFeas, b.xInf;
      exclusionRadius := None;
    }

    /** A new barrier built by the copy constructor. */
    method Clone() returns (c: DiscoMadsBarrier)
      requires Valid()
      ensures fresh(c) && c.Valid()
      ensures c.hMax == hMax && c.xFeas == xFeas && c.xInf == xInf
      ensures c.exclusionRadius == None
    {
      c := new DiscoMadsBarrier.Copy(this);
    }

    /**
      Folds evalPointList into the incumbents and reports whether the
      feasible and/or infeasible incumbents changed.
    */
    method UpdateWithPoints(evalPointList: seq<EvalPoint>, keepAllPoints: bool := false,
                            updateInfeasibleIncumbentAndHmax: bool := false)
      returns (changed: bool)
      requires Valid()
      modifies this
      ensures Valid()
      ensures hMax == old(hMax) && exclusionRadius == old(exclusionRadius)
      ensures xFeas == MergeFeasible(old(xFeas), evalPointList)
      ensures xInf == MergeInfeasible(old(xInf), evalPointList, hMax)
      ensures changed <==> (xFeas != old(xFeas) || xInf != old(xInf))
    {
      var feas, inf := xFeas, xInf;
      changed := false;
      for i := 0 to |evalPointList|
        invariant unchanged(this)
        invariant ValidFeas(feas) && ValidInf(inf, hMax)
        invariant feas == MergeFeasible(xFeas, evalPointList[..i])
        invariant inf == MergeInfeasible(xInf, evalPointList[..i], hMax)
        invariant FeasAdvanced(xFeas, feas) && InfCovered(xInf, inf)
        invariant changed <==> (feas != xFeas || inf != xInf)
      {
        var p := evalPointList[i];
        var newFeas := InsertFeasible(feas, p);
        var newInf := InsertInfeasible(inf, p, hMax);
        InsertFeasibleAdvances(xFeas, feas, p);
        InsertInfeasibleCovers(xInf, inf, p, hMax);
        if newFeas != feas || newInf != inf {
          changed := true;
        }
        assert evalPointList[..i + 1][..i] == evalPointList[..i];
        feas, inf := newFeas, newInf;
      }
      assert evalPointList[..|evalPointList|] == evalPointList;
      xFeas, xInf := feas, inf;
    }

    /**
      Tells whether x1 lies strictly closer to x2 than the exclusion radius.
      Distances are compared squared: for a radius r > 0, dist < r exactly
      when dist^2 < r^2, and no distance is below a radius r <= 0.
    */
    function ProximityTest(x1: Point, x2: EvalPoint): (r: Result<bool, BarrierError>)
      reads this
      ensures r == Err(DimensionMismatch) <==> |x1| != |x2.x|
      ensures r == Err(UndefinedValue) <==> |x1| == |x2.x| && exclusionRadius.None?
    {
      if |x1| != |x2.x| then Err(DimensionMismatch)
      else if exclusionRadius.None? then Err(UndefinedValue)
      else
        var radius := exclusionRadius.value;
        Ok(radius > 0.0 && SqDist(x1, x2.x) < radius * radius)
    }

    /** The h-value of the point at index k (counted from 0) of evalPointList. */
    function GetKiemeHvalue(evalPointList: seq<EvalPoint>, k: nat): (r: Result<Option<real>, BarrierError>)
      ensures r.Err? <==> k >= |evalPointList|
      ensures r.Err? ==> r.error == IndexOutOfRange
    {
      if k < |evalPointList| then Ok(evalPointList[k].h) else Err(IndexOutOfRange)
    }

    /**
      The infeasible incumbents with h <= hMax that no other such incumbent
      dominates, in their order in xInf, and how many there are.
    */
    method GetNonDominatedInfPoints() returns (evalPointList: seq<EvalPoint>, count: nat)
      ensures evalPointList == Frontier.NonDominatedInf(xInf, hMax)
      ensures count == |evalPointList|
      ensures forall p :: p in evalPointList ==> p in xInf && WithinHMax(p, hMax)
      ensures forall p, q :: p in evalPointList && q in xInf && WithinHMax(q, hMax) ==> !Dominates(q, p)
      ensures forall p :: p in xInf && WithinHMax(p, hMax) && p !in evalPointList ==>
                exists q :: q in evalPointList && Dominates(q, p)
    {
      var candidates := [];
      for i := 0 to |xInf|
        invariant candidates == Frontier.Candidates(xInf[..i], hMax)
      {
        assert xInf[..i + 1][..i] == xInf[..i];
        if WithinHMax(xInf[i], hMax) {
          candidates := candidates + [xInf[i]];
        }
      }
      assert xInf[..|xInf|] == xInf;
      evalPointList := [];
      for i := 0 to |candidates|
        invariant evalPointList == Frontier.NonDominatedAmong(candidates[..i], candidates)
      {
        var p := candidates[i];
        var dominated := false;
        for j := 0 to |candidates|
          invariant dominated <==> exists k :: 0 <= k < j && Dominates(candidates[k], p)
        {
          if Dominates(candidates[j], p) {
            dominated := true;
          }
        }
        assert dominated <==> DominatedBy(p, candidates);
        assert candidates[..i + 1][..i] == candidates[..i];
        if !dominated {
          evalPointList := evalPointList + [p];
        }
      }
      assert candidates[..|candidates|] == candidates;
      count := |evalPointList|;
      forall p | p in evalPointList
        ensures p in xInf && WithinHMax(p, hMax)
        ensures forall q :: q in xInf && WithinHMax(q, hMax) ==> !Dominates(q, p)
      {
        Frontier.NonDominatedInfMembers(xInf, hMax, p);
      }
      forall p | p in xInf && WithinHMax(p, hMax) && p !in evalPointList
        ensures exists q :: q in evalPointList && Dominates(q, p)
      {
        Frontier.ExcludedCandidateIsDominatedByReturned(xInf, hMax, p);
      }
    }
  }

  /**
    ProximityTest holds exactly when the Euclidean distance d between the
    two points (the non-negative root of the squared distance) is strictly
    below the exclusion radius.
  */
  lemma ProximityIsDistanceBelowRadius(b: DiscoMadsBarrier, x1: Point, x2: EvalPoint, d: real)
    requires |x1| == |x2.x| && b.exclusionRadius.Some?
    requires d >= 0.0 && d * d == SqDist(x1, x2.x)
    ensures b.ProximityTest(x1, x2) == Ok(d < b.exclusionRadius.value)
  {
    var r := b.exclusionRadius.value;
    assert b.ProximityTest(x1, x2) == Ok(r > 0.0 && d * d < r * r);
    if r > 0.0 {
      if d < r {
        calc {
          d * d;
        <= d * r;
        <  r * r;
        }
      } else {
        calc {
          d * d;
        >= r * d;
        >= r * r;
        }
      }
    }
  }

  /** A point at distance exactly equal to the radius is not close: the comparison is strict. */
  lemma ProximityFalseAtRadius(b: DiscoMadsBarrier, x1: Point, x2: EvalPoint)
    requires |x1| == |x2.x| && b.exclusionRadius.Some? && b.exclusionRadius.value >= 0.0
    requires SqDist(x1, x2.x) == b.exclusionRadius.value * b.exclusionRadius.value
    ensures b.ProximityTest(x1, x2) == Ok(false)
  {
    ProximityIsDistanceBelowRadius(b, x1, x2, b.exclusionRadius.value);
  }

  /** The test only looks at coordinates, and swapping the two points does not change it. */
  lemma ProximitySymmetric(b: DiscoMadsBarrier, p: EvalPoint, q: EvalPoint)
    ensures b.ProximityTest(p.x, q) == b.ProximityTest(q.x, p)
  {
    if |p.x| == |q.x| {
      SqDistSymmetric(p.x, q.x);
    }
  }

  /** With radius 0.5, the point (0.1, 0.1) is close to the point (0, 0). */
  lemma ProximityNearOrigin(b: DiscoMadsBarrier)
    requires b.exclusionRadius == Some(0.5)
    ensures b.ProximityTest([0.1, 0.1], EvalPoint([0.0, 0.0], None, None)) == Ok(true)
  {
    var a, o := [0.1, 0.1], [0.0, 0.0];
    assert SqDist(a, o) == 0.02 by {
      assert a[1..] == [0.1] && o[1..] == [0.0];
      assert a[1..][1..] == [] && o[1..][1..] == [];
    }
  }

  /**
    On a list sorted by increasing h and an index k in range, the lookup
    gives the h of the point at rank k: no later h is smaller, no earlier h
    is larger, at most k points have a smaller h and more than k have an h
    at most as large.
  */
  lemma KiemeHvalueIsOrderStatistic(b: DiscoMadsBarrier, s: seq<EvalPoint>, k: nat)
    requires OrderStatistic.SortedByH(s) && k < |s|
    ensures b.GetKiemeHvalue(s, k) == Ok(Some(s[k].h.value))
    ensures forall i :: 0 <= i < k ==> s[i].h.value <= s[k].h.value
    ensures forall i :: k < i < |s| ==> s[k].h.value <= s[i].h.value
    ensures OrderStatistic.CountBelow(s, s[k].h.value) <= k < OrderStatistic.CountAtMost(s, s[k].h.value)
  {
    OrderStatistic.RankOfSortedEntry(s, k);
  }

  /** Over sorted h-values 0.2, 0.5, 0.9 the rank-1 value is 0.5; rank 5 is out of range. */
  lemma KiemeHvalueThreePoints(b: DiscoMadsBarrier)
    ensures b.GetKiemeHvalue([EvalPoint([], None, Some(0.2)), EvalPoint([], None, Some(0.5)),
                              EvalPoint([], None, Some(0.9))], 1) == Ok(Some(0.5))
    ensures b.GetKiemeHvalue([EvalPoint([], None, Some(0.2)), EvalPoint([], None, Some(0.5)),
                              EvalPoint([], None, Some(0.9))], 5) == Err(IndexOutOfRange)
  {}

  /** On a valid barrier, every infeasible incumbent is returned as non-dominated. */
  lemma NonDominatedInfOfValidBarrier(b: DiscoMadsBarrier)
    requires b.Valid()
    ensures Frontier.NonDominatedInf(b.xInf, b.hMax) == b.xInf
  {
    Frontier.NonDominatedInfOfAntichain(b.xInf, b.hMax);
  }
}
