# DiscoMads barrier — a Dafny model

NOMAD's DiscoMads algorithm runs a mesh adaptive direct search with a
*progressive barrier*, and also keeps an *exclusion radius*. The barrier holds
the feasible incumbents, the infeasible incumbents and the threshold hMax.
The exclusion radius is used to detect evaluated points that lie close to
"revealing" points (points flagged near a discontinuity of the blackbox).
For those points the revealed constraint (the RPB constraint) gets updated.

The class `DiscoMadsBarrier` is declared in
`src/Algos/DiscoMads/DiscoMadsBarrier.hpp`. Only that header is part of this
model. The method bodies (`DiscoMadsBarrier.cpp`) and the `ProgressiveBarrier`
base class are not, so the model works at the level of contracts. It follows
the behaviour that the declarations and their doc comments state.

Files:

- `wrappers.dfy`, module `Wrappers`: `Option` (absent, or a NOMAD value that is
  still undefined) and `Result` (an operation the source can abort with an
  exception).
- `eval_point.dfy`, module `EvalPoints`: an evaluated point has coordinates,
  an objective `f` and an aggregate violation `h`, each of the last two
  possibly undefined. The module also has the threshold `hMax` (a real or
  INF), the bi-criterion dominance order and the squared distance.
- `frontier.dfy`, module `Frontier`: the points of a list with h ≤ hMax that
  no other such point dominates (the specification of
  `getNonDominatedInfPoints`).
- `order_statistic.dfy`, module `OrderStatistic`: ranks in a list sorted by
  increasing h (the meaning of `getKiemeHvalue`).
- `incumbent_merge.dfy`, module `IncumbentMerge`: a simple merge of evaluated
  points into the incumbents. It stands in for the base-class merge of
  `updateWithPoints`, and carries the lemmas that make the "changed" result
  exact.
- `disco_mads_barrier.dfy`, module `DiscoMads`: the class `DiscoMadsBarrier`
  with the fields `exclusionRadius`, `hMax`, `xFeas` and `xInf`, its
  constructors, `Clone`, `UpdateWithPoints`, `ProximityTest`,
  `GetKiemeHvalue` and `GetNonDominatedInfPoints`, and lemmas about them.

Modelling choices:

- `NOMAD::Double` becomes `real`. An undefined value becomes `None`.
- Points are immutable values kept in sequences; `EvalPointPtr` sharing is not modelled.
- Dominance is `f ≤ f' ∧ h ≤ h'` with at least one of the two strict. This
  is NOMAD's usual bi-criterion order. Its definition is in code that is not
  part of this model, so it is an assumption here. A point with an undefined
  value neither dominates nor is dominated.
- `proximityTest` compares squared distances: for a radius r > 0,
  `dist < r` holds exactly when `dist² < r²`, and no distance is below a
  radius r ≤ 0. `ProximityIsDistanceBelowRadius` proves that this agrees
  with the Euclidean distance itself.
- "k-ieme" is read as counted from 0. An index past the end gives
  `Err(IndexOutOfRange)`, and the lookup itself does not require the list to
  be sorted. `getKiemeHvalue` is `const`. The model's `GetKiemeHvalue` has
  no `reads` clause, so it cannot depend on the barrier's state.
- In the header, the copy constructor (lines 82-84) copies only the
  `ProgressiveBarrier` part. `_exclusionRadius` is left default-constructed
  (an undefined `NOMAD::Double`). The model follows the code: a copy, and so
  a `Clone`, has `exclusionRadius == None`, and `ProximityTest` on it gives
  `Err(UndefinedValue)`: a clone does not carry the exclusion radius.

## Model

| member | source | states |
|---|---|---|
| `EvalPoints.SqDist` | src/Algos/DiscoMads/DiscoMadsBarrier.hpp:105-108 | the squared distance used by the proximity test is non-negative, and zero between equal points |
| `EvalPoints.SqDistSymmetric` | src/Algos/DiscoMads/DiscoMadsBarrier.hpp:105-108 | the squared distance does not depend on the order of the two points |
| `EvalPoints.DominatesAsymmetric` | src/Algos/DiscoMads/DiscoMadsBarrier.hpp:115-116 | if one point dominates another, the second does not dominate the first |
| `EvalPoints.DominatesTransitive` | src/Algos/DiscoMads/DiscoMadsBarrier.hpp:115-116 | dominance is transitive |
| `EvalPoints.EqualValuesNeitherDominates` | src/Algos/DiscoMads/DiscoMadsBarrier.hpp:115-116 | points with equal (f, h) neither dominates the other |
| `Frontier.Candidates` | src/Algos/DiscoMads/DiscoMadsBarrier.hpp:115-117 | the h ≤ hMax filter never returns more points than it is given |
| `Frontier.CandidatesMembers` | src/Algos/DiscoMads/DiscoMadsBarrier.hpp:115-117 | a point is kept by the h ≤ hMax filter iff it is one of the given points and has a defined h ≤ hMax |
| `Frontier.NonDominatedAmong` | src/Algos/DiscoMads/DiscoMadsBarrier.hpp:115-117 | the dominance filter never returns more points than it is given |
| `Frontier.NonDominatedAmongMembers` | src/Algos/DiscoMads/DiscoMadsBarrier.hpp:115-117 | a point is kept by the dominance filter iff it is one of the given points and no member of the reference list dominates it |
| `Frontier.NonDominatedInf` | src/Algos/DiscoMads/DiscoMadsBarrier.hpp:115-117 | the non-dominated points with h ≤ hMax (the definition `GetNonDominatedInfPoints` is proved equal to) are never more than the given points |
| `Frontier.NonDominatedInfMembers` | src/Algos/DiscoMads/DiscoMadsBarrier.hpp:115-117 | a point is returned iff it is one of the given points, has h ≤ hMax, and no given point with h ≤ hMax dominates it |
| `Frontier.NonDominatedInfIsAntichain` | src/Algos/DiscoMads/DiscoMadsBarrier.hpp:115-117 | no returned point dominates another returned point |
| `Frontier.UndominatedDominator` | src/Algos/DiscoMads/DiscoMadsBarrier.hpp:115-116 | a dominated point has a dominator that is itself not dominated (finite lists, strict order) |
| `Frontier.ExcludedCandidateIsDominatedByReturned` | src/Algos/DiscoMads/DiscoMadsBarrier.hpp:115-117 | every point with h ≤ hMax that is left out is dominated by a returned point |
| `Frontier.NonDominatedInfOfAntichain` | src/Algos/DiscoMads/DiscoMadsBarrier.hpp:115-117 | a list within hMax where no point dominates another comes back unchanged |
| `Frontier.TwoIncomparablePoints` | src/Algos/DiscoMads/DiscoMadsBarrier.hpp:115-122 | (f, h) = (2, 1) and (1, 2) under hMax = 3 are both returned |
| `Frontier.ThirdPointDominatesBoth` | src/Algos/DiscoMads/DiscoMadsBarrier.hpp:115-122 | adding (1, 1) to them leaves (1, 1) as the only point returned |
| `OrderStatistic.RankOfSortedEntry` | src/Algos/DiscoMads/DiscoMadsBarrier.hpp:110-113 | in a list sorted by increasing h, the entry at index k has at most k points strictly below it and more than k points at or below it |
| `IncumbentMerge.InsertFeasible` | src/Algos/DiscoMads/DiscoMadsBarrier.hpp:92-102 | folding one point into the feasible incumbents keeps them all feasible and of one common best objective |
| `IncumbentMerge.RemoveDominatedBy` | src/Algos/DiscoMads/DiscoMadsBarrier.hpp:92-102 | keeps exactly the incumbents that the new point does not dominate |
| `IncumbentMerge.InsertInfeasible` | src/Algos/DiscoMads/DiscoMadsBarrier.hpp:92-102 | folding one point into the infeasible incumbents keeps them infeasible, within hMax and free of dominance |
| `IncumbentMerge.MergeFeasible` | src/Algos/DiscoMads/DiscoMadsBarrier.hpp:92-102 | merging a batch keeps the feasible-incumbent invariant |
| `IncumbentMerge.MergeInfeasible` | src/Algos/DiscoMads/DiscoMadsBarrier.hpp:92-102 | merging a batch keeps the infeasible-incumbent invariant |
| `IncumbentMerge.InsertFeasibleAdvances` | src/Algos/DiscoMads/DiscoMadsBarrier.hpp:95 | one insertion keeps the feasible incumbents at least as good as the start, and an insertion that changes them cannot restore the start |
| `IncumbentMerge.InsertInfeasibleCovers` | src/Algos/DiscoMads/DiscoMadsBarrier.hpp:95 | one insertion keeps every starting infeasible incumbent kept or dominated, and an insertion that changes them cannot restore the start |
| `IncumbentMerge.MergeFeasibleAdvances` | src/Algos/DiscoMads/DiscoMadsBarrier.hpp:92-102 | the best feasible objective never gets worse across a merge, and ties only extend the list |
| `IncumbentMerge.MergeInfeasibleCovers` | src/Algos/DiscoMads/DiscoMadsBarrier.hpp:92-102 | every former infeasible incumbent is kept or dominated by a new one |
| `IncumbentMerge.InsertFeasibleAbsorbs` | src/Algos/DiscoMads/DiscoMadsBarrier.hpp:92-102 | after a feasible insertion, inserting the same point again changes nothing, and earlier absorbed points stay absorbed |
| `IncumbentMerge.InsertInfeasibleAbsorbs` | src/Algos/DiscoMads/DiscoMadsBarrier.hpp:92-102 | the same for infeasible insertions |
| `IncumbentMerge.MergeFeasibleAbsorbsAll` | src/Algos/DiscoMads/DiscoMadsBarrier.hpp:92-102 | after a merge, every merged point is absorbed by the feasible incumbents |
| `IncumbentMerge.MergeInfeasibleAbsorbsAll` | src/Algos/DiscoMads/DiscoMadsBarrier.hpp:92-102 | after a merge, every merged point is absorbed by the infeasible incumbents |
| `IncumbentMerge.MergeFeasibleOfAbsorbed` | src/Algos/DiscoMads/DiscoMadsBarrier.hpp:92-102 | merging points the feasible incumbents already absorb leaves them unchanged |
| `IncumbentMerge.MergeInfeasibleOfAbsorbed` | src/Algos/DiscoMads/DiscoMadsBarrier.hpp:92-102 | merging points the infeasible incumbents already absorb leaves them unchanged |
| `IncumbentMerge.MergeIdempotent` | src/Algos/DiscoMads/DiscoMadsBarrier.hpp:92-102 | feeding the same batch a second time leaves both incumbent lists unchanged |
| `IncumbentMerge.MergeFeasibleKeepsBest` | src/Algos/DiscoMads/DiscoMadsBarrier.hpp:92-102 | after a merge, the best feasible objective is at most that of every feasible point merged |
| `IncumbentMerge.FirstFeasiblePoint` | src/Algos/DiscoMads/DiscoMadsBarrier.hpp:92-102 | a single feasible point fed to empty incumbents becomes the sole feasible incumbent |
| `DiscoMads.DiscoMadsBarrier.constructor` | src/Algos/DiscoMads/DiscoMadsBarrier.hpp:64-80 | stores the given hMax (default INF) and exclusion radius (default 1.0); starts with no incumbents |
| `DiscoMads.DiscoMadsBarrier.Copy` | src/Algos/DiscoMads/DiscoMadsBarrier.hpp:82-84 | copies hMax and both incumbent lists; the exclusion radius is left undefined |
| `DiscoMads.DiscoMadsBarrier.Clone` | src/Algos/DiscoMads/DiscoMadsBarrier.hpp:86-89 | a fresh barrier with equal base state and an undefined exclusion radius |
| `DiscoMads.DiscoMadsBarrier.UpdateWithPoints` | src/Algos/DiscoMads/DiscoMadsBarrier.hpp:92-102 | merges the batch into both incumbent lists and keeps the barrier invariant and hMax; returns true iff the feasible and/or infeasible incumbents differ afterwards |
| `DiscoMads.DiscoMadsBarrier.ProximityTest` | src/Algos/DiscoMads/DiscoMadsBarrier.hpp:105-108 | fails exactly on a dimension mismatch, or on an undefined radius when the dimensions agree |
| `DiscoMads.DiscoMadsBarrier.GetKiemeHvalue` | src/Algos/DiscoMads/DiscoMadsBarrier.hpp:110-113 | fails with IndexOutOfRange exactly when k is past the end of the list |
| `DiscoMads.DiscoMadsBarrier.GetNonDominatedInfPoints` | src/Algos/DiscoMads/DiscoMadsBarrier.hpp:115-122 | returns points of xInf with h ≤ hMax that no such point dominates, every other such point is dominated by a returned one, and the count is the list length |
| `DiscoMads.ProximityIsDistanceBelowRadius` | src/Algos/DiscoMads/DiscoMadsBarrier.hpp:105-108 | for the Euclidean distance d (d ≥ 0, d² = squared distance), the test gives `d < exclusionRadius` |
| `DiscoMads.ProximityFalseAtRadius` | src/Algos/DiscoMads/DiscoMadsBarrier.hpp:106 | at distance exactly equal to the radius the test is false |
| `DiscoMads.ProximitySymmetric` | src/Algos/DiscoMads/DiscoMadsBarrier.hpp:105-108 | swapping the two points' coordinates does not change the test |
| `DiscoMads.ProximityNearOrigin` | src/Algos/DiscoMads/DiscoMadsBarrier.hpp:105-108 | with radius 0.5, (0.1, 0.1) is close to (0, 0) |
| `DiscoMads.KiemeHvalueIsOrderStatistic` | src/Algos/DiscoMads/DiscoMadsBarrier.hpp:110-113 | on a sorted list and an in-range k: the h at rank k, bounded below by all earlier h and above by all later h, and the k-th order statistic by count |
| `DiscoMads.KiemeHvalueThreePoints` | src/Algos/DiscoMads/DiscoMadsBarrier.hpp:110-113 | over h-values 0.2, 0.5, 0.9 rank 1 gives 0.5 and rank 5 is out of range |
| `DiscoMads.NonDominatedInfOfValidBarrier` | src/Algos/DiscoMads/DiscoMadsBarrier.hpp:115-117 | on a barrier satisfying its invariant, every infeasible incumbent is non-dominated |

## Left out

- `DiscoMads.DiscoMadsBarrier.UpdateWithPoints`: the base-class merge body is not part of this model. `IncumbentMerge` is a simple stand-in: the feasible incumbents are the feasible points of best objective, and the infeasible incumbents are the Pareto frontier within hMax. Only the return contract ("true iff the incumbents changed") is the source's.
- `DiscoMads.DiscoMadsBarrier.UpdateWithPoints`: `keepAllPoints` and `updateInfeasibleIncumbentAndHmax` are accepted but have no effect. The header does not say how hMax is lowered, so hMax is left unchanged.
- The update of the revealed (RPB) constraint for points close to revealing points is not modelled. The header declares no revealing-point storage, and the body that uses `ProximityTest` and `GetKiemeHvalue` is not part of this model.
- Seeding the barrier from `evalPointList` or from the cache (`barrierInitializedFromCache`) is not modelled. Neither is `fixedVariable` and its conversion to subproblem dimension. All of these depend on code that is not part of this model, so the constructor starts with no incumbents.
- `EvalType` and `ComputeType`: one evaluation channel is fixed, so these parameters are dropped.
- `NOMAD::Double`: comparisons are exact over `real`. NOMAD's tolerance-based comparison and floating-point rounding are not modelled.
- Exceptions and logging (`Exception.hpp`) are not modelled. A failing distance computation or an undefined radius comes back as `Err(...)`.
- `shared_ptr` / `EvalPointPtr` ownership is not modelled; points are immutable values stored in sequences.
- `DiscoMads.DiscoMadsBarrier.GetNonDominatedInfPoints`: it returns a new list instead of filling the caller's vector. The header does not say whether the C++ version clears that vector first.
- `EvalPoints.Dominates`: the definition is assumed (see above). Undefined values never take part in dominance.
- `interfaces/PyNomad/setup.py`: a build and packaging script with no logic to model.
