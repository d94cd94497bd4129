/**
 The respondent's quadrant of the FitKompas: the normalised activity score
 (x) and motivation score (y) are each compared against 50.
 */
module Quadrants {

  const THRESHOLD: int := 50

  datatype Quadrant =
    | InactiveUnmotivated
    | InactiveMotivated
    | ActiveUnmotivated
    | ActiveMotivated
  {
    /** "Wél actief": the activity half of the label. */
    predicate Active() {
      this == ActiveUnmotivated || this == ActiveMotivated
    }

    /** "Wél gemotiveerd": the motivation half of the label. */
    predicate Motivated() {
      this == InactiveMotivated || this == ActiveMotivated
    }
  }

  /**
   The if/elif chain of the results page. A score of exactly 50 counts as
   active (or motivated): the comparison on that side is `>=`.
   */
  function Classify(xNorm: int, yNorm: int): (q: Quadrant)
    ensures q.Active() <==> xNorm >= THRESHOLD
    ensures q.Motivated() <==> yNorm >= THRESHOLD
  {
    if xNorm < THRESHOLD && yNorm < THRESHOLD then InactiveUnmotivated
    else if xNorm < THRESHOLD && yNorm >= THRESHOLD then InactiveMotivated
    else if xNorm >= THRESHOLD && yNorm < THRESHOLD then ActiveUnmotivated
    else ActiveMotivated
  }

  /** The quadrant name shown on the results page. */
  function Label(q: Quadrant): string {
    match q
    case InactiveUnmotivated => "Niet actief & niet gemotiveerd"
    case InactiveMotivated => "Niet actief & wél gemotiveerd"
    case ActiveUnmotivated => "Wél actief & niet gemotiveerd"
    case ActiveMotivated => "Wél actief & wél gemotiveerd"
  }

  /** The guard of each branch of the chain, taken on its own. */
  predicate Branch(k: nat, xNorm: int, yNorm: int) {
    match k
    case 0 => xNorm < THRESHOLD && yNorm < THRESHOLD
    case 1 => xNorm < THRESHOLD && yNorm >= THRESHOLD
    case 2 => xNorm >= THRESHOLD && yNorm < THRESHOLD
    case _ => xNorm >= THRESHOLD && yNorm >= THRESHOLD
  }

  function QuadrantOfBranch(k: nat): Quadrant {
    match k
    case 0 => InactiveUnmotivated
    case 1 => InactiveMotivated
    case 2 => ActiveUnmotivated
    case _ => ActiveMotivated
  }

  /**
   The classification is total and exclusive: exactly one of the four
   guards holds for any pair of scores, and the chain yields its quadrant.
   */
  lemma ExactlyOneBranch(xNorm: int, yNorm: int)
    ensures exists k :: 0 <= k < 4 && Branch(k, xNorm, yNorm)
    ensures forall k, j :: 0 <= k < j < 4 ==> !(Branch(k, xNorm, yNorm) && Branch(j, xNorm, yNorm))
    ensures forall k :: 0 <= k < 4 && Branch(k, xNorm, yNorm) ==> Classify(xNorm, yNorm) == QuadrantOfBranch(k)
  {
    var k := if xNorm < THRESHOLD then (if yNorm < THRESHOLD then 0 else 1)
             else (if yNorm < THRESHOLD then 2 else 3);
    assert Branch(k, xNorm, yNorm);
  }

  /** Each quadrant has its own label. */
  lemma LabelsDistinct(p: Quadrant, q: Quadrant)
    requires p != q
    ensures Label(p) != Label(q)
  {
  }

  /** Raising either score never leaves the active or motivated half. */
  lemma ClassifyMonotone(x: int, y: int, x': int, y': int)
    requires x <= x' && y <= y'
    ensures Classify(x, y).Active() ==> Classify(x', y').Active()
    ensures Classify(x, y).Motivated() ==> Classify(x', y').Motivated()
  {
  }

  /** The boundary cases: (50, 50) is fully in the upper quadrant, (49, 50) is not active. */
  lemma Boundaries()
    ensures Label(Classify(50, 50)) == "Wél actief & wél gemotiveerd"
    ensures Label(Classify(49, 50)) == "Niet actief & wél gemotiveerd"
    ensures Label(Classify(50, 49)) == "Wél actief & niet gemotiveerd"
    ensures Label(Classify(49, 49)) == "Niet actief & niet gemotiveerd"
  {
  }
}
