/** What every strategy shares: query records, the simulated oracle that
    answers a query from the true labels, and the ways a call can fail. */
module Oracle {

  /** One query as a strategy records it: the new point, the point it was
      compared with, and the oracle's answer (1 same, 0 different). */
  datatype Row = Row(i: nat, j: nat, link: int)

  /** A query pair without an answer. */
  datatype Pair = Pair(i: nat, j: nat)

  /** The ways the modelled code raises instead of returning. */
  datatype Error =
    | EmptyArgmax     // `np.argmax` over no candidates (FFQS on one point)
    | EmptyReduction  // `np.max` over an empty skeleton block (MMFFQS)
    | TooFewSamples   // agglomerative clustering needs at least two samples
    | NoSuchMethod    // the strategy name is not one of the four

  datatype Result<T> = Success(value: T) | Failure(error: Error)

  /** The all-zero row `np.zeros` leaves in a constraint matrix slot that
      was never written. */
  const Blank := Row(0, 0, 0)

  /** The oracle: 1 when the two points carry the same true label, else 0. */
  function SameLabel(labels: seq<int>, i: nat, j: nat): (link: int)
    requires i < |labels| && j < |labels|
    ensures link == 0 || link == 1
    ensures link == 1 <==> labels[i] == labels[j]
  {
    if labels[i] == labels[j] then 1 else 0
  }

  /** A row holding a correct oracle answer for its own pair. */
  ghost predicate Answered(labels: seq<int>, r: Row) {
    r.i < |labels| && r.j < |labels| && r.link == SameLabel(labels, r.i, r.j)
  }

  /** The values carried by the true labels: `np.unique(labels)`. */
  ghost function Classes(labels: seq<int>): set<int> {
    set i | 0 <= i < |labels| :: labels[i]
  }

  /** `np.unique(labels).size`: the number of distinct true classes. */
  function NumClass(labels: seq<int>): nat {
    |set i | 0 <= i < |labels| :: labels[i]|
  }
}
