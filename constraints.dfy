/** `get_constraints`: run the chosen strategy for its query pairs, ask the
    oracle about every pair, and flip the answers the error mask selects.
    The distance and affinity functions, the merge array of the clustering
    and every random draw are inputs. */
module Constraints {
  import opened Oracle
  import opened Ffqs
  import opened MinimaxSpec
  import opened Minimax
  import opened Discovery

  /** The random draws one call may use: the seed point of `FFQS`, the
      fallback points of `MMFFQS`, the representative draws and padding
      pairs of active class discovery, the pairs of `rand`, and the error
      mask. */
  datatype Chance = Chance(seed: nat, fallback: seq<nat>, picks: seq<Pair>, pads: seq<Pair>,
                           randPairs: seq<Pair>, errors: seq<bool>)

  /** A strategy's output before the oracle is asked: the rows of
      `query_mat` and, for `ffqs` and `mmffqs`, the label vector
      `big_constraint_mat` is built from. */
  datatype Query = Query(rows: seq<seq<int>>, clusLabel: Option<seq<int>>)

  /** What `get_constraints` returns: the rows of `constraint_mat` and the
      label vector behind `big_constraint_mat` (`None` where the source
      returns `None`). */
  datatype Constrained = Constrained(rows: seq<seq<int>>, clusLabel: Option<seq<int>>)

  /** `np.power(2, k)`. */
  function Pow2(k: nat): (p: nat)
    ensures p >= 1
    ensures k <= 1 ==> p == k + 1
  {
    if k == 0 then 1 else 2 * Pow2(k - 1)
  }

  /** The error flip `2 - 2^link`: it swaps the two answers. */
  function Flip(link: nat): (f: int)
    requires link <= 1
    ensures f == 1 - link
  {
    2 - Pow2(link)
  }

  /** A row of `query_mat` whose first two entries are samples. */
  predicate Indexes(size: nat, row: seq<int>) {
    |row| >= 2 && 0 <= row[0] < size && 0 <= row[1] < size
  }

  /** The oracle's answer for a row, flipped when the mask says so. */
  function Observed(labels: seq<int>, row: seq<int>, err: bool): (link: int)
    requires Indexes(|labels|, row)
  {
    var truth := SameLabel(labels, row[0], row[1]);
    if err then Flip(truth) else truth
  }

  /** `np.append(query_mat, link, axis=1)`. */
  function Assemble(labels: seq<int>, rows: seq<seq<int>>, errors: seq<bool>): seq<seq<int>>
    requires |errors| == |rows|
    requires forall t :: 0 <= t < |rows| ==> Indexes(|labels|, rows[t])
  {
    seq(|rows|, t requires 0 <= t < |rows| => rows[t] + [Observed(labels, rows[t], errors[t])])
  }

  /** `np.append(rows, column, axis=1)` for a one-column `column`. */
  function AppendColumn(rows: seq<seq<int>>, column: seq<int>): (r: seq<seq<int>>)
    requires |column| == |rows|
    ensures |r| == |rows| && forall t :: 0 <= t < |rows| ==> r[t] == rows[t] + [column[t]]
  {
    seq(|rows|, t requires 0 <= t < |rows| => rows[t] + [column[t]])
  }

  function PairRows(ps: seq<Pair>): (rows: seq<seq<int>>)
    ensures |rows| == |ps|
    ensures forall t :: 0 <= t < |ps| ==> rows[t] == [ps[t].i, ps[t].j]
  {
    seq(|ps|, t requires 0 <= t < |ps| => [ps[t].i as int, ps[t].j as int])
  }

  function FullRows(rs: seq<Row>): (rows: seq<seq<int>>)
    ensures |rows| == |rs|
    ensures forall t :: 0 <= t < |rs| ==> rows[t] == [rs[t].i, rs[t].j, rs[t].link]
  {
    seq(|rs|, t requires 0 <= t < |rs| => [rs[t].i as int, rs[t].j as int, rs[t].link])
  }

  /** What the caller must supply for the strategy it names: a budget's
      worth of mask entries, and the draws and inputs that strategy uses,
      each within the range numpy would draw it from. */
  ghost predicate Supplied(labels: seq<int>, name: string, n: nat, children: seq<Pair>, chance: Chance) {
    |chance.errors| == n &&
    (name == "acd" ==>
       (|labels| >= 2 ==> MergeTree(|labels|, children)) &&
       |chance.picks| == n && |chance.pads| == n &&
       forall t :: 0 <= t < n ==> chance.pads[t].i < |labels| && chance.pads[t].j < |labels|) &&
    (name == "ffqs" ==> chance.seed < |labels|) &&
    (name == "mmffqs" ==> chance.seed < |labels| && Draws(chance.fallback, n, |labels|)) &&
    (name == "rand" ==>
       |chance.randPairs| == n &&
       forall t :: 0 <= t < n ==> chance.randPairs[t].i < |labels| && chance.randPairs[t].j < |labels|)
  }

  /** The dispatch of `get_constraints`: each strategy's `query_mat` and
      second result, the failure of the strategy it ran, or `NoSuchMethod`
      for any other name. Every row it returns starts with two samples. */
  function Queried(dist: (nat, nat) -> int, aff: (nat, nat) -> int, labels: seq<int>, name: string, n: nat,
                   minSamples: Option<int>, children: seq<Pair>, chance: Chance): (r: Result<Query>)
    requires Supplied(labels, name, n, children, chance)
    ensures r.Success? ==> |r.value.rows| == n && forall t :: 0 <= t < n ==> Indexes(|labels|, r.value.rows[t])
  {
    if name == "acd" then
      match Acd(|labels|, children, n, minSamples, chance.picks, chance.pads)
      case Failure(e) => Failure(e)
      case Success(ps) =>
        AcdRows(|labels|, children, n, minSamples, chance.picks, chance.pads);
        Success(Query(PairRows(ps), None))
    else if name == "mmffqs" then
      MmffqsSound(dist, aff, labels, n, chance.seed, chance.fallback);
      match Mmffqs(dist, aff, labels, n, chance.seed, chance.fallback)
      case Failure(e) => Failure(e)
      case Success(m) => Success(Query(PairRows(m.pairs), Some(m.clusLabel)))
    else if name == "ffqs" then
      FfqsSound(dist, labels, n, chance.seed);
      match Ffqs.Ffqs(dist, labels, n, chance.seed)
      case Failure(e) => Failure(e)
      case Success(s) =>
        FfqsRowsInRange(labels, s.constraints);
        Success(Query(FullRows(s.constraints), Some(s.nbrLabel)))
    else if name == "rand" then
      Success(Query(PairRows(chance.randPairs), None))
    else Failure(NoSuchMethod)
  }

  /** `get_constraints(data, labels, method, n_constraints, err_rate,
      **kwargs)`: the strategy's rows, each followed by its observed link. */
  function GetConstraintsOf(dist: (nat, nat) -> int, aff: (nat, nat) -> int, labels: seq<int>, name: string, n: nat,
                            minSamples: Option<int>, children: seq<Pair>, chance: Chance): Result<Constrained>
    requires Supplied(labels, name, n, children, chance)
  {
    match Queried(dist, aff, labels, name, n, minSamples, children, chance)
    case Failure(e) => Failure(e)
    case Success(q) => Success(Constrained(Assemble(labels, q.rows, chance.errors), q.clusLabel))
  }

  // ---------------------------------------------------------------------
  // Properties

  /** Every output row is the query row with one more column: the pair is
      copied unchanged, and the link is the oracle's answer where the mask
      is off and its complement where it is on, so it is always 0 or 1.
      `ffqs` rows carry the strategy's own answer as a third column; the
      others are pairs. */
  lemma RowsObserved(dist: (nat, nat) -> int, aff: (nat, nat) -> int, labels: seq<int>, name: string, n: nat,
                     minSamples: Option<int>, children: seq<Pair>, chance: Chance)
    requires Supplied(labels, name, n, children, chance)
    ensures var q := Queried(dist, aff, labels, name, n, minSamples, children, chance);
      var r := GetConstraintsOf(dist, aff, labels, name, n, minSamples, children, chance);
      r.Success? <==> q.Success?
    ensures var q := Queried(dist, aff, labels, name, n, minSamples, children, chance);
      var r := GetConstraintsOf(dist, aff, labels, name, n, minSamples, children, chance);
      r.Success? ==>
        |r.value.rows| == n && r.value.clusLabel == q.value.clusLabel &&
        forall t :: 0 <= t < n ==>
          var row := r.value.rows[t];
          var i, j := q.value.rows[t][0], q.value.rows[t][1];
          |row| == |q.value.rows[t]| + 1 && row[..|row| - 1] == q.value.rows[t] &&
          (row[|row| - 1] == 0 || row[|row| - 1] == 1) &&
          (!chance.errors[t] ==> (row[|row| - 1] == 1 <==> labels[i] == labels[j])) &&
          (chance.errors[t] ==> (row[|row| - 1] == 1 <==> labels[i] != labels[j])) &&
          |row| == (if name == "ffqs" then 4 else 3)
  {
    var q := Queried(dist, aff, labels, name, n, minSamples, children, chance);
    if q.Success? {
      var rows := Assemble(labels, q.value.rows, chance.errors);
      forall t | 0 <= t < n
        ensures |q.value.rows[t]| == (if name == "ffqs" then 3 else 2)
      {
        if name == "acd" {
          var ps := Acd(|labels|, children, n, minSamples, chance.picks, chance.pads).value;
          assert q.value.rows == PairRows(ps);
        } else if name == "mmffqs" {
          var m := Mmffqs(dist, aff, labels, n, chance.seed, chance.fallback).value;
          assert q.value.rows == PairRows(m.pairs);
        } else if name == "ffqs" {
          var s := Ffqs.Ffqs(dist, labels, n, chance.seed).value;
          assert q.value.rows == FullRows(s.constraints);
        } else {
          assert q.value.rows == PairRows(chance.randPairs);
        }
      }
      forall t | 0 <= t < n
        ensures rows[t][..|rows[t]| - 1] == q.value.rows[t]
      {
        assert rows[t] == q.value.rows[t] + [Observed(labels, q.value.rows[t], chance.errors[t])];
      }
    }
  }

  /** The strategy names `get_constraints` accepts; any other is an
      assertion failure. `acd` and `rand` return no label vector, `ffqs`
      and `mmffqs` return theirs. */
  lemma Dispatch(dist: (nat, nat) -> int, aff: (nat, nat) -> int, labels: seq<int>, name: string, n: nat,
                 minSamples: Option<int>, children: seq<Pair>, chance: Chance)
    requires Supplied(labels, name, n, children, chance)
    ensures var r := GetConstraintsOf(dist, aff, labels, name, n, minSamples, children, chance);
      (name !in {"acd", "mmffqs", "ffqs", "rand"} <==> r == Failure(NoSuchMethod)) &&
      (name == "rand" ==> r.Success?) &&
      (name == "acd" ==> (r.Success? <==> |labels| >= 2)) &&
      (r.Success? && (name == "acd" || name == "rand") ==> r.value.clusLabel == None) &&
      (r.Success? && name == "ffqs" ==> r.value.clusLabel == Some(Ffqs.Ffqs(dist, labels, n, chance.seed).value.nbrLabel)) &&
      (r.Success? && name == "mmffqs" ==>
         r.value.clusLabel == Some(Mmffqs(dist, aff, labels, n, chance.seed, chance.fallback).value.clusLabel))
  {
    if name == "mmffqs" {
      MmffqsFails(dist, aff, labels, n, chance.seed, chance.fallback);
      if Mmffqs(dist, aff, labels, n, chance.seed, chance.fallback).Failure? {
        assert Mmffqs(dist, aff, labels, n, chance.seed, chance.fallback).error != NoSuchMethod by {
          FfqsFails(dist, labels, n, chance.seed);
        }
      }
    } else if name == "ffqs" {
      FfqsFails(dist, labels, n, chance.seed);
    }
  }

  // ---------------------------------------------------------------------
  // The method

  /** The dispatch of `get_constraints`: run the named strategy's method
      for `query_mat` and the second result. */
  method RunStrategy(dist: (nat, nat) -> int, aff: (nat, nat) -> int, labels: seq<int>, name: string, n: nat,
                     minSamples: Option<int>, children: seq<Pair>, chance: Chance)
    returns (r: Result<Query>)
    requires Supplied(labels, name, n, children, chance)
    ensures r == Queried(dist, aff, labels, name, n, minSamples, children, chance)
  {
    if name == "acd" {
      var found := ActiveClassDiscovery(|labels|, children, n, minSamples, chance.picks, chance.pads);
      if found.Failure? {
        return Failure(found.error);
      }
      r := Success(Query(PairRows(found.value), None));
    } else if name == "mmffqs" {
      var found := MMFFQS(dist, aff, labels, n, chance.seed, chance.fallback);
      if found.Failure? {
        return Failure(found.error);
      }
      r := Success(Query(PairRows(found.value.pairs), Some(found.value.clusLabel)));
    } else if name == "ffqs" {
      var found := FFQS(dist, labels, n, chance.seed);
      if found.Failure? {
        return Failure(found.error);
      }
      r := Success(Query(FullRows(found.value.constraints), Some(found.value.nbrLabel)));
    } else if name == "rand" {
      r := Success(Query(PairRows(chance.randPairs), None));
    } else {
      r := Failure(NoSuchMethod);
    }
  }

  /** `get_constraints`: the strategy's query matrix, the link column
      computed for every row at once, and the masked rows flipped in
      place. */
  method GetConstraints(dist: (nat, nat) -> int, aff: (nat, nat) -> int, labels: seq<int>, name: string, n: nat,
                        minSamples: Option<int>, children: seq<Pair>, chance: Chance)
    returns (r: Result<Constrained>)
    requires Supplied(labels, name, n, children, chance)
    ensures r == GetConstraintsOf(dist, aff, labels, name, n, minSamples, children, chance)
  {
    var found := RunStrategy(dist, aff, labels, name, n, minSamples, children, chance);
    if found.Failure? {
      return Failure(found.error);
    }
    var queryMat := found.value.rows;
    var link := new int[n](t requires 0 <= t < n && Indexes(|labels|, queryMat[t]) =>
      SameLabel(labels, queryMat[t][0], queryMat[t][1]));
    forall t | 0 <= t < n && chance.errors[t] {
      link[t] := Flip(link[t]);
    }
    r := Success(Constrained(AppendColumn(queryMat, link[..]), found.value.clusLabel));
    assert r.value.rows == Assemble(labels, queryMat, chance.errors);
  }
}
