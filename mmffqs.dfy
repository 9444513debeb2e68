/** `MMFFQS` as the source runs it: `FFQS` first, then a `while` loop
    that updates the label vector `clus_label` and the constraint matrix in
    place, one round per chosen point. Each method is proved against the
    functions of module `MinimaxSpec`. */
module Minimax {
  import opened Seqs
  import opened Oracle
  import opened Neighbourhoods
  import opened Ffqs
  import opened MinimaxSpec

  /** The first `for` loop of a round: for every neighbourhood in `clus`,
      the member most similar to `q` (`ind_vec`) and that similarity
      (`sim_vec`). */
  method Representatives(aff: (nat, nat) -> int, s: seq<int>, clus: seq<int>, q: nat)
    returns (simVec: seq<int>, indVec: seq<nat>)
    requires forall k :: 0 <= k < |clus| ==> clus[k] in s
    ensures indVec == Reps(aff, s, clus, q)
    ensures simVec == Sims(aff, q, indVec)
  {
    simVec, indVec := [], [];
    for k := 0 to |clus|
      invariant indVec == Reps(aff, s, clus[..k], q)
      invariant simVec == Sims(aff, q, indVec)
    {
      var best := BestMember(aff, s, clus[k], q, |s|);
      RepsGrow(aff, s, clus, q, k, indVec, simVec);
      indVec := indVec + [best];
      simVec := simVec + [aff(q, best)];
    }
    assert clus[..|clus|] == clus;
  }




  /** The second `for` loop of a round: ask `q` against the ranked members
      in order, writing each answer at `query_cnt` and counting it; stop
      after a "same" answer, which relabels `q`, or once the budget is
      spent. The answers are exactly `RankedScan`'s rows. */
  method AskRanked(labels: seq<int>, q: nat, ranked: seq<nat>, lab: array<int>, mat: array<Row>, cnt: nat)
    returns (cnt': nat, ghost rows: seq<Row>)
    requires lab.Length == |labels| && q < |labels|
    requires forall t :: 0 <= t < |ranked| ==> ranked[t] < |labels|
    requires cnt < mat.Length
    modifies lab, mat
    ensures rows == RankedScan(labels, q, ranked, mat.Length - cnt)
    ensures lab[..] == Relabel(old(lab[..]), q, rows)
    ensures cnt' == cnt + |rows| <= mat.Length
    ensures mat[..] == Overwrite(old(mat[..]), cnt, rows)
  {
    cnt', rows := AskLoop(labels, q, ranked, lab, mat, cnt);
    ScanIs(labels, q, ranked, mat.Length - cnt, rows);
  }

  /** The loop itself, which leaves the rows `Asked` describes. */
  method AskLoop(labels: seq<int>, q: nat, ranked: seq<nat>, lab: array<int>, mat: array<Row>, cnt: nat)
    returns (cnt': nat, ghost rows: seq<Row>)
    requires lab.Length == |labels| && q < |labels|
    requires forall t :: 0 <= t < |ranked| ==> ranked[t] < |labels|
    requires cnt < mat.Length
    modifies lab, mat
    ensures Asked(labels, q, ranked, mat.Length - cnt, rows)
    ensures lab[..] == Relabel(old(lab[..]), q, rows)
    ensures cnt' == cnt + |rows| <= mat.Length
    ensures mat[..] == Overwrite(old(mat[..]), cnt, rows)
  {
    var n := mat.Length;
    var numClus := |ranked|;
    cnt', rows := cnt, [];
    for k := 0 to numClus
      invariant cnt' == cnt + k < n && |rows| == k
      invariant forall t :: 0 <= t < k ==> rows[t] == Row(q, ranked[t], SameLabel(labels, q, ranked[t]))
      invariant forall t :: 0 <= t < k ==> rows[t].link == 0
      invariant unchanged(lab)
      invariant forall t :: 0 <= t < n ==> mat[t] == if cnt <= t < cnt' then rows[t - cnt] else old(mat[t])
    {
      var link := SameLabel(labels, q, ranked[k]);
      var row := Row(q, ranked[k], link);
      mat[cnt'] := row;
      cnt' := cnt' + 1;
      rows := rows + [row];
      if link == 1 {
        lab[q] := lab[ranked[k]];
        assert lab[..] == old(lab[..])[q := old(lab[..])[ranked[k]]];
        break;
      }
      if k == numClus {
        // The new-neighbourhood branch: `k` stays below `num_clus`.
        assert false;
      }
      if cnt' == n {
        break;
      }
    }
    Overwritten(old(mat[..]), mat[..], cnt, rows);
  }

  /** A matrix that holds `rows` from row `base` on and `mat` elsewhere is
      `mat` overwritten by them. */
  lemma Overwritten(mat: seq<Row>, mat': seq<Row>, base: nat, rows: seq<Row>)
    requires base + |rows| <= |mat| == |mat'|
    requires forall t :: 0 <= t < |mat| ==> mat'[t] == if base <= t < base + |rows| then rows[t - base] else mat[t]
    ensures mat' == Overwrite(mat, base, rows)
  {
  }

  /** Writing `rows` right after `log` is writing `log + rows`. */
  lemma OverwriteMore(mat: seq<Row>, base: nat, log: seq<Row>, at: nat, rows: seq<Row>)
    requires at == base + |log| && at + |rows| <= |mat|
    ensures Overwrite(Overwrite(mat, base, log), at, rows) == Overwrite(mat, base, log + rows)
  {
    var a := Overwrite(Overwrite(mat, base, log), at, rows);
    var b := Overwrite(mat, base, log + rows);
    forall t | 0 <= t < |mat| ensures a[t] == b[t] {
      if base <= t < at {
        assert (log + rows)[t - base] == log[t - base];
      } else if at <= t < at + |rows| {
        assert (log + rows)[t - base] == rows[t - at];
      }
    }
  }

  /** Writing no rows leaves the matrix as it is. */
  lemma OverwriteNone(mat: seq<Row>, base: nat)
    requires base <= |mat|
    ensures Overwrite(mat, base, []) == mat
  {
    assert mat[..base] + mat[base..] == mat;
  }

  /** The choice of the next point at the top of the main loop: the point
      outside the skeleton least similar to it, a random draw once every
      point is in the skeleton, and the empty-reduction error when the
      skeleton is empty but points remain outside it. */
  method PickPoint(aff: (nat, nat) -> int, size: nat, skeleton: seq<nat>, draw: nat) returns (failed: bool, q: nat)
    requires draw < size
    ensures Choose(aff, size, skeleton, draw) == if failed then Failure(EmptyReduction) else Success(q)
  {
    var candidates := Outside(size, skeleton);
    if |candidates| > 0 {
      if |skeleton| == 0 {
        return true, 0;
      }
      q := LeastSimilarBelow(aff, skeleton, size);
    } else {
      q := draw;
    }
    failed := false;
  }

  /** `ind_vec[np.argsort(-sim_vec)]`: the representatives of the
      neighbourhoods, most similar to `q` first. */
  method RankReps(aff: (nat, nat) -> int, s: seq<int>, clus: seq<int>, q: nat) returns (ranked: seq<nat>)
    requires forall k :: 0 <= k < |clus| ==> clus[k] in s
    ensures ranked == Ranked(aff, s, clus, q)
  {
    var simVec, indVec := Representatives(aff, s, clus, q);
    ranked := Permute(indVec, ArgsortDesc(simVec));
  }

  /** One round of the main loop for the chosen point `q`: the
      representatives, their ranking and the questions. The rows are the
      scan of the ranked best members, `q` takes the label of the member
      that answered "same", and the rows go into `mat` from row `cnt` on. */
  method PlayRound(aff: (nat, nat) -> int, labels: seq<int>, clus: seq<int>, lab: array<int>, mat: array<Row>,
                   q: nat, cnt: nat)
    returns (cnt': nat, ghost rows: seq<Row>)
    requires lab.Length == |labels| && q < |labels| && cnt < mat.Length
    requires Ready(labels, lab[..], clus)
    modifies lab, mat
    ensures rows == RankedScan(labels, q, Ranked(aff, old(lab[..]), clus, q), mat.Length - cnt)
    ensures lab[..] == Relabel(old(lab[..]), q, rows)
    ensures cnt' == cnt + |rows| <= mat.Length
    ensures mat[..] == Overwrite(old(mat[..]), cnt, rows)
  {
    var ranked := RankReps(aff, lab[..], clus, q);
    assert unchanged(lab, mat);
    cnt', rows := AskRanked(labels, q, ranked, lab, mat, cnt);
  }

  /** The main `while` loop of `MMFFQS` from `query_cnt == cnt0` with the
      skeleton `skeleton0`: `failed` when it must reduce an empty skeleton,
      otherwise the label vector and the rows it logged are what `MmLoop`
      computes, and the rows overwrite `mat` from row `cnt0` on. */
  method Extend(aff: (nat, nat) -> int, labels: seq<int>, n: nat, fallback: seq<nat>, clus: seq<int>,
                lab: array<int>, mat: array<Row>, skeleton0: seq<nat>, cnt0: nat)
    returns (failed: bool, ghost log: seq<Row>)
    requires lab.Length == |labels| && mat.Length == n && cnt0 <= n
    requires Ready(labels, lab[..], clus) && Draws(fallback, n, |labels|)
    modifies lab, mat
    ensures MmLoop(aff, labels, n, fallback, clus, old(lab[..]), skeleton0, cnt0, []) ==
            if failed then Failure(EmptyReduction) else Success(Extension(lab[..], log))
    ensures !failed ==> cnt0 + |log| <= n && mat[..] == Overwrite(old(mat[..]), cnt0, log)
  {
    ghost var target := MmLoop(aff, labels, n, fallback, clus, lab[..], skeleton0, cnt0, []);
    OverwriteNone(mat[..], cnt0);
    var skeleton := skeleton0;
    var cnt := cnt0;
    log := [];
    while cnt < n
      invariant cnt0 <= cnt <= n && cnt == cnt0 + |log|
      invariant Ready(labels, lab[..], clus)
      invariant Reaches(aff, labels, n, fallback, clus, lab[..], skeleton, cnt, log, target)
      invariant mat[..] == Overwrite(old(mat[..]), cnt0, log)
      decreases n - cnt
    {
      var stop, q := PickPoint(aff, |labels|, skeleton, fallback[cnt]);
      if stop {
        MmStops(aff, labels, n, fallback, clus, lab[..], skeleton, cnt, log);
        return true, log;
      }
      ghost var rows;
      var cnt';
      cnt', rows := Turn(aff, labels, n, fallback, clus, lab, mat, skeleton, cnt, log, q, target);
      OverwriteMore(old(mat[..]), cnt0, log, cnt, rows);
      log := log + rows;
      cnt := cnt';
      skeleton := skeleton + [q];
    }
    MmDone(aff, labels, n, fallback, clus, lab[..], skeleton, log);
    failed := false;
  }

  /** The loop from label vector `s`, skeleton, `query_cnt == cnt` and
      `log` ends in `target`. */
  ghost predicate Reaches(aff: (nat, nat) -> int, labels: seq<int>, n: nat, fallback: seq<nat>, clus: seq<int>,
                          s: seq<int>, skeleton: seq<nat>, cnt: nat, log: seq<Row>, target: Result<Extension>)
    requires Ready(labels, s, clus) && Draws(fallback, n, |labels|) && cnt <= n
  {
    MmLoop(aff, labels, n, fallback, clus, s, skeleton, cnt, log) == target
  }

  /** One turn of the `while` loop after `q` is picked: the round, and the
      loop still ends in `target` from where it leaves off. */
  method Turn(aff: (nat, nat) -> int, labels: seq<int>, n: nat, fallback: seq<nat>, clus: seq<int>,
              lab: array<int>, mat: array<Row>, skeleton: seq<nat>, cnt: nat, ghost log: seq<Row>, q: nat,
              ghost target: Result<Extension>)
    returns (cnt': nat, ghost rows: seq<Row>)
    requires lab.Length == |labels| && mat.Length == n && cnt < n
    requires Ready(labels, lab[..], clus) && Draws(fallback, n, |labels|)
    requires Reaches(aff, labels, n, fallback, clus, lab[..], skeleton, cnt, log, target)
    requires Choose(aff, |labels|, skeleton, fallback[cnt]) == Success(q)
    modifies lab, mat
    ensures cnt < cnt' <= n && cnt' == cnt + |rows| && Ready(labels, lab[..], clus)
    ensures Reaches(aff, labels, n, fallback, clus, lab[..], skeleton + [q], cnt', log + rows, target)
    ensures mat[..] == Overwrite(old(mat[..]), cnt, rows)
  {
    cnt', rows := PlayRound(aff, labels, clus, lab, mat, q, cnt);
    RoundMatches(aff, labels, old(lab[..]), clus, q, mat.Length - cnt, Ranked(aff, old(lab[..]), clus, q), rows, lab[..]);
    Advance(aff, labels, n, fallback, clus, old(lab[..]), skeleton, cnt, log, q, mat.Length - cnt, rows, lab[..], cnt', target);
  }

  /** One round of the loop, from label vector `s` to `s'`: the loop still
      ends in `target`. */
  lemma Advance(aff: (nat, nat) -> int, labels: seq<int>, n: nat, fallback: seq<nat>, clus: seq<int>,
                s: seq<int>, skeleton: seq<nat>, cnt: nat, log: seq<Row>, q: nat, room: nat, rows: seq<Row>,
                s': seq<int>, cnt': nat, target: Result<Extension>)
    requires Ready(labels, s, clus) && Draws(fallback, n, |labels|) && cnt < n
    requires Reaches(aff, labels, n, fallback, clus, s, skeleton, cnt, log, target)
    requires Choose(aff, |labels|, skeleton, fallback[cnt]) == Success(q)
    requires room == n - cnt && RoundOf(aff, labels, s, clus, q, room) == Step(rows, s') && cnt' == cnt + |rows|
    ensures cnt < cnt' <= n && Ready(labels, s', clus)
    ensures Reaches(aff, labels, n, fallback, clus, s', skeleton + [q], cnt', log + rows, target)
  {
    LoopChooses(aff, labels, n, fallback, clus, s, skeleton, cnt, log, q);
    RoundReaches(aff, labels, n, fallback, clus, s, skeleton, cnt, log, q, rows, s', cnt', target);
  }

  /** The rows and the label vector a round leaves, as the method computes
      them, are those of `RoundOf`. */
  lemma RoundMatches(aff: (nat, nat) -> int, labels: seq<int>, s: seq<int>, clus: seq<int>, q: nat, room: nat,
                     ranked: seq<nat>, rows: seq<Row>, s': seq<int>)
    requires Ready(labels, s, clus) && q < |labels| && room > 0 && ranked == Ranked(aff, s, clus, q)
    requires rows == RankedScan(labels, q, ranked, room) && s' == Relabel(s, q, rows)
    ensures RoundOf(aff, labels, s, clus, q, room) == Step(rows, s')
  {
    RoundIs(aff, labels, s, clus, q, room);
  }

  /** After the round that leaves `Step(rows, s')`, the loop goes on from
      `s'` with the rows logged. */
  lemma RoundReaches(aff: (nat, nat) -> int, labels: seq<int>, n: nat, fallback: seq<nat>, clus: seq<int>,
                     s: seq<int>, skeleton: seq<nat>, cnt: nat, log: seq<Row>, q: nat, rows: seq<Row>, s': seq<int>,
                     cnt': nat, target: Result<Extension>)
    requires Ready(labels, s, clus) && Draws(fallback, n, |labels|) && cnt < n && q < |labels|
    requires MmRound(aff, labels, n, fallback, clus, s, skeleton, cnt, log, q) == target
    requires RoundOf(aff, labels, s, clus, q, n - cnt) == Step(rows, s') && cnt' == cnt + |rows|
    ensures cnt < cnt' <= n && Ready(labels, s', clus)
    ensures Reaches(aff, labels, n, fallback, clus, s', skeleton + [q], cnt', log + rows, target)
  {
    RoundGoesOn(aff, labels, n, fallback, clus, s, skeleton, cnt, log, q);
  }

  /** `MMFFQS(pdist_vec, labels, n_constraints)` with the seed point of
      `FFQS` and the fallback draws given: run `FFQS`, keep its label
      vector and matrix, derive the explored pairs, the skeleton and the
      neighbourhood labels, and run the main loop on them. */
  method MMFFQS(dist: (nat, nat) -> int, aff: (nat, nat) -> int, labels: seq<int>, nConstraints: nat,
                seed: nat, fallback: seq<nat>)
    returns (r: Result<Minimax>)
    requires seed < |labels| && Draws(fallback, nConstraints, |labels|)
    ensures r == Mmffqs(dist, aff, labels, nConstraints, seed, fallback)
  {
    var found := FFQS(dist, labels, nConstraints, seed);
    if found.Failure? {
      return Failure(found.error);
    }
    var start := found.value;
    FfqsSound(dist, labels, nConstraints, seed);
    StartReady(labels, start);
    var mat := new Row[nConstraints](t requires 0 <= t < nConstraints => start.constraints[t]);
    var lab := new int[|labels|](i requires 0 <= i < |labels| => start.nbrLabel[i]);
    assert mat[..] == start.constraints && lab[..] == start.nbrLabel;
    var explore := Explored(start.constraints);
    var skeleton := UniqueBelow(|labels|, Flatten(explore));
    var clus := InUse(start.nbrLabel, Max(start.nbrLabel));
    var failed;
    ghost var log;
    failed, log := Extend(aff, labels, nConstraints, fallback, clus, lab, mat, skeleton, |explore|);
    if failed {
      return Failure(EmptyReduction);
    }
    r := Success(Minimax(Pairs(mat[..]), lab[..]));
  }
}
