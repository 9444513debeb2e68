/** Farthest-first query search (`FFQS`). Starting from one seeded point,
    each round takes the unassigned point farthest from every assigned one,
    asks the oracle about it against the first member of each neighbourhood
    in label order until an answer is "same", and places it in the matched
    neighbourhood or a new one. */
module Ffqs {
  import opened Seqs
  import opened Oracle
  import opened Neighbourhoods

  /** What FFQS returns: the `n x 3` constraint matrix and the
      neighbourhood-label vector. */
  datatype Search = Search(constraints: seq<Row>, nbrLabel: seq<int>)

  /** A label vector in the shape both searches keep: some point assigned,
      and the labels in use are `1..max` with no gap. */
  ghost predicate Labelled(s: seq<int>) {
    |s| > 0 && Max(s) >= 1 && GapFree(s, Max(s))
  }

  /** `np.min(block, axis=0)` for one candidate: its smallest distance to
      the skeleton. */
  function MinDist(dist: (nat, nat) -> int, skeleton: seq<nat>, q: nat): (d: int)
    requires |skeleton| > 0
    ensures forall a :: 0 <= a < |skeleton| ==> d <= dist(skeleton[a], q)
    ensures exists a :: 0 <= a < |skeleton| && d == dist(skeleton[a], q)
    decreases |skeleton|
  {
    if |skeleton| == 1 then dist(skeleton[0], q)
    else
      var rest := MinDist(dist, skeleton[1..], q);
      assert forall a :: 1 <= a < |skeleton| ==> skeleton[a] == skeleton[1..][a - 1];
      assert exists a :: 1 <= a < |skeleton| && rest == dist(skeleton[a], q) by {
        var a :| 0 <= a < |skeleton[1..]| && rest == dist(skeleton[1..][a], q);
        assert skeleton[a + 1] == skeleton[1..][a];
      }
      if dist(skeleton[0], q) <= rest then dist(skeleton[0], q) else rest
  }

  /** `cand_ind[np.argmax(min_dist)]` restricted to the points before `j`:
      the unassigned point among them whose smallest distance to the
      skeleton is largest, the lowest index on ties. */
  function FarthestBelow(dist: (nat, nat) -> int, s: seq<int>, skeleton: seq<nat>, j: nat): (p: nat)
    requires |skeleton| > 0 && j <= |s| && 0 in s[..j]
    ensures p < j && s[p] == 0
    ensures forall q {:trigger MinDist(dist, skeleton, q)} :: 0 <= q < j && s[q] == 0 ==>
      MinDist(dist, skeleton, q) <= MinDist(dist, skeleton, p)
    ensures forall q {:trigger MinDist(dist, skeleton, q)} :: 0 <= q < p && s[q] == 0 ==>
      MinDist(dist, skeleton, q) < MinDist(dist, skeleton, p)
    decreases j
  {
    var last := j - 1;
    assert forall q :: 0 <= q < last ==> s[..last][q] == s[q] == s[..j][q];
    if 0 !in s[..last] then
      assert s[..j][last] == 0;
      last
    else
      var best := FarthestBelow(dist, s, skeleton, last);
      if s[last] == 0 && MinDist(dist, skeleton, last) > MinDist(dist, skeleton, best) then last
      else best
  }

  /** The farthest-first choice: `p` is unassigned, no unassigned point is
      farther from the assigned ones, and every unassigned point before `p`
      is strictly nearer. */
  ghost predicate IsFarthest(dist: (nat, nat) -> int, s: seq<int>, p: nat)
    requires exists i :: 0 <= i < |s| && s[i] > 0
  {
    var skeleton := Positive(s);
    assert |skeleton| > 0 by {
      var i :| 0 <= i < |s| && s[i] > 0;
      assert i in skeleton;
    }
    p < |s| && s[p] == 0 &&
    (forall q {:trigger MinDist(dist, skeleton, q)} :: 0 <= q < |s| && s[q] == 0 ==>
      MinDist(dist, skeleton, q) <= MinDist(dist, skeleton, p)) &&
    (forall q {:trigger MinDist(dist, skeleton, q)} :: 0 <= q < p && s[q] == 0 ==>
      MinDist(dist, skeleton, q) < MinDist(dist, skeleton, p))
  }

  /** `cand_ind[np.argmax(min_dist)]`: the unassigned point whose smallest
      distance to the assigned points is largest, the lowest index on ties. */
  function Farthest(dist: (nat, nat) -> int, s: seq<int>): (p: nat)
    requires 0 in s
    requires exists i :: 0 <= i < |s| && s[i] > 0
    ensures IsFarthest(dist, s, p)
  {
    var skeleton := Positive(s);
    assert |skeleton| > 0 by {
      var i :| 0 <= i < |s| && s[i] > 0;
      assert i in skeleton;
    }
    assert s[..|s|] == s;
    FarthestBelow(dist, s, skeleton, |s|)
  }

  /** The neighbourhood the oracle places `p` in when asked against the
      representatives of `k..m` in order: the first whose representative has
      `p`'s true label, or the new label `m + 1` when none has. */
  function MatchLabel(labels: seq<int>, s: seq<int>, p: nat, k: nat, m: nat): (r: nat)
    requires GapFree(s, m) && |labels| == |s| && p < |s| && 1 <= k <= m + 1
    ensures k <= r <= m + 1
    ensures r <= m ==> labels[Rep(s, r)] == labels[p]
    ensures forall j :: k <= j < r && j <= m ==> labels[Rep(s, j)] != labels[p]
    decreases m + 1 - k
  {
    if k > m then m + 1
    else if labels[p] == labels[Rep(s, k)] then k
    else MatchLabel(labels, s, p, k + 1, m)
  }

  /** The queries the inner loop asks about `p`, from neighbourhood `k` on:
      one row per representative, stopping after the first "same". */
  function HoodScan(labels: seq<int>, s: seq<int>, p: nat, k: nat, m: nat): seq<Row>
    requires GapFree(s, m) && |labels| == |s| && p < |s| && 1 <= k <= m + 1
    decreases m + 1 - k
  {
    if k > m then []
    else
      var r := Rep(s, k);
      var row := Row(p, r, SameLabel(labels, p, r));
      if labels[p] == labels[r] then [row]
      else [row] + HoodScan(labels, s, p, k + 1, m)
  }

  /** The scan from neighbourhood `k` compares `p` with the representatives
      of `k, k+1, ...` in that order, up to and including the first match
      (or through `m` when none matches). */
  lemma {:induction false} HoodScanRows(labels: seq<int>, s: seq<int>, p: nat, k: nat, m: nat)
    requires GapFree(s, m) && |labels| == |s| && p < |s| && 1 <= k <= m + 1
    ensures var rows := HoodScan(labels, s, p, k, m);
      var r := MatchLabel(labels, s, p, k, m);
      |rows| == (if r <= m then r - k + 1 else m + 1 - k) &&
      forall t :: 0 <= t < |rows| ==>
        k + t <= m && rows[t] == Row(p, Rep(s, k + t), SameLabel(labels, p, Rep(s, k + t)))
    decreases m + 1 - k
  {
    if k <= m {
      var rows := HoodScan(labels, s, p, k, m);
      var rep := Rep(s, k);
      var row := Row(p, rep, SameLabel(labels, p, rep));
      if labels[p] == labels[rep] {
        assert rows == [row];
      } else {
        HoodScanRows(labels, s, p, k + 1, m);
        var rest := HoodScan(labels, s, p, k + 1, m);
        assert rows == [row] + rest;
        forall t | 1 <= t < |rows|
          ensures k + t <= m && rows[t] == Row(p, Rep(s, k + t), SameLabel(labels, p, Rep(s, k + t)))
        {
          assert rows[t] == rest[t - 1];
        }
      }
    }
  }

  /** The scan asks at least one question, answers "different" on every row
      but the last, and its last answer is "same" exactly when a matching
      neighbourhood exists. */
  lemma ScanStopsAtFirstSame(labels: seq<int>, s: seq<int>, p: nat, m: nat)
    requires GapFree(s, m) && m >= 1 && |labels| == |s| && p < |s|
    ensures var rows := HoodScan(labels, s, p, 1, m);
      |rows| >= 1 &&
      (forall t :: 0 <= t < |rows| - 1 ==> rows[t].link == 0) &&
      (rows[|rows| - 1].link == 1 <==> MatchLabel(labels, s, p, 1, m) <= m)
  {
    var rows := HoodScan(labels, s, p, 1, m);
    var r := MatchLabel(labels, s, p, 1, m);
    HoodScanRows(labels, s, p, 1, m);
    forall t | 0 <= t < |rows| - 1 ensures rows[t].link == 0 {
      assert 1 + t < r;
    }
    if r > m {
      assert labels[Rep(s, m)] != labels[p];
    }
  }

  lemma PlaceKeepsGapFree(s: seq<int>, p: nat, m: nat, r: nat)
    requires GapFree(s, m) && m >= 1 && p < |s| && s[p] == 0 && 1 <= r <= m + 1
    ensures var m' := if r == m + 1 then m + 1 else m;
      GapFree(s[p := r], m') && Max(s[p := r]) == m' && Labelled(s[p := r])
  {
    var after := s[p := r];
    var m' := if r == m + 1 then m + 1 else m;
    forall k | 1 <= k <= m' ensures k in after {
      if k == r {
        assert after[p] == k;
      } else {
        assert k in s;
        var i :| 0 <= i < |s| && s[i] == k;
        assert after[i] == k;
      }
    }
    MaxGapFree(after, m');
  }

  lemma PlaceKeepsConsistent(labels: seq<int>, s: seq<int>, p: nat, m: nat)
    requires GapFree(s, m) && m >= 1 && Consistent(s, labels) && p < |s| && s[p] == 0
    ensures Consistent(s[p := MatchLabel(labels, s, p, 1, m)], labels)
  {
    var after := s[p := MatchLabel(labels, s, p, 1, m)];
    forall i, j | 0 <= i < |after| && 0 <= j < |after| && after[i] > 0 && after[j] > 0
      ensures after[i] == after[j] <==> labels[i] == labels[j]
    {
      if i == p && j != p {
        PlacedConsistently(labels, s, p, m, j);
      } else if j == p && i != p {
        PlacedConsistently(labels, s, p, m, i);
      }
    }
  }

  /** The point placed by the scan shares its label with an assigned point
      exactly when they share a true label. */
  lemma PlacedConsistently(labels: seq<int>, s: seq<int>, p: nat, m: nat, j: nat)
    requires GapFree(s, m) && m >= 1 && Consistent(s, labels) && p < |s| && s[p] == 0
    requires j < |s| && s[j] > 0
    ensures s[j] == MatchLabel(labels, s, p, 1, m) <==> labels[j] == labels[p]
  {
    var r := MatchLabel(labels, s, p, 1, m);
    var k := s[j];
    var rep := Rep(s, k);
    assert k in s;
    assert s[rep] == s[j];
    if r <= m {
      var rr := Rep(s, r);
      assert s[rr] == r;
    } else {
      assert labels[rep] != labels[p];
    }
  }

  /** The label vector after a round that visits the unassigned point `p`:
      `p` placed in the first matching neighbourhood, or a new one. */
  function Place(labels: seq<int>, s: seq<int>, p: nat): seq<int>
    requires Labelled(s) && |labels| == |s| && p < |s|
  {
    s[p := MatchLabel(labels, s, p, 1, Max(s))]
  }

  /** A round keeps the vector gap-free, and opens neighbourhood `max + 1`
      exactly when no representative matched. */
  lemma PlaceLabelled(labels: seq<int>, s: seq<int>, p: nat)
    requires Labelled(s) && |labels| == |s| && p < |s| && s[p] == 0
    ensures var s' := Place(labels, s, p);
      |s'| == |s| && Labelled(s') && s'[p] > 0 &&
      (forall i :: 0 <= i < |s| && i != p ==> s'[i] == s[i]) &&
      Max(s') == (if MatchLabel(labels, s, p, 1, Max(s)) <= Max(s) then Max(s) else Max(s) + 1)
  {
    PlaceKeepsGapFree(s, p, Max(s), MatchLabel(labels, s, p, 1, Max(s)));
  }

  /** The result of the outer loop: the final label vector and every query
      asked, including those past the budget that were counted but not
      recorded. */
  datatype Outcome = Outcome(nbrLabel: seq<int>, log: seq<Row>)

  /** The outer `while` loop of FFQS from label vector `s`, having asked
      the queries in `log`: it stops once the budget is spent or every
      class has a neighbourhood, fails when no point is left to visit, and
      otherwise visits the farthest point and continues. */
  function FfqsLoop(dist: (nat, nat) -> int, labels: seq<int>, n: nat, s: seq<int>,
                    log: seq<Row>, foundAll: bool): (r: Result<Outcome>)
    requires Labelled(s) && |labels| == |s|
    decreases n - |log|, 1
  {
    if |log| >= n || foundAll then Success(Outcome(s, log))
    else if 0 !in s then Failure(EmptyArgmax)
    else Advance(dist, labels, n, s, log)
  }

  /** One round of the loop: visit the farthest unassigned point, ask its
      queries, place it, and continue with `found_all` recomputed. */
  function Advance(dist: (nat, nat) -> int, labels: seq<int>, n: nat, s: seq<int>,
                   log: seq<Row>): (r: Result<Outcome>)
    requires Labelled(s) && |labels| == |s| && 0 in s && |log| < n
    decreases n - |log|, 0
  {
    assert Max(s) in s;
    var p := Farthest(dist, s);
    var rows := HoodScan(labels, s, p, 1, Max(s));
    var s' := Place(labels, s, p);
    PlaceLabelled(labels, s, p);
    FfqsLoop(dist, labels, n, s', log + rows, DistinctCount(s') == NumClass(labels))
  }

  /** The `n`-row constraint matrix FFQS returns for a query log. */
  function Fill(log: seq<Row>, n: nat): (mat: seq<Row>)
    ensures |mat| == n
    ensures forall t :: 0 <= t < n ==> mat[t] == Written(log, t)
  {
    seq(n, t requires 0 <= t => Written(log, t))
  }

  /** FFQS from the seed point: the matrix of the first `n` queries and the
      final label vector, or the failure of `np.argmax` over no candidates. */
  function Ffqs(dist: (nat, nat) -> int, labels: seq<int>, n: nat, seed: nat): (r: Result<Search>)
    requires seed < |labels|
  {
    SeededLabelled(|labels|, seed);
    match FfqsLoop(dist, labels, n, Seeded(|labels|, seed), [], false)
    case Failure(e) => Failure(e)
    case Success(out) => Success(Search(Fill(out.log, n), out.nbrLabel))
  }

  lemma SeededLabelled(n: nat, seed: nat)
    requires seed < n
    ensures Labelled(Seeded(n, seed))
  {
    var s := Seeded(n, seed);
    assert s[seed] == 1;
    MaxGapFree(s, 1);
  }


  /** Every row a round asks is a correct oracle answer about the visited
      point and an already assigned point, so it never pairs a point with
      itself and never equals a blank row. */
  lemma ScanRowsAnswered(labels: seq<int>, s: seq<int>, p: nat)
    requires Labelled(s) && |labels| == |s| && p < |s| && s[p] == 0
    ensures forall row :: row in HoodScan(labels, s, p, 1, Max(s)) ==>
      Answered(labels, row) && row.i == p && row.j != p && row != Blank
  {
    var rows := HoodScan(labels, s, p, 1, Max(s));
    HoodScanRows(labels, s, p, 1, Max(s));
    forall row | row in rows
      ensures Answered(labels, row) && row.i == p && row.j != p && row != Blank
    {
      var t :| 0 <= t < |rows| && rows[t] == row;
      var rep := Rep(s, 1 + t);
      assert s[rep] == 1 + t;
    }
  }

  /** One unfolding of the loop while it runs: the round visits the
      farthest point, appends its scan to the log and places the point. */
  lemma LoopStep(dist: (nat, nat) -> int, labels: seq<int>, n: nat, s: seq<int>, log: seq<Row>)
    requires Labelled(s) && |labels| == |s| && |log| < n && 0 in s
    ensures Max(s) in s
    ensures var p := Farthest(dist, s);
      var s' := Place(labels, s, p);
      p < |s| && s[p] == 0 && Labelled(s') &&
      FfqsLoop(dist, labels, n, s, log, false) ==
      FfqsLoop(dist, labels, n, s', log + HoodScan(labels, s, p, 1, Max(s)),
               DistinctCount(s') == NumClass(labels))
  {
    assert Max(s) in s;
    PlaceLabelled(labels, s, Farthest(dist, s));
  }

  /** The loop fails only on a single point: once every point is assigned,
      every class has its neighbourhood and the loop has already stopped. */
  lemma {:induction false} LoopFailsOnlyOnOnePoint(dist: (nat, nat) -> int, labels: seq<int>, n: nat,
                                                   s: seq<int>, log: seq<Row>, foundAll: bool)
    requires Labelled(s) && |labels| == |s| && Consistent(s, labels)
    requires 0 !in s ==> foundAll || |s| == 1
    ensures FfqsLoop(dist, labels, n, s, log, foundAll).Failure? ==>
      |s| == 1 && FfqsLoop(dist, labels, n, s, log, foundAll).error == EmptyArgmax
    decreases n - |log|
  {
    if |log| < n && !foundAll && 0 in s {
      LoopStep(dist, labels, n, s, log);
      var p := Farthest(dist, s);
      var s' := Place(labels, s, p);
      PlaceKeepsConsistent(labels, s, p, Max(s));
      if 0 !in s' {
        AllAssignedAllClasses(s', labels, Max(s'));
        CountGapFree(s', Max(s'));
      }
      LoopFailsOnlyOnOnePoint(dist, labels, n, s', log + HoodScan(labels, s, p, 1, Max(s)),
                              DistinctCount(s') == NumClass(labels));
    }
  }

  /** The loop keeps the labels gap-free and consistent with the true
      labels. */
  lemma {:induction false} LoopKeepsLabels(dist: (nat, nat) -> int, labels: seq<int>, n: nat,
                                           s: seq<int>, log: seq<Row>, foundAll: bool)
    requires Labelled(s) && |labels| == |s| && Consistent(s, labels)
    ensures var r := FfqsLoop(dist, labels, n, s, log, foundAll);
      r.Success? ==>
        |r.value.nbrLabel| == |s| && Labelled(r.value.nbrLabel) && Consistent(r.value.nbrLabel, labels)
    decreases n - |log|
  {
    if |log| < n && !foundAll && 0 in s {
      LoopStep(dist, labels, n, s, log);
      var p := Farthest(dist, s);
      var s' := Place(labels, s, p);
      PlaceKeepsConsistent(labels, s, p, Max(s));
      LoopKeepsLabels(dist, labels, n, s', log + HoodScan(labels, s, p, 1, Max(s)),
                      DistinctCount(s') == NumClass(labels));
    }
  }

  /** A point keeps its neighbourhood once it has one. */
  lemma {:induction false} LoopKeepsAssigned(dist: (nat, nat) -> int, labels: seq<int>, n: nat,
                                             s: seq<int>, log: seq<Row>, foundAll: bool)
    requires Labelled(s) && |labels| == |s|
    ensures var r := FfqsLoop(dist, labels, n, s, log, foundAll);
      r.Success? ==>
        |r.value.nbrLabel| == |s| &&
        forall i :: 0 <= i < |s| && s[i] > 0 ==> r.value.nbrLabel[i] == s[i]
    decreases n - |log|
  {
    if |log| < n && !foundAll && 0 in s {
      LoopStep(dist, labels, n, s, log);
      var p := Farthest(dist, s);
      var s' := Place(labels, s, p);
      PlaceLabelled(labels, s, p);
      LoopKeepsAssigned(dist, labels, n, s', log + HoodScan(labels, s, p, 1, Max(s)),
                        DistinctCount(s') == NumClass(labels));
    }
  }

  /** The loop ends with the budget spent or every class found. */
  lemma {:induction false} LoopStops(dist: (nat, nat) -> int, labels: seq<int>, n: nat,
                                     s: seq<int>, log: seq<Row>, foundAll: bool)
    requires Labelled(s) && |labels| == |s|
    requires foundAll ==> DistinctCount(s) == NumClass(labels)
    ensures var r := FfqsLoop(dist, labels, n, s, log, foundAll);
      r.Success? ==> |r.value.log| >= n || DistinctCount(r.value.nbrLabel) == NumClass(labels)
    decreases n - |log|
  {
    if |log| < n && !foundAll && 0 in s {
      LoopStep(dist, labels, n, s, log);
      var p := Farthest(dist, s);
      var s' := Place(labels, s, p);
      LoopStops(dist, labels, n, s', log + HoodScan(labels, s, p, 1, Max(s)),
                DistinctCount(s') == NumClass(labels));
    }
  }

  /** Every round asks at least one question and opens at most one
      neighbourhood, and a round starts only while the budget is not spent,
      so no label ever exceeds the budget plus one. */
  lemma {:induction false} LoopBudgetBound(dist: (nat, nat) -> int, labels: seq<int>, n: nat,
                                           s: seq<int>, log: seq<Row>, foundAll: bool)
    requires Labelled(s) && |labels| == |s|
    requires Max(s) <= |log| + 1 && Max(s) <= n + 1
    ensures var r := FfqsLoop(dist, labels, n, s, log, foundAll);
      r.Success? ==> forall i :: 0 <= i < |r.value.nbrLabel| ==> r.value.nbrLabel[i] <= n + 1
    decreases n - |log|
  {
    if |log| < n && !foundAll && 0 in s {
      LoopStep(dist, labels, n, s, log);
      var p := Farthest(dist, s);
      var s' := Place(labels, s, p);
      var rows := HoodScan(labels, s, p, 1, Max(s));
      PlaceLabelled(labels, s, p);
      ScanStopsAtFirstSame(labels, s, p, Max(s));
      LoopBudgetBound(dist, labels, n, s', log + rows, DistinctCount(s') == NumClass(labels));
    } else if |log| >= n || foundAll {
      forall i | 0 <= i < |s| ensures s[i] <= n + 1 {
        assert s[i] <= Max(s);
      }
    }
  }

  /** The rows of `log` from position `k` on are correct oracle answers
      about pairs of different points. */
  ghost predicate AnsweredFrom(labels: seq<int>, log: seq<Row>, k: nat) {
    forall t :: k <= t < |log| ==> Answered(labels, log[t]) && log[t].i != log[t].j
  }

  /** The loop only appends to the query log, and every query it appends is
      a correct oracle answer about two different points. */
  lemma {:induction false} LoopLogsAnswers(dist: (nat, nat) -> int, labels: seq<int>, n: nat,
                                           s: seq<int>, log: seq<Row>, foundAll: bool)
    requires Labelled(s) && |labels| == |s|
    ensures var r := FfqsLoop(dist, labels, n, s, log, foundAll);
      r.Success? ==>
        |r.value.log| >= |log| && r.value.log[..|log|] == log &&
        AnsweredFrom(labels, r.value.log, |log|)
    decreases n - |log|
  {
    if |log| < n && !foundAll && 0 in s {
      LoopStep(dist, labels, n, s, log);
      var p := Farthest(dist, s);
      var rows := HoodScan(labels, s, p, 1, Max(s));
      var s' := Place(labels, s, p);
      var r := FfqsLoop(dist, labels, n, s', log + rows, DistinctCount(s') == NumClass(labels));
      LoopLogsAnswers(dist, labels, n, s', log + rows, DistinctCount(s') == NumClass(labels));
      if r.Success? {
        ScanRowsAnswered(labels, s, p);
        LogPrefix(log, rows, r.value.log);
        forall t | |log| <= t < |log + rows|
          ensures Answered(labels, r.value.log[t]) && r.value.log[t].i != r.value.log[t].j
        {
          assert r.value.log[t] == rows[t - |log|];
          assert rows[t - |log|] in rows;
        }
      }
    }
  }

  lemma LogPrefix(log: seq<Row>, rows: seq<Row>, out: seq<Row>)
    requires |out| >= |log + rows| && out[..|log + rows|] == log + rows
    ensures |out| >= |log| && out[..|log|] == log
    ensures forall t :: |log| <= t < |log + rows| ==> out[t] == rows[t - |log|]
  {
    assert out[..|log|] == (log + rows)[..|log|];
    forall t | |log| <= t < |log + rows| ensures out[t] == rows[t - |log|] {
      assert out[t] == out[..|log + rows|][t];
    }
  }

  /** FFQS fails exactly when there is one point and a positive budget:
      `np.argmax` then runs over no candidates. */
  lemma FfqsFails(dist: (nat, nat) -> int, labels: seq<int>, n: nat, seed: nat)
    requires seed < |labels|
    ensures Ffqs(dist, labels, n, seed).Failure? <==> |labels| == 1 && n > 0
    ensures Ffqs(dist, labels, n, seed).Failure? ==> Ffqs(dist, labels, n, seed).error == EmptyArgmax
  {
    var s := Seeded(|labels|, seed);
    SeededLabelled(|labels|, seed);
    SeededInvariants(labels, seed);
    if |labels| >= 2 {
      var other := if seed == 0 then 1 else 0;
      assert s[other] == 0;
    }
    if |labels| == 1 {
      assert 0 !in s by {
        assert s == [1];
      }
    }
    LoopFailsOnlyOnOnePoint(dist, labels, n, s, [], false);
  }

  /** What FFQS returns on success: an `n`-row matrix whose written rows are
      correct oracle answers about pairs of different points, with all `n`
      rows written unless every class was found; and a label vector that is
      gap-free, agrees with the true labels, keeps the seed in
      neighbourhood 1, and names at most as many neighbourhoods as there are
      classes and at most one more than the budget. */
  lemma FfqsSound(dist: (nat, nat) -> int, labels: seq<int>, n: nat, seed: nat)
    requires seed < |labels|
    ensures var r := Ffqs(dist, labels, n, seed);
      r.Success? ==>
        |r.value.constraints| == n && |r.value.nbrLabel| == |labels| &&
        (forall t :: 0 <= t < n && r.value.constraints[t] != Blank ==>
          Answered(labels, r.value.constraints[t]) &&
          r.value.constraints[t].i != r.value.constraints[t].j) &&
        ((forall t :: 0 <= t < n ==> r.value.constraints[t] != Blank) ||
         DistinctCount(r.value.nbrLabel) == NumClass(labels)) &&
        Labelled(r.value.nbrLabel) && Consistent(r.value.nbrLabel, labels) &&
        r.value.nbrLabel[seed] == 1 &&
        Max(r.value.nbrLabel) <= NumClass(labels) &&
        DistinctCount(r.value.nbrLabel) <= n + 1
  {
    var s := Seeded(|labels|, seed);
    SeededLabelled(|labels|, seed);
    SeededInvariants(labels, seed);
    var r := FfqsLoop(dist, labels, n, s, [], false);
    LoopKeepsLabels(dist, labels, n, s, [], false);
    LoopKeepsAssigned(dist, labels, n, s, [], false);
    LoopStops(dist, labels, n, s, [], false);
    LoopLogsAnswers(dist, labels, n, s, [], false);
    MaxGapFree(s, 1);
    LoopBudgetBound(dist, labels, n, s, [], false);
    if r.Success? {
      var out := r.value;
      CountGapFree(out.nbrLabel, Max(out.nbrLabel));
      var mat := Fill(out.log, n);
      forall t | 0 <= t < n && mat[t] != Blank
        ensures Answered(labels, mat[t]) && mat[t].i != mat[t].j
      {
        assert t < |out.log|;
      }
      if |out.log| >= n {
        forall t | 0 <= t < n ensures mat[t] != Blank {
          assert out.log[t].i != out.log[t].j;
        }
      }
      AtMostClasses(out.nbrLabel, labels, Max(out.nbrLabel));
    }
  }

  /** Row `t` of an `n`-row constraint matrix filled from a query log while
      the budget allows, the rest left as `np.zeros` made them. */
  function Written(log: seq<Row>, t: nat): Row {
    if t < |log| then log[t] else Blank
  }

  lemma WrittenAppend(log: seq<Row>, row: Row, n: nat)
    ensures forall t :: 0 <= t < n && t != |log| ==> Written(log + [row], t) == Written(log, t)
    ensures |log| < n ==> Written(log + [row], |log|) == row
  {
  }

  /** The inner `while` loop of one round: asks about `p` against the first
      member of neighbourhoods `1, 2, ...` in turn until an answer is "same"
      or the neighbourhoods run out, writing each answer into `mat` while
      the budget allows and counting every question. */
  method AskNeighbourhoods(labels: seq<int>, nbr: array<int>, p: nat, top: nat,
                           mat: array<Row>, quer: nat, ghost log: seq<Row>)
    returns (constraint: bool, k: nat, quer': nat)
    requires nbr.Length == |labels| && p < nbr.Length
    requires GapFree(nbr[..], top) && top >= 1
    requires quer == |log|
    requires forall t :: 0 <= t < mat.Length ==> mat[t] == Written(log, t)
    modifies mat
    ensures var rows := HoodScan(labels, nbr[..], p, 1, top);
      quer' == quer + |rows| &&
      forall t :: 0 <= t < mat.Length ==> mat[t] == Written(log + rows, t)
    ensures (if constraint then k - 1 else top + 1) == MatchLabel(labels, nbr[..], p, 1, top)
  {
    var s := nbr[..];
    ghost var done := log;
    constraint, k, quer' := false, 1, quer;
    while !constraint && k <= top
      invariant 1 <= k <= top + 1
      invariant constraint ==> k >= 2 && MatchLabel(labels, s, p, 1, top) == k - 1 &&
                               done == log + HoodScan(labels, s, p, 1, top)
      invariant !constraint ==> MatchLabel(labels, s, p, 1, top) == MatchLabel(labels, s, p, k, top) &&
                                done + HoodScan(labels, s, p, k, top) == log + HoodScan(labels, s, p, 1, top)
      invariant quer' == |done|
      invariant forall t :: 0 <= t < mat.Length ==> mat[t] == Written(done, t)
      decreases top + 1 - k
    {
      var rep := Rep(s, k);
      constraint := labels[p] == labels[rep];
      var row := Row(p, rep, SameLabel(labels, p, rep));
      ScanAdvance(labels, s, p, k, top, log, done);
      if quer' < mat.Length {
        mat[quer'] := row;
      }
      WrittenAppend(done, row, mat.Length);
      done := done + [row];
      quer' := quer' + 1;
      k := k + 1;
    }
  }

  /** Asking about neighbourhood `k` appends its row to what was asked so
      far, and either ends the scan (a match at `k`) or leaves the rest of
      the scan from `k + 1`. */
  lemma ScanAdvance(labels: seq<int>, s: seq<int>, p: nat, k: nat, top: nat, log: seq<Row>, done: seq<Row>)
    requires GapFree(s, top) && |labels| == |s| && p < |s| && 1 <= k <= top
    requires MatchLabel(labels, s, p, 1, top) == MatchLabel(labels, s, p, k, top)
    requires done + HoodScan(labels, s, p, k, top) == log + HoodScan(labels, s, p, 1, top)
    ensures var rep := Rep(s, k);
      var done' := done + [Row(p, rep, SameLabel(labels, p, rep))];
      if labels[p] == labels[rep] then
        MatchLabel(labels, s, p, 1, top) == k && done' == log + HoodScan(labels, s, p, 1, top)
      else
        MatchLabel(labels, s, p, 1, top) == MatchLabel(labels, s, p, k + 1, top) &&
        done' + HoodScan(labels, s, p, k + 1, top) == log + HoodScan(labels, s, p, 1, top)
  {
    var rep := Rep(s, k);
    var row := Row(p, rep, SameLabel(labels, p, rep));
    if labels[p] != labels[rep] {
      var rest := HoodScan(labels, s, p, k + 1, top);
      assert HoodScan(labels, s, p, k, top) == [row] + rest;
      assert (done + [row]) + rest == done + ([row] + rest);
    }
  }

  /** One pass of the outer loop: picks the farthest unassigned point,
      scans the neighbourhoods for it and places it. `rows` are the queries
      it asks; the loop from the new state has the outcome the loop from
      the old state has. */
  method Round(dist: (nat, nat) -> int, labels: seq<int>, nConstraints: nat, nbr: array<int>,
               mat: array<Row>, quer: nat, ghost log: seq<Row>)
    returns (p: nat, quer': nat, ghost rows: seq<Row>)
    requires nbr.Length == |labels|
    requires Labelled(nbr[..]) && 0 in nbr[..]
    requires quer == |log| && quer < nConstraints
    requires forall t :: 0 <= t < mat.Length ==> mat[t] == Written(log, t)
    modifies nbr, mat
    ensures p == Farthest(dist, old(nbr[..]))
    ensures old(nbr[..])[p] == 0 && nbr[..] == Place(labels, old(nbr[..]), p)
    ensures rows == HoodScan(labels, old(nbr[..]), p, 1, Max(old(nbr[..])))
    ensures quer' == quer + |rows|
    ensures forall t :: 0 <= t < mat.Length ==> mat[t] == Written(log + rows, t)
    ensures Labelled(nbr[..])
    ensures FfqsLoop(dist, labels, nConstraints, nbr[..], log + rows, DistinctCount(nbr[..]) == NumClass(labels)) ==
            FfqsLoop(dist, labels, nConstraints, old(nbr[..]), log, false)
  {
    ghost var before := nbr[..];
    LoopStep(dist, labels, nConstraints, before, log);
    p := Farthest(dist, nbr[..]);
    var top := Max(nbr[..]);
    rows := HoodScan(labels, before, p, 1, top);
    var constraint, k;
    constraint, k, quer' := AskNeighbourhoods(labels, nbr, p, top, mat, quer, log);
    assert nbr[..] == before;
    ghost var placed := MatchLabel(labels, before, p, 1, top);
    if constraint {
      nbr[p] := k - 1;
    } else {
      nbr[p] := top + 1;
    }
    assert nbr[p] == placed;
    assert |nbr[..]| == |before|;
    assert forall i :: 0 <= i < nbr.Length && i != p ==> nbr[i] == before[i];
    assert nbr[..] == before[p := placed];
  }

  /** The loop from state `s`, `log`, `foundAll` ends in `target`. */
  ghost predicate Leads(dist: (nat, nat) -> int, labels: seq<int>, n: nat, s: seq<int>,
                        log: seq<Row>, foundAll: bool, target: Result<Outcome>)
    requires Labelled(s) && |labels| == |s|
  {
    FfqsLoop(dist, labels, n, s, log, foundAll) == target
  }

  /** The main `while` loop of FFQS on the label vector `nbr` and the
      constraint matrix `mat`: it ends after `n_constraints` queries, when
      every class has a neighbourhood, or with `failed` when `np.argmax` has
      no unassigned point to choose from. */
  method Explore(dist: (nat, nat) -> int, labels: seq<int>, nConstraints: nat,
                 nbr: array<int>, mat: array<Row>)
    returns (failed: bool, ghost log: seq<Row>)
    requires nbr.Length == |labels| && mat.Length == nConstraints
    requires Labelled(nbr[..])
    requires forall t :: 0 <= t < nConstraints ==> mat[t] == Blank
    modifies nbr, mat
    ensures Labelled(nbr[..])
    ensures FfqsLoop(dist, labels, nConstraints, old(nbr[..]), [], false) ==
            if failed then Failure(EmptyArgmax) else Success(Outcome(nbr[..], log))
    ensures forall t :: 0 <= t < nConstraints ==> mat[t] == Written(log, t)
  {
    ghost var target := FfqsLoop(dist, labels, nConstraints, nbr[..], [], false);
    var numClass := NumClass(labels);
    var quer := 0;
    var foundAll := false;
    log := [];
    while quer < nConstraints && !foundAll
      invariant nbr.Length == |labels| && mat.Length == nConstraints
      invariant Labelled(nbr[..]) && quer == |log|
      invariant Leads(dist, labels, nConstraints, nbr[..], log, foundAll, target)
      invariant forall t :: 0 <= t < nConstraints ==> mat[t] == Written(log, t)
      decreases nConstraints - quer
    {
      if 0 !in nbr[..] {
        return true, log;
      }
      var p;
      ghost var rows;
      p, quer, rows := Round(dist, labels, nConstraints, nbr, mat, quer, log);
      log := log + rows;
      if DistinctCount(nbr[..]) == numClass {
        foundAll := true;
      }
    }
    failed := false;
  }

  /** `FFQS(pdist_vec, labels, n_constraints)` with the random seed point
      given as `seed`: the seed starts neighbourhood 1, every other point is
      unassigned, the matrix is blank, and `Explore` runs the loop. */
  method FFQS(dist: (nat, nat) -> int, labels: seq<int>, nConstraints: nat, seed: nat)
    returns (r: Result<Search>)
    requires seed < |labels|
    ensures r == Ffqs(dist, labels, nConstraints, seed)
  {
    var n := |labels|;
    var nbr := new int[n](i => if i == seed then 1 else 0);
    var mat := new Row[nConstraints](_ => Blank);
    assert nbr[..] == Seeded(n, seed);
    SeededLabelled(n, seed);
    var failed;
    ghost var log;
    failed, log := Explore(dist, labels, nConstraints, nbr, mat);
    if failed {
      return Failure(EmptyArgmax);
    }
    assert mat[..] == Fill(log, nConstraints);
    r := Success(Search(mat[..], nbr[..]));
  }
}
