/** Minimax farthest-first query search as functions: what one round of
    `MMFFQS` does after `FFQS` has explored, and the whole run from the
    `FFQS` result. The methods in module `Minimax` compute the same on
    arrays. */
module MinimaxSpec {
  import opened Seqs
  import opened Oracle
  import opened Neighbourhoods
  import opened Ffqs

  /** The state the main loop threads: the label vector `clus_label` and
      the rows written since the explore phase, in order. */
  datatype Extension = Extension(clusLabel: seq<int>, log: seq<Row>)

  /** What `MMFFQS` returns: the first two columns of its constraint matrix
      and the final label vector. */
  datatype Minimax = Minimax(pairs: seq<Pair>, clusLabel: seq<int>)

  /** `constraint_mat[constraint_mat[:,0] != 0, 0:2]`: the pairs of the rows
      whose first entry is nonzero, in order. Blank rows go, and so does any
      real query whose new point was point 0. */
  function Explored(rows: seq<Row>): (r: seq<Pair>)
    ensures |r| <= |rows|
    ensures forall t :: 0 <= t < |rows| && rows[t].i != 0 ==> Pair(rows[t].i, rows[t].j) in r
    ensures forall p {:trigger p in r} :: p in r ==>
      p.i != 0 && exists t :: 0 <= t < |rows| && rows[t].i == p.i && rows[t].j == p.j
    decreases |rows|
  {
    if |rows| == 0 then []
    else
      var last := |rows| - 1;
      var init := Explored(rows[..last]);
      assert forall t :: 0 <= t < last ==> rows[t] == rows[..last][t];
      init + (if rows[last].i != 0 then [Pair(rows[last].i, rows[last].j)] else [])
  }

  /** The positions of the rows whose first entry is nonzero, in
      increasing order. */
  function NonzeroRows(rows: seq<Row>): (idx: seq<nat>)
    ensures forall a :: 0 <= a < |idx| ==> idx[a] < |rows| && rows[idx[a]].i != 0
    ensures forall a, b :: 0 <= a < b < |idx| ==> idx[a] < idx[b]
    ensures forall t {:trigger t in idx} :: 0 <= t < |rows| && rows[t].i != 0 ==> t in idx
    decreases |rows|
  {
    if |rows| == 0 then []
    else
      var last := |rows| - 1;
      var init := NonzeroRows(rows[..last]);
      assert forall t :: 0 <= t < last ==> rows[t] == rows[..last][t];
      init + (if rows[last].i != 0 then [last] else [])
  }

  /** `explore_constraints` keeps the surviving rows in order: its `a`-th
      pair is the pair of the `a`-th row with a nonzero first entry, so
      `query_cnt` (line 109) counts exactly those rows. */
  lemma {:induction false} ExploredAt(rows: seq<Row>)
    ensures var r := Explored(rows);
      var idx := NonzeroRows(rows);
      |r| == |idx| &&
      forall a :: 0 <= a < |r| ==> r[a] == Pair(rows[idx[a]].i, rows[idx[a]].j)
    decreases |rows|
  {
    if |rows| > 0 {
      var last := |rows| - 1;
      var init := rows[..last];
      ExploredAt(init);
      var r0, idx0 := Explored(init), NonzeroRows(init);
      var r, idx := Explored(rows), NonzeroRows(rows);
      var extra := if rows[last].i != 0 then [last] else [];
      assert idx == idx0 + extra;
      assert r == r0 + (if rows[last].i != 0 then [Pair(rows[last].i, rows[last].j)] else []);
      forall a | 0 <= a < |r0| ensures r[a] == Pair(rows[idx[a]].i, rows[idx[a]].j) {
        assert r[a] == r0[a] && idx[a] == idx0[a];
        assert init[idx0[a]] == rows[idx0[a]];
      }
    }
  }

  /** `reshape(-1)` of a list of pairs: both entries of every pair. */
  function Flatten(ps: seq<Pair>): (r: seq<nat>)
    ensures |r| == 2 * |ps|
    ensures forall x {:trigger x in r} :: x in r <==> exists p :: p in ps && (x == p.i || x == p.j)
    decreases |ps|
  {
    if |ps| == 0 then []
    else
      var rest := Flatten(ps[1..]);
      assert forall p :: p in ps[1..] ==> p in ps;
      assert forall p :: p in ps && p != ps[0] ==> p in ps[1..];
      [ps[0].i, ps[0].j] + rest
  }

  /** `np.max(pdist_block(paff_vec, skeleton_ind, [c]), axis=0)`: the
      largest affinity of candidate `c` to a skeleton point. */
  function MaxAff(aff: (nat, nat) -> int, skeleton: seq<nat>, c: nat): (m: int)
    requires |skeleton| > 0
    ensures forall a {:trigger aff(skeleton[a], c)} :: 0 <= a < |skeleton| ==> aff(skeleton[a], c) <= m
    ensures exists a {:trigger aff(skeleton[a], c)} :: 0 <= a < |skeleton| && m == aff(skeleton[a], c)
    decreases |skeleton|
  {
    if |skeleton| == 1 then aff(skeleton[0], c)
    else
      var rest := MaxAff(aff, skeleton[1..], c);
      assert forall a :: 1 <= a < |skeleton| ==> skeleton[a] == skeleton[1..][a - 1];
      assert exists a :: 1 <= a < |skeleton| && rest == aff(skeleton[a], c) by {
        var a :| 0 <= a < |skeleton[1..]| && rest == aff(skeleton[1..][a], c);
        assert skeleton[a + 1] == skeleton[1..][a];
      }
      if aff(skeleton[0], c) >= rest then aff(skeleton[0], c) else rest
  }

  /** `candidate_ind[np.argmin(cand_sim_to_skele)]` over the candidates
      below `j`: the point outside the skeleton whose largest affinity to it
      is smallest, the lowest index on ties. */
  function LeastSimilarBelow(aff: (nat, nat) -> int, skeleton: seq<nat>, j: nat): (q: nat)
    requires |skeleton| > 0 && |Outside(j, skeleton)| > 0
    ensures q < j && q !in skeleton
    ensures forall c {:trigger MaxAff(aff, skeleton, c)} :: 0 <= c < j && c !in skeleton ==>
      MaxAff(aff, skeleton, q) <= MaxAff(aff, skeleton, c)
    ensures forall c {:trigger MaxAff(aff, skeleton, c)} :: 0 <= c < q && c !in skeleton ==>
      MaxAff(aff, skeleton, q) < MaxAff(aff, skeleton, c)
    decreases j
  {
    var last := j - 1;
    assert Outside(j, skeleton) == Outside(last, skeleton) + (if last in skeleton then [] else [last]);
    if |Outside(last, skeleton)| == 0 then
      assert forall c :: 0 <= c < last && c !in skeleton ==> c in Outside(last, skeleton);
      last
    else
      var best := LeastSimilarBelow(aff, skeleton, last);
      if last !in skeleton && MaxAff(aff, skeleton, last) < MaxAff(aff, skeleton, best) then last
      else best
  }

  /** The point a round queries: the least similar point outside the
      skeleton, or, once there is none, the supplied draw standing for
      `np.random.randint(N)`. An empty skeleton with candidates left makes
      `np.max` reduce an empty block. */
  function Choose(aff: (nat, nat) -> int, n: nat, skeleton: seq<nat>, draw: nat): (r: Result<nat>)
    requires draw < n
    ensures r.Success? ==> r.value < n
    ensures r.Failure? <==> |skeleton| == 0 && exists c :: 0 <= c < n && c !in skeleton
    ensures r.Failure? ==> r.error == EmptyReduction
    ensures r.Success? && (exists c :: 0 <= c < n && c !in skeleton) ==>
      r.value < n && r.value !in skeleton
    ensures r.Success? && |skeleton| > 0 && |Outside(n, skeleton)| > 0 ==>
      r.value == LeastSimilarBelow(aff, skeleton, n)
    ensures r.Success? && !(exists c :: 0 <= c < n && c !in skeleton) ==> r.value == draw
  {
    var cand := Outside(n, skeleton);
    assert (exists c :: 0 <= c < n && c !in skeleton) <==> |cand| > 0 by {
      if exists c :: 0 <= c < n && c !in skeleton {
        var c :| 0 <= c < n && c !in skeleton;
        assert c in cand;
      }
      if |cand| > 0 {
        assert cand[0] in cand;
      }
    }
    if |cand| > 0 then
      if |skeleton| == 0 then Failure(EmptyReduction)
      else Success(LeastSimilarBelow(aff, skeleton, n))
    else Success(draw)
  }

  /** `ind_k[np.argmax(pdist_block(paff_vec, q, ind_k))]` with `ind_k` the
      members of neighbourhood `v` below `j`: the member most similar to
      `q`, the lowest index on ties. */
  function BestMember(aff: (nat, nat) -> int, s: seq<int>, v: int, q: nat, j: nat): (p: nat)
    requires j <= |s| && v in s[..j]
    ensures p < j && s[p] == v
    ensures forall i {:trigger aff(q, i)} :: 0 <= i < j && s[i] == v ==> aff(q, i) <= aff(q, p)
    ensures forall i {:trigger aff(q, i)} :: 0 <= i < p && s[i] == v ==> aff(q, i) < aff(q, p)
    decreases j
  {
    var last := j - 1;
    assert forall i :: 0 <= i < last ==> s[..last][i] == s[i] == s[..j][i];
    if v !in s[..last] then
      assert s[..j][last] == v;
      last
    else
      var best := BestMember(aff, s, v, q, last);
      if s[last] == v && aff(q, last) > aff(q, best) then last else best
  }

  /** The neighbourhood of point `i`: `s[i]` under a name of its own, so
      that the consistency invariant of the loop is used only where a proof
      asks for it. */
  ghost function Hood(s: seq<int>, i: nat): int
    requires i < |s|
  {
    s[i]
  }

  /** `Consistent`, stated on `Hood`: two assigned points share a
      neighbourhood exactly when they share a true label. */
  ghost predicate Agree(s: seq<int>, labels: seq<int>) {
    |s| == |labels| &&
    forall i: nat, j: nat {:trigger Hood(s, i), Hood(s, j)} :: i < |s| && j < |s| && Hood(s, i) > 0 && Hood(s, j) > 0 ==>
      (Hood(s, i) == Hood(s, j) <==> labels[i] == labels[j])
  }

  lemma AgreeConsistent(s: seq<int>, labels: seq<int>)
    ensures Agree(s, labels) <==> Consistent(s, labels)
  {
    if Agree(s, labels) {
      forall i, j | 0 <= i < |s| && 0 <= j < |s| && s[i] > 0 && s[j] > 0
        ensures s[i] == s[j] <==> labels[i] == labels[j]
      {
        assert Hood(s, i) == s[i] && Hood(s, j) == s[j];
      }
    }
    if Consistent(s, labels) {
      forall i: nat, j: nat | i < |s| && j < |s| && Hood(s, i) > 0 && Hood(s, j) > 0
        ensures Hood(s, i) == Hood(s, j) <==> labels[i] == labels[j]
      {
        assert s[i] > 0 && s[j] > 0;
      }
    }
  }

  /** Every neighbourhood label is a positive value some point still
      carries, and the assigned points keep the true-label consistency. */
  ghost predicate Ready(labels: seq<int>, s: seq<int>, clus: seq<int>) {
    |s| == |labels| && Agree(s, labels) && |clus| > 0 &&
    forall k :: 0 <= k < |clus| ==> clus[k] >= 1 && clus[k] in s
  }

  /** `ind_vec` of one round: the best member of every neighbourhood. */
  function Reps(aff: (nat, nat) -> int, s: seq<int>, clus: seq<int>, q: nat): (r: seq<nat>)
    requires forall k :: 0 <= k < |clus| ==> clus[k] in s
    ensures |r| == |clus|
    ensures forall k :: 0 <= k < |r| ==> r[k] < |s| && s[r[k]] == clus[k]
    decreases |clus|
  {
    if |clus| == 0 then []
    else
      var last := |clus| - 1;
      assert s[..|s|] == s;
      Reps(aff, s, clus[..last], q) + [BestMember(aff, s, clus[last], q, |s|)]
  }

  /** `ind_vec[k]` is the member of neighbourhood `clus[k]` most similar
      to `q`: the argmax of line 128, not just any member. */
  lemma {:induction false} RepsBest(aff: (nat, nat) -> int, s: seq<int>, clus: seq<int>, q: nat)
    requires forall k :: 0 <= k < |clus| ==> clus[k] in s
    ensures var r := Reps(aff, s, clus, q);
      forall k :: 0 <= k < |r| ==> r[k] == BestMember(aff, s, clus[k], q, |s|)
    decreases |clus|
  {
    if |clus| > 0 {
      var init := clus[..|clus| - 1];
      RepsBest(aff, s, init, q);
      assert forall k :: 0 <= k < |init| ==> init[k] == clus[k];
    }
  }

  /** `sim_vec` of one round: the affinity of `q` to each best member. */
  function Sims(aff: (nat, nat) -> int, q: nat, reps: seq<nat>): (r: seq<int>)
    ensures |r| == |reps|
    decreases |reps|
  {
    if |reps| == 0 then [] else Sims(aff, q, reps[..|reps| - 1]) + [aff(q, reps[|reps| - 1])]
  }

  /** `sim_vec[k]` is the affinity of `q` to `ind_vec[k]`. */
  lemma {:induction false} SimsAt(aff: (nat, nat) -> int, q: nat, reps: seq<nat>)
    ensures forall k :: 0 <= k < |reps| ==> Sims(aff, q, reps)[k] == aff(q, reps[k])
    decreases |reps|
  {
    if |reps| > 0 {
      var init := reps[..|reps| - 1];
      SimsAt(aff, q, init);
      assert forall k :: 0 <= k < |init| ==> init[k] == reps[k];
    }
  }

  /** One more neighbourhood adds its best member, and that member's
      affinity, at the end. */
  lemma RepsGrow(aff: (nat, nat) -> int, s: seq<int>, clus: seq<int>, q: nat, k: nat, reps: seq<nat>, sims: seq<int>)
    requires k < |clus| && forall i :: 0 <= i < |clus| ==> clus[i] in s
    requires reps == Reps(aff, s, clus[..k], q) && sims == Sims(aff, q, reps)
    ensures var best := BestMember(aff, s, clus[k], q, |s|);
      reps + [best] == Reps(aff, s, clus[..k + 1], q) &&
      sims + [aff(q, best)] == Sims(aff, q, reps + [best])
  {
    assert clus[..k + 1][..k] == clus[..k];
    assert s[..|s|] == s;
    var best := BestMember(aff, s, clus[k], q, |s|);
    assert (reps + [best])[..|reps|] == reps;
  }

  /** `ind_vec[sort_ind]`: the best members, most similar neighbourhood
      first. */
  function Ranked(aff: (nat, nat) -> int, s: seq<int>, clus: seq<int>, q: nat): (r: seq<nat>)
    requires forall k :: 0 <= k < |clus| ==> clus[k] in s
    ensures |r| == |clus|
    ensures forall k :: 0 <= k < |r| ==> r[k] < |s| && s[r[k]] in clus
  {
    var reps := Reps(aff, s, clus, q);
    var order := ArgsortDesc(Sims(aff, q, reps));
    Permute(reps, order)
  }

  /** `xs[order]`. */
  function Permute(xs: seq<nat>, order: seq<nat>): (r: seq<nat>)
    requires forall k :: 0 <= k < |order| ==> order[k] < |xs|
    ensures |r| == |order|
    ensures forall k :: 0 <= k < |r| ==> r[k] == xs[order[k]]
  {
    seq(|order|, k requires 0 <= k < |order| => xs[order[k]])
  }

  /** The ranking is by the representatives' affinity to `q`, highest
      first, and it lists exactly the representatives. */
  lemma RankedOrder(aff: (nat, nat) -> int, s: seq<int>, clus: seq<int>, q: nat)
    requires forall k :: 0 <= k < |clus| ==> clus[k] in s
    ensures var r := Ranked(aff, s, clus, q);
      var reps := Reps(aff, s, clus, q);
      (forall a, b :: 0 <= a < b < |r| ==> aff(q, r[a]) >= aff(q, r[b])) &&
      (forall k :: 0 <= k < |reps| ==> reps[k] in r) &&
      (forall a :: 0 <= a < |r| ==> r[a] in reps)
  {
    var reps := Reps(aff, s, clus, q);
    var sims := Sims(aff, q, reps);
    SimsAt(aff, q, reps);
    var order := ArgsortDesc(sims);
    var r := Ranked(aff, s, clus, q);
    forall a, b | 0 <= a < b < |r| ensures aff(q, r[a]) >= aff(q, r[b]) {
      assert Before(sims, order[a], order[b]);
    }
    forall k | 0 <= k < |reps| ensures reps[k] in r {
      assert k in order;
      var a :| 0 <= a < |order| && order[a] == k;
      assert r[a] == reps[k];
    }
    forall a | 0 <= a < |r| ensures r[a] in reps {
      assert r[a] == reps[order[a]];
    }
  }

  /** `ind_vec[sort_ind]` is the best member of every neighbourhood, most
      similar to `q` first, and nothing else. */
  lemma RankedBest(aff: (nat, nat) -> int, s: seq<int>, clus: seq<int>, q: nat)
    requires forall k :: 0 <= k < |clus| ==> clus[k] in s
    ensures var r := Ranked(aff, s, clus, q);
      (forall a, b :: 0 <= a < b < |r| ==> aff(q, r[a]) >= aff(q, r[b])) &&
      (forall k :: 0 <= k < |clus| ==> BestMember(aff, s, clus[k], q, |s|) in r) &&
      (forall a :: 0 <= a < |r| ==> exists k :: 0 <= k < |clus| && r[a] == BestMember(aff, s, clus[k], q, |s|))
  {
    RankedOrder(aff, s, clus, q);
    RepsBest(aff, s, clus, q);
    var r, reps := Ranked(aff, s, clus, q), Reps(aff, s, clus, q);
    forall a | 0 <= a < |r| ensures exists k :: 0 <= k < |clus| && r[a] == BestMember(aff, s, clus[k], q, |s|) {
      var k :| 0 <= k < |reps| && reps[k] == r[a];
    }
  }

  /** The inner `for` loop of one round on its own: ask `q` against each
      ranked member in turn, stopping after the first "same" answer or when
      `room` rows have been written. */
  function RankedScan(labels: seq<int>, q: nat, ranked: seq<nat>, room: nat): (rows: seq<Row>)
    requires q < |labels| && room > 0
    requires forall k :: 0 <= k < |ranked| ==> ranked[k] < |labels|
    ensures |rows| <= |ranked| && |rows| <= room
    ensures |ranked| > 0 ==> |rows| > 0
    ensures forall t :: 0 <= t < |rows| ==> rows[t].j < |labels|
    decreases |ranked|
  {
    if |ranked| == 0 then []
    else
      var row := Row(q, ranked[0], SameLabel(labels, q, ranked[0]));
      if row.link == 1 || room == 1 then [row]
      else [row] + RankedScan(labels, q, ranked[1..], room - 1)
  }

  /** Rows that answer `q` against `ranked` in order, all "different"
      except possibly the last, and that stop at a "same" answer, at the
      room or at the end of `ranked`. */
  ghost predicate Asked(labels: seq<int>, q: nat, ranked: seq<nat>, room: nat, rows: seq<Row>)
    requires q < |labels|
    requires forall t :: 0 <= t < |ranked| ==> ranked[t] < |labels|
  {
    |rows| <= |ranked| && |rows| <= room &&
    (forall t :: 0 <= t < |rows| ==> rows[t] == Row(q, ranked[t], SameLabel(labels, q, ranked[t]))) &&
    (forall t :: 0 <= t < |rows| - 1 ==> rows[t].link == 0) &&
    (|rows| == |ranked| || (|rows| > 0 && (rows[|rows| - 1].link == 1 || |rows| == room)))
  }

  /** Such rows are the ranked scan. */
  lemma {:induction false} ScanIs(labels: seq<int>, q: nat, ranked: seq<nat>, room: nat, rows: seq<Row>)
    requires q < |labels| && room > 0
    requires forall t :: 0 <= t < |ranked| ==> ranked[t] < |labels|
    requires Asked(labels, q, ranked, room, rows)
    ensures rows == RankedScan(labels, q, ranked, room)
    decreases |ranked|
  {
    if |ranked| > 0 {
      if !(rows[0].link == 1 || room == 1) {
        ScanIs(labels, q, ranked[1..], room - 1, rows[1..]);
        assert rows == [rows[0]] + rows[1..];
      }
    }
  }

  /** The ranked scan asks `q` against `ranked` in order and stops at the
      first "same" answer, at the room or at the end. */
  lemma {:induction false} ScanAsked(labels: seq<int>, q: nat, ranked: seq<nat>, room: nat)
    requires q < |labels| && room > 0
    requires forall t :: 0 <= t < |ranked| ==> ranked[t] < |labels|
    ensures Asked(labels, q, ranked, room, RankedScan(labels, q, ranked, room))
    decreases |ranked|
  {
    if |ranked| > 0 {
      var row := Row(q, ranked[0], SameLabel(labels, q, ranked[0]));
      if !(row.link == 1 || room == 1) {
        ScanAsked(labels, q, ranked[1..], room - 1);
        var rest := RankedScan(labels, q, ranked[1..], room - 1);
        var rows := [row] + rest;
        assert forall t :: 1 <= t < |rows| ==> rows[t] == rest[t - 1] && ranked[t] == ranked[1..][t - 1];
      }
    }
  }

  /** `clus_label[q] = clus_label[ind_vec[k]]` after a "same" answer; no
      other write to the label vector happens in a round. */
  function Relabel(s: seq<int>, q: nat, rows: seq<Row>): (r: seq<int>)
    requires q < |s| && forall t :: 0 <= t < |rows| ==> rows[t].j < |s|
    ensures |r| == |s|
    ensures forall i :: 0 <= i < |s| && i != q ==> r[i] == s[i]
    ensures r[q] != s[q] ==> |rows| > 0 && rows[|rows| - 1].link == 1 && r[q] == s[rows[|rows| - 1].j]
    ensures |rows| > 0 && rows[|rows| - 1].link == 1 ==> r[q] == s[rows[|rows| - 1].j]
  {
    if |rows| > 0 && rows[|rows| - 1].link == 1 then s[q := s[rows[|rows| - 1].j]] else s
  }

  /** One fallback point per row index below the budget, each a valid
      point: what `np.random.randint(N)` can return. */
  predicate Draws(fallback: seq<nat>, n: nat, size: nat) {
    |fallback| >= n && forall k :: 0 <= k < |fallback| ==> fallback[k] < size
  }

  /** What a successful run of the main loop from label vector `s`, log
      `log` and `query_cnt == cnt` leaves: the invariant still holds, every
      assigned label is kept and every other point either keeps its label
      or carries an existing neighbourhood label (no new neighbourhood is
      made), and the log has grown by exactly the rest of the budget, each
      new row a correct oracle answer. */
  ghost predicate Extends(labels: seq<int>, clus: seq<int>, n: nat, s: seq<int>, cnt: nat, log: seq<Row>, e: Extension)
    requires cnt <= n
  {
    Ready(labels, e.clusLabel, clus) && |e.clusLabel| == |s| &&
    (forall i :: 0 <= i < |s| && s[i] > 0 ==> e.clusLabel[i] == s[i]) &&
    (forall i :: 0 <= i < |s| ==> e.clusLabel[i] == s[i] || e.clusLabel[i] in clus) &&
    |e.log| == |log| + (n - cnt) && e.log[..|log|] == log &&
    (forall t :: |log| <= t < |e.log| ==> Answered(labels, e.log[t]))
  }

  /** The main `while` loop of `MMFFQS` from `query_cnt == cnt`: done once
      the budget is spent, else one more round. It fails exactly when it
      must choose a point while the skeleton is still empty. */
  function MmLoop(aff: (nat, nat) -> int, labels: seq<int>, n: nat, fallback: seq<nat>, clus: seq<int>,
                  s: seq<int>, skeleton: seq<nat>, cnt: nat, log: seq<Row>): (r: Result<Extension>)
    requires Ready(labels, s, clus) && Draws(fallback, n, |labels|) && cnt <= n
    ensures r.Success? ==> Extends(labels, clus, n, s, cnt, log, r.value)
    ensures r.Failure? <==> cnt < n && |skeleton| == 0
    ensures r.Failure? ==> r.error == EmptyReduction
    decreases n - cnt, 2
  {
    if cnt == n then
      assert log[..|log|] == log;
      Success(Extension(s, log))
    else MmAdvance(aff, labels, n, fallback, clus, s, skeleton, cnt, log)
  }

  /** The start of a round: choose `q`, or fail because the skeleton is
      empty while there are points to choose from. */
  function MmAdvance(aff: (nat, nat) -> int, labels: seq<int>, n: nat, fallback: seq<nat>, clus: seq<int>,
                     s: seq<int>, skeleton: seq<nat>, cnt: nat, log: seq<Row>): (r: Result<Extension>)
    requires Ready(labels, s, clus) && Draws(fallback, n, |labels|) && cnt < n
    ensures r.Success? ==> Extends(labels, clus, n, s, cnt, log, r.value)
    ensures r.Failure? <==> |skeleton| == 0
    ensures r.Failure? ==> r.error == EmptyReduction
    decreases n - cnt, 1
  {
    assert clus[0] in s && 0 !in [];
    match Choose(aff, |labels|, skeleton, fallback[cnt])
    case Failure(e) => Failure(e)
    case Success(q) => MmRound(aff, labels, n, fallback, clus, s, skeleton, cnt, log, q)
  }

  /** The rest of a round: rank the neighbourhoods by their best member's
      affinity to `q`, ask in that order, relabel `q` on a match, add `q`
      to the skeleton and go on. */
  function MmRound(aff: (nat, nat) -> int, labels: seq<int>, n: nat, fallback: seq<nat>, clus: seq<int>,
                   s: seq<int>, skeleton: seq<nat>, cnt: nat, log: seq<Row>, q: nat): (r: Result<Extension>)
    requires Ready(labels, s, clus) && Draws(fallback, n, |labels|) && cnt < n && q < |labels|
    ensures r.Success? && Extends(labels, clus, n, s, cnt, log, r.value)
    decreases n - cnt, 0
  {
    var st := RoundOf(aff, labels, s, clus, q, n - cnt);
    var r := MmLoop(aff, labels, n, fallback, clus, st.clusLabel, skeleton + [q], cnt + |st.rows|, log + st.rows);
    ExtendsThrough(labels, clus, n, s, cnt, log, q, st, r.value);
    r
  }

  /** What one round writes and the label vector it leaves. */
  datatype Step = Step(rows: seq<Row>, clusLabel: seq<int>)

  /** The facts about one round that the loop's postcondition needs. */
  ghost predicate Stepped(labels: seq<int>, clus: seq<int>, s: seq<int>, q: nat, room: nat, st: Step) {
    0 < |st.rows| <= room &&
    (forall t :: 0 <= t < |st.rows| ==> Answered(labels, st.rows[t]) && st.rows[t].i == q) &&
    Ready(labels, st.clusLabel, clus) && |st.clusLabel| == |s| &&
    (forall i :: 0 <= i < |s| && s[i] > 0 ==> st.clusLabel[i] == s[i]) &&
    (forall i :: 0 <= i < |s| ==> st.clusLabel[i] == s[i] || st.clusLabel[i] in clus)
  }

  /** One round for `q` with `room` rows of budget left: the ranked scan
      and the relabelling. It writes at least one row and no more than the
      room, each a correct oracle answer about `q`; it keeps the loop's
      invariant and every assigned label, and gives out no new label. */
  function RoundOf(aff: (nat, nat) -> int, labels: seq<int>, s: seq<int>, clus: seq<int>, q: nat, room: nat): (st: Step)
    requires Ready(labels, s, clus) && q < |labels| && room > 0
    ensures Stepped(labels, clus, s, q, room, st)
  {
    var rows := RankedScan(labels, q, Ranked(aff, s, clus, q), room);
    RoundRows(aff, labels, s, clus, q, room);
    RoundReady(aff, labels, s, clus, q, room);
    Step(rows, Relabel(s, q, rows))
  }

  /** A round followed by a successful rest of the loop is a successful
      run from before the round. */
  lemma ExtendsThrough(labels: seq<int>, clus: seq<int>, n: nat, s: seq<int>, cnt: nat, log: seq<Row>,
                       q: nat, st: Step, e: Extension)
    requires cnt < n && Stepped(labels, clus, s, q, n - cnt, st)
    requires Extends(labels, clus, n, st.clusLabel, cnt + |st.rows|, log + st.rows, e)
    ensures Extends(labels, clus, n, s, cnt, log, e)
  {
    var log' := log + st.rows;
    assert e.log[..|log|] == e.log[..|log'|][..|log|] == log'[..|log|] == log;
    forall t | |log| <= t < |e.log| ensures Answered(labels, e.log[t]) {
      if t < |log'| {
        assert e.log[t] == e.log[..|log'|][t] == log'[t] == st.rows[t - |log|];
      }
    }
  }

  /** The rows of a round: at least one and no more than the room left,
      each a correct oracle answer about `q`. */
  lemma RoundRows(aff: (nat, nat) -> int, labels: seq<int>, s: seq<int>, clus: seq<int>, q: nat, room: nat)
    requires Ready(labels, s, clus) && q < |labels| && room > 0
    ensures var rows := RankedScan(labels, q, Ranked(aff, s, clus, q), room);
      0 < |rows| <= room &&
      forall t :: 0 <= t < |rows| ==> Answered(labels, rows[t]) && rows[t].i == q
  {
    ScanAsked(labels, q, Ranked(aff, s, clus, q), room);
  }

  /** A round keeps the loop's invariant: a relabelled `q` matches a point
      of its own true label, so consistency holds and no neighbourhood
      loses its last member. */
  lemma RoundReady(aff: (nat, nat) -> int, labels: seq<int>, s: seq<int>, clus: seq<int>, q: nat, room: nat)
    requires Ready(labels, s, clus) && q < |labels| && room > 0
    ensures var rows := RankedScan(labels, q, Ranked(aff, s, clus, q), room);
      var s' := Relabel(s, q, rows);
      Ready(labels, s', clus) &&
      (s[q] > 0 ==> s' == s) &&
      (forall i :: 0 <= i < |s| && s[i] > 0 ==> s'[i] == s[i]) &&
      (forall i :: 0 <= i < |s| ==> s'[i] == s[i] || s'[i] in clus) &&
      (s'[q] != s[q] ==> labels[q] == labels[rows[|rows| - 1].j]) &&
      (|rows| > 0 && rows[|rows| - 1].link == 1 ==> s'[q] == s[rows[|rows| - 1].j] && s'[q] in clus)
  {
    var ranked := Ranked(aff, s, clus, q);
    var rows := RankedScan(labels, q, ranked, room);
    var s' := Relabel(s, q, rows);
    ScanAsked(labels, q, ranked, room);
    if |rows| > 0 && rows[|rows| - 1].link == 1 {
      var j := rows[|rows| - 1].j;
      assert j == ranked[|rows| - 1];
      assert labels[q] == labels[j];
      assert s[j] in clus;
      if s[q] > 0 {
        assert Hood(s, q) == Hood(s, j);
        assert s' == s;
      } else {
        forall a: nat, b: nat | a < |s'| && b < |s'| && Hood(s', a) > 0 && Hood(s', b) > 0
          ensures Hood(s', a) == Hood(s', b) <==> labels[a] == labels[b]
        {
          var a' := if a == q then j else a;
          var b' := if b == q then j else b;
          assert Hood(s', a) == Hood(s, a') && Hood(s', b) == Hood(s, b');
        }
        forall k | 0 <= k < |clus| ensures clus[k] in s' {
          var i :| 0 <= i < |s| && s[i] == clus[k];
          assert s'[i] == clus[k];
        }
      }
    }
  }

  /** With the budget spent, the loop stops with the state it has. */
  lemma MmDone(aff: (nat, nat) -> int, labels: seq<int>, n: nat, fallback: seq<nat>, clus: seq<int>,
                 s: seq<int>, skeleton: seq<nat>, log: seq<Row>)
    requires Ready(labels, s, clus) && Draws(fallback, n, |labels|)
    ensures MmLoop(aff, labels, n, fallback, clus, s, skeleton, n, log) == Success(Extension(s, log))
  {
  }

  /** Within the budget, a failed choice fails the loop. */
  lemma MmStops(aff: (nat, nat) -> int, labels: seq<int>, n: nat, fallback: seq<nat>, clus: seq<int>,
                  s: seq<int>, skeleton: seq<nat>, cnt: nat, log: seq<Row>)
    requires Ready(labels, s, clus) && Draws(fallback, n, |labels|) && cnt < n
    requires Choose(aff, |labels|, skeleton, fallback[cnt]) == Failure(EmptyReduction)
    ensures MmLoop(aff, labels, n, fallback, clus, s, skeleton, cnt, log) == Failure(EmptyReduction)
  {
  }

  /** Within the budget, the main loop is the round of the point `Choose`
      picks. */
  lemma LoopChooses(aff: (nat, nat) -> int, labels: seq<int>, n: nat, fallback: seq<nat>, clus: seq<int>,
                    s: seq<int>, skeleton: seq<nat>, cnt: nat, log: seq<Row>, q: nat)
    requires Ready(labels, s, clus) && Draws(fallback, n, |labels|) && cnt < n
    requires Choose(aff, |labels|, skeleton, fallback[cnt]) == Success(q)
    ensures MmLoop(aff, labels, n, fallback, clus, s, skeleton, cnt, log) ==
            MmRound(aff, labels, n, fallback, clus, s, skeleton, cnt, log, q)
  {
  }

  /** A round goes on as the loop from the state `RoundOf` leaves. */
  lemma RoundGoesOn(aff: (nat, nat) -> int, labels: seq<int>, n: nat, fallback: seq<nat>, clus: seq<int>,
                    s: seq<int>, skeleton: seq<nat>, cnt: nat, log: seq<Row>, q: nat)
    requires Ready(labels, s, clus) && Draws(fallback, n, |labels|) && cnt < n && q < |labels|
    ensures var st := RoundOf(aff, labels, s, clus, q, n - cnt);
      MmRound(aff, labels, n, fallback, clus, s, skeleton, cnt, log, q) ==
      MmLoop(aff, labels, n, fallback, clus, st.clusLabel, skeleton + [q], cnt + |st.rows|, log + st.rows)
  {
  }

  /** The state a round leaves: the rows of the ranked scan and the label
      vector they relabel. */
  lemma RoundIs(aff: (nat, nat) -> int, labels: seq<int>, s: seq<int>, clus: seq<int>, q: nat, room: nat)
    requires Ready(labels, s, clus) && q < |labels| && room > 0
    ensures var rows := RankedScan(labels, q, Ranked(aff, s, clus, q), room);
      RoundOf(aff, labels, s, clus, q, room) == Step(rows, Relabel(s, q, rows))
  {
  }

  /** The matrix after the loop: the rows the loop logged overwrite the
      FFQS matrix from row `base` on, the rest stay as `FFQS` left them. */
  function Overwrite(mat: seq<Row>, base: nat, log: seq<Row>): (r: seq<Row>)
    requires base + |log| <= |mat|
    ensures |r| == |mat|
    ensures forall t :: 0 <= t < base ==> r[t] == mat[t]
    ensures forall t :: 0 <= t < |log| ==> r[base + t] == log[t]
    ensures forall t :: base + |log| <= t < |mat| ==> r[t] == mat[t]
  {
    mat[..base] + log + mat[base + |log|..]
  }

  /** `constraint_mat[:,:2]`. */
  function Pairs(mat: seq<Row>): (r: seq<Pair>)
    ensures |r| == |mat|
    ensures forall t :: 0 <= t < |r| ==> r[t] == Pair(mat[t].i, mat[t].j)
  {
    seq(|mat|, t requires 0 <= t < |mat| => Pair(mat[t].i, mat[t].j))
  }

  /** The loop's starting state from a successful `FFQS` result: the
      explored pairs, the skeleton of their points, the neighbourhood labels
      in use. */
  lemma StartReady(labels: seq<int>, found: Search)
    requires |found.nbrLabel| == |labels|
    requires Labelled(found.nbrLabel) && Consistent(found.nbrLabel, labels)
    ensures Ready(labels, found.nbrLabel, InUse(found.nbrLabel, Max(found.nbrLabel)))
  {
    var s := found.nbrLabel;
    var clus := InUse(s, Max(s));
    AgreeConsistent(s, labels);
    assert 1 in clus;
    assert forall k :: 0 <= k < |clus| ==> clus[k] in clus;
  }

  /** `MMFFQS(pdist_vec, labels, n_constraints)` with the seed of `FFQS`
      and the fallback draws given: `FFQS`, then the minimax loop from the
      explored rows. */
  function Mmffqs(dist: (nat, nat) -> int, aff: (nat, nat) -> int, labels: seq<int>, n: nat,
                  seed: nat, fallback: seq<nat>): (r: Result<Minimax>)
    requires seed < |labels| && Draws(fallback, n, |labels|)
  {
    match Ffqs.Ffqs(dist, labels, n, seed)
    case Failure(e) => Failure(e)
    case Success(found) =>
      FfqsSound(dist, labels, n, seed);
      StartReady(labels, found);
      var explore := Explored(found.constraints);
      var clus := InUse(found.nbrLabel, Max(found.nbrLabel));
      match MmLoop(aff, labels, n, fallback, clus, found.nbrLabel,
                   UniqueBelow(|labels|, Flatten(explore)), |explore|, [])
      case Failure(e) => Failure(e)
      case Success(ext) =>
        Success(Minimax(Pairs(Overwrite(found.constraints, |explore|, ext.log)), ext.clusLabel))
  }

  /** Every row of a successful `FFQS` matrix is a pair of sample indices:
      written rows are oracle answers, blank rows are `(0, 0)`. */
  lemma FfqsRowsInRange(labels: seq<int>, rows: seq<Row>)
    requires |labels| > 0
    requires forall t :: 0 <= t < |rows| && rows[t] != Blank ==> Answered(labels, rows[t])
    ensures forall t :: 0 <= t < |rows| ==> rows[t].i < |labels| && rows[t].j < |labels|
  {
  }

  /** The skeleton of explored pairs of sample indices is empty exactly
      when no pair survived the filter. */
  lemma SkeletonEmpty(size: nat, explore: seq<Pair>)
    requires forall p :: p in explore ==> p.i < size
    ensures |UniqueBelow(size, Flatten(explore))| == 0 <==> |explore| == 0
  {
    if |explore| > 0 {
      var p := explore[0];
      assert p in explore;
      assert p.i in Flatten(explore);
      assert p.i in UniqueBelow(size, Flatten(explore));
    }
  }

  /** `MMFFQS` fails exactly when `FFQS` does, or when budget remains but
      no explored row survived the filter at line 107: the skeleton is then
      empty and the first round reduces over nothing. */
  lemma MmffqsFails(dist: (nat, nat) -> int, aff: (nat, nat) -> int, labels: seq<int>, n: nat,
                    seed: nat, fallback: seq<nat>)
    requires seed < |labels| && Draws(fallback, n, |labels|)
    ensures var r := Mmffqs(dist, aff, labels, n, seed, fallback);
      var f := Ffqs.Ffqs(dist, labels, n, seed);
      r.Failure? <==> f.Failure? || (n > 0 && |Explored(f.value.constraints)| == 0)
  {
    FfqsSound(dist, labels, n, seed);
    var f := Ffqs.Ffqs(dist, labels, n, seed);
    if f.Success? {
      var found := f.value;
      FfqsRowsInRange(labels, found.constraints);
      SkeletonEmpty(|labels|, Explored(found.constraints));
    }
  }

  /** A successful `MMFFQS` returns `n` pairs of sample indices, and its
      label vector covers every point, keeps every label `FFQS` gave, makes
      no new neighbourhood and still puts two assigned points together
      exactly when they share a true label. */
  lemma MmffqsSound(dist: (nat, nat) -> int, aff: (nat, nat) -> int, labels: seq<int>, n: nat,
                    seed: nat, fallback: seq<nat>)
    requires seed < |labels| && Draws(fallback, n, |labels|)
    ensures var r := Mmffqs(dist, aff, labels, n, seed, fallback);
      var f := Ffqs.Ffqs(dist, labels, n, seed);
      r.Success? ==>
        |r.value.pairs| == n &&
        (forall t :: 0 <= t < n ==> r.value.pairs[t].i < |labels| && r.value.pairs[t].j < |labels|) &&
        |r.value.clusLabel| == |labels| && Consistent(r.value.clusLabel, labels) &&
        (forall i :: 0 <= i < |labels| && f.value.nbrLabel[i] > 0 ==> r.value.clusLabel[i] == f.value.nbrLabel[i]) &&
        (forall i :: 0 <= i < |labels| ==>
           (r.value.clusLabel[i] == f.value.nbrLabel[i] || r.value.clusLabel[i] in f.value.nbrLabel))
  {
    FfqsSound(dist, labels, n, seed);
    var f := Ffqs.Ffqs(dist, labels, n, seed);
    if f.Success? {
      var found := f.value;
      StartReady(labels, found);
      FfqsRowsInRange(labels, found.constraints);
      var explore := Explored(found.constraints);
      var clus := InUse(found.nbrLabel, Max(found.nbrLabel));
      var m := MmLoop(aff, labels, n, fallback, clus, found.nbrLabel,
                      UniqueBelow(|labels|, Flatten(explore)), |explore|, []);
      if m.Success? {
        LoopResult(labels, n, found, clus, |explore|, m.value);
      }
    }
  }

  /** The success half of `MmffqsSound`, on the loop's result. */
  lemma LoopResult(labels: seq<int>, n: nat, found: Search, clus: seq<int>, cnt: nat, e: Extension)
    requires |found.constraints| == n && cnt <= n && |found.nbrLabel| == |labels|
    requires forall t :: 0 <= t < n ==> found.constraints[t].i < |labels| && found.constraints[t].j < |labels|
    requires forall k :: 0 <= k < |clus| ==> clus[k] in found.nbrLabel
    requires Extends(labels, clus, n, found.nbrLabel, cnt, [], e)
    ensures var pairs := Pairs(Overwrite(found.constraints, cnt, e.log));
      |pairs| == n &&
      (forall t :: 0 <= t < n ==> pairs[t].i < |labels| && pairs[t].j < |labels|) &&
      |e.clusLabel| == |labels| && Consistent(e.clusLabel, labels) &&
      (forall i :: 0 <= i < |labels| && found.nbrLabel[i] > 0 ==> e.clusLabel[i] == found.nbrLabel[i]) &&
      (forall i :: 0 <= i < |labels| ==> (e.clusLabel[i] == found.nbrLabel[i] || e.clusLabel[i] in found.nbrLabel))
  {
    var mat := Overwrite(found.constraints, cnt, e.log);
    forall t | cnt <= t < n ensures mat[t].i < |labels| && mat[t].j < |labels| {
      assert mat[t] == e.log[t - cnt];
      assert Answered(labels, e.log[t - cnt]);
    }
    AgreeConsistent(e.clusLabel, labels);
    forall i | 0 <= i < |labels| && e.clusLabel[i] != found.nbrLabel[i]
      ensures e.clusLabel[i] in found.nbrLabel
    {
      var k :| 0 <= k < |clus| && clus[k] == e.clusLabel[i];
    }
  }
}
