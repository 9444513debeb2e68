/** Active class discovery: walk the merge tree of an agglomerative
    clustering, rank the merges by the size of their smaller side, and ask
    one pair across each of the largest merges, padding the rest of the
    budget with random pairs. The merge array `children_` and every random
    draw are inputs. */
module Discovery {
  import opened Seqs
  import opened Oracle

  datatype Option<T> = None | Some(value: T)

  /** One merge of the tree: the members of its two sides, in the order
      the tree concatenates them. */
  datatype Merge = Merge(group1: seq<nat>, group2: seq<nat>)

  /** Merge `i` joins two nodes made before it: leaves are `0..size-1`,
      merge `i` creates node `size + i`. */
  ghost predicate Below(size: nat, children: seq<Pair>) {
    forall i :: 0 <= i < |children| ==> children[i].i < size + i && children[i].j < size + i
  }

  /** The merge array of a fit on `size >= 2` samples: `size - 1` merges,
      each over earlier nodes. */
  ghost predicate MergeTree(size: nat, children: seq<Pair>) {
    size >= 2 && |children| == size - 1 && Below(size, children)
  }

  /** `clus_mem[v]`: the leaves under node `v`, left side first. Never
      empty, and only samples. */
  function Members(size: nat, children: seq<Pair>, v: nat): (m: seq<nat>)
    requires Below(size, children) && v < size + |children|
    ensures |m| > 0
    ensures forall x :: x in m ==> x < size
    decreases v
  {
    if v < size then [v]
    else
      var c := children[v - size];
      Members(size, children, c.i) + Members(size, children, c.j)
  }

  /** `merge_history[i]`: the member lists of the two nodes merge `i`
      joins. */
  function MergeAt(size: nat, children: seq<Pair>, i: nat): Merge
    requires Below(size, children) && i < |children|
  {
    Merge(Members(size, children, children[i].i), Members(size, children, children[i].j))
  }

  /** `merge_history` after the first `k` merges. */
  function History(size: nat, children: seq<Pair>, k: nat): (h: seq<Merge>)
    requires Below(size, children) && k <= |children|
  {
    seq(k, i requires 0 <= i < k => MergeAt(size, children, i))
  }

  /** `merge_size[i]`: the size of the smaller side of a merge. */
  function Smaller(m: Merge): int {
    if |m.group1| <= |m.group2| then |m.group1| else |m.group2|
  }

  function Sizes(h: seq<Merge>): (sizes: seq<int>) {
    seq(|h|, i requires 0 <= i < |h| => Smaller(h[i]))
  }

  /** `idx[sizes[idx] >= bound]`: the entries of `idx` whose merge is at
      least `bound`, in their order. */
  function AtLeast(sizes: seq<int>, idx: seq<nat>, bound: int): (r: seq<nat>)
    requires forall a :: 0 <= a < |idx| ==> idx[a] < |sizes|
    ensures |r| <= |idx|
    ensures forall a :: 0 <= a < |r| ==> r[a] < |sizes| && sizes[r[a]] >= bound
    ensures forall x {:trigger x in r} :: x in r <==> x in idx && sizes[x] >= bound
  {
    if |idx| == 0 then []
    else
      var rest := AtLeast(sizes, idx[1..], bound);
      assert idx == [idx[0]] + idx[1..];
      if sizes[idx[0]] >= bound then [idx[0]] + rest else rest
  }

  /** The merges `active_class_discovery` asks about, as positions in
      `merge_history`: sorted by `merge_size`, filtered by `min_samples`
      when it is given, at most `n` of them. */
  function Selection(sizes: seq<int>, minSamples: Option<int>, n: nat): (sel: seq<nat>)
    ensures |sel| <= n
    ensures forall a :: 0 <= a < |sel| ==> sel[a] < |sizes|
  {
    var kept := Kept(sizes, minSamples);
    if |kept| > n then kept[..n] else kept
  }

  /** `select_idx` before it is cut to `n`: the merges by decreasing size,
      filtered by `min_samples` when it is given. */
  function Kept(sizes: seq<int>, minSamples: Option<int>): (kept: seq<nat>)
    ensures forall a :: 0 <= a < |kept| ==> kept[a] < |sizes|
  {
    var order := ArgsortDesc(sizes);
    if minSamples.Some? then AtLeast(sizes, order, minSamples.value) else order
  }

  /** A merge qualifies when `min_samples` is absent or its size reaches it. */
  predicate Qualifies(sizes: seq<int>, minSamples: Option<int>, x: nat)
    requires x < |sizes|
  {
    minSamples.Some? ==> sizes[x] >= minSamples.value
  }

  /** `[np.random.choice(group1), np.random.choice(group2)]` with the two
      draws given as positions, reduced modulo the side's size. */
  function Pick(m: Merge, draw: Pair): (p: Pair)
    requires |m.group1| > 0 && |m.group2| > 0
    ensures p.i in m.group1 && p.j in m.group2
  {
    Pair(m.group1[draw.i % |m.group1|], m.group2[draw.j % |m.group2|])
  }

  /** Every merge in `h` has two non-empty sides. */
  ghost predicate Sided(h: seq<Merge>) {
    forall i :: 0 <= i < |h| ==> |h[i].group1| > 0 && |h[i].group2| > 0
  }

  /** The query matrix: row `t` crosses the `t`-th selected merge while
      there is one, and is the padding pair `pads[t]` after that. */
  function Queries(h: seq<Merge>, sel: seq<nat>, picks: seq<Pair>, pads: seq<Pair>, n: nat): seq<Pair>
    requires Sided(h) && |sel| <= n && |picks| == n && |pads| == n
    requires forall a :: 0 <= a < |sel| ==> sel[a] < |h|
  {
    seq(n, t requires 0 <= t < n => if t < |sel| then Pick(h[sel[t]], picks[t]) else pads[t])
  }

  /** What `active_class_discovery(data, n, min_samples)` returns for a
      data set of `size` samples whose clustering produced `children`:
      fitting fewer than two samples fails. */
  function Acd(size: nat, children: seq<Pair>, n: nat, minSamples: Option<int>,
               picks: seq<Pair>, pads: seq<Pair>): Result<seq<Pair>>
    requires size >= 2 ==> MergeTree(size, children)
    requires |picks| == n && |pads| == n
  {
    if size < 2 then Failure(TooFewSamples)
    else
      var h := History(size, children, |children|);
      HistorySided(size, children, |children|);
      var sel := Selection(Sizes(h), minSamples, n);
      Success(Queries(h, sel, picks, pads, n))
  }

  lemma HistorySided(size: nat, children: seq<Pair>, k: nat)
    requires Below(size, children) && k <= |children|
    ensures Sided(History(size, children, k)) && |History(size, children, k)| == k
  {
  }

  // ---------------------------------------------------------------------
  // Properties

  /** The selected merges in the order they are asked: never a merge
      twice, never a larger merge after a smaller one. */
  ghost predicate Descending(sizes: seq<int>, s: seq<nat>)
    requires forall a :: 0 <= a < |s| ==> s[a] < |sizes|
  {
    (forall a, b :: 0 <= a < b < |s| ==> s[a] != s[b]) &&
    (forall a, b :: 0 <= a < b < |s| ==> sizes[s[a]] >= sizes[s[b]])
  }

  lemma {:induction false} AtLeastDescending(sizes: seq<int>, idx: seq<nat>, bound: int)
    requires forall a :: 0 <= a < |idx| ==> idx[a] < |sizes|
    requires Descending(sizes, idx)
    ensures Descending(sizes, AtLeast(sizes, idx, bound))
  {
    if |idx| > 0 {
      var tail := idx[1..];
      assert Descending(sizes, tail) by {
        assert forall a :: 0 <= a < |tail| ==> tail[a] == idx[a + 1];
      }
      AtLeastDescending(sizes, tail, bound);
      var rest := AtLeast(sizes, tail, bound);
      if sizes[idx[0]] >= bound {
        forall y | y in rest ensures y != idx[0] && sizes[idx[0]] >= sizes[y] {
          var c :| 0 <= c < |tail| && tail[c] == y;
          assert y == idx[c + 1];
        }
        ConsDescending(sizes, idx[0], rest);
      }
    }
  }

  /** Putting in front an entry that is new and no smaller keeps a
      sequence descending. */
  lemma ConsDescending(sizes: seq<int>, x: nat, rest: seq<nat>)
    requires x < |sizes| && forall a :: 0 <= a < |rest| ==> rest[a] < |sizes|
    requires Descending(sizes, rest)
    requires forall y :: y in rest ==> y != x && sizes[x] >= sizes[y]
    ensures Descending(sizes, [x] + rest)
  {
    var r := [x] + rest;
    forall a, b | 0 <= a < b < |r| ensures r[a] != r[b] && sizes[r[a]] >= sizes[r[b]] {
      assert r[b] == rest[b - 1] && rest[b - 1] in rest;
      if a > 0 {
        assert r[a] == rest[a - 1];
      }
    }
  }

  /** Before the cut, `select_idx` holds every qualifying merge and only
      those, each once, larger merges first. */
  lemma KeptQualifying(sizes: seq<int>, minSamples: Option<int>)
    ensures var kept := Kept(sizes, minSamples);
      Descending(sizes, kept) &&
      (forall a :: 0 <= a < |kept| ==> Qualifies(sizes, minSamples, kept[a])) &&
      (forall x :: 0 <= x < |sizes| && Qualifies(sizes, minSamples, x) ==> x in kept)
  {
    var order := ArgsortDesc(sizes);
    ArgsortDescOrder(sizes);
    assert Descending(sizes, order);
    if minSamples.Some? {
      AtLeastDescending(sizes, order, minSamples.value);
    }
  }

  /** The selection keeps to `min_samples` and takes the largest merges:
      each selected merge qualifies, none twice, none smaller than a later
      one, and a qualifying merge is left out only because all `n` places
      went to merges at least as large. */
  lemma SelectionTakesLargest(sizes: seq<int>, minSamples: Option<int>, n: nat)
    ensures var sel := Selection(sizes, minSamples, n);
      Descending(sizes, sel) &&
      (forall a :: 0 <= a < |sel| ==> Qualifies(sizes, minSamples, sel[a])) &&
      (forall x :: 0 <= x < |sizes| && Qualifies(sizes, minSamples, x) && x !in sel ==>
         |sel| == n && forall a :: 0 <= a < |sel| ==> sizes[sel[a]] >= sizes[x])
  {
    var kept := Kept(sizes, minSamples);
    KeptQualifying(sizes, minSamples);
    var sel := Selection(sizes, minSamples, n);
    assert forall a :: 0 <= a < |sel| ==> sel[a] == kept[a];
    forall x | 0 <= x < |sizes| && Qualifies(sizes, minSamples, x) && x !in sel
      ensures |sel| == n && forall a :: 0 <= a < |sel| ==> sizes[sel[a]] >= sizes[x]
    {
      var p :| 0 <= p < |kept| && kept[p] == x;
      forall a | 0 <= a < |sel| ensures kept[a] != x {
        assert sel[a] in sel;
      }
      assert p >= |sel|;
    }
  }

  /** The shape and contents `active_class_discovery` promises: `n` rows;
      below the number of selected merges, row `t` has its first entry in
      `group1` and its second in `group2` of the `t`-th selected merge;
      the rows after that are the padding pairs; every entry is a sample. */
  lemma AcdRows(size: nat, children: seq<Pair>, n: nat, minSamples: Option<int>,
                picks: seq<Pair>, pads: seq<Pair>)
    requires MergeTree(size, children)
    requires |picks| == n && |pads| == n
    requires forall t :: 0 <= t < n ==> pads[t].i < size && pads[t].j < size
    ensures var h := History(size, children, |children|);
      var sel := Selection(Sizes(h), minSamples, n);
      Acd(size, children, n, minSamples, picks, pads).Success? &&
      var rows := Acd(size, children, n, minSamples, picks, pads).value;
      |rows| == n &&
      (forall t :: 0 <= t < |sel| ==> rows[t].i in h[sel[t]].group1 && rows[t].j in h[sel[t]].group2) &&
      (forall t :: |sel| <= t < n ==> rows[t] == pads[t]) &&
      (forall t :: 0 <= t < n ==> rows[t].i < size && rows[t].j < size)
  {
    var h := History(size, children, |children|);
    HistorySided(size, children, |children|);
    var sel := Selection(Sizes(h), minSamples, n);
    var rows := Queries(h, sel, picks, pads, n);
    forall t | 0 <= t < |sel| ensures rows[t].i < size && rows[t].j < size {
      var m := MergeAt(size, children, sel[t]);
      assert h[sel[t]] == m;
      assert rows[t].i in m.group1 && rows[t].j in m.group2;
    }
  }

  // ---------------------------------------------------------------------
  // The method

  /** The first loop of `active_class_discovery`: `clus_mem` starts with
      one list per sample and gains the concatenation of the two children
      at every merge, `merge_history` records the two lists, and
      `merge_size` the smaller length. */
  method MergeHistory(size: nat, children: seq<Pair>) returns (history: seq<Merge>, sizes: seq<int>)
    requires MergeTree(size, children)
    ensures history == History(size, children, |children|)
    ensures sizes == Sizes(history)
  {
    var clusMem: seq<seq<nat>> := seq(size, x => [x]);
    var mergeSize := new int[size - 1];
    history := [];
    for i := 0 to size - 1
      invariant |clusMem| == size + i
      invariant forall v :: 0 <= v < size + i ==> clusMem[v] == Members(size, children, v)
      invariant history == History(size, children, i)
      invariant mergeSize[..i] == Sizes(history)
    {
      var group1 := children[i].i;
      var group2 := children[i].j;
      clusMem := clusMem + [clusMem[group1] + clusMem[group2]];
      history := history + [Merge(clusMem[group1], clusMem[group2])];
      mergeSize[i] := if |clusMem[group1]| <= |clusMem[group2]| then |clusMem[group1]| else |clusMem[group2]|;
      assert mergeSize[..i + 1] == mergeSize[..i] + [mergeSize[i]];
    }
    assert mergeSize[..] == mergeSize[..size - 1];
    sizes := mergeSize[..];
  }

  /** The second loop and the padding: `query_mat` starts as zeros, row
      `i` crosses the `i`-th selected merge, and the rows after the
      selected ones take the padding pairs. */
  method FillQueries(history: seq<Merge>, selectIdx: seq<nat>, picks: seq<Pair>, pads: seq<Pair>, n: nat)
    returns (rows: seq<Pair>)
    requires Sided(history) && |selectIdx| <= n && |picks| == n && |pads| == n
    requires forall a :: 0 <= a < |selectIdx| ==> selectIdx[a] < |history|
    ensures rows == Queries(history, selectIdx, picks, pads, n)
  {
    var queryMat := new Pair[n](_ => Pair(0, 0));
    for i := 0 to |selectIdx|
      invariant forall t :: 0 <= t < i ==> queryMat[t] == Pick(history[selectIdx[t]], picks[t])
    {
      queryMat[i] := Pick(history[selectIdx[i]], picks[i]);
    }
    if n > |selectIdx| {
      forall t | |selectIdx| <= t < n {
        queryMat[t] := pads[t];
      }
    }
    rows := queryMat[..];
  }

  /** `active_class_discovery(data, n_constraints, min_samples)` on `size`
      samples, with the merge array of the clustering given as `children`,
      the two `np.random.choice` draws of row `t` as `picks[t]` and the
      padding pair of row `t` as `pads[t]`. */
  method ActiveClassDiscovery(size: nat, children: seq<Pair>, nConstraints: nat, minSamples: Option<int>,
                              picks: seq<Pair>, pads: seq<Pair>)
    returns (r: Result<seq<Pair>>)
    requires size >= 2 ==> MergeTree(size, children)
    requires |picks| == nConstraints && |pads| == nConstraints
    ensures r == Acd(size, children, nConstraints, minSamples, picks, pads)
  {
    if size < 2 {
      return Failure(TooFewSamples);
    }
    var history, mergeSize := MergeHistory(size, children);
    HistorySided(size, children, |children|);
    var selectIdx := ArgsortDesc(mergeSize);
    if minSamples.Some? {
      selectIdx := AtLeast(mergeSize, selectIdx, minSamples.value);
    }
    if |selectIdx| > nConstraints {
      selectIdx := selectIdx[..nConstraints];
    }
    assert selectIdx == Selection(mergeSize, minSamples, nConstraints);
    var queryMat := FillQueries(history, selectIdx, picks, pads, nConstraints);
    r := Success(queryMat);
  }
}
