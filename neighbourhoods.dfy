/** Neighbourhood-label vectors (`nbr_label` in FFQS, `clus_label` in
    MMFFQS): 0 marks a point not yet assigned, a positive value names the
    neighbourhood the point was placed in. This module states the two
    invariants both searches keep and proves what they imply. */
module Neighbourhoods {
  import opened Seqs
  import opened Oracle

  /** The nonzero labels are exactly `1..m`: no negative label, none above
      `m`, and every label in between used by some point. */
  ghost predicate GapFree(s: seq<int>, m: nat) {
    (forall i :: 0 <= i < |s| ==> 0 <= s[i] <= m) &&
    (forall k :: 1 <= k <= m ==> k in s)
  }

  /** Two assigned points share a neighbourhood exactly when they share a
      true label. */
  ghost predicate Consistent(s: seq<int>, labels: seq<int>) {
    |s| == |labels| &&
    forall i, j {:trigger s[i], s[j]} :: 0 <= i < |s| && 0 <= j < |s| && s[i] > 0 && s[j] > 0 ==>
      (s[i] == s[j] <==> labels[i] == labels[j])
  }

  /** The vector FFQS starts from: the seed in neighbourhood 1, every other
      point unassigned. */
  function Seeded(n: nat, seed: nat): (s: seq<int>)
    requires seed < n
    ensures |s| == n && s[seed] == 1
    ensures forall i :: 0 <= i < n && i != seed ==> s[i] == 0
  {
    seq(n, i => if i == seed then 1 else 0)
  }

  /** `ind[nbr_label == k][0]`: the first member of neighbourhood `k`, the
      representative FFQS compares a new point with. */
  function Rep(s: seq<int>, k: int): (r: nat)
    requires k in s
    ensures r < |s| && s[r] == k
    ensures forall i :: 0 <= i < r ==> s[i] != k
  {
    if s[0] == k then 0
    else
      assert k in s[1..] by {
        var i :| 0 <= i < |s| && s[i] == k;
        assert s[1..][i - 1] == k;
      }
      1 + Rep(s[1..], k)
  }

  /** `np.setdiff1d(np.unique(s), [0]).size`: how many distinct
      neighbourhoods the vector names. */
  function DistinctCount(s: seq<int>): nat {
    |set i | 0 <= i < |s| && s[i] != 0 :: s[i]|
  }

  /** `np.unique(np.setdiff1d(s, [0]))` for a vector of labels in `0..m`:
      the neighbourhood labels in use, in increasing order. */
  function InUse(s: seq<int>, m: nat): (r: seq<int>)
    ensures forall v :: v in r <==> 1 <= v <= m && v in s
    ensures |r| <= m
  {
    if m == 0 then [] else InUse(s, m - 1) + (if m in s then [m] else [])
  }

  lemma {:induction false} InUseGapFree(s: seq<int>, m: nat, j: nat)
    requires GapFree(s, m) && j <= m
    ensures |InUse(s, j)| == j
    ensures forall k :: 0 <= k < j ==> InUse(s, j)[k] == k + 1
  {
    if j > 0 {
      InUseGapFree(s, m, j - 1);
    }
  }

  lemma {:induction false} SeededInvariants(labels: seq<int>, seed: nat)
    requires seed < |labels|
    ensures GapFree(Seeded(|labels|, seed), 1)
    ensures Consistent(Seeded(|labels|, seed), labels)
  {
    var s := Seeded(|labels|, seed);
    assert s[seed] == 1;
  }

  /** `np.max` of a gap-free vector is its largest neighbourhood label. */
  lemma MaxGapFree(s: seq<int>, m: nat)
    requires GapFree(s, m) && m >= 1
    ensures |s| > 0 && Max(s) == m
  {
    assert m in s;
  }

  /** The labels `1..m`. */
  ghost function Interval(m: nat): (r: set<int>)
    ensures forall k :: k in r <==> 1 <= k <= m
    ensures |r| == m
  {
    if m == 0 then {} else Interval(m - 1) + {m}
  }

  lemma {:induction false} SubsetSize<T>(a: set<T>, b: set<T>)
    requires a <= b
    ensures |a| <= |b|
  {
    if a != {} {
      var x :| x in a;
      SubsetSize(a - {x}, b - {x});
    }
  }

  /** In a gap-free vector the neighbourhoods in use are `1..m`. */
  lemma CountGapFree(s: seq<int>, m: nat)
    requires GapFree(s, m)
    ensures DistinctCount(s) == m
  {
    var used := set i | 0 <= i < |s| && s[i] != 0 :: s[i];
    forall k | 1 <= k <= m ensures k in used {
      assert k in s;
      var i :| 0 <= i < |s| && s[i] == k;
    }
    assert used == Interval(m);
  }

  /** The true labels of the representatives of neighbourhoods `1..j`. */
  ghost function RepClasses(s: seq<int>, labels: seq<int>, m: nat, j: nat): (r: set<int>)
    requires GapFree(s, m) && j <= m && |labels| == |s|
    ensures forall k :: 1 <= k <= j ==> labels[Rep(s, k)] in r
  {
    if j == 0 then {} else RepClasses(s, labels, m, j - 1) + {labels[Rep(s, j)]}
  }

  lemma {:induction false} RepClassesWithin(s: seq<int>, labels: seq<int>, m: nat, j: nat)
    requires GapFree(s, m) && j <= m && |labels| == |s|
    ensures RepClasses(s, labels, m, j) <= Classes(labels)
  {
    if j > 0 {
      RepClassesWithin(s, labels, m, j - 1);
      var r := Rep(s, j);
      assert labels[r] in Classes(labels);
    }
  }

  lemma {:induction false} RepClassNotEarlier(s: seq<int>, labels: seq<int>, m: nat, i: nat, j: nat)
    requires GapFree(s, m) && Consistent(s, labels) && i < j <= m
    ensures labels[Rep(s, j)] !in RepClasses(s, labels, m, i)
  {
    if i > 0 {
      RepClassNotEarlier(s, labels, m, i - 1, j);
      var a, b := Rep(s, i), Rep(s, j);
      assert s[a] == i && s[b] == j;
      assert labels[a] != labels[b];
      assert RepClasses(s, labels, m, i) == RepClasses(s, labels, m, i - 1) + {labels[a]};
    }
  }

  /** Distinct neighbourhoods have representatives of distinct true labels,
      so the first `j` of them show `j` distinct classes. */
  lemma {:induction false} RepClassesSize(s: seq<int>, labels: seq<int>, m: nat, j: nat)
    requires GapFree(s, m) && Consistent(s, labels) && j <= m
    ensures |RepClasses(s, labels, m, j)| == j
  {
    if j > 0 {
      RepClassesSize(s, labels, m, j - 1);
      RepClassNotEarlier(s, labels, m, j - 1, j);
      assert |RepClasses(s, labels, m, j - 1) + {labels[Rep(s, j)]}| == j;
    }
  }

  /** Label consistency bounds the neighbourhoods by the true classes. */
  lemma AtMostClasses(s: seq<int>, labels: seq<int>, m: nat)
    requires GapFree(s, m) && Consistent(s, labels)
    ensures m <= NumClass(labels)
  {
    RepClassesSize(s, labels, m, m);
    RepClassesWithin(s, labels, m, m);
    SubsetSize(RepClasses(s, labels, m, m), Classes(labels));
  }

  /** Once every point is assigned, the neighbourhoods are exactly the true
      classes. */
  lemma AllAssignedAllClasses(s: seq<int>, labels: seq<int>, m: nat)
    requires GapFree(s, m) && Consistent(s, labels)
    requires 0 !in s
    ensures m == NumClass(labels)
  {
    RepClassesSize(s, labels, m, m);
    forall c | c in Classes(labels) ensures c in RepClasses(s, labels, m, m) {
      var i :| 0 <= i < |labels| && labels[i] == c;
      assert s[i] in s;
      var r := Rep(s, s[i]);
      assert labels[r] == c;
    }
    AtMostClasses(s, labels, m);
    SubsetSize(Classes(labels), RepClasses(s, labels, m, m));
  }
}
