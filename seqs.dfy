/** The array operations the search strategies take from numpy, as
    functions on sequences: the maximum, boolean indexing, set difference
    and `np.unique` of index lists, and a stable descending argsort. */
module Seqs {

  /** `np.max` of a non-empty vector. */
  function Max(s: seq<int>): (m: int)
    requires |s| > 0
    ensures m in s
    ensures forall i :: 0 <= i < |s| ==> s[i] <= m
  {
    if |s| == 1 then s[0]
    else
      var rest := Max(s[1..]);
      assert forall i :: 1 <= i < |s| ==> s[i] == s[1..][i - 1];
      if s[0] >= rest then s[0] else rest
  }

  /** `ind[s > 0]`: the positions of `s` holding a positive value. */
  function Positive(s: seq<int>): (r: seq<nat>)
    ensures forall i {:trigger i in r} :: i in r <==> 0 <= i < |s| && s[i] > 0
  {
    if |s| == 0 then []
    else
      var r' := Positive(s[..|s| - 1]);
      assert forall i :: 0 <= i < |s| - 1 ==> s[i] == s[..|s| - 1][i];
      assert forall a :: 0 <= a < |r'| ==> r'[a] in r';
      r' + (if s[|s| - 1] > 0 then [|s| - 1] else [])
  }

  /** `np.setdiff1d(np.arange(n), xs)`: the indices below `n` that are not
      in `xs` (numpy sorts them; nothing here depends on the order). */
  function Outside(n: nat, xs: seq<nat>): (r: seq<nat>)
    ensures forall i {:trigger i in r} :: i in r <==> 0 <= i < n && i !in xs
  {
    if n == 0 then []
    else
      var r' := Outside(n - 1, xs);
      assert forall a :: 0 <= a < |r'| ==> r'[a] in r';
      r' + (if n - 1 in xs then [] else [n - 1])
  }

  /** `np.unique` of a vector of indices all below `n`: its distinct values
      (numpy sorts them; nothing here depends on the order). */
  function UniqueBelow(n: nat, xs: seq<nat>): (r: seq<nat>)
    ensures forall i {:trigger i in r} :: i in r <==> i < n && i in xs
  {
    if n == 0 then []
    else
      var r' := UniqueBelow(n - 1, xs);
      assert forall a :: 0 <= a < |r'| ==> r'[a] in r';
      r' + (if n - 1 in xs then [n - 1] else [])
  }

  /** Places index `x` after every element of `s` whose key is at least
      `keys[x]`: one step of a stable descending sort. */
  function Insert(keys: seq<int>, x: nat, s: seq<nat>): (r: seq<nat>)
    requires x < |keys|
    requires forall a :: 0 <= a < |s| ==> s[a] < |keys|
    ensures |r| == |s| + 1
    ensures forall a :: 0 <= a < |r| ==> r[a] < |keys|
    ensures forall y {:trigger y in r} :: y in r <==> y in s || y == x
  {
    if |s| == 0 then [x]
    else if keys[s[0]] >= keys[x] then
      assert s == [s[0]] + s[1..];
      [s[0]] + Insert(keys, x, s[1..])
    else [x] + s
  }

  /** Non-increasing keys along an index list, equal keys in index order. */
  ghost predicate SortedDesc(keys: seq<int>, s: seq<nat>)
    requires forall a :: 0 <= a < |s| ==> s[a] < |keys|
  {
    forall a, b {:trigger Before(keys, s[a], s[b])} :: 0 <= a < b < |s| ==> Before(keys, s[a], s[b])
  }

  /** Key order of a stable descending sort: larger key first, then lower
      index. */
  ghost predicate Before(keys: seq<int>, u: nat, v: nat)
    requires u < |keys| && v < |keys|
  {
    keys[u] > keys[v] || (keys[u] == keys[v] && u < v)
  }

  lemma {:induction false} InsertSorted(keys: seq<int>, x: nat, s: seq<nat>)
    requires x < |keys|
    requires forall a :: 0 <= a < |s| ==> s[a] < x
    requires SortedDesc(keys, s)
    ensures SortedDesc(keys, Insert(keys, x, s))
  {
    var r := Insert(keys, x, s);
    if |s| > 0 && keys[s[0]] >= keys[x] {
      InsertSorted(keys, x, s[1..]);
      var r' := Insert(keys, x, s[1..]);
      assert r == [s[0]] + r';
      forall y | y in r' ensures Before(keys, s[0], y) {
        if y != x {
          var b :| 0 <= b < |s[1..]| && s[1..][b] == y;
          assert s[b + 1] == y;
        }
      }
      forall a, b | 0 <= a < b < |r| ensures Before(keys, r[a], r[b]) {
        assert r[b] == r'[b - 1];
        if a == 0 {
          assert r'[b - 1] in r';
        } else {
          assert r[a] == r'[a - 1];
        }
      }
    } else if |s| > 0 {
      assert r == [x] + s;
      forall a, b | 0 <= a < b < |r| ensures Before(keys, r[a], r[b]) {
        assert r[b] == s[b - 1];
        if a == 0 {
          assert Before(keys, s[0], s[b - 1]) || b - 1 == 0;
        } else {
          assert r[a] == s[a - 1];
        }
      }
    }
  }

  /** Stable descending sort of the first `n` indices of `keys`: each of
      them once, in `Before` order. */
  function SortPrefix(keys: seq<int>, n: nat): (r: seq<nat>)
    requires n <= |keys|
    ensures |r| == n
    ensures forall a :: 0 <= a < |r| ==> r[a] < n
    ensures forall i {:trigger i in r} :: 0 <= i < n ==> i in r
    ensures SortedDesc(keys, r)
  {
    if n == 0 then []
    else
      var r' := SortPrefix(keys, n - 1);
      InsertSorted(keys, n - 1, r');
      var r := Insert(keys, n - 1, r');
      assert forall a :: 0 <= a < |r| ==> r[a] < n by {
        forall a | 0 <= a < |r| ensures r[a] < n {
          assert r[a] in r;
        }
      }
      r
  }

  /** `np.argsort(-keys)` with ties kept in index order: every index of
      `keys` once, in `Before` order. */
  function ArgsortDesc(keys: seq<int>): (r: seq<nat>)
    ensures |r| == |keys|
    ensures forall a :: 0 <= a < |r| ==> r[a] < |keys|
    ensures forall i {:trigger i in r} :: 0 <= i < |keys| ==> i in r
    ensures SortedDesc(keys, r)
  {
    SortPrefix(keys, |keys|)
  }

  /** What the order of `ArgsortDesc` means position by position: no index
      twice, keys never increasing, equal keys in increasing index order. */
  lemma ArgsortDescOrder(keys: seq<int>)
    ensures var r := ArgsortDesc(keys);
      (forall a, b :: 0 <= a < b < |r| ==> r[a] != r[b]) &&
      (forall a, b :: 0 <= a < b < |r| ==> keys[r[a]] >= keys[r[b]]) &&
      (forall a, b :: 0 <= a < b < |r| && keys[r[a]] == keys[r[b]] ==> r[a] < r[b])
  {
    var r := ArgsortDesc(keys);
    forall a, b | 0 <= a < b < |r|
      ensures r[a] != r[b] && keys[r[a]] >= keys[r[b]] && (keys[r[a]] == keys[r[b]] ==> r[a] < r[b])
    {
      assert Before(keys, r[a], r[b]);
    }
  }
}
