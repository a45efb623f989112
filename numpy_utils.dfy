/**
 * top_k and sum_by_indices_list of khandy/numpy_utils.py, over one-dimensional
 * integer arrays (so the axis is the only axis).
 */
module NumpyUtils {
  import opened Wrappers

  // top_k

  /** Position `i` may come before position `j` in the result: not smaller (largest) or not larger. */
  predicate Before(x: seq<int>, largest: bool, i: nat, j: nat)
    requires i < |x| && j < |x|
  {
    if largest then x[i] >= x[j] else x[i] <= x[j]
  }

  predicate InRange(idx: seq<nat>, n: nat)
  {
    forall t :: 0 <= t < |idx| ==> idx[t] < n
  }

  predicate Ordered(x: seq<int>, largest: bool, idx: seq<nat>)
    requires InRange(idx, |x|)
  {
    forall a, b :: 0 <= a < b < |idx| ==> Before(x, largest, idx[a], idx[b])
  }

  predicate Distinct(idx: seq<nat>)
  {
    forall a, b :: 0 <= a < b < |idx| ==> idx[a] != idx[b]
  }

  /** Inserts position `i` into an ordered sequence of positions. */
  function Insert(x: seq<int>, largest: bool, i: nat, idx: seq<nat>): (r: seq<nat>)
    requires i < |x| && InRange(idx, |x|)
    ensures multiset(r) == multiset(idx) + multiset{i}
    ensures |r| == |idx| + 1 && InRange(r, |x|)
    ensures r[0] == i || (idx != [] && r[0] == idx[0])
  {
    if idx == [] then [i]
    else if Before(x, largest, i, idx[0]) then [i] + idx
    else
      assert idx == [idx[0]] + idx[1..];
      [idx[0]] + Insert(x, largest, i, idx[1..])
  }

  lemma {:induction false} InsertOrdered(x: seq<int>, largest: bool, i: nat, idx: seq<nat>)
    requires i < |x| && InRange(idx, |x|) && Ordered(x, largest, idx)
    ensures Ordered(x, largest, Insert(x, largest, i, idx))
  {
    if idx != [] && !Before(x, largest, i, idx[0]) {
      var tail := idx[1..];
      assert Ordered(x, largest, tail) by {
        forall a, b | 0 <= a < b < |tail|
          ensures Before(x, largest, tail[a], tail[b])
        {
          assert tail[a] == idx[a + 1] && tail[b] == idx[b + 1];
        }
      }
      var rest := Insert(x, largest, i, tail);
      InsertOrdered(x, largest, i, tail);
      assert Before(x, largest, idx[0], rest[0]) by {
        if tail != [] {
          assert tail[0] == idx[1];
        }
      }
      var r := [idx[0]] + rest;
      forall a, b | 0 <= a < b < |r|
        ensures Before(x, largest, r[a], r[b])
      {
        assert r[b] == rest[b - 1];
        if a > 0 {
          assert r[a] == rest[a - 1];
        } else if b > 1 {
          assert Before(x, largest, rest[0], rest[b - 1]);
        }
      }
    }
  }

  lemma {:induction false} InsertDistinct(x: seq<int>, largest: bool, i: nat, idx: seq<nat>)
    requires i < |x| && InRange(idx, |x|) && Distinct(idx) && i !in idx
    ensures Distinct(Insert(x, largest, i, idx))
  {
    var r := Insert(x, largest, i, idx);
    if idx != [] {
      assert idx == [idx[0]] + idx[1..];
      if Before(x, largest, i, idx[0]) {
        forall a, b | 0 <= a < b < |r|
          ensures r[a] != r[b]
        {
          if a > 0 {
            assert r[a] == idx[a - 1] && r[b] == idx[b - 1];
          } else {
            assert r[b] == idx[b - 1];
          }
        }
      } else {
        var rest := Insert(x, largest, i, idx[1..]);
        InsertDistinct(x, largest, i, idx[1..]);
        assert idx[0] !in multiset(idx[1..]);
        assert idx[0] !in multiset(rest);
        forall a, b | 0 <= a < b < |r|
          ensures r[a] != r[b]
        {
          assert r[b] == rest[b - 1];
          if a > 0 {
            assert r[a] == rest[a - 1];
          } else {
            assert rest[b - 1] in multiset(rest);
          }
        }
      }
    }
  }

  /** Orders positions by their values, largest first when `largest`, smallest first otherwise. */
  function SortPositions(x: seq<int>, largest: bool, idx: seq<nat>): (r: seq<nat>)
    requires InRange(idx, |x|)
    ensures multiset(r) == multiset(idx)
    ensures |r| == |idx|
    ensures InRange(r, |x|) && Ordered(x, largest, r)
    ensures Distinct(idx) ==> Distinct(r)
  {
    if idx == [] then []
    else
      assert idx == [idx[0]] + idx[1..];
      var sorted := SortPositions(x, largest, idx[1..]);
      InsertOrdered(x, largest, idx[0], sorted);
      if Distinct(idx) then
        assert Distinct(idx[1..]);
        assert idx[0] !in multiset(idx[1..]);
        assert idx[0] !in sorted;
        InsertDistinct(x, largest, idx[0], sorted);
        Insert(x, largest, idx[0], sorted)
      else
        Insert(x, largest, idx[0], sorted)
  }

  function Positions(n: nat): (r: seq<nat>)
    ensures |r| == n && InRange(r, n) && Distinct(r)
    ensures forall j :: 0 <= j < n ==> r[j] == j
  {
    seq(n, i => i)
  }

  datatype TopK = TopK(values: seq<int>, indices: seq<nat>)

  /** The assertion `1 <= k <= axis size` failed. */
  datatype TopKError = KOutOfRange

  /**
   * top_k(x, k, largest, sorted) on a 1-D array. Values and indices come in the
   * same order; with `sorted` that order is by value. Without `sorted` the order
   * is the one the selection leaves, about which nothing is promised.
   */
  function TopKOf(x: seq<int>, k: int, largest: bool, sorted: bool): (r: Result<TopK, TopKError>)
    ensures r.Success? <==> 1 <= k <= |x|
    ensures r.Success? ==>
              && |r.value.values| == k && |r.value.indices| == k
              && InRange(r.value.indices, |x|) && Distinct(r.value.indices)
              && forall i :: 0 <= i < k ==> r.value.values[i] == x[r.value.indices[i]]
  {
    if !(1 <= k <= |x|) then Failure(KOutOfRange)
    else
      var order := SortPositions(x, largest, Positions(|x|));
      var indices := order[..k];
      Success(TopK(seq(k, i requires 0 <= i < k => x[indices[i]]), indices))
  }

  /**
   * Every value returned is at least (largest) or at most (smallest) every element
   * of x whose position was not returned.
   */
  lemma TopKSelectsExtremes(x: seq<int>, k: int, largest: bool, sorted: bool)
    requires 1 <= k <= |x|
    ensures var t := TopKOf(x, k, largest, sorted).value;
            forall a, j :: 0 <= a < k && 0 <= j < |x| && j !in t.indices ==>
              if largest then t.values[a] >= x[j] else t.values[a] <= x[j]
  {
    var order := SortPositions(x, largest, Positions(|x|));
    var t := TopKOf(x, k, largest, sorted).value;
    assert t.indices == order[..k];
    forall a, j | 0 <= a < k && 0 <= j < |x| && j !in t.indices
      ensures if largest then t.values[a] >= x[j] else t.values[a] <= x[j]
    {
      var all := Positions(|x|);
      assert all[j] == j;
      assert j in multiset(all);
      assert j in multiset(order);
      var b :| 0 <= b < |order| && order[b] == j;
      assert Before(x, largest, order[a], order[b]);
    }
  }

  /** With `sorted`, values descend when `largest` and ascend otherwise. */
  lemma TopKSortedOrder(x: seq<int>, k: int, largest: bool)
    requires 1 <= k <= |x|
    ensures var t := TopKOf(x, k, largest, true).value;
            forall a, b :: 0 <= a < b < k ==>
              if largest then t.values[a] >= t.values[b] else t.values[a] <= t.values[b]
  {
  }

  // sum_by_indices_list

  /** A position numpy's take accepts on an axis of length n; negative ones count from the end. */
  predicate ValidIndex(n: nat, i: int)
  {
    -(n as int) <= i < n
  }

  predicate ValidIndices(n: nat, idx: seq<int>)
  {
    forall t :: 0 <= t < |idx| ==> ValidIndex(n, idx[t])
  }

  function Normalize(n: nat, i: int): (p: nat)
    requires ValidIndex(n, i)
    ensures p < n && (p == i || p == i + n)
  {
    if i < 0 then i + n else i
  }

  /** The sum of the elements of x taken at `idx`, each index counted as often as it appears. */
  function SumAt(x: seq<int>, idx: seq<int>): int
    requires ValidIndices(|x|, idx)
  {
    if idx == [] then 0 else SumAt(x, idx[..|idx| - 1]) + x[Normalize(|x|, idx[|idx| - 1])]
  }

  lemma {:induction false} SumAtAppend(x: seq<int>, a: seq<int>, b: seq<int>)
    requires ValidIndices(|x|, a) && ValidIndices(|x|, b)
    ensures ValidIndices(|x|, a + b)
    ensures SumAt(x, a + b) == SumAt(x, a) + SumAt(x, b)
    decreases |b|
  {
    if b == [] {
      assert a + b == a;
    } else {
      var b' := b[..|b| - 1];
      assert (a + b)[..|a + b| - 1] == a + b';
      SumAtAppend(x, a, b');
    }
  }

  /** Taking one occurrence out of an index list takes its element out of the sum. */
  lemma SumAtRemove(x: seq<int>, b: seq<int>, q: nat)
    requires ValidIndices(|x|, b) && q < |b|
    ensures ValidIndices(|x|, b[..q] + b[q + 1..])
    ensures SumAt(x, b) == SumAt(x, b[..q] + b[q + 1..]) + x[Normalize(|x|, b[q])]
  {
    var pre, post := b[..q], b[q + 1..];
    assert b == pre + [b[q]] + post;
    assert [b[q]][..0] == [];
    SumAtAppend(x, pre, [b[q]]);
    SumAtAppend(x, pre + [b[q]], post);
    SumAtAppend(x, pre, post);
  }

  lemma RemoveMatching(a: seq<int>, b: seq<int>, q: nat)
    requires multiset(a) == multiset(b) && a != [] && q < |b| && b[q] == a[|a| - 1]
    ensures multiset(a[..|a| - 1]) == multiset(b[..q] + b[q + 1..])
  {
    var e := b[q];
    assert a == a[..|a| - 1] + [e];
    assert b == b[..q] + [e] + b[q + 1..];
    calc {
      multiset(a[..|a| - 1]);
      multiset(a) - multiset{e};
      multiset(b) - multiset{e};
      multiset(b[..q]) + multiset(b[q + 1..]);
      multiset(b[..q] + b[q + 1..]);
    }
  }

  /** The order of an index list does not matter, only how often each index appears. */
  lemma {:induction false} SumAtPermutation(x: seq<int>, a: seq<int>, b: seq<int>)
    requires ValidIndices(|x|, a) && ValidIndices(|x|, b)
    requires multiset(a) == multiset(b)
    ensures SumAt(x, a) == SumAt(x, b)
    decreases |a|
  {
    if a == [] {
      assert |b| == |multiset(b)| == 0;
    } else {
      var a', e := a[..|a| - 1], a[|a| - 1];
      assert a == a' + [e];
      assert e in multiset(b);
      var q :| 0 <= q < |b| && b[q] == e;
      var b' := b[..q] + b[q + 1..];
      RemoveMatching(a, b, q);
      assert ValidIndices(|x|, a');
      SumAtRemove(x, b, q);
      SumAtPermutation(x, a', b');
    }
  }

  datatype SumError = IndexOutOfBounds(slot: nat)

  /**
   * sum_by_indices_list on a 1-D array: one output slot per index list, filled in
   * order; the first list holding an index out of bounds raises instead.
   */
  method SumByIndicesList(x: seq<int>, indicesList: seq<seq<int>>) returns (r: Result<array<int>, SumError>)
    ensures r.Success? <==> forall j :: 0 <= j < |indicesList| ==> ValidIndices(|x|, indicesList[j])
    ensures r.Success? ==>
              && fresh(r.value)
              && r.value.Length == |indicesList|
              && forall j :: 0 <= j < |indicesList| ==> r.value[j] == SumAt(x, indicesList[j])
    ensures r.Failure? ==>
              && r.error.slot < |indicesList|
              && !ValidIndices(|x|, indicesList[r.error.slot])
              && forall j :: 0 <= j < r.error.slot ==> ValidIndices(|x|, indicesList[j])
  {
    var dst := new int[|indicesList|];
    var newIndex := 0;
    while newIndex < |indicesList|
      invariant newIndex <= |indicesList|
      invariant forall j :: 0 <= j < newIndex ==> ValidIndices(|x|, indicesList[j])
      invariant forall j :: 0 <= j < newIndex ==> dst[j] == SumAt(x, indicesList[j])
    {
      var oldIndices := indicesList[newIndex];
      if !ValidIndices(|x|, oldIndices) {
        return Failure(IndexOutOfBounds(newIndex));
      }
      dst[newIndex] := SumAt(x, oldIndices);
      newIndex := newIndex + 1;
    }
    return Success(dst);
  }
}
