/** The array operations the ledger uses, on sequences: `Array.prototype.filter`
    by value, `Array.prototype.slice`, and `filter` by position. */
module Sequences {

  /** `r` is `s` with some elements left out, the rest in their original order. */
  ghost predicate IsSubsequence<T>(r: seq<T>, s: seq<T>)
    decreases |s|
  {
    r == [] || (s != [] && ((r[0] == s[0] && IsSubsequence(r[1..], s[1..])) || IsSubsequence(r, s[1..])))
  }

  /** `s.filter(keep)`. */
  function Filter<T>(s: seq<T>, keep: T -> bool): (r: seq<T>)
    ensures |r| <= |s|
    ensures forall k :: 0 <= k < |r| ==> r[k] in s && keep(r[k])
    ensures forall k :: 0 <= k < |s| && keep(s[k]) ==> s[k] in r
  {
    if s == [] then []
    else
      assert s == [s[0]] + s[1..];
      (if keep(s[0]) then [s[0]] else []) + Filter(s[1..], keep)
  }

  /** The filter keeps the order of `s`. */
  lemma {:induction false} FilterIsSubsequence<T>(s: seq<T>, keep: T -> bool)
    ensures IsSubsequence(Filter(s, keep), s)
  {
    if s != [] {
      FilterIsSubsequence(s[1..], keep);
      var r, rest := Filter(s, keep), Filter(s[1..], keep);
      if keep(s[0]) {
        assert r == [s[0]] + rest;
        assert r[0] == s[0] && r[1..] == rest;
      } else {
        assert r == rest;
      }
    }
  }

  /** The filter keeps every element satisfying `keep` as often as it occurs in `s`,
      and no other element. */
  lemma {:induction false} FilterCounts<T>(s: seq<T>, keep: T -> bool)
    ensures forall x :: multiset(Filter(s, keep))[x] == if keep(x) then multiset(s)[x] else 0
  {
    if s != [] {
      FilterCounts(s[1..], keep);
      var head := if keep(s[0]) then [s[0]] else [];
      assert multiset(Filter(s, keep)) == multiset(head) + multiset(Filter(s[1..], keep));
      assert s == [s[0]] + s[1..];
      assert multiset(s) == multiset([s[0]]) + multiset(s[1..]);
    }
  }

  /** The filter keeps exactly the elements satisfying `keep`: each of them as often
      as it occurs in `s`, none of the others, and in the order of `s`. */
  lemma FilterExact<T>(s: seq<T>, keep: T -> bool)
    ensures IsSubsequence(Filter(s, keep), s)
    ensures forall x :: multiset(Filter(s, keep))[x] == if keep(x) then multiset(s)[x] else 0
  {
    FilterIsSubsequence(s, keep);
    FilterCounts(s, keep);
  }

  lemma {:induction false} FilterAppend<T>(a: seq<T>, b: seq<T>, keep: T -> bool)
    ensures Filter(a + b, keep) == Filter(a, keep) + Filter(b, keep)
  {
    if a != [] {
      var ab := a + b;
      assert ab != [] && ab[0] == a[0] && ab[1..] == a[1..] + b;
      FilterAppend(a[1..], b, keep);
      assert Filter(ab, keep) == (if keep(a[0]) then [a[0]] else []) + Filter(a[1..] + b, keep);
    } else {
      assert a + b == b;
    }
  }

  /** When every element is kept, the filter is the identity. */
  lemma {:induction false} FilterKeepsAll<T>(s: seq<T>, keep: T -> bool)
    requires forall x :: x in s ==> keep(x)
    ensures Filter(s, keep) == s
  {
    if s != [] {
      FilterKeepsAll(s[1..], keep);
      assert s == [s[0]] + s[1..];
    }
  }

  /** When no element is kept, the filter is empty. */
  lemma FilterKeepsNone<T>(s: seq<T>, keep: T -> bool)
    requires forall x :: x in s ==> !keep(x)
    ensures Filter(s, keep) == []
  {
  }

  /** Two tests that agree on the elements of `s` filter it alike. */
  lemma {:induction false} FilterAgree<T>(s: seq<T>, p: T -> bool, q: T -> bool)
    requires forall x :: x in s ==> p(x) == q(x)
    ensures Filter(s, p) == Filter(s, q)
  {
    if s != [] {
      FilterAgree(s[1..], p, q);
    }
  }

  function Min(a: int, b: int): int {
    if a < b then a else b
  }

  function Max(a: int, b: int): int {
    if a < b then b else a
  }

  /** The position `slice` reaches for a (possibly negative) argument `i` on a
      sequence of length `n`: a non-negative argument is capped at `n`, a negative
      one counts back from the end and stops at 0. */
  function SliceIndex(i: int, n: nat): (r: nat)
    ensures 0 <= i ==> r == Min(i, n)
    ensures i < 0 ==> r == Max(n + i, 0)
  {
    if i < 0 then (if n + i < 0 then 0 else n + i)
    else if i < n then i
    else n
  }

  /** `s.slice(start, end)`: the run of `s` from the position `start` reaches up to
      the position `end` reaches, empty when the second is not past the first. */
  function Slice<T>(s: seq<T>, start: int, end: int): (r: seq<T>)
    ensures 0 <= start <= end ==> r == s[Min(start, |s|)..Min(end, |s|)]
    ensures |r| == Max(SliceIndex(end, |s|) - SliceIndex(start, |s|), 0)
    ensures forall k :: 0 <= k < |r| ==> r[k] == s[SliceIndex(start, |s|) + k]
  {
    var from, to := SliceIndex(start, |s|), SliceIndex(end, |s|);
    if from < to then s[from..to] else []
  }

  /** The positions `0..n` not in `drop`, in increasing order. */
  function Survivors(n: nat, drop: set<int>): (r: seq<nat>)
    ensures forall k :: 0 <= k < |r| ==> r[k] < n && r[k] !in drop
    ensures forall i: nat :: i < n && i !in drop ==> i in r
    ensures forall j, k :: 0 <= j < k < |r| ==> r[j] < r[k]
  {
    if n == 0 then [] else Survivors(n - 1, drop) + (if n - 1 in drop then [] else [n - 1])
  }

  /** The members of `drop` that are positions of a sequence of length `n`. */
  function InRange(drop: set<int>, n: nat): (r: set<int>)
    ensures forall i :: i in r <==> i in drop && 0 <= i < n
  {
    if n == 0 then {} else InRange(drop, n - 1) + (if n - 1 in drop then {n - 1} else {})
  }

  /** One position survives for every position not dropped. */
  lemma {:induction false} SurvivorCount(n: nat, drop: set<int>)
    ensures |Survivors(n, drop)| == n - |InRange(drop, n)|
  {
    if n > 0 {
      SurvivorCount(n - 1, drop);
      var before := InRange(drop, n - 1);
      if n - 1 in drop {
        assert n - 1 !in before;
        assert |before + {n - 1}| == |before| + 1;
      }
    }
  }

  /** `s.filter((_, index) => !drop.includes(index))`: the k-th element left is the
      element at the k-th position not in `drop`. */
  function DropPositions<T>(s: seq<T>, drop: set<int>): (r: seq<T>)
    ensures |r| == |Survivors(|s|, drop)| <= |s|
    ensures forall k :: 0 <= k < |r| ==> r[k] == s[Survivors(|s|, drop)[k]]
  {
    if s == [] then []
    else
      var init := s[..|s| - 1];
      var kept, tail := DropPositions(init, drop), if |s| - 1 in drop then [] else [s[|s| - 1]];
      var before, here := Survivors(|init|, drop), if |s| - 1 in drop then [] else [|s| - 1];
      assert Survivors(|s|, drop) == before + here;
      assert forall k :: 0 <= k < |kept| ==> kept[k] == s[before[k]];
      kept + tail
  }

  /** Dropping by two sets that agree on the positions of `s` gives the same result. */
  lemma {:induction false} DropAgree<T>(s: seq<T>, d1: set<int>, d2: set<int>)
    requires forall i :: 0 <= i < |s| ==> (i in d1 <==> i in d2)
    ensures DropPositions(s, d1) == DropPositions(s, d2)
  {
    if s != [] {
      DropAgree(s[..|s| - 1], d1, d2);
    }
  }

  /** Dropping nothing keeps everything. */
  lemma {:induction false} DropNothing<T>(s: seq<T>)
    ensures DropPositions(s, {}) == s
  {
    if s != [] {
      DropNothing(s[..|s| - 1]);
      assert s == s[..|s| - 1] + [s[|s| - 1]];
    }
  }

  lemma {:induction false} DropAppend<T>(s: seq<T>, x: T, drop: set<int>)
    ensures DropPositions(s + [x], drop) == DropPositions(s, drop) + (if |s| in drop then [] else [x])
  {
    assert (s + [x])[..|s|] == s;
  }
}
