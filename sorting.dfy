/** `Array.prototype.sort` with a comparator `(a, b) => key(b) - key(a)`:
    a stable sort into non-increasing key order. Both uses in the server
    (post counts for the top users, post ids for the latest posts) have this
    shape. */
module Sorting {
  import opened Seqs

  /** Keys never increase from left to right. */
  ghost predicate SortedDesc<T>(s: seq<T>, key: T -> int) {
    forall i, j :: 0 <= i < j < |s| ==> key(s[i]) >= key(s[j])
  }

  /** The elements of `s` whose key is `v`, in their order in `s`. */
  function WithKey<T>(s: seq<T>, key: T -> int, v: int): seq<T> {
    Filter(s, x => key(x) == v)
  }

  /** The elements with a given key in a prefix come first among those in the whole. */
  lemma {:induction false} WithKeyPrefix<T>(s: seq<T>, n: nat, key: T -> int, v: int)
    requires n <= |s|
    ensures WithKey(s[..n], key, v) <= WithKey(s, key, v)
  {
    FilterPrefix(s, n, x => key(x) == v);
  }

  /** Cutting a sorted sequence after `n` elements leaves out nothing with a
      larger key than what was kept. */
  lemma {:induction false} TakeDominates<T>(s: seq<T>, n: nat, key: T -> int)
    requires SortedDesc(s, key)
    ensures forall q, p :: q in multiset(s) - multiset(Take(s, n)) && p in Take(s, n) ==> key(q) <= key(p)
  {
    var r := Take(s, n);
    var rest := s[|r|..];
    assert multiset(s) - multiset(r) == multiset(rest) by {
      assert s == r + rest;
    }
    forall q, p | q in multiset(rest) && p in r ensures key(q) <= key(p) {
      SplitDominates(s, key, |r|, q, p);
    }
  }

  /** Anything after position `m` of a sorted sequence is at most anything before it. */
  lemma {:induction false} SplitDominates<T>(s: seq<T>, key: T -> int, m: nat, q: T, p: T)
    requires SortedDesc(s, key) && m <= |s|
    requires q in s[m..] && p in s[..m]
    ensures key(q) <= key(p)
  {
    var k :| 0 <= k < |s| - m && s[m..][k] == q;
    var i :| 0 <= i < m && s[..m][i] == p;
    assert s[i] == p && s[m + k] == q;
  }

  /** Places `x` after every element of `s` whose key is at least `x`'s,
      scanning from the right, as one step of a stable insertion sort does. */
  function Insert<T>(s: seq<T>, x: T, key: T -> int): seq<T>
    decreases |s|
  {
    if s == [] || key(s[|s| - 1]) >= key(x) then s + [x]
    else Insert(s[..|s| - 1], x, key) + [s[|s| - 1]]
  }

  /** The stable descending sort of `s`: the order every stable sort with
      this comparator produces. */
  function SortDesc<T>(s: seq<T>, key: T -> int): (r: seq<T>)
    ensures |r| == |s|
    decreases |s|
  {
    if s == [] then []
    else
      InsertPermutation(SortDesc(s[..|s| - 1], key), s[|s| - 1], key);
      Insert(SortDesc(s[..|s| - 1], key), s[|s| - 1], key)
  }

  lemma {:induction false} InsertPermutation<T>(s: seq<T>, x: T, key: T -> int)
    ensures multiset(Insert(s, x, key)) == multiset(s) + multiset{x}
    ensures |Insert(s, x, key)| == |s| + 1
    decreases |s|
  {
    if s != [] && key(s[|s| - 1]) < key(x) {
      var s' := s[..|s| - 1];
      InsertPermutation(s', x, key);
      assert s == s' + [s[|s| - 1]];
    }
  }

  /** Appending an element no larger than any other keeps the order. */
  lemma {:induction false} AppendSmallest<T>(t: seq<T>, last: T, key: T -> int)
    requires SortedDesc(t, key)
    requires forall y :: y in t ==> key(y) >= key(last)
    ensures SortedDesc(t + [last], key)
  {
    var u := t + [last];
    forall i, j | 0 <= i < j < |u| ensures key(u[i]) >= key(u[j]) {
      assert u[i] == t[i];
      if j < |t| {
        assert u[j] == t[j];
      }
    }
  }

  /** In a sorted sequence, the last element bounds every earlier one. */
  lemma {:induction false} LastIsSmallest<T>(s: seq<T>, key: T -> int)
    requires s != [] && SortedDesc(s, key)
    ensures forall y :: y in s[..|s| - 1] ==> key(y) >= key(s[|s| - 1])
  {
    forall y | y in s[..|s| - 1] ensures key(y) >= key(s[|s| - 1]) {
      var i :| 0 <= i < |s| - 1 && s[..|s| - 1][i] == y;
      assert s[i] == y;
    }
  }

  lemma {:induction false} InsertSorted<T>(s: seq<T>, x: T, key: T -> int)
    requires SortedDesc(s, key)
    ensures SortedDesc(Insert(s, x, key), key)
    decreases |s|
  {
    if s != [] && key(s[|s| - 1]) < key(x) {
      var s', last := s[..|s| - 1], s[|s| - 1];
      assert SortedDesc(s', key) by {
        forall i, j | 0 <= i < j < |s'| ensures key(s'[i]) >= key(s'[j]) {
          assert s'[i] == s[i] && s'[j] == s[j];
        }
      }
      InsertSorted(s', x, key);
      InsertPermutation(s', x, key);
      LastIsSmallest(s, key);
      var t := Insert(s', x, key);
      forall y | y in t ensures key(y) >= key(last) {
        assert y in multiset(t);
        if y != x {
          assert y in multiset(s');
        }
      }
      AppendSmallest(t, last, key);
    }
  }

  /** Inserting `x` adds it to the end of the elements that share its key. */
  lemma {:induction false} InsertStable<T>(s: seq<T>, x: T, key: T -> int, v: int)
    ensures WithKey(Insert(s, x, key), key, v) == WithKey(s, key, v) + WithKey([x], key, v)
    decreases |s|
  {
    var f := (y: T) => key(y) == v;
    if s == [] || key(s[|s| - 1]) >= key(x) {
      FilterAppend(s, [x], f);
    } else {
      var s', last := s[..|s| - 1], s[|s| - 1];
      InsertStable(s', x, key, v);
      FilterAppend(Insert(s', x, key), [last], f);
      FilterAppend(s', [last], f);
      FilterAppend(s', [x], f);
      assert s == s' + [last];
      assert [x][..0] == [] && [last][..0] == [];
    }
  }

  /** The sort rearranges its input without adding or losing elements. */
  lemma {:induction false} SortDescPermutation<T>(s: seq<T>, key: T -> int)
    ensures multiset(SortDesc(s, key)) == multiset(s)
    ensures |SortDesc(s, key)| == |s|
    decreases |s|
  {
    if s != [] {
      var s' := s[..|s| - 1];
      SortDescPermutation(s', key);
      InsertPermutation(SortDesc(s', key), s[|s| - 1], key);
      assert s == s' + [s[|s| - 1]];
    }
  }

  /** The sort's output is in non-increasing key order. */
  lemma {:induction false} SortDescSorted<T>(s: seq<T>, key: T -> int)
    ensures SortedDesc(SortDesc(s, key), key)
    decreases |s|
  {
    if s != [] {
      SortDescSorted(s[..|s| - 1], key);
      InsertSorted(SortDesc(s[..|s| - 1], key), s[|s| - 1], key);
    }
  }

  /** The sort is stable: elements with equal keys keep their relative order. */
  lemma {:induction false} SortDescStable<T>(s: seq<T>, key: T -> int, v: int)
    ensures WithKey(SortDesc(s, key), key, v) == WithKey(s, key, v)
    decreases |s|
  {
    if s != [] {
      var s', last := s[..|s| - 1], s[|s| - 1];
      SortDescStable(s', key, v);
      InsertStable(SortDesc(s', key), last, key, v);
      FilterAppend(s', [last], x => key(x) == v);
      assert s == s' + [last];
    }
  }

  /** Unfolds `Insert` once where `x` passes the element at `j - 1`. */
  lemma {:induction false} InsertPasses<T>(s: seq<T>, j: nat, x: T, key: T -> int)
    requires 0 < j <= |s| && key(s[j - 1]) < key(x)
    ensures Insert(s[..j], x, key) + s[j..] == Insert(s[..j - 1], x, key) + s[j - 1..]
  {
    assert s[..j][..j - 1] == s[..j - 1];
    assert s[j - 1..] == [s[j - 1]] + s[j..];
  }

  /** Swapping `x` with its left neighbour moves the gap one place left. */
  lemma {:induction false} SwapMovesGap<T>(s: seq<T>, j: nat, x: T, rest: seq<T>)
    requires 0 < j <= |s|
    ensures (s[..j] + [x] + s[j..] + rest)[j - 1 := x][j := s[j - 1]] == s[..j - 1] + [x] + s[j - 1..] + rest
  {
    var t := (s[..j] + [x] + s[j..] + rest)[j - 1 := x][j := s[j - 1]];
    var u := s[..j - 1] + [x] + s[j - 1..] + rest;
    forall k | 0 <= k < |t| ensures t[k] == u[k] {
      if k < j - 1 {
        assert t[k] == s[k] == u[k];
      } else if k > j {
        assert t[k] == (s[j..] + rest)[k - j - 1] == u[k];
      }
    }
  }

  /** Unfolds `Insert` where `x` stops: at the front, or behind a key at least its own. */
  lemma {:induction false} InsertStops<T>(s: seq<T>, j: nat, x: T, key: T -> int)
    requires j <= |s| && (j == 0 || key(s[j - 1]) >= key(x))
    ensures Insert(s[..j], x, key) == s[..j] + [x]
  {
    if j > 0 {
      assert s[..j][j - 1] == s[j - 1];
    }
  }

  /** One step of insertion sort: moves `a[i]` left past the elements of the
      prefix `a[..i]` whose key is smaller. */
  method InsertInPlace<T>(a: array<T>, i: nat, key: T -> int)
    requires i < a.Length
    modifies a
    ensures a[..i + 1] == Insert(old(a[..i]), old(a[i]), key)
    ensures a[i + 1..] == old(a[i + 1..])
  {
    ghost var sorted := a[..i];
    ghost var rest := a[i + 1..];
    var x := a[i];
    var j := i;
    assert sorted[..j] == sorted && sorted[j..] == [];
    assert a[..] == sorted[..j] + [x] + sorted[j..] + rest;
    while j > 0 && key(a[j - 1]) < key(x)
      invariant 0 <= j <= i
      invariant a[..] == sorted[..j] + [x] + sorted[j..] + rest
      invariant Insert(sorted, x, key) == Insert(sorted[..j], x, key) + sorted[j..]
    {
      ghost var before := a[..];
      assert a[j - 1] == before[j - 1] == sorted[j - 1];
      InsertPasses(sorted, j, x, key);
      a[j - 1], a[j] := a[j], a[j - 1];
      assert a[..] == before[j - 1 := x][j := sorted[j - 1]];
      SwapMovesGap(sorted, j, x, rest);
      j := j - 1;
    }
    InsertStops(sorted, j, x, key);
    assert a[..] == (sorted[..j] + [x] + sorted[j..]) + rest;
  }

  /** Insertion sort of `a` in place. The JavaScript engine's sort leaves the
      array in the same order: every stable sort with this comparator does. */
  method SortInPlace<T>(a: array<T>, key: T -> int)
    modifies a
    ensures a[..] == SortDesc(old(a[..]), key)
  {
    ghost var s := a[..];
    var i := 0;
    while i < a.Length
      invariant 0 <= i <= a.Length
      invariant a[..i] == SortDesc(s[..i], key)
      invariant a[i..] == s[i..]
    {
      ghost var before := a[..];
      assert before[i] == s[i] by { assert before[i..][0] == s[i..][0]; }
      InsertInPlace(a, i, key);
      assert SortDesc(s[..i + 1], key) == Insert(SortDesc(s[..i], key), s[i], key) by {
        assert s[..i + 1][..i] == s[..i];
      }
      assert a[i + 1..] == s[i + 1..] by { assert before[i + 1..] == s[i + 1..]; }
      i := i + 1;
    }
    assert a[..] == a[..a.Length];
    assert s[..a.Length] == s;
  }
}
