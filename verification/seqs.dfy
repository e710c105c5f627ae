/** Sequence operations the modelled code takes from JavaScript's `Array`:
    `filter`, de-duplication through a `Set`, and the stable `sort`. */
module Seqs {

  /* ---------- relations ---------- */

  /** A comparator read as "may come first": total and transitive, hence reflexive. */
  ghost predicate TotalPreorder<T(!new)>(le: (T, T) -> bool) {
    && (forall x, y :: le(x, y) || le(y, x))
    && (forall x, y, z :: le(x, y) && le(y, z) ==> le(x, z))
  }

  predicate Sorted<T(!new)>(s: seq<T>, le: (T, T) -> bool) {
    forall i, j :: 0 <= i < j < |s| ==> le(s[i], s[j])
  }

  predicate Distinct<T(==,!new)>(s: seq<T>) {
    forall i, j :: 0 <= i < j < |s| ==> s[i] != s[j]
  }

  /** No two elements share a key. */
  predicate DistinctKeys<T, K(==)>(s: seq<T>, key: T -> K) {
    forall i, j :: 0 <= i < j < |s| ==> key(s[i]) != key(s[j])
  }

  /** `a` is obtained from `b` by deleting elements, keeping the order of the rest. */
  predicate IsSubseq<T(==,!new)>(a: seq<T>, b: seq<T>)
    decreases |b|
  {
    if |b| == 0 then |a| == 0
    else (|a| > 0 && a[0] == b[0] && IsSubseq(a[1..], b[1..])) || IsSubseq(a, b[1..])
  }

  lemma {:induction false} SubseqTrans<T(!new)>(a: seq<T>, b: seq<T>, c: seq<T>)
    requires IsSubseq(a, b) && IsSubseq(b, c)
    ensures IsSubseq(a, c)
    decreases |c|
  {
    if |c| == 0 {
    } else if |b| > 0 && b[0] == c[0] && IsSubseq(b[1..], c[1..]) {
      if |a| > 0 && a[0] == b[0] && IsSubseq(a[1..], b[1..]) {
        SubseqTrans(a[1..], b[1..], c[1..]);
      } else {
        SubseqTrans(a, b[1..], c[1..]);
      }
    } else {
      SubseqTrans(a, b, c[1..]);
    }
  }

  /* ---------- filter ---------- */

  /** `Array.prototype.filter`: the elements satisfying `p`, in their original order. */
  function Filter<T(!new)>(s: seq<T>, p: T -> bool): (r: seq<T>)
    ensures |r| <= |s|
    ensures forall x :: x in r <==> x in s && p(x)
  {
    if |s| == 0 then []
    else
      assert s == [s[0]] + s[1..];
      (if p(s[0]) then [s[0]] else []) + Filter(s[1..], p)
  }

  /** Filtering distributes over a leading element. */
  lemma FilterCons<T(!new)>(x: T, t: seq<T>, p: T -> bool)
    ensures Filter([x] + t, p) == (if p(x) then [x] else []) + Filter(t, p)
  {
    assert ([x] + t)[0] == x && ([x] + t)[1..] == t;
  }

  /** Filtering keeps every occurrence of a kept value and none of a dropped one. */
  lemma {:induction false} FilterCount<T(!new)>(s: seq<T>, p: T -> bool, x: T)
    ensures multiset(Filter(s, p))[x] == if p(x) then multiset(s)[x] else 0
    decreases |s|
  {
    if |s| > 0 {
      FilterCount(s[1..], p, x);
      assert s == [s[0]] + s[1..];
    }
  }

  lemma {:induction false} FilterIsSubseq<T(!new)>(s: seq<T>, p: T -> bool)
    ensures IsSubseq(Filter(s, p), s)
    decreases |s|
  {
    if |s| > 0 {
      FilterIsSubseq(s[1..], p);
      var r := Filter(s, p);
      if p(s[0]) {
        assert r[0] == s[0] && r[1..] == Filter(s[1..], p);
      } else {
        assert r == Filter(s[1..], p);
      }
    }
  }

  /** Filtering with a predicate every element satisfies changes nothing. */
  lemma {:induction false} FilterAll<T(!new)>(s: seq<T>, p: T -> bool)
    requires forall x :: x in s ==> p(x)
    ensures Filter(s, p) == s
    decreases |s|
  {
    if |s| > 0 {
      FilterAll(s[1..], p);
      assert s == [s[0]] + s[1..];
    }
  }

  /** Filtering twice with the same predicate is filtering once. */
  lemma FilterIdempotent<T(!new)>(s: seq<T>, p: T -> bool)
    ensures Filter(Filter(s, p), p) == Filter(s, p)
  {
    FilterAll(Filter(s, p), p);
  }

  /** The filter of an order-preserving subsequence is still one. */
  lemma {:induction false} FilterSorted<T(!new)>(s: seq<T>, p: T -> bool, le: (T, T) -> bool)
    ensures Sorted(s, le) ==> Sorted(Filter(s, p), le)
    decreases |s|
  {
    if |s| > 0 && Sorted(s, le) {
      FilterSorted(s[1..], p, le);
      var rest := Filter(s[1..], p);
      forall y | y in rest ensures le(s[0], y) {
        var k :| 1 <= k < |s| && s[k] == y;
      }
    }
  }

  /* ---------- de-duplication ---------- */

  /** `Array.from(new Set(s))`: each value once, at its first occurrence. */
  function Dedup<T(==,!new)>(s: seq<T>): (r: seq<T>)
    ensures forall x :: x in r <==> x in s
    ensures Distinct(r)
    decreases |s|
  {
    if |s| == 0 then []
    else
      var rest := Dedup(Filter(s[1..], y => y != s[0]));
      assert s[0] !in rest;
      [s[0]] + rest
  }

  lemma {:induction false} DedupIsSubseq<T(!new)>(s: seq<T>)
    ensures IsSubseq(Dedup(s), s)
    decreases |s|
  {
    if |s| > 0 {
      var f := Filter(s[1..], y => y != s[0]);
      DedupIsSubseq(f);
      FilterIsSubseq(s[1..], y => y != s[0]);
      SubseqTrans(Dedup(f), f, s[1..]);
      assert Dedup(s)[1..] == Dedup(f);
    }
  }

  /** The position of the first occurrence of `x` in `s`. */
  function FirstIndex<T(==)>(s: seq<T>, x: T): (k: nat)
    requires x in s
    ensures k < |s| && s[k] == x && x !in s[..k]
  {
    if s[0] == x then 0
    else
      var k := 1 + FirstIndex(s[1..], x);
      assert s[..k] == [s[0]] + s[1..][..k - 1];
      k
  }

  /** "`a` occurs in `s` and its first occurrence comes before that of `b`". */
  function FirstSeenBefore<T(==)>(s: seq<T>): (T, T) -> bool {
    (a, b) => a in s && b in s && FirstIndex(s, a) < FirstIndex(s, b)
  }

  /** Filtering keeps the order in which values are first seen. */
  lemma {:induction false} FilterFirstIndex<T(!new)>(s: seq<T>, p: T -> bool, x: T, y: T)
    ensures x in Filter(s, p) && y in Filter(s, p) ==>
      (FirstIndex(Filter(s, p), x) < FirstIndex(Filter(s, p), y) <==> FirstIndex(s, x) < FirstIndex(s, y))
    decreases |s|
  {
    if x in Filter(s, p) && y in Filter(s, p) {
      var f := Filter(s, p);
      var g := Filter(s[1..], p);
      if p(s[0]) {
        assert f == [s[0]] + g;
        assert f[1..] == g;
        if x != s[0] && y != s[0] {
          FilterFirstIndex(s[1..], p, x, y);
        }
      } else {
        assert f == g;
        FilterFirstIndex(s[1..], p, x, y);
      }
    }
  }

  /** Past its head, `Dedup` lists the de-duplicated rest without the head. */
  lemma DedupTail<T(!new)>(s: seq<T>, k: nat)
    requires 0 < k < |Dedup(s)|
    ensures Dedup(s)[k] == Dedup(Filter(s[1..], y => y != s[0]))[k - 1]
    ensures Dedup(s)[k] in Filter(s[1..], y => y != s[0])
    ensures FirstIndex(s, Dedup(s)[k]) == 1 + FirstIndex(s[1..], Dedup(s)[k])
  {
    var rest := Dedup(Filter(s[1..], y => y != s[0]));
    assert Dedup(s) == [s[0]] + rest;
    assert Dedup(s)[k] == rest[k - 1];
  }

  /** Of two values `Dedup` keeps, the earlier one is first seen earlier. */
  lemma {:induction false} DedupFirstIndex<T(!new)>(s: seq<T>, i: nat, j: nat)
    requires i < j < |Dedup(s)|
    ensures FirstIndex(s, Dedup(s)[i]) < FirstIndex(s, Dedup(s)[j])
    decreases |s|
  {
    var p := y => y != s[0];
    var f := Filter(s[1..], p);
    var a, b := Dedup(s)[i], Dedup(s)[j];
    DedupTail(s, j);
    if i > 0 {
      DedupTail(s, i);
      assert FirstIndex(f, a) < FirstIndex(f, b) by {
        DedupFirstIndex(f, i - 1, j - 1);
      }
      assert FirstIndex(s[1..], a) < FirstIndex(s[1..], b) by {
        FilterFirstIndex(s[1..], p, a, b);
      }
    } else {
      assert a == s[0];
    }
  }

  /** `Array.from(new Set(s))` lists the values in the order they are first
      seen in `s`. */
  lemma DedupFirstSeenOrder<T(!new)>(s: seq<T>)
    ensures Sorted(Dedup(s), FirstSeenBefore(s))
  {
    var r := Dedup(s);
    forall i, j | 0 <= i < j < |r| ensures FirstSeenBefore(s)(r[i], r[j]) {
      DedupFirstIndex(s, i, j);
    }
  }

  /* ---------- stable insertion sort ---------- */

  /** Places `x` in front of the first element it may precede. */
  function InsertBy<T(!new)>(x: T, t: seq<T>, le: (T, T) -> bool): (r: seq<T>)
    ensures multiset(r) == multiset{x} + multiset(t)
    ensures |r| == |t| + 1
  {
    if |t| == 0 || le(x, t[0]) then [x] + t
    else
      assert t == [t[0]] + t[1..];
      [t[0]] + InsertBy(x, t[1..], le)
  }

  /** `Array.prototype.sort(cmp)` with `le(a, b) == (cmp(a, b) <= 0)`. Since
      ECMAScript 2019 that sort is stable, so its result is determined by the
      comparator; an insertion sort that never moves an element past one it
      may precede produces that result. */
  function SortBy<T(!new)>(s: seq<T>, le: (T, T) -> bool): (r: seq<T>)
    ensures multiset(r) == multiset(s)
    ensures |r| == |s|
  {
    if |s| == 0 then []
    else
      assert s == [s[0]] + s[1..];
      InsertBy(s[0], SortBy(s[1..], le), le)
  }

  lemma SortByMembers<T(!new)>(s: seq<T>, le: (T, T) -> bool)
    ensures forall x :: x in SortBy(s, le) <==> x in s
  {
    var r := SortBy(s, le);
    forall x ensures x in r <==> x in s {
      assert x in r <==> x in multiset(r);
      assert x in s <==> x in multiset(s);
    }
  }

  lemma {:induction false} InsertBySorted<T(!new)>(x: T, t: seq<T>, le: (T, T) -> bool)
    requires TotalPreorder(le)
    requires Sorted(t, le)
    ensures Sorted(InsertBy(x, t, le), le)
    decreases |t|
  {
    if |t| > 0 && !le(x, t[0]) {
      var rest := InsertBy(x, t[1..], le);
      InsertBySorted(x, t[1..], le);
      assert le(t[0], x);
      forall y | y in rest ensures le(t[0], y) {
        assert y in multiset(rest);
        if y != x {
          assert y in t[1..];
        }
      }
    }
  }

  /** The sort's result is ordered by the comparator. */
  lemma {:induction false} SortBySorted<T(!new)>(s: seq<T>, le: (T, T) -> bool)
    requires TotalPreorder(le)
    ensures Sorted(SortBy(s, le), le)
    decreases |s|
  {
    if |s| > 0 {
      SortBySorted(s[1..], le);
      InsertBySorted(s[0], SortBy(s[1..], le), le);
    }
  }

  /** Sorting an already sorted sequence leaves it unchanged. */
  lemma {:induction false} SortByOfSorted<T(!new)>(s: seq<T>, le: (T, T) -> bool)
    requires Sorted(s, le)
    ensures SortBy(s, le) == s
    decreases |s|
  {
    if |s| > 0 {
      SortByOfSorted(s[1..], le);
      assert s == [s[0]] + s[1..];
    }
  }

  /** Inserting an element the filter drops does not change the filter. */
  lemma {:induction false} FilterInsertByDropped<T(!new)>(x: T, t: seq<T>, le: (T, T) -> bool, p: T -> bool)
    requires !p(x)
    ensures Filter(InsertBy(x, t, le), p) == Filter(t, p)
    decreases |t|
  {
    if |t| > 0 && !le(x, t[0]) {
      FilterInsertByDropped(x, t[1..], le, p);
      FilterCons(t[0], InsertBy(x, t[1..], le), p);
      FilterCons(t[0], t[1..], p);
      assert t == [t[0]] + t[1..];
    } else {
      FilterCons(x, t, p);
    }
  }

  /** Inserting an element of a class whose members may all precede each
      other puts it in front of the rest of its class. */
  lemma {:induction false} FilterInsertByKept<T(!new)>(x: T, t: seq<T>, le: (T, T) -> bool, p: T -> bool)
    requires p(x)
    requires forall y :: p(y) ==> le(x, y)
    ensures Filter(InsertBy(x, t, le), p) == [x] + Filter(t, p)
    decreases |t|
  {
    if |t| > 0 && !le(x, t[0]) {
      assert !p(t[0]);
      FilterInsertByKept(x, t[1..], le, p);
      FilterInsertBySkip(x, t, le, p);
    } else {
      FilterCons(x, t, p);
    }
  }

  /** One step of the above: a dropped head that `x` goes behind. */
  lemma FilterInsertBySkip<T(!new)>(x: T, t: seq<T>, le: (T, T) -> bool, p: T -> bool)
    requires |t| > 0 && !le(x, t[0]) && !p(t[0])
    requires Filter(InsertBy(x, t[1..], le), p) == [x] + Filter(t[1..], p)
    ensures Filter(InsertBy(x, t, le), p) == [x] + Filter(t, p)
  {
    var i := InsertBy(x, t[1..], le);
    assert InsertBy(x, t, le) == [t[0]] + i;
    FilterCons(t[0], i, p);
    assert Filter([t[0]] + i, p) == Filter(i, p);
    assert Filter(t, p) == Filter(t[1..], p);
  }

  /** Stability: elements that may all precede one another (a class of
      comparator ties) keep their relative order. */
  lemma {:induction false} SortByStable<T(!new)>(s: seq<T>, le: (T, T) -> bool, p: T -> bool)
    requires forall a, b :: p(a) && p(b) ==> le(a, b)
    ensures Filter(SortBy(s, le), p) == Filter(s, p)
    decreases |s|
  {
    if |s| > 0 {
      SortByStable(s[1..], le, p);
      if p(s[0]) {
        FilterInsertByKept(s[0], SortBy(s[1..], le), le, p);
      } else {
        FilterInsertByDropped(s[0], SortBy(s[1..], le), le, p);
      }
    }
  }

  lemma {:induction false} InsertByDistinctKeys<T(!new), K>(x: T, t: seq<T>, le: (T, T) -> bool, key: T -> K)
    requires DistinctKeys(t, key)
    requires forall y :: y in t ==> key(y) != key(x)
    ensures DistinctKeys(InsertBy(x, t, le), key)
    decreases |t|
  {
    if |t| > 0 && !le(x, t[0]) {
      InsertByDistinctKeys(x, t[1..], le, key);
      var rest := InsertBy(x, t[1..], le);
      forall y | y in rest ensures key(y) != key(t[0]) {
        assert y in multiset(rest);
        if y != x {
          var k :| 0 <= k < |t[1..]| && t[1..][k] == y;
          assert t[k + 1] == y;
        }
      }
    }
  }

  /** Sorting never makes two elements share a key. */
  lemma {:induction false} SortByDistinctKeys<T(!new), K>(s: seq<T>, le: (T, T) -> bool, key: T -> K)
    requires DistinctKeys(s, key)
    ensures DistinctKeys(SortBy(s, le), key)
    decreases |s|
  {
    if |s| > 0 {
      SortByDistinctKeys(s[1..], le, key);
      SortByMembers(s[1..], le);
      forall y | y in SortBy(s[1..], le) ensures key(y) != key(s[0]) {
        var k :| 0 <= k < |s[1..]| && s[1..][k] == y;
        assert s[k + 1] == y;
      }
      InsertByDistinctKeys(s[0], SortBy(s[1..], le), le, key);
    }
  }

  /** Sorting keeps a duplicate-free sequence duplicate-free. */
  lemma SortByDistinct<T(!new)>(s: seq<T>, le: (T, T) -> bool)
    requires Distinct(s)
    ensures Distinct(SortBy(s, le))
  {
    var key := (x: T) => x;
    assert DistinctKeys(s, key);
    SortByDistinctKeys(s, le, key);
  }

  lemma {:induction false} FilterDistinctKeys<T(!new), K>(s: seq<T>, p: T -> bool, key: T -> K)
    requires DistinctKeys(s, key)
    ensures DistinctKeys(Filter(s, p), key)
    decreases |s|
  {
    if |s| > 0 {
      FilterDistinctKeys(s[1..], p, key);
      forall y | y in Filter(s[1..], p) ensures key(y) != key(s[0]) {
        var k :| 0 <= k < |s[1..]| && s[1..][k] == y;
        assert s[k + 1] == y;
      }
    }
  }
}
