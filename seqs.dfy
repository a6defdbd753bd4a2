/** Whole-column steps of the pipeline on sequences of rows: element-wise
    conversion that fails as a whole, `drop_duplicates`, and order-preserving
    selection, the common shape of every boolean-mask step (`dropna`, the 1970
    cut, `.loc` range slicing, the per-hour sheet selection, `at_time`). */
module Seqs {
  import opened Wrappers

  /** Applies `f` to every element; defined only when `f` is defined on every element. */
  function MapAll<A, B>(xs: seq<A>, f: A -> Option<B>): (r: Option<seq<B>>)
    ensures r.Some? ==> |r.value| == |xs|
    decreases |xs|
  {
    if |xs| == 0 then Some([])
    else
      var prefix := MapAll(xs[..|xs| - 1], f);
      var last := f(xs[|xs| - 1]);
      if prefix.Some? && last.Some? then Some(prefix.value + [last.value]) else None
  }

  /** The conversion succeeds exactly when every element converts, and then holds each element's image in place. */
  lemma {:induction false} MapAllSpec<A, B>(xs: seq<A>, f: A -> Option<B>)
    ensures MapAll(xs, f).Some? <==> forall i :: 0 <= i < |xs| ==> f(xs[i]).Some?
    ensures MapAll(xs, f).Some? ==> forall i :: 0 <= i < |xs| ==> f(xs[i]) == Some(MapAll(xs, f).value[i])
    decreases |xs|
  {
    if |xs| > 0 {
      var n := |xs| - 1;
      MapAllSpec(xs[..n], f);
      assert forall i :: 0 <= i < n ==> xs[..n][i] == xs[i];
    }
  }

  /** `drop_duplicates()`: the first occurrence of every distinct element, in order. */
  function DropDuplicates<T(==)>(s: seq<T>): (r: seq<T>)
    decreases |s|
  {
    if |s| == 0 then []
    else
      var prefix := DropDuplicates(s[..|s| - 1]);
      var last := s[|s| - 1];
      if last in prefix then prefix else prefix + [last]
  }

  lemma {:induction false} DropDuplicatesMembers<T>(s: seq<T>)
    ensures forall i :: 0 <= i < |DropDuplicates(s)| ==> DropDuplicates(s)[i] in s
    ensures forall i :: 0 <= i < |s| ==> s[i] in DropDuplicates(s)
    decreases |s|
  {
    if |s| > 0 {
      DropDuplicatesMembers(s[..|s| - 1]);
      var r := DropDuplicates(s);
      var prefix := DropDuplicates(s[..|s| - 1]);
      forall i | 0 <= i < |s| - 1 ensures s[i] in r {
        assert s[i] == s[..|s| - 1][i];
      }
      forall i | 0 <= i < |r| ensures r[i] in s {
        if i < |prefix| {
          assert r[i] == prefix[i];
          assert prefix[i] in s[..|s| - 1];
        }
      }
    }
  }

  /** No element survives `drop_duplicates()` twice. */
  lemma {:induction false} DropDuplicatesDistinct<T>(s: seq<T>)
    ensures forall i, j :: 0 <= i < j < |DropDuplicates(s)| ==> DropDuplicates(s)[i] != DropDuplicates(s)[j]
    decreases |s|
  {
    if |s| > 0 {
      DropDuplicatesDistinct(s[..|s| - 1]);
    }
  }

  /** `f` is defined on the distinct elements exactly when it is defined on all of them. */
  lemma MapAllOfDistinct<A, B>(xs: seq<A>, f: A -> Option<B>)
    ensures MapAll(DropDuplicates(xs), f).Some? <==> forall i :: 0 <= i < |xs| ==> f(xs[i]).Some?
  {
    var unique := DropDuplicates(xs);
    DropDuplicatesMembers(xs);
    MapAllSpec(unique, f);
    if forall i :: 0 <= i < |xs| ==> f(xs[i]).Some? {
      forall j | 0 <= j < |unique| ensures f(unique[j]).Some? {
        assert unique[j] in xs;
      }
    } else {
      var i :| 0 <= i < |xs| && f(xs[i]).None?;
      assert xs[i] in unique;
    }
  }

  /** Every image of a distinct element is the image of an element. */
  lemma MapAllSource<A, B>(xs: seq<A>, f: A -> Option<B>, ys: seq<B>, j: int) returns (i: int)
    requires MapAll(DropDuplicates(xs), f) == Some(ys)
    requires 0 <= j < |ys|
    ensures 0 <= i < |xs| && f(xs[i]) == Some(ys[j])
  {
    var unique := DropDuplicates(xs);
    DropDuplicatesMembers(xs);
    MapAllSpec(unique, f);
    assert unique[j] in xs;
    i :| 0 <= i < |xs| && xs[i] == unique[j];
  }

  /** Every element has its image among the images of the distinct elements. */
  lemma MapAllImage<A, B>(xs: seq<A>, f: A -> Option<B>, ys: seq<B>, i: int) returns (j: int)
    requires MapAll(DropDuplicates(xs), f) == Some(ys)
    requires 0 <= i < |xs|
    ensures 0 <= j < |ys| && f(xs[i]) == Some(ys[j])
  {
    var unique := DropDuplicates(xs);
    DropDuplicatesMembers(xs);
    MapAllSpec(unique, f);
    assert xs[i] in unique;
    j :| 0 <= j < |unique| && unique[j] == xs[i];
  }

  /** An element with property `p` exists exactly when a distinct element's image has property `q`,
      when `f` relates the two properties. */
  lemma MapAllExists<A, B>(xs: seq<A>, f: A -> Option<B>, ys: seq<B>, p: A -> bool, q: B -> bool)
    requires MapAll(DropDuplicates(xs), f) == Some(ys)
    requires forall i :: 0 <= i < |xs| && f(xs[i]).Some? ==> (p(xs[i]) <==> q(f(xs[i]).value))
    ensures (exists i :: 0 <= i < |xs| && p(xs[i])) <==> (exists j :: 0 <= j < |ys| && q(ys[j]))
  {
    if exists i :: 0 <= i < |xs| && p(xs[i]) {
      var i :| 0 <= i < |xs| && p(xs[i]);
      var j := MapAllImage(xs, f, ys, i);
      assert q(ys[j]);
    }
    if exists j :: 0 <= j < |ys| && q(ys[j]) {
      var j :| 0 <= j < |ys| && q(ys[j]);
      var i := MapAllSource(xs, f, ys, j);
      assert p(xs[i]);
    }
  }

  /** The elements of `s` satisfying `p`, in their original order. */
  function Filter<T>(s: seq<T>, p: T -> bool): (r: seq<T>)
    ensures |r| <= |s|
    decreases |s|
  {
    if |s| == 0 then []
    else
      var prefix := Filter(s[..|s| - 1], p);
      if p(s[|s| - 1]) then prefix + [s[|s| - 1]] else prefix
  }

  /** An element is selected exactly when it occurs and passes the test. */
  lemma {:induction false} FilterMember<T>(s: seq<T>, p: T -> bool, x: T)
    ensures x in Filter(s, p) <==> x in s && p(x)
    decreases |s|
  {
    if |s| > 0 {
      var n := |s| - 1;
      FilterMember(s[..n], p, x);
      assert s == s[..n] + [s[n]];
    }
  }

  /** `before` holds of every pair of elements of `s` in their order (a sortedness relation). */
  predicate Ordered<T>(s: seq<T>, before: (T, T) -> bool) {
    forall i, j :: 0 <= i < j < |s| ==> before(s[i], s[j])
  }

  /** How often `x` occurs in the selection: as often as in `s` when it is selected, never otherwise. */
  lemma {:induction false} FilterMultiplicity<T>(s: seq<T>, p: T -> bool, x: T)
    ensures multiset(Filter(s, p))[x] == if p(x) then multiset(s)[x] else 0
    decreases |s|
  {
    if |s| > 0 {
      var n := |s| - 1;
      FilterMultiplicity(s[..n], p, x);
      assert s == s[..n] + [s[n]];
    }
  }

  /** Selecting from two orderings of the same rows selects as many rows. */
  lemma {:induction false} FilterOfPermutation<T>(a: seq<T>, b: seq<T>, p: T -> bool)
    requires multiset(a) == multiset(b)
    ensures |Filter(a, p)| == |Filter(b, p)|
    decreases |a|
  {
    if |a| == 0 {
      assert |b| == |multiset(b)| == 0;
    } else {
      var n := |a| - 1;
      var x := a[n];
      assert x in multiset(a);
      var j :| 0 <= j < |b| && b[j] == x;
      RemoveOne(a, b, j);
      FilterOfPermutation(a[..n], b[..j] + b[j + 1..], p);
      assert a == a[..n] + [x];
      FilterAppend(a[..n], [x], p);
      FilterSplit(b[..j], x, b[j + 1..], p);
      assert b == b[..j] + [x] + b[j + 1..];
    }
  }

  lemma RemoveOne<T>(a: seq<T>, b: seq<T>, j: int)
    requires multiset(a) == multiset(b)
    requires |a| > 0 && 0 <= j < |b| && b[j] == a[|a| - 1]
    ensures multiset(a[..|a| - 1]) == multiset(b[..j] + b[j + 1..])
  {
    var n := |a| - 1;
    var x := a[n];
    assert a == a[..n] + [x];
    assert b == b[..j] + [x] + b[j + 1..];
    calc {
      multiset(a[..n]);
      multiset(a[..n]) + multiset{x} - multiset{x};
      multiset(a) - multiset{x};
      multiset(b) - multiset{x};
      { assert multiset(b) == multiset(b[..j] + b[j + 1..]) + multiset{x}; }
      multiset(b[..j] + b[j + 1..]) + multiset{x} - multiset{x};
      multiset(b[..j] + b[j + 1..]);
    }
  }

  lemma FilterSplit<T>(b1: seq<T>, x: T, b2: seq<T>, p: T -> bool)
    ensures |Filter(b1 + [x] + b2, p)| == |Filter(b1 + b2, p)| + |Filter([x], p)|
  {
    FilterAppend(b1 + [x], b2, p);
    FilterAppend(b1, [x], p);
    FilterAppend(b1, b2, p);
  }

  /** Selection distributes over concatenation. */
  lemma {:induction false} FilterAppend<T>(a: seq<T>, b: seq<T>, p: T -> bool)
    ensures Filter(a + b, p) == Filter(a, p) + Filter(b, p)
    decreases |b|
  {
    if |b| > 0 {
      var n := |b| - 1;
      FilterAppend(a, b[..n], p);
      assert (a + b)[..|a + b| - 1] == a + b[..n];
    } else {
      assert a + b == a;
    }
  }

  /** Selection keeps the order of the rows it keeps. */
  lemma {:induction false} FilterKeepsOrdered<T>(s: seq<T>, p: T -> bool, before: (T, T) -> bool)
    requires Ordered(s, before)
    ensures Ordered(Filter(s, p), before)
    decreases |s|
  {
    if |s| > 0 {
      var n := |s| - 1;
      OrderedPrefix(s, n, before);
      FilterKeepsOrdered(s[..n], p, before);
      var prefix := Filter(s[..n], p);
      if p(s[n]) {
        forall k | 0 <= k < |prefix| ensures before(prefix[k], s[n]) {
          assert prefix[k] in prefix;
          FilterMember(s[..n], p, prefix[k]);
          var i :| 0 <= i < n && s[..n][i] == prefix[k];
          assert s[i] == prefix[k];
        }
        OrderedSnoc(prefix, s[n], before);
        assert Filter(s, p) == prefix + [s[n]];
      }
    }
  }

  lemma OrderedPrefix<T>(s: seq<T>, n: nat, before: (T, T) -> bool)
    requires Ordered(s, before) && n <= |s|
    ensures Ordered(s[..n], before)
  {
    forall i, j | 0 <= i < j < n ensures before(s[..n][i], s[..n][j]) {
      assert s[..n][i] == s[i] && s[..n][j] == s[j];
    }
  }

  lemma OrderedSnoc<T>(s: seq<T>, x: T, before: (T, T) -> bool)
    requires Ordered(s, before)
    requires forall k :: 0 <= k < |s| ==> before(s[k], x)
    ensures Ordered(s + [x], before)
  {
    var r := s + [x];
    forall i, j | 0 <= i < j < |r| ensures before(r[i], r[j]) {
      assert r[i] == s[i];
      if j < |s| {
        assert r[j] == s[j];
      }
    }
  }

  /** Two tests that agree on every element select the same rows. */
  lemma {:induction false} FilterAgrees<T>(s: seq<T>, p: T -> bool, q: T -> bool)
    requires forall i :: 0 <= i < |s| ==> p(s[i]) == q(s[i])
    ensures Filter(s, p) == Filter(s, q)
    decreases |s|
  {
    if |s| > 0 {
      var n := |s| - 1;
      FilterAgrees(s[..n], p, q);
    }
  }

  /** Two selections in a row select by both tests. */
  lemma {:induction false} FilterTwice<T>(s: seq<T>, p: T -> bool, q: T -> bool, both: T -> bool)
    requires forall x :: both(x) == (p(x) && q(x))
    ensures Filter(Filter(s, p), q) == Filter(s, both)
    decreases |s|
  {
    if |s| > 0 {
      var n := |s| - 1;
      FilterTwice(s[..n], p, q, both);
      var inner := Filter(s[..n], p);
      if p(s[n]) {
        assert (inner + [s[n]])[..|inner|] == inner;
      }
    }
  }

  /** Selecting by two tests that agree position by position selects as many elements. */
  lemma {:induction false} FilterMapped<A, B>(xs: seq<A>, ys: seq<B>, p: A -> bool, q: B -> bool)
    requires |xs| == |ys|
    requires forall i :: 0 <= i < |xs| ==> p(xs[i]) == q(ys[i])
    ensures |Filter(xs, p)| == |Filter(ys, q)|
    decreases |xs|
  {
    if |xs| > 0 {
      var n := |xs| - 1;
      FilterMapped(xs[..n], ys[..n], p, q);
    }
  }

}
