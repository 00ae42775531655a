/** Kotlin collection operations on lists, as functions on sequences. */
module Seqs {

  /** No element occurs twice. */
  ghost predicate NoDuplicates<T>(s: seq<T>)
  {
    forall i, j :: 0 <= i < j < |s| ==> s[i] != s[j]
  }

  /** Without repeated elements, the last one does not occur before it and the rest repeat nothing. */
  lemma NoDuplicatesInit<T>(s: seq<T>)
    requires |s| > 0 && NoDuplicates(s)
    ensures NoDuplicates(s[..|s| - 1]) && s[|s| - 1] !in s[..|s| - 1]
  {
    var init := s[..|s| - 1];
    forall i | 0 <= i < |init| ensures init[i] != s[|s| - 1] {
      assert init[i] == s[i];
    }
  }

  /** Kotlin `distinct()`: the first occurrence of every element, in order. */
  function Distinct<T(==)>(s: seq<T>): seq<T>
    decreases |s|
  {
    if |s| == 0 then []
    else
      var d := Distinct(s[..|s| - 1]);
      if s[|s| - 1] in d then d else d + [s[|s| - 1]]
  }

  /** The index of the first occurrence of `x` in `s`. */
  function FirstIndex<T(==)>(s: seq<T>, x: T): (k: nat)
    requires x in s
    ensures k < |s| && s[k] == x && x !in s[..k]
  {
    if s[0] == x then 0
    else
      assert x in s[1..];
      var k := FirstIndex(s[1..], x);
      assert s[..k + 1] == [s[0]] + s[1..][..k];
      k + 1
  }

  lemma {:induction false} FirstIndexOfPrefix<T>(s: seq<T>, y: T, x: T)
    requires x in s
    ensures x in s + [y] && FirstIndex(s + [y], x) == FirstIndex(s, x)
  {
    var k := FirstIndex(s, x);
    var t := s + [y];
    assert t[k] == x;
    assert t[..k] == s[..k];
  }

  /**
   * `Distinct(s)` holds the elements of `s` and nothing else, each once,
   * ordered by where each first occurs in `s`.
   */
  lemma {:induction false} DistinctSpec<T>(s: seq<T>)
    ensures forall x :: x in Distinct(s) <==> x in s
    ensures NoDuplicates(Distinct(s))
    ensures forall i, j :: 0 <= i < j < |Distinct(s)| ==>
              FirstIndex(s, Distinct(s)[i]) < FirstIndex(s, Distinct(s)[j])
  {
    DistinctMembers(s);
    DistinctNoDuplicates(s);
    DistinctOrder(s);
  }

  lemma {:induction false} DistinctMembers<T>(s: seq<T>)
    ensures forall x :: x in Distinct(s) <==> x in s
    decreases |s|
  {
    if |s| > 0 {
      assert s == s[..|s| - 1] + [s[|s| - 1]];
      DistinctMembers(s[..|s| - 1]);
    }
  }

  lemma {:induction false} DistinctNoDuplicates<T>(s: seq<T>)
    ensures NoDuplicates(Distinct(s))
    decreases |s|
  {
    if |s| > 0 {
      var init, last := s[..|s| - 1], s[|s| - 1];
      DistinctNoDuplicates(init);
      var d := Distinct(init);
      if last !in d {
        var r := d + [last];
        forall i, j | 0 <= i < j < |r| ensures r[i] != r[j] {
          assert r[i] == d[i] && d[i] in d;
          if j < |d| {
            assert r[j] == d[j];
          }
        }
      }
    }
  }

  lemma {:induction false} DistinctOrder<T>(s: seq<T>)
    ensures forall i :: 0 <= i < |Distinct(s)| ==> Distinct(s)[i] in s
    ensures forall i, j :: 0 <= i < j < |Distinct(s)| ==>
              FirstIndex(s, Distinct(s)[i]) < FirstIndex(s, Distinct(s)[j])
    decreases |s|
  {
    DistinctMembers(s);
    if |s| > 0 {
      var init, last := s[..|s| - 1], s[|s| - 1];
      assert s == init + [last];
      DistinctOrder(init);
      DistinctMembers(init);
      var d := Distinct(init);
      forall i | 0 <= i < |d| ensures FirstIndex(s, d[i]) == FirstIndex(init, d[i]) {
        FirstIndexOfPrefix(init, last, d[i]);
      }
      if last !in d {
        assert last !in init;
        assert FirstIndex(s, last) == |s| - 1;
        var r := d + [last];
        assert Distinct(s) == r;
        forall i, j | 0 <= i < j < |r| ensures FirstIndex(s, r[i]) < FirstIndex(s, r[j]) {
          assert r[i] == d[i];
          if j < |d| {
            assert r[j] == d[j];
          }
        }
      }
    }
  }

  /** A list without duplicates is its own `distinct()`. */
  lemma {:induction false} DistinctOfNoDuplicates<T>(s: seq<T>)
    requires NoDuplicates(s)
    ensures Distinct(s) == s
    decreases |s|
  {
    if |s| > 0 {
      var init := s[..|s| - 1];
      DistinctOfNoDuplicates(init);
      assert s[|s| - 1] !in init;
      assert s == init + [s[|s| - 1]];
    }
  }

  /** `distinct()` is idempotent. */
  lemma DistinctIdempotent<T>(s: seq<T>)
    ensures Distinct(Distinct(s)) == Distinct(s)
  {
    DistinctSpec(s);
    DistinctOfNoDuplicates(Distinct(s));
  }

  /** Kotlin `flatMap`: the lists `f` gives for the elements, concatenated in order. */
  function FlatMap<A, B>(f: A -> seq<B>, s: seq<A>): seq<B>
    decreases |s|
  {
    if |s| == 0 then [] else FlatMap(f, s[..|s| - 1]) + f(s[|s| - 1])
  }

  lemma {:induction false} FlatMapAppend<A, B>(f: A -> seq<B>, a: seq<A>, b: seq<A>)
    ensures FlatMap(f, a + b) == FlatMap(f, a) + FlatMap(f, b)
    decreases |b|
  {
    if |b| > 0 {
      var b' := b[..|b| - 1];
      assert (a + b)[..|a + b| - 1] == a + b';
      FlatMapAppend(f, a, b');
    } else {
      assert a + b == a;
    }
  }

  /** Extending the prefix by one element appends that element's list. */
  lemma FlatMapPrefixStep<A, B>(f: A -> seq<B>, s: seq<A>, k: nat)
    requires k < |s|
    ensures FlatMap(f, s[..k + 1]) == FlatMap(f, s[..k]) + f(s[k])
  {
    assert s[..k + 1][..k] == s[..k];
  }

  /** An element whose list is empty can be inserted anywhere without changing a `flatMap`. */
  lemma FlatMapInsertEmpty<A, B>(f: A -> seq<B>, a: seq<A>, x: A, b: seq<A>)
    requires f(x) == []
    ensures FlatMap(f, a + [x] + b) == FlatMap(f, a + b)
  {
    assert [x][..0] == [];
    FlatMapAppend(f, a, [x]);
    FlatMapAppend(f, a + [x], b);
    FlatMapAppend(f, a, b);
  }

  /** A slice of the middle part of `[h] + m + t`, found one place further on. */
  lemma SliceOfMiddle<T>(h: T, m: seq<T>, t: seq<T>, lo: nat, hi: nat)
    requires lo <= hi <= |m|
    ensures ([h] + m + t)[1 + lo..1 + hi] == m[lo..hi]
  {
    var r := [h] + m + t;
    assert forall k :: 0 <= k < hi - lo ==> r[1 + lo..1 + hi][k] == m[lo..hi][k];
  }

  /** The images of the inputs lie in the `flatMap` one after another, each whole and in input order. */
  lemma FlatMapSlice<A, B>(f: A -> seq<B>, s: seq<A>, i: nat)
    requires i < |s|
    ensures var lo := |FlatMap(f, s[..i])|;
      lo + |f(s[i])| <= |FlatMap(f, s)| && FlatMap(f, s)[lo..lo + |f(s[i])|] == f(s[i])
  {
    assert s == s[..i + 1] + s[i + 1..];
    FlatMapAppend(f, s[..i + 1], s[i + 1..]);
    FlatMapPrefixStep(f, s, i);
  }

  /** An element of a `flatMap` comes from the list of one of the inputs. */
  lemma {:induction false} FlatMapMember<A, B>(f: A -> seq<B>, s: seq<A>, y: B)
    ensures y in FlatMap(f, s) <==> exists i :: 0 <= i < |s| && y in f(s[i])
    decreases |s|
  {
    if |s| > 0 {
      var init := s[..|s| - 1];
      FlatMapMember(f, init, y);
      assert FlatMap(f, s) == FlatMap(f, init) + f(s[|s| - 1]);
      if exists i :: 0 <= i < |init| && y in f(init[i]) {
        var i :| 0 <= i < |init| && y in f(init[i]);
        assert s[i] == init[i];
      }
      if exists i :: 0 <= i < |s| && y in f(s[i]) {
        var i :| 0 <= i < |s| && y in f(s[i]);
        if i < |init| { assert init[i] == s[i]; }
      }
    }
  }

  /** `a` is `b` with some elements left out, the rest in their order. */
  predicate IsSubsequence<T(==)>(a: seq<T>, b: seq<T>)
    decreases |b|
  {
    if |a| == 0 then true
    else if |b| == 0 then false
    else if a[|a| - 1] == b[|b| - 1] then IsSubsequence(a[..|a| - 1], b[..|b| - 1])
    else IsSubsequence(a, b[..|b| - 1])
  }

  /** Kotlin `filter`: the elements `p` holds for, in their order. */
  function Filter<T>(p: T -> bool, s: seq<T>): seq<T>
    decreases |s|
  {
    if |s| == 0 then []
    else
      var init := Filter(p, s[..|s| - 1]);
      if p(s[|s| - 1]) then init + [s[|s| - 1]] else init
  }

  /**
   * The kept elements are those of the input that `p` holds for, each as
   * often as in the input, in the input's order.
   */
  lemma {:induction false} FilterSpec<T(!new)>(p: T -> bool, s: seq<T>)
    ensures forall i :: 0 <= i < |Filter(p, s)| ==> Filter(p, s)[i] in s && p(Filter(p, s)[i])
    ensures forall i :: 0 <= i < |s| && p(s[i]) ==> s[i] in Filter(p, s)
    ensures IsSubsequence(Filter(p, s), s)
    ensures forall x :: multiset(Filter(p, s))[x] == if p(x) then multiset(s)[x] else 0
  {
    FilterMembers(p, s);
    FilterSubsequence(p, s);
    FilterCounts(p, s);
  }

  lemma {:induction false} FilterMembers<T>(p: T -> bool, s: seq<T>)
    ensures forall i :: 0 <= i < |Filter(p, s)| ==> Filter(p, s)[i] in s && p(Filter(p, s)[i])
    ensures forall i :: 0 <= i < |s| && p(s[i]) ==> s[i] in Filter(p, s)
    decreases |s|
  {
    if |s| > 0 {
      var init, last := s[..|s| - 1], s[|s| - 1];
      FilterMembers(p, init);
      var r := Filter(p, init);
      var f := Filter(p, s);
      forall i | 0 <= i < |f| ensures f[i] in s && p(f[i]) {
        if i < |r| {
          assert f[i] == r[i] && r[i] in init;
          assert init[FirstIndex(init, r[i])] == s[FirstIndex(init, r[i])];
        }
      }
      forall i | 0 <= i < |s| && p(s[i]) ensures s[i] in f {
        if i < |init| {
          assert init[i] == s[i];
        } else {
          assert f[|f| - 1] == last;
        }
      }
    }
  }

  lemma {:induction false} FilterSubsequence<T>(p: T -> bool, s: seq<T>)
    ensures IsSubsequence(Filter(p, s), s)
    decreases |s|
  {
    if |s| > 0 {
      var init, last := s[..|s| - 1], s[|s| - 1];
      FilterSubsequence(p, init);
      var r := Filter(p, init);
      if p(last) {
        assert (r + [last])[..|r|] == r;
      } else if |r| > 0 {
        // every kept element satisfies p, the dropped last one does not
        FilterMembers(p, init);
        assert p(r[|r| - 1]);
      }
    }
  }

  lemma {:induction false} FilterCounts<T(!new)>(p: T -> bool, s: seq<T>)
    ensures forall x :: multiset(Filter(p, s))[x] == if p(x) then multiset(s)[x] else 0
    decreases |s|
  {
    if |s| > 0 {
      var init, last := s[..|s| - 1], s[|s| - 1];
      FilterCounts(p, init);
      assert s == init + [last];
      assert multiset(s) == multiset(init) + multiset{last};
    }
  }
}
