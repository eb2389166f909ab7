/**
 * Order-preserving filtering: the semantics of a walk over a linked list that keeps
 * (ini_cfg_find_sections) or unlinks (ini_cfg_delete_sections, ini_cfg_delete_key)
 * every node that matches.
 */
module Sequences {

  /** The elements of s that satisfy p, in their order in s. */
  function Filter<T>(s: seq<T>, p: T -> bool): (r: seq<T>)
    ensures |r| <= |s|
    decreases |s|
  {
    if s == [] then []
    else Filter(s[..|s| - 1], p) + (if p(s[|s| - 1]) then [s[|s| - 1]] else [])
  }

  /** No two positions of s hold the same element. */
  predicate Distinct<T(==)>(s: seq<T>) {
    forall i, j :: 0 <= i < j < |s| ==> s[i] != s[j]
  }

  /** Filtering one more element: how the loops over prefixes advance. */
  lemma FilterSnoc<T>(s: seq<T>, x: T, p: T -> bool)
    ensures Filter(s + [x], p) == Filter(s, p) + (if p(x) then [x] else [])
  {
    assert (s + [x])[..|s + [x]| - 1] == s;
  }

  /** Filter distributes over concatenation. */
  lemma {:induction false} FilterAppend<T>(a: seq<T>, b: seq<T>, p: T -> bool)
    ensures Filter(a + b, p) == Filter(a, p) + Filter(b, p)
    decreases |b|
  {
    if b == [] {
      assert a + b == a;
    } else {
      var b' := b[..|b| - 1];
      var x := b[|b| - 1];
      assert b == b' + [x];
      assert a + b == (a + b') + [x];
      FilterSnoc(a + b', x, p);
      FilterAppend(a, b', p);
      FilterSnoc(b', x, p);
    }
  }

  /** Exactly the elements of s that satisfy p are in the result. */
  lemma {:induction false} FilterMembers<T>(s: seq<T>, p: T -> bool, x: T)
    ensures x in Filter(s, p) <==> x in s && p(x)
    decreases |s|
  {
    if s != [] {
      var s' := s[..|s| - 1];
      assert s == s' + [s[|s| - 1]];
      FilterMembers(s', p, x);
    }
  }

  /** Filtering is a no-op when every element already satisfies p. */
  lemma {:induction false} FilterKeepsAll<T>(s: seq<T>, p: T -> bool)
    requires forall i :: 0 <= i < |s| ==> p(s[i])
    ensures Filter(s, p) == s
    decreases |s|
  {
    if s != [] {
      var s' := s[..|s| - 1];
      assert s == s' + [s[|s| - 1]];
      FilterKeepsAll(s', p);
    }
  }

  /** Filtering is empty when no element satisfies p. */
  lemma {:induction false} FilterNone<T>(s: seq<T>, p: T -> bool)
    requires forall i :: 0 <= i < |s| ==> !p(s[i])
    ensures Filter(s, p) == []
    decreases |s|
  {
    if s != [] {
      FilterNone(s[..|s| - 1], p);
    }
  }

  /**
   * The result is a subsequence of s: it picks positions idx of s in increasing
   * order, and the positions picked are exactly those whose element satisfies p.
   */
  lemma {:induction false} FilterPositions<T>(s: seq<T>, p: T -> bool) returns (idx: seq<nat>)
    ensures |idx| == |Filter(s, p)|
    ensures forall k :: 0 <= k < |idx| ==> idx[k] < |s| && Filter(s, p)[k] == s[idx[k]]
    ensures forall k, l :: 0 <= k < l < |idx| ==> idx[k] < idx[l]
    ensures forall i :: 0 <= i < |s| ==> (p(s[i]) <==> i in idx)
    decreases |s|
  {
    if s == [] {
      idx := [];
    } else {
      var n := |s| - 1;
      var s' := s[..n];
      assert s == s' + [s[n]];
      var idx' := FilterPositions(s', p);
      if p(s[n]) {
        idx := idx' + [n];
      } else {
        idx := idx';
      }
      forall i | 0 <= i < n ensures s[i] == s'[i] { }
    }
  }

  /** Filtering by q after p is filtering by q alone, when q is the stronger test. */
  lemma {:induction false} FilterFilter<T>(s: seq<T>, p: T -> bool, q: T -> bool)
    requires forall x :: q(x) ==> p(x)
    ensures Filter(Filter(s, p), q) == Filter(s, q)
    decreases |s|
  {
    if s != [] {
      var n := |s| - 1;
      var s' := s[..n];
      var x := s[n];
      assert s == s' + [x];
      FilterFilter(s', p, q);
      var tail := if p(x) then [x] else [];
      FilterAppend(Filter(s', p), tail, q);
      if p(x) {
        assert Filter(tail, q) == Filter([], q) + (if q(x) then [x] else []) by {
          assert tail[..0] == [];
        }
      }
    }
  }

  /** Filtering keeps the elements distinct. */
  lemma FilterDistinct<T>(s: seq<T>, p: T -> bool)
    requires Distinct(s)
    ensures Distinct(Filter(s, p))
  {
    var r := Filter(s, p);
    var idx := FilterPositions(s, p);
    forall k, l | 0 <= k < l < |r| ensures r[k] != r[l] {
      assert idx[k] < idx[l];
    }
  }

  /** When exactly one element fails p, filtering drops just that one. */
  lemma {:induction false} FilterDropsOne<T>(s: seq<T>, p: T -> bool, i: nat)
    requires i < |s| && !p(s[i])
    requires forall j :: 0 <= j < |s| && j != i ==> p(s[j])
    ensures Filter(s, p) == s[..i] + s[i + 1..]
    decreases |s|
  {
    var n := |s| - 1;
    var s' := s[..n];
    assert s == s' + [s[n]];
    if i == n {
      FilterKeepsAll(s', p);
      assert s[..i] + s[i + 1..] == s';
    } else {
      FilterDropsOne(s', p, i);
      assert s'[..i] == s[..i];
      assert s[i + 1..] == s'[i + 1..] + [s[n]];
    }
  }
}
