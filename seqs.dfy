/** The JavaScript array operations the converter relies on, as functions on
    sequences: `filter` and `find`. */
module Seqs {
  import opened Wrappers

  /** `s.filter(p)`: the elements satisfying p, in their order in s. */
  function Filter<T>(s: seq<T>, p: T -> bool): (r: seq<T>)
    ensures |r| <= |s|
    ensures forall k :: 0 <= k < |r| ==> p(r[k])
  {
    if s == [] then []
    else (if p(s[0]) then [s[0]] else []) + Filter(s[1..], p)
  }

  /** An element is kept exactly when it occurs in s and satisfies p. */
  lemma {:induction false} FilterMembership<T>(s: seq<T>, p: T -> bool, x: T)
    ensures x in Filter(s, p) <==> x in s && p(x)
  {
    if s != [] {
      FilterMembership(s[1..], p, x);
      assert x in s <==> x == s[0] || x in s[1..];
    }
  }

  /** Nothing is kept when no element satisfies p. */
  lemma {:induction false} FilterNone<T>(s: seq<T>, p: T -> bool)
    requires forall k :: 0 <= k < |s| ==> !p(s[k])
    ensures Filter(s, p) == []
  {
    if s != [] {
      FilterNone(s[1..], p);
    }
  }

  /** Every kept element is an element of s. */
  lemma {:induction false} FilterSelectsMembers<T>(s: seq<T>, p: T -> bool)
    ensures forall k :: 0 <= k < |Filter(s, p)| ==> Filter(s, p)[k] in s
  {
    if s != [] {
      FilterSelectsMembers(s[1..], p);
    }
  }

  /** Filtering works block by block: it keeps the relative order. */
  lemma {:induction false} FilterAppend<T>(a: seq<T>, b: seq<T>, p: T -> bool)
    ensures Filter(a + b, p) == Filter(a, p) + Filter(b, p)
  {
    if a == [] {
      assert a + b == b;
    } else {
      assert (a + b)[1..] == a[1..] + b;
      FilterAppend(a[1..], b, p);
    }
  }

  /** One more element at the end is kept exactly when it satisfies p. */
  lemma FilterSnoc<T>(s: seq<T>, x: T, p: T -> bool)
    ensures Filter(s + [x], p) == Filter(s, p) + (if p(x) then [x] else [])
  {
    FilterAppend(s, [x], p);
    assert Filter([x], p) == (if p(x) then [x] else []) + Filter([x][1..], p);
  }

  /** idx lists, in increasing order, the positions in s of the elements
      satisfying p, and r holds those elements in that order. */
  ghost predicate Selects<T>(s: seq<T>, p: T -> bool, r: seq<T>, idx: seq<nat>) {
    && |idx| == |r|
    && (forall k :: 0 <= k < |idx| ==> idx[k] < |s| && r[k] == s[idx[k]])
    && (forall k, l :: 0 <= k < l < |idx| ==> idx[k] < idx[l])
    && (forall i :: 0 <= i < |s| ==> (i in idx <==> p(s[i])))
  }

  /** The filter is the subsequence of all elements satisfying p: it drops
      exactly the others and reorders nothing. */
  lemma {:induction false} FilterSelects<T>(s: seq<T>, p: T -> bool) returns (idx: seq<nat>)
    ensures Selects(s, p, Filter(s, p), idx)
    decreases |s|
  {
    if s == [] {
      idx := [];
    } else {
      var n := |s| - 1;
      var init := s[..n];
      var prev := FilterSelects(init, p);
      assert s == init + [s[n]];
      FilterSnoc(init, s[n], p);
      idx := SelectsSnoc(init, s[n], p, Filter(init, p), prev);
    }
  }

  lemma SelectsSnoc<T>(init: seq<T>, x: T, p: T -> bool, r: seq<T>, prev: seq<nat>) returns (idx: seq<nat>)
    requires Selects(init, p, r, prev)
    ensures Selects(init + [x], p, r + (if p(x) then [x] else []), idx)
  {
    var s := init + [x];
    var n := |init|;
    assert forall i :: 0 <= i < n ==> s[i] == init[i];
    if p(x) {
      idx := prev + [n];
      assert forall i :: 0 <= i < n ==> (i in idx <==> i in prev);
    } else {
      idx := prev;
      assert r + [] == r;
    }
  }

  /** `s.find(p)`: the first element satisfying p, if any. */
  function Find<T>(s: seq<T>, p: T -> bool): (r: Option<T>)
    ensures r.Some? ==> r.value in s && p(r.value)
    ensures r.None? ==> forall i :: 0 <= i < |s| ==> !p(s[i])
  {
    if s == [] then None
    else if p(s[0]) then Some(s[0])
    else Find(s[1..], p)
  }

  /** Find yields the element at the first position that satisfies p. */
  lemma {:induction false} FindFirst<T>(s: seq<T>, p: T -> bool, i: nat)
    requires i < |s| && p(s[i])
    requires forall k :: 0 <= k < i ==> !p(s[k])
    ensures Find(s, p) == Some(s[i])
  {
    if i > 0 {
      assert !p(s[0]);
      FindFirst(s[1..], p, i - 1);
    }
  }
}
