/**
 * The array operations the service chains (`find`, `filter`, `map`), as
 * functions on sequences whose contracts state what they select.
 */
module Sequences {
  import opened Wrappers

  /** `x` is what `s.find(y => key(y) === k)` yields: the first element with key `k`. */
  ghost predicate IsFirstBy<T>(s: seq<T>, key: T -> int, k: int, x: T)
  {
    exists i :: 0 <= i < |s| && s[i] == x && key(x) == k && forall j :: 0 <= j < i ==> key(s[j]) != k
  }

  /** No element of `s` has key `k`. */
  ghost predicate NoneHasKey<T>(s: seq<T>, key: T -> int, k: int)
  {
    forall x :: x in s ==> key(x) != k
  }

  lemma IsFirstBySkip<T>(s: seq<T>, key: T -> int, k: int, x: T)
    requires |s| > 0 && key(s[0]) != k && IsFirstBy(s[1..], key, k, x)
    ensures IsFirstBy(s, key, k, x)
  {
    var i :| 0 <= i < |s[1..]| && s[1..][i] == x && key(x) == k && forall j :: 0 <= j < i ==> key(s[1..][j]) != k;
    forall j | 0 <= j < i + 1
      ensures key(s[j]) != k
    {
      if j > 0 {
        assert s[j] == s[1..][j - 1];
      }
    }
  }

  /** The first element with a given key is unique. */
  lemma IsFirstByUnique<T>(s: seq<T>, key: T -> int, k: int, x: T, y: T)
    requires IsFirstBy(s, key, k, x) && IsFirstBy(s, key, k, y)
    ensures x == y
  {
    var i :| 0 <= i < |s| && s[i] == x && key(x) == k && forall j :: 0 <= j < i ==> key(s[j]) != k;
    var i' :| 0 <= i' < |s| && s[i'] == y && key(y) == k && forall j :: 0 <= j < i' ==> key(s[j]) != k;
    assert !(i < i') && !(i' < i);
  }

  /** `s.find(y => key(y) === k)`, with `None` for `undefined`. */
  function FindBy<T>(s: seq<T>, key: T -> int, k: int): (r: Option<T>)
    ensures r.None? <==> NoneHasKey(s, key, k)
    ensures r.Some? ==> IsFirstBy(s, key, k, r.value) && r.value in s && key(r.value) == k
  {
    if |s| == 0 then None
    else if key(s[0]) == k then
      Some(s[0])
    else
      var r := FindBy(s[1..], key, k);
      assert s == [s[0]] + s[1..];
      if r.Some? then
        IsFirstBySkip(s, key, k, r.value);
        r
      else
        r
  }

  /** `s.filter(p)`: the elements satisfying `p`, in their order in `s`. */
  function Filter<T(!new)>(s: seq<T>, p: T -> bool): (r: seq<T>)
    ensures |r| <= |s|
    ensures forall x :: x in r <==> x in s && p(x)
  {
    if |s| == 0 then []
    else
      assert s == [s[0]] + s[1..];
      if p(s[0]) then [s[0]] + Filter(s[1..], p) else Filter(s[1..], p)
  }

  /** `s.map(f)`. */
  function Map<T, U>(s: seq<T>, f: T -> U): (r: seq<U>)
    ensures |r| == |s| && forall k :: 0 <= k < |s| ==> r[k] == f(s[k])
  {
    seq(|s|, i requires 0 <= i < |s| => f(s[i]))
  }

  /** A value is in `s.map(f)` exactly when some element of `s` maps to it. */
  lemma MapMembers<T, U>(s: seq<T>, f: T -> U)
    ensures forall y :: y in Map(s, f) <==> exists x :: x in s && f(x) == y
  {
    var r := Map(s, f);
    forall y
      ensures y in r <==> exists x :: x in s && f(x) == y
    {
      if y in r {
        var k :| 0 <= k < |r| && r[k] == y;
        assert s[k] in s && f(s[k]) == y;
      }
      if exists x :: x in s && f(x) == y {
        var x :| x in s && f(x) == y;
        var k :| 0 <= k < |s| && s[k] == x;
        assert r[k] == y;
      }
    }
  }

  /** `r` is the sub-sequence of `s` made of the positions in `chosen`,
      taken in increasing order. */
  ghost predicate OrderedSelection<T>(s: seq<T>, r: seq<T>, chosen: set<int>)
  {
    exists idx: seq<int> ::
      |idx| == |r| &&
      (forall k :: 0 <= k < |idx| ==> 0 <= idx[k] < |s| && r[k] == s[idx[k]]) &&
      (forall k, l :: 0 <= k < l < |idx| ==> idx[k] < idx[l]) &&
      (forall i :: i in chosen <==> i in idx)
  }

  /** The positions `Filter` keeps. */
  function FilterIndices<T(!new)>(s: seq<T>, p: T -> bool): (idx: seq<int>)
  {
    if |s| == 0 then []
    else (if p(s[0]) then [0] else []) + Shift(FilterIndices(s[1..], p))
  }

  function Shift(idx: seq<int>): (r: seq<int>)
  {
    seq(|idx|, k requires 0 <= k < |idx| => idx[k] + 1)
  }

  lemma {:induction false} FilterIndicesPick<T(!new)>(s: seq<T>, p: T -> bool)
    ensures |FilterIndices(s, p)| == |Filter(s, p)|
    ensures forall k :: 0 <= k < |FilterIndices(s, p)| ==>
      0 <= FilterIndices(s, p)[k] < |s| && Filter(s, p)[k] == s[FilterIndices(s, p)[k]]
  {
    if |s| > 0 {
      FilterIndicesPick(s[1..], p);
      var rest := FilterIndices(s[1..], p);
      var fr := Filter(s[1..], p);
      var h := if p(s[0]) then [0] else [];
      var idx := h + Shift(rest);
      forall k | |h| <= k < |idx|
        ensures 0 <= idx[k] < |s| && Filter(s, p)[k] == s[idx[k]]
      {
        assert idx[k] == rest[k - |h|] + 1;
        assert Filter(s, p)[k] == fr[k - |h|];
        assert s[rest[k - |h|] + 1] == s[1..][rest[k - |h|]];
      }
    }
  }

  lemma {:induction false} FilterIndicesIncreasing<T(!new)>(s: seq<T>, p: T -> bool)
    ensures forall k :: 0 <= k < |FilterIndices(s, p)| ==> 0 <= FilterIndices(s, p)[k]
    ensures forall k, l :: 0 <= k < l < |FilterIndices(s, p)| ==> FilterIndices(s, p)[k] < FilterIndices(s, p)[l]
  {
    if |s| > 0 {
      FilterIndicesIncreasing(s[1..], p);
      var rest := FilterIndices(s[1..], p);
      var h := if p(s[0]) then [0] else [];
      var idx := h + Shift(rest);
      assert FilterIndices(s, p) == idx;
      forall k | 0 <= k < |idx|
        ensures 0 <= idx[k] && (k >= |h| ==> idx[k] == rest[k - |h|] + 1) && (k < |h| ==> idx[k] == 0)
      {
        if k >= |h| {
          assert idx[k] == Shift(rest)[k - |h|];
          assert 0 <= rest[k - |h|];
        }
      }
    }
  }

  lemma {:induction false} FilterIndicesExact<T(!new)>(s: seq<T>, p: T -> bool)
    ensures forall i :: i in FilterIndices(s, p) <==> 0 <= i < |s| && p(s[i])
  {
    if |s| > 0 {
      FilterIndicesExact(s[1..], p);
      var rest := FilterIndices(s[1..], p);
      var h := if p(s[0]) then [0] else [];
      forall i
        ensures i in h + Shift(rest) <==> 0 <= i < |s| && p(s[i])
      {
        if i in Shift(rest) {
          var k :| 0 <= k < |rest| && Shift(rest)[k] == i;
          assert rest[k] == i - 1;
          assert rest[k] in rest;
          assert 0 <= rest[k] < |s| - 1;
          assert s[i] == s[1..][i - 1];
        }
        if 0 < i < |s| && p(s[i]) {
          assert s[i] == s[1..][i - 1];
          assert i - 1 in rest;
          var k :| 0 <= k < |rest| && rest[k] == i - 1;
          assert Shift(rest)[k] == i;
        }
      }
    }
  }

  lemma OrderedSelectionIntro<T>(s: seq<T>, r: seq<T>, chosen: set<int>, idx: seq<int>)
    requires |idx| == |r|
    requires forall k :: 0 <= k < |idx| ==> 0 <= idx[k] < |s| && r[k] == s[idx[k]]
    requires forall k, l :: 0 <= k < l < |idx| ==> idx[k] < idx[l]
    requires forall i :: i in chosen <==> i in idx
    ensures OrderedSelection(s, r, chosen)
  {
  }

  /** `Filter` keeps exactly the positions whose element satisfies `p`, in order. */
  lemma FilterSelects<T(!new)>(s: seq<T>, p: T -> bool)
    ensures OrderedSelection(s, Filter(s, p), set i | 0 <= i < |s| && p(s[i]))
  {
    FilterIndicesPick(s, p);
    FilterIndicesIncreasing(s, p);
    FilterIndicesExact(s, p);
    var idx := FilterIndices(s, p);
    var chosen := set i | 0 <= i < |s| && p(s[i]);
    forall i
      ensures i in chosen <==> i in idx
    {
      assert i in idx <==> 0 <= i < |s| && p(s[i]);
    }
    OrderedSelectionIntro(s, Filter(s, p), chosen, idx);
  }

  /** Filtering distributes over concatenation: the order of `s` is kept. */
  lemma {:induction false} FilterAppend<T(!new)>(a: seq<T>, b: seq<T>, p: T -> bool)
    ensures Filter(a + b, p) == Filter(a, p) + Filter(b, p)
  {
    if |a| == 0 {
      assert a + b == b;
    } else {
      assert (a + b)[1..] == a[1..] + b;
      FilterAppend(a[1..], b, p);
    }
  }

  /** Filtering keeps every element iff every element satisfies `p`. */
  lemma {:induction false} FilterKeepsAll<T(!new)>(s: seq<T>, p: T -> bool)
    ensures |Filter(s, p)| == |s| <==> forall x :: x in s ==> p(x)
  {
    if |s| > 0 {
      FilterKeepsAll(s[1..], p);
      assert s == [s[0]] + s[1..];
      assert forall x :: x in s <==> x == s[0] || x in s[1..];
    }
  }

  /** Filtering keeps nothing iff no element satisfies `p`. */
  lemma FilterKeepsNone<T(!new)>(s: seq<T>, p: T -> bool)
    ensures |Filter(s, p)| == 0 <==> forall x :: x in s ==> !p(x)
  {
    var r := Filter(s, p);
    if |r| > 0 {
      assert r[0] in r;
    }
  }

  /** A filter's multiset of elements is contained in the input's. */
  lemma {:induction false} FilterSubMultiset<T(!new)>(s: seq<T>, p: T -> bool)
    ensures multiset(Filter(s, p)) <= multiset(s)
  {
    if |s| > 0 {
      FilterSubMultiset(s[1..], p);
      assert s == [s[0]] + s[1..];
    }
  }

  /** The values of the successful applications of `f` to `s`, in the order
      of `s`: `s.map(f).filter(v => v !== null)`. */
  function FilterMap<T, U>(s: seq<T>, f: T -> Option<U>): (r: seq<U>)
    ensures |r| <= |s|
    ensures (forall k :: 0 <= k < |s| ==> f(s[k]).Some?) ==> |r| == |s|
  {
    if |s| == 0 then []
    else (if f(s[0]).Some? then [f(s[0]).value] else []) + FilterMap(s[1..], f)
  }

  /** A value is kept exactly when some element maps to it. */
  lemma {:induction false} FilterMapMembers<T, U>(s: seq<T>, f: T -> Option<U>, y: U)
    ensures y in FilterMap(s, f) <==> exists k :: 0 <= k < |s| && f(s[k]) == Some(y)
  {
    if |s| > 0 {
      FilterMapMembers(s[1..], f, y);
      if exists k :: 0 <= k < |s| && f(s[k]) == Some(y) {
        var k :| 0 <= k < |s| && f(s[k]) == Some(y);
        if k > 0 {
          assert s[1..][k - 1] == s[k];
        }
      }
      if exists k :: 0 <= k < |s| - 1 && f(s[1..][k]) == Some(y) {
        var k :| 0 <= k < |s| - 1 && f(s[1..][k]) == Some(y);
        assert s[k + 1] == s[1..][k];
      }
    }
  }

  /** FilterMap distributes over concatenation. */
  lemma {:induction false} FilterMapAppend<T, U>(a: seq<T>, b: seq<T>, f: T -> Option<U>)
    ensures FilterMap(a + b, f) == FilterMap(a, f) + FilterMap(b, f)
  {
    if |a| == 0 {
      assert a + b == b;
    } else {
      var ab := a + b;
      assert ab[0] == a[0];
      assert ab[1..] == a[1..] + b;
      FilterMapAppend(a[1..], b, f);
      var h := if f(a[0]).Some? then [f(a[0]).value] else [];
      assert FilterMap(ab, f) == h + FilterMap(ab[1..], f);
      assert FilterMap(a, f) == h + FilterMap(a[1..], f);
      assert FilterMap(ab, f) == h + (FilterMap(a[1..], f) + FilterMap(b, f));
    }
  }
}
