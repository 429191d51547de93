/**
 * The `Array.prototype` operations the blog queries are built from
 * (`filter`, `find` and `slice` with a start of 0), as functions on
 * sequences. None of them changes its argument: each returns a new value.
 */
module JsArray {
  import opened Wrappers

  /** `s.filter(f)`: the elements of `s` that satisfy `f`, in their original order. */
  function Filter<T(!new)>(s: seq<T>, f: T -> bool): (r: seq<T>)
    ensures |r| <= |s|
    ensures forall x :: x in r <==> x in s && f(x)
  {
    if s == [] then []
    else
      assert s == [s[0]] + s[1..];
      (if f(s[0]) then [s[0]] else []) + Filter(s[1..], f)
  }

  /** `Filter` decides on the first element, then filters the rest. */
  lemma FilterCons<T(!new)>(x: T, s: seq<T>, f: T -> bool)
    ensures Filter([x] + s, f) == (if f(x) then [x] else []) + Filter(s, f)
  {
    assert ([x] + s)[0] == x && ([x] + s)[1..] == s;
  }

  /** `Filter` keeps every element that satisfies `f` as many times as `s` holds it, and drops the others. */
  lemma {:induction false} FilterCount<T(!new)>(s: seq<T>, f: T -> bool)
    ensures forall x :: multiset(Filter(s, f))[x] == if f(x) then multiset(s)[x] else 0
  {
    if s != [] {
      FilterCount(s[1..], f);
      assert s == [s[0]] + s[1..];
    }
  }

  /** Nothing is left when no element satisfies `f`. */
  lemma {:induction false} FilterNone<T(!new)>(s: seq<T>, f: T -> bool)
    requires forall x :: x in s ==> !f(x)
    ensures Filter(s, f) == []
  {
    if s != [] {
      FilterNone(s[1..], f);
    }
  }

  /** Filtering twice keeps the same elements, in the same order, as filtering once by the conjunction. */
  lemma {:induction false} FilterTwice<T(!new)>(s: seq<T>, f: T -> bool, g: T -> bool, h: T -> bool)
    requires forall x :: h(x) == (f(x) && g(x))
    ensures Filter(Filter(s, f), g) == Filter(s, h)
  {
    if s != [] {
      var rest := Filter(s[1..], f);
      FilterTwice(s[1..], f, g, h);
      if f(s[0]) {
        var fs := [s[0]] + rest;
        assert fs[0] == s[0] && fs[1..] == rest;
        calc {
          Filter(Filter(s, f), g);
          Filter(fs, g);
          (if g(s[0]) then [s[0]] else []) + Filter(rest, g);
          (if h(s[0]) then [s[0]] else []) + Filter(s[1..], h);
          Filter(s, h);
        }
      } else {
        calc {
          Filter(Filter(s, f), g);
          { assert Filter(s, f) == [] + rest; assert [] + rest == rest; }
          Filter(rest, g);
          Filter(s, h);
        }
      }
    }
  }

  /** Filtering a concatenation filters each part. */
  lemma {:induction false} FilterAppend<T(!new)>(a: seq<T>, b: seq<T>, f: T -> bool)
    ensures Filter(a + b, f) == Filter(a, f) + Filter(b, f)
  {
    if a == [] {
      assert a + b == b;
    } else {
      var ab := a + b;
      assert ab[0] == a[0];
      assert ab[1..] == a[1..] + b;
      var head := if f(a[0]) then [a[0]] else [];
      calc {
        Filter(ab, f);
        head + Filter(a[1..] + b, f);
        { FilterAppend(a[1..], b, f); }
        head + (Filter(a[1..], f) + Filter(b, f));
        (head + Filter(a[1..], f)) + Filter(b, f);
      }
    }
  }

  /**
   * `s.find(f)`: the first element of `s` that satisfies `f`, or `None`
   * (the source's `undefined`) when there is none.
   */
  function Find<T>(s: seq<T>, f: T -> bool): (r: Option<T>)
    ensures r.None? <==> forall i :: 0 <= i < |s| ==> !f(s[i])
    ensures r.Some? ==> exists i :: 0 <= i < |s| && s[i] == r.value && f(s[i]) && forall j :: 0 <= j < i ==> !f(s[j])
  {
    if s == [] then None
    else if f(s[0]) then Some(s[0])
    else
      var r := Find(s[1..], f);
      assert r.None? <==> forall i :: 1 <= i < |s| ==> !f(s[i]) by {
        assert forall i :: 1 <= i < |s| ==> s[i] == s[1..][i - 1];
      }
      assert r.Some? ==> exists i :: 1 <= i < |s| && s[i] == r.value && f(s[i]) && forall j :: 0 <= j < i ==> !f(s[j]) by {
        if r.Some? {
          var i :| 0 <= i < |s| - 1 && s[1..][i] == r.value && f(s[1..][i]) && forall j :: 0 <= j < i ==> !f(s[1..][j]);
          assert s[i + 1] == r.value;
          assert forall j :: 1 <= j < i + 1 ==> !f(s[j]) by {
            forall j | 1 <= j < i + 1 ensures !f(s[j]) { assert s[j] == s[1..][j - 1]; }
          }
        }
      }
      r
  }

  /** The first element satisfying `f` is the only one when at most one element does. */
  lemma FindUnique<T>(s: seq<T>, f: T -> bool, k: nat)
    requires k < |s| && f(s[k])
    requires forall i :: 0 <= i < |s| && f(s[i]) ==> s[i] == s[k]
    ensures Find(s, f) == Some(s[k])
  {
  }

  /**
   * The index at which `slice(0, end)` stops on a sequence of length `n`: as
   * many elements as possible up to `end` when `end` is not negative, and
   * `-end` elements fewer than `n` (but not below zero) when it is.
   */
  function SliceEnd(n: nat, end: int): (k: nat)
    ensures k <= n
    ensures 0 <= end ==> k <= end && (k < end ==> k == n)
    ensures end < 0 ==> k == n + end || (k == 0 && n + end < 0)
  {
    if end < 0 then (if n + end < 0 then 0 else n + end)
    else if end < n then end else n
  }

  /** `s.slice(0, end)`: the prefix of `s` that stops at `SliceEnd(|s|, end)`. */
  function SliceTo<T>(s: seq<T>, end: int): (r: seq<T>)
    ensures |r| == SliceEnd(|s|, end) && r == s[..|r|]
    ensures forall x :: x in r ==> x in s
  {
    s[..SliceEnd(|s|, end)]
  }
}
