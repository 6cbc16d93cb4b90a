/** Generic sequence operations that the handlers are built from: the
    JavaScript array methods `find`, `filter`, `map`, `reverse`, and the
    `filter(Boolean)` idiom that drops missing values. */
module Seqs {

  datatype Option<T> = None | Some(value: T)

  /** Index of the first element satisfying `p` (what `find` and a query's
      `.first()` locate). */
  function FirstIndex<T>(s: seq<T>, p: T -> bool): (r: Option<nat>)
    ensures r.Some? ==> r.value < |s| && p(s[r.value])
    ensures r.Some? ==> forall j :: 0 <= j < r.value ==> !p(s[j])
    ensures r.None? <==> forall j :: 0 <= j < |s| ==> !p(s[j])
  {
    if |s| == 0 then None
    else if p(s[0]) then Some(0)
    else match FirstIndex(s[1..], p)
      case None => None
      case Some(k) => Some(k + 1)
  }

  /** The elements satisfying `p`, in their original order. */
  function Filter<T(!new)>(s: seq<T>, p: T -> bool): (r: seq<T>)
    ensures |r| <= |s|
    ensures forall x :: x in r <==> x in s && p(x)
  {
    if |s| == 0 then []
    else
      var init, last := s[..|s| - 1], s[|s| - 1];
      assert s == init + [last];
      Filter(init, p) + (if p(last) then [last] else [])
  }

  /** `f` applied to every element, in order. */
  function Map<T, U>(f: T -> U, s: seq<T>): (r: seq<U>)
    ensures |r| == |s|
    ensures forall i :: 0 <= i < |s| ==> r[i] == f(s[i])
  {
    if |s| == 0 then [] else Map(f, s[..|s| - 1]) + [f(s[|s| - 1])]
  }

  function Reverse<T>(s: seq<T>): (r: seq<T>)
    ensures |r| == |s|
    ensures forall i :: 0 <= i < |s| ==> r[i] == s[|s| - 1 - i]
  {
    if |s| == 0 then [] else [s[|s| - 1]] + Reverse(s[..|s| - 1])
  }

  /** The present values, in order: `filter(Boolean)` over possibly-null
      lookups. */
  function Somes<T(!new)>(s: seq<Option<T>>): (r: seq<T>)
    ensures |r| <= |s|
    ensures forall x :: x in r <==> Some(x) in s
  {
    if |s| == 0 then []
    else
      var init, last := s[..|s| - 1], s[|s| - 1];
      assert s == init + [last];
      Somes(init) + (if last.Some? then [last.value] else [])
  }

  /** The positions of the elements satisfying `p`, in increasing order. */
  function FilterIndices<T>(s: seq<T>, p: T -> bool): (idx: seq<nat>)
    ensures forall k :: 0 <= k < |idx| ==> idx[k] < |s| && p(s[idx[k]])
    ensures forall k, l :: 0 <= k < l < |idx| ==> idx[k] < idx[l]
    ensures forall i :: 0 <= i < |s| && p(s[i]) ==> i in idx
  {
    if |s| == 0 then []
    else
      var n := |s| - 1;
      var init := FilterIndices(s[..n], p);
      assert forall k :: 0 <= k < |init| ==> s[..n][init[k]] == s[init[k]];
      init + (if p(s[n]) then [n] else [])
  }

  /** Filtering keeps the passing elements in their original order: the
      k-th element of the result is the element at the k-th passing
      position. */
  lemma {:induction false} FilterOrder<T(!new)>(s: seq<T>, p: T -> bool)
    ensures var r, idx := Filter(s, p), FilterIndices(s, p);
      |r| == |idx| && forall k :: 0 <= k < |idx| ==> r[k] == s[idx[k]]
  {
    if |s| > 0 {
      var n := |s| - 1;
      var init := s[..n];
      assert s == init + [s[n]];
      FilterOrder(init, p);
      var r0, idx0 := Filter(init, p), FilterIndices(init, p);
      assert forall k :: 0 <= k < |idx0| ==> r0[k] == s[idx0[k]] by {
        forall k | 0 <= k < |idx0| ensures r0[k] == s[idx0[k]] {
          assert init[idx0[k]] == s[idx0[k]];
        }
      }
    }
  }

  /** Filtering keeps the multiplicity of every passing element and drops
      every failing one. */
  lemma {:induction false} FilterMultiset<T(!new)>(s: seq<T>, p: T -> bool, x: T)
    ensures multiset(Filter(s, p))[x] == if p(x) then multiset(s)[x] else 0
  {
    if |s| > 0 {
      var init, last := s[..|s| - 1], s[|s| - 1];
      assert s == init + [last];
      FilterMultiset(init, p, x);
    }
  }

  lemma {:induction false} FilterAppend<T(!new)>(a: seq<T>, b: seq<T>, p: T -> bool)
    ensures Filter(a + b, p) == Filter(a, p) + Filter(b, p)
  {
    if |b| == 0 {
      assert a + b == a;
    } else {
      var init, last := b[..|b| - 1], b[|b| - 1];
      var tail := if p(last) then [last] else [];
      assert (a + b)[..|a + b| - 1] == a + init && (a + b)[|a + b| - 1] == last;
      calc {
        Filter(a + b, p);
        Filter(a + init, p) + tail;
        { FilterAppend(a, init, p); }
        Filter(a, p) + Filter(init, p) + tail;
        Filter(a, p) + (Filter(init, p) + tail);
      }
    }
  }

  lemma FilterSingleton<T(!new)>(x: T, p: T -> bool)
    ensures Filter([x], p) == if p(x) then [x] else []
  {
    assert [x][..0] == [];
  }

  lemma FilterCons<T(!new)>(x: T, s: seq<T>, p: T -> bool)
    ensures Filter([x] + s, p) == (if p(x) then [x] else []) + Filter(s, p)
  {
    FilterAppend([x], s, p);
    FilterSingleton(x, p);
  }

  /** Filtering drops everything when no element passes. */
  lemma FilterNone<T(!new)>(s: seq<T>, p: T -> bool)
    requires forall j :: 0 <= j < |s| ==> !p(s[j])
    ensures Filter(s, p) == []
  {
  }

  /** Filtering keeps everything when every element passes. */
  lemma {:induction false} FilterAll<T(!new)>(s: seq<T>, p: T -> bool)
    requires forall i :: 0 <= i < |s| ==> p(s[i])
    ensures Filter(s, p) == s
  {
    if |s| > 0 {
      FilterAll(s[..|s| - 1], p);
      assert s == s[..|s| - 1] + [s[|s| - 1]];
    }
  }

  /** Mapping then filtering on the image is filtering then mapping, when
      the filter only looks at what the map keeps. */
  lemma {:induction false} MapFilterCommute<T(!new), U(!new)>(s: seq<T>, g: T -> U, p: T -> bool, q: U -> bool)
    requires forall x :: p(x) == q(g(x))
    ensures Map(g, Filter(s, p)) == Filter(Map(g, s), q)
  {
    if |s| > 0 {
      var init, last := s[..|s| - 1], s[|s| - 1];
      assert s == init + [last];
      MapFilterCommute(init, g, p, q);
      assert Map(g, s)[..|s| - 1] == Map(g, init);
      MapAppend(g, Filter(init, p), if p(last) then [last] else []);
    }
  }

  lemma MapAppend<T, U>(f: T -> U, a: seq<T>, b: seq<T>)
    ensures Map(f, a + b) == Map(f, a) + Map(f, b)
  {
  }

  /** Mapping twice is mapping with the composition. */
  lemma MapCompose<T, U, V>(f: T -> U, g: U -> V, h: T -> V, s: seq<T>)
    requires forall x :: h(x) == g(f(x))
    ensures Map(g, Map(f, s)) == Map(h, s)
  {
  }

  /** An injective map keeps every multiplicity. */
  lemma {:induction false} MapInjectiveMultiset<T, U>(f: T -> U, s: seq<T>, x: T)
    requires forall a, b :: f(a) == f(b) ==> a == b
    ensures multiset(Map(f, s))[f(x)] == multiset(s)[x]
  {
    if |s| > 0 {
      var init, last := s[..|s| - 1], s[|s| - 1];
      assert s == init + [last];
      MapInjectiveMultiset(f, init, x);
      assert Map(f, s) == Map(f, init) + [f(last)];
    }
  }
}
