/** Order-preserving selection over sequences: JavaScript's
    `Array.prototype.filter` and the `map`-then-drop-`null` idiom. */
module Seqs {
  import opened Wrappers

  /** The elements of `s` satisfying `p`, in their original order. */
  function Filter<T(!new)>(s: seq<T>, p: T -> bool): (r: seq<T>)
    ensures |r| <= |s|
    ensures forall x :: x in r <==> x in s && p(x)
  {
    if s == [] then [] else (if p(s[0]) then [s[0]] else []) + Filter(s[1..], p)
  }

  /** Filtering distributes over concatenation, so it keeps the relative
      order of the elements it keeps. */
  lemma {:induction false} FilterConcat<T(!new)>(a: seq<T>, b: seq<T>, p: T -> bool)
    ensures Filter(a + b, p) == Filter(a, p) + Filter(b, p)
  {
    if a == [] {
      assert a + b == b;
    } else {
      assert (a + b)[1..] == a[1..] + b;
      FilterConcat(a[1..], b, p);
    }
  }

  /** Filtering one element keeps it exactly when it satisfies `p`. */
  lemma FilterOne<T(!new)>(x: T, p: T -> bool)
    ensures Filter([x], p) == if p(x) then [x] else []
  {
    assert [x][1..] == [];
  }

  /** Filtering with a predicate that holds everywhere on `s` keeps `s`. */
  lemma {:induction false} FilterAll<T(!new)>(s: seq<T>, p: T -> bool)
    requires forall x :: x in s ==> p(x)
    ensures Filter(s, p) == s
  {
    if s != [] {
      FilterAll(s[1..], p);
    }
  }

  /** Filtering with a predicate that holds nowhere on `s` keeps nothing. */
  lemma {:induction false} FilterNone<T(!new)>(s: seq<T>, p: T -> bool)
    requires forall i :: 0 <= i < |s| ==> !p(s[i])
    ensures Filter(s, p) == []
  {
    if s != [] {
      assert !p(s[0]);
      FilterNone(s[1..], p);
    }
  }

  /** `f` strictly increases along `s`. */
  predicate IncreasingBy<T>(s: seq<T>, f: T -> int) {
    forall i, j :: 0 <= i < j < |s| ==> f(s[i]) < f(s[j])
  }

  /** Filtering keeps an order the elements were in. */
  lemma {:induction false} FilterIncreasing<T(!new)>(s: seq<T>, p: T -> bool, f: T -> int)
    requires IncreasingBy(s, f)
    ensures IncreasingBy(Filter(s, p), f)
  {
    if s != [] {
      var rest := Filter(s[1..], p);
      FilterIncreasing(s[1..], p, f);
      assert IncreasingBy(s[1..], f);
      if p(s[0]) {
        var r := [s[0]] + rest;
        forall j | 1 <= j < |r|
          ensures f(r[0]) < f(r[j])
        {
          assert rest[j - 1] in s[1..];
          var k :| 0 <= k < |s[1..]| && s[1..][k] == rest[j - 1];
          assert s[k + 1] == r[j];
        }
        assert IncreasingBy(r, f);
      } else {
        assert Filter(s, p) == rest;
      }
    }
  }

  /** The position of the first element satisfying `p`, or `|s|` when
      there is none. */
  function FirstIndex<T>(s: seq<T>, p: T -> bool): (k: nat)
    ensures k <= |s|
  {
    if s == [] then 0
    else
      var n := |s| - 1;
      var k := FirstIndex(s[..n], p);
      if k < n then k else if p(s[n]) then n else |s|
  }

  /** `FirstIndex` finds the first match: the element there satisfies `p`
      and none before it does. */
  lemma {:induction false} FirstIndexFirst<T>(s: seq<T>, p: T -> bool)
    ensures var k := FirstIndex(s, p);
      && (k < |s| ==> p(s[k]))
      && forall j :: 0 <= j < k ==> !p(s[j])
  {
    if s != [] {
      var n := |s| - 1;
      var init := s[..n];
      FirstIndexFirst(init, p);
      assert forall j :: 0 <= j < n ==> init[j] == s[j];
    }
  }

  /** One more element leaves a match where it is. */
  lemma FirstIndexSnoc<T>(s: seq<T>, x: T, p: T -> bool)
    ensures FirstIndex(s + [x], p)
         == if FirstIndex(s, p) < |s| then FirstIndex(s, p) else if p(x) then |s| else |s| + 1
  {
    assert (s + [x])[..|s|] == s;
  }

  /** `s.map(f).filter(x => x !== null)`: the present results of `f`, in
      the order of the elements that produced them. */
  function FilterMap<A, B(!new)>(s: seq<A>, f: A -> Option<B>): (r: seq<B>)
    ensures |r| <= |s|
    ensures forall y :: y in r <==> exists i :: 0 <= i < |s| && f(s[i]) == Some(y)
  {
    if s == [] then []
    else
      var rest := FilterMap(s[1..], f);
      assert forall y :: (exists i :: 0 <= i < |s[1..]| && f(s[1..][i]) == Some(y))
                      <==> (exists i :: 1 <= i < |s| && f(s[i]) == Some(y));
      (match f(s[0]) case Some(y) => [y] case None => []) + rest
  }

  /** Every kept result has a property that every present result of `f`
      on the elements has. */
  lemma FilterMapKeeps<A, B(!new)>(s: seq<A>, f: A -> Option<B>, p: B -> bool)
    requires forall i :: 0 <= i < |s| && f(s[i]).Some? ==> p(f(s[i]).value)
    ensures forall y :: y in FilterMap(s, f) ==> p(y)
  {
    forall y | y in FilterMap(s, f)
      ensures p(y)
    {
      var i :| 0 <= i < |s| && f(s[i]) == Some(y);
    }
  }

  /** When `f` has no result for any element, nothing is kept. */
  lemma {:induction false} FilterMapNone<A, B(!new)>(s: seq<A>, f: A -> Option<B>)
    requires forall i :: 0 <= i < |s| ==> f(s[i]).None?
    ensures FilterMap(s, f) == []
  {
    if s != [] {
      assert f(s[0]).None?;
      FilterMapNone(s[1..], f);
    }
  }

  /** Mapping-and-dropping distributes over concatenation. */
  lemma {:induction false} FilterMapConcat<A, B(!new)>(a: seq<A>, b: seq<A>, f: A -> Option<B>)
    ensures FilterMap(a + b, f) == FilterMap(a, f) + FilterMap(b, f)
  {
    if a == [] {
      assert a + b == b;
    } else {
      assert (a + b)[1..] == a[1..] + b;
      FilterMapConcat(a[1..], b, f);
    }
  }

  /** `s.map(f)`. */
  function Map<A, B>(f: A -> B, s: seq<A>): (r: seq<B>)
    ensures |r| == |s|
    ensures forall i :: 0 <= i < |s| ==> r[i] == f(s[i])
  {
    if |s| == 0 then [] else [f(s[0])] + Map(f, s[1..])
  }
}
