/** Ranking of aggregated groups: the stable sort by amount, largest
    first, that `categories.sort((a, b) => b.amount - a.amount)` performs,
    and the `slice(0, topN)` that keeps the head of the ranking. */
module Ranking {
  import opened Types

  /** Amounts never increase along `s`. */
  predicate NonIncreasing(s: seq<SpendingCategory>) {
    forall i, j :: 0 <= i < j < |s| ==> s[i].amount >= s[j].amount
  }

  /** The entries of `s` whose amount is exactly `v`, in their order in
      `s`: a sort is stable when it keeps each of these sequences. */
  function WithAmount(s: seq<SpendingCategory>, v: real): (r: seq<SpendingCategory>)
  {
    if s == [] then []
    else (if s[0].amount == v then [s[0]] else []) + WithAmount(s[1..], v)
  }

  /** Where `c` goes: after the leading entries larger than it, in front
      of the first entry that is not. */
  function InsertPos(c: SpendingCategory, s: seq<SpendingCategory>): (k: nat)
    ensures k <= |s|
    ensures forall i :: 0 <= i < k ==> s[i].amount > c.amount
    ensures k < |s| ==> s[k].amount <= c.amount
  {
    if s == [] || s[0].amount <= c.amount then 0 else 1 + InsertPos(c, s[1..])
  }

  /** `c` placed after every larger entry and before every equal one. */
  function Insert(c: SpendingCategory, s: seq<SpendingCategory>): (r: seq<SpendingCategory>)
    ensures multiset(r) == multiset(s) + multiset{c}
    ensures |r| == |s| + 1
  {
    var k := InsertPos(c, s);
    assert s == s[..k] + s[k..];
    s[..k] + [c] + s[k..]
  }

  /** Inserting into a ranking gives a ranking. */
  lemma InsertSorted(c: SpendingCategory, s: seq<SpendingCategory>)
    requires NonIncreasing(s)
    ensures NonIncreasing(Insert(c, s))
  {
    var k := InsertPos(c, s);
    var r := Insert(c, s);
    assert forall i :: 0 <= i < k ==> r[i] == s[i];
    assert r[k] == c;
    assert forall i :: k < i < |r| ==> r[i] == s[i - 1];
    forall i, j | 0 <= i < j < |r|
      ensures r[i].amount >= r[j].amount
    {
      if j < k {
      } else if j == k {
        assert r[i].amount > c.amount;
      } else if i < k {
        assert s[i].amount >= s[j - 1].amount;
      } else if i == k {
        assert s[k].amount <= c.amount && s[k].amount >= s[j - 1].amount;
      } else {
        assert s[i - 1].amount >= s[j - 1].amount;
      }
    }
  }

  /** The stable sort by amount, largest first: insertion sort that
      inserts each entry in front of the equal entries that follow it. */
  function SortByAmount(s: seq<SpendingCategory>): (r: seq<SpendingCategory>)
    ensures NonIncreasing(r)
    ensures multiset(r) == multiset(s)
    ensures |r| == |s|
  {
    if s == [] then []
    else
      var t := SortByAmount(s[1..]);
      InsertSorted(s[0], t);
      assert s == [s[0]] + s[1..];
      Insert(s[0], t)
  }

  /** Selecting by amount distributes over concatenation. */
  lemma {:induction false} WithAmountConcat(a: seq<SpendingCategory>, b: seq<SpendingCategory>, v: real)
    ensures WithAmount(a + b, v) == WithAmount(a, v) + WithAmount(b, v)
  {
    if a == [] {
      assert a + b == b;
    } else {
      var head := if a[0].amount == v then [a[0]] else [];
      assert (a + b)[0] == a[0];
      assert (a + b)[1..] == a[1..] + b;
      WithAmountConcat(a[1..], b, v);
      assert WithAmount(a + b, v) == head + WithAmount(a[1..] + b, v);
      assert WithAmount(a, v) == head + WithAmount(a[1..], v);
    }
  }

  /** Nothing is selected when no entry has the amount. */
  lemma {:induction false} WithAmountNone(s: seq<SpendingCategory>, v: real)
    requires forall i :: 0 <= i < |s| ==> s[i].amount != v
    ensures WithAmount(s, v) == []
  {
    if s != [] {
      WithAmountNone(s[1..], v);
    }
  }

  /** Inserting keeps the order among equal amounts: `c` lands in front of
      the entries of its own amount and leaves the others' order alone. */
  lemma InsertWithAmount(c: SpendingCategory, s: seq<SpendingCategory>, v: real)
    ensures WithAmount(Insert(c, s), v)
         == (if c.amount == v then [c] else []) + WithAmount(s, v)
  {
    var k := InsertPos(c, s);
    assert s == s[..k] + s[k..];
    assert Insert(c, s) == s[..k] + ([c] + s[k..]);
    SelectAfterLarger(s[..k], c, s[k..], v);
  }

  /** Selecting by amount around an entry placed after larger ones only:
      it comes first among the entries of its own amount. */
  lemma SelectAfterLarger(front: seq<SpendingCategory>, c: SpendingCategory, back: seq<SpendingCategory>, v: real)
    requires forall i :: 0 <= i < |front| ==> front[i].amount > c.amount
    ensures WithAmount(front + ([c] + back), v)
         == (if c.amount == v then [c] else []) + WithAmount(front + back, v)
  {
    var mid := if c.amount == v then [c] else [];
    WithAmountConcat(front, back, v);
    WithAmountSplice(front, c, back, v);
    var wf, wb := WithAmount(front, v), WithAmount(back, v);
    if c.amount == v {
      WithAmountNone(front, v);
    }
    assert wf + (mid + wb) == mid + (wf + wb);
  }

  /** Selecting by amount from `front`, then `c`, then `back`. */
  lemma WithAmountSplice(front: seq<SpendingCategory>, c: SpendingCategory, back: seq<SpendingCategory>, v: real)
    ensures WithAmount(front + ([c] + back), v)
         == WithAmount(front, v) + ((if c.amount == v then [c] else []) + WithAmount(back, v))
  {
    WithAmountConcat(front, [c] + back, v);
    assert ([c] + back)[0] == c && ([c] + back)[1..] == back;
  }

  /** The sort is stable: the entries of any one amount come out in the
      order they went in. */
  lemma {:induction false} SortStable(s: seq<SpendingCategory>, v: real)
    ensures WithAmount(SortByAmount(s), v) == WithAmount(s, v)
  {
    if s != [] {
      SortStable(s[1..], v);
      InsertWithAmount(s[0], SortByAmount(s[1..]), v);
    }
  }

  /** The length `slice(0, n)` keeps of a sequence of length `len`: a
      negative `n` counts from the end. */
  function SliceLength(n: int, len: nat): (k: nat)
    ensures k <= len
    ensures n >= 0 ==> k == (if n < len then n else len)
    ensures n < 0 ==> k == (if len + n > 0 then len + n else 0)
  {
    if n >= 0 then (if n < len then n else len)
    else if len + n > 0 then len + n else 0
  }

  /** `s.slice(0, n)`. */
  function Take<T>(s: seq<T>, n: int): (r: seq<T>)
    ensures |r| == SliceLength(n, |s|)
    ensures forall i :: 0 <= i < |r| ==> r[i] == s[i]
  {
    s[..SliceLength(n, |s|)]
  }

  /** The first entry of a ranking is at least as large as every entry. */
  lemma HeadDominates(s: seq<SpendingCategory>, j: int)
    requires NonIncreasing(s) && 0 <= j < |s|
    ensures s[0].amount >= s[j].amount
  {
    if j > 0 {
      assert s[0].amount >= s[j].amount;
    }
  }

  /** Keeping the head of a ranking keeps the largest entries: each kept
      entry is at least as large as each dropped one. */
  lemma TakeKeepsLargest(s: seq<SpendingCategory>, n: int, i: int, j: int)
    requires NonIncreasing(s)
    requires 0 <= i < |Take(s, n)| <= j < |s|
    ensures Take(s, n)[i].amount >= s[j].amount
  {
    assert Take(s, n)[i] == s[i];
  }

  /** An entry of a ranking that the head leaves out is no larger than
      any entry the head keeps, and the head is shorter than the ranking. */
  lemma TakeLeavesSmaller(s: seq<SpendingCategory>, n: int, c: SpendingCategory)
    requires NonIncreasing(s) && c in s && c !in Take(s, n)
    ensures |Take(s, n)| < |s|
    ensures forall d :: d in Take(s, n) ==> d.amount >= c.amount
  {
    var r := Take(s, n);
    var m :| 0 <= m < |s| && s[m] == c;
    forall d | d in r
      ensures d.amount >= c.amount
    {
      var i :| 0 <= i < |r| && r[i] == d;
      TakeKeepsLargest(s, n, i, m);
    }
  }
}
