/** Aggregation of YNAB register rows into spending groups
    (`aggregateTransactions`): group by payee or by category, skip blank
    and excluded keys, sum the outflow and count the rows of each group,
    keep the groups of at least `minAmount`, rank them by amount and keep
    the first `topN`. Also the plain total (`getTotalSpending`). */
module Aggregator {
  import opened Wrappers
  import opened Text
  import opened Types
  import opened Dates
  import opened Ranges
  import opened Ranking
  import Seqs

  /** What a group is keyed on. */
  datatype Mode = Retailer | Category

  /** `AggregationOptions`; an absent option takes its default. */
  datatype AggregationOptions = AggregationOptions(
    mode: Mode,
    topN: Option<int>,
    minAmount: Option<real>,
    dateRange: Option<DateRange>,
    excludeNames: Option<seq<string>>)

  const DefaultTopN: int := 10
  const DefaultMinAmount: real := 0.0

  function TopN(opts: AggregationOptions): int {
    opts.topN.GetOr(DefaultTopN)
  }

  function MinAmount(opts: AggregationOptions): real {
    opts.minAmount.GetOr(DefaultMinAmount)
  }

  function Excluded(opts: AggregationOptions): seq<string> {
    opts.excludeNames.GetOr([])
  }

  /** `getTotalSpending`: the outflow summed in list order. */
  function TotalSpending(ts: seq<YNABTransaction>): (r: real)
    ensures ts == [] ==> r == 0.0
    ensures (forall i :: 0 <= i < |ts| ==> ts[i].outflow >= 0.0) ==> r >= 0.0
  {
    if ts == [] then 0.0 else TotalSpending(ts[..|ts| - 1]) + ts[|ts| - 1].outflow
  }

  /** The total of a concatenation is the sum of the totals. */
  lemma {:induction false} TotalSpendingConcat(a: seq<YNABTransaction>, b: seq<YNABTransaction>)
    ensures TotalSpending(a + b) == TotalSpending(a) + TotalSpending(b)
  {
    if b != [] {
      var n := |b| - 1;
      assert (a + b)[..|a + b| - 1] == a + b[..n];
      assert (a + b)[|a + b| - 1] == b[n];
      TotalSpendingConcat(a, b[..n]);
    } else {
      assert a + b == a;
    }
  }

  /** The total of one more row. */
  lemma TotalSpendingSnoc(a: seq<YNABTransaction>, t: YNABTransaction)
    ensures TotalSpending(a + [t]) == TotalSpending(a) + t.outflow
  {
    assert (a + [t])[..|a|] == a;
  }

  /** The grouping key of a row: its payee or its category. */
  function KeyOf(t: YNABTransaction, mode: Mode): string {
    match mode
    case Retailer => t.payee
    case Category => t.category
  }

  /** A row that joins a group: its key is neither blank nor excluded. */
  predicate Counted(t: YNABTransaction, mode: Mode, exclude: seq<string>) {
    !IsBlank(KeyOf(t, mode)) && KeyOf(t, mode) !in exclude
  }

  /** The rows of `ts` in the group of `key`, in list order. */
  function Members(ts: seq<YNABTransaction>, mode: Mode, exclude: seq<string>, key: string): seq<YNABTransaction> {
    if ts == [] then []
    else
      var t := ts[|ts| - 1];
      Members(ts[..|ts| - 1], mode, exclude, key)
        + (if Counted(t, mode, exclude) && KeyOf(t, mode) == key then [t] else [])
  }

  /** What one more row does to the members of a group. */
  lemma MembersSnoc(ts: seq<YNABTransaction>, t: YNABTransaction, mode: Mode, exclude: seq<string>, key: string)
    ensures Members(ts + [t], mode, exclude, key)
         == Members(ts, mode, exclude, key) + (if Counted(t, mode, exclude) && KeyOf(t, mode) == key then [t] else [])
  {
    assert (ts + [t])[..|ts|] == ts;
  }

  /** A group has no members when no row is counted under its key. */
  lemma {:induction false} MembersNone(ts: seq<YNABTransaction>, mode: Mode, exclude: seq<string>, key: string)
    requires forall j :: 0 <= j < |ts| ==> !(Counted(ts[j], mode, exclude) && KeyOf(ts[j], mode) == key)
    ensures Members(ts, mode, exclude, key) == []
  {
    if ts != [] {
      MembersNone(ts[..|ts| - 1], mode, exclude, key);
    }
  }

  /** No two groups share a name. */
  predicate DistinctNames(g: seq<SpendingCategory>) {
    forall i, j :: 0 <= i < j < |g| ==> g[i].name != g[j].name
  }

  /** The position of the group named `key`, or -1. */
  function FindName(g: seq<SpendingCategory>, key: string): (i: int)
    ensures -1 <= i < |g|
    ensures i >= 0 ==> g[i].name == key
    ensures i < 0 ==> forall k :: 0 <= k < |g| ==> g[k].name != key
  {
    if g == [] then -1
    else if g[|g| - 1].name == key then |g| - 1
    else FindName(g[..|g| - 1], key)
  }

  /** `grouped.set(key, { total: existing.total + x, count: existing.count + 1 })`:
      a known key is updated where it stands, a new key goes last, as in
      a `Map`'s insertion order. */
  function AddTo(g: seq<SpendingCategory>, key: string, x: real): (r: seq<SpendingCategory>)
    ensures FindName(g, key) < 0 ==> r == g + [SpendingCategory(key, x, 1)]
    ensures FindName(g, key) >= 0 ==>
      && |r| == |g|
      && r[FindName(g, key)] == SpendingCategory(key, g[FindName(g, key)].amount + x, g[FindName(g, key)].transactionCount + 1)
    ensures forall k :: 0 <= k < |g| && g[k].name != key ==> r[k] == g[k]
  {
    var i := FindName(g, key);
    if i < 0 then g + [SpendingCategory(key, x, 1)]
    else g[i := SpendingCategory(key, g[i].amount + x, g[i].transactionCount + 1)]
  }

  /** The groups after visiting the rows of `ts` in order. */
  function Group(ts: seq<YNABTransaction>, mode: Mode, exclude: seq<string>): (r: seq<SpendingCategory>)
    ensures |r| <= |ts|
    ensures forall i :: 0 <= i < |r| ==> r[i].transactionCount >= 1
  {
    if ts == [] then []
    else
      var g := Group(ts[..|ts| - 1], mode, exclude);
      var t := ts[|ts| - 1];
      if Counted(t, mode, exclude) then AddTo(g, KeyOf(t, mode), t.outflow) else g
  }

  /** A group holds exactly its members: the sum of their outflow and
      their number, at least one. */
  predicate Summarises(c: SpendingCategory, ts: seq<YNABTransaction>, mode: Mode, exclude: seq<string>) {
    var m := Members(ts, mode, exclude, c.name);
    c.amount == TotalSpending(m) && c.transactionCount == |m| && |m| >= 1
  }

  /** Every group summarises its members. */
  predicate AllSummarise(g: seq<SpendingCategory>, ts: seq<YNABTransaction>, mode: Mode, exclude: seq<string>) {
    forall i :: 0 <= i < |g| ==> Summarises(g[i], ts, mode, exclude)
  }

  /** Every counted row has a group. */
  predicate Complete(g: seq<SpendingCategory>, ts: seq<YNABTransaction>, mode: Mode, exclude: seq<string>) {
    forall j :: 0 <= j < |ts| && Counted(ts[j], mode, exclude) ==> FindName(g, KeyOf(ts[j], mode)) >= 0
  }

  /** The grouping invariant. */
  predicate Agrees(g: seq<SpendingCategory>, ts: seq<YNABTransaction>, mode: Mode, exclude: seq<string>) {
    DistinctNames(g) && AllSummarise(g, ts, mode, exclude) && Complete(g, ts, mode, exclude)
  }

  /** A row outside a group leaves its summary as it is. */
  lemma SummarisesSkip(c: SpendingCategory, ts: seq<YNABTransaction>, t: YNABTransaction, mode: Mode, exclude: seq<string>)
    requires Summarises(c, ts, mode, exclude)
    requires !(Counted(t, mode, exclude) && KeyOf(t, mode) == c.name)
    ensures Summarises(c, ts + [t], mode, exclude)
  {
    MembersSnoc(ts, t, mode, exclude, c.name);
    var m := Members(ts, mode, exclude, c.name);
    assert m + [] == m;
  }

  /** A row of a group adds its outflow and one to the count. */
  lemma SummarisesAdd(c: SpendingCategory, ts: seq<YNABTransaction>, t: YNABTransaction, mode: Mode, exclude: seq<string>)
    requires Summarises(c, ts, mode, exclude)
    requires Counted(t, mode, exclude) && KeyOf(t, mode) == c.name
    ensures Summarises(SpendingCategory(c.name, c.amount + t.outflow, c.transactionCount + 1), ts + [t], mode, exclude)
  {
    MembersSnoc(ts, t, mode, exclude, c.name);
    TotalSpendingSnoc(Members(ts, mode, exclude, c.name), t);
  }

  /** The first row of a group makes a group of one. */
  lemma SummarisesFirst(ts: seq<YNABTransaction>, t: YNABTransaction, mode: Mode, exclude: seq<string>)
    requires Counted(t, mode, exclude)
    requires forall j :: 0 <= j < |ts| ==> !(Counted(ts[j], mode, exclude) && KeyOf(ts[j], mode) == KeyOf(t, mode))
    ensures Summarises(SpendingCategory(KeyOf(t, mode), t.outflow, 1), ts + [t], mode, exclude)
  {
    var key := KeyOf(t, mode);
    MembersSnoc(ts, t, mode, exclude, key);
    MembersNone(ts, mode, exclude, key);
    TotalSpendingSnoc([], t);
    assert [] + [t] == [t];
  }

  /** Every group summarises its members. */
  lemma SkipAll(g: seq<SpendingCategory>, ts: seq<YNABTransaction>, t: YNABTransaction, mode: Mode, exclude: seq<string>)
    requires AllSummarise(g, ts, mode, exclude) && !Counted(t, mode, exclude)
    ensures AllSummarise(g, ts + [t], mode, exclude)
  {
    forall i | 0 <= i < |g|
      ensures Summarises(g[i], ts + [t], mode, exclude)
    {
      SummarisesSkip(g[i], ts, t, mode, exclude);
    }
  }

  /** A counted row whose group exists. */
  lemma UpdateAll(g: seq<SpendingCategory>, ts: seq<YNABTransaction>, t: YNABTransaction, mode: Mode, exclude: seq<string>)
    requires DistinctNames(g) && AllSummarise(g, ts, mode, exclude) && Counted(t, mode, exclude)
    requires FindName(g, KeyOf(t, mode)) >= 0
    ensures AllSummarise(AddTo(g, KeyOf(t, mode), t.outflow), ts + [t], mode, exclude)
  {
    var key := KeyOf(t, mode);
    var i := FindName(g, key);
    var r := AddTo(g, key, t.outflow);
    forall l | 0 <= l < |r|
      ensures Summarises(r[l], ts + [t], mode, exclude)
    {
      if l == i {
        SummarisesAdd(g[i], ts, t, mode, exclude);
      } else {
        assert r[l] == g[l];
        SummarisesSkip(g[l], ts, t, mode, exclude);
      }
    }
  }

  /** A counted row whose group does not exist yet. */
  lemma OpenAll(g: seq<SpendingCategory>, ts: seq<YNABTransaction>, t: YNABTransaction, mode: Mode, exclude: seq<string>)
    requires AllSummarise(g, ts, mode, exclude) && Complete(g, ts, mode, exclude) && Counted(t, mode, exclude)
    requires FindName(g, KeyOf(t, mode)) < 0
    ensures AllSummarise(AddTo(g, KeyOf(t, mode), t.outflow), ts + [t], mode, exclude)
  {
    var key := KeyOf(t, mode);
    var r := AddTo(g, key, t.outflow);
    assert r == g + [SpendingCategory(key, t.outflow, 1)];
    forall l | 0 <= l < |r|
      ensures Summarises(r[l], ts + [t], mode, exclude)
    {
      if l == |g| {
        forall j | 0 <= j < |ts|
          ensures !(Counted(ts[j], mode, exclude) && KeyOf(ts[j], mode) == key)
        {
        }
        SummarisesFirst(ts, t, mode, exclude);
      } else {
        assert r[l] == g[l];
        SummarisesSkip(g[l], ts, t, mode, exclude);
      }
    }
  }

  /** Adding to a group keeps the names distinct and every name found. */
  lemma AddToNames(g: seq<SpendingCategory>, key: string, x: real)
    requires DistinctNames(g)
    ensures DistinctNames(AddTo(g, key, x))
    ensures FindName(AddTo(g, key, x), key) >= 0
    ensures forall k :: 0 <= k < |g| ==> AddTo(g, key, x)[k].name == g[k].name
    ensures FindName(g, key) >= 0 ==> |AddTo(g, key, x)| == |g|
    ensures FindName(g, key) < 0 ==> AddTo(g, key, x) == g + [SpendingCategory(key, x, 1)]
  {
    var r := AddTo(g, key, x);
    if FindName(g, key) < 0 {
      assert r[|g|].name == key;
    } else {
      assert r[FindName(g, key)].name == key;
    }
  }

  /** A name found before adding to the groups is found after. */
  lemma FoundAfterAdd(g: seq<SpendingCategory>, key: string, x: real, name: string)
    requires DistinctNames(g) && FindName(g, name) >= 0
    ensures FindName(AddTo(g, key, x), name) >= 0
  {
    AddToNames(g, key, x);
    var k := FindName(g, name);
    assert AddTo(g, key, x)[k].name == name;
  }

  /** Names found before are found after adding. */
  lemma CompleteAdd(g: seq<SpendingCategory>, ts: seq<YNABTransaction>, t: YNABTransaction, mode: Mode, exclude: seq<string>)
    requires DistinctNames(g) && Complete(g, ts, mode, exclude) && Counted(t, mode, exclude)
    ensures Complete(AddTo(g, KeyOf(t, mode), t.outflow), ts + [t], mode, exclude)
  {
    var key := KeyOf(t, mode);
    var r := AddTo(g, key, t.outflow);
    AddToNames(g, key, t.outflow);
    forall j | 0 <= j < |ts + [t]| && Counted((ts + [t])[j], mode, exclude)
      ensures FindName(r, KeyOf((ts + [t])[j], mode)) >= 0
    {
      if j < |ts| {
        assert (ts + [t])[j] == ts[j];
        FoundAfterAdd(g, key, t.outflow, KeyOf(ts[j], mode));
      } else {
        assert (ts + [t])[j] == t;
      }
    }
  }

  /** Names found before are still found after a skipped row. */
  lemma CompleteSkip(g: seq<SpendingCategory>, ts: seq<YNABTransaction>, t: YNABTransaction, mode: Mode, exclude: seq<string>)
    requires Complete(g, ts, mode, exclude) && !Counted(t, mode, exclude)
    ensures Complete(g, ts + [t], mode, exclude)
  {
    forall j | 0 <= j < |ts + [t]| && Counted((ts + [t])[j], mode, exclude)
      ensures FindName(g, KeyOf((ts + [t])[j], mode)) >= 0
    {
      assert j < |ts| && (ts + [t])[j] == ts[j];
    }
  }

  /** Grouping keeps its invariant: distinct names, exact sums and
      counts, and a group for every counted row. */
  lemma {:induction false} GroupAgrees(ts: seq<YNABTransaction>, mode: Mode, exclude: seq<string>)
    ensures Agrees(Group(ts, mode, exclude), ts, mode, exclude)
  {
    if ts != [] {
      var init, t := ts[..|ts| - 1], ts[|ts| - 1];
      assert ts == init + [t];
      GroupAgrees(init, mode, exclude);
      var g := Group(init, mode, exclude);
      if !Counted(t, mode, exclude) {
        SkipAll(g, init, t, mode, exclude);
        CompleteSkip(g, init, t, mode, exclude);
      } else {
        if FindName(g, KeyOf(t, mode)) >= 0 {
          UpdateAll(g, init, t, mode, exclude);
        } else {
          OpenAll(g, init, t, mode, exclude);
        }
        AddToNames(g, KeyOf(t, mode), t.outflow);
        CompleteAdd(g, init, t, mode, exclude);
      }
    }
  }

  /** A member of a group is a counted row with the group's key. */
  lemma {:induction false} MembersCounted(ts: seq<YNABTransaction>, mode: Mode, exclude: seq<string>, key: string, x: YNABTransaction)
    requires x in Members(ts, mode, exclude, key)
    ensures Counted(x, mode, exclude) && KeyOf(x, mode) == key
    ensures x in ts
  {
    var init, t := ts[..|ts| - 1], ts[|ts| - 1];
    if x in Members(init, mode, exclude, key) {
      MembersCounted(init, mode, exclude, key, x);
    } else {
      assert x == t;
    }
  }

  /** Blank and excluded keys collect no rows. */
  lemma MembersOfSkippedKey(ts: seq<YNABTransaction>, mode: Mode, exclude: seq<string>, key: string)
    requires IsBlank(key) || key in exclude
    ensures Members(ts, mode, exclude, key) == []
  {
    if Members(ts, mode, exclude, key) != [] {
      MembersCounted(ts, mode, exclude, key, Members(ts, mode, exclude, key)[0]);
    }
  }

  /** A row counted under key `key`. */
  predicate Hit(t: YNABTransaction, mode: Mode, exclude: seq<string>, key: string) {
    Counted(t, mode, exclude) && KeyOf(t, mode) == key
  }

  /** `Hit` as a value. */
  function HitOf(mode: Mode, exclude: seq<string>, key: string): YNABTransaction -> bool {
    t => Hit(t, mode, exclude, key)
  }

  /** The position of the first counted row with key `key`, or `|ts|`. */
  function FirstAt(ts: seq<YNABTransaction>, mode: Mode, exclude: seq<string>, key: string): nat {
    Seqs.FirstIndex(ts, HitOf(mode, exclude, key))
  }

  /** The first occurrence of a group's key, as a ranking key. */
  function FirstOf(ts: seq<YNABTransaction>, mode: Mode, exclude: seq<string>): SpendingCategory -> int {
    (c: SpendingCategory) => FirstAt(ts, mode, exclude, c.name)
  }

  /** A group with members has its first occurrence inside the list, and
      keeps it when a row is added. */
  lemma FirstKept(c: SpendingCategory, ts: seq<YNABTransaction>, t: YNABTransaction, mode: Mode, exclude: seq<string>)
    requires Summarises(c, ts, mode, exclude)
    ensures FirstAt(ts, mode, exclude, c.name) < |ts|
    ensures FirstAt(ts + [t], mode, exclude, c.name) == FirstAt(ts, mode, exclude, c.name)
  {
    Seqs.FirstIndexFirst(ts, HitOf(mode, exclude, c.name));
    Seqs.FirstIndexSnoc(ts, t, HitOf(mode, exclude, c.name));
    if FirstAt(ts, mode, exclude, c.name) == |ts| {
      MembersNone(ts, mode, exclude, c.name);
    }
  }

  /** Groups appear in the order their keys first occur. */
  predicate FirstOrdered(g: seq<SpendingCategory>, ts: seq<YNABTransaction>, mode: Mode, exclude: seq<string>) {
    forall i, j :: 0 <= i < j < |g| ==> FirstAt(ts, mode, exclude, g[i].name) < FirstAt(ts, mode, exclude, g[j].name)
  }

  /** The first occurrences of existing groups do not move. */
  lemma FirstAllKept(g: seq<SpendingCategory>, ts: seq<YNABTransaction>, t: YNABTransaction, mode: Mode, exclude: seq<string>)
    requires AllSummarise(g, ts, mode, exclude)
    ensures forall i :: 0 <= i < |g| ==>
      FirstAt(ts + [t], mode, exclude, g[i].name) == FirstAt(ts, mode, exclude, g[i].name) < |ts|
  {
    forall i | 0 <= i < |g|
      ensures FirstAt(ts + [t], mode, exclude, g[i].name) == FirstAt(ts, mode, exclude, g[i].name) < |ts|
    {
      FirstKept(g[i], ts, t, mode, exclude);
    }
  }

  /** A new group's key first occurs at the row that opens it. */
  lemma FirstOfNew(g: seq<SpendingCategory>, ts: seq<YNABTransaction>, t: YNABTransaction, mode: Mode, exclude: seq<string>)
    requires Complete(g, ts, mode, exclude) && Counted(t, mode, exclude)
    requires FindName(g, KeyOf(t, mode)) < 0
    ensures FirstAt(ts + [t], mode, exclude, KeyOf(t, mode)) == |ts|
  {
    Seqs.FirstIndexFirst(ts, HitOf(mode, exclude, KeyOf(t, mode)));
    Seqs.FirstIndexSnoc(ts, t, HitOf(mode, exclude, KeyOf(t, mode)));
  }

  /** Renaming nothing and moving no first occurrence keeps the order. */
  lemma OrderSame(g: seq<SpendingCategory>, r: seq<SpendingCategory>, ts: seq<YNABTransaction>, t: YNABTransaction, mode: Mode, exclude: seq<string>)
    requires FirstOrdered(g, ts, mode, exclude)
    requires |r| == |g| && forall k :: 0 <= k < |g| ==> r[k].name == g[k].name
    requires forall i :: 0 <= i < |g| ==>
      FirstAt(ts + [t], mode, exclude, g[i].name) == FirstAt(ts, mode, exclude, g[i].name)
    ensures FirstOrdered(r, ts + [t], mode, exclude)
  {
  }

  /** A group whose key first occurs after every other key's goes last. */
  lemma OrderAppend(g: seq<SpendingCategory>, c: SpendingCategory, ts: seq<YNABTransaction>, t: YNABTransaction, mode: Mode, exclude: seq<string>)
    requires FirstOrdered(g, ts, mode, exclude)
    requires forall i :: 0 <= i < |g| ==>
      FirstAt(ts + [t], mode, exclude, g[i].name) == FirstAt(ts, mode, exclude, g[i].name) < |ts|
    requires FirstAt(ts + [t], mode, exclude, c.name) == |ts|
    ensures FirstOrdered(g + [c], ts + [t], mode, exclude)
  {
    var r := g + [c];
    forall i, j | 0 <= i < j < |r|
      ensures FirstAt(ts + [t], mode, exclude, r[i].name) < FirstAt(ts + [t], mode, exclude, r[j].name)
    {
      assert r[i] == g[i];
      if j < |g| {
        assert r[j] == g[j];
      }
    }
  }

  /** Grouping keeps groups in the order of their keys' first occurrence,
      the insertion order of the `Map` it builds. */
  lemma {:induction false} GroupFirstOrdered(ts: seq<YNABTransaction>, mode: Mode, exclude: seq<string>)
    ensures FirstOrdered(Group(ts, mode, exclude), ts, mode, exclude)
  {
    if ts != [] {
      var init, t := ts[..|ts| - 1], ts[|ts| - 1];
      assert ts == init + [t];
      GroupFirstOrdered(init, mode, exclude);
      GroupAgrees(init, mode, exclude);
      var g := Group(init, mode, exclude);
      FirstAllKept(g, init, t, mode, exclude);
      if !Counted(t, mode, exclude) {
        OrderSame(g, g, init, t, mode, exclude);
      } else {
        var key := KeyOf(t, mode);
        var r := AddTo(g, key, t.outflow);
        AddToNames(g, key, t.outflow);
        if FindName(g, key) >= 0 {
          OrderSame(g, r, init, t, mode, exclude);
        } else {
          FirstOfNew(g, init, t, mode, exclude);
          OrderAppend(g, SpendingCategory(key, t.outflow, 1), init, t, mode, exclude);
        }
      }
    }
  }

  /** Every group is keyed on a counted key and summarises its members. */
  predicate GroupEntry(c: SpendingCategory, ts: seq<YNABTransaction>, mode: Mode, exclude: seq<string>) {
    !IsBlank(c.name) && c.name !in exclude && Summarises(c, ts, mode, exclude)
  }

  /** A group that summarises members is keyed on a counted key. */
  lemma SummarisedKey(c: SpendingCategory, ts: seq<YNABTransaction>, mode: Mode, exclude: seq<string>)
    requires Summarises(c, ts, mode, exclude)
    ensures GroupEntry(c, ts, mode, exclude)
  {
    MembersCounted(ts, mode, exclude, c.name, Members(ts, mode, exclude, c.name)[0]);
  }

  /** The groups of a list: distinct, counted keys with exact sums and
      counts, and every counted key among them. */
  lemma GroupEntries(ts: seq<YNABTransaction>, mode: Mode, exclude: seq<string>)
    ensures DistinctNames(Group(ts, mode, exclude))
    ensures forall c :: c in Group(ts, mode, exclude) ==> GroupEntry(c, ts, mode, exclude)
    ensures Complete(Group(ts, mode, exclude), ts, mode, exclude)
  {
    var g := Group(ts, mode, exclude);
    GroupAgrees(ts, mode, exclude);
    forall c | c in g
      ensures GroupEntry(c, ts, mode, exclude)
    {
      var i :| 0 <= i < |g| && g[i] == c;
      SummarisedKey(c, ts, mode, exclude);
    }
  }

  /** Keeping some groups keeps their names distinct. */
  lemma {:induction false} FilterDistinct(s: seq<SpendingCategory>, p: SpendingCategory -> bool)
    requires DistinctNames(s)
    ensures DistinctNames(Seqs.Filter(s, p))
  {
    if s != [] {
      var rest := Seqs.Filter(s[1..], p);
      FilterDistinct(s[1..], p);
      if p(s[0]) {
        var r := [s[0]] + rest;
        forall j | 1 <= j < |r|
          ensures r[0].name != r[j].name
        {
          assert rest[j - 1] in s[1..];
          var k :| 0 <= k < |s[1..]| && s[1..][k] == rest[j - 1];
          assert s[k + 1] == r[j];
        }
        assert DistinctNames(r);
      } else {
        assert Seqs.Filter(s, p) == rest;
      }
    }
  }

  /** Inserting a group with a new name keeps the names distinct. */
  lemma InsertDistinct(c: SpendingCategory, s: seq<SpendingCategory>)
    requires DistinctNames(s)
    requires forall k :: 0 <= k < |s| ==> s[k].name != c.name
    ensures DistinctNames(Insert(c, s))
  {
    var k := InsertPos(c, s);
    var r := Insert(c, s);
    assert forall i :: 0 <= i < k ==> r[i] == s[i];
    assert r[k] == c;
    assert forall i :: k < i < |r| ==> r[i] == s[i - 1];
  }

  /** Ranking keeps the names distinct. */
  lemma {:induction false} SortDistinct(s: seq<SpendingCategory>)
    requires DistinctNames(s)
    ensures DistinctNames(SortByAmount(s))
  {
    if s != [] {
      var t := SortByAmount(s[1..]);
      SortDistinct(s[1..]);
      forall k | 0 <= k < |t|
        ensures t[k].name != s[0].name
      {
        assert t[k] in multiset(s[1..]);
        var m :| 0 <= m < |s[1..]| && s[1..][m] == t[k];
        assert s[m + 1] == t[k];
      }
      InsertDistinct(s[0], t);
    }
  }

  /** The text `filterTransactionsByDate` parses. */
  function DateOf(t: YNABTransaction): string {
    t.date
  }

  /** The rows `aggregateTransactions` groups: those in the date range, or
      all of them without one. */
  function Filtered(ts: seq<YNABTransaction>, opts: AggregationOptions, parse: string -> Option<Date>): seq<YNABTransaction> {
    FilterByDate(ts, opts.dateRange, DateOf, parse)
  }

  /** `cat.amount >= minAmount`. */
  function Qualifies(minAmount: real): SpendingCategory -> bool {
    (c: SpendingCategory) => c.amount >= minAmount
  }

  /** The groups of the rows, in first-occurrence order, that reach the
      minimum amount. */
  function Candidates(ts: seq<YNABTransaction>, opts: AggregationOptions, parse: string -> Option<Date>): seq<SpendingCategory> {
    Seqs.Filter(Group(Filtered(ts, opts, parse), opts.mode, Excluded(opts)), Qualifies(MinAmount(opts)))
  }

  /** The candidates after the stable sort by amount. */
  function Ranked(ts: seq<YNABTransaction>, opts: AggregationOptions, parse: string -> Option<Date>): seq<SpendingCategory> {
    SortByAmount(Candidates(ts, opts, parse))
  }

  /** The candidates have distinct names and are genuine groups. */
  lemma CandidateEntries(ts: seq<YNABTransaction>, opts: AggregationOptions, parse: string -> Option<Date>)
    ensures DistinctNames(Candidates(ts, opts, parse))
    ensures forall c :: c in Candidates(ts, opts, parse) ==>
      GroupEntry(c, Filtered(ts, opts, parse), opts.mode, Excluded(opts)) && c.amount >= MinAmount(opts)
  {
    var g := Group(Filtered(ts, opts, parse), opts.mode, Excluded(opts));
    GroupEntries(Filtered(ts, opts, parse), opts.mode, Excluded(opts));
    FilterDistinct(g, Qualifies(MinAmount(opts)));
  }

  /** The ranking keeps the candidates' properties and adds the order. */
  lemma RankedEntries(ts: seq<YNABTransaction>, opts: AggregationOptions, parse: string -> Option<Date>)
    ensures DistinctNames(Ranked(ts, opts, parse))
    ensures forall c :: c in Ranked(ts, opts, parse) ==>
      GroupEntry(c, Filtered(ts, opts, parse), opts.mode, Excluded(opts)) && c.amount >= MinAmount(opts)
  {
    var s := Candidates(ts, opts, parse);
    CandidateEntries(ts, opts, parse);
    SortDistinct(s);
    assert forall c :: c in SortByAmount(s) ==> c in multiset(s);
  }

  /** `aggregateTransactions`: the `topN` largest groups of the rows in the
      date range, each with a distinct, non-blank, non-excluded name, the
      exact total and count of its rows, and at least `minAmount`, largest
      first. */
  function AggregateTransactions(ts: seq<YNABTransaction>, opts: AggregationOptions, parse: string -> Option<Date>): (r: seq<SpendingCategory>)
    ensures DistinctNames(r)
    ensures NonIncreasing(r)
    ensures forall c :: c in r ==>
      GroupEntry(c, Filtered(ts, opts, parse), opts.mode, Excluded(opts)) && c.amount >= MinAmount(opts)
    ensures TopN(opts) >= 0 ==> |r| <= TopN(opts)
  {
    var s := Ranked(ts, opts, parse);
    RankedEntries(ts, opts, parse);
    var r := Take(s, TopN(opts));
    assert forall c :: c in r ==> c in s;
    r
  }

  /** `aggregateTransactions` keeps the head of the ranking: as many
      entries as `slice(0, topN)` keeps, each the entry of the ranking at
      its position. */
  lemma AggregateIsPrefix(ts: seq<YNABTransaction>, opts: AggregationOptions, parse: string -> Option<Date>)
    ensures var r := AggregateTransactions(ts, opts, parse);
      var s := Ranked(ts, opts, parse);
      && |r| == SliceLength(TopN(opts), |Candidates(ts, opts, parse)|)
      && forall i :: 0 <= i < |r| ==> r[i] == s[i]
  {
  }

  /** A candidate left out of the result is no larger than any entry
      kept, and it was left out only because the result was cut. */
  lemma LargestKept(ts: seq<YNABTransaction>, opts: AggregationOptions, parse: string -> Option<Date>, c: SpendingCategory)
    requires c in Candidates(ts, opts, parse)
    requires c !in AggregateTransactions(ts, opts, parse)
    ensures |AggregateTransactions(ts, opts, parse)| < |Candidates(ts, opts, parse)|
    ensures forall d :: d in AggregateTransactions(ts, opts, parse) ==> d.amount >= c.amount
  {
    var s := Ranked(ts, opts, parse);
    assert c in multiset(s);
    TakeLeavesSmaller(s, TopN(opts), c);
  }

  /** With `topN` 1 the single entry is at least as large as every group
      that reaches the minimum amount. */
  lemma TopOneLargest(ts: seq<YNABTransaction>, opts: AggregationOptions, parse: string -> Option<Date>, c: SpendingCategory)
    requires TopN(opts) == 1
    requires c in Candidates(ts, opts, parse)
    ensures |AggregateTransactions(ts, opts, parse)| == 1
    ensures AggregateTransactions(ts, opts, parse)[0].amount >= c.amount
  {
    var r := AggregateTransactions(ts, opts, parse);
    AggregateIsPrefix(ts, opts, parse);
    if c !in r {
      LargestKept(ts, opts, parse, c);
      assert r[0] in r;
    }
  }

  /** A counted row in the date range whose key's total reaches the
      minimum amount but has no entry in the result: the result was cut
      at `topN`, and every entry it kept is at least that total. */
  lemma MissingGroupIsSmaller(ts: seq<YNABTransaction>, opts: AggregationOptions, parse: string -> Option<Date>, t: YNABTransaction)
    requires t in Filtered(ts, opts, parse) && Counted(t, opts.mode, Excluded(opts))
    requires TotalSpending(Members(Filtered(ts, opts, parse), opts.mode, Excluded(opts), KeyOf(t, opts.mode))) >= MinAmount(opts)
    requires forall d :: d in AggregateTransactions(ts, opts, parse) ==> d.name != KeyOf(t, opts.mode)
    ensures |AggregateTransactions(ts, opts, parse)| < |Candidates(ts, opts, parse)|
    ensures forall d :: d in AggregateTransactions(ts, opts, parse) ==>
      d.amount >= TotalSpending(Members(Filtered(ts, opts, parse), opts.mode, Excluded(opts), KeyOf(t, opts.mode)))
  {
    var f := Filtered(ts, opts, parse);
    var g := Group(f, opts.mode, Excluded(opts));
    GroupEntries(f, opts.mode, Excluded(opts));
    var j :| 0 <= j < |f| && f[j] == t;
    var i := FindName(g, KeyOf(t, opts.mode));
    assert g[i] in g;
    assert g[i] in Candidates(ts, opts, parse);
    LargestKept(ts, opts, parse, g[i]);
  }

  /** Selecting by amount is a filter. */
  lemma {:induction false} WithAmountIsFilter(s: seq<SpendingCategory>, v: real)
    ensures WithAmount(s, v) == Seqs.Filter(s, (c: SpendingCategory) => c.amount == v)
  {
    if s != [] {
      WithAmountIsFilter(s[1..], v);
    }
  }

  /** A prefix of a strictly increasing sequence is strictly increasing. */
  lemma IncreasingPrefix<T>(a: seq<T>, b: seq<T>, f: T -> int)
    requires Seqs.IncreasingBy(a + b, f)
    ensures Seqs.IncreasingBy(a, f)
  {
    assert forall i :: 0 <= i < |a| ==> (a + b)[i] == a[i];
  }

  /** The candidates are in first-occurrence order. */
  lemma CandidatesFirstOrdered(ts: seq<YNABTransaction>, opts: AggregationOptions, parse: string -> Option<Date>)
    ensures Seqs.IncreasingBy(Candidates(ts, opts, parse), FirstOf(Filtered(ts, opts, parse), opts.mode, Excluded(opts)))
  {
    var f := Filtered(ts, opts, parse);
    var g := Group(f, opts.mode, Excluded(opts));
    GroupFirstOrdered(f, opts.mode, Excluded(opts));
    assert Seqs.IncreasingBy(g, FirstOf(f, opts.mode, Excluded(opts)));
    Seqs.FilterIncreasing(g, Qualifies(MinAmount(opts)), FirstOf(f, opts.mode, Excluded(opts)));
  }

  /** In the ranking, entries of equal amount keep first-occurrence order. */
  lemma RankedTies(ts: seq<YNABTransaction>, opts: AggregationOptions, parse: string -> Option<Date>, v: real)
    ensures Seqs.IncreasingBy(WithAmount(Ranked(ts, opts, parse), v),
                              FirstOf(Filtered(ts, opts, parse), opts.mode, Excluded(opts)))
  {
    var first := FirstOf(Filtered(ts, opts, parse), opts.mode, Excluded(opts));
    var c := Candidates(ts, opts, parse);
    CandidatesFirstOrdered(ts, opts, parse);
    WithAmountIsFilter(c, v);
    Seqs.FilterIncreasing(c, (x: SpendingCategory) => x.amount == v, first);
    SortStable(c, v);
  }

  /** Cutting a ranking keeps the order of its ties. */
  lemma TakeTies(s: seq<SpendingCategory>, n: int, v: real, f: SpendingCategory -> int)
    requires Seqs.IncreasingBy(WithAmount(s, v), f)
    ensures Seqs.IncreasingBy(WithAmount(Take(s, n), v), f)
  {
    var r := Take(s, n);
    assert s == r + s[|r|..];
    WithAmountConcat(r, s[|r|..], v);
    IncreasingPrefix(WithAmount(r, v), WithAmount(s[|r|..], v), f);
  }

  /** Ties keep first-occurrence order: the entries of the result with any
      one amount come in the order their keys first occur among the rows,
      because the sort is stable and the groups were built in that order. */
  lemma TiesInFirstOccurrenceOrder(ts: seq<YNABTransaction>, opts: AggregationOptions, parse: string -> Option<Date>, v: real)
    ensures Seqs.IncreasingBy(WithAmount(AggregateTransactions(ts, opts, parse), v),
                              FirstOf(Filtered(ts, opts, parse), opts.mode, Excluded(opts)))
  {
    RankedTies(ts, opts, parse, v);
    TakeTies(Ranked(ts, opts, parse), TopN(opts), v, FirstOf(Filtered(ts, opts, parse), opts.mode, Excluded(opts)));
  }

  /** The amounts of a sequence of groups, summed. */
  function SumAmounts(g: seq<SpendingCategory>): real {
    if g == [] then 0.0 else SumAmounts(g[..|g| - 1]) + g[|g| - 1].amount
  }

  /** The counts of a sequence of groups, summed. */
  function SumCounts(g: seq<SpendingCategory>): int {
    if g == [] then 0 else SumCounts(g[..|g| - 1]) + g[|g| - 1].transactionCount
  }

  /** Replacing one group changes the sums by the difference. */
  lemma {:induction false} SumsUpdate(g: seq<SpendingCategory>, i: int, c: SpendingCategory)
    requires 0 <= i < |g|
    ensures SumAmounts(g[i := c]) == SumAmounts(g) - g[i].amount + c.amount
    ensures SumCounts(g[i := c]) == SumCounts(g) - g[i].transactionCount + c.transactionCount
  {
    var n := |g| - 1;
    var r := g[i := c];
    assert r[..n] == if i == n then g[..n] else g[..n][i := c];
    if i < n {
      SumsUpdate(g[..n], i, c);
    }
  }

  /** Adding a row to the groups adds its outflow and one row to the sums. */
  lemma SumsAddTo(g: seq<SpendingCategory>, key: string, x: real)
    ensures SumAmounts(AddTo(g, key, x)) == SumAmounts(g) + x
    ensures SumCounts(AddTo(g, key, x)) == SumCounts(g) + 1
  {
    var i := FindName(g, key);
    if i < 0 {
      assert (g + [SpendingCategory(key, x, 1)])[..|g|] == g;
    } else {
      SumsUpdate(g, i, SpendingCategory(key, g[i].amount + x, g[i].transactionCount + 1));
    }
  }

  /** The rows that join some group, in list order. */
  function CountedRows(ts: seq<YNABTransaction>, mode: Mode, exclude: seq<string>): seq<YNABTransaction> {
    if ts == [] then []
    else
      var t := ts[|ts| - 1];
      CountedRows(ts[..|ts| - 1], mode, exclude) + (if Counted(t, mode, exclude) then [t] else [])
  }

  /** Grouping loses nothing and invents nothing: the group amounts add up
      to the total outflow of the counted rows, and the counts to their
      number. */
  lemma {:induction false} GroupConserves(ts: seq<YNABTransaction>, mode: Mode, exclude: seq<string>)
    ensures SumAmounts(Group(ts, mode, exclude)) == TotalSpending(CountedRows(ts, mode, exclude))
    ensures SumCounts(Group(ts, mode, exclude)) == |CountedRows(ts, mode, exclude)|
  {
    if ts != [] {
      var init, t := ts[..|ts| - 1], ts[|ts| - 1];
      GroupConserves(init, mode, exclude);
      var g, rows := Group(init, mode, exclude), CountedRows(init, mode, exclude);
      if Counted(t, mode, exclude) {
        assert Group(ts, mode, exclude) == AddTo(g, KeyOf(t, mode), t.outflow);
        assert CountedRows(ts, mode, exclude) == rows + [t];
        SumsAddTo(g, KeyOf(t, mode), t.outflow);
        TotalSpendingSnoc(rows, t);
      } else {
        assert Group(ts, mode, exclude) == g;
        assert CountedRows(ts, mode, exclude) == rows + [];
        assert rows + [] == rows;
      }
    }
  }

  /** The counts of a concatenation add up. */
  lemma {:induction false} SumCountsConcat(a: seq<SpendingCategory>, b: seq<SpendingCategory>)
    ensures SumCounts(a + b) == SumCounts(a) + SumCounts(b)
  {
    if b != [] {
      var n := |b| - 1;
      assert (a + b)[..|a + b| - 1] == a + b[..n];
      assert (a + b)[|a + b| - 1] == b[n];
      SumCountsConcat(a, b[..n]);
    } else {
      assert a + b == a;
    }
  }

  /** Groups that each hold at least one row. */
  predicate Populated(s: seq<SpendingCategory>) {
    forall i :: 0 <= i < |s| ==> s[i].transactionCount >= 1
  }

  /** The counts of populated groups add up to at least zero. */
  lemma {:induction false} SumCountsNonNegative(s: seq<SpendingCategory>)
    requires Populated(s)
    ensures SumCounts(s) >= 0
  {
    if s != [] {
      SumCountsNonNegative(s[..|s| - 1]);
    }
  }

  /** Keeping some populated groups keeps at most their rows. */
  lemma {:induction false} SumCountsFilter(s: seq<SpendingCategory>, p: SpendingCategory -> bool)
    requires Populated(s)
    ensures SumCounts(Seqs.Filter(s, p)) <= SumCounts(s)
  {
    if s != [] {
      var rest := s[1..];
      assert s == [s[0]] + rest;
      SumCountsFilter(rest, p);
      SumCountsConcat([s[0]], rest);
      SumCountsConcat(if p(s[0]) then [s[0]] else [], Seqs.Filter(rest, p));
      assert SumCounts([s[0]]) == s[0].transactionCount by {
        assert [s[0]][..0] == [];
      }
    }
  }

  /** Inserting a group adds its count. */
  lemma SumCountsInsert(c: SpendingCategory, s: seq<SpendingCategory>)
    ensures SumCounts(Insert(c, s)) == SumCounts(s) + c.transactionCount
  {
    var k := InsertPos(c, s);
    assert s == s[..k] + s[k..];
    SumCountsConcat(s[..k], s[k..]);
    SumCountsConcat(s[..k] + [c], s[k..]);
    SumCountsConcat(s[..k], [c]);
    assert [c][..0] == [];
  }

  /** Ranking moves groups without changing the total count. */
  lemma {:induction false} SumCountsSort(s: seq<SpendingCategory>)
    ensures SumCounts(SortByAmount(s)) == SumCounts(s)
  {
    if s != [] {
      SumCountsSort(s[1..]);
      SumCountsInsert(s[0], SortByAmount(s[1..]));
      assert s == [s[0]] + s[1..];
      SumCountsConcat([s[0]], s[1..]);
      assert [s[0]][..0] == [];
    }
  }

  /** Keeping the head of populated groups keeps at most their rows. */
  lemma SumCountsTake(s: seq<SpendingCategory>, n: int)
    requires Populated(s)
    ensures SumCounts(Take(s, n)) <= SumCounts(s)
  {
    var r := Take(s, n);
    assert s == r + s[|r|..];
    SumCountsConcat(r, s[|r|..]);
    assert Populated(s[|r|..]) by {
      assert forall i :: 0 <= i < |s| - |r| ==> s[|r|..][i] == s[|r| + i];
    }
    SumCountsNonNegative(s[|r|..]);
  }

  /** The returned groups count no more rows than there are counted rows
      in the date range: excluded and blank keys add nothing. */
  lemma CountsBounded(ts: seq<YNABTransaction>, opts: AggregationOptions, parse: string -> Option<Date>)
    ensures SumCounts(AggregateTransactions(ts, opts, parse))
         <= |CountedRows(Filtered(ts, opts, parse), opts.mode, Excluded(opts))|
  {
    var f := Filtered(ts, opts, parse);
    var g := Group(f, opts.mode, Excluded(opts));
    var c := Candidates(ts, opts, parse);
    GroupAgrees(f, opts.mode, Excluded(opts));
    GroupConserves(f, opts.mode, Excluded(opts));
    SumCountsFilter(g, Qualifies(MinAmount(opts)));
    SumCountsSort(c);
    RankedPopulated(ts, opts, parse);
    SumCountsTake(Ranked(ts, opts, parse), TopN(opts));
  }

  /** Every ranked group holds at least one row. */
  lemma RankedPopulated(ts: seq<YNABTransaction>, opts: AggregationOptions, parse: string -> Option<Date>)
    ensures Populated(Ranked(ts, opts, parse))
  {
    var s := Ranked(ts, opts, parse);
    RankedEntries(ts, opts, parse);
    forall i | 0 <= i < |s|
      ensures s[i].transactionCount >= 1
    {
      assert s[i] in s;
    }
  }

  /** The probe for more groups: with `topN` at least 1 the result is
      empty exactly when no group is left to show. */
  lemma EmptyIffNoCandidates(ts: seq<YNABTransaction>, opts: AggregationOptions, parse: string -> Option<Date>)
    requires TopN(opts) >= 1
    ensures AggregateTransactions(ts, opts, parse) == [] <==> Candidates(ts, opts, parse) == []
  {
    AggregateIsPrefix(ts, opts, parse);
  }
}
