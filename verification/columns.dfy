/** Column detection (`detectColumnMapping`): each canonical field is bound
    to the header whose trimmed, lower-cased spelling is the first match in
    that field's fixed list of synonyms. */
module Columns {
  import opened Wrappers
  import opened Text
  import Seqs

  /** The header chosen for each canonical field, if any. */
  datatype ColumnMapping = ColumnMapping(
    date: Option<string>,
    description: Option<string>,
    amount: Option<string>,
    outflow: Option<string>,
    inflow: Option<string>,
    category: Option<string>,
    account: Option<string>,
    memo: Option<string>)

  const DateFields: seq<string> := ["date", "transaction date", "posted date", "posting date", "trans date"]
  const DescriptionFields: seq<string> := ["payee", "description", "merchant", "name", "memo description"]
  const AmountFields: seq<string> := ["amount", "debit", "withdrawal"]
  const OutflowFields: seq<string> := ["outflow"]
  const InflowFields: seq<string> := ["inflow", "credit", "deposit"]
  const CategoryFields: seq<string> := ["category", "categories"]
  const AccountFields: seq<string> := ["account", "account name"]
  const MemoFields: seq<string> := ["memo", "notes", "note"]

  /** The lookup key of a header: lower-cased, then trimmed. */
  function NormalizeHeader(h: string): string {
    Trim(Lower(h))
  }

  /** The lookup key of every header, in order. */
  function Keys(headers: seq<string>): (ks: seq<string>)
    ensures |ks| == |headers|
    ensures forall j :: 0 <= j < |headers| ==> ks[j] == NormalizeHeader(headers[j])
  {
    Seqs.Map(NormalizeHeader, headers)
  }

  /** Position of the last occurrence of `key` in `ks`, or -1. */
  function LastIndexOf(ks: seq<string>, key: string): (i: int)
    ensures -1 <= i < |ks|
    ensures i >= 0 ==> ks[i] == key
    ensures forall j :: i < j < |ks| ==> ks[j] != key
  {
    if |ks| == 0 then -1
    else if ks[|ks| - 1] == key then |ks| - 1
    else LastIndexOf(ks[..|ks| - 1], key)
  }

  /** The map from each key to the value at the same position, a later
      position overriding an earlier one with the same key; over the keys
      and the headers this is `new Map(headers.map(h => [normalise(h), h]))`. */
  function Bind(ks: seq<string>, vs: seq<string>): (m: map<string, string>)
    requires |ks| == |vs|
    ensures forall k :: k in m <==> LastIndexOf(ks, k) >= 0
    ensures forall k :: k in m ==> m[k] == vs[LastIndexOf(ks, k)]
  {
    if |ks| == 0 then map[]
    else Bind(ks[..|ks| - 1], vs[..|vs| - 1])[ks[|ks| - 1] := vs[|vs| - 1]]
  }

  /** Position of the first candidate present in `m`, or `|cands|`. */
  function FirstHit(cands: seq<string>, m: map<string, string>): (i: nat)
    ensures i <= |cands|
    ensures i < |cands| ==> cands[i] in m
    ensures forall j :: 0 <= j < i ==> cands[j] !in m
  {
    if |cands| == 0 then 0
    else if cands[0] in m then 0
    else 1 + FirstHit(cands[1..], m)
  }

  /** The `for … of … { if (headerMap.has(field)) { …; break; } }` loop:
      the header of the first candidate present, or nothing. */
  function FirstMatch(cands: seq<string>, m: map<string, string>): (r: Option<string>)
    ensures r.None? <==> forall i :: 0 <= i < |cands| ==> cands[i] !in m
    ensures r.Some? ==> exists i :: 0 <= i < |cands| && cands[i] in m && r.value == m[cands[i]]
                           && forall k :: 0 <= k < i ==> cands[k] !in m
  {
    var i := FirstHit(cands, m);
    if i < |cands| then Some(m[cands[i]]) else None
  }

  /** What detection promises for one field, stated on the headers and
      their keys: either no key is any candidate, or the result is the
      header at the last position holding the first candidate that occurs
      at all. */
  ghost predicate Resolves(ks: seq<string>, headers: seq<string>, cands: seq<string>, r: Option<string>)
    requires |ks| == |headers|
  {
    match r
    case None => forall i :: 0 <= i < |cands| ==> cands[i] !in ks
    case Some(h) =>
      exists i, j :: 0 <= i < |cands| && 0 <= j < |headers| && headers[j] == h
        && ks[j] == cands[i]
        && (forall k :: 0 <= k < i ==> cands[k] !in ks)
        && (forall k :: j < k < |ks| ==> ks[k] != cands[i])
  }

  /** A key occurs in the list exactly when the last-occurrence search
      finds it. */
  lemma LastIndexOfFound(ks: seq<string>, key: string)
    ensures LastIndexOf(ks, key) >= 0 <==> key in ks
  {
  }

  /** `FirstMatch` over the key-to-header map meets `Resolves`. */
  lemma FirstMatchResolves(ks: seq<string>, headers: seq<string>, cands: seq<string>)
    requires |ks| == |headers|
    ensures Resolves(ks, headers, cands, FirstMatch(cands, Bind(ks, headers)))
  {
    var m := Bind(ks, headers);
    var i := FirstHit(cands, m);
    forall k | 0 <= k < i
      ensures cands[k] !in ks
    {
      LastIndexOfFound(ks, cands[k]);
    }
    if i < |cands| {
      var j := LastIndexOf(ks, cands[i]);
      assert headers[j] == m[cands[i]];
    } else {
      forall k | 0 <= k < |cands|
        ensures cands[k] !in ks
      {
        LastIndexOfFound(ks, cands[k]);
      }
    }
  }

  /** The eight detected fields, in declaration order. */
  function Assigned(m: ColumnMapping): seq<Option<string>> {
    [m.date, m.description, m.amount, m.outflow, m.inflow, m.category, m.account, m.memo]
  }

  /** The eight candidate lists, in the same order as `Assigned`. */
  const FieldLists: seq<seq<string>> :=
    [DateFields, DescriptionFields, AmountFields, OutflowFields,
     InflowFields, CategoryFields, AccountFields, MemoFields]

  /** `detectColumnMapping`, given the key of every header: one
      first-match search per field, over that field's candidate list. */
  function DetectWith(ks: seq<string>, headers: seq<string>): (r: ColumnMapping)
    requires |ks| == |headers|
    ensures forall a :: 0 <= a < |FieldLists| ==> Resolves(ks, headers, FieldLists[a], Assigned(r)[a])
  {
    var m := Bind(ks, headers);
    var p := Seqs.Map((cands: seq<string>) => FirstMatch(cands, m), FieldLists);
    assert forall a :: 0 <= a < |FieldLists| ==> Resolves(ks, headers, FieldLists[a], p[a]) by {
      forall a | 0 <= a < |FieldLists|
        ensures Resolves(ks, headers, FieldLists[a], p[a])
      {
        FirstMatchResolves(ks, headers, FieldLists[a]);
      }
    }
    var r := ColumnMapping(p[0], p[1], p[2], p[3], p[4], p[5], p[6], p[7]);
    assert Assigned(r) == p;
    r
  }

  /** `detectColumnMapping`: headers are keyed by `NormalizeHeader`. */
  function DetectColumnMapping(headers: seq<string>): (r: ColumnMapping)
    ensures forall a :: 0 <= a < |FieldLists| ==> Resolves(Keys(headers), headers, FieldLists[a], Assigned(r)[a])
  {
    DetectWith(Keys(headers), headers)
  }

  /** Equal headers have equal keys. */
  ghost predicate Consistent(ks: seq<string>, headers: seq<string>)
    requires |ks| == |headers|
  {
    forall j, k :: 0 <= j < |headers| && 0 <= k < |headers| && headers[j] == headers[k] ==> ks[j] == ks[k]
  }

  lemma KeysConsistent(headers: seq<string>)
    ensures Consistent(Keys(headers), headers)
  {
  }

  /** No spelling is a candidate for two different fields. */
  lemma FieldListsDisjoint()
    ensures forall a, b, x :: 0 <= a < b < |FieldLists| && x in FieldLists[a] ==> x !in FieldLists[b]
  {
  }

  /** A field resolved to some header holds a header at a position whose
      key is one of that field's candidates. */
  lemma ResolvedKey(ks: seq<string>, headers: seq<string>, cands: seq<string>, h: string) returns (j: int)
    requires |ks| == |headers|
    requires Resolves(ks, headers, cands, Some(h))
    ensures 0 <= j < |headers| && headers[j] == h && ks[j] in cands
  {
    var i :| 0 <= i < |cands| && exists j' :: 0 <= j' < |headers| && headers[j'] == h && ks[j'] == cands[i];
    j :| 0 <= j < |headers| && headers[j] == h && ks[j] == cands[i];
  }

  /** The field at position `a` of a detected mapping, when set, holds a
      header at a position whose key is one of that field's candidates. */
  lemma DetectedKeyIn(ks: seq<string>, headers: seq<string>, a: int) returns (j: int)
    requires |ks| == |headers| && 0 <= a < |FieldLists|
    requires Assigned(DetectWith(ks, headers))[a].Some?
    ensures 0 <= j < |headers| && headers[j] == Assigned(DetectWith(ks, headers))[a].value
    ensures ks[j] in FieldLists[a]
  {
    j := ResolvedKey(ks, headers, FieldLists[a], Assigned(DetectWith(ks, headers))[a].value);
  }

  /** No header is bound to two different fields. */
  predicate DistinctFields(m: ColumnMapping) {
    var r := Assigned(m);
    forall a, b :: 0 <= a < b < |r| && r[a].Some? && r[b].Some? ==> r[a].value != r[b].value
  }

  /** Two different fields are never bound to the same header, because no
      key is a candidate for two fields. */
  lemma DetectedDistinct(headers: seq<string>)
    ensures DistinctFields(DetectColumnMapping(headers))
  {
    var ks := Keys(headers);
    KeysConsistent(headers);
    var r := Assigned(DetectWith(ks, headers));
    forall a, b | 0 <= a < b < |r| && r[a].Some? && r[b].Some?
      ensures r[a].value != r[b].value
    {
      var ja := DetectedKeyIn(ks, headers, a);
      var jb := DetectedKeyIn(ks, headers, b);
      FieldListsDisjoint();
    }
  }

  /** A header with no surrounding white space is keyed by its
      lower-case spelling. */
  lemma KeyOfTrimmed(h: string)
    requires Trimmed(h)
    ensures NormalizeHeader(h) == Lower(h)
  {
    LowerTrimmed(h);
    TrimmedIff(Lower(h));
  }

  /** When some key is a field's first candidate, a resolved field takes
      the header at the last position holding that key, whatever else
      the headers hold. */
  lemma FirstCandidateWins(ks: seq<string>, headers: seq<string>, cands: seq<string>, r: Option<string>, j: int)
    requires |ks| == |headers| && Resolves(ks, headers, cands, r)
    requires cands != [] && 0 <= j < |ks| && ks[j] == cands[0]
    requires forall k :: j < k < |ks| ==> ks[k] != cands[0]
    ensures r == Some(headers[j])
  {
    assert cands[0] in ks;
    var i, j' :| 0 <= i < |cands| && 0 <= j' < |headers| && headers[j'] == r.value
      && ks[j'] == cands[i]
      && (forall k :: 0 <= k < i ==> cands[k] !in ks)
      && (forall k :: j' < k < |ks| ==> ks[k] != cands[i]);
    assert i == 0;
    assert j' == j;
  }

  /** The description field of a detected mapping meets `Resolves`. */
  lemma DescriptionResolves(headers: seq<string>)
    ensures Resolves(Keys(headers), headers, DescriptionFields, DetectColumnMapping(headers).description)
  {
    var m := DetectColumnMapping(headers);
    assert Assigned(m)[1] == m.description;
    assert FieldLists[1] == DescriptionFields;
  }

  /** A header keyed `payee` wins the description field over any
      `Description`, `Merchant` or `Name` header: priority follows the
      candidate list, not the order of the headers. */
  lemma PayeeWins(headers: seq<string>, j: int)
    requires 0 <= j < |headers| && NormalizeHeader(headers[j]) == "payee"
    requires forall k :: j < k < |headers| ==> NormalizeHeader(headers[k]) != "payee"
    ensures DetectColumnMapping(headers).description == Some(headers[j])
  {
    DescriptionResolves(headers);
    assert DescriptionFields[0] == "payee";
    FirstCandidateWins(Keys(headers), headers, DescriptionFields, DetectColumnMapping(headers).description, j);
  }
}
