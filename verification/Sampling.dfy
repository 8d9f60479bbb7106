/** Seeded sampling of source records: the records with the smallest digests, in ascending order of id. */
module Sampling {
  import opened Sequences
  import opened Wrappers

  // ------------------------------------------------------------------ orders

  ghost predicate TotalOrder(le: (string, string) -> bool) {
    TotalPreorder(le) && forall x, y :: le(x, y) && le(y, x) ==> x == y
  }

  /** Text order, character by character. */
  predicate LexLe(a: string, b: string) {
    a == [] || (b != [] && (a[0] < b[0] || (a[0] == b[0] && LexLe(a[1..], b[1..]))))
  }

  lemma {:induction false} LexTotal(a: string, b: string)
    ensures LexLe(a, b) || LexLe(b, a)
    ensures LexLe(a, b) && LexLe(b, a) ==> a == b
  {
    if a != [] && b != [] {
      LexTotal(a[1..], b[1..]);
      assert a == [a[0]] + a[1..] && b == [b[0]] + b[1..];
    }
  }

  lemma {:induction false} LexTransitive(a: string, b: string, c: string)
    requires LexLe(a, b) && LexLe(b, c)
    ensures LexLe(a, c)
  {
    if a != [] && b[0] == a[0] && b[0] == c[0] { LexTransitive(a[1..], b[1..], c[1..]); }
  }

  lemma {:induction false} LexIsTotalOrder()
    ensures TotalOrder(LexLe)
  {
    forall a, b ensures (LexLe(a, b) || LexLe(b, a)) && (LexLe(a, b) && LexLe(b, a) ==> a == b) { LexTotal(a, b); }
    forall a, b, c | LexLe(a, b) && LexLe(b, c) ensures LexLe(a, c) { LexTransitive(a, b, c); }
  }

  /** The texts agree up to place k and differ there. */
  ghost predicate FirstDifference(a: string, b: string, k: nat) {
    k < |a| && k < |b| && a[..k] == b[..k] && a[k] != b[k]
  }

  lemma DifferenceShifts(a: string, b: string, k: nat)
    requires a != [] && b != [] && a[0] == b[0]
    ensures FirstDifference(a[1..], b[1..], k) <==> FirstDifference(a, b, k + 1)
  {
    if k + 1 < |a| && k + 1 < |b| {
      assert a[..k + 1] == [a[0]] + a[1..][..k] && b[..k + 1] == [b[0]] + b[1..][..k];
    }
  }

  /** One text is at most another exactly when it is a prefix of it or smaller where they first differ. */
  lemma {:induction false} LexLeMeans(a: string, b: string)
    ensures LexLe(a, b) <==> a <= b || exists k: nat :: FirstDifference(a, b, k) && a[k] < b[k]
  {
    if a != [] && b != [] {
      if a[0] == b[0] {
        var c, d := a[1..], b[1..];
        LexLeMeans(c, d);
        assert a == [a[0]] + c && b == [b[0]] + d;
        if k: nat :| FirstDifference(c, d, k) && c[k] < d[k] {
          DifferenceShifts(a, b, k);
          var next: nat := k + 1;
          assert FirstDifference(a, b, next);
        }
        if k: nat :| FirstDifference(a, b, k) && a[k] < b[k] {
          assert k > 0;
          DifferenceShifts(a, b, k - 1);
          var before: nat := k - 1;
          assert FirstDifference(c, d, before);
        }
      } else {
        assert FirstDifference(a, b, 0);
        assert forall k: nat :: FirstDifference(a, b, k) ==> a[..k] == [] || a[..k][0] == a[0];
      }
    }
  }

  type Digest = string -> string

  /** Ordered by digest, ties broken by id; nothing is asked of the digest. */
  function KeyOrder(digest: Digest): (string, string) -> bool {
    (a: string, b: string) => if digest(a) == digest(b) then LexLe(a, b) else LexLe(digest(a), digest(b))
  }

  lemma KeyOrderIsTotal(digest: Digest)
    ensures TotalOrder(KeyOrder(digest))
  {
    var le := KeyOrder(digest);
    forall a, b ensures (le(a, b) || le(b, a)) && (le(a, b) && le(b, a) ==> a == b) {
      LexTotal(a, b);
      LexTotal(digest(a), digest(b));
    }
    forall a, b, c | le(a, b) && le(b, c) ensures le(a, c) {
      LexTotal(digest(a), digest(b));
      LexTotal(digest(b), digest(c));
      if digest(a) == digest(b) == digest(c) {
        LexTransitive(a, b, c);
      } else {
        LexTransitive(digest(a), digest(b), digest(c));
      }
    }
  }

  // ------------------------------------------------------------------ ranks

  ghost function Below(le: (string, string) -> bool, ids: set<string>, x: string): set<string> {
    set y | y in ids && y != x && le(y, x)
  }

  lemma RankGrows(le: (string, string) -> bool, ids: set<string>, x: string, y: string)
    requires TotalOrder(le) && le(x, y)
    ensures |Below(le, ids, x)| <= |Below(le, ids, y)|
  {
    SubsetCardinality(Below(le, ids, x), Below(le, ids, y));
  }

  /** In a sorted sequence of distinct ids everything below an id stands before it. */
  lemma RankInSorted(le: (string, string) -> bool, s: seq<string>, i: nat)
    requires TotalOrder(le) && SortedBy(le, s) && Distinct(s) && i < |s|
    ensures |Below(le, Elements(s), s[i])| == i
  {
    forall y ensures y in Below(le, Elements(s), s[i]) <==> y in Elements(s[..i]) {
      if y in Below(le, Elements(s), s[i]) {
        var j :| 0 <= j < |s| && s[j] == y;
        assert j < i;
      }
      if y in s[..i] {
        var j :| 0 <= j < i && s[j] == y;
      }
    }
    assert Below(le, Elements(s), s[i]) == Elements(s[..i]);
    DistinctCardinality(s[..i]);
  }

  ghost function Smallest(le: (string, string) -> bool, ids: set<string>, size: nat): set<string> {
    set x | x in ids && |Below(le, ids, x)| < size
  }

  lemma PrefixIsSmallest(le: (string, string) -> bool, s: seq<string>, size: nat)
    requires TotalOrder(le) && SortedBy(le, s) && Distinct(s) && size <= |s|
    ensures Elements(s[..size]) == Smallest(le, Elements(s), size)
  {
    forall x ensures x in s[..size] <==> x in Smallest(le, Elements(s), size) {
      if x in s {
        var i :| 0 <= i < |s| && s[i] == x;
        RankInSorted(le, s, i);
        if x in s[..size] {
          var j :| 0 <= j < size && s[j] == x;
          assert i == j;
        }
        if i < size { assert s[..size][i] == x; }
      }
    }
  }

  /** Exactly `size` ids are among the `size` smallest, when there are that many. */
  lemma SmallestCount(le: (string, string) -> bool, s: seq<string>, size: nat)
    requires TotalOrder(le) && Distinct(s) && size <= |s|
    ensures |Smallest(le, Elements(s), size)| == size
  {
    var sorted := Sort(le, s);
    SortSorts(le, s);
    DistinctPermutation(s, sorted);
    PrefixIsSmallest(le, sorted, size);
    DistinctCardinality(sorted[..size]);
  }

  /** Dropping ids outside the smallest leaves the smallest as they are. */
  lemma SmallestSurviveRemoval(le: (string, string) -> bool, ids: set<string>, fewer: set<string>, size: nat)
    requires TotalOrder(le) && |Smallest(le, ids, size)| == size
    requires Smallest(le, ids, size) <= fewer <= ids
    ensures Smallest(le, fewer, size) == Smallest(le, ids, size)
  {
    forall x | x in fewer ensures x in Smallest(le, fewer, size) <==> x in Smallest(le, ids, size) {
      SubsetCardinality(Below(le, fewer, x), Below(le, ids, x));
      if x !in Smallest(le, ids, size) {
        forall y | y in Smallest(le, ids, size) ensures y in Below(le, fewer, x) {
          if le(x, y) { RankGrows(le, ids, x, y); }
        }
        SubsetCardinality(Smallest(le, ids, size), Below(le, fewer, x));
      }
    }
  }

  // ------------------------------------------------------------------ the sampler

  /** An id that is missing or not text is `None`. */
  datatype Record = Record(id: Option<string>, body: string)

  datatype SampleResult = Sampled(records: seq<Record>) | CaseValidationFailed | SourceTooSmall

  predicate HasId(r: Record) {
    r.id.Some? && r.id.value != ""
  }

  /** Every record has an id and no two share one. */
  ghost predicate WellFormed(records: seq<Record>) {
    && (forall i :: 0 <= i < |records| ==> records[i].id.Some? && records[i].id.value != "")
    && (forall i, j :: 0 <= i < j < |records| ==> records[i].id != records[j].id)
  }

  ghost function Ids(records: seq<Record>): set<string> {
    set r | r in records && r.id.Some? :: r.id.value
  }

  ghost predicate Ascending(out: seq<Record>) {
    && (forall i :: 0 <= i < |out| ==> out[i].id.Some?)
    && (forall i, j :: 0 <= i < j < |out| ==> out[i].id != out[j].id && LexLe(out[i].id.value, out[j].id.value))
  }

  ghost predicate IsChosen(digest: Digest, records: seq<Record>, size: nat, r: Record) {
    r in records && r.id.Some? && r.id.value in Smallest(KeyOrder(digest), Ids(records), size)
  }

  /** The records with fewer than `size` records below them, strictly ascending by id. */
  ghost predicate IsSample(digest: Digest, records: seq<Record>, size: nat, out: seq<Record>) {
    && Ascending(out)
    && forall r :: r in out <==> IsChosen(digest, records, size, r)
  }

  /** The id table and its keys in insertion order. */
  ghost predicate Indexes(byId: map<string, Record>, ids: seq<string>, records: seq<Record>) {
    && |ids| == |records| && Distinct(ids)
    && (forall i :: 0 <= i < |ids| ==> records[i].id == Some(ids[i]) && ids[i] in byId && byId[ids[i]] == records[i])
    && (forall id :: id in byId ==> id in ids)
  }

  lemma IndexedIds(byId: map<string, Record>, ids: seq<string>, records: seq<Record>)
    requires Indexes(byId, ids, records)
    ensures Elements(ids) == Ids(records)
    ensures forall r :: r in records <==> r.id.Some? && r.id.value in ids && byId[r.id.value] == r
  {}

  function Lookup(byId: map<string, Record>, ids: seq<string>): seq<Record>
    requires forall id :: id in ids ==> id in byId
  {
    seq(|ids|, i requires 0 <= i < |ids| => assert ids[i] in ids; byId[ids[i]])
  }

  lemma {:induction false} LookupIsSample(
      digest: Digest, records: seq<Record>, size: nat, byId: map<string, Record>, ids: seq<string>,
      chosen: seq<string>)
    requires Indexes(byId, ids, records) && Distinct(chosen) && SortedBy(LexLe, chosen)
    requires Elements(chosen) == Smallest(KeyOrder(digest), Elements(ids), size)
    requires forall id :: id in chosen ==> id in byId
    ensures IsSample(digest, records, size, Lookup(byId, chosen))
  {
    IndexedIds(byId, ids, records);
    var out := Lookup(byId, chosen);
    forall i | 0 <= i < |out| ensures out[i].id == Some(chosen[i]) {
      assert chosen[i] in Elements(chosen);
      var j :| 0 <= j < |ids| && ids[j] == chosen[i];
    }
    forall r ensures r in out <==> IsChosen(digest, records, size, r) {
      if r in out {
        var i :| 0 <= i < |out| && out[i] == r;
        assert chosen[i] in Elements(chosen);
      }
      if r in records && r.id.Some? && r.id.value in Elements(chosen) {
        var i :| 0 <= i < |chosen| && chosen[i] == r.id.value;
        assert out[i] == r;
      }
    }
  }

  /** Fills the id table; none when an id is missing or repeated. */
  method IndexById(records: seq<Record>) returns (ok: bool, byId: map<string, Record>, ids: seq<string>)
    ensures ok <==> WellFormed(records)
    ensures ok ==> Indexes(byId, ids, records)
  {
    ok, byId, ids := true, map[], [];
    for i := 0 to |records|
      invariant ok && Indexes(byId, ids, records[..i]) && WellFormed(records[..i])
    {
      var record := records[i];
      if !HasId(record) {
        return false, byId, ids;
      }
      if record.id.value in byId {
        var j :| 0 <= j < i && ids[j] == record.id.value;
        assert records[..i][j].id == records[i].id;
        return false, byId, ids;
      }
      assert records[..i + 1] == records[..i] + [record];
      byId := byId[record.id.value := record];
      ids := ids + [record.id.value];
    }
    assert records[..|records|] == records;
  }

  method Sample(records: seq<Record>, digest: Digest, size: nat) returns (result: SampleResult)
    ensures result.CaseValidationFailed? <==> !WellFormed(records)
    ensures result.SourceTooSmall? <==> WellFormed(records) && |records| < size
    ensures result.Sampled? ==> IsSample(digest, records, size, result.records) && |result.records| == size
  {
    var ok, byId, ids := IndexById(records);
    if !ok {
      return CaseValidationFailed;
    }
    if |ids| < size {
      return SourceTooSmall;
    }
    SelectionIsSample(digest, records, size, byId, ids);
    var selected := Sort(KeyOrder(digest), ids)[..size];
    result := Sampled(Lookup(byId, Sort(LexLe, selected)));
  }

  lemma {:induction false} SelectionIsSample(
      digest: Digest, records: seq<Record>, size: nat, byId: map<string, Record>, ids: seq<string>)
    requires Indexes(byId, ids, records) && size <= |ids|
    ensures |Sort(KeyOrder(digest), ids)| == |ids|
    ensures var chosen := Sort(LexLe, Sort(KeyOrder(digest), ids)[..size]);
            && |chosen| == size
            && (forall id :: id in chosen ==> id in byId)
            && IsSample(digest, records, size, Lookup(byId, chosen))
  {
    var sorted := Sort(KeyOrder(digest), ids);
    KeyOrderIsTotal(digest);
    SortSorts(KeyOrder(digest), ids);
    DistinctPermutation(ids, sorted);
    PrefixIsSmallest(KeyOrder(digest), sorted, size);
    var selected := sorted[..size];
    var chosen := Sort(LexLe, selected);
    LexIsTotalOrder();
    SortSorts(LexLe, selected);
    DistinctPermutation(selected, chosen);
    forall id | id in chosen ensures id in byId {
      assert id in Elements(chosen) && id in Elements(sorted) && id in Elements(ids);
      var j :| 0 <= j < |ids| && ids[j] == id;
    }
    LookupIsSample(digest, records, size, byId, ids, chosen);
  }

  /** Records outside the published field bounds are dropped first; then the size check inside the
      sampler cannot fail any more. */
  method SelectCases(
      parsed: seq<Record>, fits: Record -> bool, digest: Digest, size: nat) returns (result: SampleResult)
    ensures var publishable := Filter(parsed, fits);
            && (result.SourceTooSmall? <==> |publishable| < size)
            && (result.CaseValidationFailed? <==> |publishable| >= size && !WellFormed(publishable))
            && (result.Sampled? ==> IsSample(digest, publishable, size, result.records) && |result.records| == size)
  {
    var publishable := Filter(parsed, fits);
    if |publishable| < size {
      return SourceTooSmall;
    }
    result := Sample(publishable, digest, size);
  }

  function Filter(records: seq<Record>, fits: Record -> bool): seq<Record> {
    if records == [] then []
    else
      var last := records[|records| - 1];
      Filter(records[..|records| - 1], fits) + (if fits(last) then [last] else [])
  }

  lemma {:induction false} FilterExact(records: seq<Record>, fits: Record -> bool, r: Record)
    ensures multiset(Filter(records, fits))[r] == if fits(r) then multiset(records)[r] else 0
  {
    if records != [] {
      var front, last := records[..|records| - 1], records[|records| - 1];
      assert records == front + [last];
      FilterExact(front, fits, r);
    }
  }

  /** No record left out comes before a selected one: the selected have the smaller digests, and of two equal
      digests the smaller id. */
  lemma SelectedComeFirst(
      digest: Digest, records: seq<Record>, size: nat, out: seq<Record>, selected: Record, left: Record)
    requires WellFormed(records) && IsSample(digest, records, size, out)
    requires selected in out && left in records && left !in out
    ensures selected.id.Some? && left.id.Some? && selected.id != left.id
    ensures var x, y := selected.id.value, left.id.value;
            if digest(x) == digest(y) then LexLe(x, y) else LexLe(digest(x), digest(y))
  {
    assert IsChosen(digest, records, size, selected) && !IsChosen(digest, records, size, left);
    var x, y := selected.id.value, left.id.value;
    KeyOrderIsTotal(digest);
    if KeyOrder(digest)(y, x) { RankGrows(KeyOrder(digest), Ids(records), y, x); }
  }

  // ------------------------------------------------------------------ what a sample depends on

  lemma FrontLosesLast(a: seq<Record>, r: Record)
    requires Ascending(a) && a != []
    ensures r in a[..|a| - 1] <==> r in a && r != a[|a| - 1]
    ensures Ascending(a[..|a| - 1])
  {}

  lemma {:induction false} AscendingUnique(a: seq<Record>, b: seq<Record>)
    requires Ascending(a) && Ascending(b) && forall r :: r in a <==> r in b
    ensures a == b
  {
    assert a != [] ==> a[0] in b;
    assert b != [] ==> b[0] in a;
    if a != [] && b != [] {
      LastIsLargest(a, b);
      var c, d := a[..|a| - 1], b[..|b| - 1];
      forall r ensures r in c <==> r in d {
        FrontLosesLast(a, r);
        FrontLosesLast(b, r);
      }
      AscendingUnique(c, d);
      assert a == c + [a[|a| - 1]] && b == d + [b[|b| - 1]];
    }
  }

  lemma LastIsLargest(a: seq<Record>, b: seq<Record>)
    requires Ascending(a) && Ascending(b) && a != [] && b != [] && forall r :: r in a <==> r in b
    ensures a[|a| - 1] == b[|b| - 1]
  {
    var x, y := a[|a| - 1], b[|b| - 1];
    assert x in b && y in a;
    var i :| 0 <= i < |b| && b[i] == x;
    var j :| 0 <= j < |a| && a[j] == y;
    if i < |b| - 1 && j < |a| - 1 {
      LexTotal(x.id.value, y.id.value);
    }
  }

  /** The sample depends on the set of records only: any reordering of the source gives the same. */
  lemma {:induction false} SampleIgnoresOrder(
      digest: Digest, records: seq<Record>, others: seq<Record>, size: nat, a: seq<Record>, b: seq<Record>)
    requires forall r :: r in records <==> r in others
    requires IsSample(digest, records, size, a) && IsSample(digest, others, size, b)
    ensures a == b
  {
    assert Ids(records) == Ids(others);
    AscendingUnique(a, b);
  }

  /** A smaller sample is contained in a larger one. */
  lemma SamplesNest(digest: Digest, records: seq<Record>, size: nat, larger: nat, a: seq<Record>, b: seq<Record>)
    requires size <= larger && IsSample(digest, records, size, a) && IsSample(digest, records, larger, b)
    ensures forall r :: r in a ==> r in b
  {}

  ghost function IdSeq(records: seq<Record>): seq<string>
    requires WellFormed(records)
  {
    seq(|records|, i requires 0 <= i < |records| => records[i].id.value)
  }

  lemma SmallestIdsCount(digest: Digest, records: seq<Record>, size: nat)
    requires WellFormed(records) && size <= |records|
    ensures |Smallest(KeyOrder(digest), Ids(records), size)| == size
  {
    var ids := IdSeq(records);
    forall id ensures id in ids <==> id in Ids(records) {
      if id in ids {
        var i :| 0 <= i < |ids| && ids[i] == id;
        assert records[i] in records;
      }
      if r :| r in records && r.id == Some(id) {
        var i :| 0 <= i < |records| && records[i] == r;
        assert ids[i] == id;
      }
    }
    assert Elements(ids) == Ids(records);
    KeyOrderIsTotal(digest);
    SmallestCount(KeyOrder(digest), ids, size);
  }

  /** Removing unselected records, any number of them, changes nothing. */
  lemma {:induction false} RemovingUnselectedChangesNothing(
      digest: Digest, records: seq<Record>, fewer: seq<Record>, size: nat, a: seq<Record>, b: seq<Record>)
    requires WellFormed(records) && size <= |records|
    requires forall r :: r in fewer ==> r in records
    requires IsSample(digest, records, size, a) && forall r :: r in a ==> r in fewer
    requires IsSample(digest, fewer, size, b)
    ensures a == b
  {
    var smallest := Smallest(KeyOrder(digest), Ids(records), size);
    forall id | id in smallest ensures id in Ids(fewer) {
      var r :| r in records && r.id == Some(id);
      assert r in a;
    }
    SmallestIdsCount(digest, records, size);
    KeyOrderIsTotal(digest);
    SmallestSurviveRemoval(KeyOrder(digest), Ids(records), Ids(fewer), size);
    forall r ensures r in a <==> r in b {
      if r in b {
        assert r in fewer && r in records;
      }
      if r in a {
        assert r in fewer;
      }
    }
    AscendingUnique(a, b);
  }
}
