/** Record search: every occurrence of the query in the serialised content of each record of
    the selected datasets, found left to right without overlap, then ranked with the exact
    matches first and by matched text within each group. The query is taken as a literal
    pattern matched regardless of ASCII letter case. */
module Search {
  import opened Options
  import opened Seqs
  import opened JsText
  import opened JsValues
  import opened Store
  import opened Sorting

  /** A hit as the response lists it: where it was found, its span in the serialised record,
      the query it answers and the text it matched. */
  datatype Hit = Hit(datasetName: string, recordName: string, start: nat, end: nat, query: string, text: string)

  datatype SearchResponse =
    | BadQuery
    | SearchFailed
    | Found(hits: seq<Hit>)
  {
    function Status(): nat {
      match this
      case BadQuery => 400
      case SearchFailed => 500
      case Found(_) => 200
    }
  }

  // ---------------------------------------------------------------- matching one text

  /** The text at position `p` spells `q`, ignoring ASCII letter case. */
  predicate MatchesAt(text: string, q: string, p: nat) {
    p + |q| <= |text| && SameUpToCase(text[p..p + |q|], q)
  }

  /** One `exec` of the global pattern from `lastIndex`: the leftmost position at or after it
      where the query matches. */
  function Exec(text: string, q: string, lastIndex: nat): (r: Option<nat>)
    ensures r.Some? ==> lastIndex <= r.value && MatchesAt(text, q, r.value)
    ensures r.Some? ==> forall p :: lastIndex <= p < r.value ==> !MatchesAt(text, q, p)
    ensures r.None? ==> forall p :: lastIndex <= p ==> !MatchesAt(text, q, p)
    decreases |text| - lastIndex
  {
    if lastIndex + |q| > |text| then None
    else if MatchesAt(text, q, lastIndex) then Some(lastIndex)
    else Exec(text, q, lastIndex + 1)
  }

  /** The `exec` loop from `lastIndex`: the start of each match, the next search resuming
      where the previous match ended. The starts are matches and increase without the
      matches overlapping. */
  function Occurrences(text: string, q: string, lastIndex: nat): (r: seq<nat>)
    requires q != []
    ensures forall s :: s in r ==> lastIndex <= s && MatchesAt(text, q, s)
    ensures forall k :: 0 <= k < |r| - 1 ==> r[k] + |q| <= r[k + 1]
    decreases |text| - lastIndex
  {
    match Exec(text, q, lastIndex)
    case None => []
    case Some(p) => [p] + Occurrences(text, q, p + |q|)
  }

  /** The scan misses no match: every position at or after `lastIndex` where the query
      matches is a start the scan reports, or lies inside a match it reports. */
  lemma {:induction false} OccurrencesComplete(text: string, q: string, lastIndex: nat, x: nat)
    requires q != [] && lastIndex <= x && MatchesAt(text, q, x)
    ensures var r := Occurrences(text, q, lastIndex);
      x in r || exists k :: 0 <= k < |r| && r[k] < x < r[k] + |q|
    decreases |text| - lastIndex
  {
    var p := Exec(text, q, lastIndex).value;
    var rest := Occurrences(text, q, p + |q|);
    var r := [p] + rest;
    assert Occurrences(text, q, lastIndex) == r;
    if x == p {
    } else if x < p + |q| {
      assert r[0] < x < r[0] + |q|;
    } else {
      OccurrencesComplete(text, q, p + |q|, x);
      if x !in rest {
        var k :| 0 <= k < |rest| && rest[k] < x < rest[k] + |q|;
        assert r[k + 1] == rest[k];
      }
    }
  }

  /** The hits in one record's serialised content, one per reported start. */
  function RecordHits(datasetName: string, rec: Record, q: string, stringify: DataJson -> string): (r: seq<Hit>)
    requires q != []
    ensures forall h :: h in r ==> h.datasetName == datasetName && h.recordName == rec.name && h.query == q
  {
    var text := stringify(rec.dataJson);
    var starts := Occurrences(text, q, 0);
    seq(|starts|, k requires 0 <= k < |starts| =>
      assert starts[k] in starts;
      Hit(datasetName, rec.name, starts[k], starts[k] + |q|, q, text[starts[k]..starts[k] + |q|]))
  }

  /** Hit `k` of a record is the text at its span of the serialised record, and spells the
      query up to ASCII letter case. */
  lemma {:induction false} RecordHitSpan(datasetName: string, rec: Record, q: string, stringify: DataJson -> string, k: nat)
    requires q != [] && k < |RecordHits(datasetName, rec, q, stringify)|
    ensures var h := RecordHits(datasetName, rec, q, stringify)[k];
      var text := stringify(rec.dataJson);
      && h.end == h.start + |q| <= |text|
      && h.text == text[h.start..h.end]
      && ToLowerAscii(h.text) == ToLowerAscii(q)
  {
    var text := stringify(rec.dataJson);
    var starts := Occurrences(text, q, 0);
    var p := starts[k];
    assert p in starts;
    assert RecordHits(datasetName, rec, q, stringify)[k] == Hit(datasetName, rec.name, p, p + |q|, q, text[p..p + |q|]);
    SameUpToCaseIff(text[p..p + |q|], q);
  }

  /** The hits of a record come in text order and do not overlap. */
  lemma {:induction false} RecordHitsOrdered(datasetName: string, rec: Record, q: string, stringify: DataJson -> string, k: nat)
    requires q != [] && k + 1 < |RecordHits(datasetName, rec, q, stringify)|
    ensures var r := RecordHits(datasetName, rec, q, stringify);
      r[k].end <= r[k + 1].start
  {
    var text := stringify(rec.dataJson);
    var starts := Occurrences(text, q, 0);
    assert starts[k] + |q| <= starts[k + 1];
  }

  // ---------------------------------------------------------------- the scan

  /** The hits of the records of one dataset, record by record in the order given. */
  function DatasetHits(ds: Dataset, records: seq<Record>, q: string, stringify: DataJson -> string): (r: seq<Hit>)
    requires q != []
    ensures forall h :: h in r ==> h.datasetName == ds.name && h.query == q
  {
    if records == [] then []
    else RecordHits(ds.name, records[0], q, stringify) + DatasetHits(ds, records[1..], q, stringify)
  }

  /** The hits of the datasets, dataset by dataset in the order given, each over its records
      in storage order. */
  function ScanHits(db: Db, datasets: seq<Dataset>, q: string, stringify: DataJson -> string): (r: seq<Hit>)
    requires q != []
    ensures forall h :: h in r ==> h.query == q
  {
    if datasets == [] then []
    else DatasetHits(datasets[0], RecordsOf(db, datasets[0].id), q, stringify) + ScanHits(db, datasets[1..], q, stringify)
  }

  /** The hits of a record list are those of its parts, in order. */
  lemma {:induction false} DatasetHitsAppend(ds: Dataset, a: seq<Record>, b: seq<Record>, q: string, stringify: DataJson -> string)
    requires q != []
    ensures DatasetHits(ds, a + b, q, stringify) == DatasetHits(ds, a, q, stringify) + DatasetHits(ds, b, q, stringify)
    decreases |a|
  {
    if a == [] {
      assert a + b == b;
    } else {
      assert (a + b)[0] == a[0];
      assert (a + b)[1..] == a[1..] + b;
      DatasetHitsAppend(ds, a[1..], b, q, stringify);
    }
  }

  /** The hits of a dataset list are those of its parts, in order: the scan groups its hits by
      dataset in the order the datasets are read. */
  lemma {:induction false} ScanHitsAppend(db: Db, a: seq<Dataset>, b: seq<Dataset>, q: string, stringify: DataJson -> string)
    requires q != []
    ensures ScanHits(db, a + b, q, stringify) == ScanHits(db, a, q, stringify) + ScanHits(db, b, q, stringify)
    decreases |a|
  {
    if a == [] {
      assert a + b == b;
    } else {
      assert (a + b)[0] == a[0];
      assert (a + b)[1..] == a[1..] + b;
      ScanHitsAppend(db, a[1..], b, q, stringify);
    }
  }

  /** One more dataset adds its hits after the others. */
  lemma {:induction false} ScanHitsSnoc(db: Db, a: seq<Dataset>, d: Dataset, q: string, stringify: DataJson -> string)
    requires q != []
    ensures ScanHits(db, a + [d], q, stringify) == ScanHits(db, a, q, stringify) + DatasetHits(d, RecordsOf(db, d.id), q, stringify)
  {
    ScanHitsAppend(db, a, [d], q, stringify);
    assert [d][1..] == [];
  }

  /** One more record adds its hits after the others. */
  lemma {:induction false} DatasetHitsSnoc(ds: Dataset, a: seq<Record>, x: Record, q: string, stringify: DataJson -> string)
    requires q != []
    ensures DatasetHits(ds, a + [x], q, stringify) == DatasetHits(ds, a, q, stringify) + RecordHits(ds.name, x, q, stringify)
  {
    DatasetHitsAppend(ds, a, [x], q, stringify);
    assert [x][1..] == [];
  }

  /** The inner loop of the search: each record of one dataset in turn, its hits appended as
      they are found. */
  method ScanDataset(ds: Dataset, records: seq<Record>, q: string, stringify: DataJson -> string) returns (found: seq<Hit>)
    requires q != []
    ensures found == DatasetHits(ds, records, q, stringify)
  {
    found := [];
    var j := 0;
    while j < |records|
      invariant 0 <= j <= |records|
      invariant found == DatasetHits(ds, records[..j], q, stringify)
    {
      DatasetHitsSnoc(ds, records[..j], records[j], q, stringify);
      assert records[..j + 1] == records[..j] + [records[j]];
      found := found + RecordHits(ds.name, records[j], q, stringify);
      j := j + 1;
    }
    assert records[..j] == records;
  }

  /** The outer loop of the search: each dataset in turn, over its records in storage order. */
  method Scan(db: Db, datasets: seq<Dataset>, q: string, stringify: DataJson -> string) returns (hits: seq<Hit>)
    requires q != []
    ensures hits == ScanHits(db, datasets, q, stringify)
  {
    hits := [];
    var i := 0;
    while i < |datasets|
      invariant 0 <= i <= |datasets|
      invariant hits == ScanHits(db, datasets[..i], q, stringify)
    {
      var found := ScanDataset(datasets[i], RecordsOf(db, datasets[i].id), q, stringify);
      ScanHitsSnoc(db, datasets[..i], datasets[i], q, stringify);
      assert datasets[..i + 1] == datasets[..i] + [datasets[i]];
      hits := hits + found;
      i := i + 1;
    }
    assert datasets[..i] == datasets;
  }

  // ---------------------------------------------------------------- ranking

  /** Code-point order on strings, a proper prefix sorting first: the order in which
      `localeCompare` is taken to compare matched texts. */
  predicate TextLe(a: string, b: string) {
    a == [] || (b != [] && (a[0] < b[0] || (a[0] == b[0] && TextLe(a[1..], b[1..]))))
  }

  lemma {:induction false} TextLeTotal(a: string, b: string)
    ensures TextLe(a, b) || TextLe(b, a)
  {
    if a != [] && b != [] && a[0] == b[0] {
      TextLeTotal(a[1..], b[1..]);
    }
  }

  lemma {:induction false} TextLeTransitive(a: string, b: string, c: string)
    requires TextLe(a, b) && TextLe(b, c)
    ensures TextLe(a, c)
  {
    if a != [] && b != [] && c != [] && a[0] == b[0] && b[0] == c[0] {
      TextLeTransitive(a[1..], b[1..], c[1..]);
    }
  }

  /** Two texts that each sort no later than the other are equal. */
  lemma {:induction false} TextLeAntisymmetric(a: string, b: string)
    requires TextLe(a, b) && TextLe(b, a)
    ensures a == b
  {
    if a != [] && b != [] {
      TextLeAntisymmetric(a[1..], b[1..]);
      assert a == [a[0]] + a[1..] && b == [b[0]] + b[1..];
    }
  }

  /** The hit matched the query exactly, letter case included. */
  predicate IsExact(h: Hit) {
    h.text == h.query
  }

  /** The comparator's order: an exact hit before an inexact one, and within each group by
      matched text. */
  predicate HitLe(a: Hit, b: Hit) {
    (IsExact(a) && !IsExact(b)) || (IsExact(a) == IsExact(b) && TextLe(a.text, b.text))
  }

  /** The comparator returns 0 exactly for two hits of the same exactness with the same
      matched text. */
  lemma {:induction false} HitLeTies(a: Hit, b: Hit)
    ensures HitLe(a, b) && HitLe(b, a) <==> IsExact(a) == IsExact(b) && a.text == b.text
  {
    if HitLe(a, b) && HitLe(b, a) {
      TextLeAntisymmetric(a.text, b.text);
    }
    if a.text == b.text {
      TextLeTotal(a.text, b.text);
    }
  }

  lemma HitLeTotalPreorder()
    ensures TotalPreorder(HitLe)
  {
    forall a, b ensures HitLe(a, b) || HitLe(b, a) {
      TextLeTotal(a.text, b.text);
    }
    forall a, b, c | HitLe(a, b) && HitLe(b, c) ensures HitLe(a, c) {
      if IsExact(a) == IsExact(b) && IsExact(b) == IsExact(c) {
        TextLeTransitive(a.text, b.text, c.text);
      }
    }
  }

  /** The hits sorted by the comparator; equal hits keep their scan order. */
  function Rank(hits: seq<Hit>): (r: seq<Hit>)
    ensures multiset(r) == multiset(hits)
    ensures forall i, j :: 0 <= i < j < |r| && IsExact(r[j]) ==> IsExact(r[i])
    ensures forall i, j :: 0 <= i < j < |r| && IsExact(r[i]) == IsExact(r[j]) ==> TextLe(r[i].text, r[j].text)
    ensures forall x :: EquivalentsOf(r, x, HitLe) == EquivalentsOf(hits, x, HitLe)
  {
    HitLeTotalPreorder();
    var r := SortBy(hits, HitLe);
    assert forall i, j :: 0 <= i < j < |r| ==> HitLe(r[i], r[j]);
    r
  }

  /** Hits that the comparator ties (same exactness, same text) stay in scan order. */
  lemma {:induction false} RankStable(hits: seq<Hit>, x: Hit)
    ensures EquivalentsOf(Rank(hits), x, HitLe) == EquivalentsOf(hits, x, HitLe)
  {
    HitLeTotalPreorder();
  }

  // ---------------------------------------------------------------- the controller

  /** `searchController`: `userId` is the route parameter, `None` when the route declares
      none, in which case every dataset is searched. A healthy request with a query is
      answered with the scan's hits ranked: exact hits first, each group in matched-text
      order, ties in scan order. */
  function SearchRecords(db: Db, fault: Option<Thrown>, userId: Option<nat>, query: JsValue, stringify: DataJson -> string): (r: SearchResponse)
    ensures IsMissingString(query) <==> r == BadQuery
    ensures !IsMissingString(query) && fault.Some? ==> r == SearchFailed
    ensures !IsMissingString(query) && fault.None? ==> r.Found?
    ensures r.Found? ==> fault.None? && query.Str? && query.s != []
    ensures r.Found? ==>
      var scanned := ScanHits(db, DatasetsWhere(db, userId), query.s, stringify);
      && multiset(r.hits) == multiset(scanned)
      && (forall i, j :: 0 <= i < j < |r.hits| && IsExact(r.hits[j]) ==> IsExact(r.hits[i]))
      && (forall i, j :: 0 <= i < j < |r.hits| && IsExact(r.hits[i]) == IsExact(r.hits[j]) ==> TextLe(r.hits[i].text, r.hits[j].text))
      && (forall x :: EquivalentsOf(r.hits, x, HitLe) == EquivalentsOf(scanned, x, HitLe))
    ensures r.Found? ==> forall h :: h in r.hits ==> h.query == query.s
  {
    if IsMissingString(query) then BadQuery
    else if fault.Some? then SearchFailed
    else
      var scanned := ScanHits(db, DatasetsWhere(db, userId), query.s, stringify);
      var ranked := Rank(scanned);
      assert forall h :: h in ranked ==> h in scanned by {
        forall h | h in ranked ensures h in scanned {
          assert h in multiset(ranked);
        }
      }
      Found(ranked)
  }

  /** With no dataset to search, the answer is an empty list of hits, not an error. */
  lemma {:induction false} NoDatasetsNoHits(db: Db, userId: Option<nat>, query: JsValue, stringify: DataJson -> string)
    requires !IsMissingString(query) && DatasetsWhere(db, userId) == []
    ensures SearchRecords(db, None, userId, query, stringify) == Found([])
  {
    var none: seq<Hit> := [];
    assert ScanHits(db, [], query.s, stringify) == none;
    assert multiset(Rank(none)) == multiset(none);
  }
}
