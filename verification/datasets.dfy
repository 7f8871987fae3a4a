/** Listing the authenticated user's datasets and reading the records of one of them. */
module Datasets {
  import opened Options
  import opened Seqs
  import opened JsText
  import opened JsValues
  import opened Store
  import opened Sorting

  // ---------------------------------------------------------------- listDatasets

  /** One entry of the listing: the dataset and how many records it holds. */
  datatype DatasetSummary = DatasetSummary(id: nat, name: string, recordCount: nat)

  datatype ListResponse = ListFailed | Listed(items: seq<DatasetSummary>)
  {
    function Status(): nat {
      if ListFailed? then 500 else 200
    }
  }

  /** The number of records whose `datasetId` is `id`: the `_count` the listing selects. */
  function RecordCount(db: Db, id: nat): (n: nat)
    ensures n == |RecordsOf(db, id)|
  {
    Count(db.records, (x: Record) => x.datasetId == id)
  }

  function Summarise(db: Db, datasets: seq<Dataset>): (r: seq<DatasetSummary>)
    ensures |r| == |datasets|
    ensures forall i :: 0 <= i < |datasets| ==>
      r[i] == DatasetSummary(datasets[i].id, datasets[i].name, RecordCount(db, datasets[i].id))
  {
    seq(|datasets|, i requires 0 <= i < |datasets| => DatasetSummary(datasets[i].id, datasets[i].name, RecordCount(db, datasets[i].id)))
  }

  /** `listDatasets` for the authenticated user `userId`: the user's datasets in storage order,
      each with the size of its record list. */
  function ListDatasets(db: Db, fault: Option<Thrown>, userId: nat): (r: ListResponse)
    ensures fault.Some? <==> r.ListFailed?
    ensures r.Listed? ==>
      var owned := DatasetsOwnedBy(db, userId);
      && |r.items| == |owned|
      && forall i :: 0 <= i < |owned| ==>
           r.items[i] == DatasetSummary(owned[i].id, owned[i].name, |RecordsOf(db, owned[i].id)|)
    ensures r.Listed? ==> forall i :: 0 <= i < |r.items| ==>
      && Dataset(r.items[i].id, r.items[i].name, userId) in db.datasets
      && r.items[i].recordCount == |RecordsOf(db, r.items[i].id)|
  {
    if fault.Some? then ListFailed
    else
      var owned := DatasetsOwnedBy(db, userId);
      assert forall i :: 0 <= i < |owned| ==> owned[i] in owned;
      Listed(Summarise(db, owned))
  }

  /** The listing is empty exactly when the user owns no dataset. */
  lemma {:induction false} EmptyListingIff(db: Db, userId: nat)
    ensures ListDatasets(db, None, userId) == Listed([]) <==> forall d :: d in db.datasets ==> d.userId != userId
  {
    var owned := DatasetsOwnedBy(db, userId);
    if owned != [] {
      assert owned[0] in owned;
    }
  }

  /** A record added to one of the user's datasets raises that dataset's count by one and
      leaves the other counts alone. */
  lemma {:induction false} RecordCountAfterCreate(db: Db, name: string, size: nat, dataJson: DataJson, datasetId: nat, id: nat)
    ensures RecordCount(CreateRecord(db, name, size, dataJson, datasetId).db, id)
         == RecordCount(db, id) + (if id == datasetId then 1 else 0)
  {
    var c := CreateRecord(db, name, size, dataJson, datasetId);
    RecordsOfAppend(db, c.row, id);
  }

  // ---------------------------------------------------------------- getDatasetRecords

  /** A record as the listing shows it: its contents only on a verbose request. */
  datatype RecordView = RecordView(id: nat, name: string, size: nat, createdAt: int, dataJson: Option<DataJson>)

  datatype RecordsResponse =
    | InvalidId
    | RecordsFailed
    | DatasetNotFound
    | RecordList(records: seq<RecordView>)
  {
    function Status(): nat {
      match this
      case InvalidId => 400
      case RecordsFailed => 500
      case DatasetNotFound => 404
      case RecordList(_) => 200
    }
  }

  /** `a` sorts no later than `b` when it is at least as recent: `orderBy: { createdAt: 'desc' }`. */
  predicate NewerFirst(a: Record, b: Record) {
    a.createdAt >= b.createdAt
  }

  lemma NewerFirstPreorder()
    ensures TotalPreorder(NewerFirst)
  {
  }

  /** The dataset's records, most recent first. Records created at the same instant keep their
      storage order. */
  function NewestFirst(records: seq<Record>): (r: seq<Record>)
    ensures multiset(r) == multiset(records) && |r| == |records|
    ensures forall i, j :: 0 <= i < j < |r| ==> r[i].createdAt >= r[j].createdAt
  {
    NewerFirstPreorder();
    var sorted := SortBy(records, NewerFirst);
    assert SortedBy(sorted, NewerFirst);
    assert |multiset(sorted)| == |multiset(records)|;
    sorted
  }

  function View(x: Record, verbose: bool): (v: RecordView)
    ensures v.id == x.id && v.name == x.name && v.size == x.size && v.createdAt == x.createdAt
    ensures v.dataJson.Some? <==> verbose
    ensures verbose ==> v.dataJson == Some(x.dataJson)
  {
    RecordView(x.id, x.name, x.size, x.createdAt, if verbose then Some(x.dataJson) else None)
  }

  function Views(records: seq<Record>, verbose: bool): (r: seq<RecordView>)
    ensures |r| == |records|
    ensures forall i :: 0 <= i < |records| ==> r[i] == View(records[i], verbose)
  {
    seq(|records|, i requires 0 <= i < |records| => View(records[i], verbose))
  }

  /** The records of dataset `id`, most recent first, shown with their contents when `verbose`. */
  function Listing(db: Db, id: int, verbose: bool): (r: seq<RecordView>)
    ensures |r| == |RecordsOf(db, id)|
    ensures forall i, j :: 0 <= i < j < |r| ==> r[i].createdAt >= r[j].createdAt
    ensures forall v :: v in r ==> (v.dataJson.Some? <==> verbose)
  {
    Views(NewestFirst(RecordsOf(db, id)), verbose)
  }

  /** No two datasets share an identifier, as the primary key guarantees. */
  predicate DatasetIdsUnique(db: Db) {
    forall i, j :: 0 <= i < j < |db.datasets| ==> db.datasets[i].id != db.datasets[j].id
  }

  /** Creating a dataset under a fresh identifier keeps identifiers unique. */
  lemma {:induction false} CreateKeepsDatasetIdsUnique(db: Db, name: string, userId: nat)
    requires FreshIds(db) && DatasetIdsUnique(db)
    ensures DatasetIdsUnique(CreateDataset(db, name, userId).db)
  {
    var c := CreateDataset(db, name, userId);
    forall i, j | 0 <= i < j < |c.db.datasets| ensures c.db.datasets[i].id != c.db.datasets[j].id {
      assert c.db.datasets[i] == db.datasets[i];
      if j < |db.datasets| {
        assert c.db.datasets[j] == db.datasets[j];
      }
    }
  }

  /** `getDatasetRecords` once the identifier has parsed as `id`. */
  function ReadDataset(db: Db, fault: Option<Thrown>, userId: nat, id: int, verbose: bool): (r: RecordsResponse)
    ensures !r.InvalidId?
    ensures fault.Some? <==> r.RecordsFailed?
    ensures fault.None? && DatasetIdsUnique(db) ==>
      (r.DatasetNotFound? <==> forall d :: d in db.datasets && d.id == id ==> d.userId != userId)
    ensures r.RecordList? ==>
      && (exists d :: d in db.datasets && d.id == id && d.userId == userId)
      && |r.records| == |RecordsOf(db, id)|
      && (forall i, j :: 0 <= i < j < |r.records| ==> r.records[i].createdAt >= r.records[j].createdAt)
      && (forall v :: v in r.records ==> (v.dataJson.Some? <==> verbose))
  {
    if fault.Some? then RecordsFailed
    else
      match FindDatasetById(db, id)
      case None => DatasetNotFound
      case Some(ds) =>
        if ds.userId != userId then
          assert DatasetIdsUnique(db) ==> forall d :: d in db.datasets && d.id == id ==> d == ds;
          DatasetNotFound
        else RecordList(Listing(db, id, verbose))
  }

  /** `getDatasetRecords` for the authenticated user `userId`, the `:id` path segment `idParam`
      and the `verbose` query parameter, which turns the contents on only when it is the single
      string `true`. A dataset that does not exist and one owned by someone else get the same
      404. */
  function GetDatasetRecords(db: Db, fault: Option<Thrown>, userId: nat, idParam: string, verbose: JsValue): (r: RecordsResponse)
    ensures ParseInt(idParam).None? <==> r.InvalidId?
    ensures ParseInt(idParam).Some? ==> (fault.Some? <==> r.RecordsFailed?)
    ensures ParseInt(idParam).Some? && fault.None? && DatasetIdsUnique(db) ==>
      (r.DatasetNotFound? <==> forall d :: d in db.datasets && d.id == ParseInt(idParam).value ==> d.userId != userId)
    ensures r.RecordList? ==>
      && |r.records| == |RecordsOf(db, ParseInt(idParam).value)|
      && (forall i, j :: 0 <= i < j < |r.records| ==> r.records[i].createdAt >= r.records[j].createdAt)
      && (forall v :: v in r.records ==> (v.dataJson.Some? <==> verbose == Str("true")))
  {
    match ParseInt(idParam)
    case None => InvalidId
    case Some(id) => ReadDataset(db, fault, userId, id, verbose == Str("true"))
  }

  /** No record of the dataset is left out of the listing: each appears with its identifier,
      name, size and creation time. */
  lemma {:induction false} ListedRecordsAreTheDatasets(db: Db, userId: nat, idParam: string, verbose: JsValue, x: Record)
    requires GetDatasetRecords(db, None, userId, idParam, verbose).RecordList?
    requires x in RecordsOf(db, ParseInt(idParam).value)
    ensures View(x, verbose == Str("true")) in GetDatasetRecords(db, None, userId, idParam, verbose).records
  {
    var id := ParseInt(idParam).value;
    var records := NewestFirst(RecordsOf(db, id));
    assert GetDatasetRecords(db, None, userId, idParam, verbose).records == Views(records, verbose == Str("true"));
    assert x in multiset(records);
    var k :| 0 <= k < |records| && records[k] == x;
    assert Views(records, verbose == Str("true"))[k] == View(x, verbose == Str("true"));
  }

  /** The response gives nothing away about datasets of other users: asking for one is
      answered exactly as asking for an identifier no dataset has. */
  lemma {:induction false} ForeignLooksMissing(db: Db, userId: nat, idParam: string, missing: string, verbose: JsValue)
    requires ParseInt(idParam).Some? && ParseInt(missing).Some? && DatasetIdsUnique(db)
    requires forall d :: d in db.datasets && d.id == ParseInt(idParam).value ==> d.userId != userId
    requires forall d :: d in db.datasets ==> d.id != ParseInt(missing).value
    ensures GetDatasetRecords(db, None, userId, idParam, verbose) == GetDatasetRecords(db, None, userId, missing, verbose)
  {
  }

  /** An identifier without any decimal digit is refused before the store is read. */
  lemma {:induction false} NonNumericIdRefused(db: Db, fault: Option<Thrown>, userId: nat, idParam: string, verbose: JsValue)
    requires forall i :: 0 <= i < |idParam| ==> !IsAsciiDigit(idParam[i])
    ensures GetDatasetRecords(db, fault, userId, idParam, verbose) == InvalidId
  {
  }

  /** A canonical decimal identifier reaches the store as that number. */
  lemma {:induction false} DecimalIdParsed(db: Db, userId: nat, n: nat, verbose: JsValue)
    requires DatasetIdsUnique(db)
    ensures GetDatasetRecords(db, None, userId, DecimalString(n), verbose).InvalidId? == false
    ensures GetDatasetRecords(db, None, userId, DecimalString(n), verbose).DatasetNotFound? <==>
      forall d :: d in db.datasets && d.id == n ==> d.userId != userId
  {
    ParseIntDecimal(n);
  }
}
