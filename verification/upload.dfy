/** Dataset upload: the request checks, in the order they are made, then the ingestion of the
    files into a new or existing dataset of the user. The CSV and PDF parsers are left abstract;
    the store's failures are an error thrown at its first access. */
module Upload {
  import opened Options
  import opened Seqs
  import opened JsText
  import opened JsValues
  import opened Store

  /** A file as the upload middleware hands it over. */
  datatype UploadedFile = UploadedFile(originalName: string, mimetype: string, buffer: seq<bv8>, size: nat)

  /** An upload request: the authenticated user, the two body fields and the uploaded files
      (`None` when the request carried no file field). */
  datatype UploadRequest = UploadRequest(userId: nat, datasetName: JsValue, recordNames: JsValue, files: Option<seq<UploadedFile>>)

  /** An entry of a 400 response's `errors`: the field, the message, and the offending record
      name for the errors about one. */
  datatype UploadError = UploadError(field: string, message: string, name: Option<string>)

  /** A created record as the 201 response lists it. */
  datatype RecordSummary = RecordSummary(id: nat, name: string, size: nat, createdAt: int)

  datatype UploadResponse =
    | Rejected(errors: seq<UploadError>)
    | TooLarge(field: Option<string>)
    | Failed
    | Ingested(datasetId: nat, datasetName: string, records: seq<RecordSummary>)
  {
    function Status(): nat {
      match this
      case Rejected(_) => 400
      case TooLarge(_) => 413
      case Failed => 500
      case Ingested(_, _, _) => 201
    }
  }

  /** The two content parsers: CSV bytes to rows, PDF bytes to their text. Either may throw. */
  datatype Parsers = Parsers(csv: seq<bv8> -> Attempt<seq<CsvRow>>, pdf: seq<bv8> -> Attempt<string>)

  const NoFilesMessage := "Nenhum arquivo enviado"
  const DatasetNameMessage := "Nome do dataset é obrigatório"
  const RecordNamesMessage := "Nomes dos records devem ser enviados"
  const RecordCountMessage := "Nomes dos records devem ser enviados e corresponder ao número de arquivos"

  function DuplicateMessage(name: string): string {
    "Nome de record duplicado na requisição: \"" + name + "\""
  }

  function CollisionMessage(name: string): string {
    "Record com nome \"" + name + "\" já existe neste dataset."
  }

  // ---------------------------------------------------------------- record names

  /** `n` is the trim of one of the pieces. */
  predicate TrimOfPiece(n: string, parts: seq<string>) {
    parts != [] && (Trim(parts[0]) == n || TrimOfPiece(n, parts[1..]))
  }

  /** The trimmed pieces that are not empty, in order. */
  function TrimmedNonEmpty(parts: seq<string>): (r: seq<string>)
    ensures |r| <= |parts|
    ensures forall n :: n in r ==> n != [] && Trim(n) == n
    ensures forall n :: n in r ==> TrimOfPiece(n, parts)
  {
    if parts == [] then []
    else
      var t := Trim(parts[0]);
      var rest := TrimmedNonEmpty(parts[1..]);
      var r := if t == [] then rest else [t] + rest;
      TrimmedStep(parts, rest, r);
      r
  }

  /** One step of `TrimmedNonEmpty`: the names read from the pieces after the first, preceded
      by the first piece's trimmed form unless that is empty, are trimmed, non-empty trims of
      the pieces. */
  lemma {:induction false} TrimmedStep(parts: seq<string>, rest: seq<string>, r: seq<string>)
    requires parts != []
    requires forall n :: n in rest ==> n != [] && Trim(n) == n && TrimOfPiece(n, parts[1..])
    requires r == if Trim(parts[0]) == [] then rest else [Trim(parts[0])] + rest
    ensures forall n :: n in r ==> n != [] && Trim(n) == n && TrimOfPiece(n, parts)
  {
    forall n | n in r ensures n != [] && Trim(n) == n && TrimOfPiece(n, parts) {
      if n !in rest {
        assert n == Trim(parts[0]);
        TrimIdempotent(parts[0]);
      }
    }
  }

  /** A `recordNames` field sent as one string: split on commas, each piece trimmed, the empty
      pieces dropped. */
  function SplitRecordNames(s: string): (r: seq<string>)
    ensures forall n :: n in r ==> n != [] && Trim(n) == n
  {
    TrimmedNonEmpty(Split(s, ','))
  }

  /** No non-blank piece is lost: its trimmed form is among the names. */
  lemma {:induction false} TrimmedNonEmptyComplete(parts: seq<string>, i: nat)
    requires i < |parts| && Trim(parts[i]) != []
    ensures Trim(parts[i]) in TrimmedNonEmpty(parts)
    decreases i
  {
    if i == 0 {
      TrimmedNonEmptyHead(parts);
    } else {
      assert parts[1..][i - 1] == parts[i];
      TrimmedNonEmptyComplete(parts[1..], i - 1);
      TrimmedNonEmptyTail(parts, Trim(parts[i]));
    }
  }

  /** The first piece's trimmed form, when not empty, is the first name. */
  lemma {:induction false} TrimmedNonEmptyHead(parts: seq<string>)
    requires parts != [] && Trim(parts[0]) != []
    ensures TrimmedNonEmpty(parts)[0] == Trim(parts[0])
  {
  }

  /** The names read from all pieces but the first are among those read from all of them. */
  lemma {:induction false} TrimmedNonEmptyTail(parts: seq<string>, n: string)
    requires parts != [] && n in TrimmedNonEmpty(parts[1..])
    ensures n in TrimmedNonEmpty(parts)
  {
    var rest := TrimmedNonEmpty(parts[1..]);
    if Trim(parts[0]) != [] {
      assert TrimmedNonEmpty(parts) == [Trim(parts[0])] + rest;
    }
  }

  /** Pieces that are already trimmed and not empty pass through unchanged. */
  lemma {:induction false} TrimmedNonEmptyKeeps(parts: seq<string>)
    requires forall n :: n in parts ==> n != [] && Trim(n) == n
    ensures TrimmedNonEmpty(parts) == parts
  {
    if parts != [] {
      assert parts[0] in parts;
      assert Trim(parts[0]) == parts[0] != [];
      assert TrimmedNonEmpty(parts) == [parts[0]] + TrimmedNonEmpty(parts[1..]);
      assert forall n :: n in parts[1..] ==> n in parts;
      TrimmedNonEmptyKeeps(parts[1..]);
      assert parts == [parts[0]] + parts[1..];
    }
  }

  /** An empty field reads as no names at all. */
  lemma NoRecordNames()
    ensures SplitRecordNames([]) == []
  {
    assert Split([], ',') == [[]];
    assert Trim([]) == [];
  }

  /** Names that are non-empty, trimmed and free of commas, sent joined by commas, are read back
      as the same list. */
  lemma {:induction false} SplitRecordNamesJoin(names: seq<string>)
    requires forall n :: n in names ==> n != [] && Trim(n) == n && ',' !in n
    ensures SplitRecordNames(Join(names, ",")) == names
  {
    if names == [] {
      NoRecordNames();
    } else {
      SplitJoin(names, ',');
      TrimmedNonEmptyKeeps(names);
    }
  }

  // ---------------------------------------------------------------- duplicates

  /** The state of the scan of `findDuplicates` after the first `i` items: `seen` holds the
      items met so far and `dups` those met at least twice, each once. */
  ghost predicate ScanState(s: seq<string>, i: nat, seen: set<string>, dups: seq<string>) {
    && i <= |s|
    && (forall x :: x in seen <==> x in multiset(s[..i]))
    && (forall x :: x in dups <==> multiset(s[..i])[x] >= 2)
    && Distinct(dups)
  }

  /** Meeting an item already seen records it as a duplicate, unless it is recorded already. */
  lemma {:induction false} ScanSeenAgain(s: seq<string>, i: nat, seen: set<string>, dups: seq<string>)
    requires ScanState(s, i, seen, dups) && i < |s| && s[i] in seen
    ensures ScanState(s, i + 1, seen, if s[i] in dups then dups else dups + [s[i]])
  {
    assert s[..i + 1] == s[..i] + [s[i]];
  }

  /** Meeting a new item adds it to the items seen. */
  lemma {:induction false} ScanFirstSeen(s: seq<string>, i: nat, seen: set<string>, dups: seq<string>)
    requires ScanState(s, i, seen, dups) && i < |s| && s[i] !in seen
    ensures ScanState(s, i + 1, seen + {s[i]}, dups)
  {
    assert s[..i + 1] == s[..i] + [s[i]];
  }

  /** The scan of `findDuplicates` from item `i` on; the duplicates keep the order in which
      their second occurrence is met. */
  function DuplicateScan(s: seq<string>, i: nat, seen: set<string>, dups: seq<string>): (r: seq<string>)
    requires ScanState(s, i, seen, dups)
    ensures forall x :: x in r <==> multiset(s)[x] >= 2
    ensures Distinct(r)
    decreases |s| - i
  {
    if i == |s| then
      assert s[..i] == s;
      dups
    else if s[i] in seen then
      ScanSeenAgain(s, i, seen, dups);
      DuplicateScan(s, i + 1, seen, if s[i] in dups then dups else dups + [s[i]])
    else
      ScanFirstSeen(s, i, seen, dups);
      DuplicateScan(s, i + 1, seen + {s[i]}, dups)
  }

  /** `findDuplicates`: every value occurring at least twice, each once. */
  function FindDuplicates(s: seq<string>): (r: seq<string>)
    ensures forall x :: x in r <==> multiset(s)[x] >= 2
    ensures Distinct(r)
  {
    assert s[..0] == [];
    DuplicateScan(s, 0, {}, [])
  }

  lemma {:induction false} DistinctAtMostOnce(s: seq<string>, x: string)
    requires Distinct(s)
    ensures multiset(s)[x] <= 1
  {
    if s != [] {
      assert s == [s[0]] + s[1..];
      assert Distinct(s[1..]) by {
        forall i, j | 0 <= i < j < |s[1..]| ensures s[1..][i] != s[1..][j] {
          assert s[1..][i] == s[i + 1] && s[1..][j] == s[j + 1];
        }
      }
      DistinctAtMostOnce(s[1..], x);
      if x == s[0] {
        assert x !in s[1..] by {
          forall k | 0 <= k < |s[1..]| ensures s[1..][k] != x {
            assert s[1..][k] == s[k + 1];
          }
        }
      }
    }
  }

  lemma {:induction false} TwiceCounted(s: seq<string>, i: nat, j: nat)
    requires i < j < |s| && s[i] == s[j]
    ensures multiset(s)[s[i]] >= 2
  {
    assert s == s[..j] + s[j..];
    assert s[i] == s[..j][i];
    assert s[j] == s[j..][0];
  }

  /** `findDuplicates` returns `[]` exactly when the names are pairwise distinct. */
  lemma {:induction false} NoDuplicatesIff(s: seq<string>)
    ensures FindDuplicates(s) == [] <==> Distinct(s)
  {
    var r := FindDuplicates(s);
    if Distinct(s) && r != [] {
      DistinctAtMostOnce(s, r[0]);
    }
    if !Distinct(s) {
      var i, j :| 0 <= i < j < |s| && s[i] == s[j];
      TwiceCounted(s, i, j);
      assert s[i] in r;
    }
  }

  // ---------------------------------------------------------------- request checks

  /** The outcome of the request checks: the errors of the first check that fails, or the
      dataset name, the record names and the files to ingest. */
  datatype Checked =
    | Invalid(errors: seq<UploadError>)
    | Valid(datasetName: string, names: seq<string>, files: seq<UploadedFile>)

  /** The record names carried by the `recordNames` field: a string is split, a repeated field
      is taken as sent, anything else carries no list. */
  function RecordNameList(v: JsValue): (r: Option<seq<string>>)
    ensures r.Some? <==> v.Str? || v.StrList?
    ensures v.StrList? ==> r == Some(v.items)
    ensures v.Str? ==> forall n :: n in r.value ==> n != [] && Trim(n) == n
  {
    match v
    case Str(s) => Some(SplitRecordNames(s))
    case StrList(items) => Some(items)
    case _ => None
  }

  function DuplicateErrors(dups: seq<string>): (r: seq<UploadError>)
    ensures |r| == |dups|
    ensures forall i :: 0 <= i < |dups| ==> r[i] == UploadError("recordName", DuplicateMessage(dups[i]), Some(dups[i]))
  {
    seq(|dups|, i requires 0 <= i < |dups| => UploadError("recordName", DuplicateMessage(dups[i]), Some(dups[i])))
  }

  /** The request checks, in order: files present, dataset name a non-empty string, record
      names present, as many record names as files, no record name twice. Each failure yields
      its own errors; a request passing all of them has a non-empty dataset name and one
      distinct name per file. */
  function Check(req: UploadRequest): (c: Checked)
    ensures c.Invalid? ==> c.errors != []
    ensures c.Valid? ==> && req.files == Some(c.files) && c.files != []
                         && req.datasetName == Str(c.datasetName) && c.datasetName != ""
                         && RecordNameList(req.recordNames) == Some(c.names)
                         && |c.names| == |c.files| && Distinct(c.names)
    ensures req.files.None? || req.files == Some([]) ==> c == Invalid([UploadError("files", NoFilesMessage, None)])
    ensures req.files.Some? && req.files.value != [] && IsMissingString(req.datasetName) ==>
      c == Invalid([UploadError("datasetName", DatasetNameMessage, None)])
    ensures req.files.Some? && req.files.value != [] && !IsMissingString(req.datasetName) && IsFalsy(req.recordNames) ==>
      c == Invalid([UploadError("recordNames", RecordNamesMessage, None)])
    ensures req.files.Some? && req.files.value != [] && !IsMissingString(req.datasetName) && !IsFalsy(req.recordNames)
            && (RecordNameList(req.recordNames).None? || |RecordNameList(req.recordNames).value| != |req.files.value|) ==>
      c == Invalid([UploadError("recordNames", RecordCountMessage, None)])
  {
    if req.files.None? || req.files.value == [] then
      Invalid([UploadError("files", NoFilesMessage, None)])
    else if IsMissingString(req.datasetName) then
      Invalid([UploadError("datasetName", DatasetNameMessage, None)])
    else if IsFalsy(req.recordNames) then
      Invalid([UploadError("recordNames", RecordNamesMessage, None)])
    else
      var names := RecordNameList(req.recordNames);
      if names.None? || |names.value| != |req.files.value| then
        Invalid([UploadError("recordNames", RecordCountMessage, None)])
      else
        var dups := FindDuplicates(names.value);
        NoDuplicatesIff(names.value);
        if dups != [] then Invalid(DuplicateErrors(dups))
        else Valid(req.datasetName.s, names.value, req.files.value)
  }

  /** The errors for the repeated names of `names`: one per repeated name, no name twice, each
      with the duplicate message for it. */
  lemma {:induction false} DuplicateErrorsExact(names: seq<string>)
    ensures var errs := DuplicateErrors(FindDuplicates(names));
      && (forall e :: e in errs ==> e.field == "recordName" && e.name.Some? && e.message == DuplicateMessage(e.name.value))
      && (forall n :: (exists e :: e in errs && e.name == Some(n)) <==> multiset(names)[n] >= 2)
      && (forall i, j :: 0 <= i < j < |errs| ==> errs[i].name != errs[j].name)
  {
    var dups := FindDuplicates(names);
    var errs := DuplicateErrors(dups);
    forall e | e in errs ensures e.field == "recordName" && e.name.Some? && e.message == DuplicateMessage(e.name.value) {
      var k :| 0 <= k < |errs| && errs[k] == e;
    }
    forall n ensures (exists e :: e in errs && e.name == Some(n)) <==> multiset(names)[n] >= 2 {
      if multiset(names)[n] >= 2 {
        var k :| 0 <= k < |dups| && dups[k] == n;
        assert errs[k].name == Some(n);
      }
    }
    forall i, j | 0 <= i < j < |errs| ensures errs[i].name != errs[j].name {
      assert errs[i].name == Some(dups[i]) && errs[j].name == Some(dups[j]);
    }
  }

  /** A request whose names repeat is refused with one error per repeated name, whatever else it holds. */
  lemma {:induction false} RepeatedNamesRejected(req: UploadRequest)
    requires req.files.Some? && req.files.value != [] && !IsMissingString(req.datasetName) && !IsFalsy(req.recordNames)
    requires RecordNameList(req.recordNames).Some?
    requires |RecordNameList(req.recordNames).value| == |req.files.value|
    requires !Distinct(RecordNameList(req.recordNames).value)
    ensures Check(req).Invalid?
    ensures forall e :: e in Check(req).errors ==> e.field == "recordName" && e.name.Some?
    ensures forall n :: (exists e :: e in Check(req).errors && e.name == Some(n))
                        <==> multiset(RecordNameList(req.recordNames).value)[n] >= 2
    ensures forall i, j :: 0 <= i < j < |Check(req).errors| ==> Check(req).errors[i].name != Check(req).errors[j].name
    ensures forall e :: e in Check(req).errors ==> e.message == DuplicateMessage(e.name.value)
  {
    var names := RecordNameList(req.recordNames).value;
    NoDuplicatesIff(names);
    assert Check(req) == Invalid(DuplicateErrors(FindDuplicates(names)));
    DuplicateErrorsExact(names);
  }

  // ---------------------------------------------------------------- ingestion

  /** The content stored for a file: its CSV rows, or the text of its PDF. Any other mimetype
      throws an error without a code. */
  function ParseFile(f: UploadedFile, parsers: Parsers): (r: Attempt<DataJson>)
    ensures r.Returned? <==> (f.mimetype == "text/csv" && parsers.csv(f.buffer).Returned?)
                             || (f.mimetype == "application/pdf" && parsers.pdf(f.buffer).Returned?)
    ensures r.Returned? && f.mimetype == "text/csv" ==> r.value == CsvRows(parsers.csv(f.buffer).value)
    ensures r.Returned? && f.mimetype == "application/pdf" ==> r.value == PdfText(parsers.pdf(f.buffer).value)
    ensures r.Threw? && f.mimetype == "text/csv" ==> r.error == parsers.csv(f.buffer).error
    ensures r.Threw? && f.mimetype == "application/pdf" ==> r.error == parsers.pdf(f.buffer).error
  {
    if f.mimetype == "text/csv" then
      match parsers.csv(f.buffer)
      case Returned(rows) => Returned(CsvRows(rows))
      case Threw(e) => Threw(e)
    else if f.mimetype == "application/pdf" then
      match parsers.pdf(f.buffer)
      case Returned(text) => Returned(PdfText(text))
      case Threw(e) => Threw(e)
    else Threw(Thrown(None, None))
  }

  lemma {:induction false} UnsupportedMimetypeThrows(f: UploadedFile, parsers: Parsers)
    requires f.mimetype != "text/csv" && f.mimetype != "application/pdf"
    ensures ParseFile(f, parsers).Threw? && ParseFile(f, parsers).error.code.None?
  {
  }

  /** The records written for the files, in file order, and the error of the first file that
      failed, if any. */
  datatype Ingestion = Ingestion(db: Db, created: seq<Record>, failure: Option<Thrown>)

  /** Record creation for every file, each started independently of the others: file `i`
      becomes a record named `names[i]` of its size and parsed content when its parse
      succeeds, and the batch fails with the error of the first file that did not parse. */
  function Ingest(db: Db, files: seq<UploadedFile>, names: seq<string>, datasetId: nat, parsers: Parsers): (r: Ingestion)
    requires |files| == |names|
    ensures r.db.records == db.records + r.created
    ensures r.db.users == db.users && r.db.datasets == db.datasets && r.db.queries == db.queries
    ensures forall k :: 0 <= k < |r.created| ==> r.created[k].datasetId == datasetId && r.created[k].createdAt == db.now
    ensures AllParsed(files, parsers) ==> |r.created| == |files| && forall i :: 0 <= i < |files| ==>
      && r.created[i].name == names[i] && r.created[i].size == files[i].size
      && ParseFile(files[i], parsers) == Returned(r.created[i].dataJson)
    decreases |files|
  {
    if files == [] then Ingestion(db, [], None)
    else
      var p := ParseFile(files[0], parsers);
      if p.Threw? then
        var rest := Ingest(db, files[1..], names[1..], datasetId, parsers);
        Ingestion(rest.db, rest.created, Some(p.error))
      else
        var c := CreateRecord(db, names[0], files[0].size, p.value, datasetId);
        var rest := Ingest(c.db, files[1..], names[1..], datasetId, parsers);
        Ingestion(rest.db, [c.row] + rest.created, rest.failure)
  }

  /** Every file parses. */
  predicate AllParsed(files: seq<UploadedFile>, parsers: Parsers) {
    forall i :: 0 <= i < |files| ==> ParseFile(files[i], parsers).Returned?
  }

  /** The batch fails exactly when some file does not parse, and then with the error of the
      first such file. */
  lemma {:induction false} IngestFailure(db: Db, files: seq<UploadedFile>, names: seq<string>, datasetId: nat, parsers: Parsers)
    requires |files| == |names|
    ensures var r := Ingest(db, files, names, datasetId, parsers);
      && (r.failure.None? <==> AllParsed(files, parsers))
      && (r.failure.Some? ==> exists i :: 0 <= i < |files| && ParseFile(files[i], parsers) == Threw(r.failure.value)
                                          && forall j :: 0 <= j < i ==> ParseFile(files[j], parsers).Returned?)
    decreases |files|
  {
    if files != [] {
      var p := ParseFile(files[0], parsers);
      if p.Threw? {
        assert !AllParsed(files, parsers);
      } else {
        var c := CreateRecord(db, names[0], files[0].size, p.value, datasetId);
        IngestFailure(c.db, files[1..], names[1..], datasetId, parsers);
        IngestShift(files, Ingest(c.db, files[1..], names[1..], datasetId, parsers).failure, parsers);
      }
    }
  }

  /** The first failure among the files after the first one, when the first file parses, is
      the first failure among all of them. */
  lemma {:induction false} IngestShift(files: seq<UploadedFile>, failure: Option<Thrown>, parsers: Parsers)
    requires files != [] && ParseFile(files[0], parsers).Returned?
    requires failure.None? <==> forall i :: 0 <= i < |files[1..]| ==> ParseFile(files[1..][i], parsers).Returned?
    requires failure.Some? ==> exists i :: 0 <= i < |files[1..]| && ParseFile(files[1..][i], parsers) == Threw(failure.value)
                                          && forall j :: 0 <= j < i ==> ParseFile(files[1..][j], parsers).Returned?
    ensures failure.None? <==> forall i :: 0 <= i < |files| ==> ParseFile(files[i], parsers).Returned?
    ensures failure.Some? ==> exists i :: 0 <= i < |files| && ParseFile(files[i], parsers) == Threw(failure.value)
                                          && forall j :: 0 <= j < i ==> ParseFile(files[j], parsers).Returned?
  {
    if failure.None? {
      forall i | 0 <= i < |files| ensures ParseFile(files[i], parsers).Returned? {
        if i > 0 { assert files[i] == files[1..][i - 1]; }
      }
    } else {
      var i :| 0 <= i < |files[1..]| && ParseFile(files[1..][i], parsers) == Threw(failure.value)
               && forall j :: 0 <= j < i ==> ParseFile(files[1..][j], parsers).Returned?;
      assert files[i + 1] == files[1..][i];
      forall j | 0 <= j < i + 1 ensures ParseFile(files[j], parsers).Returned? {
        if j > 0 { assert files[j] == files[1..][j - 1]; }
      }
    }
  }

  /** The response for an error thrown during ingestion: 413 with the error's field for a
      file over the size cap, 500 otherwise. */
  function ErrorResponse(e: Thrown): (r: UploadResponse)
    ensures r.Status() == 413 <==> e.code == Some("LIMIT_FILE_SIZE")
    ensures r.Status() == 413 ==> r == TooLarge(e.field)
    ensures r.Status() != 413 ==> r == Failed
  {
    if e.code == Some("LIMIT_FILE_SIZE") then TooLarge(e.field) else Failed
  }

  /** The condition of the collision lookup: a stored record of the dataset whose name is
      among the requested ones. */
  function CollisionTest(datasetId: nat, names: seq<string>): Record -> bool {
    (x: Record) => x.datasetId == datasetId && x.name in names
  }

  /** The names of the dataset's stored records that are among `names`, one per such record,
      in storage order. */
  function CollidingNames(db: Db, datasetId: nat, names: seq<string>): (r: seq<string>)
    ensures |r| == Count(db.records, CollisionTest(datasetId, names))
    ensures forall n :: n in r ==> n in names && exists x :: x in db.records && x.datasetId == datasetId && x.name == n
    ensures forall x :: x in db.records && x.datasetId == datasetId && x.name in names ==> x.name in r
  {
    var hits := Filter(db.records, CollisionTest(datasetId, names));
    var r := seq(|hits|, i requires 0 <= i < |hits| => hits[i].name);
    assert forall x :: x in hits ==> x.name in r by {
      forall x | x in hits ensures x.name in r {
        var k :| 0 <= k < |hits| && hits[k] == x;
        assert r[k] == x.name;
      }
    }
    r
  }

  /** The requested names that collide with stored records of the user's dataset named
      `name`; none when the user has no dataset of that name. */
  function Collisions(db: Db, userId: nat, name: string, names: seq<string>): seq<string> {
    match FindDataset(db, name, userId)
    case None => []
    case Some(d) => CollidingNames(db, d.id, names)
  }

  function CollisionErrors(names: seq<string>): (r: seq<UploadError>)
    ensures |r| == |names|
    ensures forall i :: 0 <= i < |names| ==> r[i] == UploadError("recordName", CollisionMessage(names[i]), Some(names[i]))
  {
    seq(|names|, i requires 0 <= i < |names| => UploadError("recordName", CollisionMessage(names[i]), Some(names[i])))
  }

  function Summaries(records: seq<Record>): (r: seq<RecordSummary>)
    ensures |r| == |records|
    ensures forall i :: 0 <= i < |records| ==> r[i] == RecordSummary(records[i].id, records[i].name, records[i].size, records[i].createdAt)
  {
    seq(|records|, i requires 0 <= i < |records| => RecordSummary(records[i].id, records[i].name, records[i].size, records[i].createdAt))
  }

  /** The dataset the records go into: the user's dataset of that name, or a new one. */
  function TargetDataset(db: Db, existing: Option<Dataset>, name: string, userId: nat): (c: Created<Dataset>)
    ensures existing.Some? ==> c == Created(db, existing.value)
    ensures existing.None? ==>
      && c.row.name == name && c.row.userId == userId
      && c.db.datasets == db.datasets + [c.row]
      && c.db.users == db.users && c.db.records == db.records && c.db.queries == db.queries && c.db.now == db.now
  {
    if existing.Some? then Created(db, existing.value) else CreateDataset(db, name, userId)
  }

  /** File `i` is the first of `files` that does not parse. */
  predicate FirstFailure(files: seq<UploadedFile>, parsers: Parsers, i: int) {
    && 0 <= i < |files| && ParseFile(files[i], parsers).Threw?
    && forall j :: 0 <= j < i ==> ParseFile(files[j], parsers).Returned?
  }

  /** The record `x` is the one created for `file` under `name` in dataset `datasetId` at time
      `now`, holding the file's parsed content, and `listed` is how a 201 shows it. */
  predicate StoredAs(x: Record, datasetId: nat, name: string, file: UploadedFile, now: int, parsers: Parsers, listed: RecordSummary) {
    && x.datasetId == datasetId && x.name == name && x.size == file.size && x.createdAt == now
    && ParseFile(file, parsers) == Returned(x.dataJson)
    && listed == RecordSummary(x.id, x.name, x.size, x.createdAt)
  }

  /** The files stored into the target dataset once the checks and the collision lookup have
      passed: a 201 listing the created records when every file parses, otherwise the answer
      for the first failure; the records written before it are kept. */
  function StoreFiles(target: Created<Dataset>, files: seq<UploadedFile>, names: seq<string>, parsers: Parsers): (r: Served<UploadResponse>)
    requires |files| == |names|
    ensures r.db.users == target.db.users && r.db.datasets == target.db.datasets && r.db.queries == target.db.queries
    ensures r.response.Ingested? <==> AllParsed(files, parsers)
    ensures !r.response.Ingested? ==> r.response.Failed? || r.response.TooLarge?
    ensures !r.response.Ingested? ==>
      exists i :: FirstFailure(files, parsers, i) && r.response == ErrorResponse(ParseFile(files[i], parsers).error)
    ensures r.response.Ingested? ==>
      && r.response.datasetId == target.row.id && r.response.datasetName == target.row.name
      && |r.db.records| == |target.db.records| + |files| && r.db.records[..|target.db.records|] == target.db.records
      && |r.response.records| == |files|
      && forall i :: 0 <= i < |files| ==>
           StoredAs(r.db.records[|target.db.records| + i], target.row.id, names[i], files[i], target.db.now, parsers, r.response.records[i])
  {
    var ingest := Ingest(target.db, files, names, target.row.id, parsers);
    IngestFailure(target.db, files, names, target.row.id, parsers);
    var response := if ingest.failure.Some? then ErrorResponse(ingest.failure.value)
                    else Ingested(target.row.id, target.row.name, Summaries(ingest.created));
    assert ingest.failure.None? ==> forall i :: 0 <= i < |files| ==>
      ingest.db.records[|target.db.records| + i] == ingest.created[i];
    Served(response, ingest.db)
  }

  /** `uploadDataset`. */
  function UploadDataset(db: Db, fault: Option<Thrown>, req: UploadRequest, parsers: Parsers): (r: Served<UploadResponse>)
    ensures Check(req).Invalid? ==> r == Served(Rejected(Check(req).errors), db)
    ensures Check(req).Valid? && fault.Some? ==> r == Served(ErrorResponse(fault.value), db)
    ensures r.response.Rejected? ==> r.db == db
    ensures Check(req).Valid? && fault.None? ==>
      var c := Check(req);
      var collisions := Collisions(db, req.userId, c.datasetName, c.names);
      && (collisions != [] ==> r == Served(Rejected(CollisionErrors(collisions)), db))
      && (collisions == [] ==> (r.response.Ingested? <==> AllParsed(c.files, parsers)))
      && (collisions == [] && !AllParsed(c.files, parsers) ==> r.response.Failed? || r.response.TooLarge?)
      && (collisions == [] && !r.response.Ingested? ==>
            exists i :: FirstFailure(c.files, parsers, i) && r.response == ErrorResponse(ParseFile(c.files[i], parsers).error))
    ensures r.response.Ingested? ==>
      && Check(req).Valid? && fault.None?
      && var c := Check(req);
         var existing := FindDataset(db, c.datasetName, req.userId);
      && r.response.datasetName == c.datasetName
      && (existing.Some? ==> r.response.datasetId == existing.value.id && r.db.datasets == db.datasets)
      && (existing.None? ==> r.db.datasets == db.datasets + [Dataset(r.response.datasetId, c.datasetName, req.userId)])
      && r.db.users == db.users && r.db.queries == db.queries
      && |r.db.records| == |db.records| + |c.files| && r.db.records[..|db.records|] == db.records
      && |r.response.records| == |c.files|
      && forall i :: 0 <= i < |c.files| ==>
           StoredAs(r.db.records[|db.records| + i], r.response.datasetId, c.names[i], c.files[i], db.now, parsers, r.response.records[i])
  {
    match Check(req)
    case Invalid(errors) => Served(Rejected(errors), db)
    case Valid(name, names, files) =>
      if fault.Some? then Served(ErrorResponse(fault.value), db)
      else
        var existing := FindDataset(db, name, req.userId);
        var collisions := Collisions(db, req.userId, name, names);
        if collisions != [] then Served(Rejected(CollisionErrors(collisions)), db)
        else
          StoreFiles(TargetDataset(db, existing, name, req.userId), files, names, parsers)
  }

  /** A dataset is created exactly for a request that passed its checks, on a healthy store,
      when the user had no dataset of that name, whether or not its files then parse; an
      existing one is reused and the dataset table is left as it was. */
  lemma {:induction false} DatasetCreatedOnlyIfAbsent(db: Db, fault: Option<Thrown>, req: UploadRequest, parsers: Parsers)
    ensures var r := UploadDataset(db, fault, req, parsers);
      r.db.datasets != db.datasets <==>
        Check(req).Valid? && fault.None? && FindDataset(db, Check(req).datasetName, req.userId).None?
    ensures var r := UploadDataset(db, fault, req, parsers);
      r.db.datasets != db.datasets ==>
        && |r.db.datasets| == |db.datasets| + 1
        && r.db.datasets[..|db.datasets|] == db.datasets
        && r.db.datasets[|db.datasets|].name == Check(req).datasetName
        && r.db.datasets[|db.datasets|].userId == req.userId
  {
    var r := UploadDataset(db, fault, req, parsers);
    if Check(req).Valid? && fault.None? && FindDataset(db, Check(req).datasetName, req.userId).None? {
      assert |r.db.datasets| == |db.datasets| + 1;
    }
  }

  /** When the user's dataset of that name already holds a record named like one of the files,
      the request is refused with one error per such stored record, naming it, and nothing is
      written. */
  lemma {:induction false} CollisionRejected(db: Db, req: UploadRequest, parsers: Parsers, x: Record)
    requires Check(req).Valid?
    requires FindDataset(db, Check(req).datasetName, req.userId).Some?
    requires x in db.records && x.datasetId == FindDataset(db, Check(req).datasetName, req.userId).value.id
    requires x.name in Check(req).names
    ensures var r := UploadDataset(db, None, req, parsers);
      var d := FindDataset(db, Check(req).datasetName, req.userId).value;
      && r.db == db && r.response.Rejected?
      && |r.response.errors| == Count(db.records, CollisionTest(d.id, Check(req).names))
      && (forall e :: e in r.response.errors ==> e.field == "recordName" && e.name.Some? && e.name.value in Check(req).names)
      && forall y :: y in db.records && y.datasetId == d.id && y.name in Check(req).names ==>
           UploadError("recordName", CollisionMessage(y.name), Some(y.name)) in r.response.errors
  {
    var c := Check(req);
    var existing := FindDataset(db, c.datasetName, req.userId).value;
    var collisions := CollidingNames(db, existing.id, c.names);
    assert x.name in collisions;
    var errs := CollisionErrors(collisions);
    assert UploadDataset(db, None, req, parsers).response == Rejected(errs);
    forall e | e in errs ensures e.field == "recordName" && e.name.Some? && e.name.value in c.names {
      var k :| 0 <= k < |errs| && errs[k] == e;
      assert collisions[k] in collisions;
    }
    forall y | y in db.records && y.datasetId == existing.id && y.name in c.names
      ensures UploadError("recordName", CollisionMessage(y.name), Some(y.name)) in errs
    {
      var k :| 0 <= k < |collisions| && collisions[k] == y.name;
      assert errs[k] == UploadError("recordName", CollisionMessage(y.name), Some(y.name));
    }
  }

  /** A 201 response lists one record per file, in file order: record `i` carries the name
      given for file `i` and that file's size, and it is stored in the user's dataset of the
      requested name. */
  lemma {:induction false} IngestedRecordsAligned(db: Db, req: UploadRequest, parsers: Parsers)
    requires UploadDataset(db, None, req, parsers).response.Ingested?
    ensures Check(req).Valid?
    ensures var r := UploadDataset(db, None, req, parsers);
      var c := Check(req);
      && r.response.datasetName == c.datasetName
      && Dataset(r.response.datasetId, c.datasetName, req.userId) in r.db.datasets
      && |r.response.records| == |c.files|
      && forall i :: 0 <= i < |c.files| ==>
           && r.response.records[i].name == c.names[i] && r.response.records[i].size == c.files[i].size
           && r.db.records[|db.records| + i].datasetId == r.response.datasetId
           && r.db.records[|db.records| + i].id == r.response.records[i].id
  {
    var r := UploadDataset(db, None, req, parsers);
    var c := Check(req);
    var existing := FindDataset(db, c.datasetName, req.userId);
    var d := Dataset(r.response.datasetId, c.datasetName, req.userId);
    if existing.Some? {
      assert existing.value == d;
    } else {
      assert r.db.datasets[|db.datasets|] == d;
    }
  }

  /** No parser fails with the upload library's size-limit code. */
  ghost predicate NoSizeLimitErrors(parsers: Parsers) {
    forall f :: ParseFile(f, parsers).Threw? ==> ParseFile(f, parsers).error.code != Some("LIMIT_FILE_SIZE")
  }

  /** A file of any other type than CSV or PDF means the upload does not succeed; once the
      request has passed its checks and met no collision, the answer is the generic 500. */
  lemma {:induction false} UnsupportedFileNotIngested(db: Db, fault: Option<Thrown>, req: UploadRequest, parsers: Parsers, i: nat)
    requires req.files.Some? && i < |req.files.value|
    requires req.files.value[i].mimetype != "text/csv" && req.files.value[i].mimetype != "application/pdf"
    ensures !UploadDataset(db, fault, req, parsers).response.Ingested?
    ensures Check(req).Valid? && fault.None? && NoSizeLimitErrors(parsers)
            && Collisions(db, req.userId, Check(req).datasetName, Check(req).names) == [] ==>
      UploadDataset(db, fault, req, parsers).response == Failed
  {
    if Check(req).Valid? && fault.None? {
      var c := Check(req);
      UnsupportedMimetypeThrows(c.files[i], parsers);
      assert !AllParsed(c.files, parsers);
      if NoSizeLimitErrors(parsers) && Collisions(db, req.userId, c.datasetName, c.names) == [] {
        var existing := FindDataset(db, c.datasetName, req.userId);
        var target := TargetDataset(db, existing, c.datasetName, req.userId);
        var ingest := Ingest(target.db, c.files, c.names, target.row.id, parsers);
        IngestFailure(target.db, c.files, c.names, target.row.id, parsers);
        var j :| 0 <= j < |c.files| && ParseFile(c.files[j], parsers) == Threw(ingest.failure.value)
                 && forall k :: 0 <= k < j ==> ParseFile(c.files[k], parsers).Returned?;
        assert ingest.failure.value.code != Some("LIMIT_FILE_SIZE");
      }
    }
  }
}
