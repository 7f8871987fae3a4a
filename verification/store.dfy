/** The relational store the controllers read and write, as an immutable value: the rows of
    each table in storage order, the next identifier to hand out, and the clock that the
    `createdAt` defaults read. Queries without an `orderBy` return rows in storage order. */
module Store {
  import opened Options
  import opened Seqs

  /** One parsed CSV line: each column header with its cell. */
  type CsvRow = seq<(string, string)>

  /** The JSON held in a record's `dataJson` column. */
  datatype DataJson =
    | CsvRows(rows: seq<CsvRow>)   // the lines of an uploaded CSV file
    | PdfText(text: string)        // the `{ text }` object of an uploaded PDF file
    | JsonString(s: string)        // a bare JSON string

  datatype User = User(id: nat, name: string, email: string, password: string)

  datatype Dataset = Dataset(id: nat, name: string, userId: nat)

  datatype Record = Record(id: nat, name: string, size: nat, dataJson: DataJson, datasetId: nat, createdAt: int)

  /** A row of the `query` table: a question put to a dataset and the answer obtained. */
  datatype QueryRow = QueryRow(id: nat, userId: nat, datasetName: string, query: string, content: string, answer: string, createdAt: int)

  datatype Db = Db(users: seq<User>, datasets: seq<Dataset>, records: seq<Record>, queries: seq<QueryRow>, nextId: nat, now: int)

  /** Every identifier in use is below `nextId`, so the next one created is fresh. */
  predicate FreshIds(db: Db) {
    && (forall i :: 0 <= i < |db.users| ==> db.users[i].id < db.nextId)
    && (forall i :: 0 <= i < |db.datasets| ==> db.datasets[i].id < db.nextId)
    && (forall i :: 0 <= i < |db.records| ==> db.records[i].id < db.nextId)
    && (forall i :: 0 <= i < |db.queries| ==> db.queries[i].id < db.nextId)
  }

  // ---------------------------------------------------------------- reads

  /** `dataset.findMany({ where: { userId } })`. A `userId` that is undefined drops the
      condition, so `None` selects every dataset. */
  function DatasetsWhere(db: Db, userId: Option<nat>): (r: seq<Dataset>)
    ensures IsSubsequence(r, db.datasets)
    ensures forall d :: d in r <==> d in db.datasets && (userId.None? || d.userId == userId.value)
  {
    Filter(db.datasets, (d: Dataset) => userId.None? || d.userId == userId.value)
  }

  /** The datasets owned by `userId`, in storage order. */
  function DatasetsOwnedBy(db: Db, userId: nat): (r: seq<Dataset>)
    ensures forall d :: d in r <==> d in db.datasets && d.userId == userId
  {
    DatasetsWhere(db, Some(userId))
  }

  /** `dataset.findFirst({ where: { name, userId } })`. */
  function FindDataset(db: Db, name: string, userId: nat): (r: Option<Dataset>)
    ensures r.Some? ==> r.value in db.datasets && r.value.name == name && r.value.userId == userId
    ensures r.None? <==> forall i :: 0 <= i < |db.datasets| ==> !(db.datasets[i].name == name && db.datasets[i].userId == userId)
  {
    FindFirst(db.datasets, (d: Dataset) => d.name == name && d.userId == userId)
  }

  /** `dataset.findUnique({ where: { id } })`. */
  function FindDatasetById(db: Db, id: int): (r: Option<Dataset>)
    ensures r.Some? ==> r.value in db.datasets && r.value.id == id
    ensures r.None? <==> forall i :: 0 <= i < |db.datasets| ==> db.datasets[i].id != id
  {
    FindFirst(db.datasets, (d: Dataset) => d.id == id)
  }

  /** `record.findMany({ where: { datasetId } })`: the dataset's records in storage order. */
  function RecordsOf(db: Db, datasetId: int): (r: seq<Record>)
    ensures IsSubsequence(r, db.records)
    ensures forall x :: x in r <==> x in db.records && x.datasetId == datasetId
  {
    Filter(db.records, (x: Record) => x.datasetId == datasetId)
  }

  /** `user.findUnique({ where: { email } })`. */
  function FindUserByEmail(db: Db, email: string): (r: Option<User>)
    ensures r.Some? ==> r.value in db.users && r.value.email == email
    ensures r.None? <==> forall i :: 0 <= i < |db.users| ==> db.users[i].email != email
  {
    FindFirst(db.users, (u: User) => u.email == email)
  }

  /** `user.findUnique({ where: { id } })`. */
  function FindUserById(db: Db, id: nat): (r: Option<User>)
    ensures r.Some? ==> r.value in db.users && r.value.id == id
    ensures r.None? <==> forall i :: 0 <= i < |db.users| ==> db.users[i].id != id
  {
    FindFirst(db.users, (u: User) => u.id == id)
  }

  // ---------------------------------------------------------------- writes

  /** A controller's response together with the store as the request left it. */
  datatype Served<T> = Served(response: T, db: Db)

  /** A created row, with the store it was added to. */
  datatype Created<T> = Created(db: Db, row: T)

  /** `dataset.create`: appends a dataset under a fresh identifier and leaves the other tables alone. */
  function CreateDataset(db: Db, name: string, userId: nat): (c: Created<Dataset>)
    ensures c.row.name == name && c.row.userId == userId
    ensures c.db.datasets == db.datasets + [c.row]
    ensures c.db.users == db.users && c.db.records == db.records && c.db.queries == db.queries && c.db.now == db.now
    ensures FreshIds(db) ==> FreshIds(c.db) && forall i :: 0 <= i < |db.datasets| ==> db.datasets[i].id != c.row.id
  {
    var d := Dataset(db.nextId, name, userId);
    Created(db.(datasets := db.datasets + [d], nextId := db.nextId + 1), d)
  }

  /** `record.create`: appends a record under a fresh identifier, stamped with the clock. */
  function CreateRecord(db: Db, name: string, size: nat, dataJson: DataJson, datasetId: nat): (c: Created<Record>)
    ensures c.row.name == name && c.row.size == size && c.row.dataJson == dataJson && c.row.datasetId == datasetId
    ensures c.row.createdAt == db.now
    ensures c.db.records == db.records + [c.row]
    ensures c.db.users == db.users && c.db.datasets == db.datasets && c.db.queries == db.queries && c.db.now == db.now
    ensures FreshIds(db) ==> FreshIds(c.db) && forall i :: 0 <= i < |db.records| ==> db.records[i].id != c.row.id
  {
    var x := Record(db.nextId, name, size, dataJson, datasetId, db.now);
    Created(db.(records := db.records + [x], nextId := db.nextId + 1), x)
  }

  /** `user.create`: appends a user under a fresh identifier. */
  function CreateUser(db: Db, name: string, email: string, password: string): (c: Created<User>)
    ensures c.row.name == name && c.row.email == email && c.row.password == password
    ensures c.db.users == db.users + [c.row]
    ensures c.db.datasets == db.datasets && c.db.records == db.records && c.db.queries == db.queries && c.db.now == db.now
    ensures FreshIds(db) ==> FreshIds(c.db) && forall i :: 0 <= i < |db.users| ==> db.users[i].id != c.row.id
  {
    var u := User(db.nextId, name, email, password);
    Created(db.(users := db.users + [u], nextId := db.nextId + 1), u)
  }

  /** `query.create`: appends a query row under a fresh identifier, stamped with the clock. */
  function CreateQuery(db: Db, userId: nat, datasetName: string, query: string, content: string, answer: string): (c: Created<QueryRow>)
    ensures c.row.userId == userId && c.row.datasetName == datasetName && c.row.query == query
    ensures c.row.content == content && c.row.answer == answer && c.row.createdAt == db.now
    ensures c.db.queries == db.queries + [c.row]
    ensures c.db.users == db.users && c.db.datasets == db.datasets && c.db.records == db.records && c.db.now == db.now
    ensures FreshIds(db) ==> FreshIds(c.db) && forall i :: 0 <= i < |db.queries| ==> db.queries[i].id != c.row.id
  {
    var q := QueryRow(db.nextId, userId, datasetName, query, content, answer, db.now);
    Created(db.(queries := db.queries + [q], nextId := db.nextId + 1), q)
  }

  /** Records added to a dataset after a read are seen by the next read, after the ones already there. */
  lemma {:induction false} RecordsOfAppend(db: Db, x: Record, datasetId: int)
    ensures RecordsOf(db.(records := db.records + [x]), datasetId)
         == RecordsOf(db, datasetId) + (if x.datasetId == datasetId then [x] else [])
  {
    FilterConcat(db.records, [x], (y: Record) => y.datasetId == datasetId);
  }
}
