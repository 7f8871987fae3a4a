/** Questions put to a dataset: the request checks, the context built from the dataset's
    records and cut to the size budget, the call to the question-answering model (left
    abstract), and the stored query row. */
module Query {
  import opened Options
  import opened JsText
  import opened JsValues
  import opened Store

  /** The budget, in characters, for the question and its context together. */
  const MaxChars := 1000

  /** The answer stored when the model gives none. */
  const FallbackAnswer := "Resposta não disponível"

  datatype QueryResponse =
    | QueryMissing
    | DatasetNameMissing
    | NoDatasets
    | DatasetNotFound(name: string)
    | QueryFailed
    | Answered(row: QueryRow)
  {
    function Status(): nat {
      match this
      case QueryMissing => 400
      case DatasetNameMissing => 400
      case NoDatasets => 404
      case DatasetNotFound(_) => 404
      case QueryFailed => 500
      case Answered(_) => 201
    }
  }

  /** The model: given the question and the context it returns the `answer` property of its
      reply (`Undefined` when the reply has none), or throws. */
  type Model = (string, string) -> Attempt<JsValue>

  /** A required text field is missing, not a string, or blank. */
  predicate IsBlankField(v: JsValue) {
    IsMissingString(v) || Trim(v.s) == []
  }

  // ---------------------------------------------------------------- the context

  /** A record's content as text: a JSON string as it is, anything else serialised. */
  function RecordText(x: Record, stringify: DataJson -> string): string {
    if x.dataJson.JsonString? then x.dataJson.s else stringify(x.dataJson)
  }

  function RecordTexts(records: seq<Record>, stringify: DataJson -> string): (r: seq<string>)
    ensures |r| == |records|
    ensures forall i :: 0 <= i < |records| ==> r[i] == RecordText(records[i], stringify)
  {
    seq(|records|, i requires 0 <= i < |records| => RecordText(records[i], stringify))
  }

  /** The records' texts, in order, separated by single spaces. */
  function Content(records: seq<Record>, stringify: DataJson -> string): (r: string)
    ensures records == [] ==> r == []
    ensures |records| == 1 ==> r == RecordText(records[0], stringify)
  {
    Join(RecordTexts(records, stringify), " ")
  }

  /** One more record adds a space and its text at the end of the content. */
  lemma {:induction false} ContentSnoc(records: seq<Record>, x: Record, stringify: DataJson -> string)
    requires records != []
    ensures Content(records + [x], stringify) == Content(records, stringify) + " " + RecordText(x, stringify)
  {
    var texts := RecordTexts(records, stringify);
    assert RecordTexts(records + [x], stringify) == texts + [RecordText(x, stringify)];
    JoinSnoc(texts, RecordText(x, stringify), " ");
  }

  /** The content is as long as the texts together, plus one space between each two. */
  lemma {:induction false} ContentLength(records: seq<Record>, stringify: DataJson -> string)
    requires records != []
    ensures |Content(records, stringify)| == TotalLength(RecordTexts(records, stringify)) + |records| - 1
  {
  }

  /** The context sent with the question: the content, cut with `slice(0, MaxChars - |question|)`
      when question and content together exceed the budget. It is always a prefix of the
      content; when the question fits the budget, question and context together fit it too;
      a question over the budget makes the slice end negative, so the context then loses only
      as many characters as the question is over the budget. */
  function Context(question: string, content: string): (c: string)
    ensures |c| <= |content| && c == content[..|c|]
    ensures |question| + |content| <= MaxChars ==> c == content
    ensures |question| + |content| > MaxChars && |question| <= MaxChars ==> |c| == MaxChars - |question|
    ensures |question| > MaxChars ==>
      |c| == if |content| > |question| - MaxChars then |content| - (|question| - MaxChars) else 0
  {
    if |question| + |content| > MaxChars then SlicePrefix(content, MaxChars - |question|) else content
  }

  /** A question within the budget leaves question and context within it together. */
  lemma {:induction false} ContextWithinBudget(question: string, content: string)
    requires |question| <= MaxChars
    ensures |question| + |Context(question, content)| <= MaxChars
  {
  }

  // ---------------------------------------------------------------- the answer

  /** The answer stored: the model's answer when it is truthy, the fallback otherwise. A
      truthy answer that is not a string cannot be stored (`None`). */
  function StoredAnswer(v: JsValue): (r: Option<string>)
    ensures IsFalsy(v) ==> r == Some(FallbackAnswer)
    ensures v.Str? && v.s != "" ==> r == Some(v.s)
    ensures r.Some? ==> r.value != ""
  {
    if IsFalsy(v) then Some(FallbackAnswer)
    else if v.Str? then Some(v.s)
    else None
  }

  // ---------------------------------------------------------------- the controller

  /** The part of `postQuery` after the dataset `ds` is found: build the context, ask the
      model, store the row. The request is answered exactly when the model replies with an
      answer that can be stored; only then does the store change, by one row holding the
      context sent and the answer stored for the reply. That context is a prefix of the
      dataset's content that keeps question and context within the budget whenever the
      question alone fits it. */
  function AskDataset(db: Db, userId: nat, ds: Dataset, question: string,
                      stringify: DataJson -> string, model: Model): (r: Served<QueryResponse>)
    ensures r.response.Answered? || r.response == QueryFailed
    ensures r.response == QueryFailed ==> r.db == db
    ensures var ctx := Context(question, Content(RecordsOf(db, ds.id), stringify));
      r.response.Answered? <==> model(question, ctx).Returned? && StoredAnswer(model(question, ctx).value).Some?
    ensures r.response.Answered? ==>
      var content := Content(RecordsOf(db, ds.id), stringify);
      var ctx := Context(question, content);
      && r.db.queries == db.queries + [r.response.row]
      && r.db.users == db.users && r.db.datasets == db.datasets && r.db.records == db.records
      && r.response.row.userId == userId && r.response.row.datasetName == ds.name
      && r.response.row.query == question
      && r.response.row.content == ctx
      && r.response.row.answer == StoredAnswer(model(question, ctx).value).value
      && r.response.row.answer != ""
      && |r.response.row.content| <= |content|
      && r.response.row.content == content[..|r.response.row.content|]
      && (|question| + |content| <= MaxChars ==> r.response.row.content == content)
      && (|question| <= MaxChars ==> |question| + |r.response.row.content| <= MaxChars)
  {
    var context := Context(question, Content(RecordsOf(db, ds.id), stringify));
    match model(question, context)
    case Threw(_) => Served(QueryFailed, db)
    case Returned(v) =>
      match StoredAnswer(v)
      case None => Served(QueryFailed, db)
      case Some(answer) =>
        var c := CreateQuery(db, userId, ds.name, question, context, answer);
        Served(Answered(c.row), c.db)
  }

  /** `postQuery` for the authenticated user `userId`. */
  function PostQuery(db: Db, fault: Option<Thrown>, userId: nat, query: JsValue, datasetName: JsValue,
                     stringify: DataJson -> string, model: Model): (r: Served<QueryResponse>)
    ensures IsBlankField(query) ==> r.response == QueryMissing
    ensures !IsBlankField(query) && IsBlankField(datasetName) ==> r.response == DatasetNameMissing
    ensures !r.response.Answered? ==> r.db == db
    ensures !IsBlankField(query) && !IsBlankField(datasetName) ==>
      && (fault.Some? ==> r.response == QueryFailed)
      && (fault.None? && DatasetsOwnedBy(db, userId) == [] ==> r.response == NoDatasets)
      && (fault.None? && DatasetsOwnedBy(db, userId) != [] && FindDataset(db, datasetName.s, userId).None? ==>
            r.response == DatasetNotFound(datasetName.s))
      && (fault.None? && FindDataset(db, datasetName.s, userId).Some? ==>
            r == AskDataset(db, userId, FindDataset(db, datasetName.s, userId).value, Trim(query.s), stringify, model))
    ensures r.response.Answered? ==>
      && query.Str? && datasetName.Str? && fault.None?
      && FindDataset(db, datasetName.s, userId).Some?
      && r == AskDataset(db, userId, FindDataset(db, datasetName.s, userId).value, Trim(query.s), stringify, model)
  {
    if IsBlankField(query) then Served(QueryMissing, db)
    else if IsBlankField(datasetName) then Served(DatasetNameMissing, db)
    else if fault.Some? then Served(QueryFailed, db)
    else if DatasetsOwnedBy(db, userId) == [] then Served(NoDatasets, db)
    else
      match FindDataset(db, datasetName.s, userId)
      case None => Served(DatasetNotFound(datasetName.s), db)
      case Some(ds) => AskDataset(db, userId, ds, Trim(query.s), stringify, model)
  }

  /** A user without datasets gets the 404 for that before the named dataset is looked up. */
  lemma {:induction false} NoDatasetsFirst(db: Db, userId: nat, query: JsValue, datasetName: JsValue,
                                           stringify: DataJson -> string, model: Model)
    requires !IsBlankField(query) && !IsBlankField(datasetName)
    requires forall d :: d in db.datasets ==> d.userId != userId
    ensures PostQuery(db, None, userId, query, datasetName, stringify, model).response == NoDatasets
  {
    assert DatasetsOwnedBy(db, userId) == [];
  }

  /** A stored row records the user, the named dataset, the trimmed question, the context
      sent with it (the dataset's content cut to the budget) and the answer stored for the
      model's reply to that question and context. */
  lemma {:induction false} StoredRow(db: Db, fault: Option<Thrown>, userId: nat, query: JsValue, datasetName: JsValue,
                                     stringify: DataJson -> string, model: Model)
    requires PostQuery(db, fault, userId, query, datasetName, stringify, model).response.Answered?
    ensures var r := PostQuery(db, fault, userId, query, datasetName, stringify, model);
      && fault.None? && FindDataset(db, datasetName.s, userId).Some?
      && r.db.queries == db.queries + [r.response.row]
      && r.response.row.userId == userId
      && r.response.row.datasetName == datasetName.s
      && r.response.row.query == Trim(query.s)
      && var content := Content(RecordsOf(db, FindDataset(db, datasetName.s, userId).value.id), stringify);
         && r.response.row.content == Context(Trim(query.s), content)
         && model(Trim(query.s), r.response.row.content).Returned?
         && r.response.row.answer == StoredAnswer(model(Trim(query.s), r.response.row.content).value).value
         && r.response.row.answer != ""
  {
    var r := PostQuery(db, fault, userId, query, datasetName, stringify, model);
    var ds := FindDataset(db, datasetName.s, userId).value;
    assert r == AskDataset(db, userId, ds, Trim(query.s), stringify, model);
  }

  /** When the model call throws, the response is 500 and no query row is written. */
  lemma {:induction false} ModelFailurePersistsNothing(db: Db, userId: nat, query: JsValue, datasetName: JsValue,
                                                       stringify: DataJson -> string, model: Model)
    requires !IsBlankField(query) && !IsBlankField(datasetName)
    requires FindDataset(db, datasetName.s, userId).Some?
    requires model(Trim(query.s), Context(Trim(query.s), Content(RecordsOf(db, FindDataset(db, datasetName.s, userId).value.id), stringify))).Threw?
    ensures PostQuery(db, None, userId, query, datasetName, stringify, model) == Served(QueryFailed, db)
  {
    var ds := FindDataset(db, datasetName.s, userId).value;
    assert ds in DatasetsOwnedBy(db, userId);
  }
}
