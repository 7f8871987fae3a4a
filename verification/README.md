# Dataset ingestion and search API — a Dafny model

This project models the request-level decision logic of a small Express/Prisma API. Users
register and log in. They upload CSV and PDF files into named *datasets*, one *record* per file.
They can search the records for a text, and they can put questions to a dataset through an
external question-answering model. Each controller becomes a pure function:

- its input is an immutable store value (`Store.Db`: users, datasets, records and query rows in
  storage order, plus the next identifier and the clock);
- its output is the response together with the store as the request left it.

Libraries the code calls are function-typed parameters:

- `validator.isEmail`;
- the CSV and PDF parsers;
- `JSON.stringify`;
- bcrypt's hash and compare;
- the question-answering model.

A login token is represented by the claims and lifetime it is signed with.

A store failure is a parameter `fault: Option<Thrown>`. When it is `Some`, the controller's
first store call throws that error.

Modules, one per source file plus shared pieces:

| module | file | models |
|---|---|---|
| `Options`, `Seqs` | `base.dfy` | optional values; filter, find-first, distinctness and counting over sequences |
| `JsText` | `jstext.dfy` | the JavaScript string operations the code relies on: `trim`, `split`, `join`, `slice` with a negative end, ASCII `toLowerCase`, `parseInt` |
| `JsValues` | `jsvalues.dfy` | dynamically typed request values, JavaScript truthiness, thrown errors |
| `Sorting` | `sorting.dfy` | the stable `Array.prototype.sort` as an insertion sort, with permutation, order and stability proved |
| `Store` | `store.dfy` | the tables, the Prisma reads (`findFirst`, `findMany`, `findUnique`) and the creates |
| `Validators` | `validators.dfy` | `src/utils/validators.js` |
| `UploadFilter` | `multer.dfy` | `src/middlewares/multer.js`, including Node's `path.extname` |
| `Upload` | `upload.dfy` | `uploadDataset` and `findDuplicates` |
| `Search` | `search.dfy` | the search scan and ranking |
| `Query` | `query.dfy` | `postQuery` |
| `Auth` | `auth.dfy` | `register`, `login`, `getMe` |
| `Datasets` | `datasets.dfy` | `listDatasets`, `getDatasetRecords` |

The search endpoint's route declares no `:userId` parameter. So the search takes the user
filter as an explicit `Option<nat>`: `None` selects every dataset, as Prisma does with an
`undefined` filter. The model makes no per-user isolation claim about search.

## Model

| member | source | states |
|---|---|---|
| Validators.ValidatePassword | src/utils/validators.js:3-32 | a missing or empty password gets exactly the one "required" error; any other password gets a subsequence of the five rule errors in the order length, capital, small letter, digit, special, so at most five |
| Validators.PasswordRulesReported | src/utils/validators.js:11-29 | for a non-empty password, each of the five rule errors is present exactly when its rule fails |
| Validators.ShortPasswordReported | src/utils/validators.js:11-13 | a non-empty password shorter than 8 characters always gets the length error |
| Validators.PasswordAcceptedIff | src/utils/validators.js:6-31 | no error exactly when the password has at least 8 characters, an ASCII capital, a small letter, a digit and a character outside `[A-Za-z0-9]` |
| Validators.PasswordErrorsField | src/utils/validators.js:3-32 | every password error is about the `password` field |
| Validators.ViolationReported | src/utils/validators.js:11-29 | in a sequence of independent `if … push` checks with distinct errors, an error is reported exactly when its check fails |
| Validators.ValidateName | src/utils/validators.js:34-56 | a missing or blank name gets exactly the one "required" error; any other name gets a subsequence of digit, special character, too short, in that order |
| Validators.NameRulesReported | src/utils/validators.js:42-53 | for a non-blank name, the digit error appears iff there is an ASCII digit, the special-character error iff a character is outside the allowed class, and the length error iff the trimmed name has one character |
| Validators.NameDigitAlsoSpecial | src/utils/validators.js:42-49 | a name holding a digit gets both the digit error and the special-character error |
| Validators.NameErrorsField | src/utils/validators.js:34-56 | every name error is about the `name` field |
| Validators.ValidateEmail | src/utils/validators.js:60-73 | a missing or blank address gets the one "required" error; otherwise the result is empty exactly when `isEmail` accepts the address, and is at most the format error; every error is about `email` |
| UploadFilter.FileFilter | src/middlewares/multer.js:9-16 | accepts exactly the names whose extension, ASCII-lower-cased, is `.csv` or `.pdf`; refusals carry the fixed message; the verdict depends on the name alone |
| UploadFilter.AcceptsPlainName | src/middlewares/multer.js:10-11 | a name without `/` is accepted iff it is longer than four characters and ends in `.csv` or `.pdf` in any letter case |
| UploadFilter.AllowedExtChars | src/middlewares/multer.js:10-11 | an allowed extension is a dot followed by `csv` or `pdf`, each letter in either case |
| UploadFilter.AppendedExtensionAccepted | src/middlewares/multer.js:10-11 | appending `.csv`, `.pdf`, `.CSV` or `.PDF` to any plain non-empty name gives an accepted name, so `a.exe.pdf` is accepted |
| UploadFilter.ExeRejected | src/middlewares/multer.js:10-14 | any plain name ending in `.exe`, such as `a.pdf.exe`, is refused |
| UploadFilter.DotfileRejected | src/middlewares/multer.js:10-14 | a dotfile such as `.csv` has no extension and is refused |
| UploadFilter.NoExtensionRejected | src/middlewares/multer.js:10-14 | a plain name without a dot is refused |
| UploadFilter.ExtName | src/middlewares/multer.js:10 | `path.extname`: the extension is the suffix of the last path component (trailing slashes dropped) from its last dot, holding no other dot and never the whole component; it is empty exactly when the component is `..` or has no dot after its first character |
| UploadFilter.MaxFileSizeValue | src/middlewares/multer.js:8 | the per-file cap is 10485760 bytes: a file of that size passes and one byte more does not |
| JsText.Trim | src/controllers/uploadController.js:25 | the trimmed text is empty exactly when the input is all white space, and otherwise starts and ends with a non-space |
| JsText.TrimDropsOnlyWhitespace | src/controllers/uploadController.js:25 | the trim is a slice of the input with only white space before and after it, so together with the contract of `Trim` it is the input without its leading and trailing white space |
| JsText.TrimIdempotent | src/controllers/uploadController.js:25 | trimming twice is trimming once |
| JsText.Split | src/controllers/uploadController.js:25 | the pieces contain no separator and joined with it give back the input |
| JsText.SplitJoin | src/controllers/uploadController.js:25 | splitting a join of separator-free pieces gives back the pieces |
| Upload.TrimmedNonEmpty | src/controllers/uploadController.js:25 | every record name kept is non-empty, equal to its own trim, and the trim of one of the pieces; no more names come out than pieces went in |
| Upload.TrimmedNonEmptyComplete | src/controllers/uploadController.js:25 | the trim of every non-blank piece is among the names |
| Upload.SplitRecordNames | src/controllers/uploadController.js:24-26 | every name read from a `recordNames` string is non-empty and trimmed |
| Upload.SplitRecordNamesJoin | src/controllers/uploadController.js:24-26 | names that are non-empty, trimmed and comma-free, sent joined by commas, are read back as the same list |
| Upload.RecordNameList | src/controllers/uploadController.js:24-28 | a string field yields a list of non-empty trimmed names, a repeated field yields its items as sent, and any other value yields no list |
| Upload.FindDuplicates | src/controllers/uploadController.js:120-128 | the result holds exactly the values occurring at least twice, each once |
| Upload.DuplicateScan | src/controllers/uploadController.js:121-127 | the `seen`/`duplicates` loop from any position keeps its invariant and ends with exactly the values met twice, each once |
| Upload.NoDuplicatesIff | src/controllers/uploadController.js:120-128 | the result is empty exactly when all names are distinct |
| Upload.Check | src/controllers/uploadController.js:12-41 | fail-fast checks: no files, then dataset name, then missing record names, then count mismatch, each with its single error; a request passing all of them has files, a non-empty name and one distinct record name per file |
| Upload.DuplicateErrorsExact | src/controllers/uploadController.js:32-40 | the duplicate-name errors name exactly the values that occur twice or more, no value twice, each under `recordName` with the duplicate message for that name |
| Upload.RepeatedNamesRejected | src/controllers/uploadController.js:32-41 | a request whose names repeat is refused with exactly one `recordName` error per repeated name: the errors name exactly the names that occur twice or more, no name twice, each with the duplicate message for that name |
| Upload.CollidingNames | src/controllers/uploadController.js:49-58 | one name per stored record of the dataset whose name is requested: every such record's name is present, every name present is requested and held by such a record, and there are exactly as many names as such records |
| Upload.CollisionRejected | src/controllers/uploadController.js:48-67 | when the existing dataset holds a record with a requested name, the request is refused with one `recordName` error per such stored record, naming it, and nothing is written |
| Upload.DatasetCreatedOnlyIfAbsent | src/controllers/uploadController.js:43-71 | the dataset table changes exactly when the request passed its checks on a healthy store and the user has no dataset of that name, even if ingestion then fails, and then by one appended dataset of that name and owner; an existing dataset is reused |
| Upload.Ingest | src/controllers/uploadController.js:73-93 | records are only appended, all in the target dataset and stamped with the clock; when every file parses, record `i` has name `names[i]`, the size and the parsed content of file `i` |
| Upload.IngestFailure | src/controllers/uploadController.js:73-93 | the batch fails exactly when some file does not parse, and then with the error of the first such file |
| Upload.UnsupportedMimetypeThrows | src/controllers/uploadController.js:76-83 | a file that is neither `text/csv` nor `application/pdf` throws an error without a code |
| Upload.ParseFile | src/controllers/uploadController.js:75-83 | a CSV file yields its parsed rows and a PDF file its text, each failing with its parser's error; a file succeeds exactly when its type is one of the two and its parser returns |
| Upload.UnsupportedFileNotIngested | src/controllers/uploadController.js:73-117 | an upload holding such a file never gets a 201; once the request passed its checks on a healthy store with no collision, and no parser fails with the size-limit code, the answer is the generic 500 |
| Upload.ErrorResponse | src/controllers/uploadController.js:108-117 | 413 with the error's field exactly for the code `LIMIT_FILE_SIZE`, 500 for every other error |
| Upload.TargetDataset | src/controllers/uploadController.js:69-71 | an existing dataset is reused with the store unchanged; otherwise one dataset of that name and owner is appended and the other tables are left alone |
| Upload.StoreFiles | src/controllers/uploadController.js:73-107 | storing into the target dataset answers 201 exactly when every file parses, and otherwise with the error response (413 with the field for an oversized file, else 500) of the first file that does not parse; on a 201 one record per file is appended in file order into that dataset with the file's name, size, parsed content and the clock, and the response lists each stored record; no other table changes |
| Upload.UploadDataset | src/controllers/uploadController.js:7-118 | a failed check answers with its errors and leaves the store alone; a store failure after the checks answers through the error mapping; with a healthy store, a collision answers 400 with its errors and no write, and otherwise the answer is 201 exactly when every file parses, and when one does not it is the error response (413 or 500) of the first file that does not parse; a refusal never writes; a 201 reuses the user's dataset of that name or appends one, appends one record per file in file order into that dataset with the file's name, size and parsed content, and lists each stored record's id, name, size and creation time |
| Upload.IngestedRecordsAligned | src/controllers/uploadController.js:73-106 | a 201 lists one record per file in file order, record `i` with the name and size of file `i` and the id of the stored record, which belongs to the user's dataset of the requested name |
| Search.Exec | src/controllers/searchController.js:30 | one `exec` returns the leftmost position at or after `lastIndex` where the query matches ignoring ASCII case, or none when there is none |
| Search.Occurrences | src/controllers/searchController.js:30-39 | every reported start is a match, and consecutive matches do not overlap |
| Search.OccurrencesComplete | src/controllers/searchController.js:30-39 | no match is missed: every matching position is a reported start or lies inside a reported match |
| Search.RecordHits | src/controllers/searchController.js:27-39 | every hit of a record carries the dataset's name, the record's name and the query |
| Search.RecordHitSpan | src/controllers/searchController.js:34-37 | a hit's end is its start plus the query length, and its text is the serialised record at that span, equal to the query up to ASCII case |
| Search.RecordHitsOrdered | src/controllers/searchController.js:30-39 | the hits of a record come in text order without overlap |
| Search.DatasetHits | src/controllers/searchController.js:27-40 | every hit of a dataset's records carries the dataset's name and the query |
| Search.ScanHits | src/controllers/searchController.js:21-41 | every hit of the scan carries the query |
| Search.DatasetHitsAppend | src/controllers/searchController.js:27-40 | the hits of a dataset are those of its records, record by record in storage order |
| Search.ScanHitsAppend | src/controllers/searchController.js:21-41 | the scan's hits are grouped by dataset, in the order the datasets are read |
| Search.ScanDataset | src/controllers/searchController.js:27-40 | the inner loop computes exactly the dataset's hits |
| Search.Scan | src/controllers/searchController.js:21-41 | the outer loop computes exactly the hits of all selected datasets |
| Search.HitLeTotalPreorder | src/controllers/searchController.js:43-49 | the comparator is a consistent total preorder, so the sort result is well defined |
| Search.TextLeAntisymmetric | src/controllers/searchController.js:48 | the matched-text order ties only equal texts |
| Search.HitLeTies | src/controllers/searchController.js:43-49 | the comparator (`HitLe`) ties two hits exactly when both or neither match exactly and their matched texts are equal |
| Search.Rank | src/controllers/searchController.js:43-49 | the ranking is a permutation of the scan; every exact hit precedes every inexact one; within each class the matched texts are in order; hits the comparator ties keep their scan order |
| Search.RankStable | src/controllers/searchController.js:43-49 | hits the comparator ties keep their scan order |
| Search.SearchRecords | src/controllers/searchController.js:4-56 | 400 exactly for a falsy or non-string query; 500 on a store failure; otherwise always 200 with the scan's hits ranked: a permutation of them, exact hits first, each class in matched-text order, ties in scan order, each hit carrying the query |
| Search.NoDatasetsNoHits | src/controllers/searchController.js:16-21 | with no dataset to search the answer is an empty hit list, not an error |
| JsText.JoinSnoc | src/controllers/queryController.js:37-40 | joining one more text appends the separator and that text |
| Query.ContentSnoc | src/controllers/queryController.js:37-40 | the content grows by a space and the next record's text, string content as it is and other content serialised |
| Query.ContentLength | src/controllers/queryController.js:37-40 | the content is as long as the texts together plus one space between each two |
| Query.Content | src/controllers/queryController.js:37-40 | no records give the empty content; a single record gives its text alone: a JSON string as it is, other content serialised (`RecordText`) |
| JsText.SlicePrefix | src/controllers/queryController.js:49 | `slice(0, end)` is a prefix of length `end` capped at the length for `end ≥ 0`, and drops `-end` characters from the end for `end < 0` |
| Query.Context | src/controllers/queryController.js:42-50 | the context is a prefix of the content; unchanged when question and content fit 1000 characters; exactly `1000 - |question|` long when they do not and the question fits; `|content| - (|question| - 1000)` long, at least 0, when the question alone is over the budget |
| Query.ContextWithinBudget | src/controllers/queryController.js:44-50 | a question within the budget keeps question and context together within it |
| Query.StoredAnswer | src/controllers/queryController.js:66-67 | a falsy answer, the empty string included, becomes "Resposta não disponível"; a non-empty string is kept; the stored answer is never empty |
| Query.AskDataset | src/controllers/queryController.js:37-98 | once the dataset is found: answered exactly when the model replies with an answer that can be stored; otherwise 500 with the store untouched; an answered request appends one row holding the user, the dataset's name, the question, the context sent (the content cut to the budget) and the answer stored for the model's reply |
| Query.PostQuery | src/controllers/queryController.js:10-99 | a blank query is refused before the dataset name is looked at; with both fields present: 500 on a store failure, the no-dataset 404 when the user owns none, the named 404 when the user owns some but not that one, and otherwise the dataset's question is asked; nothing is written unless the answer is stored |
| Query.NoDatasetsFirst | src/controllers/queryController.js:23-26 | a user with no dataset at all gets that 404 before the named lookup |
| Query.StoredRow | src/controllers/queryController.js:42-77 | the persisted row holds the user, the requested dataset name, the trimmed question, the context cut from that dataset's content for it, and the answer stored for the model's reply to that question and context, never empty |
| Query.ModelFailurePersistsNothing | src/controllers/queryController.js:59-64 | when the model call throws, the answer is 500 and the store is unchanged |
| Auth.RegistrationErrors | src/controllers/authController.js:15-20 | there is no error exactly when all three validators pass |
| Auth.RegistrationErrorsGrouped | src/controllers/authController.js:13-17 | the list holds every name error, then every email error, then every password error: each position holds the error its validator reports at the matching place, about that validator's field, and nothing else is in the list |
| Auth.FieldBlocks | src/controllers/authController.js:13-17 | the errors of three concatenated violation lists are each list's errors in turn, position by position, each block about its own field |
| Auth.GroupAt | src/controllers/authController.js:15-17 | the errors of each validator keep their order and position in the combined list |
| Auth.Register | src/controllers/authController.js:11-46 | refused exactly when a validator reports an error, before the store is read, and then the response lists exactly the registration errors; 500 on a store failure; with valid fields on a healthy store, registered exactly when the address is unused and `EmailTaken` exactly when it is in use; on success exactly one user is appended, with the given name and email and the hash of the password |
| Auth.RegisterKeepsEmailsUnique | src/controllers/authController.js:25-34 | registration keeps email addresses unique |
| Auth.RegisteredEmailTaken | src/controllers/authController.js:25-28 | a valid registration with an address already registered is refused and writes nothing |
| Auth.LoginErrors | src/controllers/authController.js:53-61 | the email gets either "required" or "malformed", never both; the password error appears exactly for a missing password; with two errors the email's comes first |
| Auth.Login | src/controllers/authController.js:49-92 | 400 exactly on a form error; 500 on a store failure; with a valid form on a healthy store, 404 exactly when no user has the address, 401 exactly when the compare fails for the user found, and otherwise a token signed over that user's id, email and name with lifetime `1d` |
| Auth.RegisterThenLogin | src/controllers/authController.js:30-88 | after a registration, logging in with the same address and password yields a token for the new user, when the comparison accepts a password against its own hash |
| Auth.AppendedEmailFound | src/controllers/authController.js:68 | a user appended under an unused address is the one found by it |
| Auth.GetMe | src/controllers/authController.js:94-110 | 500 exactly on a store failure; otherwise 404 exactly when no user has the identifier; a profile is the identifier, name and email of that user |
| Auth.RegisteredProfile | src/controllers/authController.js:94-105 | a newly registered user's profile is the name and address they registered with |
| Datasets.ListDatasets | src/controllers/datasetsController.js:4-30 | 500 exactly on a store failure; otherwise entry `i` is the `i`-th dataset the user owns in storage order, with its identifier, name and number of records |
| Datasets.EmptyListingIff | src/controllers/datasetsController.js:8-25 | the listing is empty exactly when the user owns no dataset |
| Datasets.RecordCountAfterCreate | src/controllers/datasetsController.js:13-15 | creating a record raises its dataset's count by one and leaves the other counts alone |
| Datasets.RecordCount | src/controllers/datasetsController.js:13-15 | the `_count` of a dataset is the length of its record list |
| Datasets.Summarise | src/controllers/datasetsController.js:19-23 | one summary per dataset, in order, with its identifier, name and record count |
| JsText.ParseInt | src/controllers/datasetsController.js:34 | a text without any decimal digit parses to nothing (`NaN`) |
| JsText.ParseIntDecimal | src/controllers/datasetsController.js:34 | a canonical decimal numeral parses to its value |
| Datasets.NewestFirst | src/controllers/datasetsController.js:56 | the records are a permutation of the dataset's records, most recent first |
| Datasets.View | src/controllers/datasetsController.js:53-55 | the four fields are always present; the content is present exactly on a verbose request |
| Datasets.Listing | src/controllers/datasetsController.js:51-58 | one view per record of the dataset, most recent first, with content exactly when verbose |
| Datasets.ReadDataset | src/controllers/datasetsController.js:41-63 | 500 exactly on a store failure; with unique identifiers, 404 exactly when no dataset with that identifier is owned by the user; a list only for an owned dataset |
| Datasets.GetDatasetRecords | src/controllers/datasetsController.js:32-64 | 400 exactly when the identifier does not parse; 500 exactly on a store failure after that; 404 exactly when the dataset is missing or not the user's; the list is newest first and has content exactly when `verbose` is the string `true` |
| Datasets.ListedRecordsAreTheDatasets | src/controllers/datasetsController.js:51-58 | every record of the dataset appears in the list |
| Datasets.ForeignLooksMissing | src/controllers/datasetsController.js:47-49 | asking for another user's dataset is answered exactly as asking for an identifier no dataset has |
| Datasets.NonNumericIdRefused | src/controllers/datasetsController.js:34-39 | an identifier without a digit is refused with 400 whatever the store holds |
| Datasets.DecimalIdParsed | src/controllers/datasetsController.js:34-49 | a decimal identifier is never refused as invalid, and gets 404 exactly when the user owns no dataset with that number |
| Datasets.CreateKeepsDatasetIdsUnique | src/controllers/datasetsController.js:41-44 | creating a dataset under a fresh identifier keeps dataset identifiers unique, which the single-row lookup relies on |
| Store.CreateRecord | src/controllers/uploadController.js:85-92 | a create appends exactly one row with the given fields, stamped with the clock, under an identifier no existing record has, and leaves the other tables alone |
| Store.CreateDataset | src/controllers/uploadController.js:69-71 | a create appends exactly one dataset with the given name and owner under an identifier no existing dataset has, and leaves the other tables alone |
| Store.CreateUser | src/controllers/authController.js:32-34 | a create appends exactly one user with the given fields under an identifier no existing user has, and leaves the other tables alone |
| Store.FindDataset | src/controllers/queryController.js:28-31 | the dataset found has that name and owner; none is found exactly when no stored dataset has both |
| Store.FindUserByEmail | src/controllers/authController.js:68 | the user found has that address; none is found exactly when no stored user has it |
| Store.FindUserById | src/controllers/authController.js:96-99 | the user found has that identifier; none is found exactly when no stored user has it |
| Store.FindDatasetById | src/controllers/datasetsController.js:42-45 | the dataset found has that identifier; none is found exactly when no stored dataset has it |
| Store.CreateQuery | src/controllers/queryController.js:69-77 | the query row is appended with the given fields, stamped with the clock, and the other tables are left alone |
| Store.RecordsOfAppend | src/controllers/queryController.js:28-31 | a record added to a dataset is read after the ones already there |
| Sorting.SortBy | src/controllers/searchController.js:43 | a stable sort: a permutation, ordered by the comparator, keeping tied elements in input order |

## Left out

- Lengths count Unicode code points. JavaScript counts UTF-16 code units, which differ for characters outside the Basic Multilingual Plane. This affects the password and name lengths and the 1000-character budget.
- Case folding is ASCII-only, in the search and in the extension check. For the search this is a simplification, because the case-insensitive flag also folds non-ASCII letters. For the extension check it decides the same answers.
- `trim` and `\s` use the ECMAScript white-space set, written out as code-point ranges. No Unicode normalisation is modelled.
- Search.SearchRecords: the query is a literal pattern. The source passes it to `new RegExp`, so the model leaves out several behaviours: metacharacters; an invalid pattern, which throws and gives 500; and the empty-match looping of `exec` with the global flag. A query that is a non-empty string always has a non-empty literal here.
- Search.TextLe: `localeCompare` is modelled as code-point lexicographic order. Locale collation is not modelled.
- `JSON.stringify` is a parameter. Its formatting is not modelled.
- Search.SearchRecords: the user filter comes from a route parameter the route does not declare. The model takes it as an explicit option and claims no per-user isolation.
- Validators, Auth: the auth fields are modelled as absent or a string. Numbers, arrays or objects in those JSON fields, which make the source throw or misbehave, are not modelled.
- A store failure is modelled only at a controller's first store call. Failures of later calls are not modelled: after the dataset lookup in upload, query and records, or in `bcrypt.hash` and `bcrypt.compare`, any such failure answers 500. The exceptions are the ingestion parse failures and the model call, which are modelled.
- Upload.Ingest: `Promise.all` is modelled as an order-preserving map. Every file that parses gets its record even when another file fails, because the source does not cancel the other creates. The first failure by file order is the one reported, which assumes rejections settle in file order.
- Upload.UploadDataset: the dataset created for a new name is kept even when ingestion later fails. There is no transaction, as in the source.
- UploadFilter.FileFilter: the mimetype the client declares is not consulted, as in the source. Ingestion then dispatches on the mimetype, which is modelled.
- Upload.TrimmedNonEmpty: its contract and Upload.TrimmedNonEmptyComplete state what the names are, but not their order. Order is stated only for names sent joined, by Upload.SplitRecordNamesJoin.
- Identifiers are unbounded naturals. The database's 32-bit integer range is not modelled: an identifier above it makes Prisma throw.
- Datasets.NewestFirst: records created at the same instant keep storage order. The database leaves their order unspecified.
- Datasets.ReadDataset: the 404 characterisation assumes unique dataset identifiers, as the primary key guarantees. The model's store does not enforce it.
- Token signing, the secret and expiry enforcement, bcrypt, pdf-parse, csv-parser and `validator.isEmail` are uninterpreted parameters.
- The question-answering model's HTTP call is a parameter returning the `answer` property or throwing. A truthy answer that is not a string cannot be stored, so it is modelled as the 500 the failed create gives.
- Logging, Express routing, the authentication middleware and the response message texts of the 201 and 200 bodies are left out.
