# pdf-store: a verified model of the document store's core

pdf-store keeps uploaded PDF files on disk under `./upload/` and their metadata in
PostgreSQL. Its tables are `pdfs` (one row per document, primary key `id`) and
`tags_to_pdfs` (tag names per document). A REST backend lists documents page by page. It
searches them by title, author and tag, returns one document's metadata or its file
content, and deletes and uploads documents. An Angular page shows one document and lets the
user edit its title, author, comments and tags.

This project models that core in Dafny:

- **Repository** (`Queries`, `queries.dfy`): the SQL statements of `repository/pdfs.rs` as
  functions over a database value.
  - The list and search queries are built from operations with meaning of their own: the
    LEFT JOIN, the WHERE predicate with NULL as false, DISTINCT, ORDER BY
    `(time_added, id)` as an insertion sort, and LIMIT/OFFSET as a window.
  - PostgreSQL refuses a negative LIMIT or OFFSET. That is an error result of the statement.
  - The page offset `page - 1` is computed in 32-bit arithmetic. The model wraps it around
    as a release build does; a debug build panics on `page = i32::MIN` instead.
  - The tag loop of `get_associated_tags_of_pdf` is a method with its loop.
- **Service** (`Service`, `service.dfy`): the service layer of `service/pdf.rs`.
  - Each repository answer is an input. A trace of effects records which calls were made,
    in which order.
  - Upload and delete change two stores, the `pdfs` table and the upload directory. They are
    methods of the class `DualStore`, which holds both stores and the trace.
- **Handlers** (`Handlers`, `handlers.dfy`): the HTTP handlers of
  `api/controllers/pdf_handler.rs`. Each one checks its request before calling the
  service, then maps the answer to a status code and a JSON body. Lemmas follow a list
  request and a metadata request through all three layers.
- **Preview** (`Preview`, `preview.dfy`): how `util/mod.rs` derives a new upload's title,
  author and page count, and when it gives up before rendering a thumbnail.
- **Detail page** (`DetailView`, `detail_view.dfy`): the component of
  `pdf-detail-view.component.ts` as a class. It holds the edit flag, the pending update
  with its tag list, and the loaded snapshot.
- **Shared definitions**: `Base` (`base.dfy`) holds Option/Result, the integer widths and
  the trace record. `Model` (`model.dfy`) holds the records and DTOs. `Text` (`text.dfy`)
  holds Rust's and JavaScript's `trim` and the `ILIKE '%…%'` test.

Source paths below are relative to the repository root.

## Model

| member | source | states |
|---|---|---|
| Base.WrapI32 | backend/src/repository/pdfs.rs:56 | The 32-bit result of `page - 1` agrees with the exact value when it fits and differs from it by a multiple of 2^32 otherwise. |
| Text.Trim | backend/src/util/mod.rs:31-34 | Trimming gives a slice of the input that neither starts nor ends with whitespace. It is empty exactly when the input is all whitespace. |
| Text.TrimIdempotent | backend/src/util/mod.rs:34 | Trimming a trimmed string changes nothing. |
| Text.TrimPadded | frontend/src/app/components/pdf-detail-view/pdf-detail-view.component.ts:165 | Trim recovers a string from any whitespace padding around it. |
| Text.Lower | backend/src/repository/pdfs.rs:152-154 | ILIKE's case folding keeps the length and maps each character independently: each ASCII capital becomes its lower-case letter (code + 32), everything else stays. |
| Text.LowerIdempotent | backend/src/repository/pdfs.rs:152-154 | Folding case twice is folding it once. |
| Text.ILikeInfix | backend/src/repository/pdfs.rs:152-154 | A value contains the filter, ignoring case, only if the filter is no longer than the value. |
| Text.ILikeIgnoresCase | backend/src/repository/pdfs.rs:152-154 | Folding the case of the value or of the filter first changes no ILIKE answer. |
| Text.ILikeBasics | backend/src/repository/pdfs.rs:152-154 | An empty filter matches every value, and every value matches itself. |
| Queries.RowsWithId | backend/src/repository/pdfs.rs:104 | `WHERE id = $1` keeps exactly the relation rows of that document, each as often as the table holds it. |
| Queries.JoinOf | backend/src/repository/pdfs.rs:150 | A document joins with each of its relation rows, or gives one row with NULL tag columns when it has none. It always gives at least one row. |
| Queries.LeftJoin | backend/src/repository/pdfs.rs:150 | A row is in the LEFT JOIN exactly when its document is in the table and the row is one of that document's joined rows. |
| Queries.SelectWhere | backend/src/repository/pdfs.rs:151-154 | A document is selected exactly when one of its joined rows satisfies all three `IS NULL OR ILIKE` conditions. |
| Queries.Distinct | backend/src/repository/pdfs.rs:150 | DISTINCT keeps the same set of rows and leaves no duplicates. |
| Queries.Insert | backend/src/repository/pdfs.rs:155 | Inserting into a list sorted by `(time_added, id)` keeps it sorted. The result is the list plus that one element (as a multiset). |
| Queries.SortByKey | backend/src/repository/pdfs.rs:155 | ORDER BY `time_added, id` gives a sorted permutation of its input. |
| Queries.InsertKeepsDistinctIds | backend/src/repository/pdfs.rs:155 | Inserting a row whose id is new keeps ids distinct. |
| Queries.SortKeepsDistinctIds | backend/src/repository/pdfs.rs:155 | With distinct ids, the sorted rows keep distinct ids and are strictly increasing in `(time_added, id)`. The order is total. |
| Queries.PageOffset | backend/src/repository/pdfs.rs:55-56 | The OFFSET is `size * (page - 1)`, except that page `i32::MIN` wraps to `size * i32::MAX`. It always fits in i64. |
| Queries.Window | backend/src/repository/pdfs.rs:60 | LIMIT/OFFSET yields `min(limit, n - offset)` rows (none past the end), and row k is input row `offset + k`. |
| Queries.PageCount | backend/src/repository/pdfs.rs:55-56 | The number of non-empty pages is the least k with `k * size >= n`. |
| Queries.PagesArePrefix | backend/src/repository/pdfs.rs:55-60 | Pages 1..k laid end to end are the first `k * size` rows. |
| Queries.PagesPartition | backend/src/repository/pdfs.rs:55-60 | Pages 1..PageCount reproduce the whole ordered list, and every later page is empty. |
| Queries.Overviews | backend/src/repository/pdfs.rs:60 | The overview list has one entry per row, in order: the row's id, title and picture. |
| Queries.MatchesIffSelected | backend/src/repository/pdfs.rs:150-155 | A document is among the search results (before paging) exactly when it is in the table and matches a join-free reference predicate. Title and author must match its own columns. A tag filter must match one of its tag names. |
| Queries.UntaggedNeverMatchesTagFilter | backend/src/repository/pdfs.rs:154 | A document with no tags never matches a tag filter, because its NULL tag column fails ILIKE. |
| Queries.OrderedMatchesStrict | backend/src/repository/pdfs.rs:150-155 | With distinct ids, the search results have distinct ids and are strictly ordered by `(time_added, id)`. |
| Queries.IdSetSize | backend/src/repository/pdfs.rs:161 | For rows with distinct ids, the set of their ids has as many members as there are rows. |
| Queries.InOrderedMatches | backend/src/repository/pdfs.rs:150-155 | The ordered results hold exactly the documents of the joined rows that satisfy the WHERE clause. |
| Queries.MatchingIdsAreOrderedIds | backend/src/repository/pdfs.rs:150-165 | The ids counted by the count statement are exactly the ids of the listed results. |
| Queries.FilterMatches | backend/src/repository/pdfs.rs:152-154 | An absent filter accepts every row. A present filter rejects a NULL column. An empty filter accepts exactly the non-NULL columns. A match is never shorter than its filter. |
| Queries.OrderedMatches | backend/src/repository/pdfs.rs:149-155 | The search results are ordered by `(time_added, id)` and are rows of the table. |
| Queries.CountDistinctIds | backend/src/repository/pdfs.rs:161-167 | The count is zero exactly when the search query without LIMIT/OFFSET finds nothing. |
| Queries.PageStatementFails | backend/src/repository/pdfs.rs:55-71 | The page statement fails exactly when the connection fails, the size is negative, or a positive size meets a page below 1 other than `i32::MIN`. |
| Queries.CountEqualsOrderedMatches | backend/src/repository/pdfs.rs:159-167 | `count(DISTINCT pdfs.id)` equals the number of results of the search query without LIMIT/OFFSET. |
| Queries.Search | backend/src/repository/pdfs.rs:142-199 | A failing page statement makes search fail without running the count. Otherwise both run, in that order. On success the previews are the requested window of the ordered results. With distinct ids (the primary key), the count is their number. Every failure carries the single search error message. |
| Queries.SearchPageFacts | backend/src/repository/pdfs.rs:159-198 | The count equals the number of results, and a returned page has distinct ids. |
| Queries.TotalNumberOfPdfs | backend/src/repository/pdfs.rs:35-49 | The count statement gives the number of rows, or the count error when the connection fails. |
| Queries.GetPdfsPaged | backend/src/repository/pdfs.rs:52-71 | The page statement succeeds exactly when there is a connection and LIMIT and OFFSET are not negative. It then gives the requested window of the table in `(time_added, id)` order. Otherwise it gives the paging error. |
| Queries.PageOffsetOfPage | backend/src/repository/pdfs.rs:56 | Page p ≥ 1 with size ≥ 0 has offset `size * (p - 1)` ≥ 0, so that statement does not fail. |
| Queries.SearchPage | backend/src/repository/pdfs.rs:169-176 | The previews of a valid page request are page p of the ordered results. |
| Queries.SearchPageIsSearch | backend/src/repository/pdfs.rs:142-199 | A valid page request to search succeeds and returns that page. |
| Queries.SearchPageCount | backend/src/repository/pdfs.rs:183-198 | Every search page reports the total number of results. |
| Queries.SearchPagesPartitionMatches | backend/src/repository/pdfs.rs:142-199 | Search pages 1..PageCount together give every result exactly once, in order. Every later page is empty. |
| Queries.ListedPage | backend/src/repository/pdfs.rs:52-71 | A valid list request succeeds and gives page p of the table in `(time_added, id)` order. |
| Queries.ListedPagesArePages | backend/src/repository/pdfs.rs:52-71 | Listing pages 1..k one after another gives the overviews of the first k pages. |
| Queries.ListingPagesPartitionTable | backend/src/repository/pdfs.rs:35-71 | Walking the list pages up to the reported count shows every document exactly once, in order. |
| Queries.FindById | backend/src/repository/pdfs.rs:79 | The lookup finds a table row with that id, or finds none exactly when no row has it. |
| Queries.ClassifyMetadataError | backend/src/repository/pdfs.rs:85-95 | A failure is "not found" exactly when it is not a database error, each with its own message. |
| Queries.GetPdfMetadataById | backend/src/repository/pdfs.rs:74-96 | The lookup succeeds exactly when the row exists and no error occurs. A missing row, or a failure other than a database error, is NotFound. A database error is DatabaseError. |
| Queries.TagNames | backend/src/repository/pdfs.rs:114-116 | Unwrapping the tag names gives one name per row, in row order. |
| Queries.AssociatedTagsMembership | backend/src/repository/pdfs.rs:99-122 | A name is among a document's tags exactly when the relation table pairs it with that document. |
| Queries.GetAssociatedTagsOfPdf | backend/src/repository/pdfs.rs:99-122 | The loop collects exactly the document's tag names, in row order. When the query fails the result is the tags error. |
| Queries.GetFileNameById | backend/src/repository/pdfs.rs:125-139 | The lookup gives the file name of a row with that id, or the lookup error when there is no such row or no connection. |
| Service.UploadPath | backend/src/service/pdf.rs:117 | The file path is `./upload/` followed by the stored file name. |
| Service.UploadPathInjective | backend/src/service/pdf.rs:161 | Different file names never share a path. |
| Service.GetAll | backend/src/service/pdf.rs:47-67 | A count failure is returned before the page is fetched. Otherwise both are fetched, count first. A page failure is returned as it is. On success the answer pairs the page with the count. |
| Service.GetAllOverRepository | backend/src/service/pdf.rs:47-67 | Without faults, listing page p ≥ 1 answers page p of the ordered table with the table's size. |
| Service.MetadataOf | backend/src/service/pdf.rs:89-100 | The metadata answer carries every column of the row, with `time_added` as `uploaded`, and the tags. |
| Service.GetPdfMetadata | backend/src/service/pdf.rs:70-104 | A lookup failure is returned before the tags are fetched. A tags failure is returned as it is. On success the answer combines the row and the tags. |
| Service.GetPdfMetadataOverRepository | backend/src/service/pdf.rs:70-104 | Without faults, an unknown id gives "No pdf with given ID exists". A known id gives its row together with exactly its tags. |
| Service.GetById | backend/src/service/pdf.rs:107-122 | A lookup failure is returned before any file is read. Otherwise the stored file is read and returned. |
| Service.GetByIdOverRepository | backend/src/service/pdf.rs:107-122 | An unknown id reads no file. A known id returns the contents of that document's own file. |
| Service.NeedsRemoval | backend/src/service/pdf.rs:30-38 | A successful insert keeps its file. A failure that is not a database error removes it. A database error removes it exactly when its SQLSTATE is not 23505. |
| Service.RemovedPaths | backend/src/service/pdf.rs:28-39 | A staged file is removed exactly when its insert failed and the failure was not a database error with SQLSTATE 23505. |
| Service.InsertedRows | backend/src/service/pdf.rs:27-29 | The rows added are exactly those whose insert succeeded. |
| Service.UploadInsertsEveryItemInOrder | backend/src/service/pdf.rs:25-41 | Every item is inserted, in batch order, whatever happened to earlier items. |
| Service.UploadFateOfItem | backend/src/service/pdf.rs:30-38 | With distinct staged paths, an item's file is kept after a successful insert or a unique violation. It is removed after any other failure. |
| Service.DualStore.Upload | backend/src/service/pdf.rs:22-44 | The loop visits every item and then reports success. The table gains exactly the inserted rows. The directory loses exactly the removed paths. The trace gains each item's calls, in order. |
| Service.DualStore.UploadItem | backend/src/service/pdf.rs:27-40 | One item: the insert, then removal of the staged file when the failure calls for it. |
| Service.DualStore.RemoveStaged | backend/src/service/pdf.rs:34-37 | Removing a staged file deletes that path only and leaves the table alone. |
| Service.DualStore.Delete | backend/src/service/pdf.rs:149-165 | A failed row delete is returned and no file is touched. Otherwise the rows with that id are gone and so is the file named by the deleted row. |
| Service.WithoutId | backend/src/service/pdf.rs:152 | After the delete, the table holds exactly the rows with another id. |
| Service.DeleteKeepsOtherFiles | backend/src/service/pdf.rs:149-165 | When every row's file exists and file names are distinct, deleting a document keeps every other document's file. |
| Handlers.GetAll | backend/src/api/controllers/pdf_handler.rs:11-27 | The service is called exactly when both paging values are present. Otherwise the answer is 400 with its message. A success is 200 with the answer and a failure 500 with the message. |
| Handlers.Search | backend/src/api/controllers/pdf_handler.rs:81-101 | Paging is checked first, then that at least one filter is present; each check has its own 400 message. Only then is the service called. The service answer becomes 200 or 500. |
| Handlers.MetadataErrorStatus | backend/src/api/controllers/pdf_handler.rs:50-53 | NotFound maps to 404 and DatabaseError to 500. |
| Handlers.GetMetadataById | backend/src/api/controllers/pdf_handler.rs:31-55 | An id that does not parse is 400 and calls nothing. Otherwise the answer is 200, 404 or 500, with the service's message. |
| Handlers.GetById | backend/src/api/controllers/pdf_handler.rs:59-77 | An id that does not parse is 400 and calls nothing. Otherwise the service answer becomes 200 or 500. |
| Handlers.Update | backend/src/api/controllers/pdf_handler.rs:105-126 | An id that does not parse is 400 and calls nothing. Otherwise the service gets the body and the id, and its answer becomes 200 or 500. |
| Handlers.Delete | backend/src/api/controllers/pdf_handler.rs:130-148 | An id that does not parse is 400 and calls nothing. Otherwise the answer is 200 or 500. |
| Handlers.Upload | backend/src/api/controllers/pdf_handler.rs:152-167 | A batch that could not be prepared is 500 and calls nothing. Otherwise the answer is 201 or 500. |
| Handlers.InvalidIdIsRefusedFirst | backend/src/api/controllers/pdf_handler.rs:36-41 | Every id-taking handler answers 400 exactly when the id does not parse, and then calls no service. |
| Handlers.ListRequestEndToEnd | backend/src/api/controllers/pdf_handler.rs:14-26 | Through all layers, a list request is 200 exactly when size ≥ 0 and the offset is ≥ 0, and 500 with the paging error otherwise. Page p ≥ 1 gets page p and the table's size. |
| Handlers.PageZeroReachesDatabase | backend/src/repository/pdfs.rs:56 | Page 0 with a positive size passes the handler, but its OFFSET is negative, so the database refuses it. |
| Handlers.MetadataRequestEndToEnd | backend/src/api/controllers/pdf_handler.rs:43-53 | Through all layers, an unknown id is 404 with "No pdf with given ID exists". A known id is 200 with its row and tags. |
| Preview.ChooseTitle | backend/src/util/mod.rs:29-38 | A missing or blank metadata title gives the file name. Any other title gives a non-blank slice of it with no whitespace at either end. |
| Preview.PaddedTitleIsRecovered | backend/src/util/mod.rs:31-35 | A title padded with whitespace on either side comes back exactly. |
| Preview.BlankTitleFallsBack | backend/src/util/mod.rs:31-37 | A blank title, the empty one included, gives the same result as no title. |
| Preview.ChooseTitleIdempotent | backend/src/util/mod.rs:29-38 | Choosing again from the chosen title changes nothing when the file name is already trimmed. |
| Preview.GetPreviewOfPdf | backend/src/util/mod.rs:13-61 | A load or first-page failure is returned and no thumbnail is rendered. On success the result is (thumbnail of page one, chosen title, author untrimmed, Some(page count)), in that order. |
| Preview.PreviewFacts | backend/src/util/mod.rs:28-38 | A successful preview has a non-blank title unless the title is the file name. Its page count is present and not negative. |
| DetailView.Loaded | frontend/src/app/components/pdf-detail-view/pdf-detail-view.component.ts:62-69 | The pending update right after loading carries every loaded field, the tags included. |
| DetailView.TagOf | frontend/src/app/components/pdf-detail-view/pdf-detail-view.component.ts:165 | The chip value, or `''` when absent, trimmed: a slice of the value that is empty exactly when the value is all whitespace and otherwise has no whitespace at either end. |
| DetailView.WithTagAdded | frontend/src/app/components/pdf-detail-view/pdf-detail-view.component.ts:164-178 | `add` appends the trimmed input, unless that is empty or already in the list (compared exactly); then the list is unchanged. |
| DetailView.IndexOf | frontend/src/app/components/pdf-detail-view/pdf-detail-view.component.ts:181 | `indexOf` is -1 exactly when the tag is absent. Otherwise it is the position of its first occurrence. |
| DetailView.WithTagRemoved | frontend/src/app/components/pdf-detail-view/pdf-detail-view.component.ts:180-186 | `remove` takes out one occurrence of a present tag (as a multiset) and otherwise changes nothing. |
| DetailView.AddIdempotent | frontend/src/app/components/pdf-detail-view/pdf-detail-view.component.ts:169-175 | Adding the same input twice is adding it once. |
| DetailView.AddKeepsNoDuplicates | frontend/src/app/components/pdf-detail-view/pdf-detail-view.component.ts:169-175 | A tag list without duplicates stays without duplicates after `add`. |
| DetailView.AddedTagIsTrimmed | frontend/src/app/components/pdf-detail-view/pdf-detail-view.component.ts:165-167 | A tag that `add` appends is non-empty and has no whitespace at either end. |
| DetailView.RemoveKeepsNoDuplicates | frontend/src/app/components/pdf-detail-view/pdf-detail-view.component.ts:180-186 | On a list without duplicates, `remove` keeps it duplicate-free and leaves no copy of the tag. |
| DetailView.RemoveUndoesAdd | frontend/src/app/components/pdf-detail-view/pdf-detail-view.component.ts:164-186 | Removing a newly added tag gives back the original list. |
| DetailView.Reverted | frontend/src/app/components/pdf-detail-view/pdf-detail-view.component.ts:188-197 | Revert sets title, author and comments from the snapshot, with `""` when the snapshot or the field is missing. Tags become the snapshot's, or `[]`. Id and picture stay. |
| DetailView.RevertDiscardsEdits | frontend/src/app/components/pdf-detail-view/pdf-detail-view.component.ts:188-197 | No edit of title, author, comments or tags survives a revert. |
| DetailView.RevertIdempotent | frontend/src/app/components/pdf-detail-view/pdf-detail-view.component.ts:188-197 | Reverting twice is reverting once. |
| DetailView.RevertAfterLoad | frontend/src/app/components/pdf-detail-view/pdf-detail-view.component.ts:60-69 | Right after loading, a revert restores the loaded tags. With all text fields present it changes nothing. |
| DetailView.PdfDetailView.constructor | frontend/src/app/components/pdf-detail-view/pdf-detail-view.component.ts:19-31 | The page starts outside edit mode, with an empty pending update and no snapshot. |
| DetailView.PdfDetailView.NgOnInit | frontend/src/app/components/pdf-detail-view/pdf-detail-view.component.ts:49-59 | A missing route id navigates to `/overview` and fetches nothing. Otherwise the metadata for that id is fetched. |
| DetailView.PdfDetailView.OnMetadataLoaded | frontend/src/app/components/pdf-detail-view/pdf-detail-view.component.ts:60-70 | The loaded metadata becomes both the snapshot and the pending update. |
| DetailView.PdfDetailView.OnMetadataError | frontend/src/app/components/pdf-detail-view/pdf-detail-view.component.ts:71-80 | A failed load navigates to `/overview`. |
| DetailView.PdfDetailView.RevertEditChanges | frontend/src/app/components/pdf-detail-view/pdf-detail-view.component.ts:188-197 | The pending update becomes its reverted form. Nothing else changes. |
| DetailView.PdfDetailView.ToggleEditMode | frontend/src/app/components/pdf-detail-view/pdf-detail-view.component.ts:84-90 | The flag flips. Edits are reverted only when leaving edit mode. |
| DetailView.PdfDetailView.CancelEdit | frontend/src/app/components/pdf-detail-view/pdf-detail-view.component.ts:199-202 | Edits are reverted and edit mode ends. |
| DetailView.PdfDetailView.SaveEdit | frontend/src/app/components/pdf-detail-view/pdf-detail-view.component.ts:204-214 | The pending update is sent. Edit mode ends only when the backend accepts it. A rejection leaves all state unchanged. |
| DetailView.PdfDetailView.Add | frontend/src/app/components/pdf-detail-view/pdf-detail-view.component.ts:164-178 | The tag list becomes its `add` form, and a duplicate-free list stays duplicate-free. |
| DetailView.PdfDetailView.Remove | frontend/src/app/components/pdf-detail-view/pdf-detail-view.component.ts:180-186 | The first occurrence is spliced out. A duplicate-free list stays duplicate-free and loses the tag. |

## Left out

- Service.GetById: requires the stored file to exist, because the source panics when it does not.
- Service.DualStore.Upload: requires what the source's `unwrap`s assume and does not model
  the panics.
  - Every database error carries a SQLSTATE.
  - Every staged file to be removed exists.
  - The files to be removed have distinct paths.
- Queries.Search: requires size and page to be present, because the source unwraps them.
  The handler checks both before calling.
- Queries.GetPdfsPaged: requires size and page to be present, for the same reason.
- Queries.AssociatedTags: requires every tag name of the document to be non-NULL, because
  the source unwraps each one.
- Text.ILikeInfix: takes `%`, `_` and `\` inside a filter value literally. It folds case
  for ASCII letters only. PostgreSQL treats `%` and `_` as wildcards, `\` as the LIKE
  escape character, and folds case by locale.
- Preview.GetPreviewOfPdf: assumes rendering the first page succeeds. The source unwraps
  the render result (`backend/src/util/mod.rs:56`) and panics when it fails.
- The count statement of search binds five values although it uses three. Whether
  PostgreSQL accepts that is left to the input `countQueryFails`.
- `time_added` is assumed never NULL. UUIDs are ordered as the 128-bit numbers PostgreSQL
  compares.
- The count column is an `i64` in the source but an unbounded integer in the model. A table
  of 2^63 rows is out of scope.
- The repository's `upload`, `update` and `delete` statements are not part of this model.
  The service layer takes their outcomes as inputs.
  - The row-delete result is the deleted file name or an error. `Service.DualStore.Delete`
    assumes that a successful delete removes every row with the id and a failed one removes
    none.
  - The content of an update is not modelled. `Handlers.Update` passes the body and the
    answer through.
- The service's `search` and `update` only forward the repository's answer, so the handlers
  take that answer directly.
- `Uuid::parse_str` is an input (`Option<Uuid>`).
- `map_pdfs` prepares the upload batch and is not part of this model. The handler takes its
  outcome.
- Base64 encoding, reading and writing file contents, and file-permission errors are left
  out.
  - File removal succeeds exactly when the file exists.
  - The result of delete's `remove_file` is ignored, as in the source.
- pdfium library binding, document loading, page rendering and JPEG encoding are foreign
  libraries. The document is an input value, and rendering is the parameter `thumbnail`.
  The page count is the library's 16-bit index type, so its cast to `i32` cannot overflow.
- Logging, actix-web routing and serialisation details, and async scheduling are left out.
  Requests are treated one at a time, with no concurrency between them.
- The frontend's HTTP client, snackbar messages, chip-input clearing, dialogs and DOM code
  are left out. The HTTP outcome of a load or a save is a method input.
- The frontend's `PdfDetails` record keeps only the fields the page edits or restores.
- The frontend's deep copies of the tag list are implicit, since Dafny sequences are values.
  The model cannot express aliasing between the snapshot and the pending update.
- A JSON `null` in the loaded tags is not modelled, because the backend always sends a list.
- The Java backend under `backend/src/main/java` is a separate implementation and is not
  part of this model.
