/** The service layer (`backend/src/service/pdf.rs`): it sequences repository calls and
    filesystem operations and propagates their errors. The repository and the filesystem
    answer as inputs; every call is recorded as an `Effect`, so "the page query is not
    run" or "the row is deleted before the file" are statements about the recorded calls. */
module Service {
  import opened Base
  import opened Model
  import opened Queries

  /** The external calls the service makes. */
  datatype Effect =
    | CountPdfs
    | FetchPage
    | FetchMetadata(id: Uuid)
    | FetchTags(id: Uuid)
    | FetchFileName(id: Uuid)
    | ReadFile(path: string)
    | DeleteRow(id: Uuid)
    | InsertRow(fileName: string)
    | RemoveFile(path: string)

  /** Stored files by path, with their contents. */
  type FileSystem = map<string, seq<byte>>

  /** Where a stored document's file lives, relative to the working directory. */
  function UploadPath(fileName: string): (path: string)
    ensures |path| == |fileName| + 9
    ensures path[..9] == "./upload/" && path[9..] == fileName
  {
    "./upload/" + fileName
  }

  /** Different file names are stored at different paths. */
  lemma UploadPathInjective(a: string, b: string)
    requires UploadPath(a) == UploadPath(b)
    ensures a == b
  {
    assert a == UploadPath(a)[9..];
  }

  // ---------------------------------------------------------------------------
  // get_all
  // ---------------------------------------------------------------------------

  /** `get_all`: the total is fetched first and its failure is returned before the page is
      fetched; otherwise the page is fetched and paired with the total. */
  function GetAll(count: Result<Option<int>, string>, page: Result<seq<PdfOverview>, string>)
    : (t: Traced<Result<PdfOverviewDto, string>, Effect>)
    ensures count.Failure? ==> t == Traced(Failure(count.error), [CountPdfs])
    ensures count.Success? ==> t.calls == [CountPdfs, FetchPage]
    ensures t.result.Success? <==> count.Success? && page.Success?
    ensures count.Success? && page.Failure? ==> t.result == Failure(page.error)
    ensures t.result.Success? ==>
      t.result.value.pdfsPreviews == page.value && t.result.value.count == count.value
  {
    if count.Failure? then Traced(Failure(count.error), [CountPdfs])
    else if page.Failure? then Traced(Failure(page.error), [CountPdfs, FetchPage])
    else Traced(Success(PdfOverviewDto(page.value, count.value)), [CountPdfs, FetchPage])
  }

  /** Over the repository's queries without faults, `get_all` for page `p` of size `size`
      answers page `p` of the whole table in `(time_added, id)` order together with the
      number of rows. */
  lemma GetAllOverRepository(db: Database, size: i32, p: i32)
    requires size >= 0 && p >= 1
    ensures
      var t := GetAll(TotalNumberOfPdfs(db, false), GetPdfsPaged(db, PagingDto(Some(size), Some(p)), false));
      t.result == Success(PdfOverviewDto(Overviews(Page(SortByKey(db.pdfs), size, p)), Some(|db.pdfs|)))
  {
    PageOffsetOfPage(size, p);
  }

  // ---------------------------------------------------------------------------
  // get_pdf_metadata
  // ---------------------------------------------------------------------------

  /** The metadata answer for one row and its tag names: every column of the row,
      `time_added` as `uploaded`, and the tags. */
  function MetadataOf(p: Pdf, tags: seq<string>): (m: PdfMetadataDto)
    ensures m.id == p.id && m.title == p.title && m.fileName == p.fileName
    ensures m.author == p.author && m.pages == p.pages && m.comments == p.comments
    ensures m.uploaded == p.timeAdded && m.lastAccessed == p.lastAccessed
    ensures m.picture == p.picture && m.tags == Some(tags)
  {
    PdfMetadataDto(p.id, p.title, p.fileName, p.author, p.pages, p.comments,
                   p.timeAdded, p.lastAccessed, p.picture, Some(tags))
  }

  /** `get_pdf_metadata`: a failed row lookup is returned as is and the tags are not
      fetched; a failed tag lookup is returned as is; otherwise row and tags are combined. */
  function GetPdfMetadata(id: Uuid, row: Result<Pdf, PdfMetadataByIdError>,
                          tags: Result<seq<string>, PdfMetadataByIdError>)
    : (t: Traced<Result<PdfMetadataDto, PdfMetadataByIdError>, Effect>)
    ensures row.Failure? ==> t == Traced(Failure(row.error), [FetchMetadata(id)])
    ensures row.Success? ==> t.calls == [FetchMetadata(id), FetchTags(id)]
    ensures row.Success? && tags.Failure? ==> t.result == Failure(tags.error)
    ensures t.result.Success? <==> row.Success? && tags.Success?
    ensures t.result.Success? ==> t.result.value == MetadataOf(row.value, tags.value)
  {
    if row.Failure? then Traced(Failure(row.error), [FetchMetadata(id)])
    else if tags.Failure? then Traced(Failure(tags.error), [FetchMetadata(id), FetchTags(id)])
    else Traced(Success(MetadataOf(row.value, tags.value)), [FetchMetadata(id), FetchTags(id)])
  }

  /** Over the repository without faults, the metadata of an existing document carries
      its row and its tag names in relation-row order; an unknown id is "not found". */
  lemma GetPdfMetadataOverRepository(db: Database, id: Uuid)
    requires forall rel | rel in db.tagsToPdfs && rel.id == id :: rel.name.Some?
    ensures
      var t := GetPdfMetadata(id, GetPdfMetadataById(db, id, None),
                              Success(AssociatedTags(db, id)));
      && (FindById(db.pdfs, id).None? ==> t.result == Failure(NotFound(NOT_FOUND_ERROR)))
      && (FindById(db.pdfs, id).Some? ==>
            t.result == Success(MetadataOf(FindById(db.pdfs, id).value, AssociatedTags(db, id))))
  {
    var r := GetPdfMetadataById(db, id, None);
    if FindById(db.pdfs, id).Some? {
      var p := FindById(db.pdfs, id).value;
      assert r.Success?;
      assert r.value.id == id;
    }
  }

  // ---------------------------------------------------------------------------
  // get_by_id
  // ---------------------------------------------------------------------------

  /** `get_by_id`: a failed file-name lookup is returned as is and no file is read;
      otherwise the file at `./upload/<name>` is read and returned as Base64. The source
      unwraps the read, so the file must exist. */
  function GetById(id: Uuid, fileName: Result<string, string>, fs: FileSystem)
    : (t: Traced<Result<PdfDto, string>, Effect>)
    requires fileName.Success? ==> UploadPath(fileName.value) in fs
    ensures fileName.Failure? ==> t == Traced(Failure(fileName.error), [FetchFileName(id)])
    ensures fileName.Success? ==>
      t.calls == [FetchFileName(id), ReadFile(UploadPath(fileName.value))]
      && t.result == Success(PdfDto(Base64Of(fs[UploadPath(fileName.value)])))
  {
    match fileName
    case Failure(e) => Traced(Failure(e), [FetchFileName(id)])
    case Success(name) =>
      var path := UploadPath(name);
      Traced(Success(PdfDto(Base64Of(fs[path]))), [FetchFileName(id), ReadFile(path)])
  }

  /** Over the repository without faults, a document's download is the content of the file
      stored under its file name; an unknown id reads no file. */
  lemma GetByIdOverRepository(db: Database, id: Uuid, fs: FileSystem)
    requires forall p | p in db.pdfs :: UploadPath(p.fileName) in fs
    ensures FindById(db.pdfs, id).None? ==>
      GetById(id, GetFileNameById(db, id, false), fs).calls == [FetchFileName(id)]
    ensures FindById(db.pdfs, id).Some? && DistinctIds(db.pdfs) ==>
      GetById(id, GetFileNameById(db, id, false), fs).result ==
        Success(PdfDto(Base64Of(fs[UploadPath(FindById(db.pdfs, id).value.fileName)])))
  {
    var r := GetFileNameById(db, id, false);
    if FindById(db.pdfs, id).Some? && DistinctIds(db.pdfs) {
      var p := FindById(db.pdfs, id).value;
      var q :| q in db.pdfs && q.id == id && q.fileName == r.value;
      SameIdSameRow(db.pdfs, p, q);
    }
  }

  // ---------------------------------------------------------------------------
  // upload
  // ---------------------------------------------------------------------------

  /** What the repository answered for one row insert. */
  datatype InsertOutcome = Inserted(row: Pdf) | Rejected(error: SqlError)

  /** The staged file has to go: any failure except a unique violation. */
  predicate NeedsRemoval(o: InsertOutcome)
    ensures o.Inserted? ==> !NeedsRemoval(o)
    ensures o.Rejected? && !IsDatabaseError(o.error) ==> NeedsRemoval(o)
    ensures o.Rejected? && IsDatabaseError(o.error) && o.error.code.Some? ==>
      (NeedsRemoval(o) <==> o.error.code.value != UNIQUE_VIOLATION)
  {
    o.Rejected? && (!IsDatabaseError(o.error) || o.error.code != Some(UNIQUE_VIOLATION))
  }

  /** The source unwraps the SQLSTATE of a database error. */
  predicate HasCode(o: InsertOutcome) {
    o.Rejected? && IsDatabaseError(o.error) ==> o.error.code.Some?
  }

  /** The staged paths of the items whose file is removed. */
  function RemovedPaths(batch: seq<PdfUploaded>, outcomes: seq<InsertOutcome>): (r: set<string>)
    requires |batch| == |outcomes|
    ensures forall path :: path in r <==>
      exists i | 0 <= i < |batch| :: batch[i].path == path && NeedsRemoval(outcomes[i])
  {
    set i | 0 <= i < |batch| && NeedsRemoval(outcomes[i]) :: batch[i].path
  }

  /** The rows the batch added, in batch order. */
  function InsertedRows(outcomes: seq<InsertOutcome>): (r: seq<Pdf>)
    ensures |r| <= |outcomes|
    ensures forall p :: p in r <==> Inserted(p) in outcomes
  {
    if outcomes == [] then []
    else
      var rest := InsertedRows(outcomes[..|outcomes| - 1]);
      var last := outcomes[|outcomes| - 1];
      assert outcomes == outcomes[..|outcomes| - 1] + [last];
      rest + (if last.Inserted? then [last.row] else [])
  }

  /** The calls made for one item: the insert, then the removal if it is needed. */
  function ItemEffects(item: PdfUploaded, o: InsertOutcome): seq<Effect> {
    [InsertRow(item.filename)] + (if NeedsRemoval(o) then [RemoveFile(item.path)] else [])
  }

  /** The calls made for a batch, item after item. */
  function UploadEffects(batch: seq<PdfUploaded>, outcomes: seq<InsertOutcome>): seq<Effect>
    requires |batch| == |outcomes|
  {
    if batch == [] then []
    else
      var n := |batch| - 1;
      UploadEffects(batch[..n], outcomes[..n]) + ItemEffects(batch[n], outcomes[n])
  }

  /** The file names of the inserts among some calls, in call order. */
  function InsertedNames(effects: seq<Effect>): seq<string> {
    if effects == [] then []
    else
      var n := |effects| - 1;
      InsertedNames(effects[..n]) + (if effects[n].InsertRow? then [effects[n].fileName] else [])
  }

  function FileNames(batch: seq<PdfUploaded>): (r: seq<string>)
    ensures |r| == |batch| && forall i | 0 <= i < |batch| :: r[i] == batch[i].filename
  {
    seq(|batch|, i requires 0 <= i < |batch| => batch[i].filename)
  }

  lemma {:induction false} InsertedNamesAppend(a: seq<Effect>, b: seq<Effect>)
    ensures InsertedNames(a + b) == InsertedNames(a) + InsertedNames(b)
    decreases |b|
  {
    if b == [] {
      assert a + b == a;
    } else {
      var n := |b| - 1;
      assert (a + b)[..|a + b| - 1] == a + b[..n];
      InsertedNamesAppend(a, b[..n]);
    }
  }

  /** Every item is inserted, in batch order, whatever the earlier items' outcomes: a
      failed insert never stops the loop. */
  lemma {:induction false} UploadInsertsEveryItemInOrder(batch: seq<PdfUploaded>, outcomes: seq<InsertOutcome>)
    requires |batch| == |outcomes|
    ensures InsertedNames(UploadEffects(batch, outcomes)) == FileNames(batch)
  {
    if batch != [] {
      var n := |batch| - 1;
      UploadInsertsEveryItemInOrder(batch[..n], outcomes[..n]);
      var prior := UploadEffects(batch[..n], outcomes[..n]);
      var item := ItemEffects(batch[n], outcomes[n]);
      assert UploadEffects(batch, outcomes) == prior + item;
      InsertedNamesAppend(prior, item);
      ItemInsertsItsName(batch[n], outcomes[n]);
      FileNamesStep(batch);
    }
  }

  lemma FileNamesStep(batch: seq<PdfUploaded>)
    requires batch != []
    ensures FileNames(batch) == FileNames(batch[..|batch| - 1]) + [batch[|batch| - 1].filename]
  {
    var n := |batch| - 1;
    var r := FileNames(batch[..n]) + [batch[n].filename];
    assert forall i | 0 <= i < |batch| :: r[i] == batch[i].filename;
  }

  /** One item's calls insert exactly that item's file name. */
  lemma ItemInsertsItsName(x: PdfUploaded, outcome: InsertOutcome)
    ensures InsertedNames(ItemEffects(x, outcome)) == [x.filename]
  {
    var item := ItemEffects(x, outcome);
    var ins := [InsertRow(x.filename)];
    assert InsertedNames(ins) == [x.filename] by { assert ins[..0] == []; }
    if NeedsRemoval(outcome) {
      assert item[..|item| - 1] == ins;
    } else {
      assert item == ins;
    }
  }

  /** What happens to one staged file when the staged paths are distinct: kept after a
      successful insert or a unique violation, removed after any other database error and
      after any failure that is not a database error. */
  lemma UploadFateOfItem(batch: seq<PdfUploaded>, outcomes: seq<InsertOutcome>, i: nat)
    requires |batch| == |outcomes| && i < |batch|
    requires forall j, k | 0 <= j < k < |batch| :: batch[j].path != batch[k].path
    ensures outcomes[i].Inserted? ==> batch[i].path !in RemovedPaths(batch, outcomes)
    ensures outcomes[i] == Rejected(DbError(Some(UNIQUE_VIOLATION))) ==>
      batch[i].path !in RemovedPaths(batch, outcomes)
    ensures outcomes[i].Rejected? && outcomes[i].error.DbError? &&
            outcomes[i].error.code != Some(UNIQUE_VIOLATION) ==>
      batch[i].path in RemovedPaths(batch, outcomes)
    ensures outcomes[i].Rejected? && !IsDatabaseError(outcomes[i].error) ==>
      batch[i].path in RemovedPaths(batch, outcomes)
  {
    if batch[i].path in RemovedPaths(batch, outcomes) {
      var j :| 0 <= j < |batch| && batch[j].path == batch[i].path && NeedsRemoval(outcomes[j]);
      assert j == i;
    }
  }

  /** The metadata table and the stored files, which `upload` and `delete` keep in step. */
  class DualStore {
    var table: seq<Pdf>
    var files: FileSystem
    ghost var effects: seq<Effect>

    constructor(table: seq<Pdf>, files: FileSystem)
      ensures this.table == table && this.files == files && effects == []
    {
      this.table := table;
      this.files := files;
      effects := [];
    }

    /** `upload`: inserts every item in turn and removes the staged file of each item whose
        insert failed other than by a unique violation. The source unwraps the SQLSTATE
        and every removal, so each database error has a code and each file to remove is
        there, once. The answer is always `Ok(())`. */
    method Upload(batch: seq<PdfUploaded>, outcomes: seq<InsertOutcome>) returns (r: Result<(), string>)
      requires |batch| == |outcomes|
      requires forall i | 0 <= i < |outcomes| :: HasCode(outcomes[i])
      requires forall i | 0 <= i < |batch| && NeedsRemoval(outcomes[i]) :: batch[i].path in files
      requires forall i, j | 0 <= i < j < |batch| && NeedsRemoval(outcomes[i]) && NeedsRemoval(outcomes[j]) ::
        batch[i].path != batch[j].path
      modifies this
      ensures r == Success(())
      ensures table == old(table) + InsertedRows(outcomes)
      ensures files == old(files) - RemovedPaths(batch, outcomes)
      ensures effects == old(effects) + UploadEffects(batch, outcomes)
    {
      var i := 0;
      while i < |batch|
        invariant 0 <= i <= |batch|
        invariant table == old(table) + InsertedRows(outcomes[..i])
        invariant files == old(files) - RemovedPaths(batch[..i], outcomes[..i])
        invariant effects == old(effects) + UploadEffects(batch[..i], outcomes[..i])
      {
        var item := batch[i];
        ghost var removed := RemovedPaths(batch[..i], outcomes[..i]);
        PrefixStep(batch, outcomes, i);
        MapRemoveStep(old(files), removed, item.path);
        UploadItem(item, outcomes[i]);
        AppendAssoc(old(table), InsertedRows(outcomes[..i]), if outcomes[i].Inserted? then [outcomes[i].row] else []);
        AppendAssoc(old(effects), UploadEffects(batch[..i], outcomes[..i]), ItemEffects(item, outcomes[i]));
        i := i + 1;
      }
      assert batch[..|batch|] == batch && outcomes[..|outcomes|] == outcomes;
      return Success(());
    }

    /** `delete`: the row goes first; when that fails its error is returned and no file is
        touched. Otherwise the file `./upload/<name>` is removed, a missing file is ignored,
        and the answer is `Ok(())`. The repository's delete is taken to remove every row
        with the id when it succeeds and none when it fails. */
    method Delete(id: Uuid, deleted: Result<string, string>) returns (r: Result<(), string>)
      modifies this
      ensures deleted.Failure? ==>
        && r == Failure(deleted.error)
        && table == old(table) && files == old(files)
        && effects == old(effects) + [DeleteRow(id)]
      ensures deleted.Success? ==>
        && r == Success(())
        && table == WithoutId(old(table), id)
        && files == old(files) - {UploadPath(deleted.value)}
        && effects == old(effects) + [DeleteRow(id), RemoveFile(UploadPath(deleted.value))]
    {
      effects := effects + [DeleteRow(id)];
      match deleted {
        case Failure(msg) =>
          return Failure(msg);
        case Success(name) =>
          table := WithoutId(table, id);
          var path := UploadPath(name);
          effects := effects + [RemoveFile(path)];
          files := files - {path};
          return Success(());
      }
    }

    /** One turn of the loop: insert the row, then remove the staged file unless the
        insert succeeded or hit a unique violation. */
    method UploadItem(item: PdfUploaded, outcome: InsertOutcome)
      requires HasCode(outcome)
      requires NeedsRemoval(outcome) ==> item.path in files
      modifies this
      ensures table == old(table) + (if outcome.Inserted? then [outcome.row] else [])
      ensures files == if NeedsRemoval(outcome) then old(files) - {item.path} else old(files)
      ensures effects == old(effects) + ItemEffects(item, outcome)
    {
      effects := effects + [InsertRow(item.filename)];
      match outcome {
        case Inserted(row) =>
          table := table + [row];
        case Rejected(err) =>
          if IsDatabaseError(err) {
            var code := err.code.value;
            if code != UNIQUE_VIOLATION {
              RemoveStaged(item.path);
            }
          } else {
            RemoveStaged(item.path);
          }
      }
    }

    /** The compensating `remove_file` of a staged path that is still there. */
    method RemoveStaged(path: string)
      requires path in files
      modifies this
      ensures files == old(files) - {path}
      ensures effects == old(effects) + [RemoveFile(path)]
      ensures table == old(table)
    {
      files := files - {path};
      effects := effects + [RemoveFile(path)];
    }
  }

  // ---------------------------------------------------------------------------
  // delete
  // ---------------------------------------------------------------------------

  /** The table without the rows whose id is `id`, the others in their order. */
  function WithoutId(s: seq<Pdf>, id: Uuid): (r: seq<Pdf>)
    ensures |r| <= |s|
    ensures forall p :: p in r <==> p in s && p.id != id
  {
    if s == [] then []
    else (if s[0].id == id then [] else [s[0]]) + WithoutId(s[1..], id)
  }

  /** Every row's file is stored. */
  predicate FilesPresent(table: seq<Pdf>, fs: FileSystem) {
    forall p | p in table :: UploadPath(p.fileName) in fs
  }

  /** No two rows share a file name. */
  predicate DistinctFileNames(table: seq<Pdf>) {
    forall i, j | 0 <= i < j < |table| :: table[i].fileName != table[j].fileName
  }

  /** Deleting a document whose row names its file keeps every other document's file:
      the table and the files stay in step. */
  lemma DeleteKeepsOtherFiles(table: seq<Pdf>, fs: FileSystem, id: Uuid, name: string)
    requires FilesPresent(table, fs) && DistinctFileNames(table)
    requires exists p | p in table :: p.id == id && p.fileName == name
    ensures FilesPresent(WithoutId(table, id), fs - {UploadPath(name)})
  {
    var d :| d in table && d.id == id && d.fileName == name;
    forall p | p in WithoutId(table, id) ensures UploadPath(p.fileName) in fs - {UploadPath(name)} {
      if UploadPath(p.fileName) == UploadPath(name) {
        UploadPathInjective(p.fileName, name);
      }
    }
  }

  lemma AppendAssoc<T>(a: seq<T>, b: seq<T>, c: seq<T>)
    ensures a + b + c == a + (b + c)
  {
  }

  /** Removing a path that was not yet removed finds it, and extends the removed set. */
  lemma MapRemoveStep(m: FileSystem, removed: set<string>, path: string)
    ensures path in m && path !in removed ==> path in m - removed
    ensures (m - removed) - {path} == m - (removed + {path})
    ensures m - removed == m - (removed + {})
  {
  }

  /** How the batch summaries grow by one item. */
  lemma PrefixStep(batch: seq<PdfUploaded>, outcomes: seq<InsertOutcome>, i: nat)
    requires |batch| == |outcomes| && i < |batch|
    requires forall j, k | 0 <= j < k < |batch| && NeedsRemoval(outcomes[j]) && NeedsRemoval(outcomes[k]) ::
      batch[j].path != batch[k].path
    ensures InsertedRows(outcomes[..i + 1]) ==
      InsertedRows(outcomes[..i]) + (if outcomes[i].Inserted? then [outcomes[i].row] else [])
    ensures RemovedPaths(batch[..i + 1], outcomes[..i + 1]) ==
      RemovedPaths(batch[..i], outcomes[..i]) + (if NeedsRemoval(outcomes[i]) then {batch[i].path} else {})
    ensures NeedsRemoval(outcomes[i]) ==> batch[i].path !in RemovedPaths(batch[..i], outcomes[..i])
    ensures UploadEffects(batch[..i + 1], outcomes[..i + 1]) ==
      UploadEffects(batch[..i], outcomes[..i]) + ItemEffects(batch[i], outcomes[i])
  {
    assert batch[..i + 1][..i] == batch[..i] && outcomes[..i + 1][..i] == outcomes[..i];
  }
}
