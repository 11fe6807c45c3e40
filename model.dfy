/** The records the backend passes between its layers: the `pdfs` and `tags_to_pdfs`
    rows, the request and response DTOs, and the error kinds. */
module Model {
  import opened Base

  /** `time_added` is an abstract totally ordered key. */
  type Time = int

  /** A row of the `pdfs` table. `id` is the table's primary key, so it is never NULL here. */
  datatype Pdf = Pdf(
    id: Uuid,
    title: Option<string>,
    fileName: string,
    author: Option<string>,
    pages: Option<i32>,
    comments: Option<string>,
    timeAdded: Time,
    lastAccessed: Option<Time>,
    picture: Option<string>)

  /** The listing projection `(id, title, picture)`. */
  datatype PdfOverview = PdfOverview(id: Uuid, title: Option<string>, picture: Option<string>)

  /** A row of `tags_to_pdfs`: a document id and a tag name. */
  datatype TagRelation = TagRelation(id: Uuid, name: Option<string>)

  datatype PagingDto = PagingDto(size: Option<i32>, page: Option<i32>)

  datatype PdfSearchDto = PdfSearchDto(
    title: Option<string>,
    author: Option<string>,
    tag: Option<string>,
    size: Option<i32>,
    page: Option<i32>)

  /** `count` is an `i64` in the source; no table reaches that bound, so it is left unbounded. */
  datatype PdfOverviewDto = PdfOverviewDto(pdfsPreviews: seq<PdfOverview>, count: Option<int>)

  datatype PdfMetadataDto = PdfMetadataDto(
    id: Uuid,
    title: Option<string>,
    fileName: string,
    author: Option<string>,
    pages: Option<i32>,
    comments: Option<string>,
    uploaded: Time,
    lastAccessed: Option<Time>,
    picture: Option<string>,
    tags: Option<seq<string>>)

  /** The fields an update request carries. */
  datatype PdfUpdateDto = PdfUpdateDto(
    id: Option<string>,
    title: Option<string>,
    author: Option<string>,
    comments: Option<string>,
    tags: Option<seq<string>>,
    picture: Option<string>)

  /** Base64 text (section 4 of RFC 4648) of some bytes, kept symbolic. */
  datatype Base64Text = Base64Of(bytes: seq<byte>)

  datatype PdfDto = PdfDto(pdf: Base64Text)

  datatype PdfMetadataByIdError = NotFound(msg: string) | DatabaseError(msg: string)

  /** A staged upload: the preview data extracted from the file and the path it was staged at. */
  datatype PdfUploaded = PdfUploaded(
    title: string,
    filename: string,
    author: Option<string>,
    pages: Option<i32>,
    img: string,
    path: string)

  /** The PostgreSQL SQLSTATE `unique_violation` (Appendix A of the PostgreSQL documentation). */
  const UNIQUE_VIOLATION: string := "23505"

  /** What the SQL driver reports when a statement fails: a database error with an optional
      SQLSTATE, "no row returned" for a `fetch_one`, or any other failure (I/O, pool timeout,
      protocol, decoding). */
  datatype SqlError = DbError(code: Option<string>) | RowNotFound | OtherError

  /** `err.as_database_error().is_some()`. */
  predicate IsDatabaseError(e: SqlError) {
    e.DbError?
  }
}
