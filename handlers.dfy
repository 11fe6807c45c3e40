/** The HTTP handlers (`backend/src/api/controllers/pdf_handler.rs`): request validation
    before any service call, and the mapping of the service's answer to a status code and a
    JSON body. The service's answer and the outcome of `Uuid::parse_str` are inputs; `call`
    records the argument the service was called with, `None` when it was not called. */
module Handlers {
  import opened Base
  import opened Model
  import opened Queries
  import Service

  const OK: int := 200
  const CREATED: int := 201
  const BAD_REQUEST: int := 400
  const NOT_FOUND: int := 404
  const INTERNAL_SERVER_ERROR: int := 500

  const MISSING_PAGING: string := "Page number and page size must be provided"
  const MISSING_SEARCH_PAGING: string := "Paging information is required"
  const MISSING_SEARCH_FILTERS: string := "Search parameters are required"
  const INVALID_ID: string := "Invalid pdf ID given"

  /** A JSON body: the answer (`()`, serialised as `null`, for delete and upload) or an `ErrorDto` with its message. */
  datatype Body<+T> = Json(value: T) | ErrorBody(message: string)

  /** The response and the argument the service was called with, if it was called. */
  datatype Handled<+T, +A> = Handled(status: int, body: Body<T>, call: Option<A>)

  /** The common tail of every handler: 200 (or `success`) with the answer, 500 with the
      service's message. */
  function Answer<T, A>(arg: A, answer: Result<T, string>, success: int): (h: Handled<T, A>)
    ensures h.call == Some(arg)
    ensures answer.Success? ==> h.status == success && h.body == Json(answer.value)
    ensures answer.Failure? ==> h.status == INTERNAL_SERVER_ERROR && h.body == ErrorBody(answer.error)
  {
    match answer
    case Success(v) => Handled(success, Json(v), Some(arg))
    case Failure(msg) => Handled(INTERNAL_SERVER_ERROR, ErrorBody(msg), Some(arg))
  }

  /** `get_all`: both paging values must be present; their values are not checked. */
  function GetAll(paging: PagingDto, answer: Result<PdfOverviewDto, string>)
    : (h: Handled<PdfOverviewDto, PagingDto>)
    ensures h.call.Some? <==> paging.page.Some? && paging.size.Some?
    ensures h.call.None? ==> h == Handled(BAD_REQUEST, ErrorBody(MISSING_PAGING), None)
    ensures h.call.Some? ==> h.call.value == paging && h.status in {OK, INTERNAL_SERVER_ERROR}
    ensures h.status == OK <==> h.call.Some? && answer.Success?
    ensures h.status == OK ==> h.body == Json(answer.value)
    ensures h.status == INTERNAL_SERVER_ERROR ==> h.body == ErrorBody(answer.error)
  {
    if paging.page.None? || paging.size.None? then Handled(BAD_REQUEST, ErrorBody(MISSING_PAGING), None)
    else Answer(PagingDto(paging.size, paging.page), answer, OK)
  }

  /** `search`: the paging values are checked first, then that at least one filter is
      present. */
  function Search(dto: PdfSearchDto, answer: Result<PdfOverviewDto, string>)
    : (h: Handled<PdfOverviewDto, PdfSearchDto>)
    ensures dto.page.None? || dto.size.None? ==>
      h == Handled(BAD_REQUEST, ErrorBody(MISSING_SEARCH_PAGING), None)
    ensures dto.page.Some? && dto.size.Some? && dto.title.None? && dto.author.None? && dto.tag.None? ==>
      h == Handled(BAD_REQUEST, ErrorBody(MISSING_SEARCH_FILTERS), None)
    ensures h.call.Some? <==>
      dto.page.Some? && dto.size.Some? && (dto.title.Some? || dto.author.Some? || dto.tag.Some?)
    ensures h.call.Some? ==> h.call.value == dto
    ensures h.status == OK <==> h.call.Some? && answer.Success?
    ensures h.status == OK ==> h.body == Json(answer.value)
    ensures h.call.Some? && answer.Failure? ==>
      h.status == INTERNAL_SERVER_ERROR && h.body == ErrorBody(answer.error)
  {
    if dto.page.None? || dto.size.None? then
      Handled(BAD_REQUEST, ErrorBody(MISSING_SEARCH_PAGING), None)
    else if dto.title.None? && dto.author.None? && dto.tag.None? then
      Handled(BAD_REQUEST, ErrorBody(MISSING_SEARCH_FILTERS), None)
    else Answer(dto, answer, OK)
  }

  /** The status of a failed metadata lookup. */
  function MetadataErrorStatus(e: PdfMetadataByIdError): (status: int)
    ensures status == NOT_FOUND <==> e.NotFound?
    ensures status == INTERNAL_SERVER_ERROR <==> e.DatabaseError?
  {
    match e
    case NotFound(_) => NOT_FOUND
    case DatabaseError(_) => INTERNAL_SERVER_ERROR
  }

  /** `get_metadata_by_id`: an id that does not parse is refused before the service is
      called; "not found" is 404 and a database error 500, each with its message. */
  function GetMetadataById(parsed: Option<Uuid>, answer: Result<PdfMetadataDto, PdfMetadataByIdError>)
    : (h: Handled<PdfMetadataDto, Uuid>)
    ensures parsed.None? ==> h == Handled(BAD_REQUEST, ErrorBody(INVALID_ID), None)
    ensures parsed.Some? ==> h.call == parsed
    ensures parsed.Some? && answer.Success? ==> h.status == OK && h.body == Json(answer.value)
    ensures parsed.Some? && answer.Failure? ==>
      h.status == MetadataErrorStatus(answer.error) && h.body == ErrorBody(answer.error.msg)
  {
    match parsed
    case None => Handled(BAD_REQUEST, ErrorBody(INVALID_ID), None)
    case Some(id) =>
      match answer
      case Success(m) => Handled(OK, Json(m), Some(id))
      case Failure(e) => Handled(MetadataErrorStatus(e), ErrorBody(e.msg), Some(id))
  }

  /** `get_by_id`: the file as Base64, 400 for an id that does not parse, 500 otherwise. */
  function GetById(parsed: Option<Uuid>, answer: Result<PdfDto, string>): (h: Handled<PdfDto, Uuid>)
    ensures parsed.None? ==> h == Handled(BAD_REQUEST, ErrorBody(INVALID_ID), None)
    ensures parsed.Some? ==> h.call == parsed
    ensures parsed.Some? && answer.Success? ==> h.status == OK && h.body == Json(answer.value)
    ensures parsed.Some? && answer.Failure? ==>
      h.status == INTERNAL_SERVER_ERROR && h.body == ErrorBody(answer.error)
  {
    match parsed
    case None => Handled(BAD_REQUEST, ErrorBody(INVALID_ID), None)
    case Some(id) => Answer(id, answer, OK)
  }

  /** `update`: the updated metadata, 400 for an id that does not parse, 500 otherwise. */
  function Update(parsed: Option<Uuid>, update: PdfUpdateDto, answer: Result<PdfMetadataDto, string>)
    : (h: Handled<PdfMetadataDto, (PdfUpdateDto, Uuid)>)
    ensures parsed.None? ==> h == Handled(BAD_REQUEST, ErrorBody(INVALID_ID), None)
    ensures parsed.Some? ==> h.call == Some((update, parsed.value))
    ensures parsed.Some? && answer.Success? ==> h.status == OK && h.body == Json(answer.value)
    ensures parsed.Some? && answer.Failure? ==>
      h.status == INTERNAL_SERVER_ERROR && h.body == ErrorBody(answer.error)
  {
    match parsed
    case None => Handled(BAD_REQUEST, ErrorBody(INVALID_ID), None)
    case Some(id) => Answer((update, id), answer, OK)
  }

  /** `delete`: 200 with `()`, 400 for an id that does not parse, 500 otherwise. */
  function Delete(parsed: Option<Uuid>, answer: Result<(), string>): (h: Handled<(), Uuid>)
    ensures parsed.None? ==> h == Handled(BAD_REQUEST, ErrorBody(INVALID_ID), None)
    ensures parsed.Some? ==> h.call == parsed
    ensures parsed.Some? && answer.Success? ==> h.status == OK && h.body == Json(answer.value)
    ensures parsed.Some? && answer.Failure? ==>
      h.status == INTERNAL_SERVER_ERROR && h.body == ErrorBody(answer.error)
  {
    match parsed
    case None => Handled(BAD_REQUEST, ErrorBody(INVALID_ID), None)
    case Some(id) => Answer(id, answer, OK)
  }

  /** `upload`: a batch that could not be prepared is a 500 before the service is called;
      otherwise 201 with `()`, or 500. */
  function Upload(mapped: Result<seq<PdfUploaded>, string>, answer: Result<(), string>)
    : (h: Handled<(), seq<PdfUploaded>>)
    ensures mapped.Failure? ==> h == Handled(INTERNAL_SERVER_ERROR, ErrorBody(mapped.error), None)
    ensures mapped.Success? ==> h.call == Some(mapped.value)
    ensures mapped.Success? && answer.Success? ==> h.status == CREATED && h.body == Json(answer.value)
    ensures mapped.Success? && answer.Failure? ==>
      h.status == INTERNAL_SERVER_ERROR && h.body == ErrorBody(answer.error)
  {
    match mapped
    case Failure(msg) => Handled(INTERNAL_SERVER_ERROR, ErrorBody(msg), None)
    case Success(batch) => Answer(batch, answer, CREATED)
  }

  /** Every handler that takes an id answers 400 exactly when the id does not parse, and
      then calls nothing. */
  lemma InvalidIdIsRefusedFirst(parsed: Option<Uuid>, m: Result<PdfMetadataDto, PdfMetadataByIdError>,
                                f: Result<PdfDto, string>, u: PdfUpdateDto,
                                um: Result<PdfMetadataDto, string>, d: Result<(), string>)
    ensures GetMetadataById(parsed, m).status == BAD_REQUEST <==> parsed.None?
    ensures GetById(parsed, f).status == BAD_REQUEST <==> parsed.None?
    ensures Update(parsed, u, um).status == BAD_REQUEST <==> parsed.None?
    ensures Delete(parsed, d).status == BAD_REQUEST <==> parsed.None?
    ensures parsed.None? ==>
      GetMetadataById(parsed, m).call.None? && GetById(parsed, f).call.None? &&
      Update(parsed, u, um).call.None? && Delete(parsed, d).call.None?
  {
    if parsed.Some? {
      assert MetadataErrorStatus(NotFound("")) != BAD_REQUEST;
    }
  }

  /** A list request through the whole backend, without faults: the handler only checks
      that the paging values are present, so a negative size, or page 0 with a positive
      size, reaches PostgreSQL, which refuses the negative LIMIT or OFFSET, and the client
      gets 500. Page `p >= 1` with size `s >= 0` gets 200 with page `p` of the table in
      `(time_added, id)` order and the table's size. */
  lemma ListRequestEndToEnd(db: Database, size: i32, page: i32)
    ensures
      var paging := PagingDto(Some(size), Some(page));
      var answer := Service.GetAll(TotalNumberOfPdfs(db, false), GetPdfsPaged(db, paging, false)).result;
      var h := GetAll(paging, answer);
      && h.call == Some(paging)
      && (h.status == OK <==> size >= 0 && PageOffset(size, page) >= 0)
      && (h.status == INTERNAL_SERVER_ERROR <==> size < 0 || PageOffset(size, page) < 0)
      && (h.status == INTERNAL_SERVER_ERROR ==> h.body == ErrorBody(PAGED_ERROR))
      && (size >= 0 && page >= 1 ==>
            h.body == Json(PdfOverviewDto(Overviews(Page(SortByKey(db.pdfs), size, page)), Some(|db.pdfs|))))
  {
    if size >= 0 && page >= 1 {
      PageOffsetOfPage(size, page);
    }
  }

  /** Page 0 with a positive size is refused by the database, not by the handler. */
  lemma PageZeroReachesDatabase(size: i32)
    requires size > 0
    ensures PageOffset(size, 0) < 0
    ensures PageStatementFails(size, 0, false)
  {
    assert PageOffset(size, 0) == size * -1;
  }

  /** A metadata request through the whole backend, without faults: an id that parses but
      has no row is 404 with "No pdf with given ID exists"; an existing document is 200
      with its row and tag names. */
  lemma MetadataRequestEndToEnd(db: Database, id: Uuid)
    requires forall rel | rel in db.tagsToPdfs && rel.id == id :: rel.name.Some?
    ensures
      var answer := Service.GetPdfMetadata(id, GetPdfMetadataById(db, id, None),
                                           Success(AssociatedTags(db, id))).result;
      var h := GetMetadataById(Some(id), answer);
      && (FindById(db.pdfs, id).None? ==> h.status == NOT_FOUND && h.body == ErrorBody(NOT_FOUND_ERROR))
      && (FindById(db.pdfs, id).Some? ==>
            h.status == OK &&
            h.body == Json(Service.MetadataOf(FindById(db.pdfs, id).value, AssociatedTags(db, id))))
  {
    Service.GetPdfMetadataOverRepository(db, id);
  }
}
