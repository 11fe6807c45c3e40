/** The preview of an uploaded file (`backend/src/util/mod.rs`): the title, author and page
    count taken from the document's metadata, and a thumbnail of its first page. The PDF
    library is an input: a document that offers an optional title, an optional author, a
    page count and its first page or an error; rendering the thumbnail is the function
    `thumbnail`, and the trace records whether it was reached. */
module Preview {
  import opened Base
  import opened Text

  datatype PdfiumError = PdfiumError(reason: string)

  /** A loaded document as the library presents it; the page count is the library's
      16-bit page index type. */
  datatype Document<Page> = Document(
    title: Option<string>,
    author: Option<string>,
    pageCount: u16,
    firstPage: Result<Page, PdfiumError>)

  /** The library work the preview needs: loading the file, then rendering page one. */
  datatype Step = LoadDocument | RenderFirstPage

  /** `(thumbnail, title, author, pages)`, in the order the upload path consumes them. */
  type PreviewTuple = (string, string, Option<string>, Option<i32>)

  /** The document title: the metadata title without surrounding whitespace, or the file
      name when the metadata has none or only whitespace. */
  function ChooseTitle(meta: Option<string>, fileName: string): (t: string)
    ensures meta.None? ==> t == fileName
    ensures meta.Some? && AllWhitespace(meta.value, IsRustWhitespace) ==> t == fileName
    ensures meta.Some? && !AllWhitespace(meta.value, IsRustWhitespace) ==>
      && t != []
      && !IsRustWhitespace(t[0]) && !IsRustWhitespace(t[|t| - 1])
      && exists i :: SliceAt(meta.value, t, i)
  {
    match meta
    case Some(title) =>
      if Trim(title, IsRustWhitespace) == [] then fileName
      else Trim(title, IsRustWhitespace)
    case None => fileName
  }

  /** The title is read back from any whitespace padding of a non-blank metadata title. */
  lemma PaddedTitleIsRecovered(pre: string, title: string, post: string, fileName: string)
    requires AllWhitespace(pre, IsRustWhitespace) && AllWhitespace(post, IsRustWhitespace)
    requires title != [] && !IsRustWhitespace(title[0]) && !IsRustWhitespace(title[|title| - 1])
    ensures ChooseTitle(Some(pre + title + post), fileName) == title
  {
    TrimPadded(pre, title, post, IsRustWhitespace);
  }

  /** A metadata title made only of whitespace (the empty one included) gives the file
      name, whatever its length. */
  lemma BlankTitleFallsBack(blank: string, fileName: string)
    requires AllWhitespace(blank, IsRustWhitespace)
    ensures ChooseTitle(Some(blank), fileName) == fileName
    ensures ChooseTitle(Some(blank), fileName) == ChooseTitle(None, fileName)
  {
  }

  /** Choosing again from the chosen title changes nothing when the file name carries no
      surrounding whitespace. */
  lemma ChooseTitleIdempotent(meta: Option<string>, fileName: string)
    requires Trim(fileName, IsRustWhitespace) == fileName
    ensures ChooseTitle(Some(ChooseTitle(meta, fileName)), fileName) == ChooseTitle(meta, fileName)
  {
    var t := ChooseTitle(meta, fileName);
    assert Trim(t, IsRustWhitespace) == t by {
      if meta.Some? && Trim(meta.value, IsRustWhitespace) != [] {
        TrimIdempotent(meta.value, IsRustWhitespace);
      }
    }
    assert t == [] ==> t == fileName;
  }

  /** `get_preview_of_pdf`: a failure to load the document, or to get its first page, is
      returned as it is, and then no thumbnail is rendered; otherwise the result holds the
      thumbnail of page one, the chosen title, the author as stored (untrimmed), and the
      page count. */
  function GetPreviewOfPdf<Page>(load: Result<Document<Page>, PdfiumError>, fileName: string,
                                 thumbnail: Page -> string)
    : (r: Traced<Result<PreviewTuple, PdfiumError>, Step>)
    ensures load.Failure? ==> r == Traced(Failure(load.error), [LoadDocument])
    ensures load.Success? && load.value.firstPage.Failure? ==>
      r == Traced(Failure(load.value.firstPage.error), [LoadDocument])
    ensures r.result.Success? <==> load.Success? && load.value.firstPage.Success?
    ensures RenderFirstPage in r.calls <==> r.result.Success?
    ensures r.result.Success? ==>
      var d := load.value;
      && r.calls == [LoadDocument, RenderFirstPage]
      && r.result.value.0 == thumbnail(d.firstPage.value)
      && r.result.value.1 == ChooseTitle(d.title, fileName)
      && r.result.value.2 == d.author
      && r.result.value.3 == Some(d.pageCount)
  {
    match load
    case Failure(e) => Traced(Failure(e), [LoadDocument])
    case Success(document) =>
      var pages: Option<i32> := Some(document.pageCount);
      var title := ChooseTitle(document.title, fileName);
      var author := document.author;
      match document.firstPage
      case Failure(e) => Traced(Failure(e), [LoadDocument])
      case Success(page) =>
        Traced(Success((thumbnail(page), title, author, pages)), [LoadDocument, RenderFirstPage])
  }

  /** A successful preview's title is never blank unless the file name is, and its page
      count is present and not negative. */
  lemma PreviewFacts<Page>(load: Result<Document<Page>, PdfiumError>, fileName: string,
                           thumbnail: Page -> string)
    requires GetPreviewOfPdf(load, fileName, thumbnail).result.Success?
    ensures var p := GetPreviewOfPdf(load, fileName, thumbnail).result.value;
      && (p.1 == fileName || !AllWhitespace(p.1, IsRustWhitespace))
      && p.3.Some? && 0 <= p.3.value < 0x1_0000
  {
    var p := GetPreviewOfPdf(load, fileName, thumbnail).result.value;
    if p.1 != fileName {
      assert !IsRustWhitespace(p.1[0]);
    }
  }
}
