/** The result shaping of the `POST /html-page` handler. The upload
    middleware, the JSON selector file and the HTML parser are outside the
    model: an upload is given either as "no files" or as the two texts the
    title and first-paragraph selectors pick out of the HTML file. */
module HtmlPage {
  import Normalizer

  /** What the handler sees in `req.files`: absent (the request is not a
      multipart upload), or an upload with both files whose selectors
      produced these two texts. */
  datatype Upload = NoFiles | Files(titleText: string, paragraphText: string)

  datatype Option<T> = None | Some(value: T)

  /** The `data` object of a successful reply. */
  datatype PageData = PageData(title: string, firstParagraph: string)

  /** The JSON body sent back: `status`, `message` and, on success, `data`. */
  datatype Body = Body(status: int, message: string, data: Option<PageData>)

  /** An HTTP reply: the status passed to `res.status` and the body. */
  datatype Reply = Reply(httpStatus: int, body: Body)

  const NoFilesMessage := "no files available."
  const FilesMessage := "Files are available."

  /** The handler. Without files it answers 400 and builds no data; with
      files it answers 200 with the title text as selected and the paragraph
      text normalised. */
  function HandleHtmlPage(upload: Upload): (r: Reply)
    ensures r.httpStatus == r.body.status
    ensures r.httpStatus == 400 <==> upload.NoFiles?
    ensures r.httpStatus == 200 <==> upload.Files?
    ensures r.body.data.Some? <==> upload.Files?
    ensures upload.NoFiles? ==> r.body.message == NoFilesMessage
    ensures upload.Files? ==> r.body.message == FilesMessage
    ensures upload.Files? ==> r.body.data.value.title == upload.titleText
    ensures upload.Files? ==>
      r.body.data.value.firstParagraph == Normalizer.Normalize(upload.paragraphText)
  {
    match upload
    case NoFiles => Reply(400, Body(400, NoFilesMessage, None))
    case Files(titleText, paragraphText) =>
      var data := PageData(titleText, Normalizer.Normalize(paragraphText));
      Reply(200, Body(200, FilesMessage, Some(data)))
  }

  /** The first paragraph of a successful reply has no whitespace at either
      end, no line feed followed by whitespace, and is the selected text with
      some whitespace deleted and nothing else changed. */
  lemma FirstParagraphIsClean(upload: Upload)
    requires upload.Files?
    ensures var p := HandleHtmlPage(upload).body.data.value.firstParagraph;
      Normalizer.HasNoEdgeWs(p) && Normalizer.NoBreakWs(p) &&
      Normalizer.DeletesOnlyWs(p, upload.paragraphText)
  {
    Normalizer.NormalizeDeletesOnlyWs(upload.paragraphText);
  }

  /** Feeding a reply's first paragraph back in as the selected paragraph
      text gives the same reply. */
  lemma ReplyStableOnItsOwnParagraph(title: string, paragraph: string)
    ensures var r := HandleHtmlPage(Files(title, paragraph));
      HandleHtmlPage(Files(title, r.body.data.value.firstParagraph)) == r
  {
    Normalizer.NormalizeIdempotent(paragraph);
  }
}
