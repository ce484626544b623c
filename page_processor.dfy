/**
 * The two per-page helpers of app.py, reduced to their decision logic.
 *
 * PyMuPDF/PIL rasterisation and the Ollama chat call are foreign code: their
 * outcomes are inputs here, and each helper is modelled by how it turns those
 * outcomes (a value or a raised exception) into a value or `None`.
 */
module PageProcessor {
  import opened Wrappers

  type Bytes = seq<bv8>

  /**
   * Python truthiness of the render helper's result: `None` and empty bytes
   * are both false.
   */
  predicate IsTruthyImage(b: Option<Bytes>)
  {
    b.Some? && |b.value| > 0
  }

  /** Python truthiness of the extraction helper's result. */
  predicate IsTruthyText(t: Option<string>)
  {
    t.Some? && t.value != ""
  }

  /**
   * render_pdf_page_as_image_bytes: `opening` is the page count PyMuPDF reports
   * when it opens the bytes (`None` when opening raises), `raster` is the PNG
   * bytes produced by rasterising and encoding the page (`None` when that
   * raises). Out-of-range page numbers and every exception yield `None`.
   */
  function RenderPage(opening: Option<nat>, pageNum: int, raster: Option<Bytes>): (r: Option<Bytes>)
    ensures opening.None? ==> r.None?
    ensures opening.Some? && pageNum >= opening.value ==> r.None?
    ensures opening.Some? && pageNum < opening.value ==> r == raster
    ensures r.Some? ==> opening.Some? && pageNum < opening.value && raster.Some?
  {
    match opening
    case None => None
    case Some(pageCount) =>
      if pageNum >= pageCount then None
      else raster
  }

  /** What `ollama.chat` does with one request. */
  datatype ChatReply =
    | Answered(content: string)      // response["message"]["content"]
    | ResponseError(error: string)   // ollama.ResponseError
    | OtherError(message: string)    // any other exception (transport, missing key, ...)

  /**
   * extract_text_from_image_bytes: the model's content is returned unmodified
   * (possibly empty); both kinds of error collapse to `None`.
   */
  function ExtractText(reply: ChatReply): (r: Option<string>)
    ensures r.Some? <==> reply.Answered?
    ensures r.Some? ==> r.value == reply.content
  {
    match reply
    case Answered(content) => Some(content)
    case ResponseError(_) => None
    case OtherError(_) => None
  }

  /**
   * Inside the page loop the document has already been opened once with
   * `pageCount` pages and every page number is below it, so the helper's range
   * check never fires and the rasteriser's outcome passes through unchanged.
   */
  lemma RenderInRangePassesThrough(pageCount: nat, i: nat, raster: Option<Bytes>)
    requires i < pageCount
    ensures RenderPage(Some(pageCount), i, raster) == raster
    ensures IsTruthyImage(RenderPage(Some(pageCount), i, raster)) <==> IsTruthyImage(raster)
  {
  }
}
