/**
 * process_pdf (app.py lines 92-219): the per-file page pipeline.
 *
 * Each page's collaborators are inputs: what the rasteriser produced, what the
 * model replied, and how many whole seconds rendering plus extraction took.
 * `FileOutcome` defines declaratively what the pipeline returns and writes;
 * the method `ProcessPdf` runs the source's loop and is proved to produce it.
 */
module FilePipeline {
  import opened Wrappers
  import opened PageProcessor
  import opened Markdown

  /** MAX_PROCESSING_TIME_PER_PAGE_SECONDS */
  const MaxProcessingTimePerPageSeconds: int := 120

  /** The collaborators' behaviour for one page. */
  datatype PageOutcome = PageOutcome(raster: Option<Bytes>, reply: ChatReply, elapsed: int)

  /** What opening the uploaded bytes with PyMuPDF gives. */
  datatype Content =
    | Unreadable                      // getvalue or fitz.open raises: the catch-all handler
    | Pdf(pages: seq<PageOutcome>)    // the page count is |pages|

  /** One uploaded file; `stem` is what pathlib's Path(name).stem gives. */
  datatype UploadedFile = UploadedFile(name: string, stem: string, content: Content)

  /** Path(output_dir) / f"{stem}.md" */
  datatype MdPath = MdPath(dir: string, stem: string)

  /** The returned pair (bool, path or None), plus the text written to the path. */
  datatype FileResult = FileResult(success: bool, outputPath: Option<MdPath>, written: Option<string>)

  function Failed(): FileResult
  {
    FileResult(false, None, None)
  }

  // ---- Per-page behaviour ----

  /** `if image_bytes:` with the page already known to be in range. */
  predicate Rendered(p: PageOutcome)
  {
    IsTruthyImage(p.raster)
  }

  /** The text under a page's heading: the extracted text or a placeholder. */
  function PageBody(p: PageOutcome): string
  {
    if !Rendered(p) then RenderFailedText
    else if IsTruthyText(ExtractText(p.reply)) then ExtractText(p.reply).value
    else ExtractionFailedText
  }

  /** A page that sets partial_success: it failed to render or to yield text. */
  predicate PageFailed(p: PageOutcome)
  {
    !Rendered(p) || !IsTruthyText(ExtractText(p.reply))
  }

  /** The budget is checked only for rendered pages, and strictly. */
  predicate TimesOut(p: PageOutcome)
  {
    Rendered(p) && p.elapsed > MaxProcessingTimePerPageSeconds
  }

  // ---- The loop, declaratively ----

  /**
   * How many pages the loop attempts: every page up to and including the
   * first one that times out, or all of them.
   */
  function Attempted(pages: seq<PageOutcome>): (k: nat)
    ensures k <= |pages|
    ensures |pages| > 0 ==> k > 0
    ensures forall j :: 0 <= j < k - 1 ==> !TimesOut(pages[j])
    ensures k < |pages| ==> TimesOut(pages[k - 1])
    ensures k == |pages| || TimesOut(pages[k - 1])
  {
    if |pages| == 0 then 0
    else if TimesOut(pages[0]) then 1
    else 1 + Attempted(pages[1..])
  }

  /** The first `k` entries of all_pages_text: one chunk per page, headed with its 1-based number. */
  function Chunks(pages: seq<PageOutcome>, k: nat): (cs: seq<string>)
    requires k <= |pages|
    ensures |cs| == k
  {
    if k == 0 then [] else Chunks(pages, k - 1) + [PageChunk(k, PageBody(pages[k - 1]))]
  }

  /** Chunk `j` is page `j + 1`'s: its heading and its extracted text or placeholder. */
  lemma {:induction false} ChunkAt(pages: seq<PageOutcome>, k: nat, j: nat)
    requires j < k <= |pages|
    ensures Chunks(pages, k)[j] == PageChunk(j + 1, PageBody(pages[j]))
    decreases k
  {
    if j < k - 1 {
      ChunkAt(pages, k - 1, j);
    }
  }

  /** partial_success after `k` pages. */
  predicate AnyFailed(pages: seq<PageOutcome>, k: nat)
    requires k <= |pages|
  {
    exists j :: 0 <= j < k && PageFailed(pages[j])
  }

  /** processing_successful is cleared: the last attempted page overran the budget. */
  predicate TimedOut(pages: seq<PageOutcome>)
  {
    |pages| > 0 && TimesOut(pages[Attempted(pages) - 1])
  }

  /** What process_pdf returns, and what it writes to the output path. */
  function FileOutcome(file: UploadedFile, outputDir: string): (r: FileResult)
    ensures r.success <==> r.outputPath.Some?
    ensures r.success <==> r.written.Some?
    ensures r.outputPath.Some? ==> r.outputPath.value == MdPath(outputDir, file.stem)
    ensures file.content.Unreadable? || file.content.pages == [] ==> !r.success
  {
    match file.content
    case Unreadable => Failed()
    case Pdf(pages) =>
      if |pages| == 0 then Failed()
      else
        var k := Attempted(pages);
        var chunks := Chunks(pages, k);
        if !TimedOut(pages) && |chunks| > 0 then
          FileResult(true, Some(MdPath(outputDir, file.stem)),
                     Some(Document(file.name, chunks, AnyFailed(pages, k))))
        else Failed()
  }

  /** No page before `i` overran the budget. */
  predicate NoTimeoutBefore(pages: seq<PageOutcome>, i: nat)
    requires i <= |pages|
  {
    forall j :: 0 <= j < i ==> !TimesOut(pages[j])
  }

  lemma NoTimeoutExtend(pages: seq<PageOutcome>, i: nat)
    requires i < |pages| && NoTimeoutBefore(pages, i) && !TimesOut(pages[i])
    ensures NoTimeoutBefore(pages, i + 1)
  {
  }

  /** A timeout at page `i` with none before it ends the loop right after page `i`. */
  lemma AttemptedStopsAt(pages: seq<PageOutcome>, i: nat)
    requires i < |pages| && TimesOut(pages[i])
    requires NoTimeoutBefore(pages, i)
    ensures Attempted(pages) == i + 1
  {
  }

  /** Without a timeout every page is attempted. */
  lemma AttemptedAll(pages: seq<PageOutcome>)
    requires NoTimeoutBefore(pages, |pages|)
    ensures Attempted(pages) == |pages|
  {
  }

  lemma AnyFailedStep(pages: seq<PageOutcome>, i: nat)
    requires i < |pages|
    ensures AnyFailed(pages, i + 1) == (AnyFailed(pages, i) || PageFailed(pages[i]))
  {
    if PageFailed(pages[i]) {
      assert 0 <= i < i + 1 && PageFailed(pages[i]);
    }
  }

  // ---- The loop, as the source runs it ----

  /**
   * One pass of the page loop: render page `i`, extract its text if it
   * rendered, build its chunk, and report whether it sets partial_success and
   * whether it overran the budget (checked only when the page rendered).
   */
  method ProcessPage(pages: seq<PageOutcome>, i: nat) returns (chunk: string, failed: bool, overran: bool)
    requires i < |pages|
    ensures chunk == PageChunk(i + 1, PageBody(pages[i]))
    ensures failed == PageFailed(pages[i])
    ensures overran == TimesOut(pages[i])
  {
    var page := pages[i];
    var pageNum := i + 1;
    var imageBytes := RenderPage(Some(|pages|), i, page.raster);
    RenderInRangePassesThrough(|pages|, i, page.raster);
    overran := false;
    if imageBytes.Some? && |imageBytes.value| > 0 {
      var extractedText := ExtractText(page.reply);
      if extractedText.Some? && extractedText.value != "" {
        chunk := PageChunk(pageNum, extractedText.value);
        failed := false;
      } else {
        chunk := PageChunk(pageNum, ExtractionFailedText);
        failed := true;
      }
      if page.elapsed > MaxProcessingTimePerPageSeconds {
        overran := true;
      }
    } else {
      chunk := PageChunk(pageNum, RenderFailedText);
      failed := true;
    }
  }

  /**
   * The page loop of process_pdf: the chunks it appends to all_pages_text
   * and the final values of partial_success and processing_successful.
   */
  method RunPages(pages: seq<PageOutcome>)
      returns (allPagesText: seq<string>, partialSuccess: bool, processingSuccessful: bool)
    ensures allPagesText == Chunks(pages, Attempted(pages))
    ensures partialSuccess == AnyFailed(pages, Attempted(pages))
    ensures processingSuccessful == !TimedOut(pages)
  {
    allPagesText := [];
    processingSuccessful := true;
    partialSuccess := false;
    var i := 0;
    while i < |pages|
      invariant 0 <= i <= |pages|
      invariant processingSuccessful
      invariant allPagesText == Chunks(pages, i)
      invariant partialSuccess == AnyFailed(pages, i)
      invariant NoTimeoutBefore(pages, i)
    {
      var chunk, failed, overran := ProcessPage(pages, i);
      AnyFailedStep(pages, i);
      allPagesText := allPagesText + [chunk];
      if failed {
        partialSuccess := true;
      }
      if overran {
        processingSuccessful := false;
        AttemptedStopsAt(pages, i);
        return;
      }
      NoTimeoutExtend(pages, i);
      i := i + 1;
    }
    AttemptedAll(pages);
  }

  method ProcessPdf(file: UploadedFile, outputDir: string) returns (r: FileResult)
    ensures r == FileOutcome(file, outputDir)
  {
    if file.content.Unreadable? {
      return Failed();
    }
    var pages := file.content.pages;
    if |pages| == 0 {
      return Failed();
    }
    var allPagesText, partialSuccess, processingSuccessful := RunPages(pages);
    if processingSuccessful && |allPagesText| > 0 {
      r := FileResult(true, Some(MdPath(outputDir, file.stem)),
                      Some(Document(file.name, allPagesText, partialSuccess)));
    } else if !processingSuccessful {
      r := Failed();
    } else {
      // "No text could be extracted": every attempted page appended a chunk.
      assert false;
      r := Failed();
    }
  }
}

/** What the source promises about process_pdf, proved of its declarative outcome. */
module FilePipelineProperties {
  import opened Wrappers
  import opened PageProcessor
  import opened Markdown
  import opened FilePipeline

  /**
   * A readable, non-empty document is saved exactly when no rendered page
   * overran the budget; failed pages (partial_success) never change the
   * returned bool.
   */
  lemma SuccessIffNoTimeout(file: UploadedFile, outputDir: string)
    requires file.content.Pdf? && |file.content.pages| > 0
    ensures var pages := file.content.pages;
      FileOutcome(file, outputDir).success <==> forall j :: 0 <= j < |pages| ==> !TimesOut(pages[j])
  {
    var pages := file.content.pages;
    if forall j :: 0 <= j < |pages| ==> !TimesOut(pages[j]) {
      assert NoTimeoutBefore(pages, |pages|);
      AttemptedAll(pages);
    } else {
      var j :| 0 <= j < |pages| && TimesOut(pages[j]);
      var k := Attempted(pages);
      assert k - 1 <= j;
      assert TimesOut(pages[k - 1]);
      assert TimedOut(pages);
    }
  }

  /**
   * The first page that overruns the budget is the last one attempted: later
   * pages get no chunk at all, the file fails and nothing is written.
   */
  lemma TimeoutStopsFile(file: UploadedFile, outputDir: string, i: nat)
    requires file.content.Pdf? && i < |file.content.pages|
    requires TimesOut(file.content.pages[i])
    requires forall j :: 0 <= j < i ==> !TimesOut(file.content.pages[j])
    ensures Attempted(file.content.pages) == i + 1
    ensures FileOutcome(file, outputDir) == FileResult(false, None, None)
  {
    var pages := file.content.pages;
    assert NoTimeoutBefore(pages, i);
    AttemptedStopsAt(pages, i);
  }

  /**
   * An elapsed time of exactly the budget does not stop the loop: when every
   * page took at most 120 seconds, every page is attempted and the file is
   * saved.
   */
  lemma WithinBudgetSaves(file: UploadedFile, outputDir: string)
    requires file.content.Pdf? && |file.content.pages| > 0
    requires forall j :: 0 <= j < |file.content.pages| ==>
      file.content.pages[j].elapsed <= MaxProcessingTimePerPageSeconds
    ensures Attempted(file.content.pages) == |file.content.pages|
    ensures FileOutcome(file, outputDir).success
  {
    var pages := file.content.pages;
    assert NoTimeoutBefore(pages, |pages|);
    AttemptedAll(pages);
  }

  /** The page list with page `j`'s elapsed time replaced by `e`. */
  function WithElapsed(pages: seq<PageOutcome>, j: nat, e: int): (q: seq<PageOutcome>)
    requires j < |pages|
    ensures |q| == |pages| && q[j].elapsed == e
    ensures q[j].raster == pages[j].raster && q[j].reply == pages[j].reply
    ensures forall i :: 0 <= i < |pages| && i != j ==> q[i] == pages[i]
  {
    pages[j := pages[j].(elapsed := e)]
  }

  /** Attempted depends only on which pages time out. */
  lemma {:induction false} AttemptedFollowsTimeouts(pages: seq<PageOutcome>, other: seq<PageOutcome>)
    requires |pages| == |other|
    requires forall i :: 0 <= i < |pages| ==> (TimesOut(pages[i]) <==> TimesOut(other[i]))
    ensures Attempted(pages) == Attempted(other)
    decreases |pages|
  {
    if |pages| > 0 && !TimesOut(pages[0]) {
      AttemptedFollowsTimeouts(pages[1..], other[1..]);
    }
  }

  /**
   * The budget is checked only inside `if image_bytes:`: the elapsed time of a
   * page that failed to render never affects what is returned or written.
   */
  lemma RenderFailureIgnoresElapsed(name: string, stem: string, pages: seq<PageOutcome>,
                                    outputDir: string, j: nat, e: int)
    requires j < |pages| && !Rendered(pages[j])
    ensures FileOutcome(UploadedFile(name, stem, Pdf(WithElapsed(pages, j, e))), outputDir)
         == FileOutcome(UploadedFile(name, stem, Pdf(pages)), outputDir)
  {
    var other := WithElapsed(pages, j, e);
    forall i | 0 <= i < |pages|
      ensures PageBody(other[i]) == PageBody(pages[i])
      ensures PageFailed(other[i]) == PageFailed(pages[i])
      ensures TimesOut(other[i]) == TimesOut(pages[i])
    {
    }
    AttemptedFollowsTimeouts(pages, other);
    var k := Attempted(pages);
    SameBodiesSameChunks(pages, other, k);
    assert AnyFailed(other, k) == AnyFailed(pages, k);
  }

  lemma SameBodiesSameChunks(pages: seq<PageOutcome>, other: seq<PageOutcome>, k: nat)
    requires k <= |pages| == |other|
    requires forall i :: 0 <= i < |pages| ==> PageBody(other[i]) == PageBody(pages[i])
    ensures Chunks(other, k) == Chunks(pages, k)
  {
    forall i | 0 <= i < k
      ensures Chunks(other, k)[i] == Chunks(pages, k)[i]
    {
      ChunkAt(pages, k, i);
      ChunkAt(other, k, i);
    }
  }

  /**
   * A saved document holds a section for every page of the PDF, in page
   * order, each headed with its 1-based page number, behind the header and
   * the note, which appears exactly when some page failed.
   */
  lemma SavedDocumentLayout(file: UploadedFile, outputDir: string)
    requires FileOutcome(file, outputDir).success
    ensures file.content.Pdf?
    ensures var pages, doc := file.content.pages, FileOutcome(file, outputDir).written.value;
      && doc == Document(file.name, Chunks(pages, |pages|), AnyFailed(pages, |pages|))
      && doc[..|Header(file.name)|] == Header(file.name)
      && (HasNote(doc, file.name) <==> exists j :: 0 <= j < |pages| && PageFailed(pages[j]))
  {
    var pages := file.content.pages;
    SuccessIffNoTimeout(file, outputDir);
    assert NoTimeoutBefore(pages, |pages|);
    AttemptedAll(pages);
    var chunks := Chunks(pages, |pages|);
    PageChunkStartsWithHash(1, PageBody(pages[0]));
    ChunkAt(pages, |pages|, 0);
    NoteIffPartial(file.name, chunks, AnyFailed(pages, |pages|));
  }

  /**
   * The source does not classify a file by how many pages yielded text: a
   * PDF whose every page failed, with no timeout, is still saved with the
   * note and returns (True, path), and the "no text extracted" branch is
   * never taken once the PDF has a page.
   */
  lemma AllPagesFailedStillSaved(file: UploadedFile, outputDir: string)
    requires file.content.Pdf? && |file.content.pages| > 0
    requires forall j :: 0 <= j < |file.content.pages| ==>
      PageFailed(file.content.pages[j]) && !TimesOut(file.content.pages[j])
    ensures FileOutcome(file, outputDir).success
    ensures HasNote(FileOutcome(file, outputDir).written.value, file.name)
  {
    var pages := file.content.pages;
    SuccessIffNoTimeout(file, outputDir);
    SavedDocumentLayout(file, outputDir);
    assert PageFailed(pages[0]);
  }
}
