# PDF OCR page pipeline — a Dafny model

This project models the core of a small Streamlit application (`app.py`) that
turns uploaded PDF files into Markdown. Each page is rendered to a PNG image
with PyMuPDF/PIL. The image goes to a multimodal Ollama model, which extracts
the text. The per-page results are then assembled into one Markdown document
per file, written to `<output_dir>/<stem>.md`.

The model covers four parts:

- **Page helpers** (`PageProcessor`). `render_pdf_page_as_image_bytes` and
  `extract_text_from_image_bytes` are reduced to their decisions. The render
  helper checks the page range and returns `None` on any exception. The
  extraction helper returns the model's content unchanged, or `None` on either
  kind of error. What the rasteriser and the chat call produce are inputs.
- **Markdown text** (`Markdown`). This covers the per-page chunk
  `## Page n\n\n<body>\n\n---\n` and its decimal page number. It also covers
  the join of the chunks and the written document: a header, then the
  optional note, then the chunks.
- **The file pipeline** (`FilePipeline`, `FilePipelineProperties`).
  `ProcessPdf` runs the source's page loop: it keeps `all_pages_text`,
  `partial_success` and `processing_successful`, and breaks on a budget
  overrun. It is proved to return exactly `FileOutcome`, a declarative
  definition of the result in terms of:
  - `Attempted`: the pages up to and including the first timeout.
  - `Chunks`: one chunk per attempted page.
  - `AnyFailed`: whether some page failed.

  The lemmas then prove what the application promises about that outcome.
- **The batch loop** (`Batch`). It builds `results_summary` in input order
  and splits it into successful and failed files.

Each page's environment is a `PageOutcome` with three parts:

- the rasteriser's bytes, or `None` when it raised;
- the chat reply: content, a `ResponseError`, or another exception;
- the whole number of seconds that rendering and extraction took.

A file whose bytes PyMuPDF cannot open is `Unreadable`. That is the exception
the catch-all handler turns into `(False, None)`.

Four behaviours of `app.py` are worth stating outright:

- **Two outcomes only.** `process_pdf` returns only `(bool, path or None)`;
  there is no separate partial status. A failed page only adds the note line
  to the document.
- **A file whose pages all fail is still saved.** Every failed page appends a
  placeholder chunk, so `all_pages_text` is never empty once a page has been
  attempted. Such a file (with no timeout) returns `(True, path)`, with the
  note. `AllPagesFailedStillSaved` proves this. The "no text extracted"
  branch (app.py:211-213) is never taken: `ProcessPdf` carries `assert false`
  in it.
- **The budget applies only to rendered pages.** The check sits inside
  `if image_bytes:`, so a page that failed to render never stops the loop,
  whatever its elapsed time. `RenderFailureIgnoresElapsed` proves this.
- **The budget is strict.** A page must take more than 120 seconds to stop
  the loop, and the page that overran still gets its chunk.

## Model

| member | source | states |
|---|---|---|
| `PageProcessor.RenderPage` | app.py:32-49 | An unreadable document, or a page number at or past the page count, gives `None`. An in-range page gives the rasteriser's result, so a rasteriser exception also gives `None`. |
| `PageProcessor.ExtractText` | app.py:66-89 | The result is present exactly when the model answered, and then it is the answer's content unchanged, even if empty. A `ResponseError` or any other exception gives `None`. |
| `PageProcessor.RenderInRangePassesThrough` | app.py:130-137 | Inside the page loop the page index is below the page count read at the start, so the helper's range check never fires. |
| `Markdown.PageChunk` | app.py:145-175 | Definition of the chunk `## Page {n}\n\n{body}\n\n---\n` appended for every attempted page. Its properties are stated by `PageChunkDecodes` and `ChunkAt`. |
| `Markdown.Join` | app.py:197-197 | Definition of `"".join(all_pages_text)`. Its properties are stated by `JoinAppend` and `JoinPlacesChunk`. |
| `Markdown.Header` | app.py:192-192 | Definition of the first line written, `# OCR Output for: {filename}` and a blank line. `NoteIffPartial` states that every document starts with it. |
| `Markdown.Document` | app.py:191-197 | Definition of the written text: the header, the note block when `partial_success` is set, then the joined chunks. Its properties are stated by `NoteIffPartial` and `SavedDocumentLayout`. |
| `Markdown.Decimal` | app.py:147 | The page number is printed as non-empty decimal digits with no leading zero. It has one digit exactly when the number is below 10. |
| `Markdown.DecimalRoundTrip` | app.py:147 | Reading the printed page number back gives the number. |
| `Markdown.PageChunkDecodes` | app.py:145-158 | A chunk is the page heading, then the body unchanged, then the `---` separator. The heading's number reads back as the page number. |
| `Markdown.JoinAppend` | app.py:197 | Joining two lists of chunks gives the two joined texts one after the other. |
| `Markdown.JoinPlacesChunk` | app.py:197 | In the joined document, chunk `j` appears whole, right after chunks `0..j-1`. |
| `Markdown.NoteIffPartial` | app.py:191-197 | The document starts with `# OCR Output for: <filename>`. The note block follows the header exactly when `partial_success` is set. |
| `FilePipeline.PageBody` | app.py:137-175 | Definition of the text under a page's heading: the extracted text when it is non-empty, otherwise the extraction or the rendering placeholder. `ChunkAt` and `ProcessPage` state it through the helpers' branches. |
| `FilePipeline.PageFailed` | app.py:152-175 | Definition of a page that sets `partial_success`: it failed to render, or yielded `None` or an empty string. `ProcessPage` and `AnyFailedStep` state it. |
| `FilePipeline.TimesOut` | app.py:161-167 | Definition of a budget overrun: the page rendered and took strictly more than 120 seconds. `ProcessPage`, `WithinBudgetSaves` and `RenderFailureIgnoresElapsed` state it. |
| `FilePipeline.AnyFailed` | app.py:113-175 | Definition of `partial_success` after `k` pages: some page among them failed. `AnyFailedStep` and `RunPages` state it. |
| `FilePipeline.TimedOut` | app.py:112-167 | Definition of `processing_successful` being cleared: the last attempted page overran the budget. `RunPages` and `SuccessIffNoTimeout` state it. |
| `FilePipeline.Attempted` | app.py:130-167 | The loop attempts every page up to and including the first rendered page that overran the budget, or all pages if none did. It attempts at least one page when there is one. |
| `FilePipeline.Chunks` | app.py:127-175 | `all_pages_text` after `k` pages holds exactly `k` chunks: one per attempted page. |
| `FilePipeline.ChunkAt` | app.py:145-175 | The chunk at index `j` is page `j+1`'s chunk. It holds the extracted text when that text is non-empty. Otherwise it holds `[Text extraction failed for this page]`, or `[Page rendering failed]` when rendering gave `None` or empty bytes. |
| `FilePipeline.FileOutcome` | app.py:115-219 | The result is true exactly when a path is returned, and exactly when a document is written. The path is `MdPath(output_dir, stem)`. An unreadable file or one with zero pages is never saved. |
| `FilePipeline.ProcessPage` | app.py:131-175 | One pass of the loop, run through the two helpers, gives page `i+1`'s chunk. It sets `partial_success` exactly when the page failed, and it overruns exactly when the page rendered and took more than 120 seconds. |
| `FilePipeline.RunPages` | app.py:127-181 | The loop's final `all_pages_text` holds the chunks of the attempted pages. `partial_success` says whether one of them failed. `processing_successful` is false exactly when the last attempted page timed out. |
| `FilePipeline.ProcessPdf` | app.py:92-219 | The pipeline computes exactly `FileOutcome`: the zero-page early return, the page loop and the final three-way branch. |
| `FilePipeline.AttemptedStopsAt` | app.py:161-167 | If page `i` times out and no earlier page did, the loop attempts exactly pages `0..i`. |
| `FilePipeline.AttemptedAll` | app.py:130-181 | Without a timeout, every page is attempted. |
| `FilePipeline.AnyFailedStep` | app.py:152-175 | `partial_success` after page `i` is its earlier value, or whether page `i` failed to render or to yield text. |
| `FilePipelineProperties.SuccessIffNoTimeout` | app.py:161-210 | A readable PDF with at least one page returns true exactly when no rendered page took more than 120 seconds. Page failures never change the bool. |
| `FilePipelineProperties.TimeoutStopsFile` | app.py:161-210 | The first timed-out page is the last page attempted, so later pages get no chunk. The result is `(False, None)` and nothing is written. |
| `FilePipelineProperties.WithinBudgetSaves` | app.py:161-167 | If every page took at most 120 seconds (exactly 120 included), every page is attempted and the file is saved. |
| `FilePipelineProperties.RenderFailureIgnoresElapsed` | app.py:135-175 | Changing the elapsed time of a page that failed to render changes nothing about what is returned or written. |
| `FilePipelineProperties.SavedDocumentLayout` | app.py:186-197 | A saved document holds the header, then the note if some page failed, then one section per PDF page in page order. The note appears exactly when some page failed. |
| `FilePipelineProperties.AllPagesFailedStillSaved` | app.py:186-213 | A PDF whose pages all fail to render or to yield text, with no timeout, is still saved with the note, so the result is true. |
| `Batch.EntryFor` | app.py:271-280 | A summary entry carries the file's name and its success flag. It has an output path exactly when the file succeeded, and that path is the file's `.md` path. |
| `Batch.ProcessBatch` | app.py:264-280 | The summary has one entry per uploaded file, in input order. Each entry is that file's own outcome. |
| `Batch.SuccessfulFiles` | app.py:293-293 | The successful list holds exactly the summary entries whose `success` is true. |
| `Batch.FailedFiles` | app.py:294-294 | The failed list holds exactly the summary entries whose `success` is false. |
| `Batch.SummaryPartition` | app.py:293-294 | The two lists together hold every summary entry exactly once. |
| `Batch.SuccessfulFilesAppend` | app.py:293-293 | Filtering keeps summary order: filtering a concatenation gives the filtered parts one after the other. |
| `Batch.FailedFilesAppend` | app.py:294-294 | The same order preservation holds for the failed list. |

## Left out

- Streamlit display: status messages, warnings, errors, the progress bar and its float fraction, the UI page setup and the upload widget (app.py:109, 125, 128, 177-183, 224-250, 296-314). None of them affects what is returned or written.
- `time.sleep` between pages and between files, and the total-time reports: display only.
- Wall-clock time: each page's elapsed time is an integer input, compared strictly with 120. Fractional seconds are not modelled.
- PyMuPDF rasterisation, the zoom factor and PIL PNG encoding: foreign library code. The rasteriser's outcome is an input.
- Base64 encoding, the prompt and `ollama.chat` (model name, temperature, `keep_alive`): a network call. Its reply is an input.
- File system: `os.makedirs`, opening and writing the `.md` file, and pathlib. The document is returned as a string. The path is `MdPath(dir, stem)`, and the stem that pathlib computes from the filename is taken as given with the upload.
- FileOutcome: an exception raised while writing the output file (disk full, permissions) is not modelled. In the source it also yields `(False, None)` through the catch-all handler, possibly after a partial write.
- `doc.close()` and resource release are not modelled. The render helper's early return on an out-of-range page skips the close.
- The render helper's handling of negative page numbers is left to the rasteriser input. The pipeline only passes indices `0..n-1`.
