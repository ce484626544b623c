/**
 * The top-level batch loop (app.py lines 252-294): every uploaded file is run
 * through process_pdf in input order, its outcome is recorded in
 * results_summary, and the summary is split into successful and failed files.
 */
module Batch {
  import opened Wrappers
  import opened FilePipeline

  /** {"filename": ..., "success": ..., "output_path": ...} */
  datatype SummaryEntry = SummaryEntry(filename: string, success: bool, outputPath: Option<MdPath>)

  /** The entry recorded for one file. */
  function EntryFor(file: UploadedFile, outputDir: string): (e: SummaryEntry)
    ensures e.filename == file.name
    ensures e.success == FileOutcome(file, outputDir).success
    ensures e.outputPath == FileOutcome(file, outputDir).outputPath
    ensures e.success <==> e.outputPath.Some?
    ensures e.outputPath.Some? ==> e.outputPath.value == MdPath(outputDir, file.stem)
  {
    var r := FileOutcome(file, outputDir);
    SummaryEntry(file.name, r.success, r.outputPath)
  }

  /**
   * One entry per file, in input order; each entry depends only on its own
   * file, so one file's failure never affects another's entry.
   */
  method ProcessBatch(files: seq<UploadedFile>, outputDir: string) returns (summary: seq<SummaryEntry>)
    ensures |summary| == |files|
    ensures forall i :: 0 <= i < |files| ==> summary[i] == EntryFor(files[i], outputDir)
  {
    summary := [];
    for i := 0 to |files|
      invariant |summary| == i
      invariant forall j :: 0 <= j < i ==> summary[j] == EntryFor(files[j], outputDir)
    {
      var uploadedFile := files[i];
      var r := ProcessPdf(uploadedFile, outputDir);
      summary := summary + [SummaryEntry(uploadedFile.name, r.success, r.outputPath)];
    }
  }

  /** [r for r in results_summary if r["success"]] */
  function SuccessfulFiles(summary: seq<SummaryEntry>): (s: seq<SummaryEntry>)
    ensures forall e :: e in s ==> e in summary && e.success
    ensures forall e :: e in summary && e.success ==> e in s
    ensures |s| <= |summary|
  {
    if summary == [] then []
    else (if summary[0].success then [summary[0]] else []) + SuccessfulFiles(summary[1..])
  }

  /** [r for r in results_summary if not r["success"]] */
  function FailedFiles(summary: seq<SummaryEntry>): (f: seq<SummaryEntry>)
    ensures forall e :: e in f ==> e in summary && !e.success
    ensures forall e :: e in summary && !e.success ==> e in f
    ensures |f| <= |summary|
  {
    if summary == [] then []
    else (if summary[0].success then [] else [summary[0]]) + FailedFiles(summary[1..])
  }

  /** The two lists split the summary: every entry lands in exactly one of them. */
  lemma {:induction false} SummaryPartition(summary: seq<SummaryEntry>)
    ensures multiset(SuccessfulFiles(summary)) + multiset(FailedFiles(summary)) == multiset(summary)
    ensures |SuccessfulFiles(summary)| + |FailedFiles(summary)| == |summary|
  {
    if summary != [] {
      SummaryPartition(summary[1..]);
      assert summary == [summary[0]] + summary[1..];
    }
  }

  /** Both lists keep the summary's order, which is the input order. */
  lemma {:induction false} SuccessfulFilesAppend(summary: seq<SummaryEntry>, other: seq<SummaryEntry>)
    ensures SuccessfulFiles(summary + other) == SuccessfulFiles(summary) + SuccessfulFiles(other)
    decreases |summary|
  {
    if summary == [] {
      assert summary + other == other;
    } else {
      var head := if summary[0].success then [summary[0]] else [];
      assert (summary + other)[0] == summary[0];
      assert (summary + other)[1..] == summary[1..] + other;
      SuccessfulFilesAppend(summary[1..], other);
      assert SuccessfulFiles(summary + other) == head + (SuccessfulFiles(summary[1..]) + SuccessfulFiles(other));
    }
  }

  lemma {:induction false} FailedFilesAppend(summary: seq<SummaryEntry>, other: seq<SummaryEntry>)
    ensures FailedFiles(summary + other) == FailedFiles(summary) + FailedFiles(other)
    decreases |summary|
  {
    if summary == [] {
      assert summary + other == other;
    } else {
      var head := if summary[0].success then [] else [summary[0]];
      assert (summary + other)[0] == summary[0];
      assert (summary + other)[1..] == summary[1..] + other;
      FailedFilesAppend(summary[1..], other);
      assert FailedFiles(summary + other) == head + (FailedFiles(summary[1..]) + FailedFiles(other));
    }
  }
}
