/**
 * The Markdown text that process_pdf builds: one chunk per attempted page
 * (app.py lines 147, 157 and 173) and the document written to disk
 * (app.py lines 192-197).
 */
module Markdown {

  // ---- Decimal rendering of page numbers (Python's str(int) for n >= 0) ----

  predicate IsDigit(c: char)
  {
    '0' <= c <= '9'
  }

  predicate AllDigits(s: string)
  {
    forall i :: 0 <= i < |s| ==> IsDigit(s[i])
  }

  function DigitChar(d: nat): (c: char)
    requires d < 10
    ensures IsDigit(c) && c as int - '0' as int == d
  {
    "0123456789"[d]
  }

  /** Decimal notation of `n`, as an f-string prints it: digits only, no leading zero. */
  function Decimal(n: nat): (s: string)
    ensures |s| > 0 && AllDigits(s)
    ensures n > 0 ==> s[0] != '0'
    ensures n < 10 <==> |s| == 1
    decreases n
  {
    if n < 10 then [DigitChar(n)] else Decimal(n / 10) + [DigitChar(n % 10)]
  }

  /** The value a string of decimal digits denotes. */
  function DecimalValue(s: string): nat
    requires AllDigits(s)
  {
    if s == [] then 0
    else DecimalValue(s[..|s| - 1]) * 10 + (s[|s| - 1] as int - '0' as int)
  }

  /** Reading a page number back from its decimal notation gives the number. */
  lemma {:induction false} DecimalRoundTrip(n: nat)
    ensures DecimalValue(Decimal(n)) == n
    decreases n
  {
    var s := Decimal(n);
    if n >= 10 {
      var front := Decimal(n / 10);
      assert s[..|s| - 1] == front;
      DecimalRoundTrip(n / 10);
    }
  }

  // ---- Page chunks ----

  const HeadingPrefix := "## Page "
  const ChunkEnd := "\n\n---\n"
  const RenderFailedText := "[Page rendering failed]"
  const ExtractionFailedText := "[Text extraction failed for this page]"

  function PageHeading(pageNum: nat): string
  {
    HeadingPrefix + Decimal(pageNum) + "\n\n"
  }

  /** f"## Page {page_num}\n\n{body}\n\n---\n" */
  function PageChunk(pageNum: nat, body: string): string
  {
    PageHeading(pageNum) + body + ChunkEnd
  }

  /**
   * A chunk can be taken apart again: it starts with its page's heading, the
   * page number can be read back from that heading, and the text between the
   * heading and the closing separator is the body, unchanged.
   */
  lemma PageChunkDecodes(pageNum: nat, body: string)
    ensures var c, h := PageChunk(pageNum, body), PageHeading(pageNum);
      && |h| + |ChunkEnd| <= |c|
      && c[..|h|] == h
      && c[|h|..|c| - |ChunkEnd|] == body
      && c[|c| - |ChunkEnd|..] == ChunkEnd
      && AllDigits(h[|HeadingPrefix|..|h| - 2])
      && DecimalValue(h[|HeadingPrefix|..|h| - 2]) == pageNum
  {
    var c, h := PageChunk(pageNum, body), PageHeading(pageNum);
    assert c == h + body + ChunkEnd;
    assert h[|HeadingPrefix|..|h| - 2] == Decimal(pageNum);
    DecimalRoundTrip(pageNum);
  }

  // ---- Joining chunks: "".join(all_pages_text) ----

  function Join(chunks: seq<string>): (s: string)
  {
    if chunks == [] then "" else chunks[0] + Join(chunks[1..])
  }

  lemma {:induction false} JoinAppend(a: seq<string>, b: seq<string>)
    ensures Join(a + b) == Join(a) + Join(b)
    decreases |a|
  {
    if a == [] {
      assert a + b == b;
    } else {
      assert (a + b)[1..] == a[1..] + b;
      JoinAppend(a[1..], b);
    }
  }

  /**
   * Every chunk appears in the joined text, in list order: chunk `j` starts
   * right after the text of chunks `0..j-1`.
   */
  lemma JoinPlacesChunk(chunks: seq<string>, j: nat)
    requires j < |chunks|
    ensures var off := |Join(chunks[..j])|;
      && off + |chunks[j]| <= |Join(chunks)|
      && Join(chunks)[off..off + |chunks[j]|] == chunks[j]
  {
    assert chunks == chunks[..j] + ([chunks[j]] + chunks[j + 1..]);
    JoinAppend(chunks[..j], [chunks[j]] + chunks[j + 1..]);
    assert ([chunks[j]] + chunks[j + 1..])[1..] == chunks[j + 1..];
  }

  // ---- The written document ----

  const NoteBlock := "**Note:**" + " Text extraction or page rendering failed for one or more pages. The output may be incomplete.\n\n---\n\n"

  function Header(filename: string): string
  {
    "# OCR Output for: " + filename + "\n\n"
  }

  /** The text written to `<output_dir>/<stem>.md`. */
  function Document(filename: string, chunks: seq<string>, partial: bool): string
  {
    Header(filename) + (if partial then NoteBlock else "") + Join(chunks)
  }

  /** The note block stands right after the header. */
  predicate HasNote(doc: string, filename: string)
  {
    var h := |Header(filename)|;
    h + |NoteBlock| <= |doc| && doc[h..h + |NoteBlock|] == NoteBlock
  }

  /**
   * A reader of the document can tell whether some page failed: the note is
   * present exactly when `partial` is set, as long as the first chunk is a
   * page chunk (which starts with '#', never with the note's '*').
   */
  lemma NoteIffPartial(filename: string, chunks: seq<string>, partial: bool)
    requires |chunks| > 0 && |chunks[0]| > 0 && chunks[0][0] == '#'
    ensures HasNote(Document(filename, chunks, partial), filename) <==> partial
    ensures Document(filename, chunks, partial)[..|Header(filename)|] == Header(filename)
  {
    var doc, h := Document(filename, chunks, partial), Header(filename);
    if partial {
      assert doc == h + NoteBlock + Join(chunks);
      assert doc[|h|..|h| + |NoteBlock|] == NoteBlock;
    } else {
      assert Join(chunks) == chunks[0] + Join(chunks[1..]);
      assert doc == h + Join(chunks);
      assert NoteBlock[0] == '*';
      assert doc[|h|] == '#';
    }
  }

  lemma PageChunkStartsWithHash(pageNum: nat, body: string)
    ensures |PageChunk(pageNum, body)| > 0 && PageChunk(pageNum, body)[0] == '#'
  {
  }
}
