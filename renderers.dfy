/**
 * `create_thumbnail_from_file` and `create_fulltext_from_file`: which files
 * get a thumbnail or a full text at all, and how the page texts of a PDF are
 * joined. The drawing and text-extraction libraries themselves are given as
 * functions.
 */
module Renderers {
  import opened Wrappers

  type Bytes = seq<bv8>

  /** An exception raised inside a rendering library (unreadable file, PDF without pages, ...). */
  datatype RenderError = RenderFailed

  /**
   * The libraries that draw a thumbnail: the first page of a PDF rasterised
   * to a JPEG fitting 200x200 pixels, and an image turned into a JPEG 200
   * pixels wide on a white background. None stands for an exception.
   */
  datatype ThumbnailBackend = ThumbnailBackend(
    firstPdfPage: Bytes -> Option<Bytes>,
    image: Bytes -> Option<Bytes>)

  /** The text of every page of a PDF, in page order; None stands for an exception. */
  datatype TextBackend = TextBackend(pageTexts: Bytes -> Option<seq<string>>)

  const Pdf: string := "application/pdf"

  predicate StartsWith(s: string, prefix: string)
  {
    |prefix| <= |s| && s[..|prefix|] == prefix
  }

  /** Thumbnails are only made from images and PDFs. */
  predicate ThumbnailSupported(mimetype: string)
  {
    StartsWith(mimetype, "image/") || mimetype == Pdf
  }

  /** Full text is only extracted from PDFs. */
  predicate FulltextSupported(mimetype: string)
  {
    mimetype == Pdf
  }

  /**
   * `create_thumbnail_from_file`: None for a mimetype without thumbnails;
   * otherwise the first page of a PDF or the resized image whenever the
   * library works, and the library's exception when it raises.
   */
  function CreateThumbnailFromFile(backend: ThumbnailBackend, source: Bytes, mimetype: string)
    : (r: Result<Option<Bytes>, RenderError>)
    ensures r.Success? && r.value.Some? ==> ThumbnailSupported(mimetype)
    ensures !ThumbnailSupported(mimetype) ==> r == Success(None)
    ensures ThumbnailSupported(mimetype) ==> r != Success(None)
    ensures mimetype == Pdf ==> (r.Success? <==> backend.firstPdfPage(source).Some?)
    ensures ThumbnailSupported(mimetype) && mimetype != Pdf ==> (r.Success? <==> backend.image(source).Some?)
    ensures mimetype == Pdf && r.Success? ==> r.value == backend.firstPdfPage(source)
    ensures mimetype != Pdf && r.Success? && r.value.Some? ==> r.value == backend.image(source)
  {
    if !StartsWith(mimetype, "image/") && mimetype != Pdf then
      Success(None)
    else
      var drawn := if mimetype == Pdf then backend.firstPdfPage(source) else backend.image(source);
      match drawn
      case None => Failure(RenderFailed)
      case Some(blob) => Success(Some(blob))
  }

  /**
   * `create_fulltext_from_file`: None unless the file is a PDF; otherwise
   * its page texts joined by newlines whenever the library works, and the
   * library's exception when it raises.
   */
  function CreateFulltextFromFile(backend: TextBackend, source: Bytes, mimetype: string)
    : (r: Result<Option<string>, RenderError>)
    ensures r.Success? && r.value.Some? ==>
              FulltextSupported(mimetype) && backend.pageTexts(source).Some? &&
              r.value.value == JoinLines(backend.pageTexts(source).value)
    ensures !FulltextSupported(mimetype) ==> r == Success(None)
    ensures FulltextSupported(mimetype) ==> r != Success(None)
    ensures FulltextSupported(mimetype) ==> (r.Success? <==> backend.pageTexts(source).Some?)
  {
    if mimetype != Pdf then
      Success(None)
    else
      match backend.pageTexts(source)
      case None => Failure(RenderFailed)
      case Some(pages) => Success(Some(JoinLines(pages)))
  }

  /** `"\n".join(pages)` */
  function JoinLines(pages: seq<string>): string
  {
    if |pages| == 0 then ""
    else if |pages| == 1 then pages[0]
    else pages[0] + "\n" + JoinLines(pages[1..])
  }

  /** The index of the first `c` in `s`. */
  function FirstIndexOf(s: string, c: char): (i: nat)
    requires c in s
    ensures i < |s| && s[i] == c && c !in s[..i]
  {
    if s[0] == c then 0
    else
      assert c in s[1..] by { assert s == [s[0]] + s[1..]; }
      var i := 1 + FirstIndexOf(s[1..], c);
      assert s[..i] == [s[0]] + s[1..][..i - 1];
      i
  }

  /** `s.split("\n")`, the inverse of JoinLines. */
  function SplitLines(s: string): (r: seq<string>)
    decreases |s|
  {
    if '\n' !in s then [s]
    else
      var i := FirstIndexOf(s, '\n');
      [s[..i]] + SplitLines(s[i + 1..])
  }

  /** Page texts without newlines are recovered from their join. */
  lemma {:induction false} SplitJoinLines(pages: seq<string>)
    requires |pages| >= 1
    requires forall p :: p in pages ==> '\n' !in p
    ensures SplitLines(JoinLines(pages)) == pages
  {
    if |pages| > 1 {
      assert pages[0] in pages;
      SplitFirstLine(pages[0], JoinLines(pages[1..]));
      forall p | p in pages[1..] ensures '\n' !in p {
        assert p in pages;
      }
      SplitJoinLines(pages[1..]);
      assert pages == [pages[0]] + pages[1..];
    }
  }

  /** Splitting a first line without newline off the rest of a text. */
  lemma SplitFirstLine(line: string, rest: string)
    requires '\n' !in line
    ensures SplitLines(line + "\n" + rest) == [line] + SplitLines(rest)
  {
    var s := line + "\n" + rest;
    assert s[|line|] == '\n';
    assert s[..|line|] == line;
    assert FirstIndexOf(s, '\n') == |line|;
    assert s[|line| + 1..] == rest;
  }

  /** Joining the lines of a text gives the text back. */
  lemma {:induction false} JoinSplitLines(s: string)
    ensures JoinLines(SplitLines(s)) == s
    decreases |s|
  {
    if '\n' in s {
      var i := FirstIndexOf(s, '\n');
      var rest := SplitLines(s[i + 1..]);
      JoinSplitLines(s[i + 1..]);
      assert |rest| >= 1;
      assert SplitLines(s) == [s[..i]] + rest;
      assert JoinLines(SplitLines(s)) == s[..i] + "\n" + JoinLines(rest);
      assert s == s[..i] + "\n" + s[i + 1..];
    }
  }

  /**
   * The joined text is empty exactly for a PDF without pages or with one
   * empty page: two pages always give at least the newline between them.
   */
  lemma JoinLinesEmpty(pages: seq<string>)
    ensures JoinLines(pages) == [] <==> |pages| == 0 || pages == [""]
  {
    if |pages| > 1 {
      assert JoinLines(pages)[|pages[0]|] == '\n';
    }
  }

  /** The UTF-8 bytes of one character. */
  function EncodeChar(c: char): (r: Bytes)
    ensures 1 <= |r| <= 4
  {
    var n := c as int;
    if n < 0x80 then
      [n as bv8]
    else if n < 0x800 then
      [(0xC0 + n / 0x40) as bv8, (0x80 + n % 0x40) as bv8]
    else if n < 0x1_0000 then
      [(0xE0 + n / 0x1000) as bv8, (0x80 + n / 0x40 % 0x40) as bv8, (0x80 + n % 0x40) as bv8]
    else
      [(0xF0 + n / 0x4_0000 % 8) as bv8, (0x80 + n / 0x1000 % 0x40) as bv8,
       (0x80 + n / 0x40 % 0x40) as bv8, (0x80 + n % 0x40) as bv8]
  }

  /** `text.encode()`: UTF-8. Only the empty text has no bytes. */
  function Utf8Encode(text: string): (r: Bytes)
    ensures |text| <= |r| <= 4 * |text|
  {
    if text == [] then [] else EncodeChar(text[0]) + Utf8Encode(text[1..])
  }
}
