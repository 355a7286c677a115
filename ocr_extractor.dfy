/**
 * The text clean-up and the dispatch of test/ocr_extractor.py.  `clean_text`
 * collapses every newline-whitespace-newline stretch to one blank line, turns
 * tabs into spaces and strips the ends; `extract_text_from_any` picks an
 * extractor by the lower-cased file name's suffix.  The PDF reader, the OCR
 * engine and the DOCX reader are abstract inputs: what they return, or that they
 * failed.
 */
module OcrExtractor {
  import opened Wrappers
  import opened Text

  // ---------------------------------------------------------------------------
  // re.sub(r'\n\s*\n', '\n\n', text)
  // ---------------------------------------------------------------------------

  /** The length of the whitespace run at the front of `t`: what a greedy `\s*`
      first takes. */
  function SpaceRun(t: string): (n: nat)
    ensures n <= |t|
  {
    if t != [] && IsSpace(t[0]) then 1 + SpaceRun(t[1..]) else 0
  }

  /** The last index below `n` holding a newline, or -1: where the backtracking
      `\s*\n` ends when it matches. */
  function LastNewline(t: string, n: nat): (k: int)
    requires n <= |t|
    ensures -1 <= k < n
  {
    if n == 0 then -1 else if t[n - 1] == '\n' then n - 1 else LastNewline(t, n - 1)
  }

  /** The substitution, scanning left to right: at a newline whose following
      whitespace run holds another newline, the stretch up to the last such
      newline becomes `"\n\n"`; every other character is copied. */
  function Collapse(s: string): string
    decreases |s|
  {
    if s == [] then []
    else if s[0] == '\n' && LastNewline(s[1..], SpaceRun(s[1..])) >= 0 then
      var k := LastNewline(s[1..], SpaceRun(s[1..]));
      "\n\n" + Collapse(s[k + 2..])
    else [s[0]] + Collapse(s[1..])
  }

  lemma {:induction false} SpaceRunSpec(t: string)
    ensures SpaceRun(t) <= |t| && AllSpace(t[..SpaceRun(t)])
    ensures SpaceRun(t) < |t| ==> !IsSpace(t[SpaceRun(t)])
  {
    if t != [] && IsSpace(t[0]) {
      SpaceRunSpec(t[1..]);
      assert t[..SpaceRun(t)] == [t[0]] + t[1..][..SpaceRun(t[1..])];
    }
  }

  lemma {:induction false} LastNewlineSpec(t: string, n: nat)
    requires n <= |t|
    ensures -1 <= LastNewline(t, n) < n
    ensures LastNewline(t, n) >= 0 ==> t[LastNewline(t, n)] == '\n'
    ensures forall j :: LastNewline(t, n) < j < n ==> t[j] != '\n'
  {
    if n > 0 && t[n - 1] != '\n' {
      LastNewlineSpec(t, n - 1);
    }
  }

  /** No newline can be reached from the front of `t` through whitespace only. */
  predicate NoLeadingNewline(t: string)
  {
    forall j :: 0 <= j < |t| && t[j] == '\n' ==> !AllSpace(t[..j])
  }

  /** Every stretch newline, whitespace, newline is exactly `"\n\n"`: there is no
      `"\n\n\n"` and no newline followed by spaces or tabs and another newline. */
  predicate NoBlankRun(t: string)
  {
    forall i, j :: 0 <= i < j < |t| && t[i] == '\n' && t[j] == '\n' && AllSpace(t[i + 1..j]) ==> j == i + 1
  }

  /** What the scan resumes on after a match, or after a newline it copies,
      starts with no newline reachable through whitespace. */
  lemma RestAfterNewline(s: string)
    requires s != [] && s[0] == '\n'
    ensures LastNewline(s[1..], SpaceRun(s[1..])) < 0 ==> NoLeadingNewline(s[1..])
    ensures LastNewline(s[1..], SpaceRun(s[1..])) >= 0 ==>
      NoLeadingNewline(s[LastNewline(s[1..], SpaceRun(s[1..])) + 2..])
  {
    var t := s[1..];
    var n := SpaceRun(t);
    var k := LastNewline(t, n);
    SpaceRunSpec(t);
    LastNewlineSpec(t, n);
    if k < 0 {
      forall j | 0 <= j < |t| && t[j] == '\n' ensures !AllSpace(t[..j]) {
        if j < n {
          assert false;
        } else {
          assert t[..j][n] == t[n];
        }
      }
    } else {
      var rest := s[k + 2..];
      assert rest == t[k + 1..];
      forall j | 0 <= j < |rest| && rest[j] == '\n' ensures !AllSpace(rest[..j]) {
        assert rest[j] == t[k + 1 + j];
        if k + 1 + j < n {
          assert false;
        } else {
          assert rest[..j][n - k - 1] == t[n];
        }
      }
    }
  }

  /** Without a newline reachable through leading whitespace, the output has none
      either. */
  lemma {:induction false} CollapseKeepsNoLeadingNewline(t: string)
    requires NoLeadingNewline(t)
    ensures NoLeadingNewline(Collapse(t))
    decreases |t|
  {
    if t != [] {
      assert t[0] != '\n' by {
        assert t[..0] == [];
      }
      var c := Collapse(t);
      assert c == [t[0]] + Collapse(t[1..]);
      if IsSpace(t[0]) {
        forall j | 0 <= j < |t[1..]| && t[1..][j] == '\n' ensures !AllSpace(t[1..][..j]) {
          assert t[..j + 1] == [t[0]] + t[1..][..j];
          assert !AllSpace(t[..j + 1]);
        }
        CollapseKeepsNoLeadingNewline(t[1..]);
        forall j | 0 <= j < |c| && c[j] == '\n' ensures !AllSpace(c[..j]) {
          assert j > 0;
          var rest := Collapse(t[1..]);
          assert c[..j] == [t[0]] + rest[..j - 1];
          assert rest[j - 1] == c[j];
          var p :| 0 <= p < j - 1 && !IsSpace(rest[..j - 1][p]);
          assert c[..j][p + 1] == rest[..j - 1][p];
        }
      } else {
        forall j | 0 <= j < |c| && c[j] == '\n' ensures !AllSpace(c[..j]) {
          assert j > 0;
          assert c[..j][0] == t[0];
          assert !IsSpace(c[..j][0]);
        }
      }
    }
  }

  /** A copied character keeps the output free of blank runs when it is not a
      newline, or when no newline follows it through whitespace. */
  lemma ConsNoBlankRun(x: char, u: string)
    requires NoBlankRun(u)
    requires x == '\n' ==> NoLeadingNewline(u)
    ensures NoBlankRun([x] + u)
  {
    var t := [x] + u;
    forall i, j | 0 <= i < j < |t|
      ensures t[i] == '\n' && t[j] == '\n' && AllSpace(t[i + 1..j]) ==> j == i + 1
    {
      if i == 0 {
        assert t[1..j] == u[..j - 1];
        assert x == '\n' && u[j - 1] == '\n' ==> !AllSpace(u[..j - 1]);
      } else {
        assert t[i + 1..j] == u[i..j - 1];
      }
    }
  }

  /** A blank line in front of output with no newline reachable through leading
      whitespace keeps it free of blank runs. */
  lemma BlankLineNoBlankRun(u: string)
    requires NoBlankRun(u) && NoLeadingNewline(u)
    ensures NoBlankRun("\n\n" + u)
  {
    var t := ['\n', '\n'] + u;
    assert "\n\n" + u == t;
    forall i, j | 0 <= i < j < |t|
      ensures t[i] == '\n' && t[j] == '\n' && AllSpace(t[i + 1..j]) ==> j == i + 1
    {
      if i <= 1 && j >= 2 {
        var w := t[i + 1..j];
        assert t[2..] == u;
        assert u[..j - 2] == w[1 - i..];
        assert u[j - 2] == '\n' ==> !AllSpace(u[..j - 2]);
        assert AllSpace(w) ==> AllSpace(w[1 - i..]);
      } else if i >= 2 {
        assert t[i + 1..j] == u[i - 1..j - 2];
      }
    }
  }

  /** The substitution leaves no blank run behind. */
  lemma {:induction false} CollapseNoBlankRun(s: string)
    ensures NoBlankRun(Collapse(s))
    decreases |s|
  {
    if s != [] {
      if s[0] == '\n' {
        RestAfterNewline(s);
      }
      var k := LastNewline(s[1..], SpaceRun(s[1..]));
      if s[0] == '\n' && k >= 0 {
        LastNewlineSpec(s[1..], SpaceRun(s[1..]));
        CollapseNoBlankRun(s[k + 2..]);
        CollapseKeepsNoLeadingNewline(s[k + 2..]);
        BlankLineNoBlankRun(Collapse(s[k + 2..]));
      } else {
        CollapseNoBlankRun(s[1..]);
        if s[0] == '\n' {
          CollapseKeepsNoLeadingNewline(s[1..]);
        }
        ConsNoBlankRun(s[0], Collapse(s[1..]));
      }
    }
  }

  /** A stretch of text without blank runs has none either. */
  lemma NoBlankRunSlice(s: string, lo: nat, hi: nat)
    requires lo <= hi <= |s| && NoBlankRun(s)
    ensures NoBlankRun(s[lo..hi])
  {
    var t := s[lo..hi];
    forall i, j | 0 <= i < j < |t| && t[i] == '\n' && t[j] == '\n' && AllSpace(t[i + 1..j])
      ensures j == i + 1
    {
      assert t[i] == s[lo + i] && t[j] == s[lo + j];
      assert AllSpace(s[lo + i + 1..lo + j]) by {
        var w := s[lo + i + 1..lo + j];
        forall p | 0 <= p < |w| ensures IsSpace(w[p]) {
          assert w[p] == t[i + 1..j][p];
        }
      }
    }
  }

  /** Text without blank runs is left as it is. */
  lemma {:induction false} CollapseFixed(s: string)
    requires NoBlankRun(s)
    ensures Collapse(s) == s
    decreases |s|
  {
    if s != [] {
      var t := s[1..];
      NoBlankRunSlice(s, 1, |s|);
      assert s[1..|s|] == t;
      var k := LastNewline(t, SpaceRun(t));
      if s[0] == '\n' && k >= 0 {
        SpaceRunSpec(t);
        LastNewlineSpec(t, SpaceRun(t));
        assert AllSpace(s[1..k + 1]) by {
          var w := s[1..k + 1];
          var run := t[..SpaceRun(t)];
          forall p | 0 <= p < k ensures IsSpace(w[p]) {
            assert w[p] == run[p];
          }
        }
        assert s[k + 1] == '\n';
        assert k == 0;
        assert s[..2] == "\n\n";
        NoBlankRunSlice(s, 2, |s|);
        assert s[2..|s|] == s[2..];
        CollapseFixed(s[2..]);
        assert s == "\n\n" + s[2..];
      } else {
        CollapseFixed(t);
        assert s == [s[0]] + t;
      }
    }
  }

  // ---------------------------------------------------------------------------
  // clean_text
  // ---------------------------------------------------------------------------

  /** `clean_text`: the substitution, then tabs to spaces, then `strip`. */
  function CleanText(text: string): string
  {
    Strip(ReplaceAll(Collapse(text), "\t", " "))
  }

  /** What `clean_text` promises of its result. */
  predicate IsClean(t: string)
  {
    && '\t' !in t
    && (t == [] || (!IsSpace(t[0]) && !IsSpace(t[|t| - 1])))
    && NoBlankRun(t)
  }

  /** Turning tabs into spaces leaves no tab, keeps text without tabs as it is
      and keeps text free of blank runs. */
  lemma TabsToSpaces(s: string)
    ensures '\t' !in ReplaceAll(s, "\t", " ")
    ensures '\t' !in s ==> ReplaceAll(s, "\t", " ") == s
    ensures NoBlankRun(s) ==> NoBlankRun(ReplaceAll(s, "\t", " "))
  {
    var r := ReplaceAll(s, "\t", " ");
    ReplaceCharAt(s, "\t", " ");
    assert forall p :: 0 <= p < |s| ==> IsSpace(r[p]) == IsSpace(s[p]);
    if NoBlankRun(s) {
      forall i, j | 0 <= i < j < |r| && r[i] == '\n' && r[j] == '\n' && AllSpace(r[i + 1..j])
        ensures j == i + 1
      {
        assert AllSpace(s[i + 1..j]) by {
          var w := s[i + 1..j];
          forall p | 0 <= p < |w| ensures IsSpace(w[p]) {
            assert w[p] == s[i + 1 + p] && r[i + 1..j][p] == r[i + 1 + p];
          }
        }
      }
    }
    if '\t' !in s {
      assert forall p :: 0 <= p < |s| ==> r[p] == s[p];
    }
  }

  /** A stretch of text keeps it free of tabs and of blank runs. */
  lemma SliceKeeps(s: string, lo: nat, hi: nat)
    requires lo <= hi <= |s|
    ensures '\t' !in s ==> '\t' !in s[lo..hi]
    ensures NoBlankRun(s) ==> NoBlankRun(s[lo..hi])
  {
    if NoBlankRun(s) {
      NoBlankRunSlice(s, lo, hi);
    }
    if '\t' in s[lo..hi] {
      var p :| 0 <= p < hi - lo && s[lo..hi][p] == '\t';
      assert s[lo + p] == '\t';
    }
  }

  /** `strip` keeps a stretch of its input, so it keeps text free of tabs and of
      blank runs. */
  lemma StripKeeps(s: string)
    ensures '\t' !in s ==> '\t' !in Strip(s)
    ensures NoBlankRun(s) ==> NoBlankRun(Strip(s))
  {
    var lo := |s| - |LStrip(s)|;
    var hi := lo + |Strip(s)|;
    assert hi <= |s| && Strip(s) == s[lo..hi] by {
      LStripSpec(s);
      RStripSpec(LStrip(s));
    }
    SliceKeeps(s, lo, hi);
  }

  /** The substitution only rewrites whitespace: the other characters stay, in
      order. */
  lemma {:induction false} CollapseNonSpace(s: string)
    ensures NonSpace(Collapse(s)) == NonSpace(s)
    decreases |s|
  {
    if s != [] {
      if s[0] == '\n' && LastNewline(s[1..], SpaceRun(s[1..])) >= 0 {
        var t := s[1..];
        var k := LastNewline(t, SpaceRun(t));
        var pad := [s[0]] + t[..k + 1];
        var rest := s[k + 2..];
        assert AllSpace(pad) by {
          SpaceRunSpec(t);
          assert t[..k + 1] == t[..SpaceRun(t)][..k + 1];
        }
        assert NonSpace(s) == NonSpace(rest) by {
          assert s == pad + rest;
          NonSpaceAfterSpaces(pad, rest);
        }
        assert NonSpace(Collapse(s)) == NonSpace(Collapse(rest)) by {
          assert Collapse(s) == "\n\n" + Collapse(rest);
          NonSpaceAfterSpaces("\n\n", Collapse(rest));
        }
        CollapseNonSpace(rest);
      } else {
        CollapseNonSpace(s[1..]);
        assert s == [s[0]] + s[1..];
        NonSpaceAppend([s[0]], s[1..]);
        NonSpaceAppend([s[0]], Collapse(s[1..]));
      }
    }
  }

  /** Turning tabs into spaces leaves the other characters as they are. */
  lemma {:induction false} TabsNonSpace(s: string)
    ensures NonSpace(ReplaceAll(s, "\t", " ")) == NonSpace(s)
    decreases |s|
  {
    if |s| >= 1 {
      TabsNonSpace(s[1..]);
      assert s == [s[0]] + s[1..];
      if s[..1] == "\t" {
        assert s[0] == '\t';
        NonSpaceAfterSpaces([s[0]], s[1..]);
        NonSpaceAfterSpaces(" ", ReplaceAll(s[1..], "\t", " "));
      } else {
        NonSpaceAppend([s[0]], s[1..]);
        NonSpaceAppend([s[0]], ReplaceAll(s[1..], "\t", " "));
      }
    }
  }

  /** `clean_text` rewrites only whitespace: it keeps every other character, in
      order, and adds none. */
  lemma CleanTextNonSpace(text: string)
    ensures NonSpace(CleanText(text)) == NonSpace(text)
  {
    CollapseNonSpace(text);
    TabsNonSpace(Collapse(text));
    StripNonSpace(ReplaceAll(Collapse(text), "\t", " "));
  }

  /** `clean_text` leaves no tab, no whitespace at either end and no blank run. */
  lemma CleanTextIsClean(text: string)
    ensures IsClean(CleanText(text))
  {
    var replaced := ReplaceAll(Collapse(text), "\t", " ");
    CollapseNoBlankRun(text);
    TabsToSpaces(Collapse(text));
    StripKeeps(replaced);
    StripSpec(replaced);
  }

  /** Clean text is left as it is, so cleaning twice is cleaning once. */
  lemma CleanTextFixed(t: string)
    requires IsClean(t)
    ensures CleanText(t) == t
  {
    CollapseFixed(t);
    TabsToSpaces(t);
    StripUnchanged(t);
  }

  lemma CleanTextIdempotent(text: string)
    ensures CleanText(CleanText(text)) == CleanText(text)
  {
    CleanTextIsClean(text);
    CleanTextFixed(CleanText(text));
  }

  // ---------------------------------------------------------------------------
  // The extractors
  // ---------------------------------------------------------------------------

  /** A PDF page as the reader sees it: `extract_text()` returns a text or `None`,
      or it raises. */
  datatype PdfPage = PageText(text: Option<string>) | PageFailure

  /** `page.extract_text() or ""`. */
  function PageString(page: PdfPage): string
  {
    if page.PageText? && page.text.Some? then page.text.value else ""
  }

  /** The page texts, concatenated in page order. */
  function PagesText(pages: seq<PdfPage>): string
  {
    if pages == [] then "" else PagesText(pages[..|pages| - 1]) + PageString(pages[|pages| - 1])
  }

  /** `extract_pdf_text`: the stripped concatenation of the page texts; the empty
      text when the reader (`None`) or any page fails. */
  function PdfText(reader: Option<seq<PdfPage>>): string
  {
    if reader.None? || PageFailure in reader.value then "" else Strip(PagesText(reader.value))
  }

  /** The loop of `extract_pdf_text`, with its `except Exception: return ""`. */
  method ExtractPdfText(reader: Option<seq<PdfPage>>) returns (text: string)
    ensures text == PdfText(reader)
  {
    if reader.None? {
      return "";
    }
    var pages := reader.value;
    text := "";
    for i := 0 to |pages|
      invariant PageFailure !in pages[..i]
      invariant text == PagesText(pages[..i])
    {
      if pages[i].PageFailure? {
        return "";
      }
      text := text + PageString(pages[i]);
      assert pages[..i + 1] == pages[..i] + [pages[i]];
    }
    assert pages[..|pages|] == pages;
    text := Strip(text);
  }

  /** The OCR loop of the PDF branch: every page's OCR text followed by a newline. */
  method OcrPages(pageTexts: seq<string>) returns (ocrText: string)
    ensures ocrText == PrintedText(pageTexts)
  {
    ocrText := "";
    for i := 0 to |pageTexts|
      invariant ocrText == PrintedText(pageTexts[..i])
    {
      ocrText := ocrText + pageTexts[i] + "\n";
      assert pageTexts[..i + 1][..i] == pageTexts[..i];
    }
    assert pageTexts[..|pageTexts|] == pageTexts;
  }

  /** Why `extract_text_from_any` raises `ValueError`. */
  datatype ExtractError = DocxError | Unsupported

  /** `extract_docx_text`: the cleaned paragraphs joined with newlines; a reader
      failure (`None`) becomes `DocxError`. */
  function DocxText(paragraphs: Option<seq<string>>): Result<string, ExtractError>
  {
    if paragraphs.None? then Err(DocxError) else Ok(CleanText(Join(paragraphs.value, "\n")))
  }

  /** What the libraries give `extract_text_from_any` for the file: the PDF reader's
      pages, the OCR text of each rendered PDF page, the OCR text of an image, the
      DOCX paragraphs, and the decoded text of a `.txt` file. */
  datatype Sources = Sources(
    pdfReader: Option<seq<PdfPage>>,
    pdfPagesOcr: seq<string>,
    imageOcr: string,
    docxParagraphs: Option<seq<string>>,
    decodedText: string)

  predicate IsImageName(name: string)
  {
    EndsWith(name, ".jpg") || EndsWith(name, ".jpeg") || EndsWith(name, ".png") || EndsWith(name, ".tiff")
  }

  /** The embedded text of a PDF is used only when it is longer than 20 characters. */
  const PdfTextThreshold := 20

  /** `extract_text_from_any`: dispatch on the lower-cased name's suffix, in the
      order PDF, image, DOCX, TXT. */
  function TextFromAny(filename: string, src: Sources): Result<string, ExtractError>
  {
    var name := Lower(filename);
    if EndsWith(name, ".pdf") then
      var extracted := PdfText(src.pdfReader);
      if extracted != "" && |extracted| > PdfTextThreshold then Ok(CleanText(extracted))
      else Ok(CleanText(PrintedText(src.pdfPagesOcr)))
    else if IsImageName(name) then Ok(CleanText(src.imageOcr))
    else if EndsWith(name, ".docx") then DocxText(src.docxParagraphs)
    else if EndsWith(name, ".txt") then Ok(CleanText(src.decodedText))
    else Err(Unsupported)
  }

  /** `extract_text_from_any` with its loops. */
  method ExtractTextFromAny(filename: string, src: Sources) returns (r: Result<string, ExtractError>)
    ensures r == TextFromAny(filename, src)
  {
    var name := Lower(filename);
    if EndsWith(name, ".pdf") {
      var extracted := ExtractPdfText(src.pdfReader);
      if extracted != "" && |extracted| > PdfTextThreshold {
        return Ok(CleanText(extracted));
      }
      var ocrText := OcrPages(src.pdfPagesOcr);
      return Ok(CleanText(ocrText));
    } else if IsImageName(name) {
      return Ok(CleanText(src.imageOcr));
    } else if EndsWith(name, ".docx") {
      return DocxText(src.docxParagraphs);
    } else if EndsWith(name, ".txt") {
      return Ok(CleanText(src.decodedText));
    }
    return Err(Unsupported);
  }

  // ---------------------------------------------------------------------------
  // Properties of the dispatch
  // ---------------------------------------------------------------------------

  /** Every text `extract_text_from_any` returns is clean. */
  lemma TextFromAnyIsClean(filename: string, src: Sources)
    ensures TextFromAny(filename, src).Ok? ==> IsClean(TextFromAny(filename, src).value)
  {
    var name := Lower(filename);
    if EndsWith(name, ".pdf") {
      CleanTextIsClean(PdfText(src.pdfReader));
      CleanTextIsClean(PrintedText(src.pdfPagesOcr));
    } else if IsImageName(name) {
      CleanTextIsClean(src.imageOcr);
    } else if EndsWith(name, ".docx") {
      if src.docxParagraphs.Some? {
        CleanTextIsClean(Join(src.docxParagraphs.value, "\n"));
      }
    } else {
      CleanTextIsClean(src.decodedText);
    }
  }

  /** The suffix test ignores case. */
  lemma TextFromAnyIgnoresCase(filename: string, src: Sources)
    ensures TextFromAny(Lower(filename), src) == TextFromAny(filename, src)
  {
    LowerIdempotent(filename);
  }

  /** The file type is refused exactly when the lower-cased name ends in none of
      the handled suffixes. */
  lemma UnsupportedIff(filename: string, src: Sources)
    ensures TextFromAny(filename, src) == Err(Unsupported)
      <==> (var name := Lower(filename);
            !EndsWith(name, ".pdf") && !IsImageName(name) && !EndsWith(name, ".docx") && !EndsWith(name, ".txt"))
  {
  }

  /** A DOCX error is raised exactly for a `.docx` name whose reader fails. */
  lemma DocxErrorIff(filename: string, src: Sources)
    ensures TextFromAny(filename, src) == Err(DocxError)
      <==> (var name := Lower(filename);
            !EndsWith(name, ".pdf") && !IsImageName(name) && EndsWith(name, ".docx") && src.docxParagraphs.None?)
  {
    var name := Lower(filename);
    var r := TextFromAny(filename, src);
    if EndsWith(name, ".pdf") || IsImageName(name) {
      assert r.Ok?;
    } else if EndsWith(name, ".docx") {
      assert r == DocxText(src.docxParagraphs);
      assert r == Err(DocxError) <==> src.docxParagraphs.None?;
    } else {
      assert r == (if EndsWith(name, ".txt") then Ok(CleanText(src.decodedText)) else Err(Unsupported));
    }
  }

  /** Embedded PDF text of at most 20 characters counts for nothing: the result
      is what it would be if the reader had failed. */
  lemma ShortPdfTextIgnored(filename: string, src: Sources)
    requires |PdfText(src.pdfReader)| <= PdfTextThreshold
    ensures TextFromAny(filename, src) == TextFromAny(filename, src.(pdfReader := None))
  {
  }

  /** Embedded PDF text longer than 20 characters is used, and the OCR text then
      counts for nothing. */
  lemma LongPdfTextUsed(filename: string, src: Sources, ocr: seq<string>)
    requires |PdfText(src.pdfReader)| > PdfTextThreshold
    ensures TextFromAny(filename, src) == TextFromAny(filename, src.(pdfPagesOcr := ocr))
    ensures EndsWith(Lower(filename), ".pdf") ==>
      TextFromAny(filename, src) == Ok(CleanText(PdfText(src.pdfReader)))
  {
  }
}
