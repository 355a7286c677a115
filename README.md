# slide-extractor-api, modelled in Dafny

This project models the text extraction at the heart of slide-extractor-api, along with the format that links its two halves:

- **The python-pptx path.** `extract_from_shape` walks a slide's shape tree depth first. It appends paragraph texts to a list the caller owns. `extract_text_from_pptx_file` (app.py) and `extract_text_pptx` (test/ppt_extractor.py) turn each slide into one record. The record's text is the slide's non-empty paragraphs joined with newlines.
- **The legacy `.ppt` path.** The Java program `PptTextExtractor` prints, for each slide:
  - a marker line `--- Slide N ---`,
  - the non-empty texts of the slide's shapes and table cells,
  - then an empty line.

  `extract_text_from_ppt_file` / `extract_text_ppt` read that output back line by line with a small state machine.
- **`save_to_txt`.** It writes records in the converter's delimited format.
- **The extension dispatch.** This covers the HTTP endpoint and the desktop script.
- **`test/ocr_extractor.py`.** This covers `clean_text`, `extract_pdf_text`, the DOCX join, and the suffix dispatch of `extract_text_from_any`, including its 20-character threshold for embedded PDF text.

Modules:

| module | file | what it holds |
|---|---|---|
| `Wrappers` | wrappers.dfy | `Option` and `Result` |
| `Text` | text.dfy | the Python string operations used: `join`, `splitlines` (through a one-character split helper), `startswith`/`endswith`, `replace`, `strip`, `lower`, `int()`, `str(int)`, `filter(None, …)` |
| `Records` | records.dfy | the slide record and the marker line |
| `PptxWalker` | pptx_walker.dfy | the shape walker and the per-slide extractor, shared by app.py and test/ppt_extractor.py |
| `SlideParser` | slide_parser.dfy | the line parser of the `.ppt` path |
| `DelimitedFormat` | delimited_format.dfy | printed sections (marker, texts, empty line) and what the parser reads back from them |
| `PptConverter` | ppt_converter.dfy | the Java converter, and its composition with the parser |
| `SaveTxt` | save_txt.dfy | `save_to_txt`, and reading its file back |
| `FileDispatch` | file_dispatch.dfy | `os.path.splitext` and the two extension routes |
| `OcrExtractor` | ocr_extractor.dfy | `clean_text`, the PDF/OCR/DOCX/TXT extractors and their dispatch |

Where the source mutates something, the model does too:

- The `collected` list is a `StrList` object whose `items` the walker appends to.
- `System.out` is a `PrintStream` object that records each `println`.
- The output file of `save_to_txt` is a `TextFile` whose content grows with each `write`.
- The loops are `for` loops with invariants.

Each such method is proved equal to a specification function (`Collect`, `EmitShape`, `MainOutput`, `ParseDelimited`, `SavedText`, `PdfText`, `TextFromAny`). The properties are lemmas about those functions.

Third-party libraries become inputs:

| library | becomes |
|---|---|
| python-pptx shapes | the `PptxWalker.Shape` tree |
| Apache POI HSLF shapes | the `PptConverter.HslfShape` tree |
| the PDF reader | a sequence of pages, each with a text, no text, or a failure; `None` if the reader fails |
| OCR | one string per image or page |
| python-docx | its paragraph list, or `None` if it fails |
| the `.txt` decoding | the decoded string |
| the Java subprocess | `SlideParser.ConverterRun`: either a failed run or its standard output |

Text written to a stream is `Text.PrintedText`: every unit followed by `'\n'`.

## Model

| member | source | states |
|---|---|---|
| PptxWalker.Collect | app.py:21-35 | (definition) what `extract_from_shape` appends for one shape: its text-frame paragraphs, then its table paragraphs row by row and cell by cell, then, for a group (`shape_type == 6`), its children's, depth first |
| PptxWalker.SlideText | app.py:47 | (definition) a slide's text: the collected paragraphs with the empty ones dropped, joined with `"\n"` |
| PptxWalker.StrList.Append | app.py:24 | `list.append` adds one item at the end and changes nothing else |
| PptxWalker.AppendParagraphs | app.py:23-24 | every paragraph text, empty ones included, is appended in paragraph order after the existing items |
| PptxWalker.AppendTable | app.py:26-31 | table texts are appended row by row, cell by cell, paragraph by paragraph, after the existing items |
| PptxWalker.ExtractFromShape | app.py:21-35 | the walk only appends: old contents stay an unchanged prefix, followed by `Collect(shape)` (text-frame paragraphs, then table cells, then the children in order for a group; nothing for a shape passing none of the tests) |
| PptxWalker.ExtractFromShapes | app.py:34-35 | walking a list of shapes appends each shape's contribution in list order |
| PptxWalker.ExtractTextFromPptxFile | app.py:38-50 | exactly one record per slide, numbered 1..N in slide order, each holding `SlideText` of that slide, including slides whose text is empty |
| PptxWalker.CollectAllAppend | test/ppt_extractor.py:34-35 | walking two shape lists one after the other collects the first list's texts, then the second's |
| PptxWalker.SlideTextEmpty | app.py:47 | a slide's text is empty exactly when every collected paragraph is the empty string; whitespace-only paragraphs are text |
| PptxWalker.SlideTextLines | test/ppt_extractor.py:37 | when no paragraph holds a line break and some paragraph is non-empty, the lines of the slide text are exactly the non-empty paragraphs in walk order |
| PptxWalker.GroupExample | test/ppt_extractor.py:23-25 | a group's children are walked in order and an empty paragraph is dropped from the slide text |
| PptxWalker.TableCollected | test/ppt_extractor.py:16-21 | a 2×2 table is read row-major |
| PptxWalker.TableExample | test/ppt_extractor.py:16-21 | a 2×2 table of non-empty cells gives its cells as four lines, row by row |
| PptxWalker.JoinNonEmptyParts | test/ppt_extractor.py:37 | a join of non-empty strings is empty iff there is nothing to join |
| Text.NonEmpty | app.py:47 | `filter(None, …)` keeps exactly the non-empty strings, and never more than there were |
| Text.NonEmptyKeepsAll | app.py:47 | `filter(None, …)` keeps a list without empty strings unchanged |
| SlideParser.IsMarker | app.py:77 | (definition) a line is a marker when it starts with `--- Slide` |
| SlideParser.MarkerNumber | app.py:82 | (definition) a marker's number: the line with `--- Slide` and then `---` removed everywhere, stripped, read by `int()`; `None` where `int()` raises |
| Text.ParseInt | app.py:82 | (definition) `int()` of a stripped string: an optional `-` or `+` followed by one or more ASCII digits, read in base 10; anything else raises (`None`) |
| Records.MarkerLine | ppt_converter/src/main/java/com/example/converter/PptTextExtractor.java:19 | (definition) the marker line `--- Slide N ---`, which the converter prints and `save_to_txt` writes (test/ppt_extractor.py line 124) |
| SlideParser.ParseSlideLines | app.py:72-89 | the parsing loop returns exactly `ParseDelimited` of its lines, including its error |
| SlideParser.ExtractTextFromPptFile | test/ppt_extractor.py:55-78 | a failed converter run gives no records; otherwise the output's `splitlines()` are parsed, and an unparsable marker number is an error that is not caught |
| SlideParser.RunBody | app.py:83-84 | lines that are not markers are added verbatim and in order to the pending slide |
| SlideParser.RunErrorIff | test/ppt_extractor.py:65-73 | the loop fails iff some line is a marker whose number does not parse |
| SlideParser.RunErrorFirst | test/ppt_extractor.py:66-71 | when the loop fails, its error names the first marker whose number does not parse, and no earlier line is one |
| SlideParser.ParseErrorIff | app.py:82 | the whole parse raises iff some marker line's number does not parse; the error names the first one |
| SlideParser.RunBlock | app.py:77-82 | a marker first closes the pending slide (a record only if it has lines), then sets the new number and starts an empty body |
| SlideParser.FlushedAfter | app.py:86-87 | the final flush of the state after the preamble and the blocks gives their records |
| SlideParser.RunBlocks | test/ppt_extractor.py:65-73 | over a preamble without markers and well-formed blocks, the loop ends with the last block's number and body pending and every earlier record emitted |
| SlideParser.ParseByBlocks | app.py:72-89 | well-formed input parses to the preamble as slide 0 (only when it has lines), then one record per block whose body has at least one line, numbered as its marker says, with the body joined by newlines |
| SlideParser.DropSlideTag | app.py:82 | `replace("--- Slide", "")` on a marker line removes exactly its prefix |
| SlideParser.DropClosingDashes | app.py:82 | `replace("---", "")` then removes exactly the closing dashes |
| SlideParser.MarkerLineParses | test/ppt_extractor.py:71 | the line `--- Slide N ---` is a marker and its number parses back to N, negative numbers included |
| SlideParser.ParseExample | app.py:73-87 | lines before the first marker become slide 0; a body holding only `""` still gives a record with text `""`; a marker followed directly by another marker gives nothing; numbers are taken from the markers as written |
| Text.SplitLinesPrinted | app.py:76 | `splitlines()` of text printed one unit per line gives the units' own lines back |
| Text.ParseIntToString | app.py:82 | `int(str(n)) == n` for every integer |
| Text.IntToString | ppt_converter/src/main/java/com/example/converter/PptTextExtractor.java:19 | the decimal text of an integer is non-empty digits with an optional leading minus sign |
| PptConverter.PrintStream.Println | ppt_converter/src/main/java/com/example/converter/PptTextExtractor.java:38 | `println` adds one unit at the end of the stream |
| PptConverter.PrintText | ppt_converter/src/main/java/com/example/converter/PptTextExtractor.java:36-39 | a text is printed as one unit only when it is non-null and non-empty |
| PptConverter.PrintTable | ppt_converter/src/main/java/com/example/converter/PptTextExtractor.java:43-61 | cells are visited for r in [0, rows), c in [0, cols) in row-major order; null cells and empty texts print nothing |
| PptConverter.ExtractShapeText | ppt_converter/src/main/java/com/example/converter/PptTextExtractor.java:32-70 | a shape prints its text, then its table, then (as a group) its children, through three independent tests, after what is already on the stream |
| PptConverter.ExtractShapesText | ppt_converter/src/main/java/com/example/converter/PptTextExtractor.java:21-23 | the shapes of a slide or of a group print one after another, in order |
| PptConverter.RunMain | ppt_converter/src/main/java/com/example/converter/PptTextExtractor.java:8-27 | with one argument, each slide prints its marker with `slideNum` = 1, 2, … in order, its shapes' texts and one empty line; with any other argument count, only the usage line is printed |
| PptConverter.SlideSections | ppt_converter/src/main/java/com/example/converter/PptTextExtractor.java:17-27 | one section per slide, the i-th numbered i + 1 and holding that slide's texts |
| PptConverter.SlideSectionsSnoc | ppt_converter/src/main/java/com/example/converter/PptTextExtractor.java:25 | one more slide adds one section, numbered after the earlier ones |
| PptConverter.RowUnitsIn | ppt_converter/src/main/java/com/example/converter/PptTextExtractor.java:49-57 | a row prints a text iff it is the non-empty text of a non-null cell in that row |
| PptConverter.RowsUnitsIn | ppt_converter/src/main/java/com/example/converter/PptTextExtractor.java:48-60 | rows 0..m-1 print a text iff it is the non-empty text of a non-null cell in one of them |
| PptConverter.TableUnitsIn | ppt_converter/src/main/java/com/example/converter/PptTextExtractor.java:43-61 | a table prints a text iff it is the non-empty text of a non-null cell within the reported row and column counts |
| PptConverter.RowsNoEmpty | ppt_converter/src/main/java/com/example/converter/PptTextExtractor.java:54 | table rows never print an empty unit |
| PptConverter.EmitShapeNoEmpty | ppt_converter/src/main/java/com/example/converter/PptTextExtractor.java:37 | a shape never prints an empty text unit (a unit's own text may still contain an empty line) |
| PptConverter.EmitShapesNoEmpty | ppt_converter/src/main/java/com/example/converter/PptTextExtractor.java:66-68 | a list of shapes never prints an empty unit |
| PptConverter.TableTwice | ppt_converter/src/main/java/com/example/converter/PptTextExtractor.java:43-69 | an `HSLFTable` whose cells are also its group children prints a cell's text twice |
| PptConverter.ConverterRoundTrip | ppt_converter/src/main/java/com/example/converter/PptTextExtractor.java:17-27 | parsing the converter's output gives exactly one record per slide, numbered 1..N in order, provided no printed line starts with `--- Slide`; a slide with nothing printed still gives a record, with text `""`, and otherwise the text is the printed texts joined by newlines plus a final newline |
| PptConverter.SingleLineParse | app.py:83-87 | output of one non-marker line is read as the text of slide 0 |
| PptConverter.UsageLine | ppt_converter/src/main/java/com/example/converter/PptTextExtractor.java:10 | the usage line is one line and not a marker |
| PptConverter.UsageParse | ppt_converter/src/main/java/com/example/converter/PptTextExtractor.java:9-12 | with a wrong argument count no marker is printed, and the parser returns the usage line as slide 0 |
| DelimitedFormat.SectionTextForm | app.py:79 | a section reads back as `""` when it has no texts, and otherwise as its texts joined by newlines with a final newline (from the terminating empty line) |
| DelimitedFormat.SectionRecordsIndex | app.py:87 | one record per section, carrying the section's number and text |
| DelimitedFormat.SectionLines | app.py:76 | the lines of printed sections are the lines of their blocks |
| DelimitedFormat.SectionBlockWellFormed | app.py:77 | a section whose lines hold no marker is a well-formed block |
| DelimitedFormat.SectionBlockRecords | app.py:78-87 | the blocks of the sections parse to the sections' records |
| DelimitedFormat.ParsePrintedSections | app.py:72-89 | printed sections parse back to one record per section, in order, with the section's number and text, provided no printed line starts with `--- Slide` |
| SaveTxt.TextFile.Write | test/ppt_extractor.py:124 | `write` appends to the file's content |
| SaveTxt.SaveToTxt | test/ppt_extractor.py:122-126 | for each record in order, the file receives `--- Slide N ---\n`, the text and `\n\n`, and nothing else |
| SaveTxt.RecordSections | test/ppt_extractor.py:123-126 | each record is one section with the record's text as its only unit |
| SaveTxt.SavedTextPrinted | test/ppt_extractor.py:124-126 | the saved text is the records printed in the delimited format |
| SaveTxt.SaveRoundTrip | test/ppt_extractor.py:123-126 | reading the saved file back with the `.ppt` parser gives one record per saved record, in order, with the same number, and the text plus one newline, provided no line of a text starts with `--- Slide` |
| SaveTxt.RecordSectionText | test/ppt_extractor.py:125-126 | a saved text reads back with one extra final newline |
| FileDispatch.SplitExt | app.py:97 | (definition) `os.path.splitext`: the extension runs from the last dot of the last path component when a non-dot character precedes that dot within the component; otherwise it is empty |
| FileDispatch.AppRouteOf | app.py:97-99 | (definition) the endpoint's route: the lower-cased extension must be `.pptx` or `.ppt`; `.ppt` goes to the Java converter, `.pptx` to python-pptx, anything else is refused |
| FileDispatch.ScriptRouteOf | test/ppt_extractor.py:136-140 | (definition) the script's route: a lower-cased `.ppt` extension goes to the Java converter, every other file to python-pptx |
| FileDispatch.RFindSpec | app.py:97 | the found index holds a character of the set, and nothing after it does |
| FileDispatch.SplitExtSpec | app.py:97 | `splitext` gives root + extension == path, and a non-empty extension is one dot followed by neither dots nor separators |
| FileDispatch.ExtOfName | test/ppt_extractor.py:136 | a name `stem.e` has extension `.e` |
| FileDispatch.HiddenNameHasNoExt | app.py:97 | a hidden name `.e` has no extension |
| FileDispatch.AppRouteOfName | app.py:97-99 | for `stem.e`: the Java path iff `e.lower()` is `ppt`, python-pptx iff it is `pptx`, refused otherwise |
| FileDispatch.ExtRoutes | app.py:98-102 | the endpoint's decision on an extension `.x` for each `x` |
| FileDispatch.RoutesAgree | test/ppt_extractor.py:136-140 | the endpoint and the script send exactly the same names to the Java converter; what the endpoint refuses, the script gives to python-pptx |
| FileDispatch.HiddenPptName | test/ppt_extractor.py:136-140 | a file named just `.ppt` has no extension: the endpoint refuses it and the script uses python-pptx |
| OcrExtractor.Collapse | test/ocr_extractor.py:12 | (definition) `re.sub(r'\n\s*\n', '\n\n', text)` scanning left to right: at a newline whose following whitespace run holds another newline, the stretch up to the last such newline becomes `"\n\n"`; every other character is copied |
| OcrExtractor.CleanText | test/ocr_extractor.py:11-14 | (definition) `clean_text`: the blank-line substitution, then every tab to a space, then `strip` |
| OcrExtractor.DocxText | test/ocr_extractor.py:33-41 | (definition) `extract_docx_text`: the paragraphs joined with `"\n"` and cleaned; a reader failure becomes the DOCX error |
| OcrExtractor.SpaceRunSpec | test/ocr_extractor.py:12 | `\s*` matches the longest run of whitespace |
| OcrExtractor.LastNewlineSpec | test/ocr_extractor.py:12 | the last newline inside the run, or -1 |
| OcrExtractor.CollapseNoBlankRun | test/ocr_extractor.py:12 | after the substitution, no two newlines have only whitespace between them unless they are adjacent |
| OcrExtractor.CollapseFixed | test/ocr_extractor.py:12 | text without such a blank run is left unchanged by the substitution |
| OcrExtractor.TabsToSpaces | test/ocr_extractor.py:13 | replacing tabs leaves no tab, changes nothing in tab-free text, and creates no blank run |
| OcrExtractor.StripKeeps | test/ocr_extractor.py:14 | `strip` keeps a tab-free text tab-free and a text without blank runs without them |
| OcrExtractor.CollapseNonSpace | test/ocr_extractor.py:12 | the blank-line substitution removes and adds only whitespace: the non-whitespace characters stay the same, in the same order |
| OcrExtractor.TabsNonSpace | test/ocr_extractor.py:13 | replacing tabs by spaces keeps the non-whitespace characters and their order |
| OcrExtractor.CleanTextIsClean | test/ocr_extractor.py:11-14 | `clean_text` output has no tab, no whitespace at either end and no newline-whitespace-newline run other than `\n\n` |
| OcrExtractor.CleanTextNonSpace | test/ocr_extractor.py:11-14 | `clean_text` loses no content: its output has exactly the input's non-whitespace characters, in order |
| OcrExtractor.CleanTextFixed | test/ocr_extractor.py:11-14 | clean text is left unchanged |
| OcrExtractor.CleanTextIdempotent | test/ocr_extractor.py:11-14 | cleaning twice is the same as cleaning once |
| OcrExtractor.ExtractPdfText | test/ocr_extractor.py:17-25 | the stripped concatenation of page texts (`None` page texts as `""`), or `""` when the reader or any page fails |
| OcrExtractor.OcrPages | test/ocr_extractor.py:62-64 | every page's OCR text followed by a newline, in page order |
| OcrExtractor.ExtractTextFromAny | test/ocr_extractor.py:52-82 | the loops of the dispatch compute `TextFromAny` |
| OcrExtractor.TextFromAnyIsClean | test/ocr_extractor.py:52-79 | every text the dispatch returns is clean, including the DOCX text (cleaned join of the paragraphs) |
| OcrExtractor.TextFromAnyIgnoresCase | test/ocr_extractor.py:53 | the file name's case does not matter |
| OcrExtractor.UnsupportedIff | test/ocr_extractor.py:81-82 | "Unsupported file type" is raised iff the lower-cased name ends in none of `.pdf`, `.jpg`, `.jpeg`, `.png`, `.tiff`, `.docx`, `.txt` |
| OcrExtractor.DocxErrorIff | test/ocr_extractor.py:33-41 | the DOCX error is raised iff the name is a `.docx` (and not a `.pdf` or an image) and the reader fails |
| OcrExtractor.ShortPdfTextIgnored | test/ocr_extractor.py:57-65 | embedded PDF text of at most 20 characters counts for nothing: the result is the same as if the reader had failed |
| OcrExtractor.LongPdfTextUsed | test/ocr_extractor.py:57-59 | embedded PDF text longer than 20 characters is cleaned and returned, and the OCR text does not matter |
| Text.StripSpec | test/ocr_extractor.py:14 | `strip` removes only whitespace at the ends and leaves ends that are not whitespace |
| Text.StripNonSpace | test/ocr_extractor.py:14 | `strip` keeps every non-whitespace character, in order |
| Text.NonSpaceAppend | test/ocr_extractor.py:11-14 | the non-whitespace characters of a concatenation are those of each part, one after the other |
| Text.NonSpaceAfterSpaces | test/ocr_extractor.py:12 | whitespace put in front of a text adds no non-whitespace character |
| Text.StripUnchanged | test/ocr_extractor.py:23 | a string with non-space ends is not changed by `strip` |
| Text.LowerIdempotent | test/ocr_extractor.py:53 | lower-casing twice is lower-casing once |
| Text.Split | app.py:76 | the one-character split helper that defines `SplitLines` (the source's `splitlines()`): at least one piece, and no piece holds the separator |
| Text.JoinSplit | app.py:79 | joining the pieces of a split with the separator gives the string back |
| Text.SplitJoin | app.py:79 | splitting a join on its one-character separator gives the parts back, when no part holds the separator |
| Text.NonEmptyAppend | app.py:47 | `filter(None, …)` of two lists one after the other is the two filtered lists one after the other |
| Text.ReplaceCharAt | test/ocr_extractor.py:13 | replacing one character by one character keeps the length and changes exactly the occurrences |

## Left out

- The FastAPI application, CORS, the async upload endpoint and the temporary file it writes and removes (app.py:8-16, 101-119). Only the extension decision is modelled.
- Running the Java jar with `subprocess.run`. `SlideParser.ConverterRun` stands for its outcome: either a `CalledProcessError`, which gives `[]`, or the captured standard output. A missing jar makes `java` exit with status 1, which is the `CalledProcessError` case above. A missing `java` executable raises `FileNotFoundError`, which propagates and is not modelled.
- The console messages printed on failure and on saving.
- The tkinter file pickers and the desktop `glob` fallback (test/ppt_extractor.py:83-107, test/ocr_extractor.py:87-127), and the module-level script logic apart from its extension test.
- `save_to_txt`'s output directory, file name and encoding. Its `TextFile` starts empty, just as a file opened with `"w"` does.
- The third-party libraries: python-pptx, Apache POI HSLF, PyPDF2, pdf2image, pytesseract, Pillow and python-docx. Their results are inputs of the model. `ocr_image`'s grey-scale conversion and OCR quality are not modelled.
- Exceptions raised by pdf2image, Pillow or `pytesseract.image_to_string` (called in `ocr_image`, test/ocr_extractor.py:30) in the PDF-OCR and image branches. They propagate in the source; the model assumes those libraries succeed.
- The UTF-8 / latin-1 decoding fallback of `extract_text_file`. The decoded text is an input.
- test/word_creator.py is not part of this model.
- Python string corner cases:
  - `splitlines()` also breaks at `\r`, `\v`, `\f`, `\x1c`-`\x1e`, `\x85`, `\u2028` and `\u2029`; the model breaks at `'\n'` only.
  - `str.isspace`, `\s`, `strip` and `lower` follow only their ASCII behaviour.
  - `int()` also accepts underscores between digits and non-ASCII digits; the model's `int()` takes an optional sign and ASCII digits only.
- Java's `int` overflow of `slideNum` past 2^31-1 slides is not modelled.
- The record form: app.py returns dictionaries and test/ppt_extractor.py returns tuples. Both are `Records.SlideRecord`.
- `PptConverter.HslfShape`: whether a table is also a group, and what `getShapes()` of a table returns, are left to the input. In Apache POI, `HSLFTable` is an `HSLFGroupShape`, and `PptConverter.TableTwice` shows what happens when its cells are its children.
- SaveTxt.SaveRoundTrip: the round trip holds only when no line of a record's text starts with `--- Slide`. The text comes back with one extra newline, so saving is not an exact inverse of the parser.
- PptConverter.ConverterRoundTrip: holds only when no printed text line starts with `--- Slide`. Otherwise a shape text that looks like a marker starts a new slide, or makes `int()` raise.
