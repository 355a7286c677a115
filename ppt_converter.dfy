/**
 * The Java converter `PptTextExtractor` (ppt_converter/src/main/java/com/example/
 * converter/PptTextExtractor.java): for every slide of a legacy `.ppt` file it
 * prints a marker line, then the non-empty texts of the slide's shapes, depth
 * first, then an empty line.  Apache POI's HSLF objects become the abstract
 * `HslfShape` tree; `System.out` is a `PrintStream` that records each `println`.
 *
 * The printed units are the sections of `DelimitedFormat`, numbered 1, 2, ...,
 * so the parser of `extract_text_ppt` reads the converter's output back as one
 * record per slide (`ConverterRoundTrip`).
 */
module PptConverter {
  import opened Wrappers
  import opened Text
  import opened Records
  import opened SlideParser
  import opened DelimitedFormat

  /** A Java `String` reference, which may be `null`. */
  datatype JString = Null | Str(s: string)

  /** An `HSLFTable`: the row and column counts it reports, and its cells row by
      row; `None` is a `null` cell, `Some(t)` a cell whose paragraphs read as `t`. */
  datatype HslfTable = HslfTable(
    numberOfRows: nat,
    numberOfColumns: nat,
    cells: seq<seq<Option<JString>>>)

  /** An `HSLFShape`.  The three `instanceof` tests are independent: an
      `HSLFTable` is itself an `HSLFGroupShape`, so a shape can be both. */
  datatype HslfShape = HslfShape(
    textShape: Option<JString>,   // `getText()`, when an `HSLFTextShape`
    table: Option<HslfTable>,     // when an `HSLFTable`
    isGroup: bool,                // when an `HSLFGroupShape`
    children: seq<HslfShape>)     // `getShapes()` of a group

  type HslfSlide = seq<HslfShape>

  /** `table.getCell(r, c)`: `null` outside the stored cells. */
  function GetCell(t: HslfTable, r: int, c: int): Option<JString>
  {
    if 0 <= r < |t.cells| && 0 <= c < |t.cells[r]| then t.cells[r][c] else None
  }

  /** The `println` of a text when `text != null && !text.isEmpty()`. */
  function Printable(text: JString): seq<string>
  {
    if text.Str? && text.s != "" then [text.s] else []
  }

  /** What a cell prints: nothing for a `null` cell. */
  function CellUnits(cell: Option<JString>): seq<string>
  {
    if cell.Some? then Printable(cell.value) else []
  }

  /** What the cells `(r, 0) .. (r, n - 1)` print, in column order. */
  function RowUnits(t: HslfTable, r: int, n: nat): seq<string>
  {
    if n == 0 then [] else RowUnits(t, r, n - 1) + CellUnits(GetCell(t, r, n - 1))
  }

  /** What rows `0 .. m - 1` print, row by row. */
  function RowsUnits(t: HslfTable, m: nat): seq<string>
  {
    if m == 0 then [] else RowsUnits(t, m - 1) + RowUnits(t, m - 1, t.numberOfColumns)
  }

  /** What the two nested loops over a table print. */
  function TableUnits(t: HslfTable): seq<string>
  {
    RowsUnits(t, t.numberOfRows)
  }

  /** Everything `extractShapeText` prints for a shape: its text, then its table's
      cells, then (for a group) its children's, depth first. */
  function EmitShape(s: HslfShape): seq<string>
    decreases s, 1
  {
    (if s.textShape.Some? then Printable(s.textShape.value) else [])
      + (if s.table.Some? then TableUnits(s.table.value) else [])
      + (if s.isGroup then EmitShapes(s.children) else [])
  }

  /** Everything printed for a list of shapes, one after another. */
  function EmitShapes(shapes: seq<HslfShape>): seq<string>
    decreases shapes, 0
  {
    if shapes == [] then []
    else EmitShapes(shapes[..|shapes| - 1]) + EmitShape(shapes[|shapes| - 1])
  }

  /** The usage line printed when the argument count is not one. */
  const Usage: string := "Usage: java -jar " + "ppt-text-extractor.jar" + " input.ppt"

  /** The slides as printed sections, numbered from 1. */
  function SlideSections(slides: seq<HslfSlide>): (ss: seq<Section>)
    ensures |ss| == |slides|
    ensures forall i :: 0 <= i < |slides| ==> ss[i] == Section(i + 1, EmitShapes(slides[i]))
  {
    if slides == [] then []
    else SlideSections(slides[..|slides| - 1]) + [Section(|slides|, EmitShapes(slides[|slides| - 1]))]
  }

  /** Everything `main` prints, given the argument count and the slides. */
  function MainOutput(argc: int, slides: seq<HslfSlide>): seq<string>
  {
    if argc != 1 then [Usage] else SectionUnits(SlideSections(slides))
  }

  // ---------------------------------------------------------------------------
  // The converter
  // ---------------------------------------------------------------------------

  /** `System.out`: the units passed to `println` so far.  The text on the stream
      is `PrintedText(units)`. */
  class PrintStream {
    var units: seq<string>

    constructor ()
      ensures units == []
    {
      units := [];
    }

    method Println(x: string)
      modifies this
      ensures units == old(units) + [x]
    {
      units := units + [x];
    }
  }

  /** The `text != null && !text.isEmpty()` test and its `println`. */
  method PrintText(text: JString, out: PrintStream)
    modifies out
    ensures out.units == old(out.units) + Printable(text)
  {
    if text.Str? && text.s != "" {
      out.Println(text.s);
    }
  }

  /** The table part of `extractShapeText`: `r` over the rows, `c` over the
      columns, skipping `null` cells. */
  method PrintTable(table: HslfTable, out: PrintStream)
    modifies out
    ensures out.units == old(out.units) + TableUnits(table)
  {
    ghost var start := out.units;
    var rows := table.numberOfRows;
    var cols := table.numberOfColumns;
    for r := 0 to rows
      invariant out.units == start + RowsUnits(table, r)
    {
      ghost var rowStart := out.units;
      for c := 0 to cols
        invariant out.units == rowStart + RowUnits(table, r, c)
      {
        ghost var before := out.units;
        var cell := GetCell(table, r, c);
        if cell.Some? {
          PrintText(cell.value, out);
        }
        assert out.units == before + CellUnits(cell);
        assert RowUnits(table, r, c + 1) == RowUnits(table, r, c) + CellUnits(cell);
        ConcatAssoc(rowStart, RowUnits(table, r, c), CellUnits(cell));
      }
      assert RowsUnits(table, r + 1) == RowsUnits(table, r) + RowUnits(table, r, cols);
      ConcatAssoc(start, RowsUnits(table, r), RowUnits(table, r, cols));
    }
  }

  /** `extractShapeText(shape)`: prints the shape's texts after what is already
      on the stream, which stays unchanged. */
  method ExtractShapeText(shape: HslfShape, out: PrintStream)
    modifies out
    ensures out.units == old(out.units) + EmitShape(shape)
    decreases shape, 1
  {
    ghost var textPart := if shape.textShape.Some? then Printable(shape.textShape.value) else [];
    ghost var tablePart := if shape.table.Some? then TableUnits(shape.table.value) else [];
    ghost var groupPart := if shape.isGroup then EmitShapes(shape.children) else [];
    ghost var start := out.units;
    if shape.textShape.Some? {
      PrintText(shape.textShape.value, out);
    }
    ghost var afterText := out.units;
    assert afterText == start + textPart;
    if shape.table.Some? {
      PrintTable(shape.table.value, out);
    }
    ghost var afterTable := out.units;
    assert afterTable == afterText + tablePart;
    if shape.isGroup {
      ExtractShapesText(shape.children, out);
    }
    assert out.units == afterTable + groupPart;
    assert EmitShape(shape) == textPart + tablePart + groupPart;
    ConcatAssoc(start, textPart, tablePart);
    ConcatAssoc(start, textPart + tablePart, groupPart);
  }

  /** The loops over a slide's shapes and over a group's `getShapes()`. */
  method ExtractShapesText(shapes: seq<HslfShape>, out: PrintStream)
    modifies out
    ensures out.units == old(out.units) + EmitShapes(shapes)
    decreases shapes, 0
  {
    ghost var start := out.units;
    for k := 0 to |shapes|
      invariant out.units == start + EmitShapes(shapes[..k])
    {
      ExtractShapeText(shapes[k], out);
      assert shapes[..k + 1][..k] == shapes[..k];
    }
    assert shapes[..|shapes|] == shapes;
  }

  /** `main(args)`: the usage line for a wrong argument count; otherwise, per
      slide, the marker with the running `slideNum`, the slide's texts and an
      empty line. */
  method RunMain(args: seq<string>, slides: seq<HslfSlide>, out: PrintStream)
    modifies out
    ensures out.units == old(out.units) + MainOutput(|args|, slides)
  {
    if |args| != 1 {
      out.Println(Usage);
      return;
    }
    ghost var start := out.units;
    var slideNum := 1;
    for i := 0 to |slides|
      invariant slideNum == i + 1
      invariant out.units == start + SectionUnits(SlideSections(slides[..i]))
    {
      ghost var prev := SectionUnits(SlideSections(slides[..i]));
      out.Println(MarkerLine(slideNum));
      ExtractShapesText(slides[i], out);
      slideNum := slideNum + 1;
      out.Println("");
      assert out.units == start + prev + [MarkerLine(i + 1)] + EmitShapes(slides[i]) + [""];
      assert out.units == start + SectionUnits(SlideSections(slides[..i + 1])) by {
        SlideSectionsSnoc(slides, i);
        ConcatAssoc(start, prev, [MarkerLine(i + 1)]);
        ConcatAssoc(start, prev + [MarkerLine(i + 1)], EmitShapes(slides[i]));
        ConcatAssoc(start, prev + [MarkerLine(i + 1)] + EmitShapes(slides[i]), [""]);
      }
    }
    assert slides[..|slides|] == slides;
  }

  /** One more slide prints one more section, numbered after the earlier ones. */
  lemma SlideSectionsSnoc(slides: seq<HslfSlide>, i: nat)
    requires i < |slides|
    ensures SectionUnits(SlideSections(slides[..i + 1]))
      == SectionUnits(SlideSections(slides[..i])) + [MarkerLine(i + 1)] + EmitShapes(slides[i]) + [""]
  {
    var ss := SlideSections(slides[..i + 1]);
    assert ss[..i] == SlideSections(slides[..i]);
    assert ss[i] == Section(i + 1, EmitShapes(slides[i]));
  }

  // ---------------------------------------------------------------------------
  // Properties
  // ---------------------------------------------------------------------------

  /** A row prints exactly the non-empty texts of its non-`null` cells. */
  lemma {:induction false} RowUnitsIn(t: HslfTable, r: int, n: nat, u: string)
    ensures u in RowUnits(t, r, n)
      <==> u != "" && exists c :: 0 <= c < n && GetCell(t, r, c) == Some(Str(u))
  {
    if n > 0 {
      RowUnitsIn(t, r, n - 1, u);
      if u in RowUnits(t, r, n) && u !in RowUnits(t, r, n - 1) {
        assert GetCell(t, r, n - 1) == Some(Str(u));
      }
    }
  }

  /** Rows `0 .. m - 1` print exactly the non-empty texts of their non-`null`
      cells within the reported column count. */
  lemma {:induction false} RowsUnitsIn(t: HslfTable, m: nat, u: string)
    ensures u in RowsUnits(t, m)
      <==> u != "" && exists r, c :: 0 <= r < m && 0 <= c < t.numberOfColumns && GetCell(t, r, c) == Some(Str(u))
  {
    if m > 0 {
      RowsUnitsIn(t, m - 1, u);
      RowUnitsIn(t, m - 1, t.numberOfColumns, u);
      if u in RowsUnits(t, m) && u !in RowsUnits(t, m - 1) {
        var c :| 0 <= c < t.numberOfColumns && GetCell(t, m - 1, c) == Some(Str(u));
        assert 0 <= m - 1 < m;
      }
    }
  }

  /** What a table prints: a text is printed iff it is non-empty and is the text
      of some non-`null` cell `(r, c)` with `r` and `c` below the reported counts. */
  lemma TableUnitsIn(t: HslfTable, u: string)
    ensures u in TableUnits(t)
      <==> u != "" && exists r, c :: 0 <= r < t.numberOfRows && 0 <= c < t.numberOfColumns && GetCell(t, r, c) == Some(Str(u))
  {
    RowsUnitsIn(t, t.numberOfRows, u);
  }

  lemma {:induction false} RowsNoEmpty(t: HslfTable, m: nat)
    ensures "" !in RowsUnits(t, m)
  {
    if m > 0 {
      RowsNoEmpty(t, m - 1);
      RowUnitsIn(t, m - 1, t.numberOfColumns, "");
    }
  }

  /** The converter never prints an empty text unit (a unit may still hold an
      empty line inside it, as in "a\n\nb"). */
  lemma {:induction false} EmitShapeNoEmpty(s: HslfShape)
    ensures "" !in EmitShape(s)
    decreases s, 1
  {
    if s.table.Some? {
      RowsNoEmpty(s.table.value, s.table.value.numberOfRows);
    }
    if s.isGroup {
      EmitShapesNoEmpty(s.children);
    }
  }

  lemma {:induction false} EmitShapesNoEmpty(shapes: seq<HslfShape>)
    ensures "" !in EmitShapes(shapes)
    decreases shapes, 0
  {
    if shapes != [] {
      EmitShapesNoEmpty(shapes[..|shapes| - 1]);
      EmitShapeNoEmpty(shapes[|shapes| - 1]);
    }
  }

  /** An `HSLFTable` is also an `HSLFGroupShape`: when its cells are its children
      as text shapes, a one-cell table prints its text twice. */
  lemma TableTwice(a: string)
    requires a != ""
    ensures EmitShape(HslfShape(None, Some(HslfTable(1, 1, [[Some(Str(a))]])), true,
      [HslfShape(Some(Str(a)), None, false, [])])) == [a, a]
  {
    var t := HslfTable(1, 1, [[Some(Str(a))]]);
    var cell := HslfShape(Some(Str(a)), None, false, []);
    assert RowUnits(t, 0, 1) == [a] by {
      assert GetCell(t, 0, 0) == Some(Str(a));
    }
    assert TableUnits(t) == [a] by {
      assert RowsUnits(t, 1) == RowsUnits(t, 0) + RowUnits(t, 0, 1);
    }
    assert EmitShape(cell) == [a];
    assert EmitShapes([cell]) == [a] by {
      assert [cell][..0] == [];
    }
  }

  /** No line of what the slide prints starts with `--- Slide`. */
  predicate NoMarkerInSlide(slide: HslfSlide)
  {
    forall k :: 0 <= k < |SplitAll(EmitShapes(slide))| ==> !IsMarker(SplitAll(EmitShapes(slide))[k])
  }

  /** Feeding the converter's output to the parser of `extract_text_ppt`: one
      record per slide, numbered 1, 2, ... in slide order; a slide that prints no
      text still gives a record, with the empty text; otherwise the text is the
      slide's printed units joined with newlines, plus one newline.  This holds
      when no printed line of a slide starts with `--- Slide`. */
  lemma ConverterRoundTrip(slides: seq<HslfSlide>)
    requires forall i :: 0 <= i < |slides| ==> NoMarkerInSlide(slides[i])
    ensures ParseDelimited(SplitLines(PrintedText(MainOutput(1, slides)))).Ok?
    ensures var back := ParseDelimited(SplitLines(PrintedText(MainOutput(1, slides)))).value;
      |back| == |slides| &&
      forall i :: 0 <= i < |slides| ==>
        back[i].slide == i + 1 &&
        (EmitShapes(slides[i]) == [] ==> back[i].text == "") &&
        (EmitShapes(slides[i]) != [] ==> back[i].text == Join(EmitShapes(slides[i]), "\n") + "\n")
  {
    var ss := SlideSections(slides);
    assert forall i :: 0 <= i < |ss| ==> NoMarkerLines(ss[i]);
    assert ParseDelimited(SplitLines(PrintedText(MainOutput(1, slides)))) == Ok(SectionRecords(ss)) by {
      ParsePrintedSections(ss);
    }
    SectionRecordsIndex(ss);
    forall i | 0 <= i < |ss| ensures SectionRecords(ss)[i] == SlideRecord(i + 1, SectionText(ss[i])) {
    }
    forall i | 0 <= i < |ss|
      ensures EmitShapes(slides[i]) == [] ==> SectionText(ss[i]) == ""
      ensures EmitShapes(slides[i]) != [] ==> SectionText(ss[i]) == Join(EmitShapes(slides[i]), "\n") + "\n"
    {
      SectionTextForm(ss[i]);
    }
  }

  /** Output of a single line that is not a marker is read as the text of
      slide 0. */
  lemma SingleLineParse(u: string)
    requires '\n' !in u && !IsMarker(u)
    ensures ParseDelimited(SplitLines(PrintedText([u]))) == Ok([SlideRecord(0, u)])
  {
    assert PrintedText([u]) == u + "\n" by {
      assert [u][..0] == [];
    }
    assert (u + "\n")[..|u + "\n"| - 1] == u;
    SplitNoSep(u, '\n');
    var st := ParserState(0, [u], []);
    assert Run(Start, [u]) == Ok(st) by {
      assert Start.slideLines + [u] == [u];
      assert Step(Start, u) == Ok(st);
      assert [u][1..] == [];
    }
    assert Flushed(st) == [SlideRecord(0, u)] by {
      assert PendingRecord(0, [u]) == [SlideRecord(0, u)];
      assert [] + [SlideRecord(0, u)] == [SlideRecord(0, u)];
    }
  }

  /** The usage line is one line, and not a marker. */
  lemma UsageLine()
    ensures '\n' !in Usage && !IsMarker(Usage)
  {
    assert '\n' !in "Usage: java -jar ";
    assert '\n' !in "ppt-text-extractor.jar";
    assert '\n' !in " input.ppt";
    assert Usage[0] == "Usage: java -jar "[0] == 'U';
  }

  /** Called with a wrong argument count, the converter prints only its usage
      line, which the parser reads as the text of slide 0. */
  lemma UsageParse(argc: int, slides: seq<HslfSlide>)
    requires argc != 1
    ensures ParseDelimited(SplitLines(PrintedText(MainOutput(argc, slides)))) == Ok([SlideRecord(0, Usage)])
  {
    UsageLine();
    SingleLineParse(Usage);
  }
}
