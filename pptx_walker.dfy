/**
 * The python-pptx extraction path: `extract_from_shape` walks one shape tree and
 * appends paragraph texts to a list the caller owns; `extract_text_from_pptx_file`
 * (app.py) and `extract_text_pptx` (test/ppt_extractor.py) run it over every
 * shape of every slide and join each slide's non-empty paragraphs with newlines.
 * The two files hold the same walker; they differ only in the record form, which
 * `SlideRecord` stands for in both.
 */
module PptxWalker {
  import opened Wrappers
  import opened Text
  import opened Records

  /** A python-pptx shape.  The three tests of the walker are independent: a shape
      may have a text frame, a table and be a group all at once. */
  datatype Shape = Shape(
    textFrame: Option<seq<string>>,        // paragraph texts, when `has_text_frame`
    table: Option<seq<seq<seq<string>>>>,  // rows, cells, paragraph texts, when `has_table`
    isGroup: bool,                         // `shape_type == 6` (a group shape)
    children: seq<Shape>)                  // `shape.shapes`, walked only for a group

  type Slide = seq<Shape>

  type Presentation = seq<Slide>

  /** A Python `list` of `str` that is handed to callees by reference. */
  class StrList {
    var items: seq<string>

    constructor ()
      ensures items == []
    {
      items := [];
    }

    /** `list.append`. */
    method Append(x: string)
      modifies this
      ensures items == old(items) + [x]
    {
      items := items + [x];
    }
  }

  // ---------------------------------------------------------------------------
  // Specification of the walk
  // ---------------------------------------------------------------------------

  /** The paragraphs of the shape's text frame, or none. */
  function FrameParagraphs(s: Shape): seq<string>
  {
    if s.textFrame.Some? then s.textFrame.value else []
  }

  /** The paragraphs of a table, row by row, cell by cell. */
  function TableParagraphs(rows: seq<seq<seq<string>>>): seq<string>
  {
    if rows == [] then []
    else TableParagraphs(rows[..|rows| - 1]) + Flatten(rows[|rows| - 1])
  }

  /** Everything the walk appends for one shape: its text-frame paragraphs, then its
      table paragraphs, then (for a group) its children's, depth first. */
  function Collect(s: Shape): seq<string>
    decreases s, 1
  {
    FrameParagraphs(s)
      + (if s.table.Some? then TableParagraphs(s.table.value) else [])
      + (if s.isGroup then CollectAll(s.children) else [])
  }

  /** Everything the walk appends for a list of shapes, one shape after another. */
  function CollectAll(shapes: seq<Shape>): seq<string>
    decreases shapes, 0
  {
    if shapes == [] then []
    else CollectAll(shapes[..|shapes| - 1]) + Collect(shapes[|shapes| - 1])
  }

  /** The text of one slide: the collected paragraphs without the empty ones,
      joined with newlines. */
  function SlideText(slide: Slide): string
  {
    Join(NonEmpty(CollectAll(slide)), "\n")
  }

  // ---------------------------------------------------------------------------
  // The walker and the per-slide extractor
  // ---------------------------------------------------------------------------

  /** The `for paragraph in ...: collected.append(paragraph.text)` loop. */
  method AppendParagraphs(paragraphs: seq<string>, collected: StrList)
    modifies collected
    ensures collected.items == old(collected.items) + paragraphs
  {
    ghost var start := collected.items;
    for i := 0 to |paragraphs|
      invariant collected.items == start + paragraphs[..i]
    {
      collected.Append(paragraphs[i]);
      assert paragraphs[..i + 1] == paragraphs[..i] + [paragraphs[i]];
    }
    assert paragraphs[..|paragraphs|] == paragraphs;
  }

  /** The table part of the walk: rows, then cells, then the cell's paragraphs. */
  method AppendTable(rows: seq<seq<seq<string>>>, collected: StrList)
    modifies collected
    ensures collected.items == old(collected.items) + TableParagraphs(rows)
  {
    ghost var start := collected.items;
    for r := 0 to |rows|
      invariant collected.items == start + TableParagraphs(rows[..r])
    {
      var cells := rows[r];
      ghost var beforeRow := collected.items;
      for c := 0 to |cells|
        invariant collected.items == beforeRow + Flatten(cells[..c])
      {
        AppendParagraphs(cells[c], collected);
        assert cells[..c + 1][..c] == cells[..c];
      }
      assert cells[..|cells|] == cells;
      assert rows[..r + 1][..r] == rows[..r];
    }
    assert rows[..|rows|] == rows;
  }

  /** `extract_from_shape(shape, collected)`: appends the shape's paragraphs to
      `collected`; what was already in the list stays, unchanged, in front. */
  method ExtractFromShape(shape: Shape, collected: StrList)
    modifies collected
    ensures collected.items == old(collected.items) + Collect(shape)
    decreases shape, 1
  {
    ghost var framePart := FrameParagraphs(shape);
    ghost var tablePart := if shape.table.Some? then TableParagraphs(shape.table.value) else [];
    ghost var groupPart := if shape.isGroup then CollectAll(shape.children) else [];
    ghost var start := collected.items;
    if shape.textFrame.Some? {
      AppendParagraphs(shape.textFrame.value, collected);
    }
    ghost var afterFrame := collected.items;
    assert afterFrame == start + framePart;
    if shape.table.Some? {
      AppendTable(shape.table.value, collected);
    }
    ghost var afterTable := collected.items;
    assert afterTable == afterFrame + tablePart;
    if shape.isGroup {
      ExtractFromShapes(shape.children, collected);
    }
    assert collected.items == afterTable + groupPart;
    assert Collect(shape) == framePart + tablePart + groupPart;
    ConcatAssoc(start, framePart, tablePart);
    ConcatAssoc(start, framePart + tablePart, groupPart);
  }

  /** The `for subshape in shape.shapes: extract_from_shape(subshape, collected)`
      loop of a group. */
  method ExtractFromShapes(shapes: seq<Shape>, collected: StrList)
    modifies collected
    ensures collected.items == old(collected.items) + CollectAll(shapes)
    decreases shapes, 0
  {
    ghost var start := collected.items;
    for k := 0 to |shapes|
      invariant collected.items == start + CollectAll(shapes[..k])
    {
      ExtractFromShape(shapes[k], collected);
      assert shapes[..k + 1][..k] == shapes[..k];
    }
    assert shapes[..|shapes|] == shapes;
  }

  /** `extract_text_from_pptx_file` / `extract_text_pptx`: one record per slide, in
      slide order, numbered from 1, including slides whose text is empty. */
  method ExtractTextFromPptxFile(prs: Presentation) returns (allText: seq<SlideRecord>)
    ensures |allText| == |prs|
    ensures forall i :: 0 <= i < |prs| ==> allText[i] == SlideRecord(i + 1, SlideText(prs[i]))
  {
    allText := [];
    for slideIndex := 0 to |prs|
      invariant |allText| == slideIndex
      invariant forall i :: 0 <= i < slideIndex ==> allText[i] == SlideRecord(i + 1, SlideText(prs[i]))
    {
      var slide := prs[slideIndex];
      var slideText := new StrList();
      for j := 0 to |slide|
        invariant slideText.items == CollectAll(slide[..j])
      {
        ExtractFromShape(slide[j], slideText);
        assert slide[..j + 1][..j] == slide[..j];
      }
      assert slide[..|slide|] == slide;
      var combined := Join(NonEmpty(slideText.items), "\n");
      allText := allText + [SlideRecord(slideIndex + 1, combined)];
    }
  }

  // ---------------------------------------------------------------------------
  // Properties
  // ---------------------------------------------------------------------------

  /** Walking two lists of shapes one after the other into the same list appends
      their contributions in that order. */
  lemma {:induction false} CollectAllAppend(a: seq<Shape>, b: seq<Shape>)
    ensures CollectAll(a + b) == CollectAll(a) + CollectAll(b)
  {
    if b != [] {
      assert (a + b)[..|a + b| - 1] == a + b[..|b| - 1];
      CollectAllAppend(a, b[..|b| - 1]);
    } else {
      assert a + b == a;
    }
  }

  /** A join of non-empty strings is empty exactly when there is nothing to join. */
  lemma {:induction false} JoinNonEmptyParts(parts: seq<string>, sep: string)
    requires "" !in parts
    ensures Join(parts, sep) == "" <==> parts == []
  {
    if |parts| > 1 {
      JoinNonEmptyParts(parts[1..], sep);
      assert parts[0] != "" by { assert parts[0] in parts; }
    } else if |parts| == 1 {
      assert parts[0] in parts;
    }
  }

  /** A slide's text is empty exactly when every paragraph the walk collected on it
      is the empty string (whitespace-only paragraphs count as text). */
  lemma SlideTextEmpty(slide: Slide)
    ensures SlideText(slide) == "" <==>
      forall i :: 0 <= i < |CollectAll(slide)| ==> CollectAll(slide)[i] == ""
  {
    var all := CollectAll(slide);
    var kept := NonEmpty(all);
    assert "" !in kept;
    JoinNonEmptyParts(kept, "\n");
    assert SlideText(slide) == Join(kept, "\n");
    if kept != [] {
      assert kept[0] in all;
      var j :| 0 <= j < |all| && all[j] == kept[0];
      assert all[j] != "";
      assert SlideText(slide) != "";
      assert CollectAll(slide)[j] != "";
      assert !(forall i :: 0 <= i < |CollectAll(slide)| ==> CollectAll(slide)[i] == "");
    } else {
      forall i | 0 <= i < |all| ensures all[i] == "" {
        assert all[i] in all;
      }
    }
  }

  /** When no paragraph holds a line break and some paragraph is non-empty, the
      lines of a slide's text are exactly its non-empty paragraphs, in walk order. */
  lemma SlideTextLines(slide: Slide)
    requires forall i :: 0 <= i < |CollectAll(slide)| ==> '\n' !in CollectAll(slide)[i]
    requires exists i :: 0 <= i < |CollectAll(slide)| && CollectAll(slide)[i] != ""
    ensures Split(SlideText(slide), '\n') == NonEmpty(CollectAll(slide))
  {
    var all := CollectAll(slide);
    var kept := NonEmpty(all);
    var i :| 0 <= i < |all| && all[i] != "";
    assert all[i] in kept;
    forall k | 0 <= k < |kept| ensures '\n' !in kept[k] {
      assert kept[k] in all;
    }
    SplitJoin(kept, '\n');
  }

  /** A group holding two text boxes, with paragraphs `[p, ""]` and `[q]`, gives
      the slide text `p + "\n" + q`: the group's children are walked in order and
      the empty paragraph is dropped. */
  lemma GroupExample(p: string, q: string)
    requires p != "" && q != ""
    ensures SlideText([Shape(None, None, true,
      [Shape(Some([p, ""]), None, false, []), Shape(Some([q]), None, false, [])])]) == p + "\n" + q
  {
    var a := Shape(Some([p, ""]), None, false, []);
    var b := Shape(Some([q]), None, false, []);
    var g := Shape(None, None, true, [a, b]);
    assert Collect(a) == [p, ""];
    assert Collect(b) == [q];
    assert [a][..0] == [];
    assert CollectAll([a]) == [p, ""];
    assert [a, b][..1] == [a];
    assert CollectAll([a, b]) == [p, "", q];
    assert Collect(g) == [p, "", q];
    assert [g][..0] == [];
    assert CollectAll([g]) == [p, "", q];
    assert [p, "", q][..2] == [p, ""];
    assert [p, ""][..1] == [p];
    assert [p][..0] == [];
    assert NonEmpty([p]) == [p];
    assert NonEmpty([p, ""]) == [p];
    assert NonEmpty([p, "", q]) == [p, q];
    assert Join([p, q], "\n") == p + "\n" + q;
  }

  /** The walk reads a two-by-two table of one-paragraph cells row by row, left
      to right. */
  lemma TableCollected(a: string, b: string, c: string, d: string)
    ensures CollectAll([Shape(None, Some([[[a], [b]], [[c], [d]]]), false, [])]) == [a, b, c, d]
  {
    var row1: seq<seq<string>> := [[a], [b]];
    var row2: seq<seq<string>> := [[c], [d]];
    var t := Shape(None, Some([row1, row2]), false, []);
    assert row1[..1] == [[a]] && [[a]][..0] == [];
    assert Flatten([[a]]) == [a];
    assert Flatten(row1) == [a, b];
    assert row2[..1] == [[c]] && [[c]][..0] == [];
    assert Flatten([[c]]) == [c];
    assert Flatten(row2) == [c, d];
    assert [row1, row2][..1] == [row1];
    assert [row1][..0] == [];
    assert TableParagraphs([row1]) == [a, b];
    assert TableParagraphs([row1, row2]) == [a, b, c, d];
    assert Collect(t) == [a, b, c, d];
    assert [t][..0] == [];
  }

  /** A two-by-two table of non-empty one-paragraph cells gives its cells' texts
      row by row, one per line. */
  lemma TableExample(a: string, b: string, c: string, d: string)
    requires a != "" && b != "" && c != "" && d != ""
    ensures SlideText([Shape(None, Some([[[a], [b]], [[c], [d]]]), false, [])])
      == a + "\n" + b + "\n" + c + "\n" + d
  {
    TableCollected(a, b, c, d);
    var all := [a, b, c, d];
    NonEmptyKeepsAll(all);
    assert all[1..] == [b, c, d] && all[1..][1..] == [c, d] && all[1..][1..][1..] == [d];
    assert Join([c, d], "\n") == c + "\n" + d;
    assert Join([b, c, d], "\n") == b + "\n" + (c + "\n" + d);
  }
}
