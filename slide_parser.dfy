/**
 * The line parser of the legacy `.ppt` path: `extract_text_from_ppt_file` (app.py)
 * and `extract_text_ppt` (test/ppt_extractor.py) read the converter's standard
 * output line by line.  A line starting with `--- Slide` closes the pending slide
 * (when it has any lines) and sets the number of the next one; every other line is
 * added to the pending slide; the pending slide is closed once more at the end.
 *
 * `ParserState`, `Step` and `Run` state the loop one line at a time; the method
 * `ParseSlideLines` is the loop itself, proved equal to `ParseDelimited`, and
 * `ParseByBlocks` says what the parser makes of well-formed input as a whole.
 */
module SlideParser {
  import opened Wrappers
  import opened Text
  import opened Records

  /** `line.startswith("--- Slide")`. */
  predicate IsMarker(line: string)
  {
    StartsWith(line, "--- Slide")
  }

  /** `int(line.replace("--- Slide", "").replace("---", "").strip())`, `None` where
      `int` raises. */
  function MarkerNumber(line: string): Option<int>
  {
    ParseInt(Strip(ReplaceAll(ReplaceAll(line, "--- Slide", ""), "---", "")))
  }

  /** A marker line whose number does not parse: the `ValueError` of `int()`. */
  datatype ParseError = MalformedMarker(line: string)

  /** The three variables of the loop. */
  datatype ParserState = ParserState(
    currentSlide: int,             // `current_slide`
    slideLines: seq<string>,       // `slide_lines`, the pending slide
    slidesText: seq<SlideRecord>)  // `slides_text`, the records so far

  /** The state before the first line. */
  const Start: ParserState := ParserState(0, [], [])

  /** The record of a pending slide: there is one only when the slide has at
      least one line (possibly an empty one). */
  function PendingRecord(number: int, slideLines: seq<string>): seq<SlideRecord>
  {
    if slideLines != [] then [SlideRecord(number, Join(slideLines, "\n"))] else []
  }

  /** The records after closing the pending slide. */
  function Flushed(st: ParserState): seq<SlideRecord>
  {
    st.slidesText + PendingRecord(st.currentSlide, st.slideLines)
  }

  /** One iteration of the loop. */
  function Step(st: ParserState, line: string): Result<ParserState, ParseError>
  {
    if IsMarker(line) then
      match MarkerNumber(line)
      case Some(n) => Ok(ParserState(n, [], Flushed(st)))
      case None => Err(MalformedMarker(line))
    else
      Ok(st.(slideLines := st.slideLines + [line]))
  }

  /** The loop over the remaining lines. */
  function Run(st: ParserState, lines: seq<string>): Result<ParserState, ParseError>
    decreases |lines|
  {
    if lines == [] then Ok(st)
    else
      match Step(st, lines[0])
      case Ok(next) => Run(next, lines[1..])
      case Err(e) => Err(e)
  }

  /** The whole parse: the loop from the start, then the final flush. */
  function ParseDelimited(lines: seq<string>): Result<seq<SlideRecord>, ParseError>
  {
    match Run(Start, lines)
    case Ok(st) => Ok(Flushed(st))
    case Err(e) => Err(e)
  }

  // ---------------------------------------------------------------------------
  // The loop
  // ---------------------------------------------------------------------------

  /** The parsing loop of `extract_text_from_ppt_file` over already split lines. */
  method ParseSlideLines(lines: seq<string>) returns (r: Result<seq<SlideRecord>, ParseError>)
    ensures r == ParseDelimited(lines)
  {
    var slidesText: seq<SlideRecord> := [];
    var currentSlide := 0;
    var slideLines: seq<string> := [];
    for i := 0 to |lines|
      invariant Run(ParserState(currentSlide, slideLines, slidesText), lines[i..]) == Run(Start, lines)
    {
      var line := lines[i];
      assert lines[i..][1..] == lines[i + 1..];
      if IsMarker(line) {
        ghost var before := ParserState(currentSlide, slideLines, slidesText);
        if slideLines != [] {
          slidesText := slidesText + [SlideRecord(currentSlide, Join(slideLines, "\n"))];
          slideLines := [];
        }
        assert slidesText == Flushed(before);
        var number := MarkerNumber(line);
        if number.None? {
          assert Step(before, line) == Err(MalformedMarker(line));
          assert lines[i..][0] == line;
          assert Run(Start, lines) == Err(MalformedMarker(line));
          return Err(MalformedMarker(line));
        }
        currentSlide := number.value;
        assert Step(before, line) == Ok(ParserState(currentSlide, slideLines, slidesText));
      } else {
        slideLines := slideLines + [line];
      }
    }
    assert lines[|lines|..] == [];
    assert Run(Start, lines) == Ok(ParserState(currentSlide, slideLines, slidesText));
    assert ParseDelimited(lines) == Ok(slidesText + PendingRecord(currentSlide, slideLines));
    if slideLines != [] {
      slidesText := slidesText + [SlideRecord(currentSlide, Join(slideLines, "\n"))];
    } else {
      assert slidesText + [] == slidesText;
    }
    r := Ok(slidesText);
  }

  /** What the converter run gave the caller. */
  datatype ConverterRun =
    | ConverterFailed           // `CalledProcessError`: non-zero exit status
    | Finished(stdout: string)  // the captured standard output

  /** `extract_text_from_ppt_file` / `extract_text_ppt` after the process has run: a
      failed run gives no records; otherwise the output's lines are parsed, and a
      malformed marker is an error the function does not catch. */
  method ExtractTextFromPptFile(run: ConverterRun) returns (r: Result<seq<SlideRecord>, ParseError>)
    ensures run.ConverterFailed? ==> r == Ok([])
    ensures run.Finished? ==> r == ParseDelimited(SplitLines(run.stdout))
  {
    if run.ConverterFailed? {
      return Ok([]);
    }
    r := ParseSlideLines(SplitLines(run.stdout));
  }

  // ---------------------------------------------------------------------------
  // Properties of the loop
  // ---------------------------------------------------------------------------

  /** Running over two stretches of lines is running over the first and then,
      from where it stopped, over the second. */
  lemma {:induction false} RunAppend(st: ParserState, a: seq<string>, b: seq<string>)
    ensures Run(st, a + b) == if Run(st, a).Ok? then Run(Run(st, a).value, b) else Run(st, a)
    decreases |a|
  {
    if a == [] {
      assert a + b == b;
    } else {
      assert (a + b)[0] == a[0];
      assert (a + b)[1..] == a[1..] + b;
      if Step(st, a[0]).Ok? {
        RunAppend(Step(st, a[0]).value, a[1..], b);
      }
    }
  }

  /** Lines that are not markers are added, verbatim and in order, to the pending
      slide; nothing else changes. */
  lemma {:induction false} RunBody(st: ParserState, body: seq<string>)
    requires forall i :: 0 <= i < |body| ==> !IsMarker(body[i])
    ensures Run(st, body) == Ok(st.(slideLines := st.slideLines + body))
    decreases |body|
  {
    if body != [] {
      var next := st.(slideLines := st.slideLines + [body[0]]);
      assert !IsMarker(body[0]);
      assert Step(st, body[0]) == Ok(next);
      assert Run(st, body) == Run(next, body[1..]);
      RunBody(next, body[1..]);
      assert st.slideLines + [body[0]] + body[1..] == st.slideLines + body;
    } else {
      assert st.slideLines + body == st.slideLines;
    }
  }

  /** A line with a malformed marker somewhere in the input. */
  predicate Malformed(line: string)
  {
    IsMarker(line) && MarkerNumber(line).None?
  }

  /** The loop fails exactly when some line is a malformed marker. */
  lemma {:induction false} RunErrorIff(st: ParserState, lines: seq<string>)
    ensures Run(st, lines).Err? <==> exists i :: 0 <= i < |lines| && Malformed(lines[i])
    decreases |lines|
  {
    if lines != [] && !Malformed(lines[0]) {
      var next := Step(st, lines[0]).value;
      var rest := lines[1..];
      assert Run(st, lines) == Run(next, rest);
      RunErrorIff(next, rest);
      assert (exists i :: 0 <= i < |lines| && Malformed(lines[i]))
        ==> exists i :: 0 <= i < |rest| && Malformed(rest[i]) by {
        if exists i :: 0 <= i < |lines| && Malformed(lines[i]) {
          var i :| 0 <= i < |lines| && Malformed(lines[i]);
          assert rest[i - 1] == lines[i];
        }
      }
      assert (exists i :: 0 <= i < |rest| && Malformed(rest[i]))
        ==> exists i :: 0 <= i < |lines| && Malformed(lines[i]) by {
        if exists i :: 0 <= i < |rest| && Malformed(rest[i]) {
          var i :| 0 <= i < |rest| && Malformed(rest[i]);
          assert lines[i + 1] == rest[i];
        }
      }
    }
  }

  /** When the loop fails, it reports the first malformed marker. */
  lemma {:induction false} RunErrorFirst(st: ParserState, lines: seq<string>)
    ensures Run(st, lines).Err? ==>
      (exists k :: 0 <= k < |lines| && Malformed(lines[k])
         && Run(st, lines).error == MalformedMarker(lines[k])
         && forall i :: 0 <= i < k ==> !Malformed(lines[i]))
    decreases |lines|
  {
    if lines != [] {
      if Malformed(lines[0]) {
        assert Run(st, lines) == Err(MalformedMarker(lines[0]));
      } else {
        var next := Step(st, lines[0]).value;
        var rest := lines[1..];
        assert Run(st, lines) == Run(next, rest);
        RunErrorFirst(next, rest);
        if Run(next, rest).Err? {
          var k :| 0 <= k < |rest| && Malformed(rest[k])
            && Run(next, rest).error == MalformedMarker(rest[k])
            && forall i :: 0 <= i < k ==> !Malformed(rest[i]);
          assert lines[k + 1] == rest[k];
          assert forall i :: 1 <= i < k + 1 ==> lines[i] == rest[i - 1];
        }
      }
    }
  }

  /** `extract_text_ppt` raises exactly when a marker's number does not parse, and
      the error names the first such marker. */
  lemma ParseErrorIff(lines: seq<string>)
    ensures ParseDelimited(lines).Err? <==> exists i :: 0 <= i < |lines| && Malformed(lines[i])
    ensures ParseDelimited(lines).Err? ==>
      (exists k :: 0 <= k < |lines| && Malformed(lines[k])
         && ParseDelimited(lines).error == MalformedMarker(lines[k])
         && forall i :: 0 <= i < k ==> !Malformed(lines[i]))
  {
    RunErrorIff(Start, lines);
    RunErrorFirst(Start, lines);
  }

  // ---------------------------------------------------------------------------
  // The parse of well-formed input, block by block
  // ---------------------------------------------------------------------------

  /** A marker line, the number it is meant to carry, and the lines after it up
      to the next marker. */
  datatype Block = Block(marker: string, number: int, body: seq<string>)

  /** A well-formed block: its marker parses to its number and its body holds no
      marker. */
  predicate WellFormed(b: Block)
  {
    IsMarker(b.marker) && MarkerNumber(b.marker) == Some(b.number)
    && forall i :: 0 <= i < |b.body| ==> !IsMarker(b.body[i])
  }

  /** The lines of a sequence of blocks, in order. */
  function BlockLines(bs: seq<Block>): seq<string>
  {
    if bs == [] then []
    else BlockLines(bs[..|bs| - 1]) + [bs[|bs| - 1].marker] + bs[|bs| - 1].body
  }

  /** The records of a sequence of blocks, in order: one per block whose body has
      at least one line. */
  function BlockRecords(bs: seq<Block>): seq<SlideRecord>
  {
    if bs == [] then []
    else BlockRecords(bs[..|bs| - 1]) + PendingRecord(bs[|bs| - 1].number, bs[|bs| - 1].body)
  }

  /** The record of the lines before the first marker: slide 0. */
  function PreambleRecord(pre: seq<string>): seq<SlideRecord>
  {
    PendingRecord(0, pre)
  }

  /** The state after the preamble and the blocks. */
  function StateAfter(pre: seq<string>, bs: seq<Block>): ParserState
  {
    if bs == [] then ParserState(0, pre, [])
    else ParserState(bs[|bs| - 1].number, bs[|bs| - 1].body, PreambleRecord(pre) + BlockRecords(bs[..|bs| - 1]))
  }

  /** A well-formed block closes the pending slide and leaves its body pending
      under its number. */
  lemma RunBlock(st: ParserState, b: Block)
    requires WellFormed(b)
    ensures Run(st, [b.marker] + b.body) == Ok(ParserState(b.number, b.body, Flushed(st)))
  {
    var atMarker := ParserState(b.number, [], Flushed(st));
    assert [b.marker][1..] == [];
    assert Run(st, [b.marker]) == Ok(atMarker);
    RunAppend(st, [b.marker], b.body);
    RunBody(atMarker, b.body);
    assert [] + b.body == b.body;
  }

  /** Closing the state after the preamble and the blocks gives their records. */
  lemma FlushedAfter(pre: seq<string>, bs: seq<Block>)
    ensures Flushed(StateAfter(pre, bs)) == PreambleRecord(pre) + BlockRecords(bs)
  {
    if bs != [] {
      var init := bs[..|bs| - 1];
      var last := bs[|bs| - 1];
      assert PreambleRecord(pre) + BlockRecords(init) + PendingRecord(last.number, last.body)
        == PreambleRecord(pre) + (BlockRecords(init) + PendingRecord(last.number, last.body));
    }
  }

  /** One more well-formed block moves the parser from the state after the
      blocks before it to the state after it. */
  lemma RunBlocksSnoc(pre: seq<string>, bs: seq<Block>)
    requires bs != [] && WellFormed(bs[|bs| - 1])
    requires Run(Start, pre + BlockLines(bs[..|bs| - 1])) == Ok(StateAfter(pre, bs[..|bs| - 1]))
    ensures Run(Start, pre + BlockLines(bs)) == Ok(StateAfter(pre, bs))
  {
    var last := bs[|bs| - 1];
    var head := pre + BlockLines(bs[..|bs| - 1]);
    var tail := [last.marker] + last.body;
    var mid := StateAfter(pre, bs[..|bs| - 1]);
    BlockLinesSnoc(pre, bs);
    RunAppend(Start, head, tail);
    RunBlock(mid, last);
    StateAfterSnoc(pre, bs);
  }

  /** The lines of one more block follow those of the blocks before it. */
  lemma BlockLinesSnoc(pre: seq<string>, bs: seq<Block>)
    requires bs != []
    ensures pre + BlockLines(bs)
      == (pre + BlockLines(bs[..|bs| - 1])) + ([bs[|bs| - 1].marker] + bs[|bs| - 1].body)
  {
    var last := bs[|bs| - 1];
    assert BlockLines(bs) == BlockLines(bs[..|bs| - 1]) + [last.marker] + last.body;
    var front := BlockLines(bs[..|bs| - 1]);
    ConcatAssoc(pre, front, [last.marker]);
    ConcatAssoc(pre, front + [last.marker], last.body);
    ConcatAssoc(pre + front, [last.marker], last.body);
  }

  /** After one more block, its body is pending and the earlier state is closed. */
  lemma StateAfterSnoc(pre: seq<string>, bs: seq<Block>)
    requires bs != []
    ensures StateAfter(pre, bs)
      == ParserState(bs[|bs| - 1].number, bs[|bs| - 1].body, Flushed(StateAfter(pre, bs[..|bs| - 1])))
  {
    FlushedAfter(pre, bs[..|bs| - 1]);
  }

  lemma {:induction false} RunBlocks(pre: seq<string>, bs: seq<Block>)
    requires forall i :: 0 <= i < |pre| ==> !IsMarker(pre[i])
    requires forall i :: 0 <= i < |bs| ==> WellFormed(bs[i])
    ensures Run(Start, pre + BlockLines(bs)) == Ok(StateAfter(pre, bs))
  {
    if bs == [] {
      assert pre + BlockLines(bs) == pre;
      RunBody(Start, pre);
      assert [] + pre == pre;
    } else {
      var init := bs[..|bs| - 1];
      assert forall i :: 0 <= i < |init| ==> init[i] == bs[i];
      RunBlocks(pre, init);
      RunBlocksSnoc(pre, bs);
    }
  }

  /** Well-formed input parses to the preamble's record (slide 0), when there are
      lines before the first marker, followed by one record per block whose body
      has at least one line, numbered as its marker says, with the body's lines
      joined by newlines.  A marker followed directly by another marker or by the
      end contributes nothing. */
  lemma ParseByBlocks(pre: seq<string>, bs: seq<Block>)
    requires forall i :: 0 <= i < |pre| ==> !IsMarker(pre[i])
    requires forall i :: 0 <= i < |bs| ==> WellFormed(bs[i])
    ensures ParseDelimited(pre + BlockLines(bs)) == Ok(PreambleRecord(pre) + BlockRecords(bs))
  {
    RunBlocks(pre, bs);
    FlushedAfter(pre, bs);
  }

  // ---------------------------------------------------------------------------
  // Marker lines
  // ---------------------------------------------------------------------------

  /** A pattern that holds a character the text lacks is never replaced. */
  lemma ReplaceAllAbsent(s: string, pat: string, rep: string, k: nat)
    requires k < |pat| && pat[k] !in s
    ensures ReplaceAll(s, pat, rep) == s
  {
    assert s + [] == s;
    forall p | 0 <= p < |s| ensures !StartsWith((s + [])[p..], pat) {
      if p + k < |s| {
        assert s[p + k] in s;
      }
    }
    ReplaceAllSkip(s, [], pat, rep);
    assert s + [] == s;
  }

  /** The text of a number as `str` writes it: digits, a leading minus sign at
      most, and a digit last. */
  predicate NumberText(d: string)
  {
    |d| >= 1 && d[|d| - 1] != '-'
    && forall k :: 0 <= k < |d| ==> IsDigit(d[k]) || (k == 0 && d[k] == '-')
  }

  /** The first replacement of a marker line removes its `--- Slide` prefix. */
  lemma DropSlideTag(d: string)
    requires NumberText(d)
    ensures ReplaceAll("--- Slide" + (" " + d + " ---"), "--- Slide", "") == " " + d + " ---"
  {
    var rest := " " + d + " ---";
    var line := "--- Slide" + rest;
    assert line[..9] == "--- Slide" && line[9..] == rest;
    assert 'S' !in rest by {
      forall k | 0 <= k < |rest| ensures rest[k] != 'S' {
        if 1 <= k <= |d| {
          assert rest[k] == d[k - 1];
        }
      }
    }
    ReplaceAllAbsent(rest, "--- Slide", "", 4);
  }

  /** The second replacement removes the closing `---` and leaves the number,
      which holds at most one `-`, in place. */
  lemma DropClosingDashes(d: string)
    requires NumberText(d)
    ensures ReplaceAll(" " + d + " ---", "---", "") == " " + d + " "
  {
    var a := " " + d + " ";
    assert " " + d + " ---" == a + "---";
    var t := a + "---";
    forall p | 0 <= p < |a| ensures !StartsWith(t[p..], "---") {
      // an offset within the first three characters at `p` that is not a dash
      var j := if p == 1 && d[0] == '-' then 1 else 0;
      if p == 1 && d[0] == '-' {
        assert |d| >= 2;
        assert t[2] == d[1];
      } else if 1 <= p <= |d| {
        assert t[p] == d[p - 1];
      }
      assert t[p + j] != '-';
      assert t[p..][..3][j] == t[p + j];
      assert "---"[j] == '-';
    }
    ReplaceAllSkip(a, "---", "---", "");
    assert "---"[..3] == "---" && "---"[3..] == "";
    assert ReplaceAll("---", "---", "") == "";
  }

  /** The marker line `"--- Slide N ---"` is a marker, and its number is `N`. */
  lemma MarkerLineParses(n: int)
    ensures IsMarker(MarkerLine(n))
    ensures MarkerNumber(MarkerLine(n)) == Some(n)
  {
    var d := IntToString(n);
    assert MarkerLine(n) == "--- Slide" + (" " + d + " ---");
    assert MarkerLine(n)[..9] == "--- Slide";
    DropSlideTag(d);
    DropClosingDashes(d);
    StripPadded(" ", d, " ");
    assert " " + d + " " == " " + d + " ";
    ParseIntToString(n);
  }

  /** The three blocks of `ParseExample`. */
  function ExampleBlocks(m1: string, n1: int, m2: string, n2: int, m3: string, n3: int): seq<Block>
  {
    [Block(m1, n1, ["A", ""]), Block(m2, n2, []), Block(m3, n3, [""])]
  }

  lemma ExampleLayout(m1: string, n1: int, m2: string, n2: int, m3: string, n3: int)
    ensures BlockLines(ExampleBlocks(m1, n1, m2, n2, m3, n3)) == [m1, "A", "", m2, m3, ""]
    ensures BlockRecords(ExampleBlocks(m1, n1, m2, n2, m3, n3)) == [SlideRecord(n1, "A\n"), SlideRecord(n3, "")]
  {
    var bs := ExampleBlocks(m1, n1, m2, n2, m3, n3);
    var b1 := bs[0];
    var b2 := bs[1];
    assert bs[..2] == [b1, b2] && bs[..2][..1] == [b1] && bs[..1][..0] == [];
    assert BlockLines([b1]) == [m1, "A", ""];
    assert BlockLines([b1, b2]) == [m1, "A", "", m2];
    assert Join(["A", ""], "\n") == "A\n";
    assert BlockRecords([b1]) == [SlideRecord(n1, "A\n")];
    assert BlockRecords([b1, b2]) == [SlideRecord(n1, "A\n")];
  }

  /** Output with two lines before any marker, a slide with a text line and a
      blank line, an empty slide and a slide holding only a blank line parses to
      the preamble as slide 0, then the first and the third slide under the
      numbers their markers carry, whatever they are; the empty slide vanishes.
      `MarkerLine(n)` is such a marker for every `n`. */
  lemma ParseExample(m1: string, n1: int, m2: string, n2: int, m3: string, n3: int)
    requires IsMarker(m1) && MarkerNumber(m1) == Some(n1)
    requires IsMarker(m2) && MarkerNumber(m2) == Some(n2)
    requires IsMarker(m3) && MarkerNumber(m3) == Some(n3)
    ensures ParseDelimited(["usage", "x", m1, "A", "", m2, m3, ""])
      == Ok([SlideRecord(0, "usage\nx"), SlideRecord(n1, "A\n"), SlideRecord(n3, "")])
  {
    var pre := ["usage", "x"];
    var bs := ExampleBlocks(m1, n1, m2, n2, m3, n3);
    assert !IsMarker("A") && !IsMarker("") && !IsMarker("usage") && !IsMarker("x");
    assert WellFormed(bs[0]) && WellFormed(bs[1]) && WellFormed(bs[2]);
    ExampleLayout(m1, n1, m2, n2, m3, n3);
    ParseByBlocks(pre, bs);
    assert Join(pre, "\n") == "usage\nx";
    assert PreambleRecord(pre) == [SlideRecord(0, "usage\nx")];
    assert pre + BlockLines(bs) == ["usage", "x", m1, "A", "", m2, m3, ""];
    assert PreambleRecord(pre) + BlockRecords(bs)
      == [SlideRecord(0, "usage\nx"), SlideRecord(n1, "A\n"), SlideRecord(n3, "")];
  }
}
