/**
 * The delimited slide-text format, as its two writers produce it: the converter
 * (`PptTextExtractor.main`) prints, per slide, a marker line, then text units one
 * `println` each, then an empty line; `save_to_txt` writes, per record, a marker
 * line, the text and a blank line.  Both are a sequence of sections, each printed
 * as `[marker] + texts + [""]`, one unit per line.
 *
 * `ParsePrintedSections` reads such output back with the parser of `SlideParser`:
 * one record per section, in order, numbered as written, whose text is the
 * section's units joined with newlines plus the newline of the closing empty line.
 */
module DelimitedFormat {
  import opened Wrappers
  import opened Text
  import opened Records
  import opened SlideParser

  /** A slide number and the text units printed under its marker. */
  datatype Section = Section(number: int, texts: seq<string>)

  /** The units printed for a sequence of sections, one `println` each. */
  function SectionUnits(ss: seq<Section>): seq<string>
  {
    if ss == [] then []
    else
      var s := ss[|ss| - 1];
      SectionUnits(ss[..|ss| - 1]) + [MarkerLine(s.number)] + s.texts + [""]
  }

  /** The text a section reads back as: its units, then the closing empty line,
      joined with newlines. */
  function SectionText(s: Section): string
  {
    Join(s.texts + [""], "\n")
  }

  /** A section reads back as its units joined with newlines, plus one newline;
      a section without units reads back as the empty text. */
  lemma SectionTextForm(s: Section)
    ensures s.texts == [] ==> SectionText(s) == ""
    ensures s.texts != [] ==> SectionText(s) == Join(s.texts, "\n") + "\n"
  {
    if s.texts == [] {
      assert s.texts + [""] == [""];
    } else {
      JoinAppend(s.texts, [""], "\n");
    }
  }

  /** The records a sequence of sections reads back as. */
  function SectionRecords(ss: seq<Section>): seq<SlideRecord>
  {
    if ss == [] then []
    else SectionRecords(ss[..|ss| - 1]) + [SlideRecord(ss[|ss| - 1].number, SectionText(ss[|ss| - 1]))]
  }

  /** One record per section, in order, numbered as the section. */
  lemma {:induction false} SectionRecordsIndex(ss: seq<Section>)
    ensures |SectionRecords(ss)| == |ss|
    ensures forall i :: 0 <= i < |ss| ==>
      SectionRecords(ss)[i] == SlideRecord(ss[i].number, SectionText(ss[i]))
  {
    if ss != [] {
      SectionRecordsIndex(ss[..|ss| - 1]);
    }
  }

  /** No line of the section's printed units is taken for a marker. */
  predicate NoMarkerLines(s: Section)
  {
    forall i :: 0 <= i < |SplitAll(s.texts)| ==> !IsMarker(SplitAll(s.texts)[i])
  }

  /** The parser's view of a section: its marker and the lines up to the next. */
  function SectionBlock(s: Section): Block
  {
    Block(MarkerLine(s.number), s.number, SplitAll(s.texts) + [""])
  }

  function SectionBlocks(ss: seq<Section>): (bs: seq<Block>)
    ensures |bs| == |ss|
    ensures forall i :: 0 <= i < |ss| ==> bs[i] == SectionBlock(ss[i])
  {
    if ss == [] then [] else SectionBlocks(ss[..|ss| - 1]) + [SectionBlock(ss[|ss| - 1])]
  }

  /** A marker line holds no line break. */
  lemma MarkerLineOneLine(n: int)
    ensures Split(MarkerLine(n), '\n') == [MarkerLine(n)]
  {
    var d := IntToString(n);
    forall k | 0 <= k < |MarkerLine(n)| ensures MarkerLine(n)[k] != '\n' {
      if 10 <= k < 10 + |d| {
        assert MarkerLine(n)[k] == d[k - 10];
      }
    }
    SplitNoSep(MarkerLine(n), '\n');
  }

  /** Splitting the units of one more section at their line breaks. */
  lemma SplitSectionUnits(before: seq<string>, marker: string, texts: seq<string>)
    requires Split(marker, '\n') == [marker]
    ensures SplitAll(before + [marker] + texts + [""])
      == SplitAll(before) + [marker] + (SplitAll(texts) + [""])
  {
    var withMarker := before + [marker];
    var withTexts := withMarker + texts;
    assert SplitAll(withTexts + [""]) == SplitAll(withTexts) + [""] by {
      SplitNoSep("", '\n');
      assert [""][..0] == [];
      SplitAllAppend(withTexts, [""]);
    }
    assert SplitAll(withTexts) == SplitAll(withMarker) + SplitAll(texts) by {
      SplitAllAppend(withMarker, texts);
    }
    assert SplitAll(withMarker) == SplitAll(before) + [marker] by {
      assert [marker][..0] == [];
      SplitAllAppend(before, [marker]);
    }
    assert SplitAll(before) + [marker] + SplitAll(texts) + [""]
      == SplitAll(before) + [marker] + (SplitAll(texts) + [""]);
  }

  /** The printed lines of sections are the lines of their blocks. */
  lemma {:induction false} SectionLines(ss: seq<Section>)
    ensures SplitAll(SectionUnits(ss)) == BlockLines(SectionBlocks(ss))
  {
    if ss != [] {
      var init := ss[..|ss| - 1];
      var s := ss[|ss| - 1];
      SectionLines(init);
      var bs := SectionBlocks(ss);
      assert bs[..|bs| - 1] == SectionBlocks(init);
      MarkerLineOneLine(s.number);
      SplitSectionUnits(SectionUnits(init), MarkerLine(s.number), s.texts);
    }
  }

  /** Splitting the units at their line breaks does not change the text a
      section reads back as. */
  lemma SectionTextSplit(s: Section)
    ensures Join(SplitAll(s.texts) + [""], "\n") == SectionText(s)
  {
    if s.texts != [] {
      var last := s.texts[|s.texts| - 1];
      assert |SplitAll(s.texts)| >= 1 by {
        assert SplitAll(s.texts) == SplitAll(s.texts[..|s.texts| - 1]) + Split(last, '\n');
      }
      JoinAppend(SplitAll(s.texts), [""], "\n");
      JoinAppend(s.texts, [""], "\n");
      JoinSplitAll(s.texts);
    } else {
      assert SplitAll(s.texts) + [""] == s.texts + [""];
    }
  }

  /** The blocks of the sections parse to the sections' records. */
  lemma {:induction false} SectionBlockRecords(ss: seq<Section>)
    ensures BlockRecords(SectionBlocks(ss)) == SectionRecords(ss)
  {
    if ss != [] {
      var init := ss[..|ss| - 1];
      var s := ss[|ss| - 1];
      SectionBlockRecords(init);
      var bs := SectionBlocks(ss);
      assert bs[..|bs| - 1] == SectionBlocks(init);
      SectionTextSplit(s);
      assert PendingRecord(s.number, SplitAll(s.texts) + [""]) == [SlideRecord(s.number, SectionText(s))];
    }
  }

  /** The block of a section whose lines hold no marker is well formed. */
  lemma SectionBlockWellFormed(s: Section)
    requires NoMarkerLines(s)
    ensures WellFormed(SectionBlock(s))
  {
    MarkerLineParses(s.number);
    var body := SplitAll(s.texts) + [""];
    assert !IsMarker("");
    forall k | 0 <= k < |body| ensures !IsMarker(body[k]) {
      if k < |SplitAll(s.texts)| {
        assert body[k] == SplitAll(s.texts)[k];
      }
    }
  }

  /** The blocks of sections whose lines hold no marker are all well formed. */
  lemma SectionBlocksWellFormed(ss: seq<Section>)
    requires forall i :: 0 <= i < |ss| ==> NoMarkerLines(ss[i])
    ensures forall i :: 0 <= i < |ss| ==> WellFormed(SectionBlocks(ss)[i])
  {
    forall i | 0 <= i < |ss| ensures WellFormed(SectionBlocks(ss)[i]) {
      SectionBlockWellFormed(ss[i]);
    }
  }

  /** Well-formed blocks with nothing before them parse to their records. */
  lemma ParseBlocksAlone(bs: seq<Block>)
    requires forall i :: 0 <= i < |bs| ==> WellFormed(bs[i])
    ensures ParseDelimited(BlockLines(bs)) == Ok(BlockRecords(bs))
  {
    ParseByBlocks([], bs);
    assert [] + BlockLines(bs) == BlockLines(bs);
    assert PreambleRecord([]) + BlockRecords(bs) == BlockRecords(bs);
  }

  /** Reading printed sections back: one record per section, in order, with the
      section's number and `SectionText`, provided no printed line of a section's
      texts starts with `--- Slide`.  A section without texts still gives a record,
      with the empty text, because of its closing empty line. */
  lemma ParsePrintedSections(ss: seq<Section>)
    requires forall i :: 0 <= i < |ss| ==> NoMarkerLines(ss[i])
    ensures ParseDelimited(SplitLines(PrintedText(SectionUnits(ss)))) == Ok(SectionRecords(ss))
  {
    var bs := SectionBlocks(ss);
    SplitLinesPrinted(SectionUnits(ss));
    SectionLines(ss);
    SectionBlocksWellFormed(ss);
    ParseBlocksAlone(bs);
    SectionBlockRecords(ss);
  }
}
