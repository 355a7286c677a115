/**
 * `save_to_txt` of test/ppt_extractor.py: the records are written, in order, each
 * as its marker line, its text and a blank line.  The output directory and the
 * file name are left out; the file is a `TextFile` whose content grows by `write`.
 *
 * The written text is printed sections in the sense of `DelimitedFormat`, one
 * section per record holding the record's text as its only unit, so the parser
 * reads a saved file back record by record (`SaveRoundTrip`), each text gaining
 * the newline of its blank line.
 */
module SaveTxt {
  import opened Wrappers
  import opened Text
  import opened Records
  import opened SlideParser
  import opened DelimitedFormat

  /** An open text file: what has been written so far. */
  class TextFile {
    var content: string

    constructor ()
      ensures content == ""
    {
      content := "";
    }

    /** `f.write(s)`. */
    method Write(s: string)
      modifies this
      ensures content == old(content) + s
    {
      content := content + s;
    }
  }

  /** What `save_to_txt` writes for one record. */
  function RecordText(r: SlideRecord): string
  {
    MarkerLine(r.slide) + "\n" + r.text + "\n\n"
  }

  /** What `save_to_txt` writes for the records. */
  function SavedText(rs: seq<SlideRecord>): string
  {
    if rs == [] then "" else SavedText(rs[..|rs| - 1]) + RecordText(rs[|rs| - 1])
  }

  /** The three writes of the loop body: the marker line, the text and the blank
      line that ends the record. */
  method WriteRecord(r: SlideRecord, f: TextFile)
    modifies f
    ensures f.content == old(f.content) + RecordText(r)
  {
    var marker := MarkerLine(r.slide) + "\n";
    f.Write(marker);
    f.Write(r.text);
    f.Write("\n\n");
    ConcatAssoc(old(f.content), marker, r.text);
    ConcatAssoc(old(f.content), marker + r.text, "\n\n");
  }

  /** One more record adds its text at the end. */
  lemma SavedTextSnoc(rs: seq<SlideRecord>, i: nat)
    requires i < |rs|
    ensures SavedText(rs[..i + 1]) == SavedText(rs[..i]) + RecordText(rs[i])
  {
    assert rs[..i + 1][..i] == rs[..i];
  }

  /** The loop of `save_to_txt`: three writes per record, in record order, and
      nothing else. */
  method SaveToTxt(textData: seq<SlideRecord>, f: TextFile)
    modifies f
    ensures f.content == old(f.content) + SavedText(textData)
  {
    for i := 0 to |textData|
      invariant f.content == old(f.content) + SavedText(textData[..i])
    {
      ghost var saved := SavedText(textData[..i]);
      ghost var next := RecordText(textData[i]);
      WriteRecord(textData[i], f);
      SavedTextSnoc(textData, i);
      ConcatAssoc(old(f.content), saved, next);
    }
    assert textData[..|textData|] == textData;
  }

  /** A record seen as a printed section: its text is the only unit. */
  function RecordSections(rs: seq<SlideRecord>): (ss: seq<Section>)
    ensures |ss| == |rs|
    ensures forall i :: 0 <= i < |rs| ==> ss[i] == Section(rs[i].slide, [rs[i].text])
  {
    if rs == [] then []
    else RecordSections(rs[..|rs| - 1]) + [Section(rs[|rs| - 1].slide, [rs[|rs| - 1].text])]
  }

  /** Printing the three units of a record's section after earlier units. */
  lemma PrintedRecord(before: seq<string>, m: string, t: string)
    ensures PrintedText(before + [m, t, ""]) == PrintedText(before) + (m + "\n" + t + "\n\n")
  {
    var u1 := before + [m];
    var u2 := u1 + [t];
    assert before + [m, t, ""] == u2 + [""];
    assert PrintedText(u2 + [""]) == PrintedText(u2) + "" + "\n" by {
      assert (u2 + [""])[..|u2|] == u2;
    }
    assert PrintedText(u2) == PrintedText(u1) + t + "\n" by {
      assert (u1 + [t])[..|u1|] == u1;
    }
    assert PrintedText(u1) == PrintedText(before) + m + "\n" by {
      assert (before + [m])[..|before|] == before;
    }
  }

  /** The saved text is the printed form of the records' sections. */
  lemma {:induction false} SavedTextPrinted(rs: seq<SlideRecord>)
    ensures SavedText(rs) == PrintedText(SectionUnits(RecordSections(rs)))
  {
    if rs != [] {
      var init := rs[..|rs| - 1];
      var r := rs[|rs| - 1];
      var ss := RecordSections(rs);
      var before := SectionUnits(RecordSections(init));
      assert SectionUnits(ss) == before + [MarkerLine(r.slide), r.text, ""] by {
        assert ss[..|ss| - 1] == RecordSections(init);
      }
      SavedTextPrinted(init);
      PrintedRecord(before, MarkerLine(r.slide), r.text);
    }
  }

  /** No line of the text is taken for a marker when read back. */
  predicate NoMarkerText(t: string)
  {
    forall k :: 0 <= k < |Split(t, '\n')| ==> !IsMarker(Split(t, '\n')[k])
  }

  /** Reading a saved file back with the parser of `extract_text_ppt` gives the
      records again, in order and with their numbers, each text followed by the
      newline of its blank line; provided no line of a text starts with
      `--- Slide`. */
  lemma SaveRoundTrip(rs: seq<SlideRecord>)
    requires forall i :: 0 <= i < |rs| ==> NoMarkerText(rs[i].text)
    ensures ParseDelimited(SplitLines(SavedText(rs))).Ok?
    ensures var back := ParseDelimited(SplitLines(SavedText(rs))).value;
      |back| == |rs| &&
      forall i :: 0 <= i < |rs| ==> back[i] == SlideRecord(rs[i].slide, rs[i].text + "\n")
  {
    var ss := RecordSections(rs);
    assert forall i :: 0 <= i < |ss| ==> NoMarkerLines(ss[i]) by {
      forall i | 0 <= i < |ss| ensures NoMarkerLines(ss[i]) {
        RecordSectionLines(rs[i]);
      }
    }
    assert ParseDelimited(SplitLines(SavedText(rs))) == Ok(SectionRecords(ss)) by {
      SavedTextPrinted(rs);
      ParsePrintedSections(ss);
    }
    SectionRecordsIndex(ss);
    forall i | 0 <= i < |rs| ensures SectionText(ss[i]) == rs[i].text + "\n" {
      RecordSectionText(rs[i]);
    }
  }

  lemma RecordSectionLines(r: SlideRecord)
    requires NoMarkerText(r.text)
    ensures NoMarkerLines(Section(r.slide, [r.text]))
  {
    assert [r.text][..0] == [];
    assert SplitAll([r.text]) == Split(r.text, '\n');
  }

  lemma RecordSectionText(r: SlideRecord)
    ensures SectionText(Section(r.slide, [r.text])) == r.text + "\n"
  {
    var parts := [r.text] + [""];
    assert parts[1..] == [""];
    assert Join(parts, "\n") == r.text + "\n" + Join([""], "\n");
    assert r.text + "\n" + "" == r.text + "\n";
  }
}
