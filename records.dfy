/** What both extraction paths return, and the delimiter line of the text format. */
module Records {
  import opened Text

  /** One extracted slide: `{"slide": n, "text": t}` in app.py, `(n, t)` in
      test/ppt_extractor.py. */
  datatype SlideRecord = SlideRecord(slide: int, text: string)

  /** The line `--- Slide N ---` that opens a slide's block, as the Java converter
      prints it and as `save_to_txt` writes it. */
  function MarkerLine(n: int): string
  {
    "--- Slide " + IntToString(n) + " ---"
  }
}
