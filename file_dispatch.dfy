/**
 * Choosing the extraction path by file extension.  The HTTP endpoint of app.py
 * takes `.ppt` to the Java converter, `.pptx` to python-pptx and refuses the
 * rest; the script test/ppt_extractor.py takes `.ppt` to the Java converter and
 * everything else to python-pptx.  Both compare the lower-cased extension that
 * `os.path.splitext` finds.
 */
module FileDispatch {
  import opened Text

  /** The index of the last character of `p` that is in `cs`, or -1. */
  function RFind(p: string, cs: set<char>): (i: int)
    ensures -1 <= i < |p|
  {
    if p == [] then -1
    else if p[|p| - 1] in cs then |p| - 1
    else RFind(p[..|p| - 1], cs)
  }

  lemma {:induction false} RFindSpec(p: string, cs: set<char>)
    ensures RFind(p, cs) >= 0 ==> p[RFind(p, cs)] in cs
    ensures forall j :: RFind(p, cs) < j < |p| ==> p[j] !in cs
  {
    if p != [] && p[|p| - 1] !in cs {
      RFindSpec(p[..|p| - 1], cs);
    }
  }

  /** `os.path.splitext(p)`, where `seps` are the path separators: `{'/'}` for
      posixpath, `{'\\', '/'}` for ntpath.  The extension runs from the last dot
      of the last path component, unless only dots precede that dot within the
      component; otherwise it is empty. */
  function SplitExt(p: string, seps: set<char>): (string, string)
  {
    var sepIndex := RFind(p, seps);
    var dotIndex := RFind(p, {'.'});
    if dotIndex > sepIndex && exists k :: sepIndex < k < dotIndex && p[k] != '.' then
      (p[..dotIndex], p[dotIndex..])
    else
      (p, "")
  }

  /** `splitext` splits: root and extension put back together give the path, and
      a non-empty extension is one dot followed by neither dots nor separators. */
  lemma SplitExtSpec(p: string, seps: set<char>)
    ensures SplitExt(p, seps).0 + SplitExt(p, seps).1 == p
    ensures var ext := SplitExt(p, seps).1;
      ext == [] || (ext[0] == '.' && forall j :: 1 <= j < |ext| ==> ext[j] != '.' && ext[j] !in seps)
  {
    RFindSpec(p, seps);
    RFindSpec(p, {'.'});
    var ext := SplitExt(p, seps).1;
    var dotIndex := RFind(p, {'.'});
    if ext != [] {
      forall j | 1 <= j < |ext| ensures ext[j] != '.' && ext[j] !in seps {
        assert ext[j] == p[dotIndex + j];
      }
    }
  }

  /** A name `stem.e` whose stem ends in neither a dot nor a separator, and whose
      `e` holds neither, has the extension `.e`. */
  lemma ExtOfName(stem: string, e: string, seps: set<char>)
    requires '.' !in seps
    requires stem != [] && stem[|stem| - 1] != '.' && stem[|stem| - 1] !in seps
    requires '.' !in e && forall j :: 0 <= j < |e| ==> e[j] !in seps
    ensures SplitExt(stem + "." + e, seps).1 == "." + e
  {
    var p := stem + "." + e;
    RFindSpec(p, seps);
    RFindSpec(p, {'.'});
    var dotIndex := RFind(p, {'.'});
    var sepIndex := RFind(p, seps);
    assert p[|stem|] == '.';
    assert dotIndex == |stem| by {
      forall j | |stem| < j < |p| ensures p[j] != '.' {
        assert p[j] == e[j - |stem| - 1];
      }
    }
    assert sepIndex < |stem| - 1 by {
      forall j | |stem| - 1 <= j < |p| ensures p[j] !in seps {
        if j > |stem| {
          assert p[j] == e[j - |stem| - 1];
        } else if j == |stem| - 1 {
          assert p[j] == stem[|stem| - 1];
        }
      }
    }
    assert p[|stem| - 1] != '.';
    assert p[dotIndex..] == "." + e;
  }

  /** A name that is a dot followed by a dot-free `e` (a hidden file such as
      `.ppt`) has no extension. */
  lemma HiddenNameHasNoExt(e: string, seps: set<char>)
    requires '.' !in e && '.' !in seps
    ensures SplitExt("." + e, seps).1 == ""
  {
    var p := "." + e;
    RFindSpec(p, seps);
    RFindSpec(p, {'.'});
    assert p[0] == '.';
    assert RFind(p, {'.'}) == 0 by {
      forall j | 0 < j < |p| ensures p[j] != '.' {
        assert p[j] == e[j - 1];
      }
    }
  }

  /** Where the endpoint of app.py sends an upload. */
  datatype AppRoute = Refused | JavaConverter | PythonPptx

  /** app.py: the lower-cased extension must be `.pptx` or `.ppt`; `.ppt` goes to
      the Java converter, `.pptx` to python-pptx. */
  function AppRouteOf(filename: string, seps: set<char>): AppRoute
  {
    AppRouteOfExt(Lower(SplitExt(filename, seps).1))
  }

  function AppRouteOfExt(ext: string): AppRoute
  {
    if ext != ".pptx" && ext != ".ppt" then Refused
    else if ext == ".ppt" then JavaConverter
    else PythonPptx
  }

  /** test/ppt_extractor.py: `.ppt` goes to the Java converter, everything else
      to python-pptx. */
  function ScriptRouteOf(path: string, seps: set<char>): AppRoute
  {
    var ext := Lower(SplitExt(path, seps).1);
    if ext == ".ppt" then JavaConverter else PythonPptx
  }

  lemma LowerDot(e: string)
    ensures Lower("." + e) == "." + Lower(e)
  {
    LowerAppend(".", e);
    assert Lower(".") == [LowerChar('.')] + Lower([]);
  }

  lemma DotPrefixEq(x: string, y: string)
    ensures "." + x == "." + y <==> x == y
  {
    if "." + x == "." + y {
      assert ("." + x)[1..] == x;
      assert ("." + y)[1..] == y;
    }
  }

  /** For a name `stem.e`, the endpoint goes by `e` regardless of case. */
  lemma AppRouteOfName(stem: string, e: string, seps: set<char>)
    requires '.' !in seps
    requires stem != [] && stem[|stem| - 1] != '.' && stem[|stem| - 1] !in seps
    requires '.' !in e && forall j :: 0 <= j < |e| ==> e[j] !in seps
    ensures AppRouteOf(stem + "." + e, seps) == JavaConverter <==> Lower(e) == "ppt"
    ensures AppRouteOf(stem + "." + e, seps) == PythonPptx <==> Lower(e) == "pptx"
    ensures AppRouteOf(stem + "." + e, seps) == Refused <==> Lower(e) != "ppt" && Lower(e) != "pptx"
  {
    ExtOfName(stem, e, seps);
    LowerDot(e);
    ExtRoutes(Lower(e));
  }

  /** The endpoint's decision on an extension `.x`. */
  lemma ExtRoutes(x: string)
    ensures AppRouteOfExt("." + x) == JavaConverter <==> x == "ppt"
    ensures AppRouteOfExt("." + x) == PythonPptx <==> x == "pptx"
    ensures AppRouteOfExt("." + x) == Refused <==> x != "ppt" && x != "pptx"
  {
    assert ".ppt" == "." + "ppt";
    assert ".pptx" == "." + "pptx";
    DotPrefixEq(x, "ppt");
    DotPrefixEq(x, "pptx");
  }

  /** The two entry points agree on what goes to the Java converter; what the
      endpoint refuses, the script hands to python-pptx. */
  lemma RoutesAgree(filename: string, seps: set<char>)
    ensures AppRouteOf(filename, seps) == JavaConverter <==> ScriptRouteOf(filename, seps) == JavaConverter
    ensures AppRouteOf(filename, seps) != JavaConverter ==> ScriptRouteOf(filename, seps) == PythonPptx
  {
  }

  /** A hidden file named `.ppt` has no extension: the endpoint refuses it and the
      script hands it to python-pptx. */
  lemma HiddenPptName(seps: set<char>)
    requires '.' !in seps
    ensures AppRouteOf(".ppt", seps) == Refused
    ensures ScriptRouteOf(".ppt", seps) == PythonPptx
  {
    HiddenNameHasNoExt("ppt", seps);
    assert ".ppt" == "." + "ppt";
  }
}
