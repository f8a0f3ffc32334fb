/**
 * `get_file_marker_html` (shared_utils/doc_helpers.py): the file-type marker
 * shown after a document link, chosen by the file name's extension as
 * `os.path.splitext` (POSIX paths) finds it, compared case-insensitively.
 */
module DocHelpers {
  import opened Wrappers
  import opened Text
  import opened Collections

  /** The position of the last `c` in `s` (`str.rfind`). */
  function LastIndexOf(s: string, c: char): (r: Option<nat>)
    ensures r.None? <==> c !in s
    ensures r.Some? ==> r.value < |s| && s[r.value] == c && c !in s[r.value + 1..]
    decreases |s|
  {
    if |s| == 0 then None
    else if s[|s| - 1] == c then Some(|s| - 1)
    else
      var r := LastIndexOf(s[..|s| - 1], c);
      assert s == s[..|s| - 1] + [s[|s| - 1]];
      r
  }

  predicate AllDots(s: string) {
    forall i :: 0 <= i < |s| ==> s[i] == '.'
  }

  /** The start of the final path component. */
  function ComponentStart(p: string): nat {
    match LastIndexOf(p, '/') case None => 0 case Some(i) => i + 1
  }

  /**
   * The extension part of `os.path.splitext(p)`: from the last `.` of the
   * final path component, unless only dots precede it in that component.
   */
  function Extension(p: string): (e: string)
    ensures e == [] || (e[0] == '.' && '/' !in e && '.' !in e[1..])
    ensures |e| <= |p| && e == p[|p| - |e|..]
  {
    var start := ComponentStart(p);
    match LastIndexOf(p, '.')
    case None => []
    case Some(dot) =>
      if dot < start || AllDots(p[start..dot]) then []
      else
        var e := p[dot..];
        assert e[1..] == p[dot + 1..];
        e
  }

  /** The file-type labels, by lower-case extension. */
  const Labels: map<string, string> := map[
    ".pdf" := "PDF",
    ".doc" := "Word", ".docx" := "Word",
    ".xls" := "Excel", ".xlsx" := "Excel",
    ".ppt" := "PowerPoint", ".pptx" := "PowerPoint",
    ".jpg" := "Image", ".jpeg" := "Image", ".png" := "Image",
    ".gif" := "Image", ".webp" := "Image", ".svg" := "Image"]

  /** `labels.get(ext)`. */
  function Label(ext: string): (r: Option<string>)
    ensures r.Some? <==> ext in Labels
    ensures r.Some? ==> r.value in {"PDF", "Word", "Excel", "PowerPoint", "Image"}
  {
    if ext in Labels then Some(Labels[ext]) else None
  }

  const VisibleOpen := "<span class=\"small\"> ("
  const VisibleClose := ")</span><span class=\"sr-only\">, "
  const HiddenClose := " file</span>"

  /** The visible `(L)` marker followed by the screen-reader text `, L file`. */
  function Marker(kind: string): (r: string)
    ensures |r| == |VisibleOpen| + |VisibleClose| + |HiddenClose| + 2 * |kind|
    ensures r[|VisibleOpen|..|VisibleOpen| + |kind|] == kind
  {
    var r := VisibleOpen + kind + VisibleClose + kind + HiddenClose;
    assert r[|VisibleOpen|..|VisibleOpen| + |kind|] == kind;
    r
  }

  /** `get_file_marker_html(filename)`. */
  function FileMarkerHtml(filename: string): (r: string)
    ensures Label(Lower(Extension(filename))).None? ==> r == ""
    ensures Label(Lower(Extension(filename))).Some? ==> r == Marker(Label(Lower(Extension(filename))).value)
    ensures r == "" <==> Lower(Extension(filename)) !in Labels
  {
    match Label(Lower(Extension(filename)))
    case None => ""
    case Some(kind) => Marker(kind)
  }

  /** Different labels give different markers: the kind can be read back from the marker. */
  lemma MarkerInjective(a: string, b: string)
    requires Marker(a) == Marker(b)
    ensures a == b
  {
    assert |a| == |b|;
  }

  /** The last `c` is at `i` when `c` is there and nowhere after it. */
  lemma {:induction false} LastIndexIs(s: string, c: char, i: nat)
    requires i < |s| && s[i] == c && c !in s[i + 1..]
    ensures LastIndexOf(s, c) == Some(i)
    decreases |s|
  {
    if i < |s| - 1 {
      assert s[..|s| - 1][i + 1..] == s[i + 1..|s| - 1];
      LastIndexIs(s[..|s| - 1], c, i);
    }
  }

  /** `Extension` once the final component's start and its last `.` are known. */
  lemma ExtensionAt(p: string, start: nat, dot: nat)
    requires start <= dot < |p|
    requires (start == 0 && '/' !in p) || (start > 0 && p[start - 1] == '/' && '/' !in p[start..])
    requires p[dot] == '.' && '.' !in p[dot + 1..]
    ensures Extension(p) == if AllDots(p[start..dot]) then [] else p[dot..]
  {
    assert ComponentStart(p) == start by {
      if start > 0 {
        LastIndexIs(p, '/', start - 1);
      }
    }
    assert LastIndexOf(p, '.') == Some(dot) by {
      LastIndexIs(p, '.', dot);
    }
  }

  /** The pieces of `dir + name + "." + x`, read back by position. */
  lemma NameFacts(dir: string, name: string, x: string)
    ensures var p := dir + name + "." + x;
      p[|dir|..] == name + "." + x && p[|dir|..|dir| + |name|] == name &&
      p[|dir| + |name|] == '.' && p[|dir| + |name| + 1..] == x && p[|dir| + |name|..] == "." + x &&
      (|dir| > 0 ==> p[|dir| - 1] == dir[|dir| - 1])
  {
    var p := dir + name + "." + x;
    assert p == dir + (name + "." + x);
    assert p == (dir + name) + ("." + x);
  }

  /** A directory, a base name that is not only dots, and `.x`: the extension is `.x`. */
  lemma ExtensionOfName(dir: string, base: string, x: string)
    requires dir == [] || dir[|dir| - 1] == '/'
    requires '/' !in base && !AllDots(base)
    requires '/' !in x && '.' !in x
    ensures Extension(dir + base + "." + x) == "." + x
  {
    var p := dir + base + "." + x;
    var dot := |dir| + |base|;
    NameFacts(dir, base, x);
    assert !AllDots(p[|dir|..dot]);
    assert p[dot..] == "." + x;
    assert '/' !in p[|dir|..];
    ExtensionAt(p, |dir|, dot);
  }

  /** A name made of dots and then `.x` (a hidden file such as `.pdf`) has no extension. */
  lemma HiddenFileHasNoExtension(dir: string, dots: string, x: string)
    requires dir == [] || dir[|dir| - 1] == '/'
    requires AllDots(dots)
    requires '/' !in x && '.' !in x
    ensures Extension(dir + dots + "." + x) == []
  {
    var p := dir + dots + "." + x;
    var dot := |dir| + |dots|;
    NameFacts(dir, dots, x);
    assert AllDots(p[|dir|..dot]);
    assert '/' !in p[|dir|..];
    ExtensionAt(p, |dir|, dot);
  }

  /** The marker depends on the extension alone, whatever its letter case. */
  lemma MarkerByExtension(f: string, g: string)
    requires Lower(Extension(f)) == Lower(Extension(g))
    ensures FileMarkerHtml(f) == FileMarkerHtml(g)
  {
  }

  /** A file whose extension is a known one in any letter case gets that extension's marker. */
  lemma KnownExtension(dir: string, base: string, x: string)
    requires dir == [] || dir[|dir| - 1] == '/'
    requires '/' !in base && !AllDots(base)
    requires '/' !in x && '.' !in x
    requires Lower("." + x) in Labels
    ensures FileMarkerHtml(dir + base + "." + x) == Marker(Labels[Lower("." + x)])
  {
    ExtensionOfName(dir, base, x);
  }

  /** `report.PDF` is marked as a PDF: the extension is compared in lower case. */
  lemma UpperCasePdf(dir: string)
    requires dir == [] || dir[|dir| - 1] == '/'
    ensures FileMarkerHtml(dir + "report" + "." + "PDF") == Marker("PDF")
  {
    assert "report"[0] != '.';
    LowerPdf();
    assert ".pdf" in Labels && Labels[".pdf"] == "PDF";
    KnownExtension(dir, "report", "PDF");
  }

  lemma LowerPdf()
    ensures Lower("." + "PDF") == ".pdf"
  {
    var l := Lower("." + "PDF");
    assert l[0] == '.' && l[1] == 'p' && l[2] == 'd' && l[3] == 'f';
  }
}
