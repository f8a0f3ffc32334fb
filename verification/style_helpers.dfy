/**
 * `get_class_choices_from_scss` (shared_utils/style_helpers.py): the CSS
 * classes declared in a stylesheet, one per line that declares one, offered
 * as `(class name, display name)` choices sorted by display name behind a
 * leading "No Style" choice. The file read is abstracted away: the file is
 * its list of lines, or nothing when it does not exist.
 *
 * The regular expression search is modelled by what it finds: the leftmost `.` followed by a run of class
 * characters, optional whitespace and `{`; then, when the rest of the line
 * holds `// Display Name:`, the text after it as the regex's backtracking
 * settles it.
 */
module StyleHelpers {
  import opened Wrappers
  import opened Text
  import opened Collections
  import opened Sorting

  /** One choice: the class name and the name shown for it. */
  datatype Choice = Choice(className: string, displayName: string)

  /** What the search finds on a line: group 1 and, if it took part, group 2. */
  datatype ClassMatch = ClassMatch(className: string, displayText: Option<string>)

  const NoStyle := Choice("", "No Style")

  /** `[\w\-]` over ASCII word characters. */
  predicate IsClassChar(c: char) {
    IsAsciiLetter(c) || IsAsciiDigit(c) || c == '_' || c == '-'
  }

  /** What `.` matches. */
  predicate NotNewline(c: char) {
    c != '\n'
  }

  /** The length of the longest run of `p` characters of `s` starting at `i`. */
  function Span(s: string, i: nat, p: char -> bool): (n: nat)
    requires i <= |s|
    ensures i + n <= |s|
    decreases |s| - i
  {
    if i == |s| || !p(s[i]) then 0 else 1 + Span(s, i + 1, p)
  }

  /** The span is a run of `p` characters, ended by the end of `s` or by a character that is not `p`. */
  lemma {:induction false} SpanRun(s: string, i: nat, p: char -> bool)
    requires i <= |s|
    ensures forall k :: i <= k < i + Span(s, i, p) ==> p(s[k])
    ensures i + Span(s, i, p) == |s| || !p(s[i + Span(s, i, p)])
    decreases |s| - i
  {
    if i < |s| && p(s[i]) {
      SpanRun(s, i + 1, p);
    }
  }

  /** Conversely, a run of `p` characters ended that way is the span. */
  lemma {:induction false} SpanIs(s: string, i: nat, p: char -> bool, n: nat)
    requires i + n <= |s|
    requires forall k :: i <= k < i + n ==> p(s[k])
    requires i + n == |s| || !p(s[i + n])
    ensures Span(s, i, p) == n
    decreases n
  {
    if n > 0 {
      SpanIs(s, i + 1, p, n - 1);
    }
  }

  /** The class part of the pattern matches at `i`: `.`, class characters, whitespace, `{`. */
  predicate ClassAt(line: string, i: nat) {
    i < |line| && line[i] == '.' &&
    var k := Span(line, i + 1, IsClassChar);
    var w := Span(line, i + 1 + k, IsSpace);
    k > 0 && i + 1 + k + w < |line| && line[i + 1 + k + w] == '{'
  }

  /** The leftmost position from `from` on where the pattern matches. */
  function FirstClassAt(line: string, from: nat): (r: Option<nat>)
    ensures r.Some? ==> from <= r.value && ClassAt(line, r.value)
    ensures forall j :: from <= j && (r.None? || j < r.value) ==> !ClassAt(line, j)
    decreases |line| - from
  {
    if from >= |line| then None
    else if ClassAt(line, from) then Some(from)
    else FirstClassAt(line, from + 1)
  }

  /** The largest `j < hi` with `t[j]` not a newline. */
  function LastNonNewline(t: string, hi: nat): (r: Option<nat>)
    requires hi <= |t|
    ensures r.Some? ==> r.value < hi && t[r.value] != '\n'
    ensures forall j :: (r.None? || r.value < j) && 0 <= j < hi ==> t[j] == '\n'
    decreases hi
  {
    if hi == 0 then None
    else if t[hi - 1] != '\n' then Some(hi - 1)
    else LastNonNewline(t, hi - 1)
  }

  /**
   * What the final whitespace-then-capture part of the pattern takes from `t`: the greedy whitespace run gives back
   * characters until `.+` can take at least one; `.+` then runs to the end of
   * the line. Nothing when no such split exists.
   */
  function Captured(t: string): (r: Option<string>)
    ensures r.Some? ==> |r.value| > 0 && '\n' !in r.value
  {
    var w := Span(t, 0, IsSpace);
    var hi := if w < |t| then w + 1 else |t|;
    match LastNonNewline(t, hi)
    case None => None
    case Some(j) =>
      var g := t[j..j + Span(t, j, NotNewline)];
      SpanRun(t, j, NotNewline);
      assert forall k :: 0 <= k < |g| ==> g[k] != '\n';
      Some(g)
  }

  const DisplayMarker := "Display Name:"

  /** Group 2 for the text after `{`: whitespace, `//`, whitespace, `Display Name:`, then the capture; or nothing. */
  function DisplayGroup(rest: string): (r: Option<string>)
    ensures r.Some? ==> |r.value| > 0
  {
    match CaptureStart(rest)
    case None => None
    case Some(i) => Captured(rest[i..])
  }

  /** Where the capture's text begins: after whitespace, `//`, whitespace and `Display Name:`; nowhere if they are not there. */
  function CaptureStart(rest: string): (r: Option<nat>)
    ensures r.Some? ==> r.value <= |rest|
  {
    var w1 := Span(rest, 0, IsSpace);
    if !OccursAt(rest, "//", w1) then None
    else
      var w2 := Span(rest, w1 + 2, IsSpace);
      if !OccursAt(rest, DisplayMarker, w1 + 2 + w2) then None
      else Some(w1 + 2 + w2 + |DisplayMarker|)
  }

  /** The groups of a match at `i`: the class run, and group 2 from the text after `{`. */
  function MatchAt(line: string, i: nat): (m: ClassMatch)
    requires ClassAt(line, i)
    ensures |m.className| > 0
    ensures forall k :: 0 <= k < |m.className| ==> IsClassChar(m.className[k])
  {
    var k := Span(line, i + 1, IsClassChar);
    var w := Span(line, i + 1 + k, IsSpace);
    var name := line[i + 1..i + 1 + k];
    SpanRun(line, i + 1, IsClassChar);
    assert forall j :: 0 <= j < k ==> name[j] == line[i + 1 + j];
    ClassMatch(name, DisplayGroup(line[i + 1 + k + w + 1..]))
  }

  /** `pattern.search(line)`: the groups of the leftmost match, if there is one. */
  function Search(line: string): (r: Option<ClassMatch>)
    ensures r.Some? <==> exists i :: 0 <= i < |line| && ClassAt(line, i)
    ensures r.Some? ==> exists i ::
      0 <= i < |line| && ClassAt(line, i) && r.value == MatchAt(line, i) &&
      forall j :: 0 <= j < i ==> !ClassAt(line, j)
  {
    match FirstClassAt(line, 0)
    case None => None
    case Some(i) => Some(MatchAt(line, i))
  }

  predicate DeclaresClass(line: string) {
    Search(line).Some?
  }

  /** The display name: group 2 stripped when it is non-empty, else the class name title-cased with `-` as space. */
  function DisplayName(m: ClassMatch): (s: string)
    ensures m.displayText.None? ==> s == Title(ReplaceChar(m.className, '-', ' '))
    ensures m.displayText.Some? && |m.displayText.value| > 0 ==> s == Strip(m.displayText.value)
  {
    if m.displayText.Some? && m.displayText.value != "" then Strip(m.displayText.value)
    else Title(ReplaceChar(m.className, '-', ' '))
  }

  /** `raw_choices` after the loop over `lines`. */
  function RawChoices(lines: seq<string>): (r: seq<Choice>)
    ensures |r| <= |lines|
    decreases |lines|
  {
    if |lines| == 0 then []
    else
      var init := RawChoices(lines[..|lines| - 1]);
      match Search(lines[|lines| - 1])
      case None => init
      case Some(m) => init + [Choice(m.className, DisplayName(m))]
  }

  /** Python's `<=` on `str`: lexicographic by code point. */
  predicate LexLe(a: string, b: string)
    decreases |a|
  {
    if |a| == 0 then true
    else if |b| == 0 then false
    else if a[0] != b[0] then a[0] < b[0]
    else LexLe(a[1..], b[1..])
  }

  lemma {:induction false} LexLeTotal(a: string, b: string)
    ensures LexLe(a, b) || LexLe(b, a)
    decreases |a|
  {
    if |a| > 0 && |b| > 0 && a[0] == b[0] {
      LexLeTotal(a[1..], b[1..]);
    }
  }

  lemma {:induction false} LexLeTransitive(a: string, b: string, c: string)
    requires LexLe(a, b) && LexLe(b, c)
    ensures LexLe(a, c)
    decreases |a|
  {
    if |a| > 0 && a[0] == b[0] && b[0] == c[0] {
      LexLeTransitive(a[1..], b[1..], c[1..]);
    }
  }

  lemma {:induction false} LexLeAntisymmetric(a: string, b: string)
    requires LexLe(a, b) && LexLe(b, a)
    ensures a == b
    decreases |a|
  {
    if |a| > 0 {
      LexLeAntisymmetric(a[1..], b[1..]);
      assert a == [a[0]] + a[1..] && b == [b[0]] + b[1..];
    }
  }

  /** `key=lambda x: x[1]`. */
  predicate ByDisplayName(a: Choice, b: Choice) {
    LexLe(a.displayName, b.displayName)
  }

  lemma ByDisplayNameIsPreorder()
    ensures TotalPreorder(ByDisplayName)
  {
    forall a: Choice, b: Choice ensures ByDisplayName(a, b) || ByDisplayName(b, a) {
      LexLeTotal(a.displayName, b.displayName);
    }
    forall a: Choice, b: Choice, c: Choice | ByDisplayName(a, b) && ByDisplayName(b, c)
      ensures ByDisplayName(a, c)
    {
      LexLeTransitive(a.displayName, b.displayName, c.displayName);
    }
  }

  /** Two choices tie under the sort exactly when their display names are equal. */
  lemma TiedMeansSameName(a: Choice, b: Choice)
    ensures Tied(ByDisplayName, a, b) <==> a.displayName == b.displayName
  {
    if Tied(ByDisplayName, a, b) {
      LexLeAntisymmetric(a.displayName, b.displayName);
    }
    if a.displayName == b.displayName {
      LexLeTotal(a.displayName, b.displayName);
    }
  }

  /** The value `get_class_choices_from_scss` returns for a file (`None` when it does not exist). */
  function ClassChoices(file: Option<seq<string>>): (r: seq<Choice>)
    ensures file.None? ==> r == []
    ensures file.Some? ==> |r| == 1 + |RawChoices(file.value)| && r[0] == NoStyle
  {
    if file.None? then [] else [NoStyle] + Sort(RawChoices(file.value), ByDisplayName)
  }

  /** The loop collecting `raw_choices`, then the sort and the leading "No Style". */
  method GetClassChoicesFromScss(file: Option<seq<string>>) returns (choices: seq<Choice>)
    ensures choices == ClassChoices(file)
  {
    if file.None? {
      return [];
    }
    var lines := file.value;
    var raw: seq<Choice> := [];
    var i := 0;
    while i < |lines|
      invariant 0 <= i <= |lines|
      invariant raw == RawChoices(lines[..i])
    {
      PrefixStep(lines, i);
      var m := Search(lines[i]);
      if m.Some? {
        raw := raw + [Choice(m.value.className, DisplayName(m.value))];
      }
      i := i + 1;
    }
    assert lines[..i] == lines;
    choices := [NoStyle] + Sort(raw, ByDisplayName);
  }

  /** The choice a line that declares a class adds: its class name and its display name. */
  function LineChoice(line: string): (c: Choice)
    requires DeclaresClass(line)
    ensures c.className == Search(line).value.className
    ensures c.displayName == DisplayName(Search(line).value)
  {
    Choice(Search(line).value.className, DisplayName(Search(line).value))
  }

  /**
   * The raw choices are the choices of the lines that declare a class, one
   * per line, in file order; duplicates are kept.
   */
  lemma {:induction false} RawChoicesContents(lines: seq<string>)
    ensures var declaring := Filter(lines, DeclaresClass);
      |RawChoices(lines)| == |declaring| &&
      forall i :: 0 <= i < |declaring| ==> RawChoices(lines)[i] == LineChoice(declaring[i])
    decreases |lines|
  {
    if |lines| > 0 {
      var init := lines[..|lines| - 1];
      var last := lines[|lines| - 1];
      RawChoicesContents(init);
      SplitLast(lines);
      FilterAppend(init, [last], DeclaresClass);
      if DeclaresClass(last) {
        assert Filter([last], DeclaresClass) == [last];
        assert RawChoices(lines) == RawChoices(init) + [LineChoice(last)];
      } else {
        assert Filter([last], DeclaresClass) == [];
        assert RawChoices(lines) == RawChoices(init);
      }
    }
  }

  /**
   * For an existing file: one more choice than there are declaring lines
   * (duplicates kept), "No Style" first, the rest the raw choices sorted by
   * display name.
   */
  lemma ChoicesShape(lines: seq<string>)
    ensures var r := ClassChoices(Some(lines));
      |r| == 1 + |Filter(lines, DeclaresClass)| && r[0] == NoStyle &&
      multiset(r[1..]) == multiset(RawChoices(lines)) && SortedBy(r[1..], ByDisplayName)
  {
    RawChoicesContents(lines);
    ByDisplayNameIsPreorder();
    SortSorted(RawChoices(lines), ByDisplayName);
    assert ClassChoices(Some(lines))[1..] == Sort(RawChoices(lines), ByDisplayName);
  }

  predicate Named(c: Choice, name: string) {
    c.displayName == name
  }

  /** The sort is stable: choices sharing a display name keep their order in the file. */
  lemma ChoicesStable(lines: seq<string>, name: string)
    ensures Filter(ClassChoices(Some(lines))[1..], c => Named(c, name)) == Filter(RawChoices(lines), c => Named(c, name))
  {
    var y := Choice("", name);
    var raw := RawChoices(lines);
    ByDisplayNameIsPreorder();
    SortStable(raw, ByDisplayName, y);
    forall c: Choice ensures Tied(ByDisplayName, y, c) == Named(c, name) {
      TiedMeansSameName(y, c);
    }
    assert ClassChoices(Some(lines))[1..] == Sort(raw, ByDisplayName);
    FilterSame(Sort(raw, ByDisplayName), z => Tied(ByDisplayName, y, z), c => Named(c, name));
    FilterSame(raw, z => Tied(ByDisplayName, y, z), c => Named(c, name));
  }

  /** A declaration `.name` + whitespace + `{` is found at the start of its line, whatever follows. */
  lemma ClassLine(c: string, sp: string, rest: string)
    requires |c| > 0 && forall k :: 0 <= k < |c| ==> IsClassChar(c[k])
    requires forall k :: 0 <= k < |sp| ==> IsSpace(sp[k])
    ensures Search("." + c + sp + "{" + rest) == Some(ClassMatch(c, DisplayGroup(rest)))
  {
    var line := "." + c + sp + "{" + rest;
    ClassAtStart(c, sp, rest);
    var k := Span(line, 1, IsClassChar);
    var w := Span(line, 1 + k, IsSpace);
    assert line[1..1 + k] == c;
    assert line[1 + k + w + 1..] == rest;
    assert MatchAt(line, 0) == ClassMatch(c, DisplayGroup(rest));
    assert FirstClassAt(line, 0) == Some(0);
  }

  lemma ClassAtStart(c: string, sp: string, rest: string)
    requires |c| > 0 && forall k :: 0 <= k < |c| ==> IsClassChar(c[k])
    requires forall k :: 0 <= k < |sp| ==> IsSpace(sp[k])
    ensures var line := "." + c + sp + "{" + rest;
      ClassAt(line, 0) && Span(line, 1, IsClassChar) == |c| && Span(line, 1 + |c|, IsSpace) == |sp|
  {
    var head := "." + c;
    var spaced := head + sp;
    var line := spaced + "{" + rest;
    var n, m := |c|, |sp|;
    forall k | 1 <= k < 1 + n
      ensures IsClassChar(line[k])
    {
      calc {
        line[k];
        spaced[k];
        head[k];
        c[k - 1];
      }
    }
    forall k | 1 + n <= k < 1 + n + m
      ensures IsSpace(line[k])
    {
      calc {
        line[k];
        spaced[k];
        sp[k - 1 - n];
      }
    }
    assert line[0] == '.' && line[1 + n + m] == '{';
    ClassAtIndices(line, n, m);
  }

  lemma ClassAtIndices(line: string, n: nat, m: nat)
    requires 0 < n && 1 + n + m < |line| && line[0] == '.' && line[1 + n + m] == '{'
    requires forall k :: 1 <= k < 1 + n ==> IsClassChar(line[k])
    requires forall k :: 1 + n <= k < 1 + n + m ==> IsSpace(line[k])
    ensures ClassAt(line, 0) && Span(line, 1, IsClassChar) == n && Span(line, 1 + n, IsSpace) == m
  {
    assert !IsClassChar(line[1 + n]) by {
      if m > 0 {
        assert IsSpace(line[1 + n]);
      }
    }
    SpanIs(line, 1, IsClassChar, n);
    SpanIs(line, 1 + n, IsSpace, m);
  }

  /** `// Display Name:` after optional whitespace: group 2 is whatever the capture takes from the rest. */
  lemma DisplayAtIndices(rest: string, a: nat, b: nat)
    requires OccursAt(rest, "//", a) && OccursAt(rest, DisplayMarker, a + 2 + b)
    requires forall k :: 0 <= k < a ==> IsSpace(rest[k])
    requires forall k :: a + 2 <= k < a + 2 + b ==> IsSpace(rest[k])
    ensures DisplayGroup(rest) == Captured(rest[a + 2 + b + |DisplayMarker|..])
  {
    assert Span(rest, 0, IsSpace) == a by {
      assert rest[a] == rest[a..a + 2][0] == '/';
      SpanIs(rest, 0, IsSpace, a);
    }
    assert Span(rest, a + 2, IsSpace) == b by {
      assert rest[a + 2 + b] == rest[a + 2 + b..a + 2 + b + |DisplayMarker|][0] == 'D';
      SpanIs(rest, a + 2, IsSpace, b);
    }
    assert CaptureStart(rest) == Some(a + 2 + b + |DisplayMarker|);
  }

  /** After whitespace, the capture takes the rest of the line when it starts with a non-space. */
  lemma CapturedText(sp: string, name: string)
    requires forall k :: 0 <= k < |sp| ==> IsSpace(sp[k])
    requires |name| > 0 && !IsSpace(name[0]) && '\n' !in name
    ensures Captured(sp + name) == Some(name)
  {
    var t := sp + name;
    assert forall k :: 0 <= k < |sp| ==> t[k] == sp[k];
    assert forall k :: |sp| <= k < |t| ==> t[k] == name[k - |sp|];
    SpanIs(t, 0, IsSpace, |sp|);
    assert t[|sp|] != '\n';
    assert forall k :: |sp| <= k < |t| ==> NotNewline(t[k]);
    SpanIs(t, |sp|, NotNewline, |name|);
    assert t[|sp|..|sp| + |name|] == name;
  }

  /** The display name after `// Display Name:` is captured whole, up to the end of the line. */
  lemma DisplayLine(sp1: string, sp2: string, sp3: string, name: string)
    requires forall k :: 0 <= k < |sp1| ==> IsSpace(sp1[k])
    requires forall k :: 0 <= k < |sp2| ==> IsSpace(sp2[k])
    requires forall k :: 0 <= k < |sp3| ==> IsSpace(sp3[k])
    requires |name| > 0 && !IsSpace(name[0]) && '\n' !in name
    ensures DisplayGroup(sp1 + "//" + sp2 + DisplayMarker + sp3 + name) == Some(name)
  {
    var tail := sp3 + name;
    var rest := sp1 + "//" + sp2 + DisplayMarker + tail;
    assert rest == sp1 + "//" + sp2 + DisplayMarker + sp3 + name;
    assert DisplayGroup(rest) == Captured(tail) by {
      var a, b := |sp1|, |sp2|;
      assert forall k :: 0 <= k < a ==> rest[k] == sp1[k];
      assert rest[a..a + 2] == "//";
      assert forall k :: a + 2 <= k < a + 2 + b ==> rest[k] == sp2[k - a - 2];
      assert rest[a + 2 + b..a + 2 + b + |DisplayMarker|] == DisplayMarker;
      DisplayAtIndices(rest, a, b);
      assert rest[a + 2 + b + |DisplayMarker|..] == tail;
    }
    assert Captured(tail) == Some(name) by {
      CapturedText(sp3, name);
    }
  }

  /**
   * Whitespace alone after `Display Name:` still gives a group 2 (one space,
   * given back by the greedy whitespace run to the capture), so the display
   * name is empty rather than the title-cased class name; with only the line
   * end after it, the class name is used.
   */
  lemma BlankDisplayName(c: string)
    requires |c| > 0 && forall k :: 0 <= k < |c| ==> IsClassChar(c[k])
    ensures var m := Search("." + c + "{" + ("//" + DisplayMarker + " \n")); m.Some? && DisplayName(m.value) == ""
  {
    BlankGroup();
    assert "." + c + "" == "." + c;
    ClassLine(c, "", "//" + DisplayMarker + " \n");
    assert Strip(" ") == "";
  }

  lemma NoDisplayName(c: string)
    requires |c| > 0 && forall k :: 0 <= k < |c| ==> IsClassChar(c[k])
    ensures var m := Search("." + c + "{" + ("//" + DisplayMarker + "\n"));
      m.Some? && DisplayName(m.value) == Title(ReplaceChar(c, '-', ' '))
  {
    NoGroup();
    assert "." + c + "" == "." + c;
    ClassLine(c, "", "//" + DisplayMarker + "\n");
  }

  lemma BlankGroup()
    ensures DisplayGroup("//" + DisplayMarker + " \n") == Some(" ")
  {
    var rest := "//" + DisplayMarker + " \n";
    DisplayAtIndices(rest, 0, 0);
    assert rest[2 + |DisplayMarker|..] == " \n";
    var t := " \n";
    SpanIs(t, 0, IsSpace, 2);
    assert LastNonNewline(t, 2) == Some(0);
    SpanIs(t, 0, NotNewline, 1);
    assert t[0..1] == " ";
  }

  lemma NoGroup()
    ensures DisplayGroup("//" + DisplayMarker + "\n") == None
  {
    var rest := "//" + DisplayMarker + "\n";
    DisplayAtIndices(rest, 0, 0);
    assert rest[2 + |DisplayMarker|..] == "\n";
    SpanIs("\n", 0, IsSpace, 1);
  }
}
