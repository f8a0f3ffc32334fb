/**
 * The `linebreak_span` template filter (templatetags/wiss_tags.py): a value
 * holding `|` is shown as two blocks, the text before the first `|` and the
 * text after it; any other value is shown as it is.
 */
module WissTags {
  import opened Wrappers
  import opened Text

  /** `value.split('|', 1)` for a value that holds a `|`: the parts around the first one. */
  function SplitFirst(value: string): (r: (string, string))
    requires '|' in value
    ensures r.0 + "|" + r.1 == value
    ensures '|' !in r.0
  {
    var i := IndexOf(value, '|').value;
    assert value == value[..i] + "|" + value[i + 1..];
    (value[..i], value[i + 1..])
  }

  const Open0 := "<div class=\"index-0\">"
  const Between := "</div><div class=\"index-1\">"
  const Close1 := "</div>"

  /**
   * A filter's output: its text, and whether it is marked safe
   * (`mark_safe`), in which case the template inserts it without escaping.
   */
  datatype Output = Output(text: string, safe: bool)

  /**
   * `linebreak_span(value)`; `None` is Python's `None`. The two-block markup
   * is marked safe, so the parts around `|` are inserted unescaped; any other
   * value is returned unchanged, keeping its own marking. The value is taken
   * to be an unmarked string, so `safe` is set only for the markup.
   */
  function LinebreakSpan(value: Option<string>): (r: Output)
    ensures r.safe <==> value.Some? && '|' in value.value
    ensures value.None? || value.value == "" ==> r.text == ""
    ensures value.Some? && '|' !in value.value ==> r.text == value.value
    ensures value.Some? && '|' in value.value ==>
      exists before, after :: '|' !in before && before + "|" + after == value.value &&
        r.text == Open0 + before + Between + after + Close1
  {
    if value.None? || value.value == "" then Output("", false)
    else if '|' in value.value then
      var parts := SplitFirst(value.value);
      Output(Open0 + parts.0 + Between + parts.1 + Close1, true)
    else Output(value.value, false)
  }

  /** The split is at the first `|`: later ones stay in the second part. */
  lemma SplitAtFirstBar(before: string, after: string)
    requires '|' !in before
    ensures SplitFirst(before + "|" + after) == (before, after)
  {
    var v := before + "|" + after;
    var r := SplitFirst(v);
    SplitUnique(r.0, r.1, before, after);
  }

  /** Two ways of writing a value as text without `|`, a `|`, and the rest are the same way. */
  lemma {:induction false} SplitUnique(a: string, b: string, c: string, d: string)
    requires '|' !in a && '|' !in c && a + "|" + b == c + "|" + d
    ensures a == c && b == d
    decreases |a|
  {
    var v := a + "|" + b;
    assert v == c + "|" + d;
    // position 0 holds `|` exactly when the part before it is empty
    assert |a| > 0 ==> v[0] == a[0] && a[0] in a;
    assert |c| > 0 ==> v[0] == c[0] && c[0] in c;
    assert |a| == 0 ==> v[0] == '|';
    assert |c| == 0 ==> v[0] == '|';
    if |a| == 0 {
      assert |c| == 0;
      assert b == v[1..] && d == v[1..];
    } else {
      assert |c| > 0 && a[0] == c[0];
      assert v[1..] == a[1..] + "|" + b;
      assert v[1..] == c[1..] + "|" + d;
      SplitUnique(a[1..], b, c[1..], d);
      assert a == [a[0]] + a[1..];
      assert c == [c[0]] + c[1..];
    }
  }

  /** With a `|`, the output is the two blocks around the first `|`, marked safe. */
  lemma LinebreakBlocks(before: string, after: string)
    requires '|' !in before
    ensures LinebreakSpan(Some(before + "|" + after)) == Output(Open0 + before + Between + after + Close1, true)
  {
    SplitAtFirstBar(before, after);
  }
}
