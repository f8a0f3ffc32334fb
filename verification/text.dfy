/**
 * The few pieces of Python's `str` the core relies on: `isspace`, `strip`,
 * `rstrip(chars)`, `split()` on whitespace, `split(sep)`, `startswith`,
 * `lower()` and `title()` on ASCII letters, `isdigit`/`int` on ASCII digits,
 * and the text `float()` accepts.
 */
module Text {
  import opened Wrappers

  /** `str.isspace` for one character (the Unicode whitespace characters Python recognises). */
  predicate IsSpace(c: char) {
    c == ' ' || ('\t' <= c <= '\r') || ('\U{1c}' <= c <= '\U{1f}') || c == '\U{85}' || c == '\U{a0}'
    || c == '\U{1680}' || ('\U{2000}' <= c <= '\U{200a}') || c == '\U{2028}' || c == '\U{2029}'
    || c == '\U{202f}' || c == '\U{205f}' || c == '\U{3000}'
  }

  predicate NoSpace(s: string) {
    forall i :: 0 <= i < |s| ==> !IsSpace(s[i])
  }

  predicate IsAsciiDigit(c: char) {
    '0' <= c <= '9'
  }

  predicate IsAsciiUpper(c: char) {
    'A' <= c <= 'Z'
  }

  predicate IsAsciiLower(c: char) {
    'a' <= c <= 'z'
  }

  predicate IsAsciiLetter(c: char) {
    IsAsciiUpper(c) || IsAsciiLower(c)
  }

  /** `s` begins with `prefix` (`str.startswith`). */
  predicate StartsWith(s: string, prefix: string) {
    |prefix| <= |s| && s[..|prefix|] == prefix
  }

  /** `sep` occurs in `s` at position `i`. */
  predicate OccursAt(s: string, sep: string, i: int) {
    0 <= i && i + |sep| <= |s| && s[i..i + |sep|] == sep
  }

  /** The position of the first `c` in `s`, if any. */
  function IndexOf(s: string, c: char): (r: Option<nat>)
    ensures r.None? <==> c !in s
    ensures r.Some? ==> r.value < |s| && s[r.value] == c && c !in s[..r.value]
  {
    if |s| == 0 then None
    else if s[0] == c then Some(0)
    else
      match IndexOf(s[1..], c)
      case None => None
      case Some(i) =>
        assert s[..i + 1] == [s[0]] + s[1..][..i];
        Some(i + 1)
  }

  /** `s` with its leading whitespace removed (`str.lstrip()`). */
  function LStrip(s: string): (r: string)
    ensures |r| <= |s| && r == s[|s| - |r|..]
    ensures r == [] || !IsSpace(r[0])
    ensures forall i :: 0 <= i < |s| - |r| ==> IsSpace(s[i])
  {
    if |s| > 0 && IsSpace(s[0]) then LStrip(s[1..]) else s
  }

  /** `s` with its trailing whitespace removed (`str.rstrip()`). */
  function RStrip(s: string): (r: string)
    ensures |r| <= |s| && r == s[..|r|]
    ensures r == [] || !IsSpace(r[|r| - 1])
    ensures forall i :: |r| <= i < |s| ==> IsSpace(s[i])
  {
    if |s| > 0 && IsSpace(s[|s| - 1]) then RStrip(s[..|s| - 1]) else s
  }

  /** `str.strip()`. */
  function Strip(s: string): string {
    RStrip(LStrip(s))
  }

  /** Text without whitespace is its own stripped form. */
  lemma StripNoSpace(s: string)
    requires NoSpace(s)
    ensures Strip(s) == s
  {
    assert |s| == 0 || !IsSpace(s[0]);
    assert LStrip(s) == s;
    assert |s| == 0 || !IsSpace(s[|s| - 1]);
  }

  /** `s` with every trailing `c` removed (`str.rstrip(c)`). */
  function RStripChar(s: string, c: char): (r: string)
    ensures |r| <= |s| && r == s[..|r|]
    ensures r == [] || r[|r| - 1] != c
    ensures forall i :: |r| <= i < |s| ==> s[i] == c
  {
    if |s| > 0 && s[|s| - 1] == c then RStripChar(s[..|s| - 1], c) else s
  }

  /** The longest prefix of `s` without whitespace. */
  function Word(s: string): (w: string)
    ensures |w| <= |s| && w == s[..|w|] && NoSpace(w)
    ensures |w| == |s| || IsSpace(s[|w|])
  {
    if |s| == 0 || IsSpace(s[0]) then []
    else
      var rest := Word(s[1..]);
      assert s[..|rest| + 1] == [s[0]] + rest;
      [s[0]] + rest
  }

  /** `str.split()`: the maximal runs of non-whitespace characters, in order. */
  function Split(s: string): (r: seq<string>)
    ensures forall i :: 0 <= i < |r| ==> |r[i]| > 0 && NoSpace(r[i])
    decreases |s|
  {
    if |s| == 0 then []
    else if IsSpace(s[0]) then Split(s[1..])
    else
      var w := Word(s);
      [w] + Split(s[|w|..])
  }

  /** The first word of `w + rest` is `w` when `rest` starts with whitespace or is empty. */
  lemma {:induction false} WordOfPrefix(w: string, rest: string)
    requires NoSpace(w) && (rest == [] || IsSpace(rest[0]))
    ensures Word(w + rest) == w
    decreases |w|
  {
    if |w| > 0 {
      assert (w + rest)[1..] == w[1..] + rest;
      WordOfPrefix(w[1..], rest);
    }
  }

  /** Whitespace is dropped by `split()`. */
  lemma {:induction false} SplitSkipsSpace(sp: string, s: string)
    requires forall i :: 0 <= i < |sp| ==> IsSpace(sp[i])
    ensures Split(sp + s) == Split(s)
    decreases |sp|
  {
    if |sp| > 0 {
      assert (sp + s)[1..] == sp[1..] + s;
      SplitSkipsSpace(sp[1..], s);
    } else {
      assert sp + s == s;
    }
  }

  /** Two whitespace-free words joined by whitespace split back into the two words. */
  lemma SplitTwoWords(a: string, sp: string, b: string)
    requires |a| > 0 && NoSpace(a) && |b| > 0 && NoSpace(b)
    requires |sp| > 0 && forall i :: 0 <= i < |sp| ==> IsSpace(sp[i])
    ensures Split(a + sp + b) == [a, b]
  {
    var s := a + sp + b;
    assert s == a + (sp + b);
    WordOfPrefix(a, sp + b);
    assert s[|a|..] == sp + b;
    SplitSkipsSpace(sp, b);
    WordOfPrefix(b, []);
    assert b + [] == b;
    assert b[|b|..] == [];
  }

  /** `str.lower()` on ASCII letters. */
  function LowerChar(c: char): char {
    if IsAsciiUpper(c) then (c as int + 32) as char else c
  }

  function Lower(s: string): (r: string)
    ensures |r| == |s| && forall i :: 0 <= i < |s| ==> r[i] == LowerChar(s[i])
  {
    if |s| == 0 then [] else [LowerChar(s[0])] + Lower(s[1..])
  }

  function UpperChar(c: char): char {
    if IsAsciiLower(c) then (c as int - 32) as char else c
  }

  /**
   * `str.title()` on ASCII text: a letter that follows a letter is lower-cased,
   * any other letter is upper-cased; other characters are kept.
   */
  function Title(s: string): (r: string)
    ensures |r| == |s|
    ensures forall i :: 0 <= i < |s| ==>
      r[i] == if i > 0 && IsAsciiLetter(s[i - 1]) then LowerChar(s[i]) else UpperChar(s[i])
  {
    TitleFrom(s, false)
  }

  function TitleFrom(s: string, afterLetter: bool): (r: string)
    ensures |r| == |s|
    ensures |s| > 0 ==> r[0] == if afterLetter then LowerChar(s[0]) else UpperChar(s[0])
    ensures forall i :: 0 < i < |s| ==>
      r[i] == if IsAsciiLetter(s[i - 1]) then LowerChar(s[i]) else UpperChar(s[i])
  {
    if |s| == 0 then []
    else
      var c := if afterLetter then LowerChar(s[0]) else UpperChar(s[0]);
      var rest := TitleFrom(s[1..], IsAsciiLetter(s[0]));
      [c] + rest
  }

  /** `s` with every `a` replaced by `b` (`str.replace` for one character). */
  function ReplaceChar(s: string, a: char, b: char): (r: string)
    ensures |r| == |s|
    ensures forall i :: 0 <= i < |s| ==> r[i] == if s[i] == a then b else s[i]
  {
    if |s| == 0 then [] else [if s[0] == a then b else s[0]] + ReplaceChar(s[1..], a, b)
  }

  // ---------------------------------------------------------------------------
  // The text `float()` accepts: an optional sign, then a decimal number with an
  // optional exponent, or `inf`, `infinity`, `nan` in any letter case. Digit
  // groups may be separated by single underscores.

  /** `digit (["_"] digit)*`: one or more digits, with single underscores allowed between two digits. */
  predicate IsDigitPart(s: string)
    decreases |s|
  {
    |s| > 0 && IsAsciiDigit(s[0]) &&
    (|s| == 1 || IsDigitPart(s[1..]) || (s[1] == '_' && IsDigitPart(s[2..])))
  }

  /** `[digitpart] "." digitpart | digitpart ["."]`. */
  predicate IsNumber(s: string) {
    match IndexOf(s, '.')
    case None => IsDigitPart(s)
    case Some(i) =>
      var whole, fraction := s[..i], s[i + 1..];
      (whole == [] && IsDigitPart(fraction)) || (IsDigitPart(whole) && (fraction == [] || IsDigitPart(fraction)))
  }

  predicate IsSign(c: char) {
    c == '+' || c == '-'
  }

  /** The digits after `e`/`E`, with an optional sign. */
  predicate IsExponentDigits(s: string) {
    IsDigitPart(s) || (|s| > 0 && IsSign(s[0]) && IsDigitPart(s[1..]))
  }

  /** A number with an optional exponent. */
  predicate IsFloatNumber(s: string) {
    match IndexOf(Lower(s), 'e')
    case None => IsNumber(s)
    case Some(i) => IsNumber(s[..i]) && IsExponentDigits(s[i + 1..])
  }

  /** A sign-free float literal, or one of the special values. */
  predicate IsUnsignedFloat(s: string) {
    IsFloatNumber(s) || Lower(s) == "inf" || Lower(s) == "infinity" || Lower(s) == "nan"
  }

  /**
   * `float(s)` returns a value rather than raising `ValueError`, for text
   * without whitespace (`float()` first strips surrounding whitespace, which
   * leaves such text unchanged).
   */
  predicate FloatAccepts(s: string) {
    IsUnsignedFloat(s) || (|s| > 0 && IsSign(s[0]) && IsUnsignedFloat(s[1..]))
  }

  /** The value of a string of ASCII digits (`int(s)`). */
  function DecimalValue(s: string): nat
    requires AllAsciiDigits(s)
  {
    if |s| == 0 then 0 else 10 * DecimalValue(s[..|s| - 1]) + (s[|s| - 1] as int - '0' as int)
  }

  /** A string made only of ASCII digits. */
  predicate AllAsciiDigits(s: string) {
    forall i :: 0 <= i < |s| ==> IsAsciiDigit(s[i])
  }

  /** A run of digits is a digit part. */
  lemma {:induction false} DigitsArePart(s: string)
    requires |s| > 0 && AllAsciiDigits(s)
    ensures IsDigitPart(s)
    decreases |s|
  {
    if |s| > 1 {
      DigitsArePart(s[1..]);
    }
  }

  /** Text without upper-case ASCII letters is its own lower-case form. */
  lemma LowerIdentity(s: string)
    requires forall i :: 0 <= i < |s| ==> !IsAsciiUpper(s[i])
    ensures Lower(s) == s
  {
  }

  /** Decimal text `<digits>` or `<digits>.<digits>` is a number. */
  lemma DecimalIsNumber(w: string, f: string)
    requires |w| > 0 && AllAsciiDigits(w) && AllAsciiDigits(f)
    ensures IsNumber(if f == [] then w else w + "." + f)
  {
    DigitsArePart(w);
    if f != [] {
      var u := w + "." + f;
      DigitsArePart(f);
      assert '.' !in w;
      assert IndexOf(u, '.') == Some(|w|) by {
        assert u[|w|] == '.' && u[..|w|] == w;
      }
      assert u[..|w|] == w && u[|w| + 1..] == f;
    } else {
      assert '.' !in w;
    }
  }

  /** A number written without letters is a float literal (it has no exponent). */
  lemma LetterFreeNumber(u: string)
    requires IsNumber(u) && forall i :: 0 <= i < |u| ==> !IsAsciiLetter(u[i])
    ensures IsUnsignedFloat(u)
  {
    LowerIdentity(u);
    assert 'e' !in Lower(u);
  }

  /** Decimal text `<digits>` or `<digits>.<digits>` is a float literal. */
  lemma DecimalIsUnsignedFloat(w: string, f: string)
    requires |w| > 0 && AllAsciiDigits(w) && AllAsciiDigits(f)
    ensures IsUnsignedFloat(if f == [] then w else w + "." + f)
  {
    var u := if f == [] then w else w + "." + f;
    DecimalIsNumber(w, f);
    assert forall i :: 0 <= i < |u| ==> IsAsciiDigit(u[i]) || u[i] == '.';
    LetterFreeNumber(u);
  }

  /** `float()` accepts `<digits>.<digits>` and `-<digits>.<digits>`. */
  lemma DecimalAccepted(w: string, f: string)
    requires |w| > 0 && AllAsciiDigits(w) && |f| > 0 && AllAsciiDigits(f)
    ensures FloatAccepts(w + "." + f) && FloatAccepts("-" + w + "." + f)
  {
    var u := w + "." + f;
    assert IsUnsignedFloat(u) by {
      DecimalIsUnsignedFloat(w, f);
    }
    assert FloatAccepts(u) && FloatAccepts(['-'] + u) by {
      SignedAccepted('-', u);
    }
    assert "-" + w + "." + f == ['-'] + u;
  }

  /** A sign in front of a sign-free float literal is accepted. */
  lemma SignedAccepted(c: char, u: string)
    requires IsSign(c) && IsUnsignedFloat(u)
    ensures FloatAccepts(u) && FloatAccepts([c] + u)
  {
    assert ([c] + u)[1..] == u;
  }

  /** `float()` accepts `<digits>` and `-<digits>`. */
  lemma IntegerAccepted(w: string)
    requires |w| > 0 && AllAsciiDigits(w)
    ensures FloatAccepts(w) && FloatAccepts("-" + w)
  {
    assert IsUnsignedFloat(w) by {
      DecimalIsUnsignedFloat(w, []);
    }
    SignedAccepted('-', w);
    assert "-" + w == ['-'] + w;
  }

  /** `<digits>e<digits>` is a float literal. */
  lemma ExponentIsUnsignedFloat(w: string, x: string)
    requires |w| > 0 && AllAsciiDigits(w) && |x| > 0 && AllAsciiDigits(x)
    ensures IsUnsignedFloat(w + "e" + x)
  {
    var u := w + "e" + x;
    LowerIdentity(u);
    assert 'e' !in w;
    assert IndexOf(u, 'e') == Some(|w|) by {
      assert u[|w|] == 'e' && u[..|w|] == w;
    }
    assert u[..|w|] == w && u[|w| + 1..] == x;
    DecimalIsNumber(w, []);
    DigitsArePart(x);
  }

  /** A sign on its own is not a number. */
  lemma SignAloneRejected()
    ensures !FloatAccepts("-") && !FloatAccepts("+")
  {
    assert Lower("-") == "-" && Lower("+") == "+" && Lower("") == "";
  }
}
