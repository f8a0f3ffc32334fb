/**
 * The two readers of a PostGIS EWKT point `SRID=4326;POINT(<lon> <lat>)` used
 * by the events app: `Event.parse_geolocation_string` / `Event.get_lat_lon`
 * (events/models.py), which split the text, and `EventsBlock.parse_wkt_point`
 * (events/blocks.py), which searches it with a regular expression. Both
 * answer (latitude, longitude), the reverse of the text's order. Coordinates
 * are kept as the text `float()` would read.
 */
module Geolocation {
  import opened Wrappers
  import opened Text

  /** A coordinate pair, latitude first. */
  datatype LatLon = LatLon(lat: string, lon: string)

  const PointOpen: string := "POINT("
  const SridPoint: string := "SRID=4326;POINT("

  // ---------------------------------------------------------------------------
  // parse_geolocation_string / get_lat_lon

  /** The last position at or before `k` where `sep` occurs in `s`. */
  function LastOccurrence(s: string, sep: string, k: int): (r: Option<nat>)
    ensures r.Some? ==> r.value <= k && OccursAt(s, sep, r.value)
    ensures r.Some? ==> forall j :: r.value < j <= k ==> !OccursAt(s, sep, j)
    ensures r.None? ==> forall j :: 0 <= j <= k ==> !OccursAt(s, sep, j)
    decreases k
  {
    if k < 0 then None
    else if OccursAt(s, sep, k) then Some(k)
    else LastOccurrence(s, sep, k - 1)
  }

  /**
   * `s.split("POINT(")[-1]`: the text after the last `POINT(`, or all of `s`
   * when there is none. (`POINT(` cannot overlap itself, so the last piece of
   * the left-to-right split begins after its last occurrence.)
   */
  function AfterLastPointOpen(s: string): (r: string)
    ensures NoOccurrence(s, PointOpen) ==> r == s
    ensures forall i :: IsLastOccurrence(s, PointOpen, i) ==> r == s[i + |PointOpen|..]
  {
    match LastOccurrence(s, PointOpen, |s| - |PointOpen|)
    case None => s
    case Some(i) => s[i + |PointOpen|..]
  }

  /** `sep` occurs nowhere in `s`. */
  predicate NoOccurrence(s: string, sep: string) {
    forall j :: 0 <= j <= |s| ==> !OccursAt(s, sep, j)
  }

  /** `sep` occurs in `s` at `i` and at no later position. */
  predicate IsLastOccurrence(s: string, sep: string, i: int) {
    OccursAt(s, sep, i) && forall j :: i < j <= |s| ==> !OccursAt(s, sep, j)
  }

  /**
   * `Event.parse_geolocation_string`: `(None, None)` (here `None`) unless the
   * text starts with `SRID=4326;POINT(`, the text after the last `POINT(`
   * with its trailing `)` removed is exactly two whitespace-separated words,
   * and `float()` accepts both; then (second word, first word).
   */
  function ParseGeolocationString(geo: Option<string>): (r: Option<LatLon>)
    ensures geo.None? || !StartsWith(geo.value, SridPoint) ==> r.None?
    ensures r.Some? <==> (geo.Some? && StartsWith(geo.value, SridPoint) &&
      var w := PointWords(geo.value); |w| == 2 && FloatAccepts(w[0]) && FloatAccepts(w[1]))
    ensures r.Some? ==> r.value == LatLon(PointWords(geo.value)[1], PointWords(geo.value)[0])
    ensures r.Some? ==> |r.value.lat| > 0 && NoSpace(r.value.lat) && |r.value.lon| > 0 && NoSpace(r.value.lon)
  {
    if geo.None? || geo.value == "" || !StartsWith(geo.value, SridPoint) then None
    else
      var words := PointWords(geo.value);
      if |words| == 2 && FloatAccepts(words[1]) && FloatAccepts(words[0]) then Some(LatLon(words[1], words[0]))
      else None
  }

  /** `s.split("POINT(")[-1].rstrip(")").split()`: the words of the last point text. */
  function PointWords(s: string): (w: seq<string>)
    ensures forall i :: 0 <= i < |w| ==> |w[i]| > 0 && NoSpace(w[i])
  {
    Split(RStripChar(AfterLastPointOpen(s), ')'))
  }

  /** Removing trailing `c` ignores any run of `c` appended to text that does not end in `c`. */
  lemma {:induction false} RStripCharAppended(x: string, tail: string, c: char)
    requires x == [] || x[|x| - 1] != c
    requires forall i :: 0 <= i < |tail| ==> tail[i] == c
    ensures RStripChar(x + tail, c) == x
    decreases |tail|
  {
    if |tail| == 0 {
      assert x + tail == x;
    } else {
      assert (x + tail)[..|x + tail| - 1] == x + tail[..|tail| - 1];
      RStripCharAppended(x, tail[..|tail| - 1], c);
    }
  }

  /** No `POINT(` starts at or after position `from - 5` when no `(` follows position `from`. */
  lemma NoPointOpenAfter(s: string, from: int)
    requires 0 <= from <= |s|
    requires forall i :: from <= i < |s| ==> s[i] != '('
    ensures forall j :: from - 5 <= j ==> !OccursAt(s, PointOpen, j)
  {
    forall j | from - 5 <= j ensures !OccursAt(s, PointOpen, j) {
      if 0 <= j && j + 6 <= |s| {
        assert s[j..j + 6][5] == s[j + 5];
      }
    }
  }

  /** The text after the last `POINT(` of `SRID=4326;POINT(` + `rest` is `rest` when `rest` has no `(`. */
  lemma AfterSridPoint(rest: string)
    requires '(' !in rest
    ensures AfterLastPointOpen(SridPoint + rest) == rest
  {
    var s := SridPoint + rest;
    assert OccursAt(s, PointOpen, 10) by {
      assert s[10..16] == SridPoint[10..16];
    }
    forall i | 16 <= i < |s| ensures s[i] != '(' {
      assert s[i] == rest[i - 16];
    }
    NoPointOpenAfter(s, 16);
    assert LastOccurrence(s, PointOpen, |s| - |PointOpen|) == Some(10);
    assert s[16..] == rest;
  }

  /** The text of a point, however it is spaced and closed, starts right and splits into its two coordinates. */
  lemma PointText(lon: string, sp: string, lat: string, closers: string)
    requires |lon| > 0 && NoSpace(lon) && '(' !in lon
    requires |lat| > 0 && NoSpace(lat) && '(' !in lat && lat[|lat| - 1] != ')'
    requires |sp| > 0 && forall i :: 0 <= i < |sp| ==> IsSpace(sp[i])
    requires forall i :: 0 <= i < |closers| ==> closers[i] == ')'
    ensures StartsWith(SridPoint + lon + sp + lat + closers, SridPoint)
    ensures Split(RStripChar(AfterLastPointOpen(SridPoint + lon + sp + lat + closers), ')')) == [lon, lat]
  {
    var body := lon + sp + lat;
    var rest := body + closers;
    var s := SridPoint + rest;
    assert SridPoint + lon + sp + lat + closers == s;
    NoOpenAround(lon, sp, lat, closers);
    assert s[..|SridPoint|] == SridPoint;
    AfterSridPoint(rest);
    RStripCharAppended(body, closers, ')');
    SplitTwoWords(lon, sp, lat);
  }

  /** Spaces and closing brackets hold no `(`, so neither does the point body. */
  lemma NoOpenAround(lon: string, sp: string, lat: string, closers: string)
    requires '(' !in lon && '(' !in lat
    requires forall i :: 0 <= i < |sp| ==> IsSpace(sp[i])
    requires forall i :: 0 <= i < |closers| ==> closers[i] == ')'
    ensures '(' !in lon + sp + lat + closers
  {
    assert '(' !in sp;
    assert '(' !in closers;
  }

  /**
   * Round trip: the text a `PointField` holds for a point, with any amount of
   * whitespace between the coordinates and any number of closing brackets,
   * reads back as (latitude, longitude).
   */
  lemma GeolocationRoundTrip(lon: string, sp: string, lat: string, closers: string)
    requires |lon| > 0 && NoSpace(lon) && '(' !in lon && FloatAccepts(lon)
    requires |lat| > 0 && NoSpace(lat) && '(' !in lat && lat[|lat| - 1] != ')' && FloatAccepts(lat)
    requires |sp| > 0 && forall i :: 0 <= i < |sp| ==> IsSpace(sp[i])
    requires forall i :: 0 <= i < |closers| ==> closers[i] == ')'
    ensures ParseGeolocationString(Some(SridPoint + lon + sp + lat + closers)) == Some(LatLon(lat, lon))
  {
    PointText(lon, sp, lat, closers);
  }

  // ---------------------------------------------------------------------------
  // parse_wkt_point: re.search(r"POINT\(([-\d.]+) ([-\d.]+)\)", wkt)

  /** A character of the class `[-\d.]`. */
  predicate IsCoordChar(c: char) {
    c == '-' || c == '.' || IsAsciiDigit(c)
  }

  /** The length of the longest run of `[-\d.]` starting at `i`. */
  function RunLength(s: string, i: nat): (n: nat)
    requires i <= |s|
    ensures i + n <= |s|
    ensures forall k :: i <= k < i + n ==> IsCoordChar(s[k])
    ensures i + n == |s| || !IsCoordChar(s[i + n])
    decreases |s| - i
  {
    if i < |s| && IsCoordChar(s[i]) then 1 + RunLength(s, i + 1) else 0
  }

  /**
   * The pattern matches at `p`. Neither group's class contains the character
   * that must follow it (a space, then `)`), so each group is the whole run of
   * `[-\d.]` at its position, and the match at `p` is unique.
   */
  predicate MatchesAt(s: string, p: int) {
    OccursAt(s, PointOpen, p) &&
    var a := p + |PointOpen|;
    var n := RunLength(s, a);
    n > 0 && a + n < |s| && s[a + n] == ' ' &&
    var b := a + n + 1;
    var m := RunLength(s, b);
    m > 0 && b + m < |s| && s[b + m] == ')'
  }

  /** The two groups of the match at `p`: the first and the second number. */
  function Groups(s: string, p: int): (g: (string, string))
    requires MatchesAt(s, p)
  {
    var a := p + |PointOpen|;
    var n := RunLength(s, a);
    var b := a + n + 1;
    (s[a..a + n], s[b..b + RunLength(s, b)])
  }

  /** `re.search`: the leftmost position, from `p` on, where the pattern matches. */
  function FirstMatch(s: string, p: nat): (r: Option<nat>)
    ensures r.Some? ==> p <= r.value && MatchesAt(s, r.value)
    ensures r.Some? ==> forall j :: p <= j < r.value ==> !MatchesAt(s, j)
    ensures r.None? ==> forall j :: p <= j ==> !MatchesAt(s, j)
    decreases |s| - p
  {
    if p + |PointOpen| > |s| then None
    else if MatchesAt(s, p) then Some(p)
    else FirstMatch(s, p + 1)
  }

  /** What `parse_wkt_point` does: return a pair, return `None`, or raise `ValueError` from `float()`. */
  datatype WktOutcome = NoMatch | Point(lat: string, lng: string) | RaisesValueError

  /**
   * `EventsBlock.parse_wkt_point` as written: the groups of the leftmost match
   * go to `float()` unguarded, so a match whose groups are not numbers raises.
   */
  function ParseWktPoint(wkt: string): (r: WktOutcome)
    ensures r.Point? ==> FloatAccepts(r.lat) && FloatAccepts(r.lng)
  {
    match FirstMatch(wkt, 0)
    case None => NoMatch
    case Some(q) => GroupsOutcome(wkt, q)
  }

  /**
   * `parse_wkt_point` finds nothing exactly when the pattern matches nowhere,
   * and otherwise gives the outcome of the leftmost match.
   */
  lemma ParseWktPointLeftmost(wkt: string)
    ensures ParseWktPoint(wkt).NoMatch? <==> forall j :: 0 <= j ==> !MatchesAt(wkt, j)
    ensures forall p :: IsLeftmostMatch(wkt, p) ==> ParseWktPoint(wkt) == GroupsOutcome(wkt, p)
  {
    match FirstMatch(wkt, 0)
    case None =>
    case Some(q) =>
      assert forall p :: IsLeftmostMatch(wkt, p) ==> p == q;
  }

  /** The pattern matches at `p` and at no earlier position: the match `re.search` finds. */
  predicate IsLeftmostMatch(s: string, p: int) {
    MatchesAt(s, p) && forall j :: 0 <= j < p ==> !MatchesAt(s, j)
  }

  /** `float()` applied to the two groups of the match at `p`: a (lat, lng) pair, or `ValueError`. */
  function GroupsOutcome(s: string, p: int): (r: WktOutcome)
    requires MatchesAt(s, p)
    ensures r.Point? <==> FloatAccepts(Groups(s, p).0) && FloatAccepts(Groups(s, p).1)
    ensures r.Point? ==> (r.lng, r.lat) == Groups(s, p)
  {
    var (lng, lat) := Groups(s, p);
    if FloatAccepts(lng) && FloatAccepts(lat) then Point(lat, lng) else RaisesValueError
  }

  /**
   * `parse_wkt_point` as its documentation describes it: a (lat, lng) pair, or
   * `None` if the text is not a valid point — including a match whose groups
   * are not numbers.
   */
  function ParseWktPointOrNone(wkt: string): (r: Option<LatLon>)
    ensures r.Some? <==> ParseWktPoint(wkt).Point?
    ensures r.Some? ==> r.value == LatLon(ParseWktPoint(wkt).lat, ParseWktPoint(wkt).lng)
  {
    match FirstMatch(wkt, 0)
    case None => None
    case Some(p) =>
      var (lng, lat) := Groups(wkt, p);
      if FloatAccepts(lng) && FloatAccepts(lat) then Some(LatLon(lat, lng)) else None
  }

  /** A run of `[-\d.]` characters. */
  predicate IsCoordRun(s: string) {
    |s| > 0 && forall i :: 0 <= i < |s| ==> IsCoordChar(s[i])
  }

  /** `POINT(<lng> <lat>)` at position `p` of `s` matches there, with the two numbers as its groups. */
  lemma WktMatch(s: string, p: nat, lng: string, lat: string)
    requires IsCoordRun(lng) && IsCoordRun(lat)
    requires p + |PointOpen| + |lng| + |lat| + 2 <= |s|
    requires s[p..p + |PointOpen|] == PointOpen
    requires s[p + |PointOpen|..p + |PointOpen| + |lng| + 1] == lng + " "
    requires s[p + |PointOpen| + |lng| + 1..p + |PointOpen| + |lng| + |lat| + 2] == lat + ")"
    ensures MatchesAt(s, p) && Groups(s, p) == (lng, lat)
  {
    var a := p + |PointOpen|;
    var b := a + |lng| + 1;
    RunFollowedBy(s, a, lng, ' ');
    RunFollowedBy(s, b, lat, ')');
    MatchFromRuns(s, p, |lng|, |lat|);
    assert Groups(s, p) == (s[a..a + |lng|], s[b..b + |lat|]);
  }

  /** The match at `p`, from the lengths of its two runs and the characters after them. */
  lemma MatchFromRuns(s: string, p: nat, n: nat, m: nat)
    requires OccursAt(s, PointOpen, p)
    requires var a := p + |PointOpen|; a + n + 1 + m < |s| && RunLength(s, a) == n && n > 0 && s[a + n] == ' '
    requires var b := p + |PointOpen| + n + 1; RunLength(s, b) == m && m > 0 && s[b + m] == ')'
    ensures MatchesAt(s, p)
    ensures var a := p + |PointOpen|; Groups(s, p) == (s[a..a + n], s[a + n + 1..a + n + 1 + m])
  {
  }

  /** The middle part of a concatenation, sliced back out. */
  lemma SliceOfConcat(x: string, y: string, z: string)
    ensures (x + y + z)[|x|..|x| + |y|] == y
  {
  }

  /** A run of `[-\d.]` at `i` followed by a character outside the class is the whole run there. */
  lemma RunFollowedBy(s: string, i: nat, run: string, follow: char)
    requires IsCoordRun(run) && !IsCoordChar(follow)
    requires i + |run| < |s| && s[i..i + |run| + 1] == run + [follow]
    ensures RunLength(s, i) == |run| && s[i..i + |run|] == run && s[i + |run|] == follow
  {
    forall k | i <= k < i + |run| ensures s[k] == run[k - i] {
      assert s[i..i + |run| + 1][k - i] == s[k];
    }
    assert s[i..i + |run| + 1][|run|] == s[i + |run|];
    RunLengthAt(s, i, |run|);
  }

  /** No match starts inside text that has no `(`, when `POINT(` follows it. */
  lemma NoMatchInHead(s: string, head: string)
    requires '(' !in head && StartsWith(s, head + PointOpen)
    ensures forall j :: 0 <= j < |head| ==> !MatchesAt(s, j)
  {
    var hp := head + PointOpen;
    forall j | 0 <= j < |head| ensures !OccursAt(s, PointOpen, j) {
      if j + 6 <= |s| {
        assert s[j..j + 6][5] == s[j + 5] == hp[j + 5];
        if j + 5 < |head| {
          assert hp[j + 5] == head[j + 5];
        } else {
          assert hp[j + 5] == PointOpen[j + 5 - |head|];
        }
      }
    }
  }

  /** In `POINT(<lng> <lat>)` after text without `(`, the leftmost match is that point and its groups are the two numbers. */
  lemma WktText(head: string, lng: string, lat: string, tail: string)
    requires '(' !in head && IsCoordRun(lng) && IsCoordRun(lat)
    ensures FirstMatch(head + PointOpen + lng + " " + lat + ")" + tail, 0) == Some(|head|)
    ensures Groups(head + PointOpen + lng + " " + lat + ")" + tail, |head|) == (lng, lat)
  {
    var s := head + PointOpen + lng + " " + lat + ")" + tail;
    var p := |head|;
    assert s == head + PointOpen + (lng + " " + lat + ")" + tail);
    SliceOfConcat(head, PointOpen, lng + " " + lat + ")" + tail);
    assert s == (head + PointOpen) + (lng + " ") + (lat + ")" + tail);
    SliceOfConcat(head + PointOpen, lng + " ", lat + ")" + tail);
    assert s == (head + PointOpen + lng + " ") + (lat + ")") + tail;
    SliceOfConcat(head + PointOpen + lng + " ", lat + ")", tail);
    WktMatch(s, p, lng, lat);
    assert s[..|head + PointOpen|] == head + PointOpen;
    NoMatchInHead(s, head);
    FirstMatchIs(s, 0, p);
  }

  /**
   * Round trip: `POINT(<lng> <lat>)` after any text without `(`, followed by
   * anything, reads back as (lat, lng); no SRID prefix is needed.
   */
  lemma WktRoundTrip(head: string, lng: string, lat: string, tail: string)
    requires '(' !in head
    requires IsCoordRun(lng) && FloatAccepts(lng) && IsCoordRun(lat) && FloatAccepts(lat)
    ensures ParseWktPoint(head + PointOpen + lng + " " + lat + ")" + tail) == Point(lat, lng)
  {
    WktText(head, lng, lat, tail);
  }

  /** The run of `[-\d.]` at `i` has length `n` when `n` class characters are followed by one outside the class. */
  lemma {:induction false} RunLengthAt(s: string, i: nat, n: nat)
    requires i + n < |s| && !IsCoordChar(s[i + n])
    requires forall k :: i <= k < i + n ==> IsCoordChar(s[k])
    ensures RunLength(s, i) == n
    decreases n
  {
    if n > 0 {
      RunLengthAt(s, i + 1, n - 1);
    }
  }

  /** The leftmost match from `p` on is `q` when `q` matches and nothing between does. */
  lemma {:induction false} FirstMatchIs(s: string, p: nat, q: nat)
    requires p <= q && MatchesAt(s, q)
    requires forall j :: p <= j < q ==> !MatchesAt(s, j)
    ensures FirstMatch(s, p) == Some(q)
    decreases q - p
  {
    if p < q {
      FirstMatchIs(s, p + 1, q);
    }
  }

  // ---------------------------------------------------------------------------
  // Worked inputs.

  /** -4.05 and 53.18 are numbers `float()` reads, and runs of `[-\d.]`. */
  lemma BangorNumbers(lon: string, lat: string)
    requires lon == "-4.05" && lat == "53.18"
    ensures FloatAccepts(lon) && FloatAccepts(lat) && IsCoordRun(lon) && IsCoordRun(lat)
  {
    assert FloatAccepts(lon) && IsCoordRun(lon) by {
      SignedDecimal("4", "05", lon);
    }
    assert FloatAccepts(lat) && IsCoordRun(lat) by {
      SignedDecimal("53", "18", lat);
    }
  }

  lemma SignedDecimal(w: string, f: string, s: string)
    requires |w| > 0 && AllAsciiDigits(w) && |f| > 0 && AllAsciiDigits(f)
    requires s == w + "." + f || s == "-" + w + "." + f
    ensures FloatAccepts(s) && IsCoordRun(s)
  {
    DecimalAccepted(w, f);
  }

  /** The point -4.05, 53.18 (near Bangor) reads back as (53.18, -4.05) with the splitting reader. */
  lemma BangorGeolocation(lon: string, lat: string)
    requires lon == "-4.05" && lat == "53.18"
    ensures ParseGeolocationString(Some(SridPoint + lon + " " + lat + ")")) == Some(LatLon(lat, lon))
  {
    BangorNumbers(lon, lat);
    CoordRunShape(lon);
    CoordRunShape(lat);
    GeolocationRoundTrip(lon, " ", lat, ")");
  }

  /** The same point reads back as (53.18, -4.05) with the regular-expression reader. */
  lemma BangorWkt(lon: string, lat: string)
    requires lon == "-4.05" && lat == "53.18"
    ensures ParseWktPoint("SRID=4326;" + PointOpen + lon + " " + lat + ")") == Point(lat, lon)
  {
    BangorNumbers(lon, lat);
    assert "SRID=4326;" + PointOpen + lon + " " + lat + ")" == "SRID=4326;" + PointOpen + lon + " " + lat + ")" + "";
    WktRoundTrip("SRID=4326;", lon, lat, "");
  }

  /** A run of `[-\d.]` has no whitespace and no brackets. */
  lemma CoordRunShape(s: string)
    requires IsCoordRun(s)
    ensures |s| > 0 && NoSpace(s) && '(' !in s && s[|s| - 1] != ')'
  {
  }

  // ---------------------------------------------------------------------------
  // Where the two readers disagree.

  /** Without the SRID prefix the splitting reader gives nothing, while the regular-expression reader still finds the point. */
  lemma ReadersDifferWithoutSrid(lon: string, lat: string)
    requires IsCoordRun(lon) && FloatAccepts(lon) && IsCoordRun(lat) && FloatAccepts(lat)
    ensures ParseGeolocationString(Some(PointOpen + lon + " " + lat + ")")) == None
    ensures ParseWktPoint(PointOpen + lon + " " + lat + ")") == Point(lat, lon)
  {
    var s := PointOpen + lon + " " + lat + ")";
    assert s[0] != SridPoint[0];
    BarePointWkt(lon, lat);
  }

  /** `POINT(<lng> <lat>)` on its own reads back as (lat, lng) with the regular-expression reader. */
  lemma BarePointWkt(lng: string, lat: string)
    requires IsCoordRun(lng) && FloatAccepts(lng) && IsCoordRun(lat) && FloatAccepts(lat)
    ensures ParseWktPoint(PointOpen + lng + " " + lat + ")") == Point(lat, lng)
  {
    assert "" + PointOpen + lng + " " + lat + ")" + "" == PointOpen + lng + " " + lat + ")";
    WktRoundTrip("", lng, lat, "");
  }

  /**
   * A longitude written with an exponent is read by the splitting reader, but
   * `[-\d.]` stops at the `e`, so the regular-expression reader finds no point.
   */
  lemma ReadersDifferOnExponent(w: string, x: string, lat: string)
    requires |w| > 0 && AllAsciiDigits(w) && |x| > 0 && AllAsciiDigits(x)
    requires IsCoordRun(lat) && FloatAccepts(lat)
    ensures ParseGeolocationString(Some(SridPoint + (w + "e" + x) + " " + lat + ")")) == Some(LatLon(lat, w + "e" + x))
    ensures ParseWktPoint(SridPoint + (w + "e" + x) + " " + lat + ")") == NoMatch
  {
    var lon := w + "e" + x;
    ExponentIsUnsignedFloat(w, x);
    CoordRunShape(lat);
    assert NoSpace(lon) && '(' !in lon;
    GeolocationRoundTrip(lon, " ", lat, ")");
    ExponentStopsMatch(w, x, lat);
  }

  lemma ExponentStopsMatch(w: string, x: string, lat: string)
    requires |w| > 0 && AllAsciiDigits(w) && |x| > 0 && AllAsciiDigits(x) && IsCoordRun(lat)
    ensures forall j :: 0 <= j ==> !MatchesAt(SridPoint + (w + "e" + x) + " " + lat + ")", j)
  {
    var s := SridPoint + (w + "e" + x) + " " + lat + ")";
    var rest := (w + "e" + x) + " " + lat + ")";
    assert s == SridPoint + rest;
    // no `POINT(` starts after the one in the prefix
    assert forall j :: 11 <= j ==> !OccursAt(s, PointOpen, j) by {
      assert '(' !in rest by {
        CoordRunShape(lat);
      }
      forall i | 16 <= i < |s| ensures s[i] != '(' {
        assert s[i] == rest[i - 16];
      }
      NoPointOpenAfter(s, 16);
    }
    // none inside `SRID=4326;` either
    assert forall j :: 0 <= j < 10 ==> !MatchesAt(s, j) by {
      assert "SRID=4326;" + PointOpen == SridPoint;
      NoMatchInHead(s, "SRID=4326;");
    }
    // at the prefix's `POINT(`, the first number stops at the `e`
    assert RunLength(s, 16) == |w| && s[16 + |w|] == 'e' by {
      forall k | 16 <= k < 16 + |w| ensures IsCoordChar(s[k]) {
        assert s[k] == w[k - 16];
      }
      assert s[16 + |w|] == 'e';
      RunLengthAt(s, 16, |w|);
    }
  }

  /**
   * `POINT(- <lat>)`: the pattern accepts `-` as a number, `float("-")` raises,
   * and the exception leaves `parse_wkt_point`; read as documented, the text is
   * simply not a point.
   */
  lemma SignOnlyLongitudeRaises(lat: string)
    requires IsCoordRun(lat) && FloatAccepts(lat)
    ensures ParseWktPoint(PointOpen + "-" + " " + lat + ")") == RaisesValueError
    ensures ParseWktPointOrNone(PointOpen + "-" + " " + lat + ")") == None
    ensures ParseGeolocationString(Some(SridPoint + "-" + " " + lat + ")")) == None
  {
    var s := PointOpen + "-" + " " + lat + ")";
    assert "" + PointOpen + "-" + " " + lat + ")" + "" == s;
    WktText("", "-", lat, "");
    SignAloneRejected();
    SignOnlyGeolocation(lat);
  }

  lemma SignOnlyGeolocation(lat: string)
    requires IsCoordRun(lat)
    ensures ParseGeolocationString(Some(SridPoint + "-" + " " + lat + ")")) == None
  {
    CoordRunShape(lat);
    assert NoSpace("-") && '(' !in "-";
    PointText("-", " ", lat, ")");
    SignAloneRejected();
  }
}
