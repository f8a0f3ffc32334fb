/**
 * `EventsBlock` (events/blocks.py): the block value's categories, the
 * query's area ids, the areas they select in the current locale, the page of
 * filtered events, and the map markers built for that page.
 */
module EventsBlock {
  import opened Wrappers
  import opened Calendar
  import opened Text
  import opened Collections
  import opened DateInstances
  import opened Events
  import opened Pagination
  import Geolocation

  // ---------------------------------------------------------------------------
  // Selected categories.

  /** The present values of `s`, in order. */
  function Present<T>(s: seq<Option<T>>): (r: seq<T>)
    ensures |r| <= |s|
    ensures forall i :: 0 <= i < |r| ==> Some(r[i]) in s
    ensures forall i :: 0 <= i < |s| && s[i].Some? ==> s[i].value in r
    decreases |s|
  {
    if |s| == 0 then []
    else
      var init := Present(s[..|s| - 1]);
      assert s == s[..|s| - 1] + [s[|s| - 1]];
      match s[|s| - 1]
      case None => init
      case Some(x) => init + [x]
  }

  /** Dropping `None` entries is done part by part: the order of the rest is kept. */
  lemma {:induction false} PresentAppend<T>(a: seq<Option<T>>, b: seq<Option<T>>)
    ensures Present(a + b) == Present(a) + Present(b)
    decreases |b|
  {
    if |b| == 0 {
      assert a + b == a;
    } else {
      assert (a + b)[..|a + b| - 1] == a + b[..|b| - 1];
      PresentAppend(a, b[..|b| - 1]);
    }
  }

  /** Without `None` entries nothing is dropped. */
  lemma {:induction false} PresentAll<T>(s: seq<T>)
    ensures Present(seq(|s|, i requires 0 <= i < |s| => Some(s[i]))) == s
    decreases |s|
  {
    if |s| > 0 {
      var w := seq(|s|, i requires 0 <= i < |s| => Some(s[i]));
      assert w[..|w| - 1] == seq(|s| - 1, i requires 0 <= i < |s| - 1 => Some(s[..|s| - 1][i]));
      PresentAll(s[..|s| - 1]);
    }
  }

  /** `get_selected_categories`: the chosen categories without the empty choices; none when the value has no list. */
  function SelectedCategories(categories: Option<seq<Option<CategoryId>>>): (r: seq<CategoryId>)
    ensures categories.None? ==> r == []
    ensures categories.Some? ==> r == Present(categories.value)
  {
    match categories
    case None => []
    case Some(s) => Present(s)
  }

  // ---------------------------------------------------------------------------
  // Area ids from the query.

  /**
   * Characters Python's `str.isdigit` accepts but `int()` refuses: those of
   * Unicode numeric type Digit that are not decimal digits (the Unicode 15.0
   * database of Python 3.12): superscript and subscript digits, Ethiopic
   * digits, circled, parenthesised and full-stop digits, the dingbat digits
   * and a few historic scripts' digits.
   */
  predicate IsDigitOnlyChar(c: char) {
    ('\U{00B2}' <= c <= '\U{00B3}') || c == '\U{00B9}' || ('\U{1369}' <= c <= '\U{1371}') || c == '\U{19DA}'
    || c == '\U{2070}' || ('\U{2074}' <= c <= '\U{2079}') || ('\U{2080}' <= c <= '\U{2089}')
    || ('\U{2460}' <= c <= '\U{2468}') || ('\U{2474}' <= c <= '\U{247C}') || ('\U{2488}' <= c <= '\U{2490}')
    || c == '\U{24EA}' || ('\U{24F5}' <= c <= '\U{24FD}') || c == '\U{24FF}'
    || ('\U{2776}' <= c <= '\U{277E}') || ('\U{2780}' <= c <= '\U{2788}') || ('\U{278A}' <= c <= '\U{2792}')
    || ('\U{10A40}' <= c <= '\U{10A43}') || ('\U{10E60}' <= c <= '\U{10E68}') || ('\U{11052}' <= c <= '\U{1105A}')
    || ('\U{1F100}' <= c <= '\U{1F10A}')
  }

  /** `str.isdigit`: non-empty, and every character a digit. */
  predicate IsDigitText(s: string) {
    |s| > 0 && forall i :: 0 <= i < |s| ==> IsAsciiDigit(s[i]) || IsDigitOnlyChar(s[i])
  }

  /** Text `int()` reads as a non-negative number without a sign: non-empty decimal digits. */
  predicate IsDecimalText(s: string) {
    |s| > 0 && AllAsciiDigits(s)
  }

  datatype IdsOutcome = Ids(ids: seq<int>) | RaisesValueError

  /**
   * The area ids as written: `[int(a) for a in values if a.isdigit()]`.
   * A value that passes `isdigit` but is not decimal reaches `int()` and
   * raises.
   */
  function AreaIdsAsWritten(values: seq<string>): (r: IdsOutcome)
    ensures r.RaisesValueError? <==> exists i :: 0 <= i < |values| && IsDigitText(values[i]) && !AllAsciiDigits(values[i])
    ensures r.Ids? ==> r.ids == AreaIds(values)
    decreases |values|
  {
    if |values| == 0 then Ids([])
    else
      var rest := AreaIdsAsWritten(values[1..]);
      assert forall i :: 1 <= i < |values| ==> values[i] == values[1..][i - 1];
      if IsDigitText(values[0]) && !AllAsciiDigits(values[0]) then RaisesValueError
      else if rest.RaisesValueError? then RaisesValueError
      else if IsDigitText(values[0]) then Ids([DecimalValue(values[0])] + rest.ids)
      else rest
  }

  /**
   * The area ids as intended: each value made only of decimal digits, as a
   * number, in query order; anything else (`-3`, `a1`, ``, `²`) is dropped.
   */
  function AreaIds(values: seq<string>): (r: seq<int>)
    ensures |r| == |Filter(values, IsDecimalText)|
    ensures forall i :: 0 <= i < |r| ==> r[i] == DecimalValue(Filter(values, IsDecimalText)[i])
    decreases |values|
  {
    if |values| == 0 then []
    else if IsDecimalText(values[0]) then [DecimalValue(values[0])] + AreaIds(values[1..])
    else AreaIds(values[1..])
  }

  /** `?areas=²` and `?areas=①` raise as written; the intended reading drops the values. */
  lemma SuperscriptAreaId()
    ensures AreaIdsAsWritten(["\U{00B2}"]) == RaisesValueError
    ensures AreaIdsAsWritten(["\U{2460}"]) == RaisesValueError
    ensures AreaIds(["\U{00B2}", "\U{2460}"]) == []
  {
    assert IsDigitText("\U{00B2}") && !IsAsciiDigit("\U{00B2}"[0]);
    assert IsDigitText("\U{2460}") && !IsAsciiDigit("\U{2460}"[0]);
  }

  /** A sign, a letter and an empty value are dropped before a number. */
  lemma AreaIdsSkipExample()
    ensures AreaIds(["-3", "a1", "", "7"]) == [7]
  {
    assert AreaIds(["7"]) == [7] by {
      assert IsDecimalText("7") && DecimalValue("7") == 7;
    }
    assert AreaIds(["", "7"]) == [7] by {
      assert ["", "7"][1..] == ["7"];
    }
    assert AreaIds(["a1", "", "7"]) == [7] by {
      assert !IsAsciiDigit("a1"[0]);
      assert ["a1", "", "7"][1..] == ["", "7"];
    }
    assert !IsAsciiDigit("-3"[0]);
    assert ["-3", "a1", "", "7"][1..] == ["a1", "", "7"];
  }

  /** Signs, letters and empty values are dropped; the rest keep their order. */
  lemma AreaIdsExample()
    ensures AreaIds(["12", "-3", "a1", "", "7"]) == [12, 7]
  {
    var v := ["12", "-3", "a1", "", "7"];
    assert AreaIds(v[1..]) == [7] by {
      assert v[1..] == ["-3", "a1", "", "7"];
      AreaIdsSkipExample();
    }
    TwelveValue();
    assert v[0] == "12";
  }

  /** `int("12") == 12`. */
  lemma TwelveValue()
    ensures IsDecimalText("12") && DecimalValue("12") == 12
  {
    assert "1"[..0] == "";
    assert DecimalValue("1") == 1;
    assert "12"[..1] == "1";
  }

  // ---------------------------------------------------------------------------
  // Areas selected by the query.

  /**
   * `translated_areas`: with no ids, none; otherwise the areas of the
   * current locale that share a translation key with an area whose id was
   * asked for.
   */
  function TranslatedAreas(ids: seq<int>, allAreas: seq<Area>, active: LocaleId): (r: seq<Area>)
    ensures |ids| == 0 ==> r == []
    ensures forall a :: a in r <==>
      |ids| > 0 && a in allAreas && a.locale == active &&
      exists b :: b in allAreas && b.id in ids && b.translationKey == a.translationKey
  {
    if |ids| == 0 then []
    else
      var keys := set b | b in allAreas && b.id in ids :: b.translationKey;
      var r := Filter(allAreas, (a: Area) => a.translationKey in keys && a.locale == active);
      assert forall a :: a in r <==> a in allAreas && a.translationKey in keys && a.locale == active by {
        forall a ensures a in r <==> a in allAreas && a.translationKey in keys && a.locale == active {
          FilterMember(allAreas, (a: Area) => a.translationKey in keys && a.locale == active, a);
        }
      }
      r
  }

  /**
   * An empty query set is falsy: when the ids select no area of the current
   * locale, the listing is not restricted by area at all.
   */
  lemma UnmatchedAreaIdsListEverything(events: seq<Event>, instances: map<EventId, set<Day>>, active: LocaleId,
                                       categories: seq<CategoryId>, start: Option<Day>, end: Option<Day>,
                                       ids: seq<int>, allAreas: seq<Area>)
    requires forall b :: b in allAreas && b.id in ids ==> forall a :: a in allAreas && a.translationKey == b.translationKey ==> a.locale != active
    ensures GetFilteredEvents(events, instances, active, categories, start, end, TranslatedAreas(ids, allAreas, active))
         == GetFilteredEvents(events, instances, active, categories, start, end, [])
  {
  }

  // ---------------------------------------------------------------------------
  // Labels.

  /** A `Label` row. */
  datatype Label = Label(key: string, value: string, locale: LocaleId)

  /** `{label.key: label.value for label in labels}` over the current locale's labels; a later row wins. */
  function LabelsFor(labels: seq<Label>, active: LocaleId): (r: map<string, string>)
    ensures forall k :: k in r <==> exists i :: 0 <= i < |labels| && labels[i].locale == active && labels[i].key == k
    decreases |labels|
  {
    if |labels| == 0 then map[]
    else
      var init := labels[..|labels| - 1];
      var last := labels[|labels| - 1];
      var m := LabelsFor(init, active);
      assert forall i :: 0 <= i < |init| ==> init[i] == labels[i];
      if last.locale == active then m[last.key := last.value] else m
  }

  /** With (key, locale) unique, as the table requires, each label of the locale is found under its key. */
  lemma {:induction false} LabelsLookup(labels: seq<Label>, active: LocaleId, j: int)
    requires forall i, k :: 0 <= i < k < |labels| && labels[i].locale == labels[k].locale ==> labels[i].key != labels[k].key
    requires 0 <= j < |labels| && labels[j].locale == active
    ensures labels[j].key in LabelsFor(labels, active)
    ensures LabelsFor(labels, active)[labels[j].key] == labels[j].value
    decreases |labels|
  {
    var init := labels[..|labels| - 1];
    if j < |labels| - 1 {
      LabelsLookup(init, active, j);
    }
  }

  // ---------------------------------------------------------------------------
  // Map markers.

  /** A `map_events` entry; the coordinates are the matched number texts. */
  datatype MapEvent = MapEvent(title: string, description: string, url: string, lat: string, lng: string)

  /** `parse_wkt_point(event.geolocation) if event.geolocation else None`: no match without a geolocation. */
  function Reading(e: Event): (r: Geolocation.WktOutcome)
    ensures e.geolocation.None? || e.geolocation.value == "" ==> r.NoMatch?
  {
    if e.geolocation.Some? && e.geolocation.value != "" then Geolocation.ParseWktPoint(e.geolocation.value)
    else Geolocation.NoMatch
  }

  /** The coordinates that give an event a marker: those of the point read from its geolocation. */
  function Coordinates(e: Event): (r: Option<Geolocation.LatLon>)
    ensures r.Some? ==> e.geolocation.Some? && e.geolocation.value != ""
    ensures r.Some? <==> e.geolocation.Some? && Geolocation.ParseWktPoint(e.geolocation.value).Point?
  {
    match Reading(e)
    case Point(lat, lng) => Some(Geolocation.LatLon(lat, lng))
    case _ => None
  }

  /**
   * The coordinates are what the corrected reader gives for a non-empty
   * geolocation: a point text whose numbers `float()` refuses gives no marker.
   */
  lemma CoordinatesCorrected(e: Event)
    ensures Coordinates(e) ==
      if e.geolocation.Some? && e.geolocation.value != "" then Geolocation.ParseWktPointOrNone(e.geolocation.value) else None
  {
  }

  /** The marker of an event with coordinates: description and url default to "". */
  function Marker(e: Event, at: Geolocation.LatLon): (m: MapEvent)
    ensures m.title == e.title && m.lat == at.lat && m.lng == at.lon
    ensures m.description == (if e.description.Some? then e.description.value else "")
    ensures m.url == (if e.urlLink.Some? then e.urlLink.value else "")
  {
    MapEvent(e.title, e.description.GetOr(""), e.urlLink.GetOr(""), at.lat, at.lon)
  }

  /** The markers of a page: one per event with coordinates, in page order. */
  function MapEntries(page: seq<Event>): (r: seq<MapEvent>)
    ensures |r| <= |page|
    decreases |page|
  {
    if |page| == 0 then []
    else
      var e := page[|page| - 1];
      var init := MapEntries(page[..|page| - 1]);
      match Coordinates(e)
      case None => init
      case Some(at) => init + [Marker(e, at)]
  }

  predicate HasCoordinates(e: Event) {
    Coordinates(e).Some?
  }

  /** The markers of a page are the markers of its events with coordinates, one each, in page order. */
  lemma {:induction false} MapEntriesContents(page: seq<Event>)
    ensures var located := Filter(page, HasCoordinates);
      |MapEntries(page)| == |located| &&
      forall i :: 0 <= i < |located| ==> MapEntries(page)[i] == Marker(located[i], Coordinates(located[i]).value)
    decreases |page|
  {
    if |page| > 0 {
      var init := page[..|page| - 1];
      var last := page[|page| - 1];
      MapEntriesContents(init);
      SplitLast(page);
      FilterAppend(init, [last], HasCoordinates);
      if HasCoordinates(last) {
        assert Filter([last], HasCoordinates) == [last];
        assert MapEntries(page) == MapEntries(init) + [Marker(last, Coordinates(last).value)];
      } else {
        assert Filter([last], HasCoordinates) == [];
        assert MapEntries(page) == MapEntries(init);
      }
    }
  }

  /** `parse_wkt_point` raises for the event: its point text matches the pattern with a group that is not a number. */
  predicate WktRaises(e: Event) {
    Reading(e).RaisesValueError?
  }

  /** The index of the first reading that raises, or the number of readings when none does. */
  function FirstRaise(readings: seq<Geolocation.WktOutcome>): (n: nat)
    ensures n <= |readings|
    ensures forall j :: 0 <= j < n ==> !readings[j].RaisesValueError?
    ensures n < |readings| ==> readings[n].RaisesValueError?
  {
    if |readings| == 0 || readings[0].RaisesValueError? then 0 else 1 + FirstRaise(readings[1..])
  }

  /** What `parse_wkt_point` gives for each event of the page, in page order. */
  function Readings(page: seq<Event>): (r: seq<Geolocation.WktOutcome>)
    ensures |r| == |page|
  {
    if |page| == 0 then [] else [Reading(page[0])] + Readings(page[1..])
  }

  lemma {:induction false} ReadingAt(page: seq<Event>, i: nat)
    requires i < |page|
    ensures Readings(page)[i] == Reading(page[i])
  {
    if i > 0 {
      ReadingAt(page[1..], i - 1);
      assert page[1..][i - 1] == page[i];
    }
  }

  /** How far the marker loop gets: to the first event whose reading raises, or through the whole page. */
  function LoopReach(page: seq<Event>): (n: nat)
    ensures n <= |page|
  {
    FirstRaise(Readings(page))
  }

  /** The loop passes every event before its reach and stops at the event there, which raises. */
  lemma LoopReachStops(page: seq<Event>, i: nat)
    requires i <= LoopReach(page)
    ensures i < LoopReach(page) ==> !WktRaises(page[i])
    ensures i == LoopReach(page) && i < |page| ==> WktRaises(page[i])
  {
    if i < |page| {
      ReadingAt(page, i);
    }
  }

  /** One more event of the page adds its marker, if it has coordinates. */
  lemma MapEntriesStep(page: seq<Event>, i: nat)
    requires i < |page|
    ensures MapEntries(page[..i + 1]) ==
      MapEntries(page[..i]) + (if Coordinates(page[i]).Some? then [Marker(page[i], Coordinates(page[i]).value)] else [])
  {
    assert page[..i + 1][..i] == page[..i];
  }

  /**
   * The marker loop of `get_context`, as written: each event of the page
   * whose geolocation gives coordinates gets `map_lat`/`map_lng` and a
   * marker. The first event whose point text makes `float()` raise stops the
   * loop with `ValueError` (`None` here); the events before it keep their
   * new coordinates.
   */
  method BuildMapEvents(page: seq<Event>) returns (markers: Option<seq<MapEvent>>)
    modifies set e | e in page
    ensures LoopReach(page) == |page| ==> markers == Some(MapEntries(page))
    ensures LoopReach(page) < |page| ==> markers.None?
    ensures forall e :: e in page ==>
      var marked := e in page[..LoopReach(page)] && Coordinates(e).Some?;
      e.mapLat == (if marked then Some(Coordinates(e).value.lat) else old(e.mapLat)) &&
      e.mapLng == (if marked then Some(Coordinates(e).value.lon) else old(e.mapLng))
  {
    var found: seq<MapEvent> := [];
    var i := 0;
    ghost var visited: set<Event> := {};
    while i < |page|
      invariant 0 <= i <= LoopReach(page)
      invariant found == MapEntries(page[..i])
      invariant forall e :: e in visited <==> e in page[..i]
      invariant forall e :: e in page ==>
        e.mapLat == (if e in visited && Coordinates(e).Some? then Some(Coordinates(e).value.lat) else old(e.mapLat)) &&
        e.mapLng == (if e in visited && Coordinates(e).Some? then Some(Coordinates(e).value.lon) else old(e.mapLng))
    {
      var event := page[i];
      PrefixStep(page, i);
      MapEntriesStep(page, i);
      LoopReachStops(page, i);
      var reading := Reading(event);
      if reading.RaisesValueError? {
        return None;
      }
      if reading.Point? {
        event.mapLat := Some(reading.lat);
        event.mapLng := Some(reading.lng);
        found := found + [Marker(event, Geolocation.LatLon(reading.lat, reading.lng))];
      }
      visited := visited + {event};
      i := i + 1;
    }
    assert page[..i] == page;
    markers := Some(found);
  }

  // ---------------------------------------------------------------------------
  // The block's context.

  /** A `start_date`/`end_date` query value: absent or empty, a date, or text the date parser refuses. */
  datatype DateParam = NoDate | ParsedDate(date: Day) | Unparseable

  /** The query values the block reads. */
  datatype Request = Request(startDate: DateParam, endDate: DateParam, areas: seq<string>, page: PageParam)

  /** The tables the block queries. */
  datatype Database = Database(events: seq<Event>, instances: map<EventId, set<Day>>, areas: seq<Area>, labels: seq<Label>)

  datatype EventsContext = EventsContext(
    mapEvents: seq<MapEvent>,
    events: seq<Event>,
    startDate: Option<Day>,
    endDate: Option<Day>,
    categories: seq<CategoryId>,
    areas: seq<Area>,
    selectedAreas: seq<Area>,
    labels: map<string, string>)

  /** `get_context` either raises (no request, a date that does not parse, a number `int()` or `float()` refuses) or fills the context. */
  datatype ContextOutcome = MissingRequest | InvalidDate | NumberError | Rendered(context: EventsContext)

  const PerPage: nat := 10

  function DateValue(p: DateParam): (d: Option<Day>)
    ensures d.Some? <==> p.ParsedDate?
  {
    if p.ParsedDate? then Some(p.date) else None
  }

  /** Neither date of the query fails to parse. */
  predicate DatesParse(request: Request) {
    !request.startDate.Unparseable? && !request.endDate.Unparseable?
  }

  /** The areas of the current locale (the `areas` entry of the context). */
  function AreasIn(areas: seq<Area>, active: LocaleId): (r: seq<Area>)
    ensures forall a :: a in r <==> a in areas && a.locale == active
  {
    var r := Filter(areas, (a: Area) => a.locale == active);
    assert forall a :: a in r <==> a in areas && a.locale == active by {
      forall a ensures a in r <==> a in areas && a.locale == active {
        FilterMember(areas, (a: Area) => a.locale == active, a);
      }
    }
    r
  }

  /** The query's selection as `get_filtered_events` receives it. */
  function SelectedAreas(request: Request, db: Database, active: LocaleId): seq<Area> {
    TranslatedAreas(AreaIds(request.areas), db.areas, active)
  }

  /** The events `get_filtered_events` answers for the block value and the query. */
  function FilteredEvents(categories: Option<seq<Option<CategoryId>>>, request: Request, db: Database, active: LocaleId): seq<Event> {
    GetFilteredEvents(db.events, db.instances, active, SelectedCategories(categories),
                      DateValue(request.startDate), DateValue(request.endDate), SelectedAreas(request, db, active))
  }

  /**
   * The page of events the block lists: the page of the filtered events the
   * query asks for, so at most ten, none when nothing passes the filters and
   * at least one otherwise; each one visible and meeting every filter the
   * block value and the query supply.
   */
  function ListedEvents(categories: Option<seq<Option<CategoryId>>>, request: Request, db: Database, active: LocaleId): (r: seq<Event>)
    ensures r == Paginate(FilteredEvents(categories, request, db, active), request.page, PerPage)
    ensures |r| <= PerPage
    ensures |r| == 0 <==> |FilteredEvents(categories, request, db, active)| == 0
    ensures forall i :: 0 <= i < |r| ==> r[i] in db.events
    ensures forall i :: 0 <= i < |r| ==>
      Selected(r[i], db.instances, active, SelectedCategories(categories),
               DateValue(request.startDate), DateValue(request.endDate), SelectedAreas(request, db, active))
  {
    var cats := SelectedCategories(categories);
    var start := DateValue(request.startDate);
    var end := DateValue(request.endDate);
    var areas := SelectedAreas(request, db, active);
    var listed := GetFilteredEvents(db.events, db.instances, active, cats, start, end, areas);
    var r := Paginate(listed, request.page, PerPage);
    assert forall i :: 0 <= i < |r| ==> r[i] in db.events && Selected(r[i], db.instances, active, cats, start, end, areas) by {
      forall i | 0 <= i < |r| ensures r[i] in db.events && Selected(r[i], db.instances, active, cats, start, end, areas) {
        FilteredEventsMembers(db.events, db.instances, active, cats, start, end, areas, r[i]);
      }
    }
    r
  }

  /**
   * The events `get_context` gives `map_lat`/`map_lng`: when the request
   * reaches the marker loop, the listed events with coordinates before the
   * first one whose reading raises.
   */
  function MarkedEvents(categories: Option<seq<Option<CategoryId>>>, request: Option<Request>, db: Database, active: LocaleId): (r: set<Event>)
    ensures forall e :: e in r ==> e in db.events && Coordinates(e).Some?
  {
    if request.None? || !DatesParse(request.value) || AreaIdsAsWritten(request.value.areas).RaisesValueError? then {}
    else
      var listed := ListedEvents(categories, request.value, db, active);
      set e | e in listed[..LoopReach(listed)] && Coordinates(e).Some?
  }

  /**
   * `EventsBlock.get_context`: without a request it raises; a date query
   * value that does not parse raises; an area value that passes `isdigit`
   * without being decimal raises in `int()`; a listed event whose point text
   * matches with a group that is not a number raises in `float()`, after the
   * events before it got their coordinates. Otherwise the context holds the
   * listed page, its map markers (the page's events with coordinates get
   * `map_lat`/`map_lng`), the dates, the categories, the current locale's
   * areas, the selected areas and the locale's labels.
   */
  method GetContext(categories: Option<seq<Option<CategoryId>>>, request: Option<Request>, db: Database, active: LocaleId)
    returns (r: ContextOutcome)
    modifies set e | e in db.events
    ensures request.None? ==> r == MissingRequest
    ensures request.Some? && !DatesParse(request.value) ==> r == InvalidDate
    ensures request.Some? && DatesParse(request.value) && AreaIdsAsWritten(request.value.areas).RaisesValueError? ==>
      r == NumberError
    ensures request.Some? && DatesParse(request.value) && AreaIdsAsWritten(request.value.areas).Ids? ==>
      var listed := ListedEvents(categories, request.value, db, active);
      r == if LoopReach(listed) < |listed| then NumberError
           else Rendered(EventsContext(
             MapEntries(listed), listed,
             DateValue(request.value.startDate), DateValue(request.value.endDate),
             SelectedCategories(categories), AreasIn(db.areas, active),
             SelectedAreas(request.value, db, active), LabelsFor(db.labels, active)))
    ensures forall e :: e in db.events ==>
      var marked := e in MarkedEvents(categories, request, db, active);
      e.mapLat == (if marked then Some(Coordinates(e).value.lat) else old(e.mapLat)) &&
      e.mapLng == (if marked then Some(Coordinates(e).value.lon) else old(e.mapLng))
  {
    if request.None? {
      return MissingRequest;
    }
    var req := request.value;
    if req.startDate.Unparseable? || req.endDate.Unparseable? {
      return InvalidDate;
    }
    var start := DateValue(req.startDate);
    var end := DateValue(req.endDate);
    var ids := AreaIdsAsWritten(req.areas);
    if ids.RaisesValueError? {
      return NumberError;
    }
    var selectedAreas := TranslatedAreas(ids.ids, db.areas, active);
    var selectedCategories := SelectedCategories(categories);
    var page := ListedEvents(categories, req, db, active);
    var markers := BuildMapEvents(page);
    if markers.None? {
      return NumberError;
    }
    var context := EventsContext(markers.value, page, start, end, selectedCategories,
                                 AreasIn(db.areas, active), selectedAreas, LabelsFor(db.labels, active));
    r := Rendered(context);
  }
}
