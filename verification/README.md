# wagtail_wiss core, modelled in Dafny

This project models the logic of the `wagtail_wiss` Wagtail site package that goes beyond declarative schema:

- **Recurring events.**
  - An event has recurrence rules (`EventDate`: a start, an optional end, a frequency and an interval). The rules expand into concrete dates, following the recurrence semantics of section 3.3.10 of RFC 5545 that `dateutil.rrule` implements.
  - The event's date-instance cache is refreshed from those dates.
  - The events listing filters events by locale, archive flag, categories, a date window and areas.
  - The events block sanitises query parameters, resolves areas across translations, paginates and builds map markers.
- **Two geolocation readers.** They take the text `SRID=4326;POINT(lon lat)` apart in different ways: `Event.parse_geolocation_string` by string splitting, and `EventsBlock.parse_wkt_point` by a regular expression.
- **Page-rendering helpers:**
  - the sitemap's two-column split;
  - the news list's visibility filter and ordering;
  - the polygon map block (translation by key, field fallbacks, the "view more" label);
  - flat-menu visibility propagation and the news expiry default;
  - the SCSS class-choice extractor;
  - the document file-type marker;
  - the `linebreak_span` template filter.

Each Python module becomes a Dafny module:

| Dafny module | models |
|---|---|
| `Calendar` | Python `date` ordinals (`toordinal`), adding days |
| `Recurrence` | `EventDate.generate_dates` and the rrule expansion it delegates to |
| `DateInstances` | `Event.refresh_event_date_instances` over a cache class `DateInstanceStore` |
| `Events` | the `Event` record, `get_lat_lon`, `get_filtered_events` |
| `Geolocation` | `parse_geolocation_string` and `parse_wkt_point` (regex matching written out) |
| `EventsBlock` | `get_selected_categories`, area-id sanitising, translated areas, map markers, labels, `get_context` |
| `Pagination` | `paginate` (page selection over Django's `Paginator`) |
| `PageBlocks` | `SiteMapBlock.get_context`, `NewsBlock.get_context` |
| `PolygonsBlock` | `PolygonsBlock.get_context` (nested loops as a method with invariants) |
| `Menus` | `MenuItem.save` (a method updating `Page` objects in place), `get_child_pages`, `__str__`, `default_expiry_date` |
| `StyleHelpers` | `get_class_choices_from_scss` (a method with a loop; the regex match written out; stable sort) |
| `DocHelpers` | `get_file_marker_html` with `os.path.splitext` (POSIX) |
| `WissTags` | `linebreak_span` |
| `Text`, `Collections`, `Sorting`, `Wrappers` | Python string operations (`strip`, `split`, `lower`, `title`, `float` acceptance), filters and subsequences, a stable insertion sort, `Option` |

Python's `None` is `Option.None`. Exceptions the code raises become explicit outcomes, such as `RaisesValueError` and `MissingRequest`. Query values, the active locale, "today" and "now" are parameters.

## Model

Each row names a Dafny member, the source lines it models, and what its contract states. Source paths are relative to the repository root.

| member | source | states |
|---|---|---|
| `Calendar.DaysInMonth` | wagtail_wiss/wagtail_wiss/events/models.py:394-399 | a month has 28 to 31 days, and 29 exactly for February of a leap year (the calendar rrule steps through) |
| `Calendar.DaysBeforeYearClosedForm` | wagtail_wiss/wagtail_wiss/events/models.py:390 | the days before year y are 365(y-1) plus the Gregorian leap-day count, the closed form of Python's date ordinal |
| `Calendar.OrdinalOrder` | wagtail_wiss/wagtail_wiss/events/models.py:390 | comparing two valid dates (`end_date < start_date`) is the same as comparing their day numbers; equal day numbers mean equal dates |
| `Calendar.OrdinalBefore` | wagtail_wiss/wagtail_wiss/events/models.py:390 | an earlier date has a smaller day number |
| `Calendar.NextDay` | wagtail_wiss/wagtail_wiss/events/models.py:394-399 | the next valid date has day number one more |
| `Calendar.AddDays` | wagtail_wiss/wagtail_wiss/snippets/models.py:240 | `date + timedelta(days=n)` is the valid date whose day number is n more |
| `Recurrence.FrequencyCodesMatchRrule` | wagtail_wiss/wagtail_wiss/events/models.py:346-349 | the stored codes DAILY=3, WEEKLY=2, MONTHLY=1, YEARLY=0 read back as the same rrule frequency and are distinct |
| `Recurrence.DaySteps` | wagtail_wiss/wagtail_wiss/events/models.py:394-401 | stepping by a fixed number of days from start to until: starts at start when start is not after until, stays within [start, until], consecutive dates exactly `step` days apart |
| `Recurrence.Candidate` | wagtail_wiss/wagtail_wiss/events/models.py:394-399 | the month-grid candidate for a month index and day keeps that day and lands in that month |
| `Recurrence.GenerateDates` | wagtail_wiss/wagtail_wiss/events/models.py:379-408 | no start gives []; no end, or an end before the start, gives exactly [start]; otherwise the list starts at start, stays within [start, end] and strictly increases (so it has no duplicates) |
| `Recurrence.ExpandOrdered` | wagtail_wiss/wagtail_wiss/events/models.py:394-401 | the rrule expansion of every frequency starts at dtstart, stays within [dtstart, until] and strictly increases |
| `Recurrence.DayStepsOrdered` | wagtail_wiss/wagtail_wiss/events/models.py:394-401 | the same for day stepping |
| `Recurrence.MonthStepsOrdered` | wagtail_wiss/wagtail_wiss/events/models.py:394-401 | the same for month stepping |
| `Recurrence.DayStepsIncreasing` | wagtail_wiss/wagtail_wiss/events/models.py:394-401 | day stepping yields strictly increasing day numbers |
| `Recurrence.MonthStepsElement` | wagtail_wiss/wagtail_wiss/events/models.py:394-399 | every month-stepped date keeps the start's day of month, lies a multiple of the step in months after the start, and is not after until |
| `Recurrence.MonthStepsShape` | wagtail_wiss/wagtail_wiss/events/models.py:394-399 | every month-stepped date lies on the start's month grid |
| `Recurrence.MonthStepsIncreasing` | wagtail_wiss/wagtail_wiss/events/models.py:394-401 | month stepping yields strictly increasing month indices |
| `Recurrence.DayStepsMembers` | wagtail_wiss/wagtail_wiss/events/models.py:394-401 | a date is generated by day stepping iff it lies in [start, until] a multiple of the step after start |
| `Recurrence.DayStepsCount` | wagtail_wiss/wagtail_wiss/events/models.py:394-401 | day stepping yields (until - start) div step + 1 dates, or none when start is after until |
| `Recurrence.MonthStepsMembers` | wagtail_wiss/wagtail_wiss/events/models.py:394-399 | a date is generated by month stepping iff it has the start's day of month, lies a multiple of the step in months after start, and is not after until; months lacking that day are skipped, not clamped |
| `Recurrence.YearGrid` | wagtail_wiss/wagtail_wiss/events/models.py:394-399 | a month offset is a multiple of 12n iff it is a whole number of years that is a multiple of n |
| `Recurrence.DailyDates` | wagtail_wiss/wagtail_wiss/events/models.py:394-401 | with DAILY and interval n, a date is generated iff it lies in [start, end] a multiple of n days after start |
| `Recurrence.WeeklyDates` | wagtail_wiss/wagtail_wiss/events/models.py:394-401 | with WEEKLY and interval n, a date is generated iff it lies in [start, end] a multiple of 7n days after start |
| `Recurrence.MonthlyDates` | wagtail_wiss/wagtail_wiss/events/models.py:394-401 | with MONTHLY and interval n, a date is generated iff it has start's day of month, lies in [start, end] and a multiple of n months after start (so the 31st skips short months) |
| `Recurrence.YearlyDates` | wagtail_wiss/wagtail_wiss/events/models.py:394-401 | with YEARLY and interval n, a date is generated iff it has start's month and day, a multiple of n years after start, not after end (so 29 February appears only in leap years) |
| `Recurrence.DayRuleSpacing` | wagtail_wiss/wagtail_wiss/events/models.py:394-401 | DAILY/WEEKLY dates are exactly n (or 7n) days apart, and there are (end - start) div step + 1 of them |
| `DateInstances.Elements` | wagtail_wiss/wagtail_wiss/events/models.py:208 | `set(all_dates)` holds exactly the dates of the list |
| `DateInstances.AllDatesMembers` | wagtail_wiss/wagtail_wiss/events/models.py:202-208 | a date is in the de-duplicated union iff some rule of the event generates it |
| `DateInstances.AllDatesOrderFree` | wagtail_wiss/wagtail_wiss/events/models.py:203-208 | the union does not depend on the order in which the rules are read |
| `DateInstances.DateInstanceStore.constructor` | wagtail_wiss/wagtail_wiss/events/models.py:440-452 | an empty instance table |
| `DateInstances.DateInstanceStore.Refresh` | wagtail_wiss/wagtail_wiss/events/models.py:194-212 | afterwards the event's instances are exactly the union of its rules' dates (stale dates gone, a set so one row per (event, date)), and every other event's instances are unchanged |
| `DateInstances.DateInstanceStore.RefreshTwice` | wagtail_wiss/wagtail_wiss/events/models.py:194-212 | a second refresh with the same rules leaves the table as the first left it |
| `Events.Event.constructor` | wagtail_wiss/wagtail_wiss/events/models.py:236-244 | an event record with the given fields and no map coordinates yet |
| `Events.Event.GetLatLon` | wagtail_wiss/wagtail_wiss/events/models.py:236-244 | `get_lat_lon` is the same reader as `parse_geolocation_string` applied to the event's geolocation, and yields coordinates only for text starting `SRID=4326;POINT(` |
| `Events.AreaKeys` | wagtail_wiss/wagtail_wiss/events/models.py:298 | the translation keys are exactly those of the given areas |
| `Events.GetFilteredEvents` | wagtail_wiss/wagtail_wiss/events/models.py:258-301 | the result keeps the table order (a subsequence) and has no duplicates when the table has none |
| `Events.FilteredEventsMembers` | wagtail_wiss/wagtail_wiss/events/models.py:268-299 | an event is listed iff it is in the table, not archived, in the active locale, shares a category when categories are given, has one instance meeting every given date bound, and has an area whose key is among the given areas' keys when areas are given |
| `Events.HiddenEventsNotListed` | wagtail_wiss/wagtail_wiss/events/models.py:270-272 | an archived event, or one in another locale, is never listed |
| `Events.BoundsOnOneInstance` | wagtail_wiss/wagtail_wiss/events/models.py:279-285 | both date bounds must hold on one and the same instance: an event with one instance before the window and one after it is not listed for the window, yet is listed for each bound alone |
| `Events.MoreCategoriesMoreEvents` | wagtail_wiss/wagtail_wiss/events/models.py:275-276 | categories are OR-ed: widening a non-empty category list keeps every listed event |
| `Events.EndBoundNarrows` | wagtail_wiss/wagtail_wiss/events/models.py:279-285 | dropping the end bound keeps every listed event |
| `Geolocation.LastOccurrence` | wagtail_wiss/wagtail_wiss/events/models.py:252 | the position of the last occurrence of a separator at or before k, or none |
| `Geolocation.AfterLastPointOpen` | wagtail_wiss/wagtail_wiss/events/models.py:252 | `split("POINT(")[-1]`: the text after the last `POINT(`, or the whole text without one |
| `Geolocation.ParseGeolocationString` | wagtail_wiss/wagtail_wiss/events/models.py:246-256 | no coordinates for a missing text or one not starting `SRID=4326;POINT(`; otherwise coordinates exactly when the text after the last `POINT(`, with trailing `)` stripped, splits into two tokens that `float()` both accepts, and then they are (second token, first token) as (lat, lon) |
| `Geolocation.PointWords` | wagtail_wiss/wagtail_wiss/events/models.py:252-253 | the `split()` tokens of the point text: non-empty and whitespace-free |
| `Geolocation.AfterSridPoint` | wagtail_wiss/wagtail_wiss/events/models.py:252 | with no `(` after the prefix, the text after the last `POINT(` is the rest after the prefix |
| `Geolocation.PointText` | wagtail_wiss/wagtail_wiss/events/models.py:252-253 | `SRID=4326;POINT(lon lat)))` strips and splits into exactly [lon, lat] |
| `Geolocation.GeolocationRoundTrip` | wagtail_wiss/wagtail_wiss/events/models.py:246-256 | writing numeric lon and lat into `SRID=4326;POINT(lon lat)` (any whitespace, any number of closing parentheses) and parsing gives back (lat, lon) |
| `Geolocation.RunLength` | wagtail_wiss/wagtail_wiss/events/blocks.py:44 | the maximal run of `[-\d.]` characters from a position |
| `Geolocation.FirstMatch` | wagtail_wiss/wagtail_wiss/events/blocks.py:44 | `re.search` finds the leftmost position where `POINT(a b)` matches, or none |
| `Geolocation.ParseWktPoint` | wagtail_wiss/wagtail_wiss/events/blocks.py:44-49 | a point carries two `float()`-accepted numbers |
| `Geolocation.ParseWktPointLeftmost` | wagtail_wiss/wagtail_wiss/events/blocks.py:39-49 | `parse_wkt_point` gives no result iff the pattern matches nowhere, and otherwise the outcome of the leftmost match (`re.search`) |
| `Geolocation.GroupsOutcome` | wagtail_wiss/wagtail_wiss/events/blocks.py:45-48 | for a match, a point iff `float()` accepts both groups, and then (lat, lng) is (group 2, group 1); otherwise ValueError |
| `Geolocation.ParseWktPointOrNone` | wagtail_wiss/wagtail_wiss/events/blocks.py:44-49 | the corrected reader: coordinates exactly when the as-written reader returns a point, and no coordinates instead of raising |
| `Geolocation.WktMatch` | wagtail_wiss/wagtail_wiss/events/blocks.py:44 | the pattern matches at p with groups (lng, lat) when the text there is `POINT(lng lat)` |
| `Geolocation.NoMatchInHead` | wagtail_wiss/wagtail_wiss/events/blocks.py:44 | no match starts in a head without `(` |
| `Geolocation.WktText` | wagtail_wiss/wagtail_wiss/events/blocks.py:44 | in `head POINT(lng lat) tail` the first match is right after the head, with groups (lng, lat) |
| `Geolocation.WktRoundTrip` | wagtail_wiss/wagtail_wiss/events/blocks.py:39-49 | any prefix (no SRID needed) followed by `POINT(lng lat)` with numeric runs reads back as (lat, lng) |
| `Geolocation.RunLengthAt` | wagtail_wiss/wagtail_wiss/events/blocks.py:44 | the run length is n when n run characters are followed by a non-run character |
| `Geolocation.FirstMatchIs` | wagtail_wiss/wagtail_wiss/events/blocks.py:44 | the first match is q when it matches at q and nowhere before |
| `Geolocation.BangorGeolocation` | wagtail_wiss/wagtail_wiss/events/models.py:246-256 | `SRID=4326;POINT(-4.05 53.18)` reads as lat 53.18, lon -4.05 |
| `Geolocation.BangorWkt` | wagtail_wiss/wagtail_wiss/events/blocks.py:39-49 | the same text reads as lat 53.18, lng -4.05 in the block's reader |
| `Geolocation.ReadersDifferWithoutSrid` | wagtail_wiss/wagtail_wiss/events/blocks.py:44 | without the SRID prefix the model's reader refuses the text while the block's reader accepts it |
| `Geolocation.ReadersDifferOnExponent` | wagtail_wiss/wagtail_wiss/events/models.py:253-254 | a longitude written with an exponent (`1e5`) is accepted by `float()` in the model's reader but not matched by the block's pattern |
| `Geolocation.ExponentStopsMatch` | wagtail_wiss/wagtail_wiss/events/blocks.py:44 | the block's pattern matches nowhere in such a text |
| `Geolocation.SignOnlyLongitudeRaises` | wagtail_wiss/wagtail_wiss/events/blocks.py:44-49 | `POINT(- lat)` matches the pattern, so the block's reader raises ValueError; the corrected reader and the model's reader give no coordinates |
| `Geolocation.SignOnlyGeolocation` | wagtail_wiss/wagtail_wiss/events/models.py:253-256 | the model's reader catches the ValueError and gives no coordinates |
| `EventsBlock.Present` | wagtail_wiss/wagtail_wiss/events/blocks.py:58-60 | dropping None entries keeps exactly the present values |
| `EventsBlock.PresentAppend` | wagtail_wiss/wagtail_wiss/events/blocks.py:58-60 | dropping Nones distributes over concatenation (order kept) |
| `EventsBlock.PresentAll` | wagtail_wiss/wagtail_wiss/events/blocks.py:58-60 | with no None entries the values come back unchanged and in order |
| `EventsBlock.SelectedCategories` | wagtail_wiss/wagtail_wiss/events/blocks.py:53-60 | a missing list gives []; otherwise the present categories in order |
| `EventsBlock.AreaIdsAsWritten` | wagtail_wiss/wagtail_wiss/events/blocks.py:77 | the comprehension raises ValueError iff some value passes `isdigit()` (ASCII digits and the characters of Unicode numeric type Digit, such as `²` and `①`) without being ASCII digits; when it does not raise, its ids are exactly the corrected ids |
| `EventsBlock.AreaIds` | wagtail_wiss/wagtail_wiss/events/blocks.py:77 | the corrected comprehension: one id per value made only of ASCII digits, in query order, each the decimal value of its value |
| `EventsBlock.SuperscriptAreaId` | wagtail_wiss/wagtail_wiss/events/blocks.py:77 | the query values `²` and `①` each make the as-written comprehension raise; the corrected one drops both |
| `EventsBlock.AreaIdsExample` | wagtail_wiss/wagtail_wiss/events/blocks.py:77 | `["12", "-3", "a1", "", "7"]` gives [12, 7] |
| `EventsBlock.TranslatedAreas` | wagtail_wiss/wagtail_wiss/events/blocks.py:79-92 | no ids give []; otherwise exactly the areas of the current locale whose key is the key of an area with a selected id |
| `EventsBlock.UnmatchedAreaIdsListEverything` | wagtail_wiss/wagtail_wiss/events/blocks.py:79-101 | ids whose areas have no translation in the current locale give an empty selection, so the area filter is dropped and the listing is the unfiltered one |
| `EventsBlock.LabelsFor` | wagtail_wiss/wagtail_wiss/events/blocks.py:144-145 | the label keys are exactly the keys of the current locale's labels |
| `EventsBlock.LabelsLookup` | wagtail_wiss/wagtail_wiss/events/blocks.py:144-145 | with keys unique per locale, each label of the current locale is found under its key |
| `EventsBlock.Coordinates` | wagtail_wiss/wagtail_wiss/events/blocks.py:116-119 | coordinates exist iff the geolocation is non-empty and the WKT reader returns a point |
| `EventsBlock.Reading` | wagtail_wiss/wagtail_wiss/events/blocks.py:116-118 | an absent or empty geolocation is not read; a non-empty one gives what `parse_wkt_point` gives |
| `EventsBlock.CoordinatesCorrected` | wagtail_wiss/wagtail_wiss/events/blocks.py:116-119 | the coordinates are what the corrected reader gives for a non-empty geolocation, and none otherwise |
| `EventsBlock.Marker` | wagtail_wiss/wagtail_wiss/events/blocks.py:123-133 | a marker carries the title, the description or "", the url or "", and the read lat/lng |
| `EventsBlock.MapEntries` | wagtail_wiss/wagtail_wiss/events/blocks.py:110-133 | at most one marker per event of the page |
| `EventsBlock.MapEntriesContents` | wagtail_wiss/wagtail_wiss/events/blocks.py:110-133 | one marker per event that has coordinates, in page order, each the marker of that event at its coordinates |
| `EventsBlock.FirstRaise` | wagtail_wiss/wagtail_wiss/events/blocks.py:110-118 | the index of the first reading that raises: no reading before it raises, and the one there does (or it is the number of readings) |
| `EventsBlock.ReadingAt` | wagtail_wiss/wagtail_wiss/events/blocks.py:110-118 | the readings of a page are its events' readings, position by position |
| `EventsBlock.LoopReachStops` | wagtail_wiss/wagtail_wiss/events/blocks.py:110-118 | the marker loop passes every event before its reach, and the event at its reach raises |
| `EventsBlock.BuildMapEvents` | wagtail_wiss/wagtail_wiss/events/blocks.py:108-133 | when no reading raises, the markers are the page's markers in page order; otherwise the loop stops with ValueError at the first event whose matched groups `float()` refuses; the events before the stop that have coordinates get `map_lat`/`map_lng`, every other event is untouched |
| `EventsBlock.DateValue` | wagtail_wiss/wagtail_wiss/events/blocks.py:74-75 | a date bound exists iff the query value parsed as a date |
| `EventsBlock.AreasIn` | wagtail_wiss/wagtail_wiss/events/blocks.py:140 | exactly the areas of the current locale |
| `EventsBlock.ListedEvents` | wagtail_wiss/wagtail_wiss/events/blocks.py:94-106 | the requested page (ten per page) of the events that pass every filter; empty only when no event passes; each listed event is from the table and meets every filter |
| `EventsBlock.MarkedEvents` | wagtail_wiss/wagtail_wiss/events/blocks.py:110-122 | the events the marker loop changes: listed table events with coordinates before the loop stops, and none when the context raises earlier |
| `EventsBlock.GetContext` | wagtail_wiss/wagtail_wiss/events/blocks.py:62-149 | no request raises; an unparseable date raises; an area value that `isdigit()` accepts and `int()` refuses raises; a listed event whose WKT groups `float()` refuses raises; otherwise the context holds the page, its markers, the dates, categories, areas, selected areas and labels; only the marked events change, and they get their coordinates |
| `Pagination.NumPages` | wagtail_wiss/wagtail_wiss/pagination/utils.py:4 | at least one page, and just enough pages to hold every item |
| `Pagination.PageNumber` | wagtail_wiss/wagtail_wiss/pagination/utils.py:5-12 | the chosen page is in range; a valid number is kept; a missing or non-integer page gives page 1 |
| `Pagination.PageSlice` | wagtail_wiss/wagtail_wiss/pagination/utils.py:8 | a page holds at most `per_page` items |
| `Pagination.Paginate` | wagtail_wiss/wagtail_wiss/pagination/utils.py:3-14 | at most `per_page` items, all from the list, and a non-empty page for a non-empty list |
| `Pagination.OutOfRangeGivesLastPage` | wagtail_wiss/wagtail_wiss/pagination/utils.py:11-12 | a page number below 1 or past the end gives the last page |
| `Pagination.FirstPagesPrefix` | wagtail_wiss/wagtail_wiss/pagination/utils.py:8 | the first k pages together are the matching prefix of the list |
| `Pagination.PagesCoverItems` | wagtail_wiss/wagtail_wiss/pagination/utils.py:4-8 | all the pages together are the whole list, in order |
| `PageBlocks.SiteMapSections` | wagtail_wiss/wagtail_wiss/blocks.py:548-555 | exactly the live, public children that are not the current page and not excluded from the sitemap, in order |
| `PageBlocks.HalfSplit` | wagtail_wiss/wagtail_wiss/blocks.py:557-561 | left + right is the section list, and right has the same length as left or one more |
| `PageBlocks.SiteMapGetContext` | wagtail_wiss/wagtail_wiss/blocks.py:537-562 | no parent context or no page gives no sections; otherwise the two halves of the sitemap sections |
| `PageBlocks.CurrentPageNotListed` | wagtail_wiss/wagtail_wiss/blocks.py:554 | the current page is in neither column |
| `PageBlocks.NewsOrderIsPreorder` | wagtail_wiss/wagtail_wiss/blocks.py:593 | ordering by sort order, then newest first, is a total preorder |
| `PageBlocks.ShownNews` | wagtail_wiss/wagtail_wiss/blocks.py:584-590 | exactly the items that are not archived and not expired, of the block's category when it has one |
| `PageBlocks.NewsItems` | wagtail_wiss/wagtail_wiss/blocks.py:584-593 | a permutation of the shown items, sorted by sort order ascending then publication descending |
| `PageBlocks.NewsItemsMembers` | wagtail_wiss/wagtail_wiss/blocks.py:584-593 | an item is listed iff it is not archived, not expired, and of the category when one is set |
| `Sorting.Insert` | wagtail_wiss/wagtail_wiss/shared_utils/style_helpers.py:29 | inserting adds the element and nothing else |
| `Sorting.Sort` | wagtail_wiss/wagtail_wiss/shared_utils/style_helpers.py:29 | the sort is a permutation of its input |
| `Sorting.InsertSorted` | wagtail_wiss/wagtail_wiss/shared_utils/style_helpers.py:29 | inserting into a sorted list keeps it sorted |
| `Sorting.SortSorted` | wagtail_wiss/wagtail_wiss/shared_utils/style_helpers.py:29 | the sort's result is sorted by any total preorder |
| `Sorting.InsertTies` | wagtail_wiss/wagtail_wiss/shared_utils/style_helpers.py:29 | an inserted element goes before the elements of the list it ties with, which keep their order (the step that makes the sort stable) |
| `Sorting.SortStable` | wagtail_wiss/wagtail_wiss/shared_utils/style_helpers.py:29 | the sort is stable: elements that tie keep their input order |
| `PolygonsBlock.OrElse` | wagtail_wiss/wagtail_wiss/maps/blocks.py:37 | Python's `a or b` on optional text: a when it is non-empty, otherwise b |
| `PolygonsBlock.Entry` | wagtail_wiss/wagtail_wiss/maps/blocks.py:35-43 | title from the linked page, else the document title, else the polygon title; description from the item, else the polygon; link from link_url, else the linked page's url, else ""; the document's url and the item's colour |
| `PolygonsBlock.ItemEntries` | wagtail_wiss/wagtail_wiss/maps/blocks.py:33-43 | at most one map item per polygon item (its contents are stated by `PolygonsBlock.ItemEntriesContents`) |
| `PolygonsBlock.ItemEntriesContents` | wagtail_wiss/wagtail_wiss/maps/blocks.py:33-43 | one map item per polygon item that has a GeoJSON document, in item order, each the entry of that item; items without a document give none |
| `PolygonsBlock.ItemEntriesFrom` | wagtail_wiss/wagtail_wiss/maps/blocks.py:33-43 | every map item is the entry of some polygon item that has a document |
| `PolygonsBlock.Chosen` | wagtail_wiss/wagtail_wiss/maps/blocks.py:19-21 | the selected polygons are exactly the non-None selections |
| `PolygonsBlock.TranslatedPolygons` | wagtail_wiss/wagtail_wiss/maps/blocks.py:19-28 | exactly the polygons of the active locale whose translation key is a selected polygon's key |
| `PolygonsBlock.ViewMore` | wagtail_wiss/wagtail_wiss/maps/blocks.py:45-48 | "Gweld mwy" iff the language code is "cy", "View more" otherwise |
| `PolygonsBlock.CollectEntries` | wagtail_wiss/wagtail_wiss/maps/blocks.py:30-43 | the nested loops append exactly the map items of the polygons, in polygon order and item order, one per item with a document |
| `PolygonsBlock.GetContext` | wagtail_wiss/wagtail_wiss/maps/blocks.py:13-53 | the map items of the translated polygons, in polygon order and item order, and the view-more label of the locale |
| `Menus.Page.constructor` | wagtail_wiss/wagtail_wiss/snippets/models.py:136 | a page with the given flags and children |
| `Menus.LivePages` | wagtail_wiss/wagtail_wiss/snippets/models.py:136 | exactly the live pages, in order: a subsequence of the input holding every live page |
| `Menus.ShownLivePages` | wagtail_wiss/wagtail_wiss/snippets/models.py:144 | exactly the live pages that show in menus, in order: a subsequence of the input holding every such page |
| `Menus.ShownLiveAll` | wagtail_wiss/wagtail_wiss/snippets/models.py:135-145 | once every live page shows in menus, the shown live pages are all the live pages |
| `Menus.MenuItem.constructor` | wagtail_wiss/wagtail_wiss/snippets/models.py:124-152 | a menu item with the given menu, name, page and show_children |
| `Menus.MenuItem.Touched` | wagtail_wiss/wagtail_wiss/snippets/models.py:129-139 | the pages a save may change: none without a page, else the page and its children |
| `Menus.MenuItem.Save` | wagtail_wiss/wagtail_wiss/snippets/models.py:124-139 | the linked page shows in menus; with show_children so does every live child, while non-live children keep their flag; without a page nothing changes; afterwards `get_child_pages` lists every live child |
| `Menus.MenuItem.GetChildPages` | wagtail_wiss/wagtail_wiss/snippets/models.py:141-145 | [] unless both show_children and a page are set; otherwise exactly the page's live children that show in menus |
| `Menus.MenuItem.Str` | wagtail_wiss/wagtail_wiss/snippets/models.py:147-152 | "menu: name" (a missing name reads "None"), or "Menu item not associated with a menu" without a menu |
| `Menus.NameText` | wagtail_wiss/wagtail_wiss/snippets/models.py:149 | f-string formatting of an optional name |
| `Menus.SaveTwice` | wagtail_wiss/wagtail_wiss/snippets/models.py:124-139 | saving twice leaves the pages as one save does |
| `Menus.DefaultExpiryDate` | wagtail_wiss/wagtail_wiss/snippets/models.py:238-243 | today plus exactly 3650 days, strictly after today |
| `Menus.ExpiryIsNotTenYears` | wagtail_wiss/wagtail_wiss/snippets/models.py:239-240 | from 1 January 2024 the default expiry is 29 December 2033, not ten calendar years later |
| `StyleHelpers.SpanRun` | wagtail_wiss/wagtail_wiss/shared_utils/style_helpers.py:15 | a greedy character run holds only run characters and stops at a non-run character or the end |
| `StyleHelpers.SpanIs` | wagtail_wiss/wagtail_wiss/shared_utils/style_helpers.py:15 | a run of n characters followed by a non-run character has length n |
| `StyleHelpers.FirstClassAt` | wagtail_wiss/wagtail_wiss/shared_utils/style_helpers.py:18 | `search` finds the leftmost position where `.class` followed by optional whitespace and `{` matches |
| `StyleHelpers.LastNonNewline` | wagtail_wiss/wagtail_wiss/shared_utils/style_helpers.py:15 | the last position before hi that is not a line break (where the backtracking `\s*` hands over to `.+`) |
| `StyleHelpers.Captured` | wagtail_wiss/wagtail_wiss/shared_utils/style_helpers.py:15 | the `\s*(.+)` capture is non-empty and holds no line break |
| `StyleHelpers.DisplayGroup` | wagtail_wiss/wagtail_wiss/shared_utils/style_helpers.py:15 | the optional display-name group is non-empty when present |
| `StyleHelpers.MatchAt` | wagtail_wiss/wagtail_wiss/shared_utils/style_helpers.py:15-20 | the class group is a non-empty run of word characters and hyphens |
| `StyleHelpers.Search` | wagtail_wiss/wagtail_wiss/shared_utils/style_helpers.py:15-19 | a line matches iff some position starts a class declaration, and the match is the leftmost one |
| `StyleHelpers.DisplayName` | wagtail_wiss/wagtail_wiss/shared_utils/style_helpers.py:21-25 | the stripped captured text, or the class name with `-` as space, title-cased |
| `StyleHelpers.RawChoices` | wagtail_wiss/wagtail_wiss/shared_utils/style_helpers.py:17-26 | at most one choice per line |
| `StyleHelpers.LexLeTotal` | wagtail_wiss/wagtail_wiss/shared_utils/style_helpers.py:29 | Python string comparison orders any two strings |
| `StyleHelpers.LexLeTransitive` | wagtail_wiss/wagtail_wiss/shared_utils/style_helpers.py:29 | Python string comparison is transitive |
| `StyleHelpers.LexLeAntisymmetric` | wagtail_wiss/wagtail_wiss/shared_utils/style_helpers.py:29 | strings ordered both ways are equal |
| `StyleHelpers.ByDisplayNameIsPreorder` | wagtail_wiss/wagtail_wiss/shared_utils/style_helpers.py:29 | ordering choices by display name is a total preorder |
| `StyleHelpers.TiedMeansSameName` | wagtail_wiss/wagtail_wiss/shared_utils/style_helpers.py:29 | two choices tie iff they have the same display name |
| `StyleHelpers.ClassChoices` | wagtail_wiss/wagtail_wiss/shared_utils/style_helpers.py:5-32 | a missing file gives []; otherwise "No Style" first, then one choice per matching line |
| `StyleHelpers.GetClassChoicesFromScss` | wagtail_wiss/wagtail_wiss/shared_utils/style_helpers.py:5-32 | the loop over the lines computes exactly the class choices of the file |
| `StyleHelpers.RawChoicesContents` | wagtail_wiss/wagtail_wiss/shared_utils/style_helpers.py:17-26 | one choice per line that declares a class, in file order, each that line's class name and display name; duplicates are kept |
| `StyleHelpers.ChoicesShape` | wagtail_wiss/wagtail_wiss/shared_utils/style_helpers.py:17-32 | the result has 1 + (matching lines) entries, ("", "No Style") first, then a permutation of the raw choices sorted by display name |
| `StyleHelpers.ChoicesStable` | wagtail_wiss/wagtail_wiss/shared_utils/style_helpers.py:29 | choices with the same display name keep their file order |
| `StyleHelpers.ClassLine` | wagtail_wiss/wagtail_wiss/shared_utils/style_helpers.py:15-20 | a line `.name {rest` matches with class `name` and the display group of `rest` |
| `StyleHelpers.ClassAtStart` | wagtail_wiss/wagtail_wiss/shared_utils/style_helpers.py:15 | such a line starts a declaration with the class run and the whitespace run at their lengths |
| `StyleHelpers.ClassAtIndices` | wagtail_wiss/wagtail_wiss/shared_utils/style_helpers.py:15 | the same, stated on positions |
| `StyleHelpers.DisplayAtIndices` | wagtail_wiss/wagtail_wiss/shared_utils/style_helpers.py:15 | `// Display Name:` after optional whitespace makes the group the capture of what follows |
| `StyleHelpers.CapturedText` | wagtail_wiss/wagtail_wiss/shared_utils/style_helpers.py:15 | whitespace followed by a name that starts with a non-space captures the name |
| `StyleHelpers.DisplayLine` | wagtail_wiss/wagtail_wiss/shared_utils/style_helpers.py:15 | `// Display Name: name` (any whitespace) gives the group `name` |
| `StyleHelpers.BlankDisplayName` | wagtail_wiss/wagtail_wiss/shared_utils/style_helpers.py:15-25 | a marker followed by a single space and a line break captures " ", so the display name is the empty string, not the class name |
| `StyleHelpers.NoDisplayName` | wagtail_wiss/wagtail_wiss/shared_utils/style_helpers.py:15-25 | a marker followed directly by a line break captures nothing, so the title-cased class name is used |
| `StyleHelpers.BlankGroup` | wagtail_wiss/wagtail_wiss/shared_utils/style_helpers.py:15 | the group for a marker, a space and a line break is " " |
| `StyleHelpers.NoGroup` | wagtail_wiss/wagtail_wiss/shared_utils/style_helpers.py:15 | there is no group for a marker and a line break |
| `DocHelpers.LastIndexOf` | wagtail_wiss/wagtail_wiss/shared_utils/doc_helpers.py:14 | the position of the last occurrence of a character, or none when it is absent |
| `DocHelpers.Extension` | wagtail_wiss/wagtail_wiss/shared_utils/doc_helpers.py:14 | the extension is empty or a suffix of the name that starts with `.` and holds no other `.` and no `/` |
| `DocHelpers.Label` | wagtail_wiss/wagtail_wiss/shared_utils/doc_helpers.py:16-32 | a label exists iff the extension is one of the thirteen keys, and it is one of PDF, Word, Excel, PowerPoint, Image |
| `DocHelpers.Marker` | wagtail_wiss/wagtail_wiss/shared_utils/doc_helpers.py:37-39 | the visible `(L)` then the screen-reader `, L file`, with L in place after the opening span |
| `DocHelpers.FileMarkerHtml` | wagtail_wiss/wagtail_wiss/shared_utils/doc_helpers.py:3-39 | "" iff the lower-cased extension is not a known one; otherwise the marker of its label |
| `DocHelpers.MarkerInjective` | wagtail_wiss/wagtail_wiss/shared_utils/doc_helpers.py:37-39 | different labels give different markup |
| `DocHelpers.LastIndexIs` | wagtail_wiss/wagtail_wiss/shared_utils/doc_helpers.py:14 | the last occurrence is at i when the character is at i and not after |
| `DocHelpers.ExtensionAt` | wagtail_wiss/wagtail_wiss/shared_utils/doc_helpers.py:14 | once the final component and its last dot are known, the extension runs from the dot unless only dots precede it |
| `DocHelpers.ExtensionOfName` | wagtail_wiss/wagtail_wiss/shared_utils/doc_helpers.py:14 | `dir/base.x` with a base that is not all dots has extension `.x` |
| `DocHelpers.HiddenFileHasNoExtension` | wagtail_wiss/wagtail_wiss/shared_utils/doc_helpers.py:14 | a name of only dots then `.x` (such as `.pdf`) has no extension, so it gets no marker |
| `DocHelpers.MarkerByExtension` | wagtail_wiss/wagtail_wiss/shared_utils/doc_helpers.py:14-39 | the output depends only on the lower-cased extension |
| `DocHelpers.KnownExtension` | wagtail_wiss/wagtail_wiss/shared_utils/doc_helpers.py:14-39 | a file with a known extension in any letter case gets that extension's marker |
| `DocHelpers.UpperCasePdf` | wagtail_wiss/wagtail_wiss/shared_utils/doc_helpers.py:14-39 | `report.PDF` is marked as PDF |
| `DocHelpers.LowerPdf` | wagtail_wiss/wagtail_wiss/shared_utils/doc_helpers.py:14 | `.PDF` lower-cases to `.pdf` |
| `WissTags.SplitFirst` | wagtail_wiss/wagtail_wiss/templatetags/wiss_tags.py:16 | `split('|', 1)` gives a first part without `|`, and the parts rejoin to the value |
| `WissTags.LinebreakSpan` | wagtail_wiss/wagtail_wiss/templatetags/wiss_tags.py:9-18 | None or "" gives ""; a value without `|` is returned unchanged as a plain (escaped) string; otherwise the two divs around a split at a `|` with no `|` before it, marked safe, and only then |
| `WissTags.SplitAtFirstBar` | wagtail_wiss/wagtail_wiss/templatetags/wiss_tags.py:16 | the split is at the first `|`; later ones stay in the second part |
| `WissTags.SplitUnique` | wagtail_wiss/wagtail_wiss/templatetags/wiss_tags.py:16 | a value splits in only one way into a `|`-free part, a `|` and the rest |
| `WissTags.LinebreakBlocks` | wagtail_wiss/wagtail_wiss/templatetags/wiss_tags.py:15-17 | `before|after` with no `|` in before renders as `<div class="index-0">before</div><div class="index-1">after</div>`, marked safe |
| `Text.IndexOf` | wagtail_wiss/wagtail_wiss/templatetags/wiss_tags.py:15-16 | the first position of a character, or none iff it is absent |
| `Text.LStrip` | wagtail_wiss/wagtail_wiss/shared_utils/style_helpers.py:22 | removes exactly the leading whitespace |
| `Text.RStrip` | wagtail_wiss/wagtail_wiss/shared_utils/style_helpers.py:22 | removes exactly the trailing whitespace |
| `Text.StripNoSpace` | wagtail_wiss/wagtail_wiss/shared_utils/style_helpers.py:22 | stripping text without whitespace changes nothing |
| `Text.RStripChar` | wagtail_wiss/wagtail_wiss/events/models.py:252 | `rstrip(")")` removes exactly the trailing `)` characters |
| `Text.Word` | wagtail_wiss/wagtail_wiss/events/models.py:253 | the leading non-whitespace run |
| `Text.Split` | wagtail_wiss/wagtail_wiss/events/models.py:253 | `split()` gives non-empty whitespace-free tokens |
| `Text.WordOfPrefix` | wagtail_wiss/wagtail_wiss/events/models.py:253 | a whitespace-free word followed by whitespace or the end is the leading word |
| `Text.SplitSkipsSpace` | wagtail_wiss/wagtail_wiss/events/models.py:253 | leading whitespace does not change `split()` |
| `Text.SplitTwoWords` | wagtail_wiss/wagtail_wiss/events/models.py:253 | two words separated by whitespace split into exactly those two |
| `Text.Lower` | wagtail_wiss/wagtail_wiss/shared_utils/doc_helpers.py:14 | lower-cases character by character, keeping the length |
| `Text.Title` | wagtail_wiss/wagtail_wiss/shared_utils/style_helpers.py:24 | `title()`: a letter after a letter is lower-cased, any other character upper-cased, the length kept |
| `Text.TitleFrom` | wagtail_wiss/wagtail_wiss/shared_utils/style_helpers.py:24 | the same, from a given position |
| `Text.ReplaceChar` | wagtail_wiss/wagtail_wiss/shared_utils/style_helpers.py:24 | `replace("-", " ")` replaces exactly the hyphens |
| `Text.DigitsArePart` | wagtail_wiss/wagtail_wiss/events/models.py:254 | a run of ASCII digits is a digit part of a float literal |
| `Text.LowerIdentity` | wagtail_wiss/wagtail_wiss/shared_utils/doc_helpers.py:14 | text without upper-case letters is its own lower case |
| `Text.DecimalIsNumber` | wagtail_wiss/wagtail_wiss/events/models.py:254 | `w` and `w.f` with ASCII digits are float literals |
| `Text.LetterFreeNumber` | wagtail_wiss/wagtail_wiss/events/models.py:254 | a float literal without letters is an unsigned float (not inf or nan) |
| `Text.DecimalIsUnsignedFloat` | wagtail_wiss/wagtail_wiss/events/models.py:254 | `w` and `w.f` are unsigned floats |
| `Text.DecimalAccepted` | wagtail_wiss/wagtail_wiss/events/models.py:254 | `float()` accepts `w.f` and `-w.f` |
| `Text.IntegerAccepted` | wagtail_wiss/wagtail_wiss/events/models.py:254 | `float()` accepts `w` and `-w` |
| `Text.ExponentIsUnsignedFloat` | wagtail_wiss/wagtail_wiss/events/models.py:254 | digits, `e`, digits (exponent notation) is an unsigned float literal |
| `Text.SignAloneRejected` | wagtail_wiss/wagtail_wiss/events/blocks.py:46 | `float()` rejects a lone `-` or `+` |
| `Collections.Filter` | wagtail_wiss/wagtail_wiss/events/models.py:270-299 | a filter keeps exactly the elements meeting the predicate, in order (a subsequence) |
| `Collections.FilterTwice` | wagtail_wiss/wagtail_wiss/events/models.py:270-299 | two successive filters are one filter by the conjunction, as chained querysets are |
| `Collections.FilterAppend` | wagtail_wiss/wagtail_wiss/events/models.py:270-299 | filtering distributes over concatenation |
| `Collections.FilterAll` | wagtail_wiss/wagtail_wiss/events/models.py:270-299 | a filter every element passes changes nothing |
| `Collections.FilterMember` | wagtail_wiss/wagtail_wiss/events/models.py:270-299 | an element is kept iff it is present and meets the predicate |
| `Collections.SubsequenceDistinct` | wagtail_wiss/wagtail_wiss/events/models.py:276 | a subsequence of a list without duplicates has none |
| `Collections.SubsequenceTransitive` | wagtail_wiss/wagtail_wiss/events/models.py:270-299 | being a subsequence is transitive: a filter of a filtered queryset keeps the original order |

## Left out

- Transactions: `Event.save` registers the refresh with `transaction.on_commit` and then persists; the model has the refresh as one `Refresh` call. The refresh deletes and then bulk-inserts without `transaction.atomic`, so the model claims no atomicity.
- `super().save()` persistence of `Event` and `MenuItem` rows is not modelled; `MenuItem.Save` models only the page flags it updates (`page.save()` and the queryset `update`).
- `EventsBlock.ListedEvents`: the source's `order_by("date_instances")` joins each event to its date instances, one row per instance, ordered by instance date (the `EventDateInstance` ordering `["date"]`, events/models.py:449-453). An event with k instances therefore fills k of the ten slots of a page. The model lists each filtered event once, in table order.
- `EventsBlock.AreasIn`: `context["areas"]` comes back in the `EventArea` ordering by name (events/models.py:99); the model keeps table order.
- `EventsBlock.TranslatedAreas`: `translated_areas` also comes back ordered by name; the model keeps table order.
- `Recurrence.GenerateDates`: the interval is a positive integer. The column is a `PositiveIntegerField` that admits 0, for which rrule does not advance, so `list(rule)` (wagtail_wiss/wagtail_wiss/events/models.py:401) never returns and saving such an event hangs the refresh of its dates.
- `Recurrence.GenerateDates`: dates past `date.max` (year 9999) are not bounded.
- `Recurrence.GenerateDates`: rrule's results are datetimes at midnight and the early returns are dates; every result is modelled as a date.
- The debug `print` in `generate_dates` is output only and is not modelled.
- Date parsing of the `start_date`/`end_date` query values by `dateutil.parser.parse` is not modelled: a value is given as parsed, absent, or unparseable (which raises).
- Django's `Paginator` turns the page parameter into an integer. The model takes the outcome of that conversion (absent, not an integer, or a number), not the text.
- Floating point: coordinates stay the text that `float()` would accept. The numeric value, `float(lat)` in the markers, and the unused `haversine` are not modelled.
- `Events.Event.GetLatLon` is computed by `get_context` but its result is never used, so the model's `get_context` does not call it.
- Python's Unicode classes are modelled on ASCII: `\d`, `\w`, `str.lower()` and `str.title()` use ASCII letters and digits. Whitespace is the full `str.isspace` set.
- `Geolocation.ParseGeolocationString`: `float()` is modelled (`Text.FloatAccepts`) on ASCII digits only. Python's `float()` also reads every other Unicode decimal digit, so `SRID=4326;POINT(٣ ٤)` gives (4.0, 3.0) in the source but no coordinates in the model. The same holds for `Events.Event.GetLatLon`, which uses the same reader.
- `EventsBlock.AreaIdsAsWritten`: `isdigit()` is modelled as the ASCII digits plus the 128 characters of Unicode numeric type Digit (Unicode 15.0, as in Python 3.12), which `int()` refuses. Unicode decimal digits other than ASCII (such as Arabic-Indic `٣`) are treated as non-digits. So the model drops `٣`, which the source reads as 3, and drops `٣²`, for which the source raises.
- `EventsBlock.AreaIds`: drops non-ASCII decimal digits such as `٣`, which `int()` would read.
- `PolygonsBlock.Entry`: `MapPolygon.title` is a nullable column and a linked page's `url` can be None; the model takes both as text, so a None title or url is not modelled.
- `Text.Title`: a non-ASCII letter is treated as a non-letter; the SCSS class names it is applied to are ASCII by the `[\w\-]` pattern as modelled.
- `DocHelpers.Extension` follows `posixpath.splitext`; Windows path separators are not modelled.
- `StyleHelpers.GetClassChoicesFromScss`: the file is given as its list of lines, or `None` when it does not exist. Reading the file is I/O. Each line is a string as iterating over the file gives it, its final line break included.
- `Menus.MenuItem.Str`: `MenuItem.__str__` on an unsaved item with an unset menu relation raises inside Django; the model treats the menu as present or absent.
- Context dictionaries are returned as records (`EventsContext`, `PolygonsContext`, `SiteMapContext`) rather than updated in place; `super().get_context()` entries are not modelled.
- Timezones: "today" and "now" are parameters. `default_expiry_date` returns a timezone-aware midnight datetime; the model returns the date, since the time is always midnight.
- Not part of this model:
  - the `menu` template tag, which is ORM access and template rendering;
  - `AccordianBlock`'s random identifier;
  - `MultiColumnContentStreamBlock`;
  - OCR and the editor's JavaScript;
  - the admin view sets and hooks;
  - migrations, beyond the uniqueness of (event, date), which the set-valued cache gives.

## Behaviour worth knowing

- Monthly and yearly recurrences: the code hands the rule to `dateutil.rrule`, which skips a period whose day does not exist (such as 31 February), as section 3.3.10 of RFC 5545 requires, rather than rolling it to a nearby day (`Recurrence.MonthlyDates`, `Recurrence.YearlyDates`).
- Instance refresh: the code deletes the old instances and then inserts the new ones, with no atomic block; the model states the state after a completed refresh.
- Listing order: `order_by("date_instances")` gives one row per instance, by instance date; the model keeps each event once, in table order (see Left out).
- Geolocation: `parse_geolocation_string` catches `ValueError` and gives no coordinates for a malformed point text, and it accepts only the literal SRID 4326. `parse_wkt_point` raises on a matched but non-numeric group (see Findings).
- Query dates: an unparseable `start_date`/`end_date` makes the date parser raise; the model's `EventsBlock.GetContext` returns this as `InvalidDate`.

## Findings

| source | as written | input that shows it | evidently intended | confidence | as-written member | corrected member |
|---|---|---|---|---|---|---|
| wagtail_wiss/wagtail_wiss/events/blocks.py:77 | area ids keep every query value for which `isdigit()` is true and then call `int()` on it; `isdigit()` also accepts the characters of Unicode numeric type Digit, such as superscript `²` and circled `①`, which `int()` rejects, so the comprehension raises ValueError and the page fails | `?areas=²` | values that are not plain decimal numbers are dropped, like `-3` and `a1` | not executed | `EventsBlock.AreaIdsAsWritten` (shown by `EventsBlock.SuperscriptAreaId`; `EventsBlock.GetContext` follows it and returns `NumberError`) | `EventsBlock.AreaIds` (which the as-written comprehension equals whenever it does not raise) |
| wagtail_wiss/wagtail_wiss/events/blocks.py:44-49 | `parse_wkt_point` passes the regex groups `[-\d.]+` straight to `float()`; a group such as `-` or `1.2.3` matches the pattern but is not a number, so the call raises ValueError instead of returning None as its documentation says | `POINT(- 53.18)` | an invalid point gives None, and the event simply gets no map marker | not executed | `Geolocation.ParseWktPoint` (shown by `Geolocation.SignOnlyLongitudeRaises`; `EventsBlock.BuildMapEvents` and `EventsBlock.GetContext` follow it and return `NumberError`) | `Geolocation.ParseWktPointOrNone` (`EventsBlock.CoordinatesCorrected`: the markers are the corrected reader's points) |
