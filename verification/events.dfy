/**
 * Events and the query behind the events listing (`Event`,
 * `Event.get_lat_lon` and `Event.get_filtered_events` in events/models.py).
 * The tables are in-memory sequences; the date instances are the per-event
 * date sets kept by `DateInstances.DateInstanceStore`.
 */
module Events {
  import opened Wrappers
  import opened Calendar
  import opened Text
  import opened Collections
  import opened DateInstances
  import Geolocation

  type CategoryId = int
  type LocaleId = int
  /** Wagtail's `translation_key`: shared by all translations of one object. */
  type TranslationKey = int

  /** An `EventArea` row. */
  datatype Area = Area(id: int, translationKey: TranslationKey, locale: LocaleId)

  /**
   * An `Event` row. The stored columns are fixed while the listing is built;
   * `map_lat`/`map_lng` are the attributes `EventsBlock.get_context` sets on the
   * objects of the current page (absent until then).
   */
  class Event {
    const id: EventId
    const title: string
    const description: Option<string>
    const geolocation: Option<string>
    const urlLink: Option<string>
    const archive: bool
    const locale: LocaleId
    const categories: set<CategoryId>
    const areas: set<Area>
    var mapLat: Option<string>
    var mapLng: Option<string>

    constructor (id: EventId, title: string, description: Option<string>, geolocation: Option<string>,
                 urlLink: Option<string>, archive: bool, locale: LocaleId,
                 categories: set<CategoryId>, areas: set<Area>)
      ensures this.id == id && this.title == title && this.description == description
      ensures this.geolocation == geolocation && this.urlLink == urlLink
      ensures this.archive == archive && this.locale == locale
      ensures this.categories == categories && this.areas == areas
      ensures mapLat == None && mapLng == None
    {
      this.id := id;
      this.title := title;
      this.description := description;
      this.geolocation := geolocation;
      this.urlLink := urlLink;
      this.archive := archive;
      this.locale := locale;
      this.categories := categories;
      this.areas := areas;
      mapLat := None;
      mapLng := None;
    }

    /**
     * `get_lat_lon`: the same reading as `parse_geolocation_string`, applied
     * to the event's own column; only an SRID=4326 point can give a position.
     */
    function GetLatLon(): (r: Option<Geolocation.LatLon>)
      ensures r == Geolocation.ParseGeolocationString(geolocation)
      ensures r.Some? ==> geolocation.Some? && StartsWith(geolocation.value, Geolocation.SridPoint)
    {
      Geolocation.ParseGeolocationString(geolocation)
    }
  }

  /** The cached dates of `e` (none when the store has no entry for it). */
  function InstancesOf(instances: map<EventId, set<Day>>, e: Event): set<Day> {
    if e.id in instances then instances[e.id] else {}
  }

  // ---------------------------------------------------------------------------
  // The five conditions of the listing query.

  predicate Visible(e: Event, active: LocaleId) {
    !e.archive && e.locale == active
  }

  /** `categories__in`: at least one shared category. */
  predicate InCategories(e: Event, categories: seq<CategoryId>) {
    exists i :: 0 <= i < |categories| && categories[i] in e.categories
  }

  /** A date satisfying every given bound (both bounds inclusive). */
  predicate InWindow(d: Day, start: Option<Day>, end: Option<Day>) {
    (start.Some? ==> !Before(d, start.value)) && (end.Some? ==> !Before(end.value, d))
  }

  /**
   * Both bounds sit in one `Q` object passed to one `filter()` call, so they
   * must hold for the same instance.
   */
  predicate HasInstanceIn(dates: set<Day>, start: Option<Day>, end: Option<Day>) {
    exists d :: d in dates && InWindow(d, start, end)
  }

  /** `values_list("translation_key")` of the given areas. */
  function AreaKeys(areas: seq<Area>): (keys: set<TranslationKey>)
    ensures forall k :: k in keys <==> exists i :: 0 <= i < |areas| && areas[i].translationKey == k
  {
    set i | 0 <= i < |areas| :: areas[i].translationKey
  }

  /** `areas__translation_key__in`: some area of the event shares a key with a given area. */
  predicate InAreas(e: Event, areas: seq<Area>) {
    exists a :: a in e.areas && a.translationKey in AreaKeys(areas)
  }

  /**
   * What the listing promises about each event it returns: a visible event
   * that meets every filter the caller supplied; an empty or absent filter
   * constrains nothing.
   */
  predicate Selected(e: Event, instances: map<EventId, set<Day>>, active: LocaleId,
                     categories: seq<CategoryId>, start: Option<Day>, end: Option<Day>, areas: seq<Area>)
  {
    && Visible(e, active)
    && (|categories| > 0 ==> InCategories(e, categories))
    && (start.Some? || end.Some? ==> HasInstanceIn(InstancesOf(instances, e), start, end))
    && (|areas| > 0 ==> InAreas(e, areas))
  }

  /**
   * `Event.get_filtered_events`: the active locale's unarchived events,
   * narrowed step by step by the categories, the date window and the areas.
   * The result keeps the table order; a table without repetitions gives a
   * result without repetitions (`.distinct()`). Which events it holds is
   * `FilteredEventsMembers`.
   */
  function GetFilteredEvents(events: seq<Event>, instances: map<EventId, set<Day>>, active: LocaleId,
                             categories: seq<CategoryId>, start: Option<Day>, end: Option<Day>,
                             areas: seq<Area>): (r: seq<Event>)
    ensures SubsequenceOf(r, events)
    ensures Distinct(events) ==> Distinct(r)
  {
    var visible := Filter(events, e => Visible(e, active));
    var byCategory := if |categories| > 0 then Filter(visible, e => InCategories(e, categories)) else visible;
    var byDate := if start.Some? || end.Some? then Filter(byCategory, e => HasInstanceIn(InstancesOf(instances, e), start, end)) else byCategory;
    var r := if |areas| > 0 then Filter(byDate, e => InAreas(e, areas)) else byDate;
    SubsequenceReflexive(visible);
    SubsequenceReflexive(byCategory);
    SubsequenceReflexive(byDate);
    SubsequenceTransitive(r, byDate, byCategory);
    SubsequenceTransitive(r, byCategory, visible);
    SubsequenceTransitive(r, visible, events);
    assert Distinct(events) ==> Distinct(r) by {
      if Distinct(events) {
        SubsequenceDistinct(r, events);
      }
    }
    r
  }

  /** An event is listed exactly when it is in the table and meets every supplied filter. */
  lemma FilteredEventsMembers(events: seq<Event>, instances: map<EventId, set<Day>>, active: LocaleId,
                              categories: seq<CategoryId>, start: Option<Day>, end: Option<Day>,
                              areas: seq<Area>, e: Event)
    ensures e in GetFilteredEvents(events, instances, active, categories, start, end, areas)
            <==> e in events && Selected(e, instances, active, categories, start, end, areas)
  {
    var visible := Filter(events, e => Visible(e, active));
    var byCategory := if |categories| > 0 then Filter(visible, e => InCategories(e, categories)) else visible;
    var byDate := if start.Some? || end.Some? then Filter(byCategory, e => HasInstanceIn(InstancesOf(instances, e), start, end)) else byCategory;
    FilterMember(events, e => Visible(e, active), e);
    FilterMember(visible, e => InCategories(e, categories), e);
    FilterMember(byCategory, e => HasInstanceIn(InstancesOf(instances, e), start, end), e);
    FilterMember(byDate, e => InAreas(e, areas), e);
  }

  /** Archived events and events of other locales are never listed. */
  lemma HiddenEventsNotListed(events: seq<Event>, instances: map<EventId, set<Day>>, active: LocaleId,
                              categories: seq<CategoryId>, start: Option<Day>, end: Option<Day>,
                              areas: seq<Area>, e: Event)
    requires e.archive || e.locale != active
    ensures e !in GetFilteredEvents(events, instances, active, categories, start, end, areas)
  {
    FilteredEventsMembers(events, instances, active, categories, start, end, areas, e);
  }

  /**
   * The two date bounds must hold for one instance: an event with one date
   * before the window and one after it is left out, although each bound on
   * its own would keep it.
   */
  lemma BoundsOnOneInstance(events: seq<Event>, instances: map<EventId, set<Day>>, active: LocaleId,
                            e: Event, early: Day, late: Day, start: Day, end: Day)
    requires e in events && Visible(e, active) && InstancesOf(instances, e) == {early, late}
    requires Before(early, start) && Before(end, late)
    requires !Before(end, early) && !Before(late, start)
    ensures e !in GetFilteredEvents(events, instances, active, [], Some(start), Some(end), [])
    ensures e in GetFilteredEvents(events, instances, active, [], Some(start), None, [])
    ensures e in GetFilteredEvents(events, instances, active, [], None, Some(end), [])
  {
    FilteredEventsMembers(events, instances, active, [], Some(start), Some(end), [], e);
    FilteredEventsMembers(events, instances, active, [], Some(start), None, [], e);
    FilteredEventsMembers(events, instances, active, [], None, Some(end), [], e);
    assert InWindow(late, Some(start), None);
    assert InWindow(early, None, Some(end));
  }

  /** Categories combine with OR: naming more categories never hides an event. */
  lemma MoreCategoriesMoreEvents(events: seq<Event>, instances: map<EventId, set<Day>>, active: LocaleId,
                                 categories: seq<CategoryId>, more: seq<CategoryId>,
                                 start: Option<Day>, end: Option<Day>, areas: seq<Area>, e: Event)
    requires |categories| > 0 && forall i :: 0 <= i < |categories| ==> categories[i] in more
    requires e in GetFilteredEvents(events, instances, active, categories, start, end, areas)
    ensures e in GetFilteredEvents(events, instances, active, more, start, end, areas)
  {
    FilteredEventsMembers(events, instances, active, categories, start, end, areas, e);
    FilteredEventsMembers(events, instances, active, more, start, end, areas, e);
    var i :| 0 <= i < |categories| && categories[i] in e.categories;
    var j :| 0 <= j < |more| && more[j] == categories[i];
  }

  /** Adding an end bound to the window only removes events. */
  lemma EndBoundNarrows(events: seq<Event>, instances: map<EventId, set<Day>>, active: LocaleId,
                        categories: seq<CategoryId>, start: Option<Day>, end: Day, areas: seq<Area>, e: Event)
    requires e in GetFilteredEvents(events, instances, active, categories, start, Some(end), areas)
    ensures e in GetFilteredEvents(events, instances, active, categories, start, None, areas)
  {
    FilteredEventsMembers(events, instances, active, categories, start, Some(end), areas, e);
    FilteredEventsMembers(events, instances, active, categories, start, None, areas, e);
    var d :| d in InstancesOf(instances, e) && InWindow(d, start, Some(end));
    assert InWindow(d, start, None);
  }
}
