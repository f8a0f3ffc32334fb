/**
 * The `EventDateInstance` table as a cache: for each event, the set of dates
 * its recurrence rules generate (`Event.refresh_event_date_instances`,
 * events/models.py). A set per event carries the table's (event, date)
 * uniqueness constraint by construction.
 */
module DateInstances {
  import opened Calendar
  import opened Recurrence
  import opened Collections

  type EventId = int

  /** The dates listed in `s`, without repetition (Python's `set(all_dates)`). */
  function Elements(s: seq<Day>): (r: set<Day>)
    ensures forall d :: d in r <==> d in s
  {
    set d | d in s
  }

  /** The dates one rule generates, as a set. */
  function RuleDates(rule: EventDate): set<Day> {
    Elements(GenerateDates(rule))
  }

  /** The union of the dates generated by each rule of `rules`. */
  function AllDates(rules: seq<EventDate>): set<Day> {
    Union(rules, RuleDates)
  }

  /** A date is cached for an event exactly when one of its rules generates it. */
  lemma AllDatesMembers(rules: seq<EventDate>, d: Day)
    ensures d in AllDates(rules) <==> exists i :: 0 <= i < |rules| && d in GenerateDates(rules[i])
  {
    UnionMembers(rules, RuleDates, d);
  }

  /** The order in which the event's rules are read does not matter. */
  lemma AllDatesOrderFree(rules: seq<EventDate>, other: seq<EventDate>)
    requires multiset(rules) == multiset(other)
    ensures AllDates(rules) == AllDates(other)
  {
    forall d: Day ensures d in AllDates(rules) <==> d in AllDates(other) {
      AllDatesMembers(rules, d);
      AllDatesMembers(other, d);
      if exists i :: 0 <= i < |rules| && d in GenerateDates(rules[i]) {
        var i :| 0 <= i < |rules| && d in GenerateDates(rules[i]);
        assert rules[i] in multiset(other);
        var j :| 0 <= j < |other| && other[j] == rules[i];
      }
      if exists j :: 0 <= j < |other| && d in GenerateDates(other[j]) {
        var j :| 0 <= j < |other| && d in GenerateDates(other[j]);
        assert other[j] in multiset(rules);
        var i :| 0 <= i < |rules| && rules[i] == other[j];
      }
    }
  }

  class DateInstanceStore {
    /** The cached dates of each event that has rows in the table. */
    var instances: map<EventId, set<Day>>

    constructor()
      ensures instances == map[]
    {
      instances := map[];
    }

    /**
     * `Event.refresh_event_date_instances`: delete the event's rows, collect
     * the dates of every rule, remove duplicates and insert one row per date.
     * Afterwards the event's dates are exactly the union over its rules (stale
     * dates are gone) and no other event's dates have changed.
     */
    method Refresh(event: EventId, rules: seq<EventDate>)
      modifies this
      ensures instances == old(instances)[event := AllDates(rules)]
    {
      instances := instances[event := {}];
      var allDates: seq<Day> := [];
      var i := 0;
      while i < |rules|
        invariant 0 <= i <= |rules|
        invariant Elements(allDates) == AllDates(rules[..i])
        invariant instances == old(instances)[event := {}]
      {
        assert rules[..i + 1][..i] == rules[..i];
        allDates := allDates + GenerateDates(rules[i]);
        i := i + 1;
      }
      assert rules[..|rules|] == rules;
      var uniqueDates := Elements(allDates);
      instances := instances[event := uniqueDates];
    }

    /** Refreshing again with the same rules leaves the cache as the first refresh left it. */
    method RefreshTwice(event: EventId, rules: seq<EventDate>)
      modifies this
      ensures instances == old(instances)[event := AllDates(rules)]
    {
      Refresh(event, rules);
      ghost var once := instances;
      Refresh(event, rules);
      assert instances == once;
    }
  }
}
