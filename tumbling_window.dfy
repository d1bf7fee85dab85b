/**
 * The window aggregate of src/streaming/consumer_tumbling_window.py: the
 * accumulator `initializer` creates, the in-place `reducer` update, and the
 * unique-aircraft count `print_window_result` reports. Window assignment,
 * closing and emission belong to the stream library and are not modelled.
 */
module TumblingWindow {
  import opened Wrappers

  /** A deserialised event; only `event.get('icao24')` is read. */
  datatype Event = Event(icao24: Option<string>)

  /** `if icao24:` holds for a present, non-empty string. */
  predicate Truthy(e: Event) {
    e.icao24.Some? && e.icao24.value != ""
  }

  /** The aircraft identifiers a sequence of events names. */
  function SeenAircraft(events: seq<Event>): set<string> {
    set i | 0 <= i < |events| && Truthy(events[i]) :: events[i].icao24.value
  }

  /** One more event adds at most its own identifier. */
  lemma SeenAircraftSnoc(events: seq<Event>, e: Event)
    ensures SeenAircraft(events + [e]) == SeenAircraft(events) + (if Truthy(e) then {e.icao24.value} else {})
  {
    var s := events + [e];
    assert forall i :: 0 <= i < |events| ==> s[i] == events[i];
    assert s[|events|] == e;
  }

  /** There are never more distinct aircraft than events. */
  lemma {:induction false} SeenAircraftBound(events: seq<Event>)
    ensures |SeenAircraft(events)| <= |events|
  {
    if events != [] {
      var init := events[..|events| - 1];
      var e := events[|events| - 1];
      assert events == init + [e];
      SeenAircraftBound(init);
      SeenAircraftSnoc(init, e);
    }
  }

  /** The accumulator dict `{'count': …, 'unique_aircraft': {…}}`. */
  class Aggregate {
    var count: int
    var uniqueAircraft: map<string, bool>

    /** `unique_aircraft` is used as a set: every stored value is `True`. */
    ghost predicate Valid()
      reads this
    {
      count >= 0 && forall k :: k in uniqueAircraft ==> uniqueAircraft[k]
    }

    /** `initializer(event)`: count 0 and no aircraft, whatever the event. */
    constructor Initializer(event: Event)
      ensures Valid()
      ensures count == 0 && uniqueAircraft == map[]
    {
      count := 0;
      uniqueAircraft := map[];
    }

    /**
     * `reducer(aggregated, event)`: the count grows by exactly one and the
     * event's identifier joins the key set when it is truthy; no key is
     * ever removed, and an identifier already present changes nothing.
     */
    method Reduce(event: Event)
      requires Valid()
      modifies this
      ensures Valid()
      ensures count == old(count) + 1
      ensures Truthy(event) ==> uniqueAircraft == old(uniqueAircraft)[event.icao24.value := true]
      ensures !Truthy(event) ==> uniqueAircraft == old(uniqueAircraft)
      ensures uniqueAircraft.Keys == old(uniqueAircraft).Keys + (if Truthy(event) then {event.icao24.value} else {})
      ensures Truthy(event) && event.icao24.value in old(uniqueAircraft) ==> uniqueAircraft == old(uniqueAircraft)
    {
      count := count + 1;
      var icao24 := event.icao24;
      if icao24.Some? && icao24.value != "" {
        uniqueAircraft := uniqueAircraft[icao24.value := true];
      }
    }
  }

  /**
   * A window that `first` opened and `events` were reduced into: the
   * reported count is the number of reduced events, the keys of
   * `unique_aircraft` are exactly the truthy identifiers among them, and
   * the unique count is the number of those keys, never more than the count.
   */
  method Summarize(first: Event, events: seq<Event>) returns (count: int, keys: set<string>, unique: nat)
    ensures count == |events|
    ensures keys == SeenAircraft(events) && unique == |keys|
    ensures unique <= count
  {
    var agg := new Aggregate.Initializer(first);
    var i := 0;
    while i < |events|
      invariant 0 <= i <= |events|
      invariant agg.Valid() && agg.count == i
      invariant agg.uniqueAircraft.Keys == SeenAircraft(events[..i])
    {
      agg.Reduce(events[i]);
      SeenAircraftSnoc(events[..i], events[i]);
      assert events[..i + 1] == events[..i] + [events[i]];
      i := i + 1;
    }
    assert events[..i] == events;
    SeenAircraftBound(events);
    count, keys, unique := agg.count, agg.uniqueAircraft.Keys, |agg.uniqueAircraft|;
  }
}
