/** The event store: immutable event records and the lookup of a day's
    events by exact key equality (`getEventsForDate`). */
module Events {

  datatype Option<T> = None | Some(value: T)

  /** A scheduled event. `date` is a "YYYY-MM-DD" key, `time` an "HH:MM"
      string, `duration` in minutes; the location is optional. */
  datatype Event = Event(
    id: int,
    title: string,
    date: string,
    time: string,
    duration: int,
    color: string,
    location: Option<string>)

  /** `events.filter(event => event.date === key)`. */
  function EventsForDate(events: seq<Event>, key: string): (r: seq<Event>)
    ensures |r| <= |events|
  {
    if |events| == 0 then []
    else (if events[0].date == key then [events[0]] else []) + EventsForDate(events[1..], key)
  }

  /** The lookup returns exactly the events dated `key`: each one as
      often as it occurs in the list, and nothing else. */
  lemma {:induction false} EventsForDateExact(events: seq<Event>, key: string)
    ensures forall e :: e in EventsForDate(events, key) <==> e in events && e.date == key
    ensures forall e :: multiset(EventsForDate(events, key))[e]
                          == if e.date == key then multiset(events)[e] else 0
    decreases |events|
  {
    if |events| > 0 {
      EventsForDateExact(events[1..], key);
      assert events == [events[0]] + events[1..];
      assert multiset(events) == multiset{events[0]} + multiset(events[1..]);
    }
  }

  /** `a` can be obtained from `b` by deleting elements. */
  ghost predicate IsSubsequence<T>(a: seq<T>, b: seq<T>)
    decreases |b|
  {
    |a| == 0 || (|b| > 0 && ((a[0] == b[0] && IsSubsequence(a[1..], b[1..])) || IsSubsequence(a, b[1..])))
  }

  /** The lookup keeps the list's order: filtering a concatenation
      concatenates the filtered parts. */
  lemma {:induction false} EventsForDateAppend(a: seq<Event>, b: seq<Event>, key: string)
    ensures EventsForDate(a + b, key) == EventsForDate(a, key) + EventsForDate(b, key)
    decreases |a|
  {
    if |a| == 0 {
      assert a + b == b;
    } else {
      assert (a + b)[0] == a[0];
      assert (a + b)[1..] == a[1..] + b;
      EventsForDateAppend(a[1..], b, key);
      var head := if a[0].date == key then [a[0]] else [];
      assert EventsForDate(a + b, key) == head + (EventsForDate(a[1..], key) + EventsForDate(b, key));
    }
  }

  /** The lookup's result is a subsequence of the event list. */
  lemma {:induction false} EventsForDateIsSubsequence(events: seq<Event>, key: string)
    ensures IsSubsequence(EventsForDate(events, key), events)
    decreases |events|
  {
    if |events| > 0 {
      EventsForDateIsSubsequence(events[1..], key);
      var r := EventsForDate(events, key);
      if events[0].date == key {
        assert r[0] == events[0] && r[1..] == EventsForDate(events[1..], key);
      } else {
        assert r == EventsForDate(events[1..], key);
      }
    }
  }

  /** Looking up a day's events again among them changes nothing. */
  lemma {:induction false} EventsForDateIdempotent(events: seq<Event>, key: string)
    ensures EventsForDate(EventsForDate(events, key), key) == EventsForDate(events, key)
    decreases |events|
  {
    if |events| > 0 {
      EventsForDateIdempotent(events[1..], key);
      if events[0].date == key {
        assert EventsForDate(events, key) == [events[0]] + EventsForDate(events[1..], key);
        EventsForDateAppend([events[0]], EventsForDate(events[1..], key), key);
        assert EventsForDate([events[0]], key) == [events[0]] by {
          assert [events[0]][1..] == [];
        }
      } else {
        assert EventsForDate(events, key) == [] + EventsForDate(events[1..], key);
        assert [] + EventsForDate(events[1..], key) == EventsForDate(events[1..], key);
      }
    }
  }

  /** Every event is found under its own date and under no other key. */
  lemma EventsForDateFindsOwnKey(events: seq<Event>, i: int, key: string)
    requires 0 <= i < |events|
    ensures events[i] in EventsForDate(events, key) <==> events[i].date == key
  {
    EventsForDateExact(events, key);
  }

  /** The lookup as Array.prototype.filter runs it: one pass from the
      front, appending each matching event. */
  method CollectEventsForDate(events: seq<Event>, key: string) returns (r: seq<Event>)
    ensures r == EventsForDate(events, key)
  {
    r := [];
    var i := 0;
    while i < |events|
      invariant 0 <= i <= |events|
      invariant r == EventsForDate(events[..i], key)
    {
      assert events[..i + 1] == events[..i] + [events[i]];
      EventsForDateAppend(events[..i], [events[i]], key);
      if events[i].date == key {
        r := r + [events[i]];
      }
      i := i + 1;
    }
    assert events[..i] == events;
  }
}
