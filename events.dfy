/** Optional values: the phrase record's audio reference and the signed-in user. */
module Options {
  datatype Option<T> = None | Some(value: T)
}

/** Calendar events and the per-day selection `events.filter(e => e.date === dateStr)`. */
module Events {

  /** An event record; `date` is compared as a string, never parsed. */
  datatype Event = Event(id: int, title: string, date: string, description: string, location: string)

  /** `sub` is `s` with some elements dropped, the rest kept in their order. */
  predicate IsSubsequence<T(==)>(sub: seq<T>, s: seq<T>)
    decreases |s|
  {
    if sub == [] then true
    else if s == [] then false
    else if sub[0] == s[0] then IsSubsequence(sub[1..], s[1..])
    else IsSubsequence(sub, s[1..])
  }

  /** The events whose date string is exactly `date`, in list order. */
  function EventsOn(events: seq<Event>, date: string): (r: seq<Event>)
    ensures IsSubsequence(r, events)
    ensures forall e :: e in r ==> e.date == date
    ensures forall e :: e in events && e.date == date ==> e in r
    decreases |events|
  {
    if events == [] then []
    else
      var rest := EventsOn(events[1..], date);
      assert events == [events[0]] + events[1..];
      if events[0].date == date then [events[0]] + rest else rest
  }

  /** Each matching event is kept as often as it occurs, and no other is kept. */
  lemma {:induction false} EventsOnMultiplicity(events: seq<Event>, date: string)
    ensures forall e :: multiset(EventsOn(events, date))[e]
                        == if e.date == date then multiset(events)[e] else 0
    decreases |events|
  {
    if events != [] {
      EventsOnMultiplicity(events[1..], date);
      assert events == [events[0]] + events[1..];
    }
  }

  /** A subsequence is no longer than its source, and all it holds comes from it. */
  lemma {:induction false} SubsequenceElements<T>(sub: seq<T>, s: seq<T>)
    requires IsSubsequence(sub, s)
    ensures |sub| <= |s|
    ensures forall x :: x in sub ==> x in s
    decreases |s|
  {
    if sub != [] && s != [] {
      assert s == [s[0]] + s[1..];
      if sub[0] == s[0] {
        SubsequenceElements(sub[1..], s[1..]);
        assert sub == [sub[0]] + sub[1..];
      } else {
        SubsequenceElements(sub, s[1..]);
      }
    }
  }

  /** No event matches two different date strings. */
  lemma EventsOnDisjoint(events: seq<Event>, d1: string, d2: string, e: Event)
    requires d1 != d2
    ensures !(e in EventsOn(events, d1) && e in EventsOn(events, d2))
  {
  }
}
