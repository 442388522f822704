/** One client's bounded event history. */
module ObservationBuffer {
  import opened Outcomes
  import opened ObservationEvents

  const MAX_EVENTS := 1000
  const MAX_BYTES := 4 * 1024 * 1024
  const MAX_EVENT_BYTES := 24 * 1024

  /** JSON sizes of events, and clipping the long strings of one. */
  datatype Format = Format(size: Event -> nat, clip: Event -> Event)

  /** Clipping keeps the cursor, and a stub is small. */
  ghost predicate Reasonable(f: Format) {
    && (forall e :: f.clip(e).cursor == e.cursor)
    && (forall cursor :: f.size(Stub(cursor)) <= MAX_EVENT_BYTES)
  }

  /** What replaces an event too large even when clipped. */
  function Stub(cursor: nat): Event {
    Event(cursor, None, "event_truncated", map[], None, 0, false)
  }

  /** What an event is stored as. */
  function Stored(f: Format, e: Event): (r: Event)
    requires Reasonable(f)
    ensures r.cursor == e.cursor && f.size(r) <= MAX_EVENT_BYTES
  {
    if f.size(e) <= MAX_EVENT_BYTES then e
    else if f.size(f.clip(e)) <= MAX_EVENT_BYTES then f.clip(e)
    else Stub(e.cursor)
  }

  /** An event is stored whole if it fits, else clipped if that fits, and else as a stub. */
  lemma StoredExactly(f: Format, e: Event)
    requires Reasonable(f)
    ensures Stored(f, e) == e <== f.size(e) <= MAX_EVENT_BYTES
    ensures Stored(f, e) == f.clip(e) <== f.size(e) > MAX_EVENT_BYTES && f.size(f.clip(e)) <= MAX_EVENT_BYTES
    ensures f.size(e) > MAX_EVENT_BYTES && f.size(f.clip(e)) > MAX_EVENT_BYTES ==>
      Stored(f, e) == Event(e.cursor, None, "event_truncated", map[], None, 0, false)
  {
  }

  /** The bytes of a history are those of its events. */
  lemma {:induction false} SumParts(f: Format, first: seq<Event>, second: seq<Event>)
    ensures Sum(f, first + second) == Sum(f, first) + Sum(f, second)
    ensures forall e :: e in first ==> f.size(e) <= Sum(f, first)
  {
    if first == [] {
      assert first + second == second;
    } else {
      assert (first + second)[1..] == first[1..] + second && first == [first[0]] + first[1..];
      SumParts(f, first[1..], second);
    }
  }

  function Sum(f: Format, events: seq<Event>): nat {
    if events == [] then 0 else f.size(events[0]) + Sum(f, events[1..])
  }

  lemma {:induction false} SumAppend(f: Format, events: seq<Event>, e: Event)
    ensures Sum(f, events + [e]) == Sum(f, events) + f.size(e)
  {
    if events != [] {
      assert (events + [e])[1..] == events[1..] + [e];
      SumAppend(f, events[1..], e);
    } else {
      assert [e][1..] == [];
    }
  }

  /** The retained events carry exactly the cursors that end just before `next`. */
  predicate Contiguous(events: seq<Event>, next: nat) {
    |events| < next && forall i :: 0 <= i < |events| ==> events[i].cursor == next - |events| + i
  }

  function Cursors(events: seq<Event>): (r: seq<nat>)
    ensures |r| == |events| && forall i :: 0 <= i < |r| ==> r[i] == events[i].cursor
  {
    seq(|events|, i requires 0 <= i < |events| => events[i].cursor)
  }

  function Oldest(events: seq<Event>, next: nat): nat {
    if events == [] then next else events[0].cursor
  }

  /** `later` is what `events` can become while events are appended and evicted at the front. */
  ghost predicate Later(events: seq<Event>, next: nat, later: seq<Event>, laterNext: nat) {
    && next <= laterNext && Oldest(events, next) <= Oldest(later, laterNext)
    && (forall i, j :: 0 <= i < |events| && 0 <= j < |later| && events[i].cursor == later[j].cursor ==>
          events[i] == later[j])
  }

  lemma SuffixIsLater(events: seq<Event>, next: nat, stored: Event, dropped: nat)
    requires Contiguous(events, next) && stored.cursor == next && dropped <= |events|
    ensures Later(events, next, (events + [stored])[dropped..], next + 1)
  {
  }

  predicate TooLong(f: Format, events: seq<Event>) {
    |events| > MAX_EVENTS || Sum(f, events) > MAX_BYTES
  }

  /** `events` is `all` without the first `k`, and one event fewer dropped would not have been enough. */
  ghost predicate DropsJust(f: Format, all: seq<Event>, k: nat, events: seq<Event>) {
    k < |all| && events == all[k..] && !TooLong(f, events) && (k > 0 ==> TooLong(f, all[k - 1..]))
  }

  class ClientBuffer {
    const format: Format
    var events: seq<Event>
    var bytesUsed: int
    var nextEvent: nat

    ghost predicate Valid()
      reads this
    {
      && Reasonable(format)
      && Contiguous(events, nextEvent)
      && bytesUsed == Sum(format, events)
      && (forall i :: 0 <= i < |events| ==> format.size(events[i]) <= MAX_EVENT_BYTES)
    }

    ghost predicate Bounded()
      reads this
    {
      |events| <= MAX_EVENTS && bytesUsed <= MAX_BYTES
    }

    constructor (f: Format)
      requires Reasonable(f)
      ensures Valid() && Bounded() && events == [] && nextEvent == 1
    {
      format, events, bytesUsed, nextEvent := f, [], 0, 1;
    }

    method EvictOldest()
      requires Valid() && events != []
      modifies `events, `bytesUsed
      ensures Valid() && events == old(events)[1..]
      ensures bytesUsed == old(bytesUsed) - format.size(old(events)[0])
    {
      bytesUsed := bytesUsed - format.size(events[0]);
      events := events[1..];
    }

    /** Stores an event under the next cursor and evicts from the front; the new event always stays. */
    method Append(e: Event)
      requires Valid()
      modifies `events, `bytesUsed, `nextEvent
      ensures Valid() && Bounded()
      ensures nextEvent == old(nextEvent) + 1
      ensures events != [] && events[|events| - 1] == Stored(format, e.(cursor := old(nextEvent)))
      ensures Later(old(events), old(nextEvent), events, nextEvent)
      ensures exists k ::
        DropsJust(format, old(events) + [Stored(format, e.(cursor := old(nextEvent)))], k, events)
    {
      var stored := Stored(format, e.(cursor := nextEvent));
      SumAppend(format, events, stored);
      ghost var all := events + [stored];
      events, bytesUsed, nextEvent := events + [stored], bytesUsed + format.size(stored), nextEvent + 1;
      EvictOver();
      ghost var k :| DropsJust(format, all, k, events);
      SuffixIsLater(old(events), old(nextEvent), stored, k);
    }

    /** Evicts from the front until the limits hold; a single event always fits them. */
    method EvictOver()
      requires Valid() && events != []
      modifies `events, `bytesUsed
      ensures Valid() && exists k :: DropsJust(format, old(events), k, events)
    {
      ghost var all, dropped: nat := events, 0;
      while |events| > MAX_EVENTS || bytesUsed > MAX_BYTES
        invariant Valid()
        invariant dropped < |all| && events == all[dropped..]
        invariant dropped > 0 ==> TooLong(format, all[dropped - 1..])
        decreases |events|
      {
        EvictOldest();
        dropped := dropped + 1;
      }
      assert DropsJust(format, all, dropped, events);
    }
  }

  /** `dropped` says truly whether an event after the cursor was evicted. */
  lemma DroppedIsExact(events: seq<Event>, next: nat, cursor: nat)
    requires Contiguous(events, next)
    ensures cursor < Oldest(events, next) - 1 <==> exists c: nat :: c !in Cursors(events) && cursor < c < next
  {
    if cursor < Oldest(events, next) - 1 {
      assert cursor + 1 !in Cursors(events);
    } else {
      forall c: nat | cursor < c < next ensures c in Cursors(events) {
        assert Cursors(events)[c - (next - |events|)] == c;
      }
    }
  }

  lemma RetainedEarlier(events: seq<Event>, next: nat, later: seq<Event>, laterNext: nat, e: Event)
    requires Contiguous(events, next) && Contiguous(later, laterNext) && Later(events, next, later, laterNext)
    requires e in later && e.cursor < next
    ensures e in events
  {
    var j :| 0 <= j < |later| && later[j] == e;
    var i := e.cursor - (next - |events|);
    assert Oldest(events, next) <= e.cursor;
    assert events[i].cursor == e.cursor;
  }

  lemma LaterIsTransitive(a: seq<Event>, aNext: nat, b: seq<Event>, bNext: nat, c: seq<Event>, cNext: nat)
    requires Contiguous(a, aNext) && Contiguous(b, bNext) && Contiguous(c, cNext)
    requires Later(a, aNext, b, bNext) && Later(b, bNext, c, cNext)
    ensures Later(a, aNext, c, cNext)
  {
    forall i, j | 0 <= i < |a| && 0 <= j < |c| && a[i].cursor == c[j].cursor ensures a[i] == c[j] {
      assert c[j] in c;
      RetainedEarlier(b, bNext, c, cNext, c[j]);
      RetainedEarlier(a, aNext, b, bNext, c[j]);
      var k :| 0 <= k < |a| && a[k] == c[j];
    }
  }
}
