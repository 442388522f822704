/** Pages of one client's events: what fits a byte limit, what is cut, and where a reader gets to. */
module ObservationPages {
  import opened Outcomes
  import opened Utf8
  import opened JsonText
  import opened JsonValues
  import opened ObservationEvents
  import opened ObservationBuffer

  datatype Page = Page(events: seq<Event>, nextCursor: nat, hasMore: bool, flags: Flags, truncated: bool)

  /** Whether events after the start were lost, and whether the observed page is closed. */
  datatype Flags = Flags(dropped: bool, closed: bool)

  datatype Query = Query(page: nat, matches: Event -> bool, limit: nat, maxBytes: nat)

  // ---- Sizes ----

  /** The member names, brackets and commas of a page. */
  const FRAME := 74

  function FlagSize(flag: bool): nat {
    if flag then 4 else 5
  }

  function EventsSize(events: seq<Event>): nat {
    if events == [] then 0
    else
      var n := |events| - 1;
      EventsSize(events[..n]) + (if n > 0 then 1 else 0) + EventSize(events[n])
  }

  function PageSize(page: Page): nat {
    FRAME + EventsSize(page.events) + Digits(page.nextCursor) + FlagSize(page.hasMore)
    + FlagSize(page.flags.dropped) + FlagSize(page.flags.closed) + FlagSize(page.truncated)
  }

  function EventsJson(events: seq<Event>, encode: Event -> Json): seq<Json> {
    if events == [] then []
    else EventsJson(events[..|events| - 1], encode) + [encode(events[|events| - 1])]
  }

  function StateMembers(dropped: Json, closed: Json, truncated: Json): seq<Member> {
    Three("dropped", dropped, "closed", closed, "truncated", truncated, [])
  }

  function PageMembers(events: Json, cursor: Json, more: Json, rest: seq<Member>): seq<Member> {
    Three("events", events, "next_cursor", cursor, "has_more", more, rest)
  }

  /** The page as it is sent, its events in a given encoding. */
  function PageJson(page: Page, encode: Event -> Json): Json {
    JObject(PageMembers(JList(EventsJson(page.events, encode)), Number(page.nextCursor), JFlag(page.hasMore),
                        StateMembers(JFlag(page.flags.dropped), JFlag(page.flags.closed), JFlag(page.truncated))))
  }

  lemma {:induction false} EventsJsonSize(events: seq<Event>, encode: Event -> Json)
    requires forall e :: e in events ==> JsonSize(encode(e)) == EventSize(e)
    ensures ItemsSize(EventsJson(events, encode)) == EventsSize(events) && |EventsJson(events, encode)| == |events|
  {
    if events != [] {
      var n := |events| - 1;
      EventsJsonSize(events[..n], encode);
      ItemsAppend(EventsJson(events[..n], encode), encode(events[n]));
    }
  }

  lemma StateMembersSize(dropped: Json, closed: Json, truncated: Json)
    ensures StateMembers(dropped, closed, truncated) != []
    ensures MembersSize(StateMembers(dropped, closed, truncated)) ==
      33 + JsonSize(dropped) + JsonSize(closed) + JsonSize(truncated)
  {
    ThreeSize("dropped", dropped, "closed", closed, "truncated", truncated, []);
  }

  lemma PageMembersSize(events: Json, cursor: Json, more: Json, rest: seq<Member>)
    requires rest != []
    ensures MembersSize(PageMembers(events, cursor, more, rest)) ==
      37 + JsonSize(events) + JsonSize(cursor) + JsonSize(more) + MembersSize(rest)
  {
    ThreeSize("events", events, "next_cursor", cursor, "has_more", more, rest);
  }

  lemma PagePartsSize(events: Json, cursor: Json, more: Json, dropped: Json, closed: Json, truncated: Json)
    ensures JsonSize(JObject(PageMembers(events, cursor, more, StateMembers(dropped, closed, truncated)))) ==
      72 + JsonSize(events) + JsonSize(cursor) + JsonSize(more) + JsonSize(dropped) + JsonSize(closed)
      + JsonSize(truncated)
  {
    StateMembersSize(dropped, closed, truncated);
    PageMembersSize(events, cursor, more, StateMembers(dropped, closed, truncated));
  }

  lemma PageJsonSize(page: Page, encode: Event -> Json)
    requires forall e :: e in page.events ==> JsonSize(encode(e)) == EventSize(e)
    ensures JsonSize(PageJson(page, encode)) == PageSize(page)
  {
    EventsJsonSize(page.events, encode);
    NumberSize(page.nextCursor);
    PagePartsSize(JList(EventsJson(page.events, encode)), Number(page.nextCursor), JFlag(page.hasMore),
                  JFlag(page.flags.dropped), JFlag(page.flags.closed), JFlag(page.truncated));
  }

  /** The computed size of a page is the number of bytes that are sent. */
  lemma PageSizeIsSent(page: Page, encode: Event -> Json)
    requires forall e :: e in page.events ==> JsonSize(encode(e)) == EventSize(e)
    ensures |Encode(Render(PageJson(page, encode)))| == PageSize(page)
  {
    PageJsonSize(page, encode);
    RenderedSize(PageJson(page, encode));
  }

  /** The page that is measured while events are selected. */
  function Draft(events: seq<Event>, cursor: nat, flags: Flags, truncated: bool): Page {
    Page(events, cursor, true, flags, truncated)
  }

  predicate FitsDraft(query: Query, events: seq<Event>, cursor: nat, flags: Flags, truncated: bool) {
    PageSize(Draft(events, cursor, flags, truncated)) <= query.maxBytes
  }

  lemma EventsSizeAppend(events: seq<Event>, e: Event)
    ensures EventsSize(events + [e]) == EventsSize(events) + (if events == [] then 0 else 1) + EventSize(e)
  {
    assert (events + [e])[..|events|] == events;
  }

  // ---- The wanted events ----

  predicate Wanted(e: Event, query: Query, start: nat) {
    e.page == Some(query.page) && e.cursor > start && query.matches(e)
  }

  /** The retained events of the observed page that pass the filter, after the cursor. */
  function Matching(events: seq<Event>, query: Query, start: nat): seq<Event> {
    if events == [] then []
    else if Wanted(events[0], query, start) then [events[0]] + Matching(events[1..], query, start)
    else Matching(events[1..], query, start)
  }

  lemma {:induction false} MatchingIsFilter(events: seq<Event>, query: Query, start: nat, next: nat)
    requires Contiguous(events, next)
    ensures forall e :: e in Matching(events, query, start) <==>
      e in events && e.page == Some(query.page) && e.cursor > start && query.matches(e)
    ensures Rising(Matching(events, query, start), start, next)
  {
    if events != [] {
      assert events == [events[0]] + events[1..];
      MatchingIsFilter(events[1..], query, start, next);
      var rest := Matching(events[1..], query, start);
      forall i | 0 <= i < |rest| ensures events[0].cursor < rest[i].cursor {
        assert rest[i] in rest;
      }
    }
  }

  ghost predicate Rising(events: seq<Event>, start: nat, next: nat) {
    && (forall i :: 0 <= i < |events| ==> start < events[i].cursor < next)
    && (forall i, j :: 0 <= i < j < |events| ==> events[i].cursor < events[j].cursor)
  }

  lemma {:induction false} MatchingParts(first: seq<Event>, second: seq<Event>, query: Query, start: nat)
    ensures Matching(first + second, query, start) == Matching(first, query, start) + Matching(second, query, start)
  {
    if first == [] {
      assert first + second == second;
    } else {
      assert (first + second)[1..] == first[1..] + second;
      MatchingParts(first[1..], second, query, start);
    }
  }

  // ---- Selecting what fits ----

  datatype Taken = Taken(events: seq<Event>, truncated: bool)

  /** How many bytes an event is cut to; two more than the page has left before any comma. */
  function Room(selected: seq<Event>, candidate: Event, query: Query, flags: Flags): int {
    query.maxBytes - PageSize(Draft(selected, candidate.cursor, flags, true)) + 2
  }

  /** The event as it is offered to the page: whole if it fits, else cut if there is room worth cutting for. */
  function Offered(taken: Taken, candidate: Event, query: Query, flags: Flags): (Event, bool) {
    var room := Room(taken.events, candidate, query, flags);
    if FitsDraft(query, taken.events + [candidate], candidate.cursor, flags, taken.truncated) || room < 256
    then (candidate, taken.truncated)
    else (FitEvent(candidate, room), true)
  }

  /** Takes wanted events while what is offered fits, up to the limit; stops at the first that does not. */
  function Take(matching: seq<Event>, query: Query, flags: Flags, taken: Taken): Taken
    decreases |matching| - |taken.events|
  {
    var n := |taken.events|;
    if n >= |matching| || n >= query.limit then taken
    else
      var (e, truncated) := Offered(taken, matching[n], query, flags);
      if FitsDraft(query, taken.events + [e], e.cursor, flags, truncated)
      then Take(matching, query, flags, Taken(taken.events + [e], truncated))
      else taken.(truncated := truncated)
  }

  method Offer(taken: Taken, wanted: Event, query: Query, flags: Flags) returns (e: Event, truncated: bool)
    ensures (e, truncated) == Offered(taken, wanted, query, flags)
  {
    e, truncated := wanted, taken.truncated;
    if PageSize(Draft(taken.events + [e], e.cursor, flags, truncated)) > query.maxBytes {
      var room := query.maxBytes - PageSize(Draft(taken.events, e.cursor, flags, true)) + 2;
      if room >= 256 {
        e := Fit(e, room);
        truncated := true;
      }
    }
  }

  method Select(matching: seq<Event>, query: Query, flags: Flags) returns (r: Taken)
    ensures r == Take(matching, query, flags, Taken([], false))
  {
    r := Taken([], false);
    var wanted := if |matching| < query.limit then |matching| else query.limit;
    for i := 0 to wanted
      invariant |r.events| == i
      invariant Take(matching, query, flags, r) == Take(matching, query, flags, Taken([], false))
    {
      var candidate, truncated := Offer(r, matching[i], query, flags);
      if !FitsDraft(query, r.events + [candidate], candidate.cursor, flags, truncated) {
        return r.(truncated := truncated);
      }
      r := Taken(r.events + [candidate], truncated);
    }
  }

  /** An event of a page is the wanted one, or that one cut to the room there was, which it did not fit whole. */
  ghost predicate HonestAt(matching: seq<Event>, selected: seq<Event>, i: nat, query: Query, flags: Flags)
    requires i < |matching| && i < |selected|
  {
    var (before, e) := (selected[..i], matching[i]);
    && selected[i].cursor == e.cursor
    && FitsDraft(query, selected[..i + 1], e.cursor, flags, true)
    && (|| selected[i] == e
        || (&& !FitsDraft(query, before + [e], e.cursor, flags, false)
            && Room(before, e, query, flags) >= 256
            && selected[i] == FitEvent(e, Room(before, e, query, flags))))
  }

  /** The event was cut, because it did not fit whole. */
  ghost predicate CutAt(matching: seq<Event>, selected: seq<Event>, i: nat, query: Query, flags: Flags) {
    i < |selected| && i < |matching| &&
    var (before, e) := (selected[..i], matching[i]);
    && !FitsDraft(query, before + [e], e.cursor, flags, false)
    && selected[i] == FitEvent(e, Room(before, e, query, flags))
  }

  ghost predicate AnyCut(matching: seq<Event>, selected: seq<Event>, query: Query, flags: Flags) {
    exists i: nat :: CutAt(matching, selected, i, query, flags)
  }

  /** The next event was tried cut, and did not fit even so. */
  ghost predicate TriedCut(matching: seq<Event>, selected: seq<Event>, query: Query, flags: Flags) {
    && |selected| < |matching| && |selected| < query.limit && Blocked(matching, selected, query, flags)
    && Room(selected, matching[|selected|], query, flags) >= 256
  }

  lemma {:induction false} TruncatedExactly(matching: seq<Event>, query: Query, flags: Flags, taken: Taken)
    requires Honest(matching, taken, query, flags)
    requires taken.truncated ==> AnyCut(matching, taken.events, query, flags)
    ensures var r := Take(matching, query, flags, taken);
      r.truncated ==> AnyCut(matching, r.events, query, flags) || TriedCut(matching, r.events, query, flags)
    decreases |matching| - |taken.events|
  {
    var n := |taken.events|;
    if n < |matching| && n < query.limit {
      var (e, truncated) := Offered(taken, matching[n], query, flags);
      OfferIsHonestAt(matching, taken, query, flags);
      CutStays(matching, taken.events, e, query, flags);
      if FitsDraft(query, taken.events + [e], e.cursor, flags, truncated) {
        HonestOneMore(matching, taken, e, truncated, query, flags);
        if truncated && !taken.truncated {
          NewCut(matching, taken, query, flags);
        }
        TruncatedExactly(matching, query, flags, Taken(taken.events + [e], truncated));
      } else if truncated && !taken.truncated {
        TakeIsHonest(matching, query, flags, taken);
        assert Take(matching, query, flags, taken).events == taken.events;
      }
    }
  }

  lemma CutStays(matching: seq<Event>, selected: seq<Event>, e: Event, query: Query, flags: Flags)
    requires |selected| < |matching|
    ensures AnyCut(matching, selected, query, flags) ==> AnyCut(matching, selected + [e], query, flags)
  {
    if AnyCut(matching, selected, query, flags) {
      var i: nat :| CutAt(matching, selected, i, query, flags);
      assert (selected + [e])[..i] == selected[..i];
      assert CutAt(matching, selected + [e], i, query, flags);
    }
  }

  lemma NewCut(matching: seq<Event>, taken: Taken, query: Query, flags: Flags)
    requires |taken.events| < |matching| && !taken.truncated
    requires Offered(taken, matching[|taken.events|], query, flags).1
    ensures var e := Offered(taken, matching[|taken.events|], query, flags).0;
      AnyCut(matching, taken.events + [e], query, flags)
  {
    var n := |taken.events|;
    var e := Offered(taken, matching[n], query, flags).0;
    assert (taken.events + [e])[..n] == taken.events;
    assert CutAt(matching, taken.events + [e], n, query, flags);
  }

  ghost predicate Honest(matching: seq<Event>, taken: Taken, query: Query, flags: Flags) {
    && |taken.events| <= |matching| && |taken.events| <= query.limit
    && (forall i: nat :: i < |taken.events| ==> HonestAt(matching, taken.events, i, query, flags))
    && (!taken.truncated ==> taken.events == matching[..|taken.events|])
    && (taken.events != [] ==> FitsDraft(query, taken.events, LastCursor(taken.events), flags, taken.truncated))
  }

  function LastCursor(events: seq<Event>): nat
    requires events != []
  {
    events[|events| - 1].cursor
  }

  /** The next event fits neither whole nor cut. */
  predicate Blocked(matching: seq<Event>, selected: seq<Event>, query: Query, flags: Flags)
    requires |selected| < |matching|
  {
    var e := matching[|selected|];
    var room := Room(selected, e, query, flags);
    && !FitsDraft(query, selected + [e], e.cursor, flags, false)
    && (room < 256 || !FitsDraft(query, selected + [FitEvent(e, room)], e.cursor, flags, true))
  }

  lemma TruncatedIsShorter(query: Query, events: seq<Event>, cursor: nat, flags: Flags)
    ensures FitsDraft(query, events, cursor, flags, false) ==> FitsDraft(query, events, cursor, flags, true)
  {}

  lemma FitKeepsCursor(e: Event, budget: int)
    ensures FitEvent(e, budget).cursor == e.cursor
  {
    FitIsAbridged(EventSize, e, budget);
  }

  /** What is offered for the next event, if it fits, makes an honest event of the page. */
  lemma OfferIsHonestAt(matching: seq<Event>, taken: Taken, query: Query, flags: Flags)
    requires |taken.events| < |matching|
    ensures var n := |taken.events|;
      var (e, truncated) := Offered(taken, matching[n], query, flags);
      && e.cursor == matching[n].cursor && (taken.truncated ==> truncated) && (!truncated ==> e == matching[n])
      && (FitsDraft(query, taken.events + [e], e.cursor, flags, truncated) ==>
          HonestAt(matching, taken.events + [e], n, query, flags))
  {
    var n := |taken.events|;
    var (e, truncated) := Offered(taken, matching[n], query, flags);
    FitKeepsCursor(matching[n], Room(taken.events, matching[n], query, flags));
    TruncatedIsShorter(query, taken.events + [e], e.cursor, flags);
    TruncatedIsShorter(query, taken.events + [matching[n]], e.cursor, flags);
    var after := taken.events + [e];
    assert after[..n] == taken.events && after[..n + 1] == after && after[n] == e;
  }

  lemma HonestOneMore(matching: seq<Event>, taken: Taken, e: Event, truncated: bool, query: Query, flags: Flags)
    requires Honest(matching, taken, query, flags) && |taken.events| < |matching| && |taken.events| < query.limit
    requires HonestAt(matching, taken.events + [e], |taken.events|, query, flags)
    requires (taken.truncated ==> truncated) && (!truncated ==> e == matching[|taken.events|])
    requires FitsDraft(query, taken.events + [e], e.cursor, flags, truncated)
    ensures Honest(matching, Taken(taken.events + [e], truncated), query, flags)
  {
    var (n, after) := (|taken.events|, taken.events + [e]);
    assert matching[..n + 1] == matching[..n] + [matching[n]];
    forall i: nat | i < n ensures HonestAt(matching, after, i, query, flags) {
      HonestStays(matching, taken.events, e, i, query, flags);
    }
  }

  lemma HonestStays(matching: seq<Event>, selected: seq<Event>, e: Event, i: nat, query: Query, flags: Flags)
    requires i < |matching| && i < |selected| && HonestAt(matching, selected, i, query, flags)
    ensures HonestAt(matching, selected + [e], i, query, flags)
  {
    var after := selected + [e];
    assert after[..i] == selected[..i] && after[..i + 1] == selected[..i + 1] && after[i] == selected[i];
  }

  /**
   * Each selected event is the wanted one or honestly cut, the selection says so, and it stops short of the
   * limit and of the last wanted event only where the next one is blocked.
   */
  lemma {:induction false} TakeIsHonest(matching: seq<Event>, query: Query, flags: Flags, taken: Taken)
    requires Honest(matching, taken, query, flags)
    ensures var r := Take(matching, query, flags, taken);
      && Honest(matching, r, query, flags) && |taken.events| <= |r.events| && (taken.truncated ==> r.truncated)
      && (|r.events| < |matching| && |r.events| < query.limit ==> Blocked(matching, r.events, query, flags))
    decreases |matching| - |taken.events|
  {
    var n := |taken.events|;
    if n < |matching| && n < query.limit {
      var (e, truncated) := Offered(taken, matching[n], query, flags);
      OfferIsHonestAt(matching, taken, query, flags);
      if FitsDraft(query, taken.events + [e], e.cursor, flags, truncated) {
        HonestOneMore(matching, taken, e, truncated, query, flags);
        TakeIsHonest(matching, query, flags, Taken(taken.events + [e], truncated));
      } else {
        TruncatedIsShorter(query, taken.events + [matching[n]], matching[n].cursor, flags);
        if taken.events != [] {
          TruncatedIsShorter(query, taken.events, LastCursor(taken.events), flags);
        }
      }
    }
  }

  // ---- A page ----

  function Start(events: seq<Event>, next: nat, cursor: Option<nat>): nat
    requires Contiguous(events, next)
  {
    if cursor.Some? then cursor.value else Oldest(events, next) - 1
  }

  /** A read without a cursor starts before every retained event and has lost none; else it starts at its cursor. */
  lemma StartsAtOldest(events: seq<Event>, next: nat, closed: bool, cursor: nat)
    requires Contiguous(events, next)
    ensures var start := Start(events, next, None);
      && (forall e :: e in events ==> e.cursor > start)
      && FlagsAt(events, next, start, closed) == Flags(false, closed)
    ensures Start(events, next, Some(cursor)) == cursor
  {
  }

  function FlagsAt(events: seq<Event>, next: nat, start: nat, closed: bool): Flags {
    Flags(start < Oldest(events, next) - 1, closed)
  }

  /** The newest cursor there has been. */
  function Latest(events: seq<Event>, next: nat): nat
    requires Contiguous(events, next)
  {
    if events != [] then events[|events| - 1].cursor else next - 1
  }

  /** The cursor up to which the selected events reach. */
  function Reach(selected: seq<Event>, start: nat): nat {
    if selected != [] then LastCursor(selected) else start
  }

  /** The finished page: past the last wanted event it leads on to the newest cursor. */
  function Finished(taken: Taken, count: nat, query: Query, flags: Flags, start: nat, latest: nat): Page {
    var n := |taken.events|;
    if n >= count && (n == 0 || n < query.limit) then Page(taken.events, latest, false, flags, taken.truncated)
    else Page(taken.events, Reach(taken.events, start), n < count, flags, taken.truncated)
  }

  function Selected(events: seq<Event>, next: nat, query: Query, closed: bool, start: nat): Taken {
    Take(Matching(events, query, start), query, FlagsAt(events, next, start, closed), Taken([], false))
  }

  function PageAt(events: seq<Event>, next: nat, query: Query, closed: bool, start: nat): Page
    requires Contiguous(events, next)
  {
    Finished(Selected(events, next, query, closed, start), |Matching(events, query, start)|, query,
             FlagsAt(events, next, start, closed), start, Latest(events, next))
  }

  method Finish(taken: Taken, matching: seq<Event>, query: Query, flags: Flags, start: nat, latest: nat)
    returns (page: Page)
    requires |taken.events| < |matching| <==> exists e :: e in matching && e.cursor > Reach(taken.events, start)
    ensures page == Finished(taken, |matching|, query, flags, start, latest)
  {
    var selected := taken.events;
    var nextCursor := if selected != [] then selected[|selected| - 1].cursor else start;
    var hasMore := exists e | e in matching :: e.cursor > nextCursor;
    if !hasMore && (selected == [] || |selected| < query.limit) {
      nextCursor := latest;
    }
    page := Page(selected, nextCursor, hasMore, flags, taken.truncated);
  }

  /** One read without waiting: the page, and whether it is within the limit once finished. */
  method Read(events: seq<Event>, next: nat, query: Query, closed: bool, cursor: Option<nat>)
    returns (page: Page, fits: bool)
    requires Contiguous(events, next)
    ensures page == PageAt(events, next, query, closed, Start(events, next, cursor))
    ensures fits <==> PageSize(page) <= query.maxBytes
  {
    var start := if cursor.Some? then cursor.value else Oldest(events, next) - 1;
    var latest := if events != [] then events[|events| - 1].cursor else next - 1;
    var flags := Flags(start < Oldest(events, next) - 1, closed);
    var matching := Matching(events, query, start);
    var taken := Select(matching, query, flags);
    SelectionReaches(events, next, query, flags, start);
    page := Finish(taken, matching, query, flags, start, latest);
    fits := PageSize(page) <= query.maxBytes;
  }

  lemma ReachSplits(matching: seq<Event>, selected: seq<Event>, start: nat, next: nat)
    requires Rising(matching, start, next) && |selected| <= |matching|
    requires forall i :: 0 <= i < |selected| ==> selected[i].cursor == matching[i].cursor
    ensures var reach := Reach(selected, start);
      && start <= reach && (selected != [] ==> reach < next)
      && (forall i :: 0 <= i < |matching| ==> (i < |selected| <==> matching[i].cursor <= reach))
      && (|selected| < |matching| <==> exists e :: e in matching && e.cursor > reach)
  {
    var reach := Reach(selected, start);
    if |selected| < |matching| {
      assert matching[|selected|] in matching && matching[|selected|].cursor > reach;
    }
  }

  /** Selecting reaches just the selected events, so there are more exactly when some were not selected. */
  lemma SelectionReaches(events: seq<Event>, next: nat, query: Query, flags: Flags, start: nat)
    requires Contiguous(events, next)
    ensures var matching := Matching(events, query, start);
      var selected := Take(matching, query, flags, Taken([], false)).events;
      var reach := Reach(selected, start);
      && start <= reach && (selected != [] ==> reach < next)
      && |selected| <= |matching|
      && (forall i :: 0 <= i < |matching| ==> (i < |selected| <==> matching[i].cursor <= reach))
      && (|selected| < |matching| <==> exists e :: e in matching && e.cursor > reach)
  {
    var matching := Matching(events, query, start);
    MatchingIsFilter(events, query, start, next);
    TakeIsHonest(matching, query, flags, Taken([], false));
    var taken := Take(matching, query, flags, Taken([], false));
    SameCursors(matching, taken, query, flags);
    ReachSplits(matching, taken.events, start, next);
  }

  lemma SameCursors(matching: seq<Event>, taken: Taken, query: Query, flags: Flags)
    requires Honest(matching, taken, query, flags)
    ensures forall i :: 0 <= i < |taken.events| ==> taken.events[i].cursor == matching[i].cursor
  {
    forall i: nat | i < |taken.events| ensures taken.events[i].cursor == matching[i].cursor {
      assert HonestAt(matching, taken.events, i, query, flags);
    }
  }

  /**
   * What a page promises about the events it was read from: it holds the first wanted events, up to its
   * next cursor, in order and once each, whole or honestly cut, and says truly whether any was cut, whether
   * more follow and whether some were lost.
   */
  ghost predicate Exact(events: seq<Event>, next: nat, query: Query, start: nat, page: Page) {
    var matching := Matching(events, query, start);
    && Honest(matching, Taken(page.events, page.truncated), query, page.flags)
    && start <= page.nextCursor
    && (page.nextCursor < next || page.nextCursor == start)
    && (forall i :: 0 <= i < |matching| ==> (i < |page.events| <==> matching[i].cursor <= page.nextCursor))
    && (page.hasMore <==> |page.events| < |matching|)
    && (page.flags.dropped <==> start < Oldest(events, next) - 1)
  }

  /** A page that is not full and has no more to come leads to the newest cursor, any other behind its last event. */
  predicate LeadsOn(page: Page, next: nat, query: Query, start: nat)
    requires next >= 1
  {
    page.nextCursor ==
      if !page.hasMore && (page.events == [] || |page.events| < query.limit) then next - 1
      else Reach(page.events, start)
  }

  /** A start past every event ever recorded gives an empty page that leads back to the newest one. */
  lemma PageIsExact(events: seq<Event>, next: nat, query: Query, closed: bool, start: nat)
    requires Contiguous(events, next)
    ensures var page := PageAt(events, next, query, closed, start);
      if start >= next then page == Page([], next - 1, false, Flags(false, closed), false)
      else Exact(events, next, query, start, page) && page.flags.closed == closed && LeadsOn(page, next, query, start)
  {
    var matching, flags := Matching(events, query, start), FlagsAt(events, next, start, closed);
    MatchingIsFilter(events, query, start, next);
    SelectionReaches(events, next, query, flags, start);
    TakeIsHonest(matching, query, flags, Taken([], false));
    assert matching != [] ==> matching[0].cursor > start;
  }

  /** A page is only marked as truncated if an event of it was cut, or the next was tried that way. */
  lemma PageMarksCuts(events: seq<Event>, next: nat, query: Query, closed: bool, start: nat)
    requires Contiguous(events, next) && PageAt(events, next, query, closed, start).truncated
    ensures var (page, matching) := (PageAt(events, next, query, closed, start), Matching(events, query, start));
      AnyCut(matching, page.events, query, page.flags) || TriedCut(matching, page.events, query, page.flags)
  {
    TruncatedExactly(Matching(events, query, start), query, FlagsAt(events, next, start, closed), Taken([], false));
  }

  // ---- When a read makes no progress ----

  /** The first wanted event fits no page, neither whole nor cut. */
  predicate Stuck(matching: seq<Event>, query: Query, flags: Flags) {
    matching != [] && Blocked(matching, [], query, flags)
  }

  lemma EmptyExactlyIfStuck(events: seq<Event>, next: nat, query: Query, closed: bool, start: nat)
    requires Contiguous(events, next) && query.limit >= 1
    ensures var page := PageAt(events, next, query, closed, start);
      page.events == [] && page.hasMore <==>
        Stuck(Matching(events, query, start), query, FlagsAt(events, next, start, closed))
  {
    var matching, flags := Matching(events, query, start), FlagsAt(events, next, start, closed);
    if matching != [] {
      FitKeepsCursor(matching[0], Room([], matching[0], query, flags));
      var (e, truncated) := Offered(Taken([], false), matching[0], query, flags);
      if FitsDraft(query, [] + [e], e.cursor, flags, truncated) {
        SelectionStarts(matching, query, flags, Taken([] + [e], truncated));
      }
    }
  }

  lemma {:induction false} SelectionStarts(matching: seq<Event>, query: Query, flags: Flags, taken: Taken)
    ensures |taken.events| <= |Take(matching, query, flags, taken).events|
    decreases |matching| - |taken.events|
  {
    var n := |taken.events|;
    if n < |matching| && n < query.limit {
      var (e, truncated) := Offered(taken, matching[n], query, flags);
      SelectionStarts(matching, query, flags, Taken(taken.events + [e], truncated));
    }
  }

  /** The frame of a page around one event, with the cursor of that event. */
  function Around(e: Event, flags: Flags): nat {
    PageSize(Draft([], e.cursor, flags, true))
  }

  /**
   * Where a stub fits, the reason is the margin of two bytes: a reader is stuck exactly when the first wanted
   * event exceeds the page and is cut to one or two bytes more than the page has left.
   */
  lemma StuckIsTheMargin(e: Event, rest: seq<Event>, query: Query, flags: Flags)
    requires EventSize(Remnant(e)) <= 256 && query.maxBytes >= Around(e, flags) + 254
    ensures var left := query.maxBytes - Around(e, flags);
      Stuck([e] + rest, query, flags) <==>
        EventSize(e) + 1 > left && left < EventSize(FitEvent(e, left + 2)) <= left + 2
  {
    StuckAlone(e, rest, query, flags);
    FitIsWithin(e, query.maxBytes - Around(e, flags) + 2);
  }

  lemma StuckAlone(e: Event, rest: seq<Event>, query: Query, flags: Flags)
    ensures var room := query.maxBytes - Around(e, flags) + 2;
      Stuck([e] + rest, query, flags) <==>
        && Around(e, flags) + EventSize(e) + 1 > query.maxBytes
        && (room < 256 || Around(e, flags) + EventSize(FitEvent(e, room)) > query.maxBytes)
  {
    var room := Room([], e, query, flags);
    FitKeepsCursor(e, room);
    AloneFits(e, query, flags, false);
    AloneFits(FitEvent(e, room), query, flags, true);
  }

  lemma AloneFits(e: Event, query: Query, flags: Flags, truncated: bool)
    ensures FitsDraft(query, [] + [e], e.cursor, flags, truncated) <==>
      Around(e, flags) + EventSize(e) + (if truncated then 0 else 1) <= query.maxBytes
  {
    EventsSizeAppend([], e);
  }

  /** Reading on from such a page, or after any further events, is stuck again until the event is evicted. */
  lemma StuckUntilEvicted(events: seq<Event>, next: nat, more: seq<Event>, query: Query, closed: bool, start: nat)
    requires Contiguous(events, next) && Contiguous(events + more, next + |more|) && query.limit >= 1
    requires var page := PageAt(events, next, query, closed, start); page.events == [] && page.hasMore
    ensures PageAt(events, next, query, closed, start).nextCursor == start
    ensures var again := PageAt(events + more, next + |more|, query, closed, start);
      again.events == [] && again.hasMore && again.nextCursor == start
  {
    EmptyExactlyIfStuck(events, next, query, closed, start);
    EmptyExactlyIfStuck(events + more, next + |more|, query, closed, start);
    MatchingParts(events, more, query, start);
    assert events != [];
  }

  // ---- When a read is refused ----

  predicate Refused(page: Page, query: Query) {
    PageSize(page) > query.maxBytes
  }

  /** An empty page fits, whatever its flags and its cursor. */
  ghost predicate EmptyFits(query: Query, highest: nat) {
    FRAME + Digits(highest) + 20 <= query.maxBytes
  }

  /** The page that selected everything, as it is finished. */
  function LastPage(events: seq<Event>, next: nat, query: Query, flags: Flags, taken: Taken): Page
    requires Contiguous(events, next) && taken.events != []
  {
    var end := if |taken.events| < query.limit then Latest(events, next) else LastCursor(taken.events);
    Page(taken.events, end, false, flags, taken.truncated)
  }

  lemma SelectionFits(events: seq<Event>, next: nat, query: Query, closed: bool, start: nat)
    requires Contiguous(events, next) && EmptyFits(query, next)
    ensures var (matching, taken) := (Matching(events, query, start), Selected(events, next, query, closed, start));
      && |taken.events| <= |matching|
      && (|taken.events| < |matching| ==>
            FitsDraft(query, taken.events, Reach(taken.events, start), FlagsAt(events, next, start, closed),
                      taken.truncated))
  {
    var (matching, flags) := (Matching(events, query, start), FlagsAt(events, next, start, closed));
    MatchingIsFilter(events, query, start, next);
    TakeIsHonest(matching, query, flags, Taken([], false));
    if matching != [] {
      DigitsGrow(start, next);
      assert EventsSize([]) == 0;
    }
  }

  /**
   * A read is refused exactly when everything wanted was selected and the finished page, which then says that
   * nothing follows and may lead further on, is larger than the page that was measured.
   */
  lemma RefusedExactly(events: seq<Event>, next: nat, query: Query, closed: bool, start: nat)
    requires Contiguous(events, next) && EmptyFits(query, next)
    ensures var (matching, taken) := (Matching(events, query, start), Selected(events, next, query, closed, start));
      Refused(PageAt(events, next, query, closed, start), query) <==>
        && matching != [] && |taken.events| == |matching|
        && Refused(LastPage(events, next, query, FlagsAt(events, next, start, closed), taken), query)
    ensures var page := PageAt(events, next, query, closed, start);
      Refused(page, query) ==> !page.hasMore && page.events != []
  {
    SelectionFits(events, next, query, closed, start);
    if Matching(events, query, start) == [] {
      DigitsGrow(Latest(events, next), next);
      assert EventsSize([]) == 0;
    }
  }

  lemma {:induction false} EventsSizeFront(events: seq<Event>, n: nat)
    requires n <= |events|
    ensures EventsSize(events[..n]) <= EventsSize(events)
    decreases |events|
  {
    if n < |events| {
      EventsSizeFront(events[..|events| - 1], n);
      assert events[..|events| - 1][..n] == events[..n];
    } else {
      assert events[..n] == events;
    }
  }

  lemma TakeWhole(matching: seq<Event>, query: Query, flags: Flags, n: nat)
    requires n < |matching| && n < query.limit
    requires FitsDraft(query, matching[..n + 1], matching[n].cursor, flags, false)
    ensures Take(matching, query, flags, Taken(matching[..n], false)) ==
      Take(matching, query, flags, Taken(matching[..n + 1], false))
  {
    assert matching[..n] + [matching[n]] == matching[..n + 1];
  }

  lemma FrontFits(matching: seq<Event>, query: Query, flags: Flags, n: nat)
    requires 0 < n <= |matching|
    requires forall i, j :: 0 <= i < j < |matching| ==> matching[i].cursor < matching[j].cursor
    ensures FitsDraft(query, matching, LastCursor(matching), flags, false) ==>
      FitsDraft(query, matching[..n], matching[n - 1].cursor, flags, false)
  {
    EventsSizeFront(matching, n);
    DigitsGrow(matching[n - 1].cursor, LastCursor(matching));
  }

  /** Whole events that fit a page together fit it when selected one by one. */
  lemma {:induction false} AllFit(matching: seq<Event>, query: Query, flags: Flags, n: nat)
    requires n <= |matching| <= query.limit && matching != []
    requires forall i, j :: 0 <= i < j < |matching| ==> matching[i].cursor < matching[j].cursor
    requires FitsDraft(query, matching, LastCursor(matching), flags, false)
    ensures Take(matching, query, flags, Taken(matching[..n], false)) == Taken(matching, false)
    decreases |matching| - n
  {
    if n < |matching| {
      FrontFits(matching, query, flags, n + 1);
      TakeWhole(matching, query, flags, n);
      AllFit(matching, query, flags, n + 1);
    } else {
      assert matching[..n] == matching;
    }
  }

  /** Selecting takes everything whole exactly when it all fits a page that says more follow. */
  lemma TakenWholeExactly(matching: seq<Event>, query: Query, flags: Flags)
    requires forall i, j :: 0 <= i < j < |matching| ==> matching[i].cursor < matching[j].cursor
    ensures Take(matching, query, flags, Taken([], false)) == Taken(matching, false) <==>
      matching == [] ||
      (|matching| <= query.limit && FitsDraft(query, matching, LastCursor(matching), flags, false))
  {
    TakeIsHonest(matching, query, flags, Taken([], false));
    if 0 < |matching| <= query.limit && FitsDraft(query, matching, LastCursor(matching), flags, false) {
      AllFit(matching, query, flags, 0);
      assert matching[..0] == [];
    }
  }

  /**
   * Without any event cut, the refused reads are those whose wanted events fit a page that says more follow
   * but not the same page finished: one byte larger for the flag, and longer by the digits of the newest cursor.
   */
  lemma RefusedWholeExactly(events: seq<Event>, next: nat, query: Query, closed: bool, start: nat)
    requires Contiguous(events, next) && EmptyFits(query, next)
    ensures var (matching, flags) := (Matching(events, query, start), FlagsAt(events, next, start, closed));
      var page := PageAt(events, next, query, closed, start);
      Refused(page, query) && !page.truncated <==>
        && 0 < |matching| <= query.limit
        && FitsDraft(query, matching, LastCursor(matching), flags, false)
        && Refused(LastPage(events, next, query, flags, Taken(matching, false)), query)
  {
    var (matching, flags) := (Matching(events, query, start), FlagsAt(events, next, start, closed));
    var taken := Selected(events, next, query, closed, start);
    MatchingIsFilter(events, query, start, next);
    TakeIsHonest(matching, query, flags, Taken([], false));
    RefusedExactly(events, next, query, closed, start);
    TakenWholeExactly(matching, query, flags);
    assert matching[..|matching|] == matching;
  }

  // ---- Both failures at inputs the program receives ----

  function Repeated(n: nat): Text {
    if n == 0 then [] else [0x61] + Repeated(n - 1)
  }

  lemma {:induction false} RepeatedFacts(n: nat)
    ensures |Repeated(n)| == Escaped(Repeated(n)) == Utf8Size(Repeated(n)) == n
  {
    if n > 0 {
      RepeatedFacts(n - 1);
    }
  }

  /** The first event of a client: an error in its first page, with a text of `n` letters. */
  function PageError(n: nat): Event {
    Event(1, Some(1), "pageerror", map[Words := Repeated(n)], None, 0, false)
  }

  lemma PageErrorSize(n: nat)
    ensures EventSize(PageError(n)) == 53 + n
  {
    RepeatedFacts(n);
    assert FieldSize(PageError(n), Words) == 10 + n;
  }

  /** A reader of everything in that page. */
  function Reader(maxBytes: nat): Query {
    Query(1, (e: Event) => true, 100, maxBytes)
  }

  const OPEN := Flags(false, false)

  lemma OnlyOne(e: Event, maxBytes: nat)
    requires e.page == Some(1) && e.cursor == 1
    ensures Matching([e], Reader(maxBytes), 0) == [e] && Contiguous([e], 2) && FlagsAt([e], 2, 0, false) == OPEN
  {
    assert Matching([e][1..], Reader(maxBytes), 0) == [];
  }

  /**
   * At every limit the program allows there is an event that fills the page to the last byte and is refused:
   * saying that nothing follows takes one byte more.
   */
  lemma FullPageIsRefused(maxBytes: nat)
    requires maxBytes >= 1024
    ensures var e := PageError(maxBytes - 147);
      && PageSize(Draft([e], 1, OPEN, false)) == maxBytes
      && Refused(PageAt([e], 2, Reader(maxBytes), false, 0), Reader(maxBytes))
  {
    var e := PageError(maxBytes - 147);
    PageErrorSize(maxBytes - 147);
    ExactlyFullIsRefused(e, maxBytes);
  }

  lemma ExactlyFullIsRefused(e: Event, maxBytes: nat)
    requires e.page == Some(1) && e.cursor == 1 && EventSize(e) == maxBytes - 94 && maxBytes >= 1024
    ensures PageSize(Draft([e], 1, OPEN, false)) == maxBytes
    ensures Refused(PageAt([e], 2, Reader(maxBytes), false, 0), Reader(maxBytes))
  {
    OnlyOne(e, maxBytes);
    EventsSizeAppend([], e);
    assert [] + [e] == [e] && EventsSize([]) == 0;
    RefusedWholeExactly([e], 2, Reader(maxBytes), false, 0);
  }

  lemma {:induction false} RepeatedCut(n: nat, m: nat)
    requires m <= n
    ensures CutLength(Repeated(n), m) == m && Repeated(n)[..m] == Repeated(m)
  {
    if m > 0 {
      RepeatedCut(n - 1, m - 1);
      assert Repeated(n)[1..] == Repeated(n - 1);
      assert Repeated(n)[..m] == [0x61] + Repeated(n - 1)[..m - 1];
    }
  }

  /** One round of cutting leaves half of the letters and the ellipsis. */
  lemma RepeatedShorter(m: nat)
    requires m > 3
    ensures Repeated(2 * m) != [] && Shorter(Repeated(2 * m)) == Repeated(m) + [ELLIPSIS]
    ensures Escaped(Repeated(m) + [ELLIPSIS]) == m + 3
  {
    RepeatedFacts(2 * m);
    RepeatedFacts(m);
    RepeatedCut(2 * m, m);
    EscapedParts(Repeated(m), [ELLIPSIS]);
    assert [ELLIPSIS][1..] == [];
    assert |Repeated(m) + [ELLIPSIS]| < |Repeated(2 * m)|;
  }

  /** Cut once, such an event can take all the room that it was given. */
  lemma FillsItsRoom(m: nat)
    requires m > 20
    ensures EventSize(FitEvent(PageError(2 * m), m + 73)) == m + 73
  {
    var e := PageError(2 * m).(truncated := true);
    var short := Put(e, Words, Repeated(m) + [ELLIPSIS]);
    PageErrorSize(2 * m);
    RepeatedShorter(m);
    assert EventSize(short) == m + 73;
    OnlyWordsShrink(EventSize, e, short, m + 73);
  }

  lemma OnlyWordsShrink(size: Event -> nat, e: Event, short: Event, budget: int)
    requires e.truncated && Words in e.texts && e.texts[Words] != [] && short == Put(e, Words, Shorter(e.texts[Words]))
    requires size(short) <= budget < size(e)
    ensures FitWith(size, e, budget) == short
  {
    assert Shrink(size, short, Words, budget) == short;
    assert Shrink(size, e, Words, budget) == short;
    assert CutTexts(size, e, 0, budget) == e && CutTexts(size, e, 1, budget) == short;
    assert CutTexts(size, e, 2, budget) == short && CutTexts(size, e, 3, budget) == short;
    assert CutTexts(size, e, 4, budget) == short;
  }

  lemma MarginBlocks(maxBytes: nat)
    requires maxBytes >= 1024
    ensures Stuck([PageError(2 * (maxBytes - 164))], Reader(maxBytes), OPEN)
  {
    var e := PageError(2 * (maxBytes - 164));
    PageErrorSize(2 * (maxBytes - 164));
    FillsItsRoom(maxBytes - 164);
    assert EventsSize([]) == 0 && [e] + [] == [e];
    StubsAreSmall(e);
    assert Around(e, OPEN) == 93;
    StuckIsTheMargin(e, [], Reader(maxBytes), OPEN);
  }

  /**
   * At every limit there is an event that is cut to two bytes more than the page has left: the page is empty
   * with more to come, and so is every retry, whatever events follow.
   */
  lemma MarginStopsReader(maxBytes: nat, more: seq<Event>)
    requires maxBytes >= 1024
    requires Contiguous([PageError(2 * (maxBytes - 164))] + more, 2 + |more|)
    ensures var events := [PageError(2 * (maxBytes - 164))] + more;
      var page := PageAt(events, 2 + |more|, Reader(maxBytes), false, 0);
      page.events == [] && page.hasMore && page.nextCursor == 0
  {
    var e := PageError(2 * (maxBytes - 164));
    MarginBlocks(maxBytes);
    OnlyOne(e, maxBytes);
    EmptyExactlyIfStuck([e], 2, Reader(maxBytes), false, 0);
    StuckUntilEvicted([e], 2, more, Reader(maxBytes), false, 0);
  }

  // ---- Chains of reads ----

  /** A page together with the history it was read from. */
  datatype Reading = Reading(events: seq<Event>, next: nat, page: Page)

  function Reached(readings: seq<Reading>, start: nat): nat {
    if readings == [] then start else readings[|readings| - 1].page.nextCursor
  }

  function Delivered(readings: seq<Reading>): seq<nat>
    decreases |readings|
  {
    if readings == [] then []
    else Delivered(readings[..|readings| - 1]) + Cursors(readings[|readings| - 1].page.events)
  }

  /** Each page is read from the previous page's next cursor, with any appends and evictions in between. */
  ghost predicate Chain(readings: seq<Reading>, query: Query, start: nat)
    decreases |readings|
  {
    readings != [] ==>
      var (earlier, last) := (readings[..|readings| - 1], readings[|readings| - 1]);
      && Chain(earlier, query, start)
      && Contiguous(last.events, last.next)
      && Exact(last.events, last.next, query, Reached(earlier, start), last.page)
      && Follows(earlier, last.events, last.next)
  }

  ghost predicate Follows(readings: seq<Reading>, later: seq<Event>, laterNext: nat) {
    readings != [] ==>
      Later(readings[|readings| - 1].events, readings[|readings| - 1].next, later, laterNext)
  }

  ghost predicate Ordered(cursors: seq<nat>, low: nat, high: nat) {
    && low <= high
    && (forall i :: 0 <= i < |cursors| ==> low < cursors[i] <= high)
    && (forall i, j :: 0 <= i < j < |cursors| ==> cursors[i] < cursors[j])
  }

  /** Of the events up to `reached`, exactly the wanted ones are among `cursors`. */
  ghost predicate Covers(cursors: seq<nat>, events: seq<Event>, query: Query, start: nat, reached: nat) {
    forall e :: e in events && e.cursor <= reached ==> (Wanted(e, query, start) <==> e.cursor in cursors)
  }

  /**
   * A chain of reads under one filter delivers cursors in strictly increasing order, so nothing twice; and
   * whatever history remains afterwards, the events of it that were wanted are exactly those delivered.
   */
  lemma {:induction false} ChainIsExact(readings: seq<Reading>, query: Query, start: nat,
                                        later: seq<Event>, laterNext: nat)
    requires Chain(readings, query, start)
    requires Contiguous(later, laterNext) && Follows(readings, later, laterNext)
    ensures Ordered(Delivered(readings), start, Reached(readings, start))
    ensures Covers(Delivered(readings), later, query, start, Reached(readings, start))
    decreases |readings|
  {
    if readings != [] {
      var (earlier, last) := (readings[..|readings| - 1], readings[|readings| - 1]);
      ChainFollows(readings, query, start, later, laterNext);
      ChainIsExact(earlier, query, start, later, laterNext);
      PageIsOrdered(last.events, last.next, query, Reached(earlier, start), last.page);
      PageCovers(last.events, last.next, query, Reached(earlier, start), last.page, later, laterNext);
      CoversJoin(Delivered(earlier), Cursors(last.page.events), later, query, start,
                 Reached(earlier, start), last.page.nextCursor);
    }
  }

  lemma ChainFollows(readings: seq<Reading>, query: Query, start: nat, later: seq<Event>, laterNext: nat)
    requires readings != [] && Chain(readings, query, start)
    requires Contiguous(later, laterNext) && Follows(readings, later, laterNext)
    ensures Follows(readings[..|readings| - 1], later, laterNext)
  {
    var (earlier, last) := (readings[..|readings| - 1], readings[|readings| - 1]);
    if earlier != [] {
      var previous := earlier[|earlier| - 1];
      LaterIsTransitive(previous.events, previous.next, last.events, last.next, later, laterNext);
    }
  }

  lemma PageIsOrdered(events: seq<Event>, next: nat, query: Query, start: nat, page: Page)
    requires Contiguous(events, next) && Exact(events, next, query, start, page)
    ensures Ordered(Cursors(page.events), start, page.nextCursor)
  {
    MatchingIsFilter(events, query, start, next);
    SameCursors(Matching(events, query, start), Taken(page.events, page.truncated), query, page.flags);
  }

  lemma PageCovers(events: seq<Event>, next: nat, query: Query, start: nat, page: Page,
                   later: seq<Event>, laterNext: nat)
    requires Contiguous(events, next) && Exact(events, next, query, start, page)
    requires Contiguous(later, laterNext) && Later(events, next, later, laterNext)
    ensures Covers(Cursors(page.events), later, query, start, page.nextCursor)
  {
    MatchingIsFilter(events, query, start, next);
    var matching := Matching(events, query, start);
    SameCursors(matching, Taken(page.events, page.truncated), query, page.flags);
    forall e | e in later && e.cursor <= page.nextCursor
      ensures Wanted(e, query, start) <==> e.cursor in Cursors(page.events)
    {
      if Wanted(e, query, start) {
        RetainedEarlier(events, next, later, laterNext, e);
        var i :| 0 <= i < |matching| && matching[i] == e;
        assert Cursors(page.events)[i] == matching[i].cursor;
      }
      if e.cursor in Cursors(page.events) {
        var i :| 0 <= i < |page.events| && Cursors(page.events)[i] == e.cursor;
        assert matching[i] in matching && matching[i].cursor == e.cursor;
      }
    }
  }

  lemma CoversJoin(a: seq<nat>, b: seq<nat>, events: seq<Event>, query: Query, start: nat, middle: nat, reached: nat)
    requires Ordered(a, start, middle) && Ordered(b, middle, reached)
    requires Covers(a, events, query, start, middle) && Covers(b, events, query, middle, reached)
    ensures Ordered(a + b, start, reached) && Covers(a + b, events, query, start, reached)
  {
  }
}
