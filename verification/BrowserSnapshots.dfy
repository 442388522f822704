/**
 * The snapshot service: captures that may be overtaken by clears, and the store's operations as the object
 * runs them.
 */
module BrowserSnapshots {
  import opened Outcomes
  import opened OrderedKeys
  import opened SnapshotStore

  // ---- Generations: telling whether a clear happened during a capture ----

  datatype Generations = Generations(all: nat, owners: map<Owner, nat>)

  datatype Token = Token(all: nat, own: nat)

  function TokenFor(g: Generations, owner: Owner): Token {
    Token(g.all, if owner in g.owners then g.owners[owner] else 0)
  }

  /** A global clear resets the owners' counters; an owner's clear counts up its own. */
  function Cleared(g: Generations, owner: Option<Owner>): Generations {
    match owner
    case None => Generations(g.all + 1, map[])
    case Some(o) => g.(owners := g.owners[o := TokenFor(g, o).own + 1])
  }

  datatype Event = Capture(owner: Owner) | Clear(target: Option<Owner>)

  predicate Affects(event: Event, owner: Owner) {
    event.Clear? && (event.target.None? || event.target.value == owner)
  }

  function After(g: Generations, events: seq<Event>): Generations
    decreases |events|
  {
    if events == [] then g
    else After(if events[0].Clear? then Cleared(g, events[0].target) else g, events[1..])
  }

  predicate Less(a: Token, b: Token) {
    a.all < b.all || (a.all == b.all && a.own < b.own)
  }

  /** The pair of counters never goes back, and goes up at every clear that affects the owner. */
  lemma {:induction false} TokensRise(g: Generations, events: seq<Event>, owner: Owner)
    ensures var before, after := TokenFor(g, owner), TokenFor(After(g, events), owner);
      if exists event :: event in events && Affects(event, owner) then Less(before, after) else before == after
    decreases |events|
  {
    if events != [] {
      var next := if events[0].Clear? then Cleared(g, events[0].target) else g;
      TokensRise(next, events[1..], owner);
      assert events == [events[0]] + events[1..];
      if Affects(events[0], owner) {
        assert events[0] in events && Less(TokenFor(g, owner), TokenFor(next, owner));
      } else {
        assert TokenFor(next, owner) == TokenFor(g, owner);
        assert (exists event :: event in events && Affects(event, owner))
          <==> (exists event :: event in events[1..] && Affects(event, owner));
      }
    }
  }

  /** The check made when a capture that started at event `i` ends at event `j`. */
  predicate Stores(events: seq<Event>, i: nat, j: nat, owner: Owner)
    requires i <= j <= |events|
  {
    var start := Generations(0, map[]);
    TokenFor(After(start, events[..i]), owner) == TokenFor(After(start, events[..j]), owner)
  }

  lemma {:induction false} AfterParts(g: Generations, first: seq<Event>, second: seq<Event>)
    ensures After(g, first + second) == After(After(g, first), second)
    decreases |first|
  {
    if first == [] {
      assert first + second == second;
    } else {
      assert (first + second)[1..] == first[1..] + second;
      AfterParts(if first[0].Clear? then Cleared(g, first[0].target) else g, first[1..], second);
    }
  }

  /**
   * In any interleaving of captures and clears, a capture is stored exactly when no clear of everything
   * or of its owner happened while it ran.
   */
  lemma StoredExactlyIfNotCleared(events: seq<Event>, i: nat, j: nat, owner: Owner)
    requires i <= j <= |events|
    ensures Stores(events, i, j, owner) <==> forall k :: i <= k < j ==> !Affects(events[k], owner)
  {
    var start := After(Generations(0, map[]), events[..i]);
    assert events[..i] + events[i..j] == events[..j];
    AfterParts(Generations(0, map[]), events[..i], events[i..j]);
    TokensRise(start, events[i..j], owner);
    assert forall k :: i <= k < j ==> events[k] == events[i..j][k - i];
    assert forall event :: event in events[i..j] ==> exists k :: i <= k < j && events[k] == event;
  }

  // ---- Whole runs: captures in flight over the real store ----

  datatype Operation =
    | Begin(owner: Owner)
    | Finish(capture: nat, item: Snap)
    | Access(key: Key)
    | Collect
    | ClearEverything
    | ClearOne(owner: Owner)

  /** An operation and the time that passed since the one before it. */
  datatype Timed = Timed(elapsed: nat, operation: Operation)

  /** A capture that was begun when `began` events had happened, with the token it took then. */
  datatype Running = Running(owner: Owner, token: Token, began: nat)

  /** The service: its store, its generations, the captures begun, what has happened, and when each began. */
  datatype World = World(store: Store, generations: Generations, running: seq<Running>,
                         history: seq<Event>, began: map<Key, nat>)

  const FRESH := World(EMPTY, Generations(0, map[]), [], [], map[])

  /**
   * A capture that a clear overtook is refused, and so is one over the capture limit. Idents are fresh tokens,
   * so one never occurs twice.
   */
  function Finished(w: World, now: nat, capture: Running, item: Snap): World
    requires Tracked(w.store) && Sized(w.store)
  {
    var key := Key(capture.owner, item.ident);
    if capture.token != TokenFor(w.generations, capture.owner) || item.size > MAX_STORE_BYTES
       || Get(w.store.clients, key).Some?
    then w
    else w.(store := Commit(w.store, capture.owner, item, now), began := w.began[key := capture.began])
  }

  function Step(w: World, now: nat, operation: Operation): World
    requires Tracked(w.store) && Sized(w.store)
  {
    var s := w.store;
    ExpireKeeps(s, now);
    match operation
    case Begin(owner) =>
      w.(running := w.running + [Running(owner, TokenFor(w.generations, owner), |w.history|)],
         history := w.history + [Capture(owner)])
    case Finish(n, item) => if n < |w.running| then Finished(w, now, w.running[n], item) else w
    case Access(key) => w.(store := Touch(Expire(s, now), key, now))
    case Collect =>
      ExpireKeeps(Expire(s, now), now);
      w.(store := Evict(Expire(s, now)))
    case ClearEverything => ClearedWorld(w, EMPTY, None)
    case ClearOne(owner) => ClearedWorld(w, ClearOwner(s, owner), Some(owner))
  }

  function ClearedWorld(w: World, store: Store, target: Option<Owner>): World {
    w.(store := store, generations := Cleared(w.generations, target), history := w.history + [Clear(target)])
  }

  ghost predicate Settled(s: Store, now: nat) {
    Valid(s, now) && !OverBudget(s)
  }

  lemma StepKeepsSettled(w: World, before: nat, now: nat, operation: Operation)
    requires Settled(w.store, before) && before <= now
    ensures Settled(Step(w, now, operation).store, now)
  {
    TimeKeepsSettled(w.store, before, now);
    match operation
    case Begin(_) =>
    case Finish(n, item) =>
      if n < |w.running| {
        FinishKeepsSettled(w, now, w.running[n], item);
      }
    case Access(key) => AccessKeepsSettled(w.store, key, now);
    case Collect => CollectKeepsSettled(w.store, now);
    case ClearEverything =>
    case ClearOne(owner) => ClearOwnerKeepsSettled(w.store, owner, now);
  }

  lemma TimeKeepsSettled(s: Store, before: nat, now: nat)
    requires Settled(s, before) && before <= now
    ensures Settled(s, now)
  {
    AgedElsewhere(s.lru, s.accessed, s.accessed, 0, 0, before, now);
  }

  lemma AccessKeepsSettled(s: Store, key: Key, now: nat)
    requires Settled(s, now)
    ensures Settled(Touch(Expire(s, now), key, now), now)
  {
    ExpireKeepsSettled(s, now);
    TouchKeepsValid(Expire(s, now), key, now);
  }

  lemma CollectKeepsSettled(s: Store, now: nat)
    requires Settled(s, now)
    ensures Tracked(Expire(s, now)) && Sized(Expire(s, now)) && Settled(Evict(Expire(s, now)), now)
  {
    ExpireKeepsSettled(s, now);
    EvictKeepsValid(Expire(s, now), now);
  }

  lemma FinishKeepsSettled(w: World, now: nat, capture: Running, item: Snap)
    requires Settled(w.store, now)
    ensures Settled(Finished(w, now, capture, item).store, now)
  {
    if item.size <= MAX_STORE_BYTES && Get(w.store.clients, Key(capture.owner, item.ident)).None? {
      CommitKeepsValid(w.store, capture.owner, item, now);
    }
  }

  /** No clear since the first `from` events affects the client. */
  ghost predicate Unaffected(history: seq<Event>, from: nat, owner: Owner) {
    from <= |history| && forall k :: from <= k < |history| ==> !Affects(history[k], owner)
  }

  /** The capture of every stored snapshot began after the last clear that affects its client. */
  ghost predicate CapturedSinceClear(w: World) {
    forall key :: Get(w.store.clients, key).Some? ==> key in w.began && Unaffected(w.history, w.began[key], key.owner)
  }

  function TokenAt(history: seq<Event>, count: nat, owner: Owner): Token
    requires count <= |history|
  {
    TokenFor(After(Generations(0, map[]), history[..count]), owner)
  }

  /** The generations are those of what has happened, and each token is of when its capture began. */
  ghost predicate TokensOf(w: World) {
    && w.generations == After(Generations(0, map[]), w.history)
    && (forall r :: r in w.running ==> r.began <= |w.history| && r.token == TokenAt(w.history, r.began, r.owner))
  }

  ghost predicate Shrinks(before: Store, after: Store) {
    forall key :: Get(after.clients, key).Some? ==> Get(before.clients, key).Some?
  }

  lemma {:induction false} EvictOnlyRemoves(s: Store)
    requires Tracked(s) && Sized(s)
    ensures Shrinks(s, Evict(s))
    decreases |s.lru|
  {
    if OverBudget(s) && s.lru != [] {
      ListsMembers(s.lru, s.accessed.Keys);
      assert s.lru[0] in s.lru;
      RemoveUntracks(s, s.lru[0]);
      RemoveKeepsTracked(s, s.lru[0]);
      RemoveGets(s, s.lru[0]);
      EvictOnlyRemoves(Remove(s, s.lru[0]));
    }
  }

  /** Storing a snapshot adds no other one. */
  lemma CommitAddsOne(s: Store, owner: Owner, item: Snap, now: nat)
    requires Tracked(s) && Sized(s) && Get(s.clients, Key(owner, item.ident)).None?
    ensures forall key :: Get(Commit(s, owner, item, now).clients, key).Some? ==>
      key == Key(owner, item.ident) || Get(s.clients, key).Some?
  {
    ExpireKeeps(s, now);
    TrimKeeps(Expire(s, now), owner, item.size);
    var trimmed := Trim(Expire(s, now), owner, item.size);
    AddKeeps(trimmed, owner, item, now);
    AddGets(trimmed, owner, item, now);
    var added := Add(trimmed, owner, item, now);
    ExpireKeeps(added, now);
    EvictOnlyRemoves(Expire(added, now));
  }

  lemma HappenedKeepsTokens(w: World, event: Event, generations: Generations)
    requires TokensOf(w)
    requires generations == if event.Clear? then Cleared(w.generations, event.target) else w.generations
    ensures TokensOf(w.(history := w.history + [event], generations := generations))
  {
    var start := Generations(0, map[]);
    AfterParts(start, w.history, [event]);
    assert [event][1..] == [];
    forall r | r in w.running ensures (w.history + [event])[..r.began] == w.history[..r.began] {
    }
  }

  lemma BeginKeepsTokens(w: World, owner: Owner)
    requires TokensOf(w)
    ensures TokensOf(w.(running := w.running + [Running(owner, TokenFor(w.generations, owner), |w.history|)],
                        history := w.history + [Capture(owner)]))
  {
    HappenedKeepsTokens(w, Capture(owner), w.generations);
    assert (w.history + [Capture(owner)])[..|w.history|] == w.history;
  }

  /** The token test admits exactly the captures that no clear overtook. */
  lemma TokenTellsClear(w: World, capture: Running)
    requires TokensOf(w) && capture in w.running
    ensures capture.token == TokenFor(w.generations, capture.owner) <==>
      Unaffected(w.history, capture.began, capture.owner)
  {
    StoredExactlyIfNotCleared(w.history, capture.began, |w.history|, capture.owner);
    assert w.history[..|w.history|] == w.history;
  }

  lemma StepKeepsTokens(w: World, now: nat, operation: Operation)
    requires TokensOf(w) && Tracked(w.store) && Sized(w.store)
    ensures TokensOf(Step(w, now, operation))
  {
    match operation
    case Begin(owner) => BeginKeepsTokens(w, owner);
    case ClearEverything => HappenedKeepsTokens(w, Clear(None), Cleared(w.generations, None));
    case ClearOne(owner) => HappenedKeepsTokens(w, Clear(Some(owner)), Cleared(w.generations, Some(owner)));
    case _ =>
  }

  lemma FinishKeepsCaptured(w: World, now: nat, capture: Running, item: Snap)
    requires Tracked(w.store) && Sized(w.store) && TokensOf(w) && CapturedSinceClear(w) && capture in w.running
    ensures CapturedSinceClear(Finished(w, now, capture, item))
  {
    TokenTellsClear(w, capture);
    if Get(w.store.clients, Key(capture.owner, item.ident)).None? {
      CommitAddsOne(w.store, capture.owner, item, now);
    }
  }

  /** A capture that is over is stored exactly if no clear overtook it. */
  lemma StoredUnlessOvertaken(w: World, now: nat, capture: Running, item: Snap)
    requires Settled(w.store, now) && TokensOf(w) && capture in w.running && item.size <= MAX_STORE_BYTES
    requires Get(w.store.clients, Key(capture.owner, item.ident)).None?
    ensures var after := Finished(w, now, capture, item);
      if Unaffected(w.history, capture.began, capture.owner)
      then Get(after.store.clients, Key(capture.owner, item.ident)) == Some(item)
      else after == w
  {
    TokenTellsClear(w, capture);
    CommitKeepsValid(w.store, capture.owner, item, now);
  }

  lemma ClearKeepsCaptured(w: World, store: Store, target: Option<Owner>)
    requires CapturedSinceClear(w) && Shrinks(w.store, store)
    requires forall key :: Get(store.clients, key).Some? ==> !Affects(Clear(target), key.owner)
    ensures CapturedSinceClear(ClearedWorld(w, store, target))
  {
  }

  /** Where no clear happens and nothing is stored, nothing needs another check. */
  lemma RemovalKeepsCaptured(w: World, store: Store)
    requires CapturedSinceClear(w) && Shrinks(w.store, store)
    ensures CapturedSinceClear(w.(store := store))
  {
  }

  lemma BeginKeepsCaptured(w: World, owner: Owner)
    requires CapturedSinceClear(w)
    ensures CapturedSinceClear(w.(running := w.running + [Running(owner, TokenFor(w.generations, owner), |w.history|)],
                                  history := w.history + [Capture(owner)]))
  {
  }

  lemma StepKeepsCaptured(w: World, before: nat, now: nat, operation: Operation)
    requires Settled(w.store, before) && TokensOf(w) && CapturedSinceClear(w)
    ensures CapturedSinceClear(Step(w, now, operation))
  {
    ExpireKeeps(w.store, now);
    match operation
    case Begin(owner) => BeginKeepsCaptured(w, owner);
    case Finish(n, item) =>
      if n < |w.running| {
        FinishKeepsCaptured(w, now, w.running[n], item);
      }
    case Access(key) => RemovalKeepsCaptured(w, Touch(Expire(w.store, now), key, now));
    case Collect =>
      EvictOnlyRemoves(Expire(w.store, now));
      RemovalKeepsCaptured(w, Evict(Expire(w.store, now)));
    case ClearEverything => ClearKeepsCaptured(w, EMPTY, None);
    case ClearOne(owner) =>
      ClearOwnerKeepsValid(w.store, owner, before);
      ClearKeepsCaptured(w, ClearOwner(w.store, owner), Some(owner));
  }

  lemma ExpireKeepsSettled(s: Store, now: nat)
    requires Settled(s, now)
    ensures Settled(Expire(s, now), now)
  {
    ExpireIsFullScan(s, now, now);
    ExpireFreesSpace(s, now);
  }

  lemma ClearOwnerKeepsSettled(s: Store, owner: Owner, now: nat)
    requires Settled(s, now)
    ensures Settled(ClearOwner(s, owner), now)
  {
    ClearOwnerKeepsValid(s, owner, now);
    ClearOwnerFreesSpace(s.(clients := s.clients - {owner}, sizes := s.sizes - {owner}), owner, SnapsOf(s, owner));
  }

  lemma {:induction false} ExpireFreesSpace(s: Store, now: nat)
    requires Tracked(s) && Sized(s)
    ensures Expire(s, now).totalSize <= s.totalSize && Expire(s, now).totalCount <= s.totalCount
    decreases |s.lru|
  {
    if s.lru != [] {
      ListsMembers(s.lru, s.accessed.Keys);
      assert s.lru[0] in s.lru;
      RemoveUntracks(s, s.lru[0]);
      RemoveKeepsTracked(s, s.lru[0]);
      RemoveGets(s, s.lru[0]);
      ExpireFreesSpace(Remove(s, s.lru[0]), now);
    }
  }

  lemma {:induction false} ClearOwnerFreesSpace(s: Store, owner: Owner, snaps: seq<Snap>)
    ensures var r := UntrackAll(s, owner, snaps); r.totalSize <= s.totalSize && r.totalCount <= s.totalCount
    decreases |snaps|
  {
    if snaps != [] {
      ClearOwnerFreesSpace(Untrack(s, Key(owner, snaps[0].ident), snaps[0].size), owner, snaps[1..]);
    }
  }

  ghost function Clock(operations: seq<Timed>): nat {
    if operations == [] then 0 else Clock(operations[..|operations| - 1]) + operations[|operations| - 1].elapsed
  }

  /**
   * In every reachable state all caches are exact, all limits hold, and the capture of every stored snapshot
   * began after the last clear that affects its client.
   */
  ghost function Run(operations: seq<Timed>): (w: World)
    ensures Settled(w.store, Clock(operations)) && TokensOf(w) && CapturedSinceClear(w)
  {
    if operations == [] then FRESH
    else
      var n := |operations| - 1;
      var (w, operation) := (Run(operations[..n]), operations[n].operation);
      StepKeepsSettled(w, Clock(operations[..n]), Clock(operations), operation);
      StepKeepsTokens(w, Clock(operations), operation);
      StepKeepsCaptured(w, Clock(operations[..n]), Clock(operations), operation);
      Step(w, Clock(operations), operation)
  }

  /** What each operation does to the captures and to what has happened; the last of a capture is its end. */
  lemma StepsExactly(w: World, now: nat, operation: Operation)
    requires Tracked(w.store) && Sized(w.store)
    ensures var after := Step(w, now, operation);
      match operation
      case Begin(owner) =>
        && after.store == w.store && after.generations == w.generations
        && after.running == w.running + [Running(owner, TokenFor(w.generations, owner), |w.history|)]
        && after.history == w.history + [Capture(owner)]
      case Finish(n, item) =>
        after == (if n < |w.running| then Finished(w, now, w.running[n], item) else w)
      case Access(_) => after == w.(store := after.store)
      case Collect => after == w.(store := after.store)
      case ClearEverything =>
        && after.store == EMPTY && after.running == w.running && after.history == w.history + [Clear(None)]
        && (forall owner :: Less(TokenFor(w.generations, owner), TokenFor(after.generations, owner)))
      case ClearOne(owner) =>
        && after.running == w.running && after.history == w.history + [Clear(Some(owner))]
        && after.store == ClearOwner(w.store, owner)
        && Less(TokenFor(w.generations, owner), TokenFor(after.generations, owner))
  {
  }

  /** A run takes its operations one after the other. */
  lemma RunSteps(operations: seq<Timed>, next: Timed)
    ensures Run(operations + [next]) == Step(Run(operations), Clock(operations) + next.elapsed, next.operation)
  {
    var all, n := operations + [next], |operations|;
    assert all[..n] == operations && all[n] == next && all != [];
    assert Clock(all) == Clock(operations) + next.elapsed;
  }

  // ---- Inserting before trimming ----

  predicate Overfull(snapshots: seq<Snap>, total: int) {
    |snapshots| > MAX_SNAPSHOTS || total > MAX_STORE_BYTES
  }

  /** Drops the oldest snapshots of a client's list while it is over a limit; returns the size that is left. */
  function Pop(s: Store, owner: Owner, snapshots: seq<Snap>, total: int): (Store, int)
    decreases |snapshots|
  {
    if snapshots == [] || !Overfull(snapshots, total) then (s, total)
    else
      var first, rest := snapshots[0], snapshots[1..];
      var popped := Untrack(s.(clients := s.clients[owner := rest]), Key(owner, first.ident), first.size);
      Pop(popped, owner, rest, total - first.size)
  }

  /** `s` is `kept` with the new snapshot already in its client's list, but not yet in the caches. */
  ghost predicate Extends(s: Store, kept: Store, owner: Owner, item: Snap) {
    && s.clients == kept.clients[owner := SnapsOf(kept, owner) + [item]]
    && s.sizes[owner := 0] == kept.sizes[owner := 0]
    && s.lru == kept.lru && s.accessed == kept.accessed
    && s.totalSize == kept.totalSize && s.totalCount == kept.totalCount
  }

  /** Removing a client's oldest snapshot, seen from its list and its size. */
  lemma RemoveFirst(kept: Store, owner: Owner)
    requires Tracked(kept) && Sized(kept) && SnapsOf(kept, owner) != []
    ensures var first := SnapsOf(kept, owner)[0]; var r := Remove(kept, Key(owner, first.ident));
      && Get(kept.clients, Key(owner, first.ident)) == Some(first)
      && Tracked(r) && Sized(r)
      && SnapsOf(r, owner) == SnapsOf(kept, owner)[1..] && SizeFor(r, owner) == SizeFor(kept, owner) - first.size
  {
    var snaps := SnapsOf(kept, owner);
    assert Get(kept.clients, Key(owner, snaps[0].ident)) == Some(snaps[0]);
    RemoveKeepsTracked(kept, Key(owner, snaps[0].ident));
    RemoveGets(kept, Key(owner, snaps[0].ident));
    assert SumSizes(snaps) == snaps[0].size + SumSizes(snaps[1..]);
  }

  lemma PopExtends(s: Store, kept: Store, owner: Owner, item: Snap)
    requires Extends(s, kept, owner, item) && Tracked(kept) && Sized(kept) && SnapsOf(kept, owner) != []
    ensures var first, rest := SnapsOf(kept, owner)[0], SnapsOf(kept, owner)[1..] + [item];
      var key := Key(owner, first.ident);
      Extends(Untrack(s.(clients := s.clients[owner := rest]), key, first.size), Remove(kept, key), owner, item)
  {
    RemoveFirst(kept, owner);
    var first, left := SnapsOf(kept, owner)[0], SnapsOf(kept, owner)[1..];
    var key := Key(owner, first.ident);
    RemoveOnlyOwner(kept, key, left + [item]);
    RemoveIsUntrack(kept, key);
    assert s.clients[owner := left + [item]] == kept.clients[owner := left + [item]];
  }

  lemma RemoveOnlyOwner(kept: Store, key: Key, snapshots: seq<Snap>)
    requires Get(kept.clients, key).Some?
    ensures Remove(kept, key).clients[key.owner := snapshots] == kept.clients[key.owner := snapshots]
    ensures Remove(kept, key).sizes[key.owner := 0] == kept.sizes[key.owner := 0]
  {
  }

  /** Besides the client's list and size, removing a snapshot is untracking it. */
  lemma RemoveIsUntrack(kept: Store, key: Key)
    requires Get(kept.clients, key).Some?
    ensures var r := Remove(kept, key); var u := Untrack(kept, key, Get(kept.clients, key).value.size);
      r.lru == u.lru && r.accessed == u.accessed && r.totalSize == u.totalSize && r.totalCount == u.totalCount
  {
  }

  lemma TrimStep(kept: Store, owner: Owner, size: nat)
    requires Tracked(kept) && Sized(kept) && SnapsOf(kept, owner) != []
    requires |SnapsOf(kept, owner)| + 1 > MAX_SNAPSHOTS || SizeFor(kept, owner) + size > MAX_STORE_BYTES
    ensures var r := Remove(kept, Key(owner, SnapsOf(kept, owner)[0].ident));
      Tracked(r) && Sized(r) && Trim(kept, owner, size) == Trim(r, owner, size)
  {
    RemoveFirst(kept, owner);
  }

  ghost predicate Agrees(popped: (Store, int), trimmed: Store, owner: Owner, item: Snap) {
    Extends(popped.0, trimmed, owner, item) && popped.1 == SizeFor(trimmed, owner) + item.size
  }

  function PopAll(s: Store, kept: Store, owner: Owner, item: Snap): (Store, int) {
    Pop(s, owner, SnapsOf(kept, owner) + [item], SizeFor(kept, owner) + item.size)
  }

  /** Inserting first and trimming afterwards leaves what trimming first and inserting afterwards leaves. */
  lemma {:induction false} PopIsTrim(s: Store, kept: Store, owner: Owner, item: Snap)
    requires Extends(s, kept, owner, item) && Tracked(kept) && Sized(kept) && item.size <= MAX_STORE_BYTES
    ensures Agrees(PopAll(s, kept, owner, item), Trim(kept, owner, item.size), owner, item)
    decreases |SnapsOf(kept, owner)|
  {
    var snaps, total := SnapsOf(kept, owner), SizeFor(kept, owner) + item.size;
    if Overfull(snaps + [item], total) {
      var key, rest := Key(owner, snaps[0].ident), snaps[1..] + [item];
      RemoveFirst(kept, owner);
      TrimStep(kept, owner, item.size);
      PopExtends(s, kept, owner, item);
      var popped := Untrack(s.(clients := s.clients[owner := rest]), key, snaps[0].size);
      PopIsTrim(popped, Remove(kept, key), owner, item);
      PopAllStep(s, kept, owner, item);
    } else {
      assert Trim(kept, owner, item.size) == kept;
      assert PopAll(s, kept, owner, item) == (s, total);
    }
  }

  lemma PopAllStep(s: Store, kept: Store, owner: Owner, item: Snap)
    requires Tracked(kept) && Sized(kept) && SnapsOf(kept, owner) != []
    requires Overfull(SnapsOf(kept, owner) + [item], SizeFor(kept, owner) + item.size)
    ensures var first, rest := SnapsOf(kept, owner)[0], SnapsOf(kept, owner)[1..] + [item];
      var key := Key(owner, first.ident);
      var popped := Untrack(s.(clients := s.clients[owner := rest]), key, first.size);
      PopAll(s, kept, owner, item) == PopAll(popped, Remove(kept, key), owner, item)
  {
    var snaps := SnapsOf(kept, owner);
    RemoveFirst(kept, owner);
    assert (snaps + [item])[1..] == snaps[1..] + [item] && (snaps + [item])[0] == snaps[0];
  }

  /** Caching the client's new size and tracking the snapshot. */
  function Record(s: Store, owner: Owner, item: Snap, now: nat, total: int): Store {
    s.(sizes := s.sizes[owner := total],
       lru := s.lru + [Key(owner, item.ident)],
       accessed := s.accessed[Key(owner, item.ident) := now],
       totalSize := s.totalSize + item.size,
       totalCount := s.totalCount + 1)
  }

  lemma AgreedIsAdded(popped: (Store, int), trimmed: Store, owner: Owner, item: Snap, now: nat)
    requires Agrees(popped, trimmed, owner, item)
    ensures Record(popped.0, owner, item, now, popped.1) == Add(trimmed, owner, item, now)
  {
    var (s, total) := popped;
    assert s.sizes[owner := total] == s.sizes[owner := 0][owner := total];
    assert trimmed.sizes[owner := total] == trimmed.sizes[owner := 0][owner := total];
  }

  lemma InsertIsTrimAndAdd(kept: Store, owner: Owner, item: Snap, now: nat)
    requires Tracked(kept) && Sized(kept) && item.size <= MAX_STORE_BYTES
    requires Get(kept.clients, Key(owner, item.ident)).None?
    ensures var s := kept.(clients := kept.clients[owner := SnapsOf(kept, owner) + [item]]);
      var popped := PopAll(s, kept, owner, item);
      Record(popped.0, owner, item, now, popped.1) == Add(Trim(kept, owner, item.size), owner, item, now)
    ensures SizeFor(kept, owner) + item.size == SumSizes(SnapsOf(kept, owner) + [item])
  {
    var s := kept.(clients := kept.clients[owner := SnapsOf(kept, owner) + [item]]);
    PopIsTrim(s, kept, owner, item);
    AgreedIsAdded(PopAll(s, kept, owner, item), Trim(kept, owner, item.size), owner, item, now);
    AppendFacts(SnapsOf(kept, owner), item);
  }

  // ---- The object ----

  class Snapshots {
    var clients: map<Owner, seq<Snap>>
    var sizes: map<Owner, int>
    var lru: seq<Key>
    var accessed: map<Key, nat>
    var totalSize: int
    var totalCount: int
    var generations: Generations

    ghost function State(): Store
      reads this
    {
      Store(clients, sizes, lru, accessed, totalSize, totalCount)
    }

    constructor ()
      ensures State() == EMPTY && generations == Generations(0, map[])
    {
      clients, sizes, lru, accessed := map[], map[], [], map[];
      totalSize, totalCount, generations := 0, 0, Generations(0, map[]);
    }

    method RemoveTracking(key: Key, size: nat)
      modifies `lru, `accessed, `totalSize, `totalCount
      ensures State() == Untrack(old(State()), key, size)
    {
      if key in accessed {
        lru := Without(lru, key);
        accessed := accessed - {key};
        totalSize := totalSize - size;
        totalCount := totalCount - 1;
      }
    }

    method RemoveSnapshot(key: Key)
      modifies this
      ensures State() == Remove(old(State()), key) && generations == old(generations)
    {
      if key.owner in clients {
        var snapshots := clients[key.owner];
        var item := Find(snapshots, key.ident);
        if item.Some? {
          snapshots := Drop(snapshots, key.ident);
          RemoveTracking(key, item.value.size);
          if snapshots == [] {
            clients := clients - {key.owner};
            sizes := sizes - {key.owner};
          } else {
            clients := clients[key.owner := snapshots];
            if key.owner in sizes {
              sizes := sizes[key.owner := sizes[key.owner] - item.value.size];
            }
          }
        }
      }
    }

    method ExpireOld(now: nat)
      requires Tracked(State()) && Sized(State())
      modifies this
      ensures State() == Expire(old(State()), now) && generations == old(generations)
    {
      var keys := lru;
      var i := 0;
      while i < |keys|
        invariant 0 <= i <= |keys| && lru == keys[i..]
        invariant Tracked(State()) && Sized(State()) && generations == old(generations)
        invariant Expire(State(), now) == old(Expire(State(), now))
      {
        ListsMembers(lru, accessed.Keys);
        assert lru[0] == keys[i] && lru[0] in lru;
        if accessed[keys[i]] > now - INACTIVE_TTL {
          return;
        }
        RemoveUntracks(State(), keys[i]);
        RemoveKeepsTracked(State(), keys[i]);
        RemoveGets(State(), keys[i]);
        RemoveSnapshot(keys[i]);
        assert keys[i..][1..] == keys[i + 1..];
        i := i + 1;
      }
    }

    method EnforceWorkspaceBudget(now: nat)
      requires Tracked(State()) && Sized(State())
      modifies this
      ensures Tracked(Expire(old(State()), now)) && Sized(Expire(old(State()), now))
      ensures State() == Evict(Expire(old(State()), now)) && generations == old(generations)
    {
      ExpireKeeps(State(), now);
      ExpireOld(now);
      ghost var expired := State();
      while totalCount > MAX_WORKSPACE_SNAPSHOTS || totalSize > MAX_WORKSPACE_BYTES
        invariant Tracked(State()) && Sized(State()) && generations == old(generations)
        invariant Evict(State()) == Evict(expired)
        decreases |lru|
      {
        if lru == [] {
          return;
        }
        ListsMembers(lru, accessed.Keys);
        assert lru[0] in lru;
        RemoveUntracks(State(), lru[0]);
        RemoveKeepsTracked(State(), lru[0]);
        RemoveGets(State(), lru[0]);
        RemoveSnapshot(lru[0]);
      }
    }

    /** Makes room for, records and bounds a captured snapshot; refused if a clear overtook the capture. */
    method StoreCapture(owner: Owner, item: Snap, now: nat, token: Token) returns (stored: bool)
      requires Valid(State(), now) && item.size <= MAX_STORE_BYTES
      requires Get(clients, Key(owner, item.ident)).None?
      modifies this
      ensures generations == old(generations)
      ensures stored == (token == TokenFor(generations, owner))
      ensures !stored ==> State() == old(State())
      ensures stored ==> State() == Commit(old(State()), owner, item, now)
      ensures stored ==> Valid(State(), now) && !OverBudget(State())
    {
      if token != TokenFor(generations, owner) {
        return false;
      }
      CommitKeepsValid(State(), owner, item, now);
      Keep(owner, item, now);
      return true;
    }

    method Keep(owner: Owner, item: Snap, now: nat)
      requires Tracked(State()) && Sized(State()) && Get(clients, Key(owner, item.ident)).None?
      requires item.size <= MAX_STORE_BYTES
      modifies this
      ensures State() == Commit(old(State()), owner, item, now) && generations == old(generations)
    {
      ExpireKeeps(State(), now);
      ExpireOld(now);
      TrimKeeps(State(), owner, item.size);
      AddKeeps(Trim(State(), owner, item.size), owner, item, now);
      Insert(owner, item, now);
      EnforceWorkspaceBudget(now);
    }

    /** Puts the snapshot in and drops the client's oldest ones until its limits hold, then tracks it. */
    method Insert(owner: Owner, item: Snap, now: nat)
      requires Tracked(State()) && Sized(State()) && Get(clients, Key(owner, item.ident)).None?
      requires item.size <= MAX_STORE_BYTES
      modifies `clients, `sizes, `lru, `accessed, `totalSize, `totalCount
      ensures State() == Add(Trim(old(State()), owner, item.size), owner, item, now)
    {
      ghost var kept := State();
      InsertIsTrimAndAdd(kept, owner, item, now);
      var snapshots := (if owner in clients then clients[owner] else []) + [item];
      var total := (if owner in sizes then sizes[owner] else 0) + item.size;
      clients := clients[owner := snapshots];
      assert State() == kept.(clients := kept.clients[owner := SnapsOf(kept, owner) + [item]]);
      assert Pop(State(), owner, snapshots, total) == PopAll(State(), kept, owner, item);
      total := PopOldest(owner, snapshots, total);
      Track(owner, item, now, total);
    }

    method Track(owner: Owner, item: Snap, now: nat, total: int)
      modifies `sizes, `lru, `accessed, `totalSize, `totalCount
      ensures State() == Record(old(State()), owner, item, now, total)
    {
      sizes := sizes[owner := total];
      lru := lru + [Key(owner, item.ident)];
      accessed := accessed[Key(owner, item.ident) := now];
      totalSize, totalCount := totalSize + item.size, totalCount + 1;
    }

    method PopOldest(owner: Owner, all: seq<Snap>, size: int) returns (total: int)
      requires size == SumSizes(all)
      modifies `clients, `lru, `accessed, `totalSize, `totalCount
      ensures (State(), total) == Pop(old(State()), owner, all, size)
    {
      var snapshots := all;
      total := size;
      while |snapshots| > MAX_SNAPSHOTS || total > MAX_STORE_BYTES
        invariant Pop(State(), owner, snapshots, total) == Pop(old(State()), owner, all, size)
        invariant total == SumSizes(snapshots)
        decreases |snapshots|
      {
        var removed := snapshots[0];
        snapshots := snapshots[1..];
        clients := clients[owner := snapshots];
        total := total - removed.size;
        RemoveTracking(Key(owner, removed.ident), removed.size);
      }
    }

    method TouchSnapshot(key: Key, now: nat)
      requires Valid(State(), now)
      modifies `lru, `accessed
      ensures State() == Touch(old(State()), key, now) && Valid(State(), now)
    {
      TouchKeepsValid(State(), key, now);
      if key in accessed {
        lru := Without(lru, key) + [key];
        accessed := accessed[key := now];
      }
    }

    /** Nothing is stored any more, and every capture that is still running will be refused. */
    method ClearAll()
      modifies this
      ensures State() == EMPTY && generations == Cleared(old(generations), None)
      ensures forall now :: Settled(State(), now)
      ensures forall key :: Get(clients, key).None?
      ensures forall owner :: Less(old(TokenFor(generations, owner)), TokenFor(generations, owner))
    {
      generations := Cleared(generations, None);
      clients, sizes, lru, accessed, totalSize, totalCount := map[], map[], [], map[], 0, 0;
    }

    /** The client's snapshots go, and only its own running captures will be refused. */
    method ClearClient(owner: Owner, ghost now: nat)
      requires Valid(State(), now)
      modifies this
      ensures State() == ClearOwner(old(State()), owner) && Valid(State(), now)
      ensures generations == Cleared(old(generations), Some(owner))
      ensures Less(old(TokenFor(generations, owner)), TokenFor(generations, owner))
      ensures forall other :: other != owner ==> TokenFor(generations, other) == old(TokenFor(generations, other))
    {
      ClearOwnerKeepsValid(State(), owner, now);
      generations := Cleared(generations, Some(owner));
      var snapshots := if owner in clients then clients[owner] else [];
      clients, sizes := clients - {owner}, sizes - {owner};
      ghost var popped := State();
      var i := 0;
      while i < |snapshots|
        invariant 0 <= i <= |snapshots| && generations == Cleared(old(generations), Some(owner))
        invariant UntrackAll(State(), owner, snapshots[i..]) == UntrackAll(popped, owner, snapshots)
      {
        assert snapshots[i..][1..] == snapshots[i + 1..];
        RemoveTracking(Key(owner, snapshots[i].ident), snapshots[i].size);
        i := i + 1;
      }
    }
  }
}
