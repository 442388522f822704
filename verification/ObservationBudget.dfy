/**
 * The workspace-wide budget over all clients' event histories. It limits the number of clients, of retained
 * events and of their bytes. While a limit is exceeded, clients that observe no page go first, in recency
 * order; when none is left, the least recently used client loses its oldest events until it is drained and
 * makes way for the next one. The order of clients turns while that happens, so what is evicted is stated in
 * terms of the order the eviction started with.
 */
module ObservationBudget {
  import opened Outcomes
  import opened OrderedKeys

  type Owner = string

  const MAX_WORKSPACE_CLIENTS := 128
  const MAX_WORKSPACE_EVENTS := 8192
  const MAX_WORKSPACE_BYTES := 64 * 1024 * 1024

  /** The sizes of a client's retained events, oldest first, and how many pages it still observes. */
  datatype Client = Client(events: seq<nat>, pages: nat)

  type Clients = map<Owner, Client>

  // ---- Totals ----

  function Bytes(events: seq<nat>): nat {
    if events == [] then 0 else events[0] + Bytes(events[1..])
  }

  function EventCount(clients: Clients, owner: Owner): nat {
    if owner in clients then |clients[owner].events| else 0
  }

  function ByteCount(clients: Clients, owner: Owner): nat {
    if owner in clients then Bytes(clients[owner].events) else 0
  }

  function EventsOf(clients: Clients, owners: seq<Owner>): nat
    decreases |owners|
  {
    if owners == [] then 0 else EventCount(clients, owners[0]) + EventsOf(clients, owners[1..])
  }

  function BytesOf(clients: Clients, owners: seq<Owner>): nat
    decreases |owners|
  {
    if owners == [] then 0 else ByteCount(clients, owners[0]) + BytesOf(clients, owners[1..])
  }

  lemma {:induction false} TotalsElsewhere(before: Clients, after: Clients, owners: seq<Owner>)
    requires forall owner :: owner in owners ==>
      EventCount(before, owner) == EventCount(after, owner) && ByteCount(before, owner) == ByteCount(after, owner)
    ensures EventsOf(before, owners) == EventsOf(after, owners) && BytesOf(before, owners) == BytesOf(after, owners)
    decreases |owners|
  {
    if owners != [] {
      assert owners[0] in owners;
      TotalsElsewhere(before, after, owners[1..]);
    }
  }

  lemma {:induction false} TotalsAppend(clients: Clients, owners: seq<Owner>, owner: Owner)
    ensures EventsOf(clients, owners + [owner]) == EventsOf(clients, owners) + EventCount(clients, owner)
    ensures BytesOf(clients, owners + [owner]) == BytesOf(clients, owners) + ByteCount(clients, owner)
    decreases |owners|
  {
    if owners == [] {
      assert (owners + [owner])[1..] == [];
    } else {
      assert (owners + [owner])[1..] == owners[1..] + [owner];
      TotalsAppend(clients, owners[1..], owner);
    }
  }

  lemma {:induction false} NothingTotals(clients: Clients, owners: seq<Owner>)
    requires AllEmpty(clients)
    ensures EventsOf(clients, owners) == 0 && BytesOf(clients, owners) == 0
    decreases |owners|
  {
    if owners != [] {
      NothingTotals(clients, owners[1..]);
    }
  }

  // ---- What the budget does ----

  predicate AllEmpty(clients: Clients) {
    forall owner :: owner in clients ==> clients[owner].events == []
  }

  predicate Idle(clients: Clients, owner: Owner) {
    owner in clients && clients[owner].pages == 0
  }

  predicate NoneIdle(clients: Clients) {
    forall owner :: owner in clients ==> clients[owner].pages > 0
  }

  /** The first client in recency order that observes no page. */
  function FirstIdle(clients: Clients, owners: seq<Owner>): (r: Option<Owner>)
    ensures r.Some? ==> r.value in owners && Idle(clients, r.value)
    ensures r.None? ==> forall owner :: owner in owners ==> !Idle(clients, owner)
    decreases |owners|
  {
    if owners == [] then None
    else if Idle(clients, owners[0]) then Some(owners[0])
    else FirstIdle(clients, owners[1..])
  }

  /** The clients removed are exactly those that observe nothing among the first `cut` of the recency order. */
  ghost predicate RemovedIdle(order: seq<Owner>, before: Clients, after: Clients, cut: nat) {
    && (forall owner :: owner in after ==> owner in before && after[owner].pages == before[owner].pages)
    && (forall i :: 0 <= i < |order| ==> (order[i] in after <==> !(i < cut && Idle(before, order[i]))))
  }

  predicate Untouched(before: Clients, after: Clients) {
    forall owner :: owner in after ==> owner in before && after[owner] == before[owner]
  }

  /** Histories only lose events from the front, and no client loses one while an earlier one retains any. */
  ghost predicate DrainedInOrder(owners: seq<Owner>, before: Clients, after: Clients) {
    && (forall owner :: owner in after ==> owner in before && Back(after[owner].events, before[owner].events))
    && (forall i, j :: 0 <= i < j < |owners| && Lost(before, after, owners[j]) ==> EventCount(after, owners[i]) == 0)
  }

  predicate Lost(before: Clients, after: Clients, owner: Owner) {
    owner in before && owner in after && after[owner].events != before[owner].events
  }

  /** The first `k` owners are drained, and those after the next one are untouched. */
  ghost predicate Drained(owners: seq<Owner>, before: Clients, after: Clients, k: nat) {
    && k <= |owners|
    && (forall owner :: owner in after ==> owner in before && Back(after[owner].events, before[owner].events))
    && (forall i :: 0 <= i < k ==> EventCount(after, owners[i]) == 0)
    && (forall i :: k < i < |owners| ==> !Lost(before, after, owners[i]))
  }

  // ---- Removing idle clients ----

  function IdleAt(clients: Clients, order: seq<Owner>): (r: nat)
    ensures r <= |order|
    decreases |order|
  {
    if order == [] || Idle(clients, order[0]) then 0 else 1 + IdleAt(clients, order[1..])
  }

  lemma {:induction false} FirstIdlePosition(clients: Clients, order: seq<Owner>, owner: Owner)
    requires FirstIdle(clients, Kept(order, clients.Keys)) == Some(owner)
    ensures IdleAt(clients, order) < |order| && order[IdleAt(clients, order)] == owner
    ensures forall i :: 0 <= i < IdleAt(clients, order) ==> !Idle(clients, order[i])
    decreases |order|
  {
    if !Idle(clients, order[0]) {
      assert order[0] in clients ==> Kept(order, clients.Keys)[1..] == Kept(order[1..], clients.Keys);
      FirstIdlePosition(clients, order[1..], owner);
    }
  }

  lemma RemovalKeepsRemovedIdle(order: seq<Owner>, before: Clients, after: Clients, cut: nat, owner: Owner)
    requires Lists(order, before.Keys) && RemovedIdle(order, before, after, cut)
    requires FirstIdle(after, Kept(order, after.Keys)) == Some(owner)
    ensures RemovedIdle(order, before, after - {owner}, IdleAt(after, order) + 1)
  {
    FirstIdlePosition(after, order, owner);
    ListsMembers(order, before.Keys);
    ListsDistinct(order, before.Keys);
    var at := IdleAt(after, order);
    forall i | 0 <= i < |order|
      ensures order[i] in after - {owner} <==> !(i < at + 1 && Idle(before, order[i]))
    {
      assert order[i] in before.Keys;
      assert i != at ==> order[i] != owner;
    }
  }

  lemma DrainedIsInOrder(owners: seq<Owner>, before: Clients, after: Clients, k: nat)
    requires Drained(owners, before, after, k)
    ensures DrainedInOrder(owners, before, after)
  {
  }

  lemma DropKeepsDrained(owners: seq<Owner>, before: Clients, after: Clients, k: nat)
    requires Lists(owners, after.Keys) && Drained(owners, before, after, k)
    requires k < |owners| && owners[k] in after && after[owners[k]].events != []
    ensures Drained(owners, before, WithoutOldest(after, owners[k]), k)
  {
    ListsDistinct(owners, after.Keys);
    var owner, smaller := owners[k], WithoutOldest(after, owners[k]);
    BackTail(after[owner].events, before[owner].events);
    forall i | 0 <= i < k ensures EventCount(smaller, owners[i]) == 0 {
      assert owners[i] != owner && EventCount(after, owners[i]) == 0;
    }
    forall i | k < i < |owners| ensures !Lost(before, smaller, owners[i]) {
      assert owners[i] != owner && !Lost(before, after, owners[i]);
    }
  }

  function WithoutOldest(clients: Clients, owner: Owner): Clients
    requires owner in clients && clients[owner].events != []
  {
    clients[owner := clients[owner].(events := clients[owner].events[1..])]
  }

  lemma {:induction false} DropTotals(clients: Clients, owners: seq<Owner>, keys: set<Owner>, owner: Owner)
    requires Lists(owners, keys) && owner in keys && owner in clients && clients[owner].events != []
    ensures EventsOf(WithoutOldest(clients, owner), owners) == EventsOf(clients, owners) - 1
    ensures BytesOf(WithoutOldest(clients, owner), owners) == BytesOf(clients, owners) - clients[owner].events[0]
    decreases |owners|
  {
    if owners[0] == owner {
      ListsMembers(owners[1..], keys - {owner});
      TotalsElsewhere(clients, WithoutOldest(clients, owner), owners[1..]);
    } else {
      DropTotals(clients, owners[1..], keys - {owners[0]}, owner);
    }
  }

  lemma DrainedAll(owners: seq<Owner>, before: Clients, after: Clients)
    requires Lists(owners, after.Keys) && Drained(owners, before, after, |owners|)
    ensures AllEmpty(after)
  {
    ListsMembers(owners, after.Keys);
    forall owner | owner in after ensures after[owner].events == [] {
      assert owner in owners;
      var i :| 0 <= i < |owners| && owners[i] == owner;
      assert EventCount(after, owners[i]) == 0;
    }
  }

  predicate Over(clients: Clients, owners: seq<Owner>) {
    || |clients| > MAX_WORKSPACE_CLIENTS
    || EventsOf(clients, owners) > MAX_WORKSPACE_EVENTS
    || BytesOf(clients, owners) > MAX_WORKSPACE_BYTES
  }

  // ---- Eviction only ever lowers the totals ----

  lemma {:induction false} BackTotals(part: seq<nat>, whole: seq<nat>)
    requires Back(part, whole)
    ensures |part| <= |whole| && Bytes(part) <= Bytes(whole)
    decreases |whole|
  {
    if part != whole {
      BackTotals(part, whole[1..]);
    }
  }

  lemma {:induction false} TotalsWithout(clients: Clients, owners: seq<Owner>, keys: set<Owner>, owner: Owner)
    requires Lists(owners, keys) && owner in keys
    ensures EventsOf(clients - {owner}, Without(owners, owner)) ==
      EventsOf(clients, owners) - EventCount(clients, owner)
    ensures BytesOf(clients - {owner}, Without(owners, owner)) == BytesOf(clients, owners) - ByteCount(clients, owner)
    decreases |owners|
  {
    if owners[0] == owner {
      ListsMembers(owners[1..], keys - {owner});
      TotalsElsewhere(clients, clients - {owner}, owners[1..]);
    } else {
      TotalsWithout(clients, owners[1..], keys - {owners[0]}, owner);
      assert Without(owners, owner)[1..] == Without(owners[1..], owner);
    }
  }

  ghost predicate Within(small: Clients, big: Clients) {
    forall owner :: owner in small ==> owner in big && Back(small[owner].events, big[owner].events)
  }

  lemma {:induction false} TotalsWithin(small: Clients, big: Clients, part: seq<Owner>, whole: seq<Owner>)
    requires Lists(part, small.Keys) && Lists(whole, big.Keys) && Within(small, big)
    ensures EventsOf(small, part) <= EventsOf(big, whole) && BytesOf(small, part) <= BytesOf(big, whole)
    decreases |part|
  {
    if part != [] {
      var owner := part[0];
      ListsMembers(part[1..], small.Keys - {owner});
      assert (small - {owner}).Keys == small.Keys - {owner} && (big - {owner}).Keys == big.Keys - {owner};
      ListsWithout(whole, big.Keys, owner);
      TotalsWithin(small - {owner}, big - {owner}, part[1..], Without(whole, owner));
      TotalsElsewhere(small, small - {owner}, part[1..]);
      TotalsWithout(big, whole, big.Keys, owner);
      BackTotals(small[owner].events, big[owner].events);
    }
  }

  /** Within the limits nothing is evicted: whatever the rules allow, a last step was not needed. */
  lemma NothingGoesWithinLimits(order: seq<Owner>, before: Clients, after: Clients)
    requires Lists(order, before.Keys) && !Over(before, order)
    requires Needed(order, before, after)
    ensures after == before
  {
    if after != before {
      var last, cut, owners, owner :| Evicted(order, before, last, cut) && OneLess(last, owners, owner, after);
      assert Within(last, before);
      TotalsWithin(last, before, owners, order);
      ListsMembers(owners, last.Keys);
      ListsMembers(order, before.Keys);
      FewerKeys(last.Keys, before.Keys);
    }
  }

  // ---- One round of the eviction loop ----

  /** `owners` with its first `k` elements moved to the end, one at a time. */
  function Turns(owners: seq<Owner>, k: nat): (r: seq<Owner>)
    ensures |r| == |owners|
  {
    if k == 0 || owners == [] then owners
    else var earlier := Turns(owners, k - 1); earlier[1..] + [earlier[0]]
  }

  lemma {:induction false} TurnsSplit(owners: seq<Owner>, k: nat)
    requires k <= |owners|
    ensures Turns(owners, k) == owners[k..] + owners[..k]
  {
    if k > 0 && owners != [] {
      TurnsSplit(owners, k - 1);
    }
  }

  /** What eviction has removed so far. */
  ghost predicate Evicted(order: seq<Owner>, before: Clients, clients: Clients, cut: nat) {
    && RemovedIdle(order, before, clients, cut)
    && DrainedInOrder(Kept(order, clients.Keys), before, clients)
    && (NoneIdle(clients) || Untouched(before, clients))
  }

  /**
   * Nothing is evicted needlessly: just before the last client or event went, eviction had come to `last`
   * under the same rules and the budget was still exceeded.
   */
  ghost predicate Needed(order: seq<Owner>, before: Clients, after: Clients) {
    before == after ||
    exists last: Clients, cut: nat, owners: seq<Owner>, owner: Owner ::
      Evicted(order, before, last, cut) && OneLess(last, owners, owner, after)
  }

  ghost predicate OneLess(last: Clients, owners: seq<Owner>, owner: Owner, after: Clients) {
    && Lists(owners, last.Keys) && Over(last, owners) && owner in last
    && (after == last - {owner} || (last[owner].events != [] && after == WithoutOldest(last, owner)))
  }

  lemma DropIsNeeded(order: seq<Owner>, before: Clients, last: Clients, cut: nat, owners: seq<Owner>, owner: Owner)
    requires Evicted(order, before, last, cut) && Lists(owners, last.Keys) && Over(last, owners)
    requires owner in last && last[owner].events != []
    ensures Needed(order, before, WithoutOldest(last, owner))
  {
    assert OneLess(last, owners, owner, WithoutOldest(last, owner));
  }

  lemma RemovalIsNeeded(order: seq<Owner>, before: Clients, last: Clients, cut: nat, owners: seq<Owner>, owner: Owner)
    requires Evicted(order, before, last, cut) && Lists(owners, last.Keys) && Over(last, owners) && owner in last
    ensures Needed(order, before, last - {owner})
  {
    assert OneLess(last, owners, owner, last - {owner});
  }

  /** The recency order has gone round by `k` drained clients; the next one is being drained. */
  ghost predicate Rotated(order: seq<Owner>, before: Clients, lru: seq<Owner>, clients: Clients, k: nat) {
    var owners := Kept(order, clients.Keys);
    && Lists(order, before.Keys) && Lists(owners, clients.Keys)
    && (k < |owners| || k == 0)
    && lru == Turns(owners, k)
    && Drained(owners, before, clients, k)
    && (NoneIdle(clients) || (k == 0 && Untouched(before, clients)))
  }

  lemma StartIsRotated(order: seq<Owner>, clients: Clients)
    requires Lists(order, clients.Keys)
    ensures Evicted(order, clients, clients, 0) && Rotated(order, clients, order, clients, 0)
  {
    ListsMembers(order, clients.Keys);
    KeptAll(order, clients.Keys);
  }

  lemma RemovalRotates(order: seq<Owner>, before: Clients, lru: seq<Owner>, clients: Clients, k: nat, cut: nat,
                       owner: Owner)
    requires Evicted(order, before, clients, cut) && Rotated(order, before, lru, clients, k)
    requires FirstIdle(clients, lru) == Some(owner)
    ensures Evicted(order, before, clients - {owner}, IdleAt(clients, order) + 1)
    ensures Rotated(order, before, Without(lru, owner), clients - {owner}, 0)
  {
    IdleMeansFront(order, before, lru, clients, k, owner);
    RemovalKeepsRemovedIdle(order, before, clients, cut, owner);
    KeptWithout(order, before.Keys, clients.Keys, owner);
    ListsWithout(lru, clients.Keys, owner);
    assert (clients - {owner}).Keys == clients.Keys - {owner};
    UntouchedIsDrained(Without(lru, owner), before, clients - {owner});
  }

  lemma IdleMeansFront(order: seq<Owner>, before: Clients, lru: seq<Owner>, clients: Clients, k: nat, owner: Owner)
    requires Rotated(order, before, lru, clients, k) && FirstIdle(clients, lru) == Some(owner)
    ensures k == 0 && Untouched(before, clients) && lru == Kept(order, clients.Keys)
    ensures owner in clients && Untouched(before, clients - {owner})
  {
    assert Idle(clients, owner);
  }

  lemma UntouchedIsDrained(owners: seq<Owner>, before: Clients, clients: Clients)
    requires Untouched(before, clients)
    ensures Drained(owners, before, clients, 0) && DrainedInOrder(owners, before, clients)
    ensures owners == owners[0..] + owners[..0]
  {
  }

  lemma FrontIsNext(order: seq<Owner>, before: Clients, lru: seq<Owner>, clients: Clients, k: nat)
    requires Rotated(order, before, lru, clients, k) && lru != []
    ensures var owners := Kept(order, clients.Keys);
      k < |owners| && |lru| == |owners| && lru[0] == owners[k] && lru[0] in clients
  {
    TurnsSplit(Kept(order, clients.Keys), k);
    ListsMembers(Kept(order, clients.Keys), clients.Keys);
  }

  lemma DropRotates(order: seq<Owner>, before: Clients, lru: seq<Owner>, clients: Clients, k: nat, cut: nat)
    requires Evicted(order, before, clients, cut) && Rotated(order, before, lru, clients, k) && NoneIdle(clients)
    requires lru != [] && HasEvents(clients, lru[0])
    ensures Evicted(order, before, WithoutOldest(clients, lru[0]), cut)
    ensures Rotated(order, before, lru, WithoutOldest(clients, lru[0]), k)
  {
    FrontIsNext(order, before, lru, clients, k);
    var owners, after := Kept(order, clients.Keys), WithoutOldest(clients, lru[0]);
    assert after.Keys == clients.Keys;
    DropKeepsDrained(owners, before, clients, k);
    DrainedIsInOrder(owners, before, after, k);
  }

  lemma MoveRotates(order: seq<Owner>, before: Clients, lru: seq<Owner>, clients: Clients, k: nat)
    requires Rotated(order, before, lru, clients, k) && NoneIdle(clients)
    requires lru != [] && !HasEvents(clients, lru[0])
    ensures AllEmpty(clients) || Rotated(order, before, lru[1..] + [lru[0]], clients, k + 1)
  {
    FrontIsNext(order, before, lru, clients, k);
    var owners := Kept(order, clients.Keys);
    DrainedNext(owners, before, clients, k);
    if k + 1 == |owners| {
      DrainedAll(owners, before, clients);
    }
  }

  lemma DrainedNext(owners: seq<Owner>, before: Clients, after: Clients, k: nat)
    requires Drained(owners, before, after, k) && k < |owners| && EventCount(after, owners[k]) == 0
    ensures Drained(owners, before, after, k + 1)
  {
  }

  predicate HasEvents(clients: Clients, owner: Owner) {
    owner in clients && clients[owner].events != []
  }

  /** One round: the front client loses its oldest event, or goes to the end if it has none. */
  function Drain(clients: Clients, lru: seq<Owner>): Clients
    requires lru != []
  {
    if HasEvents(clients, lru[0]) then WithoutOldest(clients, lru[0]) else clients
  }

  function Turn(clients: Clients, lru: seq<Owner>): (r: seq<Owner>)
    requires lru != []
    ensures |r| == |lru|
  {
    if HasEvents(clients, lru[0]) then lru else lru[1..] + [lru[0]]
  }

  lemma DrainStepHolds(order: seq<Owner>, before: Clients, lru: seq<Owner>, clients: Clients, k: nat, cut: nat)
    requires Evicted(order, before, clients, cut) && Rotated(order, before, lru, clients, k) && NoneIdle(clients)
    requires lru != []
    ensures Evicted(order, before, Drain(clients, lru), cut)
    ensures HasEvents(clients, lru[0]) ==> Rotated(order, before, lru, Drain(clients, lru), k)
    ensures !HasEvents(clients, lru[0]) ==>
      AllEmpty(clients) || Rotated(order, before, Turn(clients, lru), clients, k + 1)
  {
    if HasEvents(clients, lru[0]) {
      DropRotates(order, before, lru, clients, k, cut);
    } else {
      MoveRotates(order, before, lru, clients, k);
    }
  }

  lemma DrainIsNeeded(order: seq<Owner>, before: Clients, lru: seq<Owner>, clients: Clients, cut: nat)
    requires Evicted(order, before, clients, cut) && Needed(order, before, clients)
    requires lru != [] && Lists(lru, clients.Keys) && Over(clients, lru)
    ensures Needed(order, before, Drain(clients, lru)) && |Drain(clients, lru)| == |clients|
  {
    if HasEvents(clients, lru[0]) {
      DropIsNeeded(order, before, clients, cut, lru, lru[0]);
      assert Drain(clients, lru).Keys == clients.Keys;
    }
  }

  ghost predicate Going(order: seq<Owner>, before: Clients, lru: seq<Owner>, clients: Clients, k: nat, cut: nat) {
    && Evicted(order, before, clients, cut) && Needed(order, before, clients)
    && Rotated(order, before, lru, clients, k)
  }

  lemma RemovalGoes(order: seq<Owner>, before: Clients, lru: seq<Owner>, clients: Clients, k: nat, cut: nat,
                    owner: Owner)
    requires Going(order, before, lru, clients, k, cut)
    requires Lists(lru, clients.Keys) && Over(clients, lru) && FirstIdle(clients, lru) == Some(owner)
    ensures Going(order, before, Without(lru, owner), clients - {owner}, 0, IdleAt(clients, order) + 1)
  {
    RemovalRotates(order, before, lru, clients, k, cut, owner);
    RemovalIsNeeded(order, before, clients, cut, lru, owner);
  }

  lemma DrainGoes(order: seq<Owner>, before: Clients, lru: seq<Owner>, clients: Clients, k: nat, cut: nat)
    requires Going(order, before, lru, clients, k, cut) && NoneIdle(clients)
    requires lru != [] && Lists(lru, clients.Keys) && Over(clients, lru)
    ensures Evicted(order, before, Drain(clients, lru), cut) && Needed(order, before, Drain(clients, lru))
    ensures HasEvents(clients, lru[0]) ==> Going(order, before, lru, Drain(clients, lru), k, cut)
    ensures !HasEvents(clients, lru[0]) ==>
      AllEmpty(clients) || Going(order, before, Turn(clients, lru), clients, k + 1, cut)
    ensures k < |lru| && |Drain(clients, lru)| == |clients|
  {
    FrontIsNext(order, before, lru, clients, k);
    DrainStepHolds(order, before, lru, clients, k, cut);
    DrainIsNeeded(order, before, lru, clients, cut);
  }

  class Observations {
    var clients: Clients
    var lru: seq<Owner>
    var totalEvents: int
    var totalBytes: int

    /** Every client has a place in the recency order, and the totals are current. */
    ghost predicate Valid()
      reads this
    {
      && Lists(lru, clients.Keys)
      && totalEvents == EventsOf(clients, lru) && totalBytes == BytesOf(clients, lru)
    }

    predicate OverBudget()
      reads this
    {
      |clients| > MAX_WORKSPACE_CLIENTS || totalEvents > MAX_WORKSPACE_EVENTS || totalBytes > MAX_WORKSPACE_BYTES
    }

    constructor ()
      ensures Valid() && clients == map[]
    {
      clients, lru, totalEvents, totalBytes := map[], [], 0, 0;
    }

    method SyncTotals()
      modifies `totalEvents, `totalBytes
      ensures totalEvents == EventsOf(clients, lru) && totalBytes == BytesOf(clients, lru)
    {
      totalEvents, totalBytes := EventsOf(clients, lru), BytesOf(clients, lru);
    }

    method RemoveOwner(owner: Owner)
      requires Valid() && owner in clients
      modifies this
      ensures Valid() && clients == old(clients) - {owner} && lru == Without(old(lru), owner)
      ensures |clients| == |old(clients)| - 1
    {
      ListsWithout(lru, clients.Keys, owner);
      assert (clients - {owner}).Keys == clients.Keys - {owner};
      assert |clients.Keys - {owner}| == |clients.Keys| - 1;
      clients, lru := clients - {owner}, Without(lru, owner);
      SyncTotals();
    }

    method DropOldestEvent(owner: Owner)
      requires Valid() && owner in clients && clients[owner].events != []
      modifies this
      ensures Valid() && lru == old(lru) && clients == WithoutOldest(old(clients), owner)
      ensures totalEvents == old(totalEvents) - 1 && totalBytes == old(totalBytes) - old(clients)[owner].events[0]
    {
      DropTotals(clients, lru, clients.Keys, owner);
      clients := WithoutOldest(clients, owner);
      assert clients.Keys == old(clients).Keys;
      SyncTotals();
    }

    method MoveToEnd(owner: Owner)
      requires Valid() && lru != [] && owner == lru[0]
      modifies `lru
      ensures Valid() && lru == old(lru)[1..] + [owner]
    {
      TotalsAppend(clients, lru[1..], owner);
      ListsAppend(lru[1..], clients.Keys - {owner}, owner);
      assert clients.Keys - {owner} + {owner} == clients.Keys;
      lru := lru[1..] + [owner];
    }

    /** Takes one event from the least recently used client, or sends that client to the end if it has none. */
    method DrainOldest() returns (done: bool)
      requires Valid() && lru != []
      modifies this
      ensures Valid()
      ensures clients == Drain(old(clients), old(lru)) && lru == Turn(old(clients), old(lru))
      ensures totalEvents == old(totalEvents) - if HasEvents(old(clients), old(lru)[0]) then 1 else 0
      ensures done <==> !HasEvents(old(clients), old(lru)[0]) && AllEmpty(clients)
    {
      ListsMembers(lru, clients.Keys);
      var oldest := lru[0];
      assert oldest in lru;
      if clients[oldest].events != [] {
        DropOldestEvent(oldest);
        done := false;
      } else {
        MoveToEnd(oldest);
        done := AllEmpty(clients);
      }
    }

    /**
     * One round while the budget is exceeded: the first idle client goes, or else the least recently used
     * client is drained by one event or sent to the end. It is the last round when nothing is left to drain.
     */
    method EvictOne(ghost order: seq<Owner>, ghost before: Clients, ghost k: nat, ghost cut: nat)
      returns (done: bool, ghost turned: nat, ghost reached: nat)
      requires Valid() && OverBudget() && Going(order, before, lru, clients, k, cut)
      modifies this
      ensures Valid() && Evicted(order, before, clients, reached) && Needed(order, before, clients)
      ensures !done ==> Going(order, before, lru, clients, turned, reached)
      ensures !done ==> |clients| <= |old(clients)|
      ensures !done && |clients| == |old(clients)| ==> |lru| == |old(lru)| && totalEvents <= old(totalEvents)
      ensures !done && |clients| == |old(clients)| && totalEvents == old(totalEvents) ==> turned == k + 1 <= |lru|
      ensures done ==> AllEmpty(clients) && NoneIdle(clients) && totalEvents == 0 && totalBytes == 0
    {
      ListsMembers(lru, clients.Keys);
      done, turned, reached := false, 0, cut;
      var inactive := FirstIdle(clients, lru);
      if inactive.Some? {
        RemovalGoes(order, before, lru, clients, k, cut, inactive.value);
        reached := IdleAt(clients, order) + 1;
        RemoveOwner(inactive.value);
      } else if lru == [] {
        done := true;
      } else {
        DrainGoes(order, before, lru, clients, k, cut);
        turned := if HasEvents(clients, lru[0]) then k else k + 1;
        done := DrainOldest();
        if done {
          NothingTotals(clients, lru);
        }
      }
    }

    /**
     * Ends in every state, with event and byte totals within the limits, and with at most 128 clients
     * unless every client left observes a page and no event is retained. Idle clients go first, in recency
     * order; only when none is left are events dropped, each client being drained before the next. Nothing
     * goes once the limits hold.
     */
    method EnforceWorkspaceBudget()
      requires Valid()
      modifies this
      ensures Valid()
      ensures totalEvents <= MAX_WORKSPACE_EVENTS && totalBytes <= MAX_WORKSPACE_BYTES
      ensures |clients| <= MAX_WORKSPACE_CLIENTS || (AllEmpty(clients) && NoneIdle(clients))
      ensures exists cut :: Evicted(old(lru), old(clients), clients, cut)
      ensures Needed(old(lru), old(clients), clients)
      ensures !old(OverBudget()) ==> clients == old(clients) && lru == old(lru)
    {
      StartIsRotated(lru, clients);
      ghost var k: nat, cut: nat := 0, 0;
      while OverBudget()
        invariant Valid() && Going(old(lru), old(clients), lru, clients, k, cut)
        invariant !old(OverBudget()) ==> clients == old(clients) && lru == old(lru)
        decreases |clients|, totalEvents, |lru| - k
      {
        var done;
        done, k, cut := EvictOne(old(lru), old(clients), k, cut);
        if done {
          break;
        }
      }
    }
  }
}
