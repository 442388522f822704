/**
 * The two-level store of browser snapshots: an insertion-ordered list per client inside one workspace-wide
 * least-recently-used order, with cached sizes, totals and access times. Snapshots are removed one at a time;
 * what has to hold afterwards is that the order still lists each of them once, that the sizes and totals are
 * those of what is left, and that access times still rise along the order, so that expiry may stop early.
 */
module SnapshotStore {
  import opened Outcomes
  import opened OrderedKeys

  type Owner = string
  type Ident = string

  const MAX_SNAPSHOTS := 32
  const MAX_STORE_BYTES := 16 * 1024 * 1024
  const MAX_WORKSPACE_SNAPSHOTS := 256
  const MAX_WORKSPACE_BYTES := 64 * 1024 * 1024
  const INACTIVE_TTL := 30 * 60

  datatype Snap = Snap(ident: Ident, size: nat)

  datatype Key = Key(owner: Owner, ident: Ident)

  datatype Store = Store(
    clients: map<Owner, seq<Snap>>,
    sizes: map<Owner, int>,
    lru: seq<Key>,
    accessed: map<Key, nat>,
    totalSize: int,
    totalCount: int)

  const EMPTY := Store(map[], map[], [], map[], 0, 0)

  // ---- One client's list ----

  function Find(snaps: seq<Snap>, ident: Ident): Option<Snap> {
    if snaps == [] then None
    else if snaps[0].ident == ident then Some(snaps[0])
    else Find(snaps[1..], ident)
  }

  function Drop(snaps: seq<Snap>, ident: Ident): seq<Snap> {
    if snaps == [] then []
    else if snaps[0].ident == ident then snaps[1..]
    else [snaps[0]] + Drop(snaps[1..], ident)
  }

  function SumSizes(snaps: seq<Snap>): nat {
    if snaps == [] then 0 else snaps[0].size + SumSizes(snaps[1..])
  }

  /** No ident twice. */
  predicate Distinct(snaps: seq<Snap>) {
    snaps == [] || (Find(snaps[1..], snaps[0].ident).None? && Distinct(snaps[1..]))
  }

  lemma {:induction false} DropFacts(snaps: seq<Snap>, ident: Ident)
    requires Distinct(snaps) && Find(snaps, ident).Some?
    ensures var rest := Drop(snaps, ident);
      && Distinct(rest) && |rest| == |snaps| - 1
      && SumSizes(rest) == SumSizes(snaps) - Find(snaps, ident).value.size
      && (forall other :: Find(rest, other) == if other == ident then None else Find(snaps, other))
  {
    if snaps[0].ident != ident {
      DropFacts(snaps[1..], ident);
      var rest := Drop(snaps[1..], ident);
      assert ([snaps[0]] + rest)[1..] == rest;
    }
  }

  lemma {:induction false} AppendFacts(snaps: seq<Snap>, item: Snap)
    requires Distinct(snaps) && Find(snaps, item.ident).None?
    ensures Distinct(snaps + [item]) && SumSizes(snaps + [item]) == SumSizes(snaps) + item.size
    ensures forall other ::
      Find(snaps + [item], other) == if other == item.ident then Some(item) else Find(snaps, other)
  {
    if snaps != [] {
      AppendFacts(snaps[1..], item);
      assert (snaps + [item])[1..] == snaps[1..] + [item];
    } else {
      assert [item][1..] == [];
    }
  }

  // ---- What is stored, and what the caches must say about it ----

  function Get(clients: map<Owner, seq<Snap>>, key: Key): Option<Snap> {
    if key.owner in clients then Find(clients[key.owner], key.ident) else None
  }

  function SizeOf(clients: map<Owner, seq<Snap>>, key: Key): nat {
    match Get(clients, key)
    case Some(item) => item.size
    case None => 0
  }

  function SumKeys(clients: map<Owner, seq<Snap>>, keys: seq<Key>): nat {
    if keys == [] then 0 else SizeOf(clients, keys[0]) + SumKeys(clients, keys[1..])
  }

  /** The recency order lists exactly the stored snapshots. */
  ghost predicate Tracked(s: Store) {
    && Lists(s.lru, s.accessed.Keys)
    && (forall key :: key in s.accessed <==> Get(s.clients, key).Some?)
  }

  ghost predicate Sized(s: Store) {
    && s.sizes.Keys == s.clients.Keys
    && (forall owner :: owner in s.clients ==>
          && s.clients[owner] != [] && Distinct(s.clients[owner])
          && s.sizes[owner] == SumSizes(s.clients[owner]))
  }

  ghost predicate Totalled(s: Store) {
    s.totalSize == SumKeys(s.clients, s.lru) && s.totalCount == |s.lru|
  }

  /** Access times start no earlier than `low`, never decrease along the order, and none is in the future. */
  ghost predicate Aged(lru: seq<Key>, accessed: map<Key, nat>, low: nat, now: nat) {
    if lru == [] then low <= now
    else
      && lru[0] in accessed && low <= accessed[lru[0]]
      && Aged(lru[1..], accessed, accessed[lru[0]], now)
  }

  ghost predicate Limited(s: Store) {
    forall owner :: owner in s.clients ==>
      |s.clients[owner]| <= MAX_SNAPSHOTS && SumSizes(s.clients[owner]) <= MAX_STORE_BYTES
  }

  ghost predicate Valid(s: Store, now: nat) {
    Tracked(s) && Sized(s) && Totalled(s) && Aged(s.lru, s.accessed, 0, now) && Limited(s)
  }

  // ---- Removing one snapshot ----

  function Untrack(s: Store, key: Key, size: nat): Store {
    if key in s.accessed
    then s.(lru := Without(s.lru, key), accessed := s.accessed - {key},
            totalSize := s.totalSize - size, totalCount := s.totalCount - 1)
    else s
  }

  function Remove(s: Store, key: Key): Store {
    match Get(s.clients, key)
    case None => s
    case Some(item) =>
      var rest := Drop(s.clients[key.owner], key.ident);
      var untracked := Untrack(s, key, item.size);
      if rest == []
      then untracked.(clients := s.clients - {key.owner}, sizes := s.sizes - {key.owner})
      else untracked.(clients := s.clients[key.owner := rest],
                      sizes :=
                        if key.owner in s.sizes then s.sizes[key.owner := s.sizes[key.owner] - item.size]
                        else s.sizes)
  }

  lemma RemoveGets(s: Store, key: Key)
    requires Sized(s) && Get(s.clients, key).Some?
    ensures forall other :: Get(Remove(s, key).clients, other) == if other == key then None else Get(s.clients, other)
    ensures Sized(Remove(s, key))
  {
    DropFacts(s.clients[key.owner], key.ident);
  }

  lemma {:induction false} SumKeysSame(before: map<Owner, seq<Snap>>, after: map<Owner, seq<Snap>>, keys: seq<Key>)
    requires forall key :: key in keys ==> Get(before, key) == Get(after, key)
    ensures SumKeys(before, keys) == SumKeys(after, keys)
  {
    if keys != [] {
      assert keys[0] in keys;
      SumKeysSame(before, after, keys[1..]);
    }
  }

  lemma {:induction false} SumKeysWithout(clients: map<Owner, seq<Snap>>, keys: seq<Key>, key: Key)
    requires key in keys
    ensures SumKeys(clients, Without(keys, key)) == SumKeys(clients, keys) - SizeOf(clients, key)
  {
    if keys[0] != key {
      SumKeysWithout(clients, keys[1..], key);
      var rest := Without(keys[1..], key);
      assert ([keys[0]] + rest)[1..] == rest;
    }
  }

  lemma {:induction false} SumKeysAppend(clients: map<Owner, seq<Snap>>, keys: seq<Key>, key: Key)
    ensures SumKeys(clients, keys + [key]) == SumKeys(clients, keys) + SizeOf(clients, key)
  {
    if keys != [] {
      SumKeysAppend(clients, keys[1..], key);
      assert (keys + [key])[1..] == keys[1..] + [key];
    } else {
      assert [key][1..] == [];
    }
  }

  lemma {:induction false} AgedBounds(lru: seq<Key>, accessed: map<Key, nat>, low: nat, now: nat)
    requires Aged(lru, accessed, low, now)
    ensures low <= now && forall key :: key in lru ==> key in accessed && low <= accessed[key] <= now
  {
    if lru != [] {
      AgedBounds(lru[1..], accessed, accessed[lru[0]], now);
      assert lru == [lru[0]] + lru[1..];
    }
  }

  /** Aging looks only at the listed keys, and allows an earlier start and a later clock. */
  lemma {:induction false} AgedElsewhere(lru: seq<Key>, accessed: map<Key, nat>, other: map<Key, nat>,
                                         low: nat, lower: nat, now: nat, later: nat)
    requires Aged(lru, accessed, low, now) && lower <= low && now <= later
    requires forall key :: key in lru && key in accessed ==> key in other && other[key] == accessed[key]
    ensures Aged(lru, other, lower, later)
  {
    if lru != [] {
      assert lru[0] in lru;
      AgedElsewhere(lru[1..], accessed, other, accessed[lru[0]], accessed[lru[0]], now, later);
    }
  }

  lemma {:induction false} AgedWithout(
    lru: seq<Key>, accessed: map<Key, nat>, low: nat, now: nat, key: Key, keys: set<Key>)
    requires Aged(lru, accessed, low, now) && Lists(lru, keys)
    ensures Aged(Without(lru, key), accessed - {key}, low, now)
  {
    if lru != [] {
      if lru[0] == key {
        ListsMembers(lru[1..], keys - {key});
        AgedElsewhere(lru[1..], accessed, accessed - {key}, accessed[key], low, now, now);
      } else {
        AgedWithout(lru[1..], accessed, accessed[lru[0]], now, key, keys - {lru[0]});
        assert Without(lru, key)[1..] == Without(lru[1..], key);
      }
    }
  }

  lemma {:induction false} AgedAppend(lru: seq<Key>, accessed: map<Key, nat>, low: nat, now: nat, key: Key)
    requires Aged(lru, accessed, low, now) && key !in lru
    ensures Aged(lru + [key], accessed[key := now], low, now)
  {
    if lru != [] {
      assert lru[0] in lru && (lru + [key])[1..] == lru[1..] + [key];
      AgedAppend(lru[1..], accessed, accessed[lru[0]], now, key);
    } else {
      assert [key][1..] == [];
    }
  }

  lemma RemoveUntracks(s: Store, key: Key)
    requires Tracked(s) && Get(s.clients, key).Some?
    ensures Remove(s, key).lru == Without(s.lru, key) && Remove(s, key).accessed == s.accessed - {key}
    ensures Lists(Without(s.lru, key), s.accessed.Keys - {key})
    ensures key in s.lru && key !in Without(s.lru, key)
  {
    ListsMembers(s.lru, s.accessed.Keys);
    ListsWithout(s.lru, s.accessed.Keys, key);
    WithoutMembers(s.lru, s.accessed.Keys, key);
  }

  lemma RemoveKeepsTracked(s: Store, key: Key)
    requires Tracked(s) && Sized(s) && Get(s.clients, key).Some?
    ensures Tracked(Remove(s, key))
  {
    RemoveGets(s, key);
    RemoveUntracks(s, key);
    assert (s.accessed - {key}).Keys == s.accessed.Keys - {key};
  }

  lemma RemoveKeepsTotals(s: Store, key: Key)
    requires Tracked(s) && Sized(s) && Totalled(s) && Get(s.clients, key).Some?
    ensures Totalled(Remove(s, key))
  {
    RemoveGets(s, key);
    RemoveUntracks(s, key);
    ListsMembers(s.lru, s.accessed.Keys);
    ListsMembers(Without(s.lru, key), s.accessed.Keys - {key});
    SumKeysWithout(s.clients, s.lru, key);
    SumKeysSame(s.clients, Remove(s, key).clients, Without(s.lru, key));
  }

  lemma RemoveKeepsValid(s: Store, key: Key, now: nat)
    requires Valid(s, now) && Get(s.clients, key).Some?
    ensures Valid(Remove(s, key), now)
  {
    RemoveGets(s, key);
    RemoveUntracks(s, key);
    RemoveKeepsTracked(s, key);
    RemoveKeepsTotals(s, key);
    AgedWithout(s.lru, s.accessed, 0, now, key, s.accessed.Keys);
    RemoveKeepsLimits(s, key);
  }

  /** Removing the least recently used snapshot takes the front of the order off. */
  lemma RemoveOldest(s: Store, now: nat)
    requires Valid(s, now) && s.lru != []
    ensures var key := s.lru[0]; var r := Remove(s, key);
      && key in s.accessed && Get(s.clients, key).Some?
      && Valid(r, now) && r.lru == s.lru[1..] && r.accessed == s.accessed - {key}
      && key !in r.lru
      && (forall other :: other != key ==> Get(r.clients, other) == Get(s.clients, other))
  {
    ListsMembers(s.lru, s.accessed.Keys);
    assert s.lru[0] in s.lru;
    RemoveUntracks(s, s.lru[0]);
    RemoveGets(s, s.lru[0]);
    RemoveKeepsValid(s, s.lru[0], now);
  }

  lemma RemoveKeepsLimits(s: Store, key: Key)
    requires Sized(s) && Limited(s) && Get(s.clients, key).Some?
    ensures Limited(Remove(s, key))
  {
    DropFacts(s.clients[key.owner], key.ident);
  }

  lemma RemoveOldestKeepsNewest(s: Store, now: nat, newest: Key)
    requires Valid(s, now) && |s.lru| > 1 && newest == s.lru[|s.lru| - 1]
    ensures var r := Remove(s, s.lru[0]);
      && Valid(r, now) && r.lru != [] && r.lru[|r.lru| - 1] == newest && |r.lru| < |s.lru|
      && newest in s.accessed && newest in r.accessed && r.accessed[newest] == s.accessed[newest]
      && Get(r.clients, newest) == Get(s.clients, newest)
  {
    RemoveOldest(s, now);
    ListsMembers(s.lru, s.accessed.Keys);
    assert newest in s.lru && newest == s.lru[1..][|s.lru| - 2];
    assert newest in s.lru[1..];
  }

  // ---- Access, expiry ----

  function Touch(s: Store, key: Key, now: nat): Store {
    if key in s.accessed
    then s.(lru := Without(s.lru, key) + [key], accessed := s.accessed[key := now])
    else s
  }

  /** Expires from the least recently used end and stops at the first snapshot that is recent enough. */
  function Expire(s: Store, now: nat): Store
    requires Tracked(s) && Sized(s)
    decreases |s.lru|
  {
    if s.lru == [] then s
    else
      ListsMembers(s.lru, s.accessed.Keys);
      assert s.lru[0] in s.lru;
      if s.accessed[s.lru[0]] > now - INACTIVE_TTL then s
      else
        RemoveUntracks(s, s.lru[0]);
        RemoveKeepsTracked(s, s.lru[0]);
        RemoveGets(s, s.lru[0]);
        Expire(Remove(s, s.lru[0]), now)
  }

  /** One round of expiry, seen from outside. */
  lemma ExpireStep(s: Store, now: nat)
    requires Tracked(s) && Sized(s) && s.lru != []
    ensures var oldest := s.lru[0]; var rest := Remove(s, oldest);
      && oldest in s.accessed && Get(s.clients, oldest).Some?
      && Tracked(rest) && Sized(rest) && |rest.lru| < |s.lru|
      && Expire(s, now) == if s.accessed[oldest] > now - INACTIVE_TTL then s else Expire(rest, now)
  {
    ListsMembers(s.lru, s.accessed.Keys);
    assert s.lru[0] in s.lru;
    RemoveUntracks(s, s.lru[0]);
    RemoveKeepsTracked(s, s.lru[0]);
    RemoveGets(s, s.lru[0]);
  }

  /** The scan without the early stop: every listed snapshot that is too old goes. */
  function Scan(s: Store, keys: seq<Key>, now: nat): Store
    decreases |keys|
  {
    if keys == [] then s
    else
      var stale := keys[0] in s.accessed && s.accessed[keys[0]] <= now - INACTIVE_TTL;
      Scan(if stale then Remove(s, keys[0]) else s, keys[1..], now)
  }

  lemma {:induction false} ScanKeepsRecent(s: Store, keys: seq<Key>, now: nat)
    requires forall key :: key in keys && key in s.accessed ==> s.accessed[key] > now - INACTIVE_TTL
    ensures Scan(s, keys, now) == s
  {
    if keys != [] {
      assert keys[0] in keys;
      ScanKeepsRecent(s, keys[1..], now);
    }
  }

  /** Because access times never decrease along the order, stopping early expires what a full scan would. */
  lemma {:induction false} ExpireIsFullScan(s: Store, now: nat, clock: nat)
    requires Valid(s, clock)
    ensures Expire(s, now) == Scan(s, s.lru, now)
    ensures Valid(Expire(s, now), clock)
    decreases |s.lru|
  {
    if s.lru != [] {
      ExpireStep(s, now);
      if s.accessed[s.lru[0]] > now - INACTIVE_TTL {
        RecentStay(s, now, clock);
      } else {
        RemoveOldest(s, clock);
        ExpireIsFullScan(Remove(s, s.lru[0]), now, clock);
      }
    }
  }

  /** If the least recently used snapshot is recent enough, they all are. */
  lemma RecentStay(s: Store, now: nat, clock: nat)
    requires Valid(s, clock) && s.lru != [] && s.lru[0] in s.accessed
    requires s.accessed[s.lru[0]] > now - INACTIVE_TTL
    ensures Scan(s, s.lru, now) == s
  {
    AgedBounds(s.lru[1..], s.accessed, s.accessed[s.lru[0]], clock);
    assert s.lru == [s.lru[0]] + s.lru[1..];
    ScanKeepsRecent(s, s.lru, now);
  }

  lemma TouchKeepsValid(s: Store, key: Key, now: nat)
    requires Valid(s, now)
    ensures Valid(Touch(s, key, now), now)
  {
    if key in s.accessed {
      var rest := Without(s.lru, key);
      RemoveUntracks(s, key);
      ListsAppend(rest, s.accessed.Keys - {key}, key);
      assert s.accessed.Keys - {key} + {key} == s.accessed[key := now].Keys;
      AgedWithout(s.lru, s.accessed, 0, now, key, s.accessed.Keys);
      AgedAppend(rest, s.accessed - {key}, 0, now, key);
      assert (s.accessed - {key})[key := now] == s.accessed[key := now];
      TouchKeepsTotals(s, key, now);
    }
  }

  lemma TouchKeepsTotals(s: Store, key: Key, now: nat)
    requires Tracked(s) && Totalled(s)
    ensures Totalled(Touch(s, key, now))
  {
    if key in s.accessed {
      var rest := Without(s.lru, key);
      RemoveUntracks(s, key);
      SumKeysWithout(s.clients, s.lru, key);
      SumKeysAppend(s.clients, rest, key);
      ListsMembers(s.lru, s.accessed.Keys);
      ListsMembers(rest, s.accessed.Keys - {key});
    }
  }

  // ---- Storing a new snapshot ----

  function SnapsOf(s: Store, owner: Owner): seq<Snap> {
    if owner in s.clients then s.clients[owner] else []
  }

  function SizeFor(s: Store, owner: Owner): int {
    if owner in s.sizes then s.sizes[owner] else 0
  }

  /** Makes room in the client's own list for one more snapshot, oldest first. */
  function Trim(s: Store, owner: Owner, size: nat): Store
    requires Tracked(s) && Sized(s)
    decreases |SnapsOf(s, owner)|
  {
    var snaps := SnapsOf(s, owner);
    if snaps == [] || (|snaps| + 1 <= MAX_SNAPSHOTS && SizeFor(s, owner) + size <= MAX_STORE_BYTES) then s
    else
      var key := Key(owner, snaps[0].ident);
      RemoveKeepsTracked(s, key);
      RemoveGets(s, key);
      Trim(Remove(s, key), owner, size)
  }

  function Add(s: Store, owner: Owner, item: Snap, now: nat): Store {
    s.(clients := s.clients[owner := SnapsOf(s, owner) + [item]],
       sizes := s.sizes[owner := SizeFor(s, owner) + item.size],
       lru := s.lru + [Key(owner, item.ident)],
       accessed := s.accessed[Key(owner, item.ident) := now],
       totalSize := s.totalSize + item.size,
       totalCount := s.totalCount + 1)
  }

  predicate OverBudget(s: Store) {
    s.totalCount > MAX_WORKSPACE_SNAPSHOTS || s.totalSize > MAX_WORKSPACE_BYTES
  }

  /** Evicts the least recently used snapshots of any client until the workspace limits hold. */
  function Evict(s: Store): Store
    requires Tracked(s) && Sized(s)
    decreases |s.lru|
  {
    if !OverBudget(s) || s.lru == [] then s
    else
      ListsMembers(s.lru, s.accessed.Keys);
      assert s.lru[0] in s.lru;
      RemoveUntracks(s, s.lru[0]);
      RemoveKeepsTracked(s, s.lru[0]);
      RemoveGets(s, s.lru[0]);
      Evict(Remove(s, s.lru[0]))
  }

  lemma {:induction false} TrimKeepsValid(s: Store, owner: Owner, size: nat, now: nat)
    requires Valid(s, now) && size <= MAX_STORE_BYTES
    ensures var r := Trim(s, owner, size);
      && Valid(r, now)
      && |SnapsOf(r, owner)| + 1 <= MAX_SNAPSHOTS && SizeFor(r, owner) + size <= MAX_STORE_BYTES
      && (forall key :: Get(r.clients, key).Some? ==> Get(s.clients, key).Some?)
    decreases |SnapsOf(s, owner)|
  {
    var snaps := SnapsOf(s, owner);
    if snaps != [] && !(|snaps| + 1 <= MAX_SNAPSHOTS && SizeFor(s, owner) + size <= MAX_STORE_BYTES) {
      var key := Key(owner, snaps[0].ident);
      RemoveKeepsValid(s, key, now);
      RemoveGets(s, key);
      TrimKeepsValid(Remove(s, key), owner, size, now);
    }
  }

  lemma AddGets(s: Store, owner: Owner, item: Snap, now: nat)
    requires Sized(s) && Get(s.clients, Key(owner, item.ident)).None?
    ensures Sized(Add(s, owner, item, now))
    ensures forall key ::
      Get(Add(s, owner, item, now).clients, key) ==
        if key == Key(owner, item.ident) then Some(item) else Get(s.clients, key)
  {
    AppendFacts(SnapsOf(s, owner), item);
  }

  lemma AddKeepsValid(s: Store, owner: Owner, item: Snap, now: nat)
    requires Valid(s, now) && Get(s.clients, Key(owner, item.ident)).None?
    requires |SnapsOf(s, owner)| + 1 <= MAX_SNAPSHOTS && SizeFor(s, owner) + item.size <= MAX_STORE_BYTES
    ensures Valid(Add(s, owner, item, now), now)
  {
    AddKeeps(s, owner, item, now);
    ListsMembers(s.lru, s.accessed.Keys);
    AgedAppend(s.lru, s.accessed, 0, now, Key(owner, item.ident));
    AddKeepsTotals(s, owner, item, now);
    AddKeepsLimits(s, owner, item, now);
  }

  lemma AddKeepsTotals(s: Store, owner: Owner, item: Snap, now: nat)
    requires Tracked(s) && Sized(s) && Totalled(s) && Get(s.clients, Key(owner, item.ident)).None?
    ensures Totalled(Add(s, owner, item, now))
  {
    var key := Key(owner, item.ident);
    var clients := Add(s, owner, item, now).clients;
    AddGets(s, owner, item, now);
    ListsMembers(s.lru, s.accessed.Keys);
    SumKeysAppend(clients, s.lru, key);
    SumKeysSame(s.clients, clients, s.lru);
  }

  lemma AddKeepsLimits(s: Store, owner: Owner, item: Snap, now: nat)
    requires Sized(s) && Limited(s) && Get(s.clients, Key(owner, item.ident)).None?
    requires |SnapsOf(s, owner)| + 1 <= MAX_SNAPSHOTS && SizeFor(s, owner) + item.size <= MAX_STORE_BYTES
    ensures Limited(Add(s, owner, item, now))
  {
    AppendFacts(SnapsOf(s, owner), item);
  }

  /** Eviction drops a front part of the recency order and always ends within the workspace limits. */
  lemma {:induction false} EvictKeepsValid(s: Store, now: nat)
    requires Valid(s, now)
    ensures Valid(Evict(s), now) && !OverBudget(Evict(s))
    ensures Back(Evict(s).lru, s.lru)
    decreases |s.lru|
  {
    if OverBudget(s) && s.lru != [] {
      RemoveOldest(s, now);
      EvictKeepsValid(Remove(s, s.lru[0]), now);
    } else {
      assert SumKeys(s.clients, []) == 0;
    }
  }

  /** A snapshot no larger than the budget that was used last survives the eviction. */
  lemma {:induction false} EvictKeepsNewest(s: Store, now: nat, newest: Key)
    requires Valid(s, now) && s.lru != [] && newest == s.lru[|s.lru| - 1]
    requires SizeOf(s.clients, newest) <= MAX_WORKSPACE_BYTES
    ensures var r := Evict(s);
      r.lru != [] && r.lru[|r.lru| - 1] == newest && Get(r.clients, newest) == Get(s.clients, newest)
    decreases |s.lru|
  {
    if |s.lru| == 1 {
      assert SumKeys(s.clients, s.lru) == SizeOf(s.clients, s.lru[0]) + SumKeys(s.clients, s.lru[1..]);
    } else if OverBudget(s) {
      RemoveOldestKeepsNewest(s, now, newest);
      EvictKeepsNewest(Remove(s, s.lru[0]), now, newest);
    }
  }

  /** What `snapshot` does with a captured item at time `now`. */
  function Commit(s: Store, owner: Owner, item: Snap, now: nat): Store
    requires Tracked(s) && Sized(s)
    requires Get(s.clients, Key(owner, item.ident)).None?
  {
    ExpireKeeps(s, now);
    var expired := Expire(s, now);
    TrimKeeps(expired, owner, item.size);
    var trimmed := Trim(expired, owner, item.size);
    AddKeeps(trimmed, owner, item, now);
    var added := Add(trimmed, owner, item, now);
    ExpireKeeps(added, now);
    Evict(Expire(added, now))
  }

  lemma {:induction false} ExpireKeeps(s: Store, now: nat)
    requires Tracked(s) && Sized(s)
    ensures Tracked(Expire(s, now)) && Sized(Expire(s, now))
    ensures forall key :: Get(Expire(s, now).clients, key).Some? ==> Get(s.clients, key).Some?
    decreases |s.lru|
  {
    if s.lru != [] {
      ExpireStep(s, now);
      RemoveGets(s, s.lru[0]);
      if s.accessed[s.lru[0]] <= now - INACTIVE_TTL {
        ExpireKeeps(Remove(s, s.lru[0]), now);
      }
    }
  }

  lemma {:induction false} TrimKeeps(s: Store, owner: Owner, size: nat)
    requires Tracked(s) && Sized(s)
    ensures Tracked(Trim(s, owner, size)) && Sized(Trim(s, owner, size))
    ensures forall key :: Get(Trim(s, owner, size).clients, key).Some? ==> Get(s.clients, key).Some?
    decreases |SnapsOf(s, owner)|
  {
    var snaps := SnapsOf(s, owner);
    if snaps != [] && !(|snaps| + 1 <= MAX_SNAPSHOTS && SizeFor(s, owner) + size <= MAX_STORE_BYTES) {
      var key := Key(owner, snaps[0].ident);
      RemoveKeepsTracked(s, key);
      RemoveGets(s, key);
      TrimKeeps(Remove(s, key), owner, size);
    }
  }

  lemma AddKeeps(s: Store, owner: Owner, item: Snap, now: nat)
    requires Tracked(s) && Sized(s) && Get(s.clients, Key(owner, item.ident)).None?
    ensures Tracked(Add(s, owner, item, now)) && Sized(Add(s, owner, item, now))
  {
    var key := Key(owner, item.ident);
    AddGets(s, owner, item, now);
    ListsAppend(s.lru, s.accessed.Keys, key);
    assert s.accessed[key := now].Keys == s.accessed.Keys + {key};
  }

  predicate Newest(s: Store, key: Key) {
    s.lru != [] && s.lru[|s.lru| - 1] == key
  }

  /** Valid, with the same newest snapshot as before. */
  ghost predicate Keeps(before: Store, after: Store, newest: Key, now: nat) {
    Valid(after, now) && Newest(after, newest) && Get(after.clients, newest) == Get(before.clients, newest)
  }

  ghost predicate UsedNow(s: Store, key: Key, now: nat) {
    Newest(s, key) && key in s.accessed && s.accessed[key] == now
  }

  /**
   * Storing a snapshot of at most the per-client limit, at a time not before any earlier access, leaves
   * every cache exact, the per-client and the workspace limits met, and the new snapshot stored and newest.
   */
  lemma CommitKeepsValid(s: Store, owner: Owner, item: Snap, now: nat)
    requires Valid(s, now) && item.size <= MAX_STORE_BYTES
    requires Get(s.clients, Key(owner, item.ident)).None?
    ensures var r := Commit(s, owner, item, now);
      && Valid(r, now) && !OverBudget(r)
      && Get(r.clients, Key(owner, item.ident)) == Some(item) && Newest(r, Key(owner, item.ident))
  {
    ExpireIsFullScan(s, now, now);
    ExpireKeeps(s, now);
    TrimAndAdd(Expire(s, now), owner, item, now);
    SettleKeepsNewest(Add(Trim(Expire(s, now), owner, item.size), owner, item, now), now, Key(owner, item.ident));
  }

  /** Before the workspace limits are enforced, the new snapshot is stored and newest. */
  lemma TrimAndAdd(s: Store, owner: Owner, item: Snap, now: nat)
    requires Valid(s, now) && item.size <= MAX_STORE_BYTES
    requires Get(s.clients, Key(owner, item.ident)).None?
    ensures var added := Add(Trim(s, owner, item.size), owner, item, now);
      && Valid(added, now) && UsedNow(added, Key(owner, item.ident), now)
      && Get(added.clients, Key(owner, item.ident)) == Some(item)
  {
    TrimKeepsValid(s, owner, item.size, now);
    AddKeepsValid(Trim(s, owner, item.size), owner, item, now);
    AddGets(Trim(s, owner, item.size), owner, item, now);
  }

  lemma SettleKeepsNewest(s: Store, now: nat, newest: Key)
    requires Valid(s, now) && UsedNow(s, newest, now) && SizeOf(s.clients, newest) <= MAX_STORE_BYTES
    ensures Valid(Expire(s, now), now)
    ensures Keeps(s, Evict(Expire(s, now)), newest, now) && !OverBudget(Evict(Expire(s, now)))
  {
    ExpireKeepsRecent(s, now, newest);
    EvictKeepsValid(Expire(s, now), now);
    EvictKeepsNewest(Expire(s, now), now, newest);
  }

  /** The snapshot accessed just now does not expire. */
  lemma {:induction false} ExpireKeepsRecent(s: Store, now: nat, newest: Key)
    requires Valid(s, now) && UsedNow(s, newest, now)
    ensures Keeps(s, Expire(s, now), newest, now)
    decreases |s.lru|
  {
    ExpireStep(s, now);
    if |s.lru| > 1 && s.accessed[s.lru[0]] <= now - INACTIVE_TTL {
      RemoveOldestKeepsNewest(s, now, newest);
      ExpireKeepsRecent(Remove(s, s.lru[0]), now, newest);
    }
  }

  // ---- Clearing ----

  function UntrackAll(s: Store, owner: Owner, snaps: seq<Snap>): Store
    decreases |snaps|
  {
    if snaps == [] then s
    else UntrackAll(Untrack(s, Key(owner, snaps[0].ident), snaps[0].size), owner, snaps[1..])
  }

  function ClearOwner(s: Store, owner: Owner): Store {
    UntrackAll(s.(clients := s.clients - {owner}, sizes := s.sizes - {owner}), owner, SnapsOf(s, owner))
  }

  lemma ClearOwnerStep(s: Store, owner: Owner)
    requires Sized(s) && owner in s.clients
    ensures var key := Key(owner, s.clients[owner][0].ident);
      && Get(s.clients, key).Some?
      && ClearOwner(s, owner) == ClearOwner(Remove(s, key), owner)
      && Remove(s, key).clients - {owner} == s.clients - {owner}
      && |SnapsOf(Remove(s, key), owner)| < |s.clients[owner]|
  {
    var snaps := s.clients[owner];
    var next := Remove(s, Key(owner, snaps[0].ident));
    assert Drop(snaps, snaps[0].ident) == snaps[1..];
    assert next.clients - {owner} == s.clients - {owner};
    assert next.sizes - {owner} == s.sizes - {owner};
    assert SnapsOf(next, owner) == snaps[1..];
  }

  /** Clearing one client removes exactly its snapshots and keeps every cache exact. */
  lemma {:induction false} ClearOwnerKeepsValid(s: Store, owner: Owner, now: nat)
    requires Valid(s, now)
    ensures Valid(ClearOwner(s, owner), now)
    ensures ClearOwner(s, owner).clients == s.clients - {owner}
    decreases |SnapsOf(s, owner)|
  {
    if owner in s.clients {
      ClearOwnerStep(s, owner);
      var key := Key(owner, s.clients[owner][0].ident);
      RemoveKeepsValid(s, key, now);
      ClearOwnerKeepsValid(Remove(s, key), owner, now);
    } else {
      assert s.clients - {owner} == s.clients && s.sizes - {owner} == s.sizes;
    }
  }

  // ---- What goes and what stays ----

  predicate Stale(s: Store, key: Key, now: nat) {
    key in s.accessed && s.accessed[key] <= now - INACTIVE_TTL
  }

  /** Just the stale snapshots have gone. */
  ghost predicate Expires(s: Store, r: Store, now: nat) {
    && (forall key :: Get(r.clients, key) == if Stale(s, key, now) then None else Get(s.clients, key))
    && Back(r.lru, s.lru)
  }

  lemma {:induction false} ExpiresExactly(s: Store, now: nat, clock: nat)
    requires Valid(s, clock)
    ensures Expires(s, Expire(s, now), now)
    ensures forall key :: key in Expire(s, now).accessed ==> !Stale(Expire(s, now), key, now)
    decreases |s.lru|
  {
    ListsMembers(s.lru, s.accessed.Keys);
    if s.lru != [] {
      ExpireStep(s, now);
      var oldest := s.lru[0];
      if s.accessed[oldest] > now - INACTIVE_TTL {
        NoneStale(s, now, clock);
      } else {
        RemoveOldest(s, clock);
        RemoveGets(s, oldest);
        ExpiresExactly(Remove(s, oldest), now, clock);
        ExpiredOneMore(s, Remove(s, oldest), Expire(s, now), now);
      }
    }
  }

  lemma NoneStale(s: Store, now: nat, clock: nat)
    requires Valid(s, clock) && s.lru != [] && s.lru[0] in s.accessed
    requires s.accessed[s.lru[0]] > now - INACTIVE_TTL
    ensures forall key :: !Stale(s, key, now)
  {
    ListsMembers(s.lru, s.accessed.Keys);
    AgedBounds(s.lru[1..], s.accessed, s.accessed[s.lru[0]], clock);
    assert s.lru == [s.lru[0]] + s.lru[1..];
  }

  lemma ExpiredOneMore(s: Store, rest: Store, r: Store, now: nat)
    requires s.lru != [] && Stale(s, s.lru[0], now)
    requires rest.lru == s.lru[1..] && rest.accessed == s.accessed - {s.lru[0]}
    requires Get(rest.clients, s.lru[0]).None?
    requires forall key :: key != s.lru[0] ==> Get(rest.clients, key) == Get(s.clients, key)
    requires Expires(rest, r, now)
    ensures Expires(s, r, now)
  {
    forall key ensures Get(r.clients, key) == if Stale(s, key, now) then None else Get(s.clients, key) {
      assert key != s.lru[0] ==> (Stale(rest, key, now) <==> Stale(s, key, now));
    }
  }

  predicate HasRoom(snaps: seq<Snap>, size: nat) {
    |snaps| + 1 <= MAX_SNAPSHOTS && SumSizes(snaps) + size <= MAX_STORE_BYTES
  }

  /** The client's oldest `k` snapshots have gone, and one fewer would not have made room. */
  ghost predicate TrimsJust(s: Store, r: Store, owner: Owner, size: nat, k: nat) {
    var snaps := SnapsOf(s, owner);
    && k <= |snaps| && SnapsOf(r, owner) == snaps[k..]
    && (forall other :: other != owner ==> SnapsOf(r, other) == SnapsOf(s, other))
    && HasRoom(snaps[k..], size)
    && (k > 0 ==> !HasRoom(snaps[k - 1..], size))
    && r.lru == Kept(s.lru, r.accessed.Keys)
  }

  lemma RemoveFirstSnap(s: Store, owner: Owner)
    requires Sized(s) && SnapsOf(s, owner) != []
    ensures var r := Remove(s, Key(owner, SnapsOf(s, owner)[0].ident));
      && SnapsOf(r, owner) == SnapsOf(s, owner)[1..]
      && (forall other :: other != owner ==> SnapsOf(r, other) == SnapsOf(s, other))
  {
  }

  /** Trimming keeps the order and the access times of all that stays. */
  lemma {:induction false} TrimOrder(s: Store, owner: Owner, size: nat)
    requires Tracked(s) && Sized(s)
    ensures var r := Trim(s, owner, size);
      && r.lru == Kept(s.lru, r.accessed.Keys) && r.accessed.Keys <= s.accessed.Keys
      && (forall key :: key in r.accessed ==> r.accessed[key] == s.accessed[key])
    decreases |SnapsOf(s, owner)|
  {
    var snaps := SnapsOf(s, owner);
    ListsMembers(s.lru, s.accessed.Keys);
    KeptAll(s.lru, s.accessed.Keys);
    if snaps != [] && !(|snaps| + 1 <= MAX_SNAPSHOTS && SizeFor(s, owner) + size <= MAX_STORE_BYTES) {
      var key := Key(owner, snaps[0].ident);
      assert Get(s.clients, key) == Some(snaps[0]);
      RemoveKeepsTracked(s, key);
      RemoveGets(s, key);
      RemoveUntracks(s, key);
      TrimOrder(Remove(s, key), owner, size);
      KeptWithout(s.lru, s.accessed.Keys, s.accessed.Keys, key);
      KeptTwice(s.lru, s.accessed.Keys - {key}, Trim(s, owner, size).accessed.Keys);
    }
  }

  lemma {:induction false} TrimDropsJust(s: Store, owner: Owner, size: nat) returns (k: nat)
    requires Tracked(s) && Sized(s) && size <= MAX_STORE_BYTES
    ensures TrimsJust(s, Trim(s, owner, size), owner, size, k)
    decreases |SnapsOf(s, owner)|
  {
    var snaps := SnapsOf(s, owner);
    assert snaps[0..] == snaps && SizeFor(s, owner) == SumSizes(snaps);
    TrimOrder(s, owner, size);
    k := 0;
    if snaps != [] && !HasRoom(snaps, size) {
      var key := Key(owner, snaps[0].ident);
      assert Get(s.clients, key) == Some(snaps[0]);
      RemoveKeepsTracked(s, key);
      RemoveGets(s, key);
      RemoveFirstSnap(s, owner);
      var j := TrimDropsJust(Remove(s, key), owner, size);
      assert snaps[1..][j..] == snaps[j + 1..] && (j > 0 ==> snaps[1..][j - 1..] == snaps[j..]);
      k := j + 1;
    }
  }

  predicate Exceeds(clients: map<Owner, seq<Snap>>, order: seq<Key>) {
    |order| > MAX_WORKSPACE_SNAPSHOTS || SumKeys(clients, order) > MAX_WORKSPACE_BYTES
  }

  /** The `k` least recently used snapshots have gone, and with one fewer a limit would still be exceeded. */
  ghost predicate EvictsJust(s: Store, r: Store, k: nat) {
    && k <= |s.lru| && r.lru == s.lru[k..]
    && (forall key :: Get(r.clients, key) == if key in s.lru[..k] then None else Get(s.clients, key))
    && !Exceeds(s.clients, s.lru[k..])
    && (k > 0 ==> Exceeds(s.clients, s.lru[k - 1..]))
  }

  lemma {:induction false} EvictDropsJust(s: Store, now: nat) returns (k: nat)
    requires Valid(s, now)
    ensures EvictsJust(s, Evict(s), k)
    decreases |s.lru|
  {
    k := 0;
    assert s.lru[0..] == s.lru && SumKeys(s.clients, []) == 0;
    if OverBudget(s) {
      RemoveOldest(s, now);
      var first, rest := s.lru[0], Remove(s, s.lru[0]);
      RemoveGets(s, first);
      var j := EvictDropsJust(rest, now);
      EvictedOneMore(s, rest, Evict(s), j);
      k := j + 1;
    }
  }

  lemma EvictedOneMore(s: Store, rest: Store, r: Store, j: nat)
    requires s.lru != [] && Exceeds(s.clients, s.lru) && rest.lru == s.lru[1..] && s.lru[0] !in rest.lru
    requires forall key :: Get(rest.clients, key) == if key == s.lru[0] then None else Get(s.clients, key)
    requires EvictsJust(rest, r, j)
    ensures EvictsJust(s, r, j + 1)
  {
    assert s.lru[1..][j..] == s.lru[j + 1..] && s.lru[..j + 1] == [s.lru[0]] + s.lru[1..][..j];
    ExceedsWithout(s.clients, rest.clients, s.lru, j);
    if j > 0 {
      assert s.lru[1..][j - 1..] == s.lru[j..];
      ExceedsWithout(s.clients, rest.clients, s.lru, j - 1);
    }
    assert s.lru[0..] == s.lru;
  }

  /** What the first key holds is not counted behind it. */
  lemma ExceedsWithout(before: map<Owner, seq<Snap>>, after: map<Owner, seq<Snap>>, order: seq<Key>, j: nat)
    requires order != [] && j < |order| && order[0] !in order[1..]
    requires forall key :: key != order[0] ==> Get(after, key) == Get(before, key)
    ensures Exceeds(after, order[1..][j..]) == Exceeds(before, order[j + 1..])
  {
    assert order[1..][j..] == order[j + 1..];
    assert forall key :: key in order[j + 1..] ==> key in order[1..];
    SumKeysSame(before, after, order[j + 1..]);
  }

  /** What storing leaves of the earlier snapshots: all that are neither stale, nor trimmed, nor evicted. */
  ghost predicate Settles(s: Store, r: Store, owner: Owner, item: Snap, now: nat,
                          expired: Store, trimmed: Store, added: Store, j: nat, k: nat) {
    && Expires(s, expired, now)
    && TrimsJust(expired, trimmed, owner, item.size, j)
    && (forall key :: Get(added.clients, key) ==
          if key == Key(owner, item.ident) then Some(item) else Get(trimmed.clients, key))
    && added.lru == trimmed.lru + [Key(owner, item.ident)]
    && EvictsJust(added, r, k)
  }

  /** Nothing is left to expire after trimming and storing. */
  lemma NothingStale(expired: Store, owner: Owner, item: Snap, now: nat)
    requires Tracked(expired) && Sized(expired) && Get(expired.clients, Key(owner, item.ident)).None?
    requires forall key :: key in expired.accessed ==> !Stale(expired, key, now)
    ensures var trimmed := Trim(expired, owner, item.size);
      && Tracked(trimmed) && Sized(trimmed)
      && var added := Add(trimmed, owner, item, now); Tracked(added) && Sized(added) && Expire(added, now) == added
  {
    TrimKeeps(expired, owner, item.size);
    TrimOrder(expired, owner, item.size);
    var trimmed := Trim(expired, owner, item.size);
    AddKeeps(trimmed, owner, item, now);
    var added := Add(trimmed, owner, item, now);
    ListsMembers(added.lru, added.accessed.Keys);
    ExpireStep(added, now);
  }

  lemma CommitSettles(s: Store, owner: Owner, item: Snap, now: nat)
    requires Valid(s, now) && item.size <= MAX_STORE_BYTES && Get(s.clients, Key(owner, item.ident)).None?
    ensures exists expired, trimmed, added, j, k ::
      Settles(s, Commit(s, owner, item, now), owner, item, now, expired, trimmed, added, j, k)
  {
    ExpiresExactly(s, now, now);
    ExpireIsFullScan(s, now, now);
    var expired := Expire(s, now);
    var j := TrimDropsJust(expired, owner, item.size);
    TrimKeepsValid(expired, owner, item.size, now);
    var trimmed := Trim(expired, owner, item.size);
    TrimAndAdd(expired, owner, item, now);
    AddGets(trimmed, owner, item, now);
    var added := Add(trimmed, owner, item, now);
    NothingStale(expired, owner, item, now);
    var k := EvictDropsJust(added, now);
    assert Settles(s, Commit(s, owner, item, now), owner, item, now, expired, trimmed, added, j, k);
  }

  /** Where nothing is stale and there is room in the client's list and in the workspace, everything stays. */
  lemma CommitKeepsAllWithRoom(s: Store, owner: Owner, item: Snap, now: nat)
    requires Valid(s, now) && item.size <= MAX_STORE_BYTES && Get(s.clients, Key(owner, item.ident)).None?
    requires (forall key :: !Stale(s, key, now)) && HasRoom(SnapsOf(s, owner), item.size)
    requires |s.lru| < MAX_WORKSPACE_SNAPSHOTS && SumKeys(s.clients, s.lru) + item.size <= MAX_WORKSPACE_BYTES
    ensures forall key ::
      Get(Commit(s, owner, item, now).clients, key) ==
        if key == Key(owner, item.ident) then Some(item) else Get(s.clients, key)
    ensures Commit(s, owner, item, now).lru == s.lru + [Key(owner, item.ident)]
  {
    ListsMembers(s.lru, s.accessed.Keys);
    ExpireStands(s, now);
    assert Trim(s, owner, item.size) == s;
    NothingStale(s, owner, item, now);
    AddGets(s, owner, item, now);
    AddKeepsTotals(s, owner, item, now);
    AddKeeps(s, owner, item, now);
    SumKeysSame(s.clients, Add(s, owner, item, now).clients, s.lru);
    assert !OverBudget(Add(s, owner, item, now));
  }

  lemma ExpireStands(s: Store, now: nat)
    requires Tracked(s) && Sized(s) && forall key :: !Stale(s, key, now)
    ensures Expire(s, now) == s
  {
    if s.lru != [] {
      ExpireStep(s, now);
      assert !Stale(s, s.lru[0], now);
    }
  }

  /** Using a snapshot makes it the newest and leaves the others as they are. */
  lemma TouchIsUse(s: Store, key: Key, now: nat)
    requires Tracked(s)
    ensures key !in s.accessed ==> Touch(s, key, now) == s
    ensures key in s.accessed ==>
      var r := Touch(s, key, now);
      && r.clients == s.clients && UsedNow(r, key, now) && Without(r.lru, key) == Without(s.lru, key)
      && r.accessed - {key} == s.accessed - {key}
  {
    if key in s.accessed {
      ListsWithout(s.lru, s.accessed.Keys, key);
      ListsMembers(Without(s.lru, key), s.accessed.Keys - {key});
      WithoutLast(Without(s.lru, key), key);
    }
  }
}
