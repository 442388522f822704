/**
 * Paged diagnostics: snapshots that expire, opaque cursors into them kept in two inverse maps, and pages
 * cut down until they fit.
 */
module DiagnosticPages {
  import opened Outcomes
  import opened OrderedKeys

  const MAX_PAGE_BYTES := 32768

  type Row = string
  /** Random tokens, modelled as numbers that are never handed out twice. */
  type Token = nat

  datatype Snapshot = Snapshot(rows: seq<Row>, total: int, truncated: bool, expires: int)

  datatype PageError = BadCursor | MetadataTooLarge

  // ---- One page ----

  /** A rendered page: rows from its offset on; `omitted` when the single row there is too large to show. */
  datatype Page = Page(rows: seq<Row>, end: nat, truncated: bool, omitted: bool)

  /** The JSON size of a page of a snapshot. */
  type Size = (Snapshot, Page) -> nat

  function Plain(snapshot: Snapshot, offset: nat, count: nat, shortened: bool): Page
    requires offset + count <= |snapshot.rows|
  {
    Page(snapshot.rows[offset..offset + count], offset + count, snapshot.truncated || shortened, false)
  }

  /** Whether the first `count` rows from the offset fit a page. */
  predicate Fits(size: Size, snapshot: Snapshot, offset: nat, count: nat, shortened: bool)
    requires offset + count <= |snapshot.rows|
  {
    size(snapshot, Plain(snapshot, offset, count, shortened)) <= MAX_PAGE_BYTES
  }

  /** Pops rows while the page is too large; the last one is not popped but replaced by a warning. */
  function Fit(size: Size, snapshot: Snapshot, offset: nat, count: nat, shortened: bool): Result<Page, PageError>
    requires offset + count <= |snapshot.rows|
  {
    if Fits(size, snapshot, offset, count, shortened) then Ok(Plain(snapshot, offset, count, shortened))
    else if count > 1 then Fit(size, snapshot, offset, count - 1, true)
    else if count == 0 then Err(MetadataTooLarge)
    else
      var omitting := Page([], offset + 1, true, true);
      if size(snapshot, omitting) <= MAX_PAGE_BYTES then Ok(omitting) else Err(MetadataTooLarge)
  }

  /** How many rows a page starts with before it is cut down. */
  function RowsFor(snapshot: Snapshot, offset: nat, limit: nat): (n: nat)
    requires offset <= |snapshot.rows|
    ensures offset + n <= |snapshot.rows| && (limit > 0 && offset < |snapshot.rows| ==> n > 0)
  {
    if offset + limit < |snapshot.rows| then limit else |snapshot.rows| - offset
  }

  function Render(size: Size, snapshot: Snapshot, offset: nat, limit: nat): Result<Page, PageError>
    requires offset <= |snapshot.rows|
  {
    Fit(size, snapshot, offset, RowsFor(snapshot, offset, limit), false)
  }

  /** A row that does not fit a page of its own, marked as shortened or not. */
  predicate Oversized(size: Size, snapshot: Snapshot, i: nat)
    requires i < |snapshot.rows|
  {
    || size(snapshot, Page([snapshot.rows[i]], i + 1, snapshot.truncated, false)) > MAX_PAGE_BYTES
    || size(snapshot, Page([snapshot.rows[i]], i + 1, true, false)) > MAX_PAGE_BYTES
  }

  lemma OversizedDoesNotFit(size: Size, snapshot: Snapshot, i: nat)
    requires i < |snapshot.rows|
    ensures Oversized(size, snapshot, i) <==> !Fits(size, snapshot, i, 1, false) || !Fits(size, snapshot, i, 1, true)
  {
    assert snapshot.rows[i..i + 1] == [snapshot.rows[i]];
  }

  /**
   * A rendered page fits, shows the rows from its offset up to its end, or omits exactly one row, and then
   * only one that does not fit by itself.
   */
  lemma {:induction false} FitIsExact(size: Size, snapshot: Snapshot, offset: nat, count: nat, shortened: bool)
    requires offset + count <= |snapshot.rows| && Fit(size, snapshot, offset, count, shortened).Ok?
    ensures var page := Fit(size, snapshot, offset, count, shortened).value;
      && size(snapshot, page) <= MAX_PAGE_BYTES
      && page.end <= offset + count && (count > 0 ==> page.end > offset)
      && (if page.omitted then page.rows == [] && page.end == offset + 1 && Oversized(size, snapshot, offset)
          else page.rows == snapshot.rows[offset..page.end])
  {
    if count == 1 {
      OversizedDoesNotFit(size, snapshot, offset);
    }
    if size(snapshot, Plain(snapshot, offset, count, shortened)) > MAX_PAGE_BYTES && count > 1 {
      FitIsExact(size, snapshot, offset, count - 1, true);
    }
  }

  /** The page of the first `c` of `count` rows, which is marked as truncated unless they are all. */
  function PageOf(snapshot: Snapshot, offset: nat, c: nat, count: nat, shortened: bool): Page
    requires c <= count && offset + count <= |snapshot.rows|
  {
    Page(snapshot.rows[offset..offset + c], offset + c, snapshot.truncated || shortened || c < count, false)
  }

  predicate FitsOf(size: Size, snapshot: Snapshot, offset: nat, c: nat, count: nat, shortened: bool)
    requires c <= count && offset + count <= |snapshot.rows|
  {
    size(snapshot, PageOf(snapshot, offset, c, count, shortened)) <= MAX_PAGE_BYTES
  }

  /** A page shows as many rows as fit; one is only omitted, or the request refused, where no number of rows fits. */
  lemma {:induction false} FitIsLargest(size: Size, snapshot: Snapshot, offset: nat, count: nat, shortened: bool)
    requires offset + count <= |snapshot.rows|
    ensures match Fit(size, snapshot, offset, count, shortened)
      case Ok(page) =>
        if page.omitted then
          && count > 0 && page == Page([], offset + 1, true, true)
          && (forall c :: 1 <= c <= count ==> !FitsOf(size, snapshot, offset, c, count, shortened))
        else
          && offset <= page.end <= offset + count
          && page == PageOf(snapshot, offset, page.end - offset, count, shortened)
          && FitsOf(size, snapshot, offset, page.end - offset, count, shortened)
          && (forall c :: page.end - offset < c <= count ==> !FitsOf(size, snapshot, offset, c, count, shortened))
      case Err(e) =>
        && e == MetadataTooLarge
        && (forall c :: (if count == 0 then 0 else 1) <= c <= count ==>
              !FitsOf(size, snapshot, offset, c, count, shortened))
        && (count > 0 ==> size(snapshot, Page([], offset + 1, true, true)) > MAX_PAGE_BYTES)
  {
    if !Fits(size, snapshot, offset, count, shortened) && count > 1 {
      FitIsLargest(size, snapshot, offset, count - 1, true);
      assert forall c :: 1 <= c < count ==>
        FitsOf(size, snapshot, offset, c, count, shortened) == FitsOf(size, snapshot, offset, c, count - 1, true);
    }
  }

  /** A page starts with as many rows as were asked for, or all that are left. */
  lemma RenderStartsWithLimit(size: Size, snapshot: Snapshot, offset: nat, limit: nat)
    requires offset <= |snapshot.rows|
    ensures var left := |snapshot.rows| - offset;
      Render(size, snapshot, offset, limit) ==
        Fit(size, snapshot, offset, if limit < left then limit else left, false)
  {
  }

  lemma RenderIsExact(size: Size, snapshot: Snapshot, offset: nat, limit: nat)
    requires offset <= |snapshot.rows| && Render(size, snapshot, offset, limit).Ok?
    ensures var page := Render(size, snapshot, offset, limit).value;
      && size(snapshot, page) <= MAX_PAGE_BYTES
      && offset <= page.end <= |snapshot.rows| && (limit > 0 && offset < |snapshot.rows| ==> page.end > offset)
      && (if page.omitted then page.end == offset + 1 && Oversized(size, snapshot, offset)
          else page.rows == snapshot.rows[offset..page.end])
  {
    FitIsExact(size, snapshot, offset, RowsFor(snapshot, offset, limit), false);
  }

  /** The rows a page shows, in order; an omitted row leaves a gap. */
  function ShownBy(page: Page): seq<Option<Row>> {
    if page.omitted then [None] else Shown(page.rows)
  }

  /** The rows in the order the pages show them. */
  function Follow(size: Size, snapshot: Snapshot, offset: nat, limits: nat -> nat, request: nat)
    : Option<seq<Option<Row>>>
    requires offset <= |snapshot.rows| && forall n: nat :: limits(n) > 0
    decreases |snapshot.rows| - offset
  {
    match Render(size, snapshot, offset, limits(request))
    case Err(_) => None
    case Ok(page) =>
      RenderIsExact(size, snapshot, offset, limits(request));
      if page.end >= |snapshot.rows| then Some(ShownBy(page))
      else match Follow(size, snapshot, page.end, limits, request + 1)
        case None => None
        case Some(rest) => Some(ShownBy(page) + rest)
  }

  function Shown(rows: seq<Row>): (r: seq<Option<Row>>)
    ensures |r| == |rows| && forall i :: 0 <= i < |r| ==> r[i] == Some(rows[i])
  {
    seq(|rows|, i requires 0 <= i < |rows| => Some(rows[i]))
  }

  /** `shown` accounts for the rows from `offset` on: each is shown, or too large for a page of its own. */
  ghost predicate Accounts(size: Size, snapshot: Snapshot, offset: nat, shown: seq<Option<Row>>) {
    offset + |shown| <= |snapshot.rows| &&
    forall i: nat :: i < |shown| ==>
      shown[i] == Some(snapshot.rows[offset + i]) || (shown[i] == None && Oversized(size, snapshot, offset + i))
  }

  lemma AccountsJoin(size: Size, snapshot: Snapshot, offset: nat, first: seq<Option<Row>>, second: seq<Option<Row>>)
    requires Accounts(size, snapshot, offset, first) && Accounts(size, snapshot, offset + |first|, second)
    ensures Accounts(size, snapshot, offset, first + second)
  {
    var all := first + second;
    forall i: nat | i < |all|
      ensures all[i] == Some(snapshot.rows[offset + i]) || (all[i] == None && Oversized(size, snapshot, offset + i))
    {
      if i >= |first| {
        assert all[i] == second[i - |first|];
        assert offset + |first| + (i - |first|) == offset + i;
      }
    }
  }

  lemma PageAccounts(size: Size, snapshot: Snapshot, offset: nat, page: Page)
    requires offset <= page.end <= |snapshot.rows|
    requires if page.omitted then page.end == offset + 1 && Oversized(size, snapshot, offset)
      else page.rows == snapshot.rows[offset..page.end]
    ensures |ShownBy(page)| == page.end - offset && Accounts(size, snapshot, offset, ShownBy(page))
  {}

  /** Followed to the end, the pages show every row once and in order, except rows too large for any page. */
  lemma {:induction false} PagesShowEveryRow(
    size: Size, snapshot: Snapshot, offset: nat, limits: nat -> nat, request: nat)
    requires offset <= |snapshot.rows| && forall n: nat :: limits(n) > 0
    requires Follow(size, snapshot, offset, limits, request).Some?
    ensures var shown := Follow(size, snapshot, offset, limits, request).value;
      offset + |shown| == |snapshot.rows| && Accounts(size, snapshot, offset, shown)
    decreases |snapshot.rows| - offset
  {
    RenderIsExact(size, snapshot, offset, limits(request));
    var page := Render(size, snapshot, offset, limits(request)).value;
    PageAccounts(size, snapshot, offset, page);
    if page.end < |snapshot.rows| {
      PagesShowEveryRow(size, snapshot, page.end, limits, request + 1);
      AccountsJoin(size, snapshot, offset, ShownBy(page),
                   Follow(size, snapshot, page.end, limits, request + 1).value);
    }
  }

  // ---- The cursor maps ----

  type Cursors = map<Token, (Token, nat)>
  type Offsets = map<(Token, nat), Token>

  /** Each map undoes the other. */
  ghost predicate Inverse(cursors: Cursors, offsets: Offsets) {
    && (forall c :: c in cursors ==> cursors[c] in offsets && offsets[cursors[c]] == c)
    && (forall at :: at in offsets ==> offsets[at] in cursors && cursors[offsets[at]] == at)
  }

  /** Every cursor leads to a row of a snapshot that is still there. */
  ghost predicate Live(cursors: Cursors, snapshots: map<Token, Snapshot>) {
    forall c :: c in cursors ==> cursors[c].0 in snapshots && cursors[c].1 < |snapshots[cursors[c].0].rows|
  }

  /** The cursors left when some snapshots go. */
  function Dropped(cursors: Cursors, ids: set<Token>): Cursors {
    map c | c in cursors && cursors[c].0 !in ids :: cursors[c]
  }

  lemma DroppedTwice(cursors: Cursors, ids: set<Token>, id: Token)
    ensures Dropped(Dropped(cursors, ids), {id}) == Dropped(cursors, ids + {id})
  {}

  /** Forgetting one more of the snapshots, seen from the state before any was forgotten. */
  lemma ForgetOneMore(order: seq<Token>, snapshots: map<Token, Snapshot>, cursors: Cursors, gone: set<Token>, id: Token)
    requires Lists(order, snapshots.Keys) && id in snapshots.Keys - gone
    ensures Without(Kept(order, snapshots.Keys - gone), id) == Kept(order, snapshots.Keys - (gone + {id}))
    ensures snapshots - gone - {id} == snapshots - (gone + {id})
    ensures Dropped(Dropped(cursors, gone), {id}) == Dropped(cursors, gone + {id})
  {
    KeptWithout(order, snapshots.Keys, snapshots.Keys - gone, id);
    assert snapshots.Keys - gone - {id} == snapshots.Keys - (gone + {id});
    DroppedTwice(cursors, gone, id);
  }

  lemma OneForgotten(order: seq<Token>, snapshots: map<Token, Snapshot>, id: Token)
    requires Lists(order, snapshots.Keys) && id in snapshots
    ensures Lists(Without(order, id), (snapshots - {id}).Keys) && |Without(order, id)| == |order| - 1
  {
    ListsWithout(order, snapshots.Keys, id);
    ListsMembers(order, snapshots.Keys);
    assert (snapshots - {id}).Keys == snapshots.Keys - {id};
    ListsMembers(Without(order, id), (snapshots - {id}).Keys);
  }

  lemma NothingForgotten(order: seq<Token>, snapshots: map<Token, Snapshot>, cursors: Cursors)
    requires Lists(order, snapshots.Keys)
    ensures Kept(order, snapshots.Keys - {}) == order && snapshots - {} == snapshots && Dropped(cursors, {}) == cursors
  {
    ListsMembers(order, snapshots.Keys);
    KeptAll(order, snapshots.Keys - {});
  }

  function Expired(snapshots: map<Token, Snapshot>, now: int): set<Token> {
    set id | id in snapshots && snapshots[id].expires <= now
  }

  /** The snapshots that are left are unchanged. */
  ghost predicate Survive(before: map<Token, Snapshot>, after: map<Token, Snapshot>) {
    forall id :: id in after ==> id in before && after[id] == before[id]
  }

  /** No cursor is lost or redirected. */
  ghost predicate Extends(before: Cursors, after: Cursors) {
    forall c :: c in before ==> c in after && after[c] == before[c]
  }

  /** The cursor returned with a page that ends at `end`: none after the last row. */
  ghost predicate PointsTo(cursors: Cursors, cursor: Option<Token>, id: Token, end: nat, count: nat) {
    && (cursor.Some? <==> end < count)
    && (cursor.Some? ==> cursor.value in cursors && cursors[cursor.value] == (id, end))
  }

  class Diagnostics {
    const maxSnapshots: nat
    const ttl: int
    const size: Size
    var order: seq<Token>
    var snapshots: map<Token, Snapshot>
    var cursors: Cursors
    var offsets: Offsets
    /** The next token to hand out. */
    var minted: Token

    ghost predicate Valid()
      reads this
    {
      && maxSnapshots > 0
      && Lists(order, snapshots.Keys)
      && Inverse(cursors, offsets) && Live(cursors, snapshots)
      && (forall c :: c in cursors ==> c < minted)
      && (forall id :: id in snapshots ==> id < minted)
    }

    constructor (limit: nat, lifetime: int, jsonSize: Size)
      requires limit > 0
      ensures Valid() && snapshots == map[] && cursors == map[] && maxSnapshots == limit
    {
      maxSnapshots, ttl, size := limit, lifetime, jsonSize;
      order, snapshots, cursors, offsets, minted := [], map[], map[], map[], 0;
    }

    method DropCursors(id: Token)
      requires Inverse(cursors, offsets)
      modifies `cursors, `offsets
      ensures Inverse(cursors, offsets)
      ensures cursors == Dropped(old(cursors), {id})
    {
      var todo := cursors.Keys;
      while todo != {}
        invariant todo <= old(cursors).Keys && todo <= cursors.Keys && Inverse(cursors, offsets)
        invariant cursors == map c | c in old(cursors) && (c in todo || old(cursors)[c].0 != id) :: old(cursors)[c]
      {
        var c :| c in todo;
        todo := todo - {c};
        if cursors[c].0 == id {
          offsets := offsets - {cursors[c]};
          cursors := cursors - {c};
        }
      }
    }

    /** Removes a snapshot with all its cursors. */
    method Forget(id: Token)
      requires Valid() && id in snapshots
      modifies `order, `snapshots, `cursors, `offsets
      ensures Valid() && snapshots == old(snapshots) - {id} && |order| == |old(order)| - 1
      ensures order == Without(old(order), id)
      ensures cursors == Dropped(old(cursors), {id})
    {
      OneForgotten(order, snapshots, id);
      order, snapshots := Without(order, id), snapshots - {id};
      DropCursors(id);
    }

    method Expire(now: int)
      requires Valid()
      modifies `order, `snapshots, `cursors, `offsets
      ensures Valid()
      ensures snapshots == old(snapshots) - Expired(old(snapshots), now)
      ensures order == Kept(old(order), snapshots.Keys)
      ensures cursors == Dropped(old(cursors), Expired(old(snapshots), now))
    {
      var todo := snapshots.Keys;
      ghost var gone: set<Token> := {};
      NothingForgotten(order, snapshots, cursors);
      while todo != {}
        invariant Valid() && todo <= snapshots.Keys
        invariant gone + todo <= old(snapshots).Keys && gone == Expired(old(snapshots), now) - todo
        invariant Left(old(order), old(snapshots), old(cursors), gone)
      {
        var id :| id in todo;
        todo := todo - {id};
        assert snapshots[id] == old(snapshots)[id];
        if snapshots[id].expires <= now {
          ForgetMore(id, old(order), old(snapshots), old(cursors), gone);
          gone := gone + {id};
        }
      }
      assert gone == Expired(old(snapshots), now);
      assert snapshots.Keys == old(snapshots).Keys - gone;
    }

    method ForgetMore(id: Token, ghost order0: seq<Token>, ghost snapshots0: map<Token, Snapshot>,
                      ghost cursors0: Cursors, ghost gone: set<Token>)
      requires Valid() && id in snapshots
      requires Lists(order0, snapshots0.Keys) && Left(order0, snapshots0, cursors0, gone)
      modifies `order, `snapshots, `cursors, `offsets
      ensures Valid() && Left(order0, snapshots0, cursors0, gone + {id})
    {
      ForgetOneMore(order0, snapshots0, cursors0, gone, id);
      Forget(id);
    }

    /** The state is that of before with some of the snapshots forgotten. */
    ghost predicate Left(order0: seq<Token>, snapshots0: map<Token, Snapshot>, cursors0: Cursors, gone: set<Token>)
      reads `order, `snapshots, `cursors
    {
      && order == Kept(order0, snapshots0.Keys - gone)
      && snapshots == snapshots0 - gone
      && cursors == Dropped(cursors0, gone)
    }

    /** The cursor for an offset, minted the first time that offset is reached; none past the last row. */
    method SetCursor(id: Token, offset: nat) returns (cursor: Option<Token>)
      requires Valid() && id in snapshots
      modifies `cursors, `offsets, `minted
      ensures Valid() && old(minted) <= minted
      ensures PointsTo(cursors, cursor, id, offset, |snapshots[id].rows|)
      ensures Extends(old(cursors), cursors)
    {
      if offset >= |snapshots[id].rows| {
        return None;
      }
      if (id, offset) in offsets {
        return Some(offsets[(id, offset)]);
      }
      cursor := Some(minted);
      offsets := offsets[(id, offset) := minted];
      cursors := cursors[minted := (id, offset)];
      minted := minted + 1;
    }

    /** Pops rows while the page is too large, keeping the cursor on the row behind the last one. */
    method PopRows(id: Token, offset: nat, limit: nat)
      returns (count: nat, shortened: bool, cursor: Option<Token>)
      requires Valid() && id in snapshots && offset <= |snapshots[id].rows|
      modifies `cursors, `offsets, `minted
      ensures Valid() && Extends(old(cursors), cursors)
      ensures PoppedTo(id, offset, limit, count, shortened, cursor)
      ensures count <= 1 || Fits(size, snapshots[id], offset, count, shortened)
    {
      var snapshot := snapshots[id];
      count := if offset + limit < |snapshot.rows| then limit else |snapshot.rows| - offset;
      shortened := false;
      cursor := SetCursor(id, offset + count);
      while count > 1 && !Fits(size, snapshot, offset, count, shortened)
        invariant Valid() && Extends(old(cursors), cursors)
        invariant PoppedTo(id, offset, limit, count, shortened, cursor)
        decreases count
      {
        cursor := PopRow(id, offset, limit, count, shortened, cursor);
        count, shortened := count - 1, true;
      }
    }

    method PopRow(id: Token, offset: nat, limit: nat, count: nat, ghost shortened: bool, ghost before: Option<Token>)
      returns (cursor: Option<Token>)
      requires Valid() && id in snapshots && offset <= |snapshots[id].rows|
      requires PoppedTo(id, offset, limit, count, shortened, before)
      requires count > 1 && !Fits(size, snapshots[id], offset, count, shortened)
      modifies `cursors, `offsets, `minted
      ensures Valid() && Extends(old(cursors), cursors)
      ensures PoppedTo(id, offset, limit, count - 1, true, cursor)
    {
      cursor := SetCursor(id, offset + count - 1);
    }

    /** Popping on from here gives the specified page, and the cursor is that of the row behind. */
    ghost predicate PoppedTo(id: Token, offset: nat, limit: nat, count: nat, shortened: bool, cursor: Option<Token>)
      requires id in snapshots && offset <= |snapshots[id].rows|
      reads `snapshots, `cursors
    {
      && offset + count <= |snapshots[id].rows|
      && PointsTo(cursors, cursor, id, offset + count, |snapshots[id].rows|)
      && Fit(size, snapshots[id], offset, count, shortened) == Render(size, snapshots[id], offset, limit)
    }

    /** The rows that fit; a single row that does not is left out with a warning. */
    method RenderPage(id: Token, offset: nat, limit: nat) returns (r: Result<(Page, Option<Token>), PageError>)
      requires Valid() && id in snapshots && offset <= |snapshots[id].rows|
      modifies `cursors, `offsets, `minted
      ensures Valid()
      ensures Extends(old(cursors), cursors)
      ensures match r
        case Err(e) => Render(size, snapshots[id], offset, limit) == Err(e)
        case Ok((page, cursor)) =>
          && Render(size, snapshots[id], offset, limit) == Ok(page)
          && PointsTo(cursors, cursor, id, page.end, |snapshots[id].rows|)
    {
      var snapshot := snapshots[id];
      var count, shortened, cursor := PopRows(id, offset, limit);
      if Fits(size, snapshot, offset, count, shortened) {
        return Ok((Plain(snapshot, offset, count, shortened), cursor));
      }
      if count == 0 {
        return Err(MetadataTooLarge);
      }
      var omitting := Page([], offset + 1, true, true);
      cursor := SetCursor(id, offset + 1);
      return if size(snapshot, omitting) > MAX_PAGE_BYTES then Err(MetadataTooLarge) else Ok((omitting, cursor));
    }

    /**
     * A first page: the rows become a new snapshot. Of the earlier ones those that have not expired stay,
     * the most recently used first, up to the limit.
     */
    method FirstPage(rows: seq<Row>, total: int, truncated: bool, limit: nat, now: int)
      returns (r: Result<(Page, Option<Token>), PageError>)
      requires Valid() && limit > 0
      modifies this
      ensures Valid()
      ensures var snapshot := Snapshot(rows, total, truncated, now + ttl);
        var recent := Kept(old(order), old(snapshots).Keys - Expired(old(snapshots), now)) + [old(minted)];
        && Survive(old(snapshots)[old(minted) := snapshot], snapshots) && old(minted) in snapshots
        && Back(order, recent) && |order| == (if |recent| <= maxSnapshots then |recent| else maxSnapshots)
      ensures Extends(Dropped(old(cursors), old(snapshots).Keys - snapshots.Keys), cursors)
      ensures FirstResult(r, Snapshot(rows, total, truncated, now + ttl), old(minted), limit)
    {
      Expire(now);
      var id := Store(Snapshot(rows, total, truncated, now + ttl));
      EvictOver(id);
      r := RenderPage(id, 0, limit);
    }

    /** The specified page of a snapshot, with a cursor to the row after it if there is one. */
    ghost predicate FirstResult(r: Result<(Page, Option<Token>), PageError>, snapshot: Snapshot, id: Token, limit: nat)
      reads `cursors
    {
      match r
      case Err(e) => Render(size, snapshot, 0, limit) == Err(e)
      case Ok((page, cursor)) =>
        && Render(size, snapshot, 0, limit) == Ok(page)
        && PointsTo(cursors, cursor, id, page.end, |snapshot.rows|)
    }

    method Store(snapshot: Snapshot) returns (id: Token)
      requires Valid()
      modifies `order, `snapshots, `minted
      ensures Valid() && id == old(minted) && order == old(order) + [id]
      ensures id !in old(snapshots) && snapshots == old(snapshots)[id := snapshot]
    {
      id := minted;
      minted := minted + 1;
      ListsAppend(order, snapshots.Keys, id);
      assert snapshots[id := snapshot].Keys == snapshots.Keys + {id};
      order, snapshots := order + [id], snapshots[id := snapshot];
    }

    /** Forgets the least recently used snapshots beyond the limit; the newest one always stays. */
    method EvictOver(newest: Token)
      requires Valid() && order != [] && order[|order| - 1] == newest
      modifies `order, `snapshots, `cursors, `offsets
      ensures Valid() && |order| == (if |old(order)| <= maxSnapshots then |old(order)| else maxSnapshots)
      ensures Back(order, old(order)) && order[|order| - 1] == newest
      ensures newest in snapshots && Survive(old(snapshots), snapshots)
      ensures cursors == Dropped(old(cursors), old(snapshots).Keys - snapshots.Keys)
    {
      ListsMembers(order, snapshots.Keys);
      assert newest in order && cursors == Dropped(cursors, {});
      assert snapshots.Keys - snapshots.Keys == {};
      while |order| > maxSnapshots
        invariant Valid() && (|order| == |old(order)| || |order| >= maxSnapshots)
        invariant Evicting(newest, old(order), old(snapshots), old(cursors))
        decreases |order|
      {
        ForgetOldest(newest, old(order), old(snapshots), old(cursors));
      }
    }

    /** A front part of the order is forgotten, with its snapshots and just their cursors. */
    ghost predicate Evicting(newest: Token, order0: seq<Token>, snapshots0: map<Token, Snapshot>, cursors0: Cursors)
      reads `order, `snapshots, `cursors
    {
      && order != [] && order[|order| - 1] == newest && Back(order, order0)
      && newest in snapshots && Survive(snapshots0, snapshots)
      && cursors == Dropped(cursors0, snapshots0.Keys - snapshots.Keys)
    }

    method ForgetOldest(newest: Token, ghost order0: seq<Token>, ghost snapshots0: map<Token, Snapshot>,
                        ghost cursors0: Cursors)
      requires Valid() && |order| > 1 && Evicting(newest, order0, snapshots0, cursors0)
      modifies `order, `snapshots, `cursors, `offsets
      ensures Valid() && |order| == |old(order)| - 1 && Evicting(newest, order0, snapshots0, cursors0)
    {
      var oldest := order[0];
      ListsMembers(order, snapshots.Keys);
      ListsMembers(order[1..], snapshots.Keys - {oldest});
      assert newest == order[1..][|order| - 2];
      BackTail(order, order0);
      DroppedTwice(cursors0, snapshots0.Keys - snapshots.Keys, oldest);
      assert snapshots0.Keys - (snapshots - {oldest}).Keys == snapshots0.Keys - snapshots.Keys + {oldest};
      Forget(oldest);
    }

    /**
     * The page a cursor leads to. A cursor is refused exactly when it was never issued or its snapshot has
     * expired or been evicted; the snapshot of a known cursor is always there.
     */
    method NextPage(cursor: Token, limit: nat, now: int) returns (r: Result<(Page, Option<Token>), PageError>)
      requires Valid() && limit > 0
      modifies this
      ensures Valid()
      ensures r == Err(BadCursor) <==> cursor !in old(cursors) || old(snapshots)[old(cursors)[cursor].0].expires <= now
      ensures snapshots == old(snapshots) - Expired(old(snapshots), now)
      ensures Extends(Dropped(old(cursors), Expired(old(snapshots), now)), cursors)
      ensures var recent := Kept(old(order), snapshots.Keys);
        order == if r == Err(BadCursor) then recent else
          Without(recent, old(cursors)[cursor].0) + [old(cursors)[cursor].0]
      ensures r != Err(BadCursor) ==>
        var (id, offset) := old(cursors)[cursor];
        && id in snapshots && snapshots[id] == old(snapshots)[id] && offset < |snapshots[id].rows|
        && (match r
            case Err(e) => Render(size, snapshots[id], offset, limit) == Err(e)
            case Ok((page, next)) =>
              && Render(size, snapshots[id], offset, limit) == Ok(page)
              && page.end > offset
              && PointsTo(cursors, next, id, page.end, |snapshots[id].rows|))
    {
      Expire(now);
      if cursor !in cursors {
        return Err(BadCursor);
      }
      var (id, offset) := cursors[cursor];
      MoveToEnd(id);
      r := RenderPage(id, offset, limit);
      if r.Ok? {
        RenderIsExact(size, snapshots[id], offset, limit);
      } else {
        RenderFails(size, snapshots[id], offset, limit);
      }
    }

    method MoveToEnd(id: Token)
      requires Valid() && id in snapshots
      modifies `order
      ensures Valid() && order == Without(old(order), id) + [id]
    {
      ListsWithout(order, snapshots.Keys, id);
      ListsAppend(Without(order, id), snapshots.Keys - {id}, id);
      assert snapshots.Keys - {id} + {id} == snapshots.Keys;
      order := Without(order, id) + [id];
    }
  }

  // ---- A client among others ----

  /** `id` is among the last `count` of the order. */
  ghost predicate Recent(order: seq<Token>, id: Token, count: nat) {
    exists i :: 0 <= i < |order| && order[i] == id && |order| - i <= count
  }

  lemma {:induction false} KeptRecent(order: seq<Token>, keys: set<Token>, id: Token, count: nat)
    requires Recent(order, id, count) && id in keys
    ensures Recent(Kept(order, keys), id, count) && |Kept(order, keys)| <= |order|
    decreases |order|
  {
    var i :| 0 <= i < |order| && order[i] == id && |order| - i <= count;
    KeptShorter(order, keys);
    if i == 0 {
      var j :| 0 <= j < |Kept(order, keys)| && Kept(order, keys)[j] == id;
    } else {
      assert order[1..][i - 1] == id;
      KeptRecent(order[1..], keys, id, count);
      var kept := Kept(order[1..], keys);
      var j :| 0 <= j < |kept| && kept[j] == id && |kept| - j <= count;
      if order[0] in keys {
        assert ([order[0]] + kept)[j + 1] == id;
      }
    }
  }

  lemma {:induction false} KeptShorter(order: seq<Token>, keys: set<Token>)
    ensures |Kept(order, keys)| <= |order|
    decreases |order|
  {
    if order != [] {
      KeptShorter(order[1..], keys);
    }
  }

  lemma AppendRecent(order: seq<Token>, id: Token, count: nat, other: Token)
    requires Recent(order, id, count)
    ensures Recent(order + [other], id, count + 1)
  {
    var i :| 0 <= i < |order| && order[i] == id && |order| - i <= count;
    assert (order + [other])[i] == id;
  }

  lemma {:induction false} BackRecent(part: seq<Token>, whole: seq<Token>, id: Token, count: nat)
    requires Back(part, whole) && Recent(whole, id, count) && (part == whole || count <= |part|)
    ensures Recent(part, id, count)
    decreases |whole|
  {
    if part != whole {
      BackShorter(part, whole[1..]);
      var i :| 0 <= i < |whole| && whole[i] == id && |whole| - i <= count;
      assert whole[1..][i - 1] == id;
      BackRecent(part, whole[1..], id, count);
    }
  }

  lemma {:induction false} BackShorter(part: seq<Token>, whole: seq<Token>)
    requires Back(part, whole)
    ensures |part| <= |whole| && (|part| == |whole| ==> part == whole)
    decreases |whole|
  {
    if part != whole {
      BackShorter(part, whole[1..]);
    }
  }

  /** A request of any client, for a first page or for the page a cursor leads to, and its time. */
  datatype Request =
    | First(rows: seq<Row>, total: int, cut: bool, limit: nat, now: int)
    | Next(cursor: Token, limit: nat, now: int)

  /** The snapshot is held, among the last `count` used. */
  ghost predicate Holds(d: Diagnostics, id: Token, snapshot: Snapshot, count: nat)
    reads d
  {
    id in d.snapshots && d.snapshots[id] == snapshot && Recent(d.order, id, count)
  }

  /** The cursors into one snapshot are the same and lead to the same rows. */
  ghost predicate KeepsCursorsOf(before: Cursors, after: Cursors, id: Token) {
    forall c :: c in before && before[c].0 == id ==> c in after && after[c] == before[c]
  }

  /** One request of anybody takes a snapshot at most one place down, and it stays while its place allows. */
  method Serve(d: Diagnostics, request: Request, ghost id: Token, ghost snapshot: Snapshot, ghost count: nat)
    requires d.Valid() && Holds(d, id, snapshot, count) && count < d.maxSnapshots
    requires request.limit > 0 && request.now < snapshot.expires
    modifies d
    ensures d.Valid() && Holds(d, id, snapshot, count + 1)
    ensures KeepsCursorsOf(old(d.cursors), d.cursors, id)
  {
    match request
    case First(rows, total, cut, limit, now) => ServeFirst(d, rows, total, cut, limit, now, id, snapshot, count);
    case Next(cursor, limit, now) => ServeNext(d, cursor, limit, now, id, snapshot, count);
  }

  method ServeFirst(d: Diagnostics, rows: seq<Row>, total: int, cut: bool, limit: nat, now: int,
                    ghost id: Token, ghost snapshot: Snapshot, ghost count: nat)
    requires d.Valid() && Holds(d, id, snapshot, count) && count < d.maxSnapshots
    requires limit > 0 && now < snapshot.expires
    modifies d
    ensures d.Valid() && Holds(d, id, snapshot, count + 1)
    ensures KeepsCursorsOf(old(d.cursors), d.cursors, id)
  {
    ghost var live := d.snapshots.Keys - Expired(d.snapshots, now);
    ghost var recent := Kept(d.order, live) + [d.minted];
    KeptRecent(d.order, live, id, count);
    AppendRecent(Kept(d.order, live), id, count, d.minted);
    var r := d.FirstPage(rows, total, cut, limit, now);
    BackShorter(d.order, recent);
    BackRecent(d.order, recent, id, count + 1);
    ListsMembers(d.order, d.snapshots.Keys);
  }

  method ServeNext(d: Diagnostics, cursor: Token, limit: nat, now: int,
                   ghost id: Token, ghost snapshot: Snapshot, ghost count: nat)
    requires d.Valid() && Holds(d, id, snapshot, count) && limit > 0 && now < snapshot.expires
    modifies d
    ensures d.Valid() && Holds(d, id, snapshot, count + 1)
    ensures KeepsCursorsOf(old(d.cursors), d.cursors, id)
  {
    ghost var order0: seq<Token>, keys0: set<Token> := d.order, d.snapshots.Keys;
    var r := d.NextPage(cursor, limit, now);
    ghost var live: set<Token> := d.snapshots.Keys;
    KeptRecent(order0, live, id, count);
    if r == Err(BadCursor) {
      WiderRecent(d.order, id, count);
    } else {
      UsedRecent(order0, keys0, live, old(d.cursors)[cursor].0, id, count);
    }
  }

  /** Using a snapshot takes any other at most one place down, among those that are kept. */
  lemma UsedRecent(order: seq<Token>, keys: set<Token>, live: set<Token>, used: Token, id: Token, count: nat)
    requires Lists(order, keys) && used in live && id in live && Recent(order, id, count)
    ensures Recent(Without(Kept(order, live), used) + [used], id, count + 1)
  {
    if used == id {
      LastIsRecent(Without(Kept(order, live), id), id, count);
    } else {
      KeptWithout(order, keys, live, used);
      KeptRecent(order, live - {used}, id, count);
      AppendRecent(Kept(order, live - {used}), id, count, used);
    }
  }

  lemma WiderRecent(order: seq<Token>, id: Token, count: nat)
    requires Recent(order, id, count)
    ensures Recent(order, id, count + 1)
  {
    var i :| 0 <= i < |order| && order[i] == id && |order| - i <= count;
  }

  lemma LastIsRecent(order: seq<Token>, id: Token, count: nat)
    ensures Recent(order + [id], id, count + 1)
  {
    assert (order + [id])[|order|] == id;
  }

  /** What happens up to a client's turn: requests of others, then its own next page. */
  datatype Turn = Turn(others: seq<Request>, limit: nat, now: int)

  /** Fewer requests in between than snapshots are kept, and all of them before the snapshot expires. */
  ghost predicate InTime(turn: Turn, maxSnapshots: nat, expires: int) {
    && |turn.others| < maxSnapshots && turn.limit > 0 && turn.now < expires
    && (forall request :: request in turn.others ==> request.limit > 0 && request.now < expires)
  }

  method ServeAll(d: Diagnostics, requests: seq<Request>, ghost id: Token, ghost snapshot: Snapshot)
    requires d.Valid() && Holds(d, id, snapshot, 1) && |requests| < d.maxSnapshots
    requires forall request :: request in requests ==> request.limit > 0 && request.now < snapshot.expires
    modifies d
    ensures d.Valid() && Holds(d, id, snapshot, |requests| + 1)
    ensures KeepsCursorsOf(old(d.cursors), d.cursors, id)
  {
    for i := 0 to |requests|
      invariant d.Valid() && Holds(d, id, snapshot, i + 1)
      invariant KeepsCursorsOf(old(d.cursors), d.cursors, id)
    {
      assert requests[i] in requests;
      Serve(d, requests[i], id, snapshot, i + 1);
    }
  }

  /**
   * A client that follows its cursors in time is never refused, whatever pages others ask for in between: it
   * is shown the rows behind its first cursor once each and in order, one at least a turn, up to the last.
   */
  method TurnPages(d: Diagnostics, first: Token, turns: seq<Turn>)
    returns (shown: seq<Option<Row>>, next: Option<Token>, error: Option<PageError>)
    requires d.Valid() && first in d.cursors && Recent(d.order, d.cursors[first].0, 1)
    requires forall turn :: turn in turns ==>
      InTime(turn, d.maxSnapshots, d.snapshots[d.cursors[first].0].expires)
    modifies d
    ensures d.Valid() && error != Some(BadCursor)
    ensures var (id, offset) := old(d.cursors)[first]; var snapshot := old(d.snapshots)[id];
      && Accounts(d.size, snapshot, offset, shown)
      && (error.Some? ==>
            exists turn :: turn in turns && Unrenderable(d.size, snapshot, offset + |shown|, turn.limit))
      && (error.None? && next.None? ==> offset + |shown| == |snapshot.rows|)
      && (next.Some? ==> |shown| >= |turns|)
  {
    ghost var (id, offset) := d.cursors[first];
    ghost var snapshot := d.snapshots[id];
    shown, next, error := [], Some(first), None;
    for i := 0 to |turns|
      invariant d.Valid() && Holds(d, id, snapshot, 1) && |shown| >= i
      invariant error.None? && next.Some? && Reads(d.size, d.cursors, id, snapshot, offset, shown, next)
    {
      assert turns[i] in turns;
      ServeAll(d, turns[i].others, id, snapshot);
      var r := TurnPage(d, next.value, turns[i].limit, turns[i].now, id, offset, shown, snapshot);
      match r
      case Err(e) => return shown, None, Some(e);
      case Ok((page, cursor)) =>
        shown, next := shown + ShownBy(page), cursor;
        if cursor.None? {
          return;
        }
    }
  }

  /** The rows from `offset` on have been shown, and the cursor leads on from there. */
  ghost predicate Reads(size: Size, cursors: Cursors, id: Token, snapshot: Snapshot, offset: nat,
                        shown: seq<Option<Row>>, next: Option<Token>)
  {
    && Accounts(size, snapshot, offset, shown)
    && PointsTo(cursors, next, id, offset + |shown|, |snapshot.rows|)
  }

  /** One turn adds the rows of its page to those shown, one at least. */
  method TurnPage(d: Diagnostics, cursor: Token, limit: nat, now: int,
                  ghost id: Token, ghost offset: nat, ghost shown: seq<Option<Row>>, ghost snapshot: Snapshot)
    returns (r: Result<(Page, Option<Token>), PageError>)
    requires d.Valid() && Reads(d.size, d.cursors, id, snapshot, offset, shown, Some(cursor))
    requires id in d.snapshots && d.snapshots[id] == snapshot && limit > 0 && now < snapshot.expires
    modifies d
    ensures d.Valid() && Holds(d, id, snapshot, 1) && r != Err(BadCursor)
    ensures r.Err? ==> Unrenderable(d.size, snapshot, offset + |shown|, limit)
    ensures r.Ok? ==>
      && ShownBy(r.value.0) != []
      && Reads(d.size, d.cursors, id, snapshot, offset, shown + ShownBy(r.value.0), r.value.1)
  {
    r := d.NextPage(cursor, limit, now);
    EndIsRecent(d.order, id);
    if r.Ok? {
      ReadsOn(d.size, d.cursors, id, snapshot, offset, shown, limit, r.value.1);
    } else {
      RenderFails(d.size, snapshot, offset + |shown|, limit);
    }
  }

  /** Not even a page without rows fits there. */
  predicate Unrenderable(size: Size, snapshot: Snapshot, offset: nat, limit: nat) {
    offset < |snapshot.rows| && Render(size, snapshot, offset, limit) == Err(MetadataTooLarge)
  }

  lemma EndIsRecent(order: seq<Token>, id: Token)
    ensures order != [] && order[|order| - 1] == id ==> Recent(order, id, 1)
  {
  }

  lemma ReadsOn(size: Size, cursors: Cursors, id: Token, snapshot: Snapshot, offset: nat, shown: seq<Option<Row>>,
                limit: nat, next: Option<Token>)
    requires Accounts(size, snapshot, offset, shown) && offset + |shown| < |snapshot.rows| && limit > 0
    requires Render(size, snapshot, offset + |shown|, limit).Ok?
    requires PointsTo(cursors, next, id, Render(size, snapshot, offset + |shown|, limit).value.end, |snapshot.rows|)
    ensures var page := Render(size, snapshot, offset + |shown|, limit).value;
      ShownBy(page) != [] && Reads(size, cursors, id, snapshot, offset, shown + ShownBy(page), next)
  {
    PageShows(size, snapshot, offset + |shown|, limit);
    AccountsJoin(size, snapshot, offset, shown, ShownBy(Render(size, snapshot, offset + |shown|, limit).value));
  }

  lemma PageShows(size: Size, snapshot: Snapshot, offset: nat, limit: nat)
    requires offset < |snapshot.rows| && limit > 0 && Render(size, snapshot, offset, limit).Ok?
    ensures var page := Render(size, snapshot, offset, limit).value; var shown := ShownBy(page);
      && Accounts(size, snapshot, offset, shown) && shown != []
      && offset + |shown| == page.end <= |snapshot.rows|
  {
    RenderIsExact(size, snapshot, offset, limit);
    PageAccounts(size, snapshot, offset, Render(size, snapshot, offset, limit).value);
  }

  lemma RenderFails(size: Size, snapshot: Snapshot, offset: nat, limit: nat)
    requires offset <= |snapshot.rows| && Render(size, snapshot, offset, limit).Err?
    ensures Render(size, snapshot, offset, limit).error == MetadataTooLarge
  {
    FitIsLargest(size, snapshot, offset, RowsFor(snapshot, offset, limit), false);
  }
}
