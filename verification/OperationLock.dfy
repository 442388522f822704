/**
 * The admission lock of a language server: who may use it, who waits, and how a replacement of the
 * server is reserved on one lock or on several at once.
 */
module OperationLock {
  import opened Outcomes

  type Task = nat

  /** `holder` and `waiters` are the fields of the underlying fair mutex. */
  datatype Lock = Lock(holder: Option<Task>, waiters: seq<Task>, admitted: int, replacing: bool)

  const FREE := Lock(None, [], 0, false)

  /** Everything that can happen to a lock; Wake hands a released mutex to the first waiter. */
  datatype Step =
    | Acquire(task: Task)
    | Wake
    | CancelWait(task: Task)
    | Release(task: Task)
    | Reserve(force: bool)
    | Unreserve

  function Remove(waiters: seq<Task>, task: Task): (r: seq<Task>)
    ensures |r| == if task in waiters then |waiters| - 1 else |waiters|
  {
    if waiters == [] then []
    else if waiters[0] == task then waiters[1..]
    else [waiters[0]] + Remove(waiters[1..], task)
  }

  lemma {:induction false} RemoveTakesOne(waiters: seq<Task>, task: Task)
    ensures multiset(Remove(waiters, task)) == multiset(waiters) - multiset{task}
  {
    if waiters != [] {
      assert waiters == [waiters[0]] + waiters[1..];
      RemoveTakesOne(waiters[1..], task);
    }
  }

  /** The state after a step and whether the caller got what it asked for. */
  function Take(lock: Lock, step: Step): (Lock, bool) {
    match step
    case Acquire(task) =>
      if lock.replacing then (lock, false)
      else if lock.holder.None? && lock.waiters == []
      then (lock.(holder := Some(task), admitted := lock.admitted + 1), true)
      else (lock.(waiters := lock.waiters + [task], admitted := lock.admitted + 1), true)
    case Wake =>
      if lock.holder.None? && lock.waiters != []
      then (lock.(holder := Some(lock.waiters[0]), waiters := lock.waiters[1..]), true)
      else (lock, false)
    case CancelWait(task) =>
      if task in lock.waiters
      then (lock.(waiters := Remove(lock.waiters, task), admitted := lock.admitted - 1), true)
      else (lock, false)
    case Release(task) =>
      if lock.holder == Some(task) then (lock.(holder := None, admitted := lock.admitted - 1), true)
      else (lock, false)
    case Reserve(force) =>
      if lock.replacing then (lock, true)
      else if lock.admitted != 0 && !force then (lock, false)
      else (lock.(replacing := true), true)
    case Unreserve => (lock.(replacing := false), true)
  }

  /** Everybody admitted, in the order of service: the holder, then the waiters. */
  function Line(lock: Lock): seq<Task> {
    if lock.holder.Some? then [lock.holder.value] + lock.waiters else lock.waiters
  }

  /** `admitted` counts the holder and the waiters. */
  predicate Counts(lock: Lock) {
    lock.admitted == |Line(lock)|
  }

  lemma {:induction false} RemoveIsFirst(waiters: seq<Task>, task: Task) returns (k: nat)
    requires task in waiters
    ensures k < |waiters| && waiters[k] == task && task !in waiters[..k]
    ensures Remove(waiters, task) == waiters[..k] + waiters[k + 1..]
  {
    k := 0;
    if waiters[0] != task {
      var rest := waiters[1..];
      var j := RemoveIsFirst(rest, task);
      k := j + 1;
      assert waiters[..k] == [waiters[0]] + rest[..j] && waiters[k + 1..] == rest[j + 1..];
      assert Remove(waiters, task) == [waiters[0]] + Remove(rest, task);
      assert [waiters[0]] + (rest[..j] + rest[j + 1..]) == waiters[..k] + waiters[k + 1..];
    } else {
      assert Remove(waiters, task) == waiters[1..];
    }
  }

  /** What each step is granted for, and all that it changes: the line, or whether a replacement is reserved. */
  lemma StepsExactly(lock: Lock, step: Step)
    requires Counts(lock)
    ensures var (after, ok) := Take(lock, step);
      && (!ok ==> after == lock)
      && (step.Reserve? || step.Unreserve? ==> after == lock.(replacing := after.replacing))
      && (!step.Reserve? && !step.Unreserve? ==> after.replacing == lock.replacing)
      && match step
         case Acquire(task) => (ok <==> !lock.replacing) && (ok ==> Line(after) == Line(lock) + [task])
         case Wake =>
           && (ok <==> lock.holder.None? && lock.waiters != [])
           && (ok ==> after.holder == Some(lock.waiters[0]) && Line(after) == Line(lock))
         case CancelWait(task) =>
           && (ok <==> task in lock.waiters)
           && (ok ==> after.holder == lock.holder && after.waiters == Remove(lock.waiters, task))
         case Release(task) => (ok <==> lock.holder == Some(task)) && (ok ==> Line(after) == Line(lock)[1..])
         case Reserve(force) =>
           (ok <==> lock.replacing || force || Line(lock) == []) && (after.replacing <==> lock.replacing || ok)
         case Unreserve => ok && !after.replacing
  {
  }

  /** Waking only passes the mutex on: who is admitted, and in which order, stays the same. */
  lemma WakeKeepsLine(lock: Lock)
    ensures Line(Take(lock, Wake).0) == Line(lock)
  {
  }

  /** Without force, and unless it is reserved already, a lock is reserved exactly when nobody is admitted. */
  lemma ReserveNeedsIdle(lock: Lock)
    requires Counts(lock) && !lock.replacing
    ensures Take(lock, Reserve(false)).1 <==> Line(lock) == []
  {
  }

  // ---- Several servers under any interleaving ----

  /** One step on one of the locks, or an all-or-nothing reservation of some of them. */
  datatype Action = On(lock: nat, step: Step) | ReserveAll(targets: seq<nat>, force: bool)

  predicate Busy(lock: Lock, force: bool) {
    !Take(lock, Reserve(force)).1
  }

  /** The names of the refusing locks, in order. */
  function BusyAt(locks: seq<Lock>, force: bool, n: nat): seq<nat>
    requires n <= |locks|
  {
    if n == 0 then []
    else if Busy(locks[n - 1], force) then BusyAt(locks, force, n - 1) + [n - 1]
    else BusyAt(locks, force, n - 1)
  }

  function GrantedAt(locks: seq<Lock>, force: bool, n: nat): seq<nat>
    requires n <= |locks|
  {
    if n == 0 then []
    else if Busy(locks[n - 1], force) then GrantedAt(locks, force, n - 1)
    else GrantedAt(locks, force, n - 1) + [n - 1]
  }

  lemma {:induction false} BusyOrGranted(locks: seq<Lock>, force: bool, n: nat)
    requires n <= |locks|
    ensures forall i: nat :: i in BusyAt(locks, force, n) <==> i < n && Busy(locks[i], force)
    ensures forall i: nat :: i in GrantedAt(locks, force, n) <==> i < n && !Busy(locks[i], force)
  {
    if n > 0 {
      BusyOrGranted(locks, force, n - 1);
    }
  }

  /** What a reservation of several locks leaves of one of them. */
  function Reserved(lock: Lock, force: bool, refused: bool): Lock {
    var marked := Take(lock, Reserve(force)).0;
    if refused && !Busy(lock, force) then Take(marked, Unreserve).0 else marked
  }

  /** Marks what it can; if any lock refused, every lock that granted is unmarked again. */
  function ReserveServers(locks: seq<Lock>, force: bool): (r: (seq<Lock>, seq<nat>))
    ensures |r.0| == |locks|
  {
    var busy := BusyAt(locks, force, |locks|);
    (seq(|locks|, i requires 0 <= i < |locks| => Reserved(locks[i], force, busy != [])), busy)
  }

  predicate InRange(locks: seq<Lock>, targets: seq<nat>) {
    forall i :: 0 <= i < |targets| ==> targets[i] < |locks|
  }

  function Chosen(locks: seq<Lock>, targets: seq<nat>): seq<Lock>
    requires InRange(locks, targets)
  {
    seq(|targets|, i requires 0 <= i < |targets| => locks[targets[i]])
  }

  /** Whether a reservation of the targets is refused; a target outside the locks names no server. */
  predicate Refused(locks: seq<Lock>, targets: seq<nat>, force: bool) {
    exists t :: t in targets && t < |locks| && Busy(locks[t], force)
  }

  function Act(locks: seq<Lock>, action: Action): (r: seq<Lock>)
    ensures |r| == |locks|
  {
    match action
    case On(i, step) => if i < |locks| then locks[i := Take(locks[i], step).0] else locks
    case ReserveAll(targets, force) =>
      seq(|locks|, i requires 0 <= i < |locks| =>
        if i in targets then Reserved(locks[i], force, Refused(locks, targets, force)) else locks[i])
  }

  /** In a run, reserving some of the locks is the reservation pass over just these, and touches no other. */
  lemma ReservationOfTargets(locks: seq<Lock>, targets: seq<nat>, force: bool)
    requires InRange(locks, targets)
    ensures var after := Act(locks, ReserveAll(targets, force));
      && Chosen(after, targets) == ReserveServers(Chosen(locks, targets), force).0
      && (forall i :: 0 <= i < |locks| && i !in targets ==> after[i] == locks[i])
    ensures Refused(locks, targets, force) <==> ReserveServers(Chosen(locks, targets), force).1 != []
  {
    RefusedIsBusy(locks, targets, force);
    var after := Act(locks, ReserveAll(targets, force));
    forall k | 0 <= k < |targets|
      ensures Chosen(after, targets)[k] == ReserveServers(Chosen(locks, targets), force).0[k]
    {
      assert targets[k] in targets;
    }
  }

  lemma RefusedIsBusy(locks: seq<Lock>, targets: seq<nat>, force: bool)
    requires InRange(locks, targets)
    ensures Refused(locks, targets, force) <==> BusyAt(Chosen(locks, targets), force, |targets|) != []
  {
    var chosen := Chosen(locks, targets);
    var busy := BusyAt(chosen, force, |targets|);
    BusyOrGranted(chosen, force, |targets|);
    if Refused(locks, targets, force) {
      var t :| t in targets && t < |locks| && Busy(locks[t], force);
      var k :| 0 <= k < |targets| && targets[k] == t;
      assert Busy(chosen[k], force) && k in busy;
    }
    if busy != [] {
      assert busy[0] in busy && Busy(locks[targets[busy[0]]], force);
    }
  }

  function Run(locks: seq<Lock>, actions: seq<Action>): (r: seq<Lock>)
    ensures |r| == |locks|
    decreases |actions|
  {
    if actions == [] then locks else Run(Act(locks, actions[0]), actions[1..])
  }

  /** A run takes its actions one after the other. */
  lemma {:induction false} RunTakesAll(locks: seq<Lock>, actions: seq<Action>, more: seq<Action>, action: Action)
    ensures Run(locks, actions + more) == Run(Run(locks, actions), more)
    ensures Run(locks, [action]) == Act(locks, action)
    decreases |actions|
  {
    assert [action][1..] == [];
    if actions == [] {
      assert actions + more == more;
    } else {
      assert (actions + more)[1..] == actions[1..] + more;
      RunTakesAll(Act(locks, actions[0]), actions[1..], more, action);
    }
  }

  lemma TakeKeepsCount(lock: Lock, step: Step)
    requires Counts(lock)
    ensures Counts(Take(lock, step).0)
  {}

  lemma ActKeepsCount(locks: seq<Lock>, action: Action)
    requires forall lock :: lock in locks ==> Counts(lock)
    ensures forall lock :: lock in Act(locks, action) ==> Counts(lock)
  {
    var next := Act(locks, action);
    forall i | 0 <= i < |next| ensures Counts(next[i]) {
      assert locks[i] in locks;
      match action
      case On(_, step) => TakeKeepsCount(locks[i], step);
      case ReserveAll(_, force) => TakeKeepsCount(locks[i], Reserve(force));
    }
  }

  /** In every interleaving, every lock counts exactly its holder and its waiters. */
  lemma {:induction false} RunKeepsCount(locks: seq<Lock>, actions: seq<Action>)
    requires forall lock :: lock in locks ==> Counts(lock)
    ensures forall lock :: lock in Run(locks, actions) ==> Counts(lock)
    decreases |actions|
  {
    if actions != [] {
      ActKeepsCount(locks, actions[0]);
      RunKeepsCount(Act(locks, actions[0]), actions[1..]);
    }
  }

  /**
   * With no reservation held, a reservation without force either marks every lock, and then all are idle,
   * or changes no lock; which of the two depends only on whether some lock has an admitted operation.
   */
  lemma ReserveAllOrNothing(locks: seq<Lock>)
    requires forall lock :: lock in locks ==> !lock.replacing
    ensures var (after, busy) := ReserveServers(locks, false);
      && (busy == [] <==> forall lock :: lock in locks ==> lock.admitted == 0)
      && (busy == [] ==> forall i :: 0 <= i < |locks| ==> after[i] == locks[i].(replacing := true))
      && (busy != [] ==> after == locks)
  {
    var (after, busy) := ReserveServers(locks, false);
    BusyOrGranted(locks, false, |locks|);
    assert forall i :: 0 <= i < |locks| ==> locks[i] in locks;
    if busy == [] {
      forall lock | lock in locks ensures lock.admitted == 0 {
        var i :| 0 <= i < |locks| && locks[i] == lock;
        assert i !in busy;
      }
    } else {
      assert busy[0] in busy;
      assert Busy(locks[busy[0]], false);
    }
  }

  /**
   * In general a refused reservation gives every lock back as it was exactly when no lock was already
   * reserved: the unmarking also drops a reservation somebody else had made before.
   */
  lemma RefusalRestoresExactly(locks: seq<Lock>, force: bool)
    requires ReserveServers(locks, force).1 != []
    ensures ReserveServers(locks, force).0 == locks <==> forall lock :: lock in locks ==> !lock.replacing
  {
    var after := ReserveServers(locks, force).0;
    BusyOrGranted(locks, force, |locks|);
    assert forall i :: 0 <= i < |locks| ==> locks[i] in locks;
    forall i | 0 <= i < |locks| ensures after[i] == locks[i] <==> !locks[i].replacing {}
    if after != locks {
      var i :| 0 <= i < |locks| && after[i] != locks[i];
    }
  }

  lemma RefusalCanDropAReservation()
    ensures var locks := [FREE.(replacing := true), Lock(Some(0), [], 1, false)];
      && ReserveServers(locks, false) == ([FREE, locks[1]], [1])
  {
    var locks := [FREE.(replacing := true), Lock(Some(0), [], 1, false)];
    assert BusyAt(locks, false, 1) == BusyAt(locks, false, 0) == [];
    assert BusyAt(locks, false, 2) == [1];
    assert ReserveServers(locks, false).0 == [FREE, locks[1]];
  }

  /** What gives up the reservation of lock `i`: unreserving it, or a refused reservation that includes it. */
  predicate Releases(locks: seq<Lock>, action: Action, i: nat) {
    match action
    case On(lock, step) => lock == i && step == Unreserve
    case ReserveAll(targets, force) => i in targets && Refused(locks, targets, force)
  }

  /** No step of the run gives up the reservation of lock `i`. */
  predicate Keeps(locks: seq<Lock>, actions: seq<Action>, i: nat)
    decreases |actions|
  {
    actions != [] ==> !Releases(locks, actions[0], i) && Keeps(Act(locks, actions[0]), actions[1..], i)
  }

  /**
   * From a reservation on, until it is given up, no operation is admitted there: the number of admitted
   * operations never grows, so an idle lock stays idle and every acquire is refused.
   */
  lemma {:induction false} ReservedAdmitsNobody(locks: seq<Lock>, actions: seq<Action>, i: nat)
    requires i < |locks| && Counts(locks[i]) && locks[i].replacing
    requires Keeps(locks, actions, i)
    ensures var after := Run(locks, actions)[i];
      && Counts(after) && after.replacing && after.admitted <= locks[i].admitted
      && (forall task :: !Take(after, Acquire(task)).1)
      && (locks[i].admitted == 0 ==> after == locks[i])
    decreases |actions|
  {
    if actions != [] {
      ReservedAdmitsNobody(Act(locks, actions[0]), actions[1..], i);
    }
  }

  /** Where every lock is reserved and idle, nothing but an explicit unreserve changes anything. */
  lemma {:induction false} AllReservedStays(locks: seq<Lock>, actions: seq<Action>)
    requires forall i :: 0 <= i < |locks| ==> Counts(locks[i]) && locks[i].replacing && locks[i].admitted == 0
    requires forall action :: action in actions ==> !(action.On? && action.step == Unreserve)
    ensures Run(locks, actions) == locks
    decreases |actions|
  {
    if actions != [] {
      assert actions[0] in actions;
      assert Act(locks, actions[0]) == locks;
      AllReservedStays(locks, actions[1..]);
    }
  }

  /**
   * Replacing servers: with none of the targets reserved, an unforced reservation succeeds exactly when all
   * of them are idle; then, through any interleaving, each target stays idle and reserved and refuses every
   * acquire until it is unreserved or a refused reservation includes it. A refusal changes no lock.
   */
  lemma ReservationHolds(locks: seq<Lock>, targets: seq<nat>)
    requires forall t :: t in targets ==> t < |locks| && Counts(locks[t]) && !locks[t].replacing
    ensures Refused(locks, targets, false) <==> exists t :: t in targets && Line(locks[t]) != []
    ensures Refused(locks, targets, false) ==> Act(locks, ReserveAll(targets, false)) == locks
    ensures !Refused(locks, targets, false) ==> forall actions, t :: t in targets ==>
      HoldsThrough(locks, Act(locks, ReserveAll(targets, false)), actions, t)
  {
    var after := Act(locks, ReserveAll(targets, false));
    if Refused(locks, targets, false) {
      assert after == locks;
    } else {
      forall actions, t | t in targets ensures HoldsThrough(locks, after, actions, t) {
        assert !Busy(locks[t], false);
        if Keeps(after, actions, t) {
          ReservedAdmitsNobody(after, actions, t);
        }
      }
    }
  }

  ghost predicate HoldsThrough(before: seq<Lock>, reserved: seq<Lock>, actions: seq<Action>, i: nat)
    requires i < |before| == |reserved|
  {
    Keeps(reserved, actions, i) ==>
      && Run(reserved, actions)[i] == before[i].(replacing := true)
      && Line(Run(reserved, actions)[i]) == []
      && (forall task :: !Take(Run(reserved, actions)[i], Acquire(task)).1)
  }

  // ---- The program's object ----

  class ServerLock {
    var holder: Option<Task>
    var waiters: seq<Task>
    var admitted: int
    var replacing: bool

    function State(): Lock
      reads this
    {
      Lock(holder, waiters, admitted, replacing)
    }

    constructor ()
      ensures State() == FREE
    {
      holder, waiters, admitted, replacing := None, [], 0, false;
    }

    /** Enters the queue; the caller waits unless it holds the mutex at once. */
    method Acquire(task: Task) returns (ok: bool)
      modifies this
      ensures (State(), ok) == Take(old(State()), Step.Acquire(task))
      ensures ok ==> Line(State()) == old(Line(State())) + [task]
      ensures !ok ==> old(replacing) && State() == old(State())
      ensures old(Counts(State())) ==> Counts(State())
    {
      if replacing {
        return false;
      }
      admitted := admitted + 1;
      if holder.None? && waiters == [] {
        holder := Some(task);
      } else {
        waiters := waiters + [task];
      }
      return true;
    }

    method CancelWait(task: Task)
      requires task in waiters
      modifies this
      ensures State() == Take(old(State()), Step.CancelWait(task)).0
      ensures holder == old(holder) && multiset(waiters) == multiset(old(waiters)) - multiset{task}
      ensures old(Counts(State())) ==> Counts(State())
    {
      RemoveTakesOne(waiters, task);
      waiters := Remove(waiters, task);
      admitted := admitted - 1;
    }

    method Release(task: Task)
      requires holder == Some(task)
      modifies this
      ensures State() == Take(old(State()), Step.Release(task)).0
      ensures Line(State()) == old(Line(State()))[1..]
      ensures old(Counts(State())) ==> Counts(State())
    {
      holder := None;
      admitted := admitted - 1;
    }

    method ReserveReplacement(force: bool) returns (ok: bool)
      modifies `replacing
      ensures (State(), ok) == Take(old(State()), Reserve(force))
    {
      if replacing {
        return true;
      }
      if admitted != 0 && !force {
        return false;
      }
      replacing := true;
      return true;
    }

    method ReleaseReplacement()
      modifies `replacing
      ensures State() == Take(old(State()), Unreserve).0
    {
      replacing := false;
    }
  }

  ghost function States(targets: seq<ServerLock>): (r: seq<Lock>)
    reads targets
    ensures |r| == |targets| && forall i :: 0 <= i < |r| ==> r[i] == targets[i].State()
  {
    seq(|targets|, i requires 0 <= i < |targets| reads targets => targets[i].State())
  }

  method MarkTargets(targets: seq<ServerLock>, force: bool, ghost before: seq<Lock>)
    returns (reserved: seq<nat>, busy: seq<nat>)
    requires forall i, j :: 0 <= i < j < |targets| ==> targets[i] != targets[j]
    requires |before| == |targets| && forall k :: 0 <= k < |targets| ==> targets[k].State() == before[k]
    modifies targets
    ensures forall k :: 0 <= k < |targets| ==> targets[k].State() == Take(before[k], Reserve(force)).0
    ensures busy == BusyAt(before, force, |targets|)
    ensures reserved == GrantedAt(before, force, |targets|)
  {
    reserved, busy := [], [];
    for i := 0 to |targets|
      invariant busy == BusyAt(before, force, i) && reserved == GrantedAt(before, force, i)
      invariant forall k :: 0 <= k < i ==> targets[k].State() == Take(before[k], Reserve(force)).0
      invariant forall k :: i <= k < |targets| ==> targets[k].State() == before[k]
    {
      assert targets[i].State() == before[i];
      var ok := targets[i].ReserveReplacement(force);
      assert ok == !Busy(before[i], force);
      if ok {
        reserved := reserved + [i];
      } else {
        busy := busy + [i];
      }
    }
  }

  method UnmarkTargets(targets: seq<ServerLock>, reserved: seq<nat>)
    requires forall i, j :: 0 <= i < j < |targets| ==> targets[i] != targets[j]
    requires forall i :: i in reserved ==> i < |targets|
    modifies targets
    ensures forall k: nat :: k < |targets| ==>
      targets[k].State() ==
        if k in reserved then Take(old(States(targets))[k], Unreserve).0 else old(States(targets))[k]
  {
    ghost var before := States(targets);
    for j := 0 to |reserved|
      invariant forall k: nat :: k < |targets| ==>
        targets[k].State() == if k in reserved[..j] then Take(before[k], Unreserve).0 else before[k]
    {
      assert reserved[j] in reserved;
      targets[reserved[j]].ReleaseReplacement();
      assert reserved[..j + 1] == reserved[..j] + [reserved[j]];
    }
    assert reserved[..|reserved|] == reserved;
  }

  method ReserveTargets(targets: seq<ServerLock>, force: bool) returns (busy: seq<nat>)
    requires forall i, j :: 0 <= i < j < |targets| ==> targets[i] != targets[j]
    modifies targets
    ensures (States(targets), busy) == ReserveServers(old(States(targets)), force)
  {
    ghost var before := States(targets);
    var reserved;
    reserved, busy := MarkTargets(targets, force, before);
    BusyOrGranted(before, force, |before|);
    if busy != [] {
      UnmarkTargets(targets, reserved);
    }
    assert States(targets) == ReserveServers(before, force).0;
  }
}
