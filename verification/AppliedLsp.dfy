/** Reports of applied language-server definitions. */
module AppliedLsp {
  // A kernel numbers its definition changes and reports them over channels that may reorder, repeat and
  // delay; the manager keeps the newest of the current kernel.

  import opened Outcomes

  type Generation = string
  type Definitions = map<string, string>

  datatype Report = Report(generation: Option<Generation>, sequence: Option<int>, definitions: Definitions)

  /** `running` is the generation of the kernel that runs now; the others are what the last reports left. */
  datatype Manager = Manager(running: Generation, generation: Option<Generation>, sequence: int, applied: Definitions)

  // ---- The manager ----

  function Addressed(m: Manager, r: Report): Generation {
    if r.generation.Some? then r.generation.value
    else if m.generation.Some? then m.generation.value
    else m.running
  }

  /** Whether the report's sequence number was reached before. */
  predicate Old(m: Manager, r: Report) {
    r.sequence.Some? && m.generation == Some(Addressed(m, r)) && r.sequence.value <= m.sequence
  }

  predicate Accepts(m: Manager, r: Report) {
    && Addressed(m, r) == m.running
    && (r.sequence.Some? ==> r.sequence.value >= 0)
    && (Old(m, r) ==> r.sequence.value == m.sequence && m.applied == r.definitions)
  }

  function Record(m: Manager, r: Report): Manager {
    if !Accepts(m, r) || Old(m, r) then m
    else if r.sequence.Some? then
      m.(generation := Some(Addressed(m, r)), sequence := r.sequence.value, applied := r.definitions)
    else
      m.(generation := if m.generation.Some? then m.generation else Some(Addressed(m, r)), applied := r.definitions)
  }

  function Reset(m: Manager, generation: Generation): Manager {
    m.(generation := Some(generation), sequence := 0)
  }

  /**
   * What becomes of a report, whatever the manager has recorded: for another kernel, with a negative number or
   * with one that was passed it is refused; a repeated one is only acknowledged; any other is recorded.
   */
  lemma RecordsExactly(m: Manager, r: Report)
    ensures var kernel := if r.generation.Some? then r.generation else if m.generation.Some? then m.generation
                          else Some(m.running);
      var (after, known) := (Record(m, r), m.generation == kernel);
      if kernel != Some(m.running) || (r.sequence.Some? && r.sequence.value < 0) then !Accepts(m, r) && after == m
      else if r.sequence.None? then
        && Accepts(m, r) && after.applied == r.definitions && after.sequence == m.sequence
        && after.generation == (if m.generation.Some? then m.generation else kernel) && after.running == m.running
      else if !known || r.sequence.value > m.sequence then
        Accepts(m, r) && after == Manager(m.running, kernel, r.sequence.value, r.definitions)
      else
        after == m && (Accepts(m, r) <==> r.sequence.value == m.sequence && r.definitions == m.applied)
  {
  }

  // ---- Kernels, channels and runs ----

  /** A kernel is its history of definitions: its sequence number counts the changes so far. */
  type Kernel = h: seq<Definitions> | h != [] witness [map[]]

  function Latest(kernel: Kernel): nat {
    |kernel| - 1
  }

  /** `sent` holds every report ever made; `delivered` logs those that reached the manager, in order. */
  datatype System = System(
    manager: Manager,
    kernels: map<Generation, Kernel>,
    sent: set<Report>,
    delivered: seq<Report>)

  datatype Step =
    | Start(generation: Generation, initial: Definitions)
    | Change(kernel: Generation, definitions: Definitions)
    | Send(sender: Generation)
    | Deliver(report: Report)

  function Snapshot(generation: Generation, kernel: Kernel): Report {
    Report(Some(generation), Some(Latest(kernel)), kernel[Latest(kernel)])
  }

  /** A kernel starts under a fresh generation; the kernels of older ones may go on changing and sending. */
  function Act(s: System, step: Step): System {
    match step
    case Start(generation, initial) =>
      if generation in s.kernels then s
      else s.(manager := Reset(s.manager.(running := generation), generation),
              kernels := s.kernels[generation := [initial]])
    case Change(kernel, definitions) =>
      if kernel !in s.kernels then s
      else s.(kernels := s.kernels[kernel := s.kernels[kernel] + [definitions]])
    case Send(sender) =>
      if sender !in s.kernels then s
      else s.(sent := s.sent + {Snapshot(sender, s.kernels[sender])})
    case Deliver(report) =>
      if report !in s.sent then s
      else s.(manager := Record(s.manager, report), delivered := s.delivered + [report])
  }

  function Begin(m: Manager): System {
    System(m.(generation := None, sequence := 0), map[], {}, [])
  }

  function Run(s: System, steps: seq<Step>): System
    decreases |steps|
  {
    if steps == [] then s else Act(Run(s, steps[..|steps| - 1]), steps[|steps| - 1])
  }

  // ---- Convergence ----

  predicate Counts(r: Report, generation: Generation) {
    r.generation == Some(generation) && r.sequence.Some? && r.sequence.value > 0
  }

  /** The highest sequence number delivered for a generation, or 0. */
  function Highest(delivered: seq<Report>, generation: Generation): (n: nat)
    ensures forall r :: r in delivered && Counts(r, generation) ==> r.sequence.value <= n
    ensures n > 0 ==> exists r :: r in delivered && Counts(r, generation) && r.sequence.value == n
    decreases |delivered|
  {
    if delivered == [] then 0
    else
      var (earlier, last) := (Highest(delivered[..|delivered| - 1], generation), delivered[|delivered| - 1]);
      assert delivered == delivered[..|delivered| - 1] + [last];
      if Counts(last, generation) && last.sequence.value > earlier then last.sequence.value else earlier
  }

  /** A report says what its kernel's definitions were at that sequence number. */
  predicate Truthful(kernels: map<Generation, Kernel>, r: Report) {
    && r.generation.Some? && r.generation.value in kernels && r.sequence.Some?
    && 0 <= r.sequence.value <= Latest(kernels[r.generation.value])
    && r.definitions == kernels[r.generation.value][r.sequence.value]
  }

  ghost predicate Converged(s: System) {
    && (forall r :: r in s.sent ==> Truthful(s.kernels, r))
    && (forall r :: r in s.delivered ==> r in s.sent)
    && (s.kernels != map[] ==> s.manager.running in s.kernels && s.manager.generation == Some(s.manager.running))
    && Holds(s.manager, s.kernels, Highest(s.delivered, s.manager.running))
  }

  /** The manager holds the definitions of sequence number `n` of the running kernel, if there is one. */
  predicate Holds(m: Manager, kernels: map<Generation, Kernel>, n: nat) {
    && m.sequence == n
    && (n > 0 ==> m.running in kernels && n <= Latest(kernels[m.running]) && m.applied == kernels[m.running][n])
  }

  /** Once the running kernel's latest report has been delivered, the manager holds that kernel's definitions. */
  ghost predicate UpToDate(s: System) {
    s.manager.running in s.kernels ==>
      var kernel := s.kernels[s.manager.running];
      Latest(kernel) > 0 && Snapshot(s.manager.running, kernel) in s.delivered ==>
        s.manager.applied == kernel[Latest(kernel)]
  }

  lemma StartConverges(s: System, generation: Generation, initial: Definitions)
    requires Converged(s) && generation !in s.kernels
    ensures Converged(Act(s, Start(generation, initial)))
  {
    forall r | r in s.delivered ensures !Counts(r, generation) {
      assert Truthful(s.kernels, r);
    }
  }

  lemma ChangeConverges(s: System, kernel: Generation, definitions: Definitions)
    requires Converged(s) && kernel in s.kernels
    ensures Converged(Act(s, Change(kernel, definitions)))
  {
  }

  lemma DeliverConverges(s: System, report: Report)
    requires Converged(s) && report in s.sent
    ensures Converged(Act(s, Deliver(report)))
  {
    assert Truthful(s.kernels, report);
    var delivered := s.delivered + [report];
    assert delivered[..|delivered| - 1] == s.delivered;
  }

  lemma ActConverges(s: System, step: Step)
    requires Converged(s)
    ensures Converged(Act(s, step))
  {
    match step
    case Start(generation, initial) =>
      if generation !in s.kernels {
        StartConverges(s, generation, initial);
      }
    case Change(kernel, definitions) =>
      if kernel in s.kernels {
        ChangeConverges(s, kernel, definitions);
      }
    case Send(sender) =>
    case Deliver(report) =>
      if report in s.sent {
        DeliverConverges(s, report);
      }
  }

  /**
   * In every run, with any reordering, repetition, delay and stale reports, the manager holds exactly the
   * definitions of the highest sequence number delivered for the running kernel; once the kernel's latest
   * report has arrived, those are the kernel's own definitions.
   */
  lemma {:induction false} RunConverges(m: Manager, steps: seq<Step>)
    ensures Converged(Run(Begin(m), steps))
    ensures UpToDate(Run(Begin(m), steps))
    decreases |steps|
  {
    if steps != [] {
      RunConverges(m, steps[..|steps| - 1]);
      ActConverges(Run(Begin(m), steps[..|steps| - 1]), steps[|steps| - 1]);
    }
    LatestDelivered(Run(Begin(m), steps));
  }

  /** A change of the running kernel that is sent and arrives is what the manager holds from then on. */
  lemma ChangeArrives(m: Manager, steps: seq<Step>, definitions: Definitions)
    requires Run(Begin(m), steps).kernels != map[]
    ensures var s := Run(Begin(m), steps);
      var g := s.manager.running;
      g in s.kernels &&
      var kernel: Kernel := s.kernels[g] + [definitions];
      Run(Begin(m), steps + [Change(g, definitions)] + [Send(g)] + [Deliver(Snapshot(g, kernel))]).manager.applied
        == definitions
  {
    RunConverges(m, steps);
    var s := Run(Begin(m), steps);
    var g := s.manager.running;
    var kernel: Kernel := s.kernels[g] + [definitions];
    OneMoreStep(m, steps, Change(g, definitions));
    OneMoreStep(m, steps + [Change(g, definitions)], Send(g));
    OneMoreStep(m, steps + [Change(g, definitions)] + [Send(g)], Deliver(Snapshot(g, kernel)));
    var changed := Act(s, Change(g, definitions));
    assert changed.kernels[g] == kernel && changed.manager == s.manager;
    var sent := Act(changed, Send(g));
    assert Snapshot(g, kernel) in sent.sent && sent.manager == s.manager;
    RecordsExactly(s.manager, Snapshot(g, kernel));
  }

  lemma OneMoreStep(m: Manager, steps: seq<Step>, step: Step)
    ensures Run(Begin(m), steps + [step]) == Act(Run(Begin(m), steps), step)
  {
    assert (steps + [step])[..|steps|] == steps;
  }

  lemma LatestDelivered(s: System)
    requires Converged(s)
    ensures UpToDate(s)
  {
  }

  /** The manager acknowledges a report exactly when none newer of the running kernel has arrived before it. */
  lemma AcceptedExactlyIfNewest(s: System, report: Report)
    requires Converged(s) && report in s.sent && report.sequence.value > 0
    ensures Accepts(s.manager, report) <==>
      report.generation == Some(s.manager.running) &&
      report.sequence.value >= Highest(s.delivered, s.manager.running)
  {
    assert Truthful(s.kernels, report);
  }

  // ---- What the protocol rules out ----

  /**
   * Which reports for the running kernel keep the manager in agreement: a number that was reached before
   * changes nothing, a newer one must be truthful, and without a number only what the manager holds already
   * keeps it current. Every report the program's kernels send is numbered and truthful.
   */
  lemma ReportKeepsExactly(s: System, r: Report)
    requires Converged(s) && s.kernels != map[] && r.generation == Some(s.manager.running)
    requires r.sequence.Some? ==> r.sequence.value >= 0
    ensures r.sequence.Some? && r.sequence.value <= s.manager.sequence ==> Record(s.manager, r) == s.manager
    ensures r.sequence.Some? && r.sequence.value > s.manager.sequence ==>
      (Holds(Record(s.manager, r), s.kernels, r.sequence.value) <==> Truthful(s.kernels, r))
    ensures r.sequence.None? ==>
      (Holds(Record(s.manager, r), s.kernels, s.manager.sequence) <==>
        s.manager.sequence == 0 || r.definitions == s.manager.applied)
  {
  }

  /** Resetting the generation keeps the agreement exactly while no numbered report has been recorded for it. */
  lemma ResetKeepsExactly(s: System)
    requires Converged(s)
    ensures Holds(Reset(s.manager, s.manager.running), s.kernels, Highest(s.delivered, s.manager.running)) <==>
      s.manager.sequence == 0
  {
  }

  /** A stale report without a number replaces newer definitions, and repeating the newer report is refused. */
  lemma UnnumberedCanRegress(g: Generation, stale: Definitions, newer: Definitions)
    requires g != "" && stale != newer
    ensures var m := Record(Manager(g, Some(g), 0, map[]), Report(Some(g), Some(2), newer));
      var regressed := Record(m, Report(Some(g), None, stale));
      && m.applied == newer && regressed.applied == stale
      && !Accepts(regressed, Report(Some(g), Some(2), newer))
  {
  }

  /** A reset while the same kernel runs forgets how far it was, so an older report is taken again. */
  lemma ResetCanRegress(g: Generation, stale: Definitions, newer: Definitions)
    requires stale != newer
    ensures var m := Record(Manager(g, Some(g), 0, map[]), Report(Some(g), Some(2), newer));
      var stalest := Report(Some(g), Some(1), stale);
      && Record(m, stalest) == m && m.applied == newer
      && Record(Reset(m, g), stalest).applied == stale
  {
  }

  /** Whatever number the running kernel's first report carries, it is recorded. */
  ghost predicate AcceptsAnyFirst(m: Manager) {
    forall n: nat, definitions :: n > 0 ==>
      var r := Report(Some(m.running), Some(n), definitions);
      Accepts(m, r) && Record(m, r).applied == definitions && Record(m, r).sequence == n
  }

  // ---- The program's objects ----

  /** The manager's side. */
  class RuntimeConfig {
    var running: Generation
    var lspGeneration: Option<Generation>
    var lspSequence: int
    var applied: Definitions
    var config: Definitions

    ghost function State(): Manager
      reads this
    {
      Manager(running, lspGeneration, lspSequence, applied)
    }

    constructor (generation: Generation, definitions: Definitions)
      ensures State() == Begin(Manager(generation, None, 0, definitions)).manager && config == definitions
    {
      running, lspGeneration, lspSequence, applied, config := generation, None, 0, definitions, definitions;
    }

    method ResetLspGeneration(generation: Generation) returns (ok: bool)
      modifies `lspGeneration, `lspSequence
      ensures ok <==> generation != ""
      ensures State() == if ok then Reset(old(State()), generation) else old(State())
      ensures ok && generation == running ==> AcceptsAnyFirst(State())
    {
      if generation == "" {
        return false;
      }
      lspGeneration, lspSequence := Some(generation), 0;
      return true;
    }

    method RecordLsp(definitions: Definitions, sequence: Option<int>, generation: Option<Generation>)
      returns (recorded: bool)
      modifies `lspGeneration, `lspSequence, `applied
      ensures recorded <==> Accepts(old(State()), Report(generation, sequence, definitions))
      ensures State() == Record(old(State()), Report(generation, sequence, definitions))
    {
      var addressed :=
        if generation.Some? then generation.value
        else if lspGeneration.Some? then lspGeneration.value
        else running;
      if addressed != running {
        return false;
      }
      if sequence.Some? {
        if sequence.value < 0 {
          return false;
        }
        if lspGeneration == Some(addressed) && sequence.value <= lspSequence {
          return sequence.value == lspSequence && applied == definitions;
        }
        lspGeneration, lspSequence := Some(addressed), sequence.value;
      } else if lspGeneration.None? {
        lspGeneration := Some(addressed);
      }
      applied := definitions;
      return true;
    }

    /** A late reply is recorded only if it is complete: it names the running kernel and a valid number. */
    method ReconcileLateLsp(late: Report) returns (recorded: bool)
      modifies `lspGeneration, `lspSequence, `applied, `config
      ensures recorded <==>
        late.generation == Some(old(running)) && late.sequence.Some? && Accepts(old(State()), late)
      ensures State() == if recorded then Record(old(State()), late) else old(State())
      ensures config == if recorded then applied else old(config)
    {
      if late.generation != Some(running) || late.sequence.None? || late.sequence.value < 0 {
        return false;
      }
      recorded := RecordLsp(late.definitions, late.sequence, late.generation);
      if recorded {
        config := applied;
      }
    }

    /** A configuration reload: the kernel's reply says whether it applied the values and at which number. */
    method RecordReload(values: Definitions, kernelApplied: bool, sequence: Option<int>, generation: Option<Generation>)
      modifies `lspGeneration, `lspSequence, `applied, `config
      ensures State() ==
        if kernelApplied then Record(old(State()), Report(generation, sequence, values)) else old(State())
      ensures config == applied
    {
      if kernelApplied {
        var recorded := RecordLsp(values, sequence, generation);
        if recorded {
          applied := values;
        }
      }
      config := applied;
    }
  }

  /** The kernel's side: `changes` is the history its number counts. */
  class CodeTools {
    const generation: Generation
    var definitions: Definitions
    var sequence: nat
    ghost var changes: Kernel

    ghost predicate Valid()
      reads this
    {
      sequence == Latest(changes) && definitions == changes[sequence]
    }

    constructor (g: Generation, initial: Definitions)
      ensures Valid() && generation == g && changes == [initial]
    {
      generation, definitions, sequence, changes := g, initial, 0, [initial];
    }

    /** Saving one definition, or removing it, and applying a whole set both count as one change. */
    method Apply(desired: Definitions)
      requires Valid()
      modifies this
      ensures Valid() && changes == old(changes) + [desired]
    {
      definitions := desired;
      sequence := sequence + 1;
      changes := changes + [desired];
    }

    method ReportApplied() returns (report: Report)
      requires Valid()
      ensures report == Snapshot(generation, changes)
    {
      report := Report(Some(generation), Some(sequence), definitions);
    }
  }
}
