/** Compiling a WorkspaceEdit into file operations, and replaying them. */
module WorkspaceEdit {
  // The compiler keeps a virtual file map and shortens its list as it goes: a text edit to a path that an
  // earlier operation already produced overwrites the contents stored in that operation.

  import opened Outcomes

  type Path = string
  type Bytes = seq<bv8>
  type Hash = string

  /** An LSP text edit as it arrives on the wire. */
  datatype TextEdit = TextEdit(startLine: int, startCharacter: int, endLine: int, endCharacter: int, newText: string)

  /** The digest function, and the text-edit function with decoding failures as None. */
  datatype Library = Library(digest: Bytes -> Hash, rewrite: (Bytes, seq<TextEdit>) -> Option<Bytes>)

  ghost predicate Injective(lib: Library) {
    forall a, b :: lib.digest(a) == lib.digest(b) ==> a == b
  }

  function Sha(lib: Library, data: Option<Bytes>): Option<Hash> {
    match data
    case None => None
    case Some(bytes) => Some(lib.digest(bytes))
  }

  // ---- Disks and the effect a WorkspaceEdit is meant to have ----

  /** What sits at a path; a path outside the map is absent. */
  datatype Entry = File(data: Bytes) | Unreadable

  type Disk = map<Path, Entry>
  type Files = map<Path, Option<Bytes>>

  datatype EditError =
    | Malformed | UnsupportedOptions | UnreadablePath | StaleDocument | BadVersion | StaleVersion
    | MissingTarget | TargetExists | BadTextEdit | EmptyEdit | StalePlan

  function ReadBytes(disk: Disk, path: Path): Result<Option<Bytes>, EditError> {
    if path !in disk then Ok(None)
    else match disk[path]
      case File(data) => Ok(Some(data))
      case Unreadable => Err(UnreadablePath)
  }

  /** One decoded member of `documentChanges`, or of `changes` (an Edit without version). */
  datatype Change =
    | Bad
    | Create(path: Path, overwrites: bool)
    | Delete(path: Path, overwrites: bool)
    | Rename(source: Path, destination: Path, overwrites: bool)
    | Edit(path: Path, edits: seq<TextEdit>, version: Option<int>)

  /** The plain meaning of one change: it acts on the whole disk at once. */
  function Interpret1(lib: Library, disk: Disk, change: Change): Result<Disk, EditError> {
    match change
    case Bad => Err(Malformed)
    case Create(path, overwrites) =>
      if overwrites then Err(UnsupportedOptions) else
      var data :- ReadBytes(disk, path);
      if data.Some? then Err(TargetExists) else Ok(disk[path := File([])])
    case Delete(path, overwrites) =>
      if overwrites then Err(UnsupportedOptions) else
      var data :- ReadBytes(disk, path);
      if data.None? then Err(MissingTarget) else Ok(disk - {path})
    case Rename(source, destination, overwrites) =>
      if overwrites then Err(UnsupportedOptions) else
      var data :- ReadBytes(disk, source);
      if data.None? then Err(MissingTarget) else
      var target :- ReadBytes(disk, destination);
      if target.Some? then Err(TargetExists) else Ok((disk - {source})[destination := File(data.value)])
    case Edit(path, edits, _) =>
      var data :- ReadBytes(disk, path);
      if data.None? then Err(MissingTarget) else
      var data' := lib.rewrite(data.value, edits);
      if data'.None? then Err(BadTextEdit) else Ok(disk[path := File(data'.value)])
  }

  /** The plain meaning of a list of changes: one at a time, in order. */
  function Interpret(lib: Library, disk: Disk, changes: seq<Change>): Result<Disk, EditError> {
    if changes == [] then Ok(disk)
    else
      var before :- Interpret(lib, disk, changes[..|changes| - 1]);
      Interpret1(lib, before, changes[|changes| - 1])
  }

  /** The disk once every path of `files` has been given its new contents. */
  function Overlay(disk: Disk, files: Files): Disk {
    map path | path in disk.Keys + files.Keys && (path in files ==> files[path].Some?) ::
      if path in files then File(files[path].value) else disk[path]
  }

  // ---- The compiler ----

  datatype Kind = CreateFile | UpdateFile | DeleteFile | RenameFile

  datatype Operation = Operation(
    kind: Kind,
    path: Path,
    oldData: Option<Bytes>,
    newData: Option<Bytes>,
    expected: Option<Hash>,
    source: Option<Path>,
    sourceData: Option<Bytes>)

  /** What the compiler reads: the disk, the requested revisions and the open documents. */
  datatype Request = Request(
    lib: Library,
    disk: Disk,
    preconditions: map<Path, Option<Hash>>,
    documents: set<(Path, int)>)

  datatype Plan = Plan(files: Files, operations: seq<Operation>)

  const EMPTY_PLAN := Plan(map[], [])

  function State(r: Request, plan: Plan, path: Path): Result<Plan, EditError> {
    if path in plan.files then Ok(plan) else
    var data :- ReadBytes(r.disk, path);
    if path in r.preconditions && Sha(r.lib, data) != r.preconditions[path] then Err(StaleDocument)
    else Ok(plan.(files := plan.files[path := data]))
  }

  function VersionError(r: Request, path: Path, version: Option<int>): Option<EditError> {
    if version.None? then None
    else if version.value < 0 then Some(BadVersion)
    else if exists d :: d in r.documents && d.0 == path && d.1 != version.value then Some(StaleVersion)
    else None
  }

  /** The operation, found from the end, whose contents a text edit to `path` overwrites. */
  function CoalesceAt(operations: seq<Operation>, path: Path): (r: Option<nat>)
    ensures r.Some? ==> r.value < |operations|
  {
    if operations == [] then None else
    var n := |operations| - 1;
    var last := operations[n];
    if last.kind == RenameFile && last.source == Some(path) then None
    else if last.path != path then CoalesceAt(operations[..n], path)
    else if last.kind == DeleteFile then None
    else Some(n)
  }

  function CompileEdit(r: Request, before: Plan, path: Path, edits: seq<TextEdit>, version: Option<int>)
    : Result<Plan, EditError>
  {
    var plan :- State(r, before, path);
    var current := plan.files[path];
    if current.None? then Err(MissingTarget) else
    var versionError := VersionError(r, path, version);
    if versionError.Some? then Err(versionError.value) else
    var data := r.lib.rewrite(current.value, edits);
    if data.None? then Err(BadTextEdit) else
    var files := plan.files[path := data];
    match CoalesceAt(plan.operations, path)
    case Some(i) => Ok(Plan(files, plan.operations[i := plan.operations[i].(newData := data)]))
    case None => Ok(Plan(files, plan.operations
      + [Operation(UpdateFile, path, current, data, Sha(r.lib, current), None, None)]))
  }

  function Compile1(r: Request, before: Plan, change: Change): Result<Plan, EditError> {
    match change
    case Bad => Err(Malformed)
    case Create(path, overwrites) =>
      if overwrites then Err(UnsupportedOptions) else
      var plan :- State(r, before, path);
      if plan.files[path].Some? then Err(TargetExists) else
      Ok(Plan(plan.files[path := Some([])],
        plan.operations + [Operation(CreateFile, path, None, Some([]), None, None, None)]))
    case Delete(path, overwrites) =>
      if overwrites then Err(UnsupportedOptions) else
      var plan :- State(r, before, path);
      var data := plan.files[path];
      if data.None? then Err(MissingTarget) else
      Ok(Plan(plan.files[path := None],
        plan.operations + [Operation(DeleteFile, path, data, None, Sha(r.lib, data), None, None)]))
    case Rename(source, destination, overwrites) =>
      if overwrites then Err(UnsupportedOptions) else
      var first :- State(r, before, source);
      var data := first.files[source];
      if data.None? then Err(MissingTarget) else
      var plan :- State(r, first, destination);
      if plan.files[destination].Some? then Err(TargetExists) else
      Ok(Plan(plan.files[source := None][destination := data],
        plan.operations + [Operation(RenameFile, destination, None, data, None, Some(source), data)]))
    case Edit(path, edits, version) => CompileEdit(r, before, path, edits, version)
  }

  function Compile(r: Request, changes: seq<Change>): Result<Plan, EditError> {
    if changes == [] then Ok(EMPTY_PLAN)
    else
      var before :- Compile(r, changes[..|changes| - 1]);
      Compile1(r, before, changes[|changes| - 1])
  }

  // ---- The staleness check that replays a plan against the disk ----

  function Load(disk: Disk, files: Files, path: Path): Result<Files, EditError> {
    if path in files then Ok(files) else
    var data :- ReadBytes(disk, path);
    Ok(files[path := data])
  }

  function Replay1(lib: Library, disk: Disk, before: Files, op: Operation): Result<Files, EditError> {
    if op.kind == RenameFile && op.source.Some? then
      var source := op.source.value;
      var first :- Load(disk, before, source);
      var files :- Load(disk, first, op.path);
      if files[source] != op.sourceData || files[op.path].Some? then Err(StalePlan)
      else Ok(files[source := None][op.path := op.newData])
    else
      var files :- Load(disk, before, op.path);
      if Sha(lib, files[op.path]) != op.expected then Err(StalePlan)
      else Ok(files[op.path := op.newData])
  }

  function Replay(lib: Library, disk: Disk, operations: seq<Operation>): Result<Files, EditError> {
    if operations == [] then Ok(map[])
    else
      var before :- Replay(lib, disk, operations[..|operations| - 1]);
      Replay1(lib, disk, before, operations[|operations| - 1])
  }

  predicate Mentions(op: Operation, path: Path) {
    op.path == path || (op.kind == RenameFile && op.source == Some(path))
  }

  /** The shape of the operations the compiler emits. */
  predicate Formed(lib: Library, op: Operation) {
    match op.kind
    case CreateFile => op.oldData.None? && op.expected.None? && op.source.None? && op.newData.Some?
    case UpdateFile => op.oldData.Some? && op.expected == Sha(lib, op.oldData) && op.source.None? && op.newData.Some?
    case DeleteFile => op.oldData.Some? && op.expected == Sha(lib, op.oldData) && op.source.None? && op.newData.None?
    case RenameFile =>
      op.oldData.None? && op.expected.None? && op.source.Some? && op.sourceData.Some? && op.newData.Some?
  }

  // ---- Coalescing keeps the meaning of a plan ----

  /** An operation that does not mention a path commutes with an assignment to that path. */
  lemma Replay1Commutes(lib: Library, disk: Disk, files: Files, op: Operation, path: Path, data: Option<Bytes>)
    requires !Mentions(op, path) && path in files
    requires Replay1(lib, disk, files, op).Ok?
    ensures Replay1(lib, disk, files, op).value.Keys >= files.Keys
    ensures Replay1(lib, disk, files, op).value[path] == files[path]
    ensures Replay1(lib, disk, files[path := data], op)
         == Ok(Replay1(lib, disk, files, op).value[path := data])
  {
    if op.kind == RenameFile && op.source.Some? {
      RenameCommutes(lib, disk, files, op, path, data);
    } else {
      LoadCommutes(disk, files, op.path, path, data);
      assert Replay1(lib, disk, files[path := data], op).value == Replay1(lib, disk, files, op).value[path := data];
    }
  }

  lemma LoadCommutes(disk: Disk, files: Files, loaded: Path, path: Path, data: Option<Bytes>)
    requires loaded != path && path in files && Load(disk, files, loaded).Ok?
    ensures Load(disk, files[path := data], loaded) == Ok(Load(disk, files, loaded).value[path := data])
    ensures var after := Load(disk, files, loaded).value;
      after.Keys == files.Keys + {loaded} && after[path] == files[path]
  {
    assert Load(disk, files[path := data], loaded).value == Load(disk, files, loaded).value[path := data];
  }

  lemma RenameCommutes(lib: Library, disk: Disk, files: Files, op: Operation, path: Path, data: Option<Bytes>)
    requires op.kind == RenameFile && op.source.Some? && !Mentions(op, path) && path in files
    requires Replay1(lib, disk, files, op).Ok?
    ensures Replay1(lib, disk, files, op).value.Keys >= files.Keys
    ensures Replay1(lib, disk, files, op).value[path] == files[path]
    ensures Replay1(lib, disk, files[path := data], op)
         == Ok(Replay1(lib, disk, files, op).value[path := data])
  {
    var source := op.source.value;
    var first := Load(disk, files, source).value;
    LoadCommutes(disk, files, source, path, data);
    LoadCommutes(disk, first, op.path, path, data);
    AssignCommutes(Load(disk, first, op.path).value, source, None, path, data);
    AssignCommutes(Load(disk, first, op.path).value[source := None], op.path, op.newData, path, data);
  }

  lemma AssignCommutes(files: Files, p: Path, a: Option<Bytes>, q: Path, b: Option<Bytes>)
    requires p != q
    ensures files[q := b][p := a] == files[p := a][q := b]
  {
  }

  /** Overwriting the contents of the operation found by CoalesceAt changes the replay at that path only. */
  lemma {:induction false} CoalesceKeepsReplay(
    lib: Library, disk: Disk, operations: seq<Operation>, path: Path, data: Bytes)
    requires forall op :: op in operations ==> Formed(lib, op)
    requires Replay(lib, disk, operations).Ok?
    requires var files := Replay(lib, disk, operations).value; path in files && files[path].Some?
    ensures CoalesceAt(operations, path).Some?
    ensures
      var i := CoalesceAt(operations, path).value;
      var files := Replay(lib, disk, operations).value;
      && Replay(lib, disk, operations[i := operations[i].(newData := Some(data))]) == Ok(files[path := Some(data)])
      && Formed(lib, operations[i].(newData := Some(data)))
  {
    var n := |operations| - 1;
    var last, prefix := operations[n], operations[..n];
    var before := Replay(lib, disk, prefix).value;
    assert last in operations;
    if Mentions(last, path) {
      var changed := operations[n := last.(newData := Some(data))];
      assert changed[..n] == prefix;
      assert Replay1(lib, disk, before, last.(newData := Some(data))).value
          == Replay1(lib, disk, before, last).value[path := Some(data)];
    } else {
      assert path in before;
      Replay1Commutes(lib, disk, before, last, path, Some(data));
      CoalesceKeepsReplay(lib, disk, prefix, path, data);
      var i := CoalesceAt(prefix, path).value;
      var op' := operations[i].(newData := Some(data));
      assert operations[i := op'][..n] == prefix[i := op'];
    }
  }

  lemma Replay1Loads(lib: Library, disk: Disk, files: Files, op: Operation, path: Path)
    requires Formed(lib, op) && Replay1(lib, disk, files, op).Ok?
    ensures path in Replay1(lib, disk, files, op).value <==> path in files || Mentions(op, path)
  {
  }

  /** The replay loads exactly the paths its operations mention. */
  lemma {:induction false} ReplayLoadsMentionedPaths(
    lib: Library, disk: Disk, operations: seq<Operation>, path: Path)
    requires forall op :: op in operations ==> Formed(lib, op)
    requires Replay(lib, disk, operations).Ok?
    ensures path in Replay(lib, disk, operations).value <==> exists op :: op in operations && Mentions(op, path)
  {
    if operations != [] {
      var n := |operations| - 1;
      var last, prefix := operations[n], operations[..n];
      ReplayLoadsMentionedPaths(lib, disk, prefix, path);
      assert last in operations;
      Replay1Loads(lib, disk, Replay(lib, disk, prefix).value, last, path);
      assert operations == prefix + [last];
    }
  }

  lemma {:induction false} UnmentionedPathIsNotCoalesced(operations: seq<Operation>, path: Path)
    requires forall op :: op in operations ==> !Mentions(op, path)
    ensures CoalesceAt(operations, path).None?
  {
    if operations != [] {
      assert operations[|operations| - 1] in operations;
      UnmentionedPathIsNotCoalesced(operations[..|operations| - 1], path);
    }
  }

  /** What every compiled prefix of a WorkspaceEdit satisfies. */
  ghost predicate Faithful(r: Request, changes: seq<Change>, plan: Plan) {
    && (forall op :: op in plan.operations ==> Formed(r.lib, op))
    && Replay(r.lib, r.disk, plan.operations) == Ok(plan.files)
    && Interpret(r.lib, r.disk, changes) == Ok(Overlay(r.disk, plan.files))
    && Recorded(r, plan.files)
  }

  /** Every path read so far could be read and was what the request expects. */
  ghost predicate Recorded(r: Request, files: Files) {
    forall path :: path in files ==> ReadBytes(r.disk, path).Ok? && MeetsPrecondition(r, path)
  }

  /** What the request itself must satisfy for a change to be accepted. */
  predicate Admissible(r: Request, change: Change) {
    match change
    case Bad => true
    case Create(path, _) => MeetsPrecondition(r, path)
    case Delete(path, _) => MeetsPrecondition(r, path)
    case Rename(source, destination, _) => MeetsPrecondition(r, source) && MeetsPrecondition(r, destination)
    case Edit(path, _, version) => MeetsPrecondition(r, path) && IsCurrent(r, path, version)
  }

  /** A version sent with an edit is not negative and is that of the document, wherever the path is open. */
  predicate IsCurrent(r: Request, path: Path, version: Option<int>) {
    version.Some? ==> version.value >= 0 && forall d :: d in r.documents && d.0 == path ==> d.1 == version.value
  }

  predicate MeetsPrecondition(r: Request, path: Path) {
    path in r.preconditions && ReadBytes(r.disk, path).Ok? ==>
      Sha(r.lib, ReadBytes(r.disk, path).value) == r.preconditions[path]
  }

  /** Reading a path through the plan is reading it from the disk the plan stands for. */
  lemma StateReadsOverlay(r: Request, plan: Plan, path: Path)
    requires Recorded(r, plan.files)
    ensures State(r, plan, path).Ok? <==> ReadBytes(Overlay(r.disk, plan.files), path).Ok? && MeetsPrecondition(r, path)
    ensures State(r, plan, path).Ok? ==>
      var next := State(r, plan, path).value;
      && Overlay(r.disk, next.files) == Overlay(r.disk, plan.files)
      && ReadBytes(Overlay(r.disk, plan.files), path) == Ok(next.files[path])
      && (path !in plan.files ==> Load(r.disk, plan.files, path) == Ok(next.files))
  {
    if State(r, plan, path).Ok? {
      assert Overlay(r.disk, State(r, plan, path).value.files) == Overlay(r.disk, plan.files);
    }
  }

  lemma OverlayAssign(disk: Disk, files: Files, path: Path, data: Option<Bytes>)
    ensures data.Some? ==> Overlay(disk, files[path := data]) == Overlay(disk, files)[path := File(data.value)]
    ensures data.None? ==> Overlay(disk, files[path := data]) == Overlay(disk, files) - {path}
  {}

  /** One change is accepted by the compiler exactly when its plain meaning is defined and it is admissible. */
  lemma Compile1Accepts(r: Request, plan: Plan, change: Change)
    requires Recorded(r, plan.files)
    ensures Compile1(r, plan, change).Ok?
       <==> Interpret1(r.lib, Overlay(r.disk, plan.files), change).Ok? && Admissible(r, change)
  {
    match change
    case Bad =>
    case Create(path, _) => StateReadsOverlay(r, plan, path);
    case Delete(path, _) => StateReadsOverlay(r, plan, path);
    case Edit(path, _, _) => StateReadsOverlay(r, plan, path);
    case Rename(source, destination, _) =>
      StateReadsOverlay(r, plan, source);
      StateReadsOverlay(r, plan, destination);
      if State(r, plan, source).Ok? {
        StateTwice(r, plan, source, destination);
      }
  }

  /** A text edit fails with the first of these reasons that holds, on the disk as the plan has left it. */
  lemma EditFailsExactly(r: Request, plan: Plan, path: Path, edits: seq<TextEdit>, version: Option<int>)
    requires Recorded(r, plan.files)
    ensures var read := ReadBytes(Overlay(r.disk, plan.files), path);
      var (result, meets) := (Compile1(r, plan, Edit(path, edits, version)), MeetsPrecondition(r, path));
      && (result == Err(UnreadablePath) <==> read.Err?)
      && (result == Err(StaleDocument) <==> read.Ok? && !meets)
      && (result == Err(MissingTarget) <==> read == Ok(None) && meets)
      && (read.Ok? && meets && read.value.Some? ==>
            && (result == Err(BadVersion) <==> version.Some? && version.value < 0)
            && (result == Err(StaleVersion) <==> version.Some? && version.value >= 0 && !IsCurrent(r, path, version))
            && (result == Err(BadTextEdit) <==>
                  IsCurrent(r, path, version) && r.lib.rewrite(read.value.value, edits).None?))
  {
    StateReadsOverlay(r, plan, path);
    StateFailsExactly(r, plan, path);
  }

  lemma StateFailsExactly(r: Request, plan: Plan, path: Path)
    requires Recorded(r, plan.files)
    ensures State(r, plan, path).Err? ==>
      State(r, plan, path).error == if ReadBytes(Overlay(r.disk, plan.files), path).Err? then UnreadablePath
                                    else StaleDocument
  {
    StateReadsOverlay(r, plan, path);
  }

  /**
   * Any other change that the request admits fails as its plain meaning does, and one that it does not admit
   * fails because a document has changed wherever its plain meaning is defined.
   */
  lemma ChangeFailsExactly(r: Request, plan: Plan, change: Change)
    requires Recorded(r, plan.files) && !change.Edit?
    ensures var (result, plain) := (Compile1(r, plan, change), Interpret1(r.lib, Overlay(r.disk, plan.files), change));
      && (Admissible(r, change) && result.Err? ==> plain == Err(result.error))
      && (!Admissible(r, change) && plain.Ok? ==> result == Err(StaleDocument))
  {
    Compile1Accepts(r, plan, change);
    match change
    case Bad =>
    case Create(path, _) => StateReadsOverlay(r, plan, path); StateFailsExactly(r, plan, path);
    case Delete(path, _) => StateReadsOverlay(r, plan, path); StateFailsExactly(r, plan, path);
    case Rename(source, destination, _) => RenameFailsExactly(r, plan, source, destination);
  }

  lemma RenameFailsExactly(r: Request, plan: Plan, source: Path, destination: Path)
    requires Recorded(r, plan.files)
    ensures var change := Rename(source, destination, false);
      var (result, plain) := (Compile1(r, plan, change), Interpret1(r.lib, Overlay(r.disk, plan.files), change));
      && (Admissible(r, change) && result.Err? ==> plain == Err(result.error))
      && (!Admissible(r, change) && plain.Ok? ==> result == Err(StaleDocument))
  {
    StateReadsOverlay(r, plan, source);
    StateReadsOverlay(r, plan, destination);
    StateFailsExactly(r, plan, source);
    StateFailsExactly(r, plan, destination);
    if State(r, plan, source).Ok? {
      var first := State(r, plan, source).value;
      StateTwice(r, plan, source, destination);
      RecordedAfter(r, plan, source);
      StateReadsOverlay(r, first, destination);
      StateFailsExactly(r, first, destination);
    }
  }

  lemma RecordedAfter(r: Request, plan: Plan, path: Path)
    requires Recorded(r, plan.files) && State(r, plan, path).Ok?
    ensures Recorded(r, State(r, plan, path).value.files)
  {
  }

  /** Reading one path does not change what another reads as. */
  lemma StateTwice(r: Request, plan: Plan, first: Path, second: Path)
    requires State(r, plan, first).Ok?
    ensures var next := State(r, plan, first).value;
      && (State(r, next, second).Ok? <==> State(r, plan, second).Ok?)
      && (State(r, next, second).Ok? ==>
            State(r, next, second).value.files[second] == State(r, plan, second).value.files[second])
  {}

  lemma NewPathIsNotCoalesced(r: Request, changes: seq<Change>, plan: Plan, path: Path)
    requires Faithful(r, changes, plan) && path !in plan.files
    ensures CoalesceAt(plan.operations, path).None?
    ensures forall op :: op in plan.operations ==> !Mentions(op, path)
  {
    ReplayLoadsMentionedPaths(r.lib, r.disk, plan.operations, path);
    UnmentionedPathIsNotCoalesced(plan.operations, path);
  }

  lemma EditCompilesToItsReplay(r: Request, changes: seq<Change>, plan: Plan, change: Change)
    requires Faithful(r, changes, plan) && change.Edit? && Compile1(r, plan, change).Ok?
    ensures var next := Compile1(r, plan, change).value;
      && (forall op :: op in next.operations ==> Formed(r.lib, op))
      && Replay(r.lib, r.disk, next.operations) == Ok(next.files)
  {
    var path := change.path;
    var next := Compile1(r, plan, change).value;
    if path in plan.files {
      CoalesceKeepsReplay(r.lib, r.disk, plan.operations, path, next.files[path].value);
    } else {
      NewPathIsNotCoalesced(r, changes, plan, path);
      EditAppends(r, plan, change);
      var n := |plan.operations|;
      assert next.operations[..n] == plan.operations && next.operations[n] == next.operations[|next.operations| - 1];
    }
  }

  lemma EditAppends(r: Request, plan: Plan, change: Change)
    requires change.Edit? && Compile1(r, plan, change).Ok?
    requires change.path !in plan.files && CoalesceAt(plan.operations, change.path).None?
    ensures var next := Compile1(r, plan, change).value;
      && |next.operations| == |plan.operations| + 1
      && next.operations[..|plan.operations|] == plan.operations
      && var op := next.operations[|plan.operations|];
      && op.kind == UpdateFile && op.path == change.path && Formed(r.lib, op)
      && Ok(op.oldData) == ReadBytes(r.disk, op.path)
      && Replay1(r.lib, r.disk, plan.files, op) == Ok(next.files)
  {
  }

  lemma EditIsInterpreted(r: Request, plan: Plan, change: Change)
    requires Recorded(r, plan.files) && change.Edit? && Compile1(r, plan, change).Ok?
    ensures Interpret1(r.lib, Overlay(r.disk, plan.files), change)
         == Ok(Overlay(r.disk, Compile1(r, plan, change).value.files))
  {
    StateReadsOverlay(r, plan, change.path);
    var middle := State(r, plan, change.path).value;
    OverlayAssign(r.disk, middle.files, change.path, Compile1(r, plan, change).value.files[change.path]);
  }

  lemma OtherChangeIsInterpreted(r: Request, plan: Plan, change: Change)
    requires Recorded(r, plan.files) && !change.Edit? && Compile1(r, plan, change).Ok?
    ensures Interpret1(r.lib, Overlay(r.disk, plan.files), change)
         == Ok(Overlay(r.disk, Compile1(r, plan, change).value.files))
  {
    match change
    case Bad =>
    case Edit(_, _, _) =>
    case Create(path, _) =>
      StateReadsOverlay(r, plan, path);
      OverlayAssign(r.disk, State(r, plan, path).value.files, path, Some([]));
    case Delete(path, _) =>
      StateReadsOverlay(r, plan, path);
      OverlayAssign(r.disk, State(r, plan, path).value.files, path, None);
    case Rename(source, destination, _) =>
      RenameIsInterpreted(r, plan, change);
  }

  lemma RenameIsInterpreted(r: Request, plan: Plan, change: Change)
    requires Recorded(r, plan.files) && change.Rename? && Compile1(r, plan, change).Ok?
    ensures Interpret1(r.lib, Overlay(r.disk, plan.files), change)
         == Ok(Overlay(r.disk, Compile1(r, plan, change).value.files))
  {
    var source, destination := change.source, change.destination;
    StateReadsOverlay(r, plan, source);
    StateReadsOverlay(r, plan, destination);
    StateTwice(r, plan, source, destination);
    var first := State(r, plan, source).value;
    var both := State(r, first, destination).value;
    assert Overlay(r.disk, both.files) == Overlay(r.disk, first.files);
    OverlayAssign(r.disk, both.files, source, None);
    OverlayAssign(r.disk, both.files[source := None], destination, first.files[source]);
  }

  /** Unlike text edits, the other changes append exactly one operation. */
  lemma AppendedOperation(r: Request, changes: seq<Change>, plan: Plan, change: Change)
    requires Faithful(r, changes, plan) && !change.Edit? && Compile1(r, plan, change).Ok?
    ensures var next := Compile1(r, plan, change).value;
      && (forall op :: op in next.operations ==> Formed(r.lib, op))
      && Replay(r.lib, r.disk, next.operations) == Ok(next.files)
  {
    var next := Compile1(r, plan, change).value;
    var n := |plan.operations|;
    AppendedOperationReplays(r, plan, change);
    assert next.operations[..n] == plan.operations;
    assert next.operations[n] == next.operations[|next.operations| - 1];
  }

  lemma AppendedOperationReplays(r: Request, plan: Plan, change: Change)
    requires !change.Edit? && Compile1(r, plan, change).Ok?
    ensures var next := Compile1(r, plan, change).value;
      && |next.operations| == |plan.operations| + 1
      && next.operations[..|plan.operations|] == plan.operations
      && var op := next.operations[|plan.operations|];
      && Formed(r.lib, op)
      && Replay1(r.lib, r.disk, plan.files, op) == Ok(next.files)
  {
    match change
    case Bad =>
    case Edit(_, _, _) =>
    case Create(path, _) =>
    case Delete(path, _) =>
    case Rename(source, destination, _) =>
      var next := Compile1(r, plan, change).value;
      var op := next.operations[|plan.operations|];
      assert Replay1(r.lib, r.disk, plan.files, op).Ok?;
  }

  lemma Compile1IsFaithful(r: Request, changes: seq<Change>, plan: Plan, change: Change)
    requires Faithful(r, changes, plan) && Compile1(r, plan, change).Ok?
    ensures Faithful(r, changes + [change], Compile1(r, plan, change).value)
  {
    var next := Compile1(r, plan, change).value;
    assert (changes + [change])[..|changes|] == changes;
    if change.Edit? {
      EditCompilesToItsReplay(r, changes, plan, change);
      EditIsInterpreted(r, plan, change);
    } else {
      AppendedOperation(r, changes, plan, change);
      OtherChangeIsInterpreted(r, plan, change);
    }
    ReadsAreRecorded(r, plan, change);
  }

  lemma ReadsAreRecorded(r: Request, plan: Plan, change: Change)
    requires Compile1(r, plan, change).Ok?
    requires Recorded(r, plan.files)
    ensures Recorded(r, Compile1(r, plan, change).value.files)
  {}

  /**
   * A WorkspaceEdit compiles exactly when its plain meaning is defined on the disk and the request
   * admits each change; the shortened plan then passes every staleness check on that disk and
   * leaves exactly the files the plain meaning leaves.
   */
  lemma {:induction false} CompileRefinesInterpret(r: Request, changes: seq<Change>)
    ensures Compile(r, changes).Ok?
       <==> Interpret(r.lib, r.disk, changes).Ok? && forall change :: change in changes ==> Admissible(r, change)
    ensures Compile(r, changes).Ok? ==> Faithful(r, changes, Compile(r, changes).value)
  {
    if changes == [] {
      assert Overlay(r.disk, map[]) == r.disk;
    } else {
      var n := |changes| - 1;
      var prefix, last := changes[..n], changes[n];
      assert changes == prefix + [last];
      CompileRefinesInterpret(r, prefix);
      if Compile(r, prefix).Ok? {
        var plan := Compile(r, prefix).value;
        Compile1Accepts(r, plan, last);
        if Compile1(r, plan, last).Ok? {
          Compile1IsFaithful(r, prefix, plan, last);
        }
      }
    }
  }

  // ---- When a plan made for one disk is accepted on another ----

  predicate Agree(left: Disk, right: Disk, files: Files) {
    forall path :: path in files ==> ReadBytes(left, path) == ReadBytes(right, path)
  }

  lemma Replay1Pins(lib: Library, left: Disk, right: Disk, files: Files, op: Operation)
    requires Injective(lib) && Formed(lib, op) && Replay1(lib, left, files, op).Ok?
    requires Agree(left, right, files)
    ensures var after := Replay1(lib, left, files, op).value;
      && (forall path :: path in files ==> path in after)
      && (Replay1(lib, right, files, op).Ok? <==> Agree(left, right, after))
      && (Replay1(lib, right, files, op).Ok? ==> Replay1(lib, right, files, op).value == after)
  {
    if op.kind == RenameFile {
      RenamePins(lib, left, right, files, op);
    }
  }

  lemma RenamePins(lib: Library, left: Disk, right: Disk, files: Files, op: Operation)
    requires op.kind == RenameFile && op.source.Some? && op.sourceData.Some?
    requires Replay1(lib, left, files, op).Ok? && Agree(left, right, files)
    ensures var after := Replay1(lib, left, files, op).value;
      && (forall path :: path in files ==> path in after)
      && (Replay1(lib, right, files, op).Ok? <==> Agree(left, right, after))
      && (Replay1(lib, right, files, op).Ok? ==> Replay1(lib, right, files, op).value == after)
  {
    var after := Replay1(lib, left, files, op).value;
    assert after.Keys == files.Keys + {op.source.value, op.path};
    if Agree(left, right, after) {
      assert ReadBytes(left, op.source.value) == ReadBytes(right, op.source.value);
      assert ReadBytes(left, op.path) == ReadBytes(right, op.path);
    }
  }

  /**
   * A plan that passes on one disk passes on another exactly when the two agree on every path the plan
   * touches, absence included; and then both replays give the same files.
   */
  lemma {:induction false} ReplayAcceptsExactly(lib: Library, left: Disk, right: Disk, operations: seq<Operation>)
    requires Injective(lib) && forall op :: op in operations ==> Formed(lib, op)
    requires Replay(lib, left, operations).Ok?
    ensures var files := Replay(lib, left, operations).value;
      && (Replay(lib, right, operations).Ok? <==> Agree(left, right, files))
      && (Replay(lib, right, operations).Ok? ==> Replay(lib, right, operations).value == files)
  {
    if operations != [] {
      var n := |operations| - 1;
      assert operations[n] in operations;
      ReplayAcceptsExactly(lib, left, right, operations[..n]);
      var files := Replay(lib, left, operations[..n]).value;
      if Agree(left, right, files) {
        Replay1Pins(lib, left, right, files, operations[n]);
      } else {
        Replay1Pins(lib, left, left, files, operations[n]);
      }
    }
  }

  lemma {:induction false} CompileReadsOnlyItsFiles(r: Request, disk: Disk, changes: seq<Change>)
    requires Compile(r, changes).Ok? && Agree(r.disk, disk, Compile(r, changes).value.files)
    ensures Compile(r.(disk := disk), changes) == Compile(r, changes)
  {
    if changes != [] {
      var n := |changes| - 1;
      var before := Compile(r, changes[..n]).value;
      Compile1Reads(r, disk, before, changes[n]);
      CompileReadsOnlyItsFiles(r, disk, changes[..n]);
    }
  }

  lemma Compile1Reads(r: Request, disk: Disk, plan: Plan, change: Change)
    requires Compile1(r, plan, change).Ok?
    requires Agree(r.disk, disk, Compile1(r, plan, change).value.files)
    ensures Agree(r.disk, disk, plan.files)
    ensures Compile1(r.(disk := disk), plan, change) == Compile1(r, plan, change)
  {
    var after := Compile1(r, plan, change).value.files;
    forall path | path in plan.files ensures path in after {}
    match change
    case Bad =>
    case Create(path, _) => assert path in after;
    case Delete(path, _) => assert path in after;
    case Edit(path, _, _) => assert path in after;
    case Rename(source, destination, _) => assert source in after && destination in after;
  }

  /** What apply_edit checks before anything is written. */
  predicate Current(lib: Library, preconditions: map<Path, Option<Hash>>, disk: Disk) {
    forall path :: path in preconditions ==>
      ReadBytes(disk, path).Ok? && Sha(lib, ReadBytes(disk, path).value) == preconditions[path]
  }

  /**
   * Whenever a compiled plan is accepted, on whatever disk it then finds, the files it leaves are the
   * plain meaning of the original WorkspaceEdit on that disk.
   */
  lemma AcceptedPlanMeansTheEdit(r: Request, changes: seq<Change>, disk: Disk)
    requires Injective(r.lib) && Compile(r, changes).Ok?
    ensures var plan := Compile(r, changes).value;
      && (Replay(r.lib, disk, plan.operations).Ok? <==> Agree(r.disk, disk, plan.files))
      && (Replay(r.lib, disk, plan.operations).Ok? ==>
            && Replay(r.lib, disk, plan.operations).value == plan.files
            && Interpret(r.lib, disk, changes) == Ok(Overlay(disk, plan.files)))
  {
    var plan := Compile(r, changes).value;
    CompileRefinesInterpret(r, changes);
    ReplayAcceptsExactly(r.lib, r.disk, disk, plan.operations);
    if Agree(r.disk, disk, plan.files) {
      CompileReadsOnlyItsFiles(r, disk, changes);
      CompileRefinesInterpret(r.(disk := disk), changes);
    }
  }

  /** Every update is the first operation on its path, so its digest is that of the bytes on disk. */
  ghost predicate UpdatesComeFirst(r: Request, operations: seq<Operation>) {
    forall i :: 0 <= i < |operations| && operations[i].kind == UpdateFile ==>
      && Ok(operations[i].oldData) == ReadBytes(r.disk, operations[i].path)
      && operations[i].expected == Sha(r.lib, operations[i].oldData)
      && forall j :: 0 <= j < i ==> !Mentions(operations[j], operations[i].path)
  }

  lemma EditKeepsUpdatesFirst(r: Request, changes: seq<Change>, plan: Plan, change: Change)
    requires Faithful(r, changes, plan) && change.Edit? && Compile1(r, plan, change).Ok?
    requires UpdatesComeFirst(r, plan.operations)
    ensures UpdatesComeFirst(r, Compile1(r, plan, change).value.operations)
  {
    var path, next := change.path, Compile1(r, plan, change).value;
    if path in plan.files {
      CoalesceKeepsReplay(r.lib, r.disk, plan.operations, path, next.files[path].value);
      OverwriteKeepsUpdatesFirst(r, plan.operations, CoalesceAt(plan.operations, path).value, next.files[path]);
    } else {
      NewPathIsNotCoalesced(r, changes, plan, path);
      EditAppends(r, plan, change);
      FirstUpdateKeepsUpdatesFirst(r, plan.operations, next.operations);
    }
  }

  lemma FirstUpdateKeepsUpdatesFirst(r: Request, operations: seq<Operation>, next: seq<Operation>)
    requires UpdatesComeFirst(r, operations)
    requires |next| == |operations| + 1 && next[..|operations|] == operations
    requires var last := next[|operations|];
      && Ok(last.oldData) == ReadBytes(r.disk, last.path) && last.expected == Sha(r.lib, last.oldData)
      && forall op :: op in operations ==> !Mentions(op, last.path)
    ensures UpdatesComeFirst(r, next)
  {
    forall i | 0 <= i < |operations| ensures next[i] == operations[i] && next[i] in operations {
      assert next[..|operations|][i] == operations[i];
    }
  }

  lemma OverwriteKeepsUpdatesFirst(r: Request, operations: seq<Operation>, i: nat, data: Option<Bytes>)
    requires i < |operations| && UpdatesComeFirst(r, operations)
    ensures UpdatesComeFirst(r, operations[i := operations[i].(newData := data)])
  {
  }

  lemma {:induction false} CompiledUpdatesComeFirst(r: Request, changes: seq<Change>)
    requires Compile(r, changes).Ok?
    ensures UpdatesComeFirst(r, Compile(r, changes).value.operations)
  {
    if changes != [] {
      var prefix, change := changes[..|changes| - 1], changes[|changes| - 1];
      CompiledUpdatesComeFirst(r, prefix);
      CompileRefinesInterpret(r, prefix);
      var plan := Compile(r, prefix).value;
      if change.Edit? {
        EditKeepsUpdatesFirst(r, prefix, plan, change);
      } else {
        AppendedIsNoUpdate(r, plan, change);
        AppendKeepsUpdatesFirst(r, plan.operations, Compile1(r, plan, change).value.operations);
      }
    }
  }

  lemma AppendKeepsUpdatesFirst(r: Request, operations: seq<Operation>, next: seq<Operation>)
    requires UpdatesComeFirst(r, operations)
    requires |next| == |operations| + 1 && next[..|operations|] == operations && next[|operations|].kind != UpdateFile
    ensures UpdatesComeFirst(r, next)
  {
    forall i | 0 <= i < |operations| ensures next[i] == operations[i] {
      assert next[..|operations|][i] == operations[i];
    }
  }

  lemma AppendedIsNoUpdate(r: Request, plan: Plan, change: Change)
    requires !change.Edit? && Compile1(r, plan, change).Ok?
    ensures var next := Compile1(r, plan, change).value;
      && |next.operations| == |plan.operations| + 1
      && next.operations[|plan.operations|].kind != UpdateFile
      && next.operations[..|plan.operations|] == plan.operations
  {}

  // ---- The transaction that commits an accepted plan ----

  function CheckExpected(lib: Library, expected: Option<Hash>, data: Option<Bytes>): bool {
    expected.None? || lib.digest(if data.Some? then data.value else []) == expected.value
  }

  /** The second replay, over the states of all paths of the plan read up front under their locks. */
  function Transact1(lib: Library, files: Files, op: Operation): Result<Files, EditError> {
    if op.path !in files then Err(Malformed) else
    var current := files[op.path];
    match op.kind
    case CreateFile =>
      if !CheckExpected(lib, op.expected, current) then Err(StalePlan)
      else if current.Some? then Err(TargetExists)
      else if op.newData.None? then Err(Malformed)
      else Ok(files[op.path := op.newData])
    case DeleteFile =>
      if !CheckExpected(lib, op.expected, current) || current != op.oldData then Err(StalePlan)
      else Ok(files[op.path := None])
    case UpdateFile =>
      if !CheckExpected(lib, op.expected, current) || current != op.oldData then Err(StalePlan)
      else if op.newData.None? then Err(Malformed)
      else Ok(files[op.path := op.newData])
    case RenameFile =>
      if op.source.None? || op.source.value !in files then Err(Malformed) else
      var source := op.source.value;
      if !CheckExpected(lib, op.expected, files[source]) || files[source] != op.sourceData then Err(StalePlan)
      else if files[source].None? then Err(MissingTarget)
      else if current.Some? then Err(TargetExists)
      else if op.newData.None? then Err(Malformed)
      else Ok(files[source := None][op.path := op.newData])
  }

  function Transact(lib: Library, initial: Files, operations: seq<Operation>): Result<Files, EditError> {
    if operations == [] then Ok(initial)
    else
      var before :- Transact(lib, initial, operations[..|operations| - 1]);
      Transact1(lib, before, operations[|operations| - 1])
  }

  /** The contents of all locked paths: those replayed so far, and the disk's for the rest. */
  ghost predicate Completes(disk: Disk, initial: Files, files: Files, all: Files) {
    && initial.Keys == all.Keys && files.Keys <= all.Keys
    && (forall path :: path in initial ==> ReadBytes(disk, path) == Ok(initial[path]))
    && (forall path :: path in all ==> all[path] == if path in files then files[path] else initial[path])
  }

  lemma Transact1MatchesReplay1(lib: Library, disk: Disk, initial: Files, files: Files, all: Files, op: Operation)
    requires Injective(lib) && Formed(lib, op) && Completes(disk, initial, files, all)
    requires forall path :: Mentions(op, path) ==> path in initial
    ensures Transact1(lib, all, op).Ok? <==> Replay1(lib, disk, files, op).Ok?
    ensures Transact1(lib, all, op).Ok? ==>
      Completes(disk, initial, Replay1(lib, disk, files, op).value, Transact1(lib, all, op).value)
  {
    assert Mentions(op, op.path);
    if op.kind == RenameFile {
      assert Mentions(op, op.source.value);
      TransactRename(lib, disk, initial, files, all, op);
    }
  }

  lemma TransactRename(lib: Library, disk: Disk, initial: Files, files: Files, all: Files, op: Operation)
    requires op.kind == RenameFile && Formed(lib, op) && Completes(disk, initial, files, all)
    requires op.path in initial && op.source.value in initial
    ensures Transact1(lib, all, op).Ok? <==> Replay1(lib, disk, files, op).Ok?
    ensures Transact1(lib, all, op).Ok? ==>
      Completes(disk, initial, Replay1(lib, disk, files, op).value, Transact1(lib, all, op).value)
  {
  }

  lemma {:induction false} TransactMatchesReplay(lib: Library, disk: Disk, initial: Files, operations: seq<Operation>)
    requires Injective(lib) && forall op :: op in operations ==> Formed(lib, op)
    requires forall path :: path in initial ==> ReadBytes(disk, path) == Ok(initial[path])
    requires forall op, path :: op in operations && Mentions(op, path) ==> path in initial
    ensures Transact(lib, initial, operations).Ok? <==> Replay(lib, disk, operations).Ok?
    ensures Transact(lib, initial, operations).Ok? ==>
      Completes(disk, initial, Replay(lib, disk, operations).value, Transact(lib, initial, operations).value)
  {
    if operations != [] {
      var n := |operations| - 1;
      assert operations[n] in operations;
      TransactMatchesReplay(lib, disk, initial, operations[..n]);
      if Replay(lib, disk, operations[..n]).Ok? {
        Transact1MatchesReplay1(lib, disk, initial, Replay(lib, disk, operations[..n]).value,
          Transact(lib, initial, operations[..n]).value, operations[n]);
      }
    }
  }

  /** The per-path difference that is handed to the committer: only paths whose contents changed. */
  function NetChanges(initial: Files, final: Files, touched: set<Path>): Files {
    map path | path in touched && path in initial && path in final && initial[path] != final[path] :: final[path]
  }

  /** The paths an operation names, whether it reads, writes or removes them. */
  function Touched(operations: seq<Operation>): set<Path>
    decreases |operations|
  {
    if operations == [] then {}
    else
      var op := operations[|operations| - 1];
      Touched(operations[..|operations| - 1]) + {op.path} + if op.source.Some? then {op.source.value} else {}
  }

  /** Every path that is locked: those of the plan and those with a requested revision. */
  function Locked(preconditions: map<Path, Option<Hash>>, operations: seq<Operation>): set<Path> {
    preconditions.Keys + Touched(operations)
  }

  predicate Readable(disk: Disk, paths: set<Path>) {
    forall path :: path in paths ==> ReadBytes(disk, path).Ok?
  }

  function States(disk: Disk, paths: set<Path>): Files
    requires Readable(disk, paths)
  {
    map path | path in paths :: ReadBytes(disk, path).value
  }

  /**
   * The transaction: it reads all locked paths, refuses a requested revision that is gone, replays the plan
   * over these states, and hands the net difference to the committer.
   */
  function CommitPlan(lib: Library, disk: Disk, preconditions: map<Path, Option<Hash>>, operations: seq<Operation>)
    : Result<Files, EditError>
  {
    var paths := Locked(preconditions, operations);
    if !Readable(disk, paths) then Err(UnreadablePath)
    else
      var initial := States(disk, paths);
      if exists path :: path in preconditions && Sha(lib, initial[path]) != preconditions[path] then Err(StaleDocument)
      else
        var final :- Transact(lib, initial, operations);
        Ok(NetChanges(initial, final, Touched(operations)))
  }

  lemma {:induction false} TouchedIsMentioned(lib: Library, operations: seq<Operation>, path: Path)
    requires forall op :: op in operations ==> Formed(lib, op)
    ensures path in Touched(operations) <==> exists op :: op in operations && Mentions(op, path)
    decreases |operations|
  {
    if operations != [] {
      var prefix, last := operations[..|operations| - 1], operations[|operations| - 1];
      assert operations == prefix + [last] && last in operations;
      TouchedIsMentioned(lib, prefix, path);
      assert Mentions(last, path) <==> path == last.path || last.source == Some(path);
    }
  }

  /** A plan's operations touch exactly the paths the compiler recorded. */
  lemma PlanTouchesItsFiles(r: Request, changes: seq<Change>)
    requires Compile(r, changes).Ok?
    ensures Touched(Compile(r, changes).value.operations) == Compile(r, changes).value.files.Keys
    ensures Readable(r.disk, Compile(r, changes).value.files.Keys)
  {
    var plan := Compile(r, changes).value;
    CompileRefinesInterpret(r, changes);
    forall path ensures path in Touched(plan.operations) <==> path in plan.files {
      TouchedIsMentioned(r.lib, plan.operations, path);
      ReplayLoadsMentionedPaths(r.lib, r.disk, plan.operations, path);
    }
  }

  /** The transaction over readable paths accepts exactly what the lazy replay accepts. */
  lemma CommitMatchesReplay(
    lib: Library, disk: Disk, preconditions: map<Path, Option<Hash>>, operations: seq<Operation>)
    requires Injective(lib) && forall op :: op in operations ==> Formed(lib, op)
    requires Readable(disk, Locked(preconditions, operations))
    ensures var initial := States(disk, Locked(preconditions, operations));
      && (Transact(lib, initial, operations).Ok? <==> Replay(lib, disk, operations).Ok?)
      && (Transact(lib, initial, operations).Ok? ==>
            Completes(disk, initial, Replay(lib, disk, operations).value, Transact(lib, initial, operations).value))
  {
    var initial := States(disk, Locked(preconditions, operations));
    forall op, path | op in operations && Mentions(op, path) ensures path in initial {
      TouchedIsMentioned(lib, operations, path);
    }
    TransactMatchesReplay(lib, disk, initial, operations);
  }

  /**
   * The transaction accepts a compiled plan exactly on the disks that still have every requested revision
   * and agree with the planning-time disk on every path the plan touches; committing the net difference then
   * leaves the plain meaning of the WorkspaceEdit.
   */
  lemma CommitMeansTheEdit(r: Request, changes: seq<Change>, disk: Disk)
    requires Injective(r.lib) && Compile(r, changes).Ok?
    ensures var plan := Compile(r, changes).value;
      var result := CommitPlan(r.lib, disk, r.preconditions, plan.operations);
      && (result.Ok? <==> Current(r.lib, r.preconditions, disk) && Agree(r.disk, disk, plan.files))
      && (result.Ok? ==> Interpret(r.lib, disk, changes) == Ok(Overlay(disk, result.value)))
  {
    var plan := Compile(r, changes).value;
    var paths := Locked(r.preconditions, plan.operations);
    CompileRefinesInterpret(r, changes);
    PlanTouchesItsFiles(r, changes);
    AcceptedPlanMeansTheEdit(r, changes, disk);
    CurrentAgreesIsReadable(r, changes, disk);
    if Readable(disk, paths) {
      var initial := States(disk, paths);
      CommitMatchesReplay(r.lib, disk, r.preconditions, plan.operations);
      if Agree(r.disk, disk, plan.files) {
        NetOverlay(disk, initial, plan.files, Transact(r.lib, initial, plan.operations).value, plan.files.Keys);
      }
    }
  }

  lemma CurrentAgreesIsReadable(r: Request, changes: seq<Change>, disk: Disk)
    requires Compile(r, changes).Ok?
    ensures var plan := Compile(r, changes).value;
      Current(r.lib, r.preconditions, disk) && Agree(r.disk, disk, plan.files) ==>
        Readable(disk, Locked(r.preconditions, plan.operations))
  {
    PlanTouchesItsFiles(r, changes);
  }

  lemma NetOverlay(disk: Disk, initial: Files, files: Files, final: Files, touched: set<Path>)
    requires Completes(disk, initial, files, final) && files.Keys == touched
    ensures Overlay(disk, NetChanges(initial, final, touched)) == Overlay(disk, files)
  {
    var net := NetChanges(initial, final, touched);
    forall path ensures path in Overlay(disk, net) <==> path in Overlay(disk, files) {
      if path in touched && path !in net {
        assert ReadBytes(disk, path) == Ok(files[path]);
      }
    }
  }
}
