/** The compiler and the staleness check of WorkspaceEdit as the program runs them. */
module EditPlanner {
  // A planner fills a file map and overwrites the contents of operation objects it has already emitted;
  // a loop loads disk contents as operations first mention them.

  import opened Outcomes
  import opened WorkspaceEdit

  class PlannedOperation {
    const kind: Kind
    const path: Path
    const oldData: Option<Bytes>
    var newData: Option<Bytes>
    const expected: Option<Hash>
    const source: Option<Path>
    const sourceData: Option<Bytes>

    constructor (op: Operation)
      ensures Value() == op
    {
      kind, path, oldData, newData := op.kind, op.path, op.oldData, op.newData;
      expected, source, sourceData := op.expected, op.source, op.sourceData;
    }

    function Value(): Operation
      reads this
    {
      Operation(kind, path, oldData, newData, expected, source, sourceData)
    }
  }

  class Planner {
    const request: Request
    var files: Files
    var operations: seq<PlannedOperation>

    constructor (r: Request)
      ensures request == r && Valid() && Contents() == EMPTY_PLAN && fresh(operations)
    {
      request, files, operations := r, map[], [];
    }

    /** No operation object is listed twice, so overwriting one changes one entry of the plan. */
    ghost predicate Valid()
      reads this
    {
      forall i, j :: 0 <= i < j < |operations| ==> operations[i] != operations[j]
    }

    ghost function Contents(): Plan
      reads this, operations
    {
      Plan(files, Emitted())
    }

    ghost function Emitted(): seq<Operation>
      reads `operations, operations
    {
      var planned := operations;
      seq(|planned|, i requires 0 <= i < |planned| reads planned => planned[i].Value())
    }

    method LoadState(path: Path) returns (data: Result<Option<Bytes>, EditError>)
      requires Valid()
      modifies `files
      ensures match data
        case Ok(d) => State(request, old(Contents()), path) == Ok(Contents()) && path in files && files[path] == d
        case Err(e) => State(request, old(Contents()), path) == Err(e)
    {
      if path !in files {
        var bytes := ReadBytes(request.disk, path);
        if bytes.Err? {
          return Err(bytes.error);
        }
        files := files[path := bytes.value];
        if path in request.preconditions && Sha(request.lib, bytes.value) != request.preconditions[path] {
          return Err(StaleDocument);
        }
      }
      return Ok(files[path]);
    }

    method Emit(op: Operation)
      requires Valid()
      modifies this
      ensures Valid() && files == old(files) && fresh(set o | o in operations && o !in old(operations))
      ensures Contents() == Plan(old(files), old(Contents()).operations + [op])
    {
      var planned := new PlannedOperation(op);
      operations := operations + [planned];
    }

    /** Overwrites the operation a text edit is coalesced into, if the search from the end finds one. */
    method Coalesce(path: Path, data: Bytes) returns (found: bool)
      requires Valid()
      modifies operations
      ensures Valid()
      ensures var at := CoalesceAt(old(Contents()).operations, path);
        && found == at.Some?
        && Contents() == old(if at.Some? then Plan(files, Contents().operations[at.value :=
              Contents().operations[at.value].(newData := Some(data))]) else Contents())
    {
      ghost var ops := Contents().operations;
      var n := |operations|;
      assert ops[..n] == ops;
      while n > 0
        invariant 0 <= n <= |operations|
        invariant Contents().operations == ops
        invariant CoalesceAt(ops, path) == CoalesceAt(ops[..n], path)
      {
        var operation := operations[n - 1];
        assert ops[n - 1] == operation.Value();
        assert ops[..n][..n - 1] == ops[..n - 1];
        if operation.kind == RenameFile && operation.source == Some(path) {
          return false;
        }
        if operation.path == path {
          if operation.kind == DeleteFile {
            return false;
          }
          operation.newData := Some(data);
          assert Contents().operations == ops[n - 1 := ops[n - 1].(newData := Some(data))];
          return true;
        }
        n := n - 1;
      }
      return false;
    }

    method Update(path: Path, edits: seq<TextEdit>, version: Option<int>) returns (failure: Option<EditError>)
      requires Valid()
      modifies this, operations
      ensures Valid() && fresh(set o | o in operations && o !in old(operations))
      ensures match failure
        case None => CompileEdit(request, old(Contents()), path, edits, version) == Ok(Contents())
        case Some(e) => CompileEdit(request, old(Contents()), path, edits, version) == Err(e)
    {
      var current := LoadState(path);
      if current.Err? {
        return Some(current.error);
      }
      if current.value.None? {
        return Some(MissingTarget);
      }
      failure := VersionError(request, path, version);
      if failure.Some? {
        return;
      }
      var data := request.lib.rewrite(current.value.value, edits);
      if data.None? {
        return Some(BadTextEdit);
      }
      files := files[path := data];
      var coalesced := Coalesce(path, data.value);
      if !coalesced {
        Emit(Operation(UpdateFile, path, current.value, data, Sha(request.lib, current.value), None, None));
      }
    }

    method Apply(change: Change) returns (failure: Option<EditError>)
      requires Valid()
      modifies this, operations
      ensures Valid() && fresh(set o | o in operations && o !in old(operations))
      ensures match failure
        case None => Compile1(request, old(Contents()), change) == Ok(Contents())
        case Some(e) => Compile1(request, old(Contents()), change) == Err(e)
    {
      match change
      case Bad => return Some(Malformed);
      case Create(path, overwrites) =>
        if overwrites {
          return Some(UnsupportedOptions);
        }
        var current := LoadState(path);
        if current.Err? {
          return Some(current.error);
        }
        if current.value.Some? {
          return Some(TargetExists);
        }
        files := files[path := Some([])];
        Emit(Operation(CreateFile, path, None, Some([]), None, None, None));
        return None;
      case Delete(path, overwrites) =>
        if overwrites {
          return Some(UnsupportedOptions);
        }
        var current := LoadState(path);
        if current.Err? {
          return Some(current.error);
        }
        if current.value.None? {
          return Some(MissingTarget);
        }
        files := files[path := None];
        Emit(Operation(DeleteFile, path, current.value, None, Sha(request.lib, current.value), None, None));
        return None;
      case Rename(source, destination, overwrites) =>
        failure := ApplyRename(source, destination, overwrites);
      case Edit(path, edits, version) =>
        failure := Update(path, edits, version);
    }

    method ApplyRename(source: Path, destination: Path, overwrites: bool) returns (failure: Option<EditError>)
      requires Valid()
      modifies this
      ensures Valid() && fresh(set o | o in operations && o !in old(operations))
      ensures match failure
        case None => Compile1(request, old(Contents()), Rename(source, destination, overwrites)) == Ok(Contents())
        case Some(e) => Compile1(request, old(Contents()), Rename(source, destination, overwrites)) == Err(e)
    {
      if overwrites {
        return Some(UnsupportedOptions);
      }
      var current := LoadState(source);
      if current.Err? {
        return Some(current.error);
      }
      if current.value.None? {
        return Some(MissingTarget);
      }
      var target := LoadState(destination);
      if target.Err? {
        return Some(target.error);
      }
      if target.value.Some? {
        return Some(TargetExists);
      }
      files := files[source := None][destination := current.value];
      Emit(Operation(RenameFile, destination, None, current.value, None, Some(source), current.value));
      return None;
    }

    method ApplyAll(changes: seq<Change>) returns (failure: Option<EditError>)
      requires Valid() && Contents() == EMPTY_PLAN
      modifies this, operations
      ensures Valid()
      ensures Compile(request, changes) == if failure.None? then Ok(Contents()) else Err(failure.value)
    {
      var i := 0;
      while i < |changes|
        invariant 0 <= i <= |changes|
        invariant Valid() && fresh(set o | o in operations && o !in old(operations))
        invariant Compile(request, changes[..i]) == Ok(Contents())
      {
        CompileNext(request, changes, i);
        failure := Apply(changes[i]);
        if failure.Some? {
          CompilePrefixFails(request, changes, i + 1);
          return;
        }
        i := i + 1;
      }
      assert changes[..i] == changes;
      return None;
    }

    /** Compiles a whole WorkspaceEdit; an edit without any operation is refused unless it is only reported. */
    method Run(changes: seq<Change>, unsupported: bool) returns (failure: Option<EditError>)
      requires Valid() && Contents() == EMPTY_PLAN
      modifies this, operations
      ensures Valid()
      ensures match failure
        case None => Compile(request, changes) == Ok(Contents()) && (operations != [] || unsupported)
        case Some(e) =>
          || Compile(request, changes) == Err(e)
          || (e == EmptyEdit && !unsupported && Compile(request, changes) == Ok(Contents()) && operations == [])
    {
      failure := ApplyAll(changes);
      if failure.None? && operations == [] && !unsupported {
        failure := Some(EmptyEdit);
      }
    }
  }

  lemma CompileNext(r: Request, changes: seq<Change>, i: nat)
    requires i < |changes| && Compile(r, changes[..i]).Ok?
    ensures Compile(r, changes[..i + 1]) == Compile1(r, Compile(r, changes[..i]).value, changes[i])
  {
    assert changes[..i + 1][..i] == changes[..i];
  }

  lemma {:induction false} CompilePrefixFails(r: Request, changes: seq<Change>, n: nat)
    requires n <= |changes| && Compile(r, changes[..n]).Err?
    ensures Compile(r, changes) == Compile(r, changes[..n])
  {
    if n < |changes| {
      assert changes[..|changes| - 1][..n] == changes[..n];
      CompilePrefixFails(r, changes[..|changes| - 1], n);
    } else {
      assert changes[..n] == changes;
    }
  }

  /** Whether every path with a requested revision still has it. */
  method CheckPreconditions(lib: Library, preconditions: map<Path, Option<Hash>>, order: seq<Path>, disk: Disk)
    returns (current: bool)
    requires forall path :: path in preconditions <==> path in order
    ensures current <==> Current(lib, preconditions, disk)
  {
    for i := 0 to |order|
      invariant forall j :: 0 <= j < i ==>
        ReadBytes(disk, order[j]).Ok? && Sha(lib, ReadBytes(disk, order[j]).value) == preconditions[order[j]]
    {
      var data := ReadBytes(disk, order[i]);
      assert order[i] in preconditions;
      if data.Err? || Sha(lib, data.value) != preconditions[order[i]] {
        return false;
      }
    }
    return true;
  }

  /** Reads the paths of one operation that are not known yet, then checks and performs it. */
  method ReplayOne(lib: Library, disk: Disk, virtual: Files, op: Operation) returns (r: Result<Files, EditError>)
    ensures r == Replay1(lib, disk, virtual, op)
  {
    var renames := op.kind == RenameFile && op.source.Some?;
    var paths := if renames then [op.source.value, op.path] else [op.path];
    var loaded := virtual;
    for k := 0 to |paths|
      invariant k == 0 ==> loaded == virtual
      invariant k == 1 ==> Load(disk, virtual, paths[0]) == Ok(loaded)
      invariant k == 2 ==>
        && Load(disk, virtual, paths[0]).Ok?
        && Load(disk, Load(disk, virtual, paths[0]).value, paths[1]) == Ok(loaded)
    {
      if paths[k] !in loaded {
        var data := ReadBytes(disk, paths[k]);
        if data.Err? {
          return Err(data.error);
        }
        loaded := loaded[paths[k] := data.value];
      }
    }
    if renames {
      if loaded[op.source.value] != op.sourceData || loaded[op.path].Some? {
        return Err(StalePlan);
      }
      return Ok(loaded[op.source.value := None][op.path := op.newData]);
    }
    if Sha(lib, loaded[op.path]) != op.expected {
      return Err(StalePlan);
    }
    return Ok(loaded[op.path := op.newData]);
  }

  /** The part of apply_edit that runs before anything is written. */
  method CheckPlan(lib: Library, preconditions: map<Path, Option<Hash>>, order: seq<Path>, disk: Disk,
                   operations: seq<Operation>) returns (r: Result<Files, EditError>)
    requires forall path :: path in preconditions <==> path in order
    ensures r == if Current(lib, preconditions, disk) then Replay(lib, disk, operations) else Err(StaleDocument)
  {
    var current := CheckPreconditions(lib, preconditions, order, disk);
    if !current {
      return Err(StaleDocument);
    }
    var virtual: Files := map[];
    for i := 0 to |operations|
      invariant Replay(lib, disk, operations[..i]) == Ok(virtual)
    {
      assert operations[..i + 1][..i] == operations[..i];
      r := ReplayOne(lib, disk, virtual, operations[i]);
      if r.Err? {
        ReplayPrefixFails(lib, disk, operations, i + 1);
        return;
      }
      virtual := r.value;
    }
    assert operations[..|operations|] == operations;
    return Ok(virtual);
  }

  lemma {:induction false} ReplayPrefixFails(lib: Library, disk: Disk, operations: seq<Operation>, n: nat)
    requires n <= |operations| && Replay(lib, disk, operations[..n]).Err?
    ensures Replay(lib, disk, operations) == Replay(lib, disk, operations[..n])
  {
    if n < |operations| {
      assert operations[..|operations| - 1][..n] == operations[..n];
      ReplayPrefixFails(lib, disk, operations[..|operations| - 1], n);
    } else {
      assert operations[..n] == operations;
    }
  }
}
