/** Named definitions layered over two configuration files. */
module ConfigLens {
  // The definitions are language servers, MCP servers and mail accounts: the merged map a reader sees, and
  // the edits to one file's document that make it a wanted map.

  import opened Outcomes

  type Name = string

  /** A parsed TOML value as far as the layers look into it. */
  datatype Toml = Scalar(text: string) | Flag(value: bool) | Table(entries: map<Name, Toml>)

  const TOMBSTONE := Table(map["enabled" := Flag(false)])

  datatype ConfigError = NotATable

  // ---- Document paths ----

  function Lookup(t: Toml, path: seq<Name>): Option<Toml>
    decreases |path|
  {
    if path == [] then Some(t)
    else if t.Table? && path[0] in t.entries then Lookup(t.entries[path[0]], path[1..])
    else None
  }

  /** Assigns a value, creating missing tables on the way; a non-table on the way is an error. */
  function SetPath(t: Toml, path: seq<Name>, value: Toml): Result<Toml, ConfigError>
    requires path != []
    decreases |path|
  {
    if !t.Table? then Err(NotATable)
    else if |path| == 1 then Ok(Table(t.entries[path[0] := value]))
    else
      var child := if path[0] in t.entries then t.entries[path[0]] else Table(map[]);
      var child' :- SetPath(child, path[1..], value);
      Ok(Table(t.entries[path[0] := child']))
  }

  /** Removes a value if it is there. */
  function UnsetPath(t: Toml, path: seq<Name>): Toml
    requires path != []
    decreases |path|
  {
    if !t.Table? || path[0] !in t.entries then t
    else if |path| == 1 then Table(t.entries - {path[0]})
    else Table(t.entries[path[0] := UnsetPath(t.entries[path[0]], path[1..])])
  }

  /** Neither path leads through the other. */
  predicate Apart(p: seq<Name>, q: seq<Name>)
    decreases |p|
  {
    p != [] && q != [] && (p[0] != q[0] || Apart(p[1..], q[1..]))
  }

  lemma {:induction false} SetThenLookup(t: Toml, path: seq<Name>, value: Toml, other: seq<Name>)
    requires path != [] && SetPath(t, path, value).Ok?
    ensures Lookup(SetPath(t, path, value).value, path) == Some(value)
    ensures Apart(path, other) ==> Lookup(SetPath(t, path, value).value, other) == Lookup(t, other)
    decreases |path|
  {
    if |path| == 1 {
      assert path[1..] == [] && path == [path[0]];
      assert Lookup(t, path) == if t.Table? && path[0] in t.entries then Lookup(t.entries[path[0]], []) else None;
      assert other != [] ==> !Apart(path[1..], other[1..]);
    }
    if |path| > 1 {
      var child := if path[0] in t.entries then t.entries[path[0]] else Table(map[]);
      SetThenLookup(child, path[1..], value, if other != [] then other[1..] else []);
      if Apart(path, other) && path[0] == other[0] {
        var child' := SetPath(child, path[1..], value).value;
        assert Lookup(SetPath(t, path, value).value, other) == Lookup(child', other[1..]);
        assert Lookup(child, other[1..]) == Lookup(t, other);
      }
    }
  }

  lemma {:induction false} UnsetThenLookup(t: Toml, path: seq<Name>, other: seq<Name>)
    requires path != []
    ensures Lookup(UnsetPath(t, path), path) == None
    ensures Apart(path, other) ==> Lookup(UnsetPath(t, path), other) == Lookup(t, other)
    ensures Lookup(t, path) == None ==> UnsetPath(t, path) == t
    decreases |path|
  {
    if |path| == 1 {
      assert path[1..] == [] && path == [path[0]];
      assert Lookup(t, path) == if t.Table? && path[0] in t.entries then Lookup(t.entries[path[0]], []) else None;
      assert other != [] ==> !Apart(path[1..], other[1..]);
    }
    if |path| > 1 && t.Table? && path[0] in t.entries {
      UnsetThenLookup(t.entries[path[0]], path[1..], if other != [] then other[1..] else []);
      if Apart(path, other) && path[0] == other[0] {
        assert Lookup(UnsetPath(t, path), other) == Lookup(UnsetPath(t.entries[path[0]], path[1..]), other[1..]);
        assert Lookup(t, other) == Lookup(t.entries[path[0]], other[1..]);
      }
      if Lookup(t, path) == None {
        assert Lookup(t.entries[path[0]], path[1..]) == None;
        assert t.entries[path[0] := t.entries[path[0]]] == t.entries;
      }
    }
  }

  // ---- Reading: the merged map ----

  type Layer = map<Name, Toml>

  predicate Active(d: Toml) {
    d.Table? && "enabled" !in d.entries
  }

  /** What validating a layer leaves: active definitions and exact tombstones. */
  predicate ValidLayer(layer: Layer) {
    forall name :: name in layer ==> Active(layer[name]) || layer[name] == TOMBSTONE
  }

  predicate Disables(d: Toml) {
    d.Table? && "enabled" in d.entries && d.entries["enabled"] == Flag(false)
  }

  /** One layer over what the layers below it gave. */
  function Over(below: Layer, layer: Layer): Layer {
    map name | name in below.Keys + layer.Keys && (name in layer ==> !Disables(layer[name])) ::
      if name in layer then layer[name] else below[name]
  }

  function Merged(global: Layer, workspace: Layer): Layer {
    Over(Over(map[], global), workspace)
  }

  /** The map the program reads: merged, then normalized. */
  function Effective(norm: Toml -> Toml, global: Layer, workspace: Layer): Layer {
    map name | name in Merged(global, workspace) :: norm(Merged(global, workspace)[name])
  }

  method MergeServers(global: Layer, workspace: Layer) returns (result: Layer)
    ensures result == Merged(global, workspace)
  {
    var sources := [global, workspace];
    result := map[];
    for i := 0 to 2
      invariant result == if i == 0 then map[] else if i == 1 then Over(map[], global) else Merged(global, workspace)
    {
      result := MergeSource(result, sources[i]);
    }
  }

  method MergeSource(below: Layer, source: Layer) returns (result: Layer)
    ensures result == Over(below, source)
  {
    result := below;
    var names := source.Keys;
    while names != {}
      invariant names <= source.Keys
      invariant result.Keys <= below.Keys + source.Keys
      invariant forall name :: name in names || name !in source ==> Entry(result, name) == Entry(below, name)
      invariant forall name :: name in source && name !in names ==>
        Entry(result, name) == Entry(Over(below, source), name)
    {
      var name :| name in names;
      names := names - {name};
      result := if Disables(source[name]) then result - {name} else result[name := source[name]];
    }
    SameEntries(result, Over(below, source));
  }

  lemma SameEntries(left: Layer, right: Layer)
    requires forall name :: Entry(left, name) == Entry(right, name)
    ensures left == right
  {
    assert forall name :: name in left <==> Entry(left, name).Some?;
    assert forall name :: name in right <==> Entry(right, name).Some?;
    forall name | name in left ensures left[name] == right[name] {
      assert Entry(left, name) == Entry(right, name);
    }
  }

  // ---- Writing: what each name's entry becomes ----

  datatype Action = Keep | Set(value: Toml) | Unset

  function Entry(layer: Layer, name: Name): Option<Toml> {
    if name in layer then Some(layer[name]) else None
  }

  predicate Live(d: Option<Toml>) {
    d.Some? && d.value != TOMBSTONE
  }

  /** One name of save_servers; in global-only mode there is no layer below the edited file. */
  function ServerAction(workspaceMode: bool, norm: Toml -> Toml,
                        wanted: Option<Toml>, inherited: Option<Toml>, current: Option<Toml>): Action
  {
    if !workspaceMode then if wanted.Some? then Set(wanted.value) else Unset
    else if wanted.None? then
      if Live(inherited) then if current == Some(TOMBSTONE) then Keep else Set(TOMBSTONE)
      else Unset
    else if Live(current) then
      if norm(current.value) == wanted.value then Keep else Set(wanted.value)
    else if Live(inherited) then
      if norm(inherited.value) == wanted.value then Unset else Set(wanted.value)
    else if inherited == wanted then Unset
    else Set(wanted.value)
  }

  /** One name of save_mail_accounts; a wanted tombstone counts as absent. */
  function MailAction(workspaceMode: bool, norm: Toml -> Toml,
                      desired: Option<Toml>, inherited: Option<Toml>, current: Option<Toml>): Action
  {
    var wanted := if desired == Some(TOMBSTONE) then None else desired;
    if wanted.None? then
      if workspaceMode && Live(inherited) then if current == Some(TOMBSTONE) then Keep else Set(TOMBSTONE)
      else Unset
    else if workspaceMode && Live(current) then
      if norm(current.value) == wanted.value then Keep else Set(wanted.value)
    else if workspaceMode && Live(inherited) then
      if norm(inherited.value) == wanted.value then Unset else Set(wanted.value)
    else if inherited == wanted then Unset
    else Set(wanted.value)
  }

  function After(action: Action, current: Option<Toml>): Option<Toml> {
    match action
    case Keep => current
    case Set(value) => Some(value)
    case Unset => None
  }

  /** The edited layer once every name has been acted on. */
  function Put(act: Name -> Action, names: set<Name>, layer: Layer): Layer {
    map name | name in names + layer.Keys
      && (name in names ==> After(act(name), Entry(layer, name)).Some?) ::
      if name in names then After(act(name), Entry(layer, name)).value else layer[name]
  }

  // ---- The document a layer is parsed from ----

  /** The named table under a section; `tables` is "servers" or "accounts". */
  function LayerOf(document: Toml, section: Name, tables: Name): Layer {
    match Lookup(document, [section, tables])
    case Some(Table(entries)) => entries
    case _ => map[]
  }

  /** What validation of the file guarantees on the way to the named tables. */
  predicate WellShaped(document: Toml, section: Name, tables: Name) {
    && document.Table?
    && (section in document.entries ==>
          && document.entries[section].Table?
          && (tables in document.entries[section].entries ==> document.entries[section].entries[tables].Table?))
  }

  function Act(document: Toml, path: seq<Name>, action: Action): Result<Toml, ConfigError>
    requires path != []
  {
    match action
    case Keep => Ok(document)
    case Set(value) => SetPath(document, path, value)
    case Unset => Ok(UnsetPath(document, path))
  }

  lemma SetOnName(document: Toml, section: Name, tables: Name, name: Name, value: Toml)
    requires WellShaped(document, section, tables)
    ensures var r := SetPath(document, [section, tables, name], value);
      && r.Ok? && WellShaped(r.value, section, tables)
      && LayerOf(r.value, section, tables) == LayerOf(document, section, tables)[name := value]
  {
    var path := [section, tables, name];
    assert path[1..] == [tables, name] && [tables, name][1..] == [name];
    assert [section, tables][1..] == [tables] && [tables][1..] == [];
    var middle := if section in document.entries then document.entries[section] else Table(map[]);
    var named := if tables in middle.entries then middle.entries[tables] else Table(map[]);
    assert SetPath(named, [name], value) == Ok(Table(named.entries[name := value]));
    var edited := Table(named.entries[name := value]);
    assert SetPath(middle, [tables, name], value) == Ok(Table(middle.entries[tables := edited]));
    LayerIsNamed(document, section, tables);
    LayerIsNamed(SetPath(document, path, value).value, section, tables);
  }

  lemma LayerIsNamed(document: Toml, section: Name, tables: Name)
    requires WellShaped(document, section, tables)
    ensures LayerOf(document, section, tables) ==
      if section in document.entries && tables in document.entries[section].entries
      then document.entries[section].entries[tables].entries else map[]
  {
    assert [section, tables][1..] == [tables] && [tables][1..] == [];
    if section in document.entries {
      var middle := document.entries[section];
      assert Lookup(document, [section, tables]) == Lookup(middle, [tables]);
      assert Lookup(middle, [tables]) == if tables in middle.entries then Lookup(middle.entries[tables], []) else None;
    }
  }

  lemma UnsetOnName(document: Toml, section: Name, tables: Name, name: Name)
    requires WellShaped(document, section, tables)
    ensures var r := UnsetPath(document, [section, tables, name]);
      && WellShaped(r, section, tables)
      && LayerOf(r, section, tables) == LayerOf(document, section, tables) - {name}
      && (name !in LayerOf(document, section, tables) ==> r == document)
  {
    var path := [section, tables, name];
    assert path[1..] == [tables, name] && [tables, name][1..] == [name];
    LayerIsNamed(document, section, tables);
    if section in document.entries && tables in document.entries[section].entries {
      var middle := document.entries[section];
      var named := middle.entries[tables];
      assert UnsetPath(named, [name]) == Table(named.entries - {name});
      assert UnsetPath(middle, [tables, name]) == Table(middle.entries[tables := Table(named.entries - {name})]);
      LayerIsNamed(UnsetPath(document, path), section, tables);
      if name !in named.entries {
        assert named.entries - {name} == named.entries;
        assert middle.entries[tables := named] == middle.entries;
        assert document.entries[section := middle] == document.entries;
      }
    } else if section in document.entries {
      var middle := document.entries[section];
      assert UnsetPath(middle, [tables, name]) == middle;
      assert document.entries[section := middle] == document.entries;
    }
  }

  lemma {:induction false} SetSameValue(t: Toml, path: seq<Name>, value: Toml)
    requires path != [] && Lookup(t, path) == Some(value)
    ensures SetPath(t, path, value) == Ok(t)
    decreases |path|
  {
    if |path| == 1 {
      assert path[1..] == [] && path == [path[0]];
      assert t.entries[path[0] := value] == t.entries;
    } else {
      SetSameValue(t.entries[path[0]], path[1..], value);
      assert t.entries[path[0] := t.entries[path[0]]] == t.entries;
    }
  }

  lemma NamedEntryIsLookup(document: Toml, section: Name, tables: Name, name: Name)
    requires WellShaped(document, section, tables) && name in LayerOf(document, section, tables)
    ensures Lookup(document, [section, tables, name]) == Some(LayerOf(document, section, tables)[name])
  {
    LayerIsNamed(document, section, tables);
    var middle := document.entries[section];
    var named := middle.entries[tables];
    var path := [section, tables, name];
    assert path[1..] == [tables, name] && [tables, name][1..] == [name] && [name][1..] == [];
    assert Lookup(named, [name]) == Lookup(named.entries[name], []);
    assert Lookup(middle, [tables, name]) == Lookup(named, [name]);
  }

  predicate Apart2(section: Name, tables: Name, other: seq<Name>) {
    other != [] && (other[0] != section || (|other| > 1 && other[1] != tables))
  }

  /** One edit changes one name of the layer and nothing outside it, and is no edit if the entry stays. */
  lemma ActOnName(document: Toml, section: Name, tables: Name, name: Name, action: Action)
    requires WellShaped(document, section, tables)
    ensures var r := Act(document, [section, tables, name], action);
      var layer := LayerOf(document, section, tables);
      && r.Ok? && WellShaped(r.value, section, tables)
      && (forall n :: Entry(LayerOf(r.value, section, tables), n)
                   == if n == name then After(action, Entry(layer, n)) else Entry(layer, n))
      && (After(action, Entry(layer, name)) == Entry(layer, name) ==> r.value == document)
  {
    match action
    case Keep =>
    case Set(value) =>
      SetOnName(document, section, tables, name, value);
      if Entry(LayerOf(document, section, tables), name) == Some(value) {
        NamedEntryIsLookup(document, section, tables, name);
        SetSameValue(document, [section, tables, name], value);
      }
    case Unset =>
      UnsetOnName(document, section, tables, name);
  }

  lemma ActElsewhere(document: Toml, section: Name, tables: Name, name: Name, action: Action, other: seq<Name>)
    requires Apart2(section, tables, other) && Act(document, [section, tables, name], action).Ok?
    ensures Lookup(Act(document, [section, tables, name], action).value, other) == Lookup(document, other)
  {
    match action
    case Keep =>
    case Set(value) => SetThenLookup(document, [section, tables, name], value, other);
    case Unset => UnsetThenLookup(document, [section, tables, name], other);
  }

  /**
   * The edit of a document name by name: the named layer becomes what the actions say, every other path
   * keeps its value, and if no entry changes the document is the same.
   */
  method EditNames(document: Toml, section: Name, tables: Name, names: set<Name>, act: Name -> Action)
    returns (edited: Toml)
    requires WellShaped(document, section, tables)
    ensures WellShaped(edited, section, tables)
    ensures LayerOf(edited, section, tables) == Put(act, names, LayerOf(document, section, tables))
    ensures forall other :: Apart2(section, tables, other) ==> Lookup(edited, other) == Lookup(document, other)
    ensures Put(act, names, LayerOf(document, section, tables)) == LayerOf(document, section, tables) ==>
      edited == document
  {
    edited := document;
    var todo := names;
    ghost var layer := LayerOf(document, section, tables);
    ghost var put := Put(act, names, layer);
    while todo != {}
      invariant todo <= names && WellShaped(edited, section, tables)
      invariant forall n ::
        Entry(LayerOf(edited, section, tables), n) ==
          if n in names && n !in todo then After(act(n), Entry(layer, n)) else Entry(layer, n)
      invariant forall other :: Apart2(section, tables, other) ==> Lookup(edited, other) == Lookup(document, other)
      invariant put == layer ==> edited == document
    {
      var name :| name in todo;
      ghost var before := edited;
      ActOnName(edited, section, tables, name, act(name));
      forall other | Apart2(section, tables, other)
        ensures Lookup(Act(before, [section, tables, name], act(name)).value, other) == Lookup(before, other)
      {
        ActElsewhere(before, section, tables, name, act(name), other);
      }
      assert Entry(put, name) == After(act(name), Entry(layer, name));
      edited := Act(edited, [section, tables, name], act(name)).value;
      todo := todo - {name};
    }
    SameEntries(LayerOf(edited, section, tables), put);
  }

  // ---- The two saves ----

  function ServerActs(workspaceMode: bool, norm: Toml -> Toml, desired: Layer, inherited: Layer, current: Layer)
    : Name -> Action
  {
    name => ServerAction(workspaceMode, norm, Entry(desired, name), Entry(inherited, name), Entry(current, name))
  }

  function MailActs(workspaceMode: bool, norm: Toml -> Toml, desired: Layer, inherited: Layer, current: Layer)
    : Name -> Action
  {
    name => MailAction(workspaceMode, norm, Entry(desired, name), Entry(inherited, name), Entry(current, name))
  }

  /** The layer a save leaves; without a workspace the global layer is the one edited. */
  function SavedServers(workspaceMode: bool, norm: Toml -> Toml, desired: Layer, global: Layer, layer: Layer): Layer {
    if workspaceMode
    then Put(ServerActs(true, norm, desired, global, layer), desired.Keys + global.Keys + layer.Keys, layer)
    else Put(ServerActs(false, norm, desired, layer, map[]), desired.Keys + layer.Keys, layer)
  }

  function SavedAccounts(workspaceMode: bool, norm: Toml -> Toml, desired: Layer, global: Layer, layer: Layer): Layer {
    if workspaceMode
    then Put(MailActs(true, norm, desired, global, layer), desired.Keys + global.Keys + layer.Keys, layer)
    else Put(MailActs(false, norm, desired, layer, map[]), desired.Keys + layer.Keys, layer)
  }

  method SaveServers(document: Toml, section: Name, workspaceMode: bool, norm: Toml -> Toml,
                     desired: Layer, global: Layer)
    returns (edited: Toml)
    requires WellShaped(document, section, "servers")
    ensures WellShaped(edited, section, "servers")
    ensures var layer := LayerOf(document, section, "servers");
      var saved := SavedServers(workspaceMode, norm, desired, global, layer);
      && LayerOf(edited, section, "servers") == saved
      && (forall other :: Apart2(section, "servers", other) ==> Lookup(edited, other) == Lookup(document, other))
      && (saved == layer ==> edited == document)
  {
    var layer := LayerOf(document, section, "servers");
    if !workspaceMode {
      edited := EditNames(document, section, "servers", desired.Keys + layer.Keys,
        ServerActs(false, norm, desired, layer, map[]));
    } else {
      edited := EditNames(document, section, "servers", desired.Keys + global.Keys + layer.Keys,
        ServerActs(true, norm, desired, global, layer));
    }
  }

  method SaveMailAccounts(document: Toml, workspaceMode: bool, norm: Toml -> Toml, desired: Layer, global: Layer)
    returns (edited: Toml)
    requires WellShaped(document, "mail", "accounts")
    ensures WellShaped(edited, "mail", "accounts")
    ensures var layer := LayerOf(document, "mail", "accounts");
      var saved := SavedAccounts(workspaceMode, norm, desired, global, layer);
      && LayerOf(edited, "mail", "accounts") == saved
      && (forall other :: Apart2("mail", "accounts", other) ==> Lookup(edited, other) == Lookup(document, other))
      && (saved == layer ==> edited == document)
  {
    var layer := LayerOf(document, "mail", "accounts");
    var inherited := if workspaceMode then global else layer;
    var current := if workspaceMode then layer else map[];
    edited := EditNames(document, "mail", "accounts", desired.Keys + inherited.Keys + current.Keys,
      MailActs(workspaceMode, norm, desired, inherited, current));
    assert !workspaceMode ==> desired.Keys + inherited.Keys + current.Keys == desired.Keys + layer.Keys;
  }

  // ---- One name of a save ----

  /** What reading a name gives: its workspace entry if any, else the inherited one; tombstones read as absent. */
  function Read(norm: Toml -> Toml, inherited: Option<Toml>, entry: Option<Toml>): Option<Toml> {
    var winner := if entry.Some? then entry else inherited;
    if Live(winner) then Some(norm(winner.value)) else None
  }

  predicate ValidEntry(d: Option<Toml>) {
    d.None? || Active(d.value) || d.value == TOMBSTONE
  }

  /** A wanted definition: normalized and active. */
  predicate ValidWanted(norm: Toml -> Toml, wanted: Option<Toml>) {
    wanted.Some? ==> Active(wanted.value) && norm(wanted.value) == wanted.value
  }

  lemma ReadAfterSave(norm: Toml -> Toml, wanted: Option<Toml>, inherited: Option<Toml>, current: Option<Toml>)
    requires ValidWanted(norm, wanted) && ValidEntry(inherited) && ValidEntry(current)
    ensures var entry := After(ServerAction(true, norm, wanted, inherited, current), current);
      && ValidEntry(entry) && Read(norm, inherited, entry) == wanted
      && (entry == Some(TOMBSTONE) <==> Live(inherited) && wanted.None?)
      && After(ServerAction(true, norm, wanted, inherited, entry), entry) == entry
  {}

  /** A tombstone that hides nothing. */
  predicate Redundant(inherited: Option<Toml>, entry: Option<Toml>) {
    entry == Some(TOMBSTONE) && !Live(inherited)
  }

  /**
   * A save changes as little as it can: an entry that already reads as wanted stays as it is written, and a
   * definition is only written where neither the entry nor what it inherits reads as wanted.
   */
  lemma LeastChange(norm: Toml -> Toml, wanted: Option<Toml>, inherited: Option<Toml>, current: Option<Toml>)
    requires ValidWanted(norm, wanted) && ValidEntry(inherited) && ValidEntry(current)
    ensures var entry := After(ServerAction(true, norm, wanted, inherited, current), current);
      && (Read(norm, inherited, current) == wanted && !Redundant(inherited, current) ==> entry == current)
      && (Redundant(inherited, current) && wanted.None? ==> entry.None?)
      && (Live(entry) && entry != current ==>
            && entry == wanted && Read(norm, inherited, current) != wanted
            && (!Live(current) ==> Read(norm, inherited, None) != wanted))
  {}

  lemma EffectiveEntry(norm: Toml -> Toml, global: Layer, workspace: Layer, name: Name)
    requires ValidEntry(Entry(global, name)) && ValidEntry(Entry(workspace, name))
    ensures Entry(Effective(norm, global, workspace), name) == Read(norm, Entry(global, name), Entry(workspace, name))
  {}

  lemma SavedServersEntry(norm: Toml -> Toml, desired: Layer, global: Layer, layer: Layer, name: Name)
    ensures Entry(SavedServers(true, norm, desired, global, layer), name)
         == After(ServerAction(true, norm, Entry(desired, name), Entry(global, name), Entry(layer, name)),
                  Entry(layer, name))
  {}

  /** With a workspace, one account is saved as a server is, its wanted tombstone being no definition. */
  lemma SavedAccountsEntry(norm: Toml -> Toml, desired: Layer, global: Layer, layer: Layer, name: Name)
    ensures Entry(SavedAccounts(true, norm, desired, global, layer), name)
         == After(ServerAction(true, norm, Entry(Wanted(desired), name), Entry(global, name), Entry(layer, name)),
                  Entry(layer, name))
  {
    MailLikeServer(norm, Entry(desired, name), Entry(global, name), Entry(layer, name));
  }

  lemma ValidEntries(layer: Layer)
    requires forall name :: ValidEntry(Entry(layer, name))
    ensures ValidLayer(layer)
  {
    forall name | name in layer ensures Active(layer[name]) || layer[name] == TOMBSTONE {
      assert ValidEntry(Entry(layer, name));
    }
  }

  // ---- The laws of whole maps ----

  /** What validating the wanted map returns: normalized active definitions. */
  predicate ValidDesired(norm: Toml -> Toml, desired: Layer) {
    forall name :: name in desired ==> ValidWanted(norm, Some(desired[name]))
  }

  /** Reading back after save_servers gives exactly the wanted map. */
  lemma ServersGetAfterPut(norm: Toml -> Toml, desired: Layer, global: Layer, layer: Layer)
    requires ValidDesired(norm, desired) && ValidLayer(global) && ValidLayer(layer)
    ensures Effective(norm, global, SavedServers(true, norm, desired, global, layer)) == desired
  {
    var saved := SavedServers(true, norm, desired, global, layer);
    forall name ensures Entry(Effective(norm, global, saved), name) == Entry(desired, name) {
      SavedServersEntry(norm, desired, global, layer, name);
      ReadAfterSave(norm, Entry(desired, name), Entry(global, name), Entry(layer, name));
      EffectiveEntry(norm, global, saved, name);
    }
    SameEntries(Effective(norm, global, saved), desired);
  }

  /** Without a workspace the only file becomes the wanted map itself. */
  lemma GlobalServersGetAfterPut(norm: Toml -> Toml, desired: Layer, layer: Layer)
    requires ValidDesired(norm, desired) && ValidLayer(layer)
    ensures SavedServers(false, norm, desired, map[], layer) == desired
    ensures Effective(norm, desired, map[]) == desired
  {
    SameEntries(SavedServers(false, norm, desired, map[], layer), desired);
    forall name ensures Entry(Effective(norm, desired, map[]), name) == Entry(desired, name) {
      EffectiveEntry(norm, desired, map[], name);
    }
    SameEntries(Effective(norm, desired, map[]), desired);
  }

  /** Saving the same map again changes no entry, so by SaveServers not even the document. */
  lemma ServersPutTwice(norm: Toml -> Toml, desired: Layer, global: Layer, layer: Layer)
    requires ValidDesired(norm, desired) && ValidLayer(global) && ValidLayer(layer)
    ensures var saved := SavedServers(true, norm, desired, global, layer);
      ValidLayer(saved) && SavedServers(true, norm, desired, global, saved) == saved
  {
    var saved := SavedServers(true, norm, desired, global, layer);
    forall name
      ensures Entry(SavedServers(true, norm, desired, global, saved), name) == Entry(saved, name)
      ensures ValidEntry(Entry(saved, name))
    {
      SavedServersEntry(norm, desired, global, layer, name);
      SavedServersEntry(norm, desired, global, saved, name);
      ReadAfterSave(norm, Entry(desired, name), Entry(global, name), Entry(layer, name));
    }
    ValidEntries(saved);
    SameEntries(SavedServers(true, norm, desired, global, saved), saved);
  }

  /** Saving the map that was read changes nothing, but drops tombstones that hide nothing. */
  lemma ServersPutAfterGet(norm: Toml -> Toml, global: Layer, layer: Layer)
    requires ValidLayer(global) && ValidLayer(layer) && ValidDesired(norm, Effective(norm, global, layer))
    ensures forall name ::
      Entry(SavedServers(true, norm, Effective(norm, global, layer), global, layer), name) ==
        if Redundant(Entry(global, name), Entry(layer, name)) then None else Entry(layer, name)
  {
    var desired := Effective(norm, global, layer);
    forall name
      ensures Entry(SavedServers(true, norm, desired, global, layer), name) ==
        if Redundant(Entry(global, name), Entry(layer, name)) then None else Entry(layer, name)
    {
      SavedServersEntry(norm, desired, global, layer, name);
      EffectiveEntry(norm, global, layer, name);
      LeastChange(norm, Entry(desired, name), Entry(global, name), Entry(layer, name));
    }
  }

  /** So does saving accounts. */
  lemma AccountsPutAfterGet(norm: Toml -> Toml, global: Layer, layer: Layer)
    requires ValidLayer(global) && ValidLayer(layer) && ValidDesired(norm, Effective(norm, global, layer))
    ensures forall name ::
      Entry(SavedAccounts(true, norm, Effective(norm, global, layer), global, layer), name) ==
        if Redundant(Entry(global, name), Entry(layer, name)) then None else Entry(layer, name)
  {
    var desired := Effective(norm, global, layer);
    ServersPutAfterGet(norm, global, layer);
    forall name
      ensures Entry(SavedAccounts(true, norm, desired, global, layer), name) ==
        Entry(SavedServers(true, norm, desired, global, layer), name)
    {
      assert Entry(desired, name) != Some(TOMBSTONE);
      assert Entry(Wanted(desired), name) == Entry(desired, name);
      SavedAccountsEntry(norm, desired, global, layer, name);
      SavedServersEntry(norm, desired, global, layer, name);
    }
  }

  /** A workspace tombstone is left exactly where a globally active server is not wanted. */
  lemma TombstonesAreNeeded(norm: Toml -> Toml, desired: Layer, global: Layer, layer: Layer, name: Name)
    requires ValidDesired(norm, desired) && ValidLayer(global) && ValidLayer(layer)
    ensures Entry(SavedServers(true, norm, desired, global, layer), name) == Some(TOMBSTONE)
       <==> Live(Entry(global, name)) && name !in desired
  {
    ReadAfterSave(norm, Entry(desired, name), Entry(global, name), Entry(layer, name));
  }

  /** The wanted accounts: the desired ones that are not tombstones. */
  function Wanted(desired: Layer): Layer {
    map name | name in desired && desired[name] != TOMBSTONE :: desired[name]
  }

  /** With a workspace, saving accounts reads back exactly; desired tombstones read as absent. */
  lemma AccountsGetAfterPut(norm: Toml -> Toml, desired: Layer, global: Layer, layer: Layer)
    requires ValidDesired(norm, Wanted(desired)) && ValidLayer(global) && ValidLayer(layer)
    ensures Effective(norm, global, SavedAccounts(true, norm, desired, global, layer)) == Wanted(desired)
  {
    var saved := SavedAccounts(true, norm, desired, global, layer);
    forall name ensures Entry(Effective(norm, global, saved), name) == Entry(Wanted(desired), name) {
      SavedAccountsEntry(norm, desired, global, layer, name);
      ReadAfterSave(norm, Entry(Wanted(desired), name), Entry(global, name), Entry(layer, name));
      EffectiveEntry(norm, global, saved, name);
    }
    SameEntries(Effective(norm, global, saved), Wanted(desired));
  }

  /** With a workspace, saving the same accounts again changes nothing. */
  lemma AccountsPutTwice(norm: Toml -> Toml, desired: Layer, global: Layer, layer: Layer)
    requires ValidDesired(norm, Wanted(desired)) && ValidLayer(global) && ValidLayer(layer)
    ensures var saved := SavedAccounts(true, norm, desired, global, layer);
      ValidLayer(saved) && SavedAccounts(true, norm, desired, global, saved) == saved
  {
    var saved := SavedAccounts(true, norm, desired, global, layer);
    forall name
      ensures Entry(SavedAccounts(true, norm, desired, global, saved), name) == Entry(saved, name)
      ensures ValidEntry(Entry(saved, name))
    {
      SavedAccountsEntry(norm, desired, global, layer, name);
      SavedAccountsEntry(norm, desired, global, saved, name);
      ReadAfterSave(norm, Entry(Wanted(desired), name), Entry(global, name), Entry(layer, name));
    }
    ValidEntries(saved);
    SameEntries(SavedAccounts(true, norm, desired, global, saved), saved);
  }

  lemma MailLikeServer(norm: Toml -> Toml, desired: Option<Toml>, inherited: Option<Toml>, current: Option<Toml>)
    ensures MailAction(true, norm, desired, inherited, current)
         == ServerAction(true, norm, if desired == Some(TOMBSTONE) then None else desired, inherited, current)
  {}

  /** Without a workspace, an account whose stored form is already the wanted one is removed. */
  lemma GlobalAccountEntry(norm: Toml -> Toml, desired: Layer, layer: Layer, name: Name)
    ensures Entry(SavedAccounts(false, norm, desired, map[], layer), name)
         == if Entry(Wanted(desired), name) == Entry(layer, name) then None else Entry(Wanted(desired), name)
  {}

  /**
   * Without a workspace the law holds exactly when no wanted account is stored as wanted beforehand; such
   * an account is removed from the only file that holds it.
   */
  lemma GlobalAccountsGetAfterPutExactly(norm: Toml -> Toml, desired: Layer, layer: Layer)
    requires ValidDesired(norm, Wanted(desired)) && ValidLayer(layer)
    ensures Effective(norm, SavedAccounts(false, norm, desired, map[], layer), map[]) == Wanted(desired)
       <==> forall name :: name in Wanted(desired) ==> Entry(layer, name) != Entry(Wanted(desired), name)
  {
    var wanted, saved := Wanted(desired), SavedAccounts(false, norm, desired, map[], layer);
    var read := Effective(norm, saved, map[]);
    forall name
      ensures Entry(read, name) == if Entry(wanted, name) == Entry(layer, name) then None else Entry(wanted, name)
    {
      GlobalAccountEntry(norm, desired, layer, name);
      assert name in wanted ==> ValidWanted(norm, Some(wanted[name]));
      EffectiveEntry(norm, saved, map[], name);
    }
    if forall name :: name in wanted ==> Entry(layer, name) != Entry(wanted, name) {
      SameEntries(read, wanted);
    } else {
      var name :| name in wanted && Entry(layer, name) == Entry(wanted, name);
      assert Entry(read, name) == None;
    }
  }

  /** The plainest failing case: saving the one stored account again deletes it. */
  lemma SavingAnAccountAgainDeletesIt(norm: Toml -> Toml, account: Toml)
    requires Active(account) && norm(account) == account
    ensures var layer := map["me" := account];
      && Effective(norm, layer, map[]) == layer
      && SavedAccounts(false, norm, layer, map[], layer) == map[]
  {
    var layer := map["me" := account];
    SameEntries(Effective(norm, layer, map[]), layer);
    SameEntries(SavedAccounts(false, norm, layer, map[], layer), map[]);
  }
}
