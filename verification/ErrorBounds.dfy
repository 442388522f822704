/** Structured error descriptions that are cut down until their compact JSON fits a byte limit. */
module ErrorBounds {
  import opened Outcomes
  import opened Utf8
  import opened JsonText
  import opened JsonValues

  const SEPARATOR: Text := [0x3A, 0x20]

  // ---- Bounding text ----

  /** Encoding with replacement: lone surrogates become question marks. */
  function Replaced(text: Text): (r: Text)
    ensures |r| == |text| && forall c :: c in r ==> Encodable(c)
  {
    seq(|text|, i requires 0 <= i < |text| => if Encodable(text[i]) then text[i] else QUESTION_MARK)
  }

  /** The whole characters among the first `limit` bytes. */
  function SafeText(text: Text, limit: int): Text {
    Replaced(text)[..CutLength(Replaced(text), limit)]
  }

  lemma SafeTextFits(text: Text, limit: nat)
    ensures Utf8Size(SafeText(text, limit)) <= limit && SafeText(text, limit) <= Replaced(text)
    ensures SafeText(text, limit) == Replaced(text) <==> Utf8Size(Replaced(text)) <= limit
    ensures forall c :: c in SafeText(text, limit) ==> Encodable(c)
    ensures var n := |SafeText(text, limit)|; n < |text| ==> Utf8Size(Replaced(text)[..n + 1]) > limit
  {
    var raw := Replaced(text);
    CutIsLongest(raw, limit);
    var n := CutLength(raw, limit);
    if n < |raw| {
      assert raw == raw[..n + 1] + raw[n + 1..];
      EscapedParts(raw[..n + 1], raw[n + 1..]);
    } else {
      assert raw[..n] == raw;
    }
  }

  // ---- Copying details ----

  /** What exception details may hold: numbers come with their text, other objects with their description. */
  datatype Value =
    | Null
    | Flag(value: bool)
    | Integer(text: Text)
    | Float(finite: bool, text: Text)
    | Words(text: Text)
    | Mapping(members: seq<Entry>)
    | Items(items: seq<Value>)
    | Other(text: Text)

  datatype Entry = Entry(name: Text, value: Value)

  /** A copy, and what is left of the shared byte and node budgets. */
  datatype Copy = Copy(json: Json, budget: int, nodes: int)
  datatype Copies = Copies(members: seq<Member>, budget: int, nodes: int)
  datatype Elements = Elements(items: seq<Json>, budget: int, nodes: int)

  const MAX_DEPTH := 3

  predicate Active(depth: nat, budget: int, nodes: int) {
    budget > 0 && nodes > 0 && depth <= MAX_DEPTH
  }

  function Min(a: int, b: int): int {
    if a < b then a else b
  }

  function JsonDetails(value: Value, depth: nat, budget: int, nodes: int): Copy
    decreases value
  {
    if budget <= 0 || nodes <= 0 then Copy(TRUNCATED, budget, nodes)
    else if depth > MAX_DEPTH then Copy(TOO_DEEP, budget, nodes)
    else
      match value
      case Null => Copy(JNull, budget, nodes - 1)
      case Flag(b) => Copy(JFlag(b), budget, nodes - 1)
      case Integer(text) =>
        if |text| > 64 then Spend(JText(SafeText(text, 64)), Utf8Size(SafeText(text, 64)), budget, nodes)
        else Spend(JNumber(text), |text|, budget, nodes)
      case Float(finite, text) =>
        if finite then Spend(JNumber(text), |text|, budget, nodes) else Spend(JNull, 4, budget, nodes)
      case Words(text) =>
        var kept := SafeText(text, Min(1024, budget));
        Spend(JText(kept), Utf8Size(kept), budget, nodes)
      case Mapping(members) =>
        var r := CopyMembers(members, [], depth, budget, nodes - 1);
        Copy(JObject(r.members), r.budget, r.nodes)
      case Items(items) =>
        var r := CopyItems(items, [], depth, budget, nodes - 1);
        Copy(JList(r.items), r.budget, r.nodes)
      case Other(text) =>
        var kept := SafeText(text, Min(256, budget));
        Spend(JText(kept), Utf8Size(kept), budget, nodes)
  }

  function Spend(json: Json, bytes: nat, budget: int, nodes: int): Copy {
    Copy(json, budget - bytes, nodes - 1)
  }

  /** A name that is cut to one seen before replaces that member's value in place. */
  function PutMember(members: seq<Member>, name: Text, json: Json): seq<Member> {
    if members == [] then [Member(name, json)]
    else if members[0].name == name then [Member(name, json)] + members[1..]
    else [members[0]] + PutMember(members[1..], name, json)
  }

  function CopyMembers(members: seq<Entry>, done: seq<Member>, depth: nat, budget: int, nodes: int): Copies
    decreases members
  {
    if members == [] || budget <= 0 || nodes <= 0 then Copies(done, budget, nodes)
    else
      var name := SafeText(members[0].name, 128);
      var r := JsonDetails(members[0].value, depth + 1, budget - (Utf8Size(name) + 4), nodes);
      CopyMembers(members[1..], PutMember(done, name, r.json), depth, r.budget, r.nodes)
  }

  function CopyItems(items: seq<Value>, done: seq<Json>, depth: nat, budget: int, nodes: int): Elements
    decreases items
  {
    if items == [] || budget <= 0 || nodes <= 0 then Elements(done, budget, nodes)
    else
      var r := JsonDetails(items[0], depth + 1, budget, nodes);
      CopyItems(items[1..], done + [r.json], depth, r.budget, r.nodes)
  }

  // ---- What a copy holds ----

  const TRUNCATED := JText(Ascii("<truncated>"))
  const TOO_DEEP := JText(Ascii("<depth-limit>"))

  /** The copy without any budget: only what is too deep and the ends of long texts are missing. */
  function Whole(value: Value, depth: nat): Json
    decreases value
  {
    if depth > MAX_DEPTH then TOO_DEEP
    else
      match value
      case Null => JNull
      case Flag(b) => JFlag(b)
      case Integer(text) => if |text| > 64 then JText(SafeText(text, 64)) else JNumber(text)
      case Float(finite, text) => if finite then JNumber(text) else JNull
      case Words(text) => JText(SafeText(text, 1024))
      case Mapping(members) => JObject(WholeMembers(members, [], depth))
      case Items(items) => JList(WholeItems(items, [], depth))
      case Other(text) => JText(SafeText(text, 256))
  }

  function WholeMembers(members: seq<Entry>, done: seq<Member>, depth: nat): seq<Member>
    decreases members
  {
    if members == [] then done
    else
      WholeMembers(members[1..],
                   PutMember(done, SafeText(members[0].name, 128), Whole(members[0].value, depth + 1)), depth)
  }

  function WholeItems(items: seq<Value>, done: seq<Json>, depth: nat): seq<Json>
    decreases items
  {
    if items == [] then done else WholeItems(items[1..], done + [Whole(items[0], depth + 1)], depth)
  }

  /** A text cut short by the budget leaves less than one character of it. */
  lemma CutLeavesLittle(text: Text, cap: int, budget: int)
    requires budget > 0 && cap > 0
    ensures var kept := SafeText(text, Min(cap, budget));
      budget - Utf8Size(kept) > 3 ==> kept == SafeText(text, cap)
  {
    if budget < cap {
      SafeTextFits(text, budget);
      SafeTextFits(text, cap);
      var raw, n := Replaced(text), |SafeText(text, budget)|;
      if n < |raw| {
        assert raw[..n + 1] == raw[..n] + [raw[n]] && [raw[n]][1..] == [];
        EscapedParts(raw[..n], [raw[n]]);
      }
    }
  }

  /**
   * With four bytes and a node left at the end, nothing was cut for want of budget: the copy is whole. Both
   * budgets only ever shrink.
   */
  lemma {:induction false} CopyIsWhole(value: Value, depth: nat, budget: int, nodes: int)
    ensures var r := JsonDetails(value, depth, budget, nodes);
      && r.budget <= budget && r.nodes <= nodes
      && (r.budget > 3 && r.nodes > 0 ==> r.json == Whole(value, depth))
    decreases value
  {
    if Active(depth, budget, nodes) {
      match value
      case Words(text) => CutLeavesLittle(text, 1024, budget);
      case Other(text) => CutLeavesLittle(text, 256, budget);
      case Mapping(members) => MembersAreWhole(members, [], depth, budget, nodes - 1);
      case Items(items) => ItemsAreWhole(items, [], depth, budget, nodes - 1);
      case _ =>
    }
  }

  lemma {:induction false} MembersAreWhole(
    members: seq<Entry>, done: seq<Member>, depth: nat, budget: int, nodes: int)
    ensures var r := CopyMembers(members, done, depth, budget, nodes);
      && r.budget <= budget && r.nodes <= nodes
      && (r.budget > 3 && r.nodes > 0 ==> r.members == WholeMembers(members, done, depth))
    decreases members
  {
    if members != [] && budget > 0 && nodes > 0 {
      var name := SafeText(members[0].name, 128);
      var left := budget - (Utf8Size(name) + 4);
      CopyIsWhole(members[0].value, depth + 1, left, nodes);
      var r := JsonDetails(members[0].value, depth + 1, left, nodes);
      MembersAreWhole(members[1..], PutMember(done, name, r.json), depth, r.budget, r.nodes);
    }
  }

  lemma {:induction false} ItemsAreWhole(items: seq<Value>, done: seq<Json>, depth: nat, budget: int, nodes: int)
    ensures var r := CopyItems(items, done, depth, budget, nodes);
      && r.budget <= budget && r.nodes <= nodes
      && (r.budget > 3 && r.nodes > 0 ==> r.items == WholeItems(items, done, depth))
    decreases items
  {
    if items != [] && budget > 0 && nodes > 0 {
      CopyIsWhole(items[0], depth + 1, budget, nodes);
      var r := JsonDetails(items[0], depth + 1, budget, nodes);
      ItemsAreWhole(items[1..], done + [r.json], depth, r.budget, r.nodes);
    }
  }

  /** The bytes and the nodes that a whole copy takes: names with four bytes each, texts as they are kept. */
  function Cost(value: Value, depth: nat): nat
    decreases value
  {
    if depth > MAX_DEPTH then 0
    else
      match value
      case Null => 0
      case Flag(_) => 0
      case Integer(text) => if |text| > 64 then Utf8Size(SafeText(text, 64)) else |text|
      case Float(finite, text) => if finite then |text| else 4
      case Words(text) => Utf8Size(SafeText(text, 1024))
      case Mapping(members) => MembersCost(members, depth)
      case Items(items) => ItemsCost(items, depth)
      case Other(text) => Utf8Size(SafeText(text, 256))
  }

  function MembersCost(members: seq<Entry>, depth: nat): nat
    decreases members
  {
    if members == [] then 0
    else Utf8Size(SafeText(members[0].name, 128)) + 4 + Cost(members[0].value, depth + 1)
           + MembersCost(members[1..], depth)
  }

  function ItemsCost(items: seq<Value>, depth: nat): nat
    decreases items
  {
    if items == [] then 0 else Cost(items[0], depth + 1) + ItemsCost(items[1..], depth)
  }

  function Count(value: Value, depth: nat): nat
    decreases value
  {
    if depth > MAX_DEPTH then 0
    else
      match value
      case Mapping(members) => 1 + MembersCount(members, depth)
      case Items(items) => 1 + ItemsCount(items, depth)
      case _ => 1
  }

  function MembersCount(members: seq<Entry>, depth: nat): nat
    decreases members
  {
    if members == [] then 0 else Count(members[0].value, depth + 1) + MembersCount(members[1..], depth)
  }

  function ItemsCount(items: seq<Value>, depth: nat): nat
    decreases items
  {
    if items == [] then 0 else Count(items[0], depth + 1) + ItemsCount(items[1..], depth)
  }

  lemma BudgetOverCost(text: Text, cap: nat, budget: nat)
    requires budget >= Utf8Size(SafeText(text, cap))
    ensures SafeText(text, Min(cap, budget)) == SafeText(text, cap)
  {
    if budget < cap {
      SafeTextFits(text, budget);
      SafeTextGrows(text, budget, cap);
      var raw, n, m := Replaced(text), |SafeText(text, budget)|, |SafeText(text, cap)|;
      if n < m {
        assert raw[..m] == raw[..n + 1] + raw[n + 1..m];
        EscapedParts(raw[..n + 1], raw[n + 1..m]);
      }
    }
  }

  /** Budgets larger than what the whole copy takes give the whole copy, and are used up by just that much. */
  lemma {:induction false} CopyCosts(value: Value, depth: nat, budget: int, nodes: int)
    requires budget > Cost(value, depth) && nodes > Count(value, depth)
    ensures JsonDetails(value, depth, budget, nodes) ==
      Copy(Whole(value, depth), budget - Cost(value, depth), nodes - Count(value, depth))
    decreases value
  {
    if depth <= MAX_DEPTH && value.Mapping? {
      MappingCosts(value.members, depth, budget, nodes);
    } else if depth <= MAX_DEPTH && value.Items? {
      ListCosts(value.items, depth, budget, nodes);
    } else {
      LeafCosts(value, depth, budget, nodes);
    }
  }

  lemma {:induction false} MappingCosts(members: seq<Entry>, depth: nat, budget: int, nodes: int)
    requires depth <= MAX_DEPTH && budget > MembersCost(members, depth) && nodes > 1 + MembersCount(members, depth)
    ensures JsonDetails(Mapping(members), depth, budget, nodes) ==
      Copy(Whole(Mapping(members), depth), budget - Cost(Mapping(members), depth),
           nodes - Count(Mapping(members), depth))
    decreases members, 1
  {
    MembersCosts(members, [], depth, budget, nodes - 1);
  }

  lemma {:induction false} ListCosts(items: seq<Value>, depth: nat, budget: int, nodes: int)
    requires depth <= MAX_DEPTH && budget > ItemsCost(items, depth) && nodes > 1 + ItemsCount(items, depth)
    ensures JsonDetails(Items(items), depth, budget, nodes) ==
      Copy(Whole(Items(items), depth), budget - Cost(Items(items), depth), nodes - Count(Items(items), depth))
    decreases items, 1
  {
    ItemsCosts(items, [], depth, budget, nodes - 1);
  }

  lemma LeafCosts(value: Value, depth: nat, budget: int, nodes: int)
    requires depth > MAX_DEPTH || (!value.Mapping? && !value.Items?)
    requires budget > Cost(value, depth) && nodes > Count(value, depth)
    ensures JsonDetails(value, depth, budget, nodes) ==
      Copy(Whole(value, depth), budget - Cost(value, depth), nodes - Count(value, depth))
  {
    match value
    case Words(text) => if depth <= MAX_DEPTH { BudgetOverCost(text, 1024, budget); }
    case Other(text) => if depth <= MAX_DEPTH { BudgetOverCost(text, 256, budget); }
    case _ =>
  }

  lemma {:induction false} MembersCosts(
    members: seq<Entry>, done: seq<Member>, depth: nat, budget: int, nodes: int)
    requires budget > MembersCost(members, depth) && nodes > MembersCount(members, depth)
    ensures CopyMembers(members, done, depth, budget, nodes) ==
      Copies(WholeMembers(members, done, depth), budget - MembersCost(members, depth),
             nodes - MembersCount(members, depth))
    decreases members, 0
  {
    if members != [] {
      var name := SafeText(members[0].name, 128);
      var left := budget - (Utf8Size(name) + 4);
      CopyCosts(members[0].value, depth + 1, left, nodes);
      var r := JsonDetails(members[0].value, depth + 1, left, nodes);
      MembersCosts(members[1..], PutMember(done, name, r.json), depth, r.budget, r.nodes);
    }
  }

  lemma {:induction false} ItemsCosts(items: seq<Value>, done: seq<Json>, depth: nat, budget: int, nodes: int)
    requires budget > ItemsCost(items, depth) && nodes > ItemsCount(items, depth)
    ensures CopyItems(items, done, depth, budget, nodes) ==
      Elements(WholeItems(items, done, depth), budget - ItemsCost(items, depth), nodes - ItemsCount(items, depth))
    decreases items, 0
  {
    if items != [] {
      CopyCosts(items[0], depth + 1, budget, nodes);
      var r := JsonDetails(items[0], depth + 1, budget, nodes);
      ItemsCosts(items[1..], done + [r.json], depth, r.budget, r.nodes);
    }
  }

  /** The names in turn given these values, as far as there are any. */
  function PutAll(done: seq<Member>, members: seq<Entry>, values: seq<Json>): seq<Member>
    decreases |values|
  {
    if members == [] || values == [] then done
    else PutAll(PutMember(done, SafeText(members[0].name, 128), values[0]), members[1..], values[1..])
  }

  /** Whatever the budgets: in place of a value, a front of it, a front of its members or elements, or a marker. */
  ghost predicate Pruned(json: Json, value: Value, depth: nat)
    decreases value
  {
    if json == TRUNCATED then true
    else if depth > MAX_DEPTH then json == TOO_DEEP
    else
      match value
      case Mapping(members) =>
        json.JObject? && exists values: seq<Json> ::
          && |values| <= |members| && json.members == PutAll([], members, values)
          && forall i :: 0 <= i < |values| ==> Pruned(values[i], members[i].value, depth + 1)
      case Items(items) =>
        && json.JList? && |json.items| <= |items|
        && forall i :: 0 <= i < |json.items| ==> Pruned(json.items[i], items[i], depth + 1)
      case Words(text) => json.JText? && json.text <= SafeText(text, 1024)
      case Other(text) => json.JText? && json.text <= SafeText(text, 256)
      case _ => json == Whole(value, depth)
  }

  /** The copies of a mapping's values, in order, until a budget is used up. */
  function MemberCopies(members: seq<Entry>, depth: nat, budget: int, nodes: int): (values: seq<Json>)
    ensures |values| <= |members|
    decreases members
  {
    if members == [] || budget <= 0 || nodes <= 0 then []
    else
      var r := FirstCopy(members, depth, budget, nodes);
      [r.json] + MemberCopies(members[1..], depth, r.budget, r.nodes)
  }

  function NameCost(member: Entry): nat {
    Utf8Size(SafeText(member.name, 128)) + 4
  }

  function FirstCopy(members: seq<Entry>, depth: nat, budget: int, nodes: int): Copy
    requires members != []
    decreases members, 0
  {
    JsonDetails(members[0].value, depth + 1, budget - NameCost(members[0]), nodes)
  }

  lemma SafeTextGrows(text: Text, low: int, high: int)
    requires low <= high
    ensures SafeText(text, low) <= SafeText(text, high)
  {
    CutLengthGrows(Replaced(text), low, high);
  }

  lemma {:induction false} CutLengthGrows(text: Text, low: int, high: int)
    requires low <= high
    ensures CutLength(text, low) <= CutLength(text, high)
  {
    if text != [] && Bytes(text[0]) <= low {
      CutLengthGrows(text[1..], low - Bytes(text[0]), high - Bytes(text[0]));
    }
  }

  lemma {:induction false} MembersArePut(
    members: seq<Entry>, done: seq<Member>, depth: nat, budget: int, nodes: int)
    ensures CopyMembers(members, done, depth, budget, nodes).members ==
      PutAll(done, members, MemberCopies(members, depth, budget, nodes))
    decreases |members|
  {
    if members != [] && budget > 0 && nodes > 0 {
      var name, r := SafeText(members[0].name, 128), FirstCopy(members, depth, budget, nodes);
      var rest := MemberCopies(members[1..], depth, r.budget, r.nodes);
      MembersArePut(members[1..], PutMember(done, name, r.json), depth, r.budget, r.nodes);
      PutAllStep(done, members, r.json, rest);
    }
  }

  lemma PutAllStep(done: seq<Member>, members: seq<Entry>, value: Json, rest: seq<Json>)
    requires members != []
    ensures PutAll(done, members, [value] + rest) ==
      PutAll(PutMember(done, SafeText(members[0].name, 128), value), members[1..], rest)
  {
    assert ([value] + rest)[1..] == rest;
  }

  /** Every copy is the value or a pruned one, and what is missing of a list or a mapping is its end. */
  lemma {:induction false} CopyIsPruned(value: Value, depth: nat, budget: int, nodes: int)
    ensures Pruned(JsonDetails(value, depth, budget, nodes).json, value, depth)
    decreases value
  {
    if !Active(depth, budget, nodes) {
      MarkerIsPruned(value, depth, budget, nodes);
    } else if value.Mapping? {
      MembersArePruned(value.members, depth, budget, nodes - 1);
      MappingIsPruned(value.members, depth, budget, nodes);
    } else if value.Items? {
      ItemsArePruned(value.items, depth, budget, nodes - 1);
      ListIsPruned(value.items, depth, budget, nodes);
    } else {
      LeafIsPruned(value, depth, budget, nodes);
    }
  }

  lemma MarkerIsPruned(value: Value, depth: nat, budget: int, nodes: int)
    requires !Active(depth, budget, nodes)
    ensures Pruned(JsonDetails(value, depth, budget, nodes).json, value, depth)
  {
  }

  lemma LeafIsPruned(value: Value, depth: nat, budget: int, nodes: int)
    requires Active(depth, budget, nodes) && !value.Mapping? && !value.Items?
    ensures Pruned(JsonDetails(value, depth, budget, nodes).json, value, depth)
  {
    match value
    case Words(text) => SafeTextGrows(text, Min(1024, budget), 1024);
    case Other(text) => SafeTextGrows(text, Min(256, budget), 256);
    case _ =>
  }

  lemma MappingIsPruned(members: seq<Entry>, depth: nat, budget: int, nodes: int)
    requires Active(depth, budget, nodes)
    requires EachMember(MemberCopies(members, depth, budget, nodes - 1), members, PrunedAt(depth + 1))
    ensures Pruned(JsonDetails(Mapping(members), depth, budget, nodes).json, Mapping(members), depth)
  {
    MembersArePut(members, [], depth, budget, nodes - 1);
    var values := MemberCopies(members, depth, budget, nodes - 1);
    assert forall i :: 0 <= i < |values| ==> PrunedAt(depth + 1)(values[i], members[i].value);
  }

  lemma ListIsPruned(items: seq<Value>, depth: nat, budget: int, nodes: int)
    requires Active(depth, budget, nodes)
    requires EachItem(ItemCopies(items, depth, budget, nodes - 1), items, PrunedAt(depth + 1))
    ensures Pruned(JsonDetails(Items(items), depth, budget, nodes).json, Items(items), depth)
  {
    ItemsAreAppended(items, [], depth, budget, nodes - 1);
    var values := ItemCopies(items, depth, budget, nodes - 1);
    assert forall i :: 0 <= i < |values| ==> PrunedAt(depth + 1)(values[i], items[i]);
  }

  ghost function PrunedAt(depth: nat): (Json, Value) -> bool {
    (json, value) => Pruned(json, value, depth)
  }

  ghost predicate EachMember(values: seq<Json>, members: seq<Entry>, fits: (Json, Value) -> bool) {
    |values| <= |members| && forall i :: 0 <= i < |values| ==> fits(values[i], members[i].value)
  }

  ghost predicate EachItem(values: seq<Json>, items: seq<Value>, fits: (Json, Value) -> bool) {
    |values| <= |items| && forall i :: 0 <= i < |values| ==> fits(values[i], items[i])
  }

  lemma OneMoreMember(value: Json, values: seq<Json>, members: seq<Entry>, fits: (Json, Value) -> bool)
    requires members != [] && fits(value, members[0].value) && EachMember(values, members[1..], fits)
    ensures EachMember([value] + values, members, fits)
  {
  }

  lemma OneMoreItem(value: Json, values: seq<Json>, items: seq<Value>, fits: (Json, Value) -> bool)
    requires items != [] && fits(value, items[0]) && EachItem(values, items[1..], fits)
    ensures EachItem([value] + values, items, fits)
  {
  }

  lemma {:induction false} MembersArePruned(members: seq<Entry>, depth: nat, budget: int, nodes: int)
    ensures EachMember(MemberCopies(members, depth, budget, nodes), members, PrunedAt(depth + 1))
    decreases members
  {
    if members != [] && budget > 0 && nodes > 0 {
      CopyIsPruned(members[0].value, depth + 1, budget - NameCost(members[0]), nodes);
      var r := FirstCopy(members, depth, budget, nodes);
      assert PrunedAt(depth + 1)(r.json, members[0].value);
      MembersArePruned(members[1..], depth, r.budget, r.nodes);
      OneMoreMember(r.json, MemberCopies(members[1..], depth, r.budget, r.nodes), members, PrunedAt(depth + 1));
    }
  }

  /** The copies of a list's elements, in order, until a budget is used up. */
  function ItemCopies(items: seq<Value>, depth: nat, budget: int, nodes: int): seq<Json>
    decreases items
  {
    if items == [] || budget <= 0 || nodes <= 0 then []
    else
      var r := JsonDetails(items[0], depth + 1, budget, nodes);
      [r.json] + ItemCopies(items[1..], depth, r.budget, r.nodes)
  }

  lemma {:induction false} ItemsAreAppended(items: seq<Value>, done: seq<Json>, depth: nat, budget: int, nodes: int)
    ensures CopyItems(items, done, depth, budget, nodes).items == done + ItemCopies(items, depth, budget, nodes)
    decreases |items|
  {
    if items != [] && budget > 0 && nodes > 0 {
      var r := JsonDetails(items[0], depth + 1, budget, nodes);
      ItemsAreAppended(items[1..], done + [r.json], depth, r.budget, r.nodes);
      assert ItemCopies(items, depth, budget, nodes) == [r.json] + ItemCopies(items[1..], depth, r.budget, r.nodes);
    }
  }

  lemma {:induction false} ItemsArePruned(items: seq<Value>, depth: nat, budget: int, nodes: int)
    ensures EachItem(ItemCopies(items, depth, budget, nodes), items, PrunedAt(depth + 1))
    decreases items
  {
    if items != [] && budget > 0 && nodes > 0 {
      CopyIsPruned(items[0], depth + 1, budget, nodes);
      var r := JsonDetails(items[0], depth + 1, budget, nodes);
      ItemsArePruned(items[1..], depth, r.budget, r.nodes);
      OneMoreItem(r.json, ItemCopies(items[1..], depth, r.budget, r.nodes), items, PrunedAt(depth + 1));
    }
  }

  /** Assigning a member of an object: the others and the order stay as they were, a new one comes last. */
  lemma {:induction false} PutMemberKeeps(members: seq<Member>, name: Text, json: Json)
    ensures var r := PutMember(members, name, json);
      && |members| <= |r|
      && (forall i :: 0 <= i < |members| ==> r[i].name == members[i].name)
      && (forall i :: 0 <= i < |members| && members[i].name != name ==> r[i] == members[i])
  {
    if members != [] && members[0].name != name {
      PutMemberKeeps(members[1..], name, json);
    }
  }

  lemma {:induction false} PutMemberAssigns(members: seq<Member>, name: Text, json: Json) returns (at: nat)
    ensures var r := PutMember(members, name, json);
      && at < |r| && r[at] == Member(name, json)
      && (if at < |members| then |r| == |members| && members[at].name == name else at == |members| && |r| == at + 1)
      && (forall i :: 0 <= i < at && i < |members| ==> members[i].name != name)
  {
    at := 0;
    if members != [] && members[0].name != name {
      at := PutMemberAssigns(members[1..], name, json);
      at := at + 1;
    }
  }

  // ---- How large a copy can be ----

  function Nodes(json: Json): nat
    decreases json
  {
    match json
    case JObject(members) => 1 + MemberNodes(members)
    case JList(items) => 1 + ItemNodes(items)
    case _ => 1
  }

  function MemberNodes(members: seq<Member>): nat
    decreases members
  {
    if members == [] then 0 else Nodes(members[0].value) + MemberNodes(members[1..])
  }

  function ItemNodes(items: seq<Json>): nat
    decreases items
  {
    if items == [] then 0 else Nodes(items[0]) + ItemNodes(items[1..])
  }

  lemma {:induction false} PutMemberNodes(members: seq<Member>, name: Text, json: Json)
    ensures MemberNodes(PutMember(members, name, json)) <= MemberNodes(members) + Nodes(json)
  {
    if members == [] {
      assert [Member(name, json)][1..] == [];
    } else if members[0].name == name {
      assert ([Member(name, json)] + members[1..])[1..] == members[1..];
    } else {
      PutMemberNodes(members[1..], name, json);
      assert ([members[0]] + PutMember(members[1..], name, json))[1..] == PutMember(members[1..], name, json);
    }
  }

  lemma {:induction false} MemberNodesAppend(members: seq<Member>, member: Member)
    ensures MemberNodes(members + [member]) == MemberNodes(members) + Nodes(member.value)
  {
    if members == [] {
      assert (members + [member])[1..] == [];
    } else {
      assert (members + [member])[1..] == members[1..] + [member];
      MemberNodesAppend(members[1..], member);
    }
  }

  lemma {:induction false} ItemNodesAppend(items: seq<Json>, json: Json)
    ensures ItemNodes(items + [json]) == ItemNodes(items) + Nodes(json)
  {
    if items == [] {
      assert (items + [json])[1..] == [];
    } else {
      assert (items + [json])[1..] == items[1..] + [json];
      ItemNodesAppend(items[1..], json);
    }
  }

  /** No list with elements stands so deep that these are only marked as too deep. */
  predicate NoDeepLists(value: Value, depth: nat)
    decreases value
  {
    match value
    case Mapping(members) => forall i :: 0 <= i < |members| ==> NoDeepLists(members[i].value, depth + 1)
    case Items(items) =>
      && (depth == MAX_DEPTH ==> items == [])
      && forall i :: 0 <= i < |items| ==> NoDeepLists(items[i], depth + 1)
    case _ => true
  }

  /** What a copy has taken from the two budgets. */
  function Paid(copy: Copy, budget: int, nodes: int): int {
    (nodes - copy.nodes) + (budget - copy.budget)
  }

  /** Without such lists every node of the copy is paid for: the budgets bound the whole copy. */
  lemma {:induction false} CopyIsPaidFor(value: Value, depth: nat, budget: int, nodes: int)
    requires NoDeepLists(value, depth)
    ensures var r := JsonDetails(value, depth, budget, nodes);
      && r.budget <= budget && r.nodes <= nodes
      && Nodes(r.json) <= if Active(depth, budget, nodes) then Paid(r, budget, nodes) else 1
    decreases value
  {
    if Active(depth, budget, nodes) {
      match value
      case Mapping(members) => MembersArePaidFor(members, [], depth, budget, nodes - 1);
      case Items(items) => ItemsArePaidFor(items, [], depth, budget, nodes - 1);
      case _ =>
    }
  }

  lemma {:induction false} MembersArePaidFor(
    members: seq<Entry>, done: seq<Member>, depth: nat, budget: int, nodes: int)
    requires forall i :: 0 <= i < |members| ==> NoDeepLists(members[i].value, depth + 1)
    ensures var r := CopyMembers(members, done, depth, budget, nodes);
      && r.budget <= budget && r.nodes <= nodes
      && MemberNodes(r.members) <= MemberNodes(done) + (nodes - r.nodes) + (budget - r.budget)
    decreases members
  {
    if members != [] && budget > 0 && nodes > 0 {
      var name := SafeText(members[0].name, 128);
      var left := budget - (Utf8Size(name) + 4);
      CopyIsPaidFor(members[0].value, depth + 1, left, nodes);
      var r := JsonDetails(members[0].value, depth + 1, left, nodes);
      PutMemberNodes(done, name, r.json);
      MembersArePaidFor(members[1..], PutMember(done, name, r.json), depth, r.budget, r.nodes);
    }
  }

  lemma {:induction false} ItemsArePaidFor(items: seq<Value>, done: seq<Json>, depth: nat, budget: int, nodes: int)
    requires items != [] ==> depth < MAX_DEPTH
    requires forall i :: 0 <= i < |items| ==> NoDeepLists(items[i], depth + 1)
    ensures var r := CopyItems(items, done, depth, budget, nodes);
      && r.budget <= budget && r.nodes <= nodes
      && ItemNodes(r.items) <= ItemNodes(done) + (nodes - r.nodes) + (budget - r.budget)
    decreases items
  {
    if items != [] && budget > 0 && nodes > 0 {
      CopyIsPaidFor(items[0], depth + 1, budget, nodes);
      var r := JsonDetails(items[0], depth + 1, budget, nodes);
      ItemNodesAppend(done, r.json);
      ItemsArePaidFor(items[1..], done + [r.json], depth, r.budget, r.nodes);
    }
  }

  /** A list at the deepest level is copied in full whatever the budgets are, one free marker an element. */
  lemma {:induction false} DeepListIsFree(items: seq<Value>, done: seq<Json>, budget: int, nodes: int)
    requires budget > 0 && nodes > 0
    ensures var r := CopyItems(items, done, MAX_DEPTH, budget, nodes);
      && |r.items| == |done| + |items| && r.budget == budget && r.nodes == nodes
    decreases |items|
  {
    if items != [] {
      DeepListIsFree(items[1..], done + [TOO_DEEP], budget, nodes);
    }
  }

  /**
   * At the deepest level the bound is exact: while budget is left, a list there is paid for exactly when it
   * has no elements or is itself the last node.
   */
  lemma DeepListIsPaidExactly(items: seq<Value>, budget: int, nodes: int)
    requires Active(MAX_DEPTH, budget, nodes)
    ensures var r := JsonDetails(Items(items), MAX_DEPTH, budget, nodes);
      Nodes(r.json) <= Paid(r, budget, nodes) <==> items == [] || nodes == 1
  {
    if nodes > 1 {
      DeepListIsFree(items, [], budget, nodes - 1);
      var copied := CopyItems(items, [], MAX_DEPTH, budget, nodes - 1).items;
      if copied != [] {
        assert ItemNodes(copied) >= Nodes(copied[0]) >= 1;
      }
    }
  }

  lemma {:induction false} MarkersAreNodes(items: seq<Value>, done: seq<Json>, budget: int, nodes: int)
    requires budget > 0 && nodes > 0
    ensures ItemNodes(CopyItems(items, done, MAX_DEPTH, budget, nodes).items) == ItemNodes(done) + |items|
    decreases |items|
  {
    if items != [] {
      ItemNodesAppend(done, TOO_DEEP);
      MarkersAreNodes(items[1..], done + [TOO_DEEP], budget, nodes);
    }
  }

  /** A mapping with one member, under the empty name. */
  function Wrap(value: Value): Value {
    Mapping([Entry([], value)])
  }

  function Wrapped(value: Value, count: nat): Value {
    if count == 0 then value else Wrap(Wrapped(value, count - 1))
  }

  lemma WrapCopies(value: Value, depth: nat, budget: int, nodes: int)
    requires depth < MAX_DEPTH && budget > 4 && nodes > 1
    ensures var inner := JsonDetails(value, depth + 1, budget - 4, nodes - 1);
      var outer := JsonDetails(Wrap(value), depth, budget, nodes);
      && Nodes(outer.json) == 1 + Nodes(inner.json)
      && outer.budget == inner.budget && outer.nodes == inner.nodes
  {
    var entries := [Entry([], value)];
    var inner := JsonDetails(value, depth + 1, budget - 4, nodes - 1);
    assert entries[1..] == [] && SafeText([], 128) == [];
    assert CopyMembers(entries, [], depth, budget, nodes - 1)
        == CopyMembers([], [Member([], inner.json)], depth, inner.budget, inner.nodes);
    var copied := [Member([], inner.json)];
    assert copied[1..] == [] && MemberNodes(copied) == Nodes(inner.json) + MemberNodes([]);
  }

  /**
   * The whole copy escapes both budgets: a list under mappings down to the deepest level takes five units of
   * them a mapping and one for itself, whatever its length, and has a node for each of its elements. Copied from
   * the top, it is therefore paid for exactly when it has at most 12 elements, and no budget bounds it.
   */
  lemma DeepListEscapes(items: seq<Value>, depth: nat, budget: int, nodes: int)
    requires depth <= MAX_DEPTH && budget > 4 * (MAX_DEPTH - depth) && nodes > MAX_DEPTH - depth + 1
    ensures var count := MAX_DEPTH - depth;
      var r := JsonDetails(Wrapped(Items(items), count), depth, budget, nodes);
      && Nodes(r.json) == |items| + count + 1 && Paid(r, budget, nodes) == 5 * count + 1
      && (|items| > budget + nodes ==> Nodes(r.json) > budget + nodes)
  {
    DetailsAddWraps();
    var count := MAX_DEPTH - depth;
    WrappedCopies(JsonDetails, Items(items), count, depth, budget, nodes);
    DeepListCopies(items, budget - 4 * count, nodes - count);
  }

  type Copier = (Value, nat, int, int) -> Copy

  /** Around a value, a mapping adds one node, and takes one and the bytes of its member. */
  ghost predicate WrapAdds(copy: Copier, value: Value, depth: nat, budget: int, nodes: int) {
    var (inner, outer) := (copy(value, depth + 1, budget - 4, nodes - 1), copy(Wrap(value), depth, budget, nodes));
    Nodes(outer.json) == 1 + Nodes(inner.json) && outer.budget == inner.budget && outer.nodes == inner.nodes
  }

  ghost predicate WrapsAdd(copy: Copier) {
    forall value, depth: nat, budget, nodes | depth < MAX_DEPTH && budget > 4 && nodes > 1 ::
      WrapAdds(copy, value, depth, budget, nodes)
  }

  lemma DetailsAddWraps()
    ensures WrapsAdd(JsonDetails)
  {
    forall value, depth: nat, budget, nodes | depth < MAX_DEPTH && budget > 4 && nodes > 1
      ensures WrapAdds(JsonDetails, value, depth, budget, nodes)
    {
      WrapCopies(value, depth, budget, nodes);
    }
  }

  lemma OneMoreWrap(copy: Copier, value: Value, depth: nat, budget: int, nodes: int)
    requires WrapsAdd(copy) && depth < MAX_DEPTH && budget > 4 && nodes > 1
    ensures WrapAdds(copy, value, depth, budget, nodes)
  {
  }

  lemma {:induction false} WrappedCopies(
    copy: Copier, value: Value, count: nat, depth: nat, budget: int, nodes: int)
    requires WrapsAdd(copy) && depth + count <= MAX_DEPTH && budget > 4 * count && nodes > count
    ensures var inner := copy(value, depth + count, budget - 4 * count, nodes - count);
      var outer := copy(Wrapped(value, count), depth, budget, nodes);
      && Nodes(outer.json) == count + Nodes(inner.json)
      && outer.budget == inner.budget && outer.nodes == inner.nodes
  {
    if count > 0 {
      var wrapped := Wrapped(value, count - 1);
      WrappedCopies(copy, value, count - 1, depth + 1, budget - 4, nodes - 1);
      OneMoreWrap(copy, wrapped, depth, budget, nodes);
    }
  }

  lemma DeepListCopies(items: seq<Value>, budget: int, nodes: int)
    requires budget > 0 && nodes > 1
    ensures var r := JsonDetails(Items(items), MAX_DEPTH, budget, nodes);
      Nodes(r.json) == 1 + |items| && r.budget == budget && r.nodes == nodes - 1
  {
    DeepListIsFree(items, [], budget, nodes - 1);
    MarkersAreNodes(items, [], budget, nodes - 1);
  }

  // ---- Encoding ----

  datatype Info = Info(code: Text, kind: Text, message: Text, truncated: bool,
                       operation: Option<Text>, details: Option<Json>)

  function FieldPart(name: string, text: Text): Text {
    Ascii(name) + Literal(text)
  }

  function FlagPart(truncated: bool): Text {
    Ascii(if truncated then ",\"truncated\":true" else ",\"truncated\":false")
  }

  function OperationPart(operation: Option<Text>): Text {
    if operation.Some? then FieldPart(",\"operation\":", operation.value) else []
  }

  function DetailsPart(details: Option<Json>): Text {
    if details.Some? then Ascii(",\"details\":") + Render(details.value) else []
  }

  function RenderInfo(info: Info): Text {
    FieldPart("{\"code\":", info.code) + FieldPart(",\"type\":", info.kind)
    + FieldPart(",\"message\":", info.message) + FlagPart(info.truncated)
    + OperationPart(info.operation) + DetailsPart(info.details) + Ascii("}")
  }

  function EncodedSize(info: Info): nat {
    |Encode(RenderInfo(info))|
  }

  // ---- The size of an encoding ----

  /** The bytes of everything but the three texts, which are cut last. */
  function FrameSize(info: Info): nat {
    47 + (if info.truncated then 4 else 5)
    + (if info.operation.Some? then 15 + Escaped(info.operation.value) else 0)
    + (if info.details.Some? then 11 + Utf8Size(Render(info.details.value)) else 0)
  }

  lemma EncodedSizeIs(info: Info)
    ensures EncodedSize(info) == FrameSize(info) + Escaped(info.code) + Escaped(info.kind) + Escaped(info.message)
  {
    EncodeSize(RenderInfo(info));
    SevenParts(FieldPart("{\"code\":", info.code), FieldPart(",\"type\":", info.kind),
               FieldPart(",\"message\":", info.message), FlagPart(info.truncated),
               OperationPart(info.operation), DetailsPart(info.details), Ascii("}"));
    FieldSize("{\"code\":", info.code);
    FieldSize(",\"type\":", info.kind);
    FieldSize(",\"message\":", info.message);
    FlagSize(info.truncated);
    OptionalPartsSize(info);
    AsciiSize("}");
  }

  lemma FieldSize(name: string, text: Text)
    ensures Utf8Size(FieldPart(name, text)) == |name| + 2 + Escaped(text)
  {
    AsciiSize(name);
    LiteralSize(text);
    EscapedParts(Ascii(name), Literal(text));
  }

  lemma FlagSize(truncated: bool)
    ensures Utf8Size(FlagPart(truncated)) == 13 + if truncated then 4 else 5
  {
    AsciiSize(if truncated then ",\"truncated\":true" else ",\"truncated\":false");
  }

  lemma OptionalPartsSize(info: Info)
    ensures Utf8Size(OperationPart(info.operation)) ==
      if info.operation.Some? then 15 + Escaped(info.operation.value) else 0
    ensures Utf8Size(DetailsPart(info.details)) ==
      if info.details.Some? then 11 + Utf8Size(Render(info.details.value)) else 0
  {
    if info.operation.Some? {
      FieldSize(",\"operation\":", info.operation.value);
    }
    if info.details.Some? {
      AsciiSize(",\"details\":");
      EscapedParts(Ascii(",\"details\":"), Render(info.details.value));
    }
  }

  lemma SevenParts(a: Text, b: Text, c: Text, d: Text, e: Text, f: Text, g: Text)
    ensures Utf8Size(a + b + c + d + e + f + g) ==
      Utf8Size(a) + Utf8Size(b) + Utf8Size(c) + Utf8Size(d) + Utf8Size(e) + Utf8Size(f) + Utf8Size(g)
  {
    EscapedParts(a, b);
    EscapedParts(a + b, c);
    EscapedParts(a + b + c, d);
    EscapedParts(a + b + c + d, e);
    EscapedParts(a + b + c + d + e, f);
    EscapedParts(a + b + c + d + e + f, g);
  }

  // ---- The description before it is bounded ----

  /** What can be learnt of an exception; `unreadable` when reading its details fails. */
  datatype Failure = Failure(name: Text, detail: Option<Text>, code: Text, kind: Text, operation: Option<Text>,
                             details: seq<Entry>, extras: seq<Entry>, unreadable: bool)

  datatype Gathered = Gathered(json: Json, budget: int, nodes: int, failed: bool)

  function Max(a: int, b: int): int {
    if a > b then a else b
  }

  function Headline(f: Failure): Text {
    f.name + SEPARATOR + if f.detail.Some? then f.detail.value else Ascii("<unprintable exception>")
  }

  predicate Has(members: seq<Member>, name: Text) {
    exists i :: 0 <= i < |members| && members[i].name == name
  }

  /** The line, column and path that an exception carries join its details unless they are named there. */
  function AddExtras(members: seq<Member>, extras: seq<Entry>, budget: int, nodes: int): Gathered
    decreases |extras|
  {
    if extras == [] then Gathered(JObject(members), budget, nodes, false)
    else if Has(members, extras[0].name) then AddExtras(members, extras[1..], budget, nodes)
    else
      var r := JsonDetails(extras[0].value, 0, budget, nodes);
      AddExtras(members + [Member(extras[0].name, r.json)], extras[1..], r.budget, r.nodes)
  }

  /** With no budget at all the copy is a marker, to which nothing can be added. */
  function Gather(f: Failure, budget: int): Gathered {
    var r := JsonDetails(Mapping(f.details), 0, budget, 128);
    if f.unreadable || (!r.json.JObject? && f.extras != []) then Gathered(JObject([]), r.budget, r.nodes, true)
    else if r.json.JObject? then AddExtras(r.json.members, f.extras, r.budget, r.nodes)
    else Gathered(r.json, r.budget, r.nodes, false)
  }

  function Draft(f: Failure, limit: int): Info {
    var message := SafeText(Headline(f), Max(1, limit - 192));
    var cut := Utf8Size(Replaced(Headline(f))) > Max(1, limit - 192);
    var gathered := Gather(f, Max(0, limit - Utf8Size(message) - 160));
    Info(SafeText(f.code, 64), SafeText(f.kind, 64), message, cut || gathered.budget <= 0 || gathered.failed,
         if f.operation.Some? then Some(SafeText(f.operation.value, 128)) else None,
         if gathered.json == JObject([]) then None else Some(gathered.json))
  }

  // ---- What the description says before it is bounded ----

  /** As many whole characters from the front as the bytes allow. */
  ghost predicate LongestFront(front: Text, text: Text, limit: nat) {
    && front <= Replaced(text) && Utf8Size(front) <= limit
    && (|front| < |text| ==> Utf8Size(Replaced(text)[..|front| + 1]) > limit)
  }

  lemma SafeTextIsLongest(text: Text, limit: nat)
    ensures LongestFront(SafeText(text, limit), text, limit)
  {
    SafeTextFits(text, limit);
  }

  /**
   * The description names the exception and what it says as far as there is room, its code, its type and the
   * operation; it is marked as truncated if the message was cut, the byte budget used up or an attribute unreadable.
   */
  lemma DraftSays(f: Failure, limit: int)
    requires limit >= 128
    ensures var d := Draft(f, limit);
      var said := f.name + [0x3A, 0x20] + (if f.detail.Some? then f.detail.value else Ascii("<unprintable exception>"));
      var gathered := Gather(f, Max(0, limit - Utf8Size(d.message) - 160));
      && LongestFront(d.message, said, if limit > 193 then limit - 192 else 1)
      && LongestFront(d.code, f.code, 64) && LongestFront(d.kind, f.kind, 64)
      && (d.operation.Some? <==> f.operation.Some?)
      && (d.operation.Some? ==> LongestFront(d.operation.value, f.operation.value, 128))
      && (d.truncated <==> |d.message| < |said| || gathered.budget <= 0 || gathered.failed)
      && d.details == (if gathered.json == JObject([]) then None else Some(gathered.json))
  {
    var room := Max(1, limit - 192);
    SafeTextFits(Headline(f), room);
    SafeTextIsLongest(f.code, 64);
    SafeTextIsLongest(f.kind, 64);
    if f.operation.Some? {
      SafeTextIsLongest(f.operation.value, 128);
    }
  }

  /** Every extra that the details do not name, in order, without any budget. */
  function WithExtras(members: seq<Member>, extras: seq<Entry>): seq<Member>
    decreases |extras|
  {
    if extras == [] then members
    else if Has(members, extras[0].name) then WithExtras(members, extras[1..])
    else WithExtras(members + [Member(extras[0].name, Whole(extras[0].value, 0))], extras[1..])
  }

  lemma {:induction false} ExtrasAreWhole(members: seq<Member>, extras: seq<Entry>, budget: int, nodes: int)
    ensures var r := AddExtras(members, extras, budget, nodes);
      && r.budget <= budget && r.nodes <= nodes
      && (r.budget > 3 && r.nodes > 0 ==> r.json == JObject(WithExtras(members, extras)))
    decreases |extras|
  {
    if extras != [] {
      if Has(members, extras[0].name) {
        ExtrasAreWhole(members, extras[1..], budget, nodes);
      } else {
        CopyIsWhole(extras[0].value, 0, budget, nodes);
        var r := JsonDetails(extras[0].value, 0, budget, nodes);
        ExtrasAreWhole(members + [Member(extras[0].name, r.json)], extras[1..], r.budget, r.nodes);
      }
    }
  }

  /** With four bytes and a node to spare, the details are the whole details with every extra. */
  lemma DetailsAreWhole(f: Failure, budget: int)
    ensures var r := Gather(f, budget);
      && (r.failed <==> f.unreadable || (budget <= 0 && f.extras != []))
      && (!r.failed && r.budget > 3 && r.nodes > 0 ==>
            r.json == JObject(WithExtras(WholeMembers(f.details, [], 0), f.extras)))
  {
    CopyIsWhole(Mapping(f.details), 0, budget, 128);
    var r := JsonDetails(Mapping(f.details), 0, budget, 128);
    assert r.json.JObject? <==> budget > 0;
    if r.json.JObject? {
      ExtrasAreWhole(r.json.members, f.extras, r.budget, r.nodes);
      ExtrasComeLast(r.json.members, f.extras, r.budget, r.nodes);
    }
  }

  /** The details always come first, and an extra never replaces one of them. */
  lemma {:induction false} ExtrasComeLast(members: seq<Member>, extras: seq<Entry>, budget: int, nodes: int)
    ensures var r := AddExtras(members, extras, budget, nodes);
      && !r.failed && r.json.JObject? && members <= r.json.members
      && (forall e :: e in extras ==> Has(r.json.members, e.name))
    decreases |extras|
  {
    if extras != [] {
      if Has(members, extras[0].name) {
        ExtrasComeLast(members, extras[1..], budget, nodes);
        HasMore(members, AddExtras(members, extras[1..], budget, nodes).json.members, extras[0].name);
      } else {
        var r := JsonDetails(extras[0].value, 0, budget, nodes);
        var longer := members + [Member(extras[0].name, r.json)];
        ExtrasComeLast(longer, extras[1..], r.budget, r.nodes);
        assert longer[|members|].name == extras[0].name;
        HasMore(longer, AddExtras(longer, extras[1..], r.budget, r.nodes).json.members, extras[0].name);
      }
      assert extras == [extras[0]] + extras[1..];
    }
  }

  lemma HasMore(members: seq<Member>, more: seq<Member>, name: Text)
    requires members <= more && Has(members, name)
    ensures Has(more, name)
  {
    var i :| 0 <= i < |members| && members[i].name == name;
    assert more[i].name == name;
  }

  function Nulls(n: nat): seq<Value> {
    if n == 0 then [] else [Null] + Nulls(n - 1)
  }

  lemma {:induction false} NullsCopied(n: nat, done: seq<Json>, depth: nat, budget: int, nodes: nat)
    requires depth < MAX_DEPTH && budget > 0
    ensures var r := CopyItems(Nulls(n), done, depth, budget, nodes);
      && r.budget == budget && |r.items| == |done| + (if n < nodes then n else nodes)
  {
    if n > 0 && nodes > 0 {
      assert Nulls(n)[1..] == Nulls(n - 1);
      NullsCopied(n - 1, done + [JNull], depth, budget, nodes - 1);
    }
  }

  /**
   * The mark tells of used-up bytes but not of used-up nodes: of a list of nulls 126 are copied, and the byte
   * budget, on which the mark depends, is the same for every length.
   */
  lemma NodesRunOutUnmarked(n: nat, budget: int)
    requires budget > 4
    ensures var details := [Entry([], Items(Nulls(n)))];
      var r := JsonDetails(Mapping(details), 0, budget, 128);
      && r.budget == budget - 4
      && r.json.JObject? && |r.json.members| == 1 && r.json.members[0].value.JList?
      && |r.json.members[0].value.items| == (if n <= 126 then n else 126)
  {
    var value := Items(Nulls(n));
    var details := [Entry([], value)];
    NullsCopied(n, [], 1, budget - 4, 126);
    var inner := JsonDetails(value, 1, budget - 4, 127);
    assert details[1..] == [] && SafeText([], 128) == [];
    assert CopyMembers(details, [], 0, budget, 127)
        == CopyMembers([], [Member([], inner.json)], 0, inner.budget, inner.nodes);
  }

  // ---- Bounding it ----

  datatype Field = Kind | Code | Message

  function Get(info: Info, field: Field): Text {
    match field
    case Kind => info.kind
    case Code => info.code
    case Message => info.message
  }

  function Put(info: Info, field: Field, text: Text): (r: Info)
    ensures Get(r, field) == text && forall other :: other != field ==> Get(r, other) == Get(info, other)
  {
    match field
    case Kind => info.(kind := text)
    case Code => info.(code := text)
    case Message => info.(message := text)
  }

  function Halved(text: Text): (r: Text)
    requires |text| > 1
    ensures 1 <= |r| < |text|
  {
    text[..Max(1, |text| / 2)]
  }

  function Shrink(size: Info -> nat, info: Info, field: Field, limit: int): Info
    decreases |Get(info, field)|
  {
    if size(info) > limit && |Get(info, field)| > 1 then
      Shrink(size, Put(info, field, Halved(Get(info, field))).(truncated := true), field, limit)
    else info
  }

  function WithoutDetails(size: Info -> nat, info: Info, limit: int): Info {
    if size(info) > limit then info.(details := None, truncated := true) else info
  }

  function WithoutOperation(size: Info -> nat, info: Info, limit: int): Info {
    if size(info) > limit then info.(operation := None) else info
  }

  function Bounded(size: Info -> nat, info: Info, limit: int): Info {
    var frame := WithoutOperation(size, WithoutDetails(size, info, limit), limit);
    Shrink(size, Shrink(size, Shrink(size, frame, Kind, limit), Code, limit), Message, limit)
  }

  lemma {:induction false} ShrinkFacts(size: Info -> nat, info: Info, field: Field, limit: int)
    ensures var r := Shrink(size, info, field, limit);
      && (size(r) <= limit || |Get(r, field)| <= 1)
      && Get(r, field) <= Get(info, field)
      && (forall other :: other != field ==> Get(r, other) == Get(info, other))
      && r.operation == info.operation && r.details == info.details
      && (r == info || (size(info) > limit && r.truncated))
    decreases |Get(info, field)|
  {
    if size(info) > limit && |Get(info, field)| > 1 {
      ShrinkFacts(size, Put(info, field, Halved(Get(info, field))).(truncated := true), field, limit);
    }
  }

  /** The code points left of a text after halving it `k` times, never fewer than one. */
  function Halves(length: nat, k: nat): (n: nat)
    ensures n <= length && (length > 0 ==> n > 0)
  {
    if k == 0 then length else if Halves(length, k - 1) <= 1 then Halves(length, k - 1) else Halves(length, k - 1) / 2
  }

  /** The text once it has been halved `k` times. */
  function HalvedTimes(info: Info, field: Field, k: nat): Info {
    if k == 0 then info
    else Put(info, field, Get(info, field)[..Halves(|Get(info, field)|, k)]).(truncated := true)
  }

  lemma OneHalving(size: Info -> nat, info: Info, field: Field, limit: int, k: nat)
    ensures var (now, next) := (HalvedTimes(info, field, k), HalvedTimes(info, field, k + 1));
      var length := |Get(info, field)|;
      && Shrink(size, now, field, limit) ==
           (if size(now) > limit && Halves(length, k) > 1 then Shrink(size, next, field, limit) else now)
      && (Halves(length, k) > 1 ==> Halves(length, k + 1) < Halves(length, k))
  {
    var text := Get(info, field);
    assert text[..|text|] == text;
    var now := text[..Halves(|text|, k)];
    assert Halves(|text|, k) > 1 ==> now[..|now| / 2] == text[..Halves(|text|, k + 1)];
    assert Get(HalvedTimes(info, field, k), field) == now;
  }

  /** A text is halved no more often than it takes to fit. */
  lemma {:induction false} ShrinkHalvesJust(size: Info -> nat, info: Info, field: Field, limit: int, k: nat)
    returns (n: nat)
    ensures n >= k && Shrink(size, HalvedTimes(info, field, k), field, limit) == HalvedTimes(info, field, n)
    ensures n > k ==> size(HalvedTimes(info, field, n - 1)) > limit
    decreases Halves(|Get(info, field)|, k)
  {
    OneHalving(size, info, field, limit, k);
    n := k;
    if size(HalvedTimes(info, field, k)) > limit && Halves(|Get(info, field)|, k) > 1 {
      n := ShrinkHalvesJust(size, info, field, limit, k + 1);
    }
  }

  predicate Skeleton(info: Info) {
    && |info.code| <= 1 && |info.kind| <= 1 && |info.message| <= 1
    && info.details.None? && info.operation.None?
  }

  /** One code point in each text, and nothing optional, is well below the smallest limit. */
  lemma SkeletonFits(info: Info)
    requires Skeleton(info)
    ensures EncodedSize(info) < 128
  {
    EncodedSizeIs(info);
    EscapedBounds(info.code);
    EscapedBounds(info.kind);
    EscapedBounds(info.message);
  }

  /** What is given up, and in which order: details, operation, then the ends of type, code and message. */
  ghost predicate Abridges(size: Info -> nat, draft: Info, info: Info, limit: int) {
    && info.kind <= draft.kind && info.code <= draft.code && info.message <= draft.message
    && (info.details == draft.details || (info.details.None? && size(draft) > limit))
    && (info.operation == draft.operation || (info.operation.None? && info.details.None?))
    && (info.kind != draft.kind ==> info.operation.None? && info.details.None?)
    && (info.code != draft.code ==> |info.kind| <= 1 && info.operation.None? && info.details.None?)
    && (info.message != draft.message ==> |info.kind| <= 1 && |info.code| <= 1 && info.operation.None?)
    && (info == draft || (info.truncated && size(draft) > limit))
  }

  /** The result fits every limit that leaves room for one code point a text, whatever the sizes are. */
  lemma CutsFit(size: Info -> nat, draft: Info, limit: int)
    requires forall info :: Skeleton(info) ==> size(info) <= limit
    ensures size(Bounded(size, draft, limit)) <= limit
    ensures Abridges(size, draft, Bounded(size, draft, limit), limit)
  {
    var frame := WithoutOperation(size, WithoutDetails(size, draft, limit), limit);
    var kind := Shrink(size, frame, Kind, limit);
    var code := Shrink(size, kind, Code, limit);
    var message := Shrink(size, code, Message, limit);
    ShrinkFacts(size, frame, Kind, limit);
    ShrinkFacts(size, kind, Code, limit);
    ShrinkFacts(size, code, Message, limit);
    assert size(message) > limit ==> Skeleton(message);
  }

  /** For every description and every limit the program allows, the encoded result fits it. */
  lemma BoundedFits(draft: Info, limit: int)
    requires limit >= 128
    ensures EncodedSize(Bounded(EncodedSize, draft, limit)) <= limit
    ensures Abridges(EncodedSize, draft, Bounded(EncodedSize, draft, limit), limit)
  {
    forall info | Skeleton(info) ensures EncodedSize(info) <= limit {
      SkeletonFits(info);
    }
    CutsFit(EncodedSize, draft, limit);
  }

  method ShrinkField(info: Info, field: Field, limit: int) returns (r: Info)
    ensures r == Shrink(EncodedSize, info, field, limit)
  {
    r := info;
    while EncodedSize(r) > limit && |Get(r, field)| > 1
      invariant Shrink(EncodedSize, r, field, limit) == Shrink(EncodedSize, info, field, limit)
      decreases |Get(r, field)|
    {
      r := Put(r, field, Halved(Get(r, field))).(truncated := true);
    }
  }

  /** A bounded description of any exception; limits below 128 are refused. */
  method ErrorInfo(f: Failure, limit: int) returns (r: Option<Info>)
    ensures r.None? <==> limit < 128
    ensures r.Some? ==> r.value == Bounded(EncodedSize, Draft(f, limit), limit)
    ensures r.Some? ==> EncodedSize(r.value) <= limit
  {
    if limit < 128 {
      return None;
    }
    var info := Draft(f, limit);
    BoundedFits(info, limit);
    if EncodedSize(info) > limit {
      info := info.(details := None, truncated := true);
    }
    if EncodedSize(info) > limit {
      info := info.(operation := None);
    }
    info := ShrinkField(info, Kind, limit);
    info := ShrinkField(info, Code, limit);
    info := ShrinkField(info, Message, limit);
    return Some(info);
  }
}
