/** Browser events, the bytes they take as JSON, and cutting one down to a byte budget. */
module ObservationEvents {
  import opened Outcomes
  import opened Utf8
  import opened JsonText
  import opened JsonValues

  const ELLIPSIS: CodePoint := 0x2026

  /** The texts that are cut, in the order in which they are. */
  datatype Field = Words | Url | Failure | StatusText

  /**
   * An event: `page` is None for a stub, `location` is the size of the location if there is one, and `other`
   * counts the bytes of all members that are never cut.
   */
  datatype Event = Event(cursor: nat, page: Option<nat>, kind: string, texts: map<Field, Text>,
                         location: Option<nat>, other: nat, truncated: bool)

  // ---- Sizes ----

  /** A comma, the name, a colon and the quotes. */
  function Label(field: Field): nat {
    match field
    case Words => 10
    case Url => 9
    case Failure => 11
    case StatusText => 17
  }

  function FieldSize(e: Event, field: Field): nat {
    if field in e.texts then Label(field) + Escaped(e.texts[field]) else 0
  }

  function TextsSize(e: Event): nat {
    FieldSize(e, Words) + FieldSize(e, Url) + FieldSize(e, Failure) + FieldSize(e, StatusText)
  }

  /** The bytes of an event; event types are ASCII names. */
  function EventSize(e: Event): nat {
    11 + Digits(e.cursor) + (if e.page.Some? then 11 + Digits(e.page.value) else 0) + 10 + |e.kind| + TextsSize(e)
    + (if e.location.Some? then 12 + e.location.value else 0) + e.other + (if e.truncated then 17 else 0)
  }

  // ---- The JSON of an event ----

  function FieldName(field: Field): (name: string)
    ensures Simple(name)
  {
    match field
    case Words => "text"
    case Url => "url"
    case Failure => "error"
    case StatusText => "status_text"
  }

  function WithField(front: seq<Member>, e: Event, field: Field): seq<Member> {
    front + Optional(FieldName(field), field in e.texts, JText(if field in e.texts then e.texts[field] else []))
  }

  function WithTexts(front: seq<Member>, e: Event): seq<Member> {
    WithField(WithField(WithField(WithField(front, e, Words), e, Url), e, Failure), e, StatusText)
  }

  function Head(e: Event): seq<Member> {
    ([Named("cursor", Number(e.cursor))] + [])
    + Optional("page_id", e.page.Some?, Number(if e.page.Some? then e.page.value else 0))
    + Optional("type", true, JText(Ascii(e.kind)))
  }

  function Tail(front: seq<Member>, e: Event, location: Json, other: seq<Member>): seq<Member> {
    front + Optional("location", e.location.Some?, location) + other
  }

  function Marked(front: seq<Member>, e: Event): seq<Member> {
    front + Optional("truncated", e.truncated, JFlag(true))
  }

  /** An event with its location and its other members as they are encoded. */
  function EventJson(e: Event, location: Json, other: seq<Member>): Json {
    JObject(Marked(Tail(WithTexts(Head(e), e), e, location, other), e))
  }

  /** The location and the other members are of the sizes the event counts. */
  predicate Counted(e: Event, location: Json, other: seq<Member>) {
    && (e.location.Some? ==> e.location.value == JsonSize(location))
    && e.other == if other == [] then 0 else 1 + MembersSize(other)
  }

  lemma FieldIsCounted(front: seq<Member>, e: Event, field: Field)
    requires front != []
    ensures WithField(front, e, field) != []
    ensures MembersSize(WithField(front, e, field)) == MembersSize(front) + FieldSize(e, field)
  {
    OptionalSize(front, FieldName(field), field in e.texts,
                 JText(if field in e.texts then e.texts[field] else []));
  }

  lemma TextsAreCounted(front: seq<Member>, e: Event)
    requires front != []
    ensures WithTexts(front, e) != [] && MembersSize(WithTexts(front, e)) == MembersSize(front) + TextsSize(e)
  {
    var a := WithField(front, e, Words);
    var b := WithField(a, e, Url);
    var c := WithField(b, e, Failure);
    FieldIsCounted(front, e, Words);
    FieldIsCounted(a, e, Url);
    FieldIsCounted(b, e, Failure);
    FieldIsCounted(c, e, StatusText);
  }

  lemma HeadSize(e: Event)
    requires Simple(e.kind)
    ensures Head(e) != []
    ensures MembersSize(Head(e)) ==
      19 + Digits(e.cursor) + (if e.page.Some? then 11 + Digits(e.page.value) else 0) + |e.kind|
  {
    var page := Number(if e.page.Some? then e.page.value else 0);
    var first := [Named("cursor", Number(e.cursor))] + [];
    NamedSize("cursor", Number(e.cursor), []);
    OptionalSize(first, "page_id", e.page.Some?, page);
    OptionalSize(first + Optional("page_id", e.page.Some?, page), "type", true, JText(Ascii(e.kind)));
    SimpleSize(Ascii(e.kind));
    NumberSize(e.cursor);
    NumberSize(if e.page.Some? then e.page.value else 0);
  }

  lemma TailSize(front: seq<Member>, e: Event, location: Json, other: seq<Member>)
    requires front != [] && Counted(e, location, other)
    ensures Tail(front, e, location, other) != []
    ensures MembersSize(Tail(front, e, location, other)) ==
      MembersSize(front) + (if e.location.Some? then 12 + e.location.value else 0) + e.other
  {
    OptionalSize(front, "location", e.location.Some?, location);
    MembersJoin(front + Optional("location", e.location.Some?, location), other);
  }

  lemma MarkedSize(front: seq<Member>, e: Event)
    requires front != []
    ensures MembersSize(Marked(front, e)) == MembersSize(front) + if e.truncated then 17 else 0
  {
    OptionalSize(front, "truncated", e.truncated, JFlag(true));
  }

  lemma EventJsonSize(e: Event, location: Json, other: seq<Member>)
    requires Simple(e.kind) && Counted(e, location, other)
    ensures JsonSize(EventJson(e, location, other)) == EventSize(e)
  {
    HeadSize(e);
    TextsAreCounted(Head(e), e);
    TailSize(WithTexts(Head(e), e), e, location, other);
    MarkedSize(Tail(WithTexts(Head(e), e), e, location, other), e);
  }

  /** The computed size of an event is the number of bytes of its JSON. */
  lemma EventSizeIsEncoded(e: Event, location: Json, other: seq<Member>)
    requires Simple(e.kind) && Counted(e, location, other)
    ensures |Encode(Render(EventJson(e, location, other)))| == EventSize(e)
  {
    EventJsonSize(e, location, other);
    RenderedSize(EventJson(e, location, other));
  }

  // ---- Cutting one text ----

  /** The whole characters among the first bytes, with an ellipsis where some are missing. */
  function Clip(text: Text, limit: nat): Text {
    if Utf8Size(text) <= limit then text else text[..CutLength(text, limit)] + [ELLIPSIS]
  }

  function Half(text: Text): nat {
    if Utf8Size(text) < 2 then 1 else Utf8Size(text) / 2
  }

  /** One round of cutting: half of the bytes, or the last character where that changes nothing. */
  function Shorter(text: Text): Text
    requires text != []
  {
    if Clip(text, Half(text)) == text then text[..|text| - 1] else Clip(text, Half(text))
  }

  /** One round keeps as many characters as half of the bytes allow, and the ellipsis, or drops the last character. */
  lemma ShorterKeepsHalf(text: Text)
    requires text != []
    ensures var k := CutLength(text, Half(text)); var half := Half(text);
      && half == (if Utf8Size(text) / 2 > 1 then Utf8Size(text) / 2 else 1)
      && Utf8Size(text[..k]) <= half && (k < |text| ==> Utf8Size(text[..k + 1]) > half)
      && Shorter(text) ==
           if Utf8Size(text) <= half || text == text[..k] + [0x2026] then text[..|text| - 1] else text[..k] + [0x2026]
  {
    CutIsLongest(text, Half(text));
  }

  predicate Elided(text: Text) {
    text != [] && text[|text| - 1] == ELLIPSIS
  }

  /** Clipping may lengthen a text by its ellipsis; what shrinks is the text before it. */
  function Weight(text: Text): nat {
    if Elided(text) then 2 * Utf8Size(text[..|text| - 1]) + 1 else 2 * Utf8Size(text)
  }

  lemma SizeOfFront(text: Text, k: nat)
    requires k <= |text|
    ensures Utf8Size(text[..k]) <= Utf8Size(text) && (k < |text| ==> Utf8Size(text[..k]) < Utf8Size(text))
  {
    assert text == text[..k] + text[k..];
    EscapedParts(text[..k], text[k..]);
    EscapedBounds(text[k..]);
  }

  lemma EllipsisSize(text: Text)
    requires Elided(text)
    ensures Utf8Size(text) == Utf8Size(text[..|text| - 1]) + 3
  {
    assert text == text[..|text| - 1] + [ELLIPSIS];
    EscapedParts(text[..|text| - 1], [ELLIPSIS]);
    assert [ELLIPSIS][1..] == [];
  }

  /** A cut text ends in its ellipsis, behind a proper front of the text. */
  lemma ClipFacts(text: Text, limit: nat)
    requires Utf8Size(text) > limit
    ensures CutLength(text, limit) < |text| && Utf8Size(text[..CutLength(text, limit)]) <= limit
    ensures var r := Clip(text, limit); Elided(r) && r[..|r| - 1] == text[..CutLength(text, limit)]
  {
    CutIsLongest(text, limit);
    assert text[..|text|] == text;
  }

  /** Cutting always makes progress, so the loop that cuts a text ends. */
  lemma ShorterWeighsLess(text: Text)
    requires text != []
    ensures Weight(Shorter(text)) < Weight(text)
  {
    EscapedBounds(text);
    var n := |text| - 1;
    if Clip(text, Half(text)) == text {
      LastCharWeighs(text);
    } else {
      ClipFacts(text, Half(text));
      var k := CutLength(text, Half(text));
      if Elided(text) {
        assert text == text[..n] + [ELLIPSIS];
        SizeOfFront(text[..n], k);
        assert text[..n][..k] == text[..k];
      }
    }
  }

  lemma LastCharWeighs(text: Text)
    requires text != []
    ensures Clip(text, Half(text)) == text ==> Weight(text[..|text| - 1]) < Weight(text)
  {
    var front := text[..|text| - 1];
    SizeOfFront(text, |text| - 1);
    if Utf8Size(text) > Half(text) {
      ClipFacts(text, Half(text));
    }
    if Elided(front) {
      EllipsisSize(front);
    }
  }

  /** A front of the text, or one with an ellipsis behind it. */
  predicate CutOf(text: Text, original: Text) {
    text <= original || (Elided(text) && text[..|text| - 1] <= original)
  }

  lemma ShorterIsCut(text: Text, original: Text)
    requires text != [] && CutOf(text, original)
    ensures CutOf(Shorter(text), original)
  {
    if Clip(text, Half(text)) != text {
      ClipFacts(text, Half(text));
    }
  }

  // ---- Cutting an event ----

  function Put(e: Event, field: Field, text: Text): Event {
    e.(texts := e.texts[field := text])
  }

  function Shrink(size: Event -> nat, e: Event, field: Field, budget: int): Event
    decreases if field in e.texts then Weight(e.texts[field]) else 0
  {
    if field in e.texts && e.texts[field] != [] && size(e) > budget then
      ShorterWeighsLess(e.texts[field]);
      Shrink(size, Put(e, field, Shorter(e.texts[field])), field, budget)
    else e
  }

  /** The stub that is left of an event when nothing more can be cut. */
  function Remnant(e: Event): Event {
    Event(e.cursor, None, e.kind, map[], None, 0, true)
  }

  function FieldAt(n: nat): Field
    requires n < 4
  {
    if n == 0 then Words else if n == 1 then Url else if n == 2 then Failure else StatusText
  }

  function Rank(field: Field): (n: nat)
    ensures n < 4 && FieldAt(n) == field
  {
    match field
    case Words => 0
    case Url => 1
    case Failure => 2
    case StatusText => 3
  }

  /** The first `count` texts cut in turn. */
  function CutTexts(size: Event -> nat, e: Event, count: nat, budget: int): Event
    requires count <= 4
  {
    if count == 0 then e
    else Shrink(size, CutTexts(size, e, count - 1, budget), FieldAt(count - 1), budget)
  }

  function FitWith(size: Event -> nat, e: Event, budget: int): Event {
    var cut := CutTexts(size, e.(truncated := true), 4, budget);
    var bare := if size(cut) > budget then cut.(location := None) else cut;
    if size(bare) > budget then Remnant(e) else bare
  }

  function FitEvent(e: Event, budget: int): Event {
    FitWith(EventSize, e, budget)
  }

  /** `r` differs from `e` in one text at most, and there by cutting. */
  ghost predicate Shrunk(r: Event, e: Event, field: Field) {
    && r == e.(texts := r.texts) && r.texts.Keys == e.texts.Keys
    && (forall f :: f in e.texts ==> if f == field then CutOf(r.texts[f], e.texts[f]) else r.texts[f] == e.texts[f])
  }

  lemma {:induction false} ShrinkCuts(size: Event -> nat, e: Event, field: Field, budget: int, original: Event)
    requires Shrunk(e, original, field)
    ensures var r := Shrink(size, e, field, budget);
      && Shrunk(r, original, field) && (size(e) <= budget ==> r == e)
      && (size(r) <= budget || field !in r.texts || r.texts[field] == [])
    decreases if field in e.texts then Weight(e.texts[field]) else 0
  {
    if field in e.texts && e.texts[field] != [] && size(e) > budget {
      ShorterWeighsLess(e.texts[field]);
      ShorterIsCut(e.texts[field], original.texts[field]);
      ShrinkCuts(size, Put(e, field, Shorter(e.texts[field])), field, budget, original);
    }
  }

  ghost predicate Emptied(e: Event, count: nat) {
    forall f :: f in e.texts && Rank(f) < count ==> e.texts[f] == []
  }

  /** Of the first texts some may be cut, each only once those before it are empty; the others are whole. */
  ghost predicate CutInOrder(r: Event, e: Event, count: nat) {
    && r == e.(texts := r.texts) && r.texts.Keys == e.texts.Keys
    && (forall f :: f in e.texts ==> CutOf(r.texts[f], e.texts[f]))
    && (forall f :: f in e.texts && r.texts[f] != e.texts[f] ==> Rank(f) < count && Emptied(r, Rank(f)))
  }

  lemma CutNextField(r: Event, e: Event, original: Event, count: nat)
    requires count < 4 && Shrunk(r, e, FieldAt(count))
    requires CutInOrder(e, original, count) && (r == e || Emptied(e, count))
    ensures CutInOrder(r, original, count + 1) && (Emptied(e, count) ==> Emptied(r, count))
  {
    forall f | f in original.texts && r.texts[f] != original.texts[f]
      ensures Rank(f) < count + 1 && Emptied(r, Rank(f))
    {
      if Rank(f) < count {
        assert Emptied(e, Rank(f));
      }
    }
  }

  lemma {:induction false} CutTextsInOrder(size: Event -> nat, e: Event, count: nat, budget: int)
    requires count <= 4
    ensures var r := CutTexts(size, e, count, budget);
      CutInOrder(r, e, count) && (size(r) <= budget || Emptied(r, count))
    ensures size(e) <= budget ==> CutTexts(size, e, count, budget) == e
  {
    if count > 0 {
      CutTextsInOrder(size, e, count - 1, budget);
      var before := CutTexts(size, e, count - 1, budget);
      ShrinkCuts(size, before, FieldAt(count - 1), budget, before);
      CutNextField(Shrink(size, before, FieldAt(count - 1), budget), before, e, count - 1);
    }
  }

  /** What is given up, and in which order: text, URL, error and status text, then the location. */
  ghost predicate Abridged(r: Event, e: Event) {
    && CutInOrder(r.(location := e.location), e.(truncated := true), 4)
    && (r.location == e.location || (r.location.None? && Emptied(r, 4)))
  }

  ghost predicate Bare(e: Event) {
    Emptied(e, 4) && e.location.None?
  }

  /**
   * Fitting gives an event within the budget that is cut in the stated order, or else the stub, and that only
   * where the event exceeds the budget with all its texts empty and without its location.
   */
  lemma FitIsAbridged(size: Event -> nat, e: Event, budget: int)
    ensures var r := FitWith(size, e, budget);
      || (size(r) <= budget && Abridged(r, e))
      || (r == Remnant(e) && exists bare :: size(bare) > budget && Abridged(bare, e) && Bare(bare))
    ensures size(e.(truncated := true)) <= budget ==> FitWith(size, e, budget) == e.(truncated := true)
  {
    var marked := e.(truncated := true);
    CutTextsInOrder(size, marked, 4, budget);
    var cut := CutTexts(size, marked, 4, budget);
    var bare := if size(cut) > budget then cut.(location := None) else cut;
    assert bare.(location := e.location) == cut;
    assert Abridged(bare, e);
  }

  /** Fitting keeps to every budget that has room for the stub. */
  lemma FitIsWithin(e: Event, budget: int)
    requires EventSize(Remnant(e)) <= budget
    ensures EventSize(FitEvent(e, budget)) <= budget
    ensures FitEvent(e, budget).cursor == e.cursor && FitEvent(e, budget).truncated
  {
    FitIsAbridged(EventSize, e, budget);
  }

  /** The smallest budget the program fits an event to has room for the stub of any event it records. */
  lemma StubsAreSmall(e: Event)
    requires |e.kind| <= 100 && Digits(e.cursor) <= 100
    ensures EventSize(Remnant(e)) <= 256
  {
  }

  method ShrinkText(e: Event, field: Field, budget: int) returns (r: Event)
    ensures r == Shrink(EventSize, e, field, budget)
  {
    r := e;
    while field in r.texts && r.texts[field] != [] && EventSize(r) > budget
      invariant Shrink(EventSize, r, field, budget) == Shrink(EventSize, e, field, budget)
      decreases if field in r.texts then Weight(r.texts[field]) else 0
    {
      ShorterWeighsLess(r.texts[field]);
      r := Put(r, field, Shorter(r.texts[field]));
    }
  }

  /** Cuts an event down to a budget: its texts in turn, then its location, and leaves a stub at the last. */
  method Fit(e: Event, budget: int) returns (r: Event)
    ensures r == FitEvent(e, budget)
  {
    r := e.(truncated := true);
    for i := 0 to 4
      invariant r == CutTexts(EventSize, e.(truncated := true), i, budget)
    {
      r := ShrinkText(r, FieldAt(i), budget);
    }
    ghost var cut := r;
    while EventSize(r) > budget && r.location.Some?
      invariant r == cut || (EventSize(cut) > budget && r == cut.(location := None))
      decreases r.location.Some?
    {
      r := r.(location := None);
    }
    if EventSize(r) > budget {
      r := Remnant(e);
    }
  }
}
