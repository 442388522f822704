/** Applying a TextEdit array (LSP 3.17, section "TextEdit[]"). */
module TextEdits {
  // Sorting the ranges and splicing them from the back gives the simultaneous replacement that the protocol
  // defines without any order.

  import opened Outcomes
  import opened Utf8
  import opened Positions

  /** A range of code points and what replaces it; an empty range inserts. */
  datatype Edit = Edit(start: nat, end: nat, text: Text)

  datatype RawEdit = Malformed | RawEdit(start: Position, end: Position, text: Text)

  datatype EditError = BadEdit | BadPosition(error: PositionError) | Reversed | BadReplacement | Overlapping

  predicate InText(text: Text, e: Edit) {
    e.start <= e.end <= |text|
  }

  ghost predicate AllInText(text: Text, edits: seq<Edit>) {
    forall i :: 0 <= i < |edits| ==> InText(text, edits[i])
  }

  // ---- What a list of edits means ----

  /** Two ranges share a code point, or one inserts strictly inside the other. */
  predicate Clash(a: Edit, b: Edit) {
    a.start < b.end && b.start < a.end
  }

  predicate Free(edits: seq<Edit>, e: Edit) {
    forall x :: x in edits ==> !Clash(x, e)
  }

  predicate NoClash(edits: seq<Edit>) {
    forall i, j :: 0 <= i < j < |edits| ==> !Clash(edits[i], edits[j])
  }

  predicate Covers(e: Edit, p: nat) {
    e.start <= p < e.end
  }

  predicate Covered(edits: seq<Edit>, p: nat) {
    exists x :: x in edits && Covers(x, p)
  }

  function InsertedBy(e: Edit, p: nat): Text {
    if e.start == e.end == p then e.text else []
  }

  function ReplacedBy(e: Edit, p: nat): Text {
    if e.start == p < e.end then e.text else []
  }

  /** What the array inserts at an offset, in array order. */
  function Insertions(edits: seq<Edit>, p: nat): Text {
    if edits == [] then [] else InsertedBy(edits[0], p) + Insertions(edits[1..], p)
  }

  /** What replaces the ranges that start at an offset. */
  function Replacements(edits: seq<Edit>, p: nat): Text {
    if edits == [] then [] else ReplacedBy(edits[0], p) + Replacements(edits[1..], p)
  }

  /** The code point at an offset, unless a range takes it away. */
  function Kept(text: Text, edits: seq<Edit>, p: nat): Text {
    if p < |text| && !Covered(edits, p) then [text[p]] else []
  }

  /** Everything that takes the place of one offset: insertions, then a replacement, then the code point if kept. */
  function At(text: Text, edits: seq<Edit>, p: nat): Text {
    Insertions(edits, p) + Replacements(edits, p) + Kept(text, edits, p)
  }

  /** The texts of the offsets from `p` to `n`, one after the other. */
  function Collect(at: nat -> Text, n: nat, p: nat): Text
    decreases n + 1 - p
  {
    if p > n then [] else at(p) + Collect(at, n, p + 1)
  }

  /** All edits at once, offset by offset: no edit sees the result of another. */
  function Simultaneous(text: Text, edits: seq<Edit>, p: nat): Text {
    Collect(q => At(text, edits, q), |text|, p)
  }

  // ---- Sorting ----

  /** Insertions come before a range that starts at the same offset. */
  predicate Before(a: Edit, b: Edit) {
    a.start < b.start || (a.start == b.start && a.start == a.end && b.start < b.end)
  }

  /** `e` goes behind everything that does not have to come after it. */
  function Insert(sorted: seq<Edit>, e: Edit): (r: seq<Edit>)
    ensures |r| == |sorted| + 1
  {
    if sorted == [] || Before(e, sorted[0]) then [e] + sorted else [sorted[0]] + Insert(sorted[1..], e)
  }

  function Sort(edits: seq<Edit>): (r: seq<Edit>)
    ensures |r| == |edits|
    decreases |edits|
  {
    if edits == [] then [] else Insert(Sort(edits[..|edits| - 1]), edits[|edits| - 1])
  }

  predicate Sorted(edits: seq<Edit>) {
    forall i, j :: 0 <= i < j < |edits| ==> !Before(edits[j], edits[i])
  }

  lemma {:induction false} InsertMembers(sorted: seq<Edit>, e: Edit)
    ensures forall x :: x in Insert(sorted, e) <==> x in sorted || x == e
  {
    if !(sorted == [] || Before(e, sorted[0])) {
      InsertMembers(sorted[1..], e);
      assert sorted == [sorted[0]] + sorted[1..];
    }
  }

  lemma {:induction false} InsertSorts(sorted: seq<Edit>, e: Edit)
    requires Sorted(sorted)
    ensures Sorted(Insert(sorted, e))
  {
    if !(sorted == [] || Before(e, sorted[0])) {
      InsertSorts(sorted[1..], e);
      InsertMembers(sorted[1..], e);
      var rest := Insert(sorted[1..], e);
      forall j | 0 <= j < |rest| ensures !Before(rest[j], sorted[0]) {
        assert rest[j] in rest;
      }
    }
  }

  lemma {:induction false} NothingInserted(edits: seq<Edit>, p: nat)
    requires forall i :: 0 <= i < |edits| ==> !(edits[i].start == edits[i].end == p)
    ensures Insertions(edits, p) == []
  {
    if edits != [] {
      NothingInserted(edits[1..], p);
    }
  }

  lemma {:induction false} NothingReplaced(edits: seq<Edit>, p: nat)
    requires forall i :: 0 <= i < |edits| ==> !(edits[i].start == p < edits[i].end)
    ensures Replacements(edits, p) == []
  {
    if edits != [] {
      NothingReplaced(edits[1..], p);
    }
  }

  lemma Regroup(a: Text, b: Text, c: Text)
    ensures (a + b) + c == a + (b + c)
  {
  }

  lemma {:induction false} InsertionsAppend(edits: seq<Edit>, e: Edit, p: nat)
    ensures Insertions(edits + [e], p) == Insertions(edits, p) + InsertedBy(e, p)
  {
    if edits == [] {
      assert (edits + [e])[1..] == [];
    } else {
      assert (edits + [e])[1..] == edits[1..] + [e];
      InsertionsAppend(edits[1..], e, p);
      Regroup(InsertedBy(edits[0], p), Insertions(edits[1..], p), InsertedBy(e, p));
    }
  }

  lemma {:induction false} ReplacementsAppend(edits: seq<Edit>, e: Edit, p: nat)
    ensures Replacements(edits + [e], p) == Replacements(edits, p) + ReplacedBy(e, p)
  {
    if edits == [] {
      assert (edits + [e])[1..] == [];
    } else {
      assert (edits + [e])[1..] == edits[1..] + [e];
      ReplacementsAppend(edits[1..], e, p);
      Regroup(ReplacedBy(edits[0], p), Replacements(edits[1..], p), ReplacedBy(e, p));
    }
  }

  ghost predicate AllForward(edits: seq<Edit>) {
    forall e :: e in edits ==> e.start <= e.end
  }

  lemma BeforeAll(sorted: seq<Edit>, e: Edit)
    requires Sorted(sorted) && AllForward(sorted) && e.start <= e.end
    requires sorted == [] || Before(e, sorted[0])
    ensures forall x :: x in sorted ==> Before(e, x)
  {
    forall x | x in sorted ensures Before(e, x) {
      var i :| 0 <= i < |sorted| && sorted[i] == x;
      assert sorted[0] in sorted;
      assert i > 0 ==> !Before(sorted[i], sorted[0]);
    }
  }

  /** Where an edit is put in front of others, none of them inserts at the same offset. */
  lemma {:induction false} InsertKeepsInsertions(sorted: seq<Edit>, e: Edit, p: nat)
    requires AllForward(sorted) && e.start <= e.end && Sorted(sorted)
    ensures Insertions(Insert(sorted, e), p) == Insertions(sorted, p) + InsertedBy(e, p)
  {
    if sorted == [] || Before(e, sorted[0]) {
      BeforeAll(sorted, e);
      assert ([e] + sorted)[1..] == sorted;
      if e.start == e.end == p {
        NothingInserted(sorted, p);
      }
    } else {
      InsertKeepsInsertions(sorted[1..], e, p);
      assert ([sorted[0]] + Insert(sorted[1..], e))[1..] == Insert(sorted[1..], e);
      Regroup(InsertedBy(sorted[0], p), Insertions(sorted[1..], p), InsertedBy(e, p));
    }
  }

  lemma {:induction false} InsertKeepsReplacements(sorted: seq<Edit>, e: Edit, p: nat)
    requires AllForward(sorted) && e.start <= e.end && Sorted(sorted)
    ensures Replacements(Insert(sorted, e), p) == Replacements(sorted, p) + ReplacedBy(e, p)
  {
    if sorted == [] || Before(e, sorted[0]) {
      BeforeAll(sorted, e);
      assert ([e] + sorted)[1..] == sorted;
      if e.start == p < e.end {
        NothingReplaced(sorted, p);
      }
    } else {
      InsertKeepsReplacements(sorted[1..], e, p);
      assert ([sorted[0]] + Insert(sorted[1..], e))[1..] == Insert(sorted[1..], e);
      Regroup(ReplacedBy(sorted[0], p), Replacements(sorted[1..], p), ReplacedBy(e, p));
    }
  }

  lemma {:induction false} InsertKeepsClashes(sorted: seq<Edit>, e: Edit)
    ensures NoClash(Insert(sorted, e)) <==> NoClash(sorted) && Free(sorted, e)
  {
    if sorted == [] || Before(e, sorted[0]) {
      assert ([e] + sorted)[1..] == sorted;
      NoClashParts([e] + sorted);
    } else {
      var rest := Insert(sorted[1..], e);
      InsertKeepsClashes(sorted[1..], e);
      InsertMembers(sorted[1..], e);
      assert ([sorted[0]] + rest)[1..] == rest;
      NoClashParts([sorted[0]] + rest);
      NoClashParts(sorted);
      assert sorted == [sorted[0]] + sorted[1..];
      assert Free(rest, sorted[0]) <==> Free(sorted[1..], sorted[0]) && !Clash(e, sorted[0]);
      assert Free(sorted, e) <==> Free(sorted[1..], e) && !Clash(sorted[0], e);
    }
  }

  lemma NoClashParts(edits: seq<Edit>)
    requires edits != []
    ensures NoClash(edits) <==> NoClash(edits[1..]) && Free(edits[1..], edits[0])
  {
    if NoClash(edits[1..]) && Free(edits[1..], edits[0]) {
      forall i, j | 0 <= i < j < |edits| ensures !Clash(edits[i], edits[j]) {
        assert edits[j] == edits[1..][j - 1];
        assert edits[j] in edits[1..];
        assert i > 0 ==> edits[i] == edits[1..][i - 1];
      }
    }
    if NoClash(edits) {
      forall x | x in edits[1..] ensures !Clash(x, edits[0]) {
        var i :| 0 <= i < |edits| - 1 && edits[1..][i] == x;
        assert !Clash(edits[0], edits[i + 1]);
      }
    }
  }

  lemma NoClashAppend(edits: seq<Edit>, e: Edit)
    ensures NoClash(edits + [e]) <==> NoClash(edits) && Free(edits, e)
  {
    var all := edits + [e];
    if NoClash(all) {
      forall x | x in edits ensures !Clash(x, e) {
        var i :| 0 <= i < |edits| && edits[i] == x;
        assert !Clash(all[i], all[|edits|]);
      }
      forall i, j | 0 <= i < j < |edits| ensures !Clash(edits[i], edits[j]) {
        assert !Clash(all[i], all[j]);
      }
    }
  }

  lemma {:induction false} SortIsPermutation(edits: seq<Edit>)
    ensures Sorted(Sort(edits))
    ensures forall x :: x in Sort(edits) <==> x in edits
    decreases |edits|
  {
    if edits != [] {
      var prefix, last := edits[..|edits| - 1], edits[|edits| - 1];
      assert edits == prefix + [last];
      SortIsPermutation(prefix);
      InsertSorts(Sort(prefix), last);
      InsertMembers(Sort(prefix), last);
    }
  }

  /** Sorting keeps the array order of what is inserted at one offset, and clashes stay clashes. */
  lemma {:induction false} SortKeepsMeaning(edits: seq<Edit>, p: nat)
    requires AllForward(edits)
    ensures Insertions(Sort(edits), p) == Insertions(edits, p)
    ensures Replacements(Sort(edits), p) == Replacements(edits, p)
    decreases |edits|
  {
    if edits != [] {
      var prefix, last := edits[..|edits| - 1], edits[|edits| - 1];
      assert edits == prefix + [last];
      SortIsPermutation(prefix);
      SortKeepsMeaning(prefix, p);
      InsertKeepsInsertions(Sort(prefix), last, p);
      InsertKeepsReplacements(Sort(prefix), last, p);
      InsertionsAppend(prefix, last, p);
      ReplacementsAppend(prefix, last, p);
    }
  }

  lemma {:induction false} SortKeepsClashes(edits: seq<Edit>)
    ensures NoClash(Sort(edits)) <==> NoClash(edits)
    decreases |edits|
  {
    if edits != [] {
      var prefix, last := edits[..|edits| - 1], edits[|edits| - 1];
      assert edits == prefix + [last];
      SortIsPermutation(prefix);
      SortKeepsClashes(prefix);
      InsertKeepsClashes(Sort(prefix), last);
      NoClashAppend(prefix, last);
    }
  }

  lemma CoveredBySameMembers(a: seq<Edit>, b: seq<Edit>, p: nat)
    requires forall x :: x in a <==> x in b
    ensures Covered(a, p) == Covered(b, p)
  {
  }

  lemma SortKeepsSimultaneous(text: Text, edits: seq<Edit>, p: nat)
    requires AllForward(edits)
    ensures Simultaneous(text, Sort(edits), p) == Simultaneous(text, edits, p)
  {
    var before: nat -> Text, after: nat -> Text := q => At(text, edits, q), q => At(text, Sort(edits), q);
    SortIsPermutation(edits);
    forall q: nat ensures after(q) == before(q) {
      SortKeepsMeaning(edits, q);
      CoveredBySameMembers(Sort(edits), edits, q);
      assert Kept(text, Sort(edits), q) == Kept(text, edits, q);
    }
    CollectSame(after, before, |text|, p);
  }

  // ---- Collecting ----

  lemma {:induction false} CollectSame(f: nat -> Text, g: nat -> Text, n: nat, p: nat)
    requires forall q :: p <= q ==> f(q) == g(q)
    ensures Collect(f, n, p) == Collect(g, n, p)
    decreases n + 1 - p
  {
    if p <= n {
      CollectSame(f, g, n, p + 1);
    }
  }

  lemma {:induction false} CollectNothing(f: nat -> Text, n: nat, p: nat, q: nat)
    requires p <= q <= n && forall r :: p <= r < q ==> f(r) == []
    ensures Collect(f, n, p) == Collect(f, n, q)
    decreases q - p
  {
    if p < q {
      CollectNothing(f, n, p + 1, q);
    }
  }

  lemma {:induction false} CollectText(f: nat -> Text, text: Text, p: nat, q: nat)
    requires p <= q <= |text| && forall r :: p <= r < q ==> f(r) == [text[r]]
    ensures Collect(f, |text|, p) == text[p..q] + Collect(f, |text|, q)
    decreases q - p
  {
    if p < q {
      CollectText(f, text, p + 1, q);
      assert text[p..q] == [text[p]] + text[p + 1..q];
      Regroup([text[p]], text[p + 1..q], Collect(f, |text|, q));
    } else {
      assert text[p..q] == [];
    }
  }

  // ---- Splicing ----

  /** One pass over sorted edits from an offset. */
  function Forward(text: Text, sorted: seq<Edit>, p: nat): Text
    requires AllInText(text, sorted) && p <= |text|
    decreases |sorted|
  {
    if sorted == [] then text[p..]
    else if sorted[0].start < p then []
    else text[p..sorted[0].start] + sorted[0].text + Forward(text, sorted[1..], sorted[0].end)
  }

  /** The program's splices: the last range first, each into the text the previous ones left. */
  function BackToFront(text: Text, sorted: seq<Edit>): Text
    requires AllInText(text, sorted)
    decreases |sorted|
  {
    if sorted == [] then text else Spliced(BackToFront(text, sorted[1..]), sorted[0])
  }

  function Spliced(text: Text, e: Edit): Text {
    if e.start <= e.end <= |text| then text[..e.start] + e.text + text[e.end..] else text
  }

  /** The ranges lie one behind the other, as the program checks them. */
  predicate Apart(sorted: seq<Edit>) {
    forall i :: 0 <= i < |sorted| - 1 ==> sorted[i].end <= sorted[i + 1].start
  }

  /** For sorted edits the check of neighbours finds every clash. */
  lemma ApartIsNoClash(sorted: seq<Edit>)
    requires Sorted(sorted) && AllForward(sorted)
    ensures Apart(sorted) <==> NoClash(sorted)
  {
    if Apart(sorted) {
      forall i, j | 0 <= i < j < |sorted| ensures !Clash(sorted[i], sorted[j]) {
        ApartFromAll(sorted, i, j);
      }
    }
    if NoClash(sorted) {
      forall i | 0 <= i < |sorted| - 1 ensures sorted[i].end <= sorted[i + 1].start {
        assert !Clash(sorted[i], sorted[i + 1]) && !Before(sorted[i + 1], sorted[i]);
        assert sorted[i] in sorted && sorted[i + 1] in sorted;
      }
    }
  }

  lemma {:induction false} ApartFromAll(sorted: seq<Edit>, i: nat, j: nat)
    requires Apart(sorted) && AllForward(sorted) && i < j < |sorted|
    ensures sorted[i].end <= sorted[j].start
    decreases j
  {
    if i + 1 < j {
      ApartFromAll(sorted, i, j - 1);
      assert sorted[j - 1] in sorted;
    }
  }

  /** Splicing from the back never moves a range still to come: the result is that of one forward pass. */
  lemma {:induction false} BackToFrontIsForward(text: Text, sorted: seq<Edit>, p: nat)
    requires AllInText(text, sorted) && Apart(sorted) && p <= |text|
    requires sorted != [] ==> p <= sorted[0].start
    ensures BackToFront(text, sorted) == text[..p] + Forward(text, sorted, p)
    decreases |sorted|
  {
    if sorted != [] {
      var first := sorted[0];
      assert InText(text, first);
      BackToFrontIsForward(text, sorted[1..], first.end);
      var rest := BackToFront(text, sorted[1..]);
      assert rest[..first.start] == text[..p] + text[p..first.start];
      assert rest[first.end..] == Forward(text, sorted[1..], first.end);
    }
  }

  // ---- One pass is the simultaneous replacement ----

  ghost predicate AllFrom(edits: seq<Edit>, p: nat) {
    forall e :: e in edits ==> p <= e.start <= e.end
  }

  lemma NothingLeft(text: Text, p: nat)
    requires p <= |text|
    ensures Simultaneous(text, [], p) == text[p..]
  {
    var at: nat -> Text := q => At(text, [], q);
    CollectText(at, text, p, |text|);
    assert at(|text|) == [] && Collect(at, |text|, |text| + 1) == [];
    assert Collect(at, |text|, |text|) == [];
  }

  /** Up to the first range, the text is kept. */
  lemma KeptUpTo(text: Text, edits: seq<Edit>, p: nat, q: nat)
    requires p <= q <= |text| && AllFrom(edits, q)
    ensures Simultaneous(text, edits, p) == text[p..q] + Simultaneous(text, edits, q)
  {
    var at: nat -> Text := r => At(text, edits, r);
    forall r | p <= r < q ensures at(r) == [text[r]] {
      KeptAt(text, edits, r);
    }
    CollectText(at, text, p, q);
  }

  lemma KeptAt(text: Text, edits: seq<Edit>, p: nat)
    requires p < |text| && AllFrom(edits, p + 1)
    ensures At(text, edits, p) == [text[p]]
  {
    NothingInserted(edits, p);
    NothingReplaced(edits, p);
  }

  lemma CoveredPast(e: Edit, edits: seq<Edit>, p: nat)
    ensures Covered([e] + edits, p) <==> Covers(e, p) || Covered(edits, p)
  {
    if Covers(e, p) {
      assert e in [e] + edits;
    }
    if Covered(edits, p) {
      var x :| x in edits && Covers(x, p);
      assert x in [e] + edits;
    }
  }

  lemma AtPast(text: Text, e: Edit, edits: seq<Edit>, p: nat)
    requires e.start <= e.end <= p && e.start < p
    ensures At(text, [e] + edits, p) == At(text, edits, p)
  {
    assert ([e] + edits)[1..] == edits;
    CoveredPast(e, edits, p);
    assert Kept(text, [e] + edits, p) == Kept(text, edits, p);
  }

  lemma AtInsertion(text: Text, e: Edit, edits: seq<Edit>)
    requires e.start == e.end
    ensures At(text, [e] + edits, e.start) == e.text + At(text, edits, e.start)
  {
    var p := e.start;
    assert ([e] + edits)[1..] == edits;
    CoveredPast(e, edits, p);
    assert Kept(text, [e] + edits, p) == Kept(text, edits, p);
    assert Replacements([e] + edits, p) == Replacements(edits, p);
    Regroup(e.text, Insertions(edits, p), Replacements(edits, p));
    Regroup(e.text, Insertions(edits, p) + Replacements(edits, p), Kept(text, edits, p));
  }

  lemma AtReplacement(text: Text, e: Edit, edits: seq<Edit>, p: nat)
    requires e.start <= p < e.end && AllFrom(edits, e.end)
    ensures At(text, [e] + edits, p) == if p == e.start then e.text else []
  {
    assert ([e] + edits)[1..] == edits;
    CoveredPast(e, edits, p);
    NothingInserted(edits, p);
    NothingReplaced(edits, p);
    assert Kept(text, [e] + edits, p) == [];
  }

  /** An edit that ends at or before an offset, or inserts before it, has no effect from there on. */
  lemma PastIsOver(text: Text, e: Edit, edits: seq<Edit>, p: nat)
    requires e.start <= e.end <= p && e.start < p
    ensures Simultaneous(text, [e] + edits, p) == Simultaneous(text, edits, p)
  {
    var all: nat -> Text, others: nat -> Text := q => At(text, [e] + edits, q), q => At(text, edits, q);
    forall q: nat | p <= q ensures all(q) == others(q) {
      AtPast(text, e, edits, q);
    }
    CollectSame(all, others, |text|, p);
  }

  /** Inside a replaced range nothing else appears. */
  lemma ReplacedUpTo(text: Text, e: Edit, edits: seq<Edit>, p: nat)
    requires e.start < p <= e.end <= |text| && AllFrom(edits, e.end)
    ensures Simultaneous(text, [e] + edits, p) == Simultaneous(text, edits, e.end)
  {
    var all: nat -> Text := q => At(text, [e] + edits, q);
    forall q | p <= q < e.end ensures all(q) == [] {
      AtReplacement(text, e, edits, q);
    }
    CollectNothing(all, |text|, p, e.end);
    PastIsOver(text, e, edits, e.end);
  }

  lemma Unfold(text: Text, edits: seq<Edit>, p: nat, first: Text, rest: Text)
    requires p <= |text| && At(text, edits, p) == first && Simultaneous(text, edits, p + 1) == rest
    ensures Simultaneous(text, edits, p) == first + rest
  {
  }

  /** What stands at the start of the first edit: its text, then what the others and the text give from its end. */
  lemma FirstEdit(text: Text, e: Edit, edits: seq<Edit>)
    requires e.start <= e.end <= |text| && AllFrom(edits, e.end)
    ensures Simultaneous(text, [e] + edits, e.start) == e.text + Simultaneous(text, edits, e.end)
  {
    if e.start == e.end {
      FirstInsertion(text, e, edits);
    } else {
      FirstReplacement(text, e, edits);
    }
  }

  lemma FirstReplacement(text: Text, e: Edit, edits: seq<Edit>)
    requires e.start < e.end <= |text| && AllFrom(edits, e.end)
    ensures Simultaneous(text, [e] + edits, e.start) == e.text + Simultaneous(text, edits, e.end)
  {
    ReplacementParts(text, e, edits);
    Unfold(text, [e] + edits, e.start, e.text, Simultaneous(text, edits, e.end));
  }

  lemma ReplacementParts(text: Text, e: Edit, edits: seq<Edit>)
    requires e.start < e.end <= |text| && AllFrom(edits, e.end)
    ensures At(text, [e] + edits, e.start) == e.text
    ensures Simultaneous(text, [e] + edits, e.start + 1) == Simultaneous(text, edits, e.end)
  {
    AtReplacement(text, e, edits, e.start);
    ReplacedUpTo(text, e, edits, e.start + 1);
  }

  lemma FirstInsertion(text: Text, e: Edit, edits: seq<Edit>)
    requires e.start == e.end <= |text| && AllFrom(edits, e.end)
    ensures Simultaneous(text, [e] + edits, e.start) == e.text + Simultaneous(text, edits, e.start)
  {
    var here, rest := At(text, edits, e.start), Simultaneous(text, edits, e.start + 1);
    AtInsertion(text, e, edits);
    PastIsOver(text, e, edits, e.start + 1);
    Unfold(text, [e] + edits, e.start, e.text + here, rest);
    Unfold(text, edits, e.start, here, rest);
    Regroup(e.text, here, rest);
  }

  lemma {:induction false} ForwardIsSimultaneous(text: Text, sorted: seq<Edit>, p: nat)
    requires AllInText(text, sorted) && Apart(sorted) && p <= |text|
    requires sorted != [] ==> p <= sorted[0].start
    ensures Simultaneous(text, sorted, p) == Forward(text, sorted, p)
    decreases |sorted|
  {
    if sorted == [] {
      NothingLeft(text, p);
    } else {
      var e, rest := sorted[0], sorted[1..];
      assert InText(text, e);
      ForwardIsSimultaneous(text, rest, e.end);
      UpToFirst(text, sorted, p);
    }
  }

  lemma UpToFirst(text: Text, sorted: seq<Edit>, p: nat)
    requires AllInText(text, sorted) && Apart(sorted) && sorted != [] && p <= sorted[0].start
    ensures InText(text, sorted[0])
    ensures Simultaneous(text, sorted, p) ==
      text[p..sorted[0].start] + sorted[0].text + Simultaneous(text, sorted[1..], sorted[0].end)
  {
    var e, rest := sorted[0], sorted[1..];
    assert InText(text, e);
    RestIsBehind(text, sorted);
    KeptUpTo(text, sorted, p, e.start);
    FirstEdit(text, e, rest);
    assert [e] + rest == sorted;
    Regroup(text[p..e.start], e.text, Simultaneous(text, rest, e.end));
  }

  lemma RestIsBehind(text: Text, sorted: seq<Edit>)
    requires AllInText(text, sorted) && Apart(sorted) && sorted != []
    ensures AllFrom(sorted[1..], sorted[0].end) && AllFrom(sorted, sorted[0].start)
  {
    forall x | x in sorted[1..] ensures sorted[0].end <= x.start <= x.end {
      var j :| 0 <= j < |sorted| - 1 && sorted[1..][j] == x;
      assert InText(text, sorted[j + 1]);
      ApartFromAll(sorted, 0, j + 1);
    }
    assert sorted == [sorted[0]] + sorted[1..];
  }

  /** For edits that do not clash, in any array order, the program's splices are the simultaneous replacement. */
  lemma SplicesAreSimultaneous(text: Text, edits: seq<Edit>)
    requires AllInText(text, edits) && NoClash(edits)
    ensures AllInText(text, Sort(edits)) && Apart(Sort(edits))
    ensures BackToFront(text, Sort(edits)) == Simultaneous(text, edits, 0)
  {
    SortedInText(text, edits);
    SortKeepsClashes(edits);
    ApartIsNoClash(Sort(edits));
    BackToFrontIsForward(text, Sort(edits), 0);
    ForwardIsSimultaneous(text, Sort(edits), 0);
    SortKeepsSimultaneous(text, edits, 0);
  }

  lemma SortedInText(text: Text, edits: seq<Edit>)
    requires AllInText(text, edits)
    ensures AllInText(text, Sort(edits)) && AllForward(edits) && AllForward(Sort(edits)) && Sorted(Sort(edits))
  {
    SortIsPermutation(edits);
    forall x | x in Sort(edits) ensures InText(text, x) {
      var i :| 0 <= i < |edits| && edits[i] == x;
    }
  }

  // ---- The operation ----

  /** One edit as offsets, or the first thing wrong with it. */
  function Convert(text: Text, raw: RawEdit, encoding: Encoding): Result<Edit, EditError> {
    if raw.Malformed? then Err(BadEdit)
    else
      var start := PositionOffset(Spans(text, 0), raw.start, encoding);
      var end := PositionOffset(Spans(text, 0), raw.end, encoding);
      if start.Err? then Err(BadPosition(start.error))
      else if end.Err? then Err(BadPosition(end.error))
      else if end.value < start.value then Err(Reversed)
      else if 0 in raw.text then Err(BadReplacement)
      else Ok(Edit(start.value, end.value, raw.text))
  }

  function ConvertAll(text: Text, raws: seq<RawEdit>, encoding: Encoding): Result<seq<Edit>, EditError>
    decreases |raws|
  {
    if raws == [] then Ok([])
    else
      var earlier :- ConvertAll(text, raws[..|raws| - 1], encoding);
      var last :- Convert(text, raws[|raws| - 1], encoding);
      Ok(earlier + [last])
  }

  /** What applying an edit array must give, without any order of application. */
  function Applied(text: Text, raws: seq<RawEdit>, encoding: Encoding): Result<Text, EditError> {
    var edits :- ConvertAll(text, raws, encoding);
    if NoClash(edits) then Ok(Simultaneous(text, edits, 0)) else Err(Overlapping)
  }

  lemma ConvertedInText(text: Text, raw: RawEdit, encoding: Encoding)
    ensures Convert(text, raw, encoding).Ok? ==> InText(text, Convert(text, raw, encoding).value)
  {
    if Convert(text, raw, encoding).Ok? {
      SpansLie(text, 0);
      var spans := Spans(text, 0);
      assert spans[raw.end.line] in spans;
    }
  }

  method ConvertEdits(text: Text, raws: seq<RawEdit>, encoding: Encoding) returns (r: Result<seq<Edit>, EditError>)
    ensures r == ConvertAll(text, raws, encoding)
    ensures r.Ok? ==> AllInText(text, r.value)
  {
    var edits := [];
    for i := 0 to |raws|
      invariant ConvertAll(text, raws[..i], encoding) == Ok(edits) && AllInText(text, edits)
    {
      var converted := Convert(text, raws[i], encoding);
      ConvertedInText(text, raws[i], encoding);
      assert raws[..i + 1][..i] == raws[..i];
      if converted.Err? {
        ConvertFails(text, raws, i + 1, encoding);
        return Err(converted.error);
      }
      edits := edits + [converted.value];
    }
    assert raws[..|raws|] == raws;
    return Ok(edits);
  }

  /** Walks from the last range to the first, comparing each with the one behind it. */
  method CheckApart(text: Text, sorted: seq<Edit>) returns (apart: bool)
    requires AllInText(text, sorted)
    ensures apart == Apart(sorted)
  {
    var previousStart := |text| + 1;
    for i := |sorted| downto 0
      invariant previousStart == if i < |sorted| then sorted[i].start else |text| + 1
      invariant forall j :: i <= j < |sorted| - 1 ==> sorted[j].end <= sorted[j + 1].start
    {
      assert InText(text, sorted[i]);
      if sorted[i].end > previousStart {
        return false;
      }
      previousStart := sorted[i].start;
    }
    return true;
  }

  method SpliceAll(text: Text, sorted: seq<Edit>) returns (result: Text)
    requires AllInText(text, sorted)
    ensures result == BackToFront(text, sorted)
  {
    result := text;
    for i := |sorted| downto 0
      invariant result == BackToFront(text, sorted[i..])
    {
      assert sorted[i..][1..] == sorted[i + 1..];
      result := Spliced(result, sorted[i]);
    }
    assert sorted[0..] == sorted;
  }

  /** The program's application: convert every edit, sort, check neighbours, splice from the back. */
  method ApplyTextEdits(text: Text, raws: seq<RawEdit>, encoding: Encoding) returns (r: Result<Text, EditError>)
    ensures r == Applied(text, raws, encoding)
  {
    var converted := ConvertEdits(text, raws, encoding);
    if converted.Err? {
      return Err(converted.error);
    }
    var sorted := Sort(converted.value);
    SortedInText(text, converted.value);
    SortKeepsClashes(converted.value);
    ApartIsNoClash(sorted);
    var apart := CheckApart(text, sorted);
    if !apart {
      return Err(Overlapping);
    }
    SplicesAreSimultaneous(text, converted.value);
    var result := SpliceAll(text, sorted);
    return Ok(result);
  }

  lemma {:induction false} ConvertFails(text: Text, raws: seq<RawEdit>, n: nat, encoding: Encoding)
    requires n <= |raws| && ConvertAll(text, raws[..n], encoding).Err?
    ensures ConvertAll(text, raws, encoding) == ConvertAll(text, raws[..n], encoding)
    decreases |raws|
  {
    if n < |raws| {
      assert raws[..|raws| - 1][..n] == raws[..n];
      ConvertFails(text, raws[..|raws| - 1], n, encoding);
    } else {
      assert raws[..n] == raws;
    }
  }

  // ---- What the edits of an array are ----

  /** The converted edit is where its two positions are in the text, and carries its text. */
  ghost predicate Addresses(text: Text, raw: RawEdit, encoding: Encoding, e: Edit) {
    && raw.RawEdit?
    && PositionOffset(Spans(text, 0), raw.start, encoding) == Ok(e.start)
    && PositionOffset(Spans(text, 0), raw.end, encoding) == Ok(e.end)
    && e.start <= e.end && e.text == raw.text && 0 !in raw.text
  }

  /** Each error has its own reason: the first that holds, in this order. */
  ghost predicate Faulty(text: Text, raw: RawEdit, encoding: Encoding, error: EditError) {
    match error
    case BadEdit => raw.Malformed?
    case BadPosition(e) =>
      raw.RawEdit? &&
      var (start, end) := (PositionOffset(Spans(text, 0), raw.start, encoding),
                           PositionOffset(Spans(text, 0), raw.end, encoding));
      start == Err(e) || (start.Ok? && end == Err(e))
    case Reversed =>
      raw.RawEdit? && exists start, end ::
        && PositionOffset(Spans(text, 0), raw.start, encoding) == Ok(start)
        && PositionOffset(Spans(text, 0), raw.end, encoding) == Ok(end) && end < start
    case BadReplacement =>
      raw.RawEdit? && 0 in raw.text && exists start, end ::
        && PositionOffset(Spans(text, 0), raw.start, encoding) == Ok(start)
        && PositionOffset(Spans(text, 0), raw.end, encoding) == Ok(end) && start <= end
    case Overlapping => false
  }

  lemma ConvertsExactly(text: Text, raw: RawEdit, encoding: Encoding)
    ensures match Convert(text, raw, encoding)
      case Ok(e) => Addresses(text, raw, encoding, e)
      case Err(error) => Faulty(text, raw, encoding, error)
  {
  }

  ghost predicate AllAddress(text: Text, raws: seq<RawEdit>, encoding: Encoding, edits: seq<Edit>) {
    |edits| == |raws| && forall i :: 0 <= i < |raws| ==> Addresses(text, raws[i], encoding, edits[i])
  }

  /** The first faulty edit of the array, and its fault. */
  ghost predicate FirstFault(text: Text, raws: seq<RawEdit>, encoding: Encoding, n: nat, error: EditError) {
    && n < |raws| && Faulty(text, raws[n], encoding, error)
    && (forall i :: 0 <= i < n ==> Sound(text, raws[i], encoding))
  }

  ghost predicate HasFault(text: Text, raws: seq<RawEdit>, encoding: Encoding, error: EditError) {
    exists n: nat :: FirstFault(text, raws, encoding, n, error)
  }

  ghost predicate Sound(text: Text, raw: RawEdit, encoding: Encoding) {
    exists e :: Addresses(text, raw, encoding, e)
  }

  lemma {:induction false} AllConvertExactly(text: Text, raws: seq<RawEdit>, encoding: Encoding)
    ensures match ConvertAll(text, raws, encoding)
      case Ok(edits) => AllAddress(text, raws, encoding, edits)
      case Err(error) => HasFault(text, raws, encoding, error)
    decreases |raws|
  {
    if raws != [] {
      var n := |raws| - 1;
      AllConvertExactly(text, raws[..n], encoding);
      ConvertsExactly(text, raws[n], encoding);
      var earlier, last := ConvertAll(text, raws[..n], encoding), Convert(text, raws[n], encoding);
      if earlier.Err? {
        var k: nat :| FirstFault(text, raws[..n], encoding, k, earlier.error);
        EarlierFault(text, raws, encoding, k, earlier.error);
        assert ConvertAll(text, raws, encoding) == Err(earlier.error);
      } else {
        LastConverts(text, raws, encoding, earlier.value);
        if last.Err? {
          assert ConvertAll(text, raws, encoding) == Err(last.error);
          assert FirstFault(text, raws, encoding, n, last.error);
        } else {
          assert ConvertAll(text, raws, encoding) == Ok(earlier.value + [last.value]);
        }
      }
    }
  }

  lemma LastConverts(text: Text, raws: seq<RawEdit>, encoding: Encoding, edits: seq<Edit>)
    requires raws != [] && AllAddress(text, raws[..|raws| - 1], encoding, edits)
    ensures match Convert(text, raws[|raws| - 1], encoding)
      case Ok(e) => AllAddress(text, raws, encoding, edits + [e])
      case Err(error) => FirstFault(text, raws, encoding, |raws| - 1, error)
  {
    ConvertsExactly(text, raws[|raws| - 1], encoding);
    forall i | 0 <= i < |edits| ensures Addresses(text, raws[i], encoding, edits[i]) {
      assert raws[..|raws| - 1][i] == raws[i];
    }
  }

  lemma EarlierFault(text: Text, raws: seq<RawEdit>, encoding: Encoding, k: nat, error: EditError)
    requires raws != [] && FirstFault(text, raws[..|raws| - 1], encoding, k, error)
    ensures FirstFault(text, raws, encoding, k, error)
  {
    forall i | 0 <= i < k ensures Sound(text, raws[i], encoding) {
      assert Sound(text, raws[..|raws| - 1][i], encoding);
    }
  }

  /**
   * An edit array fails with the first fault of its first faulty edit, is refused as overlapping exactly if
   * the ranges it addresses clash, and else gives all of its replacements at once at the places it addresses.
   */
  lemma AppliedExactly(text: Text, raws: seq<RawEdit>, encoding: Encoding)
    ensures match Applied(text, raws, encoding)
      case Ok(result) =>
        exists edits :: AllAddress(text, raws, encoding, edits) && NoClash(edits)
          && result == Simultaneous(text, edits, 0)
      case Err(error) =>
        || (error == Overlapping && exists edits :: AllAddress(text, raws, encoding, edits) && !NoClash(edits))
        || HasFault(text, raws, encoding, error)
  {
    AllConvertExactly(text, raws, encoding);
  }

  /** One edit, sent from two columns of the text: what is between them is replaced, and nothing else. */
  lemma OneEditReplaces(text: Text, line: int, character: int, endLine: int, endCharacter: int, inserted: Text,
                        encoding: Encoding)
    requires ToWire(text, line, character, encoding).Ok? && ToWire(text, endLine, endCharacter, encoding).Ok?
    requires PlaceOf(text, line, character) <= PlaceOf(text, endLine, endCharacter) && 0 !in inserted
    ensures var raw := RawEdit(ToWire(text, line, character, encoding).value,
                               ToWire(text, endLine, endCharacter, encoding).value, inserted);
      var (start, end) := (PlaceOf(text, line, character), PlaceOf(text, endLine, endCharacter));
      0 <= start <= end <= |text| && Applied(text, [raw], encoding) == Ok(text[..start] + inserted + text[end..])
  {
    var raw := RawEdit(ToWire(text, line, character, encoding).value,
                       ToWire(text, endLine, endCharacter, encoding).value, inserted);
    WirePositionAddressesColumn(text, line, character, encoding);
    WirePositionAddressesColumn(text, endLine, endCharacter, encoding);
    var e := Edit(PlaceOf(text, line, character), PlaceOf(text, endLine, endCharacter), inserted);
    ConvertedInText(text, raw, encoding);
    assert [raw][..0] == [] && ConvertAll(text, [], encoding) == Ok([]);
    assert ConvertAll(text, [raw], encoding) == Ok([] + [e]) && [] + [e] == [e];
    OneSplice(text, e);
  }

  lemma OneSplice(text: Text, e: Edit)
    requires InText(text, e)
    ensures NoClash([e]) && Simultaneous(text, [e], 0) == text[..e.start] + e.text + text[e.end..]
  {
    assert AllInText(text, [e]) && Apart([e]) && [e][1..] == [];
    ForwardIsSimultaneous(text, [e], 0);
    assert text[0..e.start] == text[..e.start];
  }
}
