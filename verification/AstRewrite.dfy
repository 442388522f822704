/** Splicing structural matches into a file: validation, newline styles, and the output bound. */
module AstRewrite {
  import opened Outcomes
  import opened CharacterCodes
  import opened Utf8
  import opened Newlines
  import opened TextLines

  datatype Record = Malformed | Match(start: int, end: int, replacement: Text)

  datatype RewriteError = BadRecord | OutOfRange | Overlap | BadBoundary | NotEncodable | OutputLimit

  /** The bytes a match inserts: its text with every terminator in the style of its place in the file. */
  function Inserted(source: seq<Byte>, m: Record): seq<Byte>
    requires InRange(source, m)
  {
    Encode(Normalize(m.replacement, StyleAt(source, m.start)))
  }

  predicate InRange(source: seq<Byte>, m: Record) {
    m.Match? && 0 <= m.start <= m.end <= |source|
  }

  /** Why a record is refused when the file is already rewritten up to `cursor`, in the order of the tests. */
  function Refusal(source: seq<Byte>, m: Record, cursor: nat, previousStart: int): Option<RewriteError> {
    if m.Malformed? then Some(BadRecord)
    else if !InRange(source, m) then Some(OutOfRange)
    else if m.start < cursor || m.start == previousStart then Some(Overlap)
    else if !Boundary(source, m.start) || !Boundary(source, m.end) then Some(BadBoundary)
    else None
  }

  predicate Fits(source: seq<Byte>, m: Record, cursor: nat, previousStart: int) {
    Refusal(source, m, cursor, previousStart).None? && forall c :: c in m.replacement ==> Encodable(c)
  }

  function CursorAfter(records: seq<Record>): (r: int)
    ensures r >= 0
  {
    if records == [] || records[|records| - 1].Malformed? || records[|records| - 1].end < 0 then 0
    else records[|records| - 1].end
  }

  function StartBefore(records: seq<Record>): int {
    if records == [] || records[|records| - 1].Malformed? then -1 else records[|records| - 1].start
  }

  /** Every record is acceptable after the ones before it. */
  predicate Acceptable(source: seq<Byte>, records: seq<Record>) {
    records == [] ||
    var prefix := records[..|records| - 1];
    var last := records[|records| - 1];
    Acceptable(source, prefix) && Fits(source, last, CursorAfter(prefix), StartBefore(prefix))
  }

  /** A record that can be spliced by itself: in range, on character boundaries, with text that can be encoded. */
  predicate Sound(source: seq<Byte>, m: Record) {
    && InRange(source, m) && Boundary(source, m.start) && Boundary(source, m.end)
    && forall c :: c in m.replacement ==> Encodable(c)
  }

  /** The ranges are disjoint, in order, and no two start together. */
  predicate Follows(first: Record, second: Record) {
    first.Match? && second.Match? && first.end <= second.start && first.start < second.start
  }

  /** The incremental checks accept exactly the sound records whose ranges follow one another. */
  lemma {:induction false} AcceptableIsSorted(source: seq<Byte>, records: seq<Record>)
    ensures Acceptable(source, records) <==>
      && (forall i :: 0 <= i < |records| ==> Sound(source, records[i]))
      && (forall i, j :: 0 <= i < j < |records| ==> Follows(records[i], records[j]))
    ensures Acceptable(source, records) ==>
      forall i :: 0 <= i < |records| ==> InRange(source, records[i]) && records[i].end <= CursorAfter(records)
    decreases |records|
  {
    if records != [] {
      var n := |records| - 1;
      var prefix, last := records[..n], records[n];
      AcceptableIsSorted(source, prefix);
      if Acceptable(source, records) {
        StartsAreBelow(source, prefix);
      } else if n > 0 && Acceptable(source, prefix) && Sound(source, last) {
        assert !Follows(records[n - 1], records[n]);
      }
    }
  }

  lemma {:induction false} StartsAreBelow(source: seq<Byte>, records: seq<Record>)
    requires Acceptable(source, records)
    ensures forall i :: 0 <= i < |records| ==> records[i].Match? && records[i].start <= StartBefore(records)
  {
    if records != [] {
      StartsAreBelow(source, records[..|records| - 1]);
    }
  }

  // ---- The result as a simultaneous replacement ----

  function Replace(data: seq<Byte>, start: nat, end: nat, insert: seq<Byte>): seq<Byte>
    requires start <= end <= |data|
  {
    data[..start] + insert + data[end..]
  }

  /** Replaces the ranges one at a time, last first, so that no replacement moves a range still to come. */
  function Splice(data: seq<Byte>, source: seq<Byte>, records: seq<Record>): seq<Byte>
    requires forall i :: 0 <= i < |records| ==> InRange(source, records[i])
    decreases |records|
  {
    if records == [] then data
    else
      var last, prefix := records[|records| - 1], records[..|records| - 1];
      assert InRange(source, last);
      if last.end > |data| then Splice(data, source, prefix)
      else Splice(Replace(data, last.start, last.end, Inserted(source, last)), source, prefix)
  }

  /** What the single forward pass has written after the given records. */
  function Written(source: seq<Byte>, records: seq<Record>): seq<Byte>
    requires Acceptable(source, records)
  {
    if records == [] then []
    else
      var last, prefix := records[|records| - 1], records[..|records| - 1];
      Written(source, prefix) + source[CursorAfter(prefix)..last.start] + Inserted(source, last)
  }

  /** Replacing a range leaves what is before it, and what is behind the cursor is gap, insertion and rest. */
  lemma ReplaceParts(data: seq<Byte>, source: seq<Byte>, cursor: nat, start: nat, end: nat, insert: seq<Byte>)
    requires cursor <= start <= end <= |data| && end <= |source| && data[..end] == source[..end]
    ensures var data' := Replace(data, start, end, insert);
      && data'[..cursor] == source[..cursor]
      && data'[cursor..] == source[cursor..start] + insert + data[end..]
  {
    assert data[..cursor] == data[..end][..cursor] && source[..cursor] == source[..end][..cursor];
    assert data[cursor..start] == data[..end][cursor..start];
    assert source[cursor..start] == source[..end][cursor..start];
  }

  /** The forward pass writes exactly the simultaneous replacement, whatever follows the last range. */
  lemma {:induction false} WrittenIsSplice(data: seq<Byte>, source: seq<Byte>, records: seq<Record>)
    requires Acceptable(source, records)
    requires CursorAfter(records) <= |data| && CursorAfter(records) <= |source|
    requires data[..CursorAfter(records)] == source[..CursorAfter(records)]
    ensures forall i :: 0 <= i < |records| ==> InRange(source, records[i])
    ensures Splice(data, source, records) == Written(source, records) + data[CursorAfter(records)..]
    decreases |records|
  {
    AcceptableIsSorted(source, records);
    if records != [] {
      var last, prefix := records[|records| - 1], records[..|records| - 1];
      var cursor, insert := CursorAfter(prefix), Inserted(source, last);
      ReplaceParts(data, source, cursor, last.start, last.end, insert);
      WrittenIsSplice(Replace(data, last.start, last.end, insert), source, prefix);
    } else {
      assert data[0..] == data;
    }
  }

  /** Splicing acceptable records into valid UTF-8 gives valid UTF-8. */
  lemma {:induction false} WrittenIsValid(source: seq<Byte>, records: seq<Record>)
    requires Valid(source) && Acceptable(source, records)
    ensures Valid(Written(source, records))
    ensures CursorAfter(records) <= |source| && Boundary(source, CursorAfter(records))
  {
    if records != [] {
      var last, prefix := records[|records| - 1], records[..|records| - 1];
      WrittenIsValid(source, prefix);
      SliceIsValid(source, CursorAfter(prefix), last.start);
      InsertedIsValid(source, last);
      ValidJoin(Written(source, prefix), source[CursorAfter(prefix)..last.start]);
      ValidJoin(Written(source, prefix) + source[CursorAfter(prefix)..last.start], Inserted(source, last));
    }
  }

  lemma SliceIsValid(source: seq<Byte>, from: nat, to: nat)
    requires Valid(source) && from <= to <= |source| && Boundary(source, from) && Boundary(source, to)
    ensures Valid(source[from..to])
  {
    CutIsValidExactlyAtBoundary(source, from);
    CutIsValidExactlyAtBoundary(source[from..], to - from);
    assert source[from..][..to - from] == source[from..to];
  }

  lemma InsertedIsValid(source: seq<Byte>, m: Record)
    requires InRange(source, m) && forall c :: c in m.replacement ==> Encodable(c)
    ensures Valid(Inserted(source, m))
  {
    NormalizeKeepsEncodable(m.replacement, StyleAt(source, m.start));
    EncodeIsValid(Normalize(m.replacement, StyleAt(source, m.start)));
  }

  lemma {:induction false} NormalizeKeepsEncodable(text: Text, style: Newline)
    ensures (forall c :: c in Normalize(text, style) ==> Encodable(c)) <==> (forall c :: c in text ==> Encodable(c))
    decreases |text|
  {
    if text != [] {
      var n := if BreakLength(text) > 0 then BreakLength(text) else 1;
      var head := if BreakLength(text) > 0 then NewlineText(style) else [text[0]];
      NormalizeKeepsEncodable(text[n..], style);
      assert text == text[..n] + text[n..];
      assert forall c :: c in text <==> c in text[..n] || c in text[n..];
      assert Normalize(text, style) == head + Normalize(text[n..], style);
      assert forall c :: c in Normalize(text, style) <==> c in head || c in Normalize(text[n..], style);
      assert BreakLength(text) == 0 ==> text[..n] == head;
    }
  }

  /** The rewritten file: the simultaneous replacement, or the file itself when nothing matched. */
  function Rewritten(source: seq<Byte>, records: seq<Record>): seq<Byte>
    requires Acceptable(source, records)
  {
    AcceptableIsSorted(source, records);
    Splice(source, source, records)
  }

  lemma RewrittenIsValid(source: seq<Byte>, records: seq<Record>)
    requires Valid(source) && Acceptable(source, records)
    ensures Valid(Rewritten(source, records))
  {
    AcceptableIsSorted(source, records);
    WrittenIsValid(source, records);
    WrittenIsSplice(source, source, records);
    SliceIsValid(source, CursorAfter(records), |source|);
    assert source[CursorAfter(records)..|source|] == source[CursorAfter(records)..];
    ValidJoin(Written(source, records), source[CursorAfter(records)..]);
  }

  /** What a prefix of the records has written only grows; if it is refused, so are all the records. */
  lemma {:induction false} WrittenGrows(source: seq<Byte>, records: seq<Record>, n: nat)
    requires n <= |records|
    ensures Acceptable(source, records) ==>
      Acceptable(source, records[..n]) && |Written(source, records[..n])| <= |Written(source, records)|
  {
    if n < |records| {
      WrittenGrows(source, records[..|records| - 1], n);
      assert records[..|records| - 1][..n] == records[..n];
    } else {
      assert records[..n] == records;
    }
  }

  /** Appends within the output bound, or reports that the bound is exceeded. */
  method ExtendBounded(output: seq<Byte>, value: seq<Byte>, maxBytes: nat) returns (r: Result<seq<Byte>, RewriteError>)
    ensures r == if |output| + |value| > maxBytes then Err(OutputLimit) else Ok(output + value)
  {
    if |output| + |value| > maxBytes {
      return Err(OutputLimit);
    }
    return Ok(output + value);
  }

  /** Why a record stops the pass when `length` bytes are written: the tests in the order they are made. */
  function StepError(source: seq<Byte>, m: Record, length: nat, cursor: nat, previousStart: int, maxBytes: nat)
    : Option<RewriteError>
  {
    if Refusal(source, m, cursor, previousStart).Some? then Refusal(source, m, cursor, previousStart)
    else if length + (m.start - cursor) > maxBytes then Some(OutputLimit)
    else if exists c :: c in m.replacement && !Encodable(c) then Some(NotEncodable)
    else if length + (m.start - cursor) + |Inserted(source, m)| > maxBytes then Some(OutputLimit)
    else None
  }

  /** One record: its gap and its text are appended, unless it is refused or they exceed the bound. */
  method ApplyMatch(source: seq<Byte>, m: Record, output: seq<Byte>, cursor: nat, previousStart: int,
                    tracker: NewlineTracker, maxBytes: nat) returns (r: Result<seq<Byte>, RewriteError>)
    requires tracker.Valid() && tracker.data == source && tracker.scanned <= cursor <= |source|
    modifies tracker
    ensures tracker.Valid()
    ensures match StepError(source, m, |output|, cursor, previousStart, maxBytes)
      case Some(e) => r == Err(e)
      case None =>
        && Fits(source, m, cursor, previousStart) && tracker.scanned <= m.end
        && r == Ok(output + source[cursor..m.start] + Inserted(source, m))
  {
    var refusal := Refusal(source, m, cursor, previousStart);
    if refusal.Some? {
      return Err(refusal.value);
    }
    var text := m.replacement;
    if exists c :: c in text && Breaks(c) {
      var style := tracker.Style(m.start);
      text := Normalize(text, style);
    } else {
      NothingToNormalize(text, StyleAt(source, m.start));
    }
    NormalizeKeepsEncodable(m.replacement, StyleAt(source, m.start));
    r := ExtendBounded(output, source[cursor..m.start], maxBytes);
    if r.Ok? {
      if exists c :: c in text && !Encodable(c) {
        return Err(NotEncodable);
      }
      r := ExtendBounded(r.value, Encode(text), maxBytes);
    }
  }

  /** The first record that stops the pass, and why. */
  ghost predicate FailsAt(source: seq<Byte>, records: seq<Record>, n: nat, maxBytes: nat, e: RewriteError) {
    && n < |records| && Acceptable(source, records[..n]) && |Written(source, records[..n])| <= maxBytes
    && StepError(source, records[n], |Written(source, records[..n])|,
                 CursorAfter(records[..n]), StartBefore(records[..n]), maxBytes) == Some(e)
  }

  /** There is only one such record: the records before it all passed. */
  lemma FailsOnce(source: seq<Byte>, records: seq<Record>, n: nat, m: nat, maxBytes: nat,
                  e: RewriteError, f: RewriteError)
    requires FailsAt(source, records, n, maxBytes, e) && FailsAt(source, records, m, maxBytes, f)
    ensures n == m && e == f
  {
    if n < m {
      PassedBefore(source, records, n, m, maxBytes);
    } else if m < n {
      PassedBefore(source, records, m, n, maxBytes);
    }
  }

  lemma PassedBefore(source: seq<Byte>, records: seq<Record>, n: nat, m: nat, maxBytes: nat)
    requires n < m <= |records| && Acceptable(source, records[..m]) && |Written(source, records[..m])| <= maxBytes
    ensures Acceptable(source, records[..n]) && StepError(source, records[n], |Written(source, records[..n])|,
      CursorAfter(records[..n]), StartBefore(records[..n]), maxBytes).None?
  {
    assert records[..m][..n + 1] == records[..n + 1] && records[..n + 1][..n] == records[..n];
    WrittenGrows(source, records[..m], n + 1);
  }

  /** A record that passes takes the written prefix, the cursor and the bound one record further. */
  lemma PassesOn(source: seq<Byte>, records: seq<Record>, n: nat, maxBytes: nat)
    requires n < |records| && Acceptable(source, records[..n])
    requires StepError(source, records[n], |Written(source, records[..n])|,
      CursorAfter(records[..n]), StartBefore(records[..n]), maxBytes).None?
    ensures var next := records[..n + 1];
      && Acceptable(source, next)
      && InRange(source, records[n])
      && Written(source, next) == Written(source, records[..n]) + source[CursorAfter(records[..n])..records[n].start]
                                    + Inserted(source, records[n])
      && |Written(source, next)| <= maxBytes
      && CursorAfter(next) == records[n].end && StartBefore(next) == records[n].start
  {
    assert records[..n + 1][..n] == records[..n];
  }

  /** The records one by one: what they write, or where and why they stop. */
  method WriteMatches(source: seq<Byte>, records: seq<Record>, maxBytes: nat)
    returns (r: Result<seq<Byte>, RewriteError>, ghost stop: nat)
    ensures match r
      case Ok(output) =>
        Acceptable(source, records) && output == Written(source, records) && |output| <= maxBytes
      case Err(e) => FailsAt(source, records, stop, maxBytes, e)
  {
    var output: seq<Byte> := [];
    var cursor, previousStart := 0, -1;
    var tracker := new NewlineTracker(source);
    for i := 0 to |records|
      invariant Acceptable(source, records[..i])
      invariant cursor == CursorAfter(records[..i]) <= |source| && previousStart == StartBefore(records[..i])
      invariant output == Written(source, records[..i]) && |output| <= maxBytes
      invariant tracker.Valid() && tracker.data == source && tracker.scanned <= cursor
      invariant fresh(tracker)
    {
      r := ApplyMatch(source, records[i], output, cursor, previousStart, tracker, maxBytes);
      if r.Err? {
        return r, i;
      }
      PassesOn(source, records, i, maxBytes);
      output := r.value;
      cursor, previousStart := records[i].end, records[i].start;
    }
    assert records[..|records|] == records;
    return Ok(output), 0;
  }

  /**
   * The pass over the match records. Acceptable records give the simultaneous replacement, or OutputLimit
   * exactly when that is longer than the bound; a file without matches is returned whatever its length.
   * Any other error is that of the first record that stops the pass.
   */
  method ApplyMatches(source: seq<Byte>, records: seq<Record>, maxBytes: nat)
    returns (r: Result<seq<Byte>, RewriteError>)
    ensures r.Ok? ==> Acceptable(source, records) && r.value == Rewritten(source, records)
    ensures r.Ok? ==> records == [] || |r.value| <= maxBytes
    ensures Acceptable(source, records) && r.Err? ==>
      r == Err(OutputLimit) && records != [] && |Rewritten(source, records)| > maxBytes
    ensures !Acceptable(source, records) ==> r.Err? && exists n: nat :: FailsAt(source, records, n, maxBytes, r.error)
  {
    ghost var stop;
    r, stop := WriteMatches(source, records, maxBytes);
    if r.Err? {
      AcceptableStops(source, records, stop, maxBytes, r.error);
      return;
    }
    if records == [] {
      return Ok(source);
    }
    CursorInRange(source, records);
    WrittenIsSplice(source, source, records);
    r := ExtendBounded(r.value, source[records[|records| - 1].end..], maxBytes);
  }

  /** Where acceptable records stop the pass, the whole replacement is over the bound. */
  lemma AcceptableStops(source: seq<Byte>, records: seq<Record>, n: nat, maxBytes: nat, e: RewriteError)
    requires FailsAt(source, records, n, maxBytes, e)
    ensures Acceptable(source, records) ==> e == OutputLimit && |Rewritten(source, records)| > maxBytes
  {
    if Acceptable(source, records) {
      LongerThanAPrefix(source, records, n + 1);
      assert records[..n + 1][..n] == records[..n];
    }
  }

  lemma LongerThanAPrefix(source: seq<Byte>, records: seq<Record>, n: nat)
    requires n <= |records| && Acceptable(source, records)
    ensures Acceptable(source, records[..n]) && |Written(source, records[..n])| <= |Rewritten(source, records)|
  {
    WrittenGrows(source, records, n);
    AcceptableIsSorted(source, records);
    CursorInRange(source, records);
    WrittenIsSplice(source, source, records);
  }

  lemma CursorInRange(source: seq<Byte>, records: seq<Record>)
    requires Acceptable(source, records)
    ensures CursorAfter(records) <= |source|
  {}

  lemma {:induction false} NothingToNormalize(text: Text, style: Newline)
    requires forall c :: c in text ==> !Breaks(c)
    ensures Normalize(text, style) == text
    decreases |text|
  {
    if text != [] {
      assert text[0] in text;
      NothingToNormalize(text[1..], style);
    }
  }

  // ---- The rewritten file by its pieces ----

  /** The replacement line by line, with every terminator in the style of its place in the file. */
  ghost predicate InStyle(text: Text, source: seq<Byte>, m: Record)
    requires InRange(source, m)
  {
    Lines(text) == Lines(m.replacement) && forall e :: e in Endings(text) ==> e == NewlineText(StyleAt(source, m.start))
  }

  ghost predicate AllInStyle(texts: seq<Text>, source: seq<Byte>, records: seq<Record>) {
    |texts| == |records| &&
    forall i :: 0 <= i < |records| ==> InRange(source, records[i]) && InStyle(texts[i], source, records[i])
  }

  predicate Disjoint(source: seq<Byte>, records: seq<Record>) {
    && (forall i :: 0 <= i < |records| ==> InRange(source, records[i]))
    && (forall i, j :: 0 <= i < j < |records| ==> Follows(records[i], records[j]))
  }

  function EndOf(records: seq<Record>, k: nat): int
    requires k <= |records| && forall i :: 0 <= i < |records| ==> records[i].Match?
  {
    if k == 0 then 0 else records[k - 1].end
  }

  /** What the file has between the ranges and the text of each, up to the range before the given one. */
  function Pieces(source: seq<Byte>, records: seq<Record>, texts: seq<Text>, k: nat): seq<Byte>
    requires Disjoint(source, records) && k <= |records| == |texts|
  {
    if k == 0 then []
    else
      assert InRange(source, records[k - 1]);
      assert k > 1 ==> Follows(records[k - 2], records[k - 1]) && InRange(source, records[k - 2]);
      Pieces(source, records, texts, k - 1) + source[EndOf(records, k - 1)..records[k - 1].start] + Encode(texts[k - 1])
  }

  lemma InStyleIsInserted(text: Text, source: seq<Byte>, m: Record)
    requires InRange(source, m)
    ensures InStyle(text, source, m) ==> Encode(text) == Inserted(source, m)
    ensures InStyle(Normalize(m.replacement, StyleAt(source, m.start)), source, m)
  {
    var style := StyleAt(source, m.start);
    NormalizeKeepsLines(m.replacement, style);
    NormalizeIsUniform(m.replacement, style);
    if InStyle(text, source, m) {
      LinesAndStyleDetermine(text, Normalize(m.replacement, style), NewlineText(style));
    }
  }

  lemma AcceptableIsDisjoint(source: seq<Byte>, records: seq<Record>, k: nat)
    requires Acceptable(source, records) && k <= |records|
    ensures Disjoint(source, records) && Acceptable(source, records[..k])
    ensures CursorAfter(records[..k]) == EndOf(records, k) && 0 <= EndOf(records, k) <= |source|
  {
    AcceptableIsSorted(source, records);
    WrittenGrows(source, records, k);
    assert k > 0 ==> records[..k][k - 1] == records[k - 1] && InRange(source, records[k - 1]);
  }

  lemma {:induction false} WrittenInPieces(source: seq<Byte>, records: seq<Record>, texts: seq<Text>, k: nat)
    requires Acceptable(source, records) && k <= |records| && AllInStyle(texts, source, records)
    ensures Disjoint(source, records) && Acceptable(source, records[..k])
    ensures Written(source, records[..k]) == Pieces(source, records, texts, k)
  {
    AcceptableIsDisjoint(source, records, k);
    if k > 0 {
      WrittenInPieces(source, records, texts, k - 1);
      AcceptableIsDisjoint(source, records, k - 1);
      assert records[..k][..k - 1] == records[..k - 1] && records[..k][k - 1] == records[k - 1];
      InStyleIsInserted(texts[k - 1], source, records[k - 1]);
    }
  }

  /**
   * The rewritten file is what the file has between the matches, and for each match its replacement with the
   * same lines and every terminator in the style of that place. There is exactly one such text a match.
   */
  lemma RewrittenInPieces(source: seq<Byte>, records: seq<Record>)
    requires Acceptable(source, records)
    ensures Disjoint(source, records) && 0 <= EndOf(records, |records|) <= |source|
    ensures exists texts :: AllInStyle(texts, source, records)
    ensures forall texts :: AllInStyle(texts, source, records) ==>
      Rewritten(source, records) == Pieces(source, records, texts, |records|) + source[EndOf(records, |records|)..]
  {
    var n := |records|;
    AcceptableIsDisjoint(source, records, n);
    assert records[..n] == records;
    var texts := seq(n, i requires 0 <= i < n =>
      assert InRange(source, records[i]); Normalize(records[i].replacement, StyleAt(source, records[i].start)));
    forall i | 0 <= i < n ensures InRange(source, records[i]) && InStyle(texts[i], source, records[i]) {
      assert InRange(source, records[i]);
      InStyleIsInserted(texts[i], source, records[i]);
    }
    assert AllInStyle(texts, source, records);
    WrittenIsSplice(source, source, records);
    forall texts | AllInStyle(texts, source, records)
      ensures Rewritten(source, records) == Pieces(source, records, texts, n) + source[EndOf(records, n)..]
    {
      WrittenInPieces(source, records, texts, n);
    }
  }

  // ---- Why a record is refused ----

  /** Each error has its own reason, on any file, at any place of the pass and under any bound. */
  lemma StopsExactly(source: seq<Byte>, m: Record, length: nat, cursor: nat, previousStart: int, maxBytes: nat)
    ensures var stop := StepError(source, m, length, cursor, previousStart, maxBytes);
      && (stop == Some(BadRecord) <==> m.Malformed?)
      && (stop == Some(OutOfRange) <==> m.Match? && !(0 <= m.start <= m.end <= |source|))
      && (stop == Some(Overlap) <==> InRange(source, m) && (m.start < cursor || m.start == previousStart))
      && (InRange(source, m) && m.start >= cursor && m.start != previousStart ==>
            && (stop == Some(BadBoundary) <==> !Boundary(source, m.start) || !Boundary(source, m.end))
            && (Boundary(source, m.start) && Boundary(source, m.end) ==>
                  var gap := m.start - cursor;
                  && (stop == Some(NotEncodable) <==>
                        length + gap <= maxBytes && exists c :: c in m.replacement && !Encodable(c))
                  && (stop == Some(OutputLimit) <==>
                        length + gap > maxBytes || (Sound(source, m) &&
                          forall text :: InStyle(text, source, m) ==> length + gap + |Encode(text)| > maxBytes))))
  {
    if InRange(source, m) {
      InStyleIsInserted(Normalize(m.replacement, StyleAt(source, m.start)), source, m);
      forall text | InStyle(text, source, m) ensures Encode(text) == Inserted(source, m) {
        InStyleIsInserted(text, source, m);
      }
    }
  }
}
