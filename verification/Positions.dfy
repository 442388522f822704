/** One-based code-point coordinates and LSP positions. */
module Positions {
  // The characters of a position are counted in code units of the negotiated encoding (LSP 3.17, section
  // "Position").

  import opened Outcomes
  import opened Utf8
  import opened TextLines

  datatype Encoding = Units8 | Units16 | Units32

  datatype PositionError = BadLine | BadCharacter | OutsideDocument | OutsideLine | SplitsCodePoint

  function Width(c: CodePoint, encoding: Encoding): (n: nat)
    ensures n > 0
  {
    match encoding
    case Units8 => |EncodeChar(c)|
    case Units16 => if c >= 0x10000 then 2 else 1
    case Units32 => 1
  }

  /** The UTF-16 code units of a code point. */
  function Utf16(c: CodePoint): seq<int> {
    if c <= 0xFFFF then [c] else [0xD800 + (c - 0x10000) / 0x400, 0xDC00 + (c - 0x10000) % 0x400]
  }

  /** A width is the number of code units, each of which fits its size and which give the code point back. */
  lemma WidthCountsUnits(c: CodePoint)
    ensures Width(c, Units8) == |EncodeChar(c)| && DecodeChar(EncodeChar(c)) == c
    ensures Width(c, Units16) == |Utf16(c)| && (forall unit :: unit in Utf16(c) ==> 0 <= unit <= 0xFFFF)
    ensures |Utf16(c)| == 1 ==> Utf16(c)[0] == c
    ensures |Utf16(c)| == 2 ==>
      var (high, low) := (Utf16(c)[0], Utf16(c)[1]);
      && 0xD800 <= high <= 0xDBFF && 0xDC00 <= low <= 0xDFFF
      && 0x10000 + (high - 0xD800) * 0x400 + (low - 0xDC00) == c
    ensures Width(c, Units32) == 1
  {
    DecodeCharInverts(c);
  }

  function Units(text: Text, encoding: Encoding): nat {
    if text == [] then 0 else Width(text[0], encoding) + Units(text[1..], encoding)
  }

  /** The number of code points that must be passed until at least `offset` units have been. */
  function Passed(line: Text, offset: int, encoding: Encoding): (n: nat)
    ensures n <= |line|
  {
    if line == [] || offset <= 0 then 0
    else 1 + Passed(line[1..], offset - Width(line[0], encoding), encoding)
  }

  lemma {:induction false} UnitsAppend(s: Text, t: Text, encoding: Encoding)
    ensures Units(s + t, encoding) == Units(s, encoding) + Units(t, encoding)
  {
    if s == [] {
      assert s + t == t;
    } else {
      UnitsAppend(s[1..], t, encoding);
      assert (s + t)[1..] == s[1..] + t;
    }
  }

  /**
   * The two conversions are adjoint: within the line, the column of an offset is at most `c` exactly when
   * the offset is at most the units before column `c`.
   */
  lemma {:induction false} Adjoint(line: Text, offset: int, c: nat, encoding: Encoding)
    requires c <= |line|
    requires c < |line| || offset <= Units(line, encoding)
    ensures Passed(line, offset, encoding) <= c <==> offset <= Units(line[..c], encoding)
  {
    if line != [] && offset > 0 {
      if c > 0 {
        Adjoint(line[1..], offset - Width(line[0], encoding), c - 1, encoding);
        assert line[..c][1..] == line[1..][..c - 1];
      }
    }
  }

  /** From a column to its offset and back is the identity. */
  lemma {:induction false} ColumnRoundTrip(line: Text, c: nat, encoding: Encoding)
    requires c <= |line|
    ensures Passed(line, Units(line[..c], encoding), encoding) == c
  {
    if c > 0 {
      assert line[..c][1..] == line[1..][..c - 1];
      ColumnRoundTrip(line[1..], c - 1, encoding);
    }
  }

  /** Neither conversion reorders positions. */
  lemma OrderIsKept(line: Text, c: nat, d: nat, u: int, v: int, encoding: Encoding)
    requires c <= d <= |line| && u <= v
    ensures Units(line[..c], encoding) <= Units(line[..d], encoding)
    ensures Passed(line, u, encoding) <= Passed(line, v, encoding)
    ensures c < d ==> Units(line[..c], encoding) < Units(line[..d], encoding)
  {
    UnitsAppend(line[..c], line[c..d], encoding);
    assert line[..c] + line[c..d] == line[..d];
    PassedIsMonotone(line, u, v, encoding);
  }

  lemma PassedIsMonotone(line: Text, u: int, v: int, encoding: Encoding)
    requires u <= v
    ensures Passed(line, u, encoding) <= Passed(line, v, encoding)
  {}

  // ---- The program's conversions ----

  /** A wire position; the program's own is one-based and counts code points. */
  datatype Position = Position(line: int, character: int)

  function ToWire(text: Text, line: int, character: int, encoding: Encoding): Result<Position, PositionError> {
    ToWireIn(Lines(text), line, character, encoding)
  }

  function ToWireIn(lines: seq<Text>, line: int, character: int, encoding: Encoding): Result<Position, PositionError> {
    if line < 1 then Err(BadLine)
    else if character < 1 then Err(BadCharacter)
    else if line > |lines| then Err(OutsideDocument)
    else if character - 1 > |lines[line - 1]| then Err(OutsideLine)
    else Ok(Position(line - 1, Units(lines[line - 1][..character - 1], encoding)))
  }

  /** Exactly the columns of the text can be sent, the one behind each line included; anything else has its error. */
  lemma ToWireExactly(text: Text, line: int, character: int, encoding: Encoding)
    ensures var (wire, lines) := (ToWire(text, line, character, encoding), Lines(text));
      && (wire == Err(BadLine) <==> line < 1)
      && (wire == Err(BadCharacter) <==> line >= 1 && character < 1)
      && (wire == Err(OutsideDocument) <==> character >= 1 && line > |lines|)
      && (wire == Err(OutsideLine) <==> character >= 1 && 1 <= line <= |lines| && character > |lines[line - 1]| + 1)
      && (wire.Ok? ==> wire.value == Position(line - 1, Units(lines[line - 1][..character - 1], encoding)))
  {
    LinesRejoin(text);
  }

  method UserCharacter(line: Text, offset: int, encoding: Encoding) returns (character: nat)
    ensures character == Passed(line, offset, encoding) + 1
  {
    if offset < 0 {
      return 1;
    }
    if encoding == Units32 {
      PassedByOne(line, offset);
      return (if offset < |line| then offset else |line|) + 1;
    }
    var units, chars := 0, 0;
    while chars < |line| && units < offset
      invariant chars <= |line|
      invariant chars + Passed(line[chars..], offset - units, encoding) == Passed(line, offset, encoding)
    {
      assert line[chars..][0] == line[chars] && line[chars..][1..] == line[chars + 1..];
      units := units + Width(line[chars], encoding);
      chars := chars + 1;
    }
    return chars + 1;
  }

  lemma PassedByOne(line: Text, offset: nat)
    ensures Passed(line, offset, Units32) == if offset < |line| then offset else |line|
  {}

  /** A wire position as a user sees it; lines before the first or past the last count as empty. */
  function ToUser(text: Text, position: Position, encoding: Encoding): Position {
    var index := if position.line < 0 then 0 else position.line;
    var line := if index < |Lines(text)| then Lines(text)[index] else [];
    Position(index + 1, Passed(line, position.character, encoding) + 1)
  }

  /** The first column at which the units before it reach those of the position, or the end of the line. */
  lemma ToUserExactly(text: Text, position: Position, encoding: Encoding)
    ensures var user := ToUser(text, position, encoding);
      var index := if position.line < 0 then 0 else position.line;
      var line := if index < |Lines(text)| then Lines(text)[index] else [];
      && user.line == index + 1 && 1 <= user.character <= |line| + 1
      && (forall c: nat :: c < user.character - 1 ==> Units(line[..c], encoding) < position.character)
      && (user.character - 1 < |line| ==> Units(line[..user.character - 1], encoding) >= position.character)
  {
    var index := if position.line < 0 then 0 else position.line;
    var line := if index < |Lines(text)| then Lines(text)[index] else [];
    FirstColumn(line, position.character, encoding);
  }

  lemma FirstColumn(line: Text, offset: int, encoding: Encoding)
    ensures var n := Passed(line, offset, encoding);
      && (forall c: nat :: c < n ==> Units(line[..c], encoding) < offset)
      && (n < |line| ==> Units(line[..n], encoding) >= offset)
  {
    var n := Passed(line, offset, encoding);
    forall c: nat | c < n ensures Units(line[..c], encoding) < offset {
      Adjoint(line, offset, c, encoding);
    }
    if n < |line| {
      Adjoint(line, offset, n, encoding);
    }
  }

  lemma UserRoundTrip(text: Text, line: int, character: int, encoding: Encoding)
    requires ToWire(text, line, character, encoding).Ok?
    ensures ToUser(text, ToWire(text, line, character, encoding).value, encoding) == Position(line, character)
  {
    ColumnRoundTrip(Lines(text)[line - 1], character - 1, encoding);
  }

  // ---- The offset a text edit is applied at ----

  datatype Span = Span(start: nat, line: Text)

  /** Each line of `text` from an offset on, with the offset at which it begins. */
  function Spans(text: Text, from: nat): (spans: seq<Span>)
    requires from <= |text|
    ensures |spans| > 0
    decreases |text| - from
  {
    if from == |text| then [Span(from, [])]
    else if BreakLength(text[from..]) > 0 then
      [Span(from, [])] + Spans(text, from + BreakLength(text[from..]))
    else
      var rest := Spans(text, from + 1);
      [Span(from, [text[from]] + rest[0].line)] + rest[1..]
  }

  function LinesOf(spans: seq<Span>): (lines: seq<Text>)
    ensures |lines| == |spans| && forall i :: 0 <= i < |spans| ==> lines[i] == spans[i].line
  {
    seq(|spans|, i requires 0 <= i < |spans| => spans[i].line)
  }

  /** Splitting with offsets and splitting without them give the same lines. */
  lemma {:induction false} SpansHoldLines(text: Text, from: nat)
    requires from <= |text|
    ensures LinesOf(Spans(text, from)) == Lines(text[from..])
    decreases |text| - from
  {
    if from < |text| {
      var n := BreakLength(text[from..]);
      if n > 0 {
        SpansHoldLines(text, from + n);
        assert text[from..][n..] == text[from + n..];
      } else {
        SpansHoldLines(text, from + 1);
        assert text[from..][1..] == text[from + 1..];
      }
    }
  }

  predicate LiesAt(text: Text, at: int, line: Text) {
    0 <= at && at + |line| <= |text| && text[at..at + |line|] == line
  }

  ghost predicate AllLie(text: Text, spans: seq<Span>) {
    forall span :: span in spans ==> LiesAt(text, span.start, span.line)
  }

  /** Each line lies in the text where its start says, and the first one at the beginning. */
  lemma {:induction false} SpansLie(text: Text, from: nat)
    requires from <= |text|
    ensures Spans(text, from)[0].start == from && AllLie(text, Spans(text, from))
    decreases |text| - from
  {
    if from < |text| {
      var n := BreakLength(text[from..]);
      if n > 0 {
        SpansLie(text, from + n);
      } else {
        var rest := Spans(text, from + 1);
        SpansLie(text, from + 1);
        assert rest[0] in rest;
        LiesLonger(text, from, rest[0].line);
      }
    }
  }

  lemma LiesLonger(text: Text, from: nat, line: Text)
    requires from < |text| && LiesAt(text, from + 1, line)
    ensures LiesAt(text, from, [text[from]] + line)
  {
    assert text[from..from + 1 + |line|] == [text[from]] + text[from + 1..from + 1 + |line|];
  }

  /** The prefix of the line that is exactly `character` units long, by its number of code points. */
  function Exactly(line: Text, character: int, encoding: Encoding): (r: Result<nat, PositionError>)
    ensures r.Ok? ==> r.value <= |line|
  {
    if character == 0 then Ok(0)
    else if line == [] then Err(OutsideLine)
    else if Width(line[0], encoding) > character then Err(SplitsCodePoint)
    else
      var rest :- Exactly(line[1..], character - Width(line[0], encoding), encoding);
      Ok(rest + 1)
  }

  function PositionOffset(spans: seq<Span>, position: Position, encoding: Encoding): Result<nat, PositionError> {
    if position.line < 0 || position.character < 0 then Err(BadLine)
    else if position.line >= |spans| then Err(OutsideDocument)
    else
      var column :- Exactly(spans[position.line].line, position.character, encoding);
      Ok(spans[position.line].start + column)
  }

  lemma {:induction false} ExactlyInverts(line: Text, c: nat, encoding: Encoding)
    requires c <= |line|
    ensures Exactly(line, Units(line[..c], encoding), encoding) == Ok(c)
  {
    if c > 0 {
      assert line[..c][1..] == line[1..][..c - 1];
      ExactlyInverts(line[1..], c - 1, encoding);
    }
  }

  lemma {:induction false} ExactlyIsExact(line: Text, character: int, encoding: Encoding)
    requires Exactly(line, character, encoding).Ok?
    ensures Units(line[..Exactly(line, character, encoding).value], encoding) == character
  {
    if character != 0 {
      ExactlyIsExact(line[1..], character - Width(line[0], encoding), encoding);
      var c := Exactly(line, character, encoding).value;
      assert line[..c][1..] == line[1..][..c - 1];
    }
  }

  /** An offset is accepted exactly when it is that of a column of the line: inside no code point, not past the end. */
  lemma OffsetIsAcceptedExactlyAtColumns(spans: seq<Span>, position: Position, encoding: Encoding)
    requires 0 <= position.line < |spans|
    ensures var line := spans[position.line].line;
      PositionOffset(spans, position, encoding).Ok? <==>
        exists c: nat :: c <= |line| && Units(line[..c], encoding) == position.character
  {
    var line := spans[position.line].line;
    if PositionOffset(spans, position, encoding).Ok? {
      ExactlyIsExact(line, position.character, encoding);
    }
    forall c: nat | c <= |line| && Units(line[..c], encoding) == position.character
      ensures PositionOffset(spans, position, encoding).Ok?
    {
      ExactlyInverts(line, c, encoding);
    }
  }

  lemma SpansOfText(text: Text)
    ensures LinesOf(Spans(text, 0)) == Lines(text) && AllLie(text, Spans(text, 0))
  {
    SpansHoldLines(text, 0);
    assert text[0..] == text;
    SpansLie(text, 0);
  }

  /** Each line starts behind the lines before it and their endings. */
  lemma {:induction false} SpanStarts(text: Text, from: nat, k: nat)
    requires from <= |text| && k < |Spans(text, from)|
    ensures |Spans(text, from)| == |Lines(text[from..])| == |Endings(text[from..])| + 1
    ensures Spans(text, from)[k].start == from + LineStart(Lines(text[from..]), Endings(text[from..]), k)
    decreases |text| - from
  {
    LinesRejoin(text[from..]);
    SpansHoldLines(text, from);
    if from < |text| {
      var rest := text[from..];
      var n := BreakLength(rest);
      if n > 0 {
        assert rest[n..] == text[from + n..];
        if k > 0 {
          SpanStarts(text, from + n, k - 1);
        }
      } else {
        assert rest[1..] == text[from + 1..];
        SpanStartsInLine(text, from, k);
      }
    }
  }

  lemma {:induction false} SpanStartsInLine(text: Text, from: nat, k: nat)
    requires from < |text| && k < |Spans(text, from)| && BreakLength(text[from..]) == 0
    ensures |Lines(text[from..])| == |Endings(text[from..])| + 1 == |Spans(text, from)|
    ensures Spans(text, from)[k].start == from + LineStart(Lines(text[from..]), Endings(text[from..]), k)
    decreases |text| - from, 0
  {
    var rest := text[from..];
    assert rest[1..] == text[from + 1..];
    LinesRejoin(rest);
    SpansHoldLines(text, from);
    if k > 0 {
      SpanStarts(text, from + 1, k);
      LineStartAfter(rest[0], Lines(rest[1..]), Endings(rest[1..]), k);
    }
  }

  lemma LineStartAfter(c: CodePoint, lines: seq<Text>, endings: seq<Text>, k: nat)
    requires 0 < k <= |endings| && k < |lines|
    ensures LineStart([[c] + lines[0]] + lines[1..], endings, k) == 1 + LineStart(lines, endings, k)
  {
    assert ([[c] + lines[0]] + lines[1..])[1..] == lines[1..];
  }

  /** The place of a one-based column in a text. */
  function PlaceOf(text: Text, line: int, character: int): int
    requires 1 <= line <= |Lines(text)|
  {
    LinesRejoin(text);
    LineStart(Lines(text), Endings(text), line - 1) + character - 1
  }

  lemma LineLies(text: Text, k: nat)
    requires k < |Lines(text)|
    ensures |Lines(text)| == |Spans(text, 0)| == |Endings(text)| + 1
    ensures Spans(text, 0)[k] == Span(LineStart(Lines(text), Endings(text), k), Lines(text)[k])
    ensures LiesAt(text, LineStart(Lines(text), Endings(text), k), Lines(text)[k])
  {
    LinesRejoin(text);
    SpansOfText(text);
    assert Spans(text, 0)[k] in Spans(text, 0);
    assert text[0..] == text;
    SpanStarts(text, 0, k);
  }

  /**
   * A column sent to the server and returned in an edit addresses the same place: the offset found lies
   * `character - 1` code points into that line of the text, which starts behind the lines before it.
   */
  lemma WirePositionAddressesColumn(text: Text, line: int, character: int, encoding: Encoding)
    requires ToWire(text, line, character, encoding).Ok?
    ensures PositionOffset(Spans(text, 0), ToWire(text, line, character, encoding).value, encoding) ==
      Ok(PlaceOf(text, line, character))
    ensures LiesAt(text, PlaceOf(text, line, character) - (character - 1), Lines(text)[line - 1])
  {
    LineLies(text, line - 1);
    SentPosition(Spans(text, 0), Lines(text), line, character, encoding);
  }

  lemma SentPosition(spans: seq<Span>, lines: seq<Text>, line: int, character: int, encoding: Encoding)
    requires ToWireIn(lines, line, character, encoding).Ok?
    requires |spans| == |lines| && spans[line - 1].line == lines[line - 1]
    ensures PositionOffset(spans, ToWireIn(lines, line, character, encoding).value, encoding) ==
      Ok(spans[line - 1].start + character - 1)
  {
    ExactlyInverts(lines[line - 1], character - 1, encoding);
  }
}
