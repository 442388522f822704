/** Splitting text at CRLF, CR or LF, and rewriting its terminators to one style. */
module TextLines {
  import opened Utf8
  import opened Newlines

  predicate Breaks(c: CodePoint) {
    c == 13 || c == 10
  }

  /** The number of code points in the terminator that starts `text`, or 0. */
  function BreakLength(text: Text): (n: nat)
    ensures n <= |text|
  {
    if |text| >= 2 && text[0] == 13 && text[1] == 10 then 2
    else if |text| >= 1 && Breaks(text[0]) then 1
    else 0
  }

  function Lines(text: Text): (lines: seq<Text>)
    ensures |lines| > 0
    decreases |text|
  {
    if text == [] then [[]]
    else if BreakLength(text) > 0 then [[]] + Lines(text[BreakLength(text)..])
    else
      var rest := Lines(text[1..]);
      [[text[0]] + rest[0]] + rest[1..]
  }

  function NewlineText(style: Newline): Text {
    match style
    case Lf => [10]
    case Cr => [13]
    case CrLf => [13, 10]
  }

  /** Every CRLF, CR or LF of the text becomes the given terminator. */
  function Normalize(text: Text, style: Newline): Text
    decreases |text|
  {
    if text == [] then []
    else if BreakLength(text) > 0 then NewlineText(style) + Normalize(text[BreakLength(text)..], style)
    else [text[0]] + Normalize(text[1..], style)
  }

  /** Normalizing changes no line of the text, ... */
  lemma {:induction false} NormalizeKeepsLines(text: Text, style: Newline)
    ensures Lines(Normalize(text, style)) == Lines(text)
    decreases |text|
  {
    if text != [] {
      var n := BreakLength(text);
      if n > 0 {
        var rest := Normalize(text[n..], style);
        NormalizeKeepsLines(text[n..], style);
        var ending := NewlineText(style);
        assert BreakLength(ending + rest) == |ending|;
        assert (ending + rest)[|ending|..] == rest;
      } else {
        var rest := Normalize(text[1..], style);
        NormalizeKeepsLines(text[1..], style);
        assert BreakLength([text[0]] + rest) == 0;
        assert ([text[0]] + rest)[1..] == rest;
      }
    }
  }

  /** ... and leaves no terminator of another style. */
  lemma {:induction false} NormalizeIsUniform(text: Text, style: Newline)
    ensures forall e :: e in Endings(Normalize(text, style)) ==> e == NewlineText(style)
    decreases |text|
  {
    if text != [] {
      var n := BreakLength(text);
      if n > 0 {
        var rest := Normalize(text[n..], style);
        NormalizeIsUniform(text[n..], style);
        var ending := NewlineText(style);
        assert BreakLength(ending + rest) == |ending|;
        assert (ending + rest)[|ending|..] == rest && (ending + rest)[..|ending|] == ending;
      } else {
        var rest := Normalize(text[1..], style);
        NormalizeIsUniform(text[1..], style);
        assert BreakLength([text[0]] + rest) == 0;
        assert ([text[0]] + rest)[1..] == rest;
      }
    }
  }

  function Endings(text: Text): seq<Text>
    decreases |text|
  {
    if text == [] then []
    else if BreakLength(text) > 0 then [text[..BreakLength(text)]] + Endings(text[BreakLength(text)..])
    else Endings(text[1..])
  }

  // ---- A text is its lines and their endings ----

  function Rejoined(lines: seq<Text>, endings: seq<Text>): Text
    requires |lines| == |endings| + 1
  {
    if endings == [] then lines[0] else lines[0] + endings[0] + Rejoined(lines[1..], endings[1..])
  }

  /** Where a line starts: behind the lines before it and their endings. */
  function LineStart(lines: seq<Text>, endings: seq<Text>, k: nat): nat
    requires k <= |endings| && k < |lines|
  {
    if k == 0 then 0 else |lines[0]| + |endings[0]| + LineStart(lines[1..], endings[1..], k - 1)
  }

  predicate Ending(ending: Text) {
    ending == [10] || ending == [13] || ending == [13, 10]
  }

  /** A carriage return and a line feed next to each other are one ending. */
  ghost predicate NeverSplit(lines: seq<Text>, endings: seq<Text>)
    requires |lines| == |endings| + 1
  {
    forall i :: 0 <= i < |endings| - 1 && lines[i + 1] == [] ==> !(endings[i] == [13] && endings[i + 1] == [10])
  }

  /** The lines and their endings put together again are the text. */
  lemma {:induction false} LinesRejoin(text: Text)
    ensures |Lines(text)| == |Endings(text)| + 1 && Rejoined(Lines(text), Endings(text)) == text
    decreases |text|
  {
    if text != [] {
      var n := BreakLength(text);
      if n > 0 {
        LinesRejoin(text[n..]);
        assert Lines(text)[1..] == Lines(text[n..]) && Endings(text)[1..] == Endings(text[n..]);
        assert Rejoined(Lines(text), Endings(text)) == [] + text[..n] + text[n..];
      } else {
        LinesRejoin(text[1..]);
        RejoinedAfter(text[0], Lines(text[1..]), Endings(text[1..]));
        assert text == [text[0]] + text[1..];
      }
    }
  }

  /** No line holds a terminator, and every ending is one, taken as long as it can be. */
  lemma {:induction false} LinesAreWhole(text: Text)
    ensures forall i, k :: 0 <= i < |Lines(text)| && 0 <= k < |Lines(text)[i]| ==> !Breaks(Lines(text)[i][k])
    ensures forall i :: 0 <= i < |Endings(text)| ==> Ending(Endings(text)[i])
    decreases |text|
  {
    if text != [] {
      var n := BreakLength(text);
      if n > 0 {
        LinesAreWhole(text[n..]);
        assert text[..n] == if n == 2 then [13, 10] else [text[0]];
      } else {
        LinesAreWhole(text[1..]);
      }
    }
  }

  lemma {:induction false} EndingsNeverSplit(text: Text)
    ensures |Lines(text)| == |Endings(text)| + 1 && NeverSplit(Lines(text), Endings(text))
    ensures text != [] && text[0] != 10 && Endings(text) != [] && Lines(text)[0] == [] ==> Endings(text)[0] != [10]
    decreases |text|
  {
    LinesRejoin(text);
    if text != [] {
      var n := BreakLength(text);
      EndingsNeverSplit(if n > 0 then text[n..] else text[1..]);
    }
  }

  lemma RejoinedAfter(c: CodePoint, lines: seq<Text>, endings: seq<Text>)
    requires |lines| == |endings| + 1
    ensures Rejoined([[c] + lines[0]] + lines[1..], endings) == [c] + Rejoined(lines, endings)
  {
    var longer := [[c] + lines[0]] + lines[1..];
    assert longer[1..] == lines[1..] && longer[0] == [c] + lines[0];
  }

  /** Its lines and the one style of its endings determine a text. */
  lemma LinesAndStyleDetermine(first: Text, second: Text, ending: Text)
    requires Lines(first) == Lines(second)
    requires forall e :: e in Endings(first) || e in Endings(second) ==> e == ending
    ensures first == second
  {
    LinesRejoin(first);
    LinesRejoin(second);
    assert Endings(first) == Endings(second) by {
      forall i | 0 <= i < |Endings(first)| ensures Endings(first)[i] == Endings(second)[i] {
        assert Endings(first)[i] in Endings(first) && Endings(second)[i] in Endings(second);
      }
    }
  }
}
