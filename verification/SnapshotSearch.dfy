/**
 * Searching a captured snapshot by line: the worker's scan with its output budget and look-ahead, and the
 * two passes that shorten a page until its JSON fits.
 */
module SnapshotSearch {
  import opened Outcomes
  import opened Utf8
  import opened JsonText
  import opened JsonValues

  const MAX_OUTPUT := 30 * 1024
  const MAX_SNIPPET := 4096
  const MAX_RESPONSE := 60 * 1024
  const MAX_OUTPUT_BYTES := 32 * 1024
  /** Captures are at most 16 MiB, so no line number, column or line exceeds this. */
  const MAX_CAPTURE := 16 * 1024 * 1024

  datatype Match = Match(line: nat, column: nat, text: Text, truncated: bool)

  datatype Page = Page(matches: seq<Match>, nextLine: nat, hasMore: bool)

  /** The first column at which the query matches a line, as plain search or a regular expression finds it. */
  type Search = Text -> Option<nat>

  function Snippet(line: Text): Text {
    line[..CutLength(line, MAX_SNIPPET)]
  }

  function MatchAt(lines: seq<Text>, search: Search, i: nat): Match
    requires i < |lines| && search(lines[i]).Some?
  {
    Match(i + 1, search(lines[i]).value + 1, Snippet(lines[i]), Utf8Size(lines[i]) > MAX_SNIPPET)
  }

  /** A match names its line and column, and holds as much of the front of the line as the bytes allow. */
  lemma MatchIsExact(lines: seq<Text>, search: Search, i: nat)
    requires Hit(lines, search, i)
    ensures var (m, line) := (MatchAt(lines, search, i), lines[i]);
      && m.line == i + 1 && search(line) == Some(m.column - 1)
      && m.text <= line && Utf8Size(m.text) <= MAX_SNIPPET
      && (|m.text| < |line| ==> Utf8Size(line[..|m.text| + 1]) > MAX_SNIPPET)
      && (m.truncated <==> m.text != line)
  {
    var line, n := lines[i], CutLength(lines[i], MAX_SNIPPET);
    CutIsLongest(line, MAX_SNIPPET);
    if n < |line| {
      assert line == line[..n + 1] + line[n + 1..];
      EscapedParts(line[..n + 1], line[n + 1..]);
    } else {
      assert line[..n] == line;
    }
  }

  predicate Hit(lines: seq<Text>, search: Search, i: nat) {
    i < |lines| && search(lines[i]).Some?
  }

  /** All matches on the lines from `from` up to but not including `to`, in order. */
  function Hits(lines: seq<Text>, search: Search, from: nat, to: nat): seq<Match> {
    if to <= from then []
    else
      var before := Hits(lines, search, from, to - 1);
      if Hit(lines, search, to - 1) then before + [MatchAt(lines, search, to - 1)] else before
  }

  /** The match of a line in the range. */
  ghost predicate IsHit(lines: seq<Text>, search: Search, from: nat, to: nat, m: Match) {
    m.line >= 1 && from <= m.line - 1 < to && Hit(lines, search, m.line - 1) && m == MatchAt(lines, search, m.line - 1)
  }

  /** The list holds just the matches of the lines that match, ... */
  lemma {:induction false} HitsExactly(lines: seq<Text>, search: Search, from: nat, to: nat, m: Match)
    ensures m in Hits(lines, search, from, to) <==> IsHit(lines, search, from, to, m)
  {
    if from < to {
      HitsExactly(lines, search, from, to - 1, m);
    }
  }

  ghost predicate Rising(hits: seq<Match>, highest: nat) {
    && (forall k :: 0 <= k < |hits| ==> hits[k].line <= highest)
    && (forall k, l :: 0 <= k < l < |hits| ==> hits[k].line < hits[l].line)
  }

  /** ... by rising line. */
  lemma {:induction false} HitsRise(lines: seq<Text>, search: Search, from: nat, to: nat)
    ensures Rising(Hits(lines, search, from, to), to)
  {
    if from < to {
      HitsRise(lines, search, from, to - 1);
    }
  }

  /**
   * A page is exact: it holds every match from its offset up to where the next page begins, says truly
   * whether a match follows, and is empty only if none does.
   */
  ghost predicate Exact(lines: seq<Text>, search: Search, offset: nat, page: Page) {
    && offset <= page.nextLine <= (if offset > |lines| then offset else |lines|)
    && page.matches == Hits(lines, search, offset, page.nextLine)
    && (page.hasMore <==> exists i: nat :: i >= page.nextLine && Hit(lines, search, i))
    && (page.hasMore ==> page.matches != [])
  }

  // ---- JSON sizes ----

  function MatchSize(m: Match): nat {
    29 + Digits(m.line) + Digits(m.column) + Escaped(m.text) + if m.truncated then 17 else 0
  }

  function MatchesSize(matches: seq<Match>): nat {
    if matches == [] then 0
    else MatchesSize(matches[..|matches| - 1]) + MatchSize(matches[|matches| - 1])
  }

  /** The items of a JSON array with their commas. */
  function ArraySize(matches: seq<Match>): nat {
    MatchesSize(matches) + if matches == [] then 0 else |matches| - 1
  }

  function FlagSize(flag: bool): nat {
    if flag then 4 else 5
  }

  function ResponseSize(page: Page): nat {
    39 + ArraySize(page.matches) + Digits(page.nextLine) + FlagSize(page.hasMore)
  }

  /** The page for the client carries a 16-character ident and, if more follow, a quoted search cursor. */
  function ClientSize(page: Page): nat {
    74 + ArraySize(page.matches) + FlagSize(page.hasMore)
      + if page.hasMore then 34 + Digits(page.nextLine) else 4
  }

  function MatchMembers(line: Json, column: Json, text: Json, mark: seq<Member>): seq<Member> {
    Three("line", line, "column", column, "text", text, mark)
  }

  function Mark(m: Match): seq<Member> {
    if m.truncated then [Named("truncated", JFlag(true))] + [] else []
  }

  function MatchJson(m: Match): Json {
    JObject(MatchMembers(Number(m.line), Number(m.column), JText(m.text), Mark(m)))
  }

  function MatchesJson(matches: seq<Match>): seq<Json> {
    if matches == [] then []
    else MatchesJson(matches[..|matches| - 1]) + [MatchJson(matches[|matches| - 1])]
  }

  function ResponseMembers(matches: Json, nextLine: Json, more: Json): seq<Member> {
    Three("matches", matches, "next_line", nextLine, "has_more", more, [])
  }

  /** What the worker answers. */
  function ResponseJson(page: Page): Json {
    JObject(ResponseMembers(JList(MatchesJson(page.matches)), Number(page.nextLine), JFlag(page.hasMore)))
  }

  /** A cursor names the capture and the query by their digests. */
  function CursorJson(page: Page, ident: Text, query: Text): Json {
    if page.hasMore
    then JText(Ascii("f.") + ident + Ascii(".") + query + Ascii(".") + Decimal(page.nextLine)) else JNull
  }

  function MoreMember(more: Json): seq<Member> {
    [Named("has_more", more)] + []
  }

  function ClientMembers(ident: Json, matches: Json, cursor: Json, rest: seq<Member>): seq<Member> {
    Three("snapshot_id", ident, "matches", matches, "next_cursor", cursor, rest)
  }

  /** What the client is sent. */
  function ClientJson(page: Page, ident: Text, query: Text): Json {
    JObject(ClientMembers(JText(ident), JList(MatchesJson(page.matches)), CursorJson(page, ident, query),
                          MoreMember(JFlag(page.hasMore))))
  }

  lemma MatchMembersSize(line: Json, column: Json, text: Json, mark: seq<Member>)
    ensures MembersSize(MatchMembers(line, column, text, mark)) ==
      25 + JsonSize(line) + JsonSize(column) + JsonSize(text) + MembersSize(mark) + if mark == [] then 0 else 1
  {
    ThreeSize("line", line, "column", column, "text", text, mark);
  }

  lemma MarkSize(m: Match)
    ensures if m.truncated then Mark(m) != [] && MembersSize(Mark(m)) == 16 else Mark(m) == []
  {
    NamedSize("truncated", JFlag(true), []);
  }

  lemma MatchSizeIs(m: Match)
    ensures JsonSize(MatchJson(m)) == MatchSize(m)
  {
    MarkSize(m);
    MatchMembersSize(Number(m.line), Number(m.column), JText(m.text), Mark(m));
    NumberSize(m.line);
    NumberSize(m.column);
  }

  lemma {:induction false} MatchesSizeIs(matches: seq<Match>)
    ensures ItemsSize(MatchesJson(matches)) == ArraySize(matches)
    ensures |MatchesJson(matches)| == |matches|
  {
    if matches != [] {
      var n := |matches| - 1;
      MatchesSizeIs(matches[..n]);
      MatchSizeIs(matches[n]);
      ItemsAppend(MatchesJson(matches[..n]), MatchJson(matches[n]));
    }
  }

  lemma ResponseMembersSize(matches: Json, nextLine: Json, more: Json)
    ensures MembersSize(ResponseMembers(matches, nextLine, more)) ==
      35 + JsonSize(matches) + JsonSize(nextLine) + JsonSize(more)
  {
    ThreeSize("matches", matches, "next_line", nextLine, "has_more", more, []);
  }

  lemma ResponseJsonSize(page: Page)
    ensures JsonSize(ResponseJson(page)) == ResponseSize(page)
  {
    MatchesSizeIs(page.matches);
    NumberSize(page.nextLine);
    ResponseMembersSize(JList(MatchesJson(page.matches)), Number(page.nextLine), JFlag(page.hasMore));
  }

  /** The computed sizes are the bytes that are written to the pipe, ... */
  lemma ResponseSizeIsSent(page: Page)
    ensures |Encode(Render(ResponseJson(page)))| == ResponseSize(page)
  {
    ResponseJsonSize(page);
    RenderedSize(ResponseJson(page));
  }

  lemma CursorSize(ident: Text, query: Text, line: nat)
    ensures Escaped(Ascii("f.") + ident + Ascii(".") + query + Ascii(".") + Decimal(line)) ==
      4 + Escaped(ident) + Escaped(query) + Digits(line)
  {
    DecimalSize(line);
    SimpleSize(Ascii("f."));
    SimpleSize(Ascii("."));
    SimpleSize(Decimal(line));
    EscapedParts(Ascii("f."), ident);
    EscapedParts(Ascii("f.") + ident, Ascii("."));
    EscapedParts(Ascii("f.") + ident + Ascii("."), query);
    EscapedParts(Ascii("f.") + ident + Ascii(".") + query, Ascii("."));
    EscapedParts(Ascii("f.") + ident + Ascii(".") + query + Ascii("."), Decimal(line));
  }

  lemma CursorJsonSize(page: Page, ident: Text, query: Text)
    ensures JsonSize(CursorJson(page, ident, query)) ==
      if page.hasMore then 6 + Escaped(ident) + Escaped(query) + Digits(page.nextLine) else 4
  {
    CursorSize(ident, query, page.nextLine);
  }

  lemma ClientMembersSize(ident: Json, matches: Json, cursor: Json, rest: seq<Member>)
    requires rest != []
    ensures MembersSize(ClientMembers(ident, matches, cursor, rest)) ==
      41 + JsonSize(ident) + JsonSize(matches) + JsonSize(cursor) + MembersSize(rest)
  {
    ThreeSize("snapshot_id", ident, "matches", matches, "next_cursor", cursor, rest);
  }

  lemma MoreMemberSize(more: Json)
    ensures MoreMember(more) != [] && MembersSize(MoreMember(more)) == 11 + JsonSize(more)
  {
    NamedSize("has_more", more, []);
  }

  lemma ClientJsonSize(page: Page, ident: Text, query: Text)
    requires Escaped(ident) == 16 && Escaped(query) == 12
    ensures JsonSize(ClientJson(page, ident, query)) == ClientSize(page)
  {
    MatchesSizeIs(page.matches);
    CursorJsonSize(page, ident, query);
    MoreMemberSize(JFlag(page.hasMore));
    ClientMembersSize(JText(ident), JList(MatchesJson(page.matches)), CursorJson(page, ident, query),
                      MoreMember(JFlag(page.hasMore)));
  }

  /** ... and sent to the client. */
  lemma ClientSizeIsSent(page: Page, ident: Text, query: Text)
    requires Escaped(ident) == 16 && Escaped(query) == 12
    ensures |Encode(Render(ClientJson(page, ident, query)))| == ClientSize(page)
  {
    ClientJsonSize(page, ident, query);
    RenderedSize(ClientJson(page, ident, query));
  }

  lemma {:induction false} FewDigits(n: nat)
    requires n <= MAX_CAPTURE + 1
    ensures Digits(n) <= 8
  {
    DigitsGrow(n, MAX_CAPTURE + 1);
    assert Digits(16777217) == 8 by {
      assert Digits(16777) == 5;
      assert Digits(16777217) == 3 + Digits(16777);
    }
  }

  /** One match is at most about 24 KiB: a snippet of 4096 bytes escapes to at most six times that. */
  lemma OneMatchIsSmall(lines: seq<Text>, search: Search, i: nat)
    requires Hit(lines, search, i) && i < MAX_CAPTURE && search(lines[i]).value <= MAX_CAPTURE
    ensures MatchSize(MatchAt(lines, search, i)) <= 62 + 6 * MAX_SNIPPET
  {
    FewDigits(i + 1);
    FewDigits(search(lines[i]).value + 1);
    CutIsLongest(lines[i], MAX_SNIPPET);
    EscapedBounds(Snippet(lines[i]));
  }

  // ---- Shortening a page ----

  /** Drops matches from the end until the page fits; the next page then begins at the last one dropped. */
  function Trimmed(page: Page, size: Page -> nat, limit: nat): Page
    decreases |page.matches|
  {
    if page.matches == [] || size(page) <= limit then page
    else
      var n := |page.matches| - 1;
      var dropped := page.matches[n];
      Trimmed(Page(page.matches[..n], if dropped.line > 0 then dropped.line - 1 else 0, true), size, limit)
  }

  /** A page cut back to its first `n` matches; the next one then begins at the line of the match behind them. */
  function CutBack(page: Page, n: nat): Page
    requires n <= |page.matches|
  {
    if n == |page.matches| then page
    else Page(page.matches[..n], if page.matches[n].line > 0 then page.matches[n].line - 1 else 0, true)
  }

  /** No match is dropped but to make the page fit. */
  lemma {:induction false} TrimDropsJust(page: Page, size: Page -> nat, limit: nat) returns (n: nat)
    ensures n <= |page.matches| && Trimmed(page, size, limit) == CutBack(page, n)
    ensures n < |page.matches| ==> size(CutBack(page, n + 1)) > limit
    decreases |page.matches|
  {
    n := |page.matches|;
    if page.matches != [] && size(page) > limit {
      var m := n - 1;
      var shorter := CutBack(page, m);
      n := TrimDropsJust(shorter, size, limit);
      assert forall k :: 0 <= k <= m ==> shorter.matches[..k] == page.matches[..k];
      assert forall k: nat :: k <= m ==> CutBack(shorter, k) == CutBack(page, k);
      assert CutBack(page, m + 1) == page;
    }
  }

  lemma {:induction false} LastHit(lines: seq<Text>, search: Search, from: nat, to: nat)
    requires Hits(lines, search, from, to) != []
    ensures var hits := Hits(lines, search, from, to);
      var last := hits[|hits| - 1];
      && last.line >= 1 && from <= last.line - 1 < to && Hit(lines, search, last.line - 1)
      && last == MatchAt(lines, search, last.line - 1)
      && Hits(lines, search, from, last.line - 1) == hits[..|hits| - 1]
  {
    if !Hit(lines, search, to - 1) {
      LastHit(lines, search, from, to - 1);
    }
  }

  /** Pages with a single match always fit. */
  ghost predicate SingleFits(lines: seq<Text>, search: Search, size: Page -> nat, limit: nat) {
    forall i: nat, next: nat, more :: Hit(lines, search, i) && next <= |lines| ==>
      size(Page([MatchAt(lines, search, i)], next, more)) <= limit
  }

  /** Trimming keeps a page exact and never empties it. */
  lemma {:induction false} TrimKeepsExact(
    lines: seq<Text>, search: Search, offset: nat, page: Page, size: Page -> nat, limit: nat)
    requires Exact(lines, search, offset, page) && SingleFits(lines, search, size, limit)
    ensures var r := Trimmed(page, size, limit);
      && Exact(lines, search, offset, r)
      && (page.matches == [] ==> r == page)
      && (page.matches != [] ==> r.matches != [] && size(r) <= limit)
    decreases |page.matches|
  {
    if page.matches != [] && size(page) > limit {
      LastHit(lines, search, offset, page.nextLine);
      var n := |page.matches| - 1;
      var dropped := page.matches[n];
      assert Hit(lines, search, dropped.line - 1);
      var found := MatchAt(lines, search, dropped.line - 1);
      assert n == 0 ==> page == Page([found], page.nextLine, page.hasMore);
      TrimKeepsExact(lines, search, offset, Page(page.matches[..n], dropped.line - 1, true), size, limit);
    }
  }

  method Trim(page: Page, size: Page -> nat, limit: nat) returns (r: Page)
    ensures r == Trimmed(page, size, limit)
  {
    r := page;
    while r.matches != [] && size(r) > limit
      invariant Trimmed(r, size, limit) == Trimmed(page, size, limit)
      decreases |r.matches|
    {
      var removed := r.matches[|r.matches| - 1];
      r := Page(r.matches[..|r.matches| - 1], if removed.line > 0 then removed.line - 1 else 0, true);
    }
  }

  // ---- The scan ----

  /** Whether a line from `from` on matches; the scan's look-ahead. */
  method LookAhead(lines: seq<Text>, search: Search, from: nat) returns (found: bool)
    ensures found <==> exists i: nat :: i >= from && Hit(lines, search, i)
  {
    var i := from;
    while i < |lines|
      invariant from <= i && forall k: nat :: from <= k < i ==> !Hit(lines, search, k)
    {
      if search(lines[i]).Some? {
        assert Hit(lines, search, i);
        return true;
      }
      i := i + 1;
    }
    return false;
  }

  /**
   * The worker's scan: whatever its budgets stop it at, the page it returns is exact. Two matches or more are
   * within the output budget, and a scan that stops before the limit stops where the next match exceeds it.
   */
  method Find(lines: seq<Text>, search: Search, offset: nat, limit: nat) returns (page: Page)
    requires limit >= 1
    ensures Exact(lines, search, offset, page)
    ensures |page.matches| <= limit
    ensures BudgetKept(lines, search, page, limit)
  {
    var matches: seq<Match>, outputBytes: nat := [], 0;
    var i := offset;
    while i < |lines|
      invariant Scanned(lines, search, offset, limit, i, matches, outputBytes)
    {
      if search(lines[i]).Some? {
        var item := MatchAt(lines, search, i);
        if matches != [] && outputBytes + MatchSize(item) > MAX_OUTPUT {
          assert Hit(lines, search, i);
          PageIsExact(lines, search, offset, Page(matches, i, true));
          return Page(matches, i, true);
        }
        OneMoreHit(lines, search, offset, i);
        matches := matches + [item];
        outputBytes := outputBytes + MatchSize(item);
        if |matches| >= limit {
          var more := LookAhead(lines, search, i + 1);
          PageIsExact(lines, search, offset, Page(matches, i + 1, more));
          return Page(matches, i + 1, more);
        }
      }
      i := i + 1;
    }
    PageIsExact(lines, search, offset, Page(matches, i, false));
    return Page(matches, i, false);
  }

  /** Two matches or more fit the output budget, and a page that stops short stops where the next would not. */
  ghost predicate BudgetKept(lines: seq<Text>, search: Search, page: Page, limit: nat) {
    && (|page.matches| > 1 ==> MatchesSize(page.matches) <= MAX_OUTPUT)
    && (page.hasMore && |page.matches| < limit ==>
          && Hit(lines, search, page.nextLine)
          && MatchesSize(page.matches) + MatchSize(MatchAt(lines, search, page.nextLine)) > MAX_OUTPUT)
  }

  ghost predicate Scanned(lines: seq<Text>, search: Search, offset: nat, limit: nat, i: nat, matches: seq<Match>,
                          bytes: nat) {
    && offset <= i <= (if offset > |lines| then offset else |lines|)
    && matches == Hits(lines, search, offset, i)
    && bytes == MatchesSize(matches) && |matches| < limit
    && (|matches| > 1 ==> bytes <= MAX_OUTPUT)
  }

  lemma PageIsExact(lines: seq<Text>, search: Search, offset: nat, page: Page)
    requires offset <= page.nextLine <= (if offset > |lines| then offset else |lines|)
    requires page.matches == Hits(lines, search, offset, page.nextLine)
    requires page.hasMore ==> page.matches != []
    requires page.hasMore <==> exists i: nat :: i >= page.nextLine && Hit(lines, search, i)
    ensures Exact(lines, search, offset, page)
  {
  }

  lemma OneMoreHit(lines: seq<Text>, search: Search, from: nat, i: nat)
    requires from <= i && Hit(lines, search, i)
    ensures Hits(lines, search, from, i + 1) == Hits(lines, search, from, i) + [MatchAt(lines, search, i)]
    ensures MatchesSize(Hits(lines, search, from, i) + [MatchAt(lines, search, i)]) ==
      MatchesSize(Hits(lines, search, from, i)) + MatchSize(MatchAt(lines, search, i))
  {
    var (before, item) := (Hits(lines, search, from, i), MatchAt(lines, search, i));
    assert (before + [item])[..|before|] == before;
  }

  // ---- A whole request ----

  /** What the limit on captures implies for line numbers and columns. */
  ghost predicate Captured(lines: seq<Text>, search: Search) {
    |lines| <= MAX_CAPTURE && forall i: nat :: Hit(lines, search, i) ==> search(lines[i]).value <= MAX_CAPTURE
  }

  lemma SinglesFit(lines: seq<Text>, search: Search)
    requires Captured(lines, search)
    ensures SingleFits(lines, search, ResponseSize, MAX_RESPONSE)
    ensures SingleFits(lines, search, ClientSize, MAX_OUTPUT_BYTES)
  {
    forall i: nat, next: nat, more: bool | Hit(lines, search, i) && next <= |lines|
      ensures ResponseSize(Page([MatchAt(lines, search, i)], next, more)) <= MAX_RESPONSE
      ensures ClientSize(Page([MatchAt(lines, search, i)], next, more)) <= MAX_OUTPUT_BYTES
    {
      OneMatchIsSmall(lines, search, i);
      FewDigits(next);
      var single := [MatchAt(lines, search, i)];
      assert single[..0] == [];
      assert MatchesSize(single) == MatchSize(single[0]);
    }
  }

  /**
   * A search page after the scan and both trimming passes: still exact, never emptied, and within the
   * limits of the worker's pipe and of the client.
   */
  method SearchPage(lines: seq<Text>, search: Search, offset: nat, limit: nat) returns (page: Page)
    requires Captured(lines, search) && limit >= 1
    ensures Exact(lines, search, offset, page)
    ensures page.matches != [] ==> ClientSize(page) <= MAX_OUTPUT_BYTES
    ensures page.matches == [] ==> !page.hasMore && ClientSize(page) == 83
  {
    SinglesFit(lines, search);
    page := Find(lines, search, offset, limit);
    TrimKeepsExact(lines, search, offset, page, ResponseSize, MAX_RESPONSE);
    page := Trim(page, ResponseSize, MAX_RESPONSE);
    TrimKeepsExact(lines, search, offset, page, ClientSize, MAX_OUTPUT_BYTES);
    page := Trim(page, ClientSize, MAX_OUTPUT_BYTES);
  }

  /** A page and everything from its cursor on are all matches from its offset on. */
  lemma {:induction false} HitsParts(lines: seq<Text>, search: Search, from: nat, middle: nat, to: nat)
    requires from <= middle <= to
    ensures Hits(lines, search, from, to) == Hits(lines, search, from, middle) + Hits(lines, search, middle, to)
  {
    if middle < to {
      HitsParts(lines, search, from, middle, to - 1);
    }
  }

  /** Following cursors to the end returns every matching line once and in order. */
  method SearchAll(lines: seq<Text>, search: Search, limits: seq<nat>) returns (matches: seq<Match>, complete: bool)
    requires Captured(lines, search) && forall limit :: limit in limits ==> limit >= 1
    ensures matches <= Hits(lines, search, 0, |lines|)
    ensures complete ==> matches == Hits(lines, search, 0, |lines|)
    ensures !complete ==> |matches| >= |limits|
  {
    matches, complete := [], false;
    var offset: nat := 0;
    for i := 0 to |limits|
      invariant offset <= |lines| && matches == Hits(lines, search, 0, offset) && |matches| >= i && !complete
    {
      assert limits[i] in limits;
      var page := SearchPage(lines, search, offset, limits[i]);
      HitsParts(lines, search, 0, offset, page.nextLine);
      HitsParts(lines, search, 0, page.nextLine, |lines|);
      matches := matches + page.matches;
      if !page.hasMore {
        NoHits(lines, search, page.nextLine, |lines|);
        return matches, true;
      }
      offset := page.nextLine;
    }
    HitsParts(lines, search, 0, offset, |lines|);
  }

  lemma {:induction false} NoHits(lines: seq<Text>, search: Search, from: nat, to: nat)
    requires forall i: nat :: i >= from ==> !Hit(lines, search, i)
    ensures Hits(lines, search, from, to) == []
  {
    if from < to {
      NoHits(lines, search, from, to - 1);
    }
  }
}
