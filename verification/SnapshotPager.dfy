/**
 * Pages of a captured accessibility snapshot: each fits its byte limit, and together they are the capture. A page is
 * cut to the bytes its metadata leaves, and then halved while escaping makes it too large, so that it may hold less
 * than would fit, but never nothing while there is room for one character.
 */
module SnapshotPager {
  import opened Outcomes
  import opened Utf8
  import opened JsonText
  import opened JsonValues

  /** `metadata` counts the bytes of a page besides text, cursor and flag; `cursor` those of a cursor's fixed part. */
  datatype Item = Item(text: Text, metadata: nat, cursor: nat)

  datatype Page = Page(text: Text, end: nat, more: bool)

  datatype PageError = OutOfRange | MetadataTooLarge | ResultTooLarge | NoRoom

  /** A page with more to come carries a quoted cursor and `true`; the last one `null` and `false`. */
  function PageSize(item: Item, page: Page): nat {
    item.metadata + Escaped(page.text) + if page.more then item.cursor + Digits(page.end) + 2 + 4 else 4 + 5
  }

  /** A cursor names the capture and the offset of the next page. */
  function CursorJson(ident: Text, page: Page): Json {
    if page.more then JText(Ascii("s.") + ident + Ascii(".") + Decimal(page.end)) else JNull
  }

  /** The page as it is sent, with the members of the capture in front. */
  function PageJson(front: seq<Member>, ident: Text, page: Page): Json {
    JObject(front + OwnMembers(JText(page.text), CursorJson(ident, page), JFlag(page.more)))
  }

  lemma CursorSize(ident: Text, end: nat)
    ensures Escaped(Ascii("s.") + ident + Ascii(".") + Decimal(end)) == 3 + Escaped(ident) + Digits(end)
  {
    DecimalSize(end);
    SimpleSize(Ascii("s."));
    SimpleSize(Ascii("."));
    SimpleSize(Decimal(end));
    EscapedParts(Ascii("s."), ident);
    EscapedParts(Ascii("s.") + ident, Ascii("."));
    EscapedParts(Ascii("s.") + ident + Ascii("."), Decimal(end));
  }

  lemma CursorJsonSize(ident: Text, page: Page)
    ensures JsonSize(CursorJson(ident, page)) == if page.more then 5 + Escaped(ident) + Digits(page.end) else 4
  {
    CursorSize(ident, page.end);
  }

  /** The members of a page besides those of the capture. */
  function OwnMembers(text: Json, cursor: Json, more: Json): seq<Member> {
    Three("text", text, "next_cursor", cursor, "has_more", more, [])
  }

  lemma OwnSize(text: Json, cursor: Json, more: Json)
    ensures OwnMembers(text, cursor, more) != []
    ensures MembersSize(OwnMembers(text, cursor, more)) == 34 + JsonSize(text) + JsonSize(cursor) + JsonSize(more)
  {
    ThreeSize("text", text, "next_cursor", cursor, "has_more", more, []);
  }

  lemma PageJsonSize(item: Item, front: seq<Member>, ident: Text, page: Page)
    requires item.metadata == 38 + MembersSize(front) + (if front == [] then 0 else 1)
    requires item.cursor == 3 + Escaped(ident)
    ensures JsonSize(PageJson(front, ident, page)) == PageSize(item, page)
  {
    var (text, cursor, more) := (JText(page.text), CursorJson(ident, page), JFlag(page.more));
    CursorJsonSize(ident, page);
    OwnSize(text, cursor, more);
    ObjectSize(front, OwnMembers(text, cursor, more));
  }

  /** The computed size of a page is the number of bytes that are sent. */
  lemma PageSizeIsSent(item: Item, front: seq<Member>, ident: Text, page: Page)
    requires item.metadata == 38 + MembersSize(front) + (if front == [] then 0 else 1)
    requires item.cursor == 3 + Escaped(ident)
    ensures |Encode(Render(PageJson(front, ident, page)))| == PageSize(item, page)
  {
    PageJsonSize(item, front, ident, page);
    RenderedSize(PageJson(front, ident, page));
  }

  function PageOf(item: Item, offset: nat, text: Text): Page {
    Page(text, offset + |text|, offset + |text| < |item.text|)
  }

  /** Halves the text until the page fits or nothing is left. */
  function Shrink(item: Item, offset: nat, text: Text, limit: nat): (r: Text)
    ensures r <= text
  {
    if text == [] || PageSize(item, PageOf(item, offset, text)) <= limit then text
    else Shrink(item, offset, text[..|text| / 2], limit)
  }

  function TakePage(item: Item, offset: nat, limit: nat): Result<Page, PageError> {
    if offset > |item.text| then Err(OutOfRange) else
    var empty := PageSize(item, PageOf(item, offset, []));
    if empty > limit then Err(MetadataTooLarge) else
    var text := Shrink(item, offset, CutText(item, offset, limit - empty), limit);
    Checked(item, PageOf(item, offset, text), offset, limit)
  }

  /** The longest stretch of whole characters from the offset that takes at most `bytes` bytes. */
  function CutText(item: Item, offset: nat, bytes: int): Text
    requires offset <= |item.text|
  {
    item.text[offset..][..CutLength(item.text[offset..], bytes)]
  }

  /** A page is refused if it is still too large, or if it would lead back to where it started. */
  function Checked(item: Item, page: Page, offset: nat, limit: nat): Result<Page, PageError> {
    if PageSize(item, page) > limit then Err(ResultTooLarge)
    else if page.more && page.end == offset then Err(NoRoom)
    else Ok(page)
  }

  /** Every page returned is the next stretch of the capture, fits, and moves on unless it is the last. */
  lemma PageIsNextStretch(item: Item, offset: nat, limit: nat)
    requires TakePage(item, offset, limit).Ok?
    ensures var page := TakePage(item, offset, limit).value;
      && offset <= page.end <= |item.text| && page.text == item.text[offset..page.end]
      && PageSize(item, page) <= limit
      && (page.more <==> page.end < |item.text|)
      && (page.more ==> page.end > offset)
  {
    var empty := PageSize(item, PageOf(item, offset, []));
    var cut := item.text[offset..][..CutLength(item.text[offset..], limit - empty)];
    assert Shrink(item, offset, cut, limit) <= cut;
  }

  /** The length that is left after halving `k` times. */
  function Halves(length: nat, k: nat): (n: nat)
    ensures n <= length
  {
    if k == 0 then length else Halves(length, k - 1) / 2
  }

  lemma {:induction false} HalvesOfHalf(length: nat, k: nat)
    ensures Halves(length / 2, k) == Halves(length, k + 1)
  {
    if k > 0 {
      HalvesOfHalf(length, k - 1);
    }
  }

  lemma HalvedFront(text: Text, k: nat)
    ensures var half := text[..|text| / 2]; half[..Halves(|half|, k)] == text[..Halves(|text|, k + 1)]
  {
    HalvesOfHalf(|text|, k);
  }

  /** The text is halved no more often than it takes to fit. */
  lemma {:induction false} ShrinkHalvesJust(item: Item, offset: nat, text: Text, limit: nat) returns (k: nat)
    ensures Shrink(item, offset, text, limit) == text[..Halves(|text|, k)]
    ensures k > 0 ==> PageSize(item, PageOf(item, offset, text[..Halves(|text|, k - 1)])) > limit
    decreases |text|
  {
    k := 0;
    assert text[..|text|] == text;
    if text != [] && PageSize(item, PageOf(item, offset, text)) > limit {
      var j := ShrinkHalvesJust(item, offset, text[..|text| / 2], limit);
      HalvedFront(text, j);
      if j > 0 {
        HalvedFront(text, j - 1);
      }
      k := j + 1;
    }
  }

  /** The stretch that is tried first is the longest that the bytes allow. */
  lemma CutTextIsLongest(item: Item, offset: nat, bytes: nat)
    requires offset <= |item.text|
    ensures var cut := CutText(item, offset, bytes);
      && Utf8Size(cut) <= bytes && offset + |cut| <= |item.text| && cut == item.text[offset..offset + |cut|]
      && (offset + |cut| < |item.text| ==> Utf8Size(item.text[offset..offset + |cut| + 1]) > bytes)
  {
    var rest := item.text[offset..];
    CutIsLongest(rest, bytes);
    var n := CutLength(rest, bytes);
    assert n < |rest| ==> rest[..n + 1] == item.text[offset..offset + n + 1];
  }

  /** A page is refused before its text is cut where even an empty one is too large, ... */
  lemma RefusedEarlyExactly(item: Item, offset: nat, limit: nat)
    ensures var result := TakePage(item, offset, limit);
      && (result == Err(OutOfRange) <==> offset > |item.text|)
      && (result == Err(MetadataTooLarge) <==>
            offset <= |item.text| && PageSize(item, Page([], offset, offset < |item.text|)) > limit)
  {
  }

  /** ... and afterwards where it is still too large, or has more to come but no text. */
  lemma RefusedLateExactly(item: Item, offset: nat, limit: nat)
    requires offset <= |item.text| && PageSize(item, PageOf(item, offset, [])) <= limit
    ensures var cut := CutText(item, offset, limit - PageSize(item, PageOf(item, offset, [])));
      var text := Shrink(item, offset, cut, limit);
      var page := Page(text, offset + |text|, offset + |text| < |item.text|);
      TakePage(item, offset, limit) ==
        if PageSize(item, page) > limit then Err(ResultTooLarge)
        else if page.more && text == [] then Err(NoRoom) else Ok(page)
  {
  }

  /** The bytes a page can need besides its text. */
  function Overhead(item: Item): nat {
    item.metadata + item.cursor + Digits(|item.text|) + 9
  }

  lemma {:induction false} ShrinkKeepsOne(item: Item, offset: nat, text: Text, limit: nat)
    requires text != [] && offset + |text| <= |item.text| && limit >= Overhead(item) + 6
    ensures Shrink(item, offset, text, limit) != []
    ensures PageSize(item, PageOf(item, offset, Shrink(item, offset, text, limit))) <= limit
    decreases |text|
  {
    if PageSize(item, PageOf(item, offset, text)) > limit {
      if |text| == 1 {
        EscapedBounds(text);
        DigitsGrow(offset + 1, |item.text|);
      } else {
        ShrinkKeepsOne(item, offset, text[..|text| / 2], limit);
      }
    }
  }

  /** A limit with room for the metadata, a cursor and one escaped character never stops the paging. */
  lemma PagingNeverStops(item: Item, offset: nat, limit: nat)
    requires offset <= |item.text| && limit >= Overhead(item) + 6
    ensures TakePage(item, offset, limit).Ok?
  {
    DigitsGrow(offset, |item.text|);
    if offset < |item.text| {
      var cut := CutText(item, offset, limit - PageSize(item, PageOf(item, offset, [])));
      assert cut != [];
      ShrinkKeepsOne(item, offset, cut, limit);
    }
  }

  /** The text read by following cursors, each request with a limit of its own; None if a page is refused. */
  function Follow(item: Item, offset: nat, limits: nat -> nat, request: nat): Option<Text>
    decreases |item.text| - offset
  {
    match TakePage(item, offset, limits(request))
    case Err(_) => None
    case Ok(page) =>
      PageIsNextStretch(item, offset, limits(request));
      if !page.more then Some(page.text)
      else match Follow(item, page.end, limits, request + 1)
        case None => None
        case Some(rest) => Some(page.text + rest)
  }

  /** Following the cursors loses and repeats nothing, ... */
  lemma {:induction false} PagesAreTheCapture(item: Item, offset: nat, limits: nat -> nat, request: nat)
    requires Follow(item, offset, limits, request).Some?
    ensures offset <= |item.text| && Follow(item, offset, limits, request).value == item.text[offset..]
    decreases |item.text| - offset
  {
    var page := TakePage(item, offset, limits(request)).value;
    PageIsNextStretch(item, offset, limits(request));
    if page.more {
      PagesAreTheCapture(item, page.end, limits, request + 1);
      assert item.text[offset..] == item.text[offset..page.end] + item.text[page.end..];
    }
  }

  /** ... and reaches the end whenever the limits leave room. */
  lemma {:induction false} PagingReachesTheEnd(item: Item, offset: nat, limits: nat -> nat, request: nat)
    requires offset <= |item.text| && forall n: nat :: limits(n) >= Overhead(item) + 6
    ensures Follow(item, offset, limits, request).Some?
    decreases |item.text| - offset
  {
    PagingNeverStops(item, offset, limits(request));
    PageIsNextStretch(item, offset, limits(request));
    var page := TakePage(item, offset, limits(request)).value;
    if page.more {
      PagingReachesTheEnd(item, page.end, limits, request + 1);
    }
  }

  // ---- The program's loops ----

  method Cut(text: Text, offset: nat, byteLimit: nat) returns (part: Text, end: nat)
    requires offset <= |text|
    ensures end == offset + CutLength(text[offset..], byteLimit)
    ensures part == text[offset..][..CutLength(text[offset..], byteLimit)]
  {
    end := offset;
    var used := 0;
    while end < |text|
      invariant offset <= end <= |text| && used <= byteLimit
      invariant end + CutLength(text[end..], byteLimit - used) == offset + CutLength(text[offset..], byteLimit)
    {
      var charSize := Bytes(text[end]);
      if used + charSize > byteLimit {
        break;
      }
      assert text[end..][1..] == text[end + 1..];
      used := used + charSize;
      end := end + 1;
    }
    part := text[offset..end];
  }

  method Halve(item: Item, offset: nat, cut: Text, limit: nat) returns (text: Text, end: nat, more: bool)
    ensures text == Shrink(item, offset, cut, limit) && Page(text, end, more) == PageOf(item, offset, text)
  {
    text, end, more := cut, offset + |cut|, offset + |cut| < |item.text|;
    while PageSize(item, Page(text, end, more)) > limit && text != []
      invariant Page(text, end, more) == PageOf(item, offset, text)
      invariant Shrink(item, offset, text, limit) == Shrink(item, offset, cut, limit)
      decreases |text|
    {
      text := text[..|text| / 2];
      end := offset + |text|;
      more := end < |item.text|;
    }
  }

  method MakePage(item: Item, offset: nat, limit: nat) returns (r: Result<Page, PageError>)
    ensures r == TakePage(item, offset, limit)
  {
    if offset > |item.text| {
      return Err(OutOfRange);
    }
    var encodedSize := PageSize(item, Page([], offset, offset < |item.text|));
    assert Page([], offset, offset < |item.text|) == PageOf(item, offset, []);
    if encodedSize > limit {
      return Err(MetadataTooLarge);
    }
    var cut, _ := Cut(item.text, offset, limit - encodedSize);
    var text, end, more := Halve(item, offset, cut, limit);
    if PageSize(item, Page(text, end, more)) > limit {
      return Err(ResultTooLarge);
    }
    if more && end == offset {
      return Err(NoRoom);
    }
    return Ok(Page(text, end, more));
  }
}
