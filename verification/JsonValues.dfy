/**
 * JSON values, their compact text, and the bytes that takes. The pages and descriptions of the other modules are
 * limited in bytes; what they compute with are sums over the parts of what they send. That such a sum is the number
 * of bytes of the text in the end is shown here once, for every value, with the names and numbers that occur in
 * these objects.
 */
module JsonValues {
  import opened Utf8
  import opened JsonText

  const QUESTION_MARK: CodePoint := 0x3F

  function Ascii(s: string): (r: Text)
    ensures |r| == |s| && forall i :: 0 <= i < |r| ==> r[i] < 0x80
  {
    seq(|s|, i requires 0 <= i < |s| => if s[i] as int < 0x80 then s[i] as int else QUESTION_MARK)
  }

  datatype Json =
    | JNull
    | JFlag(value: bool)
    | JNumber(text: Text)
    | JText(text: Text)
    | JObject(members: seq<Member>)
    | JList(items: seq<Json>)

  datatype Member = Member(name: Text, value: Json)

  // ---- The text of a value ----

  function Hex(n: nat): CodePoint
    requires n < 16
  {
    if n < 10 then 0x30 + n else 0x57 + n
  }

  function QuotedChar(c: CodePoint): Text {
    if c == 0x22 || c == 0x5C then [0x5C, c]
    else if c == 8 then [0x5C, 0x62]
    else if c == 9 then [0x5C, 0x74]
    else if c == 10 then [0x5C, 0x6E]
    else if c == 12 then [0x5C, 0x66]
    else if c == 13 then [0x5C, 0x72]
    else if c < 0x20 || !Encodable(c) then
      [0x5C, 0x75, Hex(c / 0x1000), Hex(c / 0x100 % 16), Hex(c / 0x10 % 16), Hex(c % 16)]
    else [c]
  }

  function Quoted(text: Text): Text {
    if text == [] then [] else QuotedChar(text[0]) + Quoted(text[1..])
  }

  function Literal(text: Text): Text {
    [0x22] + Quoted(text) + [0x22]
  }

  /** Compact JSON text, without spaces. */
  function Render(json: Json): Text
    decreases json
  {
    match json
    case JNull => Ascii("null")
    case JFlag(b) => Ascii(if b then "true" else "false")
    case JNumber(text) => text
    case JText(text) => Literal(text)
    case JObject(members) => Ascii("{") + RenderMembers(members) + Ascii("}")
    case JList(items) => Ascii("[") + RenderItems(items) + Ascii("]")
  }

  function RenderMembers(members: seq<Member>): Text
    decreases members
  {
    if members == [] then []
    else
      Literal(members[0].name) + Ascii(":") + Render(members[0].value) + Comma(|members| > 1)
      + RenderMembers(members[1..])
  }

  function RenderItems(items: seq<Json>): Text
    decreases items
  {
    if items == [] then [] else Render(items[0]) + Comma(|items| > 1) + RenderItems(items[1..])
  }

  function Comma(more: bool): Text {
    if more then Ascii(",") else []
  }

  function Decimal(n: nat): Text {
    if n < 10 then [0x30 + n] else Decimal(n / 10) + [0x30 + n % 10]
  }

  // ---- The bytes it takes ----

  function JsonSize(json: Json): nat
    decreases json
  {
    match json
    case JNull => 4
    case JFlag(b) => if b then 4 else 5
    case JNumber(text) => Utf8Size(text)
    case JText(text) => 2 + Escaped(text)
    case JObject(members) => 2 + MembersSize(members)
    case JList(items) => 2 + ItemsSize(items)
  }

  /** Names in quotes, colons, values, and a comma between two members. */
  function MembersSize(members: seq<Member>): nat
    decreases members
  {
    if members == [] then 0
    else 3 + Escaped(members[0].name) + JsonSize(members[0].value) + (if |members| > 1 then 1 else 0)
           + MembersSize(members[1..])
  }

  function ItemsSize(items: seq<Json>): nat
    decreases items
  {
    if items == [] then 0 else JsonSize(items[0]) + (if |items| > 1 then 1 else 0) + ItemsSize(items[1..])
  }

  lemma {:induction false} EncodeSize(text: Text)
    ensures |Encode(text)| == Utf8Size(text)
  {
    if text != [] {
      EncodeSize(text[1..]);
    }
  }

  lemma {:induction false} AsciiTextSize(text: Text)
    requires forall i :: 0 <= i < |text| ==> text[i] < 0x80
    ensures Utf8Size(text) == |text|
  {
    if text != [] {
      AsciiTextSize(text[1..]);
    }
  }

  lemma AsciiSize(s: string)
    ensures Utf8Size(Ascii(s)) == |s|
  {
    AsciiTextSize(Ascii(s));
  }

  lemma QuotedCharSize(c: CodePoint)
    ensures Utf8Size(QuotedChar(c)) == EscapedChar(c)
  {
    if QuotedChar(c) == [c] {
      assert [c][1..] == [];
    } else {
      AsciiTextSize(QuotedChar(c));
    }
  }

  lemma {:induction false} QuotedSize(text: Text)
    ensures Utf8Size(Quoted(text)) == Escaped(text)
  {
    if text != [] {
      QuotedCharSize(text[0]);
      QuotedSize(text[1..]);
      EscapedParts(QuotedChar(text[0]), Quoted(text[1..]));
      assert Quoted(text) == QuotedChar(text[0]) + Quoted(text[1..]);
      assert Escaped(text) == EscapedChar(text[0]) + Escaped(text[1..]);
    }
  }

  lemma LiteralSize(text: Text)
    ensures Utf8Size(Literal(text)) == 2 + Escaped(text)
  {
    QuotedSize(text);
    EscapedParts([0x22], Quoted(text));
    EscapedParts([0x22] + Quoted(text), [0x22]);
  }

  lemma {:induction false} DecimalSize(n: nat)
    ensures |Decimal(n)| == Digits(n) && forall i :: 0 <= i < |Decimal(n)| ==> 0x30 <= Decimal(n)[i] < 0x3A
    ensures Utf8Size(Decimal(n)) == Digits(n)
  {
    if n >= 10 {
      DecimalSize(n / 10);
    }
    AsciiTextSize(Decimal(n));
  }

  lemma CommaSize(more: bool)
    ensures Utf8Size(Comma(more)) == if more then 1 else 0
  {
    AsciiSize(",");
  }

  /** The computed size is the number of bytes of the rendered text. */
  lemma RenderedSize(json: Json)
    ensures |Encode(Render(json))| == JsonSize(json)
  {
    EncodeSize(Render(json));
    RenderSize(json);
  }

  lemma {:induction false} RenderSize(json: Json)
    ensures Utf8Size(Render(json)) == JsonSize(json)
    decreases json
  {
    match json
    case JNull => AsciiSize("null");
    case JFlag(b) => AsciiSize(if b then "true" else "false");
    case JNumber(_) =>
    case JText(text) => LiteralSize(text);
    case JObject(members) =>
      MembersRender(members);
      BracketSize("{", RenderMembers(members), "}");
    case JList(items) =>
      ItemsRender(items);
      BracketSize("[", RenderItems(items), "]");
  }

  lemma BracketSize(open: string, text: Text, close: string)
    ensures Utf8Size(Ascii(open) + text + Ascii(close)) == |open| + Utf8Size(text) + |close|
  {
    AsciiSize(open);
    AsciiSize(close);
    EscapedParts(Ascii(open), text);
    EscapedParts(Ascii(open) + text, Ascii(close));
  }

  lemma {:induction false} MembersRender(members: seq<Member>)
    ensures Utf8Size(RenderMembers(members)) == MembersSize(members)
    decreases members
  {
    if members != [] {
      var (name, value, rest) := (Literal(members[0].name), Render(members[0].value), RenderMembers(members[1..]));
      LiteralSize(members[0].name);
      RenderSize(members[0].value);
      MembersRender(members[1..]);
      CommaSize(|members| > 1);
      FiveParts(name, Ascii(":"), value, Comma(|members| > 1), rest);
      AsciiSize(":");
    }
  }

  lemma {:induction false} ItemsRender(items: seq<Json>)
    ensures Utf8Size(RenderItems(items)) == ItemsSize(items)
    decreases items
  {
    if items != [] {
      RenderSize(items[0]);
      ItemsRender(items[1..]);
      CommaSize(|items| > 1);
      EscapedParts(Render(items[0]), Comma(|items| > 1));
      EscapedParts(Render(items[0]) + Comma(|items| > 1), RenderItems(items[1..]));
    }
  }

  lemma FiveParts(a: Text, b: Text, c: Text, d: Text, e: Text)
    ensures Utf8Size(a + b + c + d + e) == Utf8Size(a) + Utf8Size(b) + Utf8Size(c) + Utf8Size(d) + Utf8Size(e)
  {
    EscapedParts(a, b);
    EscapedParts(a + b, c);
    EscapedParts(a + b + c, d);
    EscapedParts(a + b + c + d, e);
  }

  // ---- Objects with given names ----

  /** No character that JSON escapes. */
  predicate Simple(s: string) {
    forall i :: 0 <= i < |s| ==> 0x20 <= s[i] as int < 0x80 && s[i] != '"' && s[i] != '\\'
  }

  lemma {:induction false} SimpleSize(text: Text)
    requires forall i :: 0 <= i < |text| ==> 0x20 <= text[i] < 0x80 && text[i] != 0x22 && text[i] != 0x5C
    ensures Escaped(text) == |text|
  {
    if text != [] {
      SimpleSize(text[1..]);
    }
  }

  function Named(name: string, value: Json): Member {
    Member(Ascii(name), value)
  }

  /** A member in front of others. */
  lemma NamedSize(name: string, value: Json, rest: seq<Member>)
    requires Simple(name)
    ensures MembersSize([Named(name, value)] + rest) ==
      3 + |name| + JsonSize(value) + (if rest == [] then 0 else 1) + MembersSize(rest)
  {
    SimpleSize(Ascii(name));
    assert ([Named(name, value)] + rest)[1..] == rest;
  }

  function Three(a: string, x: Json, b: string, y: Json, c: string, z: Json, rest: seq<Member>): seq<Member> {
    [Named(a, x)] + ([Named(b, y)] + ([Named(c, z)] + rest))
  }

  lemma ThreeSize(a: string, x: Json, b: string, y: Json, c: string, z: Json, rest: seq<Member>)
    requires Simple(a) && Simple(b) && Simple(c)
    ensures Three(a, x, b, y, c, z, rest) != []
    ensures MembersSize(Three(a, x, b, y, c, z, rest)) ==
      11 + |a| + |b| + |c| + JsonSize(x) + JsonSize(y) + JsonSize(z) + MembersSize(rest) + if rest == [] then 0 else 1
  {
    NamedSize(c, z, rest);
    NamedSize(b, y, [Named(c, z)] + rest);
    NamedSize(a, x, [Named(b, y)] + ([Named(c, z)] + rest));
  }

  lemma {:induction false} MembersJoin(first: seq<Member>, second: seq<Member>)
    ensures MembersSize(first + second) ==
      MembersSize(first) + MembersSize(second) + if first == [] || second == [] then 0 else 1
    decreases |first|
  {
    if first == [] {
      assert first + second == second;
    } else {
      assert (first + second)[1..] == first[1..] + second;
      MembersJoin(first[1..], second);
    }
  }

  lemma ObjectSize(front: seq<Member>, own: seq<Member>)
    requires own != []
    ensures JsonSize(JObject(front + own)) ==
      2 + MembersSize(front) + MembersSize(own) + if front == [] then 0 else 1
  {
    MembersJoin(front, own);
  }

  /** A member that is only sometimes there. */
  function Optional(name: string, present: bool, value: Json): seq<Member> {
    if present then [Named(name, value)] + [] else []
  }

  lemma OptionalSize(front: seq<Member>, name: string, present: bool, value: Json)
    requires front != [] && Simple(name)
    ensures MembersSize(front + Optional(name, present, value)) ==
      MembersSize(front) + if present then 4 + |name| + JsonSize(value) else 0
  {
    NamedSize(name, value, []);
    MembersJoin(front, Optional(name, present, value));
  }

  lemma {:induction false} ItemsAppend(items: seq<Json>, item: Json)
    ensures ItemsSize(items + [item]) == ItemsSize(items) + JsonSize(item) + if items == [] then 0 else 1
    decreases |items|
  {
    if items == [] {
      assert (items + [item])[1..] == [];
    } else {
      assert (items + [item])[1..] == items[1..] + [item];
      ItemsAppend(items[1..], item);
    }
  }

  function Number(n: nat): Json {
    JNumber(Decimal(n))
  }

  lemma NumberSize(n: nat)
    ensures JsonSize(Number(n)) == Digits(n)
  {
    DecimalSize(n);
  }
}
