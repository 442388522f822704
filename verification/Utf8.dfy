/** UTF-8 as section 4 of RFC 3629 defines it, and what cutting and joining do to its validity. */
module Utf8 {
  import opened CharacterCodes

  type CodePoint = c: int | 0 <= c <= 0x10FFFF
  type Text = seq<CodePoint>

  /** Python text may hold lone surrogates; they have no encoding. */
  predicate Encodable(c: CodePoint) {
    !(0xD800 <= c <= 0xDFFF)
  }

  predicate Continuation(b: Byte) {
    0x80 <= b <= 0xBF
  }

  function EncodeChar(c: CodePoint): seq<Byte> {
    if c < 0x80 then [c]
    else if c < 0x800 then [0xC0 + c / 0x40, 0x80 + c % 0x40]
    else if c < 0x10000 then [0xE0 + c / 0x1000, 0x80 + c / 0x40 % 0x40, 0x80 + c % 0x40]
    else [0xF0 + c / 0x40000, 0x80 + c / 0x1000 % 0x40, 0x80 + c / 0x40 % 0x40, 0x80 + c % 0x40]
  }

  function Encode(text: Text): seq<Byte> {
    if text == [] then [] else EncodeChar(text[0]) + Encode(text[1..])
  }

  /** The length of the well-formed character that starts `s`, or 0 if none does. */
  function CharLength(s: seq<Byte>): (n: nat)
    ensures n <= |s| && n <= 4
  {
    if |s| >= 1 && s[0] <= 0x7F then 1
    else if |s| >= 2 && 0xC2 <= s[0] <= 0xDF && Continuation(s[1]) then 2
    else if |s| >= 3 && Continuation(s[1]) && Continuation(s[2]) && (
      || (s[0] == 0xE0 && 0xA0 <= s[1])
      || 0xE1 <= s[0] <= 0xEC
      || (s[0] == 0xED && s[1] <= 0x9F)
      || 0xEE <= s[0] <= 0xEF) then 3
    else if |s| >= 4 && Continuation(s[1]) && Continuation(s[2]) && Continuation(s[3]) && (
      || (s[0] == 0xF0 && 0x90 <= s[1])
      || 0xF1 <= s[0] <= 0xF3
      || (s[0] == 0xF4 && s[1] <= 0x8F)) then 4
    else 0
  }

  predicate Starts(b: Byte) {
    !Continuation(b)
  }

  const UTF8 := Code(CharLength, Starts)

  predicate Valid(s: seq<Byte>) {
    Whole(UTF8, s)
  }

  lemma CharLengthIsLocal(s: seq<Byte>, t: seq<Byte>)
    requires CharLength(s) > 0
    ensures CharLength(s + t) == CharLength(s)
    ensures CharLength(s[..CharLength(s)]) == CharLength(s)
  {}

  lemma TruncatedCharIsInvalid(s: seq<Byte>, k: nat)
    requires 0 < k < CharLength(s)
    ensures CharLength(s[..k]) == 0
  {}

  lemma Utf8IsSelfDelimiting()
    ensures SelfDelimiting(UTF8)
  {
    forall s, t | CharLength(s) > 0
      ensures CharLength(s + t) == CharLength(s) && CharLength(s[..CharLength(s)]) == CharLength(s)
    {
      CharLengthIsLocal(s, t);
    }
    forall s | CharLength(s) > 0 ensures CharLength(s[..CharLength(s)]) == CharLength(s) {
      CharLengthIsLocal(s, []);
    }
    forall s, k: nat | 0 < k < CharLength(s) ensures CharLength(s[..k]) == 0 {
      TruncatedCharIsInvalid(s, k);
    }
  }

  /** An offset at which a file may be cut, as the program tests it. */
  predicate Boundary(data: seq<Byte>, offset: nat)
    requires offset <= |data|
  {
    offset == 0 || offset == |data| || !Continuation(data[offset])
  }

  /** The program's test is exact: valid UTF-8 leaves two valid halves precisely at the offsets it accepts. */
  lemma CutIsValidExactlyAtBoundary(data: seq<Byte>, offset: nat)
    requires Valid(data) && offset <= |data|
    ensures Boundary(data, offset) <==> Valid(data[..offset])
    ensures Boundary(data, offset) ==> Valid(data[offset..])
  {
    Utf8IsSelfDelimiting();
    CutExactly(UTF8, data, offset);
  }

  lemma ValidJoin(s: seq<Byte>, t: seq<Byte>)
    requires Valid(s) && Valid(t)
    ensures Valid(s + t)
  {
    Utf8IsSelfDelimiting();
    WholeJoin(UTF8, s, t);
  }

  lemma EncodeCharIsValid(c: CodePoint)
    requires Encodable(c)
    ensures Valid(EncodeChar(c))
  {
    var s := EncodeChar(c);
    EncodeCharLength(c);
    assert s[CharLength(s)..] == [];
    assert Whole(UTF8, []);
  }

  lemma EncodeCharLength(c: CodePoint)
    requires Encodable(c)
    ensures CharLength(EncodeChar(c)) == |EncodeChar(c)|
  {
    if c < 0x80 {
    } else if c < 0x800 {
      TwoBytes(c);
    } else if c < 0x10000 {
      ThreeBytes(c);
    } else {
      FourBytes(c);
    }
  }

  lemma TwoBytes(c: CodePoint)
    requires 0x80 <= c < 0x800
    ensures CharLength(EncodeChar(c)) == 2
  {
    assert 2 <= c / 0x40 <= 0x1F;
  }

  lemma ThreeBytes(c: CodePoint)
    requires 0x800 <= c < 0x10000 && Encodable(c)
    ensures CharLength(EncodeChar(c)) == 3
  {
    var lead, middle := c / 0x1000, c / 0x40 % 0x40;
    assert lead == 0 ==> middle >= 0x20;
    assert lead == 0xD ==> middle < 0x20;
  }

  lemma FourBytes(c: CodePoint)
    requires 0x10000 <= c
    ensures CharLength(EncodeChar(c)) == 4
  {
    var lead, middle := c / 0x40000, c / 0x1000 % 0x40;
    assert lead == 0 ==> middle >= 0x10;
    assert lead == 4 ==> middle < 0x10;
  }

  lemma {:induction false} EncodeIsValid(text: Text)
    requires forall c :: c in text ==> Encodable(c)
    ensures Valid(Encode(text))
  {
    if text != [] {
      EncodeCharIsValid(text[0]);
      EncodeIsValid(text[1..]);
      ValidJoin(EncodeChar(text[0]), Encode(text[1..]));
    }
  }

  // ---- Decoding ----

  /** The character that well-formed bytes of one character encode. */
  function DecodeChar(s: seq<Byte>): int
    requires 1 <= |s| <= 4
  {
    if |s| == 1 then s[0]
    else if |s| == 2 then Bits(s, 0, 0xC0) * 0x40 + Bits(s, 1, 0x80)
    else if |s| == 3 then Bits(s, 0, 0xE0) * 0x1000 + Bits(s, 1, 0x80) * 0x40 + Bits(s, 2, 0x80)
    else Bits(s, 0, 0xF0) * 0x40000 + Bits(s, 1, 0x80) * 0x1000 + Bits(s, 2, 0x80) * 0x40 + Bits(s, 3, 0x80)
  }

  function Bits(s: seq<Byte>, k: nat, marker: int): int
    requires k < |s|
  {
    s[k] as int - marker
  }

  /** Characters read one after the other, as long as they are well-formed. */
  function Decode(s: seq<Byte>): seq<int>
    decreases |s|
  {
    if s == [] || CharLength(s) == 0 then [] else [DecodeChar(s[..CharLength(s)])] + Decode(s[CharLength(s)..])
  }

  lemma ThreeBytesDecode(c: CodePoint)
    requires 0x800 <= c < 0x10000
    ensures DecodeChar(EncodeChar(c)) == c
  {
    assert c / 0x40 / 0x40 == c / 0x1000;
  }

  lemma FourBytesDecode(c: CodePoint)
    requires 0x10000 <= c
    ensures DecodeChar(EncodeChar(c)) == c
  {
    assert c / 0x40 / 0x40 == c / 0x1000 && c / 0x1000 / 0x40 == c / 0x40000;
  }

  lemma DecodeCharInverts(c: CodePoint)
    ensures DecodeChar(EncodeChar(c)) == c
  {
    if 0x800 <= c < 0x10000 {
      ThreeBytesDecode(c);
    } else if 0x10000 <= c {
      FourBytesDecode(c);
    }
  }

  /** Text without lone surrogates is read back as it was encoded. */
  lemma {:induction false} DecodeInverts(text: Text)
    requires forall c :: c in text ==> Encodable(c)
    ensures Decode(Encode(text)) == text
  {
    if text != [] {
      var first, rest := EncodeChar(text[0]), Encode(text[1..]);
      EncodeCharLength(text[0]);
      CharLengthIsLocal(first, rest);
      DecodeCharInverts(text[0]);
      DecodeInverts(text[1..]);
      assert (first + rest)[..|first|] == first && (first + rest)[|first|..] == rest;
    }
  }
}
