/**
 * How many bytes text and numbers take in compact JSON that leaves non-ASCII characters unescaped, and how
 * much of a text fits a number of bytes. The pagers, the search and the error descriptions share these sizes;
 * what matters to them is that no character takes more than six bytes and that a cut falls between characters.
 */
module JsonText {
  import opened Utf8

  function Bytes(c: CodePoint): (n: nat)
    ensures 1 <= n <= 4
  {
    |EncodeChar(c)|
  }

  /** Quotes, backslashes and five control characters take two bytes, other controls and lone surrogates six. */
  function EscapedChar(c: CodePoint): (n: nat)
    ensures 1 <= n <= 6 && n <= 6 * Bytes(c)
  {
    if c == 0x22 || c == 0x5C || c == 8 || c == 9 || c == 10 || c == 12 || c == 13 then 2
    else if c < 0x20 || !Encodable(c) then 6
    else Bytes(c)
  }

  function Utf8Size(text: Text): nat {
    if text == [] then 0 else Bytes(text[0]) + Utf8Size(text[1..])
  }

  /** The bytes between the quotes of a JSON string. */
  function Escaped(text: Text): nat {
    if text == [] then 0 else EscapedChar(text[0]) + Escaped(text[1..])
  }

  function Digits(n: nat): (d: nat)
    ensures d >= 1
  {
    if n < 10 then 1 else 1 + Digits(n / 10)
  }

  lemma {:induction false} DigitsGrow(m: nat, n: nat)
    requires m <= n
    ensures Digits(m) <= Digits(n)
  {
    if m >= 10 {
      DigitsGrow(m / 10, n / 10);
    }
  }

  lemma {:induction false} EscapedParts(s: Text, t: Text)
    ensures Escaped(s + t) == Escaped(s) + Escaped(t)
    ensures Utf8Size(s + t) == Utf8Size(s) + Utf8Size(t)
  {
    if s == [] {
      assert s + t == t;
    } else {
      assert (s + t)[1..] == s[1..] + t;
      EscapedParts(s[1..], t);
    }
  }

  lemma {:induction false} EscapedBounds(text: Text)
    ensures |text| <= Utf8Size(text) && |text| <= Escaped(text) <= 6 * Utf8Size(text)
    ensures Escaped(text) <= 6 * |text|
  {
    if text != [] {
      EscapedBounds(text[1..]);
    }
  }

  /** The longest prefix, in code points, of at most `limit` UTF-8 bytes. */
  function CutLength(text: Text, limit: int): (n: nat)
    ensures n <= |text|
  {
    if text == [] || Bytes(text[0]) > limit then 0 else 1 + CutLength(text[1..], limit - Bytes(text[0]))
  }

  lemma {:induction false} CutIsLongest(text: Text, limit: nat)
    ensures Utf8Size(text[..CutLength(text, limit)]) <= limit
    ensures CutLength(text, limit) < |text| ==> Utf8Size(text[..CutLength(text, limit) + 1]) > limit
  {
    if text != [] && Bytes(text[0]) <= limit {
      var n := CutLength(text[1..], limit - Bytes(text[0]));
      CutIsLongest(text[1..], limit - Bytes(text[0]));
      assert text[..n + 1][1..] == text[1..][..n];
      if n + 1 < |text| {
        assert text[..n + 2][1..] == text[1..][..n + 1];
      }
    } else if text != [] {
      assert text[..1][1..] == [];
    }
  }
}
