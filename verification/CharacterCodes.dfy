/** Byte strings made of self-delimiting characters whose first byte is recognisable. */
module CharacterCodes {

  type Byte = b: int | 0 <= b < 256

  /** `len` is the length of the character that starts a string, or 0; `starts` tells first bytes apart. */
  datatype Code = Code(len: seq<Byte> -> nat, starts: Byte -> bool)

  ghost predicate SelfDelimiting(code: Code) {
    && (forall s :: code.len(s) <= |s|)
    && (forall s :: code.len(s) > 0 ==> code.len(s[..code.len(s)]) == code.len(s))
    && (forall s, t :: code.len(s) > 0 ==> code.len(s + t) == code.len(s))
    && (forall s, k :: 0 < k < code.len(s) ==> code.len(s[..k]) == 0)
    && (forall s, k :: 0 <= k < code.len(s) ==> (code.starts(s[k]) <==> k == 0))
  }

  predicate Whole(code: Code, s: seq<Byte>)
    decreases |s|
  {
    s == [] || (0 < code.len(s) <= |s| && Whole(code, s[code.len(s)..]))
  }

  lemma {:induction false} WholeJoin(code: Code, s: seq<Byte>, t: seq<Byte>)
    requires SelfDelimiting(code) && Whole(code, s) && Whole(code, t)
    ensures Whole(code, s + t)
    decreases |s|
  {
    if s == [] {
      assert s + t == t;
    } else {
      var n := code.len(s);
      WholeJoin(code, s[n..], t);
      assert code.len(s + t) == n;
      assert (s + t)[n..] == s[n..] + t;
    }
  }

  predicate CanCut(code: Code, s: seq<Byte>, offset: nat)
    requires offset <= |s|
  {
    offset == 0 || offset == |s| || code.starts(s[offset])
  }

  lemma {:induction false} CutExactly(code: Code, s: seq<Byte>, offset: nat)
    requires SelfDelimiting(code) && Whole(code, s) && offset <= |s|
    ensures CanCut(code, s, offset) <==> Whole(code, s[..offset])
    ensures CanCut(code, s, offset) ==> Whole(code, s[offset..])
    decreases |s|
  {
    if offset == 0 {
      assert s[0..] == s;
    } else if offset == |s| {
      assert s[..offset] == s;
    } else {
      var n := code.len(s);
      if n <= offset {
        CutExactly(code, s[n..], offset - n);
        CutAfterFirst(code, s, offset);
        assert s[n..][offset - n..] == s[offset..];
        assert offset == n ==> code.starts(s[n..][0]);
      } else {
        assert code.len(s[..offset]) == 0;
      }
    }
  }

  lemma CutAfterFirst(code: Code, s: seq<Byte>, offset: nat)
    requires SelfDelimiting(code) && 0 < code.len(s) <= offset <= |s|
    ensures Whole(code, s[..offset]) <==> Whole(code, s[code.len(s)..][..offset - code.len(s)])
  {
    var n := code.len(s);
    assert code.len(s[..n]) == n;
    assert s[..n] + s[n..offset] == s[..offset];
    assert code.len(s[..n] + s[n..offset]) == n;
    assert s[..offset][n..] == s[n..][..offset - n];
  }
}
