/**
 * Which line terminator a replacement inserted at an offset of a file takes: the incremental tracker of
 * the rewriter and the stateless definition it agrees with.
 */
module Newlines {
  import opened Outcomes
  import opened CharacterCodes

  const CR: Byte := 13
  const LF: Byte := 10

  datatype Newline = Lf | Cr | CrLf

  predicate IsTerminator(b: Byte) {
    b == CR || b == LF
  }

  /** The style of the terminator that the byte at `i` belongs to. */
  function StyleOf(data: seq<Byte>, i: nat): Newline
    requires i < |data| && IsTerminator(data[i])
  {
    if data[i] == CR then if i + 1 < |data| && data[i + 1] == LF then CrLf else Cr
    else if i > 0 && data[i - 1] == CR then CrLf else Lf
  }

  function LastBefore(data: seq<Byte>, offset: nat): (r: Option<nat>)
    requires offset <= |data|
    ensures match r
      case Some(i) => i < offset && IsTerminator(data[i]) && forall k :: i < k < offset ==> !IsTerminator(data[k])
      case None => forall k :: 0 <= k < offset ==> !IsTerminator(data[k])
  {
    if offset == 0 then None
    else if IsTerminator(data[offset - 1]) then Some(offset - 1)
    else LastBefore(data, offset - 1)
  }

  function FirstFrom(data: seq<Byte>, offset: nat): (r: Option<nat>)
    requires offset <= |data|
    ensures match r
      case Some(i) =>
        && offset <= i < |data| && IsTerminator(data[i])
        && forall k :: offset <= k < i ==> !IsTerminator(data[k])
      case None => forall k :: offset <= k < |data| ==> !IsTerminator(data[k])
    decreases |data| - offset
  {
    if offset == |data| then None
    else if IsTerminator(data[offset]) then Some(offset)
    else FirstFrom(data, offset + 1)
  }

  /** The style of the last terminator before the offset, else of the first after it, else LF. */
  function StyleAt(data: seq<Byte>, offset: nat): Newline
    requires offset <= |data|
  {
    match LastBefore(data, offset)
    case Some(i) => StyleOf(data, i)
    case None =>
      match FirstFrom(data, offset)
      case Some(i) => StyleOf(data, i)
      case None => Lf
  }

  // ---- The byte searches the tracker uses ----

  function RFind(data: seq<Byte>, b: Byte, lo: nat, hi: nat): (r: int)
    requires lo <= hi <= |data|
    ensures -1 <= r < hi
    ensures r >= 0 ==> lo <= r && data[r] == b
    ensures forall k :: lo <= k < hi && r < k ==> data[k] != b
  {
    if lo == hi then -1
    else if data[hi - 1] == b then hi - 1
    else RFind(data, b, lo, hi - 1)
  }

  function Find(data: seq<Byte>, b: Byte, lo: nat): (r: int)
    requires lo <= |data|
    ensures -1 <= r < |data|
    ensures r >= 0 ==> lo <= r && data[r] == b
    ensures forall k :: lo <= k < |data| && (r < 0 || k < r) ==> data[k] != b
    decreases |data| - lo
  {
    if lo == |data| then -1
    else if data[lo] == b then lo
    else Find(data, b, lo + 1)
  }

  class NewlineTracker {
    const data: seq<Byte>
    var scanned: nat
    var last: Option<Newline>
    var firstAfter: Newline
    var firstAfterKnown: bool

    /** What the cache holds: the last terminator scanned, and the file's first while none was scanned. */
    ghost predicate Valid()
      reads this
    {
      && scanned <= |data|
      && (match LastBefore(data, scanned)
          case Some(i) => last == Some(StyleOf(data, i))
          case None => last == None)
      && (firstAfterKnown && last.None? ==> firstAfter == StyleAt(data, 0))
    }

    constructor (bytes: seq<Byte>)
      ensures Valid() && data == bytes && scanned == 0
    {
      data, scanned, last, firstAfter, firstAfterKnown := bytes, 0, None, Lf, false;
    }

    /** Brings `last` forward; the terminator found may reach past `offset` or begin before `scanned`. */
    method Scan(offset: nat)
      requires Valid() && scanned < offset <= |data|
      modifies `scanned, `last
      ensures Valid() && scanned == offset
    {
      var cr := RFind(data, CR, scanned, offset);
      var lf := RFind(data, LF, scanned, offset);
      var position := if cr > lf then cr else lf;
      if position >= 0 {
        if (data[position] == CR && position + 1 < |data| && data[position + 1] == LF)
          || (data[position] == LF && position > 0 && data[position - 1] == CR) {
          last := Some(CrLf);
        } else {
          last := Some(if data[position] == CR then Cr else Lf);
        }
      }
      scanned := offset;
    }

    /** For offsets that never decrease, the answer is that of a full scan of the file. */
    method Style(offset: nat) returns (style: Newline)
      requires Valid() && scanned <= offset <= |data|
      modifies this
      ensures Valid() && scanned == offset
      ensures style == StyleAt(data, offset)
    {
      if scanned < offset {
        Scan(offset);
      }
      if last.Some? {
        return last.value;
      }
      if !firstAfterKnown {
        var cr := Find(data, CR, offset);
        var lf := Find(data, LF, offset);
        if cr < 0 && lf < 0 {
          firstAfter := Lf;
        } else {
          var position := if lf < 0 || 0 <= cr < lf then cr else lf;
          firstAfter :=
            if data[position] == CR && position + 1 < |data| && data[position + 1] == LF then CrLf
            else if data[position] == CR then Cr else Lf;
        }
        firstAfterKnown := true;
      }
      return firstAfter;
    }
  }

  // ---- The terminators of a file, read once from left to right ----

  function Terminators(data: seq<Byte>, from: nat): seq<Newline>
    requires from <= |data|
    decreases |data| - from
  {
    if from == |data| then []
    else if data[from] == CR && from + 1 < |data| && data[from + 1] == LF then [CrLf] + Terminators(data, from + 2)
    else if data[from] == CR then [Cr] + Terminators(data, from + 1)
    else if data[from] == LF then [Lf] + Terminators(data, from + 1)
    else Terminators(data, from + 1)
  }

  lemma {:induction false} StyleOfIsATerminator(data: seq<Byte>, from: nat, i: nat)
    requires from <= i < |data| && IsTerminator(data[i])
    requires from > 0 && data[from - 1] == CR ==> data[from] != LF
    ensures StyleOf(data, i) in Terminators(data, from)
    decreases |data| - from
  {
    if data[from] == CR && from + 1 < |data| && data[from + 1] == LF {
      if from + 1 < i {
        StyleOfIsATerminator(data, from + 2, i);
      }
    } else if from < i {
      StyleOfIsATerminator(data, from + 1, i);
    }
  }

  /** A file with a terminator only ever lends one of its own; with a uniform one, that one everywhere. */
  lemma StyleComesFromTheFile(data: seq<Byte>, offset: nat)
    requires offset <= |data|
    ensures StyleAt(data, offset) in Terminators(data, 0) || (Terminators(data, 0) == [] && StyleAt(data, offset) == Lf)
  {
    match LastBefore(data, offset) {
      case Some(i) => StyleOfIsATerminator(data, 0, i);
      case None =>
        match FirstFrom(data, offset)
        case Some(i) => StyleOfIsATerminator(data, 0, i);
        case None => NoTerminators(data, 0);
    }
  }

  lemma {:induction false} NoTerminators(data: seq<Byte>, from: nat)
    requires from <= |data| && forall k :: 0 <= k < |data| ==> !IsTerminator(data[k])
    ensures Terminators(data, from) == []
    decreases |data| - from
  {
    if from < |data| {
      NoTerminators(data, from + 1);
    }
  }

  /** The byte at `i` is the terminator byte that decides for an offset: the last one before, else the first after. */
  ghost predicate Nearest(data: seq<Byte>, offset: nat, i: nat) {
    && i < |data| && IsTerminator(data[i])
    && (if i < offset then forall k :: i < k < offset && k < |data| ==> !IsTerminator(data[k])
        else forall k :: 0 <= k < i ==> !IsTerminator(data[k]))
  }

  ghost predicate Uniform(data: seq<Byte>, style: Newline) {
    Terminators(data, 0) != [] && forall t :: t in Terminators(data, 0) ==> t == style
  }

  /** The style is that of the nearest terminator; a file with one style lends that one everywhere. */
  lemma StyleIsNearest(data: seq<Byte>, offset: nat)
    requires offset <= |data|
    ensures forall i: nat :: Nearest(data, offset, i) ==> StyleAt(data, offset) == StyleOf(data, i)
    ensures forall style :: Uniform(data, style) ==> StyleAt(data, offset) == style
  {
    StyleComesFromTheFile(data, offset);
  }
}
