/**
 * The few operations of Go's `strings` package that the modelled code uses:
 * `strings.Contains`, `strings.Index` and `strings.Split` on a non-empty
 * separator, together with the join that undoes a split. The search works on
 * any sequence, so it serves `bytes.Index` as well.
 */
module Strings {
  import opened Wrappers

  /** `sub` occurs in `s` starting at position `i`. */
  predicate OccursAt<T(==)>(s: seq<T>, sub: seq<T>, i: nat) {
    i + |sub| <= |s| && s[i..i + |sub|] == sub
  }

  /** Go's `strings.Contains(s, sub)`, stated as a search. */
  predicate Contains<T(==)>(s: seq<T>, sub: seq<T>) {
    exists i: nat :: i <= |s| && OccursAt(s, sub, i)
  }

  /** Go's `strings.Index(s, sub)`: the first position where `sub` occurs. */
  function IndexOf<T(==)>(s: seq<T>, sub: seq<T>): (r: Option<nat>)
    ensures r.Some? ==> OccursAt(s, sub, r.value)
    ensures r.Some? ==> forall j: nat :: j < r.value ==> !OccursAt(s, sub, j)
    ensures r.None? <==> !Contains(s, sub)
  {
    IndexFrom(s, sub, 0)
  }

  function IndexFrom<T(==)>(s: seq<T>, sub: seq<T>, start: nat): (r: Option<nat>)
    requires forall j: nat :: j < start ==> !OccursAt(s, sub, j)
    ensures r.Some? ==> start <= r.value && OccursAt(s, sub, r.value)
    ensures r.Some? ==> forall j: nat :: j < r.value ==> !OccursAt(s, sub, j)
    ensures r.None? <==> forall j: nat :: j <= |s| ==> !OccursAt(s, sub, j)
    decreases |s| - start
  {
    if start + |sub| > |s| then
      assert forall j: nat :: start <= j ==> !OccursAt(s, sub, j);
      None
    else if s[start..start + |sub|] == sub then
      assert OccursAt(s, sub, start);
      Some(start)
    else IndexFrom(s, sub, start + 1)
  }

  /** The substring test as a computation, for use in executable code. */
  function ContainsComputed(s: string, sub: string): (b: bool)
    ensures b <==> Contains(s, sub)
  {
    IndexOf(s, sub).Some?
  }

  /** Go's `strings.Join(parts, sep)`. */
  function Join(parts: seq<string>, sep: string): string
  {
    if |parts| == 0 then ""
    else if |parts| == 1 then parts[0]
    else parts[0] + sep + Join(parts[1..], sep)
  }

  /** Go's `strings.Split(s, sep)` for a non-empty separator: the pieces
      between the successive non-overlapping occurrences of `sep`, read from
      the left. There is always at least one piece. */
  function Split(s: string, sep: string): (parts: seq<string>)
    requires |sep| > 0
    ensures |parts| >= 1
    decreases |s|
  {
    match IndexOf(s, sep)
    case None => [s]
    case Some(i) => [s[..i]] + Split(s[i + |sep|..], sep)
  }

  /** No piece of a split contains the separator. */
  lemma {:induction false} SplitPiecesHaveNoSep(s: string, sep: string)
    requires |sep| > 0
    ensures forall k :: 0 <= k < |Split(s, sep)| ==> !Contains(Split(s, sep)[k], sep)
    decreases |s|
  {
    var r := IndexOf(s, sep);
    if r.Some? {
      var i := r.value;
      var rest := s[i + |sep|..];
      FirstPieceHasNoSep(s, sep, i);
      SplitPiecesHaveNoSep(rest, sep);
      assert Split(s, sep) == [s[..i]] + Split(rest, sep);
    }
  }

  lemma FirstPieceHasNoSep(s: string, sep: string, i: nat)
    requires |sep| > 0 && OccursAt(s, sep, i)
    requires forall j: nat :: j < i ==> !OccursAt(s, sep, j)
    ensures !Contains(s[..i], sep)
  {
    if Contains(s[..i], sep) {
      var j: nat :| j <= i && OccursAt(s[..i], sep, j);
      assert s[..i][j..j + |sep|] == s[j..j + |sep|];
      assert j < i && OccursAt(s, sep, j);
    }
  }

  lemma JoinCons(head: string, tail: seq<string>, sep: string)
    requires |tail| >= 1
    ensures Join([head] + tail, sep) == head + sep + Join(tail, sep)
  {
    assert ([head] + tail)[1..] == tail;
  }

  lemma Around(s: string, i: nat, sub: string)
    requires OccursAt(s, sub, i)
    ensures s == s[..i] + sub + s[i + |sub|..]
  {
    assert s == s[..i] + s[i..i + |sub|] + s[i + |sub|..];
  }

  /** Joining the pieces of a split with the same separator gives back the
      original text. */
  lemma {:induction false} JoinSplit(s: string, sep: string)
    requires |sep| > 0
    ensures Join(Split(s, sep), sep) == s
    decreases |s|
  {
    var r := IndexOf(s, sep);
    if r.Some? {
      var i := r.value;
      var rest := s[i + |sep|..];
      var pieces := Split(rest, sep);
      assert Split(s, sep) == [s[..i]] + pieces;
      JoinSplit(rest, sep);
      JoinCons(s[..i], pieces, sep);
      Around(s, i, sep);
    }
  }

  /** An occurrence with none before it is the one `IndexOf` finds. */
  lemma FirstOccurrence<T>(s: seq<T>, sub: seq<T>, i: nat)
    requires OccursAt(s, sub, i)
    requires forall j: nat :: j < i ==> !OccursAt(s, sub, j)
    ensures IndexOf(s, sub) == Some(i)
  {
    assert Contains(s, sub);
  }

  /** A one-character separator placed right after a text that does not
      contain it is found there. */
  lemma IndexAfterPiece(piece: string, sep: string, rest: string)
    requires |sep| == 1 && !Contains(piece, sep)
    ensures IndexOf(piece + sep + rest, sep) == Some(|piece|)
  {
    var s := piece + sep + rest;
    assert OccursAt(s, sep, |piece|) by { assert s[|piece|..|piece| + 1] == sep; }
    forall j: nat | j < |piece| ensures !OccursAt(s, sep, j) {
      assert s[j..j + 1] == piece[j..j + 1];
      assert !OccursAt(piece, sep, j);
    }
  }

  /** Splitting after a piece that does not contain a one-character
      separator peels that piece off. */
  lemma SplitCons(piece: string, sep: string, rest: string)
    requires |sep| == 1 && !Contains(piece, sep)
    ensures Split(piece + sep + rest, sep) == [piece] + Split(rest, sep)
  {
    var s := piece + sep + rest;
    IndexAfterPiece(piece, sep, rest);
    assert s[..|piece|] == piece;
    assert s[|piece| + |sep|..] == rest;
  }

  /** Splitting a joined list on a one-character separator that no piece
      contains gives the pieces back. */
  lemma {:induction false} SplitJoin(parts: seq<string>, sep: string)
    requires |sep| == 1 && |parts| >= 1
    requires forall k :: 0 <= k < |parts| ==> !Contains(parts[k], sep)
    ensures Split(Join(parts, sep), sep) == parts
    decreases |parts|
  {
    if |parts| > 1 {
      var rest := Join(parts[1..], sep);
      assert Join(parts, sep) == parts[0] + sep + rest;
      SplitCons(parts[0], sep, rest);
      SplitJoin(parts[1..], sep);
      assert parts == [parts[0]] + parts[1..];
    }
  }

  /** The character `c` does not occur in `s`. */
  predicate Avoids(s: string, c: char) {
    forall i :: 0 <= i < |s| ==> s[i] != c
  }

  lemma AvoidsNotContains(s: string, c: char)
    requires Avoids(s, c)
    ensures !Contains(s, [c])
  {
    forall i: nat | i <= |s| ensures !OccursAt(s, [c], i) {
      if i < |s| { assert s[i..i + 1][0] == s[i]; }
    }
  }

  /** A join avoids a character that neither the pieces nor the separator
      contain. */
  lemma {:induction false} JoinAvoids(parts: seq<string>, sep: string, c: char)
    requires Avoids(sep, c)
    requires forall k :: 0 <= k < |parts| ==> Avoids(parts[k], c)
    ensures Avoids(Join(parts, sep), c)
    decreases |parts|
  {
    if |parts| > 1 {
      JoinAvoids(parts[1..], sep, c);
      var rest := Join(parts[1..], sep);
      assert Join(parts, sep) == parts[0] + sep + rest;
      assert Avoids(parts[0], c);
    }
  }
}
