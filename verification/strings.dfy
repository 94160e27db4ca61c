/** The Python string operations the resolver relies on: substring search
    (`in`, `str.find`), `str.split` with a non-empty separator, and its
    inverse `sep.join`. Strings are sequences of Unicode scalar values;
    Python's `str` is a sequence of code points and may also hold lone
    surrogates, which these strings cannot. */
module Strings {
  import opened Wrappers

  /** `t` occurs in `s` starting at index `i`. */
  ghost predicate OccursAt(s: string, t: string, i: int) {
    0 <= i && i + |t| <= |s| && s[i..i + |t|] == t
  }

  lemma OccursShift(s: string, t: string, j: int)
    requires |s| > 0 && 0 < j
    ensures OccursAt(s, t, j) <==> OccursAt(s[1..], t, j - 1)
  {
    if j + |t| <= |s| {
      assert s[1..][j - 1..j - 1 + |t|] == s[j..j + |t|];
    }
  }

  /** Index of the leftmost occurrence of `t` in `s` (Python's `s.find(t)`,
      with `None` for -1); `FindLeftmost` says it is the leftmost. */
  function Find(s: string, t: string): (r: Option<nat>)
    ensures r.Some? ==> OccursAt(s, t, r.value)
    decreases |s|
  {
    if |s| < |t| then None
    else if s[..|t|] == t then Some(0)
    else
      match Find(s[1..], t)
      case None => None
      case Some(i) => OccursShift(s, t, i + 1); Some(i + 1)
  }

  /** `Find` answers the leftmost occurrence, and `None` only when there
      is no occurrence at all. */
  lemma {:induction false} FindLeftmost(s: string, t: string)
    ensures Find(s, t).Some? ==> forall j :: 0 <= j < Find(s, t).value ==> !OccursAt(s, t, j)
    ensures Find(s, t).None? ==> forall j :: !OccursAt(s, t, j)
    decreases |s|
  {
    if |s| >= |t| && s[..|t|] != t {
      FindLeftmost(s[1..], t);
      forall j | 0 < j
        ensures OccursAt(s, t, j) <==> OccursAt(s[1..], t, j - 1)
      {
        OccursShift(s, t, j);
      }
    }
  }

  /** Python's `t in s` on two strings. */
  predicate Contains(s: string, t: string) {
    Find(s, t).Some?
  }

  lemma ContainsIffOccurs(s: string, t: string)
    ensures Contains(s, t) <==> exists i :: OccursAt(s, t, i)
  {
    FindLeftmost(s, t);
  }

  /** A string contains every string spliced into it. */
  lemma ContainsSpliced(a: string, t: string, b: string)
    ensures Contains(a + t + b, t)
  {
    var s := a + t + b;
    FindLeftmost(s, t);
    assert s[|a|..|a| + |t|] == t;
    assert OccursAt(s, t, |a|);
  }

  /** For a one-character needle, substring search is membership. */
  lemma ContainsChar(s: string, c: char)
    ensures Contains(s, [c]) <==> c in s
  {
    if c in s {
      FindLeftmost(s, [c]);
      var i :| 0 <= i < |s| && s[i] == c;
      assert s[i..i + 1] == [c];
      assert OccursAt(s, [c], i);
    }
    if Contains(s, [c]) {
      var i := Find(s, [c]).value;
      assert s[i..i + 1][0] == s[i];
    }
  }

  /** A string is the text before an occurrence, the occurrence, and the
      text after it. */
  lemma Reassemble(s: string, t: string, i: int)
    requires OccursAt(s, t, i)
    ensures s[..i] + t + s[i + |t|..] == s
  {
    assert s[..i] + s[i..i + |t|] + s[i + |t|..] == s;
  }

  /** Python's `s.split(sep)` for a non-empty separator: the pieces between
      the leftmost non-overlapping occurrences of `sep`. */
  function Split(s: string, sep: string): (parts: seq<string>)
    requires |sep| > 0
    ensures |parts| >= 1
    decreases |s|
  {
    match Find(s, sep)
    case None => [s]
    case Some(i) => [s[..i]] + Split(s[i + |sep|..], sep)
  }

  /** A split gives a single piece, the whole string, exactly when the
      separator does not occur. */
  lemma SplitOnePiece(s: string, sep: string)
    requires |sep| > 0
    ensures |Split(s, sep)| == 1 <==> !Contains(s, sep)
    ensures !Contains(s, sep) ==> Split(s, sep) == [s]
  {
  }

  /** One step of a split: the text before the first separator, then the
      split of the text after it. */
  lemma SplitStep(s: string, sep: string, i: nat)
    requires |sep| > 0 && Find(s, sep) == Some(i)
    ensures Split(s, sep) == [s[..i]] + Split(s[i + |sep|..], sep)
  {
  }

  /** The split pieces of a string with a character separator never
      contain that character; the last piece is a suffix of the string,
      preceded by the separator unless it is the whole string. */
  lemma LastCharSegment(s: string, c: char)
    ensures var parts := Split(s, [c]);
      c !in parts[|parts| - 1] && EndsWithPiece(s, parts[|parts| - 1], [c])
  {
    var parts := Split(s, [c]);
    LastPieceIsSuffix(s, [c]);
    SplitPiecesAvoidSep(s, [c]);
    ContainsChar(parts[|parts| - 1], c);
  }

  /** Python's `sep.join(parts)`. */
  function Join(parts: seq<string>, sep: string): string
    decreases |parts|
  {
    if |parts| == 0 then []
    else if |parts| == 1 then parts[0]
    else parts[0] + sep + Join(parts[1..], sep)
  }

  /** Joining the pieces of a split with the same separator gives back the
      original string. */
  lemma {:induction false} JoinSplit(s: string, sep: string)
    requires |sep| > 0
    ensures Join(Split(s, sep), sep) == s
    decreases |s|
  {
    var f := Find(s, sep);
    if f.Some? {
      var i := f.value;
      var tail := s[i + |sep|..];
      var rest := Split(tail, sep);
      JoinSplit(tail, sep);
      assert Split(s, sep) == [s[..i]] + rest;
      assert ([s[..i]] + rest)[1..] == rest;
      assert Join(Split(s, sep), sep) == s[..i] + sep + Join(rest, sep);
      Reassemble(s, sep, i);
    }
  }

  /** No piece of a split contains the separator. */
  lemma {:induction false} SplitPiecesAvoidSep(s: string, sep: string)
    requires |sep| > 0
    ensures forall k :: 0 <= k < |Split(s, sep)| ==> !Contains(Split(s, sep)[k], sep)
    decreases |s|
  {
    var f := Find(s, sep);
    if f.Some? {
      var i := f.value;
      var head := s[..i];
      FindLeftmost(s, sep);
      forall j | OccursAt(head, sep, j)
        ensures false
      {
        assert head[j..j + |sep|] == s[j..j + |sep|];
        assert OccursAt(s, sep, j);
      }
      assert !Contains(head, sep);
      SplitPiecesAvoidSep(s[i + |sep|..], sep);
      assert Split(s, sep) == [head] + Split(s[i + |sep|..], sep);
    }
  }

  /** `t` ends `s` and is preceded by `sep` unless it is all of `s`. */
  ghost predicate EndsWithPiece(s: string, t: string, sep: string) {
    |t| <= |s| && s[|s| - |t|..] == t &&
    (|t| == |s| || (|t| + |sep| <= |s| && s[|s| - |t| - |sep|..|s| - |t|] == sep))
  }

  lemma EndsWithPieceExtend(s: string, sep: string, i: int, t: string)
    requires OccursAt(s, sep, i) && EndsWithPiece(s[i + |sep|..], t, sep)
    ensures EndsWithPiece(s, t, sep)
  {
    var tail := s[i + |sep|..];
    assert s[|s| - |t|..] == tail[|tail| - |t|..];
    if |t| == |tail| {
      assert s[|s| - |t| - |sep|..|s| - |t|] == s[i..i + |sep|];
    } else {
      assert s[|s| - |t| - |sep|..|s| - |t|] == tail[|tail| - |t| - |sep|..|tail| - |t|];
    }
  }

  /** The text after the last separator (Python's `s.split(sep)[-1]`),
      computed without building the other pieces. */
  function LastPiece(s: string, sep: string): string
    requires |sep| > 0
    decreases |s|
  {
    match Find(s, sep)
    case None => s
    case Some(i) => LastPiece(s[i + |sep|..], sep)
  }

  /** The last piece ends the string, after a separator unless it is the
      whole string. */
  lemma {:induction false} LastPieceEnds(s: string, sep: string)
    requires |sep| > 0
    ensures EndsWithPiece(s, LastPiece(s, sep), sep)
    decreases |s|, 1
  {
    var f := Find(s, sep);
    if f.Some? {
      LastPieceEndsAfter(s, sep, f.value);
    } else {
      assert s[0..] == s;
    }
  }

  /** Past the first separator, the last piece is that of the rest. */
  lemma {:induction false} LastPieceEndsAfter(s: string, sep: string, i: nat)
    requires |sep| > 0 && Find(s, sep) == Some(i)
    ensures EndsWithPiece(s, LastPiece(s, sep), sep)
    decreases |s|, 0
  {
    var tail := s[i + |sep|..];
    var t := LastPiece(tail, sep);
    assert LastPiece(s, sep) == t;
    LastPieceEnds(tail, sep);
    EndsWithPieceExtend(s, sep, i, t);
  }

  /** The last piece of a split is the one `LastPiece` computes. */
  lemma {:induction false} SplitLastPiece(s: string, sep: string)
    requires |sep| > 0
    ensures Split(s, sep)[|Split(s, sep)| - 1] == LastPiece(s, sep)
    decreases |s|
  {
    var f := Find(s, sep);
    if f.Some? {
      var tail := s[f.value + |sep|..];
      SplitLastPiece(tail, sep);
      LastOfCons(s[..f.value], Split(tail, sep));
    }
  }

  lemma LastOfCons(head: string, rest: seq<string>)
    requires |rest| > 0
    ensures ([head] + rest)[|rest|] == rest[|rest| - 1]
  {
  }

  /** The last piece of a split is a suffix of the string, preceded by the
      separator unless it is the whole string. */
  lemma LastPieceIsSuffix(s: string, sep: string)
    requires |sep| > 0
    ensures EndsWithPiece(s, Split(s, sep)[|Split(s, sep)| - 1], sep)
  {
    SplitLastPiece(s, sep);
    LastPieceEnds(s, sep);
  }

  /** `w` stands at index `i` of `s` as a whole `c`-delimited segment. */
  ghost predicate SegmentAt(s: string, w: string, c: char, i: int) {
    OccursAt(s, w, i) && (i == 0 || s[i - 1] == c) && (i + |w| == |s| || s[i + |w|] == c)
  }

  lemma SegInSepFree(s: string, w: string, c: char, i: int)
    requires c !in s && SegmentAt(s, w, c, i)
    ensures w == s
  {
  }

  lemma SegOfConcat(h: string, c: char, tail: string, w: string, i: int)
    requires c !in h && c !in w && SegmentAt(h + [c] + tail, w, c, i)
    ensures (i == 0 && w == h) || (i > |h| && SegmentAt(tail, w, c, i - |h| - 1))
  {
    var s := h + [c] + tail;
    if i <= |h| {
      assert i == 0;
      assert forall k :: 0 <= k < |w| ==> s[k] == w[k];
      assert forall k :: 0 <= k < |h| ==> s[k] == h[k];
      assert s[|h|] == c;
      assert |w| == |h|;
      assert w == s[..|h|];
    } else {
      var j := i - |h| - 1;
      assert tail[j..j + |w|] == s[i..i + |w|];
      if j > 0 { assert tail[j - 1] == s[i - 1]; }
      if j + |w| < |tail| { assert tail[j + |w|] == s[i + |w|]; }
    }
  }

  lemma SegIntoConcat(h: string, c: char, tail: string, w: string, j: int)
    requires SegmentAt(tail, w, c, j)
    ensures SegmentAt(h + [c] + tail, w, c, |h| + 1 + j)
  {
    var s := h + [c] + tail;
    var i := |h| + 1 + j;
    assert forall k :: j <= k < j + |w| ==> s[|h| + 1 + k] == tail[k];
    assert s[i..i + |w|] == tail[j..j + |w|];
    if j > 0 { assert tail[j - 1] == s[i - 1]; }
    if j + |w| < |tail| { assert tail[j + |w|] == s[i + |w|]; }
  }

  lemma HeadIsSeg(h: string, c: char, tail: string)
    ensures SegmentAt(h + [c] + tail, h, c, 0)
  {
    var s := h + [c] + tail;
    assert s[0..|h|] == h;
  }

  /** Splitting on one character yields `w` exactly when `w` stands in `s`
      between two separators (or the ends of `s`). */
  lemma {:induction false} SplitSegment(s: string, c: char, w: string)
    requires c !in w
    ensures w in Split(s, [c]) <==> exists i :: SegmentAt(s, w, c, i)
    decreases |s|
  {
    var sep := [c];
    var f := Find(s, sep);
    FindLeftmost(s, sep);
    if f.None? {
      ContainsChar(s, c);
      assert Split(s, sep) == [s];
      if w == s {
        assert s[0..|s|] == s;
        assert SegmentAt(s, w, c, 0);
      }
      if i :| SegmentAt(s, w, c, i) {
        SegInSepFree(s, w, c, i);
      }
    } else {
      var k := f.value;
      var h := s[..k];
      var tail := s[k + 1..];
      assert s[k] == c by { assert s[k..k + 1] == sep; }
      assert s == h + [c] + tail;
      assert c !in h by {
        if c in h {
          var j :| 0 <= j < k && h[j] == c;
          assert s[j..j + 1] == sep;
          assert OccursAt(s, sep, j);
        }
      }
      assert Split(s, sep) == [h] + Split(tail, sep);
      SplitSegment(tail, c, w);
      if w == h {
        HeadIsSeg(h, c, tail);
      }
      if w in Split(tail, sep) {
        var j :| SegmentAt(tail, w, c, j);
        SegIntoConcat(h, c, tail, w, j);
      }
      if i :| SegmentAt(s, w, c, i) {
        SegOfConcat(h, c, tail, w, i);
      }
    }
  }
}
