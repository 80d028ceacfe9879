/**
 * Model of `split_2_or_more_spaces` from mopgui/io/string_utils.py.
 *
 * The source returns every match of the regular expression
 * `([\w\d\.]+(?:[ ]?[\w\d\.]+)*)` found by a left-to-right scan: the
 * maximal runs of word characters and dots in which single spaces may
 * appear between two such characters.  `Split` follows the regex engine
 * (greedy matching, scanning resumes where the last match ended);
 * `Decomposes` is an independent description of the answer as
 * gap, piece, gap, ..., piece, gap, and the two lemmas
 * `SplitDecomposes` and `DecompositionIsUnique` show they agree.
 */
module StringUtils {

  /** `\w` without the UNICODE flag (ASCII letters, digits, `_`), or `.` */
  predicate IsPieceChar(c: char) {
    ('a' <= c <= 'z') || ('A' <= c <= 'Z') || ('0' <= c <= '9') || c == '_' || c == '.'
  }

  /** A string the regex can match as a whole */
  predicate IsPiece(p: string) {
    && |p| > 0
    && IsPieceChar(p[0])
    && IsPieceChar(p[|p| - 1])
    && (forall i :: 0 <= i < |p| ==> IsPieceChar(p[i]) || p[i] == ' ')
    && (forall i :: 0 <= i < |p| - 1 ==> !(p[i] == ' ' && p[i + 1] == ' '))
  }

  /** What follows a match cannot extend it: neither a piece character nor a space followed by one */
  predicate StopsMatch(r: string) {
    r == [] || (!IsPieceChar(r[0]) && !(r[0] == ' ' && |r| > 1 && IsPieceChar(r[1])))
  }

  /**
   * Greedy end of the match that has already consumed `s[..i]`: each step
   * takes one more piece character, or a single space together with the
   * piece character after it.
   */
  function MatchEnd(s: string, i: nat): (n: nat)
    requires 0 < i <= |s| && IsPiece(s[..i])
    ensures i <= n <= |s|
    ensures IsPiece(s[..n]) && StopsMatch(s[n..])
    decreases |s| - i
  {
    if i < |s| && IsPieceChar(s[i]) then
      assert s[..i + 1] == s[..i] + [s[i]];
      MatchEnd(s, i + 1)
    else if i + 1 < |s| && s[i] == ' ' && IsPieceChar(s[i + 1]) then
      assert s[..i + 2] == s[..i] + [s[i], s[i + 1]];
      MatchEnd(s, i + 2)
    else
      i
  }

  /** `split_2_or_more_spaces(s)`: the list `re.findall` returns */
  function Split(s: string): (pieces: seq<string>)
    ensures forall k :: 0 <= k < |pieces| ==> IsPiece(pieces[k])
    decreases |s|
  {
    if s == [] then []
    else if !IsPieceChar(s[0]) then Split(s[1..])
    else
      var n := MatchEnd(s, 1);
      [s[..n]] + Split(s[n..])
  }

  /** A stretch of the input no match touches */
  predicate IsGap(g: string) {
    forall i :: 0 <= i < |g| ==> !IsPieceChar(g[i])
  }

  /** What may stand between two pieces: a non-empty gap that is not one lone space */
  predicate IsSeparator(g: string) {
    IsGap(g) && g != [] && g != " "
  }

  /** gaps[0] + pieces[0] + gaps[1] + ... + pieces[k-1] + gaps[k] */
  function Interleave(gaps: seq<string>, pieces: seq<string>): string
    requires |gaps| == |pieces| + 1
    decreases pieces
  {
    if pieces == [] then gaps[0]
    else gaps[0] + pieces[0] + Interleave(gaps[1..], pieces[1..])
  }

  /**
   * `pieces` are the maximal pieces of `s`, in order: `s` is the pieces
   * interleaved with gaps that contain no piece character, and every gap
   * between two pieces keeps them apart.
   */
  ghost predicate Decomposes(s: string, gaps: seq<string>, pieces: seq<string>) {
    && |gaps| == |pieces| + 1
    && Interleave(gaps, pieces) == s
    && (forall k :: 0 <= k < |pieces| ==> IsPiece(pieces[k]))
    && IsGap(gaps[0])
    && IsGap(gaps[|pieces|])
    && (forall k :: 0 < k < |pieces| ==> IsSeparator(gaps[k]))
  }

  /** A character no piece contains, put in front of a decomposition, joins its first gap */
  lemma PrependGapChar(c: char, r: string, gaps: seq<string>, pieces: seq<string>)
    requires !IsPieceChar(c) && Decomposes(r, gaps, pieces)
    ensures Decomposes([c] + r, [[c] + gaps[0]] + gaps[1..], pieces)
  {
    var gaps' := [[c] + gaps[0]] + gaps[1..];
    if pieces != [] {
      var tail := Interleave(gaps[1..], pieces[1..]);
      assert r == gaps[0] + pieces[0] + tail;
      assert Interleave(gaps', pieces) == [c] + gaps[0] + pieces[0] + tail;
    }
    assert forall k :: 0 < k <= |pieces| ==> gaps'[k] == gaps[k];
  }

  /** A piece put in front of a decomposition that cannot extend it becomes its first piece */
  lemma PrependPiece(p: string, r: string, gaps: seq<string>, pieces: seq<string>)
    requires IsPiece(p) && StopsMatch(r) && Decomposes(r, gaps, pieces)
    ensures Decomposes(p + r, [[]] + gaps, [p] + pieces)
  {
    var gaps', pieces' := [[]] + gaps, [p] + pieces;
    assert gaps'[1..] == gaps && pieces'[1..] == pieces;
    assert Interleave(gaps', pieces') == [] + p + r;
    if pieces != [] {
      var tail := Interleave(gaps[1..], pieces[1..]);
      assert r == gaps[0] + pieces[0] + tail;
      assert IsPieceChar(pieces[0][0]);
      assert r[|gaps[0]|] == pieces[0][0];
      assert forall k :: 0 <= k < |gaps[0]| ==> r[k] == gaps[0][k];
      assert IsSeparator(gaps'[1]);
    }
    assert forall k :: 0 < k <= |pieces| ==> gaps'[k + 1] == gaps[k];
    assert forall k :: 0 < k <= |pieces| ==> pieces'[k] == pieces[k - 1];
  }

  /** The pieces `Split` returns are a decomposition of the input (returned with its gaps) */
  lemma {:induction false} SplitDecomposes(s: string) returns (gaps: seq<string>)
    ensures Decomposes(s, gaps, Split(s))
    decreases |s|
  {
    if s == [] {
      gaps := [[]];
    } else if !IsPieceChar(s[0]) {
      var rest := SplitDecomposes(s[1..]);
      PrependGapChar(s[0], s[1..], rest, Split(s[1..]));
      assert s == [s[0]] + s[1..];
      gaps := [[s[0]] + rest[0]] + rest[1..];
    } else {
      var n := MatchEnd(s, 1);
      var rest := SplitDecomposes(s[n..]);
      PrependPiece(s[..n], s[n..], rest, Split(s[n..]));
      assert s == s[..n] + s[n..];
      gaps := [[]] + rest;
    }
  }

  /** A match that starts inside piece `p`, at a piece character, ends exactly where `p` ends */
  lemma {:induction false} MatchEndsWithPiece(s: string, p: string, i: nat)
    requires IsPiece(p) && |p| <= |s| && s[..|p|] == p && StopsMatch(s[|p|..])
    requires 0 < i <= |p| && IsPieceChar(p[i - 1])
    ensures IsPiece(s[..i]) && MatchEnd(s, i) == |p|
    decreases |p| - i
  {
    assert s[..i] == p[..i];
    if i < |p| {
      assert s[i] == p[i];
      if IsPieceChar(p[i]) {
        MatchEndsWithPiece(s, p, i + 1);
      } else {
        assert s[i + 1] == p[i + 1];
        MatchEndsWithPiece(s, p, i + 2);
      }
    } else if i < |s| {
      assert s[i] == s[|p|..][0];
      assert i + 1 < |s| ==> s[i + 1] == s[|p|..][1];
    }
  }

  /** A decomposition that starts with gap characters also decomposes the input after the first one */
  lemma DropGapChar(s: string, gaps: seq<string>, pieces: seq<string>) returns (gaps': seq<string>)
    requires Decomposes(s, gaps, pieces) && gaps[0] != []
    ensures s != [] && !IsPieceChar(s[0]) && Decomposes(s[1..], gaps', pieces)
  {
    var g := gaps[0];
    gaps' := [g[1..]] + gaps[1..];
    if pieces == [] {
      assert Interleave(gaps', pieces) == g[1..] == s[1..];
    } else {
      var tail := Interleave(gaps[1..], pieces[1..]);
      assert s == g + pieces[0] + tail;
      assert Interleave(gaps', pieces) == g[1..] + pieces[0] + tail;
      assert s[1..] == g[1..] + pieces[0] + tail;
    }
    assert gaps'[|pieces|] == if pieces == [] then g[1..] else gaps[|pieces|];
    assert forall k :: 0 < k < |pieces| ==> gaps'[k] == gaps[k];
    assert s[0] == g[0];
  }

  /** Text that starts with a separator (or is a final gap) cannot extend the match before it */
  lemma LeadingGapStopsMatch(gaps: seq<string>, pieces: seq<string>)
    requires |gaps| == |pieces| + 1 && IsGap(gaps[0]) && (pieces != [] ==> IsSeparator(gaps[0]))
    ensures StopsMatch(Interleave(gaps, pieces))
  {
    var g := gaps[0];
    var rest := if pieces == [] then [] else pieces[0] + Interleave(gaps[1..], pieces[1..]);
    assert Interleave(gaps, pieces) == g + rest;
    SeparatorStopsMatch(g, rest);
  }

  lemma SeparatorStopsMatch(g: string, rest: string)
    requires IsGap(g) && (rest != [] ==> IsSeparator(g))
    ensures StopsMatch(g + rest)
  {
    if g != [] {
      assert (g + rest)[0] == g[0];
      assert |g| > 1 ==> (g + rest)[1] == g[1];
    }
  }

  /** What follows the first piece of a decomposition is decomposed by the remaining gaps and pieces */
  lemma TailDecomposes(s: string, gaps: seq<string>, pieces: seq<string>)
    requires Decomposes(s, gaps, pieces) && pieces != []
    ensures Decomposes(Interleave(gaps[1..], pieces[1..]), gaps[1..], pieces[1..])
  {
    assert forall k :: 0 < k < |pieces| - 1 ==> gaps[1..][k] == gaps[k + 1];
    assert forall k :: 0 <= k < |pieces| - 1 ==> pieces[1..][k] == pieces[k + 1];
  }

  /** A decomposition that starts with a piece: the match at the start is that piece, and the rest decomposes */
  lemma DropPiece(s: string, gaps: seq<string>, pieces: seq<string>)
    requires Decomposes(s, gaps, pieces) && gaps[0] == [] && pieces != []
    ensures |pieces[0]| <= |s| && s[..|pieces[0]|] == pieces[0]
    ensures IsPieceChar(s[0]) && MatchEnd(s, 1) == |pieces[0]|
    ensures Decomposes(s[|pieces[0]|..], gaps[1..], pieces[1..])
  {
    var p := pieces[0];
    var r := Interleave(gaps[1..], pieces[1..]);
    assert s == [] + p + r;
    assert s[..|p|] == p && s[|p|..] == r;
    LeadingGapStopsMatch(gaps[1..], pieces[1..]);
    TailDecomposes(s, gaps, pieces);
    MatchEndsWithPiece(s, p, 1);
  }

  /** Decompositions are unique: any decomposition of `s` has exactly the pieces `Split` returns */
  lemma {:induction false} DecompositionIsUnique(s: string, gaps: seq<string>, pieces: seq<string>)
    requires Decomposes(s, gaps, pieces)
    ensures pieces == Split(s)
    decreases |s|
  {
    if gaps[0] != [] {
      var gaps' := DropGapChar(s, gaps, pieces);
      DecompositionIsUnique(s[1..], gaps', pieces);
    } else if pieces != [] {
      DropPiece(s, gaps, pieces);
      var n := |pieces[0]|;
      DecompositionIsUnique(s[n..], gaps[1..], pieces[1..]);
      assert pieces == [s[..n]] + pieces[1..];
    }
  }

  /** An input without word characters or dots yields no pieces, and only such an input does */
  lemma SplitEmptyIff(s: string)
    ensures Split(s) == [] <==> IsGap(s)
  {
    if IsGap(s) {
      assert Decomposes(s, [s], []);
      DecompositionIsUnique(s, [s], []);
    }
    if Split(s) == [] {
      var gaps := SplitDecomposes(s);
    }
  }
}
