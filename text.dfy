/** The optional value used for every JavaScript property that may be absent. */
module Wrappers {
  datatype Option<+T> = None | Some(value: T)
}

/**
 * The pieces of the JavaScript string library that the converter relies on:
 * the `\s` / `trim` whitespace set, the line terminators that `.` never
 * matches, `indexOf`, `split`, `join` and an ASCII `toLowerCase`.
 */
module Text {
  import opened Wrappers

  /** JavaScript LineTerminator code points: what `.` in a regular expression never matches. */
  predicate IsLineTerminator(c: char) {
    c == '\n' || c == '\r' || c == '\U{2028}' || c == '\U{2029}'
  }

  /** JavaScript WhiteSpace and LineTerminator code points: what `\s` matches and `trim` removes. */
  predicate IsWhitespace(c: char) {
    || IsLineTerminator(c)
    || c == '\t' || c == '\U{000B}' || c == '\U{000C}' || c == ' '
    || c == '\U{00A0}' || c == '\U{1680}' || ('\U{2000}' <= c <= '\U{200A}')
    || c == '\U{202F}' || c == '\U{205F}' || c == '\U{3000}' || c == '\U{FEFF}'
  }

  /** No character of s[a..b] is a line terminator. */
  predicate Clear(s: string, a: nat, b: nat)
    requires a <= b <= |s|
  {
    forall t :: a <= t < b ==> !IsLineTerminator(s[t])
  }

  /** pat occurs in s at index i. */
  predicate Contains(s: string, i: nat, pat: string) {
    i + |pat| <= |s| && s[i..i + |pat|] == pat
  }

  /** The end of the run of whitespace starting at i. */
  function SpaceEnd(s: string, i: nat): (r: nat)
    requires i <= |s|
    decreases |s| - i
    ensures i <= r <= |s| && (forall j :: i <= j < r ==> IsWhitespace(s[j]))
    ensures r < |s| ==> !IsWhitespace(s[r])
  {
    if i == |s| || !IsWhitespace(s[i]) then i else SpaceEnd(s, i + 1)
  }

  /** The run of whitespace at the start of a suffix is the same run, shifted. */
  lemma SpaceEndOfSuffix(s: string, i: nat)
    requires i <= |s|
    ensures SpaceEnd(s[i..], 0) == SpaceEnd(s, i) - i
  {
    var t := s[i..];
    assert forall j :: 0 <= j < |t| ==> t[j] == s[i + j];
  }

  /** `trimStart`: the suffix left after dropping all leading whitespace. */
  function TrimStart(s: string): (r: string)
    ensures |r| <= |s| && r == s[|s| - |r|..]
    ensures forall i :: 0 <= i < |s| - |r| ==> IsWhitespace(s[i])
    ensures r == [] || !IsWhitespace(r[0])
  {
    s[SpaceEnd(s, 0)..]
  }

  /** `trimEnd`: the prefix left after dropping all trailing whitespace. */
  function TrimEnd(s: string): (r: string)
    ensures |r| <= |s| && r == s[..|r|]
    ensures forall i :: |r| <= i < |s| ==> IsWhitespace(s[i])
    ensures r == [] || !IsWhitespace(r[|r| - 1])
  {
    if s != [] && IsWhitespace(s[|s| - 1]) then TrimEnd(s[..|s| - 1]) else s
  }

  /** `String.prototype.trim`. */
  function Trim(s: string): string {
    TrimEnd(TrimStart(s))
  }

  /** `indexOf` of one character: its first occurrence, if any. */
  function IndexOf(s: string, c: char): (r: Option<nat>)
    ensures r.None? <==> c !in s
    ensures r.Some? ==> r.value < |s| && s[r.value] == c && c !in s[..r.value]
    ensures r.Some? ==> forall m :: 0 <= m < r.value ==> s[m] != c
  {
    if s == [] then None
    else if s[0] == c then Some(0)
    else match IndexOf(s[1..], c)
      case None => None
      case Some(i) =>
        assert s[1..][..i] == s[1..i + 1];
        Some(i + 1)
  }

  /** The first index j >= from at which pat occurs in s, if any. */
  function FindFrom(s: string, pat: string, from: nat): (r: Option<nat>)
    decreases |s| - from
    ensures r.Some? ==> from <= r.value && Contains(s, r.value, pat)
    ensures r.Some? ==> forall j :: from <= j < r.value ==> !Contains(s, j, pat)
    ensures r.None? ==> forall j :: from <= j ==> !Contains(s, j, pat)
  {
    if from + |pat| > |s| then None
    else if s[from..from + |pat|] == pat then Some(from)
    else FindFrom(s, pat, from + 1)
  }

  /** The index of the first line terminator at or after i, or |s|. */
  function LineEnd(s: string, i: nat): (e: nat)
    requires i <= |s|
    decreases |s| - i
    ensures i <= e <= |s| && Clear(s, i, e)
    ensures e < |s| ==> IsLineTerminator(s[e])
  {
    if i == |s| || IsLineTerminator(s[i]) then i else LineEnd(s, i + 1)
  }

  /** `split` on a one-character string separator. */
  function SplitOn(s: string, sep: char): (r: seq<string>)
    ensures |r| >= 1
    ensures forall i :: 0 <= i < |r| ==> sep !in r[i]
  {
    match IndexOf(s, sep)
    case None => [s]
    case Some(i) => [s[..i]] + SplitOn(s[i + 1..], sep)
  }

  /** `join`: the pieces with sep between each two neighbours. */
  function Join(pieces: seq<string>, sep: string): string {
    if pieces == [] then ""
    else if |pieces| == 1 then pieces[0]
    else pieces[0] + sep + Join(pieces[1..], sep)
  }

  /** `split(/\r?\n/)`: pieces between line feeds, each losing one carriage return just before its line feed. */
  function SplitLines(s: string): (r: seq<string>)
    ensures |r| >= 1
    ensures forall i :: 0 <= i < |r| ==> '\n' !in r[i]
  {
    match IndexOf(s, '\n')
    case None => [s]
    case Some(i) =>
      var piece := if i > 0 && s[i - 1] == '\r' then s[..i - 1] else s[..i];
      assert forall c :: c in piece ==> c in s[..i];
      [piece] + SplitLines(s[i + 1..])
  }

  /** ASCII `toLowerCase` of one character. */
  function LowerChar(c: char): char {
    if 'A' <= c <= 'Z' then (c as int + 32) as char else c
  }

  /** `toLowerCase` on ASCII text. */
  function ToLowerAscii(s: string): (r: string)
    ensures |r| == |s|
    ensures forall i :: 0 <= i < |s| ==> r[i] == LowerChar(s[i])
  {
    if s == [] then [] else [LowerChar(s[0])] + ToLowerAscii(s[1..])
  }

  /** Concatenation regroups freely. */
  lemma ConcatAssociative<T>(a: seq<T>, b: seq<T>, c: seq<T>)
    ensures a + (b + c) == (a + b) + c
  {
  }

  /** Splitting on a separator and joining with it again gives back the text. */
  lemma {:induction false} SplitOnJoin(s: string, sep: char)
    ensures Join(SplitOn(s, sep), [sep]) == s
    decreases |s|
  {
    match IndexOf(s, sep)
    case None =>
    case Some(i) =>
      var rest := SplitOn(s[i + 1..], sep);
      SplitOnJoin(s[i + 1..], sep);
      JoinCons(s[..i], rest, [sep]);
      assert s == s[..i] + [sep] + s[i + 1..];
  }

  /** Join of a piece in front of a non-empty sequence of pieces. */
  lemma JoinCons(head: string, tail: seq<string>, sep: string)
    requires |tail| >= 1
    ensures Join([head] + tail, sep) == head + sep + Join(tail, sep)
  {
    assert ([head] + tail)[1..] == tail;
  }

  /** On text without carriage returns, joining the lines with "\n" gives back the text. */
  lemma {:induction false} SplitLinesJoin(s: string)
    requires '\r' !in s
    ensures Join(SplitLines(s), "\n") == s
    decreases |s|
  {
    match IndexOf(s, '\n')
    case None =>
    case Some(i) =>
      assert '\r' !in s[i + 1..] by {
        forall c | c in s[i + 1..] ensures c in s { }
      }
      SplitLinesJoin(s[i + 1..]);
      JoinCons(s[..i], SplitLines(s[i + 1..]), "\n");
      assert i > 0 ==> s[i - 1] in s;
      assert s == s[..i] + "\n" + s[i + 1..];
  }

  /** A piece without the one carriage return it may end in. */
  function DropFinalReturn(piece: string): string {
    if piece != [] && piece[|piece| - 1] == '\r' then piece[..|piece| - 1] else piece
  }

  /**
   * `split(/\r?\n/)` is `split("\n")` with at most one carriage return dropped from the
   * end of each piece that a line feed closes; every other carriage return is kept.
   */
  lemma {:induction false} SplitLinesIsSplitOnLineFeed(s: string)
    decreases |s|
    ensures var lines, pieces := SplitLines(s), SplitOn(s, '\n');
      && |lines| == |pieces|
      && (forall j :: 0 <= j < |lines| - 1 ==> lines[j] == DropFinalReturn(pieces[j]))
      && lines[|lines| - 1] == pieces[|pieces| - 1]
  {
    match IndexOf(s, '\n')
    case None =>
    case Some(i) =>
      SplitLinesIsSplitOnLineFeed(s[i + 1..]);
      SplitLinesCons(s, i);
      LinesCons(DropFinalReturn(s[..i]), s[..i], SplitLines(s[i + 1..]), SplitOn(s[i + 1..], '\n'));
  }

  /** At the first line feed, both splits take the text before it as their first piece. */
  lemma SplitLinesCons(s: string, i: nat)
    requires IndexOf(s, '\n') == Some(i)
    ensures SplitLines(s) == [DropFinalReturn(s[..i])] + SplitLines(s[i + 1..])
    ensures SplitOn(s, '\n') == [s[..i]] + SplitOn(s[i + 1..], '\n')
  {
    var piece := s[..i];
    if i > 0 {
      assert piece[|piece| - 1] == s[i - 1] && piece[..|piece| - 1] == s[..i - 1];
    }
  }

  /** One more line in front of matching lines and pieces keeps them matching. */
  lemma LinesCons(line: string, piece: string, lines: seq<string>, pieces: seq<string>)
    requires line == DropFinalReturn(piece)
    requires |lines| == |pieces| >= 1
    requires forall j :: 0 <= j < |lines| - 1 ==> lines[j] == DropFinalReturn(pieces[j])
    requires lines[|lines| - 1] == pieces[|pieces| - 1]
    ensures var ls, ps := [line] + lines, [piece] + pieces;
      && |ls| == |ps|
      && (forall j :: 0 <= j < |ls| - 1 ==> ls[j] == DropFinalReturn(ps[j]))
      && ls[|ls| - 1] == ps[|ps| - 1]
  {
    var ls, ps := [line] + lines, [piece] + pieces;
    forall j | 0 <= j < |ls| - 1
      ensures ls[j] == DropFinalReturn(ps[j])
    {
      if j > 0 {
        assert ls[j] == lines[j - 1] && ps[j] == pieces[j - 1];
      }
    }
  }
}
