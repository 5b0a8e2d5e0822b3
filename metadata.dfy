/**
 * The metadata header of a passage: `Key: Value` lines at the top of the text, read
 * line by line until a blank line (after some metadata) or a line that is not metadata.
 * The keys `variable` and `type` are reserved; every other key goes into `metadata`.
 */
module Metadata {
  import opened Wrappers
  import opened Text

  /** The characters `[A-Za-z0-9_ ]` allowed in a metadata key. */
  predicate IsKeyChar(c: char) {
    ('A' <= c <= 'Z') || ('a' <= c <= 'z') || ('0' <= c <= '9') || c == '_' || c == ' '
  }

  /**
   * `^([A-Za-z0-9_ ]+):\s*(.*)$` matches all of s with the key s[..c], the colon at c,
   * and the value s[b..] after the skipped whitespace s[c + 1..b].
   */
  predicate IsMetaMatch(s: string, c: nat, b: nat) {
    && 1 <= c < |s| && s[c] == ':'
    && (forall i :: 0 <= i < c ==> IsKeyChar(s[i]))
    && c + 1 <= b <= |s|
    && (forall i :: c + 1 <= i < b ==> IsWhitespace(s[i]))
    && Clear(s, b, |s|)
  }

  /** The match the regex reports: the key ends at the colon and `\s*` is greedy. */
  function MetaMatch(s: string): (r: Option<(nat, nat)>)
    ensures r.Some? ==> IsMetaMatch(s, r.value.0, r.value.1)
    ensures r.Some? ==> forall c: nat, b: nat :: IsMetaMatch(s, c, b) ==> c == r.value.0 && b <= r.value.1
    ensures r.None? ==> forall c: nat, b: nat :: !IsMetaMatch(s, c, b)
    ensures r.Some? ==> ':' !in s[..r.value.0] && r.value.1 == SpaceEnd(s, r.value.0 + 1)
  {
    match IndexOf(s, ':')
    case None => None
    case Some(c) =>
      KeyEndsAtColon(s, c);
      if c == 0 || exists i :: 0 <= i < c && !IsKeyChar(s[i]) then None
      else
        var b := SpaceEnd(s, c + 1);
        ValueSkipsAllSpace(s, c, b);
        if Clear(s, b, |s|) then Some((c, b)) else None
  }

  /** In any match the key ends at the first colon. */
  lemma KeyEndsAtColon(s: string, c: nat)
    requires IndexOf(s, ':') == Some(c)
    ensures forall c': nat, b': nat :: IsMetaMatch(s, c', b') ==> c' == c
  {
    forall c': nat, b': nat | IsMetaMatch(s, c', b') ensures c' == c {
      assert s[c] == ':';
    }
  }

  /**
   * The value starts after all the whitespace following the colon; any match with a
   * value starting earlier has that whitespace in its value.
   */
  lemma ValueSkipsAllSpace(s: string, c: nat, b: nat)
    requires c < |s| && b == SpaceEnd(s, c + 1)
    requires forall c': nat, b': nat :: IsMetaMatch(s, c', b') ==> c' == c
    ensures forall c': nat, b': nat :: IsMetaMatch(s, c', b') ==> b' <= b
  {
  }

  /** The key (group 1) and the value (group 2) of a metadata line. */
  function MetaLine(s: string): Option<(string, string)> {
    match MetaMatch(s)
    case None => None
    case Some((c, b)) => Some((s[..c], s[b..]))
  }

  /**
   * A line matches the metadata pattern exactly when MetaLine finds a key: the text
   * before the first colon, non-empty and made of key characters. The value is the rest
   * after the colon with its leading whitespace removed, and holds no line terminator.
   */
  lemma MetaLineMeaning(s: string)
    ensures MetaLine(s).None? <==> forall c: nat, b: nat :: !IsMetaMatch(s, c, b)
    ensures MetaLine(s).Some? ==>
      var (k, v) := MetaLine(s).value;
      && 1 <= |k| < |s| && s[|k|] == ':' && ':' !in k
      && (forall i :: 0 <= i < |k| ==> IsKeyChar(k[i]))
      && v == TrimStart(s[|k| + 1..]) && Clear(v, 0, |v|)
  {
    if MetaLine(s).Some? {
      MetaKey(s);
      MetaValue(s);
      MetaValueOneLine(s);
    }
  }

  /** The key of a metadata line: everything before the first colon, made of key characters. */
  lemma MetaKey(s: string)
    requires MetaLine(s).Some?
    ensures var k := MetaLine(s).value.0;
      && 1 <= |k| < |s| && s[|k|] == ':' && ':' !in k
      && (forall i :: 0 <= i < |k| ==> IsKeyChar(k[i]))
  {
    var (c, b) := MetaMatch(s).value;
    assert |s[..c]| == c;
  }

  /** The value of a metadata line: the rest after the colon without its leading whitespace. */
  lemma MetaValue(s: string)
    requires MetaLine(s).Some?
    ensures MetaLine(s).value.1 == TrimStart(s[|MetaLine(s).value.0| + 1..])
  {
    var (c, b) := MetaMatch(s).value;
    var n := |MetaLine(s).value.0|;
    assert n == c;
    assert s[n + 1..] == s[c + 1..];
    ValueIsTrimmedRest(s, c, b);
  }

  /** The value of a metadata line holds no line terminator. */
  lemma MetaValueOneLine(s: string)
    requires MetaLine(s).Some?
    ensures Clear(MetaLine(s).value.1, 0, |MetaLine(s).value.1|)
  {
    var (c, b) := MetaMatch(s).value;
    ValueIsOneLine(s, c, b);
  }

  /** The value starts where the whitespace after the colon ends. */
  lemma ValueIsTrimmedRest(s: string, c: nat, b: nat)
    requires MetaMatch(s) == Some((c, b))
    ensures s[b..] == TrimStart(s[c + 1..])
  {
    SpaceEndOfSuffix(s, c + 1);
    SuffixOfSuffix(s, c + 1, b - c - 1);
  }

  /** The value holds no line terminator. */
  lemma ValueIsOneLine(s: string, c: nat, b: nat)
    requires MetaMatch(s) == Some((c, b))
    ensures Clear(s[b..], 0, |s| - b)
  {
    ClearSuffix(s, b);
  }

  /** A suffix of a suffix is a suffix. */
  lemma SuffixOfSuffix(s: string, i: nat, j: nat)
    requires i + j <= |s|
    ensures s[i..][j..] == s[i + j..]
  {
  }

  /** A suffix free of line terminators, as a string of its own. */
  lemma ClearSuffix(s: string, b: nat)
    requires b <= |s| && Clear(s, b, |s|)
    ensures Clear(s[b..], 0, |s| - b)
  {
    forall i | 0 <= i < |s| - b ensures !IsLineTerminator(s[b..][i]) {
      assert s[b..][i] == s[b + i];
    }
  }

  /** A character that `[^=\s]` accepts: neither `=` nor whitespace. */
  predicate IsNameChar(c: char) {
    c != '=' && !IsWhitespace(c)
  }

  /**
   * `([^=\s]+)\s+(.+)` matches in s with group 1 s[p..q], the separating whitespace
   * s[q..t], and group 2 s[t..e].
   */
  predicate IsVariableMatch(s: string, p: nat, q: nat, t: nat, e: nat) {
    && p < q < t < e <= |s|
    && (forall i :: p <= i < q ==> IsNameChar(s[i]))
    && (forall i :: q <= i < t ==> IsWhitespace(s[i]))
    && Clear(s, t, e)
  }

  /** The end of the run of name characters starting at i. */
  function NameEnd(s: string, i: nat): (r: nat)
    requires i <= |s|
    decreases |s| - i
    ensures i <= r <= |s| && (forall j :: i <= j < r ==> IsNameChar(s[j]))
    ensures r < |s| ==> !IsNameChar(s[r])
  {
    if i == |s| || !IsNameChar(s[i]) then i else NameEnd(s, i + 1)
  }



  /** The greatest t in (q, w] at which `.+` can start: a character that is not a line terminator. */
  function LastStart(s: string, q: nat, w: nat): (r: Option<nat>)
    requires q <= w <= |s|
    decreases w - q
    ensures r.Some? ==> q < r.value <= w && r.value < |s| && !IsLineTerminator(s[r.value])
    ensures r.Some? ==> forall t :: r.value < t <= w ==> t == |s| || IsLineTerminator(s[t])
    ensures r.None? ==> forall t :: q < t <= w ==> t == |s| || IsLineTerminator(s[t])
  {
    if w == q then None
    else if w < |s| && !IsLineTerminator(s[w]) then Some(w)
    else LastStart(s, q, w - 1)
  }

  /**
   * The match starting at p, if any: group 1 takes the whole run of name characters,
   * `\s+` gives back as little as `.+` needs, and `.+` runs to the line's end.
   */
  function VariableAt(s: string, p: nat): (r: Option<(nat, nat, nat)>)
    ensures r.Some? ==> IsVariableMatch(s, p, r.value.0, r.value.1, r.value.2)
    ensures r.Some? ==> forall q: nat, t: nat, e: nat :: IsVariableMatch(s, p, q, t, e) ==>
      q == r.value.0 && (t < r.value.1 || (t == r.value.1 && e <= r.value.2))
    ensures r.None? ==> forall q: nat, t: nat, e: nat :: !IsVariableMatch(s, p, q, t, e)
  {
    if p < |s| && IsNameChar(s[p]) then
      var q := NameEnd(s, p);
      var w := SpaceEnd(s, q);
      MatchesHaveShape(s, p, q, w);
      match LastStart(s, q, w)
      case None => None
      case Some(t) =>
        var e := LineEnd(s, t);
        ValueEndsAtLineEnd(s, p, q, t, e);
        Some((q, t, e))
    else
      None
  }

  /** Every match at p has the shape VariableMatchShape describes. */
  lemma MatchesHaveShape(s: string, p: nat, q: nat, w: nat)
    requires p <= |s| && q == NameEnd(s, p) && w == SpaceEnd(s, q)
    ensures forall q': nat, t: nat, e: nat :: IsVariableMatch(s, p, q', t, e) ==>
      q' == q && t <= w && t < |s| && !IsLineTerminator(s[t])
  {
    forall q': nat, t: nat, e: nat | IsVariableMatch(s, p, q', t, e)
      ensures q' == q && t <= w && t < |s| && !IsLineTerminator(s[t])
    {
      VariableMatchShape(s, p, q', t, e, q, w);
    }
  }

  /** Group 2 of a match starting its expression at t ends at or before the line's end. */
  lemma ValueEndsAtLineEnd(s: string, p: nat, q: nat, t: nat, e: nat)
    requires t <= |s| && e == LineEnd(s, t)
    ensures forall t': nat, e': nat :: IsVariableMatch(s, p, q, t', e') && t' == t ==> e' <= e
  {
    forall t': nat, e': nat | IsVariableMatch(s, p, q, t', e') && t' == t ensures e' <= e {
      if e < |s| {
        assert IsLineTerminator(s[e]);
      }
    }
  }

  /** Any match at p has group 1 ending at the run's end q, and its whitespace ending within the run q..w. */
  lemma VariableMatchShape(s: string, p: nat, q': nat, t: nat, e: nat, q: nat, w: nat)
    requires IsVariableMatch(s, p, q', t, e)
    requires q == NameEnd(s, p) && w == SpaceEnd(s, q)
    ensures q' == q && t <= w && t < |s| && !IsLineTerminator(s[t])
  {
    assert IsWhitespace(s[q']);
    if q < |s| {
      assert !IsNameChar(s[q]);
    }
    if w < |s| {
      assert !IsWhitespace(s[w]);
    }
  }

  /** The leftmost match at or after from. */
  function VariableFrom(s: string, from: nat): (r: Option<(nat, nat, nat, nat)>)
    decreases |s| - from
    ensures r.Some? ==> from <= r.value.0 && VariableAt(s, r.value.0) == Some((r.value.1, r.value.2, r.value.3))
    ensures r.Some? ==> forall p: nat, q: nat, t: nat, e: nat :: from <= p < r.value.0 ==> !IsVariableMatch(s, p, q, t, e)
    ensures r.None? ==> forall p: nat, q: nat, t: nat, e: nat :: from <= p ==> !IsVariableMatch(s, p, q, t, e)
  {
    if from >= |s| then None
    else match VariableAt(s, from)
      case Some((q, t, e)) => Some((from, q, t, e))
      case None => VariableFrom(s, from + 1)
  }

  /** `value.match(/([^=\s]+)\s+(.+)/)`: the variable name (group 1) and its expression (group 2). */
  function MatchVariable(s: string): Option<(string, string)> {
    match VariableFrom(s, 0)
    case None => None
    case Some((p, q, t, e)) => Some((s[p..q], s[t..e]))
  }

  /** `variable` values parse exactly when the pattern matches somewhere in them. */
  lemma MatchVariableMeaning(s: string)
    ensures MatchVariable(s).None? <==> forall p: nat, q: nat, t: nat, e: nat :: !IsVariableMatch(s, p, q, t, e)
  {
    match VariableFrom(s, 0)
    case None =>
    case Some((p, q, t, e)) =>
      assert IsVariableMatch(s, p, q, t, e);
  }

  /** `health - 10` defines `health` with the expression `- 10`: the operator stays in the value. */
  lemma VariableKeepsOperator(s: string)
    requires s == "health - 10"
    ensures MatchVariable(s) == Some(("health", "- 10"))
  {
    assert NameEnd(s, 0) == 6 by {
      assert forall j :: 0 <= j < 6 ==> IsNameChar(s[j]);
      assert !IsNameChar(s[6]);
    }
    assert SpaceEnd(s, 6) == 7;
    assert LastStart(s, 6, 7) == Some(7);
    assert LineEnd(s, 7) == 11;
    assert VariableFrom(s, 0) == Some((0, 6, 7, 11));
    assert s[0..6] == "health" && s[7..11] == "- 10";
  }

  /** What the header loop has gathered so far. */
  datatype MetaState = MetaState(
    found: bool,
    start: nat,
    metadata: map<string, string>,
    variables: map<string, string>,
    passageType: Option<string>)

  /** The state before the first line. */
  const Init := MetaState(false, 0, map[], map[], None)

  /** How the header loop sees one line, once trimmed: empty, a `Key: Value` entry (key lower-cased), or anything else. */
  datatype LineKind = BlankLine | MetaEntry(key: string, value: string) | Other

  /** The kind of a line: trimmed, then tested for emptiness and for the metadata pattern. */
  function Kind(line: string): LineKind {
    var t := Trim(line);
    if t == "" then BlankLine
    else match MetaLine(t)
      case Some((k, v)) => MetaEntry(ToLowerAscii(k), v)
      case None => Other
  }

  /** The kind of every line. */
  function Kinds(lines: seq<string>): (r: seq<LineKind>)
    ensures |r| == |lines| && forall i :: 0 <= i < |lines| ==> r[i] == Kind(lines[i])
  {
    seq(|lines|, i requires 0 <= i < |lines| => Kind(lines[i]))
  }

  /** Storing one metadata entry: `variable` records a variable when its value parses, `type` sets the passage type, anything else is metadata. */
  function Apply(st: MetaState, key: string, value: string): (r: MetaState)
    ensures r.found && r.start == st.start
  {
    if key == "variable" then
      match MatchVariable(value)
      case Some((name, expr)) => st.(variables := st.variables[name := expr], found := true)
      case None => st.(found := true)
    else if key == "type" then st.(passageType := Some(value), found := true)
    else st.(metadata := st.metadata[key := value], found := true)
  }

  /**
   * The header loop from line i: a blank line is skipped before any metadata and ends
   * the header (the body starting after it) once there is some; a metadata line is
   * stored; any other line ends the header, the body starting at it. When the lines
   * run out the body start keeps its initial value.
   */
  function Scan(kinds: seq<LineKind>, i: nat, st: MetaState): MetaState
    decreases |kinds| - i
  {
    if i >= |kinds| then st
    else match kinds[i]
      case BlankLine => if st.found then st.(start := i + 1) else Scan(kinds, i + 1, st)
      case MetaEntry(k, v) => Scan(kinds, i + 1, Apply(st, k, v))
      case Other => st.(start := i)
  }

  /** Every line of kinds[i..g] is a metadata entry. */
  predicate AllMeta(kinds: seq<LineKind>, i: nat, g: nat)
    requires i <= g <= |kinds|
  {
    forall j :: i <= j < g ==> kinds[j].MetaEntry?
  }

  /** The state after storing the entries kinds[i..g] in order. */
  function ApplyAll(kinds: seq<LineKind>, i: nat, g: nat, st: MetaState): MetaState
    requires i <= g <= |kinds| && AllMeta(kinds, i, g)
    decreases g - i
  {
    if i == g then st
    else ApplyAll(kinds, i + 1, g, Apply(st, kinds[i].key, kinds[i].value))
  }

  /** Blank lines before any metadata are skipped. */
  lemma {:induction false} SkipBlank(kinds: seq<LineKind>, i: nat, f: nat, st: MetaState)
    requires i <= f <= |kinds| && !st.found
    requires forall j :: i <= j < f ==> kinds[j] == BlankLine
    ensures Scan(kinds, i, st) == Scan(kinds, f, st)
    decreases f - i
  {
    if i < f {
      SkipBlank(kinds, i + 1, f, st);
    }
  }

  /** A run of metadata lines is stored in order. */
  lemma {:induction false} ReadMeta(kinds: seq<LineKind>, i: nat, g: nat, st: MetaState)
    requires i <= g <= |kinds| && AllMeta(kinds, i, g)
    ensures Scan(kinds, i, st) == Scan(kinds, g, ApplyAll(kinds, i, g, st))
    decreases g - i
  {
    if i < g {
      ReadMeta(kinds, i + 1, g, Apply(st, kinds[i].key, kinds[i].value));
    }
  }

  /** Storing entries sets the found flag exactly when there was at least one, and keeps the body start. */
  lemma {:induction false} ApplyAllFound(kinds: seq<LineKind>, i: nat, g: nat, st: MetaState)
    requires i <= g <= |kinds| && AllMeta(kinds, i, g)
    ensures ApplyAll(kinds, i, g, st).found == (st.found || i < g)
    ensures ApplyAll(kinds, i, g, st).start == st.start
    decreases g - i
  {
    if i < g {
      ApplyAllFound(kinds, i + 1, g, Apply(st, kinds[i].key, kinds[i].value));
    }
  }

  /**
   * Where the body starts. With f the first non-blank line and g the first line from f
   * on that is blank or not metadata: the line after g when g is blank (after some
   * metadata), g itself when it is not metadata (so leading blank lines go too), and 0
   * when every line from f on is metadata (so the header stays in the body). What is
   * stored is the entries of the lines f..g.
   */
  lemma Header(kinds: seq<LineKind>, f: nat, g: nat)
    requires f <= g <= |kinds|
    requires forall j :: 0 <= j < f ==> kinds[j] == BlankLine
    requires f < |kinds| ==> kinds[f] != BlankLine
    requires AllMeta(kinds, f, g)
    requires g < |kinds| ==> !kinds[g].MetaEntry?
    ensures Scan(kinds, 0, Init).start == (if g == |kinds| then 0 else if kinds[g] == BlankLine then g + 1 else g)
    ensures Scan(kinds, 0, Init).found == (f < g)
    ensures Scan(kinds, 0, Init) == ApplyAll(kinds, f, g, Init).(start := Scan(kinds, 0, Init).start)
  {
    SkipBlank(kinds, 0, f, Init);
    ReadMeta(kinds, f, g, Init);
    ApplyAllFound(kinds, f, g, Init);
  }

  /** The first line at or after i that is not blank. */
  function FirstNonBlank(kinds: seq<LineKind>, i: nat): (f: nat)
    requires i <= |kinds|
    decreases |kinds| - i
    ensures i <= f <= |kinds| && (forall j :: i <= j < f ==> kinds[j] == BlankLine)
    ensures f < |kinds| ==> kinds[f] != BlankLine
  {
    if i == |kinds| || kinds[i] != BlankLine then i else FirstNonBlank(kinds, i + 1)
  }

  /** The end of the run of metadata entries starting at i. */
  function MetaRunEnd(kinds: seq<LineKind>, i: nat): (g: nat)
    requires i <= |kinds|
    decreases |kinds| - i
    ensures i <= g <= |kinds| && AllMeta(kinds, i, g)
    ensures g < |kinds| ==> !kinds[g].MetaEntry?
  {
    if i == |kinds| || !kinds[i].MetaEntry? then i else MetaRunEnd(kinds, i + 1)
  }

  /** For any lines, the header is the run of entries after the leading blank lines, stored in order. */
  lemma HeaderOfAnyLines(kinds: seq<LineKind>)
    ensures var f := FirstNonBlank(kinds, 0);
      var g := MetaRunEnd(kinds, f);
      Scan(kinds, 0, Init) == ApplyAll(kinds, f, g, Init).(start := if g == |kinds| then 0 else if kinds[g] == BlankLine then g + 1 else g)
  {
    var f := FirstNonBlank(kinds, 0);
    Header(kinds, f, MetaRunEnd(kinds, f));
  }

  /** A key no entry of kinds[i..g] uses keeps its metadata as it was. */
  lemma {:induction false} MetadataUntouched(kinds: seq<LineKind>, i: nat, g: nat, st: MetaState, key: string)
    requires i <= g <= |kinds| && AllMeta(kinds, i, g)
    requires forall j :: i <= j < g ==> kinds[j].key != key
    ensures key in ApplyAll(kinds, i, g, st).metadata <==> key in st.metadata
    ensures key in st.metadata ==> ApplyAll(kinds, i, g, st).metadata[key] == st.metadata[key]
    decreases g - i
  {
    if i < g {
      MetadataUntouched(kinds, i + 1, g, Apply(st, kinds[i].key, kinds[i].value), key);
    }
  }

  /** An ordinary key holds the value of the last entry that uses it: later lines overwrite earlier ones. */
  lemma {:induction false} MetadataLastWins(kinds: seq<LineKind>, i: nat, g: nat, st: MetaState, j: nat)
    requires i <= j < g <= |kinds| && AllMeta(kinds, i, g)
    requires kinds[j].key != "variable" && kinds[j].key != "type"
    requires forall j' :: j < j' < g ==> kinds[j'].key != kinds[j].key
    ensures kinds[j].key in ApplyAll(kinds, i, g, st).metadata
    ensures ApplyAll(kinds, i, g, st).metadata[kinds[j].key] == kinds[j].value
    decreases g - i
  {
    var next := Apply(st, kinds[i].key, kinds[i].value);
    if i < j {
      MetadataLastWins(kinds, i + 1, g, next, j);
    } else {
      MetadataUntouched(kinds, i + 1, g, next, kinds[i].key);
    }
  }

  /** The reserved keys never become metadata. */
  lemma {:induction false} ReservedNotMetadata(kinds: seq<LineKind>, i: nat, g: nat, st: MetaState)
    requires i <= g <= |kinds| && AllMeta(kinds, i, g)
    requires "variable" !in st.metadata && "type" !in st.metadata
    ensures "variable" !in ApplyAll(kinds, i, g, st).metadata
    ensures "type" !in ApplyAll(kinds, i, g, st).metadata
    decreases g - i
  {
    if i < g {
      ReservedNotMetadata(kinds, i + 1, g, Apply(st, kinds[i].key, kinds[i].value));
    }
  }

  /** Without a `type` entry in kinds[i..g] the passage type stays as it was. */
  lemma {:induction false} TypeUntouched(kinds: seq<LineKind>, i: nat, g: nat, st: MetaState)
    requires i <= g <= |kinds| && AllMeta(kinds, i, g)
    requires forall j :: i <= j < g ==> kinds[j].key != "type"
    ensures ApplyAll(kinds, i, g, st).passageType == st.passageType
    decreases g - i
  {
    if i < g {
      TypeUntouched(kinds, i + 1, g, Apply(st, kinds[i].key, kinds[i].value));
    }
  }

  /** The passage type is the value of the last `type` entry. */
  lemma {:induction false} TypeLastWins(kinds: seq<LineKind>, i: nat, g: nat, st: MetaState, j: nat)
    requires i <= j < g <= |kinds| && AllMeta(kinds, i, g)
    requires kinds[j].key == "type"
    requires forall j' :: j < j' < g ==> kinds[j'].key != "type"
    ensures ApplyAll(kinds, i, g, st).passageType == Some(kinds[j].value)
    decreases g - i
  {
    var next := Apply(st, kinds[i].key, kinds[i].value);
    if i < j {
      TypeLastWins(kinds, i + 1, g, next, j);
    } else {
      TypeUntouched(kinds, i + 1, g, next);
    }
  }

  /** The variable name a `variable` entry defines, if its value parses. */
  function DefinedName(kind: LineKind): Option<string> {
    if kind.MetaEntry? && kind.key == "variable" && MatchVariable(kind.value).Some? then
      Some(MatchVariable(kind.value).value.0)
    else None
  }

  /** A variable no entry of kinds[i..g] defines keeps its value as it was. */
  lemma {:induction false} VariableUntouched(kinds: seq<LineKind>, i: nat, g: nat, st: MetaState, name: string)
    requires i <= g <= |kinds| && AllMeta(kinds, i, g)
    requires forall j :: i <= j < g ==> DefinedName(kinds[j]) != Some(name)
    ensures name in ApplyAll(kinds, i, g, st).variables <==> name in st.variables
    ensures name in st.variables ==> ApplyAll(kinds, i, g, st).variables[name] == st.variables[name]
    decreases g - i
  {
    if i < g {
      VariableUntouched(kinds, i + 1, g, Apply(st, kinds[i].key, kinds[i].value), name);
    }
  }

  /** A variable holds the expression of the last `variable` entry that defines it. */
  lemma {:induction false} VariableLastWins(kinds: seq<LineKind>, i: nat, g: nat, st: MetaState, j: nat)
    requires i <= j < g <= |kinds| && AllMeta(kinds, i, g)
    requires DefinedName(kinds[j]).Some?
    requires forall j' :: j < j' < g ==> DefinedName(kinds[j']) != DefinedName(kinds[j])
    ensures var (name, expr) := MatchVariable(kinds[j].value).value;
      name in ApplyAll(kinds, i, g, st).variables && ApplyAll(kinds, i, g, st).variables[name] == expr
    decreases g - i
  {
    var next := Apply(st, kinds[i].key, kinds[i].value);
    if i < j {
      VariableLastWins(kinds, i + 1, g, next, j);
    } else {
      VariableUntouched(kinds, i + 1, g, next, MatchVariable(kinds[i].value).value.0);
    }
  }
}
