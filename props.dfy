/**
 * `extractPropsFromText`: repeated matches of `{{K}}V{{/K}}` in which the closing key
 * equals the opening one. Each value loses its line breaks and is itself searched for
 * props; the result maps each key to a string or to the nested map.
 */
module Props {
  import opened Wrappers
  import opened Text

  /** A prop value: the sanitised string, or the props found inside it. */
  datatype PropValue = Str(s: string) | Nested(m: map<string, PropValue>)

  /**
   * A match of `\{\{((\s|\S)+?)\}\}((\s|\S)+?)\{\{\/\1\}\}` starting at p, with a key of
   * k characters and a value of v characters: `{{`, key, `}}`, value, `{{/`, key, `}}`.
   */
  predicate IsPropMatch(s: string, p: nat, k: nat, v: nat) {
    && 1 <= k && 1 <= v
    && Contains(s, p, "{{")
    && Contains(s, p + 2 + k, "}}")
    && Contains(s, p + 4 + k + v, "{{/")
    && Contains(s, p + 7 + k + v, s[p + 2..p + 2 + k])
    && Contains(s, p + 7 + 2 * k + v, "}}")
  }

  /**
   * The match a backtracking engine reports at p: the shortest key that admits a value,
   * and for it the shortest value, i.e. the lexicographically least (k, v).
   */
  ghost predicate LeastAt(s: string, p: nat, k: nat, v: nat) {
    && IsPropMatch(s, p, k, v)
    && forall k', v' :: IsPropMatch(s, p, k', v') ==> k < k' || (k == k' && v <= v')
  }

  /** The shortest value of at least v characters that closes key length k at p. */
  function ValueSearch(s: string, p: nat, k: nat, v: nat): (r: Option<nat>)
    decreases |s| - v
    ensures r.Some? ==> v <= r.value && IsPropMatch(s, p, k, r.value)
    ensures r.Some? ==> forall v' :: v <= v' < r.value ==> !IsPropMatch(s, p, k, v')
    ensures r.None? ==> forall v' :: v <= v' ==> !IsPropMatch(s, p, k, v')
  {
    if p + 2 * k + v + 9 > |s| then None
    else if IsPropMatch(s, p, k, v) then Some(v)
    else ValueSearch(s, p, k, v + 1)
  }

  /** Key lengths from k upwards, the first one that admits some value. */
  function KeySearch(s: string, p: nat, k: nat): (r: Option<(nat, nat)>)
    decreases |s| - k
    ensures r.Some? ==> k <= r.value.0 && IsPropMatch(s, p, r.value.0, r.value.1)
    ensures r.Some? ==> forall k', v' :: IsPropMatch(s, p, k', v') && k <= k' ==>
      r.value.0 < k' || (r.value.0 == k' && r.value.1 <= v')
    ensures r.None? ==> forall k', v' :: k <= k' ==> !IsPropMatch(s, p, k', v')
  {
    if p + 2 * k + 10 > |s| then MatchesFit(s, p); None
    else match ValueSearch(s, p, k, 1)
      case Some(v) => Some((k, v))
      case None => KeySearch(s, p, k + 1)
  }

  /** A match at p lies within s. */
  lemma MatchesFit(s: string, p: nat)
    ensures forall k: nat, v: nat :: IsPropMatch(s, p, k, v) ==> p + 2 * k + v + 9 <= |s|
  {
  }

  /** One match: start, key length, value length. */
  datatype PropMatch = PropMatch(p: nat, k: nat, v: nat)

  /** The match at exactly p, if the pattern matches there. */
  function PropMatchAt(s: string, p: nat): (r: Option<PropMatch>)
    ensures r.Some? ==> r.value.p == p && LeastAt(s, p, r.value.k, r.value.v)
    ensures r.None? ==> forall k, v :: !IsPropMatch(s, p, k, v)
  {
    match KeySearch(s, p, 1)
    case None => None
    case Some((k, v)) => Some(PropMatch(p, k, v))
  }

  /** `exec` from lastIndex `from`: the leftmost match starting at or after from. */
  function NextProp(s: string, from: nat): (r: Option<PropMatch>)
    decreases |s| - from
    ensures r.Some? ==> from <= r.value.p && LeastAt(s, r.value.p, r.value.k, r.value.v)
    ensures r.Some? ==> forall p, k, v :: from <= p < r.value.p ==> !IsPropMatch(s, p, k, v)
    ensures r.None? ==> forall p, k, v :: from <= p ==> !IsPropMatch(s, p, k, v)
  {
    if from + 11 > |s| then None
    else match PropMatchAt(s, from)
      case Some(m) => Some(m)
      case None => NextProp(s, from + 1)
  }

  /** Where a match ends, and where the next `exec` resumes. */
  function End(m: PropMatch): nat {
    m.p + 2 * m.k + m.v + 9
  }

  /** The key, group 1 of a match. */
  function Key(s: string, m: PropMatch): string
    requires IsPropMatch(s, m.p, m.k, m.v)
  {
    s[m.p + 2..m.p + 2 + m.k]
  }

  /** The raw value, group 3 of a match. */
  function RawValue(s: string, m: PropMatch): (r: string)
    requires IsPropMatch(s, m.p, m.k, m.v)
    ensures |r| < |s|
  {
    s[m.p + 4 + m.k..m.p + 4 + m.k + m.v]
  }

  /** All matches of the global `exec` loop started at lastIndex from. */
  function PropMatches(s: string, from: nat): (r: seq<PropMatch>)
    decreases |s| - from
    ensures forall m :: m in r ==> from <= m.p && LeastAt(s, m.p, m.k, m.v)
    ensures forall i :: 0 < i < |r| ==> End(r[i - 1]) <= r[i].p
  {
    match NextProp(s, from)
    case None => []
    case Some(m) => [m] + PropMatches(s, End(m))
  }

  /** Where the `exec` loop resumes before reporting match i of r (or, at i == |r|, after the last one). */
  function ResumeP(r: seq<PropMatch>, i: nat, from: nat): nat
    requires i <= |r|
  {
    if i == 0 then from else End(r[i - 1])
  }

  /** No match of the pattern starts in [a, b). */
  ghost predicate NoPropBetween(s: string, a: nat, b: nat) {
    forall p, k, v :: a <= p < b ==> !IsPropMatch(s, p, k, v)
  }

  /** No match of the pattern starts at or after a. */
  ghost predicate NoPropFrom(s: string, a: nat) {
    forall p, k, v :: a <= p ==> !IsPropMatch(s, p, k, v)
  }

  /**
   * The global loop reports every match it can reach: none starts between where it
   * resumed and the next match it reports, and none starts after the last one.
   */
  lemma {:induction false} PropMatchesAreLeftmost(s: string, from: nat)
    decreases |s| - from
    ensures var r := PropMatches(s, from);
      && (forall i :: 0 <= i < |r| ==> NoPropBetween(s, ResumeP(r, i, from), r[i].p))
      && NoPropFrom(s, ResumeP(r, |r|, from))
  {
    match NextProp(s, from)
    case None =>
    case Some(m) =>
      PropMatchesAreLeftmost(s, End(m));
      LeftmostCons(s, from, m, PropMatches(s, End(m)));
  }

  /** A match with nothing before it, in front of matches that miss nothing after it, misses nothing. */
  lemma LeftmostCons(s: string, from: nat, m: PropMatch, rest: seq<PropMatch>)
    requires NoPropBetween(s, from, m.p)
    requires forall i :: 0 <= i < |rest| ==> NoPropBetween(s, ResumeP(rest, i, End(m)), rest[i].p)
    requires NoPropFrom(s, ResumeP(rest, |rest|, End(m)))
    ensures var r := [m] + rest;
      && (forall i :: 0 <= i < |r| ==> NoPropBetween(s, ResumeP(r, i, from), r[i].p))
      && NoPropFrom(s, ResumeP(r, |r|, from))
  {
    var r := [m] + rest;
    forall i | 0 <= i < |r|
      ensures NoPropBetween(s, ResumeP(r, i, from), r[i].p)
    {
      if i > 0 {
        assert r[i] == rest[i - 1] && ResumeP(r, i, from) == ResumeP(rest, i - 1, End(m));
      }
    }
    assert ResumeP(r, |r|, from) == ResumeP(rest, |rest|, End(m));
  }

  /** `replace(/(\r\n|\n|\r)/gm, '')`: every carriage return and line feed removed. */
  function RemoveLineBreaks(s: string): (r: string)
    ensures |r| <= |s|
    ensures '\r' !in r && '\n' !in r
    ensures forall c :: c in s && c != '\r' && c != '\n' ==> c in r
    ensures '\r' !in s && '\n' !in s ==> r == s
  {
    if s == [] then []
    else if s[0] == '\r' || s[0] == '\n' then RemoveLineBreaks(s[1..])
    else [s[0]] + RemoveLineBreaks(s[1..])
  }

  /** Removing line breaks works piece by piece: the order of what is kept is unchanged. */
  lemma {:induction false} RemoveLineBreaksConcat(x: string, y: string)
    decreases |x|
    ensures RemoveLineBreaks(x + y) == RemoveLineBreaks(x) + RemoveLineBreaks(y)
  {
    if x == [] {
      assert x + y == y;
    } else {
      assert (x + y)[0] == x[0] && (x + y)[1..] == x[1..] + y;
      RemoveLineBreaksConcat(x[1..], y);
      ConcatAssociative([x[0]], RemoveLineBreaks(x[1..]), RemoveLineBreaks(y));
    }
  }

  /** On one character: a carriage return or line feed is dropped, anything else is kept. */
  lemma RemoveLineBreaksChar(c: char)
    ensures RemoveLineBreaks([c]) == (if c == '\r' || c == '\n' then [] else [c])
  {
    assert [c][1..] == [];
  }

  /**
   * `extractPropsFromText`: None when nothing matches, otherwise the map built from
   * every match in order.
   */
  function Props(s: string): Option<map<string, PropValue>>
    decreases |s|, 1
  {
    var ms := PropMatches(s, 0);
    if ms == [] then None else Some(Collect(s, ms))
  }

  /** The dictionary after storing the matches ms one after another. */
  function Collect(s: string, ms: seq<PropMatch>): map<string, PropValue>
    requires forall m :: m in ms ==> IsPropMatch(s, m.p, m.k, m.v)
    decreases |s|, 0, |ms|
  {
    if ms == [] then map[]
    else
      var m := ms[|ms| - 1];
      Collect(s, ms[..|ms| - 1])[Key(s, m) := ValueOf(RawValue(s, m))]
  }

  /** What is stored for a raw value: its nested props if it has any, else the sanitised string. */
  function ValueOf(raw: string): PropValue
    decreases |raw|, 2
  {
    var value := RemoveLineBreaks(raw);
    match Props(value)
    case Some(m) => Nested(m)
    case None => Str(value)
  }

  /**
   * The loop of `extractPropsFromText`: `exec` until it fails, storing each key's value
   * (nested when the recursive call finds props) and recording that a match was found.
   */
  method ExtractProps(text: string) returns (r: Option<map<string, PropValue>>)
    ensures r == Props(text)
    decreases |text|
  {
    var props: map<string, PropValue> := map[];
    var matchFound := false;
    var lastIndex: nat := 0;
    ghost var done: seq<PropMatch> := [];
    var propMatch := NextProp(text, lastIndex);
    while propMatch.Some?
      invariant PropMatches(text, 0) == done + PropMatches(text, lastIndex)
      invariant propMatch == NextProp(text, lastIndex)
      invariant forall m :: m in done ==> IsPropMatch(text, m.p, m.k, m.v)
      invariant props == Collect(text, done)
      invariant matchFound <==> done != []
      decreases |text| - lastIndex
    {
      var m := propMatch.value;
      var key := Key(text, m);
      var value := RemoveLineBreaks(RawValue(text, m));
      var furtherExtraction := ExtractProps(value);
      ExtractStep(text, lastIndex, done, furtherExtraction);
      if furtherExtraction.Some? {
        props := props[key := Nested(furtherExtraction.value)];
      } else {
        props := props[key := Str(value)];
      }
      matchFound := true;
      done := done + [m];
      lastIndex := End(m);
      propMatch := NextProp(text, lastIndex);
    }
    assert PropMatches(text, 0) == done by {
      assert PropMatches(text, lastIndex) == [];
      assert done + [] == done;
    }
    if !matchFound {
      return None;
    }
    return Some(props);
  }

  /**
   * One turn of the loop: after the matches done, `exec` from `from` finds m; storing
   * what the recursive call returned for m's value extends the dictionary of done by m.
   */
  lemma ExtractStep(s: string, from: nat, done: seq<PropMatch>, further: Option<map<string, PropValue>>)
    requires NextProp(s, from).Some?
    requires PropMatches(s, 0) == done + PropMatches(s, from)
    requires forall m' :: m' in done ==> IsPropMatch(s, m'.p, m'.k, m'.v)
    requires var m := NextProp(s, from).value; further == Props(RemoveLineBreaks(RawValue(s, m)))
    ensures var m := NextProp(s, from).value;
      && from < End(m)
      && PropMatches(s, 0) == (done + [m]) + PropMatches(s, End(m))
      && (forall m' :: m' in done + [m] ==> IsPropMatch(s, m'.p, m'.k, m'.v))
      && Collect(s, done + [m]) == Collect(s, done)[Key(s, m) :=
           if further.Some? then Nested(further.value) else Str(RemoveLineBreaks(RawValue(s, m)))]
  {
    var m := NextProp(s, from).value;
    ExecStep(s, from, done);
    CollectSnoc(s, done, m);
    StoredValue(RawValue(s, m), further);
  }

  /** One `exec` that succeeds: its match lies after lastIndex, and the remaining matches follow it. */
  lemma ExecStep(s: string, from: nat, done: seq<PropMatch>)
    requires NextProp(s, from).Some?
    requires PropMatches(s, 0) == done + PropMatches(s, from)
    ensures var m := NextProp(s, from).value;
      && IsPropMatch(s, m.p, m.k, m.v) && from < End(m)
      && PropMatches(s, 0) == (done + [m]) + PropMatches(s, End(m))
  {
    var m := NextProp(s, from).value;
    ConcatAssociative(done, [m], PropMatches(s, End(m)));
  }

  /** What the loop stores for a raw value, given the recursive call's result, is ValueOf. */
  lemma StoredValue(raw: string, further: Option<map<string, PropValue>>)
    requires further == Props(RemoveLineBreaks(raw))
    ensures ValueOf(raw) == if further.Some? then Nested(further.value) else Str(RemoveLineBreaks(raw))
  {
  }

  /** Storing one more match updates the dictionary at that match's key. */
  lemma CollectSnoc(s: string, ms: seq<PropMatch>, m: PropMatch)
    requires forall m' :: m' in ms ==> IsPropMatch(s, m'.p, m'.k, m'.v)
    requires IsPropMatch(s, m.p, m.k, m.v)
    ensures forall m' :: m' in ms + [m] ==> IsPropMatch(s, m'.p, m'.k, m'.v)
    ensures Collect(s, ms + [m]) == Collect(s, ms)[Key(s, m) := ValueOf(RawValue(s, m))]
  {
    assert (ms + [m])[..|ms|] == ms;
  }

  /** `extractPropsFromText` returns null exactly when the pattern matches nowhere. */
  lemma NoPropsIffNoMatch(s: string)
    ensures Props(s).None? <==> forall p, k, v :: !IsPropMatch(s, p, k, v)
  {
    if Props(s).None? {
      assert NextProp(s, 0).None?;
    }
  }

  /** Every match's key is stored. */
  lemma {:induction false} CollectStoresEveryKey(s: string, ms: seq<PropMatch>)
    requires forall m :: m in ms ==> IsPropMatch(s, m.p, m.k, m.v)
    ensures forall m :: m in ms ==> Key(s, m) in Collect(s, ms)
    decreases |ms|
  {
    if ms != [] {
      var init := ms[..|ms| - 1];
      assert forall m :: m in init ==> m in ms;
      CollectStoresEveryKey(s, init);
      forall m | m in ms ensures Key(s, m) in Collect(s, ms) {
        if m != ms[|ms| - 1] {
          assert m in init;
        }
      }
    }
  }

  /** Every key stored is the key of some match. */
  lemma {:induction false} CollectKeysFromMatches(s: string, ms: seq<PropMatch>)
    requires forall m :: m in ms ==> IsPropMatch(s, m.p, m.k, m.v)
    ensures forall key :: key in Collect(s, ms) ==> exists m :: m in ms && Key(s, m) == key
    decreases |ms|
  {
    if ms != [] {
      var init := ms[..|ms| - 1];
      assert forall m :: m in init ==> m in ms;
      CollectKeysFromMatches(s, init);
    }
  }

  /** A match later in the sequence with the same key overwrites an earlier one: the last one is what is stored. */
  lemma {:induction false} CollectLastWins(s: string, ms: seq<PropMatch>, i: nat)
    requires forall m :: m in ms ==> IsPropMatch(s, m.p, m.k, m.v)
    requires i < |ms|
    requires forall j :: i < j < |ms| ==> Key(s, ms[j]) != Key(s, ms[i])
    ensures Key(s, ms[i]) in Collect(s, ms)
    ensures Collect(s, ms)[Key(s, ms[i])] == ValueOf(RawValue(s, ms[i]))
    decreases |ms|
  {
    if i < |ms| - 1 {
      var init := ms[..|ms| - 1];
      assert forall m :: m in init ==> m in ms;
      assert init[i] == ms[i];
      assert forall j :: i < j < |init| ==> init[j] == ms[j];
      CollectLastWins(s, init, i);
      assert Key(s, ms[|ms| - 1]) != Key(s, ms[i]);
    }
  }

  /**
   * For a text with props, the key of every match is present, and it holds what the last
   * match with that key produced.
   */
  lemma LastMatchWins(s: string, i: nat)
    requires i < |PropMatches(s, 0)|
    requires forall j :: i < j < |PropMatches(s, 0)| ==>
      Key(s, PropMatches(s, 0)[j]) != Key(s, PropMatches(s, 0)[i])
    ensures Props(s).Some?
    ensures Key(s, PropMatches(s, 0)[i]) in Props(s).value
    ensures Props(s).value[Key(s, PropMatches(s, 0)[i])] == ValueOf(RawValue(s, PropMatches(s, 0)[i]))
  {
    var ms := PropMatches(s, 0);
    assert forall m :: m in ms ==> IsPropMatch(s, m.p, m.k, m.v);
    CollectLastWins(s, ms, i);
  }

  /** A string value is stored only when it holds no prop of its own; otherwise the nested map is. */
  lemma StoredValueMeaning(raw: string)
    ensures ValueOf(raw).Str? ==>
      ValueOf(raw).s == RemoveLineBreaks(raw) && forall p, k, v :: !IsPropMatch(ValueOf(raw).s, p, k, v)
    ensures ValueOf(raw).Nested? ==> Props(RemoveLineBreaks(raw)) == Some(ValueOf(raw).m)
  {
    NoPropsIffNoMatch(RemoveLineBreaks(raw));
  }

  /** No string anywhere in a prop value contains a carriage return or line feed. */
  predicate NoBreaks(pv: PropValue)
    decreases pv
  {
    match pv
    case Str(s) => '\r' !in s && '\n' !in s
    case Nested(m) => forall key :: key in m ==> NoBreaks(m[key])
  }

  /** Every string value `extractPropsFromText` stores, at any depth, is free of line breaks. */
  lemma {:induction false} PropsHaveNoBreaks(s: string)
    requires Props(s).Some?
    ensures forall key :: key in Props(s).value ==> NoBreaks(Props(s).value[key])
    decreases |s|, 1
  {
    var ms := PropMatches(s, 0);
    assert forall m :: m in ms ==> IsPropMatch(s, m.p, m.k, m.v);
    CollectHasNoBreaks(s, ms);
  }

  /** The dictionary built from matches holds only values free of line breaks. */
  lemma {:induction false} CollectHasNoBreaks(s: string, ms: seq<PropMatch>)
    requires forall m :: m in ms ==> IsPropMatch(s, m.p, m.k, m.v)
    ensures forall key :: key in Collect(s, ms) ==> NoBreaks(Collect(s, ms)[key])
    decreases |s|, 0, |ms|
  {
    if ms != [] {
      var init := ms[..|ms| - 1];
      var m := ms[|ms| - 1];
      assert forall m' :: m' in init ==> m' in ms;
      CollectHasNoBreaks(s, init);
      ValueHasNoBreaks(RawValue(s, m));
    }
  }

  /** A stored value, string or nested, is free of line breaks. */
  lemma {:induction false} ValueHasNoBreaks(raw: string)
    ensures NoBreaks(ValueOf(raw))
    decreases |raw|, 2
  {
    var value := RemoveLineBreaks(raw);
    if Props(value).Some? {
      PropsHaveNoBreaks(value);
    }
  }

  /** `{{foo}}bar{{/foo}}` yields `{"foo": "bar"}`. */
  lemma SimpleProp(s: string)
    requires s == "{{foo}}bar{{/foo}}"
    ensures Props(s) == Some(map["foo" := Str("bar")])
  {
    var m := PropMatch(0, 3, 3);
    SimpleMatches(s);
    SingleMatch(s, m);
    assert Key(s, m) == "foo" by {
      assert s[2..5] == "foo";
    }
    assert RawValue(s, m) == "bar" by {
      assert s[7..10] == "bar";
    }
    PlainValue();
  }

  /** A text with exactly one match yields a dictionary with that match's key alone. */
  lemma SingleMatch(s: string, m: PropMatch)
    requires PropMatches(s, 0) == [m]
    ensures IsPropMatch(s, m.p, m.k, m.v)
    ensures Props(s) == Some(map[Key(s, m) := ValueOf(RawValue(s, m))])
  {
    assert m in PropMatches(s, 0);
    assert [m][..0] == [];
    assert Collect(s, [m]) == Collect(s, [])[Key(s, m) := ValueOf(RawValue(s, m))];
  }

  /** The only match in `{{foo}}bar{{/foo}}` is the whole text, with key and value of three characters. */
  lemma SimpleMatches(s: string)
    requires s == "{{foo}}bar{{/foo}}"
    ensures PropMatches(s, 0) == [PropMatch(0, 3, 3)]
  {
    assert NextProp(s, 0) == Some(PropMatch(0, 3, 3)) by {
      assert s[2..5] == "foo" && s[13..16] == "foo";
      assert IsPropMatch(s, 0, 3, 3);
      forall k, v | k < 3 || (k == 3 && v < 3) ensures !IsPropMatch(s, 0, k, v) {
        if k == 1 { assert s[3..5][0] == 'o'; }
        else if k == 2 { assert s[4..6][0] == 'o'; }
        else if k == 3 && v == 1 { assert s[8..11][0] == 'a'; }
        else if k == 3 && v == 2 { assert s[9..12][0] == 'r'; }
      }
    }
    assert PropMatches(s, 18) == [];
  }

  /** `bar` holds no prop, so it is stored as a string. */
  lemma PlainValue()
    ensures ValueOf("bar") == Str("bar")
  {
    ShortValueIsString("bar");
  }

  /**
   * The key pattern is lazy but may still run past a `}}`: in `{{}}b}}v{{/}}b}}` no key
   * ends at the first `}}`, so the key becomes `}}b`.
   */
  lemma KeyMayContainBraces(s: string)
    requires s == "{{}}b}}v{{/}}b}}"
    ensures Props(s) == Some(map["}}b" := Str("v")])
  {
    var m := PropMatch(0, 3, 1);
    BracesMatches(s);
    SingleMatch(s, m);
    assert Key(s, m) == "}}b" by {
      assert s[2..5] == "}}b";
    }
    assert RawValue(s, m) == "v" by {
      assert s[7..8] == "v";
    }
    ShortValueIsString("v");
  }

  /** A value too short to hold a match, and without line breaks, is stored as it is. */
  lemma ShortValueIsString(raw: string)
    requires |raw| < 11 && '\r' !in raw && '\n' !in raw
    ensures ValueOf(raw) == Str(raw)
  {
    assert PropMatches(raw, 0) == [];
  }

  /** The only match in `{{}}b}}v{{/}}b}}` is the whole text, with a three-character key and a one-character value. */
  lemma BracesMatches(s: string)
    requires s == "{{}}b}}v{{/}}b}}"
    ensures PropMatches(s, 0) == [PropMatch(0, 3, 1)]
  {
    assert NextProp(s, 0) == Some(PropMatch(0, 3, 1)) by {
      assert s[2..5] == "}}b" && s[11..14] == "}}b";
      assert IsPropMatch(s, 0, 3, 1);
      forall k, v | k < 3 || (k == 3 && v < 1) ensures !IsPropMatch(s, 0, k, v) {
        if k == 1 { assert s[3..5][1] == 'b'; }
        else if k == 2 { assert s[4..6][0] == 'b'; }
      }
    }
    assert PropMatches(s, 16) == [];
  }
}
