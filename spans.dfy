/**
 * The scanner behind `/\[\[.+?\]\]/g`, `/\[\[.*?\]\]/g` and `/<<.*?>>/g`: leftmost,
 * lazy, non-overlapping spans `open`, at least `minLen` interior characters, `close`,
 * where no interior character is a line terminator (the regular expressions' `.`).
 */
module Spans {
  import opened Wrappers
  import opened Text

  /** A matched span, s[start..end], delimiters included. */
  datatype Span = Span(start: nat, end: nat)

  /** What `open.{minLen,}?close` can match at s[p..e], laziness aside. */
  predicate IsSpan(s: string, open: string, close: string, minLen: nat, p: nat, e: nat) {
    && p + |open| + minLen + |close| <= e <= |s|
    && Contains(s, p, open)
    && Contains(s, e - |close|, close)
    && Clear(s, p + |open|, e - |close|)
  }

  /** The lazy quantifier's choice: the interior stops at the first possible close. */
  predicate IsLazySpan(s: string, open: string, close: string, minLen: nat, p: nat, e: nat) {
    && IsSpan(s, open, close, minLen, p, e)
    && forall j :: p + |open| + minLen <= j < e - |close| ==> !Contains(s, j, close)
  }

  /** No span starts at an index in [a, b). */
  ghost predicate NoSpanBetween(s: string, open: string, close: string, minLen: nat, a: nat, b: nat) {
    forall q, e :: a <= q < b ==> !IsSpan(s, open, close, minLen, q, e)
  }

  /** No span starts at or after a. */
  ghost predicate NoSpanFrom(s: string, open: string, close: string, minLen: nat, a: nat) {
    forall q, e :: a <= q ==> !IsSpan(s, open, close, minLen, q, e)
  }

  /** The first index q >= j where close occurs, provided no line terminator lies in s[j..q]. */
  function CloseFrom(s: string, close: string, j: nat): (r: Option<nat>)
    decreases |s| - j
    ensures r.Some? ==> j <= r.value && Contains(s, r.value, close) && Clear(s, j, r.value)
    ensures r.Some? ==> forall q :: j <= q < r.value ==> !Contains(s, q, close)
    ensures r.None? ==> forall q :: j <= q && Contains(s, q, close) ==> !Clear(s, j, q)
  {
    if j + |close| > |s| then None
    else if s[j..j + |close|] == close then Some(j)
    else if IsLineTerminator(s[j]) then None
    else CloseFrom(s, close, j + 1)
  }

  /** Where the regular expression's match attempt at p ends, if it succeeds there. */
  function SpanAt(s: string, open: string, close: string, minLen: nat, p: nat): (r: Option<nat>)
    ensures r.Some? ==> IsLazySpan(s, open, close, minLen, p, r.value)
    ensures r.None? ==> forall e :: !IsSpan(s, open, close, minLen, p, e)
  {
    var c := p + |open|;
    if !Contains(s, p, open) || c + minLen > |s| || !Clear(s, c, c + minLen) then None
    else match CloseFrom(s, close, c + minLen)
      case None => None
      case Some(j) => Some(j + |close|)
  }

  /** The leftmost span starting at or after from: one step of a global match. */
  function NextSpan(s: string, open: string, close: string, minLen: nat, from: nat): (r: Option<Span>)
    requires |open| > 0
    decreases |s| - from
    ensures r.Some? ==> from <= r.value.start && IsLazySpan(s, open, close, minLen, r.value.start, r.value.end)
    ensures r.Some? ==> NoSpanBetween(s, open, close, minLen, from, r.value.start)
    ensures r.None? ==> NoSpanFrom(s, open, close, minLen, from)
  {
    if from >= |s| then None
    else match SpanAt(s, open, close, minLen, from)
      case Some(e) => Some(Span(from, e))
      case None => NextSpan(s, open, close, minLen, from + 1)
  }

  /** Where the scan resumes before the i-th span: from, or the end of the previous span. */
  function Resume(r: seq<Span>, i: nat, from: nat): nat
    requires i <= |r|
  {
    if i == 0 then from else r[i - 1].end
  }

  /** Every span a global match finds, left to right, scanning from from. */
  function SpansFrom(s: string, open: string, close: string, minLen: nat, from: nat): (r: seq<Span>)
    requires |open| > 0
    decreases |s| - from
    ensures forall sp :: sp in r ==> from <= sp.start && IsLazySpan(s, open, close, minLen, sp.start, sp.end)
    ensures forall i :: 0 < i < |r| ==> r[i - 1].end <= r[i].start
  {
    match NextSpan(s, open, close, minLen, from)
    case None => []
    case Some(sp) =>
      var rest := SpansFrom(s, open, close, minLen, sp.end);
      ConsSpans(s, open, close, minLen, from, sp, rest);
      [sp] + rest
  }

  /** A lazy span followed by lazy spans from its end on: together they keep both properties of SpansFrom. */
  lemma ConsSpans(s: string, open: string, close: string, minLen: nat, from: nat, sp: Span, rest: seq<Span>)
    requires from <= sp.start <= sp.end && IsLazySpan(s, open, close, minLen, sp.start, sp.end)
    requires forall x :: x in rest ==> sp.end <= x.start && IsLazySpan(s, open, close, minLen, x.start, x.end)
    requires forall i :: 0 < i < |rest| ==> rest[i - 1].end <= rest[i].start
    ensures forall x :: x in [sp] + rest ==> from <= x.start && IsLazySpan(s, open, close, minLen, x.start, x.end)
    ensures forall i :: 0 < i < |[sp] + rest| ==> ([sp] + rest)[i - 1].end <= ([sp] + rest)[i].start
  {
    var r := [sp] + rest;
    assert forall i :: 1 <= i < |r| ==> r[i] == rest[i - 1];
  }

  /**
   * The spans are the leftmost ones: none starts between where the scan resumed and
   * where the next span starts, and none starts after the last one.
   */
  lemma {:induction false} SpansAreLeftmost(s: string, open: string, close: string, minLen: nat, from: nat)
    requires |open| > 0
    decreases |s| - from
    ensures var r := SpansFrom(s, open, close, minLen, from);
      && (forall i :: 0 <= i < |r| ==> NoSpanBetween(s, open, close, minLen, Resume(r, i, from), r[i].start))
      && NoSpanFrom(s, open, close, minLen, Resume(r, |r|, from))
  {
    var r := SpansFrom(s, open, close, minLen, from);
    match NextSpan(s, open, close, minLen, from)
    case None =>
    case Some(sp) =>
      var rest := SpansFrom(s, open, close, minLen, sp.end);
      SpansAreLeftmost(s, open, close, minLen, sp.end);
      assert r == [sp] + rest;
      assert forall i :: 0 <= i < |r| ==> NoSpanBetween(s, open, close, minLen, Resume(r, i, from), r[i].start) by {
        forall i | 0 <= i < |r|
          ensures NoSpanBetween(s, open, close, minLen, Resume(r, i, from), r[i].start)
        {
          if i > 0 {
            assert r[i] == rest[i - 1] && Resume(r, i, from) == Resume(rest, i - 1, sp.end);
          }
        }
      }
      assert NoSpanFrom(s, open, close, minLen, Resume(r, |r|, from)) by {
        assert Resume(r, |r|, from) == Resume(rest, |rest|, sp.end);
      }
  }

  /** `replace(/open.*?close/g, "")` on s[from..]: the text between the spans. */
  function StripFrom(s: string, open: string, close: string, from: nat): string
    requires |open| > 0
    requires from <= |s|
    decreases |s| - from
  {
    match NextSpan(s, open, close, 0, from)
    case None => s[from..]
    case Some(sp) => s[from..sp.start] + StripFrom(s, open, close, sp.end)
  }

  /** `replace(/open.*?close/g, "")`. */
  function Strip(s: string, open: string, close: string): string
    requires |open| > 0
  {
    StripFrom(s, open, close, 0)
  }

  /** Text without spans is left as it is. */
  lemma StripWithoutSpans(s: string, open: string, close: string)
    requires |open| > 0
    requires NoSpanFrom(s, open, close, 0, 0)
    ensures Strip(s, open, close) == s
  {
  }

  /** A span of y is a span of x + y, shifted by |x|. */
  lemma ShiftSpan(x: string, y: string, open: string, close: string, minLen: nat, q: nat, e: nat)
    ensures IsSpan(x + y, open, close, minLen, |x| + q, |x| + e) <==> IsSpan(y, open, close, minLen, q, e)
  {
    var t := x + y;
    if q <= e <= |y| {
      assert forall i :: 0 <= i < |y| ==> t[|x| + i] == y[i];
      if q + |open| <= |y| {
        assert t[|x| + q..|x| + q + |open|] == y[q..q + |open|];
      }
      if |close| <= e {
        assert t[|x| + e - |close|..|x| + e] == y[e - |close|..e];
      }
    }
  }

  /** A span of s[from..] is a span of s, shifted by from. */
  lemma SuffixSpan(s: string, from: nat, open: string, close: string, minLen: nat, q: nat, e: nat)
    requires from <= |s|
    ensures IsSpan(s[from..], open, close, minLen, q, e) ==> IsSpan(s, open, close, minLen, from + q, from + e)
  {
    assert s == s[..from] + s[from..];
    ShiftSpan(s[..from], s[from..], open, close, minLen, q, e);
  }

  /** Delimiters made of one character twice that is not a line terminator, as `[[`, `]]`, `<<`, `>>` are. */
  predicate Doubled(d: string) {
    |d| == 2 && d[0] == d[1] && !IsLineTerminator(d[0])
  }

  /**
   * The key step of stripping: if the leftmost span from `from` is s[p..e], a span of
   * s[from..p] + t that starts inside s[from..p] is already a span of s that starts in
   * [from, p) — which the leftmost choice rules out.
   */
  lemma GapSpanLifts(s: string, open: string, close: string, from: nat, p: nat, e: nat, t: string, q: nat, e': nat)
    requires Doubled(open) && Doubled(close)
    requires from <= p && IsSpan(s, open, close, 0, p, e)
    requires q < p - from
    ensures IsSpan(s[from..p] + t, open, close, 0, q, e') ==>
      || (q + 1 == p - from && IsSpan(s, open, close, 0, p - 1, e))
      || (e' <= p - from && IsSpan(s, open, close, 0, from + q, from + e'))
      || (q + 1 < p - from && IsSpan(s, open, close, 0, from + q, e))
  {
    if IsSpan(s[from..p] + t, open, close, 0, q, e') {
      if q + 1 == p - from {
        GapSpanAtBoundary(s, open, close, from, p, e, t, q, e');
      } else if e' <= p - from {
        GapSpanInside(s, open, close, from, p, t, q, e');
      } else {
        GapSpanAcross(s, open, close, from, p, e, t, q, e');
      }
    }
  }

  /** A span opening at the last character of the gap: that character and the span's own first one open a span of s at p - 1. */
  lemma GapSpanAtBoundary(s: string, open: string, close: string, from: nat, p: nat, e: nat, t: string, q: nat, e': nat)
    requires Doubled(open) && Doubled(close)
    requires from <= p && IsSpan(s, open, close, 0, p, e)
    requires q + 1 == p - from && IsSpan(s[from..p] + t, open, close, 0, q, e')
    ensures IsSpan(s, open, close, 0, p - 1, e)
  {
    var g := s[from..p];
    var u := g + t;
    assert s[p - 1] == g[q] == u[q] == open[0];
    assert s[p] == open[0];
    assert s[p - 1..p + 1] == open;
    assert Clear(s, p + 1, e - 2) by {
      assert s[p + 1] == open[1];
    }
  }

  /** A span lying wholly inside the gap is a span of s. */
  lemma GapSpanInside(s: string, open: string, close: string, from: nat, p: nat, t: string, q: nat, e': nat)
    requires from <= p <= |s|
    requires e' <= p - from && IsSpan(s[from..p] + t, open, close, 0, q, e')
    ensures IsSpan(s, open, close, 0, from + q, from + e')
  {
    var g := s[from..p];
    var u := g + t;
    assert forall i :: 0 <= i < |g| ==> u[i] == s[from + i];
    assert Clear(s, from + q + |open|, from + e' - |close|) by {
      forall i | from + q + |open| <= i < from + e' - |close| ensures !IsLineTerminator(s[i]) {
        assert s[i] == u[i - from];
      }
    }
    assert s[from + q..from + q + |open|] == u[q..q + |open|];
    assert s[from + e' - |close|..from + e'] == u[e' - |close|..e'];
  }

  /** A span opening inside the gap and closing past it: its opening and gap part run on into the span at p, giving a span of s that ends at e. */
  lemma GapSpanAcross(s: string, open: string, close: string, from: nat, p: nat, e: nat, t: string, q: nat, e': nat)
    requires Doubled(open) && Doubled(close)
    requires from <= p && IsSpan(s, open, close, 0, p, e)
    requires q + 1 < p - from < e' && IsSpan(s[from..p] + t, open, close, 0, q, e')
    ensures IsSpan(s, open, close, 0, from + q, e)
  {
    var g := s[from..p];
    var u := g + t;
    assert forall i :: 0 <= i < |g| ==> u[i] == s[from + i];
    assert s[from + q..from + q + 2] == u[q..q + 2];
    assert Clear(s, from + q + 2, p) by {
      forall i | from + q + 2 <= i < p ensures !IsLineTerminator(s[i]) {
        assert s[i] == u[i - from];
        if i - from == e' - 2 {
          assert u[i - from] == close[0];
        }
      }
    }
    assert s[p] == open[0] && s[p + 1] == open[1];
  }

  /** After stripping from `from` on, no span of any interior length is left. */
  lemma {:induction false} StripFromLeavesNoSpan(s: string, open: string, close: string, from: nat)
    requires Doubled(open) && Doubled(close)
    requires from <= |s|
    ensures NoSpanFrom(StripFrom(s, open, close, from), open, close, 0, 0)
    decreases |s| - from
  {
    match NextSpan(s, open, close, 0, from)
    case None =>
      forall q: nat, e: nat ensures !IsSpan(s[from..], open, close, 0, q, e) {
        SuffixSpan(s, from, open, close, 0, q, e);
      }
    case Some(sp) =>
      StripFromLeavesNoSpan(s, open, close, sp.end);
      GapThenStrippedHasNoSpan(s, open, close, from, sp, StripFrom(s, open, close, sp.end));
  }

  /** The text before the leftmost span, followed by span-free text, has no span. */
  lemma GapThenStrippedHasNoSpan(s: string, open: string, close: string, from: nat, sp: Span, t: string)
    requires Doubled(open) && Doubled(close)
    requires from <= sp.start && IsSpan(s, open, close, 0, sp.start, sp.end)
    requires NoSpanBetween(s, open, close, 0, from, sp.start)
    requires NoSpanFrom(t, open, close, 0, 0)
    ensures NoSpanFrom(s[from..sp.start] + t, open, close, 0, 0)
  {
    var g := s[from..sp.start];
    forall q: nat, e': nat ensures !IsSpan(g + t, open, close, 0, q, e') {
      if q < |g| {
        GapSpanLifts(s, open, close, from, sp.start, sp.end, t, q, e');
      } else if e' >= |g| {
        ShiftSpan(g, t, open, close, 0, q - |g|, e' - |g|);
      }
    }
  }

  /**
   * Stripping leaves no span behind: `replace(/open.*?close/g, "")` removes all of them,
   * including any that removing others could have brought together.
   */
  lemma StripLeavesNoSpan(s: string, open: string, close: string, minLen: nat)
    requires Doubled(open) && Doubled(close)
    ensures NoSpanFrom(Strip(s, open, close), open, close, minLen, 0)
  {
    var r := Strip(s, open, close);
    StripFromLeavesNoSpan(s, open, close, 0);
    forall q: nat, e: nat ensures !IsSpan(r, open, close, minLen, q, e) {
      assert IsSpan(r, open, close, minLen, q, e) ==> IsSpan(r, open, close, 0, q, e);
    }
  }
}
