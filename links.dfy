/**
 * `extractLinksFromText`: every `[[...]]` span with at least one interior character
 * becomes a link record, split first on `|` (condition) and then on `->` (alias).
 */
module Links {
  import opened Wrappers
  import opened Text
  import opened Spans

  /**
   * A link: the target passage `name`, the optional `condition`, and the `pid` and
   * `broken` fields the story converter fills in (`broken` false stands for absent).
   */
  datatype Link = Link(name: string, condition: Option<string>, pid: Option<string>, broken: bool)

  /** The first occurrence of `->` in c is at j. */
  predicate FirstArrowAt(c: string, j: nat) {
    Contains(c, j, "->") && forall j' :: 0 <= j' < j ==> !Contains(c, j', "->")
  }

  /**
   * Group 2 of `c.match(/(.*?)\->(.*)/)`: the text after the first `->` up to the next
   * line terminator, or None when c has no `->`.
   */
  function ArrowTarget(c: string): (r: Option<string>)
    ensures r.None? <==> forall j :: !Contains(c, j, "->")
    ensures forall j: nat :: FirstArrowAt(c, j) ==> r == Some(c[j + 2..LineEnd(c, j + 2)])
  {
    match FindFrom(c, "->", 0)
    case None => None
    case Some(j) => Some(c[j + 2..LineEnd(c, j + 2)])
  }

  /** The link name taken from working content c: the trimmed alias target if there is one, else all of c trimmed. */
  function NameOf(c: string): string {
    match ArrowTarget(c)
    case None => Trim(c)
    case Some(target) => Trim(target)
  }

  /** Without `->`, the name is the whole working content, trimmed. */
  lemma NameWithoutArrow(c: string)
    requires forall j :: !Contains(c, j, "->")
    ensures NameOf(c) == Trim(c)
  {
  }

  /** With `->`, and no line terminator (as in every link span), the name is the trimmed text after the first `->`. */
  lemma NameAfterFirstArrow(c: string, j: nat)
    requires FirstArrowAt(c, j) && Clear(c, 0, |c|)
    ensures NameOf(c) == Trim(c[j + 2..])
  {
    FirstArrowFound(c, j);
    var e := LineEnd(c, j + 2);
    assert e == |c|;
    assert ArrowTarget(c) == Some(c[j + 2..e]);
    assert c[j + 2..e] == c[j + 2..];
  }

  /** The search from the start finds the first `->`. */
  lemma FirstArrowFound(c: string, j: nat)
    requires FirstArrowAt(c, j)
    ensures FindFrom(c, "->", 0) == Some(j)
  {
    var r := FindFrom(c, "->", 0);
    assert r.Some?;
    assert !(r.value < j);
    assert !(j < r.value);
  }

  /**
   * The link record built from a span's interior: a `|` makes the trimmed text before
   * the first `|` the condition and the trimmed text after it the working content;
   * without `|` there is no condition and the interior is the working content.
   */
  function LinkOf(content: string): (l: Link)
    ensures l.pid.None? && !l.broken
    ensures l.condition.Some? <==> '|' in content
    ensures '|' !in content ==> l.name == NameOf(content)
  {
    match IndexOf(content, '|')
    case None => Link(NameOf(content), None, None, false)
    case Some(i) =>
      Link(NameOf(Trim(content[i + 1..])), Some(Trim(content[..i])), None, false)
  }

  /** With a `|` first at i, the condition is the trimmed text before it and the name comes from the trimmed text after it. */
  lemma LinkWithCondition(content: string, i: nat)
    requires i < |content| && content[i] == '|' && forall m :: 0 <= m < i ==> content[m] != '|'
    ensures LinkOf(content).condition == Some(Trim(content[..i]))
    ensures LinkOf(content).name == NameOf(Trim(content[i + 1..]))
  {
    var r := IndexOf(content, '|');
    assert r.Some?;
    assert !(r.value < i);
    assert !(i < r.value);
  }

  /** The interior of a span, delimiters removed (`link.substring(2, link.length - 2)`). */
  function Interior(s: string, sp: Span): string
    requires sp.start + 2 <= sp.end - 2 && sp.end <= |s|
  {
    s[sp.start + 2..sp.end - 2]
  }

  /** The spans `text.match(/\[\[.+?\]\]/g)` finds. */
  function LinkSpans(text: string): seq<Span> {
    SpansFrom(text, "[[", "]]", 1, 0)
  }

  /**
   * `extractLinksFromText`: None exactly when text has no `[[`, one or more characters
   * other than line terminators, `]]`; otherwise one link per leftmost lazy span, in order.
   */
  function ExtractLinks(text: string): (r: Option<seq<Link>>)
    ensures r.None? <==> LinkSpans(text) == []
    ensures r.Some? ==> |r.value| == |LinkSpans(text)|
    ensures r.Some? ==> forall i :: 0 <= i < |r.value| ==> r.value[i] == LinkOf(Interior(text, LinkSpans(text)[i]))
  {
    var sp := LinkSpans(text);
    if sp == [] then None
    else
      assert sp[0] in sp;
      Some(seq(|sp|, i requires 0 <= i < |sp| => SpanBounds(text, sp, i); LinkOf(Interior(text, sp[i]))))
  }

  /**
   * `extractLinksFromText` returns null exactly when the text has no `[[`, one or more
   * characters other than line terminators, `]]`.
   */
  lemma NoLinksIffNoSpan(text: string)
    ensures ExtractLinks(text).None? <==> NoSpanFrom(text, "[[", "]]", 1, 0)
  {
    var sp := LinkSpans(text);
    SpansAreLeftmost(text, "[[", "]]", 1, 0);
    if sp != [] {
      assert sp[0] in sp;
    }
  }

  /** An extracted span is long enough to have an interior. */
  lemma SpanBounds(text: string, sp: seq<Span>, i: nat)
    requires sp == LinkSpans(text) && i < |sp|
    ensures sp[i].start + 2 <= sp[i].end - 2 && sp[i].end <= |text|
  {
    assert sp[i] in sp;
  }

  /** The interior of every extracted link span is free of line terminators. */
  lemma LinkInteriorIsOneLine(text: string, i: nat)
    requires i < |LinkSpans(text)|
    ensures var sp := LinkSpans(text)[i]; Clear(Interior(text, sp), 0, |Interior(text, sp)|)
  {
    var sp := LinkSpans(text)[i];
    assert sp in LinkSpans(text);
    var c := Interior(text, sp);
    forall k | 0 <= k < |c| ensures !IsLineTerminator(c[k]) {
      assert c[k] == text[sp.start + 2 + k];
    }
  }

  /** Text whose `[[...]]` spans have been stripped yields no links. */
  lemma NoLinksAfterStrip(text: string)
    ensures ExtractLinks(Strip(text, "[[", "]]")) == None
  {
    StripLeavesNoSpan(text, "[[", "]]", 1);
    NoLinksIffNoSpan(Strip(text, "[[", "]]"));
  }

  /** `[[]]` is stripped from the text but yields no link: stripping accepts an empty interior, extraction does not. */
  lemma EmptyBracketsStrippedButNotALink()
    ensures ExtractLinks("[[]]") == None
    ensures Strip("[[]]", "[[", "]]") == ""
  {
    var s := "[[]]";
    assert SpanAt(s, "[[", "]]", 0, 0) == Some(4);
    assert s[0..0] == [] && s[4..] == [];
    assert NextSpan(s, "[[", "]]", 0, 4) == None;
  }
}
