/**
 * `convertPassage`: one `tw-passagedata` element becomes a passage record. The
 * metadata header is read line by line; the rest of the text is decoded, its links
 * are extracted, `<<...>>` and then `[[...]]` spans are removed, and props are
 * extracted from what is left.
 */
module Passages {
  import opened Wrappers
  import opened Text
  import opened Entities
  import opened Spans
  import opened Links
  import Props
  import opened Metadata

  /** The parts of a `tw-passagedata` element the converter reads: its HTML and three attribute values. */
  datatype PassageElement = PassageElement(innerHTML: string, name: string, pid: string, tags: string)

  /** The passage record; None stands for a property the record does not have. */
  datatype Passage = Passage(
    text: string,
    passageType: Option<string>,
    metadata: Option<map<string, string>>,
    variables: Option<map<string, string>>,
    links: Option<seq<Link>>,
    props: Option<map<string, Props.PropValue>>,
    name: Option<string>,
    pid: Option<string>,
    tags: Option<seq<string>>)

  /** An attribute is copied only when it is non-empty (a truthy string). */
  function Attribute(value: string): (r: Option<string>)
    ensures r.None? <==> value == ""
    ensures r.Some? ==> r.value == value
  {
    if value == "" then None else Some(value)
  }

  /** A dictionary is attached only when it has at least one key. */
  function NonEmpty<V>(m: map<string, V>): (r: Option<map<string, V>>)
    ensures r.None? <==> m == map[]
    ensures r.Some? ==> r.value == m
  {
    if |m| > 0 then Some(m) else None
  }

  /** The header state: what the metadata loop gathers from the lines of the HTML. */
  function HeaderOf(lines: seq<string>): (st: MetaState)
    ensures st.start <= |lines|
  {
    ScanStartBound(Kinds(lines), 0, Init);
    Scan(Kinds(lines), 0, Init)
  }

  /** The body start the loop computes is never past the last line. */
  lemma {:induction false} ScanStartBound(kinds: seq<LineKind>, i: nat, st: MetaState)
    requires st.start <= |kinds|
    ensures Scan(kinds, i, st).start <= |kinds|
    decreases |kinds| - i
  {
    if i < |kinds| {
      match kinds[i]
      case BlankLine =>
        if !st.found {
          ScanStartBound(kinds, i + 1, st);
        }
      case MetaEntry(k, v) =>
        ScanStartBound(kinds, i + 1, Apply(st, k, v));
      case Other =>
    }
  }

  /** The body: the lines from the body start on, joined with line feeds, with character references decoded. */
  function Body(html: string): string {
    var lines := SplitLines(html);
    Decode(Join(lines[HeaderOf(lines).start..], "\n"))
  }

  /** The final text: the body with `<<...>>` spans removed, then `[[...]]` spans removed. */
  function FinalText(body: string): string {
    Strip(Strip(body, "<<", ">>"), "[[", "]]")
  }

  /** The record `convertPassage` returns for an element. */
  function PassageOf(e: PassageElement): Passage {
    var lines := SplitLines(e.innerHTML);
    var st := HeaderOf(lines);
    var body := Body(e.innerHTML);
    var text := FinalText(body);
    Passage(
      text,
      st.passageType,
      NonEmpty(st.metadata),
      NonEmpty(st.variables),
      ExtractLinks(body),
      Props.Props(text),
      Attribute(e.name),
      Attribute(e.pid),
      if e.tags == "" then None else Some(SplitOn(e.tags, ' ')))
  }

  /**
   * The header loop of `convertPassage` over the lines: skip a leading blank line, stop
   * after a blank line once there is metadata, store a metadata line, stop at any other
   * line. The result holds the gathered dictionaries, the passage type, the found flag
   * and the body start.
   */
  method ReadHeader(lines: seq<string>) returns (st: MetaState)
    ensures st == HeaderOf(lines)
  {
    ghost var kinds := Kinds(lines);
    var metadata: map<string, string> := map[];
    var variables: map<string, string> := map[];
    var passageType: Option<string> := None;
    var contentStartIndex: nat := 0;
    var foundMetadata := false;

    var i := 0;
    while i < |lines|
      invariant 0 <= i <= |lines|
      invariant Scan(kinds, 0, Init) == Scan(kinds, i, MetaState(foundMetadata, 0, metadata, variables, passageType))
      invariant contentStartIndex == 0
    {
      ghost var cur := MetaState(foundMetadata, 0, metadata, variables, passageType);
      var line := Trim(lines[i]);
      if line == "" {
        assert kinds[i] == BlankLine;
        if foundMetadata {
          contentStartIndex := i + 1;
          assert Scan(kinds, 0, Init) == cur.(start := i + 1);
          break;
        } else {
          assert Scan(kinds, i, cur) == Scan(kinds, i + 1, cur);
          i := i + 1;
          continue;
        }
      }
      var match_ := MetaLine(line);
      if match_.Some? {
        var key := ToLowerAscii(match_.value.0);
        var value := match_.value.1;
        assert kinds[i] == MetaEntry(key, value);
        if key == "variable" {
          var varMatch := MatchVariable(value);
          if varMatch.Some? {
            variables := variables[varMatch.value.0 := varMatch.value.1];
          }
        } else if key == "type" {
          passageType := Some(value);
        } else {
          metadata := metadata[key := value];
        }
        foundMetadata := true;
        assert MetaState(foundMetadata, 0, metadata, variables, passageType) == Apply(cur, key, value);
        assert Scan(kinds, i, cur) == Scan(kinds, i + 1, Apply(cur, key, value));
      } else {
        assert kinds[i] == Other;
        contentStartIndex := i;
        assert Scan(kinds, 0, Init) == cur.(start := i);
        break;
      }
      i := i + 1;
    }
    st := MetaState(foundMetadata, contentStartIndex, metadata, variables, passageType);
  }

  /**
   * `convertPassage`: the header loop, then the text pipeline (decode, extract links,
   * strip `<<...>>`, strip `[[...]]`, extract props) and the attributes.
   */
  method ConvertPassage(e: PassageElement) returns (r: Passage)
    ensures r == PassageOf(e)
  {
    var lines := SplitLines(e.innerHTML);
    var header := ReadHeader(lines);
    var textWithLinks := Decode(Join(lines[header.start..], "\n"));
    var links := ExtractLinks(textWithLinks);
    var text := Strip(textWithLinks, "<<", ">>");
    text := Strip(text, "[[", "]]");
    var props := Props.ExtractProps(text);
    var tags: Option<seq<string>> := None;
    if e.tags != "" {
      tags := Some(SplitOn(e.tags, ' '));
    }
    r := Passage(text, header.passageType, NonEmpty(header.metadata), NonEmpty(header.variables),
                 links, props, Attribute(e.name), Attribute(e.pid), tags);
  }

  /**
   * Empty attributes and empty dictionaries are left out of the record, and the tag
   * list joined with spaces gives back the `tags` attribute.
   */
  lemma AttributesOfPassage(e: PassageElement)
    ensures var r := PassageOf(e);
      && r.name != Some("") && r.pid != Some("")
      && r.metadata != Some(map[]) && r.variables != Some(map[])
      && (r.tags.None? <==> e.tags == "")
      && (r.tags.Some? ==> Join(r.tags.value, " ") == e.tags)
  {
    SplitOnJoin(e.tags, ' ');
  }

  /** The final text holds no link: every `[[...]]` span was removed. */
  lemma FinalTextHasNoLinks(e: PassageElement)
    ensures ExtractLinks(PassageOf(e).text) == None
  {
    NoLinksAfterStrip(Strip(Body(e.innerHTML), "<<", ">>"));
  }

  /**
   * The record has links exactly when the body has a link span, and props exactly when
   * the final text has a `{{K}}V{{/K}}` match.
   */
  lemma LinksAndPropsAttached(e: PassageElement)
    ensures PassageOf(e).links.None? <==> NoSpanFrom(Body(e.innerHTML), "[[", "]]", 1, 0)
    ensures PassageOf(e).props.None? <==>
      forall p, k, v :: !Props.IsPropMatch(PassageOf(e).text, p, k, v)
  {
    NoLinksIffNoSpan(Body(e.innerHTML));
    Props.NoPropsIffNoMatch(PassageOf(e).text);
  }

  /** The reserved keys `variable` and `type` never appear in the metadata. */
  lemma MetadataNeverReserved(e: PassageElement)
    ensures PassageOf(e).metadata.Some? ==>
      "variable" !in PassageOf(e).metadata.value && "type" !in PassageOf(e).metadata.value
  {
    var kinds := Kinds(SplitLines(e.innerHTML));
    HeaderOfAnyLines(kinds);
    var f := FirstNonBlank(kinds, 0);
    ReservedNotMetadata(kinds, f, MetaRunEnd(kinds, f), Init);
  }

  /**
   * When the first line is neither blank nor metadata, the whole text is the body:
   * nothing is taken out as a header. Without carriage returns the lines join back
   * into the HTML itself.
   */
  lemma NoHeaderKeepsText(e: PassageElement)
    requires Kind(SplitLines(e.innerHTML)[0]) == Other
    ensures Body(e.innerHTML) == Decode(Join(SplitLines(e.innerHTML), "\n"))
    ensures '\r' !in e.innerHTML ==> Body(e.innerHTML) == Decode(e.innerHTML)
  {
    var lines := SplitLines(e.innerHTML);
    assert HeaderOf(lines).start == 0;
    assert lines[0..] == lines;
    if '\r' !in e.innerHTML {
      SplitLinesJoin(e.innerHTML);
    }
  }

  /** When the first line is neither blank nor metadata, there is no metadata, no variables and no type. */
  lemma NoHeaderNoMetadata(e: PassageElement)
    requires Kind(SplitLines(e.innerHTML)[0]) == Other
    ensures PassageOf(e).metadata.None? && PassageOf(e).variables.None? && PassageOf(e).passageType.None?
  {
    assert HeaderOf(SplitLines(e.innerHTML)) == Init.(start := 0);
  }

  /**
   * When every line is metadata the loop never stops early and the body start stays 0,
   * so the header lines stay in the text.
   */
  lemma AllHeaderStaysInText(e: PassageElement)
    requires forall j :: 0 <= j < |SplitLines(e.innerHTML)| ==> Kind(SplitLines(e.innerHTML)[j]).MetaEntry?
    ensures Body(e.innerHTML) == Decode(Join(SplitLines(e.innerHTML), "\n"))
    ensures '\r' !in e.innerHTML ==> Body(e.innerHTML) == Decode(e.innerHTML)
  {
    var lines := SplitLines(e.innerHTML);
    var kinds := Kinds(lines);
    Header(kinds, 0, |kinds|);
    assert lines[0..] == lines;
    if '\r' !in e.innerHTML {
      SplitLinesJoin(e.innerHTML);
    }
  }

  /** When every line is metadata, the passage metadata is what all the lines stored. */
  lemma AllHeaderStored(e: PassageElement)
    requires forall j :: 0 <= j < |SplitLines(e.innerHTML)| ==> Kind(SplitLines(e.innerHTML)[j]).MetaEntry?
    ensures var kinds := Kinds(SplitLines(e.innerHTML));
      PassageOf(e).metadata == NonEmpty(ApplyAll(kinds, 0, |kinds|, Init).metadata)
  {
    var kinds := Kinds(SplitLines(e.innerHTML));
    Header(kinds, 0, |kinds|);
  }

  /**
   * Blank lines before a first line that is not metadata are dropped from the body:
   * the body starts at that line.
   */
  lemma LeadingBlanksDropped(e: PassageElement, b: nat)
    requires b < |SplitLines(e.innerHTML)|
    requires forall j :: 0 <= j < b ==> Kind(SplitLines(e.innerHTML)[j]) == BlankLine
    requires Kind(SplitLines(e.innerHTML)[b]) == Other
    ensures Body(e.innerHTML) == Decode(Join(SplitLines(e.innerHTML)[b..], "\n"))
  {
    var kinds := Kinds(SplitLines(e.innerHTML));
    Header(kinds, b, b);
  }

  /**
   * After metadata lines, a blank line ends the header and the body starts just after
   * it; the metadata is what the header lines stored.
   */
  lemma BlankLineEndsHeader(e: PassageElement, f: nat, g: nat)
    requires var kinds := Kinds(SplitLines(e.innerHTML));
      && f < g < |kinds|
      && (forall j :: 0 <= j < f ==> kinds[j] == BlankLine)
      && AllMeta(kinds, f, g)
      && kinds[g] == BlankLine
    ensures Body(e.innerHTML) == Decode(Join(SplitLines(e.innerHTML)[g + 1..], "\n"))
    ensures PassageOf(e).metadata == NonEmpty(ApplyAll(Kinds(SplitLines(e.innerHTML)), f, g, Init).metadata)
  {
    var kinds := Kinds(SplitLines(e.innerHTML));
    Header(kinds, f, g);
  }
}
