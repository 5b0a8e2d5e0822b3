# Twison converter core, in Dafny

Twison turns a Twine 2 story export into a JSON-ready record. Each `tw-passagedata`
element becomes a passage record, built as follows:

- a `Key: Value` metadata header is read and removed from the top of its text, unless every line is metadata, when the header stays in the text (`Passages.AllHeaderStaysInText`);
- HTML character references in the body are decoded;
- `[[...]]` links are collected, each with an optional `condition |` and an `alias->` target;
- `<<...>>` macros and `[[...]]` links are stripped from the text;
- `{{key}}value{{/key}}` props, which may nest, are collected from what is left.

`convertStory` converts every passage in document order and copies five story
attributes. It then gives every link the pid of the passage its name refers to, or
marks the link broken.

This project models these parts of `src/twison.js`:

- `extractLinksFromText`;
- `extractPropsFromText`;
- `convertPassage`, with its nested `decodeEntities`;
- `convertStory`.

Each regular expression that captures or is searched for is modelled as a scanner
function, with a declarative predicate beside it for what the pattern can match. The
scanner's contract states what a JavaScript backtracking engine would report: the
leftmost match, the lazy (shortest) or greedy (longest) choice, and no match when the
predicate holds nowhere. The three patterns `\r?\n`, `(\r\n|\n|\r)` and
`&(nbsp|amp|quot|lt|gt);` are only used to split or replace; they are modelled directly
as `Text.SplitLines`, `Props.RemoveLineBreaks` and `Entities.Decode`, and their lemmas
state the result exactly.
In every pattern, `.` never matches a JavaScript line terminator (`\n`, `\r`, U+2028,
U+2029). `\s` and `trim` use the full ECMAScript whitespace set.

The source's loops are methods proved equal to specification functions:

- the `exec` loop of `extractPropsFromText`: method `Props.ExtractProps`, proved equal to `Props.Props`;
- the header loop of `convertPassage`: method `Passages.ReadHeader`, proved equal to `Passages.HeaderOf`;
- all of `convertPassage`: method `Passages.ConvertPassage`, proved equal to `Passages.PassageOf`;
- the two passes of `convertStory`: methods `Stories.ConvertAll` and `Stories.AddPids`, called by
  `Stories.ConvertStory`, which is proved equal to `Stories.StoryOf`.

The properties are lemmas about these functions.

Files:

- `text.dfy`: the `Option` type and the JavaScript string operations the converter uses.
- `entities.dfy`: the entity decoder.
- `spans.dfy`: the lazy `open.*?close` scanner shared by link extraction and both strips.
- `links.dfy`: `extractLinksFromText`.
- `props.dfy`: `extractPropsFromText`.
- `metadata.dfy`: the metadata line pattern, the `variable` pattern and the header state machine.
- `passages.dfy`: `convertPassage`.
- `stories.dfy`: `convertStory`.

The DOM is abstracted as plain records:

- a `tw-passagedata` element is its `innerHTML` plus its `name`, `pid` and `tags` attribute strings;
- a `tw-storydata` element is its passage elements plus five attribute strings.

A property the record does not have (JavaScript `undefined`) is `None`. The one exception is a link's `broken`, a `bool` where `false` stands for the absent property; the converter only ever sets it to `true`.

Some general descriptions of the converter say a link's pid is set exactly when a
passage with that name exists. The code, which this model follows, differs in two ways:

- a lookup that finds a passage without a pid still leaves the link broken with no pid;
- a passage without a name is entered under the key `"undefined"`, so a link named `undefined` resolves to it.

## Model

| member | source | states |
|---|---|---|
| Text.SpaceEnd | src/twison.js:128 | the run of `\s` characters starting at i: every character in it is whitespace, and the character after it is not |
| Text.TrimStart | src/twison.js:116 | the result is the suffix that remains after all leading whitespace is dropped; it is empty or starts with a non-whitespace character |
| Text.TrimEnd | src/twison.js:116 | the result is the prefix that remains after all trailing whitespace is dropped; it is empty or ends with a non-whitespace character |
| Text.Trim | src/twison.js:116 | `trim` drops whitespace at both ends: the leading run as `TrimStart` states, then the trailing run as `TrimEnd` states |
| Text.IndexOf | src/twison.js:27 | `indexOf` of a character: None exactly when the character is absent; otherwise the index of its first occurrence |
| Text.FindFrom | src/twison.js:35 | the first occurrence of a pattern at or after an index, or None when there is none |
| Text.LineEnd | src/twison.js:35 | the first line terminator at or after i, or the end of the text; no line terminator lies before it |
| Text.SplitOn | src/twison.js:236 | `split(" ")` gives at least one piece, and no piece holds the separator |
| Text.SplitOnJoin | src/twison.js:236 | joining the pieces with the separator gives back the original string |
| Text.Join | src/twison.js:206 | `join(sep)` puts sep between each two neighbouring pieces; with `SplitOn` it round-trips by `Text.SplitOnJoin` |
| Text.SplitLines | src/twison.js:109 | `split(/\r?\n/)` gives at least one line, and no line holds a line feed |
| Text.SplitLinesJoin | src/twison.js:109 | on text without carriage returns, joining the lines with `"\n"` gives back the text |
| Text.SplitLinesIsSplitOnLineFeed | src/twison.js:109 | for every text, the lines are the pieces between line feeds, one per piece; each piece a line feed closes loses exactly one carriage return at its end if it has one, the last piece is kept whole, and every other carriage return stays |
| Text.ToLowerAscii | src/twison.js:130 | the length is kept, and every character is lower-cased in place |
| Entities.HeadReference | src/twison.js:172-179 | a recognised reference at the head starts with `&` and is 4 to 6 characters long |
| Entities.Decode | src/twison.js:171-183 | decoding never lengthens the text, and text without `&` is left unchanged |
| Entities.DecodeEncode | src/twison.js:171-183 | decoding inverts the escaping of `&`, `<`, `>` and `"` as `&amp;`, `&lt;`, `&gt;`, `&quot;`: `Decode(Encode(s)) == s` for every s |
| Entities.ReferenceChar | src/twison.js:173-179 | the `translate` table: the character each of the five references stands for, `&nbsp;` a plain space; `Entities.DecodeAfterReference` states its result against it |
| Entities.DecodeAfterReference | src/twison.js:172-182 | a leading `&nbsp;`, `&amp;`, `&lt;`, `&gt;` or `&quot;` becomes the character the table maps it to (a plain space for `&nbsp;`), and decoding resumes after the reference |
| Entities.DecodeAfterPlain | src/twison.js:180-182 | a leading character other than `&` is copied, and decoding resumes after it |
| Entities.DecodeKeepsOtherAmpersand | src/twison.js:172 | an `&` that starts none of the five references is copied, and decoding resumes right after it |
| Entities.DecodeIsSinglePass | src/twison.js:180-182 | replacements are not rescanned: `&amp;lt;` decodes to `&lt;` |
| Entities.DecodeNbspIsSpace | src/twison.js:174 | `a&nbsp;b` decodes to `a b`: the reference becomes an ordinary space, not U+00A0, and the text around it is kept |
| Spans.CloseFrom | src/twison.js:16 | the first `close` at or after j with no line terminator before it; None when a line terminator comes before every `close` |
| Spans.SpanAt | src/twison.js:16 | the match attempt at p: a lazy span (no earlier `close` could end it), or None when no span of any length starts at p |
| Spans.NextSpan | src/twison.js:16 | the leftmost lazy span starting at or after `from`, with no span starting in between; None when no span starts at or after `from` |
| Spans.SpansFrom | src/twison.js:16 | every span a global `match` returns is lazy, and the spans come in order without overlapping |
| Spans.SpansAreLeftmost | src/twison.js:16 | no span starts between where the scan resumed and the next span returned, and none starts after the last one |
| Spans.StripFrom | src/twison.js:218-221 | `replace(/open.*?close/g, "")` on the text from `from` on: the text between the leftmost lazy spans `NextSpan` finds, spans removed; what is left is stated by `Spans.StripWithoutSpans` and `Spans.StripLeavesNoSpan` |
| Spans.Strip | src/twison.js:218-221 | `replace(/open.*?close/g, "")` on the whole text, as `Spans.StripFrom` from 0 |
| Spans.StripWithoutSpans | src/twison.js:218 | `replace(/<<.*?>>/g, "")` leaves text without spans unchanged |
| Spans.StripLeavesNoSpan | src/twison.js:218-221 | after `replace(/open.*?close/g, "")`, no span is left, including spans that removing others could have joined |
| Links.ArrowTarget | src/twison.js:35-38 | None exactly when there is no `->`; otherwise the text after the first `->` up to the line's end (group 2 of `(.*?)\->(.*)`) |
| Links.NameOf | src/twison.js:35-42 | the link name: the trimmed group 2 of `(.*?)\->(.*)` when the content has `->`, else the whole content trimmed; stated by `Links.NameWithoutArrow` and `Links.NameAfterFirstArrow` |
| Links.NameWithoutArrow | src/twison.js:39-41 | without `->`, the name is the whole working content, trimmed |
| Links.NameAfterFirstArrow | src/twison.js:35-38 | with a first `->` at j in one-line content, the name is the trimmed text after it |
| Links.LinkOf | src/twison.js:22-43 | a condition is present exactly when the content has a `\|`; without one the name comes from the whole content; pid and broken are unset |
| Links.LinkWithCondition | src/twison.js:27-31 | with the first `\|` at i, the condition is the trimmed text before it, and the name comes from the trimmed text after it |
| Links.Interior | src/twison.js:23 | `link.substring(2, link.length - 2)`: the span without its `[[` and `]]`; one line by `Links.LinkInteriorIsOneLine` |
| Links.LinkSpans | src/twison.js:16 | the spans `text.match(/\[\[.+?\]\]/g)` returns: `Spans.SpansFrom` with `[[`, `]]` and at least one interior character, from 0 |
| Links.ExtractLinks | src/twison.js:15-45 | None exactly when there is no `[[.+?]]` span; otherwise one link per span in left-to-right order, each built from that span's interior |
| Links.NoLinksIffNoSpan | src/twison.js:16-19 | null exactly when no `[[`, then one or more non-line-terminator characters, then `]]` occurs anywhere |
| Links.LinkInteriorIsOneLine | src/twison.js:16-23 | the interior of every extracted span is free of line terminators |
| Links.NoLinksAfterStrip | src/twison.js:212-221 | text whose `[[.*?]]` spans have been stripped yields no links |
| Links.EmptyBracketsStrippedButNotALink | src/twison.js:212-221 | `[[]]` yields no link, but stripping removes it |
| Props.ValueSearch | src/twison.js:64 | the shortest value of at least v characters that closes a key of length k, or None when there is none |
| Props.KeySearch | src/twison.js:64 | the lexicographically least (key length, value length) from k upwards: the shortest key that admits a value, then the shortest value for it |
| Props.PropMatchAt | src/twison.js:64 | the match at p is the least one there, or None when the pattern does not match at p |
| Props.NextProp | src/twison.js:64-66 | one `exec`: the leftmost match at or after lastIndex, with no match starting before it; None when there is none from lastIndex on |
| Props.PropMatches | src/twison.js:64-66 | every match the `exec` loop reports is the least match at its start, found at or after the loop's start, and the matches come in order without overlapping |
| Props.PropMatchesAreLeftmost | src/twison.js:64-66 | the loop misses no match: none starts between where `exec` resumed and the next match reported, and none starts after the last one |
| Props.RemoveLineBreaks | src/twison.js:72 | no `\r` or `\n` is left, every other character of the input is still present, and text without line breaks is returned unchanged |
| Props.RemoveLineBreaksConcat | src/twison.js:72 | the removal works piece by piece: removing from x + y is removing from x followed by removing from y, so the kept characters keep their order |
| Props.RemoveLineBreaksChar | src/twison.js:72 | on one character, `\r` and `\n` are dropped and every other character is kept; with `Props.RemoveLineBreaksConcat` this fixes the result for every text |
| Props.ExtractProps | src/twison.js:60-92 | the `exec` loop, with its `props` dictionary, its `matchFound` flag and its recursive call on each value, returns exactly `Props(text)` |
| Props.Props | src/twison.js:60-92 | the value `extractPropsFromText` returns: null when the loop finds no match, else the dictionary `Collect` builds from all its matches; its meaning is stated by `Props.NoPropsIffNoMatch`, `Props.LastMatchWins` and `Props.PropsHaveNoBreaks` |
| Props.Collect | src/twison.js:66-85 | the dictionary after storing the matches in order, each at its key; stated by `Props.CollectStoresEveryKey`, `Props.CollectKeysFromMatches` and `Props.CollectLastWins` |
| Props.ValueOf | src/twison.js:72-82 | what is stored for a raw value: the nested props of the line-break-free value when it has any, else that string; stated by `Props.StoredValueMeaning` |
| Props.ExecStep | src/twison.js:66-85 | one successful `exec` moves lastIndex forward, and the remaining matches follow this one |
| Props.ExtractStep | src/twison.js:66-84 | one turn of the loop: the match `exec` finds follows the matches already stored, and storing the recursive call's result (nested map when non-null, else the line-break-free string) extends the dictionary by exactly that match |
| Props.CollectSnoc | src/twison.js:78-82 | storing one more match updates the dictionary at that match's key only |
| Props.NoPropsIffNoMatch | src/twison.js:87-89 | null exactly when `{{K}}V{{/K}}` matches nowhere |
| Props.CollectStoresEveryKey | src/twison.js:68-82 | the key of every match is present in the dictionary |
| Props.CollectKeysFromMatches | src/twison.js:68-82 | every key in the dictionary is the key of some match |
| Props.CollectLastWins | src/twison.js:78-82 | a key holds what its last match produced: later matches overwrite earlier ones |
| Props.LastMatchWins | src/twison.js:66-91 | for the text's own matches, the result is non-null, and each key maps to the value of its last match |
| Props.StoredValue | src/twison.js:76-82 | what the loop stores for a raw value is the nested map when the recursive call is non-null, and the line-break-free string otherwise |
| Props.StoredValueMeaning | src/twison.js:76-82 | a string value is stored only when it holds no match of its own; otherwise its nested props are stored |
| Props.PropsHaveNoBreaks | src/twison.js:72-82 | no string anywhere in the result, at any nesting depth, holds `\r` or `\n` |
| Props.CollectHasNoBreaks | src/twison.js:72-82 | every value in the dictionary built from the matches is free of line breaks |
| Props.ValueHasNoBreaks | src/twison.js:72-82 | a stored value, string or nested, is free of line breaks |
| Props.SingleMatch | src/twison.js:66-91 | a text with exactly one match yields a dictionary holding only that match's key |
| Props.SimpleProp | src/twison.js:50 | `{{foo}}bar{{/foo}}` yields `{"foo": "bar"}` |
| Props.SimpleMatches | src/twison.js:64 | the only match in `{{foo}}bar{{/foo}}` is the whole text |
| Props.PlainValue | src/twison.js:76-81 | `bar` has no props, so it is stored as a string |
| Props.ShortValueIsString | src/twison.js:72-81 | a value shorter than the shortest possible match, and without line breaks, is stored as the string it is |
| Props.KeyMayContainBraces | src/twison.js:64 | the lazy key can run past a `}}`: `{{}}b}}v{{/}}b}}` yields `{"}}b": "v"}` |
| Props.BracesMatches | src/twison.js:64 | the only match in `{{}}b}}v{{/}}b}}` has a three-character key and a one-character value |
| Metadata.MetaMatch | src/twison.js:128 | a match of `^([A-Za-z0-9_ ]+):\s*(.*)$` over the whole line: the key ends at the first colon, and `\s*` takes all the whitespace; None exactly when the pattern cannot match |
| Metadata.MetaLine | src/twison.js:128-131 | groups 1 and 2 of the metadata pattern, or None when the line does not match; stated by `Metadata.MetaLineMeaning` |
| Metadata.MetaLineMeaning | src/twison.js:128-131 | a line is metadata exactly when the pattern matches; the key is the non-empty key-character text before the first colon; the value is the rest after the colon with leading whitespace removed, on one line |
| Metadata.MetaKey | src/twison.js:128-130 | the key is non-empty, made of key characters, and ends at the first colon |
| Metadata.MetaValue | src/twison.js:128-131 | the value is the text after the colon with leading whitespace removed |
| Metadata.MetaValueOneLine | src/twison.js:128-131 | the value holds no line terminator |
| Metadata.NameEnd | src/twison.js:137 | the end of the run of `[^=\s]` characters starting at i |
| Metadata.LastStart | src/twison.js:137 | the last index in (q, w] at which `.+` can start, or None when there is none |
| Metadata.VariableAt | src/twison.js:137 | the match of `([^=\s]+)\s+(.+)` at p: group 1 takes the whole name run, `\s+` is greedy and gives back only the one character `.+` needs, and `.+` runs to the line's end; None when nothing matches at p |
| Metadata.VariableFrom | src/twison.js:137 | the leftmost such match, with no match starting earlier; None when nothing matches |
| Metadata.MatchVariable | src/twison.js:137-139 | groups 1 and 2 of the leftmost match of `([^=\s]+)\s+(.+)` in a `variable` value, or None; stated by `Metadata.MatchVariableMeaning` and `Metadata.VariableKeepsOperator` |
| Metadata.MatchVariableMeaning | src/twison.js:137-138 | a `variable` value parses exactly when the pattern matches somewhere in it |
| Metadata.VariableKeepsOperator | src/twison.js:134-139 | `health - 10` defines `health` as `- 10`, keeping the operator |
| Metadata.Kind | src/twison.js:116-131 | how the loop reads a trimmed line: blank when empty, an entry with its key lower-cased when the metadata pattern matches, other text otherwise |
| Metadata.Apply | src/twison.js:133-146 | storing an entry sets the found flag and keeps the body start |
| Metadata.SkipBlank | src/twison.js:117-124 | blank lines before any metadata are skipped |
| Metadata.ReadMeta | src/twison.js:129-146 | a run of metadata lines is stored in order |
| Metadata.ApplyAllFound | src/twison.js:146 | after a run of entries, metadata has been found exactly when the run is non-empty, and the body start is kept |
| Metadata.Scan | src/twison.js:115-152 | the header loop as a recursion over the line kinds; its result is given in closed form by `Metadata.Header` and `Metadata.HeaderOfAnyLines` |
| Metadata.ApplyAll | src/twison.js:129-146 | the state after storing a run of entries in order; what it stores is stated by the Untouched and LastWins lemmas |
| Metadata.Header | src/twison.js:112-152 | with f the first non-blank line and g the first line from f on that is not metadata, the body starts after g when g is blank, at g when g is other text, and at 0 when every line from f on is metadata; what is stored is the entries f..g |
| Metadata.FirstNonBlank | src/twison.js:117-124 | the first non-blank line at or after i |
| Metadata.MetaRunEnd | src/twison.js:129-151 | the end of the run of metadata lines starting at i |
| Metadata.HeaderOfAnyLines | src/twison.js:112-152 | for any lines, the header state is the run of entries after the leading blank lines, together with the body start that `Metadata.Header` gives |
| Metadata.MetadataUntouched | src/twison.js:143-145 | a key that no entry uses keeps its metadata unchanged |
| Metadata.MetadataLastWins | src/twison.js:143-145 | an ordinary key holds the value of its last entry |
| Metadata.ReservedNotMetadata | src/twison.js:133-145 | `variable` and `type` never become metadata keys |
| Metadata.TypeUntouched | src/twison.js:141-142 | without a `type` entry, the passage type is unchanged |
| Metadata.TypeLastWins | src/twison.js:141-142 | the passage type is the value of the last `type` entry |
| Metadata.VariableUntouched | src/twison.js:133-140 | a variable that no entry defines keeps its value |
| Metadata.VariableLastWins | src/twison.js:133-140 | a variable holds the expression of the last `variable` entry that defines it |
| Passages.Attribute | src/twison.js:228-233 | an attribute is copied exactly when it is non-empty |
| Passages.NonEmpty | src/twison.js:154-159 | a dictionary is attached exactly when it has a key |
| Passages.HeaderOf | src/twison.js:112-152 | the body start the header loop computes is never past the last line |
| Passages.ScanStartBound | src/twison.js:115-152 | the loop never sets the body start past the last line |
| Passages.ReadHeader | src/twison.js:109-159 | the `for` loop with `continue` and `break` computes exactly the header state `HeaderOf` describes |
| Passages.ConvertPassage | src/twison.js:104-240 | the effective flow of `convertPassage` (header loop, text pipeline, attributes) returns exactly `PassageOf(e)` |
| Passages.PassageOf | src/twison.js:104-240 | the record `convertPassage` returns: the final text, the header's type, metadata and variables, the links of the body, the props of the final text and the three attributes; stated by the Passages lemmas |
| Passages.Body | src/twison.js:205-209 | the lines from the body start on, joined with line feeds and decoded; the lemmas NoHeaderKeepsText, AllHeaderStaysInText, LeadingBlanksDropped and BlankLineEndsHeader say where it starts |
| Passages.FinalText | src/twison.js:217-221 | the body with `<<...>>` spans removed, then `[[...]]` spans removed; no link span is left by `Passages.FinalTextHasNoLinks` |
| Passages.AttributesOfPassage | src/twison.js:154-237 | empty attributes and empty dictionaries are never attached; tags are present exactly when the attribute is non-empty, and joining them with spaces gives the attribute back |
| Passages.FinalTextHasNoLinks | src/twison.js:218-221 | the final text holds no link span |
| Passages.LinksAndPropsAttached | src/twison.js:206-226 | links are present exactly when the decoded body has a link span; props are present exactly when the final text has a prop match |
| Passages.MetadataNeverReserved | src/twison.js:133-155 | the passage metadata never has the key `variable` or `type` |
| Passages.NoHeaderKeepsText | src/twison.js:147-209 | when the first line is neither blank nor metadata, the body is all the lines joined and decoded, which is the whole decoded HTML when it has no carriage return |
| Passages.NoHeaderNoMetadata | src/twison.js:147-159 | when the first line is neither blank nor metadata, there is no metadata, no variables and no type, for any HTML |
| Passages.AllHeaderStaysInText | src/twison.js:112-152 | when every line is metadata, the body start stays 0, so the header lines stay in the body: all the lines joined and decoded, the whole decoded HTML when it has no carriage return |
| Passages.AllHeaderStored | src/twison.js:112-156 | when every line is metadata, the passage metadata is what all the lines stored, for any HTML |
| Passages.LeadingBlanksDropped | src/twison.js:117-149 | blank lines before a first non-metadata line are dropped from the body |
| Passages.BlankLineEndsHeader | src/twison.js:117-156 | after metadata lines, a blank line ends the header, and the body starts after it; the metadata is what those lines stored |
| Stories.MapAt | src/twison.js:253 | the j-th converted passage is the conversion of the j-th element |
| Stories.ConvertAll | src/twison.js:252-253 | every passage element is converted, in document order |
| Stories.AddPids | src/twison.js:266-280 | the two `forEach` passes (build `pidsByName`, then update every link of every passage with links) give exactly `Resolved(converted)` |
| Stories.ConvertStory | src/twison.js:251-283 | `convertStory` returns exactly `StoryOf(e)`: the converted passages with links resolved, and the five attributes copied when non-empty |
| Stories.StoryOf | src/twison.js:251-283 | the record `convertStory` returns: the converted passages with links resolved and the five attributes when non-empty; stated by the Stories lemmas |
| Stories.Converted | src/twison.js:252-253 | every passage element converted by `convertPassage`, in document order; stated by `Stories.MapAt` and `Stories.ConvertedPassages` |
| Stories.NameKey | src/twison.js:269 | the property key a passage name becomes: a missing name becomes `"undefined"` |
| Stories.PidTable | src/twison.js:267-270 | `pidsByName` after entering every passage in order; stated by `Stories.PidTableKeys` and `Stories.PidTableLastWins` |
| Stories.Resolve | src/twison.js:275-278 | a link with the pid looked up by its name, marked broken when that pid is missing or empty |
| Stories.ResolveLinks | src/twison.js:273-279 | every link of a passage resolved in place; a passage without links is left alone |
| Stories.Resolved | src/twison.js:266-280 | the passages with every link resolved against the table built from them; stated by `Stories.PassagesInOrder`, `Stories.LinksKeepOrder` and `Stories.LinkGetsPidOfLastNamedPassage` |
| Stories.PidTableKeys | src/twison.js:267-270 | a name is a key of `pidsByName` exactly when some passage has that name, a missing name counting as `"undefined"` |
| Stories.PidTableLastWins | src/twison.js:268-270 | for a name, the table holds the pid of the last passage with that name |
| Stories.PassagesInOrder | src/twison.js:272-280 | resolving keeps the number and order of the passages and changes nothing but their links; passages without links stay without |
| Stories.LinksKeepOrder | src/twison.js:274-279 | resolving keeps every link in place, with its name and condition |
| Stories.LinkGetsPidOfLastNamedPassage | src/twison.js:269-278 | a link gets the pid of the last passage with its name; with no empty pids, it is broken exactly when that pid is missing or it was already broken |
| Stories.LinkToMissingPassageIsBroken | src/twison.js:275-278 | a link whose name no passage has gets no pid and is broken |
| Stories.ConvertedPassages | src/twison.js:228-233 | converted passages never have an empty pid, and their links start without a pid and unbroken |
| Stories.StoryLinkGetsPid | src/twison.js:251-280 | in a converted story, a link named after passage j, and after no later passage, carries passage j's pid, and it is broken exactly when that pid is missing |
| Stories.StoryLinkToMissingPassage | src/twison.js:251-280 | in a converted story, a link whose name no passage has gets no pid and is broken |

## Left out

- `convert` (src/twison.js:288-312) is left out: the DOM lookup, `JSON.stringify` and the download button are I/O and user interface.
- `window.Twison = Twison` (src/twison.js:315) is global registration and is left out.
- test/test.js is a harness around fixture files that are not part of this model. It has no logic of its own.
- The DOM calls `getElementsByTagName` and `attributes[attr].value` are replaced by input records. The `TypeError` a missing attribute raises is not modelled: every attribute is a string, possibly empty.
- Dead computations are left out, because their results are overwritten and they have no effect: the first text reconstruction and both first strips (src/twison.js:162-168), the first decode (186) and the first link extraction (188). The model follows the effective flow at 205-237.
- JavaScript object quirks other than the `"undefined"` key are not modelled. A name such as `__proto__` or `constructor` behaves like a plain map key here. In JavaScript it would touch `Object.prototype` and could give a link a truthy pid.
- JSON key order is not modelled: dictionaries are Dafny maps, and a passage is a record with fixed fields.
- Text.ToLowerAscii lower-cases only `A`-`Z`. This is exact here, because the metadata pattern allows only ASCII letters, digits, `_` and space in a key.
- Links are values. `convertStory` mutates each link object in place, and the model instead rebuilds the link sequence and writes the passage back into a local sequence. No link object is shared between passages, so no aliasing is lost.
- Passages.ReadHeader, Stories.ConvertAll and Stories.AddPids are separate methods that `convertPassage` and `convertStory` call, rather than loops inline in one body. Their statements are the source's own, in order.
- Links.NameAfterFirstArrow assumes content without line terminators, as every link interior is (`Links.LinkInteriorIsOneLine`). For other content, the name is the text up to the first line terminator after the arrow, as `Links.ArrowTarget` states.
- A general regular-expression engine is not modelled. Of the ten patterns, the three lazy `open.*?close` patterns share the scanner in `spans.dfy`, four others have a scanner each, and the three used only to split or replace are functions of their own.
