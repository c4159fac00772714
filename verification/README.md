# markdown-kata: inline links to footnotes, in Dafny

The system turns the inline links of a Markdown text into numbered
footnotes. `MarkdownTransformer.create(text).transform()` works in five steps:

1. `findAllLinks` scans for the pattern `\[([^\]]+)\]\(([^\)]+)\)`. It keeps
   the first occurrence of every link, comparing links with
   `MarkdownLink.toEqual`.
2. `generateLinksRecord` puts the i-th unique link under the key
   `[^anchor{i}]`, counting from 1.
3. `replaceLinksByAnchors` replaces every inline form `[text](url)` of each
   link by `text [^anchorN]`. It works key by key, in key order.
4. `generateFootnotes` writes one line `[^anchorN]: url` per key.
5. `appendFootnotesToMarkdown` joins the text and the lines with blank lines
   (`"\n\n"`).

The model is a set of pure functions over strings (`seq<char>`):

| module | file | models |
|---|---|---|
| `MarkdownLink` | `markdown_link.dfy` | the link value: `toEqual`, `toAnchorFormat` |
| `LinkScan` | `link_scan.dfy` | the global regex scan and `uniqueLinks` |
| `LinksRecord` | `links_record.dfy` | `generateLinksRecord`, the spread `{...rec, [key]: v}`, `Object.keys` and indexing |
| `Decimal` | `decimal.dfy` | rendering `index + 1` in decimal |
| `Text` | `text.dfy` | literal `replaceAll` and `Array.prototype.join` |
| `EcmaReplace` | `ecma_replace.dfy` | `replaceAll` with its `$`-patterns, exactly as JavaScript runs it |
| `MarkdownTransformer` | `markdown_transformer.dfy` | the remaining steps and `transform` |
| `Examples` | `examples.dfy` | the cases of the test suite |

A *well-formed* link is one the pattern can produce: its text is non-empty
and holds no `]`, and its url is non-empty and holds no `)`.

How the regex scan is modelled:

- It needs no regex engine. The label class excludes `]` and the url class
  excludes `)`, so at most one match can start at an index holding `[`.
- `MatchAt` finds that match. The scan moves on one index after a failed
  attempt and resumes after the `)` of a match.

How the record is modelled:

- It is an association list in insertion order. This is the order
  `Object.keys` uses, because no anchor key looks like an integer.

How `replaceAll` is modelled:

- The source passes the anchor text as the replacement string, and
  `replaceAll` expands `$&`, `` $` ``, `$'` and `$$` in it (see Findings).
- `Transform` uses the intended literal replacement (`Text.ReplaceAll`).
- `TransformAsWritten` uses the JavaScript replacement (`EcmaReplace.ReplaceAllJs`).
- The two agree on every text whose links hold no `$` in their texts, so in particular on every text without `$`.

## Model

| member | source | states |
|---|---|---|
| MarkdownLink.ToEqual | src/core/MarkdownLink.ts:8-10 | `toEqual` holds exactly when the two links are the same value, i.e. same text and same url |
| MarkdownLink.ToEqualReflexiveSymmetric | src/core/MarkdownLink.ts:8-10 | `toEqual` is reflexive and symmetric |
| MarkdownLink.ToAnchorFormat | src/core/MarkdownLink.ts:12-14 | the inline form is four characters longer than text and url together |
| MarkdownLink.AnchorFormatParts | src/core/MarkdownLink.ts:12-14 | the inline form is `[`, the text, `](`, the url and `)`, each at its fixed position |
| MarkdownLink.AnchorFormatInjective | src/core/MarkdownLink.ts:12-14 | two links the pattern can produce that have the same inline form are `toEqual` |
| MarkdownLink.BracketOnlyAtStart | src/core/MarkdownLink.ts:12-14 | if text and url hold no `[`, the inline form holds `[` only at index 0 |
| LinkScan.FirstFrom | src/core/MarkdownTransformer.ts:19 | the negated classes `[^\]]+` and `[^\)]+` run to the first `]` or `)` at or after the start, or to the end of the text |
| LinkScan.MatchAtSound | src/core/MarkdownTransformer.ts:19-21 | a match captures a link with non-empty text without `]` and non-empty url without `)`, and the matched text is that link's inline form |
| LinkScan.MatchAtComplete | src/core/MarkdownTransformer.ts:19 | wherever the inline form of such a link starts, the pattern matches exactly that link and ends right after its `)` |
| LinkScan.MatchAtIffPattern | src/core/MarkdownTransformer.ts:19 | a match starts at an index if and only if the inline form of some such link starts there |
| LinkScan.ScanFromSound | src/core/MarkdownTransformer.ts:20 | every match `matchAll` reports is a real match at its start; matches come left to right without overlap |
| LinkScan.ScanFromCovers | src/core/MarkdownTransformer.ts:20 | every index where a match could start lies inside some reported match, so the scan misses no link except one overlapping an earlier match |
| LinkScan.ScanSound | src/core/MarkdownTransformer.ts:19-21 | every scanned link can come from the pattern, and its inline form occurs in the text |
| LinkScan.ScanEmptyIff | src/core/MarkdownTransformer.ts:19-21 | the scan is empty exactly when no index starts a match |
| LinkScan.NoBracketNoMatch | src/core/MarkdownTransformer.ts:19 | a text without `[` has no match |
| LinkScan.ScanAnchorFormat | src/core/MarkdownTransformer.ts:19-21 | round trip: scanning the inline form of a link the pattern can produce gives exactly that link |
| LinkScan.ScanPair | src/core/MarkdownTransformer.ts:19-21 | two adjacent inline forms of well-formed links scan as the two links, in order |
| LinkScan.ScanAmid | src/core/MarkdownTransformer.ts:19-21 | one inline form of a well-formed link amid text without `[` scans as that one link |
| LinkScan.ScanTwoAmid | src/core/MarkdownTransformer.ts:19-21 | two inline forms of well-formed links amid text without `[` scan as the two links, in order |
| LinkScan.ScanRepeated | src/core/MarkdownTransformer.ts:19-21 | the inline form of a well-formed link twice scans as the link twice; the scan does not de-duplicate |
| LinkScan.OnlyOwnInlineForm | src/core/MarkdownTransformer.ts:39 | for two well-formed links, the second with text and url free of `[`, the inline form of the first occurs in the second's inline form followed by `[`-free text only when the two links are equal |
| LinkScan.FindIndex | src/core/MarkdownTransformer.ts:27 | `findIndex` returns a position holding a link equal to the one searched for, or the length for -1 |
| LinkScan.FindIndexFirst | src/core/MarkdownTransformer.ts:27 | no earlier position holds an equal link; the index is found exactly when the list holds the link |
| LinkScan.UniqueFromMembers | src/core/MarkdownTransformer.ts:25-28 | the filter from position `i` on keeps exactly the links whose first occurrence is at `i` or later |
| LinkScan.UniqueFromOrdered | src/core/MarkdownTransformer.ts:25-28 | the filter keeps links in the order of their first occurrence |
| LinkScan.UniqueLinksSpec | src/core/MarkdownTransformer.ts:25-28 | `uniqueLinks` holds exactly the links of its input, in order of first occurrence, no two `toEqual` |
| Decimal.NatToString | src/core/MarkdownTransformer.ts:32 | `${index + 1}` is a non-empty string of digits, without a leading zero unless the number is 0 |
| Decimal.ParseNatToString | src/core/MarkdownTransformer.ts:32 | reading the decimal rendering back gives the number |
| Decimal.NatToStringInjective | src/core/MarkdownTransformer.ts:32 | distinct numbers render differently |
| LinksRecord.AnchorKeyInjective | src/core/MarkdownTransformer.ts:32 | distinct indices give distinct anchor keys |
| LinksRecord.GenerateLinksRecordKeys | src/core/MarkdownTransformer.ts:41 | `Object.keys` of the generated record lists `[^anchor1]` up to `[^anchorN]`, one per link, in order |
| LinksRecord.Lookup | src/core/MarkdownTransformer.ts:39 | `record[key]` for a present key is a value stored under that key |
| LinksRecord.LookupEntry | src/core/MarkdownTransformer.ts:47 | with distinct keys, indexing by an entry's key gives that entry's value |
| LinksRecord.PutSpec | src/core/MarkdownTransformer.ts:32 | the spread stores the value under the key. A present key keeps its place, the length and key order are unchanged, and every entry under another key keeps its value. A new key goes last, after the unchanged record |
| LinksRecord.RecordFromNumbered | src/core/MarkdownTransformer.ts:31-34 | the reduce, continued from the first `i` numbered entries, gives the numbered record of all links |
| LinksRecord.NumberedDistinctKeys | src/core/MarkdownTransformer.ts:30-35 | the numbered record repeats no key |
| LinksRecord.GenerateLinksRecordSpec | src/core/MarkdownTransformer.ts:30-35 | `generateLinksRecord` on n links has n entries; entry i has key `[^anchor{i+1}]` and the i-th link; no key repeats |
| Text.ReplaceAllAbsent | src/core/MarkdownTransformer.ts:39 | `replaceAll` leaves a text without the pattern unchanged |
| Text.ReplaceAllLeading | src/core/MarkdownTransformer.ts:39 | a leading occurrence is replaced and the search resumes right after it |
| Text.ReplaceAllSkip | src/core/MarkdownTransformer.ts:39 | a prefix in which no occurrence starts is copied unchanged |
| Text.ReplaceAllPlainPrefix | src/core/MarkdownTransformer.ts:39 | a prefix without the pattern's first character is copied unchanged |
| Text.ReplaceAllAmid | src/core/MarkdownTransformer.ts:39 | between texts without the pattern's first character, the one occurrence is replaced and nothing else changes |
| Text.ReplaceAllAmidAbsent | src/core/MarkdownTransformer.ts:39 | the same when the text after the occurrence merely holds no occurrence |
| Text.ReplaceAllFirstOfTwo | src/core/MarkdownTransformer.ts:39 | only the occurrence after `pre` is replaced when the rest holds none |
| Text.ReplaceAllSecondOfTwo | src/core/MarkdownTransformer.ts:39 | only the later occurrence is replaced when none starts earlier |
| Text.ReplaceAllWhole | src/core/MarkdownTransformer.ts:39 | a text that is exactly the pattern becomes exactly the replacement |
| Text.JoinAppend | src/core/MarkdownTransformer.ts:54 | `Text.Join`, the model of `Array.prototype.join`: joining a concatenation of two non-empty lists puts one separator between the two joined halves |
| Text.JoinCons | src/core/MarkdownTransformer.ts:54 | joining `[head, ...rest]` is the head alone, or the head, a separator and the rest joined |
| EcmaReplace.SubstitutionLiteral | src/core/MarkdownTransformer.ts:39 | a replacement string without `$` is inserted as it is |
| EcmaReplace.ReplaceAllFromLiteral | src/core/MarkdownTransformer.ts:39 | without `$` in the replacement, JavaScript's `replaceAll` on a suffix is the literal replacement |
| EcmaReplace.ReplaceAllJsLiteral | src/core/MarkdownTransformer.ts:39 | without `$` in the replacement, JavaScript's `replaceAll` is the literal replacement |
| EcmaReplace.WholeMatchDollarAmpersand | src/core/MarkdownTransformer.ts:39 | when the whole text is the search value and the rest of the replacement holds no `$`, a replacement beginning with `$&` gives the matched text followed by that rest, where the literal replacement gives the replacement string itself |
| MarkdownTransformer.ReplaceKeysAbsent | src/core/MarkdownTransformer.ts:37-43 | if no link's inline form occurs in the text, `replaceLinksByAnchors` returns the text unchanged (so does an empty record) |
| MarkdownTransformer.ReplaceKeysAgree | src/core/MarkdownTransformer.ts:37-43 | if no key and no link text holds `$`, the source's replacement fold and the literal one give the same text |
| MarkdownTransformer.GenerateFootnotesSpec | src/core/MarkdownTransformer.ts:45-51 | one footnote per entry, in record order, each exactly the key, `: ` and the url |
| MarkdownTransformer.AppendFootnotesToMarkdown | src/core/MarkdownTransformer.ts:53-55 | without footnotes the text is returned as is; otherwise the text, a blank line and the footnotes joined by blank lines |
| MarkdownTransformer.FindAllLinksSpec | src/core/MarkdownTransformer.ts:18-23 | every link found can come from the pattern and occurs in the text; no two are `toEqual`; exactly the scanned links appear; they come in order of first match |
| MarkdownTransformer.FindAllLinksEmptyIff | src/core/MarkdownTransformer.ts:18-23 | `findAllLinks` is empty exactly when no index starts a match |
| MarkdownTransformer.TransformStructure | src/core/MarkdownTransformer.ts:10-16 | `transform` is the text with the numbered record's replacements, then one footnote line per unique link, line i being `[^anchor{i+1}]: ` and the i-th url |
| MarkdownTransformer.TransformWithoutLinks | src/core/MarkdownTransformer.ts:10-16 | a text with no match (the empty text among them) comes back unchanged |
| MarkdownTransformer.OneLinkRecord | src/core/MarkdownTransformer.ts:30-43 | for one link the record is `[^anchor1]` to that link, and the replacement step rewrites its inline forms |
| MarkdownTransformer.OneLinkStages | src/core/MarkdownTransformer.ts:37-51 | for one link, `replaceLinksByAnchors` is one literal replacement and `generateFootnotes` is the single line `[^anchor1]: url` |
| MarkdownTransformer.TransformOneUniqueLink | src/core/MarkdownTransformer.ts:10-16 | with one unique link, `transform` is the text with every inline form replaced, then the one footnote |
| MarkdownTransformer.FindAllLinksSingle | src/core/MarkdownTransformer.ts:18-23 | the inline form of a well-formed link alone yields that one link |
| MarkdownTransformer.FindAllLinksRepeated | src/core/MarkdownTransformer.ts:18-28 | the inline form of a well-formed link twice yields the link once |
| MarkdownTransformer.TransformSingleLink | src/core/MarkdownTransformer.ts:10-16 | a text that is the inline form of one well-formed link becomes the link's text, ` [^anchor1]`, a blank line and `[^anchor1]: url`, whatever characters other than `]` the text holds, `$` included. This is the intended transform, which inserts the anchor text literally; the source as written differs when the text holds a `$`-pattern (see Findings) |
| MarkdownTransformer.TransformRepeatedLink | src/core/MarkdownTransformer.ts:10-16 | a well-formed link written twice gets one footnote, and both occurrences get anchor 1 |
| MarkdownTransformer.OneLinkAsWritten | src/core/MarkdownTransformer.ts:37-43 | for one link, the source's replacement fold is a single JavaScript `replaceAll` |
| MarkdownTransformer.TransformAsWrittenOneLink | src/core/MarkdownTransformer.ts:10-16 | the source's `transform` when one link is the only unique link |
| MarkdownTransformer.DollarAmpersandKeepsInlineForm | src/core/MarkdownTransformer.ts:39 | for a well-formed link with text `$&`, the source keeps `[$&](url)` in the output, in front of ` [^anchor1]`; the literal replacement writes `$& [^anchor1]` |
| MarkdownTransformer.FoundTextsAvoid | src/core/MarkdownTransformer.ts:19-21 | a character absent from the input is absent from every link text found |
| MarkdownTransformer.TransformAsWrittenAgrees | src/core/MarkdownTransformer.ts:10-16 | on every input where no link found holds `$` in its text, the source's `transform` and the model's give the same text (a `$` elsewhere in the text is allowed) |
| MarkdownTransformer.TransformAsWrittenAgreesDollarFree | src/core/MarkdownTransformer.ts:10-16 | in particular on every input without `$` |
| MarkdownTransformer.AnchorKeyAvoids | src/core/MarkdownTransformer.ts:32 | anchor keys hold no `$` |
| MarkdownTransformer.AnchorKeyStartsNoMatch | src/core/MarkdownTransformer.ts:19 | an anchor key not followed by `(` starts no match, so written anchors do not become links |
| MarkdownTransformer.UniqueLinksSmall | src/core/MarkdownTransformer.ts:25-28 | `uniqueLinks` keeps a lone link, and two distinct links in order |
| MarkdownTransformer.TwoLinkStages | src/core/MarkdownTransformer.ts:30-51 | for two links, the replacements happen for anchor 1 and then anchor 2, and there are two footnotes in that order |
| MarkdownTransformer.TransformTwoUniqueLinks | src/core/MarkdownTransformer.ts:10-16 | with two unique links, the two replacements in order, then two footnotes |
| MarkdownTransformer.TransformLinkAmid | src/core/MarkdownTransformer.ts:10-16 | one well-formed link amid `[`-free text is rewritten in place, the rest is kept, and its footnote follows |
| MarkdownTransformer.TransformAsWrittenLinkAmid | src/core/MarkdownTransformer.ts:10-16 | the same output from the source as written, when the link text also holds no `$` |
| MarkdownTransformer.FindAllLinksAmid | src/core/MarkdownTransformer.ts:18-23 | one inline form of a well-formed link amid `[`-free text yields that link |
| MarkdownTransformer.FindAllLinksTwoAmid | src/core/MarkdownTransformer.ts:18-23 | two inline forms of distinct well-formed links amid `[`-free text yield the two links in order |
| MarkdownTransformer.TransformTwoLinksAmid | src/core/MarkdownTransformer.ts:10-16 | two distinct well-formed links amid `[`-free text, the first link's text and the second link's text and url also without `[`, and the text between them not starting with `(`, get anchors 1 and 2 in order of appearance, with the surrounding text kept and two footnotes |
| MarkdownTransformer.TransformAsWrittenTwoLinksAmid | src/core/MarkdownTransformer.ts:10-16 | the same output from the source as written, when the two link texts also hold no `$` |
| MarkdownTransformer.FirstReplacement | src/core/MarkdownTransformer.ts:39 | for two distinct well-formed links, when the second link's text and url and the texts before, between and after the links hold no `[`, the first step rewrites only the first link's inline form |
| MarkdownTransformer.SecondReplacement | src/core/MarkdownTransformer.ts:39 | for a well-formed second link, when the first link's text and the texts before, between and after the links hold no `[`, and the text between them does not start with `(`, the second step rewrites only the second link's inline form, because anchor 1 does not start one |
| MarkdownTransformer.AnchorTextHidesLink | src/core/MarkdownTransformer.ts:39 | for a link text without `[`, the anchor-1 text written for it starts no well-formed inline form unless `(` follows it |
| MarkdownTransformer.FootnoteStartsNoMatch | src/core/MarkdownTransformer.ts:47 | if the url holds no `[`, no match starts inside the footnote block for anchor 1 |
| MarkdownTransformer.NoMatchNoInlineForm | src/core/MarkdownTransformer.ts:19 | where no match starts, no inline form of a link the pattern can produce occurs |
| MarkdownTransformer.FindAllLinksBeforeFootnote | src/core/MarkdownTransformer.ts:18-23 | a well-formed link after text without `[` and before an anchor-1 footnote block whose url holds no `[` yields only that link |
| MarkdownTransformer.ReplaceBeforeFootnote | src/core/MarkdownTransformer.ts:39 | under the same conditions, its replacement leaves the footnote block untouched |
| MarkdownTransformer.TransformLinkBeforeFootnote | src/core/MarkdownTransformer.ts:10-16 | under the same conditions, that text gets a second `[^anchor1]` footnote line, and the existing one stays as text |
| Examples.NoLinks | src/tests/MarkDownTransformer.test.ts:14-19 | `""`, `"text"` and `"text without links"` come back unchanged, and the last has no links |
| Examples.LinkAlone | src/tests/MarkDownTransformer.test.ts:21-26 | the one-link case of the suite, with the exact expected output |
| Examples.TextBeforeLink | src/tests/MarkDownTransformer.test.ts:55 | text before the link is kept |
| Examples.TextAfterLink | src/tests/MarkDownTransformer.test.ts:56 | text after the link is kept |
| Examples.TextAroundLink | src/tests/MarkDownTransformer.test.ts:57 | text around the link is kept |
| Examples.TwoLinks | src/tests/MarkDownTransformer.test.ts:28-33 | two adjacent links get anchors 1 and 2 and two footnotes |
| Examples.TwoLinksAmidText | src/tests/MarkDownTransformer.test.ts:35-40 | the same with text around and between them |
| Examples.TwoLinksSameUrl | src/tests/MarkDownTransformer.test.ts:58 | two links with the same url still get two anchors |
| Examples.TwoLinksComma | src/tests/MarkDownTransformer.test.ts:59 | the same with `, ` between them |
| Examples.RepeatedLink | src/tests/MarkDownTransformer.test.ts:42-47 | the same link twice gives one footnote, and both occurrences get anchor 1 |
| Examples.FindAllLinksCases | src/tests/MarkDownTransformer.test.ts:75-109 | `findAllLinks` on the suite's texts: one link, two links, two with text between them, and a duplicate dropped |
| Examples.RecordOfTwoLinks | src/tests/MarkDownTransformer.test.ts:113-123 | the record of two links is `[^anchor1]` then `[^anchor2]` |
| Examples.StagesOfOneLink | src/tests/MarkDownTransformer.test.ts:128-164 | the stages on one link: replaced text, the footnote list `["[^anchor1]: url"]`, and the joined result |
| Examples.ReplaceStageAsWritten | src/tests/MarkDownTransformer.test.ts:127-138 | the source's `replaceLinksByAnchors`, with JavaScript's `replaceAll`, turns `[visible text link](url)` into `visible text link [^anchor1]`, as the test expects |
| Examples.TransformNotIdempotent | src/core/MarkdownTransformer.ts:10-16 | `transform` is not idempotent: `[x](y)(z)` becomes `x [^anchor1](z)` and a footnote, and transforming that output again changes it |
| Examples.NoLinksAsWritten | src/tests/MarkDownTransformer.test.ts:14-19 | the source as written returns `""`, `"text"` and `"text without links"` unchanged |
| Examples.LinkAloneAsWritten | src/tests/MarkDownTransformer.test.ts:21-26 | the source as written gives the exact expected output of the one-link case |
| Examples.TextBeforeLinkAsWritten | src/tests/MarkDownTransformer.test.ts:55 | the source as written gives the expected output with text before the link |
| Examples.TextAfterLinkAsWritten | src/tests/MarkDownTransformer.test.ts:56 | the source as written gives the expected output with text after the link |
| Examples.TextAroundLinkAsWritten | src/tests/MarkDownTransformer.test.ts:57 | the source as written gives the expected output with text around the link |
| Examples.TwoLinksAsWritten | src/tests/MarkDownTransformer.test.ts:28-33 | the source as written gives the expected output for two adjacent links |
| Examples.TwoLinksAmidTextAsWritten | src/tests/MarkDownTransformer.test.ts:35-40 | the source as written gives the expected output for two links amid text |
| Examples.TwoLinksSameUrlAsWritten | src/tests/MarkDownTransformer.test.ts:58 | the source as written gives the expected output for two links with the same url |
| Examples.TwoLinksCommaAsWritten | src/tests/MarkDownTransformer.test.ts:59 | the source as written gives the expected output for two links separated by `, ` |
| Examples.RepeatedLinkAsWritten | src/tests/MarkDownTransformer.test.ts:42-47 | the source as written gives the expected output for a repeated link |
| Examples.DollarOutsideLinks | src/core/MarkdownTransformer.ts:10-16 | a `$` outside every link text does not disturb the source: `$5 [a](u)` becomes `$5 a [^anchor1]` and its footnote, and `$$` comes back unchanged |

## Left out

- No I/O: the source reads and writes nothing. `MarkdownTransformer.create(text)` only stores the text, so `Transform` takes the text as its argument.
- `MarkdownLink.create` is the datatype constructor `Link`. Like the source, it accepts any two strings.
- The second copy of the `MarkdownLink` class, at src/core/MarkdownTransformer.ts:58-72, is the same as src/core/MarkdownLink.ts and is modelled once.
- Strings are sequences of characters. UTF-16 surrogate pairs are not modelled; the pattern classes and `replaceAll` work on code units anyway.
- The regex engine's `lastIndex` state is modelled by the scan position. The global flag's behaviour on an empty match is left out, because the pattern cannot match the empty string.
- The Jest harness (`describe`, `it`, `expect`) is left out. Its cases are stated as lemmas in `Examples`.
- The test at src/tests/MarkDownTransformer.test.ts:149 compares the footnote array with a string. The model follows the code: `generateFootnotes` returns a list, here `["[^anchor1]: url"]` (`Examples.StagesOfOneLink`).
- MarkdownTransformer.Transform: `Transform` and every lemma about it insert the anchor text `${text} ${key}` literally. Line 39 of src/core/MarkdownTransformer.ts passes it to `replaceAll`, which expands `$`-patterns. `MarkdownTransformer.TransformAsWritten` models the source as written. `MarkdownTransformer.TransformAsWrittenAgrees` proves the two agree on every input whose found links hold no `$` in their texts. `MarkdownTransformer.TransformAsWrittenLinkAmid`, `MarkdownTransformer.TransformAsWrittenTwoLinksAmid` and the `AsWritten` cases in `Examples` carry the results over to the source as written.
- LinkScan.FindIndex: returns the length of the list where the source returns -1. The filter only compares the result with a valid index, so nothing else changes.
- `transform` is not idempotent, and not every original occurrence is rewritten exactly once. A replacement can create a new match: `Examples.TransformNotIdempotent` proves it for `[x](y)(z)`. No lemma claims either property.
- MarkdownTransformer.TransformLinkAmid: stated only for surrounding text without `[`.
- MarkdownTransformer.TransformTwoLinksAmid: stated only for surrounding text without `[`, for text between the links that does not start with `(`, and for links where the first link's text and the second link's text and url hold no `[`. Otherwise the first replacement can rewrite an inline form nested in the second link's inline form: in `[x](y)[q]([x](y)`, the second link is never replaced. For such texts, `MarkdownTransformer.TransformStructure` gives the shape of the output, but not the exact replaced text.
- `EcmaReplace` models the `$` patterns of a string search value only. With no capture groups, `$1` and `$<` are kept as literal text, which is what `ReplaceAllJs` does.

## Findings

| source | as written | input that shows it | evidently intended | confidence | as-written member | corrected member |
|---|---|---|---|---|---|---|
| src/core/MarkdownTransformer.ts:39 | the anchor text `${text} ${key}` is passed as the replacement string of `replaceAll`, which expands `$&` to the matched text (and `` $` ``, `$'`, `$$` likewise) | the text `[$&](u)`: the output starts with `[$&](u) [^anchor1]`, so the link stays in the text | the anchor text inserted literally: `$& [^anchor1]` | not executed | MarkdownTransformer.DollarAmpersandKeepsInlineForm | MarkdownTransformer.TransformSingleLink |

`Transform` and every lemma about it use the literal replacement. Here is
what each member shows:

- `MarkdownTransformer.TransformSingleLink` shows the intended output for
  every link, `$&` included.
- `MarkdownTransformer.TransformAsWrittenAgrees` shows that the source and
  the model agree on all texts whose links hold no `$` in their texts.
