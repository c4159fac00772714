/** `MarkdownTransformer`: the pipeline that turns the inline links of a
    Markdown text into numbered footnotes. `Transform(markdown)` is
    `create(markdown).transform()` with the anchor text inserted literally,
    as intended; `TransformAsWritten(markdown)` is the source as written,
    whose `replaceAll` expands `$`-patterns in the anchor text. */
module MarkdownTransformer {
  import opened Text
  import opened EcmaReplace
  import opened MarkdownLink
  import opened LinkScan
  import opened LinksRecord

  const Separator: string := "\n\n"

  /** The text that replaces a link: its visible text, a space, its key. */
  function AnchorText(l: Link, key: string): string {
    l.text + " " + key
  }

  /** One step of the reduce in `replaceLinksByAnchors`: every occurrence of
      the inline form of the link under `key` becomes its anchor text. */
  function ReplaceLinkWithAnchor(content: string, rec: Record, key: string): string
    requires key in Keys(rec)
  {
    var l := Lookup(rec, key);
    ReplaceAll(content, ToAnchorFormat(l), AnchorText(l, key))
  }

  /** The reduce of `replaceLinksByAnchors` over the keys `ks`, in order,
      each step working on the text the previous ones produced. */
  function ReplaceKeys(content: string, rec: Record, ks: seq<string>): string
    requires forall k :: k in ks ==> k in Keys(rec)
    decreases |ks|
  {
    if |ks| == 0 then content
    else ReplaceKeys(ReplaceLinkWithAnchor(content, rec, ks[0]), rec, ks[1..])
  }

  /** When no link's inline form occurs in the text, no step changes it. */
  lemma {:induction false} ReplaceKeysAbsent(content: string, rec: Record, ks: seq<string>)
    requires forall k :: k in ks ==> k in Keys(rec)
    requires forall k :: k in ks ==> !Occurs(content, ToAnchorFormat(Lookup(rec, k)))
    ensures ReplaceKeys(content, rec, ks) == content
    decreases |ks|
  {
    if |ks| > 0 {
      var l := Lookup(rec, ks[0]);
      ReplaceAllAbsent(content, ToAnchorFormat(l), AnchorText(l, ks[0]));
      ReplaceKeysAbsent(content, rec, ks[1..]);
    }
  }

  /** `replaceLinksByAnchors` with the anchor text inserted literally;
      `ReplaceKeysAsWritten` below is the source as written. */
  function ReplaceLinksByAnchors(content: string, rec: Record): string {
    ReplaceKeys(content, rec, Keys(rec))
  }

  /** The same reduce with the replacement string interpreted as
      `String.prototype.replaceAll` does (see EcmaReplace). */
  function ReplaceKeysAsWritten(content: string, rec: Record, ks: seq<string>): string
    requires forall k :: k in ks ==> k in Keys(rec)
    decreases |ks|
  {
    if |ks| == 0 then content
    else
      var l := Lookup(rec, ks[0]);
      ReplaceKeysAsWritten(ReplaceAllJs(content, ToAnchorFormat(l), AnchorText(l, ks[0])), rec, ks[1..])
  }

  /** When no link text and no key holds a `$`, the source's replacement and
      the literal one agree. */
  lemma {:induction false} ReplaceKeysAgree(content: string, rec: Record, ks: seq<string>)
    requires forall k :: k in ks ==> k in Keys(rec)
    requires forall i :: 0 <= i < |rec| ==> '$' !in rec[i].0 && '$' !in rec[i].1.text
    ensures ReplaceKeysAsWritten(content, rec, ks) == ReplaceKeys(content, rec, ks)
    decreases |ks|
  {
    if |ks| > 0 {
      var l := Lookup(rec, ks[0]);
      var j :| 0 <= j < |rec| && rec[j] == (ks[0], l);
      assert '$' !in AnchorText(l, ks[0]);
      ReplaceAllJsLiteral(content, ToAnchorFormat(l), AnchorText(l, ks[0]));
      ReplaceKeysAgree(ReplaceLinkWithAnchor(content, rec, ks[0]), rec, ks[1..]);
    }
  }

  /** `generateFootnotes`: one line `key: url` per key, in key order. */
  function GenerateFootnotes(rec: Record): seq<string> {
    var ks := Keys(rec);
    seq(|ks|, i requires 0 <= i < |ks| => ks[i] + ": " + Lookup(rec, ks[i]).url)
  }

  /** With distinct keys there is one footnote per entry, in record order,
      each exactly the entry's key, a colon, a space and its url. */
  lemma GenerateFootnotesSpec(rec: Record)
    requires DistinctKeys(rec)
    ensures |GenerateFootnotes(rec)| == |rec|
    ensures forall i :: 0 <= i < |rec| ==> GenerateFootnotes(rec)[i] == rec[i].0 + ": " + rec[i].1.url
  {
    forall i | 0 <= i < |rec|
      ensures GenerateFootnotes(rec)[i] == rec[i].0 + ": " + rec[i].1.url
    {
      LookupEntry(rec, i);
    }
  }

  /** `appendFootnotesToMarkdown`: `[markdown, ...footnotes].join("\n\n")`. */
  function AppendFootnotesToMarkdown(content: string, footnotes: seq<string>): (r: string)
    ensures footnotes == [] ==> r == content
    ensures footnotes != [] ==> r == content + Separator + Join(footnotes, Separator)
  {
    JoinCons(content, footnotes, Separator);
    Join([content] + footnotes, Separator)
  }

  /** `transform` with the anchor text inserted literally, as intended;
      `TransformAsWritten` below is the source as written. */
  function Transform(markdown: string): string {
    TransformWith(markdown, FindAllLinks(markdown))
  }

  /** The stages of `transform` after `findAllLinks`, for the unique links
      `links` of `markdown`. */
  function TransformWith(markdown: string, links: seq<Link>): string {
    var rec := GenerateLinksRecord(links);
    var replaced := ReplaceLinksByAnchors(markdown, rec);
    var footnotes := GenerateFootnotes(rec);
    AppendFootnotesToMarkdown(replaced, footnotes)
  }

  /** `transform` with the replacement as the source writes it. */
  function TransformAsWritten(markdown: string): string {
    var links := FindAllLinks(markdown);
    var rec := GenerateLinksRecord(links);
    var replaced := ReplaceKeysAsWritten(markdown, rec, Keys(rec));
    var footnotes := GenerateFootnotes(rec);
    AppendFootnotesToMarkdown(replaced, footnotes)
  }

  /** The footnote lines for the unique links: `[^anchor{i+1}]: url`. */
  function FootnoteLines(links: seq<Link>): (lines: seq<string>)
    ensures |lines| == |links|
  {
    seq(|links|, i requires 0 <= i < |links| => AnchorKey(i + 1) + ": " + links[i].url)
  }

  /** `findAllLinks`: every link it returns is well formed and its inline
      form occurs in the text; no two are equal; every link the scan
      matched is among them; they come in the order of first match. */
  lemma FindAllLinksSpec(markdown: string)
    ensures forall k :: 0 <= k < |FindAllLinks(markdown)| ==>
      WellFormed(FindAllLinks(markdown)[k]) && Occurs(markdown, ToAnchorFormat(FindAllLinks(markdown)[k]))
    ensures forall a, b :: 0 <= a < b < |FindAllLinks(markdown)| ==> !ToEqual(FindAllLinks(markdown)[a], FindAllLinks(markdown)[b])
    ensures forall l :: l in Scan(markdown) <==> l in FindAllLinks(markdown)
    ensures forall a, b :: 0 <= a < b < |FindAllLinks(markdown)| ==>
      FindIndex(Scan(markdown), FindAllLinks(markdown)[a]) < FindIndex(Scan(markdown), FindAllLinks(markdown)[b])
  {
    var scanned := Scan(markdown);
    UniqueLinksSpec(scanned);
    ScanSound(markdown);
    forall k | 0 <= k < |FindAllLinks(markdown)|
      ensures WellFormed(FindAllLinks(markdown)[k]) && Occurs(markdown, ToAnchorFormat(FindAllLinks(markdown)[k]))
    {
      var l := FindAllLinks(markdown)[k];
      assert l in scanned;
      var j :| 0 <= j < |scanned| && scanned[j] == l;
    }
  }

  /** `findAllLinks` is empty exactly when no index of the text starts a
      match of the link pattern. */
  lemma FindAllLinksEmptyIff(markdown: string)
    ensures FindAllLinks(markdown) == [] <==> forall p :: 0 <= p < |markdown| ==> MatchAt(markdown, p).None?
  {
    ScanEmptyIff(markdown);
    UniqueLinksSpec(Scan(markdown));
    if Scan(markdown) != [] {
      assert Scan(markdown)[0] in FindAllLinks(markdown);
    }
  }

  /** `transform` keeps the text, rewritten, and appends one footnote line
      per unique link: line i is `[^anchor{i+1}]: ` and the i-th link's url. */
  lemma TransformStructure(markdown: string)
    ensures Transform(markdown) ==
      AppendFootnotesToMarkdown(ReplaceLinksByAnchors(markdown, Numbered(FindAllLinks(markdown))), FootnoteLines(FindAllLinks(markdown)))
  {
    var links := FindAllLinks(markdown);
    GenerateLinksRecordSpec(links);
    GenerateFootnotesSpec(Numbered(links));
    assert GenerateFootnotes(Numbered(links)) == FootnoteLines(links);
  }

  /** A text with no match of the link pattern (the empty text among them)
      comes back unchanged. */
  lemma TransformWithoutLinks(markdown: string)
    requires forall p :: 0 <= p < |markdown| ==> MatchAt(markdown, p).None?
    ensures FindAllLinks(markdown) == []
    ensures Transform(markdown) == markdown
  {
    FindAllLinksEmptyIff(markdown);
    assert GenerateLinksRecord([]) == [];
  }

  /** The record and footnotes for a single unique link. */
  lemma OneLinkRecord(content: string, l: Link)
    ensures Numbered([l]) == [("[^anchor1]", l)]
    ensures FootnoteLines([l]) == ["[^anchor1]: " + l.url]
    ensures ReplaceLinksByAnchors(content, Numbered([l])) == ReplaceAll(content, ToAnchorFormat(l), AnchorText(l, "[^anchor1]"))
  {
    assert AnchorKey(1) == "[^anchor1]";
    var rec := Numbered([l]);
    assert rec == [("[^anchor1]", l)];
    assert Keys(rec) == ["[^anchor1]"];
    assert Lookup(rec, "[^anchor1]") == l;
    var next := ReplaceLinkWithAnchor(content, rec, "[^anchor1]");
    assert next == ReplaceAll(content, ToAnchorFormat(l), AnchorText(l, "[^anchor1]"));
    assert ReplaceKeys(content, rec, ["[^anchor1]"]) == ReplaceKeys(next, rec, []);
    assert FootnoteLines([l])[0] == "[^anchor1]: " + l.url;
  }

  /** With `l` as the only unique link, the text has every inline form of
      `l` replaced and is followed by the one footnote. */
  lemma TransformOneUniqueLink(markdown: string, l: Link)
    ensures TransformWith(markdown, [l]) ==
      ReplaceAll(markdown, ToAnchorFormat(l), AnchorText(l, "[^anchor1]")) + Separator + "[^anchor1]: " + l.url
  {
    var note := "[^anchor1]: " + l.url;
    var replaced := ReplaceAll(markdown, ToAnchorFormat(l), AnchorText(l, "[^anchor1]"));
    OneLinkStages(markdown, l);
    assert Join([note], Separator) == note;
    assert TransformWith(markdown, [l]) == AppendFootnotesToMarkdown(replaced, [note]);
    assert replaced + Separator + note == replaced + Separator + "[^anchor1]: " + l.url;
  }

  lemma OneLinkStages(markdown: string, l: Link)
    ensures ReplaceLinksByAnchors(markdown, GenerateLinksRecord([l])) ==
      ReplaceAll(markdown, ToAnchorFormat(l), AnchorText(l, "[^anchor1]"))
    ensures GenerateFootnotes(GenerateLinksRecord([l])) == ["[^anchor1]: " + l.url]
  {
    var rec := GenerateLinksRecord([l]);
    GenerateLinksRecordSpec([l]);
    OneLinkRecord(markdown, l);
    GenerateFootnotesSpec(rec);
  }

  lemma FindAllLinksSingle(l: Link)
    requires WellFormed(l)
    ensures FindAllLinks(ToAnchorFormat(l)) == [l]
  {
    ScanAnchorFormat(l);
    assert FindIndex([l], l) == 0;
    assert UniqueFrom([l], 1) == [];
  }

  lemma FindAllLinksRepeated(l: Link)
    requires WellFormed(l)
    ensures FindAllLinks(ToAnchorFormat(l) + ToAnchorFormat(l)) == [l]
  {
    ScanRepeated(l);
    assert FindIndex([l, l], l) == 0;
    assert UniqueFrom([l, l], 2) == [];
    assert UniqueFrom([l, l], 1) == [];
  }

  /** A text that is the inline form of one link becomes its text, anchor 1,
      and the single footnote. */
  lemma TransformSingleLink(l: Link)
    requires WellFormed(l)
    ensures Transform(ToAnchorFormat(l)) == AnchorText(l, "[^anchor1]") + Separator + "[^anchor1]: " + l.url
  {
    FindAllLinksSingle(l);
    TransformOneUniqueLink(ToAnchorFormat(l), l);
    ReplaceAllWhole(ToAnchorFormat(l), AnchorText(l, "[^anchor1]"));
  }

  /** The source's replacement for a single unique link. */
  lemma OneLinkAsWritten(content: string, l: Link)
    ensures ReplaceKeysAsWritten(content, GenerateLinksRecord([l]), Keys(GenerateLinksRecord([l]))) ==
      ReplaceAllJs(content, ToAnchorFormat(l), AnchorText(l, "[^anchor1]"))
  {
    var rec := GenerateLinksRecord([l]);
    GenerateLinksRecordSpec([l]);
    OneLinkRecord(content, l);
    assert Keys(rec) == ["[^anchor1]"];
    assert Lookup(rec, "[^anchor1]") == l;
    var next := ReplaceAllJs(content, ToAnchorFormat(l), AnchorText(l, "[^anchor1]"));
    assert ReplaceKeysAsWritten(content, rec, ["[^anchor1]"]) == ReplaceKeysAsWritten(next, rec, []);
  }

  /** The source's `transform` when `l` is the only unique link. */
  lemma TransformAsWrittenOneLink(markdown: string, l: Link)
    requires FindAllLinks(markdown) == [l]
    ensures TransformAsWritten(markdown) ==
      ReplaceAllJs(markdown, ToAnchorFormat(l), AnchorText(l, "[^anchor1]")) + Separator + "[^anchor1]: " + l.url
  {
    var note := "[^anchor1]: " + l.url;
    var replaced := ReplaceAllJs(markdown, ToAnchorFormat(l), AnchorText(l, "[^anchor1]"));
    OneLinkAsWritten(markdown, l);
    OneLinkStages(markdown, l);
    assert Join([note], Separator) == note;
    assert TransformAsWritten(markdown) == AppendFootnotesToMarkdown(replaced, [note]);
  }

  /** A link whose text is `$&`: the source's `replaceAll` expands `$&` to
      the matched inline form, so the link stays in the text in front of
      its anchor, while the literal replacement gives the anchor text. */
  lemma DollarAmpersandKeepsInlineForm(l: Link)
    requires WellFormed(l) && l.text == "$&"
    ensures TransformAsWritten(ToAnchorFormat(l)) ==
      ToAnchorFormat(l) + " " + "[^anchor1]" + Separator + "[^anchor1]: " + l.url
    ensures Transform(ToAnchorFormat(l)) == "$&" + " " + "[^anchor1]" + Separator + "[^anchor1]: " + l.url
  {
    var a := ToAnchorFormat(l);
    var tail := " " + "[^anchor1]";
    assert AnchorText(l, "[^anchor1]") == "$&" + tail;
    assert a + tail == a + " " + "[^anchor1]";
    assert '$' !in tail;
    FindAllLinksSingle(l);
    TransformAsWrittenOneLink(a, l);
    WholeMatchDollarAmpersand(a, tail);
    TransformSingleLink(l);
  }

  /** The same link twice gives one footnote; both occurrences share
      anchor 1. */
  lemma TransformRepeatedLink(l: Link)
    requires WellFormed(l)
    ensures Transform(ToAnchorFormat(l) + ToAnchorFormat(l)) ==
      AnchorText(l, "[^anchor1]") + AnchorText(l, "[^anchor1]") + Separator + "[^anchor1]: " + l.url
  {
    var a := ToAnchorFormat(l);
    var rep := AnchorText(l, "[^anchor1]");
    FindAllLinksRepeated(l);
    TransformOneUniqueLink(a + a, l);
    ReplaceAllLeading(a, a, rep);
    ReplaceAllWhole(a, rep);
  }

  /** Every link `findAllLinks` returns has a text taken from the input, so
      an input without `$` yields link texts without `$`. */
  lemma FoundTextsAvoid(markdown: string, c: char)
    requires c !in markdown
    ensures forall k :: 0 <= k < |FindAllLinks(markdown)| ==> c !in FindAllLinks(markdown)[k].text
  {
    FindAllLinksSpec(markdown);
    forall k | 0 <= k < |FindAllLinks(markdown)|
      ensures c !in FindAllLinks(markdown)[k].text
    {
      TextFromInput(markdown, FindAllLinks(markdown)[k], c);
    }
  }

  lemma TextFromInput(markdown: string, l: Link, c: char)
    requires c !in markdown
    requires Occurs(markdown, ToAnchorFormat(l))
    ensures c !in l.text
  {
    var a := ToAnchorFormat(l);
    AnchorFormatParts(l);
    var p: nat :| p <= |markdown| && OccursAt(markdown, a, p);
    forall j | 0 <= j < |l.text|
      ensures l.text[j] != c
    {
      assert l.text[j] == a[1..|l.text| + 1][j] == markdown[p..p + |a|][1 + j] == markdown[p + 1 + j];
      assert markdown[p + 1 + j] in markdown;
    }
  }

  /** When no link found in the input has a `$` in its text, the source's
      transformation and the model's coincide: the anchor keys never hold
      one, so no replacement string holds one. */
  lemma TransformAsWrittenAgrees(markdown: string)
    requires forall k :: 0 <= k < |FindAllLinks(markdown)| ==> '$' !in FindAllLinks(markdown)[k].text
    ensures TransformAsWritten(markdown) == Transform(markdown)
  {
    var links := FindAllLinks(markdown);
    var rec := GenerateLinksRecord(links);
    GenerateLinksRecordSpec(links);
    forall i | 0 <= i < |rec|
      ensures '$' !in rec[i].0 && '$' !in rec[i].1.text
    {
      AnchorKeyAvoids(i + 1);
    }
    ReplaceKeysAgree(markdown, rec, Keys(rec));
  }

  /** In particular, on every input without `$`. */
  lemma TransformAsWrittenAgreesDollarFree(markdown: string)
    requires '$' !in markdown
    ensures TransformAsWritten(markdown) == Transform(markdown)
  {
    FoundTextsAvoid(markdown, '$');
    TransformAsWrittenAgrees(markdown);
  }

  lemma AnchorKeyAvoids(n: nat)
    ensures '$' !in AnchorKey(n)
  {
    var d := Decimal.NatToString(n);
    assert AnchorKey(n) == "[^anchor" + d + "]";
    assert '$' !in d;
  }

  /** An anchor key not followed by `(` starts no match of the link
      pattern: the anchors `transform` writes do not become links. */
  lemma AnchorKeyStartsNoMatch(s: string, p: nat, n: nat)
    requires OccursAt(s, AnchorKey(n), p)
    requires p + |AnchorKey(n)| < |s| ==> s[p + |AnchorKey(n)|] != '('
    ensures MatchAt(s, p).None?
  {
    var k := AnchorKey(n);
    var d := Decimal.NatToString(n);
    assert k == "[^anchor" + d + "]";
    var close := p + |k| - 1;
    assert s[p..p + |k|] == k;
    forall j | p + 1 <= j < close
      ensures s[j] != ']'
    {
      assert s[j] == k[j - p];
      if j - p >= 8 {
        assert k[j - p] == d[j - p - 8];
      }
    }
    assert s[close] == k[|k| - 1] == ']';
    assert FirstFrom(s, ']', p + 1) == close;
  }

  /** `uniqueLinks` keeps a lone link, and two distinct links in order. */
  lemma UniqueLinksSmall(a: Link, b: Link)
    ensures UniqueLinks([a]) == [a]
    ensures a != b ==> UniqueLinks([a, b]) == [a, b]
  {
    assert FindIndex([a], a) == 0;
    assert UniqueFrom([a], 1) == [];
    if a != b {
      assert FindIndex([a, b], a) == 0;
      assert FindIndex([a, b], b) == 1;
      assert UniqueFrom([a, b], 2) == [];
      assert UniqueFrom([a, b], 1) == [b];
    }
  }

  lemma TwoLinkStages(markdown: string, a: Link, b: Link)
    ensures ReplaceLinksByAnchors(markdown, GenerateLinksRecord([a, b])) ==
      ReplaceAll(ReplaceAll(markdown, ToAnchorFormat(a), AnchorText(a, "[^anchor1]")), ToAnchorFormat(b), AnchorText(b, "[^anchor2]"))
    ensures GenerateFootnotes(GenerateLinksRecord([a, b])) == ["[^anchor1]: " + a.url, "[^anchor2]: " + b.url]
  {
    var rec := GenerateLinksRecord([a, b]);
    GenerateLinksRecordSpec([a, b]);
    assert AnchorKey(1) == "[^anchor1]";
    assert AnchorKey(2) == "[^anchor2]";
    assert rec == [("[^anchor1]", a), ("[^anchor2]", b)];
    var ks := Keys(rec);
    assert ks == ["[^anchor1]", "[^anchor2]"];
    LookupEntry(rec, 0);
    LookupEntry(rec, 1);
    var step1 := ReplaceLinkWithAnchor(markdown, rec, "[^anchor1]");
    var step2 := ReplaceLinkWithAnchor(step1, rec, "[^anchor2]");
    assert ks[1..] == ["[^anchor2]"];
    assert ReplaceKeys(step1, rec, ["[^anchor2]"]) == ReplaceKeys(step2, rec, []);
    assert ReplaceKeys(markdown, rec, ks) == ReplaceKeys(step1, rec, ks[1..]);
    GenerateFootnotesSpec(rec);
    var notes := GenerateFootnotes(rec);
    assert notes[0] == "[^anchor1]: " + a.url;
    assert notes[1] == "[^anchor2]: " + b.url;
  }

  /** With `a` and `b` as the unique links, in that order, the text has the
      inline forms of `a` replaced, then those of `b`, and is followed by
      the two footnotes. */
  lemma TransformTwoUniqueLinks(markdown: string, a: Link, b: Link)
    ensures TransformWith(markdown, [a, b]) ==
      ReplaceAll(ReplaceAll(markdown, ToAnchorFormat(a), AnchorText(a, "[^anchor1]")), ToAnchorFormat(b), AnchorText(b, "[^anchor2]"))
      + Separator + "[^anchor1]: " + a.url + Separator + "[^anchor2]: " + b.url
  {
    var n1 := "[^anchor1]: " + a.url;
    var n2 := "[^anchor2]: " + b.url;
    var replaced := ReplaceAll(ReplaceAll(markdown, ToAnchorFormat(a), AnchorText(a, "[^anchor1]")), ToAnchorFormat(b), AnchorText(b, "[^anchor2]"));
    TwoLinkStages(markdown, a, b);
    assert [n1, n2][1..] == [n2];
    assert Join([n1, n2], Separator) == n1 + Separator + n2;
    assert TransformWith(markdown, [a, b]) == AppendFootnotesToMarkdown(replaced, [n1, n2]);
  }

  /** One link amid text without `[`: the link becomes its text and
      anchor 1 in place, the rest of the text is kept, and the footnote
      follows. */
  lemma TransformLinkAmid(pre: string, l: Link, post: string)
    requires WellFormed(l)
    requires '[' !in pre && '[' !in post
    ensures Transform(pre + ToAnchorFormat(l) + post) ==
      pre + AnchorText(l, "[^anchor1]") + post + Separator + "[^anchor1]: " + l.url
  {
    var x := ToAnchorFormat(l);
    var s := pre + x + post;
    FindAllLinksAmid(pre, l, post);
    TransformOneUniqueLink(s, l);
    AnchorFormatParts(l);
    ReplaceAllAmid(pre, x, post, AnchorText(l, "[^anchor1]"));
  }

  /** The same for the source as written, when the link text holds no `$`. */
  lemma TransformAsWrittenLinkAmid(pre: string, l: Link, post: string)
    requires WellFormed(l) && '$' !in l.text
    requires '[' !in pre && '[' !in post
    ensures TransformAsWritten(pre + ToAnchorFormat(l) + post) ==
      pre + AnchorText(l, "[^anchor1]") + post + Separator + "[^anchor1]: " + l.url
  {
    FindAllLinksAmid(pre, l, post);
    TransformAsWrittenAgrees(pre + ToAnchorFormat(l) + post);
    TransformLinkAmid(pre, l, post);
  }

  lemma FindAllLinksAmid(pre: string, l: Link, post: string)
    requires WellFormed(l)
    requires '[' !in pre && '[' !in post
    ensures FindAllLinks(pre + ToAnchorFormat(l) + post) == [l]
  {
    ScanAmid(pre, l, post);
    UniqueLinksSmall(l, l);
  }

  lemma FindAllLinksTwoAmid(pre: string, a: Link, mid: string, b: Link, post: string)
    requires WellFormed(a) && WellFormed(b) && a != b
    requires '[' !in pre && '[' !in mid && '[' !in post
    ensures FindAllLinks(pre + ToAnchorFormat(a) + mid + ToAnchorFormat(b) + post) == [a, b]
  {
    ScanTwoAmid(pre, a, mid, b, post);
    UniqueLinksSmall(a, b);
  }

  /** Two distinct links amid text without `[` get anchors 1 and 2 in order
      of appearance, and two footnotes in that order. The text between them
      must not start with `(`, which would extend anchor 1 into a link. */
  lemma TransformTwoLinksAmid(pre: string, a: Link, mid: string, b: Link, post: string)
    requires WellFormed(a) && WellFormed(b) && a != b
    requires '[' !in a.text && '[' !in b.text && '[' !in b.url
    requires '[' !in pre && '[' !in mid && '[' !in post
    requires |mid| == 0 || mid[0] != '('
    ensures Transform(pre + ToAnchorFormat(a) + mid + ToAnchorFormat(b) + post) ==
      pre + AnchorText(a, "[^anchor1]") + mid + AnchorText(b, "[^anchor2]") + post
      + Separator + "[^anchor1]: " + a.url + Separator + "[^anchor2]: " + b.url
  {
    var s := pre + ToAnchorFormat(a) + mid + ToAnchorFormat(b) + post;
    FindAllLinksTwoAmid(pre, a, mid, b, post);
    TransformTwoUniqueLinks(s, a, b);
    FirstReplacement(pre, a, mid, b, post);
    SecondReplacement(pre, a, mid, b, post);
  }

  /** The same for the source as written, when the link texts hold no `$`. */
  lemma TransformAsWrittenTwoLinksAmid(pre: string, a: Link, mid: string, b: Link, post: string)
    requires WellFormed(a) && WellFormed(b) && a != b
    requires '$' !in a.text && '$' !in b.text
    requires '[' !in a.text && '[' !in b.text && '[' !in b.url
    requires '[' !in pre && '[' !in mid && '[' !in post
    requires |mid| == 0 || mid[0] != '('
    ensures TransformAsWritten(pre + ToAnchorFormat(a) + mid + ToAnchorFormat(b) + post) ==
      pre + AnchorText(a, "[^anchor1]") + mid + AnchorText(b, "[^anchor2]") + post
      + Separator + "[^anchor1]: " + a.url + Separator + "[^anchor2]: " + b.url
  {
    var s := pre + ToAnchorFormat(a) + mid + ToAnchorFormat(b) + post;
    FindAllLinksTwoAmid(pre, a, mid, b, post);
    TransformAsWrittenAgrees(s);
    TransformTwoLinksAmid(pre, a, mid, b, post);
  }

  /** The first step rewrites only the inline form of `a`. */
  lemma FirstReplacement(pre: string, a: Link, mid: string, b: Link, post: string)
    requires WellFormed(a) && WellFormed(b) && a != b
    requires '[' !in b.text && '[' !in b.url
    requires '[' !in pre && '[' !in mid && '[' !in post
    ensures ReplaceAll(pre + ToAnchorFormat(a) + mid + ToAnchorFormat(b) + post, ToAnchorFormat(a), AnchorText(a, "[^anchor1]")) ==
      pre + AnchorText(a, "[^anchor1]") + mid + ToAnchorFormat(b) + post
  {
    AnchorFormatParts(a);
    OnlyOwnInlineForm(a, b, post);
    ReplaceAllFirstOfTwo(pre, ToAnchorFormat(a), mid, ToAnchorFormat(b), post, AnchorText(a, "[^anchor1]"));
  }

  /** The second step rewrites only the inline form of `b`: anchor 1 is not
      the start of one. */
  lemma SecondReplacement(pre: string, a: Link, mid: string, b: Link, post: string)
    requires WellFormed(b)
    requires '[' !in a.text
    requires '[' !in pre && '[' !in mid && '[' !in post
    requires |mid| == 0 || mid[0] != '('
    ensures ReplaceAll(pre + AnchorText(a, "[^anchor1]") + mid + ToAnchorFormat(b) + post, ToAnchorFormat(b), AnchorText(b, "[^anchor2]")) ==
      pre + AnchorText(a, "[^anchor1]") + mid + AnchorText(b, "[^anchor2]") + post
  {
    AnchorFormatParts(b);
    AnchorTextHidesLink(a, mid + ToAnchorFormat(b) + post, b);
    ReplaceAllSecondOfTwo(pre, AnchorText(a, "[^anchor1]"), mid, ToAnchorFormat(b), post, AnchorText(b, "[^anchor2]"));
  }

  /** The anchor text of a link whose text holds no `[`, followed by a text
      that does not start with `(`, starts no inline form of a link. */
  lemma AnchorTextHidesLink(a: Link, rest: string, b: Link)
    requires '[' !in a.text && WellFormed(b)
    requires |rest| == 0 || rest[0] != '('
    ensures forall p: nat :: p < |AnchorText(a, "[^anchor1]")| ==>
      !OccursAt(AnchorText(a, "[^anchor1]") + rest, ToAnchorFormat(b), p)
  {
    var ra := AnchorText(a, "[^anchor1]");
    var s := ra + rest;
    var m := |a.text| + 1;
    assert AnchorKey(1) == "[^anchor1]";
    assert ra == a.text + " " + AnchorKey(1);
    forall p: nat | p < |ra|
      ensures !OccursAt(s, ToAnchorFormat(b), p)
    {
      if p == m {
        assert s[p..p + 10] == AnchorKey(1);
        if p + 10 < |s| {
          assert s[p + 10] == rest[0];
        }
        AnchorKeyStartsNoMatch(s, p, 1);
      } else if p < |a.text| {
        assert s[p] == a.text[p];
      } else {
        assert s[p] == ra[p];
      }
      assert MatchAt(s, p).None?;
      MatchAtIffPattern(s, p);
      assert WellFormed(b);
    }
  }

  /** The footnote block `transform` appends for anchor 1 starts no match
      of the link pattern: its `[` opens the key, which a `:` follows. */
  lemma FootnoteStartsNoMatch(a: string, url: string)
    requires '[' !in url
    ensures forall p :: |a| <= p < |a + Separator + "[^anchor1]: " + url| ==>
      MatchAt(a + Separator + "[^anchor1]: " + url, p).None?
  {
    var s := a + Separator + "[^anchor1]: " + url;
    var e := |a|;
    FootnoteLayout(a, url);
    PlainRange(s, e, e + 2, Separator);
    PlainRange(s, e + 3, e + 14, "^anchor1]: ");
    PlainRange(s, e + 14, |s|, url);
    forall p | e <= p < |s|
      ensures MatchAt(s, p).None?
    {
      if p == e + 2 {
        AnchorKeyStartsNoMatch(s, p, 1);
      }
    }
  }

  /** Where the parts of the footnote block sit. */
  lemma FootnoteLayout(a: string, url: string)
    ensures var s := a + Separator + "[^anchor1]: " + url; var e := |a|;
      && |s| == e + 14 + |url|
      && s[e..e + 2] == Separator && s[e + 3..e + 14] == "^anchor1]: " && s[e + 14..] == url
      && OccursAt(s, AnchorKey(1), e + 2) && s[e + 12] == ':'
  {
    var s := a + Separator + "[^anchor1]: " + url;
    var e := |a|;
    var line := "[^anchor1]: ";
    assert s[e + 2..e + 14] == line;
    assert AnchorKey(1) == "[^anchor1]";
    assert line[..10] == "[^anchor1]" && line[1..] == "^anchor1]: ";
    assert s[e + 2..e + 12] == line[..10];
    assert s[e + 3..e + 14] == line[1..];
  }

  /** No inline form of a well-formed link occurs in a part of the text
      where no match starts. */
  lemma NoMatchNoInlineForm(s: string, e: nat, l: Link)
    requires e <= |s| && WellFormed(l)
    requires forall p :: e <= p < |s| ==> MatchAt(s, p).None?
    ensures !Occurs(s[e..], ToAnchorFormat(l))
  {
    var x := ToAnchorFormat(l);
    forall p: nat | p <= |s| - e
      ensures !OccursAt(s[e..], x, p)
    {
      if p + |x| <= |s| - e {
        MatchAtIffPattern(s, e + p);
        assert s[e..][p..p + |x|] == s[e + p..e + p + |x|];
      }
    }
  }

  /** A link followed by the footnote block of anchor 1, as `transform`
      writes it: the link becomes anchor 1 and gets a second footnote line
      for the same key, while the existing line stays as text. */
  lemma TransformLinkBeforeFootnote(pre: string, l: Link, url: string)
    requires WellFormed(l) && '[' !in pre && '[' !in url
    ensures Transform(pre + ToAnchorFormat(l) + (Separator + "[^anchor1]: " + url)) ==
      pre + AnchorText(l, "[^anchor1]") + (Separator + "[^anchor1]: " + url) + Separator + "[^anchor1]: " + l.url
  {
    var s := pre + ToAnchorFormat(l) + (Separator + "[^anchor1]: " + url);
    FindAllLinksBeforeFootnote(pre, l, url);
    TransformOneUniqueLink(s, l);
    ReplaceBeforeFootnote(pre, l, url);
  }

  lemma FindAllLinksBeforeFootnote(pre: string, l: Link, url: string)
    requires WellFormed(l) && '[' !in pre && '[' !in url
    ensures FindAllLinks(pre + ToAnchorFormat(l) + (Separator + "[^anchor1]: " + url)) == [l]
  {
    var x := ToAnchorFormat(l);
    var s := pre + x + (Separator + "[^anchor1]: " + url);
    var e := |pre| + |x|;
    assert s == (pre + x) + Separator + "[^anchor1]: " + url;
    FootnoteStartsNoMatch(pre + x, url);
    assert OccursAt(s, x, |pre|) by {
      assert s[|pre|..e] == x;
    }
    PlainRange(s, 0, |pre|, pre);
    ScanFromPlainThen(s, 0, |pre|, l);
    NoMatchScanFrom(s, e);
    assert ScanFrom(s, 0) == [Found(l, |pre|, e)];
    assert Scan(s) == [l];
    UniqueLinksSmall(l, l);
  }

  lemma ReplaceBeforeFootnote(pre: string, l: Link, url: string)
    requires WellFormed(l) && '[' !in pre && '[' !in url
    ensures ReplaceAll(pre + ToAnchorFormat(l) + (Separator + "[^anchor1]: " + url), ToAnchorFormat(l), AnchorText(l, "[^anchor1]")) ==
      pre + AnchorText(l, "[^anchor1]") + (Separator + "[^anchor1]: " + url)
  {
    var x := ToAnchorFormat(l);
    var post := Separator + "[^anchor1]: " + url;
    var s := pre + x + post;
    var e := |pre| + |x|;
    assert s == (pre + x) + Separator + "[^anchor1]: " + url;
    FootnoteStartsNoMatch(pre + x, url);
    NoMatchNoInlineForm(s, e, l);
    assert s[e..] == post;
    AnchorFormatParts(l);
    ReplaceAllAmidAbsent(pre, x, post, AnchorText(l, "[^anchor1]"));
  }
}
