/** A link extracted from inline Markdown: its visible text and its url.
    `MarkdownLink.create(text, url)` is the datatype constructor `Link`,
    which accepts any two strings. */
module MarkdownLink {

  datatype Link = Link(text: string, url: string)

  /** `toEqual`: field-by-field comparison, which is value equality. */
  function ToEqual(a: Link, b: Link): (eq: bool)
    ensures eq <==> a == b
  {
    a.text == b.text && a.url == b.url
  }

  lemma ToEqualReflexiveSymmetric(a: Link, b: Link)
    ensures ToEqual(a, a)
    ensures ToEqual(a, b) <==> ToEqual(b, a)
  {
  }

  /** `toAnchorFormat`: the inline form `[text](url)`. */
  function ToAnchorFormat(l: Link): (s: string)
    ensures |s| == |l.text| + |l.url| + 4
  {
    "[" + l.text + "](" + l.url + ")"
  }

  /** Where the parts of a link sit in its inline form. */
  lemma AnchorFormatParts(l: Link)
    ensures var s := ToAnchorFormat(l);
      && s[0] == '[' && s[|l.text| + 1] == ']' && s[|l.text| + 2] == '(' && s[|s| - 1] == ')'
      && s[1..|l.text| + 1] == l.text && s[|l.text| + 3..|s| - 1] == l.url
  {
  }

  /** When neither part holds a `[`, the inline form holds one only at its
      start. */
  lemma BracketOnlyAtStart(l: Link)
    requires '[' !in l.text && '[' !in l.url
    ensures forall p :: 0 < p < |ToAnchorFormat(l)| ==> ToAnchorFormat(l)[p] != '['
  {
    var s := ToAnchorFormat(l);
    AnchorFormatParts(l);
    forall p | 0 < p < |s|
      ensures s[p] != '['
    {
      if p <= |l.text| {
        assert s[p] == s[1..|l.text| + 1][p - 1] == l.text[p - 1];
      } else if |l.text| + 3 <= p < |s| - 1 {
        assert s[p] == s[|l.text| + 3..|s| - 1][p - |l.text| - 3] == l.url[p - |l.text| - 3];
      }
    }
  }

  /** The links the extraction pattern `\[([^\]]+)\]\(([^\)]+)\)` can
      produce: non-empty text without `]`, non-empty url without `)`. */
  predicate WellFormed(l: Link) {
    |l.text| > 0 && ']' !in l.text && |l.url| > 0 && ')' !in l.url
  }

  /** For well-formed links the inline form determines the link. */
  lemma AnchorFormatInjective(a: Link, b: Link)
    requires WellFormed(a) && WellFormed(b)
    requires ToAnchorFormat(a) == ToAnchorFormat(b)
    ensures ToEqual(a, b)
  {
    var s := ToAnchorFormat(a);
    AnchorFormatParts(a);
    AnchorFormatParts(b);
    if |a.text| < |b.text| {
      assert false;
    } else if |b.text| < |a.text| {
      assert false;
    }
  }
}
