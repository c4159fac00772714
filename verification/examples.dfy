/** The cases of the repository's test suite, each an instance of the
    general lemmas about `transform` and its stages. Every case is split
    into the instance itself and a lemma that spells the strings out. */
module Examples {
  import opened Text
  import opened EcmaReplace
  import opened MarkdownLink
  import opened LinkScan
  import opened LinksRecord
  import opened MarkdownTransformer

  const Visible: Link := Link("visible text link", "url")
  const Other: Link := Link("other visible text link", "other url")
  const Another: Link := Link("another visible text", "url")

  /** The inline forms and anchor texts of the test links, spelled out. */
  lemma PiecesSpelled()
    ensures ToAnchorFormat(Visible) == "[visible text link](url)"
    ensures ToAnchorFormat(Other) == "[other visible text link](other url)"
    ensures ToAnchorFormat(Another) == "[another visible text](url)"
    ensures AnchorText(Visible, "[^anchor1]") == "visible text link [^anchor1]"
    ensures AnchorText(Other, "[^anchor2]") == "other visible text link [^anchor2]"
    ensures AnchorText(Another, "[^anchor2]") == "another visible text [^anchor2]"
  {
    VisibleInline();
    VisibleAnchor();
    OtherInline();
    OtherAnchor();
    AnotherInline();
    AnotherAnchor();
  }

  lemma VisibleInline()
    ensures ToAnchorFormat(Visible) == "[visible text link](url)"
  {
  }

  lemma VisibleAnchor()
    ensures AnchorText(Visible, "[^anchor1]") == "visible text link [^anchor1]"
  {
  }

  lemma OtherInline()
    ensures ToAnchorFormat(Other) == "[other visible text link](other url)"
  {
  }

  lemma OtherAnchor()
    ensures AnchorText(Other, "[^anchor2]") == "other visible text link [^anchor2]"
  {
  }

  lemma AnotherInline()
    ensures ToAnchorFormat(Another) == "[another visible text](url)"
  {
  }

  lemma AnotherAnchor()
    ensures AnchorText(Another, "[^anchor2]") == "another visible text [^anchor2]"
  {
  }

  /** The empty string is a unit of concatenation. */
  lemma EmptyPieces(x: string)
    ensures "" + x == x && x + "" == x
  {
  }

  /** The test links are well formed, hold no `[`, and are pairwise
      distinct. */
  lemma TestLinks()
    ensures WellFormed(Visible) && WellFormed(Other) && WellFormed(Another)
    ensures '[' !in Visible.text && '[' !in Visible.url
    ensures '[' !in Other.text && '[' !in Other.url
    ensures '[' !in Another.text && '[' !in Another.url
    ensures Other != Visible && Another != Visible
  {
    VisibleWellFormed();
    VisibleNoBracket();
    OtherWellFormed();
    OtherNoBracket();
    AnotherWellFormed();
    AnotherNoBracket();
    assert Other.text != Visible.text && Another.text != Visible.text;
  }

  lemma VisibleWellFormed()
    ensures WellFormed(Visible)
  {
  }

  lemma VisibleNoBracket()
    ensures '[' !in Visible.text && '[' !in Visible.url
  {
  }

  lemma OtherWellFormed()
    ensures WellFormed(Other)
  {
  }

  lemma OtherNoBracket()
    ensures '[' !in Other.text && '[' !in Other.url
  {
  }

  lemma AnotherWellFormed()
    ensures WellFormed(Another)
  {
  }

  lemma AnotherNoBracket()
    ensures '[' !in Another.text && '[' !in Another.url
  {
  }

  /** Texts without links come back unchanged. */
  lemma NoLinks()
    ensures Transform("") == ""
    ensures Transform("text") == "text"
    ensures FindAllLinks("text without links") == []
    ensures Transform("text without links") == "text without links"
  {
    NoBracketNoMatch("");
    TransformWithoutLinks("");
    NoBracketNoMatch("text");
    TransformWithoutLinks("text");
    NoBracketNoMatch("text without links");
    TransformWithoutLinks("text without links");
  }

  /** One link and nothing else. */
  lemma LinkAlone()
    ensures Transform("[visible text link](url)") ==
      "visible text link [^anchor1]" + "\n\n" + "[^anchor1]: " + "url"
  {
    TestLinks();
    PiecesSpelled();
    TransformLinkAmid("", Visible, "");
    EmptyPieces(ToAnchorFormat(Visible));
    EmptyPieces(AnchorText(Visible, "[^anchor1]"));
  }

  /** Text before the link is kept. */
  lemma TextBeforeLink()
    ensures Transform("irrelevant " + "[visible text link](url)") ==
      "irrelevant " + "visible text link [^anchor1]" + "\n\n" + "[^anchor1]: " + "url"
  {
    TestLinks();
    PiecesSpelled();
    TransformLinkAmid("irrelevant ", Visible, "");
    EmptyPieces("irrelevant " + ToAnchorFormat(Visible));
    EmptyPieces("irrelevant " + AnchorText(Visible, "[^anchor1]"));
  }

  /** Text after the link is kept. */
  lemma TextAfterLink()
    ensures Transform("[visible text link](url)" + " irrelevant") ==
      "visible text link [^anchor1]" + " irrelevant" + "\n\n" + "[^anchor1]: " + "url"
  {
    TestLinks();
    PiecesSpelled();
    TransformLinkAmid("", Visible, " irrelevant");
    EmptyPieces(ToAnchorFormat(Visible));
    EmptyPieces(AnchorText(Visible, "[^anchor1]"));
  }

  /** Text on both sides of the link is kept. */
  lemma TextAroundLink()
    ensures Transform("irrelevant " + "[visible text link](url)" + " irrelevant") ==
      "irrelevant " + "visible text link [^anchor1]" + " irrelevant" + "\n\n" + "[^anchor1]: " + "url"
  {
    TestLinks();
    PiecesSpelled();
    TransformLinkAmid("irrelevant ", Visible, " irrelevant");
  }

  /** Two links side by side. */
  lemma TwoLinks()
    ensures Transform("[visible text link](url)" + "[other visible text link](other url)") ==
      "visible text link [^anchor1]" + "other visible text link [^anchor2]" + "\n\n" + "[^anchor1]: " + "url" + "\n\n" + "[^anchor2]: " + "other url"
  {
    TestLinks();
    PiecesSpelled();
    TransformTwoLinksAmid("", Visible, "", Other, "");
    EmptyPieces(ToAnchorFormat(Visible));
    EmptyPieces(ToAnchorFormat(Visible) + ToAnchorFormat(Other));
    EmptyPieces(AnchorText(Visible, "[^anchor1]"));
    EmptyPieces(AnchorText(Visible, "[^anchor1]") + AnchorText(Other, "[^anchor2]"));
  }

  /** Two links with text around and between them. */
  lemma TwoLinksAmidText()
    ensures Transform("some text " + "[visible text link](url)" + " some text " + "[other visible text link](other url)" + " some text") ==
      "some text " + "visible text link [^anchor1]" + " some text " + "other visible text link [^anchor2]" + " some text" + "\n\n" + "[^anchor1]: " + "url" + "\n\n" + "[^anchor2]: " + "other url"
  {
    TestLinks();
    PiecesSpelled();
    TransformTwoLinksAmid("some text ", Visible, " some text ", Other, " some text");
  }

  /** Two links with the same url still get two anchors. */
  lemma TwoLinksSameUrl()
    ensures Transform("[visible text link](url)" + "[another visible text](url)") ==
      "visible text link [^anchor1]" + "another visible text [^anchor2]" + "\n\n" + "[^anchor1]: " + "url" + "\n\n" + "[^anchor2]: " + "url"
  {
    TestLinks();
    PiecesSpelled();
    TransformTwoLinksAmid("", Visible, "", Another, "");
    EmptyPieces(ToAnchorFormat(Visible));
    EmptyPieces(ToAnchorFormat(Visible) + ToAnchorFormat(Another));
    EmptyPieces(AnchorText(Visible, "[^anchor1]"));
    EmptyPieces(AnchorText(Visible, "[^anchor1]") + AnchorText(Another, "[^anchor2]"));
  }

  /** Two links separated by a comma. */
  lemma TwoLinksComma()
    ensures Transform("[visible text link](url)" + ", " + "[another visible text](url)") ==
      "visible text link [^anchor1]" + ", " + "another visible text [^anchor2]" + "\n\n" + "[^anchor1]: " + "url" + "\n\n" + "[^anchor2]: " + "url"
  {
    TestLinks();
    PiecesSpelled();
    TransformTwoLinksAmid("", Visible, ", ", Another, "");
    EmptyPieces(ToAnchorFormat(Visible));
    EmptyPieces(ToAnchorFormat(Visible) + ", " + ToAnchorFormat(Another));
    EmptyPieces(AnchorText(Visible, "[^anchor1]"));
    EmptyPieces(AnchorText(Visible, "[^anchor1]") + ", " + AnchorText(Another, "[^anchor2]"));
  }

  /** The same link twice: one footnote, both occurrences on anchor 1. */
  lemma RepeatedLink()
    ensures Transform("[visible text link](url)" + "[visible text link](url)") ==
      "visible text link [^anchor1]" + "visible text link [^anchor1]" + "\n\n" + "[^anchor1]: " + "url"
  {
    TestLinks();
    PiecesSpelled();
    TransformRepeatedLink(Visible);
  }

  /** `findAllLinks` on the test texts. */
  lemma FindAllLinksCases()
    ensures FindAllLinks("[visible text link](url)") == [Visible]
    ensures FindAllLinks("[visible text link](url)" + "[other visible text link](other url)") == [Visible, Other]
    ensures FindAllLinks("[visible text link](url)" + " text in the middle " + "[other visible text link](other url)") == [Visible, Other]
    ensures FindAllLinks("[visible text link](url)" + "[visible text link](url)") == [Visible]
  {
    TestLinks();
    PiecesSpelled();
    FindAllLinksSingle(Visible);
    FindAllLinksTwoAmid("", Visible, "", Other, "");
    EmptyPieces(ToAnchorFormat(Visible));
    EmptyPieces(ToAnchorFormat(Visible) + ToAnchorFormat(Other));
    FindAllLinksTwoAmid("", Visible, " text in the middle ", Other, "");
    EmptyPieces(ToAnchorFormat(Visible) + " text in the middle " + ToAnchorFormat(Other));
    FindAllLinksRepeated(Visible);
  }

  /** `generateLinksRecord` on two links. */
  lemma RecordOfTwoLinks()
    ensures GenerateLinksRecord([Visible, Other]) == [("[^anchor1]", Visible), ("[^anchor2]", Other)]
  {
    GenerateLinksRecordSpec([Visible, Other]);
    assert AnchorKey(1) == "[^anchor1]";
    assert AnchorKey(2) == "[^anchor2]";
  }

  /** The stages of `transform` on the text of one link. `generateFootnotes`
      returns a list of lines: here the single line `[^anchor1]: url`. */
  lemma StagesOfOneLink()
    ensures ReplaceLinksByAnchors("[visible text link](url)", GenerateLinksRecord(FindAllLinks("[visible text link](url)")))
      == "visible text link [^anchor1]"
    ensures GenerateFootnotes(GenerateLinksRecord(FindAllLinks("[visible text link](url)"))) == ["[^anchor1]: " + "url"]
    ensures AppendFootnotesToMarkdown("visible text link [^anchor1]", ["[^anchor1]: " + "url"]) ==
      "visible text link [^anchor1]" + "\n\n" + "[^anchor1]: " + "url"
  {
    TestLinks();
    PiecesSpelled();
    FindAllLinksSingle(Visible);
    OneLinkStages(ToAnchorFormat(Visible), Visible);
    ReplaceAllWhole(ToAnchorFormat(Visible), AnchorText(Visible, "[^anchor1]"));
    assert Join(["[^anchor1]: " + "url"], Separator) == "[^anchor1]: " + "url";
  }

  /** The replacement stage on the text of one link, for the source as
      written: its `replaceAll` gets a replacement without `$`, so it is the
      literal replacement. */
  lemma ReplaceStageAsWritten()
    ensures ReplaceKeysAsWritten("[visible text link](url)", GenerateLinksRecord(FindAllLinks("[visible text link](url)")),
      Keys(GenerateLinksRecord(FindAllLinks("[visible text link](url)")))) == "visible text link [^anchor1]"
  {
    TestLinks();
    VisibleNoDollar();
    PiecesSpelled();
    FindAllLinksSingle(Visible);
    var x := ToAnchorFormat(Visible);
    var rep := AnchorText(Visible, "[^anchor1]");
    OneLinkAsWritten(x, Visible);
    ReplaceAllJsLiteral(x, x, rep);
    ReplaceAllWhole(x, rep);
  }

  /** Running `transform` on its own output is not a no-op: in `[x](y)(z)`
      the link `[x](y)` becomes `x [^anchor1]`, which with the `(z)` after
      it is the inline form of a link with text `^anchor1` and url `z`. */
  lemma TransformNotIdempotent()
    ensures Transform("[x](y)" + "(z)") == "x [^anchor1]" + "(z)" + "\n\n" + "[^anchor1]: " + "y"
    ensures Transform(Transform("[x](y)" + "(z)")) != Transform("[x](y)" + "(z)")
  {
    var second := Link("^anchor1", "z");
    FirstRun();
    var t := "x [^anchor1]" + "(z)" + "\n\n" + "[^anchor1]: " + "y";
    SecondRunInput();
    TransformLinkBeforeFootnote("x ", second, "y");
    assert |Transform(t)| == |t| + 21;
  }

  lemma FirstRun()
    ensures Transform("[x](y)" + "(z)") == "x [^anchor1]" + "(z)" + "\n\n" + "[^anchor1]: " + "y"
  {
    var first := Link("x", "y");
    FirstRunPieces();
    TransformLinkAmid("", first, "(z)");
    EmptyPieces(ToAnchorFormat(first));
    EmptyPieces(AnchorText(first, "[^anchor1]"));
  }

  lemma FirstRunPieces()
    ensures ToAnchorFormat(Link("x", "y")) == "[x](y)"
    ensures AnchorText(Link("x", "y"), "[^anchor1]") == "x [^anchor1]"
    ensures WellFormed(Link("x", "y"))
  {
  }

  /** The output of the first run, read as a link amid text. */
  lemma SecondRunInput()
    ensures "x [^anchor1]" + "(z)" + "\n\n" + "[^anchor1]: " + "y" ==
      "x " + ToAnchorFormat(Link("^anchor1", "z")) + (Separator + "[^anchor1]: " + "y")
    ensures WellFormed(Link("^anchor1", "z"))
  {
    assert "x [^anchor1]" + "(z)" == "x " + ToAnchorFormat(Link("^anchor1", "z"));
  }

  /** The link texts of the test links hold no `$`, so the source as
      written produces the same outputs as the model on the test texts. */
  lemma VisibleNoDollar()
    ensures '$' !in Visible.text
  {
  }

  lemma OtherNoDollar()
    ensures '$' !in Other.text
  {
  }

  lemma AnotherNoDollar()
    ensures '$' !in Another.text
  {
  }

  /** The link-free cases, for the source as written. */
  lemma NoLinksAsWritten()
    ensures TransformAsWritten("") == ""
    ensures TransformAsWritten("text") == "text"
    ensures TransformAsWritten("text without links") == "text without links"
  {
    NoLinksAsWrittenOne("");
    NoLinksAsWrittenOne("text");
    NoLinksAsWrittenOne("text without links");
  }

  lemma NoLinksAsWrittenOne(s: string)
    requires '[' !in s
    ensures TransformAsWritten(s) == s
  {
    NoBracketNoMatch(s);
    TransformWithoutLinks(s);
    TransformAsWrittenAgrees(s);
  }

  /** The one-link case, for the source as written. */
  lemma LinkAloneAsWritten()
    ensures TransformAsWritten("[visible text link](url)") ==
      "visible text link [^anchor1]" + "\n\n" + "[^anchor1]: " + "url"
  {
    TestLinks();
    VisibleNoDollar();
    PiecesSpelled();
    TransformAsWrittenLinkAmid("", Visible, "");
    EmptyPieces(ToAnchorFormat(Visible));
    EmptyPieces(AnchorText(Visible, "[^anchor1]"));
  }

  lemma TextBeforeLinkAsWritten()
    ensures TransformAsWritten("irrelevant " + "[visible text link](url)") ==
      "irrelevant " + "visible text link [^anchor1]" + "\n\n" + "[^anchor1]: " + "url"
  {
    TestLinks();
    VisibleNoDollar();
    PiecesSpelled();
    TransformAsWrittenLinkAmid("irrelevant ", Visible, "");
    EmptyPieces("irrelevant " + ToAnchorFormat(Visible));
    EmptyPieces("irrelevant " + AnchorText(Visible, "[^anchor1]"));
  }

  lemma TextAfterLinkAsWritten()
    ensures TransformAsWritten("[visible text link](url)" + " irrelevant") ==
      "visible text link [^anchor1]" + " irrelevant" + "\n\n" + "[^anchor1]: " + "url"
  {
    TestLinks();
    VisibleNoDollar();
    PiecesSpelled();
    TransformAsWrittenLinkAmid("", Visible, " irrelevant");
    EmptyPieces(ToAnchorFormat(Visible));
    EmptyPieces(AnchorText(Visible, "[^anchor1]"));
  }

  lemma TextAroundLinkAsWritten()
    ensures TransformAsWritten("irrelevant " + "[visible text link](url)" + " irrelevant") ==
      "irrelevant " + "visible text link [^anchor1]" + " irrelevant" + "\n\n" + "[^anchor1]: " + "url"
  {
    TestLinks();
    VisibleNoDollar();
    PiecesSpelled();
    TransformAsWrittenLinkAmid("irrelevant ", Visible, " irrelevant");
  }

  /** The two-link cases, for the source as written. */
  lemma TwoLinksAsWritten()
    ensures TransformAsWritten("[visible text link](url)" + "[other visible text link](other url)") ==
      "visible text link [^anchor1]" + "other visible text link [^anchor2]" + "\n\n" + "[^anchor1]: " + "url" + "\n\n" + "[^anchor2]: " + "other url"
  {
    TestLinks();
    VisibleNoDollar();
    OtherNoDollar();
    PiecesSpelled();
    TransformAsWrittenTwoLinksAmid("", Visible, "", Other, "");
    EmptyPieces(ToAnchorFormat(Visible));
    EmptyPieces(ToAnchorFormat(Visible) + ToAnchorFormat(Other));
    EmptyPieces(AnchorText(Visible, "[^anchor1]"));
    EmptyPieces(AnchorText(Visible, "[^anchor1]") + AnchorText(Other, "[^anchor2]"));
  }

  lemma TwoLinksAmidTextAsWritten()
    ensures TransformAsWritten("some text " + "[visible text link](url)" + " some text " + "[other visible text link](other url)" + " some text") ==
      "some text " + "visible text link [^anchor1]" + " some text " + "other visible text link [^anchor2]" + " some text" + "\n\n" + "[^anchor1]: " + "url" + "\n\n" + "[^anchor2]: " + "other url"
  {
    TestLinks();
    VisibleNoDollar();
    OtherNoDollar();
    PiecesSpelled();
    TransformAsWrittenTwoLinksAmid("some text ", Visible, " some text ", Other, " some text");
  }

  lemma TwoLinksSameUrlAsWritten()
    ensures TransformAsWritten("[visible text link](url)" + "[another visible text](url)") ==
      "visible text link [^anchor1]" + "another visible text [^anchor2]" + "\n\n" + "[^anchor1]: " + "url" + "\n\n" + "[^anchor2]: " + "url"
  {
    TestLinks();
    VisibleNoDollar();
    AnotherNoDollar();
    PiecesSpelled();
    TransformAsWrittenTwoLinksAmid("", Visible, "", Another, "");
    EmptyPieces(ToAnchorFormat(Visible));
    EmptyPieces(ToAnchorFormat(Visible) + ToAnchorFormat(Another));
    EmptyPieces(AnchorText(Visible, "[^anchor1]"));
    EmptyPieces(AnchorText(Visible, "[^anchor1]") + AnchorText(Another, "[^anchor2]"));
  }

  lemma TwoLinksCommaAsWritten()
    ensures TransformAsWritten("[visible text link](url)" + ", " + "[another visible text](url)") ==
      "visible text link [^anchor1]" + ", " + "another visible text [^anchor2]" + "\n\n" + "[^anchor1]: " + "url" + "\n\n" + "[^anchor2]: " + "url"
  {
    TestLinks();
    VisibleNoDollar();
    AnotherNoDollar();
    PiecesSpelled();
    TransformAsWrittenTwoLinksAmid("", Visible, ", ", Another, "");
    EmptyPieces(ToAnchorFormat(Visible));
    EmptyPieces(ToAnchorFormat(Visible) + ", " + ToAnchorFormat(Another));
    EmptyPieces(AnchorText(Visible, "[^anchor1]"));
    EmptyPieces(AnchorText(Visible, "[^anchor1]") + ", " + AnchorText(Another, "[^anchor2]"));
  }

  /** The repeated link, for the source as written. */
  lemma RepeatedLinkAsWritten()
    ensures TransformAsWritten("[visible text link](url)" + "[visible text link](url)") ==
      "visible text link [^anchor1]" + "visible text link [^anchor1]" + "\n\n" + "[^anchor1]: " + "url"
  {
    RepeatedLink();
    TestLinks();
    VisibleNoDollar();
    PiecesSpelled();
    FindAllLinksRepeated(Visible);
    TransformAsWrittenAgrees(ToAnchorFormat(Visible) + ToAnchorFormat(Visible));
  }

  /** A `$` outside every link text leaves the source and the model in
      agreement: `$5 [a](u)` becomes `$5 a [^anchor1]` and its footnote, and
      the link-free `$$` comes back unchanged. */
  lemma DollarOutsideLinks()
    ensures TransformAsWritten("$5 " + "[a](u)") == "$5 " + "a [^anchor1]" + "\n\n" + "[^anchor1]: " + "u"
    ensures TransformAsWritten("$$") == "$$"
  {
    var l := Link("a", "u");
    assert ToAnchorFormat(l) == "[a](u)";
    assert AnchorText(l, "[^anchor1]") == "a [^anchor1]";
    TransformAsWrittenLinkAmid("$5 ", l, "");
    EmptyPieces("$5 " + ToAnchorFormat(l));
    EmptyPieces("$5 " + AnchorText(l, "[^anchor1]"));
    NoLinksAsWrittenOne("$$");
  }
}
