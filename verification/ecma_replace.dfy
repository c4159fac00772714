/** `String.prototype.replaceAll(searchString, replaceString)` as written
    in ECMAScript: the replacement string is not literal. For a string
    search value there are no capture groups, and four `$` sequences are
    expanded (the GetSubstitution operation of ECMA-262): `$$` gives `$`,
    `$&` the matched text, `` $` `` the text before the match, `$'` the
    text after it. Every other `$` is kept literally. */
module EcmaReplace {
  import opened Text

  /** GetSubstitution for a match of length `len` at index `pos` of `s`. */
  function Substitution(s: string, pos: nat, len: nat, rep: string): string
    requires pos + len <= |s|
    decreases |rep|
  {
    if |rep| == 0 then ""
    else if rep[0] == '$' && |rep| >= 2 && rep[1] == '$' then "$" + Substitution(s, pos, len, rep[2..])
    else if rep[0] == '$' && |rep| >= 2 && rep[1] == '&' then s[pos..pos + len] + Substitution(s, pos, len, rep[2..])
    else if rep[0] == '$' && |rep| >= 2 && rep[1] == '`' then s[..pos] + Substitution(s, pos, len, rep[2..])
    else if rep[0] == '$' && |rep| >= 2 && rep[1] == '\'' then s[pos + len..] + Substitution(s, pos, len, rep[2..])
    else
      assert rep == [rep[0]] + rep[1..];
      [rep[0]] + Substitution(s, pos, len, rep[1..])
  }

  /** A replacement without `$` is inserted as it is. */
  lemma {:induction false} SubstitutionLiteral(s: string, pos: nat, len: nat, rep: string)
    requires pos + len <= |s|
    requires '$' !in rep
    ensures Substitution(s, pos, len, rep) == rep
    decreases |rep|
  {
    if |rep| > 0 {
      assert rep[0] != '$';
      SubstitutionLiteral(s, pos, len, rep[1..]);
      assert rep == [rep[0]] + rep[1..];
    }
  }

  /** The replacement of every non-overlapping occurrence of `pat` in `s`
      from index `i` on; each occurrence's substitution sees the whole
      original string. */
  function ReplaceAllFrom(s: string, pat: string, rep: string, i: nat): string
    requires |pat| > 0 && i <= |s|
    decreases |s| - i
  {
    if |s| - i < |pat| then s[i..]
    else if s[i..i + |pat|] == pat then Substitution(s, i, |pat|, rep) + ReplaceAllFrom(s, pat, rep, i + |pat|)
    else [s[i]] + ReplaceAllFrom(s, pat, rep, i + 1)
  }

  /** `s.replaceAll(pat, rep)` with a non-empty string pattern. */
  function ReplaceAllJs(s: string, pat: string, rep: string): string
    requires |pat| > 0
  {
    ReplaceAllFrom(s, pat, rep, 0)
  }

  /** Without `$` in the replacement, `replaceAll` is the literal global
      replacement. */
  lemma {:induction false} ReplaceAllFromLiteral(s: string, pat: string, rep: string, i: nat)
    requires |pat| > 0 && i <= |s|
    requires '$' !in rep
    ensures ReplaceAllFrom(s, pat, rep, i) == ReplaceAll(s[i..], pat, rep)
    decreases |s| - i, 1
  {
    if |s| - i < |pat| {
      assert ReplaceAll(s[i..], pat, rep) == s[i..];
    } else if s[i..i + |pat|] == pat {
      MatchStep(s, pat, rep, i);
    } else {
      SkipStep(s, pat, rep, i);
    }
  }

  /** A match at `i`: both replacements put `rep` in its place and go on
      after it. */
  lemma {:induction false} MatchStep(s: string, pat: string, rep: string, i: nat)
    requires |pat| > 0 && i + |pat| <= |s|
    requires '$' !in rep && s[i..i + |pat|] == pat
    ensures ReplaceAllFrom(s, pat, rep, i) == ReplaceAll(s[i..], pat, rep)
    decreases |s| - i, 0
  {
    ReplaceAllFromLiteral(s, pat, rep, i + |pat|);
    var t := s[i..];
    assert t[..|pat|] == pat;
    assert t[|pat|..] == s[i + |pat|..];
    assert ReplaceAll(t, pat, rep) == rep + ReplaceAll(s[i + |pat|..], pat, rep);
    SubstitutionLiteral(s, i, |pat|, rep);
  }

  /** No match at `i`: both replacements keep `s[i]` and go on after it. */
  lemma {:induction false} SkipStep(s: string, pat: string, rep: string, i: nat)
    requires |pat| > 0 && i + |pat| <= |s|
    requires '$' !in rep && s[i..i + |pat|] != pat
    ensures ReplaceAllFrom(s, pat, rep, i) == ReplaceAll(s[i..], pat, rep)
    decreases |s| - i, 0
  {
    ReplaceAllFromLiteral(s, pat, rep, i + 1);
    var t := s[i..];
    assert t[..|pat|] == s[i..i + |pat|];
    assert t[0] == s[i] && t[1..] == s[i + 1..];
    assert ReplaceAll(t, pat, rep) == [s[i]] + ReplaceAll(s[i + 1..], pat, rep);
  }

  lemma ReplaceAllJsLiteral(s: string, pat: string, rep: string)
    requires |pat| > 0
    requires '$' !in rep
    ensures ReplaceAllJs(s, pat, rep) == ReplaceAll(s, pat, rep)
  {
    ReplaceAllFromLiteral(s, pat, rep, 0);
    assert s[0..] == s;
  }

  /** A replacement starting with `$&`, applied to a whole string that is
      the search value itself, puts the matched text back in front of the
      rest of the replacement, where the literal replacement does not. */
  lemma WholeMatchDollarAmpersand(s: string, tail: string)
    requires |s| > 0 && '$' !in tail
    ensures ReplaceAllJs(s, s, "$&" + tail) == s + tail
    ensures ReplaceAll(s, s, "$&" + tail) == "$&" + tail
  {
    var rep := "$&" + tail;
    assert rep[0] == '$' && rep[1] == '&' && rep[2..] == tail;
    SubstitutionLiteral(s, 0, |s|, tail);
    assert s[0..|s|] == s;
    assert Substitution(s, 0, |s|, rep) == s + tail;
    assert ReplaceAllFrom(s, s, rep, |s|) == [];
    assert ReplaceAllFrom(s, s, rep, 0) == s + tail + [];
    ReplaceAllWhole(s, rep);
  }
}
