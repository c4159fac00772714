/** `findAllLinks` and `uniqueLinks`: the global scan with the pattern
    `\[([^\]]+)\]\(([^\)]+)\)` and the de-duplication that keeps the first
    occurrence of each link.

    The pattern needs no regex engine. Its label class excludes `]` and its
    url class excludes `)`, so at an index holding `[` there is at most one
    match: the label runs to the first `]`, a `(` must follow, and the url
    runs to the first `)` after it. A failed attempt moves the scan one index
    on; a match moves it to just past the closing `)`. */
module LinkScan {
  import opened Text
  import opened MarkdownLink

  datatype Option<T> = None | Some(value: T)

  /** One match of the pattern: the link it captures and the half-open range
      `[start, end)` of the matched text. */
  datatype Found = Found(link: Link, start: nat, end: nat)

  /** The first index `j >= i` with `s[j] == c`, or `|s|` when there is none. */
  function FirstFrom(s: string, c: char, i: nat): (j: nat)
    requires i <= |s|
    ensures i <= j <= |s|
    ensures j < |s| ==> s[j] == c
    ensures forall k :: i <= k < j ==> s[k] != c
    decreases |s| - i
  {
    if i == |s| || s[i] == c then i else FirstFrom(s, c, i + 1)
  }

  /** The match of the pattern that starts at index `i`, with the index just
      past it, if there is one. */
  function MatchAt(s: string, i: nat): (m: Option<(Link, nat)>)
    requires i <= |s|
    ensures m.Some? ==> i < m.value.1 <= |s|
  {
    if i == |s| || s[i] != '[' then None
    else
      var close := FirstFrom(s, ']', i + 1);
      if close == |s| || close == i + 1 || close + 1 == |s| || s[close + 1] != '(' then None
      else
        var paren := FirstFrom(s, ')', close + 2);
        if paren == |s| || paren == close + 2 then None
        else
          Some((Link(s[i + 1..close], s[close + 2..paren]), paren + 1))
  }

  /** What a match captures is a well-formed link whose inline form is
      exactly the matched text. */
  lemma MatchAtSound(s: string, i: nat)
    requires i <= |s|
    ensures MatchAt(s, i).Some? ==> WellFormed(MatchAt(s, i).value.0)
    ensures MatchAt(s, i).Some? ==> s[i..MatchAt(s, i).value.1] == ToAnchorFormat(MatchAt(s, i).value.0)
  {
    if MatchAt(s, i).Some? {
      var close := FirstFrom(s, ']', i + 1);
      var paren := FirstFrom(s, ')', close + 2);
      var l := Link(s[i + 1..close], s[close + 2..paren]);
      assert MatchAt(s, i) == Some((l, paren + 1));
      assert s[i..paren + 1] == "[" + l.text + "](" + l.url + ")";
    }
  }

  /** Conversely, wherever the inline form of a well-formed link starts,
      the scan matches exactly that link. */
  lemma MatchAtComplete(s: string, i: nat, l: Link)
    requires WellFormed(l)
    requires OccursAt(s, ToAnchorFormat(l), i)
    ensures MatchAt(s, i) == Some((l, i + |ToAnchorFormat(l)|))
  {
    var close := i + |l.text| + 1;
    var paren := close + |l.url| + 2;
    InlineBrackets(s, i, l);
    InlineLabelEnd(s, i, l);
    InlineUrlEnd(s, i, l);
    MatchAtFound(s, i, close, paren);
  }

  /** Where an inline form starts: its `[`, its `(`, its text and its url. */
  lemma InlineBrackets(s: string, i: nat, l: Link)
    requires OccursAt(s, ToAnchorFormat(l), i)
    ensures s[i] == '[' && s[i + |l.text| + 2] == '('
    ensures s[i + 1..i + |l.text| + 1] == l.text
    ensures s[i + |l.text| + 3..i + |l.text| + |l.url| + 3] == l.url
  {
    var a := ToAnchorFormat(l);
    AnchorFormatParts(l);
    var w := s[i..i + |a|];
    assert s[i] == w[0];
    assert s[i + |l.text| + 2] == w[|l.text| + 2];
    SliceOfSlice(s, i, i + |a|, 1, |l.text| + 1);
    SliceOfSlice(s, i, i + |a|, |l.text| + 3, |a| - 1);
  }

  /** The label of an inline form ends at the first `]` after its `[`. */
  lemma InlineLabelEnd(s: string, i: nat, l: Link)
    requires WellFormed(l) && OccursAt(s, ToAnchorFormat(l), i)
    ensures FirstFrom(s, ']', i + 1) == i + |l.text| + 1
  {
    var a := ToAnchorFormat(l);
    var close := i + |l.text| + 1;
    AnchorFormatParts(l);
    var w := s[i..i + |a|];
    forall k | i + 1 <= k < close
      ensures s[k] != ']'
    {
      assert s[k] == w[k - i] == w[1..|l.text| + 1][k - i - 1];
    }
    assert s[close] == w[close - i];
    FirstFromAt(s, ']', i + 1, close);
  }

  /** The url of an inline form ends at the first `)` after its `(`. */
  lemma InlineUrlEnd(s: string, i: nat, l: Link)
    requires WellFormed(l) && OccursAt(s, ToAnchorFormat(l), i)
    ensures FirstFrom(s, ')', i + |l.text| + 3) == i + |l.text| + |l.url| + 3
  {
    var a := ToAnchorFormat(l);
    var start := i + |l.text| + 3;
    var paren := start + |l.url|;
    AnchorFormatParts(l);
    var w := s[i..i + |a|];
    forall k | start <= k < paren
      ensures s[k] != ')'
    {
      assert s[k] == w[k - i] == w[|l.text| + 3..|a| - 1][k - start];
    }
    assert s[paren] == w[paren - i];
    FirstFromAt(s, ')', start, paren);
  }

  /** The first `c` at or after `i` is at `j` when `s[j]` is one and none
      comes between. */
  lemma FirstFromAt(s: string, c: char, i: nat, j: nat)
    requires i <= j < |s| && s[j] == c
    requires forall k :: i <= k < j ==> s[k] != c
    ensures FirstFrom(s, c, i) == j
  {
  }

  /** MatchAt once the positions of the closing `]` and `)` are known. */
  lemma MatchAtFound(s: string, i: nat, close: nat, paren: nat)
    requires i < |s| && s[i] == '['
    requires i + 1 < close && close + 2 < paren < |s|
    requires FirstFrom(s, ']', i + 1) == close && s[close + 1] == '('
    requires FirstFrom(s, ')', close + 2) == paren
    ensures MatchAt(s, i) == Some((Link(s[i + 1..close], s[close + 2..paren]), paren + 1))
  {
  }

  /** A match starts at `i` exactly when the text there is the inline form
      of some well-formed link. */
  lemma MatchAtIffPattern(s: string, i: nat)
    requires i <= |s|
    ensures MatchAt(s, i).Some? <==> exists l :: WellFormed(l) && OccursAt(s, ToAnchorFormat(l), i)
  {
    if MatchAt(s, i).Some? {
      MatchAtSound(s, i);
      var l := MatchAt(s, i).value.0;
      assert OccursAt(s, ToAnchorFormat(l), i);
    }
    if exists l :: WellFormed(l) && OccursAt(s, ToAnchorFormat(l), i) {
      var l :| WellFormed(l) && OccursAt(s, ToAnchorFormat(l), i);
      MatchAtComplete(s, i, l);
    }
  }

  /** `matchAll` from index `i`: every match, left to right, non-overlapping. */
  function ScanFrom(s: string, i: nat): seq<Found>
    requires i <= |s|
    decreases |s| - i
  {
    if i == |s| then []
    else
      var m := MatchAt(s, i);
      if m.Some? then [Found(m.value.0, i, m.value.1)] + ScanFrom(s, m.value.1)
      else ScanFrom(s, i + 1)
  }

  /** Each of `fs` is a real match of the pattern at its start, at or
      after `i`. */
  predicate ReportsMatches(s: string, fs: seq<Found>, i: nat) {
    forall k :: 0 <= k < |fs| ==>
      i <= fs[k].start <= |s| && MatchAt(s, fs[k].start) == Some((fs[k].link, fs[k].end))
  }

  /** The matches `fs` come left to right without overlap. */
  predicate LeftToRight(fs: seq<Found>) {
    forall k :: 0 <= k < |fs| - 1 ==> fs[k].end <= fs[k + 1].start
  }

  /** Each reported match is a real match of the pattern at its start, at
      or after `i`, and the matches come left to right without overlap. */
  lemma {:induction false} ScanFromSound(s: string, i: nat)
    requires i <= |s|
    ensures ReportsMatches(s, ScanFrom(s, i), i)
    ensures LeftToRight(ScanFrom(s, i))
    decreases |s| - i
  {
    if i < |s| {
      var m := MatchAt(s, i);
      if m.Some? {
        ScanFromSound(s, m.value.1);
        SoundCons(s, Found(m.value.0, i, m.value.1), ScanFrom(s, m.value.1));
      } else {
        ScanFromSound(s, i + 1);
      }
    }
  }

  lemma SoundCons(s: string, f: Found, rest: seq<Found>)
    requires f.start < f.end && f.start <= |s| && MatchAt(s, f.start) == Some((f.link, f.end))
    requires ReportsMatches(s, rest, f.end) && LeftToRight(rest)
    ensures ReportsMatches(s, [f] + rest, f.start) && LeftToRight([f] + rest)
  {
    var fs := [f] + rest;
    forall k | 0 < k < |fs|
      ensures fs[k] == rest[k - 1]
    {
    }
  }

  /** Index `p` lies inside one of the matches `fs`. */
  predicate Covered(fs: seq<Found>, p: nat) {
    exists k :: 0 <= k < |fs| && fs[k].start <= p < fs[k].end
  }

  /** Every index from `i` on where a match could start lies inside one of
      the matches the scan reports: the scan misses nothing. */
  lemma {:induction false} ScanFromCovers(s: string, i: nat, p: nat)
    requires i <= p < |s|
    requires MatchAt(s, p).Some?
    ensures Covered(ScanFrom(s, i), p)
    decreases |s| - i
  {
    var m := MatchAt(s, i);
    if m.Some? {
      var e := m.value.1;
      if e <= p {
        ScanFromCovers(s, e, p);
      }
      CoveredCons(Found(m.value.0, i, e), ScanFrom(s, e), p);
    } else {
      assert p != i;
      ScanFromCovers(s, i + 1, p);
    }
  }

  lemma CoveredCons(f: Found, rest: seq<Found>, p: nat)
    requires f.start <= p < f.end || Covered(rest, p)
    ensures Covered([f] + rest, p)
  {
    var fs := [f] + rest;
    if !(f.start <= p < f.end) {
      var k :| 0 <= k < |rest| && rest[k].start <= p < rest[k].end;
      assert fs[k + 1] == rest[k];
    } else {
      assert fs[0] == f;
    }
  }

  /** The links captured by the global scan, in match order. */
  function Scan(s: string): (links: seq<Link>)
    ensures |links| == |ScanFrom(s, 0)|
  {
    var fs := ScanFrom(s, 0);
    seq(|fs|, k requires 0 <= k < |fs| => fs[k].link)
  }

  /** Every link the scan captures is well formed and its inline form
      occurs in the text. */
  lemma ScanSound(s: string)
    ensures forall k :: 0 <= k < |Scan(s)| ==> WellFormed(Scan(s)[k]) && Occurs(s, ToAnchorFormat(Scan(s)[k]))
  {
    var fs := ScanFrom(s, 0);
    ScanFromSound(s, 0);
    forall k | 0 <= k < |fs|
      ensures WellFormed(fs[k].link) && Occurs(s, ToAnchorFormat(fs[k].link))
    {
      MatchAtSound(s, fs[k].start);
      assert OccursAt(s, ToAnchorFormat(fs[k].link), fs[k].start);
    }
  }

  /** The scan finds nothing exactly when no index of `s` starts a match. */
  lemma ScanEmptyIff(s: string)
    ensures Scan(s) == [] <==> forall p :: 0 <= p < |s| ==> MatchAt(s, p).None?
  {
    if exists p :: 0 <= p < |s| && MatchAt(s, p).Some? {
      var p :| 0 <= p < |s| && MatchAt(s, p).Some?;
      ScanFromCovers(s, 0, p);
    }
    if forall p :: 0 <= p < |s| ==> MatchAt(s, p).None? {
      NoMatchScanFrom(s, 0);
    }
  }

  lemma {:induction false} NoMatchScanFrom(s: string, i: nat)
    requires i <= |s|
    requires forall p :: i <= p < |s| ==> MatchAt(s, p).None?
    ensures ScanFrom(s, i) == []
    decreases |s| - i
  {
    if i < |s| {
      NoMatchScanFrom(s, i + 1);
    }
  }

  /** A text without `[` holds no link. */
  lemma NoBracketNoMatch(s: string)
    requires '[' !in s
    ensures forall p :: 0 <= p < |s| ==> MatchAt(s, p).None?
  {
  }

  /** The inline form of a link whose parts hold no `[`, followed by a text
      without `[`, contains the inline form of no other well-formed link. */
  lemma OnlyOwnInlineForm(a: Link, b: Link, post: string)
    requires WellFormed(a) && WellFormed(b)
    requires '[' !in b.text && '[' !in b.url && '[' !in post
    ensures Occurs(ToAnchorFormat(b) + post, ToAnchorFormat(a)) ==> a == b
  {
    var y := ToAnchorFormat(b);
    var t := y + post;
    if Occurs(t, ToAnchorFormat(a)) {
      var p: nat :| p <= |t| && OccursAt(t, ToAnchorFormat(a), p);
      MatchAtComplete(t, p, a);
      BracketOnlyAtStart(b);
      forall q | 0 < q < |t|
        ensures t[q] != '['
      {
        if q < |y| {
          assert t[q] == y[q];
        } else {
          assert t[q] == post[q - |y|];
        }
      }
      assert p == 0;
      assert OccursAt(t, y, 0);
      MatchAtComplete(t, 0, b);
    }
  }

  /** The scan passes over a stretch without `[` without reporting
      anything. */
  lemma {:induction false} ScanFromSkip(s: string, i: nat, j: nat)
    requires i <= j <= |s|
    requires forall p :: i <= p < j ==> s[p] != '['
    ensures ScanFrom(s, i) == ScanFrom(s, j)
    decreases j - i
  {
    if i < j {
      assert MatchAt(s, i).None?;
      ScanFromSkip(s, i + 1, j);
    }
  }

  /** Where the inline form of a well-formed link starts, the scan reports
      it and resumes right after it. */
  lemma ScanFromAt(s: string, i: nat, l: Link)
    requires WellFormed(l)
    requires OccursAt(s, ToAnchorFormat(l), i)
    ensures ScanFrom(s, i) == [Found(l, i, i + |ToAnchorFormat(l)|)] + ScanFrom(s, i + |ToAnchorFormat(l)|)
  {
    assert i < |s|;
    MatchAtComplete(s, i, l);
  }

  /** Scanning the inline form of a well-formed link yields exactly that
      link: `toAnchorFormat` and the extraction pattern are inverse. */
  lemma ScanAnchorFormat(l: Link)
    requires WellFormed(l)
    ensures Scan(ToAnchorFormat(l)) == [l]
  {
    var a := ToAnchorFormat(l);
    assert OccursAt(a, a, 0);
    ScanFromAt(a, 0, l);
    assert ScanFrom(a, 0) == [Found(l, 0, |a|)];
  }

  /** Two inline forms side by side scan as the two links. */
  lemma ScanPair(a: Link, b: Link)
    requires WellFormed(a) && WellFormed(b)
    ensures Scan(ToAnchorFormat(a) + ToAnchorFormat(b)) == [a, b]
  {
    var x := ToAnchorFormat(a);
    var y := ToAnchorFormat(b);
    var s := x + y;
    assert s[0..|x|] == x;
    assert s[|x|..|x| + |y|] == y;
    ScanTwo(s, a, b);
  }

  lemma ScanTwo(s: string, a: Link, b: Link)
    requires WellFormed(a) && WellFormed(b)
    requires OccursAt(s, ToAnchorFormat(a), 0)
    requires OccursAt(s, ToAnchorFormat(b), |ToAnchorFormat(a)|)
    requires |s| == |ToAnchorFormat(a)| + |ToAnchorFormat(b)|
    ensures Scan(s) == [a, b]
  {
    var n := |ToAnchorFormat(a)|;
    ScanFromAt(s, 0, a);
    ScanFromAt(s, n, b);
    var tail := ScanFrom(s, n);
    assert tail == [Found(b, n, |s|)];
    var fs := ScanFrom(s, 0);
    assert fs == [Found(a, 0, n)] + tail;
  }

  /** After a stretch without `[`, the scan reports the link whose inline
      form starts there and resumes right after it. */
  lemma ScanFromPlainThen(s: string, i: nat, j: nat, l: Link)
    requires i <= j <= |s|
    requires forall p :: i <= p < j ==> s[p] != '['
    requires WellFormed(l) && OccursAt(s, ToAnchorFormat(l), j)
    ensures ScanFrom(s, i) == [Found(l, j, j + |ToAnchorFormat(l)|)] + ScanFrom(s, j + |ToAnchorFormat(l)|)
  {
    ScanFromSkip(s, i, j);
    ScanFromAt(s, j, l);
  }

  /** Indices `i` to `j` of `s`, copied from `t`, hold no `[` when `t`
      holds none. */
  lemma PlainRange(s: string, i: nat, j: nat, t: string)
    requires i <= j <= |s| && s[i..j] == t && '[' !in t
    ensures forall p :: i <= p < j ==> s[p] != '['
  {
    forall p | i <= p < j
      ensures s[p] != '['
    {
      assert s[p] == t[p - i];
    }
  }

  /** One inline form amid text without `[` scans as that link. */
  lemma ScanAmid(pre: string, l: Link, post: string)
    requires WellFormed(l)
    requires '[' !in pre && '[' !in post
    ensures Scan(pre + ToAnchorFormat(l) + post) == [l]
  {
    var x := ToAnchorFormat(l);
    var s := pre + x + post;
    assert OccursAt(s, x, |pre|) by {
      assert s[|pre|..|pre| + |x|] == x;
    }
    PlainRange(s, 0, |pre|, pre);
    PlainRange(s, |pre| + |x|, |s|, post);
    ScanFromLast(s, 0, |pre|, l);
  }

  /** Plain text from `i` to `j`, the inline form of `l` at `j` and plain
      text to the end: the scan from `i` finds `l` alone. */
  lemma ScanFromLast(s: string, i: nat, j: nat, l: Link)
    requires i <= j <= |s|
    requires forall p :: i <= p < j ==> s[p] != '['
    requires WellFormed(l) && OccursAt(s, ToAnchorFormat(l), j)
    requires forall p :: j + |ToAnchorFormat(l)| <= p < |s| ==> s[p] != '['
    ensures ScanFrom(s, i) == [Found(l, j, j + |ToAnchorFormat(l)|)]
  {
    ScanFromPlainThen(s, i, j, l);
    ScanFromSkip(s, j + |ToAnchorFormat(l)|, |s|);
  }

  /** Two inline forms amid text without `[` scan as the two links, in
      order. */
  lemma ScanTwoAmid(pre: string, a: Link, mid: string, b: Link, post: string)
    requires WellFormed(a) && WellFormed(b)
    requires '[' !in pre && '[' !in mid && '[' !in post
    ensures Scan(pre + ToAnchorFormat(a) + mid + ToAnchorFormat(b) + post) == [a, b]
  {
    var x := ToAnchorFormat(a);
    var y := ToAnchorFormat(b);
    var s := pre + x + mid + y + post;
    var e1 := |pre| + |x|;
    var i2 := e1 + |mid|;
    var e2 := i2 + |y|;
    assert OccursAt(s, x, |pre|) by {
      assert s[|pre|..e1] == x;
    }
    assert OccursAt(s, y, i2) by {
      assert s[i2..e2] == y;
    }
    PlainRange(s, 0, |pre|, pre);
    ScanFromPlainThen(s, 0, |pre|, a);
    PlainRange(s, e1, i2, mid);
    PlainRange(s, e2, |s|, post);
    ScanFromLast(s, e1, i2, b);
    assert ScanFrom(s, 0) == [Found(a, |pre|, e1), Found(b, i2, e2)];
  }

  /** Two copies of one inline form scan as the link twice. */
  lemma ScanRepeated(l: Link)
    requires WellFormed(l)
    ensures Scan(ToAnchorFormat(l) + ToAnchorFormat(l)) == [l, l]
  {
    ScanPair(l, l);
  }

  /** `findIndex(l => l.toEqual(link))`: the first position holding a link
      equal to `link`, or `|links|` when there is none (the source's -1). */
  function FindIndex(links: seq<Link>, link: Link): (k: nat)
    ensures k <= |links|
    ensures k < |links| ==> ToEqual(links[k], link)
    decreases |links|
  {
    if |links| == 0 then 0
    else if ToEqual(links[0], link) then 0
    else 1 + FindIndex(links[1..], link)
  }

  /** `FindIndex` finds the first equal link, and finds one exactly when
      the list holds the link. */
  lemma {:induction false} FindIndexFirst(links: seq<Link>, link: Link)
    ensures forall j :: 0 <= j < FindIndex(links, link) ==> !ToEqual(links[j], link)
    ensures link in links <==> FindIndex(links, link) < |links|
    decreases |links|
  {
    if |links| > 0 && !ToEqual(links[0], link) {
      FindIndexFirst(links[1..], link);
      assert links == [links[0]] + links[1..];
      forall j | 0 < j < FindIndex(links, link)
        ensures !ToEqual(links[j], link)
      {
        assert links[j] == links[1..][j - 1];
      }
    }
  }

  /** The filter of `uniqueLinks` applied from position `i` on: keep
      `links[k]` when its first equal link is at `k` itself. */
  function UniqueFrom(links: seq<Link>, i: nat): seq<Link>
    requires i <= |links|
    decreases |links| - i
  {
    if i == |links| then []
    else (if FindIndex(links, links[i]) == i then [links[i]] else []) + UniqueFrom(links, i + 1)
  }

  /** `uniqueLinks`. */
  function UniqueLinks(links: seq<Link>): seq<Link>
  {
    UniqueFrom(links, 0)
  }

  /** `findAllLinks`. */
  function FindAllLinks(s: string): seq<Link>
  {
    UniqueLinks(Scan(s))
  }

  /** What the filter keeps from position `i` on: exactly the links whose
      first occurrence is at position `i` or later. */
  lemma {:induction false} UniqueFromMembers(links: seq<Link>, i: nat)
    requires i <= |links|
    ensures forall x :: x in UniqueFrom(links, i) <==> x in links && FindIndex(links, x) >= i
    decreases |links| - i
  {
    if i == |links| {
      forall x | x in links
        ensures FindIndex(links, x) < |links|
      {
        FindIndexFirst(links, x);
      }
    } else {
      UniqueFromMembers(links, i + 1);
      MembersStep(links, i);
    }
  }

  lemma MembersStep(links: seq<Link>, i: nat)
    requires i < |links|
    requires forall x :: x in UniqueFrom(links, i + 1) <==> x in links && FindIndex(links, x) >= i + 1
    ensures forall x :: x in UniqueFrom(links, i) <==> x in links && FindIndex(links, x) >= i
  {
    var kept := if FindIndex(links, links[i]) == i then [links[i]] else [];
    assert UniqueFrom(links, i) == kept + UniqueFrom(links, i + 1);
    forall x
      ensures x in UniqueFrom(links, i) <==> x in links && FindIndex(links, x) >= i
    {
      if x in links && FindIndex(links, x) == i {
        assert x == links[i];
      }
    }
  }

  /** The filter keeps links in the order of their first occurrence. */
  lemma {:induction false} UniqueFromOrdered(links: seq<Link>, i: nat)
    requires i <= |links|
    ensures IncreasingFirst(links, UniqueFrom(links, i))
    decreases |links| - i
  {
    if i < |links| {
      UniqueFromOrdered(links, i + 1);
      if FindIndex(links, links[i]) == i {
        KeptFirst(links, i);
      } else {
        assert UniqueFrom(links, i) == UniqueFrom(links, i + 1);
      }
    }
  }

  /** A link kept at its first occurrence `i` goes in front of the links
      kept after it, which all first occur later. */
  lemma KeptFirst(links: seq<Link>, i: nat)
    requires i < |links| && FindIndex(links, links[i]) == i
    requires IncreasingFirst(links, UniqueFrom(links, i + 1))
    ensures IncreasingFirst(links, UniqueFrom(links, i))
  {
    UniqueFromAfter(links, i + 1);
    IncreasingFirstCons(links, links[i], UniqueFrom(links, i + 1));
    assert UniqueFrom(links, i) == [links[i]] + UniqueFrom(links, i + 1);
  }

  /** The links of `u` come in the order of their first occurrence in
      `links`. */
  predicate IncreasingFirst(links: seq<Link>, u: seq<Link>) {
    forall a, b :: 0 <= a < b < |u| ==> FindIndex(links, u[a]) < FindIndex(links, u[b])
  }

  lemma IncreasingFirstCons(links: seq<Link>, h: Link, rest: seq<Link>)
    requires IncreasingFirst(links, rest)
    requires forall k :: 0 <= k < |rest| ==> FindIndex(links, rest[k]) > FindIndex(links, h)
    ensures IncreasingFirst(links, [h] + rest)
  {
    var u := [h] + rest;
    forall a, b | 0 <= a < b < |u|
      ensures FindIndex(links, u[a]) < FindIndex(links, u[b])
    {
      assert u[b] == rest[b - 1];
      if a > 0 {
        assert u[a] == rest[a - 1];
      } else {
        assert u[a] == h;
      }
    }
  }

  /** Every link the filter keeps from position `i` on first occurs at or
      after `i`. */
  lemma UniqueFromAfter(links: seq<Link>, i: nat)
    requires i <= |links|
    ensures forall k :: 0 <= k < |UniqueFrom(links, i)| ==> FindIndex(links, UniqueFrom(links, i)[k]) >= i
  {
    UniqueFromMembers(links, i);
    forall k | 0 <= k < |UniqueFrom(links, i)|
      ensures FindIndex(links, UniqueFrom(links, i)[k]) >= i
    {
      assert UniqueFrom(links, i)[k] in UniqueFrom(links, i);
    }
  }

  lemma UniqueLinksSpec(links: seq<Link>)
    ensures forall x :: x in UniqueLinks(links) <==> x in links
    ensures forall a, b :: 0 <= a < b < |UniqueLinks(links)| ==>
      FindIndex(links, UniqueLinks(links)[a]) < FindIndex(links, UniqueLinks(links)[b])
    ensures forall a, b :: 0 <= a < b < |UniqueLinks(links)| ==> !ToEqual(UniqueLinks(links)[a], UniqueLinks(links)[b])
  {
    UniqueFromMembers(links, 0);
    UniqueFromOrdered(links, 0);
  }
}
