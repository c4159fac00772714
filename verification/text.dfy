/** String helpers the transformer relies on: substring occurrence, the
    literal global replacement performed by `String.prototype.replaceAll`
    with a string pattern, and `Array.prototype.join`. Strings are
    sequences of characters. */
module Text {

  /** `pat` occurs in `s` starting at index `p`. */
  predicate OccursAt(s: string, pat: string, p: nat) {
    p + |pat| <= |s| && s[p..p + |pat|] == pat
  }

  /** No occurrence of `pat` in `s` starts before index `n`. */
  predicate NoneStartsBefore(s: string, pat: string, n: nat) {
    forall p: nat :: p < n ==> !OccursAt(s, pat, p)
  }

  /** `pat` occurs somewhere in `s`. */
  predicate Occurs(s: string, pat: string) {
    exists p: nat | p <= |s| :: OccursAt(s, pat, p)
  }

  /** A slice of a slice is a slice. */
  lemma SliceOfSlice(s: string, i: nat, j: nat, a: nat, b: nat)
    requires i <= j <= |s| && a <= b <= j - i
    ensures s[i..j][a..b] == s[i + a..i + b]
  {
    forall k | 0 <= k < b - a
      ensures s[i..j][a..b][k] == s[i + a..i + b][k]
    {
      assert s[i..j][a..b][k] == s[i..j][a + k] == s[i + a + k];
    }
  }

  /** An occurrence in a suffix of `s` is an occurrence in `s`. */
  lemma OccursInSuffix(s: string, pat: string, n: nat)
    requires n <= |s|
    ensures Occurs(s[n..], pat) ==> Occurs(s, pat)
  {
    if Occurs(s[n..], pat) {
      var p: nat :| p <= |s[n..]| && OccursAt(s[n..], pat, p);
      assert s[n..][p..p + |pat|] == s[n + p..n + p + |pat|];
      assert OccursAt(s, pat, n + p);
    }
  }

  /** Left-to-right, non-overlapping replacement of every occurrence of the
      non-empty literal `pat` by the literal `rep`. */
  function ReplaceAll(s: string, pat: string, rep: string): string
    requires |pat| > 0
    decreases |s|
  {
    if |s| < |pat| then s
    else if s[..|pat|] == pat then rep + ReplaceAll(s[|pat|..], pat, rep)
    else [s[0]] + ReplaceAll(s[1..], pat, rep)
  }

  /** A string without the pattern is left unchanged. */
  lemma {:induction false} ReplaceAllAbsent(s: string, pat: string, rep: string)
    requires |pat| > 0
    requires !Occurs(s, pat)
    ensures ReplaceAll(s, pat, rep) == s
    decreases |s|
  {
    if |s| >= |pat| {
      assert !OccursAt(s, pat, 0);
      OccursInSuffix(s, pat, 1);
      ReplaceAllAbsent(s[1..], pat, rep);
      assert s == [s[0]] + s[1..];
    }
  }

  /** A leading occurrence is replaced and the scan resumes right after it. */
  lemma ReplaceAllLeading(pat: string, rest: string, rep: string)
    requires |pat| > 0
    ensures ReplaceAll(pat + rest, pat, rep) == rep + ReplaceAll(rest, pat, rep)
  {
    assert (pat + rest)[..|pat|] == pat;
    assert (pat + rest)[|pat|..] == rest;
  }

  /** A prefix in which no occurrence of the pattern starts is copied
      unchanged. */
  lemma {:induction false} ReplaceAllSkip(x: string, y: string, pat: string, rep: string)
    requires |pat| > 0
    requires NoneStartsBefore(x + y, pat, |x|)
    ensures ReplaceAll(x + y, pat, rep) == x + ReplaceAll(y, pat, rep)
    decreases |x|
  {
    if |x| > 0 {
      NoneStartsBeforeTail(x, y, pat);
      ReplaceAllSkip(x[1..], y, pat, rep);
      ReplaceAllNoMatchFirst(x + y, pat, rep);
      assert (x + y)[1..] == x[1..] + y;
      assert x == [x[0]] + x[1..];
    } else {
      assert x + y == y;
    }
  }

  /** Without an occurrence at index 0 the first character is kept. */
  lemma ReplaceAllNoMatchFirst(s: string, pat: string, rep: string)
    requires |pat| > 0 && |s| > 0 && !OccursAt(s, pat, 0)
    ensures ReplaceAll(s, pat, rep) == [s[0]] + ReplaceAll(s[1..], pat, rep)
  {
    if |s| < |pat| {
      assert ReplaceAll(s[1..], pat, rep) == s[1..];
      assert s == [s[0]] + s[1..];
    }
  }

  /** Dropping the first character shifts the indices without an
      occurrence down by one. */
  lemma NoneStartsBeforeTail(x: string, y: string, pat: string)
    requires |x| > 0 && NoneStartsBefore(x + y, pat, |x|)
    ensures NoneStartsBefore(x[1..] + y, pat, |x| - 1)
  {
    var s := x + y;
    assert s[1..] == x[1..] + y;
    forall p: nat | p < |x| - 1
      ensures !OccursAt(s[1..], pat, p)
    {
      assert !OccursAt(s, pat, p + 1);
      if p + |pat| <= |s| - 1 {
        assert s[1..][p..p + |pat|] == s[p + 1..p + 1 + |pat|];
      }
    }
  }

  /** A prefix that never holds the pattern's first character is copied
      unchanged. */
  lemma ReplaceAllPlainPrefix(x: string, y: string, pat: string, rep: string)
    requires |pat| > 0 && pat[0] !in x
    ensures ReplaceAll(x + y, pat, rep) == x + ReplaceAll(y, pat, rep)
  {
    forall p: nat | p < |x|
      ensures !OccursAt(x + y, pat, p)
    {
      if p + |pat| <= |x + y| {
        assert (x + y)[p..p + |pat|][0] == x[p];
      }
    }
    ReplaceAllSkip(x, y, pat, rep);
  }

  /** A string that never holds the pattern's first character is left
      unchanged. */
  lemma ReplaceAllPlain(x: string, pat: string, rep: string)
    requires |pat| > 0 && pat[0] !in x
    ensures ReplaceAll(x, pat, rep) == x
  {
    ReplaceAllPlainPrefix(x, "", pat, rep);
    assert x + "" == x;
  }

  /** The pattern between two texts that never hold its first character is
      the one occurrence replaced. */
  lemma ReplaceAllAmid(pre: string, pat: string, post: string, rep: string)
    requires |pat| > 0 && pat[0] !in pre && pat[0] !in post
    ensures ReplaceAll(pre + pat + post, pat, rep) == pre + rep + post
  {
    assert pre + pat + post == pre + (pat + post);
    ReplaceAllPlainPrefix(pre, pat + post, pat, rep);
    ReplaceAllLeading(pat, post, rep);
    ReplaceAllPlain(post, pat, rep);
  }

  /** The pattern after a text that never holds its first character and
      before a text without an occurrence is the one occurrence replaced. */
  lemma ReplaceAllAmidAbsent(pre: string, pat: string, post: string, rep: string)
    requires |pat| > 0 && pat[0] !in pre && !Occurs(post, pat)
    ensures ReplaceAll(pre + pat + post, pat, rep) == pre + rep + post
  {
    assert pre + pat + post == pre + (pat + post);
    ReplaceAllPlainPrefix(pre, pat + post, pat, rep);
    ReplaceAllLeading(pat, post, rep);
    ReplaceAllAbsent(post, pat, rep);
  }

  /** Concatenation regrouped to the right. */
  lemma Regroup(a: string, b: string, c: string, d: string, e: string)
    ensures a + b + c + d + e == a + (b + (c + d + e))
    ensures c + d + e == c + (d + e)
  {
  }

  /** Only the occurrence after `pre` is replaced when `pre` and `mid` never
      hold the pattern's first character and `y + post` holds no occurrence. */
  lemma ReplaceAllFirstOfTwo(pre: string, pat: string, mid: string, y: string, post: string, rep: string)
    requires |pat| > 0 && pat[0] !in pre && pat[0] !in mid
    requires !Occurs(y + post, pat)
    ensures ReplaceAll(pre + pat + mid + y + post, pat, rep) == pre + rep + mid + y + post
  {
    var tail := y + post;
    assert ReplaceAll(pat + (mid + tail), pat, rep) == rep + (mid + tail) by {
      ReplaceAllLeading(pat, mid + tail, rep);
      ReplaceAllPlainPrefix(mid, tail, pat, rep);
      ReplaceAllAbsent(tail, pat, rep);
    }
    Regroup(pre, pat, mid, y, post);
    ReplaceAllPlainPrefix(pre, pat + (mid + tail), pat, rep);
    Regroup(pre, rep, mid, y, post);
  }

  /** Only the occurrence after `mid` is replaced when no occurrence starts
      in `x` and `pre`, `mid` and `post` never hold the pattern's first
      character. */
  lemma ReplaceAllSecondOfTwo(pre: string, x: string, mid: string, pat: string, post: string, rep: string)
    requires |pat| > 0 && pat[0] !in pre && pat[0] !in mid && pat[0] !in post
    requires NoneStartsBefore(x + (mid + pat + post), pat, |x|)
    ensures ReplaceAll(pre + x + mid + pat + post, pat, rep) == pre + x + mid + rep + post
  {
    var rest := mid + pat + post;
    assert ReplaceAll(x + rest, pat, rep) == x + (mid + rep + post) by {
      ReplaceAllSkip(x, rest, pat, rep);
      ReplaceAllAmid(mid, pat, post, rep);
    }
    Regroup(pre, x, mid, pat, post);
    ReplaceAllPlainPrefix(pre, x + rest, pat, rep);
    Regroup(pre, x, mid, rep, post);
  }

  /** A string that is exactly the pattern becomes exactly the replacement. */
  lemma ReplaceAllWhole(pat: string, rep: string)
    requires |pat| > 0
    ensures ReplaceAll(pat, pat, rep) == rep
  {
    ReplaceAllLeading(pat, "", rep);
    assert pat + "" == pat;
  }

  /** `[p0, p1, ..., pn].join(sep)`: the parts separated by `sep`; the empty
      array joins to the empty string. */
  function Join(parts: seq<string>, sep: string): string
  {
    if |parts| == 0 then ""
    else if |parts| == 1 then parts[0]
    else parts[0] + sep + Join(parts[1..], sep)
  }

  /** Joining a concatenation of two non-empty lists puts exactly one
      separator between the two joined halves. */
  lemma {:induction false} JoinAppend(a: seq<string>, b: seq<string>, sep: string)
    requires |a| > 0 && |b| > 0
    ensures Join(a + b, sep) == Join(a, sep) + sep + Join(b, sep)
    decreases |a|
  {
    if |a| == 1 {
      assert (a + b)[1..] == b;
    } else {
      assert (a + b)[1..] == a[1..] + b;
      JoinAppend(a[1..], b, sep);
    }
  }

  /** Joining one part after a head gives head, separator, the rest joined. */
  lemma JoinCons(head: string, rest: seq<string>, sep: string)
    ensures Join([head] + rest, sep) == if |rest| == 0 then head else head + sep + Join(rest, sep)
  {
    if |rest| > 0 {
      assert ([head] + rest)[1..] == rest;
    }
  }
}
