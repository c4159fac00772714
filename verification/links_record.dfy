/** `generateLinksRecord`: the record from anchor key `[^anchorN]` to the
    N-th unique link. A JavaScript object whose keys are not integer-like
    enumerates them in insertion order, so the record is an association
    list in that order. */
module LinksRecord {
  import opened Decimal
  import opened MarkdownLink

  type Record = seq<(string, Link)>

  /** The anchor key `[^anchor{n}]`. */
  function AnchorKey(n: nat): string {
    "[^anchor" + NatToString(n) + "]"
  }

  /** Distinct numbers give distinct anchor keys. */
  lemma AnchorKeyInjective(a: nat, b: nat)
    ensures AnchorKey(a) == AnchorKey(b) ==> a == b
  {
    if AnchorKey(a) == AnchorKey(b) {
      var x := NatToString(a);
      var y := NatToString(b);
      assert x == AnchorKey(a)[8..|AnchorKey(a)| - 1];
      assert y == AnchorKey(b)[8..|AnchorKey(b)| - 1];
      NatToStringInjective(a, b);
    }
  }

  /** `Object.keys(record)`. */
  function Keys(rec: Record): seq<string> {
    seq(|rec|, i requires 0 <= i < |rec| => rec[i].0)
  }

  predicate DistinctKeys(rec: Record) {
    forall i, j :: 0 <= i < j < |rec| ==> rec[i].0 != rec[j].0
  }

  /** `record[key]` for a key the record holds. */
  function Lookup(rec: Record, key: string): (l: Link)
    requires key in Keys(rec)
    ensures (key, l) in rec
    decreases |rec|
  {
    if rec[0].0 == key then rec[0].1
    else
      assert Keys(rec) == [rec[0].0] + Keys(rec[1..]);
      Lookup(rec[1..], key)
  }

  /** With distinct keys, looking up the key of an entry gives its value. */
  lemma LookupEntry(rec: Record, i: nat)
    requires DistinctKeys(rec) && i < |rec|
    ensures rec[i].0 in Keys(rec) && Lookup(rec, rec[i].0) == rec[i].1
  {
    assert Keys(rec)[i] == rec[i].0;
    var l := Lookup(rec, rec[i].0);
    var j :| 0 <= j < |rec| && rec[j] == (rec[i].0, l);
    assert j == i;
  }

  /** `{ ...record, [key]: value }`. */
  function Put(rec: Record, key: string, v: Link): Record
    decreases |rec|
  {
    if |rec| == 0 then [(key, v)]
    else if rec[0].0 == key then [(key, v)] + rec[1..]
    else [rec[0]] + Put(rec[1..], key, v)
  }

  lemma KeysCons(e: (string, Link), rest: Record)
    ensures Keys([e] + rest) == [e.0] + Keys(rest)
  {
    var x := [e] + rest;
    var y := [e.0] + Keys(rest);
    forall k | 0 <= k < |x|
      ensures Keys(x)[k] == y[k]
    {
      if k > 0 {
        assert x[k] == rest[k - 1];
        assert y[k] == Keys(rest)[k - 1];
      }
    }
  }

  /** The spread puts `value` under `key`: a present key keeps its position,
      the key order is unchanged and every entry under another key keeps
      its value; an absent key is appended last. */
  lemma {:induction false} PutSpec(rec: Record, key: string, v: Link)
    ensures (key, v) in Put(rec, key, v)
    ensures key in Keys(rec) ==> Keys(Put(rec, key, v)) == Keys(rec)
    ensures key in Keys(rec) ==> |Put(rec, key, v)| == |rec|
    ensures key in Keys(rec) ==> forall i :: 0 <= i < |rec| && rec[i].0 != key ==> Put(rec, key, v)[i] == rec[i]
    ensures key !in Keys(rec) ==> Put(rec, key, v) == rec + [(key, v)]
    decreases |rec|
  {
    if |rec| > 0 {
      assert rec == [rec[0]] + rec[1..];
      KeysCons(rec[0], rec[1..]);
      if rec[0].0 == key {
        KeysCons((key, v), rec[1..]);
      } else {
        var rest := Put(rec[1..], key, v);
        PutSpec(rec[1..], key, v);
        KeysCons(rec[0], rest);
        if key in Keys(rec) {
          assert key in Keys(rec[1..]);
          forall i | 0 < i < |rec| && rec[i].0 != key
            ensures Put(rec, key, v)[i] == rec[i]
          {
            assert rec[1..][i - 1] == rec[i];
            assert Put(rec, key, v)[i] == rest[i - 1];
          }
        }
      }
    }
  }

  /** The reduce of `generateLinksRecord` from position `i` on, starting
      from the record `acc` built so far. */
  function RecordFrom(links: seq<Link>, i: nat, acc: Record): Record
    requires i <= |links|
    decreases |links| - i
  {
    if i == |links| then acc
    else RecordFrom(links, i + 1, Put(acc, AnchorKey(i + 1), links[i]))
  }

  /** `generateLinksRecord`. */
  function GenerateLinksRecord(links: seq<Link>): Record {
    RecordFrom(links, 0, [])
  }

  /** The record in closed form: the i-th link (from 1) under key
      `[^anchor{i}]`. */
  function Numbered(links: seq<Link>): (rec: Record)
    ensures |rec| == |links|
  {
    seq(|links|, i requires 0 <= i < |links| => (AnchorKey(i + 1), links[i]))
  }

  /** Anchor keys are numbered without repeats. */
  lemma NumberedDistinctKeys(links: seq<Link>)
    ensures DistinctKeys(Numbered(links))
  {
    forall i, j | 0 <= i < j < |links|
      ensures Numbered(links)[i].0 != Numbered(links)[j].0
    {
      AnchorKeyInjective(i + 1, j + 1);
    }
  }

  lemma {:induction false} RecordFromNumbered(links: seq<Link>, i: nat)
    requires i <= |links|
    ensures RecordFrom(links, i, Numbered(links[..i])) == Numbered(links)
    decreases |links| - i
  {
    if i == |links| {
      assert links[..i] == links;
    } else {
      var acc := Numbered(links[..i]);
      forall j | 0 <= j < i
        ensures Keys(acc)[j] != AnchorKey(i + 1)
      {
        AnchorKeyInjective(j + 1, i + 1);
      }
      assert AnchorKey(i + 1) !in Keys(acc);
      PutSpec(acc, AnchorKey(i + 1), links[i]);
      NumberedSnoc(links, i);
      RecordFromNumbered(links, i + 1);
    }
  }

  lemma NumberedSnoc(links: seq<Link>, i: nat)
    requires i < |links|
    ensures Numbered(links[..i]) + [(AnchorKey(i + 1), links[i])] == Numbered(links[..i + 1])
  {
    var a := Numbered(links[..i]) + [(AnchorKey(i + 1), links[i])];
    var b := Numbered(links[..i + 1]);
    forall j | 0 <= j < |a|
      ensures a[j] == b[j]
    {
      if j < i {
        assert a[j] == Numbered(links[..i])[j] == (AnchorKey(j + 1), links[j]);
      }
    }
  }

  /** `generateLinksRecord` on n links has exactly n entries, the i-th keyed
      `[^anchor{i+1}]` and holding the i-th link, keys without repeats. */
  lemma GenerateLinksRecordSpec(links: seq<Link>)
    ensures GenerateLinksRecord(links) == Numbered(links)
    ensures |GenerateLinksRecord(links)| == |links|
    ensures forall i :: 0 <= i < |links| ==> GenerateLinksRecord(links)[i] == (AnchorKey(i + 1), links[i])
    ensures DistinctKeys(GenerateLinksRecord(links))
  {
    assert links[..0] == [];
    RecordFromNumbered(links, 0);
    NumberedDistinctKeys(links);
  }

  /** `Object.keys` of the generated record lists `[^anchor1]` up to
      `[^anchorN]`, one per link, in order. */
  lemma GenerateLinksRecordKeys(links: seq<Link>)
    ensures Keys(GenerateLinksRecord(links)) == seq(|links|, i requires 0 <= i < |links| => AnchorKey(i + 1))
  {
    GenerateLinksRecordSpec(links);
  }
}
