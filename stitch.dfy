/** The stitching loop of reflow_text agrees with replacing each claimed span
    in place, and copies the text around the spans unchanged. */
module Stitching {
  import opened TextReflow

  /** The spans `ks` lie between `cur` and `n`, each at or after the end of
      the one before it. */
  predicate Chained(ks: seq<Key>, cur: nat, n: nat) {
    && (forall k :: 0 <= k < |ks| ==> cur <= ks[k].0 <= ks[k].1 <= n)
    && (forall j, k :: 0 <= j < k < |ks| ==> ks[j].1 <= ks[k].0)
  }

  predicate InTable(ks: seq<Key>, table: map<Key, string>) {
    forall k :: k in ks ==> k in table
  }

  /** `text` with the span `k` replaced by `v`. */
  function Replace(text: string, k: Key, v: string): string
    requires k.0 <= k.1 <= |text|
  {
    text[..k.0] + v + text[k.1..]
  }

  /** Replaces the spans `ks` one at a time, the last first, so that the
      offsets of the spans before it stay valid. */
  function ReplaceAll(text: string, table: map<Key, string>, ks: seq<Key>): string
    requires InTable(ks, table) && Chained(ks, 0, |text|)
    decreases |ks|
  {
    if ks == [] then text
    else
      var k := ks[|ks| - 1];
      var init := ks[..|ks| - 1];
      var replaced := Replace(text, k, table[k]);
      assert InTable(init, table) && Chained(init, 0, |replaced|) by {
        assert forall j :: 0 <= j < |init| ==> init[j] == ks[j];
      }
      ReplaceAll(replaced, table, init)
  }

  lemma Assoc(a: string, b: string, c: string)
    ensures (a + b) + c == a + (b + c)
  {
  }

  /** Three adjacent slices make up the slice from the first bound on. */
  lemma SliceJoin(s: string, i: nat, j: nat, k: nat)
    requires i <= j <= k <= |s|
    ensures s[i..j] + s[j..k] + s[k..] == s[i..]
  {
  }

  lemma SliceOfPrefix(s: string, n: nat, lo: nat, hi: nat)
    requires lo <= hi <= n <= |s|
    ensures Slice(s[..n], lo, hi) == Slice(s, lo, hi)
  {
    assert s[..n][lo..hi] == s[lo..hi];
  }

  lemma ChainedTail(ks: seq<Key>, cur: nat, n: nat)
    requires ks != [] && Chained(ks, cur, n)
    ensures Chained(ks[1..], ks[0].1, n)
  {
    var tail := ks[1..];
    forall k | 0 <= k < |tail| ensures ks[0].1 <= tail[k].0 <= tail[k].1 <= n {
      assert tail[k] == ks[k + 1];
    }
    forall j, k | 0 <= j < k < |tail| ensures tail[j].1 <= tail[k].0 {
      assert tail[j] == ks[j + 1] && tail[k] == ks[k + 1];
    }
  }

  /** Replacing each span by its own text gives the text back. */
  lemma {:induction false} StitchIdentity(text: string, table: map<Key, string>, ks: seq<Key>, cur: nat)
    requires InTable(ks, table) && cur <= |text| && Chained(ks, cur, |text|)
    requires forall j :: 0 <= j < |ks| ==> table[ks[j]] == text[ks[j].0..ks[j].1]
    ensures StitchFrom(text, table, ks, cur) == text[cur..]
    decreases |ks|
  {
    if ks != [] {
      var k := ks[0];
      ChainedTail(ks, cur, |text|);
      assert forall j :: 0 <= j < |ks[1..]| ==> ks[1..][j] == ks[j + 1];
      StitchIdentity(text, table, ks[1..], k.1);
      SliceJoin(text, cur, k.0, k.1);
    }
  }

  /** Text after the last span is copied through. */
  lemma {:induction false} StitchPrefix(p: string, q: string, table: map<Key, string>, ks: seq<Key>, cur: nat)
    requires InTable(ks, table) && cur <= |p| && Chained(ks, cur, |p|)
    ensures StitchFrom(p + q, table, ks, cur) == StitchFrom(p, table, ks, cur) + q
    decreases |ks|
  {
    if ks == [] {
      assert (p + q)[cur..] == p[cur..] + q;
    } else {
      var k := ks[0];
      ChainedTail(ks, cur, |p|);
      StitchPrefix(p, q, table, ks[1..], k.1);
      var head := Slice(p, cur, k.0) + table[k];
      var rest := StitchFrom(p, table, ks[1..], k.1);
      assert Slice(p + q, cur, k.0) == Slice(p, cur, k.0) by {
        assert (p + q)[cur..k.0] == p[cur..k.0];
      }
      calc {
        StitchFrom(p + q, table, ks, cur);
        head + StitchFrom(p + q, table, ks[1..], k.1);
        head + (rest + q);
        { Assoc(head, rest, q); }
        (head + rest) + q;
      }
    }
  }

  lemma ChainedSnoc(init: seq<Key>, k: Key, table: map<Key, string>, cur: nat, n: nat)
    requires InTable(init + [k], table) && Chained(init + [k], cur, n)
    ensures InTable(init, table) && Chained(init, cur, k.0) && k in table
    ensures cur <= k.0 <= k.1 <= n
  {
    var ks := init + [k];
    assert ks[|init|] == k;
    assert forall j :: 0 <= j < |init| ==> init[j] == ks[j];
  }

  /** The last span splits the stitching into the part before it, its
      replacement and the rest of the text. */
  lemma {:induction false} StitchSnoc(text: string, table: map<Key, string>, init: seq<Key>, k: Key, cur: nat)
    requires InTable(init + [k], table) && cur <= k.0 <= k.1 <= |text| && Chained(init + [k], cur, |text|)
    ensures InTable(init, table) && Chained(init, cur, k.0)
    ensures StitchFrom(text, table, init + [k], cur) ==
      StitchFrom(text[..k.0], table, init, cur) + table[k] + text[k.1..]
    decreases |init|
  {
    ChainedSnoc(init, k, table, cur, |text|);
    var ks := init + [k];
    if init == [] {
      assert ks[1..] == [];
      assert Slice(text, cur, k.0) == Slice(text[..k.0], cur, k.0);
    } else {
      var h := init[0];
      var later := init[1..] + [k];
      assert ks[0] == h && ks[1..] == later;
      assert h.0 <= h.1 <= k.0;
      ChainedTail(ks, cur, |text|);
      StitchTail(text, table, init, k, cur);
    }
  }

  lemma {:induction false} StitchTail(text: string, table: map<Key, string>, init: seq<Key>, k: Key, cur: nat)
    requires init != [] && InTable(init + [k], table) && cur <= k.0 <= k.1 <= |text|
    requires Chained(init + [k], cur, |text|) && Chained(init[1..] + [k], init[0].1, |text|)
    requires InTable(init, table) && Chained(init, cur, k.0)
    requires init[0].0 <= init[0].1 <= k.0
    ensures StitchFrom(text, table, init + [k], cur) ==
      StitchFrom(text[..k.0], table, init, cur) + table[k] + text[k.1..]
    decreases |init|, 0
  {
    var h := init[0];
    var later := init[1..] + [k];
    assert (init + [k])[1..] == later;
    StitchSnoc(text, table, init[1..], k, h.1);
    var front := Slice(text, cur, h.0) + table[h];
    SliceOfPrefix(text, k.0, cur, h.0);
    var mid := StitchFrom(text[..k.0], table, init[1..], h.1);
    calc {
      StitchFrom(text, table, init + [k], cur);
      front + StitchFrom(text, table, later, h.1);
      front + (mid + table[k] + text[k.1..]);
      { Regroup(front, mid, table[k], text[k.1..]); }
      (front + mid) + table[k] + text[k.1..];
    }
  }

  /** Replacing the last span first leaves the stitching of the others
      unchanged. */
  lemma StitchLast(text: string, table: map<Key, string>, init: seq<Key>, k: Key)
    requires InTable(init + [k], table) && Chained(init + [k], 0, |text|)
    ensures k.0 <= k.1 <= |text| && k in table
    ensures InTable(init, table) && Chained(init, 0, |Replace(text, k, table[k])|)
    ensures StitchFrom(text, table, init + [k], 0) == StitchFrom(Replace(text, k, table[k]), table, init, 0)
  {
    ChainedSnoc(init, k, table, 0, |text|);
    StitchSnoc(text, table, init, k, 0);
    var p, q := text[..k.0], table[k] + text[k.1..];
    Assoc(p, table[k], text[k.1..]);
    StitchPrefix(p, q, table, init, 0);
    Assoc(StitchFrom(p, table, init, 0), table[k], text[k.1..]);
  }

  /** The stitching loop, applied to chained spans, is the replacement of each
      span in turn. */
  lemma {:induction false} StitchIsReplaceAll(text: string, table: map<Key, string>, ks: seq<Key>)
    requires InTable(ks, table) && Chained(ks, 0, |text|)
    ensures StitchFrom(text, table, ks, 0) == ReplaceAll(text, table, ks)
    decreases |ks|
  {
    if ks == [] {
      assert text[0..|text|] == text;
    } else {
      var init, k := ks[..|ks| - 1], ks[|ks| - 1];
      assert ks == init + [k];
      StitchLast(text, table, init, k);
      StitchIsReplaceAll(Replace(text, k, table[k]), table, init);
    }
  }

  /** Strictly sorted spans that pairwise lie apart and within the text are
      chained. */
  lemma SortedApartChained(ks: seq<Key>, n: nat)
    requires StrictlySorted(ks)
    requires forall k :: 0 <= k < |ks| ==> ks[k].0 <= ks[k].1 <= n
    requires forall j, k :: 0 <= j < k < |ks| ==> ks[j].1 < ks[k].0 || ks[k].1 < ks[j].0
    ensures Chained(ks, 0, n)
  {
    forall j, k | 0 <= j < k < |ks| ensures ks[j].1 <= ks[k].0 {
      assert KeyLess(ks[j], ks[k]);
    }
  }
}
