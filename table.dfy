/** What the replacement table of reflow_text holds: one entry per run of
    every style, keyed by the run's span and holding the run's rendering.

    The claiming loops are first studied over plain sequences of spans and
    renderings (ClaimList, ClaimAll), then tied to the runs of the text. */
module ReplacementTable {
  import opened Results
  import opened Delimiters
  import opened LineMatcher
  import opened Runs
  import opened TextReflow

  // ---------------------------------------------------------------------------
  // Claiming spans whose renderings are given
  // ---------------------------------------------------------------------------

  /** The claiming loop over the spans `keys`, the `p`-th rendering to `rs[p]`. */
  function ClaimList(table: map<Key, string>, keys: seq<Key>, rs: seq<Result<string>>): Result<map<Key, string>>
    requires |keys| == |rs|
    decreases |keys|
  {
    if keys == [] then Ok(table)
    else if keys[0] in table then ClaimList(table, keys[1..], rs[1..])
    else
      match rs[0]
      case Err(e) => Err(e)
      case Ok(v) => ClaimList(table[keys[0] := v], keys[1..], rs[1..])
  }

  predicate Distinct(keys: seq<Key>) {
    forall p, q :: 0 <= p < q < |keys| ==> keys[p] != keys[q]
  }

  predicate FreshIn(keys: seq<Key>, table: map<Key, string>) {
    forall p :: 0 <= p < |keys| ==> keys[p] !in table
  }

  predicate AllOk(rs: seq<Result<string>>) {
    forall p :: 0 <= p < |rs| ==> rs[p].Ok?
  }

  /** `rs[p]` fails with `e` and every rendering before it succeeds. */
  predicate FirstErrAt(rs: seq<Result<string>>, p: nat, e: Error) {
    p < |rs| && rs[p] == Err(e) && forall q :: 0 <= q < p ==> rs[q].Ok?
  }

  /** `t` holds the `p`-th rendering under the `p`-th span. */
  predicate HoldsAll(t: map<Key, string>, keys: seq<Key>, rs: seq<Result<string>>)
    requires |keys| == |rs|
  {
    forall p :: 0 <= p < |keys| ==> keys[p] in t && rs[p] == Ok(t[keys[p]])
  }

  function KeySet(keys: seq<Key>): set<Key> {
    set p | 0 <= p < |keys| :: keys[p]
  }

  lemma KeySetCons(keys: seq<Key>)
    requires keys != []
    ensures KeySet(keys) == {keys[0]} + KeySet(keys[1..])
  {
    var tail := keys[1..];
    forall k | k in KeySet(keys) ensures k in {keys[0]} + KeySet(tail) {
      var p :| 0 <= p < |keys| && keys[p] == k;
      if p > 0 {
        assert tail[p - 1] == keys[p];
      }
    }
    forall k | k in KeySet(tail) ensures k in KeySet(keys) {
      var p :| 0 <= p < |tail| && tail[p] == k;
      assert keys[p + 1] == tail[p];
    }
  }

  lemma ListTail(table: map<Key, string>, keys: seq<Key>, v: string)
    requires keys != [] && Distinct(keys) && FreshIn(keys, table)
    ensures Distinct(keys[1..]) && FreshIn(keys[1..], table[keys[0] := v])
  {
    var tail := keys[1..];
    forall p | 0 <= p < |tail| ensures tail[p] !in table[keys[0] := v] {
      assert tail[p] == keys[p + 1];
    }
    forall p, q | 0 <= p < q < |tail| ensures tail[p] != tail[q] {
      assert tail[p] == keys[p + 1] && tail[q] == keys[q + 1];
    }
  }

  lemma AllOkCons(rs: seq<Result<string>>)
    requires rs != []
    ensures AllOk(rs) <==> rs[0].Ok? && AllOk(rs[1..])
  {
    if rs[0].Ok? && AllOk(rs[1..]) {
      forall p | 0 < p < |rs| ensures rs[p].Ok? {
        assert rs[p] == rs[1..][p - 1];
      }
    }
  }

  /** Claiming fresh, distinct spans succeeds exactly when every rendering does. */
  lemma {:induction false} ClaimListOk(table: map<Key, string>, keys: seq<Key>, rs: seq<Result<string>>)
    requires |keys| == |rs| && Distinct(keys) && FreshIn(keys, table)
    ensures ClaimList(table, keys, rs).Ok? <==> AllOk(rs)
    decreases |keys|
  {
    if keys != [] {
      AllOkCons(rs);
      if rs[0].Ok? {
        ListTail(table, keys, rs[0].value);
        ClaimListOk(table[keys[0] := rs[0].value], keys[1..], rs[1..]);
      }
    }
  }

  /** A successful claim of fresh, distinct spans adds each rendering under its
      span to the table and keeps the entries already there. */
  lemma {:induction false} ClaimListHolds(table: map<Key, string>, keys: seq<Key>, rs: seq<Result<string>>)
    requires |keys| == |rs| && Distinct(keys) && FreshIn(keys, table)
    requires ClaimList(table, keys, rs).Ok?
    ensures var t := ClaimList(table, keys, rs).value;
      && t.Keys == table.Keys + KeySet(keys)
      && (forall k :: k in table ==> t[k] == table[k])
      && HoldsAll(t, keys, rs)
    decreases |keys|
  {
    if keys == [] {
      assert KeySet(keys) == {};
    } else {
      var v := rs[0].value;
      var next := table[keys[0] := v];
      ListTail(table, keys, v);
      ClaimListHolds(next, keys[1..], rs[1..]);
      KeySetCons(keys);
      var t := ClaimList(next, keys[1..], rs[1..]).value;
      forall p | 0 <= p < |keys| ensures keys[p] in t && rs[p] == Ok(t[keys[p]]) {
        if p > 0 {
          assert keys[p] == keys[1..][p - 1] && rs[p] == rs[1..][p - 1];
        }
      }
    }
  }

  /** The keys after a successful claim: those of the table and the spans. */
  lemma ClaimListKeys(table: map<Key, string>, keys: seq<Key>, rs: seq<Result<string>>)
    requires |keys| == |rs| && Distinct(keys) && FreshIn(keys, table)
    requires ClaimList(table, keys, rs).Ok?
    ensures ClaimList(table, keys, rs).value.Keys == table.Keys + KeySet(keys)
  {
    ClaimListHolds(table, keys, rs);
  }

  /** A failed claim of fresh spans fails with the error of the first rendering
      that fails. */
  lemma {:induction false} ClaimListErr(table: map<Key, string>, keys: seq<Key>, rs: seq<Result<string>>)
    requires |keys| == |rs| && Distinct(keys) && FreshIn(keys, table)
    requires ClaimList(table, keys, rs).Err?
    ensures exists p :: FirstErrAt(rs, p, ClaimList(table, keys, rs).error)
    decreases |keys|
  {
    var e := ClaimList(table, keys, rs).error;
    if rs[0].Err? {
      assert FirstErrAt(rs, 0, e);
    } else {
      ListTail(table, keys, rs[0].value);
      ClaimListErr(table[keys[0] := rs[0].value], keys[1..], rs[1..]);
      var p: nat :| FirstErrAt(rs[1..], p, e);
      assert FirstErrAt(rs, p + 1, e) by {
        forall q | 0 <= q < p + 1 ensures rs[q].Ok? {
          if q > 0 {
            assert rs[q] == rs[1..][q - 1];
          }
        }
      }
    }
  }

  // ---------------------------------------------------------------------------
  // The runs of one style
  // ---------------------------------------------------------------------------

  /** The spans of the runs `gs`, in order. */
  function KeySeq(gs: seq<seq<LineMatch>>): (r: seq<Key>)
    requires NonEmptyGroups(gs)
    ensures |r| == |gs|
  {
    if gs == [] then [] else [RunKey(gs[0])] + KeySeq(gs[1..])
  }

  /** The renderings of the runs `gs`, in order. */
  function Renders(gs: seq<seq<LineMatch>>, d: DelimiterPair, cols: int): (r: seq<Result<string>>)
    requires NonEmptyGroups(gs)
    ensures |r| == |gs|
  {
    if gs == [] then [] else [RenderRun(gs[0], d, cols)] + Renders(gs[1..], d, cols)
  }

  /** The `p`-th span is that of the `p`-th run. */
  lemma {:induction false} KeySeqAt(gs: seq<seq<LineMatch>>, p: nat)
    requires NonEmptyGroups(gs) && p < |gs|
    ensures KeySeq(gs)[p] == RunKey(gs[p])
    decreases p
  {
    if p > 0 {
      KeySeqAt(gs[1..], p - 1);
    }
  }

  /** The `p`-th rendering is that of the `p`-th run. */
  lemma {:induction false} RendersAt(gs: seq<seq<LineMatch>>, d: DelimiterPair, cols: int, p: nat)
    requires NonEmptyGroups(gs) && p < |gs|
    ensures Renders(gs, d, cols)[p] == RenderRun(gs[p], d, cols)
    decreases p
  {
    if p > 0 {
      RendersAt(gs[1..], d, cols, p - 1);
    }
  }

  /** ClaimRuns is the claiming loop over the runs' spans and renderings. */
  lemma {:induction false} ClaimRunsIsList(table: map<Key, string>, gs: seq<seq<LineMatch>>, d: DelimiterPair, cols: int)
    requires NonEmptyGroups(gs)
    ensures ClaimRuns(table, gs, d, cols) == ClaimList(table, KeySeq(gs), Renders(gs, d, cols))
    decreases |gs|
  {
    if gs != [] {
      var ks, rs := KeySeq(gs), Renders(gs, d, cols);
      assert ks[0] == RunKey(gs[0]) && ks[1..] == KeySeq(gs[1..]);
      assert rs[0] == RenderRun(gs[0], d, cols) && rs[1..] == Renders(gs[1..], d, cols);
      var key, r := RunKey(gs[0]), RenderRun(gs[0], d, cols);
      if key in table {
        ClaimRunsIsList(table, gs[1..], d, cols);
      } else if r.Ok? {
        ClaimRunsIsList(table[key := r.value], gs[1..], d, cols);
      }
    }
  }

  /** The keys of the runs `gs`. */
  function RunKeys(gs: seq<seq<LineMatch>>): set<Key>
    requires NonEmptyGroups(gs)
  {
    set p | 0 <= p < |gs| :: RunKey(gs[p])
  }

  predicate KeysDistinct(gs: seq<seq<LineMatch>>)
    requires NonEmptyGroups(gs)
  {
    forall p, q :: 0 <= p < q < |gs| ==> RunKey(gs[p]) != RunKey(gs[q])
  }

  lemma FreshRuns(table: map<Key, string>, gs: seq<seq<LineMatch>>)
    requires NonEmptyGroups(gs) && KeysDistinct(gs)
    requires forall p :: 0 <= p < |gs| ==> RunKey(gs[p]) !in table
    ensures Distinct(KeySeq(gs)) && FreshIn(KeySeq(gs), table)
    ensures KeySet(KeySeq(gs)) == RunKeys(gs)
  {
    var ks := KeySeq(gs);
    forall p | 0 <= p < |gs| ensures ks[p] == RunKey(gs[p]) {
      KeySeqAt(gs, p);
    }
  }

  /** Claiming runs with fresh, distinct spans succeeds exactly when every run
      renders; it then adds the `p`-th rendering under the `p`-th run's span
      and keeps the entries already present, and otherwise fails with the
      error of the first run that does not render. */
  lemma ClaimRunsFresh(table: map<Key, string>, gs: seq<seq<LineMatch>>, d: DelimiterPair, cols: int)
    requires NonEmptyGroups(gs) && KeysDistinct(gs)
    requires forall p :: 0 <= p < |gs| ==> RunKey(gs[p]) !in table
    ensures ClaimRuns(table, gs, d, cols).Ok? <==> AllOk(Renders(gs, d, cols))
    ensures ClaimRuns(table, gs, d, cols).Ok? ==>
      var t := ClaimRuns(table, gs, d, cols).value;
      && t.Keys == table.Keys + RunKeys(gs)
      && (forall k :: k in table ==> t[k] == table[k])
      && HoldsAll(t, KeySeq(gs), Renders(gs, d, cols))
    ensures ClaimRuns(table, gs, d, cols).Err? ==>
      exists p :: FirstErrAt(Renders(gs, d, cols), p, ClaimRuns(table, gs, d, cols).error)
  {
    var keys, rs := KeySeq(gs), Renders(gs, d, cols);
    ClaimRunsIsList(table, gs, d, cols);
    FreshRuns(table, gs);
    ClaimListOk(table, keys, rs);
    if ClaimList(table, keys, rs).Ok? {
      ClaimListHolds(table, keys, rs);
    } else {
      ClaimListErr(table, keys, rs);
    }
  }

  /** A span already in the table is never overwritten. */
  lemma {:induction false} ClaimRunsKeeps(table: map<Key, string>, gs: seq<seq<LineMatch>>, d: DelimiterPair, cols: int)
    requires NonEmptyGroups(gs) && ClaimRuns(table, gs, d, cols).Ok?
    ensures forall k :: k in table ==> k in ClaimRuns(table, gs, d, cols).value && ClaimRuns(table, gs, d, cols).value[k] == table[k]
    decreases |gs|
  {
    if gs != [] {
      var key := RunKey(gs[0]);
      if key in table {
        ClaimRunsKeeps(table, gs[1..], d, cols);
      } else {
        var rep := RenderRun(gs[0], d, cols).value;
        ClaimRunsKeeps(table[key := rep], gs[1..], d, cols);
      }
    }
  }

  // ---------------------------------------------------------------------------
  // Claiming the spans of several styles, one after the other
  // ---------------------------------------------------------------------------

  /** One sequence of renderings per sequence of spans, of the same length. */
  predicate Parallel(kss: seq<seq<Key>>, rss: seq<seq<Result<string>>>) {
    |kss| == |rss| && forall i :: 0 <= i < |kss| ==> |kss[i]| == |rss[i]|
  }

  /** The loop over the styles from the `s`-th on, over given spans and renderings. */
  function ClaimAll(table: map<Key, string>, kss: seq<seq<Key>>, rss: seq<seq<Result<string>>>, s: nat)
    : Result<map<Key, string>>
    requires Parallel(kss, rss) && s <= |kss|
    decreases |kss| - s
  {
    if s == |kss| then Ok(table)
    else
      match ClaimList(table, kss[s], rss[s])
      case Err(e) => Err(e)
      case Ok(t) => ClaimAll(t, kss, rss, s + 1)
  }

  /** The spans of the styles before the `s`-th. */
  function KeysUpTo(kss: seq<seq<Key>>, s: nat): set<Key>
    requires s <= |kss|
  {
    set i, p | 0 <= i < s && 0 <= p < |kss[i]| :: kss[i][p]
  }

  /** No span occurs twice, within a style or across styles. */
  predicate AllApart(kss: seq<seq<Key>>) {
    forall i, p, j, q ::
      (0 <= i < |kss| && 0 <= p < |kss[i]| && 0 <= j < |kss| && 0 <= q < |kss[j]| && (i != j || p != q)) ==>
        kss[i][p] != kss[j][q]
  }

  predicate OkFrom(rss: seq<seq<Result<string>>>, s: nat) {
    forall i, p :: s <= i < |rss| && 0 <= p < |rss[i]| ==> rss[i][p].Ok?
  }

  predicate HoldsFrom(t: map<Key, string>, kss: seq<seq<Key>>, rss: seq<seq<Result<string>>>, s: nat)
    requires Parallel(kss, rss)
  {
    forall i, p :: s <= i < |kss| && 0 <= p < |kss[i]| ==> kss[i][p] in t && rss[i][p] == Ok(t[kss[i][p]])
  }

  predicate ErrFrom(rss: seq<seq<Result<string>>>, s: nat, e: Error) {
    exists i, p :: s <= i < |rss| && 0 <= p < |rss[i]| && rss[i][p] == Err(e)
  }

  /** The spans of the `s`-th style are distinct and none is in a table that
      holds the spans of the earlier styles. */
  lemma StyleFresh(table: map<Key, string>, kss: seq<seq<Key>>, s: nat)
    requires s < |kss| && AllApart(kss) && table.Keys == KeysUpTo(kss, s)
    ensures Distinct(kss[s]) && FreshIn(kss[s], table)
  {
    forall p | 0 <= p < |kss[s]| ensures kss[s][p] !in table {
      forall i, q | 0 <= i < s && 0 <= q < |kss[i]| ensures kss[i][q] != kss[s][p] {
      }
    }
  }

  lemma KeysUpToStep(kss: seq<seq<Key>>, s: nat)
    requires s < |kss|
    ensures KeysUpTo(kss, s + 1) == KeysUpTo(kss, s) + KeySet(kss[s])
  {
    forall k | k in KeysUpTo(kss, s + 1) ensures k in KeysUpTo(kss, s) + KeySet(kss[s]) {
      var i, p :| 0 <= i < s + 1 && 0 <= p < |kss[i]| && kss[i][p] == k;
      if i < s {
        assert k in KeysUpTo(kss, s);
      }
    }
  }

  lemma OkFromStep(rss: seq<seq<Result<string>>>, s: nat)
    requires s < |rss|
    ensures OkFrom(rss, s) <==> AllOk(rss[s]) && OkFrom(rss, s + 1)
  {
  }

  /** After the `s`-th style is claimed, the table holds the spans of the
      styles up to and including it. */
  lemma ClaimNext(table: map<Key, string>, kss: seq<seq<Key>>, rss: seq<seq<Result<string>>>, s: nat)
    requires Parallel(kss, rss) && s < |kss| && AllApart(kss) && table.Keys == KeysUpTo(kss, s)
    requires ClaimList(table, kss[s], rss[s]).Ok?
    ensures ClaimList(table, kss[s], rss[s]).value.Keys == KeysUpTo(kss, s + 1)
  {
    StyleFresh(table, kss, s);
    ClaimListKeys(table, kss[s], rss[s]);
    KeysUpToStep(kss, s);
  }

  /** Claiming the styles from the `s`-th on succeeds exactly when every
      rendering of those styles does. */
  lemma {:induction false} ClaimAllOk(table: map<Key, string>, kss: seq<seq<Key>>, rss: seq<seq<Result<string>>>, s: nat)
    requires Parallel(kss, rss) && s <= |kss| && AllApart(kss) && table.Keys == KeysUpTo(kss, s)
    ensures ClaimAll(table, kss, rss, s).Ok? <==> OkFrom(rss, s)
    decreases |kss| - s
  {
    if s < |kss| {
      StyleFresh(table, kss, s);
      ClaimListOk(table, kss[s], rss[s]);
      OkFromStep(rss, s);
      var c := ClaimList(table, kss[s], rss[s]);
      if c.Ok? {
        ClaimNext(table, kss, rss, s);
        ClaimAllOk(c.value, kss, rss, s + 1);
      }
    }
  }

  /** A successful claim of the styles from the `s`-th on has the spans of all
      styles as its keys, keeps the table's entries and holds each rendering of
      those styles under its span. */
  lemma {:induction false} ClaimAllHolds(table: map<Key, string>, kss: seq<seq<Key>>, rss: seq<seq<Result<string>>>, s: nat)
    requires Parallel(kss, rss) && s <= |kss| && AllApart(kss) && table.Keys == KeysUpTo(kss, s)
    requires ClaimAll(table, kss, rss, s).Ok?
    ensures var t := ClaimAll(table, kss, rss, s).value;
      && t.Keys == KeysUpTo(kss, |kss|)
      && (forall k :: k in table ==> t[k] == table[k])
      && HoldsFrom(t, kss, rss, s)
    decreases |kss| - s
  {
    if s < |kss| {
      StyleFresh(table, kss, s);
      var c := ClaimList(table, kss[s], rss[s]).value;
      ClaimListHolds(table, kss[s], rss[s]);
      KeysUpToStep(kss, s);
      ClaimAllHolds(c, kss, rss, s + 1);
      var t := ClaimAll(c, kss, rss, s + 1).value;
      forall i, p | s <= i < |kss| && 0 <= p < |kss[i]|
        ensures kss[i][p] in t && rss[i][p] == Ok(t[kss[i][p]])
      {
        if i == s {
          assert kss[s][p] in c && rss[s][p] == Ok(c[kss[s][p]]);
        }
      }
    }
  }

  /** A failed claim fails with the error of one of the renderings of the
      styles from the `s`-th on. */
  lemma {:induction false} ClaimAllErr(table: map<Key, string>, kss: seq<seq<Key>>, rss: seq<seq<Result<string>>>, s: nat)
    requires Parallel(kss, rss) && s <= |kss| && AllApart(kss) && table.Keys == KeysUpTo(kss, s)
    requires ClaimAll(table, kss, rss, s).Err?
    ensures ErrFrom(rss, s, ClaimAll(table, kss, rss, s).error)
    decreases |kss| - s
  {
    StyleFresh(table, kss, s);
    var c := ClaimList(table, kss[s], rss[s]);
    if c.Err? {
      ClaimListErr(table, kss[s], rss[s]);
      var p: nat :| FirstErrAt(rss[s], p, c.error);
      assert rss[s][p] == Err(c.error);
    } else {
      ClaimNext(table, kss, rss, s);
      ClaimAllErr(c.value, kss, rss, s + 1);
    }
  }

  // ---------------------------------------------------------------------------
  // Across the styles of the catalog
  // ---------------------------------------------------------------------------

  /** The spans of the runs of each style of the catalog. */
  function StyleKeySeqs(text: string): seq<seq<Key>> {
    seq(|Catalog|, i requires 0 <= i < |Catalog| => KeySeq(StyleRuns(text, i)))
  }

  /** The renderings of the runs of each style of the catalog. */
  function StyleRenders(text: string, cols: int): seq<seq<Result<string>>> {
    seq(|Catalog|, i requires 0 <= i < |Catalog| => Renders(StyleRuns(text, i), Catalog[i], cols))
  }

  /** The span and the rendering of the `p`-th run of the `i`-th style. */
  lemma StyleEntry(text: string, cols: int, i: nat)
    requires i < |Catalog|
    ensures Parallel(StyleKeySeqs(text), StyleRenders(text, cols))
    ensures |StyleKeySeqs(text)| == |Catalog| && |StyleKeySeqs(text)[i]| == |StyleRuns(text, i)|
    ensures StyleKeySeqs(text)[i] == KeySeq(StyleRuns(text, i))
    ensures StyleRenders(text, cols)[i] == Renders(StyleRuns(text, i), Catalog[i], cols)
  {
  }

  /** ClaimStylesFrom is the claiming loop over the styles' spans and renderings. */
  lemma {:induction false} ClaimStylesIsAll(table: map<Key, string>, text: string, s: nat, cols: int)
    requires s <= |Catalog|
    ensures Parallel(StyleKeySeqs(text), StyleRenders(text, cols))
    ensures ClaimStylesFrom(table, text, s, cols) == ClaimAll(table, StyleKeySeqs(text), StyleRenders(text, cols), s)
    decreases |Catalog| - s
  {
    StyleEntry(text, cols, 0);
    if s < |Catalog| {
      StyleEntry(text, cols, s);
      var gs := StyleRuns(text, s);
      ClaimRunsIsList(table, gs, Catalog[s], cols);
      var c := ClaimRuns(table, gs, Catalog[s], cols);
      if c.Ok? {
        ClaimStylesIsAll(c.value, text, s + 1, cols);
      }
    }
  }

  /** The spans of the runs of the styles before the `s`-th. */
  function KeysBelow(text: string, s: nat): set<Key>
    requires s <= |Catalog|
  {
    set i, p | 0 <= i < s && 0 <= p < |StyleRuns(text, i)| :: RunKey(StyleRuns(text, i)[p])
  }

  /** Every run of every style from the `s`-th on renders. */
  predicate StylesRender(text: string, s: nat, cols: int)
    requires s <= |Catalog|
  {
    forall i, p :: s <= i < |Catalog| && 0 <= p < |StyleRuns(text, i)| ==>
      RenderRun(StyleRuns(text, i)[p], Catalog[i], cols).Ok?
  }

  /** `t` maps the span of each run of the styles from the `s`-th on to the
      run's rendering. */
  predicate HoldsRenderings(t: map<Key, string>, text: string, s: nat, cols: int)
    requires s <= |Catalog|
  {
    forall i, p :: s <= i < |Catalog| && 0 <= p < |StyleRuns(text, i)| ==>
      RunKey(StyleRuns(text, i)[p]) in t &&
      RenderRun(StyleRuns(text, i)[p], Catalog[i], cols) == Ok(t[RunKey(StyleRuns(text, i)[p])])
  }

  /** Some run of a style from the `s`-th on fails with `e`. */
  predicate SomeRunFails(text: string, s: nat, cols: int, e: Error)
    requires s <= |Catalog|
  {
    exists i, p :: s <= i < |Catalog| && 0 <= p < |StyleRuns(text, i)| &&
      RenderRun(StyleRuns(text, i)[p], Catalog[i], cols) == Err(e)
  }

  /** Two distinct runs of the text have distinct spans. */
  lemma DistinctRunsDistinctKeys(text: string, i: nat, p: nat, j: nat, q: nat)
    requires i < |Catalog| && j < |Catalog|
    requires p < |StyleRuns(text, i)| && q < |StyleRuns(text, j)|
    requires i != j || p != q
    ensures RunKey(StyleRuns(text, i)[p]) != RunKey(StyleRuns(text, j)[q])
  {
    RunsApart(text, i, p, j, q);
    StyleRunsFacts(text, i);
    StyleRunsFacts(text, j);
  }

  /** The runs of the `s`-th style have distinct spans, none claimed by an
      earlier style. */
  lemma StyleKeysFresh(text: string, s: nat)
    requires s < |Catalog|
    ensures KeysDistinct(StyleRuns(text, s))
    ensures forall p :: 0 <= p < |StyleRuns(text, s)| ==> RunKey(StyleRuns(text, s)[p]) !in KeysBelow(text, s)
  {
    var gs := StyleRuns(text, s);
    forall p, q | 0 <= p < q < |gs| ensures RunKey(gs[p]) != RunKey(gs[q]) {
      DistinctRunsDistinctKeys(text, s, p, s, q);
    }
    forall p | 0 <= p < |gs| ensures RunKey(gs[p]) !in KeysBelow(text, s) {
      if RunKey(gs[p]) in KeysBelow(text, s) {
        var i, q :| 0 <= i < s && 0 <= q < |StyleRuns(text, i)| && RunKey(StyleRuns(text, i)[q]) == RunKey(gs[p]);
        DistinctRunsDistinctKeys(text, i, q, s, p);
      }
    }
  }

  /** The `p`-th span and rendering of the `i`-th style are those of its
      `p`-th run. */
  lemma StyleCell(text: string, cols: int, i: nat, p: nat)
    requires i < |Catalog| && p < |StyleRuns(text, i)|
    ensures Parallel(StyleKeySeqs(text), StyleRenders(text, cols))
    ensures p < |StyleKeySeqs(text)[i]|
    ensures StyleKeySeqs(text)[i][p] == RunKey(StyleRuns(text, i)[p])
    ensures StyleRenders(text, cols)[i][p] == RenderRun(StyleRuns(text, i)[p], Catalog[i], cols)
  {
    StyleEntry(text, cols, i);
    KeySeqAt(StyleRuns(text, i), p);
    RendersAt(StyleRuns(text, i), Catalog[i], cols, p);
  }

  lemma StyleKeysApart(text: string)
    ensures AllApart(StyleKeySeqs(text))
  {
    var kss := StyleKeySeqs(text);
    StyleEntry(text, 0, 0);
    forall i, p, j, q | 0 <= i < |kss| && 0 <= p < |kss[i]| && 0 <= j < |kss| && 0 <= q < |kss[j]| && (i != j || p != q)
      ensures kss[i][p] != kss[j][q]
    {
      StyleEntry(text, 0, i);
      StyleEntry(text, 0, j);
      StyleCell(text, 0, i, p);
      StyleCell(text, 0, j, q);
      DistinctRunsDistinctKeys(text, i, p, j, q);
    }
  }

  lemma KeysUpToBelow(text: string, k: Key)
    requires |StyleKeySeqs(text)| == |Catalog| && k in KeysUpTo(StyleKeySeqs(text), |Catalog|)
    ensures k in KeysBelow(text, |Catalog|)
  {
    var kss := StyleKeySeqs(text);
    var i, p :| 0 <= i < |Catalog| && 0 <= p < |kss[i]| && kss[i][p] == k;
    StyleEntry(text, 0, i);
    StyleCell(text, 0, i, p);
  }

  lemma KeysBelowUpTo(text: string, k: Key)
    requires k in KeysBelow(text, |Catalog|)
    ensures |StyleKeySeqs(text)| == |Catalog| && k in KeysUpTo(StyleKeySeqs(text), |Catalog|)
  {
    var i, p :| 0 <= i < |Catalog| && 0 <= p < |StyleRuns(text, i)| && RunKey(StyleRuns(text, i)[p]) == k;
    StyleCell(text, 0, i, p);
  }

  lemma AllKeysBelow(text: string)
    ensures |StyleKeySeqs(text)| == |Catalog|
    ensures KeysUpTo(StyleKeySeqs(text), |Catalog|) == KeysBelow(text, |Catalog|)
  {
    StyleEntry(text, 0, 0);
    forall k | k in KeysUpTo(StyleKeySeqs(text), |Catalog|) ensures k in KeysBelow(text, |Catalog|) {
      KeysUpToBelow(text, k);
    }
    forall k | k in KeysBelow(text, |Catalog|) ensures k in KeysUpTo(StyleKeySeqs(text), |Catalog|) {
      KeysBelowUpTo(text, k);
    }
  }

  lemma RenderingsOk(text: string, cols: int)
    ensures OkFrom(StyleRenders(text, cols), 0) <==> StylesRender(text, 0, cols)
  {
    var rss := StyleRenders(text, cols);
    StyleEntry(text, cols, 0);
    if OkFrom(rss, 0) {
      forall i, p | 0 <= i < |Catalog| && 0 <= p < |StyleRuns(text, i)|
        ensures RenderRun(StyleRuns(text, i)[p], Catalog[i], cols).Ok?
      {
        StyleCell(text, cols, i, p);
      }
    }
    if StylesRender(text, 0, cols) {
      forall i, p | 0 <= i < |rss| && 0 <= p < |rss[i]| ensures rss[i][p].Ok? {
        StyleEntry(text, cols, i);
        StyleCell(text, cols, i, p);
      }
    }
  }

  lemma RenderingsHeld(t: map<Key, string>, text: string, cols: int)
    requires Parallel(StyleKeySeqs(text), StyleRenders(text, cols))
    requires HoldsFrom(t, StyleKeySeqs(text), StyleRenders(text, cols), 0)
    ensures HoldsRenderings(t, text, 0, cols)
  {
    forall i, p | 0 <= i < |Catalog| && 0 <= p < |StyleRuns(text, i)|
      ensures RunKey(StyleRuns(text, i)[p]) in t
      ensures RenderRun(StyleRuns(text, i)[p], Catalog[i], cols) == Ok(t[RunKey(StyleRuns(text, i)[p])])
    {
      StyleCell(text, cols, i, p);
    }
  }

  lemma RenderingFails(text: string, cols: int, e: Error)
    requires ErrFrom(StyleRenders(text, cols), 0, e)
    ensures SomeRunFails(text, 0, cols, e)
  {
    var rss := StyleRenders(text, cols);
    var i, p :| 0 <= i < |rss| && 0 <= p < |rss[i]| && rss[i][p] == Err(e);
    StyleEntry(text, cols, i);
    StyleCell(text, cols, i, p);
  }

  /** The replacement table exists exactly when every run of every style
      renders; its keys are then exactly the spans of the runs and each holds
      its run's rendering. A failure is the error of some run. */
  lemma ReplacementsSpec(text: string, cols: int)
    ensures Replacements(text, cols).Ok? <==> StylesRender(text, 0, cols)
    ensures Replacements(text, cols).Ok? ==>
      && Replacements(text, cols).value.Keys == KeysBelow(text, |Catalog|)
      && HoldsRenderings(Replacements(text, cols).value, text, 0, cols)
    ensures Replacements(text, cols).Err? ==> SomeRunFails(text, 0, cols, Replacements(text, cols).error)
  {
    var kss, rss := StyleKeySeqs(text), StyleRenders(text, cols);
    var empty: map<Key, string> := map[];
    ClaimStylesIsAll(empty, text, 0, cols);
    StyleKeysApart(text);
    assert KeysUpTo(kss, 0) == {};
    ClaimAllOk(empty, kss, rss, 0);
    RenderingsOk(text, cols);
    var r := ClaimAll(empty, kss, rss, 0);
    if r.Ok? {
      ClaimAllHolds(empty, kss, rss, 0);
      AllKeysBelow(text);
      RenderingsHeld(r.value, text, cols);
    } else {
      ClaimAllErr(empty, kss, rss, 0);
      RenderingFails(text, cols, r.error);
    }
  }
}
