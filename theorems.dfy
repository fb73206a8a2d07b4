/** End-to-end properties of reflow_text. */
module ReflowTheorems {
  import opened Results
  import opened Delimiters
  import opened LineSplitter
  import opened LineMatcher
  import opened Runs
  import opened TextReflow
  import opened ReplacementTable
  import opened Stitching
  import opened Rendering

  /** A run lies within the text and starts no later than it ends. */
  lemma RunWithin(text: string, i: nat, p: nat)
    requires i < |Catalog| && p < |StyleRuns(text, i)|
    ensures RunKey(StyleRuns(text, i)[p]).0 <= RunKey(StyleRuns(text, i)[p]).1 <= |text|
  {
    var g := StyleRuns(text, i)[p];
    StyleRunsFacts(text, i);
    assert IsMatchOf(text, Catalog[i], g[|g| - 1]);
  }

  /** Every key of the table is the span of some run. */
  lemma KeyOfSomeRun(text: string, k: Key)
    requires k in KeysBelow(text, |Catalog|)
    ensures exists i, p :: 0 <= i < |Catalog| && 0 <= p < |StyleRuns(text, i)| && RunKey(StyleRuns(text, i)[p]) == k
  {
  }

  /** The sorted keys of the replacement table form a chain of spans within
      the text: the spans of distinct runs never overlap. */
  lemma TableChained(text: string, cols: int)
    requires Replacements(text, cols).Ok?
    ensures var t := Replacements(text, cols).value;
      InTable(SortedKeys(t.Keys), t) && Chained(SortedKeys(t.Keys), 0, |text|)
  {
    var t := Replacements(text, cols).value;
    ReplacementsSpec(text, cols);
    var ks := SortedKeys(t.Keys);
    forall j | 0 <= j < |ks| ensures ks[j].0 <= ks[j].1 <= |text| {
      KeyOfSomeRun(text, ks[j]);
      var i, p :| 0 <= i < |Catalog| && 0 <= p < |StyleRuns(text, i)| && RunKey(StyleRuns(text, i)[p]) == ks[j];
      RunWithin(text, i, p);
    }
    forall j, k | 0 <= j < k < |ks| ensures ks[j].1 < ks[k].0 || ks[k].1 < ks[j].0 {
      KeyOfSomeRun(text, ks[j]);
      KeyOfSomeRun(text, ks[k]);
      var i, p :| 0 <= i < |Catalog| && 0 <= p < |StyleRuns(text, i)| && RunKey(StyleRuns(text, i)[p]) == ks[j];
      var i', q :| 0 <= i' < |Catalog| && 0 <= q < |StyleRuns(text, i')| && RunKey(StyleRuns(text, i')[q]) == ks[k];
      assert KeyLess(ks[j], ks[k]);
      RunsApart(text, i, p, i', q);
    }
    SortedApartChained(ks, |text|);
  }

  /** reflow_text succeeds exactly when every run of every style renders. Its
      output is then the text with the span of each run replaced, one span at
      a time, by the run's rendering; otherwise its error is that of some run
      that does not render. */
  lemma ReflowReplacesRuns(text: string, cols: int)
    ensures Reflow(text, cols).Ok? <==> StylesRender(text, 0, cols)
    ensures Reflow(text, cols).Ok? ==>
      var t := Replacements(text, cols).value;
      && t.Keys == KeysBelow(text, |Catalog|)
      && HoldsRenderings(t, text, 0, cols)
      && InTable(SortedKeys(t.Keys), t) && Chained(SortedKeys(t.Keys), 0, |text|)
      && Reflow(text, cols).value == ReplaceAll(text, t, SortedKeys(t.Keys))
    ensures Reflow(text, cols).Err? ==> SomeRunFails(text, 0, cols, Reflow(text, cols).error)
  {
    ReplacementsSpec(text, cols);
    if Replacements(text, cols).Ok? {
      var t := Replacements(text, cols).value;
      TableChained(text, cols);
      StitchIsReplaceAll(text, t, SortedKeys(t.Keys));
    }
  }

  /** Every run is one line whose body fits its effective width. */
  predicate AllRunsFit(text: string, cols: int) {
    forall i, p :: 0 <= i < |Catalog| && 0 <= p < |StyleRuns(text, i)| ==>
      |StyleRuns(text, i)[p]| == 1 &&
      |StyleRuns(text, i)[p][0].body| <= EffectiveLength(cols, StyleRuns(text, i)[p][0].indent, Catalog[i])
  }

  lemma FittingRunRendersItself(text: string, cols: int, i: nat, p: nat)
    requires AllRunsFit(text, cols)
    requires i < |Catalog| && p < |StyleRuns(text, i)|
    ensures var g := StyleRuns(text, i)[p];
      RunKey(g).0 <= RunKey(g).1 <= |text| &&
      RenderRun(g, Catalog[i], cols) == Ok(text[RunKey(g).0..RunKey(g).1])
  {
    var g := StyleRuns(text, i)[p];
    StyleRunsFacts(text, i);
    assert g == [g[0]];
    assert IsMatchOf(text, Catalog[i], g[0]);
    RenderFittingLine(text, Catalog[i], g[0], cols);
  }

  /** When every run is a single line that already fits, reflow_text returns
      the text unchanged. */
  lemma ReflowKeepsFittingText(text: string, cols: int)
    requires AllRunsFit(text, cols)
    ensures Reflow(text, cols) == Ok(text)
  {
    forall i, p | 0 <= i < |Catalog| && 0 <= p < |StyleRuns(text, i)|
      ensures RenderRun(StyleRuns(text, i)[p], Catalog[i], cols).Ok?
    {
      FittingRunRendersItself(text, cols, i, p);
    }
    ReplacementsSpec(text, cols);
    var t := Replacements(text, cols).value;
    TableChained(text, cols);
    var ks := SortedKeys(t.Keys);
    forall j | 0 <= j < |ks| ensures t[ks[j]] == text[ks[j].0..ks[j].1] {
      KeyOfSomeRun(text, ks[j]);
      var i, p :| 0 <= i < |Catalog| && 0 <= p < |StyleRuns(text, i)| && RunKey(StyleRuns(text, i)[p]) == ks[j];
      FittingRunRendersItself(text, cols, i, p);
    }
    StitchIdentity(text, t, ks, 0);
    assert text[0..] == text;
  }

  /** A text in which no line matches any style is returned unchanged. */
  lemma ReflowWithoutRuns(text: string, cols: int)
    requires forall i :: 0 <= i < |Catalog| ==> FindMatches(text, Catalog[i]) == []
    ensures Reflow(text, cols) == Ok(text)
  {
    forall i | 0 <= i < |Catalog| ensures StyleRuns(text, i) == [] {
      assert FindMatches(text, Catalog[i]) == [];
    }
    ReflowKeepsFittingText(text, cols);
  }
}
