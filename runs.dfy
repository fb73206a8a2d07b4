/** The runs reflow_text rewrites: the groups of one style's matches, and the
    facts about their spans that make the replacement table well behaved. */
module Runs {
  import opened Delimiters
  import opened LineMatcher

  /** The offset at which a run starts: the start of its first match. */
  function RunStart(g: seq<LineMatch>): nat
    requires g != []
  {
    g[0].start
  }

  /** The offset at which a run ends: the end of its last match. */
  function RunEnd(g: seq<LineMatch>): nat
    requires g != []
  {
    g[|g| - 1].end
  }

  /** The runs of the `i`-th style of the catalog in `text`. */
  function StyleRuns(text: string, i: nat): (gs: seq<seq<LineMatch>>)
    requires i < |Catalog|
    ensures NonEmptyGroups(gs)
  {
    Grouped(FindMatches(text, Catalog[i]))
  }

  /** `g` is a run of style `d`: linked matches of that style on whole lines. */
  predicate IsRunOf(text: string, d: DelimiterPair, g: seq<LineMatch>) {
    g != [] && AllMatchesOf(text, d, g) && LinkedWithin(g)
  }

  /** Every match starts no later than it ends. */
  predicate WellSpanned(ms: seq<LineMatch>) {
    forall k :: 0 <= k < |ms| ==> ms[k].start <= ms[k].end
  }

  /** Each run starts no later than it ends and runs come in source order,
      separated by at least one offset. */
  predicate RunsInOrder(gs: seq<seq<LineMatch>>)
    requires NonEmptyGroups(gs)
  {
    && (forall k :: 0 <= k < |gs| ==> RunStart(gs[k]) <= RunEnd(gs[k]))
    && (forall j, k :: 0 <= j < k < |gs| ==> RunEnd(gs[j]) < RunStart(gs[k]))
  }

  // ---------------------------------------------------------------------------
  // The runs of one style
  // ---------------------------------------------------------------------------

  lemma MatchesSpanned(text: string, d: DelimiterPair, ms: seq<LineMatch>)
    requires AllMatchesOf(text, d, ms)
    ensures WellSpanned(ms)
  {
    forall k | 0 <= k < |ms| ensures ms[k].start <= ms[k].end {
      assert IsMatchOf(text, d, ms[k]);
    }
  }

  /** Adding a match of the style to groups of matches of the style keeps every
      group made of matches of the style. */
  lemma AddMatchMembers(text: string, d: DelimiterPair, gs: seq<seq<LineMatch>>, m: LineMatch)
    requires NonEmptyGroups(gs) && IsMatchOf(text, d, m)
    requires forall k :: 0 <= k < |gs| ==> AllMatchesOf(text, d, gs[k])
    ensures forall k :: 0 <= k < |AddMatch(gs, m)| ==> AllMatchesOf(text, d, AddMatch(gs, m)[k])
  {
    var r := AddMatch(gs, m);
    if gs != [] && MatchesGroup(gs[|gs| - 1], m) {
      var last := gs[|gs| - 1];
      assert r == gs[..|gs| - 1] + [last + [m]];
      assert AllMatchesOf(text, d, last + [m]) by {
        assert AllMatchesOf(text, d, last);
        forall t | 0 <= t < |last + [m]| ensures IsMatchOf(text, d, (last + [m])[t]) {
          if t < |last| {
            assert (last + [m])[t] == last[t];
          }
        }
      }
      forall k | 0 <= k < |r| ensures AllMatchesOf(text, d, r[k]) {
        if k < |r| - 1 {
          assert r[k] == gs[k];
        }
      }
    } else {
      assert r == gs + [[m]];
      forall k | 0 <= k < |r| ensures AllMatchesOf(text, d, r[k]) {
        if k < |r| - 1 {
          assert r[k] == gs[k];
        }
      }
    }
  }

  /** Every match in a group is one of the matches grouped. */
  lemma {:induction false} GroupedMembers(text: string, d: DelimiterPair, ms: seq<LineMatch>)
    requires AllMatchesOf(text, d, ms)
    ensures forall k :: 0 <= k < |Grouped(ms)| ==> AllMatchesOf(text, d, Grouped(ms)[k])
  {
    if ms != [] {
      var init, m := ms[..|ms| - 1], ms[|ms| - 1];
      assert AllMatchesOf(text, d, init) by {
        forall k | 0 <= k < |init| ensures IsMatchOf(text, d, init[k]) {
          assert init[k] == ms[k];
        }
      }
      GroupedMembers(text, d, init);
      assert IsMatchOf(text, d, m);
      AddMatchMembers(text, d, Grouped(init), m);
    }
  }

  /** The last group ends where the last match ends. */
  lemma GroupedLast(ms: seq<LineMatch>)
    requires ms != []
    ensures Grouped(ms) != [] && RunEnd(Grouped(ms)[|Grouped(ms)| - 1]) == ms[|ms| - 1].end
  {
  }

  /** One step of the grouping loop keeps the runs in order when the new match
      lies after every run built so far. */
  lemma AddMatchOrder(gs: seq<seq<LineMatch>>, m: LineMatch)
    requires NonEmptyGroups(gs) && RunsInOrder(gs) && m.start <= m.end
    requires gs != [] ==> RunEnd(gs[|gs| - 1]) < m.start
    ensures RunsInOrder(AddMatch(gs, m))
  {
    var r := AddMatch(gs, m);
    if gs != [] && MatchesGroup(gs[|gs| - 1], m) {
      var last := gs[|gs| - 1];
      assert r == gs[..|gs| - 1] + [last + [m]];
      assert RunStart(last + [m]) == RunStart(last) && RunEnd(last + [m]) == m.end;
      forall k | 0 <= k < |r| ensures RunStart(r[k]) <= RunEnd(r[k]) {
        if k < |r| - 1 {
          assert r[k] == gs[k];
        }
      }
      forall j, k | 0 <= j < k < |r| ensures RunEnd(r[j]) < RunStart(r[k]) {
        assert r[j] == gs[j];
        if k < |r| - 1 {
          assert r[k] == gs[k];
        }
      }
    } else {
      assert r == gs + [[m]];
      forall k | 0 <= k < |r| ensures RunStart(r[k]) <= RunEnd(r[k]) {
        if k < |r| - 1 {
          assert r[k] == gs[k];
        }
      }
      forall j, k | 0 <= j < k < |r| ensures RunEnd(r[j]) < RunStart(r[k]) {
        assert r[j] == gs[j];
        if k < |r| - 1 {
          assert r[k] == gs[k];
        } else {
          assert RunEnd(gs[j]) <= RunEnd(gs[|gs| - 1]);
        }
      }
    }
  }

  /** Grouping matches of distinct lines in source order gives runs in source order. */
  lemma {:induction false} GroupedOrder(ms: seq<LineMatch>)
    requires InLineOrder(ms) && WellSpanned(ms)
    ensures RunsInOrder(Grouped(ms))
  {
    if ms != [] {
      var init, m := ms[..|ms| - 1], ms[|ms| - 1];
      assert InLineOrder(init) && WellSpanned(init) by {
        forall k | 0 <= k < |init| ensures init[k] == ms[k] {
        }
      }
      GroupedOrder(init);
      if init != [] {
        GroupedLast(init);
      }
      AddMatchOrder(Grouped(init), m);
    }
  }

  /** The runs of one style are runs of that style, in source order. */
  lemma StyleRunsFacts(text: string, i: nat)
    requires i < |Catalog|
    ensures forall p :: 0 <= p < |StyleRuns(text, i)| ==> IsRunOf(text, Catalog[i], StyleRuns(text, i)[p])
    ensures RunsInOrder(StyleRuns(text, i))
  {
    var ms := FindMatches(text, Catalog[i]);
    FindMatchesCorrect(text, Catalog[i]);
    MatchesSpanned(text, Catalog[i], ms);
    GroupedMembers(text, Catalog[i], ms);
    GroupedLinkedWithin(ms);
    GroupedOrder(ms);
  }

  // ---------------------------------------------------------------------------
  // Runs of different styles never overlap
  // ---------------------------------------------------------------------------

  /** A matched line holds at least one character. */
  lemma MatchNonEmpty(text: string, d: DelimiterPair, m: LineMatch)
    requires IsMatchOf(text, d, m)
    ensures m.start < m.end
  {
    assert |text[m.start..m.end]| == |m.indent + d.open + m.body + d.close|;
  }

  /** The only line start inside a line is its own start. */
  lemma LineStartWithin(text: string, s: nat, e: nat, a: nat, b: nat)
    requires IsLine(text, s, e) && s < e && IsLine(text, a, b) && s <= a <= e
    ensures a == s
  {
  }

  /** A run without its first match is a run that starts on the next line. */
  lemma RunTail(text: string, d: DelimiterPair, g: seq<LineMatch>)
    requires IsRunOf(text, d, g) && |g| > 1
    ensures IsRunOf(text, d, g[1..])
    ensures RunStart(g[1..]) == g[0].end + 1 && RunEnd(g[1..]) == RunEnd(g)
  {
    var tail := g[1..];
    assert Linked(g[0], g[1]);
    forall k | 0 <= k < |tail| ensures IsMatchOf(text, d, tail[k]) {
      assert tail[k] == g[k + 1];
    }
    forall k | 0 <= k < |tail| - 1 ensures Linked(tail[k], tail[k + 1]) {
      assert tail[k] == g[k + 1] && tail[k + 1] == g[k + 2];
    }
  }

  /** Every line start a run's span covers is the start of one of its matches. */
  lemma {:induction false} RunCovers(text: string, d: DelimiterPair, g: seq<LineMatch>, a: nat, b: nat)
    requires IsRunOf(text, d, g) && IsLine(text, a, b) && RunStart(g) <= a <= RunEnd(g)
    ensures HasMatchAt(g, a)
    decreases |g|
  {
    var m := g[0];
    assert IsMatchOf(text, d, m);
    MatchNonEmpty(text, d, m);
    if a <= m.end {
      LineStartWithin(text, m.start, m.end, a, b);
      assert g[0].start == a;
    } else if |g| > 1 {
      var tail := g[1..];
      RunTail(text, d, g);
      RunCovers(text, d, tail, a, b);
      var k :| 0 <= k < |tail| && tail[k].start == a;
      assert g[k + 1] == tail[k];
    }
  }

  /** Two matches starting at the same offset lie on the same line. */
  lemma SameLine(text: string, d1: DelimiterPair, d2: DelimiterPair, m1: LineMatch, m2: LineMatch)
    requires IsMatchOf(text, d1, m1) && IsMatchOf(text, d2, m2) && m1.start == m2.start
    ensures m1.end == m2.end
  {
    LineEndOfLine(text, m1.start, m1.end);
    LineEndOfLine(text, m2.start, m2.end);
  }

  /** A run whose first line lies inside the span of a run of another style
      would put one line under two styles, which no line admits. */
  lemma OverlapSameStyle(text: string, i: nat, j: nat, g: seq<LineMatch>, h: seq<LineMatch>)
    requires i < |Catalog| && j < |Catalog|
    requires IsRunOf(text, Catalog[i], g) && IsRunOf(text, Catalog[j], h)
    requires RunStart(g) <= RunStart(h) <= RunEnd(g)
    ensures i == j
  {
    var m2 := h[0];
    assert IsMatchOf(text, Catalog[j], m2);
    RunCovers(text, Catalog[i], g, m2.start, m2.end);
    var k :| 0 <= k < |g| && g[k].start == m2.start;
    var m1 := g[k];
    assert IsMatchOf(text, Catalog[i], m1);
    SameLine(text, Catalog[i], Catalog[j], m1, m2);
    var line := text[m1.start..m1.end];
    assert Shaped(line, Catalog[i], m1.indent, m1.body);
    assert Shaped(line, Catalog[j], m2.indent, m2.body);
    StylesAreExclusive(line, i, j);
  }

  /** The spans `[s1, e1]` and `[s2, e2]` are apart: one ends before the other starts. */
  predicate Apart(s1: nat, e1: nat, s2: nat, e2: nat) {
    e1 < s2 || e2 < s1
  }

  /** Any two distinct runs of the text, of the same style or not, lie apart. */
  lemma RunsApart(text: string, i: nat, p: nat, j: nat, q: nat)
    requires i < |Catalog| && j < |Catalog|
    requires p < |StyleRuns(text, i)| && q < |StyleRuns(text, j)|
    ensures var g, h := StyleRuns(text, i)[p], StyleRuns(text, j)[q];
      (i == j && p == q) || Apart(RunStart(g), RunEnd(g), RunStart(h), RunEnd(h))
  {
    var g, h := StyleRuns(text, i)[p], StyleRuns(text, j)[q];
    StyleRunsFacts(text, i);
    StyleRunsFacts(text, j);
    if i != j {
      if RunStart(g) <= RunStart(h) <= RunEnd(g) {
        OverlapSameStyle(text, i, j, g, h);
      } else if RunStart(h) <= RunStart(g) <= RunEnd(h) {
        OverlapSameStyle(text, j, i, h, g);
      }
    }
  }
}
