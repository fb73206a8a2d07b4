/** reflow_text: render every run of every style, keep the renderings in a
    table keyed by the run's span, and stitch the table into the text. */
module TextReflow {
  import opened Results
  import opened Delimiters
  import opened BreakPoints
  import opened LineSplitter
  import opened LineMatcher
  import opened Runs

  /** A key of the replacement table: the span `(start, end)` of a run. */
  type Key = (nat, nat)

  function RunKey(g: seq<LineMatch>): Key
    requires g != []
  {
    (RunStart(g), RunEnd(g))
  }

  // ---------------------------------------------------------------------------
  // Rendering one run
  // ---------------------------------------------------------------------------

  /** `"".join(match.group(3) for match in grouped_match)`. */
  function JoinBodies(g: seq<LineMatch>): string {
    if g == [] then "" else g[0].body + JoinBodies(g[1..])
  }

  /** The lines `f"{indent}{open}{line}{close}"` of a replacement. */
  function Decorate(indent: string, d: DelimiterPair, segs: seq<string>): seq<string> {
    seq(|segs|, k requires 0 <= k < |segs| => indent + d.open + segs[k] + d.close)
  }

  /** `"\n".join(lines)`. */
  function JoinLines(lines: seq<string>): string {
    if lines == [] then ""
    else if |lines| == 1 then lines[0]
    else lines[0] + "\n" + JoinLines(lines[1..])
  }

  /** The segments split_into_lines cuts the joined body of a run into. */
  function RunSegments(g: seq<LineMatch>, d: DelimiterPair, cols: int): Result<seq<string>>
    requires g != []
  {
    Split(JoinBodies(g), cols, g[0].indent, d)
  }

  /** The replacement text of a run, or the error split_into_lines raises. */
  function RenderRun(g: seq<LineMatch>, d: DelimiterPair, cols: int): Result<string>
    requires g != []
  {
    match RunSegments(g, d, cols)
    case Err(e) => Err(e)
    case Ok(segs) => Ok(JoinLines(Decorate(g[0].indent, d, segs)))
  }

  // ---------------------------------------------------------------------------
  // The replacement table
  // ---------------------------------------------------------------------------

  /** The loop over the groups of one style: a span already in the table is
      skipped, any other gets the rendering of its run. */
  function ClaimRuns(table: map<Key, string>, gs: seq<seq<LineMatch>>, d: DelimiterPair, cols: int)
    : Result<map<Key, string>>
    requires NonEmptyGroups(gs)
    decreases |gs|
  {
    if gs == [] then Ok(table)
    else
      var key := RunKey(gs[0]);
      if key in table then ClaimRuns(table, gs[1..], d, cols)
      else
        match RenderRun(gs[0], d, cols)
        case Err(e) => Err(e)
        case Ok(rep) => ClaimRuns(table[key := rep], gs[1..], d, cols)
  }

  /** The loop over the styles of the catalog, from the `s`-th on. */
  function ClaimStylesFrom(table: map<Key, string>, text: string, s: nat, cols: int)
    : Result<map<Key, string>>
    requires s <= |Catalog|
    decreases |Catalog| - s
  {
    if s == |Catalog| then Ok(table)
    else
      match ClaimRuns(table, StyleRuns(text, s), Catalog[s], cols)
      case Err(e) => Err(e)
      case Ok(t) => ClaimStylesFrom(t, text, s + 1, cols)
  }

  /** The dictionary `replacements` once every style has been processed. */
  function Replacements(text: string, cols: int): Result<map<Key, string>> {
    ClaimStylesFrom(map[], text, 0, cols)
  }

  // ---------------------------------------------------------------------------
  // Stitching
  // ---------------------------------------------------------------------------

  /** Python's ordering of pairs. */
  predicate KeyLess(a: Key, b: Key) {
    a.0 < b.0 || (a.0 == b.0 && a.1 < b.1)
  }

  predicate StrictlySorted(ks: seq<Key>) {
    forall j, k :: 0 <= j < k < |ks| ==> KeyLess(ks[j], ks[k])
  }

  predicate IsLeast(m: Key, keys: set<Key>) {
    m in keys && forall k :: k in keys && k != m ==> KeyLess(m, k)
  }

  lemma {:induction false} LeastExists(keys: set<Key>)
    requires keys != {}
    ensures exists m :: IsLeast(m, keys)
    decreases |keys|
  {
    var x :| x in keys;
    if keys == {x} {
      assert IsLeast(x, keys);
    } else {
      LeastExists(keys - {x});
      var m :| IsLeast(m, keys - {x});
      if KeyLess(x, m) {
        forall k | k in keys && k != x
          ensures KeyLess(x, k)
        {
          if k != m {
            assert KeyLess(m, k);
          }
        }
        assert IsLeast(x, keys);
      } else {
        assert IsLeast(m, keys);
      }
    }
  }

  /** `sorted(replacements.keys())`. */
  function SortedKeys(keys: set<Key>): (ks: seq<Key>)
    ensures StrictlySorted(ks)
    ensures forall k :: k in ks <==> k in keys
    ensures |ks| == |keys|
    decreases |keys|
  {
    if keys == {} then []
    else
      LeastExists(keys);
      var m :| IsLeast(m, keys);
      [m] + SortedKeys(keys - {m})
  }

  /** Python's `s[lo:hi]` for non-negative bounds: clamped to the string, and
      empty when `hi <= lo`. */
  function Slice(s: string, lo: nat, hi: nat): (r: string)
    ensures lo <= hi <= |s| ==> r == s[lo..hi]
    ensures hi <= lo ==> r == ""
  {
    var h := if hi <= |s| then hi else |s|;
    if lo < h then s[lo..h] else ""
  }

  /** The stitching loop over the keys `ks`, with `cur_index` at `cur`. */
  function StitchFrom(text: string, table: map<Key, string>, ks: seq<Key>, cur: nat): string
    requires forall k :: k in ks ==> k in table
    decreases |ks|
  {
    if ks == [] then Slice(text, cur, |text|)
    else Slice(text, cur, ks[0].0) + table[ks[0]] + StitchFrom(text, table, ks[1..], ks[0].1)
  }

  /** One turn of the stitching loop: the next span's gap and replacement. */
  lemma StitchStep(text: string, table: map<Key, string>, ks: seq<Key>, i: nat, cur: nat)
    requires i < |ks| && forall k :: k in ks ==> k in table
    ensures ks[i] in table
    ensures StitchFrom(text, table, ks[i..], cur) ==
      Slice(text, cur, ks[i].0) + table[ks[i]] + StitchFrom(text, table, ks[i + 1..], ks[i].1)
  {
    assert ks[i..][0] == ks[i] && ks[i..][1..] == ks[i + 1..];
  }

  lemma Regroup(a: string, b: string, c: string, d: string)
    ensures a + (b + c + d) == (a + b + c) + d
  {
  }

  function Stitch(text: string, table: map<Key, string>): string {
    StitchFrom(text, table, SortedKeys(table.Keys), 0)
  }

  /** reflow_text as a specification function. */
  function Reflow(text: string, cols: int): Result<string> {
    match Replacements(text, cols)
    case Err(e) => Err(e)
    case Ok(table) => Ok(Stitch(text, table))
  }

  // ---------------------------------------------------------------------------
  // reflow_text
  // ---------------------------------------------------------------------------

  /** The grouping loop of reflow_text over the matches of one style. */
  method GroupMatches(matches: seq<LineMatch>) returns (groups: seq<seq<LineMatch>>)
    ensures groups == Grouped(matches)
  {
    groups := [];
    var j := 0;
    while j < |matches|
      invariant j <= |matches| && groups == Grouped(matches[..j])
    {
      var m := matches[j];
      assert matches[..j + 1][..j] == matches[..j];
      if groups != [] && MatchesGroup(groups[|groups| - 1], m) {
        groups := groups[..|groups| - 1] + [groups[|groups| - 1] + [m]];
      } else {
        groups := groups + [[m]];
      }
      j := j + 1;
    }
    assert matches[..j] == matches;
  }

  /** The claiming loop of reflow_text over the groups of one style; an error
      of split_into_lines ends reflow_text. */
  method ClaimGroups(table: map<Key, string>, groups: seq<seq<LineMatch>>, d: DelimiterPair, cols: int)
    returns (r: Result<map<Key, string>>)
    requires NonEmptyGroups(groups)
    ensures r == ClaimRuns(table, groups, d, cols)
  {
    var replacements := table;
    var t := 0;
    while t < |groups|
      invariant t <= |groups|
      invariant ClaimRuns(table, groups, d, cols) == ClaimRuns(replacements, groups[t..], d, cols)
    {
      var g := groups[t];
      assert groups[t..][0] == g && groups[t..][1..] == groups[t + 1..];
      var key := (g[0].start, g[|g| - 1].end);
      if key !in replacements {
        var complete := JoinBodies(g);
        var lines := SplitIntoLines(complete, cols, g[0].indent, d);
        if lines.Err? {
          return Err(lines.error);
        }
        replacements := replacements[key := JoinLines(Decorate(g[0].indent, d, lines.value))];
      }
      t := t + 1;
    }
    assert groups[t..] == [];
    r := Ok(replacements);
  }

  /** The stitching loop of reflow_text. */
  method StitchText(text: string, replacements: map<Key, string>) returns (output: string)
    ensures output == Stitch(text, replacements)
  {
    var keys := SortedKeys(replacements.Keys);
    output := "";
    var cur := 0;
    var i := 0;
    while i < |keys|
      invariant i <= |keys|
      invariant StitchFrom(text, replacements, keys, 0) == output + StitchFrom(text, replacements, keys[i..], cur)
    {
      StitchStep(text, replacements, keys, i, cur);
      var gap, piece := Slice(text, cur, keys[i].0), replacements[keys[i]];
      var rest := StitchFrom(text, replacements, keys[i + 1..], keys[i].1);
      Regroup(output, gap, piece, rest);
      output := output + gap + piece;
      cur := keys[i].1;
      i := i + 1;
    }
    output := output + Slice(text, cur, |text|);
  }

  method ReflowText(text: string, cols: int) returns (r: Result<string>)
    ensures r == Reflow(text, cols)
  {
    var replacements: map<Key, string> := map[];
    var s := 0;
    while s < |Catalog|
      invariant s <= |Catalog|
      invariant Replacements(text, cols) == ClaimStylesFrom(replacements, text, s, cols)
    {
      var d := Catalog[s];
      var matches := FindMatches(text, d);
      var groups := GroupMatches(matches);
      assert groups == StyleRuns(text, s);
      var claimed := ClaimGroups(replacements, groups, d, cols);
      if claimed.Err? {
        return Err(claimed.error);
      }
      replacements := claimed.value;
      s := s + 1;
    }
    var output := StitchText(text, replacements);
    r := Ok(output);
  }
}
