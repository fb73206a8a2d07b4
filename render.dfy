/** What the replacement of one run looks like: lines of the run's style, with
    its indentation, holding consecutive pieces of the run's joined text. */
module Rendering {
  import opened Results
  import opened Delimiters
  import opened LineSplitter
  import opened LineMatcher
  import opened Runs
  import opened TextReflow

  /** Python's `s.split("\n")`. */
  function SplitAtNewlines(s: string): (r: seq<string>)
    ensures r != []
  {
    if s == [] then [""]
    else
      var rest := SplitAtNewlines(s[1..]);
      if s[0] == '\n' then [""] + rest else [[s[0]] + rest[0]] + rest[1..]
  }

  lemma {:induction false} SplitNoNewline(a: string)
    requires '\n' !in a
    ensures SplitAtNewlines(a) == [a]
  {
    if a != [] {
      SplitNoNewline(a[1..]);
      assert [a[0]] + a[1..] == a;
    }
  }

  lemma {:induction false} SplitAfterLine(a: string, b: string)
    requires '\n' !in a
    ensures SplitAtNewlines(a + "\n" + b) == [a] + SplitAtNewlines(b)
  {
    if a == [] {
      assert a + "\n" + b == "\n" + b;
      assert ("\n" + b)[1..] == b;
    } else {
      SplitAfterLine(a[1..], b);
      assert (a + "\n" + b)[1..] == a[1..] + "\n" + b;
      assert [a[0]] + a[1..] == a;
    }
  }

  /** Lines without a newline come back from splitting their join. */
  lemma {:induction false} JoinLinesRoundTrip(lines: seq<string>)
    requires lines != [] && forall k :: 0 <= k < |lines| ==> '\n' !in lines[k]
    ensures SplitAtNewlines(JoinLines(lines)) == lines
    decreases |lines|
  {
    if |lines| == 1 {
      SplitNoNewline(lines[0]);
    } else {
      assert forall k :: 0 <= k < |lines[1..]| ==> lines[1..][k] == lines[k + 1];
      JoinLinesRoundTrip(lines[1..]);
      SplitAfterLine(lines[0], JoinLines(lines[1..]));
      assert [lines[0]] + lines[1..] == lines;
    }
  }

  /** The groups a match of `d` captures. */
  lemma MatchFacts(text: string, d: DelimiterPair, m: LineMatch)
    requires IsMatchOf(text, d, m)
    ensures AllSpaces(m.indent) && m.body != [] && '\n' !in m.body
    ensures text[m.start..m.end] == m.indent + d.open + m.body + d.close
  {
  }

  lemma {:induction false} BodiesNoNewline(text: string, d: DelimiterPair, g: seq<LineMatch>)
    requires AllMatchesOf(text, d, g)
    ensures '\n' !in JoinBodies(g)
    ensures g != [] ==> JoinBodies(g) != []
  {
    if g != [] {
      MatchFacts(text, d, g[0]);
      assert AllMatchesOf(text, d, g[1..]) by {
        forall k | 0 <= k < |g[1..]| ensures IsMatchOf(text, d, g[1..][k]) {
          assert g[1..][k] == g[k + 1];
        }
      }
      BodiesNoNewline(text, d, g[1..]);
    }
  }

  lemma {:induction false} ConcatNoNewline(segs: seq<string>)
    requires '\n' !in Concat(segs)
    ensures forall k :: 0 <= k < |segs| ==> '\n' !in segs[k]
  {
    if segs != [] {
      ConcatNoNewline(segs[1..]);
      forall k | 1 <= k < |segs| ensures '\n' !in segs[k] {
        assert segs[k] == segs[1..][k - 1];
      }
    }
  }

  /** A line built from a segment re-matches the style and strips back to the
      segment. */
  lemma DecoratedLine(indent: string, d: DelimiterPair, seg: string, line: string)
    requires WellFormed(d) && AllSpaces(indent) && seg != [] && '\n' !in seg
    requires line == indent + d.open + seg + d.close
    ensures MatchLine(line, d) == Some(LineShape(indent, seg))
    ensures StripDelimiters(line[|indent|..], d) == Ok(seg)
    ensures '\n' !in line
  {
    MatchLineComplete(line, d, indent, seg);
    assert line[|indent|..] == d.open + seg + d.close;
    StripRoundTrip(seg, d);
  }

  /** Every line of a rendered run matches the style again, with the run's
      indentation and one segment of the joined bodies as its body, and strips
      back to that segment; the segments join back to the bodies, the
      replacement splits at its newlines into exactly these lines, and a line
      stays within the width exactly when its segment fits the effective
      length. */
  lemma RenderedRunShape(text: string, d: DelimiterPair, g: seq<LineMatch>, cols: int)
    requires WellFormed(d) && IsRunOf(text, d, g) && RunSegments(g, d, cols).Ok?
    ensures var segs := RunSegments(g, d, cols).value;
      var lines := Decorate(g[0].indent, d, segs);
      && RenderRun(g, d, cols) == Ok(JoinLines(lines))
      && Concat(segs) == JoinBodies(g)
      && lines != []
      && SplitAtNewlines(JoinLines(lines)) == lines
      && forall k :: 0 <= k < |lines| ==>
        && MatchLine(lines[k], d) == Some(LineShape(g[0].indent, segs[k]))
        && StripDelimiters(lines[k][|g[0].indent|..], d) == Ok(segs[k])
        && (|lines[k]| <= cols <==> |segs[k]| <= EffectiveLength(cols, g[0].indent, d))
  {
    var body := JoinBodies(g);
    var indent := g[0].indent;
    var segs := RunSegments(g, d, cols).value;
    var lines := Decorate(indent, d, segs);
    SplitLayout(body, cols, indent, d);
    BodiesNoNewline(text, d, g);
    ConcatNoNewline(segs);
    MatchFacts(text, d, g[0]);
    forall k | 0 <= k < |lines|
      ensures MatchLine(lines[k], d) == Some(LineShape(indent, segs[k]))
      ensures StripDelimiters(lines[k][|indent|..], d) == Ok(segs[k])
      ensures '\n' !in lines[k]
    {
      DecoratedLine(indent, d, segs[k], lines[k]);
    }
    JoinLinesRoundTrip(lines);
  }

  /** A run of one line whose body fits is rendered as that very line. */
  lemma RenderFittingLine(text: string, d: DelimiterPair, m: LineMatch, cols: int)
    requires IsMatchOf(text, d, m) && |m.body| <= EffectiveLength(cols, m.indent, d)
    ensures RenderRun([m], d, cols) == Ok(text[m.start..m.end])
  {
    MatchFacts(text, d, m);
    assert [m][1..] == [];
    assert JoinBodies([m]) == m.body;
    var breaks := BreakIndices(m.body, d);
    PackFits(m.body, EffectiveLength(cols, m.indent, d), breaks, 0);
    assert m.body[0..] == m.body;
  }
}
