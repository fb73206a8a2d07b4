/** split_into_lines: the greedy packer that re-partitions a run's joined body
    into segments, each rendered later as `indent + open + segment + close`. */
module LineSplitter {
  import opened Results
  import opened Delimiters
  import opened BreakPoints

  /** `"".join(lines)`. */
  function Concat(lines: seq<string>): string {
    if lines == [] then "" else lines[0] + Concat(lines[1..])
  }

  lemma {:induction false} ConcatAppend(lines: seq<string>, line: string)
    ensures Concat(lines + [line]) == Concat(lines) + line
  {
    if lines == [] {
      assert [] + [line] == [line];
    } else {
      assert (lines + [line])[1..] == lines[1..] + [line];
      ConcatAppend(lines[1..], line);
    }
  }

  lemma ConcatSlice(text: string, lines: seq<string>, cur: nat, b: nat)
    requires cur <= b <= |text| && Concat(lines) == text[..cur]
    ensures Concat(lines + [text[cur..b]]) == text[..b]
  {
    ConcatAppend(lines, text[cur..b]);
    assert text[..cur] + text[cur..b] == text[..b];
  }

  /** The width left for body text once indentation and markers are paid for. */
  function EffectiveLength(lineLength: int, indent: string, d: DelimiterPair): int {
    lineLength - |indent| - |d.open| - |d.close|
  }

  /** The break indices split_into_lines computes for a style. */
  function BreakIndices(text: string, d: DelimiterPair): (r: seq<nat>)
    ensures StrictlyIncreasing(r)
    ensures forall b :: b in r ==> b <= |text|
    ensures IsInterpolated(d) ==> forall b :: b in r ==> b < |text| && !IsWhitespace(text[b])
    ensures !IsInterpolated(d) ==> forall b :: b in r <==> IsRunEnd(text, b)
  {
    if IsInterpolated(d) then FStringBreaks(text) else PlainBreaks(text)
  }

  predicate InRange(breaks: seq<nat>, n: nat) {
    forall b :: b in breaks ==> b <= n
  }

  /** `max(b for b in breaks if lo < b <= hi)`, or None where `max` raises. */
  function LargestBreakIn(breaks: seq<nat>, lo: nat, hi: int): (r: Option<nat>)
    ensures r.Some? ==> r.value in breaks && lo < r.value <= hi
    ensures r.Some? ==> forall b :: b in breaks && lo < b <= hi ==> b <= r.value
    ensures r.None? ==> forall b :: b in breaks ==> !(lo < b <= hi)
  {
    if breaks == [] then None
    else
      var rest := LargestBreakIn(breaks[1..], lo, hi);
      assert forall b :: b in breaks ==> b == breaks[0] || b in breaks[1..];
      if lo < breaks[0] <= hi && (rest.None? || rest.value < breaks[0]) then Some(breaks[0])
      else rest
  }

  /** `min(b for b in breaks if lo < b)`, or None where `min` raises. */
  function SmallestBreakAfter(breaks: seq<nat>, lo: nat): (r: Option<nat>)
    ensures r.Some? ==> r.value in breaks && lo < r.value
    ensures r.Some? ==> forall b :: b in breaks && lo < b ==> r.value <= b
    ensures r.None? ==> forall b :: b in breaks ==> b <= lo
  {
    if breaks == [] then None
    else
      var rest := SmallestBreakAfter(breaks[1..], lo);
      assert forall b :: b in breaks ==> b == breaks[0] || b in breaks[1..];
      if lo < breaks[0] && (rest.None? || breaks[0] < rest.value) then Some(breaks[0])
      else rest
  }

  /** The break split_into_lines chooses at cursor `cur`: the largest one on the
      line, else the next one after the cursor. */
  function ChooseBreak(breaks: seq<nat>, cur: nat, eff: int): (r: Option<nat>)
    ensures r.Some? ==> r.value in breaks && cur < r.value
    ensures r.Some? && r.value <= cur + eff ==>
              forall b :: b in breaks && cur < b <= cur + eff ==> b <= r.value
    ensures r.Some? && r.value > cur + eff ==>
              forall b :: b in breaks && cur < b ==> r.value <= b
    ensures r.None? <==> forall b :: b in breaks ==> b <= cur
  {
    match LargestBreakIn(breaks, cur, cur + eff)
    case Some(b) => Some(b)
    case None => SmallestBreakAfter(breaks, cur)
  }

  /** Puts `lines` in front of a successful packing; an error passes through. */
  function Prepend(lines: seq<string>, r: Result<seq<string>>): Result<seq<string>> {
    match r
    case Ok(rest) => Ok(lines + rest)
    case Err(e) => Err(e)
  }

  lemma PrependNothing(r: Result<seq<string>>)
    ensures Prepend([], r) == r
  {
    if r.Ok? {
      assert [] + r.value == r.value;
    }
  }

  /** What the loop of split_into_lines produces from cursor `cur` on. */
  function PackFrom(text: string, eff: int, breaks: seq<nat>, cur: nat): Result<seq<string>>
    requires cur <= |text| && InRange(breaks, |text|)
    decreases |text| - cur
  {
    if cur == |text| then Ok([])
    else if |text| - cur <= eff then Ok([text[cur..]])
    else
      match ChooseBreak(breaks, cur, eff)
      case None => Err(NoBreakAfter(cur))
      case Some(b) => Prepend([text[cur..b]], PackFrom(text, eff, breaks, b))
  }

  /** split_into_lines as a specification function. */
  function Split(text: string, lineLength: int, indent: string, d: DelimiterPair): Result<seq<string>> {
    PackFrom(text, EffectiveLength(lineLength, indent, d), BreakIndices(text, d), 0)
  }

  /** One step of the loop: the remainder fits and is the last segment. */
  lemma PackFits(text: string, eff: int, breaks: seq<nat>, cur: nat)
    requires cur < |text| && InRange(breaks, |text|) && |text| - cur <= eff
    ensures PackFrom(text, eff, breaks, cur) == Ok([text[cur..]])
  {
  }

  /** One step of the loop: a break is chosen and the packing continues from it. */
  lemma PackStep(text: string, eff: int, breaks: seq<nat>, cur: nat, b: nat)
    requires cur < |text| && InRange(breaks, |text|) && |text| - cur > eff
    requires ChooseBreak(breaks, cur, eff) == Some(b)
    ensures b <= |text|
    ensures PackFrom(text, eff, breaks, cur) == Prepend([text[cur..b]], PackFrom(text, eff, breaks, b))
  {
  }

  /** One step of the loop: no break lies after the cursor, and `min` raises. */
  lemma PackNoBreak(text: string, eff: int, breaks: seq<nat>, cur: nat)
    requires cur < |text| && InRange(breaks, |text|) && |text| - cur > eff
    requires ChooseBreak(breaks, cur, eff).None?
    ensures PackFrom(text, eff, breaks, cur) == Err(NoBreakAfter(cur))
  {
  }

  lemma PrependAssoc(lines: seq<string>, line: string, r: Result<seq<string>>)
    ensures Prepend(lines, Prepend([line], r)) == Prepend(lines + [line], r)
  {
    if r.Ok? {
      assert lines + ([line] + r.value) == (lines + [line]) + r.value;
    }
  }

  /** split_into_lines. The loop condition `"".join(lines) != text` is kept; the
      invariant shows it amounts to `cur != |text|`. */
  method SplitIntoLines(text: string, lineLength: int, indent: string, d: DelimiterPair)
    returns (r: Result<seq<string>>)
    ensures r == Split(text, lineLength, indent, d)
    ensures r.Ok? ==> Concat(r.value) == text
    ensures r.Ok? ==> forall k :: 0 <= k < |r.value| ==> r.value[k] != ""
  {
    var eff := lineLength - |indent| - |d.open| - |d.close|;
    var breaks := BreakIndices(text, d);
    assert Split(text, lineLength, indent, d) == PackFrom(text, eff, breaks, 0);
    var lines: seq<string> := [];
    var cur: nat := 0;
    PrependNothing(PackFrom(text, eff, breaks, 0));
    while Concat(lines) != text
      invariant cur <= |text| && Concat(lines) == text[..cur]
      invariant PackFrom(text, eff, breaks, 0) == Prepend(lines, PackFrom(text, eff, breaks, cur))
      decreases |text| - cur
    {
      if |text[cur..]| <= eff {
        PackFits(text, eff, breaks, cur);
        PrependAssoc(lines, text[cur..], Ok([]));
        assert [text[cur..]] + [] == [text[cur..]];
        ConcatSlice(text, lines, cur, |text|);
        lines := lines + [text[cur..]];
        break;
      }
      var choice := LargestBreakIn(breaks, cur, cur + eff);
      if choice.None? {
        choice := SmallestBreakAfter(breaks, cur);
        if choice.None? {
          PackNoBreak(text, eff, breaks, cur);
          return Err(NoBreakAfter(cur));
        }
      }
      var b := choice.value;
      assert ChooseBreak(breaks, cur, eff) == Some(b);
      PackStep(text, eff, breaks, cur, b);
      PrependAssoc(lines, text[cur..b], PackFrom(text, eff, breaks, b));
      ConcatSlice(text, lines, cur, b);
      lines := lines + [text[cur..b]];
      cur := b;
    }
    if cur == |text| {
      assert lines + [] == lines;
    }
    r := Ok(lines);
    PackReconstructs(text, eff, breaks, 0);
  }

  /** A successful packing consists of non-empty segments that join back to the
      text after the cursor. */
  lemma {:induction false} PackReconstructs(text: string, eff: int, breaks: seq<nat>, cur: nat)
    requires cur <= |text| && InRange(breaks, |text|)
    requires PackFrom(text, eff, breaks, cur).Ok?
    ensures Concat(PackFrom(text, eff, breaks, cur).value) == text[cur..]
    ensures forall k :: 0 <= k < |PackFrom(text, eff, breaks, cur).value| ==>
              PackFrom(text, eff, breaks, cur).value[k] != ""
    decreases |text| - cur
  {
    if cur < |text| && |text| - cur > eff {
      var b := ChooseBreak(breaks, cur, eff).value;
      PackReconstructs(text, eff, breaks, b);
      var rest := PackFrom(text, eff, breaks, b).value;
      var segs := [text[cur..b]] + rest;
      assert segs[1..] == rest;
      assert text[cur..b] + text[b..] == text[cur..];
    }
  }

  // ---------------------------------------------------------------------------
  // Layout of a successful packing
  // ---------------------------------------------------------------------------

  /** The offset in the text at which each segment starts, given the first one. */
  function SegmentStarts(cur: nat, segs: seq<string>): (st: seq<nat>)
    ensures |st| == |segs|
    decreases |segs|
  {
    if segs == [] then [] else [cur] + SegmentStarts(cur + |segs[0]|, segs[1..])
  }

  lemma StartsCons(cur: nat, seg: string, rest: seq<string>)
    ensures SegmentStarts(cur, [seg] + rest) == [cur] + SegmentStarts(cur + |seg|, rest)
  {
    assert ([seg] + rest)[1..] == rest;
  }

  /** Each segment is the slice of the text at its start offset. */
  predicate SegmentsAreSlices(text: string, cur: nat, segs: seq<string>) {
    var st := SegmentStarts(cur, segs);
    forall k :: 0 <= k < |segs| ==>
      st[k] + |segs[k]| <= |text| && segs[k] == text[st[k]..st[k] + |segs[k]|]
  }

  /** Every boundary between two segments is a break point. */
  predicate BoundariesAreBreaks(breaks: seq<nat>, cur: nat, segs: seq<string>) {
    var st := SegmentStarts(cur, segs);
    forall k :: 0 < k < |segs| ==> st[k] in breaks
  }

  /** A segment fits the effective width, or else ends at a break point and holds
      no break point inside it (an unbreakable word that is too long). */
  predicate FitsOrUnbreakableAt(breaks: seq<nat>, eff: int, start: nat, seg: string) {
    || |seg| <= eff
    || (start + |seg| in breaks && NoBreakBetween(breaks, start, start + |seg|))
  }

  predicate FitsOrUnbreakable(breaks: seq<nat>, eff: int, cur: nat, segs: seq<string>) {
    var st := SegmentStarts(cur, segs);
    forall k :: 0 <= k < |segs| ==> FitsOrUnbreakableAt(breaks, eff, st[k], segs[k])
  }

  predicate NoBreakBetween(breaks: seq<nat>, lo: nat, hi: nat) {
    forall b :: b in breaks ==> !(lo < b < hi)
  }

  /** No segment could have been extended to a later break point on its line. */
  predicate FilledGreedily(breaks: seq<nat>, eff: int, cur: nat, segs: seq<string>) {
    var st := SegmentStarts(cur, segs);
    forall k, b :: 0 <= k < |segs| && b in breaks ==> !(st[k] + |segs[k]| < b <= st[k] + eff)
  }

  /** Only the last segment may end before the text does when the rest of the
      text fits: every earlier cut was made at a cursor whose remainder was too
      wide. */
  predicate CutOnlyWhenTooWide(text: string, eff: int, cur: nat, segs: seq<string>) {
    var st := SegmentStarts(cur, segs);
    forall k :: 0 <= k < |segs| - 1 ==> |text| - st[k] > eff
  }

  lemma SlicesCons(text: string, cur: nat, b: nat, rest: seq<string>)
    requires cur <= b <= |text| && SegmentsAreSlices(text, b, rest)
    ensures SegmentsAreSlices(text, cur, [text[cur..b]] + rest)
  {
    var seg := text[cur..b];
    var segs := [seg] + rest;
    StartsCons(cur, seg, rest);
    var st, later := SegmentStarts(cur, segs), SegmentStarts(b, rest);
    assert st == [cur] + later;
    forall k | 0 <= k < |segs|
      ensures st[k] + |segs[k]| <= |text| && segs[k] == text[st[k]..st[k] + |segs[k]|]
    {
      if k > 0 {
        assert segs[k] == rest[k - 1] && st[k] == later[k - 1];
      }
    }
  }

  lemma {:induction false} PackSlices(text: string, eff: int, breaks: seq<nat>, cur: nat)
    requires cur <= |text| && InRange(breaks, |text|)
    requires PackFrom(text, eff, breaks, cur).Ok?
    ensures SegmentsAreSlices(text, cur, PackFrom(text, eff, breaks, cur).value)
    decreases |text| - cur
  {
    var segs := PackFrom(text, eff, breaks, cur).value;
    if cur < |text| && |text| - cur > eff {
      var b := ChooseBreak(breaks, cur, eff).value;
      PackSlices(text, eff, breaks, b);
      PackStep(text, eff, breaks, cur, b);
      SlicesCons(text, cur, b, PackFrom(text, eff, breaks, b).value);
    } else if cur < |text| {
      PackFits(text, eff, breaks, cur);
      assert segs == [text[cur..]];
    }
  }

  lemma {:induction false} PackBoundaries(text: string, eff: int, breaks: seq<nat>, cur: nat)
    requires cur <= |text| && InRange(breaks, |text|)
    requires PackFrom(text, eff, breaks, cur).Ok?
    ensures BoundariesAreBreaks(breaks, cur, PackFrom(text, eff, breaks, cur).value)
    decreases |text| - cur
  {
    var segs := PackFrom(text, eff, breaks, cur).value;
    if cur < |text| && |text| - cur > eff {
      var b := ChooseBreak(breaks, cur, eff).value;
      PackBoundaries(text, eff, breaks, b);
      PackStep(text, eff, breaks, cur, b);
      var rest := PackFrom(text, eff, breaks, b).value;
      assert segs == [text[cur..b]] + rest;
      StartsCons(cur, text[cur..b], rest);
      var st := SegmentStarts(cur, segs);
      forall k | 0 < k < |segs| ensures st[k] in breaks {
        assert st[k] == SegmentStarts(b, rest)[k - 1];
        if k == 1 {
          assert SegmentStarts(b, rest)[0] == b;
        }
      }
    } else if cur < |text| {
      PackFits(text, eff, breaks, cur);
      assert segs == [text[cur..]];
    }
  }

  /** A chosen break either lies on the line or is the next break after the cursor. */
  lemma ChosenBreakWidth(breaks: seq<nat>, cur: nat, eff: int, b: nat)
    requires ChooseBreak(breaks, cur, eff) == Some(b)
    ensures b - cur <= eff || (b in breaks && NoBreakBetween(breaks, cur, b))
  {
  }

  lemma FitsCons(breaks: seq<nat>, eff: int, cur: nat, seg: string, rest: seq<string>)
    requires FitsOrUnbreakableAt(breaks, eff, cur, seg)
    requires FitsOrUnbreakable(breaks, eff, cur + |seg|, rest)
    ensures FitsOrUnbreakable(breaks, eff, cur, [seg] + rest)
  {
    var segs := [seg] + rest;
    StartsCons(cur, seg, rest);
    var st, later := SegmentStarts(cur, segs), SegmentStarts(cur + |seg|, rest);
    assert st == [cur] + later;
    forall k | 0 <= k < |segs| ensures FitsOrUnbreakableAt(breaks, eff, st[k], segs[k]) {
      if k > 0 {
        assert segs[k] == rest[k - 1] && st[k] == later[k - 1];
      }
    }
  }

  /** The segment up to the chosen break fits or is an unbreakable word. */
  lemma FirstSegmentFits(text: string, eff: int, breaks: seq<nat>, cur: nat, b: nat)
    requires ChooseBreak(breaks, cur, eff) == Some(b) && b <= |text|
    ensures FitsOrUnbreakableAt(breaks, eff, cur, text[cur..b])
  {
    ChosenBreakWidth(breaks, cur, eff, b);
    assert |text[cur..b]| == b - cur;
  }

  lemma {:induction false} PackWidth(text: string, eff: int, breaks: seq<nat>, cur: nat)
    requires cur <= |text| && InRange(breaks, |text|)
    requires PackFrom(text, eff, breaks, cur).Ok?
    ensures FitsOrUnbreakable(breaks, eff, cur, PackFrom(text, eff, breaks, cur).value)
    decreases |text| - cur
  {
    var segs := PackFrom(text, eff, breaks, cur).value;
    if cur < |text| && |text| - cur > eff {
      var b := ChooseBreak(breaks, cur, eff).value;
      PackWidth(text, eff, breaks, b);
      PackStep(text, eff, breaks, cur, b);
      var rest := PackFrom(text, eff, breaks, b).value;
      assert segs == [text[cur..b]] + rest;
      FirstSegmentFits(text, eff, breaks, cur, b);
      FitsCons(breaks, eff, cur, text[cur..b], rest);
    } else if cur < |text| {
      PackFits(text, eff, breaks, cur);
      assert segs == [text[cur..]];
    }
  }

  lemma {:induction false} PackGreedy(text: string, eff: int, breaks: seq<nat>, cur: nat)
    requires cur <= |text| && InRange(breaks, |text|)
    requires PackFrom(text, eff, breaks, cur).Ok?
    ensures FilledGreedily(breaks, eff, cur, PackFrom(text, eff, breaks, cur).value)
    decreases |text| - cur
  {
    var segs := PackFrom(text, eff, breaks, cur).value;
    if cur < |text| && |text| - cur > eff {
      var b := ChooseBreak(breaks, cur, eff).value;
      PackGreedy(text, eff, breaks, b);
      PackStep(text, eff, breaks, cur, b);
      var rest := PackFrom(text, eff, breaks, b).value;
      assert segs == [text[cur..b]] + rest;
      StartsCons(cur, text[cur..b], rest);
      var st := SegmentStarts(cur, segs);
      forall k, c | 0 <= k < |segs| && c in breaks
        ensures !(st[k] + |segs[k]| < c <= st[k] + eff)
      {
        if k == 0 {
          assert st[0] == cur && |segs[0]| == b - cur;
        } else {
          assert segs[k] == rest[k - 1];
          assert st[k] == SegmentStarts(b, rest)[k - 1];
        }
      }
    } else if cur < |text| {
      PackFits(text, eff, breaks, cur);
      assert segs == [text[cur..]];
    }
  }

  lemma {:induction false} PackCutsOnlyWhenTooWide(text: string, eff: int, breaks: seq<nat>, cur: nat)
    requires cur <= |text| && InRange(breaks, |text|)
    requires PackFrom(text, eff, breaks, cur).Ok?
    ensures CutOnlyWhenTooWide(text, eff, cur, PackFrom(text, eff, breaks, cur).value)
    decreases |text| - cur
  {
    var segs := PackFrom(text, eff, breaks, cur).value;
    if cur < |text| && |text| - cur > eff {
      var b := ChooseBreak(breaks, cur, eff).value;
      PackCutsOnlyWhenTooWide(text, eff, breaks, b);
      PackStep(text, eff, breaks, cur, b);
      var rest := PackFrom(text, eff, breaks, b).value;
      assert segs == [text[cur..b]] + rest;
      StartsCons(cur, text[cur..b], rest);
      var st := SegmentStarts(cur, segs);
      forall k | 0 < k < |segs| - 1 ensures |text| - st[k] > eff {
        assert st[k] == SegmentStarts(b, rest)[k - 1];
      }
    } else if cur < |text| {
      PackFits(text, eff, breaks, cur);
      assert segs == [text[cur..]];
    }
  }

  /** The layout a successful packing from `cur` has: non-empty consecutive
      slices that join back to the rest of the text, cut at break points, each
      fitting or unbreakable, filled greedily, and cut only while too wide. */
  predicate IsLayout(text: string, eff: int, breaks: seq<nat>, cur: nat, segs: seq<string>) {
    && cur <= |text|
    && Concat(segs) == text[cur..]
    && (forall k :: 0 <= k < |segs| ==> segs[k] != "")
    && SegmentsAreSlices(text, cur, segs)
    && BoundariesAreBreaks(breaks, cur, segs)
    && FitsOrUnbreakable(breaks, eff, cur, segs)
    && FilledGreedily(breaks, eff, cur, segs)
    && CutOnlyWhenTooWide(text, eff, cur, segs)
  }

  lemma StartsTail(cur: nat, segs: seq<string>)
    requires segs != []
    ensures SegmentStarts(cur, segs) == [cur] + SegmentStarts(cur + |segs[0]|, segs[1..])
  {
  }

  lemma SlicesTail(text: string, cur: nat, segs: seq<string>)
    requires SegmentsAreSlices(text, cur, segs) && segs != []
    ensures cur + |segs[0]| <= |text| && segs[0] == text[cur..cur + |segs[0]|]
    ensures SegmentsAreSlices(text, cur + |segs[0]|, segs[1..])
  {
    StartsTail(cur, segs);
    var st, later := SegmentStarts(cur, segs), SegmentStarts(cur + |segs[0]|, segs[1..]);
    assert st[0] == cur;
    forall k | 0 <= k < |segs| - 1
      ensures later[k] + |segs[1..][k]| <= |text| && segs[1..][k] == text[later[k]..later[k] + |segs[1..][k]|]
    {
      assert segs[1..][k] == segs[k + 1] && later[k] == st[k + 1];
    }
  }

  lemma BoundariesTail(breaks: seq<nat>, cur: nat, segs: seq<string>)
    requires BoundariesAreBreaks(breaks, cur, segs) && segs != []
    ensures |segs| > 1 ==> cur + |segs[0]| in breaks
    ensures BoundariesAreBreaks(breaks, cur + |segs[0]|, segs[1..])
  {
    StartsTail(cur, segs);
    var st, later := SegmentStarts(cur, segs), SegmentStarts(cur + |segs[0]|, segs[1..]);
    if |segs| > 1 {
      assert st[1] == cur + |segs[0]|;
    }
    forall k | 0 < k < |segs| - 1 ensures later[k] in breaks {
      assert later[k] == st[k + 1];
    }
  }

  lemma FitsTail(breaks: seq<nat>, eff: int, cur: nat, segs: seq<string>)
    requires FitsOrUnbreakable(breaks, eff, cur, segs) && segs != []
    ensures FitsOrUnbreakableAt(breaks, eff, cur, segs[0])
    ensures FitsOrUnbreakable(breaks, eff, cur + |segs[0]|, segs[1..])
  {
    StartsTail(cur, segs);
    var st, later := SegmentStarts(cur, segs), SegmentStarts(cur + |segs[0]|, segs[1..]);
    assert st[0] == cur;
    forall k | 0 <= k < |segs| - 1 ensures FitsOrUnbreakableAt(breaks, eff, later[k], segs[1..][k]) {
      assert segs[1..][k] == segs[k + 1] && later[k] == st[k + 1];
    }
  }

  lemma GreedyTail(breaks: seq<nat>, eff: int, cur: nat, segs: seq<string>)
    requires FilledGreedily(breaks, eff, cur, segs) && segs != []
    ensures forall b :: b in breaks ==> !(cur + |segs[0]| < b <= cur + eff)
    ensures FilledGreedily(breaks, eff, cur + |segs[0]|, segs[1..])
  {
    StartsTail(cur, segs);
    var st, later := SegmentStarts(cur, segs), SegmentStarts(cur + |segs[0]|, segs[1..]);
    assert st[0] == cur;
    forall k, b | 0 <= k < |segs| - 1 && b in breaks
      ensures !(later[k] + |segs[1..][k]| < b <= later[k] + eff)
    {
      assert segs[1..][k] == segs[k + 1] && later[k] == st[k + 1];
    }
  }

  lemma CutTail(text: string, eff: int, cur: nat, segs: seq<string>)
    requires CutOnlyWhenTooWide(text, eff, cur, segs) && segs != []
    ensures |segs| > 1 ==> |text| - cur > eff
    ensures CutOnlyWhenTooWide(text, eff, cur + |segs[0]|, segs[1..])
  {
    StartsTail(cur, segs);
    var st, later := SegmentStarts(cur, segs), SegmentStarts(cur + |segs[0]|, segs[1..]);
    assert st[0] == cur;
    forall k | 0 <= k < |segs| - 2 ensures |text| - later[k] > eff {
      assert later[k] == st[k + 1];
    }
  }

  lemma ConcatTail(text: string, cur: nat, segs: seq<string>)
    requires cur <= |text| && Concat(segs) == text[cur..] && segs != []
    requires cur + |segs[0]| <= |text| && segs[0] == text[cur..cur + |segs[0]|]
    ensures Concat(segs[1..]) == text[cur + |segs[0]|..]
  {
    var e := cur + |segs[0]|;
    assert text[cur..] == text[cur..e] + text[e..];
  }

  /** The segments after the first form a layout from where the first ends. */
  lemma LayoutTail(text: string, eff: int, breaks: seq<nat>, cur: nat, segs: seq<string>)
    requires IsLayout(text, eff, breaks, cur, segs) && segs != []
    ensures IsLayout(text, eff, breaks, cur + |segs[0]|, segs[1..])
  {
    SlicesTail(text, cur, segs);
    BoundariesTail(breaks, cur, segs);
    FitsTail(breaks, eff, cur, segs);
    GreedyTail(breaks, eff, cur, segs);
    CutTail(text, eff, cur, segs);
    ConcatTail(text, cur, segs);
    forall k | 0 <= k < |segs| - 1 ensures segs[1..][k] != "" {
      assert segs[1..][k] == segs[k + 1];
    }
  }

  /** What the layout says about its first segment, ending at `e`: it is the
      slice up to `e`, it is the only segment once the rest fits, and otherwise
      `e` is a break point the loop may choose. */
  lemma LayoutHead(text: string, eff: int, breaks: seq<nat>, cur: nat, segs: seq<string>)
    requires IsLayout(text, eff, breaks, cur, segs) && segs != []
    ensures var e := cur + |segs[0]|;
      && cur < e <= |text| && segs[0] == text[cur..e]
      && (|text| - cur <= eff ==> segs == [segs[0]] && e == |text|)
      && (|text| - cur > eff ==>
            && e in breaks
            && (e - cur <= eff || NoBreakBetween(breaks, cur, e))
            && forall b :: b in breaks ==> !(e < b <= cur + eff))
  {
    var e := cur + |segs[0]|;
    SlicesTail(text, cur, segs);
    BoundariesTail(breaks, cur, segs);
    FitsTail(breaks, eff, cur, segs);
    GreedyTail(breaks, eff, cur, segs);
    CutTail(text, eff, cur, segs);
    ConcatTail(text, cur, segs);
    assert segs[0] != "";
    if |segs| == 1 {
      assert segs == [segs[0]];
      assert Concat(segs[1..]) == "";
      assert e == |text|;
    }
  }

  /** The layout determines the result: any segmentation with the layout of a
      successful packing is the one split_into_lines produces. */
  lemma {:induction false} LayoutIsPack(text: string, eff: int, breaks: seq<nat>, cur: nat, segs: seq<string>)
    requires InRange(breaks, |text|) && IsLayout(text, eff, breaks, cur, segs)
    ensures PackFrom(text, eff, breaks, cur) == Ok(segs)
    decreases |text| - cur
  {
    if segs == [] {
      assert text[cur..] == "";
    } else {
      var e := cur + |segs[0]|;
      LayoutHead(text, eff, breaks, cur, segs);
      if |text| - cur <= eff {
        PackFits(text, eff, breaks, cur);
        assert segs == [text[cur..]] by {
          assert text[cur..e] == text[cur..];
        }
      } else {
        ChooseIsBoundary(breaks, cur, eff, e);
        PackStep(text, eff, breaks, cur, e);
        LayoutTail(text, eff, breaks, cur, segs);
        LayoutIsPack(text, eff, breaks, e, segs[1..]);
        assert [segs[0]] + segs[1..] == segs;
      }
    }
  }

  /** The break at the end of a first segment that fits or is unbreakable, and
      that could not have been extended, is the break the loop chooses. */
  lemma ChooseIsBoundary(breaks: seq<nat>, cur: nat, eff: int, e: nat)
    requires cur < e && e in breaks
    requires e - cur <= eff || NoBreakBetween(breaks, cur, e)
    requires forall b :: b in breaks ==> !(e < b <= cur + eff)
    ensures ChooseBreak(breaks, cur, eff) == Some(e)
  {
    if e - cur <= eff {
      assert LargestBreakIn(breaks, cur, cur + eff) == Some(e);
    } else {
      assert LargestBreakIn(breaks, cur, cur + eff).None?;
      assert SmallestBreakAfter(breaks, cur) == Some(e);
    }
  }

  /** When the packing fails, it failed at a cursor whose remainder is too wide
      and after which no break point lies. */
  lemma {:induction false} PackFails(text: string, eff: int, breaks: seq<nat>, cur: nat)
    requires cur <= |text| && InRange(breaks, |text|)
    requires PackFrom(text, eff, breaks, cur).Err?
    ensures PackFrom(text, eff, breaks, cur).error.NoBreakAfter?
    ensures var c := PackFrom(text, eff, breaks, cur).error.offset;
      && cur <= c < |text| && |text| - c > eff
      && (c == cur || c in breaks)
      && forall b :: b in breaks ==> b <= c
    decreases |text| - cur
  {
    if ChooseBreak(breaks, cur, eff).Some? {
      var b := ChooseBreak(breaks, cur, eff).value;
      PackFails(text, eff, breaks, b);
    }
  }

  /** When the end of the text is itself a break point, the packing succeeds. */
  lemma {:induction false} PackSucceeds(text: string, eff: int, breaks: seq<nat>, cur: nat)
    requires cur <= |text| && InRange(breaks, |text|)
    requires |text| in breaks
    ensures PackFrom(text, eff, breaks, cur).Ok?
    decreases |text| - cur
  {
    if cur < |text| && |text| - cur > eff {
      var b := ChooseBreak(breaks, cur, eff).value;
      PackSucceeds(text, eff, breaks, b);
    }
  }

  /** What split_into_lines promises about a successful result (by
      `SplitDetermined`, no other segmentation has all of it): the
      segments are non-empty consecutive slices of the text that join back to
      it, every interior boundary is a break point, each segment fits the
      effective width or is an unbreakable word, and no segment could have
      reached a later break point on its line. The text is cut only where its
      remainder does not fit, so once it fits it is the last segment. */
  lemma SplitLayout(text: string, lineLength: int, indent: string, d: DelimiterPair)
    requires Split(text, lineLength, indent, d).Ok?
    ensures var segs := Split(text, lineLength, indent, d).value;
      var breaks := BreakIndices(text, d);
      var eff := EffectiveLength(lineLength, indent, d);
      && Concat(segs) == text
      && (forall k :: 0 <= k < |segs| ==> segs[k] != "")
      && SegmentsAreSlices(text, 0, segs)
      && BoundariesAreBreaks(breaks, 0, segs)
      && FitsOrUnbreakable(breaks, eff, 0, segs)
      && FilledGreedily(breaks, eff, 0, segs)
      && CutOnlyWhenTooWide(text, eff, 0, segs)
  {
    var breaks := BreakIndices(text, d);
    var eff := EffectiveLength(lineLength, indent, d);
    PackReconstructs(text, eff, breaks, 0);
    PackSlices(text, eff, breaks, 0);
    PackBoundaries(text, eff, breaks, 0);
    PackWidth(text, eff, breaks, 0);
    PackGreedy(text, eff, breaks, 0);
    PackCutsOnlyWhenTooWide(text, eff, breaks, 0);
  }

  /** The layout of `SplitLayout` pins the result down: a segmentation of the
      text with that layout is what split_into_lines returns, so the lemma
      states everything split_into_lines promises about a success. */
  lemma SplitDetermined(text: string, lineLength: int, indent: string, d: DelimiterPair, segs: seq<string>)
    requires IsLayout(text, EffectiveLength(lineLength, indent, d), BreakIndices(text, d), 0, segs)
    ensures Split(text, lineLength, indent, d) == Ok(segs)
  {
    LayoutIsPack(text, EffectiveLength(lineLength, indent, d), BreakIndices(text, d), 0, segs);
  }

  /** When split_into_lines raises, it raises at a cursor whose remainder does
      not fit and after which the text has no break point. */
  lemma SplitFails(text: string, lineLength: int, indent: string, d: DelimiterPair)
    requires Split(text, lineLength, indent, d).Err?
    ensures Split(text, lineLength, indent, d).error.NoBreakAfter?
    ensures var c := Split(text, lineLength, indent, d).error.offset;
      && c < |text| && |text| - c > EffectiveLength(lineLength, indent, d)
      && (c == 0 || c in BreakIndices(text, d))
      && forall b :: b in BreakIndices(text, d) ==> b <= c
  {
    PackFails(text, EffectiveLength(lineLength, indent, d), BreakIndices(text, d), 0);
  }

  /** A plain-style text that ends in whitespace never makes split_into_lines
      raise: the end of the text is a break point, so some break always lies
      beyond the cursor. */
  lemma SplitSucceeds(text: string, lineLength: int, indent: string, d: DelimiterPair)
    requires !IsInterpolated(d) && text != [] && IsWhitespace(text[|text| - 1])
    ensures Split(text, lineLength, indent, d).Ok?
  {
    var breaks := BreakIndices(text, d);
    assert IsRunEnd(text, |text|);
    PackSucceeds(text, EffectiveLength(lineLength, indent, d), breaks, 0);
  }
}
