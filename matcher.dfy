/** The line matcher and the run grouper of reflow_text: which lines match a
    style's line pattern, and how consecutive matches are grouped into runs. */
module LineMatcher {
  import opened Results
  import opened Delimiters

  /** A match object of the line pattern: groups 1 to 4 and its span. */
  datatype LineMatch = LineMatch(
    indent: string, open: string, body: string, close: string, start: nat, end: nat)

  /** Groups 1 and 3 of a successful match of one line. */
  datatype LineShape = LineShape(indent: string, body: string)

  predicate AllSpaces(s: string) {
    forall k :: 0 <= k < |s| ==> s[k] == ' '
  }

  /** The length of the run of spaces `line` starts with. */
  function LeadingSpaces(line: string): (n: nat)
    ensures n <= |line| && AllSpaces(line[..n])
    ensures n == |line| || line[n] != ' '
  {
    if line == [] || line[0] != ' ' then 0
    else
      var n := 1 + LeadingSpaces(line[1..]);
      assert line[..n] == [line[0]] + line[1..][..n - 1];
      n
  }

  lemma {:induction false} LeadingSpacesOf(indent: string, rest: string)
    requires AllSpaces(indent) && rest != [] && rest[0] != ' '
    ensures LeadingSpaces(indent + rest) == |indent|
  {
    if indent != [] {
      assert (indent + rest)[1..] == indent[1..] + rest;
      LeadingSpacesOf(indent[1..], rest);
    }
  }

  /** The pattern `^( *)(open)(.+)(close)+$` against one line. `( *)` takes every
      leading space (no open marker starts with a space), and the greedy `(.+)`
      leaves exactly one close marker to `(close)+`, so extra trailing close
      markers stay in the body; `.` does not match a newline. */
  function MatchLine(line: string, d: DelimiterPair): (r: Option<LineShape>)
    ensures r.Some? ==> line == r.value.indent + d.open + r.value.body + d.close
    ensures r.Some? ==> AllSpaces(r.value.indent) && r.value.body != [] && '\n' !in r.value.body
    ensures r.Some? ==> r.value.indent == line[..LeadingSpaces(line)]
    ensures r.Some? ==> StartsWith(line[LeadingSpaces(line)..], d.open)
  {
    var n := LeadingSpaces(line);
    var rest := line[n..];
    if |rest| >= |d.open| + 1 + |d.close| && StartsWith(rest, d.open) && EndsWith(rest, d.close) then
      var body := rest[|d.open|..|rest| - |d.close|];
      JoinMarkers(rest, d);
      assert line == line[..n] + rest;
      if '\n' in body then None else Some(LineShape(line[..n], body))
    else
      None
  }

  /** A string that starts with the open marker and ends with the close marker,
      without the two overlapping, is the open marker, a middle and the close
      marker. */
  lemma JoinMarkers(rest: string, d: DelimiterPair)
    requires |rest| >= |d.open| + |d.close| && StartsWith(rest, d.open) && EndsWith(rest, d.close)
    ensures rest == d.open + rest[|d.open|..|rest| - |d.close|] + d.close
  {
    var body := rest[|d.open|..|rest| - |d.close|];
    assert rest == rest[..|d.open|] + body + rest[|rest| - |d.close|..];
  }

  /** The pattern matches every line of that shape, with that indentation and body. */
  lemma MatchLineComplete(line: string, d: DelimiterPair, indent: string, body: string)
    requires WellFormed(d) && AllSpaces(indent) && body != [] && '\n' !in body
    requires line == indent + d.open + body + d.close
    ensures MatchLine(line, d) == Some(LineShape(indent, body))
  {
    var rest := d.open + body + d.close;
    SplitAtIndent(line, indent, rest);
    SplitMarkers(rest, d, body);
  }

  lemma SplitAtIndent(line: string, indent: string, rest: string)
    requires AllSpaces(indent) && rest != [] && rest[0] != ' ' && line == indent + rest
    ensures LeadingSpaces(line) == |indent|
    ensures line[..|indent|] == indent && line[|indent|..] == rest
  {
    LeadingSpacesOf(indent, rest);
  }

  lemma SplitMarkers(rest: string, d: DelimiterPair, body: string)
    requires rest == d.open + body + d.close
    ensures StartsWith(rest, d.open) && EndsWith(rest, d.close)
    ensures rest[|d.open|..|rest| - |d.close|] == body
  {
    assert rest[..|d.open|] == d.open;
    assert rest[|rest| - |d.close|..] == d.close;
  }

  /** At most one style of the catalog matches a given line: the character right
      after the indentation tells the four open markers apart. */
  lemma StylesAreExclusive(line: string, i: nat, j: nat)
    requires i < |Catalog| && j < |Catalog|
    requires MatchLine(line, Catalog[i]).Some? && MatchLine(line, Catalog[j]).Some?
    ensures i == j
  {
    var rest := line[LeadingSpaces(line)..];
    var o1, o2 := Catalog[i].open, Catalog[j].open;
    assert StartsWith(rest, o1) && StartsWith(rest, o2);
    assert rest[..|o1|] == o1 && rest[..|o2|] == o2;
    assert o1[0] == rest[0] == o2[0];
    assert |o1| == 2 && |o2| == 2 ==> o1[1] == rest[1] == o2[1];
    OpenMarkersDiffer(i, j);
  }

  /** The open markers of the catalog differ in their first character or, for the
      two interpolated styles, in their second. */
  lemma OpenMarkersDiffer(i: nat, j: nat)
    requires i < |Catalog| && j < |Catalog|
    requires Catalog[i].open[0] == Catalog[j].open[0]
    requires |Catalog[i].open| == 2 && |Catalog[j].open| == 2 ==> Catalog[i].open[1] == Catalog[j].open[1]
    ensures i == j
  {
  }

  // ---------------------------------------------------------------------------
  // Scanning the text line by line (re.finditer with re.MULTILINE)
  // ---------------------------------------------------------------------------

  /** No newline in `text[i..e]`. */
  predicate NoNewlineIn(text: string, i: nat, e: nat) {
    forall k :: i <= k < e <= |text| ==> text[k] != '\n'
  }

  /** The offset of the newline that ends the line starting at `i`, or `|text|`. */
  function LineEnd(text: string, i: nat): (e: nat)
    requires i <= |text|
    ensures i <= e <= |text|
    ensures e == |text| || text[e] == '\n'
    ensures NoNewlineIn(text, i, e)
    decreases |text| - i
  {
    if i == |text| || text[i] == '\n' then i else LineEnd(text, i + 1)
  }

  /** `text[start..end]` is a whole line of `text`. */
  predicate IsLine(text: string, start: nat, end: nat) {
    && start <= end <= |text|
    && (start == 0 || text[start - 1] == '\n')
    && (end == |text| || text[end] == '\n')
    && NoNewlineIn(text, start, end)
  }

  /** The pattern of style `d` matches `line`. */
  predicate Matches(line: string, d: DelimiterPair) {
    MatchLine(line, d).Some?
  }

  /** The pattern of style `d` matches `line` with these groups 1 and 3. */
  predicate Shaped(line: string, d: DelimiterPair, indent: string, body: string) {
    MatchLine(line, d) == Some(LineShape(indent, body))
  }

  /** The match of style `d` on the line `text[i..e]`, if any, as a sequence. */
  function LineMatches(text: string, d: DelimiterPair, i: nat, e: nat): (r: seq<LineMatch>)
    requires i <= e <= |text|
    ensures |r| <= 1
    ensures r != [] <==> Matches(text[i..e], d)
    ensures r != [] ==> r[0].start == i && r[0].end == e && r[0].open == d.open && r[0].close == d.close
    ensures r != [] ==> Shaped(text[i..e], d, r[0].indent, r[0].body)
  {
    match MatchLine(text[i..e], d)
    case None => []
    case Some(sh) => [LineMatch(sh.indent, d.open, sh.body, d.close, i, e)]
  }

  /** The span `[start, end)` of one line of a text, newline excluded. */
  datatype LineSpan = LineSpan(start: nat, end: nat)

  /** The lines of `text` from line start `i` on, in order: the places where
      `^` and `$` meet under re.MULTILINE. */
  function LinesFrom(text: string, i: nat): (ls: seq<LineSpan>)
    requires i <= |text| && (i == 0 || text[i - 1] == '\n')
    ensures ls != [] && ls[0] == LineSpan(i, LineEnd(text, i))
    decreases |text| - i
  {
    var e := LineEnd(text, i);
    [LineSpan(i, e)] + (if e == |text| then [] else LinesFrom(text, e + 1))
  }

  /** Each span is a whole line at or after `i`. */
  predicate AllLinesOf(text: string, i: nat, ls: seq<LineSpan>) {
    forall k :: 0 <= k < |ls| ==> i <= ls[k].start && IsLine(text, ls[k].start, ls[k].end)
  }

  /** The spans lie in source order. */
  predicate SpansInOrder(ls: seq<LineSpan>) {
    forall j, k :: 0 <= j < k < |ls| ==> ls[j].end < ls[k].start
  }

  /** One of the spans is `[a, b)`. */
  predicate HasLine(ls: seq<LineSpan>, a: nat, b: nat) {
    exists k :: 0 <= k < |ls| && ls[k] == LineSpan(a, b)
  }

  lemma ConsLines(text: string, i: nat, e: nat, rest: seq<LineSpan>)
    requires IsLine(text, i, e) && AllLinesOf(text, e + 1, rest) && SpansInOrder(rest)
    ensures AllLinesOf(text, i, [LineSpan(i, e)] + rest) && SpansInOrder([LineSpan(i, e)] + rest)
  {
    var ls := [LineSpan(i, e)] + rest;
    forall k | 0 <= k < |ls| ensures i <= ls[k].start && IsLine(text, ls[k].start, ls[k].end) {
      if k > 0 {
        assert ls[k] == rest[k - 1];
      }
    }
    forall j, k | 0 <= j < k < |ls| ensures ls[j].end < ls[k].start {
      assert ls[k] == rest[k - 1];
      if j > 0 {
        assert ls[j] == rest[j - 1];
      }
    }
  }

  /** The spans are lines of the text, in order. */
  lemma {:induction false} LinesFromSound(text: string, i: nat)
    requires i <= |text| && (i == 0 || text[i - 1] == '\n')
    ensures AllLinesOf(text, i, LinesFrom(text, i))
    ensures SpansInOrder(LinesFrom(text, i))
    decreases |text| - i
  {
    var e := LineEnd(text, i);
    assert IsLine(text, i, e);
    if e < |text| {
      var rest := LinesFrom(text, e + 1);
      assert LinesFrom(text, i) == [LineSpan(i, e)] + rest;
      LinesFromSound(text, e + 1);
      ConsLines(text, i, e, rest);
    } else {
      assert LinesFrom(text, i) == [LineSpan(i, e)];
      assert AllLinesOf(text, i, [LineSpan(i, e)]);
    }
  }

  /** A line that starts at `i` ends where LineEnd says. */
  lemma LineEndOfLine(text: string, i: nat, b: nat)
    requires IsLine(text, i, b)
    ensures LineEnd(text, i) == b
  {
  }

  /** Every line at or after `i` is one of the spans. */
  lemma {:induction false} LinesFromComplete(text: string, i: nat, a: nat, b: nat)
    requires i <= |text| && (i == 0 || text[i - 1] == '\n')
    requires i <= a && IsLine(text, a, b)
    ensures HasLine(LinesFrom(text, i), a, b)
    decreases |text| - i
  {
    var e := LineEnd(text, i);
    var ls := LinesFrom(text, i);
    if a == i {
      LineEndOfLine(text, a, b);
      assert ls[0] == LineSpan(a, b);
    } else {
      assert text[a - 1] == '\n';
      assert e < a;
      LinesFromComplete(text, e + 1, a, b);
      var rest := LinesFrom(text, e + 1);
      assert ls == [LineSpan(i, e)] + rest;
      var k :| 0 <= k < |rest| && rest[k] == LineSpan(a, b);
      assert ls[k + 1] == rest[k];
    }
  }

  /** Every span lies within `text`. */
  predicate SpansWithin(text: string, ls: seq<LineSpan>) {
    forall k :: 0 <= k < |ls| ==> ls[k].start <= ls[k].end <= |text|
  }

  /** The matches of style `d` on the lines `ls`, in order. */
  function MatchesIn(text: string, d: DelimiterPair, ls: seq<LineSpan>): (ms: seq<LineMatch>)
    requires SpansWithin(text, ls)
  {
    if ls == [] then []
    else LineMatches(text, d, ls[0].start, ls[0].end) + MatchesIn(text, d, ls[1..])
  }

  /** `re.finditer(f"^( *)({open})(.+)({close})+$", text, re.MULTILINE)`. */
  function FindMatches(text: string, d: DelimiterPair): seq<LineMatch> {
    LinesFromSound(text, 0);
    MatchesIn(text, d, LinesFrom(text, 0))
  }

  /** `m` is a match of style `d` on a whole line of `text`. */
  predicate IsMatchOf(text: string, d: DelimiterPair, m: LineMatch) {
    && IsLine(text, m.start, m.end)
    && m.open == d.open && m.close == d.close
    && Shaped(text[m.start..m.end], d, m.indent, m.body)
  }

  /** Each of `ms` is a match of style `d` on a whole line. */
  predicate AllMatchesOf(text: string, d: DelimiterPair, ms: seq<LineMatch>) {
    forall k :: 0 <= k < |ms| ==> IsMatchOf(text, d, ms[k])
  }

  /** `ms` lie on distinct lines, in source order. */
  predicate InLineOrder(ms: seq<LineMatch>) {
    forall j, k :: 0 <= j < k < |ms| ==> ms[j].end < ms[k].start
  }

  /** Each match comes from one of the spans. */
  predicate FromSpans(ms: seq<LineMatch>, ls: seq<LineSpan>) {
    forall k :: 0 <= k < |ms| ==> HasLine(ls, ms[k].start, ms[k].end)
  }

  lemma MatchesInCons(text: string, d: DelimiterPair, ls: seq<LineSpan>)
    requires SpansWithin(text, ls) && ls != []
    ensures MatchesIn(text, d, ls)
      == LineMatches(text, d, ls[0].start, ls[0].end) + MatchesIn(text, d, ls[1..])
  {
  }

  lemma LinesWithin(text: string, ls: seq<LineSpan>)
    requires AllLinesOf(text, 0, ls)
    ensures SpansWithin(text, ls)
  {
    forall k | 0 <= k < |ls| ensures ls[k].start <= ls[k].end <= |text| {
      assert IsLine(text, ls[k].start, ls[k].end);
    }
  }

  lemma LinesTail(text: string, ls: seq<LineSpan>)
    requires AllLinesOf(text, 0, ls) && SpansInOrder(ls) && ls != []
    ensures AllLinesOf(text, 0, ls[1..]) && SpansInOrder(ls[1..])
    ensures forall k :: 0 <= k < |ls[1..]| ==> ls[0].end < ls[1..][k].start
  {
    var tail := ls[1..];
    forall k | 0 <= k < |tail| ensures IsLine(text, tail[k].start, tail[k].end) && ls[0].end < tail[k].start {
      assert tail[k] == ls[k + 1];
    }
    forall j, k | 0 <= j < k < |tail| ensures tail[j].end < tail[k].start {
      assert tail[j] == ls[j + 1] && tail[k] == ls[k + 1];
    }
  }

  /** Matches on the first line, then matches on the later lines. */
  lemma ConsSound(text: string, d: DelimiterPair, ls: seq<LineSpan>, rest: seq<LineMatch>)
    requires AllLinesOf(text, 0, ls) && SpansWithin(text, ls) && ls != []
    requires AllMatchesOf(text, d, rest) && FromSpans(rest, ls[1..])
    ensures var ms := LineMatches(text, d, ls[0].start, ls[0].end) + rest;
      AllMatchesOf(text, d, ms) && FromSpans(ms, ls)
  {
    var here := LineMatches(text, d, ls[0].start, ls[0].end);
    var tail := ls[1..];
    var ms := here + rest;
    assert IsLine(text, ls[0].start, ls[0].end);
    forall k | 0 <= k < |ms| ensures IsMatchOf(text, d, ms[k]) && HasLine(ls, ms[k].start, ms[k].end) {
      if k < |here| {
        assert ms[k] == here[0];
        assert ls[0] == LineSpan(ms[k].start, ms[k].end);
      } else {
        assert ms[k] == rest[k - |here|];
        var t :| 0 <= t < |tail| && tail[t] == LineSpan(ms[k].start, ms[k].end);
        assert ls[t + 1] == tail[t];
      }
    }
  }

  /** The match on the first line comes before the matches on the later lines. */
  lemma ConsOrder(text: string, d: DelimiterPair, ls: seq<LineSpan>, rest: seq<LineMatch>)
    requires SpansWithin(text, ls) && ls != []
    requires forall k :: 0 <= k < |ls[1..]| ==> ls[0].end < ls[1..][k].start
    requires FromSpans(rest, ls[1..]) && InLineOrder(rest)
    ensures InLineOrder(LineMatches(text, d, ls[0].start, ls[0].end) + rest)
  {
    var here := LineMatches(text, d, ls[0].start, ls[0].end);
    var tail := ls[1..];
    var ms := here + rest;
    forall j, k | 0 <= j < k < |ms| ensures ms[j].end < ms[k].start {
      assert ms[k] == rest[k - |here|];
      var t :| 0 <= t < |tail| && tail[t] == LineSpan(ms[k].start, ms[k].end);
      if j < |here| {
        assert ms[j] == here[0];
      } else {
        assert ms[j] == rest[j - |here|];
      }
    }
  }

  /** The matches over in-order lines are matches of the style, in order, each on one of the lines. */
  lemma {:induction false} MatchesInSound(text: string, d: DelimiterPair, ls: seq<LineSpan>)
    requires AllLinesOf(text, 0, ls) && SpansInOrder(ls)
    ensures SpansWithin(text, ls)
    ensures AllMatchesOf(text, d, MatchesIn(text, d, ls))
    ensures FromSpans(MatchesIn(text, d, ls), ls)
    ensures InLineOrder(MatchesIn(text, d, ls))
    decreases |ls|
  {
    LinesWithin(text, ls);
    if ls != [] {
      LinesTail(text, ls);
      MatchesInSound(text, d, ls[1..]);
      MatchesInCons(text, d, ls);
      ConsSound(text, d, ls, MatchesIn(text, d, ls[1..]));
      ConsOrder(text, d, ls, MatchesIn(text, d, ls[1..]));
    }
  }

  /** One of `ms` starts at offset `a`. */
  predicate HasMatchAt(ms: seq<LineMatch>, a: nat) {
    exists k :: 0 <= k < |ms| && ms[k].start == a
  }

  /** The match on the first line is the first of the matches. */
  lemma MatchAtHead(text: string, d: DelimiterPair, ls: seq<LineSpan>, a: nat, b: nat)
    requires SpansWithin(text, ls) && ls != [] && ls[0] == LineSpan(a, b) && Matches(text[a..b], d)
    ensures HasMatchAt(MatchesIn(text, d, ls), a)
  {
    MatchesInCons(text, d, ls);
    var here := LineMatches(text, d, a, b);
    assert here[0].start == a;
    assert MatchesIn(text, d, ls)[0] == here[0];
  }

  /** A match on a later line is among the matches. */
  lemma MatchInTail(text: string, d: DelimiterPair, ls: seq<LineSpan>, a: nat)
    requires SpansWithin(text, ls) && ls != [] && SpansWithin(text, ls[1..])
    requires HasMatchAt(MatchesIn(text, d, ls[1..]), a)
    ensures HasMatchAt(MatchesIn(text, d, ls), a)
  {
    MatchesInCons(text, d, ls);
    var here := LineMatches(text, d, ls[0].start, ls[0].end);
    var rest := MatchesIn(text, d, ls[1..]);
    var k :| 0 <= k < |rest| && rest[k].start == a;
    assert MatchesIn(text, d, ls)[|here| + k] == rest[k];
  }

  /** Every one of the lines that the pattern matches yields a match there. */
  lemma {:induction false} MatchesInComplete(text: string, d: DelimiterPair, ls: seq<LineSpan>, a: nat, b: nat)
    requires SpansWithin(text, ls) && HasLine(ls, a, b) && a <= b <= |text| && Matches(text[a..b], d)
    ensures HasMatchAt(MatchesIn(text, d, ls), a)
    decreases |ls|
  {
    var tail := ls[1..];
    if ls[0] == LineSpan(a, b) {
      MatchAtHead(text, d, ls, a, b);
    } else {
      assert HasLine(tail, a, b) by {
        var t :| 0 <= t < |ls| && ls[t] == LineSpan(a, b);
        assert tail[t - 1] == ls[t];
      }
      assert SpansWithin(text, tail) by {
        forall k | 0 <= k < |tail| ensures tail[k].start <= tail[k].end <= |text| {
          assert tail[k] == ls[k + 1];
        }
      }
      MatchesInComplete(text, d, tail, a, b);
      MatchInTail(text, d, ls, a);
    }
  }

  /** The matches of FindMatches are exactly the lines of the text that the
      pattern matches, in source order. */
  lemma FindMatchesCorrect(text: string, d: DelimiterPair)
    ensures AllMatchesOf(text, d, FindMatches(text, d))
    ensures InLineOrder(FindMatches(text, d))
    ensures forall a: nat, b: nat :: IsLine(text, a, b) && Matches(text[a..b], d) ==> HasMatchAt(FindMatches(text, d), a)
  {
    LinesFromSound(text, 0);
    var ls := LinesFrom(text, 0);
    MatchesInSound(text, d, ls);
    forall a: nat, b: nat | IsLine(text, a, b) && Matches(text[a..b], d) ensures HasMatchAt(FindMatches(text, d), a) {
      LinesFromComplete(text, 0, a, b);
      MatchesInComplete(text, d, ls, a, b);
    }
  }

  // ---------------------------------------------------------------------------
  // Grouping consecutive matches into runs
  // ---------------------------------------------------------------------------

  /** The condition of matches_group between the last match of a group and the
      next match: the next line, the same indentation, a compatible open marker. */
  predicate Linked(prev: LineMatch, next: LineMatch) {
    && prev.end + 1 == next.start
    && prev.indent == next.indent
    && IsCompatibleDelimiter(prev.open, next.open)
  }

  /** matches_group. */
  predicate MatchesGroup(group: seq<LineMatch>, m: LineMatch)
    requires group != []
  {
    Linked(group[|group| - 1], m)
  }

  predicate NonEmptyGroups(groups: seq<seq<LineMatch>>) {
    forall k :: 0 <= k < |groups| ==> groups[k] != []
  }

  /** One step of the grouping loop: extend the last group or start a new one. */
  function AddMatch(groups: seq<seq<LineMatch>>, m: LineMatch): (r: seq<seq<LineMatch>>)
    requires NonEmptyGroups(groups)
    ensures NonEmptyGroups(r)
  {
    if groups != [] && MatchesGroup(groups[|groups| - 1], m) then
      groups[..|groups| - 1] + [groups[|groups| - 1] + [m]]
    else
      groups + [[m]]
  }

  /** The groups the loop has built after the matches `ms`. */
  function Grouped(ms: seq<LineMatch>): (r: seq<seq<LineMatch>>)
    ensures NonEmptyGroups(r)
  {
    if ms == [] then [] else AddMatch(Grouped(ms[..|ms| - 1]), ms[|ms| - 1])
  }

  function Flatten(groups: seq<seq<LineMatch>>): seq<LineMatch> {
    if groups == [] then [] else Flatten(groups[..|groups| - 1]) + groups[|groups| - 1]
  }

  /** Consecutive matches inside a group are linked. */
  predicate LinkedWithin(g: seq<LineMatch>) {
    forall j :: 0 <= j < |g| - 1 ==> Linked(g[j], g[j + 1])
  }

  /** The last match of a group is not linked to the first match of the next. */
  predicate SplitBetween(groups: seq<seq<LineMatch>>)
    requires NonEmptyGroups(groups)
  {
    forall k :: 0 <= k < |groups| - 1 ==>
      !Linked(groups[k][|groups[k]| - 1], groups[k + 1][0])
  }

  lemma FlattenSnoc(groups: seq<seq<LineMatch>>, g: seq<LineMatch>)
    ensures Flatten(groups + [g]) == Flatten(groups) + g
  {
    assert (groups + [g])[..|groups|] == groups;
  }

  /** The groups concatenate back to the matches, in order. */
  lemma {:induction false} GroupedFlatten(ms: seq<LineMatch>)
    ensures Flatten(Grouped(ms)) == ms
  {
    if ms != [] {
      var init, m := ms[..|ms| - 1], ms[|ms| - 1];
      GroupedFlatten(init);
      var gs := Grouped(init);
      assert init + [m] == ms;
      if gs != [] && MatchesGroup(gs[|gs| - 1], m) {
        var front, last := gs[..|gs| - 1], gs[|gs| - 1];
        assert gs == front + [last];
        FlattenSnoc(front, last);
        FlattenSnoc(front, last + [m]);
      } else {
        FlattenSnoc(gs, [m]);
      }
    }
  }

  /** Consecutive matches inside each group are linked. */
  lemma {:induction false} GroupedLinkedWithin(ms: seq<LineMatch>)
    ensures forall k :: 0 <= k < |Grouped(ms)| ==> LinkedWithin(Grouped(ms)[k])
  {
    if ms != [] {
      var init, m := ms[..|ms| - 1], ms[|ms| - 1];
      GroupedLinkedWithin(init);
      var gs := Grouped(init);
      var r := Grouped(ms);
      if gs != [] && MatchesGroup(gs[|gs| - 1], m) {
        var last := gs[|gs| - 1];
        assert r == gs[..|gs| - 1] + [last + [m]];
        forall k | 0 <= k < |r| ensures LinkedWithin(r[k]) {
          if k < |r| - 1 {
            assert r[k] == gs[k];
          } else {
            assert r[k] == last + [m];
            assert LinkedWithin(last);
          }
        }
      } else {
        assert r == gs + [[m]];
        forall k | 0 <= k < |r| ensures LinkedWithin(r[k]) {
          if k < |r| - 1 {
            assert r[k] == gs[k];
          }
        }
      }
    }
  }

  /** No group could have been extended with the first match of the next one. */
  lemma {:induction false} GroupedSplitBetween(ms: seq<LineMatch>)
    ensures SplitBetween(Grouped(ms))
  {
    if ms != [] {
      var init, m := ms[..|ms| - 1], ms[|ms| - 1];
      GroupedSplitBetween(init);
      var gs := Grouped(init);
      var r := Grouped(ms);
      if gs != [] && MatchesGroup(gs[|gs| - 1], m) {
        var last := gs[|gs| - 1];
        assert r == gs[..|gs| - 1] + [last + [m]];
        forall k | 0 <= k < |r| - 1 ensures !Linked(r[k][|r[k]| - 1], r[k + 1][0]) {
          assert r[k] == gs[k];
          if k + 1 < |r| - 1 {
            assert r[k + 1] == gs[k + 1];
          } else {
            assert r[k + 1][0] == last[0];
          }
        }
      } else {
        assert r == gs + [[m]];
        forall k | 0 <= k < |r| - 1 ensures !Linked(r[k][|r[k]| - 1], r[k + 1][0]) {
          assert r[k] == gs[k];
          if k + 1 < |r| - 1 {
            assert r[k + 1] == gs[k + 1];
          }
        }
      }
    }
  }
}
