/** Break-point scanners. A break point is an offset into a run's joined body at
    which a new output line may begin. Plain strings break after word separators
    (`textwrap.TextWrapper.wordsep_simple_re`); f-strings break at the start of
    unbreakable words (`UNBREAKABLE_WORD_RE`), so a `{...}` interpolation that
    starts a word is never split. */
module BreakPoints {
  import opened Results

  /** The character class `\t\n\x0b\x0c\r ` shared by both patterns. */
  predicate IsWhitespace(c: char) {
    c == '\t' || c == '\n' || c == '\U{B}' || c == '\U{C}' || c == '\r' || c == ' '
  }

  predicate StrictlyIncreasing(r: seq<nat>) {
    forall j, k :: 0 <= j < k < |r| ==> r[j] < r[k]
  }

  // ---------------------------------------------------------------------------
  // Plain strings: wordsep_simple_re = `([\t\n\x0b\x0c\r ]+)`
  // ---------------------------------------------------------------------------

  /** The end of the (possibly empty) whitespace run that starts at `i`. */
  function WhitespaceRunEnd(s: string, i: nat): (j: nat)
    requires i <= |s|
    ensures i <= j <= |s|
    ensures forall k :: i <= k < j ==> IsWhitespace(s[k])
    ensures j == |s| || !IsWhitespace(s[j])
    decreases |s| - i
  {
    if i == |s| || !IsWhitespace(s[i]) then i else WhitespaceRunEnd(s, i + 1)
  }

  /** `b` is the end offset of a maximal whitespace run of `s`. */
  predicate IsRunEnd(s: string, b: nat) {
    0 < b <= |s| && IsWhitespace(s[b - 1]) && (b == |s| || !IsWhitespace(s[b]))
  }

  /** The end offsets of the matches `finditer` finds from offset `i` on: it skips
      to the next whitespace character and takes the longest run from there. */
  function WordSepEnds(s: string, i: nat): (r: seq<nat>)
    requires i <= |s|
    ensures StrictlyIncreasing(r)
    ensures forall b :: b in r <==> i < b && IsRunEnd(s, b)
    decreases |s| - i
  {
    if i == |s| then []
    else if !IsWhitespace(s[i]) then WordSepEnds(s, i + 1)
    else
      var j := WhitespaceRunEnd(s, i);
      var rest := WordSepEnds(s, j);
      assert forall k :: 0 <= k < |rest| ==> j < rest[k] by {
        forall k | 0 <= k < |rest| ensures j < rest[k] { assert rest[k] in rest; }
      }
      [j] + rest
  }

  /** Break indices of a plain string: `[m.span()[1] for m in WORDSEP_RE.finditer(s)]`. */
  function PlainBreaks(s: string): (r: seq<nat>)
    ensures StrictlyIncreasing(r)
    ensures forall b :: b in r <==> IsRunEnd(s, b)
    ensures forall b :: b in r ==> b <= |s|
  {
    WordSepEnds(s, 0)
  }

  // ---------------------------------------------------------------------------
  // f-strings: UNBREAKABLE_WORD_RE =
  //   `((?<!\{)\{(?:[^{}]*)\}(?!=\})|(?:\{\{|\}\}|[^\t\n\x0b\x0c\r\ ])+)`
  // ---------------------------------------------------------------------------

  datatype Span = Span(start: nat, end: nat)

  /** The first alternative matches exactly `s[p..e]`: a `{` not preceded by `{`,
      no brace in between, a `}`, and then not the two characters `=}`. */
  predicate IsInterpolationAt(s: string, p: nat, e: nat) {
    && p + 2 <= e <= |s|
    && s[p] == '{' && s[e - 1] == '}'
    && (forall k :: p < k < e - 1 ==> s[k] != '{' && s[k] != '}')
    && (p == 0 || s[p - 1] != '{')
    && !(e + 1 < |s| && s[e] == '=' && s[e + 1] == '}')
  }

  /** The second alternative matches exactly `s[p..e]`: a maximal run of
      non-whitespace characters (doubled braces are non-whitespace too). */
  predicate IsWordAt(s: string, p: nat, e: nat) {
    && p < e <= |s|
    && (forall k :: p <= k < e ==> !IsWhitespace(s[k]))
    && (e == |s| || IsWhitespace(s[e]))
  }

  /** The first brace at or after `i`, or `|s|`: where `[^{}]*` stops. */
  function NextBrace(s: string, i: nat): (q: nat)
    requires i <= |s|
    ensures i <= q <= |s|
    ensures forall k :: i <= k < q ==> s[k] != '{' && s[k] != '}'
    ensures q < |s| ==> s[q] == '{' || s[q] == '}'
    decreases |s| - i
  {
    if i == |s| || s[i] == '{' || s[i] == '}' then i else NextBrace(s, i + 1)
  }

  /** The end of the first alternative's match at `p`, if it matches there. */
  function InterpolationEnd(s: string, p: nat): (r: Option<nat>)
    requires p < |s|
    ensures forall e: nat :: IsInterpolationAt(s, p, e) <==> r == Some(e)
  {
    if s[p] != '{' || (p > 0 && s[p - 1] == '{') then None
    else
      var q := NextBrace(s, p + 1);
      if q == |s| || s[q] != '}' then None
      else if q + 2 < |s| && s[q + 1] == '=' && s[q + 2] == '}' then None
      else Some(q + 1)
  }

  /** The end of the maximal non-whitespace run starting at `p`. */
  function WordEnd(s: string, p: nat): (e: nat)
    requires p <= |s|
    ensures p <= e <= |s|
    ensures forall k :: p <= k < e ==> !IsWhitespace(s[k])
    ensures e == |s| || IsWhitespace(s[e])
    decreases |s| - p
  {
    if p == |s| || IsWhitespace(s[p]) then p else WordEnd(s, p + 1)
  }

  /** The match `finditer` finds at a non-whitespace offset `p`: the first
      alternative when it matches, otherwise the second. */
  function TokenEnd(s: string, p: nat): (e: nat)
    requires p < |s| && !IsWhitespace(s[p])
    ensures IsInterpolationAt(s, p, e) || (InterpolationEnd(s, p).None? && IsWordAt(s, p, e))
  {
    match InterpolationEnd(s, p)
    case Some(e) => e
    case None => WordEnd(s, p)
  }

  /** The tokens `finditer` finds from offset `i` on. Neither alternative matches at
      a whitespace offset, so the scan skips it. */
  function Tokens(s: string, i: nat): (t: seq<Span>)
    requires i <= |s|
    ensures forall k :: 0 <= k < |t| ==> i <= t[k].start < t[k].end <= |s|
    decreases |s| - i
  {
    if i == |s| then []
    else if IsWhitespace(s[i]) then Tokens(s, i + 1)
    else
      var e := TokenEnd(s, i);
      [Span(i, e)] + Tokens(s, e)
  }

  predicate Disjoint(t: seq<Span>) {
    forall j, k :: 0 <= j < k < |t| ==> t[j].end <= t[k].start
  }

  /** `sp` is a match of one of the two alternatives at its start, the first one
      whenever that one matches. */
  predicate IsTokenMatch(s: string, sp: Span) {
    && sp.start < |s|
    && (|| IsInterpolationAt(s, sp.start, sp.end)
        || (InterpolationEnd(s, sp.start).None? && IsWordAt(s, sp.start, sp.end)))
  }

  /** An interpolation that begins at or after `i` ends at `b`. */
  predicate EndsInterpolation(s: string, i: nat, b: nat) {
    exists a :: i <= a < b && IsInterpolationAt(s, a, b)
  }

  /** `sp` starts at the origin `i` of the scan, after whitespace, or right where
      an interpolation that begins at or after `i` ends. */
  predicate StartsAfterSeparator(s: string, sp: Span, i: nat) {
    || sp.start == i
    || (0 < sp.start <= |s| && IsWhitespace(s[sp.start - 1]))
    || EndsInterpolation(s, i, sp.start)
  }

  /** The tokens are ordered and disjoint. */
  lemma {:induction false} TokensOrdered(s: string, i: nat)
    requires i <= |s|
    ensures Disjoint(Tokens(s, i))
    decreases |s| - i
  {
    if i == |s| {
    } else if IsWhitespace(s[i]) {
      assert Tokens(s, i) == Tokens(s, i + 1);
      TokensOrdered(s, i + 1);
    } else {
      var e := TokenEnd(s, i);
      TokensOrdered(s, e);
      var t := Tokens(s, i);
      assert t == [Span(i, e)] + Tokens(s, e);
      forall j, k | 0 <= j < k < |t| ensures t[j].end <= t[k].start {
        assert t[k] == Tokens(s, e)[k - 1];
        if j > 0 { assert t[j] == Tokens(s, e)[j - 1]; }
      }
    }
  }

  /** Each token is a match of one of the two alternatives, the first one whenever
      it matches. */
  lemma {:induction false} TokensMatch(s: string, i: nat)
    requires i <= |s|
    ensures forall k :: 0 <= k < |Tokens(s, i)| ==> IsTokenMatch(s, Tokens(s, i)[k])
    decreases |s| - i
  {
    if i == |s| {
    } else if IsWhitespace(s[i]) {
      assert Tokens(s, i) == Tokens(s, i + 1);
      TokensMatch(s, i + 1);
    } else {
      var e := TokenEnd(s, i);
      TokensMatch(s, e);
      var t := Tokens(s, i);
      assert t == [Span(i, e)] + Tokens(s, e);
      forall k | 0 < k < |t| ensures IsTokenMatch(s, t[k]) {
        assert t[k] == Tokens(s, e)[k - 1];
      }
    }
  }

  /** A token followed directly by a non-whitespace character is an
      interpolation: a word token runs on to the next whitespace. */
  lemma TokenBeforeNonWhitespace(s: string, i: nat)
    requires i < |s| && !IsWhitespace(s[i])
    requires TokenEnd(s, i) < |s| && !IsWhitespace(s[TokenEnd(s, i)])
    ensures IsInterpolationAt(s, i, TokenEnd(s, i))
  {
  }

  /** A token placed after a separator from `e` on is placed after one from any
      earlier origin `i`, provided that `e` itself follows whitespace or ends an
      interpolation that begins at `i`, whenever the token starts at `e`. */
  lemma SeparatorFromEarlier(s: string, sp: Span, i: nat, e: nat)
    requires i <= e && StartsAfterSeparator(s, sp, e)
    requires sp.start == e ==> (0 < e <= |s| && IsWhitespace(s[e - 1])) || IsInterpolationAt(s, i, e)
    ensures StartsAfterSeparator(s, sp, i)
  {
  }

  /** Each token starts at the scan's origin, after whitespace, or right where an
      interpolation ends. */
  lemma {:induction false} TokensAfterSeparator(s: string, i: nat)
    requires i <= |s|
    ensures forall k :: 0 <= k < |Tokens(s, i)| ==> StartsAfterSeparator(s, Tokens(s, i)[k], i)
    decreases |s| - i
  {
    if i == |s| {
    } else if IsWhitespace(s[i]) {
      assert Tokens(s, i) == Tokens(s, i + 1);
      TokensAfterSeparator(s, i + 1);
      forall k | 0 <= k < |Tokens(s, i)| ensures StartsAfterSeparator(s, Tokens(s, i)[k], i) {
        SeparatorFromEarlier(s, Tokens(s, i)[k], i, i + 1);
      }
    } else {
      var e := TokenEnd(s, i);
      var rest := Tokens(s, e);
      TokensAfterSeparator(s, e);
      var t := Tokens(s, i);
      assert t == [Span(i, e)] + rest;
      forall k | 0 < k < |t| ensures StartsAfterSeparator(s, t[k], i) {
        assert t[k] == rest[k - 1];
        if t[k].start == e {
          assert e < |s| && !IsWhitespace(s[e]);
          TokenBeforeNonWhitespace(s, i);
        }
        SeparatorFromEarlier(s, t[k], i, e);
      }
    }
  }

  /** Every non-whitespace character from `i` on lies inside some token: the gaps
      between tokens hold only whitespace. */
  lemma {:induction false} TokensCover(s: string, i: nat, p: nat)
    requires i <= p < |s| && !IsWhitespace(s[p])
    ensures exists k :: 0 <= k < |Tokens(s, i)| && Tokens(s, i)[k].start <= p < Tokens(s, i)[k].end
    decreases |s| - i
  {
    var t := Tokens(s, i);
    if IsWhitespace(s[i]) {
      TokensCover(s, i + 1, p);
    } else {
      var e := TokenEnd(s, i);
      assert t == [Span(i, e)] + Tokens(s, e);
      if p < e {
        assert t[0].start <= p < t[0].end;
      } else {
        TokensCover(s, e, p);
        var k :| 0 <= k < |Tokens(s, e)| && Tokens(s, e)[k].start <= p < Tokens(s, e)[k].end;
        assert t[k + 1] == Tokens(s, e)[k];
      }
    }
  }

  /** The start offsets of the tokens. */
  function Starts(t: seq<Span>): (r: seq<nat>)
    ensures |r| == |t| && forall k :: 0 <= k < |t| ==> r[k] == t[k].start
  {
    if t == [] then [] else [t[0].start] + Starts(t[1..])
  }

  /** The token starts increase. */
  lemma TokenStartsIncrease(s: string)
    ensures StrictlyIncreasing(Starts(Tokens(s, 0)))
  {
    var t := Tokens(s, 0);
    TokensOrdered(s, 0);
    var r := Starts(t);
    forall j, k | 0 <= j < k < |r| ensures r[j] < r[k] {
      assert t[j].start < t[j].end <= t[k].start;
    }
  }

  /** Each token start is a non-whitespace offset at the origin of the scan,
      after whitespace, or where an interpolation ends. */
  lemma TokenStartsPlaced(s: string, i: nat, b: nat)
    requires i <= |s| && b in Starts(Tokens(s, i))
    ensures b < |s| && !IsWhitespace(s[b])
    ensures b == i || IsWhitespace(s[b - 1]) || EndsInterpolation(s, i, b)
  {
    var r := Starts(Tokens(s, i));
    var k :| 0 <= k < |r| && r[k] == b;
    TokenStartNotWhitespace(s, i, k);
    TokenStartSeparated(s, i, k);
  }

  lemma TokenStartNotWhitespace(s: string, i: nat, k: nat)
    requires i <= |s| && k < |Tokens(s, i)|
    ensures !IsWhitespace(s[Tokens(s, i)[k].start])
  {
    var sp := Tokens(s, i)[k];
    TokensMatch(s, i);
    assert IsTokenMatch(s, sp);
    if !IsInterpolationAt(s, sp.start, sp.end) {
      assert IsWordAt(s, sp.start, sp.end);
    }
  }

  lemma TokenStartSeparated(s: string, i: nat, k: nat)
    requires i <= |s| && k < |Tokens(s, i)|
    ensures StartsAfterSeparator(s, Tokens(s, i)[k], i)
  {
    TokensAfterSeparator(s, i);
  }

  /** Break indices of an f-string:
      `[m.span()[0] for m in UNBREAKABLE_WORD_RE.finditer(s)]`. */
  function FStringBreaks(s: string): (r: seq<nat>)
    ensures StrictlyIncreasing(r)
    ensures forall b :: b in r ==> b < |s| && !IsWhitespace(s[b])
    ensures forall b :: b in r ==> b == 0 || IsWhitespace(s[b - 1]) || EndsInterpolation(s, 0, b)
  {
    TokenStartsIncrease(s);
    forall b | b in Starts(Tokens(s, 0))
      ensures b < |s| && !IsWhitespace(s[b])
      ensures b == 0 || IsWhitespace(s[b - 1]) || EndsInterpolation(s, 0, b)
    {
      TokenStartsPlaced(s, 0, b);
    }
    Starts(Tokens(s, 0))
  }

  /** Inside a word the f-string scanner never breaks: a break point never
      follows a non-whitespace character other than a `}` that ends an
      interpolation. So literal braces such as `{{as` or `braces}` stay with
      their word. */
  lemma NoBreakAfterWordCharacter(s: string, b: nat)
    requires 0 < b <= |s| && !IsWhitespace(s[b - 1]) && s[b - 1] != '}'
    ensures b !in FStringBreaks(s)
  {
  }

  /** Doubled closing braces are literal: no break point lies right after `}}`,
      so the text right after them stays on their line. */
  lemma NoBreakAfterDoubledClose(s: string, b: nat)
    requires 2 <= b <= |s| && s[b - 2] == '}' && s[b - 1] == '}'
    ensures b !in FStringBreaks(s)
  {
  }

  /** A token that starts where the first alternative matches is that match. */
  lemma TokenIsInterpolation(s: string, sp: Span, e: nat)
    requires IsTokenMatch(s, sp) && IsInterpolationAt(s, sp.start, e)
    ensures sp.end == e
  {
    assert InterpolationEnd(s, sp.start) == Some(e);
    if IsInterpolationAt(s, sp.start, sp.end) {
      assert InterpolationEnd(s, sp.start) == Some(sp.end);
    }
  }

  /** An interpolation that starts a token is atomic: no break point lies strictly
      inside it. */
  lemma InterpolationIsAtomic(s: string, b: nat, e: nat, c: nat)
    requires b in FStringBreaks(s) && IsInterpolationAt(s, b, e) && b < c < e
    ensures c !in FStringBreaks(s)
  {
    var t := Tokens(s, 0);
    var r := Starts(t);
    assert FStringBreaks(s) == r;
    TokensOrdered(s, 0);
    TokensMatch(s, 0);
    var j :| 0 <= j < |r| && r[j] == b;
    TokenIsInterpolation(s, t[j], e);
    forall k | 0 <= k < |r| ensures r[k] != c {
      if k < j {
        assert t[k].end <= t[j].start;
      } else if j < k {
        assert t[j].end <= t[k].start;
      }
    }
  }

  /** A word that follows whitespace (or starts the text) begins at a break point
      unless it lies inside an interpolation token. */
  lemma WordStartIsBreak(s: string, p: nat)
    requires p < |s| && !IsWhitespace(s[p]) && (p == 0 || IsWhitespace(s[p - 1]))
    requires forall b, e :: b in FStringBreaks(s) && IsInterpolationAt(s, b, e) ==> !(b < p < e)
    ensures p in FStringBreaks(s)
  {
    var t := Tokens(s, 0);
    TokensMatch(s, 0);
    TokensCover(s, 0, p);
    var k :| 0 <= k < |t| && t[k].start <= p < t[k].end;
    assert IsTokenMatch(s, t[k]);
    assert t[k].start in FStringBreaks(s);
    assert t[k].start == p;
  }
}
