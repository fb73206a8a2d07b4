/** Worked instances of the break points, the splitter and the line pattern. */
module Examples {
  import opened Results
  import opened Delimiters
  import opened BreakPoints
  import opened LineSplitter
  import opened LineMatcher

  /** In an f-string an interpolation is one token: no break inside `{b c}`. */
  lemma InterpolationBreaks()
    ensures FStringBreaks("a {b c} d") == [0, 2, 8]
  {
    var s := "a {b c} d";
    InterpolationTokens(s);
    assert FStringBreaks(s) == Starts(Tokens(s, 0));
    assert Starts([Span(0, 1), Span(2, 7), Span(8, 9)]) == [0, 2, 8];
  }

  /** The tokens of `a {b c} d`: `a`, the interpolation, then `d`. */
  lemma InterpolationTokens(s: string)
    requires s == "a {b c} d"
    ensures Tokens(s, 0) == [Span(0, 1), Span(2, 7), Span(8, 9)]
  {
    InterpolationTail(s);
    assert TokenEnd(s, 0) == 1 by {
      assert WordEnd(s, 1) == 1;
    }
    assert Tokens(s, 1) == Tokens(s, 2);
    assert Tokens(s, 0) == [Span(0, 1)] + Tokens(s, 1);
  }

  /** The tokens of `a {b c} d` from offset 2 on: the interpolation, then `d`. */
  lemma InterpolationTail(s: string)
    requires s == "a {b c} d"
    ensures Tokens(s, 2) == [Span(2, 7), Span(8, 9)]
  {
    assert TokenEnd(s, 8) == 9 by {
      assert InterpolationEnd(s, 8) == None;
      assert WordEnd(s, 9) == 9;
    }
    assert Tokens(s, 8) == [Span(8, 9)];
    assert Tokens(s, 7) == Tokens(s, 8);
    assert TokenEnd(s, 2) == 7 by {
      assert NextBrace(s, 6) == 6;
      assert NextBrace(s, 3) == 6;
    }
    assert Tokens(s, 2) == [Span(2, 7)] + Tokens(s, 7);
  }

  /** A closing brace followed by `=}` does not end an interpolation: the
      first alternative fails there and the token is the whole word. */
  lemma EqualsBraceNotInterpolation()
    ensures FStringBreaks("{a}=} b") == [0, 6]
  {
    var s := "{a}=} b";
    assert TokenEnd(s, 6) == 7 by {
      assert WordEnd(s, 7) == 7;
    }
    assert Tokens(s, 6) == [Span(6, 7)];
    assert Tokens(s, 5) == Tokens(s, 6);
    assert InterpolationEnd(s, 0) == None by {
      assert NextBrace(s, 2) == 2;
      assert NextBrace(s, 1) == 2;
    }
    assert TokenEnd(s, 0) == 5 by {
      assert WordEnd(s, 5) == 5;
    }
    assert Tokens(s, 0) == [Span(0, 5), Span(6, 7)];
  }

  /** A `}` right after an interpolation starts a token of its own: `{x}}`
      breaks at 3, where the interpolation ends. */
  lemma BraceAfterInterpolationBreaks()
    ensures FStringBreaks("{x}}") == [0, 3]
  {
    var s := "{x}}";
    assert InterpolationEnd(s, 3) == None;
    assert TokenEnd(s, 3) == 4 by {
      assert WordEnd(s, 4) == 4;
    }
    assert Tokens(s, 3) == [Span(3, 4)];
    assert TokenEnd(s, 0) == 3 by {
      assert NextBrace(s, 2) == 2;
      assert NextBrace(s, 1) == 2;
    }
    assert Tokens(s, 0) == [Span(0, 3), Span(3, 4)];
  }

  /** An interpolation right after another one starts a token of its own, so
      `{b c}` in `{a}{b c}` stays whole although its `{` follows a `}`. */
  lemma AdjacentInterpolationsBreaks()
    ensures FStringBreaks("{a}{b c}") == [0, 3]
  {
    var s := "{a}{b c}";
    assert TokenEnd(s, 3) == 8 by {
      assert NextBrace(s, 7) == 7;
      assert NextBrace(s, 4) == 7;
    }
    assert Tokens(s, 3) == [Span(3, 8)];
    assert TokenEnd(s, 0) == 3 by {
      assert NextBrace(s, 2) == 2;
      assert NextBrace(s, 1) == 2;
    }
    assert Tokens(s, 0) == [Span(0, 3), Span(3, 8)];
  }

  /** Doubled braces are literal braces: they stay with their words, and the
      words between them still start break points. */
  lemma DoubledBracesBreak()
    ensures FStringBreaks("{{a b}}") == [0, 4]
  {
    var s := "{{a b}}";
    assert TokenEnd(s, 4) == 7 by {
      assert WordEnd(s, 7) == 7;
    }
    assert Tokens(s, 4) == [Span(4, 7)];
    assert Tokens(s, 3) == Tokens(s, 4);
    assert TokenEnd(s, 0) == 3 by {
      assert NextBrace(s, 1) == 1;
      assert WordEnd(s, 3) == 3;
    }
    assert Tokens(s, 0) == [Span(0, 3), Span(4, 7)];
  }

  /** The break points of the f-string `ab{c d}`: the `{` follows a
      non-whitespace character, so the word alternative takes `ab{c`. */
  lemma InterpolationAfterWordBreaks()
    ensures FStringBreaks("ab{c d}") == [0, 5]
  {
    var s := "ab{c d}";
    assert TokenEnd(s, 5) == 7 by {
      assert WordEnd(s, 7) == 7;
    }
    assert Tokens(s, 5) == [Span(5, 7)];
    assert Tokens(s, 4) == Tokens(s, 5);
    assert TokenEnd(s, 0) == 4 by {
      assert WordEnd(s, 4) == 4;
    }
    assert Tokens(s, 0) == [Span(0, 4), Span(5, 7)];
  }

  /** An interpolation whose `{` follows a non-whitespace character does not
      start a token, so it is not protected: the next token starts inside the
      braces, and split_into_lines cuts the interpolation in two. */
  lemma InterpolationAfterWordSplits()
    ensures IsInterpolationAt("ab{c d}", 2, 7)
    ensures FStringBreaks("ab{c d}") == [0, 5]
    ensures Split("ab{c d}", 8, "", Catalog[0]) == Ok(["ab{c ", "d}"])
  {
    var s := "ab{c d}";
    assert IsInterpolationAt(s, 2, 7) by {
      assert s[2] == '{' && s[6] == '}' && s[1] != '{';
    }
    InterpolationAfterWordBreaks();
    CatalogWellFormed();
    var breaks := BreakIndices(s, Catalog[0]);
    assert breaks == [0, 5];
    assert EffectiveLength(8, "", Catalog[0]) == 5;
    assert Split(s, 8, "", Catalog[0]) == PackFrom(s, 5, breaks, 0);
    InterpolationPack(s, breaks);
  }

  /** The packing loop behind the example above, on its break points. */
  lemma InterpolationPack(text: string, breaks: seq<nat>)
    requires text == "ab{c d}" && breaks == [0, 5]
    ensures PackFrom(text, 5, breaks, 0) == Ok(["ab{c ", "d}"])
  {
    assert ChooseBreak(breaks, 0, 5) == Some(5) by {
      assert LargestBreakIn(breaks, 0, 5) == Some(5);
    }
    PackStep(text, 5, breaks, 0, 5);
    PackFits(text, 5, breaks, 5);
    assert text[0..5] == "ab{c " && text[5..] == "d}";
    assert ["ab{c "] + ["d}"] == ["ab{c ", "d}"];
  }

  /** Plain strings break after each run of whitespace. */
  lemma WordSeparatorBreaks()
    ensures PlainBreaks("aa bb  cc") == [3, 7]
  {
    var s := "aa bb  cc";
    assert WordSepEnds(s, 7) == [];
    assert WhitespaceRunEnd(s, 5) == 7;
    assert WordSepEnds(s, 3) == [7];
    assert WhitespaceRunEnd(s, 2) == 3;
    assert WordSepEnds(s, 0) == [3, 7];
  }

  /** The break indices of the double-quoted style, for the two texts below. */
  lemma PlainBreaksExample(text: string, breaks: seq<nat>)
    requires (text, breaks) in {("aa bb cc", [3, 6]), ("ab cdefgh", [3])}
    ensures BreakIndices(text, Catalog[2]) == breaks
  {
    CatalogWellFormed();
    if text == "aa bb cc" {
      assert WordSepEnds(text, 6) == [];
      assert WordSepEnds(text, 3) == [6];
      assert WordSepEnds(text, 0) == [3, 6];
    } else {
      assert WordSepEnds(text, 3) == [];
      assert WordSepEnds(text, 0) == [3];
    }
  }

  /** The packing loop behind the example below, on its break points. */
  lemma PackExample(text: string, breaks: seq<nat>)
    requires text == "aa bb cc" && breaks == [3, 6]
    ensures PackFrom(text, 5, breaks, 0) == Ok(["aa ", "bb cc"])
  {
    assert ChooseBreak(breaks, 0, 5) == Some(3) by {
      assert LargestBreakIn(breaks, 0, 5) == Some(3);
    }
    PackStep(text, 5, breaks, 0, 3);
    PackFits(text, 5, breaks, 3);
    assert text[0..3] == "aa " && text[3..] == "bb cc";
    assert ["aa "] + ["bb cc"] == ["aa ", "bb cc"];
  }

  /** The greedy packer fills a line up to the last break point that fits. */
  lemma SplitExample()
    ensures Split("aa bb cc", 7, "", Catalog[2]) == Ok(["aa ", "bb cc"])
  {
    var text := "aa bb cc";
    PlainBreaksExample(text, [3, 6]);
    assert EffectiveLength(7, "", Catalog[2]) == 5;
    PackExample(text, [3, 6]);
  }

  /** With no break point after the cursor, split_into_lines raises. */
  lemma SplitRaises()
    ensures Split("ab cdefgh", 6, "", Catalog[2]) == Err(NoBreakAfter(3))
  {
    var text := "ab cdefgh";
    PlainBreaksExample(text, [3]);
    var breaks: seq<nat> := [3];
    assert EffectiveLength(6, "", Catalog[2]) == 4;
    assert ChooseBreak(breaks, 0, 4) == Some(3) by {
      assert LargestBreakIn(breaks, 0, 4) == Some(3);
    }
    PackStep(text, 4, breaks, 0, 3);
    assert ChooseBreak(breaks, 3, 4) == None;
    PackNoBreak(text, 4, breaks, 3);
    assert Split(text, 6, "", Catalog[2]) == PackFrom(text, 4, breaks, 0);
  }

  /** A bare triple quote is a plain double-quoted string whose body is one
      quote character. */
  lemma TripleQuoteMatches()
    ensures MatchLine("\"\"\"", Catalog[2]) == Some(LineShape("", "\""))
    ensures MatchLine("\"\"\"", Catalog[0]) == None
  {
    MatchLineComplete("\"\"\"", Catalog[2], "", "\"");
  }

  /** Extra closing markers stay in the body: `(close)+` takes only the last. */
  lemma TrailingCloseStaysInBody()
    ensures MatchLine("  f\"ab\"\"", Catalog[0]) == Some(LineShape("  ", "ab\""))
  {
    MatchLineComplete("  f\"ab\"\"", Catalog[0], "  ", "ab\"");
  }
}
