# pystring-reflow in Dafny

A model of the reflow engine of pystring-reflow (`src/pystring_reflow/__init__.py`), with proofs about it. The engine finds runs of adjacent string-literal lines in Python source, one line each. Each run is implicitly concatenated, in one of four quoting styles: `f"…"`, `f'…'`, `"…"` and `'…'`. The engine joins each run's bodies and re-wraps them to a column width. It then splices the re-wrapped lines back into the text.

The model follows the program's own structure:

| module | file | what it holds |
|---|---|---|
| `Results` | results.dfy | `Option`, `Result` and the two errors: `DelimiterMismatch` (the `ValueError` of `strip_delimiters`) and `NoBreakAfter(offset)` (the `ValueError` of `min()` in `split_into_lines`) |
| `Delimiters` | delimiters.dfy | `DelimiterPair`, the catalog `DELIMITERS`, `strip_delimiters`, `is_compatible_delimiter` |
| `BreakPoints` | breakpoints.dfy | hand-written scanners for `wordsep_simple_re` (plain styles) and `UNBREAKABLE_WORD_RE` (f-string styles) |
| `LineSplitter` | splitter.dfy | the greedy packer behind `split_into_lines`: the method with its `while` loop, and the function it is proved against |
| `LineMatcher` | matcher.dfy | the per-style line pattern `^( *)(open)(.+)(close)+$` under `re.MULTILINE`, the line scan of `finditer`, `matches_group` and the grouping loop |
| `Runs` | runs.dfy | the runs of each style, and the proof that two distinct runs never overlap |
| `TextReflow` | reflow.dfy | `reflow_text`: specification functions, plus methods for its loops (grouping, claiming the table, stitching) |
| `ReplacementTable` | table.dfy | what the replacement dictionary holds once every style is processed |
| `Rendering` | render.dfy | the shape of a run's replacement text |
| `Stitching` | stitch.dfy | the stitching loop equals replacing the claimed spans one by one, and copies everything else |
| `ReflowTheorems` | theorems.dfy | end-to-end properties of `reflow_text` |
| `Examples` | examples.dfy | worked instances, including cases from the repository's tests |

A few things about how the model is written:

- **Imperative parts stay imperative.** `split_into_lines` is a method with the source's loop, its cursor and its `lines` list. The loop keeps the source's condition `"".join(lines) != text`. `reflow_text` is a method whose loops are split into three helper methods: `GroupMatches`, `ClaimGroups` and `StitchText`. Each method is proved equal to a specification function: `Split`, `Grouped`, `ClaimRuns` or `Stitch`. The properties are then proved about those functions.
- **Regular expressions become scanners.** Each one is replaced by an explicit scanner that yields the matches `re.finditer` yields with that pattern. Characters of Python's `str` are Dafny `char`s. The one character class involved, `\t\n\x0b\x0c\r` and space, is spelled out (`BreakPoints.IsWhitespace`).
- **The dictionary becomes a map.** The dictionary `replacements` is a `map<(nat, nat), string>`. `sorted(keys)` is `SortedKeys`, which orders the keys as Python orders tuples. Python's clamping slice `s[lo:hi]` is `Slice`.
- **Uncaught errors become `Err` results.** The `ValueError`s the code leaves uncaught are `Err` results that `reflow_text` passes on.

Behaviour of the code that a reader might not expect, and that the model keeps:

- **Plain-style break points** are the ends of whitespace runs. They come from `wordsep_simple_re` (line 21), runs of `\t\n\x0b\x0c\r` and space. They are not the word-plus-whitespace chunks of `wordsep_re`.
- **Failure.** `reflow_text` raises when `min()` (line 64) finds no break point beyond the cursor (`SplitFails`, `Examples.SplitRaises`). A plain-style body that ends in whitespace never raises (`SplitSucceeds`).
- **A non-positive effective width** is not rejected by the code. The model does not reject it either. The loop still ends, because every chosen break lies strictly beyond the cursor.
- **The interpolation alternative of `UNBREAKABLE_WORD_RE`.** It ends in the lookahead `(?!=\})`. That forbids the two characters `=}` after the closing brace, not a lone `}`. It is modelled as written (`Examples.EqualsBraceNotInterpolation`).
- **`strip_delimiters` with an empty close marker.** It slices up to `-0`, which is index 0. That case is modelled as written, although no style of the catalog has an empty close marker.
- **Interpolations are protected only where they start a token.** The comment at lines 41-42 says an f-string is never broken inside a `{}` interpolation. `UNBREAKABLE_WORD_RE` (lines 22-24) keeps a `{...}` whole only when its `{` starts a token. When the `{` lies inside a word token, because it follows a non-whitespace character that does not end an interpolation token, the word alternative runs on to the next whitespace. If the braces hold whitespace, the next token, and so a break point, starts inside the braces. In `{a}{b c}` the second `{` follows the end of the interpolation `{a}`, so `{b c}` is a token of its own and stays whole (`Examples.AdjacentInterpolationsBreaks`); in `ab{cd} e` the braces hold no whitespace and nothing breaks inside them. In `ab{c d}` the tokens are `ab{c` and `d}`, and `split_into_lines` with width 8 cuts the f-string into `ab{c ` and `d}` (`Examples.InterpolationAfterWordSplits`). What the code does guarantee is `BreakPoints.InterpolationIsAtomic`.
- **The `continue` at lines 100-101 is never taken.** Distinct runs, of one style or of two, never share a span (`Runs.RunsApart`, `ReplacementTable.StyleKeysFresh`). The code is still modelled with its branch. The proof of `ReplacementsSpec` shows that the branch never fires.

## Model

| member | source | states |
|---|---|---|
| Delimiters.CatalogWellFormed | src/pystring_reflow/__init__.py:14-19 | every style of the catalog has non-empty markers without newlines and an open marker that does not start with a space; the first two styles are f-strings, the last two are not |
| Delimiters.StripDelimiters | src/pystring_reflow/__init__.py:27-32 | succeeds exactly when the text starts with the open marker and ends with the close marker, and otherwise fails with the mismatch error; a success with a non-empty close marker and non-overlapping markers gives back the middle, so that open + result + close is the text; with an empty close marker, or with markers that overlap, the result is empty |
| Delimiters.StripRoundTrip | src/pystring_reflow/__init__.py:27-29 | stripping the markers off open + s + close gives back s |
| Delimiters.IsCompatibleDelimiter | src/pystring_reflow/__init__.py:71-72 | definition (two open markers are compatible when equal); its use is stated by `LineMatcher.GroupedLinkedWithin` and `LineMatcher.GroupedSplitBetween` |
| Delimiters.IsInterpolated | src/pystring_reflow/__init__.py:43 | definition (the open marker starts with `f`); its use is stated by `LineSplitter.BreakIndices` and `Delimiters.CatalogWellFormed` |
| BreakPoints.WordSepEnds | src/pystring_reflow/__init__.py:21 | the match ends `finditer` reports from an offset on are strictly increasing and are exactly the ends of maximal whitespace runs after that offset |
| BreakPoints.PlainBreaks | src/pystring_reflow/__init__.py:47 | the plain break indices are strictly increasing, are exactly the end offsets of maximal whitespace runs, and lie within the text |
| BreakPoints.InterpolationEnd | src/pystring_reflow/__init__.py:23 | the first alternative matches at an offset, with a given end, exactly when that span is a `{`, brace-free text and `}`, not preceded by `{` and not followed by `=}` |
| BreakPoints.TokenEnd | src/pystring_reflow/__init__.py:22-24 | at a non-whitespace offset the token is the interpolation when the first alternative matches, and otherwise the maximal non-whitespace word |
| BreakPoints.Tokens | src/pystring_reflow/__init__.py:22-24 | every token found from an offset on lies within the text after that offset and is non-empty |
| BreakPoints.TokensOrdered | src/pystring_reflow/__init__.py:22-24 | the tokens `finditer` finds are in order and pairwise disjoint |
| BreakPoints.TokensMatch | src/pystring_reflow/__init__.py:22-24 | each token is a match of one of the two alternatives, the first whenever it matches |
| BreakPoints.TokensAfterSeparator | src/pystring_reflow/__init__.py:22-24 | each token starts at the scan's origin, right after whitespace, or exactly where an interpolation that begins at or after the origin ends; no token starts right after a `}` that does not end such an interpolation |
| BreakPoints.TokensCover | src/pystring_reflow/__init__.py:22-24 | every non-whitespace character lies inside some token |
| BreakPoints.FStringBreaks | src/pystring_reflow/__init__.py:44 | the f-string break indices are strictly increasing non-whitespace offsets, each at the start of the text, after whitespace, or at the end of an interpolation |
| BreakPoints.NoBreakAfterDoubledClose | src/pystring_reflow/__init__.py:22-24 | no break index lies right after doubled closing braces `}}`, so the text right after them stays on their line |
| BreakPoints.NoBreakAfterWordCharacter | tests/test_pystring_reflow.py:66-75 | no break index follows a non-whitespace character other than `}`, so literal braces such as `{{as` and `braces}}` stay with their words (the `}}` case is `NoBreakAfterDoubledClose` together with the placement clause of `FStringBreaks`) |
| BreakPoints.InterpolationIsAtomic | src/pystring_reflow/__init__.py:22-24 | no f-string break index lies strictly inside an interpolation that starts a token |
| BreakPoints.WordStartIsBreak | src/pystring_reflow/__init__.py:22-24 | a word that starts the text or follows whitespace starts at a break index, unless it lies inside an interpolation token |
| LineSplitter.BreakIndices | src/pystring_reflow/__init__.py:43-47 | the break indices are strictly increasing and within the text; for an f-string style they sit on non-whitespace characters, for a plain style they are exactly the ends of whitespace runs |
| LineSplitter.LargestBreakIn | src/pystring_reflow/__init__.py:56-60 | yields the largest break index in (cur, cur + width], and nothing exactly when that interval holds none (where `max` raises) |
| LineSplitter.SmallestBreakAfter | src/pystring_reflow/__init__.py:64 | yields the smallest break index beyond the cursor, and nothing exactly when none lies beyond it (where `min` raises) |
| LineSplitter.ChooseBreak | src/pystring_reflow/__init__.py:55-64 | the chosen break lies beyond the cursor; it is the largest one on the line when one exists there and the smallest one after the cursor otherwise; there is none exactly when no break index lies beyond the cursor |
| LineSplitter.EffectiveLength | src/pystring_reflow/__init__.py:38 | definition (`line_length` minus the lengths of indent, open and close markers); its use is stated by `Rendering.RenderedRunShape`, where a rendered line fits `cols` exactly when its segment fits this width |
| LineSplitter.PackFrom | src/pystring_reflow/__init__.py:48-67 | definition of what the loop produces from a cursor on; its properties are in `LineSplitter.PackReconstructs`, `LineSplitter.PackSucceeds` and `LineSplitter.SplitLayout` |
| LineSplitter.Split | src/pystring_reflow/__init__.py:35-68 | definition of `split_into_lines` as a function; its properties are in `LineSplitter.SplitLayout`, `LineSplitter.SplitFails` and `LineSplitter.SplitSucceeds`, and `LineSplitter.SplitIntoLines` is proved equal to it |
| LineSplitter.SplitIntoLines | src/pystring_reflow/__init__.py:35-68 | the loop returns what the packing function gives; on success the lines are non-empty and join back to the text |
| LineSplitter.SplitLayout | src/pystring_reflow/__init__.py:48-67 | a successful split consists of non-empty consecutive slices that join back to the text; every interior boundary is a break index; each segment fits the effective width or is an unbreakable word ending at a break; no segment could have reached a later break on its line; every segment but the last starts where the rest of the text does not fit |
| LineSplitter.PackCutsOnlyWhenTooWide | src/pystring_reflow/__init__.py:49-52 | the packing cuts only at cursors whose remainder is wider than the effective width: once the rest fits it is the last segment |
| LineSplitter.LayoutIsPack | src/pystring_reflow/__init__.py:48-67 | any segmentation from a cursor with the layout of `SplitLayout` is exactly what the packing loop produces from that cursor |
| LineSplitter.SplitDetermined | src/pystring_reflow/__init__.py:35-68 | a segmentation of the text with that layout is what `split_into_lines` returns, so the layout determines the result |
| LineSplitter.SplitFails | src/pystring_reflow/__init__.py:55-64 | a failed split fails at a cursor that is 0 or a break index, whose remainder does not fit the effective width and after which no break index lies |
| LineSplitter.PackSucceeds | src/pystring_reflow/__init__.py:48-67 | when the end of the text is a break point, the packing from any cursor succeeds |
| LineSplitter.SplitSucceeds | src/pystring_reflow/__init__.py:47-64 | a plain-style text that ends in whitespace never makes `split_into_lines` raise |
| LineSplitter.PackReconstructs | src/pystring_reflow/__init__.py:48-52 | a successful packing from a cursor consists of non-empty segments that join back to the text after the cursor |
| LineMatcher.LeadingSpaces | src/pystring_reflow/__init__.py:88 | `( *)` takes the longest prefix of spaces |
| LineMatcher.MatchLine | src/pystring_reflow/__init__.py:88 | a match splits the line into its leading spaces, the open marker, a non-empty body without newline, and one close marker |
| LineMatcher.MatchLineComplete | src/pystring_reflow/__init__.py:88 | conversely, every line of that shape matches with that indentation and body, so extra trailing close markers stay in the body |
| LineMatcher.StylesAreExclusive | src/pystring_reflow/__init__.py:14-19 | no line matches the patterns of two different styles of the catalog |
| LineMatcher.LineEnd | src/pystring_reflow/__init__.py:88 | the end of the line starting at an offset is the next newline (or the end of the text), with no newline before it |
| LineMatcher.LinesFromSound | src/pystring_reflow/__init__.py:88-89 | the lines the scan visits are lines of the text, in order |
| LineMatcher.LinesFromComplete | src/pystring_reflow/__init__.py:88-89 | the scan visits every line of the text |
| LineMatcher.FindMatches | src/pystring_reflow/__init__.py:88-89 | definition of the `finditer` scan; its properties are in `LineMatcher.FindMatchesCorrect` |
| LineMatcher.FindMatchesCorrect | src/pystring_reflow/__init__.py:88-89 | the matches found are matches of whole lines, in source order, and every line the pattern matches is among them |
| LineMatcher.GroupedFlatten | src/pystring_reflow/__init__.py:90-95 | the groups concatenate back to the list of matches, in order |
| LineMatcher.Linked | src/pystring_reflow/__init__.py:77-81 | definition of the condition of `matches_group`: next line, same indent, compatible open marker; its use is stated by `LineMatcher.GroupedLinkedWithin` and `LineMatcher.GroupedSplitBetween` |
| LineMatcher.MatchesGroup | src/pystring_reflow/__init__.py:75-81 | definition: `Linked` applied to the last match of the group; its use is stated by `LineMatcher.GroupedSplitBetween` |
| LineMatcher.AddMatch | src/pystring_reflow/__init__.py:91-95 | one step of the grouping loop: the groups stay non-empty; the effect of the step is stated by `LineMatcher.GroupedFlatten`, `LineMatcher.GroupedLinkedWithin` and `LineMatcher.GroupedSplitBetween` |
| LineMatcher.Grouped | src/pystring_reflow/__init__.py:90-95 | the groups the loop builds: every group is non-empty; its properties are in `LineMatcher.GroupedFlatten`, `LineMatcher.GroupedLinkedWithin` and `LineMatcher.GroupedSplitBetween`, and `TextReflow.GroupMatches` is proved equal to it |
| LineMatcher.GroupedLinkedWithin | src/pystring_reflow/__init__.py:75-81 | consecutive matches within a group satisfy `matches_group`: adjacent lines, equal indentation, equal open marker |
| LineMatcher.GroupedSplitBetween | src/pystring_reflow/__init__.py:90-95 | the last match of a group and the first match of the next group fail `matches_group` |
| Runs.StyleRunsFacts | src/pystring_reflow/__init__.py:87-95 | each run of a style is a non-empty group of linked whole-line matches of that style, and runs come in source order, apart from each other |
| Runs.OverlapSameStyle | src/pystring_reflow/__init__.py:14-19 | a run that starts inside the span of another run has the same style |
| Runs.RunsApart | src/pystring_reflow/__init__.py:96-99 | any two distinct runs of the text, of the same or of different styles, have spans that lie apart |
| TextReflow.SortedKeys | src/pystring_reflow/__init__.py:113 | the keys in strictly increasing tuple order, each key exactly once |
| TextReflow.Slice | src/pystring_reflow/__init__.py:114 | Python's slice: the substring when the bounds are in order and within the text, empty when they are reversed |
| TextReflow.RenderRun | src/pystring_reflow/__init__.py:102-108 | definition of a run's replacement text or its error; its properties are in `Rendering.RenderedRunShape` and `Rendering.RenderFittingLine` |
| TextReflow.ClaimRuns | src/pystring_reflow/__init__.py:96-109 | definition of the claiming loop over one style's runs; its properties are in `ReplacementTable.ClaimRunsIsList`, `ReplacementTable.ClaimRunsFresh` and `ReplacementTable.ClaimRunsKeeps` |
| TextReflow.ClaimStylesFrom | src/pystring_reflow/__init__.py:87-109 | definition of the loop over the remaining catalog styles; its properties are in `ReplacementTable.ClaimStylesIsAll`, `ReplacementTable.ClaimAllOk`, `ReplacementTable.ClaimAllHolds` and `ReplacementTable.ClaimAllErr` |
| TextReflow.Replacements | src/pystring_reflow/__init__.py:85-109 | definition of the dictionary once every style is processed; its properties are in `ReplacementTable.ReplacementsSpec` |
| TextReflow.Stitch | src/pystring_reflow/__init__.py:111-117 | definition of the stitched output; its properties are in `Stitching.StitchIsReplaceAll`, `Stitching.StitchIdentity` and `Stitching.StitchPrefix` |
| TextReflow.StitchFrom | src/pystring_reflow/__init__.py:113-117 | definition of the stitching loop from a cursor over the remaining sorted keys; its properties are in `Stitching.StitchIsReplaceAll`, `Stitching.StitchLast` and `Stitching.StitchPrefix` |
| TextReflow.Reflow | src/pystring_reflow/__init__.py:84-118 | definition of `reflow_text` as a function; its properties are in `ReflowTheorems.ReflowReplacesRuns`, `ReflowTheorems.ReflowKeepsFittingText` and `ReflowTheorems.ReflowWithoutRuns` |
| TextReflow.GroupMatches | src/pystring_reflow/__init__.py:90-95 | the grouping loop builds the groups of the specification `Grouped` |
| TextReflow.ClaimGroups | src/pystring_reflow/__init__.py:96-109 | the claiming loop over one style's groups yields the table of the specification `ClaimRuns`, or its error |
| TextReflow.StitchText | src/pystring_reflow/__init__.py:111-118 | the stitching loop yields the stitching function over the sorted keys |
| TextReflow.ReflowText | src/pystring_reflow/__init__.py:84-118 | `reflow_text` yields `Reflow` on every input, including its error |
| ReplacementTable.ClaimListOk | src/pystring_reflow/__init__.py:96-109 | claiming fresh, distinct spans succeeds exactly when every rendering succeeds |
| ReplacementTable.ClaimListHolds | src/pystring_reflow/__init__.py:96-109 | a successful claim adds exactly the spans, keeps every earlier entry, and holds each rendering under its span |
| ReplacementTable.ClaimListErr | src/pystring_reflow/__init__.py:96-109 | a failed claim fails with the error of the first rendering that fails, all renderings before it succeeding |
| ReplacementTable.ClaimRunsIsList | src/pystring_reflow/__init__.py:96-109 | the claiming loop over runs is the claiming loop over their spans and renderings |
| ReplacementTable.ClaimRunsFresh | src/pystring_reflow/__init__.py:96-109 | claiming runs with fresh, distinct spans succeeds exactly when each run renders; it then holds the runs' spans besides the old keys, keeps the old entries and maps each span to its run's rendering; a failure is the first run's failure |
| ReplacementTable.ClaimRunsKeeps | src/pystring_reflow/__init__.py:100-101 | a span already in the table is never overwritten: the first style to claim a span keeps it |
| ReplacementTable.ClaimAllOk | src/pystring_reflow/__init__.py:87-109 | claiming style after style succeeds exactly when every rendering of every remaining style succeeds |
| ReplacementTable.ClaimAllHolds | src/pystring_reflow/__init__.py:87-109 | a successful claim of all styles has exactly every style's spans as keys, each holding its rendering |
| ReplacementTable.ClaimAllErr | src/pystring_reflow/__init__.py:87-109 | a failed claim fails with the error of some rendering of a remaining style |
| ReplacementTable.ClaimStylesIsAll | src/pystring_reflow/__init__.py:87-109 | the loop over the catalog is the claiming of each style's spans and renderings in turn |
| ReplacementTable.DistinctRunsDistinctKeys | src/pystring_reflow/__init__.py:96-100 | two distinct runs have distinct keys |
| ReplacementTable.StyleKeysFresh | src/pystring_reflow/__init__.py:100-101 | the runs of a style have distinct keys, none of them claimed by an earlier style, so the `continue` never fires |
| ReplacementTable.ReplacementsSpec | src/pystring_reflow/__init__.py:85-109 | the replacement dictionary exists exactly when every run of every style renders; its keys are then exactly the spans of all runs, each mapped to its run's rendering; otherwise the error is that of some run |
| Rendering.JoinLinesRoundTrip | src/pystring_reflow/__init__.py:106-108 | splitting the `"\n"`-join of newline-free lines at its newlines gives back the lines |
| Rendering.DecoratedLine | src/pystring_reflow/__init__.py:107 | a line indent + open + segment + close matches the style again with that indentation and body, and strips back to the segment |
| Rendering.RenderedRunShape | src/pystring_reflow/__init__.py:102-108 | a run's replacement is the `"\n"`-join of lines that each match the style with the run's indentation and one segment as body; the segments join back to the run's bodies, the replacement splits back into these lines, and a line fits the columns exactly when its segment fits the effective width |
| Rendering.RenderFittingLine | src/pystring_reflow/__init__.py:102-108 | a one-line run whose body fits is re-rendered as the very same line |
| Stitching.StitchIdentity | src/pystring_reflow/__init__.py:111-118 | stitching spans whose replacements are their own text gives the text back |
| Stitching.StitchPrefix | src/pystring_reflow/__init__.py:117 | text after the last span is copied through unchanged |
| Stitching.StitchLast | src/pystring_reflow/__init__.py:111-118 | replacing the last span first leaves the stitching of the others unchanged |
| Stitching.StitchIsReplaceAll | src/pystring_reflow/__init__.py:111-118 | over chained spans the stitching loop equals replacing each span by its rendering, text outside the spans copied in order |
| Stitching.SortedApartChained | src/pystring_reflow/__init__.py:113 | sorted keys of spans that lie apart within the text are chained, each ending no later than the next starts |
| ReflowTheorems.RunWithin | src/pystring_reflow/__init__.py:97-99 | a run's span lies within the text |
| ReflowTheorems.TableChained | src/pystring_reflow/__init__.py:109-113 | the sorted keys of the replacement table are chained spans within the text |
| ReflowTheorems.ReflowReplacesRuns | src/pystring_reflow/__init__.py:84-118 | `reflow_text` succeeds exactly when every run renders; its output is then the text with each run's span replaced by its rendering; otherwise its error is that of some run |
| ReflowTheorems.ReflowKeepsFittingText | src/pystring_reflow/__init__.py:84-118 | when every run is one line that already fits, the output is the input |
| ReflowTheorems.ReflowWithoutRuns | src/pystring_reflow/__init__.py:111-118 | a text in which no line matches any style comes back unchanged |
| Examples.InterpolationBreaks | tests/test_pystring_reflow.py:30-40 | an interpolation with spaces inside is one token: the f-string `a {b c} d` breaks only at 0, 2 and 8 |
| Examples.EqualsBraceNotInterpolation | src/pystring_reflow/__init__.py:23 | `{a}=} b` is no interpolation at 0, because of the lookahead; its first token is the whole word |
| Examples.BraceAfterInterpolationBreaks | src/pystring_reflow/__init__.py:22-24 | `{x}}` gives [0, 3]: a `}` right after an interpolation starts a token of its own |
| Examples.AdjacentInterpolationsBreaks | src/pystring_reflow/__init__.py:22-24 | `{a}{b c}` gives [0, 3]: an interpolation right after another one is a token of its own and stays whole |
| Examples.DoubledBracesBreak | tests/test_pystring_reflow.py:66-75 | doubled braces stay with their words, and a word between them starts a break |
| Examples.InterpolationAfterWordBreaks | src/pystring_reflow/__init__.py:22-24 | in the f-string `ab{c d}` the tokens start at 0 and 5, the second inside the braces |
| Examples.InterpolationAfterWordSplits | src/pystring_reflow/__init__.py:41-47 | `ab{c d}` holds an interpolation at 2..7, yet its break points are 0 and 5, and `split_into_lines` with width 8 cuts it into `ab{c ` and `d}`, against the promise of lines 41-42 |
| Examples.InterpolationPack | src/pystring_reflow/__init__.py:48-67 | the packing loop of that example takes the break at 5 and then the fitting rest |
| Examples.WordSeparatorBreaks | src/pystring_reflow/__init__.py:47 | a plain string breaks after each whitespace run, whatever its length |
| Examples.PlainBreaksExample | src/pystring_reflow/__init__.py:47 | the plain break indices of two concrete texts |
| Examples.PackExample | src/pystring_reflow/__init__.py:48-67 | the packer fills the first line up to the last break that fits |
| Examples.SplitExample | src/pystring_reflow/__init__.py:35-68 | `split_into_lines("aa bb cc", 7, "", '"')` gives `["aa ", "bb cc"]` |
| Examples.SplitRaises | src/pystring_reflow/__init__.py:61-64 | a last word longer than the width, with no break after it, makes `split_into_lines` fail |
| Examples.TripleQuoteMatches | tests/test_pystring_reflow.py:54-65 | a bare `"""` line matches the plain double-quoted style with body `"` and no f-string style |
| Examples.TrailingCloseStaysInBody | src/pystring_reflow/__init__.py:88 | with extra closing quotes, `(close)+` takes only the last one and the rest stays in the body |

## Left out

- `src/pystring_reflow/__main__.py` is not part of this model. It is argument parsing, file reading, printing and diff output around `reflow_text`.
- BreakPoints.InterpolationIsAtomic: protects only an interpolation that starts a token, because that is all the code does. The comment at lines 41-42 promises that no interpolation is ever split, and `ab{c d}` shows that the code does not keep this promise (`Examples.InterpolationAfterWordSplits`).
- General Python regular-expression semantics are not modelled. Each pattern is an explicit scanner of what `finditer` finds with it. `wordsep_simple_re` is taken as the whitespace-run pattern it is in the standard library.
- Idempotence of `reflow_text` is not claimed, and neither is "never raises". The code promises neither, and the uncaught `ValueError` at line 64 contradicts the second.
- The text of the exception messages is not modelled. Errors carry their kind and, for `min()`, the cursor.
- Unused imports and the test harness are left out. Some of the test data appears as concrete examples.
- The end-to-end expected outputs of the five test cases are not proved, only the behaviour they exercise. Each case is a string of 80 or more characters, too large to evaluate cheaply in the verifier.
- TextReflow.ReflowText: the dictionary `replacements` is a value of type `map`, reassigned by the loop, not an object updated in place. Nothing else holds a reference to it, so no aliasing is lost.
- Python's `str` is modelled as a sequence of characters. No Unicode normalisation or encoding is involved.
