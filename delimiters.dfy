/** The delimiter catalog: quoting styles as (open marker, close marker) pairs. */
module Delimiters {
  import opened Results

  datatype DelimiterPair = DelimiterPair(open: string, close: string)

  /** The catalog, in the order the styles are tried: interpolated styles first. */
  const Catalog: seq<DelimiterPair> := [
    DelimiterPair("f\"", "\""),
    DelimiterPair("f'", "'"),
    DelimiterPair("\"", "\""),
    DelimiterPair("'", "'")
  ]

  /** Python's `str.startswith`. */
  predicate StartsWith(s: string, prefix: string) {
    |prefix| <= |s| && s[..|prefix|] == prefix
  }

  /** Python's `str.endswith`. */
  predicate EndsWith(s: string, suffix: string) {
    |suffix| <= |s| && s[|s| - |suffix|..] == suffix
  }

  /** An f-string style: its open marker starts with `f`. */
  predicate IsInterpolated(d: DelimiterPair) {
    StartsWith(d.open, "f")
  }

  /** What every style of the catalog satisfies: non-empty markers without newlines,
      and an open marker that does not start with a space. */
  predicate WellFormed(d: DelimiterPair) {
    && |d.open| > 0 && |d.close| > 0
    && d.open[0] != ' '
    && '\n' !in d.open && '\n' !in d.close
  }

  lemma CatalogWellFormed()
    ensures forall d :: d in Catalog ==> WellFormed(d)
    ensures IsInterpolated(Catalog[0]) && IsInterpolated(Catalog[1])
    ensures !IsInterpolated(Catalog[2]) && !IsInterpolated(Catalog[3])
  {
    assert Catalog[2].open[..1] == "\"" && Catalog[3].open[..1] == "'";
  }

  /** strip_delimiters. Python's slice `text[len(open) : -(len(close))]` ends at
      index 0 when the close marker is empty (since `-0 == 0`), and is empty when
      the markers overlap. */
  function StripDelimiters(text: string, d: DelimiterPair): (r: Result<string>)
    ensures r.Ok? <==> StartsWith(text, d.open) && EndsWith(text, d.close)
    ensures r.Err? ==> r.error == DelimiterMismatch
    ensures r.Ok? && |d.close| > 0 && |d.open| + |d.close| <= |text| ==>
              text == d.open + r.value + d.close
    ensures r.Ok? && |d.close| == 0 ==> r.value == ""
    ensures r.Ok? && |d.open| + |d.close| > |text| ==> r.value == ""
  {
    if StartsWith(text, d.open) && EndsWith(text, d.close) then
      var stop := if |d.close| == 0 then 0 else |text| - |d.close|;
      Ok(if |d.open| <= stop then text[|d.open|..stop] else "")
    else
      Err(DelimiterMismatch)
  }

  /** Stripping the markers off a rendered literal gives back its body. */
  lemma StripRoundTrip(s: string, d: DelimiterPair)
    requires |d.close| > 0
    ensures StripDelimiters(d.open + s + d.close, d) == Ok(s)
  {
  }

  /** is_compatible_delimiter: two open markers are compatible iff they are equal. */
  predicate IsCompatibleDelimiter(openA: string, openB: string) {
    openA == openB
  }
}
