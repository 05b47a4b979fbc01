/** The module-level palette `akColours` (app.js:29) with the two operations
    that touch it: loadPalette replaces it (app.js:510-545) and
    findClosestMatches reads it (app.js:406-417). */
module Matcher {
  import opened Wrappers
  import opened HexColour
  import opened Palette
  import opened Ranking

  class ColourMatcher {
    /** rgbToLab and deltaE2000: fixed for the page's lifetime, not modelled. */
    const toLab: Rgb -> Lab
    const deltaE: (Lab, Lab) -> real

    /** akColours. */
    var colours: seq<Colour>

    /** Every palette entry is well formed. */
    ghost predicate Valid()
      reads this
    {
      forall i :: 0 <= i < |colours| ==> WellFormed(colours[i], toLab)
    }

    /** The page starts with an empty palette (`let akColours = []`). */
    constructor (toLab: Rgb -> Lab, deltaE: (Lab, Lab) -> real)
      ensures this.toLab == toLab && this.deltaE == deltaE
      ensures colours == []
      ensures Valid()
    {
      this.toLab := toLab;
      this.deltaE := deltaE;
      colours := [];
    }

    /** loadPalette after the fetch: `fetched` is None when the request, the
        HTTP status or the JSON decoding fails. A null element makes the
        filter throw before akColours is assigned. Otherwise akColours is
        replaced by the survivors, and only then is an empty palette
        reported as an error; on success the result is the number of
        shades loaded. */
    method Load(fetched: Option<seq<RawColour>>) returns (r: Result<nat, LoadError>)
      requires Valid()
      modifies this
      ensures Valid()
      ensures fetched.None? ==> r == Err(FetchFailed) && colours == old(colours)
      ensures fetched.Some? && Nullish in fetched.value ==> r == Err(EntryIsNull) && colours == old(colours)
      ensures fetched.Some? && Nullish !in fetched.value ==>
        && colours == Survivors(fetched.value, toLab)
        && r == (if colours == [] then Err(NoValidColours) else Ok(|colours|))
    {
      if fetched.None? {
        return Err(FetchFailed);
      }
      var built := BuildPalette(fetched.value, toLab);
      if built.Err? {
        return Err(built.error);
      }
      colours := built.value;
      SurvivorsWellFormed(fetched.value, toLab);
      if |colours| == 0 {
        return Err(NoValidColours);
      }
      return Ok(|colours|);
    }

    /** findClosestMatches(query, limit) on the current palette: the matches
        are palette entries at their distance from the query, sorted, and
        cut to the limit; the palette is left as it was. */
    method Rank(query: string, limit: int) returns (matches: seq<Match>)
      requires Valid()
      ensures matches == ClosestMatches(colours, query, limit, toLab, deltaE)
      ensures Sorted(matches)
      ensures HexToRgb(query).None? ==> matches == []
      ensures forall i :: 0 <= i < |matches| ==> matches[i].colour in colours && WellFormed(matches[i].colour, toLab)
    {
      matches := ClosestMatches(colours, query, limit, toLab, deltaE);
      forall i | 0 <= i < |matches|
        ensures matches[i].colour in colours && WellFormed(matches[i].colour, toLab)
      {
        MatchesArePaletteEntries(colours, query, limit, toLab, deltaE, i);
      }
    }
  }
}
