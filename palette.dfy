/** Palette building: the filter / map / filter pipeline with which
    loadPalette turns the decoded JSON array into akColours (app.js:519-536). */
module Palette {
  import opened Wrappers
  import opened JsText
  import opened HexColour

  /** CIE L*a*b* coordinates as rgbToLab returns them. rgbToLab itself is a
      parameter (`toLab`) wherever it is needed: its value is not modelled. */
  datatype Lab = Lab(l: real, a: real, b: real)

  /** The record's other properties (Id, Name, Type, Layer, Shade, Highlight,
      Url), which the object spread carries through unchanged. */
  type Fields = map<string, string>

  /** A property of a JSON record as far as `typeof x === "string"` tells. */
  datatype Property = Text(s: string) | NotText

  /** One element of the decoded JSON array. Reading `.Value` of null throws a
      TypeError; a number, string or boolean element has no own Value and so
      behaves as a Record whose value is NotText. */
  datatype RawColour = Nullish | Record(value: Property, fields: Fields)

  /** A palette entry: the record with Value upper-cased and rgb, lab added. */
  datatype Colour = Colour(fields: Fields, value: string, rgb: Rgb, lab: Lab)

  /** Why loadPalette reports failure. FetchFailed stands for a network error,
      an HTTP status that is not ok, or a body that is not a JSON array. */
  datatype LoadError = FetchFailed | EntryIsNull | NoValidColours

  /** What every entry of akColours satisfies: Value is upper-case and
      accepted by hexToRgb, rgb is what hexToRgb makes of it, and lab is
      rgbToLab of rgb. */
  predicate WellFormed(c: Colour, toLab: Rgb -> Lab) {
    && UpperAscii(c.value) == c.value
    && HexToRgb(c.value) == Some(c.rgb)
    && c.lab == toLab(c.rgb)
  }

  /** The record survives both filters: Value is a string and hexToRgb
      accepts it once upper-cased (`colour.rgb && colour.lab` is then true,
      since lab is an object). */
  predicate Accepted(e: RawColour) {
    e.Record? && e.value.Text? && HexToRgb(UpperAscii(e.value.s)).Some?
  }

  /** The .map step for a surviving record (app.js:521-531). */
  function Normalise(e: RawColour, toLab: Rgb -> Lab): Colour
    requires Accepted(e)
  {
    var normalized := UpperAscii(e.value.s);
    var rgb := HexToRgb(normalized).value;
    Colour(e.fields, normalized, rgb, toLab(rgb))
  }

  /** A normalised record keeps its other properties, has its Value
      upper-cased, and is well formed. */
  lemma NormaliseWellFormed(e: RawColour, toLab: Rgb -> Lab)
    requires Accepted(e)
    ensures var c := Normalise(e, toLab);
      c.fields == e.fields && c.value == UpperAscii(e.value.s) && WellFormed(c, toLab)
  {
    UpperAsciiIdempotent(e.value.s);
  }

  /** What the pipeline makes of one record: its normalised form if both
      filters let it through, nothing otherwise. */
  function Keep(e: RawColour, toLab: Rgb -> Lab): (r: seq<Colour>)
    ensures |r| <= 1
  {
    if Accepted(e) then [Normalise(e, toLab)] else []
  }

  /** Each element's results, concatenated in order. */
  function FlatMap<A, B>(xs: seq<A>, f: A -> seq<B>): seq<B> {
    if xs == [] then [] else f(xs[0]) + FlatMap(xs[1..], f)
  }

  /** The two filters and the map of app.js:519-532 on an array without null
      elements: the accepted records, normalised, never more than the input. */
  function Survivors(raw: seq<RawColour>, toLab: Rgb -> Lab): (r: seq<Colour>)
    ensures |r| <= |raw|
  {
    if raw == [] then [] else Keep(raw[0], toLab) + Survivors(raw[1..], toLab)
  }

  /** The whole pipeline: a null element makes it throw; otherwise it yields
      the survivors, possibly none (the emptiness check comes after the
      assignment to akColours, see Matcher.ColourMatcher.Load). */
  function BuildPalette(raw: seq<RawColour>, toLab: Rgb -> Lab): (r: Result<seq<Colour>, LoadError>)
    ensures r.Err? <==> Nullish in raw
    ensures r.Err? ==> r.error == EntryIsNull
  {
    if Nullish in raw then Err(EntryIsNull) else Ok(Survivors(raw, toLab))
  }

  /** Every entry of a built palette is well formed. */
  lemma {:induction false} SurvivorsWellFormed(raw: seq<RawColour>, toLab: Rgb -> Lab)
    ensures forall i :: 0 <= i < |Survivors(raw, toLab)| ==> WellFormed(Survivors(raw, toLab)[i], toLab)
  {
    if raw != [] {
      SurvivorsWellFormed(raw[1..], toLab);
      if Accepted(raw[0]) {
        NormaliseWellFormed(raw[0], toLab);
      }
    }
  }

  /** Survivors is the pipeline's per-record step mapped over the array. */
  lemma {:induction false} SurvivorsIsFlatMap(raw: seq<RawColour>, toLab: Rgb -> Lab)
    ensures Survivors(raw, toLab) == FlatMap(raw, e => Keep(e, toLab))
  {
    if raw != [] {
      SurvivorsIsFlatMap(raw[1..], toLab);
    }
  }

  /** FlatMap distributes over concatenation. */
  lemma {:induction false} FlatMapAppend<A, B>(a: seq<A>, b: seq<A>, f: A -> seq<B>)
    ensures FlatMap(a + b, f) == FlatMap(a, f) + FlatMap(b, f)
  {
    if a == [] {
      assert a + b == b;
    } else {
      assert (a + b)[0] == a[0];
      assert (a + b)[1..] == a[1..] + b;
      FlatMapAppend(a[1..], b, f);
    }
  }

  /** Building keeps input order: the survivors of a concatenation are the
      survivors of the first part followed by those of the second. */
  lemma SurvivorsAppend(a: seq<RawColour>, b: seq<RawColour>, toLab: Rgb -> Lab)
    ensures Survivors(a + b, toLab) == Survivors(a, toLab) + Survivors(b, toLab)
  {
    SurvivorsIsFlatMap(a + b, toLab);
    SurvivorsIsFlatMap(a, toLab);
    SurvivorsIsFlatMap(b, toLab);
    FlatMapAppend(a, b, e => Keep(e, toLab));
  }

  /** An entry is in the palette exactly when it is the normalised form of
      some accepted record of the input. */
  lemma {:induction false} SurvivorsMembership(raw: seq<RawColour>, toLab: Rgb -> Lab, c: Colour)
    ensures c in Survivors(raw, toLab) <==>
      exists i :: 0 <= i < |raw| && Accepted(raw[i]) && Normalise(raw[i], toLab) == c
  {
    if raw != [] {
      SurvivorsMembership(raw[1..], toLab, c);
      if c in Survivors(raw[1..], toLab) {
        var i :| 0 <= i < |raw[1..]| && Accepted(raw[1..][i]) && Normalise(raw[1..][i], toLab) == c;
        assert raw[i + 1] == raw[1..][i];
      }
      if exists i :: 0 <= i < |raw| && Accepted(raw[i]) && Normalise(raw[i], toLab) == c {
        var i :| 0 <= i < |raw| && Accepted(raw[i]) && Normalise(raw[i], toLab) == c;
        if i > 0 {
          assert raw[1..][i - 1] == raw[i];
        }
      }
    }
  }

  /** FlatMap yields nothing exactly when every element yields nothing. */
  lemma {:induction false} FlatMapEmpty<A, B>(xs: seq<A>, f: A -> seq<B>)
    ensures FlatMap(xs, f) == [] <==> forall i :: 0 <= i < |xs| ==> f(xs[i]) == []
  {
    if xs != [] {
      FlatMapEmpty(xs[1..], f);
      assert forall i :: 1 <= i < |xs| ==> xs[i] == xs[1..][i - 1];
    }
  }

  /** Nothing survives exactly when no record is accepted: the case in which
      loadPalette reports "No valid colours were loaded.". */
  lemma SurvivorsEmpty(raw: seq<RawColour>, toLab: Rgb -> Lab)
    ensures Survivors(raw, toLab) == [] <==> forall i :: 0 <= i < |raw| ==> !Accepted(raw[i])
  {
    SurvivorsIsFlatMap(raw, toLab);
    FlatMapEmpty(raw, e => Keep(e, toLab));
  }

  /** The records a palette would be read back as. */
  function AsRecords(cs: seq<Colour>): (raw: seq<RawColour>)
    ensures |raw| == |cs|
  {
    if cs == [] then [] else [Record(Text(cs[0].value), cs[0].fields)] + AsRecords(cs[1..])
  }

  /** A well-formed entry read back as a record is accepted and normalised to
      itself. */
  lemma RebuildOne(c: Colour, toLab: Rgb -> Lab)
    requires WellFormed(c, toLab)
    ensures Accepted(Record(Text(c.value), c.fields))
    ensures Normalise(Record(Text(c.value), c.fields), toLab) == c
  {
  }

  /** Building is idempotent: rebuilding a palette from its own entries gives
      the same palette. */
  lemma {:induction false} RebuildIsIdentity(cs: seq<Colour>, toLab: Rgb -> Lab)
    requires forall i :: 0 <= i < |cs| ==> WellFormed(cs[i], toLab)
    ensures Survivors(AsRecords(cs), toLab) == cs
  {
    if cs != [] {
      var raw := AsRecords(cs);
      RebuildOne(cs[0], toLab);
      assert raw[1..] == AsRecords(cs[1..]);
      RebuildIsIdentity(cs[1..], toLab);
      assert cs == [cs[0]] + cs[1..];
    }
  }
}
