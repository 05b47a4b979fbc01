/** Ranking: findClosestMatches (app.js:406-417). Every palette entry is
    paired with its distance to the query, the pairs are sorted by ascending
    distance with a stable sort, and the first `limit` are kept. The distance
    (deltaE2000) and the Lab conversion (rgbToLab) are parameters. */
module Ranking {
  import opened Wrappers
  import opened HexColour
  import opened Palette

  /** A palette entry spread into a new object with its `distance` added. */
  datatype Match = Match(colour: Colour, distance: real)

  /** hexToLab (app.js:212-215): no value exactly when sanitizeHex refuses
      the text, otherwise rgbToLab of the channels of its sanitised form. */
  function HexToLab(hex: string, toLab: Rgb -> Lab): (lab: Option<Lab>)
    ensures lab.Some? <==> SanitizeHex(hex).Some?
    ensures lab.Some? ==> lab.value == toLab(Channels(SanitizeHex(hex).value))
  {
    var rgb := HexToRgb(hex);
    if rgb.Some? then Some(toLab(rgb.value)) else None
  }

  /** The .map step (app.js:411-414): each entry with its distance from the
      query's Lab value. */
  function WithDistances(colours: seq<Colour>, target: Lab, deltaE: (Lab, Lab) -> real): (ms: seq<Match>)
    ensures |ms| == |colours|
  {
    if colours == [] then []
    else [Match(colours[0], deltaE(target, colours[0].lab))] + WithDistances(colours[1..], target, deltaE)
  }

  /** Non-decreasing distance. */
  predicate Sorted(s: seq<Match>) {
    forall i, j :: 0 <= i < j < |s| ==> s[i].distance <= s[j].distance
  }

  /** The matches at distance `d`, in the order they appear in `s`. */
  function AtDistance(s: seq<Match>, d: real): seq<Match> {
    if s == [] then []
    else (if s[0].distance == d then [s[0]] else []) + AtDistance(s[1..], d)
  }

  /** Inserts `m` before the first match that is not closer than it. */
  function Insert(m: Match, s: seq<Match>): seq<Match> {
    if s == [] || m.distance <= s[0].distance then [m] + s
    else [s[0]] + Insert(m, s[1..])
  }

  /** The stable sort of `.sort((a, b) => a.distance - b.distance)`, written
      as an insertion sort. */
  function SortByDistance(s: seq<Match>): seq<Match> {
    if s == [] then [] else Insert(s[0], SortByDistance(s[1..]))
  }

  /** Insertion adds `m` and loses nothing. */
  lemma {:induction false} InsertPermutes(m: Match, s: seq<Match>)
    ensures multiset(Insert(m, s)) == multiset(s) + multiset{m}
  {
    if s != [] && m.distance > s[0].distance {
      InsertPermutes(m, s[1..]);
      assert s == [s[0]] + s[1..];
    }
  }

  /** Insertion into a sorted sequence keeps it sorted, and the first match
      is either `m` or the old first match. */
  lemma {:induction false} InsertSorted(m: Match, s: seq<Match>)
    requires Sorted(s)
    ensures Sorted(Insert(m, s))
    ensures |Insert(m, s)| == |s| + 1
    ensures Insert(m, s)[0] == m || (s != [] && Insert(m, s)[0] == s[0])
  {
    if s != [] && m.distance > s[0].distance {
      var t := Insert(m, s[1..]);
      InsertSorted(m, s[1..]);
      var r := [s[0]] + t;
      forall i, j | 0 <= i < j < |r| ensures r[i].distance <= r[j].distance {
        if i == 0 {
          assert r[j] == t[j - 1];
          if t[0] == m {
            if j - 1 > 0 { assert t[0].distance <= t[j - 1].distance; }
          } else {
            assert t[0].distance <= t[j - 1].distance;
          }
        }
      }
    }
  }

  /** The sort returns its input in non-decreasing distance. */
  lemma {:induction false} SortIsSortedPermutation(s: seq<Match>)
    ensures Sorted(SortByDistance(s))
    ensures multiset(SortByDistance(s)) == multiset(s)
    ensures |SortByDistance(s)| == |s|
  {
    if s != [] {
      SortIsSortedPermutation(s[1..]);
      InsertSorted(s[0], SortByDistance(s[1..]));
      InsertPermutes(s[0], SortByDistance(s[1..]));
      assert s == [s[0]] + s[1..];
    }
  }

  lemma AtDistanceCons(m: Match, s: seq<Match>, d: real)
    ensures AtDistance([m] + s, d) == (if m.distance == d then [m] else []) + AtDistance(s, d)
  {
    assert ([m] + s)[1..] == s;
  }

  /** Inserting `m` in front of the matches not closer than it puts it ahead
      of every match at its own distance. */
  lemma {:induction false} InsertStable(m: Match, s: seq<Match>, d: real)
    ensures AtDistance(Insert(m, s), d) == AtDistance([m] + s, d)
  {
    if s != [] && m.distance > s[0].distance {
      var t := s[1..];
      assert s == [s[0]] + t;
      assert Insert(m, s) == [s[0]] + Insert(m, t);
      InsertStable(m, t, d);
      AtDistanceCons(s[0], Insert(m, t), d);
      AtDistanceCons(m, t, d);
      AtDistanceCons(m, s, d);
      AtDistanceCons(s[0], t, d);
      if s[0].distance == d {
        assert AtDistance(Insert(m, s), d) == [s[0]] + AtDistance(t, d);
      } else {
        assert AtDistance(Insert(m, s), d) == AtDistance([m] + t, d);
      }
    }
  }

  /** The sort is stable: for every distance, the matches at that distance
      come out in the order they went in. */
  lemma {:induction false} SortIsStable(s: seq<Match>, d: real)
    ensures AtDistance(SortByDistance(s), d) == AtDistance(s, d)
  {
    if s != [] {
      SortIsStable(s[1..], d);
      InsertStable(s[0], SortByDistance(s[1..]), d);
      AtDistanceCons(s[0], SortByDistance(s[1..]), d);
      AtDistanceCons(s[0], s[1..], d);
      assert s == [s[0]] + s[1..];
    }
  }

  /** The head of a sorted sequence is at least as close as any member. */
  lemma SortedHeadIsClosest(a: seq<Match>, x: Match)
    requires Sorted(a) && x in multiset(a)
    ensures a[0].distance <= x.distance
  {
    var k :| 0 <= k < |a| && a[k] == x;
  }

  /** Dropping the same first match from two sequences keeps their
      subsequences at distance `d` equal. */
  lemma AtDistanceTail(a: seq<Match>, b: seq<Match>, d: real)
    requires a != [] && b != [] && a[0] == b[0]
    requires AtDistance(a, d) == AtDistance(b, d)
    ensures AtDistance(a[1..], d) == AtDistance(b[1..], d)
  {
    var h := if a[0].distance == d then [a[0]] else [];
    assert AtDistance(a, d) == h + AtDistance(a[1..], d);
    assert AtDistance(b, d) == h + AtDistance(b[1..], d);
    assert AtDistance(a[1..], d) == AtDistance(a, d)[|h|..];
    assert AtDistance(b[1..], d) == AtDistance(b, d)[|h|..];
  }

  /** Two sorted permutations of each other that agree at every distance
      start with the same match. */
  lemma SameHead(a: seq<Match>, b: seq<Match>)
    requires a != [] && b != []
    requires Sorted(a) && Sorted(b) && multiset(a) == multiset(b)
    requires forall d :: AtDistance(a, d) == AtDistance(b, d)
    ensures a[0] == b[0]
  {
    assert a[0] in multiset(a) && b[0] in multiset(b);
    SortedHeadIsClosest(a, b[0]);
    SortedHeadIsClosest(b, a[0]);
    var d0 := a[0].distance;
    assert AtDistance(a, d0) == [a[0]] + AtDistance(a[1..], d0);
    assert AtDistance(b, d0) == [b[0]] + AtDistance(b[1..], d0);
    assert a[0] == AtDistance(a, d0)[0] == AtDistance(b, d0)[0] == b[0];
  }

  /** Removing the same first element keeps two multisets equal. */
  lemma SameTailMultiset(a: seq<Match>, b: seq<Match>)
    requires a != [] && b != [] && a[0] == b[0] && multiset(a) == multiset(b)
    ensures multiset(a[1..]) == multiset(b[1..])
  {
    assert a == [a[0]] + a[1..] && b == [b[0]] + b[1..];
    assert multiset(a) == multiset{a[0]} + multiset(a[1..]);
    assert multiset(b) == multiset{b[0]} + multiset(b[1..]);
    assert multiset(a[1..]) == multiset(a) - multiset{a[0]};
    assert multiset(b[1..]) == multiset(b) - multiset{b[0]};
  }

  /** A sorted permutation that keeps every distance's matches in order is
      unique: whatever stable sort the JavaScript engine uses, it returns
      what SortByDistance returns. */
  lemma {:induction false} StableSortUnique(a: seq<Match>, b: seq<Match>)
    requires Sorted(a) && Sorted(b) && multiset(a) == multiset(b)
    requires forall d :: AtDistance(a, d) == AtDistance(b, d)
    ensures a == b
  {
    assert |a| == |multiset(a)| == |multiset(b)| == |b|;
    if a != [] {
      SameHead(a, b);
      SameTailMultiset(a, b);
      forall d ensures AtDistance(a[1..], d) == AtDistance(b[1..], d) {
        AtDistanceTail(a, b, d);
      }
      StableSortUnique(a[1..], b[1..]);
      assert a == [a[0]] + a[1..] && b == [b[0]] + b[1..];
    }
  }

  /** Any stable sort of `s` by distance is SortByDistance(s). */
  lemma StableSortIsInsertionSort(s: seq<Match>, t: seq<Match>)
    requires Sorted(t) && multiset(t) == multiset(s)
    requires forall d :: AtDistance(t, d) == AtDistance(s, d)
    ensures t == SortByDistance(s)
  {
    SortIsSortedPermutation(s);
    forall d ensures AtDistance(t, d) == AtDistance(SortByDistance(s), d) {
      SortIsStable(s, d);
    }
    StableSortUnique(t, SortByDistance(s));
  }

  /** The end index Array.prototype.slice(0, limit) uses on n elements: a
      non-negative limit keeps at most `limit` elements, and all of them
      when there are fewer; a negative limit drops the last -limit
      elements, or all of them when there are fewer. */
  function SliceEnd(n: nat, limit: int): (k: nat)
    ensures k <= n
    ensures limit >= 0 ==> k <= limit && (k == limit || k == n)
    ensures limit < 0 ==> n - k <= -limit && (n - k == -limit || k == 0)
  {
    if limit < 0 then (if n + limit < 0 then 0 else n + limit)
    else if limit < n then limit else n
  }

  /** findClosestMatches (app.js:406-417): empty for a query hexToRgb
      refuses; otherwise the sorted matches cut to `limit`, so min(limit, n)
      of them for a non-negative limit, in non-decreasing distance. */
  function ClosestMatches(colours: seq<Colour>, query: string, limit: int,
                          toLab: Rgb -> Lab, deltaE: (Lab, Lab) -> real): (r: seq<Match>)
    ensures HexToRgb(query).None? ==> r == []
    ensures HexToRgb(query).Some? && limit >= 0 ==> |r| == if limit < |colours| then limit else |colours|
    ensures HexToRgb(query).Some? && limit < 0 ==> |r| == if |colours| + limit < 0 then 0 else |colours| + limit
    ensures Sorted(r)
  {
    match HexToLab(query, toLab)
    case None => []
    case Some(target) =>
      var ranked := SortByDistance(WithDistances(colours, target, deltaE));
      SortIsSortedPermutation(WithDistances(colours, target, deltaE));
      ranked[..SliceEnd(|ranked|, limit)]
  }

  /** The ranking ClosestMatches cuts, for a query hexToRgb accepts. */
  function Ranked(colours: seq<Colour>, query: string, toLab: Rgb -> Lab, deltaE: (Lab, Lab) -> real): seq<Match>
    requires HexToRgb(query).Some?
  {
    SortByDistance(WithDistances(colours, toLab(HexToRgb(query).value), deltaE))
  }

  lemma ClosestIsPrefix(colours: seq<Colour>, query: string, limit: int,
                        toLab: Rgb -> Lab, deltaE: (Lab, Lab) -> real)
    requires HexToRgb(query).Some?
    ensures var r, s := ClosestMatches(colours, query, limit, toLab, deltaE), Ranked(colours, query, toLab, deltaE);
      |r| <= |s| && r == s[..|r|]
  {
  }

  /** Every match returned is a palette entry paired with its own distance
      from the query. */
  lemma MatchesArePaletteEntries(colours: seq<Colour>, query: string, limit: int,
                                 toLab: Rgb -> Lab, deltaE: (Lab, Lab) -> real, i: nat)
    requires i < |ClosestMatches(colours, query, limit, toLab, deltaE)|
    ensures var m, target := ClosestMatches(colours, query, limit, toLab, deltaE)[i], toLab(HexToRgb(query).value);
      m.colour in colours && m.distance == deltaE(target, m.colour.lab)
  {
    var target := toLab(HexToRgb(query).value);
    var ms := WithDistances(colours, target, deltaE);
    var s := Ranked(colours, query, toLab, deltaE);
    ClosestIsPrefix(colours, query, limit, toLab, deltaE);
    SortIsSortedPermutation(ms);
    assert s[i] in multiset(s);
    var j :| 0 <= j < |ms| && ms[j] == s[i];
    WithDistancesAt(colours, target, deltaE, j);
  }

  /** The `j`th pair of the map step. */
  lemma {:induction false} WithDistancesAt(colours: seq<Colour>, target: Lab, deltaE: (Lab, Lab) -> real, j: nat)
    requires j < |colours|
    ensures WithDistances(colours, target, deltaE)[j] == Match(colours[j], deltaE(target, colours[j].lab))
  {
    if j > 0 {
      WithDistancesAt(colours[1..], target, deltaE, j - 1);
    }
  }

  /** The match WithDistances builds for a palette entry lies in the
      ranking at some position. */
  lemma EntryIsRanked(colours: seq<Colour>, target: Lab, deltaE: (Lab, Lab) -> real, c: Colour)
    requires c in colours
    ensures var s := SortByDistance(WithDistances(colours, target, deltaE));
      exists j :: 0 <= j < |s| && s[j] == Match(c, deltaE(target, c.lab))
  {
    var ms := WithDistances(colours, target, deltaE);
    var i :| 0 <= i < |colours| && colours[i] == c;
    WithDistancesAt(colours, target, deltaE, i);
    assert ms[i] in multiset(ms);
    SortIsSortedPermutation(ms);
    var s := SortByDistance(ms);
    assert ms[i] in multiset(s);
    var j :| 0 <= j < |s| && s[j] == ms[i];
  }

  /** Top-k: a palette entry left out of the result is no closer to the
      query than any match that was kept. */
  lemma OmittedAreNotCloser(colours: seq<Colour>, query: string, limit: int,
                            toLab: Rgb -> Lab, deltaE: (Lab, Lab) -> real, c: Colour, i: nat)
    requires HexToRgb(query).Some? && c in colours
    requires i < |ClosestMatches(colours, query, limit, toLab, deltaE)|
    ensures var r, m := ClosestMatches(colours, query, limit, toLab, deltaE), Match(c, deltaE(toLab(HexToRgb(query).value), c.lab));
      m in r || r[i].distance <= m.distance
  {
    var target := toLab(HexToRgb(query).value);
    var r := ClosestMatches(colours, query, limit, toLab, deltaE);
    var s := Ranked(colours, query, toLab, deltaE);
    var m := Match(c, deltaE(target, c.lab));
    ClosestIsPrefix(colours, query, limit, toLab, deltaE);
    SortIsSortedPermutation(WithDistances(colours, target, deltaE));
    EntryIsRanked(colours, target, deltaE, c);
    var j :| 0 <= j < |s| && s[j] == m;
    if j < |r| {
      assert r[j] == m;
    } else {
      assert r[i] == s[i];
    }
  }

  /** The first match is the closest palette entry of all. */
  lemma FirstIsClosest(colours: seq<Colour>, query: string, limit: int,
                       toLab: Rgb -> Lab, deltaE: (Lab, Lab) -> real, c: Colour)
    requires HexToRgb(query).Some? && c in colours
    requires ClosestMatches(colours, query, limit, toLab, deltaE) != []
    ensures ClosestMatches(colours, query, limit, toLab, deltaE)[0].distance
            <= deltaE(toLab(HexToRgb(query).value), c.lab)
  {
    var r := ClosestMatches(colours, query, limit, toLab, deltaE);
    var m := Match(c, deltaE(toLab(HexToRgb(query).value), c.lab));
    OmittedAreNotCloser(colours, query, limit, toLab, deltaE, c, 0);
    if m in r {
      var k :| 0 <= k < |r| && r[k] == m;
      assert r[0].distance <= r[k].distance;
    }
  }

  /** A larger limit only appends: the matches for a smaller non-negative
      limit are a prefix of those for a larger one. */
  lemma LimitExtends(colours: seq<Colour>, query: string, l1: int, l2: int,
                     toLab: Rgb -> Lab, deltaE: (Lab, Lab) -> real)
    requires 0 <= l1 <= l2
    ensures var r1, r2 := ClosestMatches(colours, query, l1, toLab, deltaE), ClosestMatches(colours, query, l2, toLab, deltaE);
      |r1| <= |r2| && r1 == r2[..|r1|]
  {
    if HexToRgb(query).Some? {
      ClosestIsPrefix(colours, query, l1, toLab, deltaE);
      ClosestIsPrefix(colours, query, l2, toLab, deltaE);
    }
  }

  /** The matches at distance `d` in a prefix are a prefix of those in the
      whole sequence. */
  lemma {:induction false} AtDistancePrefix(s: seq<Match>, k: nat, d: real)
    requires k <= |s|
    ensures var p, w := AtDistance(s[..k], d), AtDistance(s, d); |p| <= |w| && p == w[..|p|]
  {
    if k > 0 {
      AtDistancePrefix(s[1..], k - 1, d);
      assert s[..k][1..] == s[1..][..k - 1];
    }
  }

  /** Ties keep palette order: the kept matches at any one distance are the
      first matches at that distance in palette order. */
  lemma TiesKeepPaletteOrder(colours: seq<Colour>, query: string, limit: int,
                             toLab: Rgb -> Lab, deltaE: (Lab, Lab) -> real, d: real)
    requires HexToRgb(query).Some?
    ensures var p, w := AtDistance(ClosestMatches(colours, query, limit, toLab, deltaE), d),
                        AtDistance(WithDistances(colours, toLab(HexToRgb(query).value), deltaE), d);
      |p| <= |w| && p == w[..|p|]
  {
    var ms := WithDistances(colours, toLab(HexToRgb(query).value), deltaE);
    var r := ClosestMatches(colours, query, limit, toLab, deltaE);
    ClosestIsPrefix(colours, query, limit, toLab, deltaE);
    SortIsSortedPermutation(ms);
    AtDistancePrefix(SortByDistance(ms), |r|, d);
    SortIsStable(ms, d);
  }

  /** Querying with a palette entry's own Value, for a distance that is
      non-negative and zero between equal colours, ranks an exact match
      first. */
  lemma PaletteValueMatchesExactly(colours: seq<Colour>, limit: int,
                                   toLab: Rgb -> Lab, deltaE: (Lab, Lab) -> real, c: Colour)
    requires c in colours && WellFormed(c, toLab) && limit > 0
    requires forall x, y :: deltaE(x, y) >= 0.0
    requires forall x :: deltaE(x, x) == 0.0
    ensures var r := ClosestMatches(colours, c.value, limit, toLab, deltaE);
      r != [] && r[0].distance == 0.0
  {
    FirstIsClosest(colours, c.value, limit, toLab, deltaE, c);
    var r := ClosestMatches(colours, c.value, limit, toLab, deltaE);
    MatchesArePaletteEntries(colours, c.value, limit, toLab, deltaE, 0);
  }
}
