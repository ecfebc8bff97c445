/**
 The nearest-airport query of `find_nearest_airports` (SafeNSound.py): pair every
 airport with its distance from the origin, stably sort the pairs by distance and
 keep the first `num_airports` of them.

 The geodesic distance is a parameter `dist`: nothing is assumed about it beyond
 being a function of the two coordinates.
 */
module Nearest {
  import opened StableSort

  datatype Coord = Coord(lat: real, lon: real)

  /** One row of the airport dataset, reduced to the fields the query and the display use. */
  datatype Airport = Airport(name: string, iataCode: string, location: Coord)

  /** An `(airport, distance)` pair as the query returns it; the distance is in kilometres. */
  datatype Nearby = Nearby(airport: Airport, km: real)

  type Distance = (Coord, Coord) -> real

  /** The default of `num_airports`, and the number the display asks for. */
  const DefaultNumAirports: int := 5

  function Km(p: Nearby): real
  {
    p.km
  }

  function Min(a: int, b: int): int
  {
    if a <= b then a else b
  }

  function Max(a: int, b: int): int
  {
    if a <= b then b else a
  }

  /** The airports paired with their distance from `origin`, in dataset order. */
  function Measure(origin: Coord, airports: seq<Airport>, dist: Distance): (r: seq<Nearby>)
    ensures |r| == |airports|
    ensures forall i :: 0 <= i < |r| ==> r[i] == Nearby(airports[i], dist(origin, airports[i].location))
  {
    if airports == [] then []
    else [Nearby(airports[0], dist(origin, airports[0].location))] + Measure(origin, airports[1..], dist)
  }

  /**
   Python's `s[:n]`: the first `n` elements, all of `s` when `n` exceeds its
   length, and all but the last `-n` elements when `n` is negative.
   */
  function SliceTo<T>(s: seq<T>, n: int): (r: seq<T>)
    ensures r <= s
    ensures |r| == if n >= 0 then Min(n, |s|) else Max(0, |s| + n)
  {
    if n >= 0 then (if n <= |s| then s[..n] else s)
    else if |s| + n >= 0 then s[..|s| + n]
    else []
  }

  /**
   `find_nearest_airports(user_lat, user_lon, airports, num_airports)`.
   The result has the length Python's slice gives, is ordered by distance, pairs
   each airport it names with that airport's own distance, and within every
   distance keeps a prefix of the input's airports at that distance, in input order.
   */
  function FindNearestAirports(origin: Coord, airports: seq<Airport>, dist: Distance, numAirports: int): (r: seq<Nearby>)
    ensures numAirports >= 0 ==> |r| == Min(numAirports, |airports|)
    ensures numAirports < 0 ==> |r| == Max(0, |airports| + numAirports)
    ensures SortedBy(r, Km)
    ensures forall j :: 0 <= j < |r| ==>
              r[j].airport in airports && r[j].km == dist(origin, r[j].airport.location)
    ensures forall d :: WithKey(r, Km, d) <= WithKey(Measure(origin, airports, dist), Km, d)
  {
    var pairs := Measure(origin, airports, dist);
    var sorted := SortBy(pairs, Km);
    SliceSorted(sorted, numAirports, Km);
    SliceMembers(origin, airports, dist, sorted, numAirports);
    SliceTies(sorted, pairs, numAirports, Km);
    SliceTo(sorted, numAirports)
  }

  lemma SliceSorted<T>(s: seq<T>, n: int, key: T -> real)
    requires SortedBy(s, key)
    ensures SortedBy(SliceTo(s, n), key)
  {
  }

  lemma SliceMembers(origin: Coord, airports: seq<Airport>, dist: Distance, sorted: seq<Nearby>, n: int)
    requires multiset(sorted) == multiset(Measure(origin, airports, dist))
    ensures forall j :: 0 <= j < |SliceTo(sorted, n)| ==>
              SliceTo(sorted, n)[j].airport in airports
              && SliceTo(sorted, n)[j].km == dist(origin, SliceTo(sorted, n)[j].airport.location)
  {
    var pairs := Measure(origin, airports, dist);
    var r := SliceTo(sorted, n);
    forall j | 0 <= j < |r|
      ensures r[j].airport in airports && r[j].km == dist(origin, r[j].airport.location)
    {
      assert r[j] == sorted[j];
      assert sorted[j] in multiset(pairs);
      var i :| 0 <= i < |pairs| && pairs[i] == r[j];
      assert r[j].airport == airports[i];
    }
  }

  lemma SliceTies<T>(sorted: seq<T>, s: seq<T>, n: int, key: T -> real)
    requires SameTies(sorted, s, key)
    ensures forall d :: WithKey(SliceTo(sorted, n), key, d) <= WithKey(s, key, d)
  {
    var r := SliceTo(sorted, n);
    forall d ensures WithKey(r, key, d) <= WithKey(s, key, d) {
      WithKeyOfPrefix(sorted, |r|, key, d);
      assert sorted[..|r|] == r;
      assert WithKey(sorted, key, d) == WithKey(s, key, d);
    }
  }

  /**
   Whatever stable sort produces the ordering, the query answers its first
   `numAirports` elements: the result is independent of the sorting algorithm,
   including the order of ties.
   */
  lemma NearestIsPrefixOfAnyStableSort(origin: Coord, airports: seq<Airport>, dist: Distance,
                                       numAirports: int, sorted: seq<Nearby>)
    requires SortedBy(sorted, Km)
    requires SameTies(sorted, Measure(origin, airports, dist), Km)
    ensures FindNearestAirports(origin, airports, dist, numAirports) == SliceTo(sorted, numAirports)
  {
    StableSortIsUnique(Measure(origin, airports, dist), sorted, Km);
  }

  /** A pair tagged with its position in the input. */
  datatype Ranked = Ranked(pos: int, pair: Nearby)

  function RankedKm(t: Ranked): real
  {
    t.pair.km
  }

  function Pos(t: Ranked): int
  {
    t.pos
  }

  function Unrank(t: Ranked): Nearby
  {
    t.pair
  }

  function Rank(pairs: seq<Nearby>): seq<Ranked>
  {
    seq(|pairs|, i requires 0 <= i < |pairs| => Ranked(i, pairs[i]))
  }

  /** The pairs tagged with their input positions, sorted by distance. */
  function RankedSort(pairs: seq<Nearby>): seq<Ranked>
  {
    SortBy(Rank(pairs), RankedKm)
  }

  /** Dropping the tags from the tagged sort gives the sort of the untagged pairs. */
  lemma RankedSortProjects(pairs: seq<Nearby>)
    ensures |RankedSort(pairs)| == |pairs|
    ensures forall j :: 0 <= j < |pairs| ==> SortBy(pairs, Km)[j] == RankedSort(pairs)[j].pair
  {
    var tagged := Rank(pairs);
    assert Map(Unrank, tagged) == pairs;
    SortByMap(tagged, Unrank, RankedKm, Km);
  }

  /** Every tag in the tagged sort is a position of the input, holding that position's pair. */
  lemma RankedSortTags(pairs: seq<Nearby>)
    ensures forall j :: 0 <= j < |RankedSort(pairs)| ==>
              0 <= RankedSort(pairs)[j].pos < |pairs| && RankedSort(pairs)[j].pair == pairs[RankedSort(pairs)[j].pos]
  {
    var tagged := Rank(pairs);
    var ranked := RankedSort(pairs);
    forall j | 0 <= j < |ranked|
      ensures 0 <= ranked[j].pos < |pairs| && ranked[j].pair == pairs[ranked[j].pos]
    {
      assert ranked[j] in multiset(tagged);
      var i :| 0 <= i < |tagged| && tagged[i] == ranked[j];
    }
  }

  /** Every input position occurs as a tag in the tagged sort. */
  lemma RankedSortCovers(pairs: seq<Nearby>, i: int)
    requires 0 <= i < |pairs|
    ensures exists p :: 0 <= p < |RankedSort(pairs)| && RankedSort(pairs)[p] == Ranked(i, pairs[i])
  {
    var tagged := Rank(pairs);
    assert tagged[i] == Ranked(i, pairs[i]);
    assert tagged[i] in multiset(RankedSort(pairs));
  }

  lemma RankedSortTies(pairs: seq<Nearby>)
    ensures TiesRanked(RankedSort(pairs), RankedKm, Pos)
  {
    assert StrictlyRanked(Rank(pairs), Pos);
    SortByKeepsRankedTies(Rank(pairs), RankedKm, Pos);
  }

  /** A prefix of a sorted sequence holds nothing farther than what the rest holds. */
  lemma RankedPrefixIsNearest(pairs: seq<Nearby>, n: int, i: int, j: int)
    requires 0 <= i < |pairs|
    requires 0 <= j < |SliceTo(RankedSort(pairs), n)|
    requires forall q :: 0 <= q < |SliceTo(RankedSort(pairs), n)| ==> SliceTo(RankedSort(pairs), n)[q].pos != i
    ensures RankedSort(pairs)[j].pair.km <= pairs[i].km
  {
    var ranked := RankedSort(pairs);
    var chosen := SliceTo(ranked, n);
    RankedSortCovers(pairs, i);
    var p :| 0 <= p < |ranked| && ranked[p] == Ranked(i, pairs[i]);
    assert p >= |chosen|;
    assert RankedKm(ranked[j]) <= RankedKm(ranked[p]);
  }

  /** The input positions of the tagged pairs the query keeps. */
  function Positions(pairs: seq<Nearby>, n: int): seq<int>
  {
    Map(Pos, SliceTo(RankedSort(pairs), n))
  }

  lemma PositionsMatch(pairs: seq<Nearby>, n: int)
    ensures |Positions(pairs, n)| == |SliceTo(SortBy(pairs, Km), n)|
    ensures forall j :: 0 <= j < |Positions(pairs, n)| ==>
              0 <= Positions(pairs, n)[j] < |pairs| && SliceTo(SortBy(pairs, Km), n)[j] == pairs[Positions(pairs, n)[j]]
  {
    var ranked := RankedSort(pairs);
    var idx := Positions(pairs, n);
    var r := SliceTo(SortBy(pairs, Km), n);
    RankedSortProjects(pairs);
    RankedSortTags(pairs);
    forall j | 0 <= j < |idx| ensures 0 <= idx[j] < |pairs| && r[j] == pairs[idx[j]] {
      assert idx[j] == ranked[j].pos;
      assert r[j] == SortBy(pairs, Km)[j];
    }
  }

  lemma PositionsTies(pairs: seq<Nearby>, n: int)
    ensures forall j, j' :: 0 <= j < j' < |Positions(pairs, n)| ==>
              Positions(pairs, n)[j] != Positions(pairs, n)[j']
    ensures forall j, j' :: 0 <= j < j' < |Positions(pairs, n)|
              && RankedSort(pairs)[j].pair.km == RankedSort(pairs)[j'].pair.km
              ==> Positions(pairs, n)[j] < Positions(pairs, n)[j']
  {
    var ranked := RankedSort(pairs);
    var idx := Positions(pairs, n);
    RankedSortTies(pairs);
    assert forall j :: 0 <= j < |idx| ==> idx[j] == Pos(ranked[j]);
  }

  lemma PositionsNearest(pairs: seq<Nearby>, n: int)
    ensures forall i, j :: 0 <= i < |pairs| && i !in Positions(pairs, n) && 0 <= j < |Positions(pairs, n)| ==>
              RankedSort(pairs)[j].pair.km <= pairs[i].km
  {
    var ranked := RankedSort(pairs);
    var chosen := SliceTo(ranked, n);
    var idx := Positions(pairs, n);
    forall i, j | 0 <= i < |pairs| && i !in idx && 0 <= j < |idx| ensures ranked[j].pair.km <= pairs[i].km {
      forall q | 0 <= q < |chosen| ensures chosen[q].pos != i {
        assert idx[q] == chosen[q].pos;
      }
      RankedPrefixIsNearest(pairs, n, i, j);
    }
  }

  /** The input positions of the pairs `SliceTo(SortBy(pairs, Km), n)` keeps. */
  function ChosenPositions(pairs: seq<Nearby>, n: int): (idx: seq<int>)
    ensures |idx| == |SliceTo(SortBy(pairs, Km), n)|
    ensures forall j :: 0 <= j < |idx| ==>
              0 <= idx[j] < |pairs| && SliceTo(SortBy(pairs, Km), n)[j] == pairs[idx[j]]
    ensures forall j, j' :: 0 <= j < j' < |idx| ==> idx[j] != idx[j']
    ensures forall j, j' :: 0 <= j < j' < |idx| && pairs[idx[j]].km == pairs[idx[j']].km ==> idx[j] < idx[j']
    ensures forall i, j :: 0 <= i < |pairs| && i !in idx && 0 <= j < |idx| ==> pairs[idx[j]].km <= pairs[i].km
  {
    PositionsMatch(pairs, n);
    PositionsTies(pairs, n);
    PositionsNearest(pairs, n);
    RankedSortProjects(pairs);
    Positions(pairs, n)
  }

  /**
   The input positions of the airports the query returns. They are distinct, the
   j-th one is the airport of the j-th returned pair, airports at equal distance
   appear in input order, and every airport left out is at least as far as every
   airport returned.
   */
  function NearestPositions(origin: Coord, airports: seq<Airport>, dist: Distance, numAirports: int): (idx: seq<int>)
    ensures |idx| == |FindNearestAirports(origin, airports, dist, numAirports)|
    ensures forall j :: 0 <= j < |idx| ==>
              0 <= idx[j] < |airports|
              && FindNearestAirports(origin, airports, dist, numAirports)[j]
                 == Nearby(airports[idx[j]], dist(origin, airports[idx[j]].location))
    ensures forall j, j' :: 0 <= j < j' < |idx| ==> idx[j] != idx[j']
    ensures forall j, j' :: 0 <= j < j' < |idx|
              && FindNearestAirports(origin, airports, dist, numAirports)[j].km
                 == FindNearestAirports(origin, airports, dist, numAirports)[j'].km
              ==> idx[j] < idx[j']
    ensures forall i, j :: 0 <= i < |airports| && i !in idx && 0 <= j < |idx| ==>
              FindNearestAirports(origin, airports, dist, numAirports)[j].km <= dist(origin, airports[i].location)
  {
    ChosenPositions(Measure(origin, airports, dist), numAirports)
  }
}
