/** The place catalog and the two helpers that read it without a user
    profile: the best-rated places and a random sample for onboarding. */
module Catalog {
  import opened Wrappers

  /** One catalog row, restricted to the columns the service hands out.
      price is the raw text of the price column; rating is already a number
      (missing ratings were filled with 0). */
  datatype Place = Place(id: int, name: string, city: string, category: string,
                         price: string, rating: real, image: string)

  function Ids(places: seq<Place>): (ids: seq<int>)
    ensures |ids| == |places| && forall i :: 0 <= i < |places| ==> ids[i] == places[i].id
  {
    seq(|places|, i requires 0 <= i < |places| => places[i].id)
  }

  /** The row with identifier id, if any; the first one when several share it. */
  function FindPlace(places: seq<Place>, id: int): (r: Option<Place>)
    ensures r.None? <==> forall i :: 0 <= i < |places| ==> places[i].id != id
    ensures r.Some? ==> r.value in places && r.value.id == id
  {
    if |places| == 0 then None
    else if places[0].id == id then Some(places[0])
    else FindPlace(places[1..], id)
  }

  /** With identifiers that are unique, FindPlace returns the row of each. */
  lemma {:induction false} FindPlaceUnique(places: seq<Place>, i: nat)
    requires i < |places|
    requires forall a, b :: 0 <= a < b < |places| ==> places[a].id != places[b].id
    ensures FindPlace(places, places[i].id) == Some(places[i])
  {
    if i > 0 {
      assert places[0].id != places[i].id;
      FindPlaceUnique(places[1..], i - 1);
    }
  }

  // ---------------------------------------------------------------------
  // top_rated
  // ---------------------------------------------------------------------

  predicate RatingDesc(ps: seq<Place>) {
    forall i, j :: 0 <= i < j < |ps| ==> ps[j].rating <= ps[i].rating
  }

  /** p placed in front of the first row rated strictly below it. */
  function InsertByRating(p: Place, ps: seq<Place>): (r: seq<Place>)
    requires RatingDesc(ps)
    ensures RatingDesc(r)
    ensures multiset(r) == multiset(ps) + multiset{p}
  {
    if |ps| == 0 then [p]
    else if ps[0].rating < p.rating then [p] + ps
    else
      var tail := InsertByRating(p, ps[1..]);
      InsertHead(p, ps, tail);
      [ps[0]] + tail
  }

  lemma InsertHead(p: Place, ps: seq<Place>, tail: seq<Place>)
    requires |ps| > 0 && RatingDesc(ps) && p.rating <= ps[0].rating
    requires RatingDesc(tail) && multiset(tail) == multiset(ps[1..]) + multiset{p}
    ensures RatingDesc([ps[0]] + tail)
    ensures multiset([ps[0]] + tail) == multiset(ps) + multiset{p}
  {
    assert ps == [ps[0]] + ps[1..];
    forall x | x in tail ensures x.rating <= ps[0].rating {
      assert x in multiset(tail);
      if x != p {
        assert x in multiset(ps[1..]);
        var i :| 0 <= i < |ps[1..]| && ps[1..][i] == x;
        assert ps[i + 1] == x;
      }
    }
    var r := [ps[0]] + tail;
    forall i, j | 0 <= i < j < |r| ensures r[j].rating <= r[i].rating {
      if i == 0 {
        assert r[j] == tail[j - 1];
        assert r[j] in tail;
      } else {
        assert r[i] == tail[i - 1] && r[j] == tail[j - 1];
      }
    }
  }

  /** sort_values("rating", ascending=False): one ordering the unstable
      pandas sort may produce. */
  function SortByRatingDesc(ps: seq<Place>): (r: seq<Place>)
    ensures RatingDesc(r)
    ensures multiset(r) == multiset(ps)
    ensures |r| == |ps|
  {
    if |ps| == 0 then []
    else
      assert ps == [ps[0]] + ps[1..];
      InsertByRating(ps[0], SortByRatingDesc(ps[1..]))
  }

  /** How many rows head(k) keeps from n: the first k, or for a negative k
      all but the last -k. */
  function HeadCount(k: int, n: nat): (c: nat)
    ensures c <= n
    ensures k >= 0 ==> c == if k <= n then k else n
    ensures k < 0 ==> c == if n + k >= 0 then n + k else 0
  {
    if k >= 0 then (if k <= n then k else n)
    else if n + k >= 0 then n + k else 0
  }

  /** top_rated(k): the catalog sorted by descending rating, first rows kept.
      Every row left out is rated no higher than any row kept, and the rows
      kept are catalog rows taken at most as often as they occur. */
  function TopRated(places: seq<Place>, k: int): (r: seq<Place>)
    ensures |r| == HeadCount(k, |places|)
    ensures RatingDesc(r)
    ensures multiset(r) <= multiset(places)
    ensures exists rest: seq<Place> :: multiset(r + rest) == multiset(places)
              && forall a, b :: a in r && b in rest ==> b.rating <= a.rating
  {
    var sorted := SortByRatingDesc(places);
    var c := HeadCount(k, |places|);
    TopRatedSplit(places, sorted, c);
    sorted[..c]
  }

  /** The first c rows of a rating-sorted permutation of the catalog, and
      the rest as the rows left out. */
  lemma TopRatedSplit(places: seq<Place>, sorted: seq<Place>, c: nat)
    requires RatingDesc(sorted) && multiset(sorted) == multiset(places) && c <= |sorted|
    ensures RatingDesc(sorted[..c])
    ensures multiset(sorted[..c]) <= multiset(places)
    ensures exists rest: seq<Place> :: multiset(sorted[..c] + rest) == multiset(places)
              && forall a, b :: a in sorted[..c] && b in rest ==> b.rating <= a.rating
  {
    var rest := sorted[c..];
    assert sorted[..c] + rest == sorted;
    PrefixOutranksRest(sorted, c);
    assert multiset(sorted[..c] + rest) == multiset(places);
  }

  lemma PrefixOutranksRest(sorted: seq<Place>, c: nat)
    requires RatingDesc(sorted) && c <= |sorted|
    ensures forall a, b :: a in sorted[..c] && b in sorted[c..] ==> b.rating <= a.rating
  {
    forall a, b | a in sorted[..c] && b in sorted[c..] ensures b.rating <= a.rating {
      var i :| 0 <= i < c && sorted[i] == a;
      var j :| c <= j < |sorted| && sorted[j] == b;
    }
  }

  /** Asking for more rows never yields fewer, and a non-negative request is
      met up to the catalog's size. */
  lemma TopRatedMonotone(places: seq<Place>, k1: int, k2: int)
    requires 0 <= k1 <= k2
    ensures |TopRated(places, k1)| <= |TopRated(places, k2)|
    ensures |TopRated(places, k2)| == if k2 <= |places| then k2 else |places|
  {
  }

  /** Ratings 4.5, 3.0 and 2.0 for the places 1, 2 and 3: the two best
      rated are 1 and then 2. */
  lemma TopRatedScenario(places: seq<Place>, a: Place, b: Place, c: Place)
    requires places == [a, b, c]
    requires a.id == 1 && a.rating == 4.5 && b.id == 2 && b.rating == 3.0 && c.id == 3 && c.rating == 2.0
    ensures Ids(TopRated(places, 2)) == [1, 2]
  {
    SortThreeDescending(a, b, c);
    TopTwoOfSorted(places, a, b, c);
    IdsOfPair(a, b);
  }

  lemma TopTwoOfSorted(places: seq<Place>, a: Place, b: Place, c: Place)
    requires SortByRatingDesc(places) == [a, b, c]
    ensures TopRated(places, 2) == [a, b]
  {
    TopRatedIsSortedPrefix(places, 2);
    assert |places| == 3;
  }

  lemma IdsOfPair(a: Place, b: Place)
    ensures Ids([a, b]) == [a.id, b.id]
  {
  }

  lemma TopRatedIsSortedPrefix(places: seq<Place>, k: int)
    ensures TopRated(places, k) == SortByRatingDesc(places)[..HeadCount(k, |places|)]
  {
  }

  lemma SortThreeDescending(a: Place, b: Place, c: Place)
    requires c.rating < b.rating < a.rating
    ensures SortByRatingDesc([a, b, c]) == [a, b, c]
  {
    var ps := [a, b, c];
    assert ps[1..] == [b, c];
    SortTwoDescending(b, c);
    assert InsertByRating(a, [b, c]) == [a, b, c];
  }

  lemma SortTwoDescending(b: Place, c: Place)
    requires c.rating < b.rating
    ensures SortByRatingDesc([b, c]) == [b, c]
  {
    var ps := [b, c];
    assert ps[1..] == [c];
    assert [c][1..] == [];
    assert SortByRatingDesc([c]) == [c];
    assert InsertByRating(b, [c]) == [b, c];
  }

  // ---------------------------------------------------------------------
  // sample_places
  // ---------------------------------------------------------------------

  /** Why a sample cannot be drawn: pandas refuses a negative row count. */
  datatype SampleError = NegativeSampleSize

  /** m positions drawn without replacement from pool; draw t takes the
      entry rng(t) (modulo what is left) of the positions not drawn yet. */
  function Draw(pool: seq<nat>, m: nat, rng: nat -> nat, t: nat): (r: seq<nat>)
    requires m <= |pool| && Distinct(pool)
    ensures |r| == m && Distinct(r)
    ensures forall a :: 0 <= a < |r| ==> r[a] in pool
    decreases m
  {
    if m == 0 then []
    else
      var q := rng(t) % |pool|;
      var rest := pool[..q] + pool[q + 1..];
      DropKeepsDistinct(pool, q);
      var tail := Draw(rest, m - 1, rng, t + 1);
      [pool[q]] + tail
  }

  lemma DropKeepsDistinct(pool: seq<nat>, q: nat)
    requires q < |pool| && Distinct(pool)
    ensures Distinct(pool[..q] + pool[q + 1..])
    ensures forall x :: x in pool[..q] + pool[q + 1..] ==> x in pool && x != pool[q]
  {
    var rest := pool[..q] + pool[q + 1..];
    assert forall i :: 0 <= i < q ==> rest[i] == pool[i];
    assert forall i :: q <= i < |rest| ==> rest[i] == pool[i + 1];
  }

  /** sample_places(n): min(n, len) distinct catalog rows chosen by the
      random source; a negative n is refused. The catalog itself is only read. */
  function SamplePlaces(places: seq<Place>, n: int, rng: nat -> nat): (r: Result<seq<Place>, SampleError>)
    ensures n < 0 <==> r.Failure?
    ensures r.Success? ==> |r.value| == (if n <= |places| then n else |places|)
    ensures r.Success? ==>
      exists idx: seq<nat> ::
        && |idx| == |r.value|
        && Distinct(idx)
        && (forall a :: 0 <= a < |idx| ==> idx[a] < |places| && r.value[a] == places[idx[a]])
  {
    if n < 0 then Failure(NegativeSampleSize)
    else
      var m: nat := if n <= |places| then n else |places|;
      var pool := seq(|places|, i requires 0 <= i < |places| => i);
      var idx := Draw(pool, m, rng, 0);
      var rows := seq(m, a requires 0 <= a < m => places[idx[a]]);
      assert forall a :: 0 <= a < |idx| ==> idx[a] < |places| && rows[a] == places[idx[a]];
      Success(rows)
  }
}
