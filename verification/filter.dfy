/** `filterCafes` (services/utils.ts): a location stage that keeps the cafés
    within 5 km of the search anchor, then a mood stage. Both stages are
    `Array.prototype.filter`, modelled once generically as `Filter`. */
module Filtering {
  import opened Wrappers
  import opened Types

  /** `s.filter(p)`: the elements of `s` that satisfy `p`, in their original
      order and with their original multiplicities. */
  function Filter<T(!new)>(p: T -> bool, s: seq<T>): (r: seq<T>)
    ensures |r| <= |s|
    ensures forall i :: 0 <= i < |r| ==> p(r[i])
    ensures forall x :: x in r <==> x in s && p(x)
  {
    if |s| == 0 then []
    else
      var rest := Filter(p, s[1..]);
      assert s == [s[0]] + s[1..];
      if p(s[0]) then [s[0]] + rest else rest
  }

  /** The filter keeps every element satisfying the test as often as the input
      holds it, and drops every other. */
  lemma {:induction false} FilterCounts<T(!new)>(p: T -> bool, s: seq<T>)
    ensures forall x :: multiset(Filter(p, s))[x] == if p(x) then multiset(s)[x] else 0
  {
    if |s| > 0 {
      FilterCounts(p, s[1..]);
      assert s == [s[0]] + s[1..];
      if p(s[0]) {
        assert Filter(p, s) == [s[0]] + Filter(p, s[1..]);
      }
    }
  }

  /** `a` can be obtained from `b` by deleting elements: `a` keeps `b`'s order. */
  predicate IsSubsequence<T(==,!new)>(a: seq<T>, b: seq<T>) {
    if |a| == 0 then true
    else if |b| == 0 then false
    else (a[0] == b[0] && IsSubsequence(a[1..], b[1..])) || IsSubsequence(a, b[1..])
  }

  /** A filter never reorders: its result is a subsequence of its input. */
  lemma {:induction false} FilterIsSubsequence<T(!new)>(p: T -> bool, s: seq<T>)
    ensures IsSubsequence(Filter(p, s), s)
  {
    if |s| > 0 {
      FilterIsSubsequence(p, s[1..]);
      if p(s[0]) {
        assert Filter(p, s)[1..] == Filter(p, s[1..]);
      }
    }
  }

  /** Deleting elements can only lower multiplicities. */
  lemma {:induction false} SubsequenceMultiset<T(!new)>(a: seq<T>, b: seq<T>)
    requires IsSubsequence(a, b)
    ensures multiset(a) <= multiset(b)
  {
    if |a| > 0 {
      assert b == [b[0]] + b[1..];
      if a[0] == b[0] && IsSubsequence(a[1..], b[1..]) {
        SubsequenceMultiset(a[1..], b[1..]);
        assert a == [a[0]] + a[1..];
      } else {
        SubsequenceMultiset(a, b[1..]);
      }
    }
  }

  /** The reference characterisation of a filter: the only subsequence of `s`
      made of elements satisfying `p` that holds each such element as often as
      `s` does is `Filter(p, s)`. */
  lemma {:induction false} FilterUnique<T(!new)>(p: T -> bool, s: seq<T>, a: seq<T>)
    requires IsSubsequence(a, s)
    requires forall i :: 0 <= i < |a| ==> p(a[i])
    requires forall x :: multiset(a)[x] == if p(x) then multiset(s)[x] else 0
    ensures a == Filter(p, s)
  {
    if |s| == 0 {
      assert |a| == 0;
    } else {
      var t := s[1..];
      assert s == [s[0]] + t;
      if |a| > 0 && a[0] == s[0] && IsSubsequence(a[1..], t) {
        assert a == [a[0]] + a[1..];
        assert p(s[0]);
        FilterUnique(p, t, a[1..]);
      } else if p(s[0]) {
        TakesHead(p, s, a);
      } else {
        assert |a| > 0 ==> IsSubsequence(a, t);
        FilterUnique(p, t, a);
      }
    }
  }

  /** In `FilterUnique`, when the head of `s` satisfies `p` the candidate must
      take it: skipping it would lose one copy. */
  lemma TakesHead<T(!new)>(p: T -> bool, s: seq<T>, a: seq<T>)
    requires |s| > 0 && p(s[0])
    requires IsSubsequence(a, s)
    requires forall x :: multiset(a)[x] == if p(x) then multiset(s)[x] else 0
    ensures |a| > 0 && a[0] == s[0] && IsSubsequence(a[1..], s[1..])
  {
    assert s == [s[0]] + s[1..];
    assert multiset(a)[s[0]] == multiset(s[1..])[s[0]] + 1;
    if |a| == 0 || !(a[0] == s[0] && IsSubsequence(a[1..], s[1..])) {
      SubsequenceMultiset(a, s[1..]);
    }
  }

  /** Every element of `s` passing the test makes the filter the identity. */
  lemma {:induction false} FilterAllTrue<T(!new)>(p: T -> bool, s: seq<T>)
    requires forall i :: 0 <= i < |s| ==> p(s[i])
    ensures Filter(p, s) == s
  {
    if |s| > 0 {
      FilterAllTrue(p, s[1..]);
    }
  }

  /** No element passing the test makes the filter empty. */
  lemma {:induction false} FilterNoneTrue<T(!new)>(p: T -> bool, s: seq<T>)
    requires forall i :: 0 <= i < |s| ==> !p(s[i])
    ensures Filter(p, s) == []
  {
    if |s| > 0 {
      FilterNoneTrue(p, s[1..]);
    }
  }

  /** Filtering twice by the same test is filtering once. */
  lemma FilterIdempotent<T(!new)>(p: T -> bool, s: seq<T>)
    ensures Filter(p, Filter(p, s)) == Filter(p, s)
  {
    FilterAllTrue(p, Filter(p, s));
  }

  /** Two filters in a row are one filter by the conjunction of the tests. */
  lemma {:induction false} FilterFuse<T(!new)>(p: T -> bool, q: T -> bool, pq: T -> bool, s: seq<T>)
    requires forall x :: pq(x) == (p(x) && q(x))
    ensures Filter(q, Filter(p, s)) == Filter(pq, s)
  {
    if |s| > 0 {
      FilterFuse(p, q, pq, s[1..]);
      if p(s[0]) {
        assert Filter(p, s) == [s[0]] + Filter(p, s[1..]);
        assert Filter(p, s)[1..] == Filter(p, s[1..]);
      }
    }
  }

  /** A filter only consults its test on the elements it is given. */
  lemma {:induction false} FilterCongruent<T(!new)>(p: T -> bool, q: T -> bool, s: seq<T>)
    requires forall i :: 0 <= i < |s| ==> p(s[i]) == q(s[i])
    ensures Filter(p, s) == Filter(q, s)
  {
    if |s| > 0 {
      FilterCongruent(p, q, s[1..]);
    }
  }

  /** The search radius of the location stage, in kilometres. */
  const Radius: real := 5.0

  /** The location stage's test: distance from the anchor (anchor first) to the
      café is at most the radius, the boundary included. */
  predicate WithinRadius(anchor: Location, dist: Distance, cafe: Cafe) {
    dist(anchor.lat, anchor.lng, cafe.lat, cafe.lng) <= Radius
  }

  /** The mood stage's test for each mood; `Any` admits every café. */
  predicate MoodMatches(mood: MoodOption, cafe: Cafe) {
    match mood
    case Any => true
    case Calm => cafe.noiseLevel == NoiseLevel.Calm
    case Lively => cafe.noiseLevel == NoiseLevel.Lively
    case Cozy => cafe.cozyScore >= 4
    case Work => cafe.goodForWork && cafe.hasWifi
    case Friends => cafe.goodForFriends
    case Family => cafe.goodForFamilies
  }

  /** Whether a café passes every active criterion of `filters`; the time
      bucket and the anchor's address are not criteria. */
  predicate Admits(filters: FilterState, dist: Distance, cafe: Cafe) {
    && (filters.searchLocation.Some? ==> WithinRadius(filters.searchLocation.value, dist, cafe))
    && MoodMatches(filters.mood, cafe)
  }

  /** The location stage: all cafés when there is no anchor. */
  function LocationStage(cafes: seq<Cafe>, searchLocation: Option<Location>, dist: Distance): seq<Cafe>
  {
    match searchLocation
    case None => cafes
    case Some(anchor) => Filter(c => WithinRadius(anchor, dist, c), cafes)
  }

  /** The mood stage: skipped for `Any`, otherwise the mood's test. */
  function MoodStage(cafes: seq<Cafe>, mood: MoodOption): seq<Cafe>
  {
    if mood == Any then cafes else Filter(c => MoodMatches(mood, c), cafes)
  }

  /** `filterCafes(cafes, filters)`: the location stage, then the mood stage.
      The result keeps the catalog's order and holds exactly the admitted
      cafés; with no anchor and mood `Any` it is the catalog itself. */
  function FilterCafes(cafes: seq<Cafe>, filters: FilterState, dist: Distance): (r: seq<Cafe>)
    ensures |r| <= |cafes|
    ensures forall c :: c in r <==> c in cafes && Admits(filters, dist, c)
    ensures filters.searchLocation.None? && filters.mood == Any ==> r == cafes
  {
    MoodStage(LocationStage(cafes, filters.searchLocation, dist), filters.mood)
  }

  /** The staged computation is a single filter by `Admits`: the result is
      the subsequence of the catalog holding every admitted café, each as
      often as the catalog does. */
  lemma FilterCafesMatchesReference(cafes: seq<Cafe>, filters: FilterState, dist: Distance)
    ensures FilterCafes(cafes, filters, dist) == Filter(c => Admits(filters, dist, c), cafes)
  {
    var admits := c => Admits(filters, dist, c);
    var mood := c => MoodMatches(filters.mood, c);
    match filters.searchLocation
    case None =>
      FilterCongruent(mood, admits, cafes);
      if filters.mood == Any {
        FilterAllTrue(admits, cafes);
      }
    case Some(anchor) =>
      var near := c => WithinRadius(anchor, dist, c);
      if filters.mood == Any {
        FilterCongruent(near, admits, cafes);
      } else {
        FilterFuse(near, mood, admits, cafes);
      }
  }

  /** Hence the result keeps the catalog's order. */
  lemma FilterCafesIsSubsequence(cafes: seq<Cafe>, filters: FilterState, dist: Distance)
    ensures IsSubsequence(FilterCafes(cafes, filters, dist), cafes)
  {
    FilterCafesMatchesReference(cafes, filters, dist);
    FilterIsSubsequence(c => Admits(filters, dist, c), cafes);
  }

  /** Filtering an already filtered list again changes nothing. */
  lemma FilterCafesIdempotent(cafes: seq<Cafe>, filters: FilterState, dist: Distance)
    ensures FilterCafes(FilterCafes(cafes, filters, dist), filters, dist) == FilterCafes(cafes, filters, dist)
  {
    var r := FilterCafes(cafes, filters, dist);
    FilterCafesMatchesReference(cafes, filters, dist);
    FilterCafesMatchesReference(r, filters, dist);
    FilterIdempotent(c => Admits(filters, dist, c), cafes);
  }

  /** The mood stage first and the location stage second give the same list. */
  lemma StageOrderIrrelevant(cafes: seq<Cafe>, filters: FilterState, dist: Distance)
    ensures LocationStage(MoodStage(cafes, filters.mood), filters.searchLocation, dist) ==
      FilterCafes(cafes, filters, dist)
  {
    var admits := c => Admits(filters, dist, c);
    var mood := c => MoodMatches(filters.mood, c);
    FilterCafesMatchesReference(cafes, filters, dist);
    match filters.searchLocation
    case None =>
    case Some(anchor) =>
      var near := c => WithinRadius(anchor, dist, c);
      if filters.mood == Any {
        FilterCongruent(near, admits, cafes);
      } else {
        FilterFuse(mood, near, admits, cafes);
      }
  }

  /** Every subsequence of the catalog that holds exactly the admitted cafés,
      each as often as the catalog does, is the filtered list. */
  lemma FilterCafesUnique(cafes: seq<Cafe>, filters: FilterState, dist: Distance, a: seq<Cafe>)
    requires IsSubsequence(a, cafes)
    requires forall i :: 0 <= i < |a| ==> Admits(filters, dist, a[i])
    requires forall c :: multiset(a)[c] == if Admits(filters, dist, c) then multiset(cafes)[c] else 0
    ensures a == FilterCafes(cafes, filters, dist)
  {
    FilterCafesMatchesReference(cafes, filters, dist);
    FilterUnique(c => Admits(filters, dist, c), cafes, a);
  }

  /** Removing the search anchor only widens the list. */
  lemma LocationNarrows(cafes: seq<Cafe>, filters: FilterState, dist: Distance)
    ensures IsSubsequence(FilterCafes(cafes, filters, dist), FilterCafes(cafes, filters.(searchLocation := None), dist))
  {
    var moody := MoodStage(cafes, filters.mood);
    StageOrderIrrelevant(cafes, filters, dist);
    assert FilterCafes(cafes, filters.(searchLocation := None), dist) == moody;
    match filters.searchLocation
    case None =>
      FilterIsSubsequence(c => true, moody);
      FilterAllTrue(c => true, moody);
    case Some(anchor) =>
      FilterIsSubsequence(c => WithinRadius(anchor, dist, c), moody);
  }

  /** The selected time bucket never affects the list. */
  lemma FilterCafesIgnoresTime(cafes: seq<Cafe>, filters: FilterState, time: TimeOption, dist: Distance)
    ensures FilterCafes(cafes, filters.(time := time), dist) == FilterCafes(cafes, filters, dist)
  {
    assert filters.(time := time).searchLocation == filters.searchLocation;
  }

  /** Only the anchor's coordinates matter, not its address text. */
  lemma FilterCafesIgnoresAddress(cafes: seq<Cafe>, filters: FilterState, address: string, dist: Distance)
    requires filters.searchLocation.Some?
    ensures FilterCafes(cafes, filters.(searchLocation := Some(filters.searchLocation.value.(address := address))), dist) ==
      FilterCafes(cafes, filters, dist)
  {
    var moved := filters.(searchLocation := Some(filters.searchLocation.value.(address := address)));
    FilterCafesMatchesReference(cafes, filters, dist);
    FilterCafesMatchesReference(cafes, moved, dist);
    FilterCongruent(c => Admits(filters, dist, c), c => Admits(moved, dist, c), cafes);
  }

  /** Choosing a mood only narrows the list obtained with `Any`. */
  lemma MoodNarrows(cafes: seq<Cafe>, filters: FilterState, dist: Distance)
    ensures IsSubsequence(FilterCafes(cafes, filters, dist), FilterCafes(cafes, filters.(mood := Any), dist))
  {
    var located := LocationStage(cafes, filters.searchLocation, dist);
    assert FilterCafes(cafes, filters.(mood := Any), dist) == located;
    if filters.mood != Any {
      FilterIsSubsequence(c => MoodMatches(filters.mood, c), located);
    } else {
      FilterIsSubsequence(c => true, located);
      FilterAllTrue(c => true, located);
    }
  }

  /** An anchor farther than the radius from every café leaves nothing. */
  lemma FarAnchorLeavesNothing(cafes: seq<Cafe>, filters: FilterState, dist: Distance)
    requires filters.searchLocation.Some?
    requires forall i :: 0 <= i < |cafes| ==>
      dist(filters.searchLocation.value.lat, filters.searchLocation.value.lng, cafes[i].lat, cafes[i].lng) > Radius
    ensures FilterCafes(cafes, filters, dist) == []
  {
    FilterCafesMatchesReference(cafes, filters, dist);
    FilterNoneTrue(c => Admits(filters, dist, c), cafes);
  }

  /** The Work mood needs both a work-friendly café and Wi-Fi: of a café good
      for work without Wi-Fi, one with both, and one not good for work, only
      the second is kept. */
  lemma WorkNeedsWifi(a: Cafe, b: Cafe, c: Cafe, time: TimeOption, dist: Distance)
    requires a.goodForWork && !a.hasWifi
    requires b.goodForWork && b.hasWifi
    requires !c.goodForWork
    ensures FilterCafes([a, b, c], FilterState(Work, time, None), dist) == [b]
  {
    var work := x => MoodMatches(Work, x);
    assert [a, b, c][1..] == [b, c];
    assert [b, c][1..] == [c];
    assert [c][1..] == [];
    assert Filter(work, [c]) == [];
    assert Filter(work, [b, c]) == [b];
    assert Filter(work, [a, b, c]) == [b];
  }
}
