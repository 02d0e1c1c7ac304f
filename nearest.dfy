/**
 * `findNearestHospital`: over a snapshot of the registry's values, keep the
 * eligible hospitals, annotate each with its distance from the query point,
 * sort them stably by distance and keep the first `limit`.
 */
module NearestQuery {
  import opened Wrappers
  import opened HospitalRecords

  /** `options?.limit ?? 1` */
  function Limit(opts: QueryOptions): nat
  {
    match opts.limit
    case None => 1
    case Some(k) => k
  }

  /** `options?.minBeds ?? 1` */
  function MinBeds(opts: QueryOptions): int
  {
    match opts.minBeds
    case None => 1
    case Some(m) => m
  }

  /** The specialty filter applies only to a present, non-empty (truthy) specialty. */
  predicate FiltersSpecialty(opts: QueryOptions)
  {
    opts.specialty.Some? && opts.specialty.value != ""
  }

  /** The predicate of the query's `filter` step. */
  predicate Eligible(h: Hospital, opts: QueryOptions)
  {
    && h.active
    && h.emergencyCapable
    && h.bedsAvailable >= MinBeds(opts)
    && (FiltersSpecialty(opts) ==> opts.specialty.value in h.specialties)
  }

  /** Neither coordinate of the query point is NaN. */
  predicate ValidPoint(p: GeoPoint)
  {
    p.lat.Num? && p.lng.Num?
  }

  /** The eligible hospitals of a snapshot, in snapshot order. */
  function Candidates(snapshot: seq<Hospital>, opts: QueryOptions): seq<Hospital>
  {
    if snapshot == [] then []
    else (if Eligible(snapshot[0], opts) then [snapshot[0]] else []) + Candidates(snapshot[1..], opts)
  }

  /**
   * Each record occurs among the candidates as often as in the snapshot when
   * it is eligible, and not at all otherwise.
   */
  lemma {:induction false} CandidatesCount(snapshot: seq<Hospital>, opts: QueryOptions)
    ensures forall h :: multiset(Candidates(snapshot, opts))[h] == if Eligible(h, opts) then multiset(snapshot)[h] else 0
  {
    if snapshot != [] {
      CandidatesCount(snapshot[1..], opts);
      assert snapshot == [snapshot[0]] + snapshot[1..];
    }
  }

  /** Filtering keeps snapshot order: it distributes over concatenation. */
  lemma {:induction false} CandidatesAppend(a: seq<Hospital>, b: seq<Hospital>, opts: QueryOptions)
    ensures Candidates(a + b, opts) == Candidates(a, opts) + Candidates(b, opts)
  {
    if a == [] {
      assert a + b == b;
    } else {
      CandidatesAppend(a[1..], b, opts);
      assert (a + b)[1..] == a[1..] + b;
    }
  }

  /** The query's `map` step: each record with its distance from `loc`. */
  function Annotate(loc: GeoPoint, hs: seq<Hospital>, dist: DistanceFn): seq<Ranked>
  {
    seq(|hs|, i requires 0 <= i < |hs| => Ranked(hs[i], dist(loc, hs[i].location)))
  }

  predicate Sorted(s: seq<Ranked>)
  {
    forall i, j :: 0 <= i < j < |s| ==> s[i].distanceKm <= s[j].distanceKm
  }

  /** Inserts `x` before the first element that is not strictly closer than it. */
  function InsertByDistance(x: Ranked, s: seq<Ranked>): seq<Ranked>
  {
    if s == [] || x.distanceKm <= s[0].distanceKm then [x] + s
    else [s[0]] + InsertByDistance(x, s[1..])
  }

  /** A stable sort by ascending `distanceKm`, as `Array.prototype.sort` is. */
  function SortByDistance(s: seq<Ranked>): seq<Ranked>
  {
    if s == [] then [] else InsertByDistance(s[0], SortByDistance(s[1..]))
  }

  /** The elements of `s` at distance exactly `d`, in order. */
  function AtDistance(s: seq<Ranked>, d: real): seq<Ranked>
  {
    if s == [] then []
    else (if s[0].distanceKm == d then [s[0]] else []) + AtDistance(s[1..], d)
  }

  /** `slice(0, k)` for a non-negative `k`. */
  function Take(s: seq<Ranked>, k: nat): seq<Ranked>
  {
    if k <= |s| then s[..k] else s
  }

  /** `findNearestHospital(loc, opts)` over the registry values `snapshot`. */
  function Nearest(snapshot: seq<Hospital>, loc: GeoPoint, opts: QueryOptions, dist: DistanceFn): seq<Ranked>
  {
    if !ValidPoint(loc) then []
    else Take(SortByDistance(Annotate(loc, Candidates(snapshot, opts), dist)), Limit(opts))
  }

  // ---------------------------------------------------------------------
  // The stable sort

  lemma {:induction false} InsertPermutes(x: Ranked, s: seq<Ranked>)
    ensures multiset(InsertByDistance(x, s)) == multiset(s) + multiset{x}
  {
    if s == [] || x.distanceKm <= s[0].distanceKm {
    } else {
      InsertPermutes(x, s[1..]);
      assert s == [s[0]] + s[1..];
    }
  }

  lemma {:induction false} InsertSorted(x: Ranked, s: seq<Ranked>)
    requires Sorted(s)
    ensures Sorted(InsertByDistance(x, s))
  {
    if s == [] || x.distanceKm <= s[0].distanceKm {
    } else {
      var rest := InsertByDistance(x, s[1..]);
      InsertSorted(x, s[1..]);
      InsertPermutes(x, s[1..]);
      forall k | 0 <= k < |rest|
        ensures s[0].distanceKm <= rest[k].distanceKm
      {
        assert rest[k] in multiset(s[1..]) + multiset{x};
      }
    }
  }

  /** Sorting by distance reorders the input and nothing more. */
  lemma {:induction false} SortPermutes(s: seq<Ranked>)
    ensures multiset(SortByDistance(s)) == multiset(s)
  {
    if s != [] {
      SortPermutes(s[1..]);
      InsertPermutes(s[0], SortByDistance(s[1..]));
      assert s == [s[0]] + s[1..];
    }
  }

  /** Sorting by distance yields a non-decreasing sequence of distances. */
  lemma {:induction false} SortSorted(s: seq<Ranked>)
    ensures Sorted(SortByDistance(s))
  {
    if s != [] {
      SortSorted(s[1..]);
      InsertSorted(s[0], SortByDistance(s[1..]));
    }
  }

  lemma {:induction false} AtDistanceAppend(a: seq<Ranked>, b: seq<Ranked>, d: real)
    ensures AtDistance(a + b, d) == AtDistance(a, d) + AtDistance(b, d)
  {
    if a == [] {
      assert a + b == b;
    } else {
      AtDistanceAppend(a[1..], b, d);
      assert (a + b)[1..] == a[1..] + b;
    }
  }

  lemma AtDistanceCons(y: Ranked, s: seq<Ranked>, d: real)
    ensures AtDistance([y] + s, d) == (if y.distanceKm == d then [y] else []) + AtDistance(s, d)
  {
    assert ([y] + s)[1..] == s;
  }

  lemma {:induction false} InsertAtDistance(x: Ranked, s: seq<Ranked>, d: real)
    requires Sorted(s)
    ensures AtDistance(InsertByDistance(x, s), d) == (if x.distanceKm == d then [x] else []) + AtDistance(s, d)
  {
    if s == [] || x.distanceKm <= s[0].distanceKm {
      AtDistanceCons(x, s, d);
    } else {
      var rest := InsertByDistance(x, s[1..]);
      assert InsertByDistance(x, s) == [s[0]] + rest;
      assert s == [s[0]] + s[1..];
      AtDistanceCons(s[0], rest, d);
      AtDistanceCons(s[0], s[1..], d);
      InsertAtDistance(x, s[1..], d);
      if x.distanceKm == d {
        assert s[0].distanceKm != d;
      }
    }
  }

  /** Stability: the elements at any one distance keep their input order. */
  lemma {:induction false} SortAtDistance(s: seq<Ranked>, d: real)
    ensures AtDistance(SortByDistance(s), d) == AtDistance(s, d)
  {
    if s != [] {
      SortAtDistance(s[1..], d);
      SortSorted(s[1..]);
      InsertAtDistance(s[0], SortByDistance(s[1..]), d);
    }
  }

  // ---------------------------------------------------------------------
  // Properties of the query

  lemma SortedPrefix(s: seq<Ranked>, k: nat)
    requires Sorted(s)
    ensures Sorted(Take(s, k))
  {
  }

  /**
   * Every result is an eligible registry record annotated with its own
   * distance from the query point.
   */
  lemma NearestEligible(snapshot: seq<Hospital>, loc: GeoPoint, opts: QueryOptions, dist: DistanceFn)
    ensures forall r :: r in Nearest(snapshot, loc, opts, dist) ==>
      && r.record in snapshot
      && Eligible(r.record, opts)
      && r.distanceKm == dist(loc, r.record.location)
  {
    if ValidPoint(loc) {
      var cands := Candidates(snapshot, opts);
      var annotated := Annotate(loc, cands, dist);
      var sorted := SortByDistance(annotated);
      CandidatesCount(snapshot, opts);
      SortPermutes(annotated);
      forall r | r in Nearest(snapshot, loc, opts, dist)
        ensures r.record in snapshot && Eligible(r.record, opts) && r.distanceKm == dist(loc, r.record.location)
      {
        assert r in sorted;
        assert r in multiset(annotated);
        var i :| 0 <= i < |annotated| && annotated[i] == r;
        assert cands[i] in multiset(cands);
      }
    }
  }

  /** Results come in non-decreasing order of distance. */
  lemma NearestSorted(snapshot: seq<Hospital>, loc: GeoPoint, opts: QueryOptions, dist: DistanceFn)
    ensures Sorted(Nearest(snapshot, loc, opts, dist))
  {
    if ValidPoint(loc) {
      var sorted := SortByDistance(Annotate(loc, Candidates(snapshot, opts), dist));
      SortSorted(Annotate(loc, Candidates(snapshot, opts), dist));
      SortedPrefix(sorted, Limit(opts));
    }
  }

  /** The result holds `min(limit, number of eligible hospitals)` entries. */
  lemma NearestLength(snapshot: seq<Hospital>, loc: GeoPoint, opts: QueryOptions, dist: DistanceFn)
    ensures |Nearest(snapshot, loc, opts, dist)| ==
      if !ValidPoint(loc) then 0
      else if Limit(opts) <= |Candidates(snapshot, opts)| then Limit(opts)
      else |Candidates(snapshot, opts)|
  {
    if ValidPoint(loc) {
      var annotated := Annotate(loc, Candidates(snapshot, opts), dist);
      SortPermutes(annotated);
      assert |multiset(SortByDistance(annotated))| == |multiset(annotated)|;
    }
  }

  /**
   * No eligible hospital left out of the result is strictly closer than a
   * hospital in it.
   */
  lemma NearestIsClosest(snapshot: seq<Hospital>, loc: GeoPoint, opts: QueryOptions, dist: DistanceFn)
    ensures forall h, r ::
      && h in snapshot
      && Eligible(h, opts)
      && Ranked(h, dist(loc, h.location)) !in Nearest(snapshot, loc, opts, dist)
      && r in Nearest(snapshot, loc, opts, dist)
      ==> r.distanceKm <= dist(loc, h.location)
  {
    if ValidPoint(loc) {
      var cands := Candidates(snapshot, opts);
      var annotated := Annotate(loc, cands, dist);
      var sorted := SortByDistance(annotated);
      var result := Nearest(snapshot, loc, opts, dist);
      CandidatesCount(snapshot, opts);
      SortPermutes(annotated);
      SortSorted(annotated);
      forall h, r |
        && h in snapshot
        && Eligible(h, opts)
        && Ranked(h, dist(loc, h.location)) !in result
        && r in result
        ensures r.distanceKm <= dist(loc, h.location)
      {
        assert h in multiset(cands);
        var i :| 0 <= i < |cands| && cands[i] == h;
        var x := Ranked(h, dist(loc, h.location));
        assert annotated[i] == x;
        assert x in multiset(sorted);
        var j :| 0 <= j < |sorted| && sorted[j] == x;
        var k :| 0 <= k < |result| && result[k] == r;
        assert result[k] == sorted[k];
        assert k < j;
      }
    }
  }

  /**
   * When fewer results than `limit` come back, every eligible hospital is
   * among them.
   */
  lemma NearestComplete(snapshot: seq<Hospital>, loc: GeoPoint, opts: QueryOptions, dist: DistanceFn)
    requires ValidPoint(loc)
    requires |Nearest(snapshot, loc, opts, dist)| < Limit(opts)
    ensures forall h :: h in snapshot && Eligible(h, opts) ==>
      Ranked(h, dist(loc, h.location)) in Nearest(snapshot, loc, opts, dist)
  {
    var cands := Candidates(snapshot, opts);
    var annotated := Annotate(loc, cands, dist);
    CandidatesCount(snapshot, opts);
    SortPermutes(annotated);
    forall h | h in snapshot && Eligible(h, opts)
      ensures Ranked(h, dist(loc, h.location)) in Nearest(snapshot, loc, opts, dist)
    {
      assert h in multiset(cands);
      var i :| 0 <= i < |cands| && cands[i] == h;
      assert annotated[i] in multiset(SortByDistance(annotated));
    }
  }

  /**
   * Ties keep registry order: the results at any one distance `d` are the
   * first eligible hospitals at distance `d`, in snapshot order.
   */
  lemma NearestKeepsOrderOnTies(snapshot: seq<Hospital>, loc: GeoPoint, opts: QueryOptions, dist: DistanceFn, d: real)
    ensures AtDistance(Nearest(snapshot, loc, opts, dist), d) <= AtDistance(Annotate(loc, Candidates(snapshot, opts), dist), d)
  {
    if ValidPoint(loc) {
      var annotated := Annotate(loc, Candidates(snapshot, opts), dist);
      var sorted := SortByDistance(annotated);
      SortAtDistance(annotated, d);
      var k := Limit(opts);
      if k <= |sorted| {
        assert sorted == sorted[..k] + sorted[k..];
        AtDistanceAppend(sorted[..k], sorted[k..], d);
      }
    }
  }
}
