/**
 * The module-level hospital table: a JavaScript `Map` from `hospitalId` to
 * record, which iterates in insertion order. Its state is the sequence of
 * keys in insertion order together with the key-to-record map.
 */
module Registry {
  import opened Wrappers
  import opened HospitalRecords
  import opened NearestQuery

  datatype Table = Table(ids: seq<string>, recs: map<string, Hospital>)

  const Empty := Table([], map[])

  predicate NoDuplicates(s: seq<string>)
  {
    forall i, j :: 0 <= i < j < |s| ==> s[i] != s[j]
  }

  /**
   * Each key occurs once in insertion order, the keys in order are exactly
   * the keys of the map, and every record is stored under its own id.
   */
  ghost predicate WellFormed(t: Table)
  {
    && NoDuplicates(t.ids)
    && (forall id :: id in t.recs <==> id in t.ids)
    && (forall id :: id in t.recs ==> t.recs[id].hospitalId == id)
  }

  /** `Array.from(hospitalRegistry.values())`: the records in insertion order. */
  function Values(t: Table): seq<Hospital>
    requires WellFormed(t)
  {
    seq(|t.ids|, i requires 0 <= i < |t.ids| => t.recs[t.ids[i]])
  }

  /** `hospitalRegistry.get(id)` */
  function Lookup(t: Table, id: string): Option<Hospital>
  {
    if id in t.recs then Some(t.recs[id]) else None
  }

  /**
   * `hospitalRegistry.set(h.hospitalId, h)`: a new key goes to the end of the
   * insertion order, an existing key keeps its place.
   */
  function Register(t: Table, h: Hospital): (r: Table)
    requires WellFormed(t)
    ensures WellFormed(r)
    ensures Lookup(r, h.hospitalId) == Some(h)
    ensures forall id :: id != h.hospitalId ==> Lookup(r, id) == Lookup(t, id)
  {
    var ids := if h.hospitalId in t.recs then t.ids else t.ids + [h.hospitalId];
    Table(ids, t.recs[h.hospitalId := h])
  }

  /** `updateHospitalBeds`: overwrites `bedsAvailable` of a known record, unvalidated. */
  function UpdateBeds(t: Table, id: string, beds: int): (r: Table)
    requires WellFormed(t)
    ensures WellFormed(r) && r.ids == t.ids
    ensures Lookup(r, id) == if id in t.recs then Some(t.recs[id].(bedsAvailable := beds)) else None
    ensures forall other :: other != id ==> Lookup(r, other) == Lookup(t, other)
  {
    if id in t.recs then Table(t.ids, t.recs[id := t.recs[id].(bedsAvailable := beds)]) else t
  }

  /** `setHospitalActive`: overwrites `active` of a known record. */
  function SetActive(t: Table, id: string, active: bool): (r: Table)
    requires WellFormed(t)
    ensures WellFormed(r) && r.ids == t.ids
    ensures Lookup(r, id) == if id in t.recs then Some(t.recs[id].(active := active)) else None
    ensures forall other :: other != id ==> Lookup(r, other) == Lookup(t, other)
  {
    if id in t.recs then Table(t.ids, t.recs[id := t.recs[id].(active := active)]) else t
  }

  // ---------------------------------------------------------------------
  // Lemmas about the table

  lemma {:induction false} DistinctCardinality(s: seq<string>)
    requires NoDuplicates(s)
    ensures |set id | id in s| == |s|
  {
    if s != [] {
      DistinctCardinality(s[1..]);
      assert (set id | id in s) == (set id | id in s[1..]) + {s[0]};
      assert s[0] !in s[1..];
    }
  }

  /**
   * Listing the registry yields every record exactly once, each stored
   * under its own id, in insertion order.
   */
  lemma ValuesListEachOnce(t: Table)
    requires WellFormed(t)
    ensures |Values(t)| == |t.recs|
    ensures forall i :: 0 <= i < |Values(t)| ==> Values(t)[i] == t.recs[Values(t)[i].hospitalId]
    ensures forall i, j :: 0 <= i < j < |Values(t)| ==> Values(t)[i].hospitalId != Values(t)[j].hospitalId
    ensures forall id :: id in t.recs ==> t.recs[id] in Values(t)
  {
    DistinctCardinality(t.ids);
    assert t.recs.Keys == set id | id in t.ids;
    forall id | id in t.recs
      ensures t.recs[id] in Values(t)
    {
      var i :| 0 <= i < |t.ids| && t.ids[i] == id;
      assert Values(t)[i] == t.recs[id];
    }
  }

  /**
   * Registering a known id replaces its record in place; registering a new
   * id appends the record; no entry is ever listed twice.
   */
  lemma RegisterKeepsOrder(t: Table, h: Hospital)
    requires WellFormed(t)
    ensures h.hospitalId in t.recs ==>
      && |Values(Register(t, h))| == |Values(t)|
      && forall i :: 0 <= i < |Values(t)| ==>
           Values(Register(t, h))[i] == if Values(t)[i].hospitalId == h.hospitalId then h else Values(t)[i]
    ensures h.hospitalId !in t.recs ==> Values(Register(t, h)) == Values(t) + [h]
  {
  }

  /**
   * `updateHospitalBeds` on a known id changes that record's
   * `bedsAvailable` and nothing else; on an unknown id it changes nothing.
   */
  lemma UpdateBedsChangesOnlyBeds(t: Table, id: string, beds: int)
    requires WellFormed(t)
    ensures id !in t.recs ==> UpdateBeds(t, id, beds) == t
    ensures |Values(UpdateBeds(t, id, beds))| == |Values(t)|
    ensures forall i :: 0 <= i < |Values(t)| ==>
      Values(UpdateBeds(t, id, beds))[i] ==
        if Values(t)[i].hospitalId == id then Values(t)[i].(bedsAvailable := beds) else Values(t)[i]
    ensures Lookup(UpdateBeds(t, id, beds), id) ==
      if id in t.recs then Some(t.recs[id].(bedsAvailable := beds)) else None
  {
  }

  /**
   * `setHospitalActive` is idempotent, a no-op on an unknown id, and changes
   * only the `active` field of the named record.
   */
  lemma SetActiveChangesOnlyActive(t: Table, id: string, active: bool)
    requires WellFormed(t)
    ensures SetActive(SetActive(t, id, active), id, active) == SetActive(t, id, active)
    ensures id !in t.recs ==> SetActive(t, id, active) == t
    ensures |Values(SetActive(t, id, active))| == |Values(t)|
    ensures forall i :: 0 <= i < |Values(t)| ==>
      Values(SetActive(t, id, active))[i] ==
        if Values(t)[i].hospitalId == id then Values(t)[i].(active := active) else Values(t)[i]
  {
  }

  /** A registered hospital that is not active is never a query result. */
  lemma InactiveNeverNearest(t: Table, id: string, loc: GeoPoint, opts: QueryOptions, dist: DistanceFn)
    requires WellFormed(t)
    requires id in t.recs && !t.recs[id].active
    ensures forall r :: r in Nearest(Values(t), loc, opts, dist) ==> r.record.hospitalId != id
  {
    NearestEligible(Values(t), loc, opts, dist);
    forall r | r in Nearest(Values(t), loc, opts, dist)
      ensures r.record.hospitalId != id
    {
      var i :| 0 <= i < |Values(t)| && Values(t)[i] == r.record;
      assert r.record == t.recs[t.ids[i]];
    }
  }

  /** Once a hospital is set inactive, the query never returns it. */
  lemma DeactivatedNeverNearest(t: Table, id: string, loc: GeoPoint, opts: QueryOptions, dist: DistanceFn)
    requires WellFormed(t)
    ensures forall r :: r in Nearest(Values(SetActive(t, id, false)), loc, opts, dist) ==> r.record.hospitalId != id
  {
    var t' := SetActive(t, id, false);
    if id in t.recs {
      InactiveNeverNearest(t', id, loc, opts, dist);
    } else {
      NearestEligible(Values(t'), loc, opts, dist);
      forall r | r in Nearest(Values(t'), loc, opts, dist)
        ensures r.record.hospitalId != id
      {
        var i :| 0 <= i < |Values(t')| && Values(t')[i] == r.record;
        assert r.record.hospitalId == t'.ids[i];
      }
    }
  }

  // ---------------------------------------------------------------------
  // The registry as the module-level mutable table

  class HospitalRegistry {
    var ids: seq<string>
    var recs: map<string, Hospital>

    function State(): Table
      reads this
    {
      Table(ids, recs)
    }

    ghost predicate Valid()
      reads this
    {
      WellFormed(State())
    }

    /** The registry before any hospital is registered. */
    constructor ()
      ensures Valid() && State() == Empty
    {
      ids := [];
      recs := map[];
    }

    method RegisterHospital(h: Hospital)
      requires Valid()
      modifies this
      ensures Valid()
      ensures State() == Register(old(State()), h)
      ensures Lookup(State(), h.hospitalId) == Some(h)
    {
      if h.hospitalId !in recs {
        ids := ids + [h.hospitalId];
      }
      recs := recs[h.hospitalId := h];
    }

    method UpdateHospitalBeds(hospitalId: string, bedsAvailable: int)
      requires Valid()
      modifies this
      ensures Valid()
      ensures State() == UpdateBeds(old(State()), hospitalId, bedsAvailable)
    {
      if hospitalId in recs {
        recs := recs[hospitalId := recs[hospitalId].(bedsAvailable := bedsAvailable)];
      }
    }

    method SetHospitalActive(hospitalId: string, active: bool)
      requires Valid()
      modifies this
      ensures Valid()
      ensures State() == SetActive(old(State()), hospitalId, active)
    {
      if hospitalId in recs {
        recs := recs[hospitalId := recs[hospitalId].(active := active)];
      }
    }

    method GetHospital(hospitalId: string) returns (h: Option<Hospital>)
      requires Valid()
      ensures h.Some? <==> hospitalId in recs
      ensures h.Some? ==> h.value == recs[hospitalId] && h.value.hospitalId == hospitalId
    {
      h := if hospitalId in recs then Some(recs[hospitalId]) else None;
    }

    method GetAllHospitals() returns (all: seq<Hospital>)
      requires Valid()
      ensures all == Values(State())
      ensures |all| == |recs|
      ensures forall id :: id in recs ==> recs[id] in all
    {
      all := Values(State());
      ValuesListEachOnce(State());
    }

    /** The query reads a snapshot of the registry and changes nothing. */
    method FindNearestHospital(location: GeoPoint, opts: QueryOptions, dist: DistanceFn) returns (result: seq<Ranked>)
      requires Valid()
      ensures result == Nearest(Values(State()), location, opts, dist)
    {
      result := Nearest(Values(State()), location, opts, dist);
    }
  }
}
