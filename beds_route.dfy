/**
 * The bed-count update endpoint: the only logic of the HTTP layer that
 * touches the registry. It validates the body before the lookup and only
 * then calls the registry's unvalidated bed update.
 */
module BedsRoute {
  import opened Wrappers
  import opened HospitalRecords
  import opened Registry

  /** The `bedsAvailable` field of the request body: a number or anything else. */
  datatype BedsBody = Number(n: int) | NotANumber

  /** 400, 404, or 200 with the echoed id and count. */
  datatype PatchReply = BadRequest | NotFound | Updated(hospitalId: string, bedsAvailable: int)

  ghost predicate BedsNonNegative(t: Table)
  {
    forall id :: id in t.recs ==> t.recs[id].bedsAvailable >= 0
  }

  method PatchBeds(reg: HospitalRegistry, hospitalId: string, body: BedsBody) returns (reply: PatchReply)
    requires reg.Valid()
    modifies reg
    ensures reg.Valid()
    ensures reply ==
      if body.NotANumber? || body.n < 0 then BadRequest
      else if hospitalId !in old(reg.recs) then NotFound
      else Updated(hospitalId, body.n)
    ensures reg.State() == if reply.Updated? then UpdateBeds(old(reg.State()), hospitalId, body.n) else old(reg.State())
    ensures old(BedsNonNegative(reg.State())) ==> BedsNonNegative(reg.State())
  {
    if body.NotANumber? || body.n < 0 {
      return BadRequest;
    }
    var h := reg.GetHospital(hospitalId);
    if h.None? {
      return NotFound;
    }
    reg.UpdateHospitalBeds(hospitalId, body.n);
    reply := Updated(hospitalId, body.n);
  }
}
