/**
 * Sequences of requests against the registry, assuming each request is applied
 * atomically to the shared table. This module folds the three state transitions
 * of EmailTable over such a sequence and proves what no sequence of atomic
 * requests can break: the table invariants, the binding of an owned address to
 * its owner, and the immutability of a verified record. Add's lookup and its
 * later write are separate storage calls, so requests that interleave inside
 * an Add are outside these results.
 */
module EmailHistory {
  import opened EmailTable

  /** One state-changing call into the registry (queries change nothing and are left out). */
  datatype Request =
    | AddRequest(acc: AccountId, addr: Address, code: Code, freshId: RecordId)
    | VerifyRequest(acc: AccountId, addr: Address)
    | RemoveRequest(acc: AccountId, id: RecordId)

  /** The table after one request; every request keeps the table well formed. */
  function Apply(t: Table, req: Request): (u: Table)
    requires WellFormed(t)
    ensures WellFormed(u) && IdentityKept(t, u)
  {
    match req
    case AddRequest(acc, addr, code, freshId) =>
      AddPreservesWellFormed(t, acc, addr, code, freshId);
      AddStep(t, acc, addr, code, freshId).store
    case VerifyRequest(acc, addr) =>
      VerifyPreservesWellFormed(t, acc, addr);
      VerifyStep(t, acc, addr).store
    case RemoveRequest(acc, id) =>
      RemovePreservesWellFormed(t, acc, id);
      RemoveStep(t, acc, id)
  }

  /** The table after serving `reqs` in order; well formedness survives any sequence. */
  function Run(t: Table, reqs: seq<Request>): (u: Table)
    requires WellFormed(t)
    ensures WellFormed(u)
    decreases |reqs|
  {
    if reqs == [] then t else Run(Apply(t, reqs[0]), reqs[1..])
  }

  /** A single request leaves a verified record as it is, unless it is its owner's Remove of its ID. */
  lemma ApplyKeepsVerified(t: Table, req: Request, addr: Address)
    requires WellFormed(t)
    requires addr in t && t[addr].verified
    requires req != RemoveRequest(t[addr].owner.value, t[addr].id)
    ensures addr in Apply(t, req) && Apply(t, req)[addr] == t[addr]
  {
  }

  /**
   * A verified record is frozen: no sequence of requests changes its owner, its
   * code, its ID or its flag, and only a Remove by its owner can delete it.
   */
  lemma {:induction false} VerifiedRecordFrozen(t: Table, reqs: seq<Request>, addr: Address)
    requires WellFormed(t)
    requires addr in t && t[addr].verified
    requires forall i :: 0 <= i < |reqs| ==> reqs[i] != RemoveRequest(t[addr].owner.value, t[addr].id)
    ensures addr in Run(t, reqs) && Run(t, reqs)[addr] == t[addr]
    decreases |reqs|
  {
    if reqs != [] {
      ApplyKeepsVerified(t, reqs[0], addr);
      var u := Apply(t, reqs[0]);
      assert forall i :: 0 <= i < |reqs[1..]| ==> reqs[1..][i] == reqs[i + 1];
      VerifiedRecordFrozen(u, reqs[1..], addr);
    }
  }

  /** A single request keeps an owned record with its owner and ID, unless it is that owner's Remove. */
  lemma ApplyKeepsOwner(t: Table, req: Request, addr: Address)
    requires WellFormed(t)
    requires addr in t && t[addr].owner.Some?
    requires req != RemoveRequest(t[addr].owner.value, t[addr].id)
    ensures var u := Apply(t, req);
      addr in u && u[addr].owner == t[addr].owner && u[addr].id == t[addr].id
  {
  }

  /**
   * Once an address is claimed, no other account can take it over: its record
   * keeps its owner and ID through any sequence of requests that does not hold
   * the owner's own Remove of it.
   */
  lemma {:induction false} ClaimIsFinal(t: Table, reqs: seq<Request>, addr: Address)
    requires WellFormed(t)
    requires addr in t && t[addr].owner.Some?
    requires forall i :: 0 <= i < |reqs| ==> reqs[i] != RemoveRequest(t[addr].owner.value, t[addr].id)
    ensures var u := Run(t, reqs);
      addr in u && u[addr].owner == t[addr].owner && u[addr].id == t[addr].id
    decreases |reqs|
  {
    if reqs != [] {
      ApplyKeepsOwner(t, reqs[0], addr);
      var u := Apply(t, reqs[0]);
      assert forall i :: 0 <= i < |reqs[1..]| ==> reqs[1..][i] == reqs[i + 1];
      ClaimIsFinal(u, reqs[1..], addr);
    }
  }

  /**
   * Two claims of the same unclaimed address by different accounts, served one
   * after the other, give exactly one success: the second is AlreadyExists.
   */
  lemma CompetingClaimsOneWinner(
    t: Table, addr: Address,
    acc1: AccountId, code1: Code, id1: RecordId,
    acc2: AccountId, code2: Code, id2: RecordId)
    requires WellFormed(t)
    requires addr in t ==> t[addr].owner.None?
    requires addr !in t ==> !IdInUse(t, id1)
    requires acc1 != acc2
    ensures var o1 := AddStep(t, acc1, addr, code1, id1);
      && o1.result.Ok?
      && WellFormed(o1.store)
      && AddStep(o1.store, acc2, addr, code2, id2) == AddOutcome(Fail(AlreadyExists), o1.store)
  {
  }
}
