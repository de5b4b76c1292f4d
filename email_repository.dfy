/**
 * The email repository: a handle on the shared Email table whose Add, Verify and
 * Remove change the table in place. Each method performs the same storage calls
 * as the repository (a lookup followed by a conditional update or create, a
 * predicate update with an affected-row count, a predicate delete) and is proved
 * to leave the table exactly as the matching transition of EmailTable says.
 * The read-only queries are the functions LookupEmail, GetCode, LookupCode and
 * LookupAccount of EmailTable, applied to `records`.
 */
module EmailRepository {
  import opened EmailTable

  class Repository {
    /** The Email table. */
    var records: Table

    ghost predicate Valid()
      reads this
    {
      WellFormed(records)
    }

    /**
     * A repository over an existing table, which may already hold provisioned
     * addresses. Address and ID uniqueness are storage constraints; that a
     * verified row has an owner is assumed of the rows written from elsewhere.
     */
    constructor (db: Table)
      requires WellFormed(db)
      ensures Valid() && records == db
    {
      records := db;
    }

    /** Claim or re-claim `addr` for `acc` with the new `code`; `freshId` names a created record. */
    method Add(acc: AccountId, addr: Address, code: Code, freshId: RecordId) returns (r: Result<EmailRecord>)
      requires Valid()
      modifies this
      ensures Valid()
      ensures r == AddStep(old(records), acc, addr, code, freshId).result
      ensures records == AddStep(old(records), acc, addr, code, freshId).store
    {
      AddPreservesWellFormed(records, acc, addr, code, freshId);
      var existing := LookupEmail(records, addr);
      if existing.Some? {
        var e := existing.value;
        if e.owner.Some? && e.owner.value != acc {
          return Fail(AlreadyExists);
        }
        if e.owner == Some(acc) {
          if e.verified {
            return Fail(AlreadyExists);
          }
          var updated := e.(code := code);
          records := records[addr := updated];
          return Ok(updated);
        }
        var claimed := e.(owner := Some(acc), code := code, verified := false);
        records := records[addr := claimed];
        return Ok(claimed);
      }
      var created := EmailRecord(freshId, addr, Some(acc), code, false);
      var saved := Insert(records, created);
      if saved.Fail? {
        return Fail(saved.error);
      }
      records := saved.value;
      return Ok(created);
    }

    /** Mark the record for `addr` as verified if `acc` owns it; otherwise NotFound. */
    method Verify(acc: AccountId, addr: Address) returns (s: Status)
      requires Valid()
      modifies this
      ensures Valid()
      ensures s == VerifyStep(old(records), acc, addr).status
      ensures records == VerifyStep(old(records), acc, addr).store
      ensures s == Success <==> addr in old(records) && old(records)[addr].owner == Some(acc)
      ensures s.Failure? ==> s.error == NotFound && records == old(records)
      ensures s.Success? ==> records == old(records)[addr := old(records)[addr].(verified := true)]
    {
      VerifyOnlyOwner(records, acc, addr);
      VerifyPreservesWellFormed(records, acc, addr);
      var rows := VerifyRows(records, acc, addr);
      records := SetVerified(records, rows);
      var affected := |rows|;
      if affected == 0 {
        return Failure(NotFound);
      }
      return Success;
    }

    /** Delete the record with ID `id` if `acc` owns it; any other case is a silent no-op. */
    method Remove(acc: AccountId, id: RecordId) returns (s: Status)
      requires Valid()
      modifies this
      ensures Valid() && s == Success
      ensures records == RemoveStep(old(records), acc, id)
      ensures forall a :: a in records <==>
        a in old(records) && !(old(records)[a].id == id && old(records)[a].owner == Some(acc))
      ensures forall a :: a in records ==> records[a] == old(records)[a]
      ensures |old(records).Keys - records.Keys| <= 1
    {
      RemoveOnlyOwned(records, acc, id);
      RemovePreservesWellFormed(records, acc, id);
      records := DeleteRows(records, RemoveRows(records, acc, id));
      return Success;
    }
  }
}
