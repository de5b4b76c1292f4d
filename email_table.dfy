/**
 * The Email table of the email ownership registry and the pure operations on it.
 *
 * The database table is modelled as a map from address to record: the storage
 * engine's uniqueness constraint on the address column becomes the map's key.
 * Every read-only query of the repository is a function of the table, and every
 * write is a function from the old table to an outcome and the new table; the
 * repository class (module EmailRepository) applies these to its mutable state.
 */
module EmailTable {

  /** An account identifier (an xid in the source); only compared for equality. */
  datatype AccountId = AccountId(xid: seq<bv8>)

  /** An email record identifier (an xid in the source); only compared for equality. */
  datatype RecordId = RecordId(xid: seq<bv8>)

  /** The raw address string; its syntax is validated before it reaches the registry. */
  type Address = string

  /** An opaque verification code; compared, never interpreted. */
  type Code = string

  datatype Option<+T> = None | Some(value: T)

  /** The error tags the registry attaches to its failures. */
  datatype ErrorKind = AlreadyExists | NotFound | Internal

  /** The outcome of an operation that returns a value or fails with a tag. */
  datatype Result<+T> = Ok(value: T) | Fail(error: ErrorKind)

  /** The outcome of an operation that returns nothing but may fail with a tag. */
  datatype Status = Success | Failure(error: ErrorKind)

  /** One row of the Email table; `owner == None` is a provisioned, unclaimed address. */
  datatype EmailRecord = EmailRecord(
    id: RecordId,
    address: Address,
    owner: Option<AccountId>,
    code: Code,
    verified: bool)

  type Table = map<Address, EmailRecord>

  // ---------------------------------------------------------------------------
  // Table invariants
  // ---------------------------------------------------------------------------

  /** Each record is stored under its own address, so there is at most one record per address. */
  predicate KeyedByAddress(t: Table) {
    forall a :: a in t ==> t[a].address == a
  }

  /** An address cannot be verified without an owner. */
  predicate VerifiedHaveOwner(t: Table) {
    forall a :: a in t && t[a].verified ==> t[a].owner.Some?
  }

  /** No two records share an ID. */
  predicate UniqueIds(t: Table) {
    forall a, b :: a in t && b in t && t[a].id == t[b].id ==> a == b
  }

  predicate WellFormed(t: Table) {
    KeyedByAddress(t) && VerifiedHaveOwner(t) && UniqueIds(t)
  }

  predicate IdInUse(t: Table, id: RecordId) {
    exists a :: a in t && t[a].id == id
  }

  /** No record that survives `t` to `u` has its ID or its address changed. */
  predicate IdentityKept(t: Table, u: Table) {
    forall a :: a in t && a in u ==> u[a].id == t[a].id && u[a].address == t[a].address
  }

  /** Every record of `t` other than the one at `addr` is in `u` unchanged, and `u` has no other new record. */
  predicate OthersUnchanged(t: Table, u: Table, addr: Address) {
    && (forall a :: a in t && a != addr ==> a in u && u[a] == t[a])
    && (forall a :: a in u && a != addr ==> a in t)
  }

  // ---------------------------------------------------------------------------
  // Read-only queries
  // ---------------------------------------------------------------------------

  /** The only record whose address column is `addr`, if any (the lookup of an existing address). */
  function LookupEmail(t: Table, addr: Address): (r: Option<EmailRecord>)
    requires KeyedByAddress(t)
    ensures r.Some? <==> exists a :: a in t && t[a].address == addr
    ensures r.Some? ==> r.value in t.Values && r.value.address == addr
  {
    if addr in t then Some(t[addr]) else None
  }

  /** The stored verification code of the record for `addr`; a missing record is an Internal error. */
  function GetCode(t: Table, addr: Address): (r: Result<Code>)
    requires KeyedByAddress(t)
    ensures r.Fail? <==> forall a :: a in t ==> t[a].address != addr
    ensures r.Fail? ==> r.error == Internal
    ensures r.Ok? ==> exists a :: a in t && t[a].address == addr && t[a].code == r.value
  {
    match LookupEmail(t, addr)
    case Some(rec) => Ok(rec.code)
    case None => Fail(Internal)
  }

  /**
   * The account that owns a record matching both `addr` and `code` exactly.
   * A wrong code or an unowned record is an ordinary "not found", never an error.
   */
  function LookupCode(t: Table, addr: Address, code: Code): (r: Option<AccountId>)
    requires KeyedByAddress(t)
    ensures r.Some? <==> exists a :: a in t && t[a].address == addr && t[a].code == code && t[a].owner.Some?
    ensures r.Some? ==> exists a :: a in t && t[a].address == addr && t[a].code == code && t[a].owner == r
  {
    match LookupEmail(t, addr)
    case Some(rec) => if rec.code == code then rec.owner else None
    case None => None
  }

  /** The account that owns the record for `addr`, verified or not. */
  function LookupAccount(t: Table, addr: Address): (r: Option<AccountId>)
    requires KeyedByAddress(t)
    ensures r.Some? <==> exists a :: a in t && t[a].address == addr && t[a].owner.Some?
    ensures r.Some? ==> exists a :: a in t && t[a].address == addr && t[a].owner == r
  {
    match LookupEmail(t, addr)
    case Some(rec) => rec.owner
    case None => None
  }

  // ---------------------------------------------------------------------------
  // Storage writes
  // ---------------------------------------------------------------------------

  /** Create a row; a clash with an existing address or ID is a constraint violation. */
  function Insert(t: Table, rec: EmailRecord): (r: Result<Table>)
    ensures r.Ok? <==> rec.address !in t && !IdInUse(t, rec.id)
    ensures r.Fail? ==> r.error == AlreadyExists
    ensures r.Ok? ==>
      && r.value.Keys == t.Keys + {rec.address}
      && r.value[rec.address] == rec
      && OthersUnchanged(t, r.value, rec.address)
    ensures r.Ok? && UniqueIds(t) ==> UniqueIds(r.value)
  {
    if rec.address in t || IdInUse(t, rec.id) then Fail(AlreadyExists)
    else Ok(t[rec.address := rec])
  }

  /** The addresses of the rows the Verify predicate selects: address `addr` and owner `acc`. */
  function VerifyRows(t: Table, acc: AccountId, addr: Address): set<Address> {
    set a | a in t && t[a].address == addr && t[a].owner == Some(acc)
  }

  /** Set the verified flag on the given rows. */
  function SetVerified(t: Table, rows: set<Address>): Table {
    map a | a in t :: if a in rows then t[a].(verified := true) else t[a]
  }

  /** The addresses of the rows the Remove predicate selects: ID `id` and owner `acc`. */
  function RemoveRows(t: Table, acc: AccountId, id: RecordId): set<Address> {
    set a | a in t && t[a].id == id && t[a].owner == Some(acc)
  }

  /** Delete the given rows. */
  function DeleteRows(t: Table, rows: set<Address>): Table {
    map a | a in t && a !in rows :: t[a]
  }

  // ---------------------------------------------------------------------------
  // The three state transitions
  // ---------------------------------------------------------------------------

  datatype AddOutcome = AddOutcome(result: Result<EmailRecord>, store: Table)

  /**
   * Claim or re-claim `addr` for `acc` with a freshly issued `code`. `freshId` is
   * the ID a newly created record receives.
   */
  function AddStep(t: Table, acc: AccountId, addr: Address, code: Code, freshId: RecordId): (o: AddOutcome)
    requires KeyedByAddress(t)
    ensures o.result.Fail? ==> o.result.error == AlreadyExists && o.store == t
    ensures o.result.Ok? ==>
      var rec := o.result.value;
      && rec.address == addr && rec.owner == Some(acc) && rec.code == code && !rec.verified
      && o.store == t[addr := rec]
  {
    match LookupEmail(t, addr)
    case Some(existing) =>
      if existing.owner.Some? && existing.owner.value != acc then
        // claimed by a different account
        AddOutcome(Fail(AlreadyExists), t)
      else if existing.owner == Some(acc) then
        if existing.verified then
          // already verified for this account: re-adding is refused
          AddOutcome(Fail(AlreadyExists), t)
        else
          // unverified for this account: reissue the code
          var updated := existing.(code := code);
          AddOutcome(Ok(updated), t[addr := updated])
      else
        // provisioned without an owner: claim it, resetting verification
        var updated := existing.(owner := Some(acc), code := code, verified := false);
        AddOutcome(Ok(updated), t[addr := updated])
    case None =>
      var created := EmailRecord(freshId, addr, Some(acc), code, false);
      match Insert(t, created)
      case Ok(u) => AddOutcome(Ok(created), u)
      case Fail(e) => AddOutcome(Fail(e), t)
  }

  datatype VerifyOutcome = VerifyOutcome(status: Status, store: Table)

  /** Set the verified flag on the record for `addr` owned by `acc`; no such record is NotFound. */
  function VerifyStep(t: Table, acc: AccountId, addr: Address): (o: VerifyOutcome)
    ensures o.status.Failure? ==> o.status.error == NotFound && o.store == t
    ensures o.store.Keys == t.Keys
    ensures forall a :: a in t ==>
      if t[a].address == addr && t[a].owner == Some(acc) then o.store[a] == t[a].(verified := true)
      else o.store[a] == t[a]
  {
    var rows := VerifyRows(t, acc, addr);
    var u := SetVerified(t, rows);
    if |rows| == 0 then VerifyOutcome(Failure(NotFound), u) else VerifyOutcome(Success, u)
  }

  /** Delete the record with ID `id` if `acc` owns it; the operation itself always succeeds. */
  function RemoveStep(t: Table, acc: AccountId, id: RecordId): (u: Table)
    ensures forall a :: a in u <==> a in t && !(t[a].id == id && t[a].owner == Some(acc))
    ensures forall a :: a in u ==> u[a] == t[a]
  {
    DeleteRows(t, RemoveRows(t, acc, id))
  }

  // ---------------------------------------------------------------------------
  // Add: one lemma per branch of the decision
  // ---------------------------------------------------------------------------

  /** A new address with an unused ID gets exactly one new record, owned by the caller and unverified. */
  lemma AddCreatesRecord(t: Table, acc: AccountId, addr: Address, code: Code, freshId: RecordId)
    requires KeyedByAddress(t)
    requires addr !in t && !IdInUse(t, freshId)
    ensures var o := AddStep(t, acc, addr, code, freshId);
      && o.result == Ok(EmailRecord(freshId, addr, Some(acc), code, false))
      && o.store.Keys == t.Keys + {addr}
      && OthersUnchanged(t, o.store, addr)
  {
  }

  /** The create path's constraint violation: an ID collision is reported as AlreadyExists. */
  lemma AddIdCollision(t: Table, acc: AccountId, addr: Address, code: Code, freshId: RecordId)
    requires KeyedByAddress(t)
    requires addr !in t && IdInUse(t, freshId)
    ensures AddStep(t, acc, addr, code, freshId) == AddOutcome(Fail(AlreadyExists), t)
  {
  }

  /** An address another account owns cannot be claimed, whatever its verified flag. */
  lemma AddRejectsOtherOwner(t: Table, acc: AccountId, addr: Address, code: Code, freshId: RecordId)
    requires KeyedByAddress(t)
    requires addr in t && t[addr].owner.Some? && t[addr].owner.value != acc
    ensures AddStep(t, acc, addr, code, freshId) == AddOutcome(Fail(AlreadyExists), t)
  {
  }

  /** An address the caller has already verified cannot be added again. */
  lemma AddRejectsVerified(t: Table, acc: AccountId, addr: Address, code: Code, freshId: RecordId)
    requires KeyedByAddress(t)
    requires addr in t && t[addr].owner == Some(acc) && t[addr].verified
    ensures AddStep(t, acc, addr, code, freshId) == AddOutcome(Fail(AlreadyExists), t)
  {
  }

  /** Re-adding an own unverified address only replaces its code: same record, same ID, same owner. */
  lemma AddReissuesCode(t: Table, acc: AccountId, addr: Address, code: Code, freshId: RecordId)
    requires KeyedByAddress(t)
    requires addr in t && t[addr].owner == Some(acc) && !t[addr].verified
    ensures var o := AddStep(t, acc, addr, code, freshId);
      && o.result == Ok(t[addr].(code := code))
      && o.store.Keys == t.Keys
      && o.result.value.id == t[addr].id
      && OthersUnchanged(t, o.store, addr)
  {
  }

  /** Claiming a provisioned address sets the owner, replaces the code and resets verification. */
  lemma AddClaimsProvisioned(t: Table, acc: AccountId, addr: Address, code: Code, freshId: RecordId)
    requires KeyedByAddress(t)
    requires addr in t && t[addr].owner.None?
    ensures var o := AddStep(t, acc, addr, code, freshId);
      && o.result == Ok(t[addr].(owner := Some(acc), code := code, verified := false))
      && o.store.Keys == t.Keys
      && o.result.value.id == t[addr].id
      && OthersUnchanged(t, o.store, addr)
  {
  }

  /** Add fails exactly in the two refusal cases and on an ID collision when creating. */
  lemma AddFailsExactly(t: Table, acc: AccountId, addr: Address, code: Code, freshId: RecordId)
    requires KeyedByAddress(t)
    ensures AddStep(t, acc, addr, code, freshId).result.Fail? <==>
      if addr in t then
        || (t[addr].owner.Some? && t[addr].owner.value != acc)
        || (t[addr].owner == Some(acc) && t[addr].verified)
      else IdInUse(t, freshId)
  {
  }

  /** Add keeps the table well formed: one record per address, verified implies owned, unique IDs. */
  lemma AddPreservesWellFormed(t: Table, acc: AccountId, addr: Address, code: Code, freshId: RecordId)
    requires WellFormed(t)
    ensures var u := AddStep(t, acc, addr, code, freshId).store;
      WellFormed(u) && IdentityKept(t, u) && OthersUnchanged(t, u, addr)
  {
  }

  /** After a successful Add, looking up the new code yields the claimant. */
  lemma AddThenLookupCode(t: Table, acc: AccountId, addr: Address, code: Code, freshId: RecordId)
    requires WellFormed(t)
    requires AddStep(t, acc, addr, code, freshId).result.Ok?
    ensures var u := AddStep(t, acc, addr, code, freshId).store;
      && KeyedByAddress(u)
      && LookupCode(u, addr, code) == Some(acc)
      && LookupAccount(u, addr) == Some(acc)
      && GetCode(u, addr) == Ok(code)
  {
  }

  // ---------------------------------------------------------------------------
  // Verify
  // ---------------------------------------------------------------------------

  /** Uniqueness of the address means the Verify predicate selects at most that one record. */
  lemma VerifyRowsAtMostOne(t: Table, acc: AccountId, addr: Address)
    requires KeyedByAddress(t)
    ensures VerifyRows(t, acc, addr) ==
      if addr in t && t[addr].owner == Some(acc) then {addr} else {}
  {
  }

  /**
   * Verify succeeds exactly when `acc` owns the record for `addr`, and then only
   * sets that record's flag; otherwise it is NotFound and nothing changes.
   */
  lemma VerifyOnlyOwner(t: Table, acc: AccountId, addr: Address)
    requires KeyedByAddress(t)
    ensures var o := VerifyStep(t, acc, addr);
      && (o.status == Success <==> addr in t && t[addr].owner == Some(acc))
      && (o.status.Success? ==> o.store == t[addr := t[addr].(verified := true)])
      && (o.status.Failure? ==> o.status.error == NotFound && o.store == t)
  {
    var rows := VerifyRows(t, acc, addr);
    VerifyRowsAtMostOne(t, acc, addr);
    var u := SetVerified(t, rows);
    if addr in t && t[addr].owner == Some(acc) {
      assert u == t[addr := t[addr].(verified := true)];
    } else {
      assert rows == {};
      assert u == t;
    }
  }

  /** Verify keeps the table well formed and changes no record other than the one at `addr`. */
  lemma VerifyPreservesWellFormed(t: Table, acc: AccountId, addr: Address)
    requires WellFormed(t)
    ensures var u := VerifyStep(t, acc, addr).store;
      WellFormed(u) && IdentityKept(t, u) && OthersUnchanged(t, u, addr) && u.Keys == t.Keys
  {
  }

  /** Verification leaves the code in place, so the code lookup keeps naming the owner. */
  lemma VerifyKeepsCode(t: Table, acc: AccountId, addr: Address)
    requires KeyedByAddress(t)
    requires addr in t && t[addr].owner == Some(acc)
    ensures var u := VerifyStep(t, acc, addr).store;
      KeyedByAddress(u) && GetCode(u, addr) == GetCode(t, addr)
      && LookupCode(u, addr, t[addr].code) == Some(acc)
  {
  }

  // ---------------------------------------------------------------------------
  // Remove
  // ---------------------------------------------------------------------------

  /** With unique IDs the Remove predicate selects at most one record. */
  lemma RemoveRowsAtMostOne(t: Table, acc: AccountId, id: RecordId)
    requires UniqueIds(t)
    ensures |RemoveRows(t, acc, id)| <= 1
  {
    var rows := RemoveRows(t, acc, id);
    if rows != {} {
      var a :| a in rows;
      forall b | b in rows ensures b == a {
        assert t[a].id == id == t[b].id;
      }
      assert rows == {a};
    }
  }

  /**
   * Remove deletes exactly the records with ID `id` owned by `acc` (at most one)
   * and leaves every other record as it was; when none matches it is a silent no-op.
   */
  lemma RemoveOnlyOwned(t: Table, acc: AccountId, id: RecordId)
    requires UniqueIds(t)
    ensures var u := RemoveStep(t, acc, id);
      && (forall a :: a in u <==> a in t && !(t[a].id == id && t[a].owner == Some(acc)))
      && (forall a :: a in u ==> u[a] == t[a])
      && |t.Keys - u.Keys| <= 1
      && (!(exists a :: a in t && t[a].id == id && t[a].owner == Some(acc)) ==> u == t)
  {
    var u := RemoveStep(t, acc, id);
    var rows := RemoveRows(t, acc, id);
    assert t.Keys - u.Keys == rows;
    RemoveRowsAtMostOne(t, acc, id);
  }

  /** Remove keeps the table well formed. */
  lemma RemovePreservesWellFormed(t: Table, acc: AccountId, id: RecordId)
    requires WellFormed(t)
    ensures var u := RemoveStep(t, acc, id);
      WellFormed(u) && IdentityKept(t, u)
  {
  }
}
