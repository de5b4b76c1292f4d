# Email ownership registry — a verified model

This project models the email repository of an account service: the table of
email records and the operations that claim, verify, remove and look up an
address. Each record has an ID, an address, an optional owning account, a
verification code and a verified flag. A record without an owner is a
provisioned address awaiting a claim.

- `EmailTable` (email_table.dfy) holds the record type, the table, which is a `map`
  from address to record, and its invariants. It also holds the read-only queries
  (`LookupEmail`, `GetCode`, `LookupCode`, `LookupAccount`) as functions. The three
  writes are functions from the old table to an outcome and the new table
  (`AddStep`, `VerifyStep`, `RemoveStep`). One lemma states each branch of the Add
  decision, and further lemmas cover Verify, Remove and invariant preservation.
- `EmailRepository` (email_repository.dfy) is the repository object. Its `records`
  field is the shared table. `Add`, `Verify` and `Remove` update it in place with the
  same storage steps as the source: a lookup, then a conditional update or a create;
  a predicate update that counts the rows it affected; a predicate delete. Each
  method is proved to produce the table its transition function describes.
- `EmailHistory` (email_history.dfy) serves a sequence of requests one after another,
  each applied atomically. It proves that no such sequence breaks the table
  invariants, takes a claimed address from its owner, or changes a verified record
  unless its owner removes it. Add's lookup and its write are separate calls in the
  source, so requests that interleave inside an Add can break the last two
  (see "## Left out").

The table invariants (`WellFormed`) are:
- at most one record per address, because the map is keyed by address and each
  record's address equals its key;
- a verified record always has an owner;
- no two records share an ID.

Storage enforces the first and the last, through the map key and the primary key.
The second is not enforced by storage. Provisioned rows are written by code outside
this repository, so the invariant is assumed of the initial table: it is the
constructor's `requires`. Every operation then preserves it, and
`VerifiedRecordFrozen` depends on it.

No operation changes a surviving record's ID or address (`IdentityKept`).

Design decisions:
- The address uniqueness constraint is built into the map key. The storage layer's
  create is `Insert`. It reports an address or ID clash as a constraint violation,
  and Add maps that to AlreadyExists, as the source does.
- The fresh record ID for a create is a parameter of Add. If that ID is already in
  use, the create fails with AlreadyExists and the table is left unchanged
  (`AddIdCollision`).
- Account and record identifiers are wrappers around a byte sequence (the xid's
  bytes), and no member uses more than their equality. A concrete wrapper is used
  rather than an abstract type so that the identifier types are known to have values,
  and every contract over them can be met. Addresses and codes are strings.
- Both of Add's refusals (claimed by another account, already verified) carry the
  same tag, AlreadyExists, because the code tags them that way. The two refusals are
  told apart only by the lemmas `AddRejectsOtherOwner` and `AddRejectsVerified`;
  both return the same outcome.
- The source returns success from Remove even when no row was deleted. The model
  keeps that behaviour (`RemoveOnlyOwned`).
- The queries return the owning `AccountId` where the source loads and maps the full
  account with its edges.

## Model

| member | source | states |
|---|---|---|
| `EmailTable.LookupEmail` | app/resources/account/email/email.go:168-181 | the result is present exactly when some record has that address, and it is then that record |
| `EmailTable.GetCode` | app/resources/account/email/email.go:103-113 | returns the code stored on the record with that address; an Internal error exactly when no record has it |
| `EmailTable.LookupCode` | app/resources/account/email/email.go:115-142 | finds an account exactly when an owned record matches both the address and the code, and that record's owner is the account; any mismatch or an unowned record is "not found", never an error |
| `EmailTable.LookupAccount` | app/resources/account/email/email.go:183-210 | finds an account exactly when the record with that address has an owner, verified or not, and returns that owner |
| `EmailTable.AddStep` | app/resources/account/email/email.go:26-101 | a failure is always AlreadyExists and leaves the table unchanged; a success returns a record for that address, owned by the caller, carrying the new code, unverified, and stored at that address |
| `EmailTable.Insert` | app/resources/account/email/email.go:87-98 | the create succeeds exactly when neither the address nor the ID is taken; it then adds that one record and changes nothing else, keeping IDs unique; a clash is AlreadyExists (see also `AddIdCollision`, `AddFailsExactly`) |
| `EmailTable.AddCreatesRecord` | app/resources/account/email/email.go:85-100 | on a new address with an unused ID, Add creates exactly one record (owner = caller, code = input, not verified) and leaves every other record alone |
| `EmailTable.AddIdCollision` | app/resources/account/email/email.go:92-96 | when the create clashes with an existing ID, the constraint violation is AlreadyExists and nothing changes |
| `EmailTable.AddRejectsOtherOwner` | app/resources/account/email/email.go:40-43 | an address owned by a different account gives AlreadyExists with the table unchanged, whatever its verified flag |
| `EmailTable.AddRejectsVerified` | app/resources/account/email/email.go:45-53 | re-adding an address the caller owns and has verified gives AlreadyExists with the table unchanged |
| `EmailTable.AddReissuesCode` | app/resources/account/email/email.go:55-65 | re-adding an own unverified address changes only that record's code; its ID, owner and flag stay, no record is added and no other record changes |
| `EmailTable.AddClaimsProvisioned` | app/resources/account/email/email.go:68-81 | claiming an unowned record sets owner = caller, replaces the code and resets verified to false on the same record and ID; no other record changes |
| `EmailTable.AddFailsExactly` | app/resources/account/email/email.go:39-98 | Add fails if and only if the address is owned by another account, or is owned by the caller and verified, or is new and the fresh ID is already taken |
| `EmailTable.AddPreservesWellFormed` | app/resources/account/email/email.go:26-101 | Add keeps one record per address, verified implies owned and unique IDs; it changes no surviving record's ID or address and touches no other address |
| `EmailTable.AddThenLookupCode` | app/resources/account/email/email.go:26-142 | after a successful Add, the code lookup with the new code and the account lookup both yield the claimant, and GetCode returns the new code |
| `EmailTable.VerifyStep` | app/resources/account/email/email.go:144-165 | the update keeps the set of addresses, sets the flag only on rows whose address and owner match, and leaves every other row as it was; NotFound leaves the table unchanged (see also `VerifyOnlyOwner`) |
| `EmailTable.VerifyRowsAtMostOne` | app/resources/account/email/email.go:146-152 | the Verify update's predicate (address and owner) selects the record at that address when the caller owns it, and no record otherwise, so at most one row is affected |
| `EmailTable.VerifyOnlyOwner` | app/resources/account/email/email.go:144-165 | Verify succeeds if and only if the caller owns the record for the address; it then sets only that record's flag, keeping its code and owner; otherwise NotFound and the table is unchanged |
| `EmailTable.VerifyPreservesWellFormed` | app/resources/account/email/email.go:144-165 | Verify keeps the invariants and the set of addresses, and changes no record other than the one at the address |
| `EmailTable.VerifyKeepsCode` | app/resources/account/email/email.go:146-152 | verifying leaves the stored code in place, so GetCode is unchanged and the code lookup still names the owner |
| `EmailTable.RemoveStep` | app/resources/account/email/email.go:212-224 | the delete removes exactly the rows whose ID and owner match and keeps every other row unchanged (see also `RemoveOnlyOwned`) |
| `EmailTable.RemoveRowsAtMostOne` | app/resources/account/email/email.go:213-218 | with unique IDs, the delete predicate (ID and owner) selects at most one record |
| `EmailTable.RemoveOnlyOwned` | app/resources/account/email/email.go:212-224 | Remove deletes exactly the record with that ID owned by the caller (at most one) and keeps every other record unchanged; if none matches, the table is unchanged |
| `EmailTable.RemovePreservesWellFormed` | app/resources/account/email/email.go:212-224 | Remove keeps the invariants and changes no surviving record's ID or address |
| `EmailHistory.Apply` | app/resources/account/email/email.go:26-224 | any single Add, Verify or Remove keeps the table well formed and changes no surviving record's ID or address |
| `EmailHistory.Run` | app/resources/account/email/email.go:26-224 | any sequence of requests keeps the table well formed |
| `EmailHistory.ApplyKeepsVerified` | app/resources/account/email/email.go:39-53 | no single request changes a verified record, unless it is its owner's Remove of its ID |
| `EmailHistory.VerifiedRecordFrozen` | app/resources/account/email/email.go:39-53 | through any sequence of requests without its owner's Remove, a verified record stays present and identical (no downgrade, no code replay) |
| `EmailHistory.ApplyKeepsOwner` | app/resources/account/email/email.go:39-66 | no single request moves an owned record to another owner or changes its ID, unless it is its owner's Remove |
| `EmailHistory.ClaimIsFinal` | app/resources/account/email/email.go:39-66 | through any sequence of requests without its owner's Remove, a claimed address keeps its owner and its record ID |
| `EmailHistory.CompetingClaimsOneWinner` | app/resources/account/email/email.go:39-100 | two claims of the same unclaimed or absent address by different accounts, served in order, give one success and one AlreadyExists |
| `EmailRepository.Repository.constructor` | app/resources/account/email/email.go:18-24 | the repository is a handle on a given well-formed table |
| `EmailRepository.Repository.Add` | app/resources/account/email/email.go:26-101 | the in-place lookup, conditional update and create return the outcome of `AddStep` and leave the table it describes, keeping the invariants |
| `EmailRepository.Repository.Verify` | app/resources/account/email/email.go:144-165 | the predicate update with its affected-row count succeeds exactly for the owner, sets only that record's flag, and otherwise is NotFound with the table unchanged |
| `EmailRepository.Repository.Remove` | app/resources/account/email/email.go:212-224 | the predicate delete always reports success, removes only the caller's record with that ID (at most one) and keeps the invariants |

## Left out

- The ORM client, its query builders, request contexts and cancellation: the table is an in-memory map, and every operation is atomic.
- Error wrapping with request context: only the error tag (AlreadyExists, NotFound, Internal) is kept.
- Generic storage failures, which the source wraps and returns: the model has no failing storage. The only Internal error modelled is GetCode's missing record.
- Parsing and validating addresses: addresses are plain strings, assumed valid before they reach the registry.
- ID generation: the fresh ID of a created record is a parameter of Add.
- The read-then-write race in Add: Add is atomic here. The source looks the record up (email.go:34) and writes it in a separate call keyed by the looked-up record's ID and address, which re-checks neither its owner nor its verified flag (email.go:56-58, 70-74). Two interleaved claims of a provisioned address can therefore both succeed, and the later one takes over a record the first claimant may already have verified. Concurrent creates can also hit the constraint violation. The create path still checks the address and ID constraints (`Insert`), and `AddFailsExactly` shows an address clash cannot happen after the lookup found no record.
- `ClaimIsFinal`, `VerifiedRecordFrozen` and `CompetingClaimsOneWinner`: they hold only when each request is applied atomically. The race in Add described above breaks all three.
- Loading the account's related data in LookupCode and LookupAccount (emails, authentication methods, roles, tags) and the mappers that build account values: that code is not part of this model. The queries return the owning AccountId.
- The result of a successful Add is the stored record itself, not the mapped email address value the source returns.
- The verified flag of a newly created record: the create (email.go:87-90) sets no value for it, so the row gets the schema's default, and the schema is not part of this model. The model assumes that default is `false`.
- Non-empty codes: the code is stored as given, because the source does not check it.
