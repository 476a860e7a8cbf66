# Invite persistence, modelled in Dafny

This project models the invite part of a workshop-management backend: the
`Invite` patch (every field optional), the `InviteModel` row of the `invites`
table, the conversion from a submitted invite-request form, the two checks run
on a patch (`validate`: an email must be present; `sanitize`: a present email
must not be empty), and create / read_all / read_one / update / delete over the
table as implemented in `src/model/invite.rs`.

- `resource.dfy` (module `Resource`): `Option`, the error kinds and `Result`,
  the vocabulary the resource traits of `src/model/mod.rs` share.
- `invite.dfy` (module `Invites`): the entity and patch datatypes, the `as i32`
  cast, `FromForm`, `Validate`, `Sanitize`, changeset application, the lookup
  by id and the filter by email, and the lemmas about them.
- `invite_store.dfy` (module `InviteStore`): the table as a class
  `InviteTable` holding the rows in the order the store returns them, the next
  value of the id sequence and the set of existing workshop ids; `ReadAll` and
  `ReadOne` are functions over that state, `Create`, `Update` and `Delete` are
  methods that change it. `TableInvariant` is the invariant every method keeps:
  increasing positive ids below the sequence's next value, non-empty emails,
  existing workshops.

The `invites` table behaves as its schema says, although `src/model/invite.rs`
does not itself enforce any of it: `workshop_id` and `email` are NOT NULL,
`attending` defaults to false and `pending` to true, `workshop_id` is a foreign
key to `workshops`, and ids are serial values (a sequence that fails once it
passes the 32-bit range). These are the only sources of `StorageError`.

The resource traits in `src/model/mod.rs` declare `create` as returning nothing
and `delete` as taking a receiver; the model follows the implementation in
`src/model/invite.rs`, where `create` returns `Option<i32>` (always `Some`) and
`delete` takes no receiver. The id `create` returns is recovered by filtering on
email rather than taken from the insert (see Findings).

## Model

| member | source | states |
|---|---|---|
| `Invites.AsI32` | src/model/invite.rs:103 | the `as i32` cast yields a 32-bit value congruent to its input modulo 2^32, and is the identity on values already in range |
| `Invites.FromForm` | src/model/invite.rs:29-37 | a converted form sets workshop id (cast to 32 bits) and email, leaves attending and pending unset, and always passes validate |
| `Invites.Validate` | src/model/invite.rs:40-47 | validate succeeds exactly when an email is present, and otherwise fails with a validation error |
| `Invites.Sanitize` | src/model/invite.rs:50-59 | sanitize fails exactly when the email is present and empty (with a sanitization error); an absent or non-empty email passes |
| `Invites.ValidateOnlyReadsEmail` | src/model/invite.rs:41-47 | two patches that agree on whether an email is present get the same validate outcome, whatever their other fields |
| `Invites.SanitizeOnlyReadsEmail` | src/model/invite.rs:51-59 | two patches with the same email get the same sanitize outcome, whatever their other fields |
| `Invites.ChecksGiveNonEmptyEmail` | src/model/invite.rs:72-73 | a patch that passed validate and then sanitize carries a present, non-empty email |
| `Invites.FromFormSanitizeIff` | src/model/invite.rs:29-37 | a converted form passes sanitize exactly when the form's email is non-empty |
| `Invites.ApplyChangeset` | src/model/invite.rs:117-119 | setting a patch as changeset overwrites exactly the fields that are `Some` in it and keeps every other field, the id included |
| `Invites.ChangesetIdempotent` | src/model/invite.rs:117-119 | setting the same changeset twice gives the same row as setting it once |
| `Invites.EmptyChangesetIsIdentity` | src/model/invite.rs:20-27 | a patch with every field unset leaves the row unchanged |
| `Invites.FirstIndex` | src/model/invite.rs:102-104 | the scan lands on the first row the predicate accepts, or past the end exactly when it accepts none |
| `Invites.IndexOfId` | src/model/invite.rs:102-104 | the lookup by id lands on the first row carrying that id, or past the end exactly when no row carries it |
| `Invites.WithEmail` | src/model/invite.rs:79-83 | the email filter keeps exactly the rows whose email matches and never grows the sequence |
| `Invites.IndexOfEmail` | src/model/invite.rs:79-84 | reference definition of the first row in table order whose email matches |
| `Invites.WithEmailHeadIsFirstMatch` | src/model/invite.rs:79-84 | when some row matches, the filter is non-empty (so indexing `[0]` cannot fail) and its head is the first matching row in table order |
| `Invites.AppendLargerId` | src/model/invite.rs:75-77 | appending a row with an id above all others keeps ids increasing and makes the lookup of that id land on the new row |
| `Invites.RecoveredIdIsInsertedIdIff` | src/model/invite.rs:79-86 | after an insert, the id the filter yields first is the first matching row's, and it is the new row's id exactly when no older row shares the email |
| `Invites.RemoveAt` | src/model/invite.rs:128 | removing a position keeps the rows before it and shifts the rows after it down by one |
| `Invites.RemoveAtDropsOnlyThatId` | src/model/invite.rs:127-128 | deleting a row of an id-increasing table removes exactly the rows with its id, keeps all others and ids increasing, and the lookup of that id then finds nothing |
| `InviteStore.Insert` | src/model/invite.rs:75-77 | the store's insert succeeds exactly when workshop id and email are set, the workshop exists and the sequence has room; the new row carries the patch's fields, the next id and the column defaults |
| `InviteStore.InviteTable.ReadAll` | src/model/invite.rs:89-96 | read_all returns every row in table order, and those rows have increasing ids, non-empty emails and existing workshops |
| `InviteStore.InviteTable.ReadOne` | src/model/invite.rs:98-107 | read_one succeeds exactly when a row carries the requested id (cast to 32 bits), returns that row, and otherwise fails with not-found |
| `InviteStore.InviteTable.CheckAndInsert` | src/model/invite.rs:72-77 | validate, then sanitize, then insert, reporting the first failure with nothing written; on success exactly one row is appended and the sequence advances |
| `InviteStore.InviteTable.Create` | src/model/invite.rs:67-87 | create fails with the validate, sanitize or storage error in that order and the table unchanged; on success the table gains exactly the new row and the id returned is that of the first row in table order with the patch's email, equal to the new row's id exactly when no older row shares the email; read_one of the new row's id finds it with the patch's fields and the defaults |
| `InviteStore.InviteTable.CreateReturningInsertedId` | src/model/invite.rs:67-87 | the corrected create: same checks and insert, and the id returned is always the new row's, which read_one then finds |
| `InviteStore.InviteTable.Update` | src/model/invite.rs:109-122 | update runs sanitize only (a patch without email is accepted), reports a sanitize error before not-found, fails with the table unchanged, and on success overwrites only the patch's set fields of that one row, leaving every other row as it was |
| `InviteStore.InviteTable.Delete` | src/model/invite.rs:124-131 | delete fails with not-found and the table unchanged when no row has the id; otherwise it removes exactly that row, every other row remains, and read_one of the id then fails |
| `InviteStore.CreateReturnsEarlierRowId` | src/model/invite.rs:79-86 | two creates on an empty table for the same email and two different workshops: both succeed, the second row gets id 2, and the second create still returns id 1 |

## Left out

- Database access (`db::establish_connection`, the diesel query builders) is replaced by the in-memory table; connection and I/O failures are not modelled, so `read_all` never fails and the `unwrap` on it in create cannot panic.
- `created_at` and `updated_at` are not modelled: they are store-managed timestamps.
- Concurrency: the race between the insert and the re-query in create under simultaneous inserts; only sequential runs are modelled.
- `InviteStore.InviteTable.ReadAll`: the store returns rows in no specified order; the model fixes that order to insertion order, with updated rows keeping their place.
- `InviteStore.InviteTable.Update`: an update whose patch sets no field is modelled as a successful no-op; how the database library treats an empty changeset is not modelled.
- Store constraints beyond required columns, defaults, the workshop foreign key and the 32-bit id sequence (for instance a uniqueness constraint on email) are not modelled; the set of existing workshops is fixed for the table's lifetime, so workshop deletion is not modelled.
- `InviteStore.InviteTable.Delete`: the store deletes every row carrying the id; the model removes the one row found, which is the same because ids are unique under `TableInvariant`.
- `InviteStore.InviteTable.ReadOne`: the `usize` argument is modelled as an unbounded natural number; the cast to 32 bits is modelled exactly.
- The form type (`form/invite.rs`) is not part of this model; its id is taken as an integer of unspecified width and its email as a string.
- The Pending / Attending / Declined states of an invite exist only as combinations of the two flags; the code has no transition guard, and the model adds none: update may set any combination.
- `src/route/mod.rs` (request handlers, file reads, markdown rendering, templates, the workshop query) and `src/website.rs` (server bootstrap and route mounting) are adapters and not modelled; `post_invite_request` uses a `NewInvite` type and a `save` operation that `src/model/invite.rs` does not define.
- `src/model/mod.rs` is used only for the shape of the interface; its trait signatures for `create` and `delete` differ from the implementation, which the model follows.

## Findings

| source | as written | input that shows it | evidently intended | confidence | as-written member | corrected member |
|---|---|---|---|---|---|---|
| src/model/invite.rs:79-86 | create returns the id of the first row, in table order, whose email equals the new invite's | a table holding invite 1 for `a@b.com`, then create with the same email for another workshop: the new row gets id 2, create returns `Some(1)` | create returns the id the insert gave the new row | high; not executed | `InviteStore.CreateReturnsEarlierRowId` | `InviteStore.InviteTable.CreateReturningInsertedId` |
