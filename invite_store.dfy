/**
  The `invites` table and the create/read/update/delete operations over it.
  The table is in-memory state: the rows in the order the store returns them
  and the next value of the id sequence. The ids of the workshops that exist
  are fixed for the lifetime of the table and stand for the foreign key.
 */
module InviteStore {
  import opened Resource
  import opened Invites

  /** What the store keeps true of the table: ids come from the sequence
      (positive, below its next value, in increasing order), every email is
      non-empty, and every row refers to an existing workshop. */
  predicate TableInvariant(rows: seq<InviteModel>, nextId: int, workshops: set<Int32>) {
    && 1 <= nextId <= I32Limit
    && IdsIncreasing(rows)
    && (forall i :: 0 <= i < |rows| ==> 1 <= rows[i].id < nextId)
    && (forall i :: 0 <= i < |rows| ==> rows[i].email != "")
    && (forall i :: 0 <= i < |rows| ==> rows[i].workshopId in workshops)
  }

  /** The store's side of an insert with `nextId` as the next sequence value:
      `workshop_id` and `email` are required columns, the workshop must
      exist and the sequence must not be exhausted; unset flags take the
      column defaults (not attending, pending). */
  function Insert(patch: Invite, nextId: int, workshops: set<Int32>): (r: Result<InviteModel>)
    ensures r.Ok? <==> (patch.workshopId.Some? && patch.workshopId.value in workshops
      && patch.email.Some? && I32Min <= nextId < I32Limit)
    ensures r.Err? ==> r.error == StorageError
    ensures r.Ok? ==> (r.value.id == nextId && r.value.workshopId == patch.workshopId.value
      && r.value.email == patch.email.value
      && r.value.attending == patch.attending.GetOr(false)
      && r.value.pending == patch.pending.GetOr(true))
  {
    if patch.workshopId.None? || patch.workshopId.value !in workshops || patch.email.None?
      || !(I32Min <= nextId < I32Limit)
    then Err(StorageError)
    else Ok(InviteModel(nextId, patch.workshopId.value, patch.email.value,
                        patch.attending.GetOr(false), patch.pending.GetOr(true)))
  }

  /** The store's side of an update: a changeset that sets a workshop must
      name an existing one. */
  predicate ChangesetAllowed(patch: Invite, workshops: set<Int32>) {
    patch.workshopId.Some? ==> patch.workshopId.value in workshops
  }

  class InviteTable {
    var rows: seq<InviteModel>
    var nextId: int
    const workshops: set<Int32>

    ghost predicate Valid()
      reads this
    {
      TableInvariant(rows, nextId, workshops)
    }

    /** An empty table whose sequence starts at 1. */
    constructor (workshops: set<Int32>)
      ensures Valid()
      ensures rows == [] && nextId == 1 && this.workshops == workshops
    {
      rows := [];
      nextId := 1;
      this.workshops := workshops;
    }

    /** Every row, in the order the store returns them. */
    function ReadAll(): (r: seq<InviteModel>)
      reads this
      requires Valid()
      ensures r == rows
      ensures IdsIncreasing(r)
      ensures forall i :: 0 <= i < |r| ==> r[i].email != "" && r[i].workshopId in workshops
    {
      rows
    }

    /** The row whose id is `modelId` cast to 32 bits, or NotFound. */
    function ReadOne(modelId: nat): (r: Result<InviteModel>)
      reads this
      ensures r.Ok? <==> exists i :: 0 <= i < |rows| && rows[i].id == AsI32(modelId)
      ensures r.Ok? ==> r.value in rows && r.value.id == AsI32(modelId)
      ensures r.Err? ==> r.error == NotFound
    {
      var k := IndexOfId(rows, AsI32(modelId));
      if k < |rows| then Ok(rows[k]) else Err(NotFound)
    }

    /** Validate, then sanitize, then insert; on success the new row is the
        last one and the sequence has advanced. Nothing is written when a
        step fails. */
    method CheckAndInsert(patch: Invite) returns (r: Result<InviteModel>)
      requires Valid()
      modifies this
      ensures Valid()
      ensures Validate(patch).Err? ==> r == Err(ValidationError)
      ensures Validate(patch).Ok? && Sanitize(patch).Err? ==> r == Err(SanitizationError)
      ensures Validate(patch).Ok? && Sanitize(patch).Ok? ==> r == Insert(patch, old(nextId), workshops)
      ensures r.Err? ==> rows == old(rows) && nextId == old(nextId)
      ensures r.Ok? ==> rows == old(rows) + [r.value] && nextId == old(nextId) + 1
      ensures r.Ok? ==> r.value.email != "" && r.value.id >= 1
      ensures r.Ok? ==> forall i :: 0 <= i < |old(rows)| ==> old(rows)[i].id < r.value.id
      ensures r.Ok? ==> IndexOfId(rows, r.value.id) == |old(rows)|
    {
      var checked := Validate(patch);
      if checked.Err? {
        return Err(checked.error);
      }
      checked := Sanitize(patch);
      if checked.Err? {
        return Err(checked.error);
      }
      r := Insert(patch, nextId, workshops);
      if r.Ok? {
        AppendLargerId(rows, r.value);
        rows := rows + [r.value];
        nextId := nextId + 1;
      }
    }

    /** Create as the source does it: after the insert, the id returned is
        that of the first row, in table order, whose email equals the
        patch's, which is the new row's only when no older row shares the
        email. */
    method Create(patch: Invite) returns (r: Result<Option<Int32>>)
      requires Valid()
      modifies this
      ensures Valid()
      ensures Validate(patch).Err? ==> r == Err(ValidationError)
      ensures Validate(patch).Ok? && Sanitize(patch).Err? ==> r == Err(SanitizationError)
      ensures Validate(patch).Ok? && Sanitize(patch).Ok? && Insert(patch, old(nextId), workshops).Err?
        ==> r == Err(StorageError)
      ensures r.Err? ==> rows == old(rows) && nextId == old(nextId)
      ensures r.Ok? <==> Validate(patch).Ok? && Sanitize(patch).Ok? && Insert(patch, old(nextId), workshops).Ok?
      ensures r.Ok? ==>
        var row := Insert(patch, old(nextId), workshops).value;
        && rows == old(rows) + [row]
        && nextId == old(nextId) + 1
        && IndexOfEmail(rows, row.email) < |rows|
        && r.value == Some(rows[IndexOfEmail(rows, row.email)].id)
        && ReadOne(row.id) == Ok(row)
        && (r.value == Some(row.id) <==> forall i :: 0 <= i < |old(rows)| ==> old(rows)[i].email != row.email)
    {
      ghost var before := rows;
      var inserted := CheckAndInsert(patch);
      if inserted.Err? {
        return Err(inserted.error);
      }
      RecoveredIdIsInsertedIdIff(before, inserted.value);
      var matches := WithEmail(ReadAll(), patch.email.value);
      r := Ok(Some(matches[0].id));
    }

    /** Create returning the id the insert assigned to the new row. */
    method CreateReturningInsertedId(patch: Invite) returns (r: Result<Option<Int32>>)
      requires Valid()
      modifies this
      ensures Valid()
      ensures Validate(patch).Err? ==> r == Err(ValidationError)
      ensures Validate(patch).Ok? && Sanitize(patch).Err? ==> r == Err(SanitizationError)
      ensures Validate(patch).Ok? && Sanitize(patch).Ok? && Insert(patch, old(nextId), workshops).Err?
        ==> r == Err(StorageError)
      ensures r.Err? ==> rows == old(rows) && nextId == old(nextId)
      ensures r.Ok? <==> Validate(patch).Ok? && Sanitize(patch).Ok? && Insert(patch, old(nextId), workshops).Ok?
      ensures r.Ok? ==>
        var row := Insert(patch, old(nextId), workshops).value;
        && rows == old(rows) + [row]
        && nextId == old(nextId) + 1
        && r.value == Some(row.id)
        && ReadOne(row.id) == Ok(row)
    {
      var inserted := CheckAndInsert(patch);
      if inserted.Err? {
        return Err(inserted.error);
      }
      r := Ok(Some(inserted.value.id));
    }

    /** Sanitize (validate is not run: a partial update is legal), look the
        row up, then set the patch as its changeset. Nothing is written when a
        step fails. */
    method Update(patch: Invite, modelId: nat) returns (r: Result<()>)
      requires Valid()
      modifies this
      ensures Valid() && nextId == old(nextId)
      ensures Sanitize(patch).Err? ==> r == Err(SanitizationError)
      ensures Sanitize(patch).Ok? && old(ReadOne(modelId)).Err? ==> r == Err(NotFound)
      ensures Sanitize(patch).Ok? && old(ReadOne(modelId)).Ok? && !ChangesetAllowed(patch, workshops)
        ==> r == Err(StorageError)
      ensures r.Ok? <==> Sanitize(patch).Ok? && old(ReadOne(modelId)).Ok? && ChangesetAllowed(patch, workshops)
      ensures r.Err? ==> rows == old(rows)
      ensures r.Ok? ==>
        var k := IndexOfId(old(rows), AsI32(modelId));
        && k < |old(rows)|
        && rows == old(rows)[k := ApplyChangeset(old(rows)[k], patch)]
        && ReadOne(modelId) == Ok(ApplyChangeset(old(rows)[k], patch))
    {
      var checked := Sanitize(patch);
      if checked.Err? {
        return Err(checked.error);
      }
      var existing := ReadOne(modelId);
      if existing.Err? {
        return Err(existing.error);
      }
      if !ChangesetAllowed(patch, workshops) {
        return Err(StorageError);
      }
      var k := IndexOfId(rows, existing.value.id);
      var updated := ApplyChangeset(rows[k], patch);
      ghost var before := rows;
      rows := rows[k := updated];
      assert forall i :: 0 <= i < |rows| && i != k ==> rows[i] == before[i];
      assert rows[k].id == AsI32(modelId);
      r := Ok(());
    }

    /** Look the row up, then delete it. Nothing is written when the id is
        absent. */
    method Delete(modelId: nat) returns (r: Result<()>)
      requires Valid()
      modifies this
      ensures Valid() && nextId == old(nextId)
      ensures r.Ok? <==> old(ReadOne(modelId)).Ok?
      ensures r.Err? ==> r == Err(NotFound) && rows == old(rows)
      ensures r.Ok? ==>
        var k := IndexOfId(old(rows), AsI32(modelId));
        && k < |old(rows)|
        && rows == RemoveAt(old(rows), k)
        && ReadOne(modelId).Err?
        && forall x :: x in rows <==> x in old(rows) && x.id != AsI32(modelId)
    {
      var existing := ReadOne(modelId);
      if existing.Err? {
        return Err(existing.error);
      }
      var k := IndexOfId(rows, existing.value.id);
      RemoveAtDropsOnlyThatId(rows, k);
      rows := RemoveAt(rows, k);
      r := Ok(());
    }
  }

  /** Two creates in a row on an empty table, for the same email and two
      different workshops (the same person asking for a second workshop):
      the second insert gives the new row id 2, yet create returns id 1,
      the older row's. */
  method CreateReturnsEarlierRowId(w1: Int32, w2: Int32, email: string)
    returns (first: Result<Option<Int32>>, second: Result<Option<Int32>>, secondRowId: Int32)
    requires w1 != w2 && email != ""
    ensures first == Ok(Some(1))
    ensures secondRowId == 2
    ensures second == Ok(Some(1))
  {
    var table := new InviteTable({w1, w2});
    first := table.Create(Invite(Some(w1), Some(email), None, None));
    assert table.rows[0].email == email;
    second := table.Create(Invite(Some(w2), Some(email), None, None));
    assert IndexOfEmail(table.rows, email) == 0;
    secondRowId := table.rows[1].id;
  }
}
