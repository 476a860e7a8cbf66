/**
  The invite entity: the row stored in the `invites` table, the patch that
  describes a proposed insert or update (every field optional), the conversion
  from a submitted request form, and the two checks run on a patch before it
  reaches the table. Also the two scans over a sequence of rows that the store
  operations use: the lookup by id and the filter by email.
 */
module Invites {
  import opened Resource

  const I32Min: int := -0x8000_0000
  const I32Limit: int := 0x8000_0000
  const TwoTo32: int := 0x1_0000_0000

  /** A 32-bit signed integer, the width of the table's id columns. */
  type Int32 = x: int | -0x8000_0000 <= x < 0x8000_0000

  /** A Rust `as i32` cast from a wider integer: keeps the low 32 bits and
      reads them as two's complement. */
  function AsI32(x: int): (r: Int32)
    ensures (r - x) % TwoTo32 == 0
    ensures I32Min <= x < I32Limit ==> r == x
  {
    var low := x % TwoTo32;
    assert x == (x / TwoTo32) * TwoTo32 + low;
    if low < I32Limit then low else low - TwoTo32
  }

  /** A persisted invite row. The store-managed timestamps are left out. */
  datatype InviteModel = InviteModel(
    id: Int32,
    workshopId: Int32,
    email: string,
    attending: bool,
    pending: bool)

  /** A proposed insert or update: a field that is `None` is not written. */
  datatype Invite = Invite(
    workshopId: Option<Int32>,
    email: Option<string>,
    attending: Option<bool>,
    pending: Option<bool>)

  /** The submitted invite-request form: the workshop it asks for and an email.
      The width of the form's id is not fixed here, hence the cast below. */
  datatype InviteForm = InviteForm(id: int, email: string)

  /** The patch built from a request form: workshop and email set, the two
      status flags left to the store. */
  function FromForm(form: InviteForm): (p: Invite)
    ensures p.workshopId == Some(AsI32(form.id)) && p.email == Some(form.email)
    ensures p.attending == None && p.pending == None
    ensures Validate(p).Ok?
  {
    Invite(Some(AsI32(form.id)), Some(form.email), None, None)
  }

  /** Structural completeness: a patch must carry an email. */
  function Validate(p: Invite): (r: Result<()>)
    ensures r.Ok? <==> p.email.Some?
    ensures r.Err? ==> r.error == ValidationError
  {
    if p.email.None? then Err(ValidationError) else Ok(())
  }

  /** Well-formedness: an email that is present must not be empty. */
  function Sanitize(p: Invite): (r: Result<()>)
    ensures r.Err? <==> p.email == Some("")
    ensures r.Err? ==> r.error == SanitizationError
  {
    match p.email
    case Some(em) => if |em| == 0 then Err(SanitizationError) else Ok(())
    case None => Ok(())
  }

  /** The row after an update that sets `patch` as its changeset: a field that
      is `Some` in the patch is overwritten, every other field is kept, and
      the id never changes. */
  function ApplyChangeset(row: InviteModel, patch: Invite): (r: InviteModel)
    ensures r.id == row.id
    ensures r.workshopId == (if patch.workshopId.Some? then patch.workshopId.value else row.workshopId)
    ensures r.email == (if patch.email.Some? then patch.email.value else row.email)
    ensures r.attending == (if patch.attending.Some? then patch.attending.value else row.attending)
    ensures r.pending == (if patch.pending.Some? then patch.pending.value else row.pending)
  {
    row.(
      workshopId := patch.workshopId.GetOr(row.workshopId),
      email := patch.email.GetOr(row.email),
      attending := patch.attending.GetOr(row.attending),
      pending := patch.pending.GetOr(row.pending))
  }

  /** The position of the first row that `matches` accepts, or `|rows|` when
      there is none. */
  function FirstIndex(rows: seq<InviteModel>, matches: InviteModel -> bool): (k: nat)
    ensures k <= |rows|
    ensures k < |rows| ==> matches(rows[k])
    ensures forall j :: 0 <= j < k ==> !matches(rows[j])
  {
    if rows == [] then 0
    else if matches(rows[0]) then 0
    else 1 + FirstIndex(rows[1..], matches)
  }

  /** The position of the first row whose id is `id`, or `|rows|` when there
      is none: what a query filtered on the id column returns first. */
  function IndexOfId(rows: seq<InviteModel>, id: int): (k: nat)
    ensures k <= |rows|
    ensures k < |rows| ==> rows[k].id == id
    ensures forall j :: 0 <= j < k ==> rows[j].id != id
  {
    FirstIndex(rows, (r: InviteModel) => r.id == id)
  }

  /** The rows whose email equals `email`, in table order: the
      `filter(..).collect()` that create uses to recover an id. */
  function WithEmail(rows: seq<InviteModel>, email: string): (m: seq<InviteModel>)
    ensures |m| <= |rows|
    ensures forall x :: x in m <==> x in rows && x.email == email
  {
    if rows == [] then []
    else
      assert rows == [rows[0]] + rows[1..];
      if rows[0].email == email then [rows[0]] + WithEmail(rows[1..], email)
      else WithEmail(rows[1..], email)
  }

  /** The position of the first row whose email is `email`, or `|rows|` when
      there is none. */
  function IndexOfEmail(rows: seq<InviteModel>, email: string): (k: nat)
    ensures k <= |rows|
    ensures k < |rows| ==> rows[k].email == email
    ensures forall j :: 0 <= j < k ==> rows[j].email != email
  {
    FirstIndex(rows, (r: InviteModel) => r.email == email)
  }

  /** Row ids strictly increase along the table: ids are unique, and a row
      inserted later carries a larger id. */
  predicate IdsIncreasing(rows: seq<InviteModel>) {
    forall i, j :: 0 <= i < j < |rows| ==> rows[i].id < rows[j].id
  }

  // ---------------------------------------------------------------------
  // Properties of the checks and of the conversion

  /** Validate looks at nothing but whether an email is present. */
  lemma ValidateOnlyReadsEmail(p: Invite, q: Invite)
    requires p.email.Some? == q.email.Some?
    ensures Validate(p) == Validate(q)
  {
  }

  /** Sanitize looks at nothing but the email. */
  lemma SanitizeOnlyReadsEmail(p: Invite, q: Invite)
    requires p.email == q.email
    ensures Sanitize(p) == Sanitize(q)
  {
  }

  /** A patch that passes both checks carries a non-empty email. */
  lemma ChecksGiveNonEmptyEmail(p: Invite)
    requires Validate(p).Ok? && Sanitize(p).Ok?
    ensures p.email.Some? && p.email.value != ""
  {
  }

  /** A converted form passes sanitize exactly when its email is non-empty. */
  lemma FromFormSanitizeIff(form: InviteForm)
    ensures Sanitize(FromForm(form)).Ok? <==> form.email != ""
  {
  }

  // ---------------------------------------------------------------------
  // Properties of the changeset

  /** Setting the same changeset twice is the same as setting it once. */
  lemma ChangesetIdempotent(row: InviteModel, patch: Invite)
    ensures ApplyChangeset(ApplyChangeset(row, patch), patch) == ApplyChangeset(row, patch)
  {
  }

  /** A patch with no field set leaves the row as it was. */
  lemma EmptyChangesetIsIdentity(row: InviteModel)
    ensures ApplyChangeset(row, Invite(None, None, None, None)) == row
  {
  }

  // ---------------------------------------------------------------------
  // Properties of the scans

  /** The head of the email filter is the first row, in table order, whose
      email matches; so the filter is non-empty as soon as one row matches. */
  lemma {:induction false} WithEmailHeadIsFirstMatch(rows: seq<InviteModel>, email: string)
    requires IndexOfEmail(rows, email) < |rows|
    ensures WithEmail(rows, email) != []
    ensures WithEmail(rows, email)[0] == rows[IndexOfEmail(rows, email)]
  {
    if rows[0].email != email {
      WithEmailHeadIsFirstMatch(rows[1..], email);
    }
  }

  /** Appending a row with an id larger than every id already there: the
      lookup of that id lands on the new row, and ids still increase. */
  lemma AppendLargerId(rows: seq<InviteModel>, row: InviteModel)
    requires IdsIncreasing(rows)
    requires forall i :: 0 <= i < |rows| ==> rows[i].id < row.id
    ensures IdsIncreasing(rows + [row])
    ensures IndexOfId(rows + [row], row.id) == |rows|
  {
    var all := rows + [row];
    forall i, j | 0 <= i < j < |all| ensures all[i].id < all[j].id {
      assert all[i] == rows[i];
      if j < |rows| { assert all[j] == rows[j]; }
    }
    assert all[|rows|] == row;
  }

  /** The email filter over the table extended by a newly inserted row,
      whose id is larger than every id already there, yields that row's id
      first exactly when no earlier row shares its email; otherwise it yields
      the id of the earliest such row. */
  lemma RecoveredIdIsInsertedIdIff(rows: seq<InviteModel>, row: InviteModel)
    requires forall i :: 0 <= i < |rows| ==> rows[i].id < row.id
    ensures IndexOfEmail(rows + [row], row.email) <= |rows|
    ensures WithEmail(rows + [row], row.email) != []
    ensures WithEmail(rows + [row], row.email)[0] == (rows + [row])[IndexOfEmail(rows + [row], row.email)]
    ensures WithEmail(rows + [row], row.email)[0].id == row.id
      <==> forall i :: 0 <= i < |rows| ==> rows[i].email != row.email
  {
    var all := rows + [row];
    assert all[|rows|] == row;
    var k := IndexOfEmail(all, row.email);
    WithEmailHeadIsFirstMatch(all, row.email);
    if k < |rows| {
      assert all[k] == rows[k];
    } else {
      forall i | 0 <= i < |rows| ensures rows[i].email != row.email {
        assert all[i] == rows[i];
      }
    }
  }

  /** The rows left after removing position `k`: those before it, then
      those after it, each moved down by one. */
  function RemoveAt(rows: seq<InviteModel>, k: nat): (r: seq<InviteModel>)
    requires k < |rows|
    ensures |r| == |rows| - 1
    ensures forall i :: 0 <= i < |r| ==> r[i] == if i < k then rows[i] else rows[i + 1]
  {
    rows[..k] + rows[k + 1..]
  }

  /** In a table whose ids increase, removing the row at `k` drops exactly the
      rows with that row's id: every other row is still there, the lookup of
      the removed id finds nothing, and ids still increase. */
  lemma RemoveAtDropsOnlyThatId(rows: seq<InviteModel>, k: nat)
    requires IdsIncreasing(rows)
    requires k < |rows|
    ensures IdsIncreasing(RemoveAt(rows, k))
    ensures forall x :: x in RemoveAt(rows, k) <==> x in rows && x.id != rows[k].id
    ensures IndexOfId(RemoveAt(rows, k), rows[k].id) == |RemoveAt(rows, k)|
  {
  }
}
