/** The one persisted entity, `CampaignDB`, and the abstract store that
    replaces the `campaigns.campaigns` table. */
module Models {
  import opened Base
  import Codec

  /** A row of the campaigns table. `status` and `category` hold the
      persisted strings of the enum codec; `deletedAt` is gorm's nullable
      soft-deletion marker. */
  datatype Campaign = Campaign(
    id: string,
    userId: int32,
    title: string,
    description: string,
    targetAmount: int32,
    collectedAmount: int32,
    deadline: Instant,
    status: string,
    category: string,
    minDonation: int32,
    createdAt: Instant,
    updatedAt: Instant,
    deletedAt: Option<Instant>)

  /** The table, keyed by the primary key `id`. Soft-deleted rows stay in it. */
  type Store = map<string, Campaign>

  /** The schema-qualified table the rows live in. */
  const TableName: string := "campaigns.campaigns"

  /** The column default applied when an insert leaves `status` unset. */
  const DefaultStatus: string := "active"

  /** gorm's soft-delete scope: default queries see only rows whose
      deletion marker is null. */
  function Visible(c: Campaign): (b: bool)
    ensures b <==> c.deletedAt == None
    ensures !b <==> exists t :: c.deletedAt == Some(t)
  {
    c.deletedAt.None?
  }

  /** `id` is the primary key: every row is filed under its own id, so at
      most one row exists per id. */
  predicate WellKeyed(s: Store) {
    forall id :: id in s ==> s[id].id == id
  }

  /** A status from which the update operation refuses to move: exactly
      the stored strings that the codec reads back as wire statuses 3
      (completed) and 4 (cancelled). */
  function IsTerminal(status: string): (b: bool)
    ensures b <==> Codec.MapStatusProto(status) >= 3
  {
    Codec.NamesDistinct();
    assert Codec.StatusProtoNames[3] == "completed" && Codec.StatusProtoNames[4] == "cancelled";
    status == "cancelled" || status == "completed"
  }

  /** One column under "zero means unset": a zero `given` leaves the
      `fallback`, any other `given` is what ends up in `result`. */
  predicate Overlaid<T(==)>(fallback: T, result: T, given: T, zero: T) {
    && (given == zero ==> result == fallback)
    && (given != zero ==> result == given)
  }

  /** The value a column ends with when `given` is written over `fallback`
      under "zero means unset". */
  function Pick<T(==)>(fallback: T, given: T, zero: T): (r: T)
    ensures Overlaid(fallback, r, given, zero)
  {
    if given == zero then fallback else given
  }

  /** What gorm does to a record on insert: a zero `status` takes the
      column default, zero `createdAt`/`updatedAt` take the insert time. */
  function WithInsertDefaults(c: Campaign, now: Instant): (r: Campaign)
    ensures r.(status := c.status, createdAt := c.createdAt, updatedAt := c.updatedAt) == c
    ensures Overlaid(DefaultStatus, r.status, c.status, "")
    ensures Overlaid(now, r.createdAt, c.createdAt, ZeroTime)
    ensures Overlaid(now, r.updatedAt, c.updatedAt, ZeroTime)
  {
    c.(status := Pick(DefaultStatus, c.status, ""),
       createdAt := Pick(now, c.createdAt, ZeroTime),
       updatedAt := Pick(now, c.updatedAt, ZeroTime))
  }

  /** gorm's `Updates(struct)`: every field of `patch` that is not Go's zero
      value overwrites the row, and `updatedAt` takes the write time. The
      patch's `id` only selects rows, and its `createdAt` and `deletedAt`
      are never set by the service, so they are not written. */
  function ApplyPatch(row: Campaign, patch: Campaign, now: Instant): (r: Campaign)
    ensures r.id == row.id && r.createdAt == row.createdAt && r.deletedAt == row.deletedAt
    ensures r.updatedAt == now
    ensures Overlaid(row.userId, r.userId, patch.userId, 0)
    ensures Overlaid(row.title, r.title, patch.title, "")
    ensures Overlaid(row.description, r.description, patch.description, "")
    ensures Overlaid(row.targetAmount, r.targetAmount, patch.targetAmount, 0)
    ensures Overlaid(row.collectedAmount, r.collectedAmount, patch.collectedAmount, 0)
    ensures Overlaid(row.deadline, r.deadline, patch.deadline, ZeroTime)
    ensures Overlaid(row.status, r.status, patch.status, "")
    ensures Overlaid(row.category, r.category, patch.category, "")
    ensures Overlaid(row.minDonation, r.minDonation, patch.minDonation, 0)
  {
    Campaign(
      row.id,
      Pick(row.userId, patch.userId, 0),
      Pick(row.title, patch.title, ""),
      Pick(row.description, patch.description, ""),
      Pick(row.targetAmount, patch.targetAmount, 0),
      Pick(row.collectedAmount, patch.collectedAmount, 0),
      Pick(row.deadline, patch.deadline, ZeroTime),
      Pick(row.status, patch.status, ""),
      Pick(row.category, patch.category, ""),
      Pick(row.minDonation, patch.minDonation, 0),
      row.createdAt,
      now,
      row.deletedAt)
  }

  /** The all-zero record: the patch that sets nothing. */
  const ZeroCampaign: Campaign :=
    Campaign("", 0, "", "", 0, 0, ZeroTime, "", "", 0, ZeroTime, ZeroTime, None)

  /** Patch semantics: a zero patch field keeps the stored value, a
      non-zero one replaces it, so an empty status keeps the status while
      any non-empty category (even "unspecified") replaces the category. */
  lemma PatchFieldSemantics(row: Campaign, patch: Campaign, now: Instant)
    ensures patch.status == "" ==> ApplyPatch(row, patch, now).status == row.status
    ensures patch.status != "" ==> ApplyPatch(row, patch, now).status == patch.status
    ensures patch.category != "" ==> ApplyPatch(row, patch, now).category == patch.category
    ensures patch.category == "" ==> ApplyPatch(row, patch, now).category == row.category
    ensures ApplyPatch(row, ZeroCampaign, now) == row.(updatedAt := now)
  {
  }

  /** Applying the same patch twice is the same as applying it once. */
  lemma PatchIdempotent(row: Campaign, patch: Campaign, now: Instant)
    ensures ApplyPatch(ApplyPatch(row, patch, now), patch, now) == ApplyPatch(row, patch, now)
  {
  }
}
