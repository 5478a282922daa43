/** The lifecycle-guarded repository: every operation is a pure function
    from the store (and, for writes, the write time) to a result and the
    store afterwards. */
module Repository {
  import opened Base
  import opened Models

  /** The outcome of a write: what the caller receives and the table after. */
  datatype Step<T> = Step(result: Result<T>, store: Store)

  const NotFoundError: Error := Error(NotFound, "Campaign not found")
  const CreateFailedError: Error := Error(Internal, "Failed to create a campaign")

  /** The refusal to update a campaign whose status is terminal; the
      message names that status. */
  function TerminalError(status: string): (e: Error)
    ensures e.code == FailedPrecondition
    ensures |e.message| > |status| && e.message[|e.message| - |status|..] == status
  {
    Error(FailedPrecondition, "campaign status is " + status)
  }

  /** `CreateCampaign`: insert the record with gorm's insert defaults. The
      insert affects zero rows exactly when the primary key is already
      taken (by a visible or a soft-deleted row); that is an Internal error
      and the table is left as it was. */
  function CreateCampaign(store: Store, c: Campaign, now: Instant): (r: Step<Campaign>)
    ensures r.result.Ok? <==> c.id !in store
    ensures r.result.Ok? ==> r.store == store[c.id := r.result.value]
    ensures r.result.Ok? ==> r.result.value == WithInsertDefaults(c, now)
    ensures r.result.Ok? ==> r.result.value.id == c.id && r.result.value.userId == c.userId
    ensures r.result.Ok? ==> r.result.value.deletedAt == c.deletedAt
    ensures r.result.Ok? && c.status == "" ==> r.result.value.status == DefaultStatus
    ensures r.result.Ok? && c.status != "" ==> r.result.value.status == c.status
    ensures r.result.Err? ==> r.result.error == CreateFailedError && r.store == store
    ensures WellKeyed(store) ==> WellKeyed(r.store)
  {
    if c.id in store then Step(Err(CreateFailedError), store)
    else
      var row := WithInsertDefaults(c, now);
      Step(Ok(row), store[c.id := row])
  }

  /** `GetCampaignByID`: the row filed under `id`, provided the soft-delete
      scope lets it be seen; otherwise NotFound. */
  function GetCampaignByID(store: Store, id: string): (r: Result<Campaign>)
    ensures r.Ok? <==> id in store && Visible(store[id])
    ensures r.Ok? ==> r.value == store[id]
    ensures r.Ok? && WellKeyed(store) ==> r.value.id == id
    ensures r.Err? ==> r.error == NotFoundError
  {
    if id in store && Visible(store[id]) then Ok(store[id]) else Err(NotFoundError)
  }

  /** The filtered write `WHERE id = ? AND user_id = ?` under the soft-delete
      scope: it touches the row filed under `id` if that row is visible and
      owned by `userId`, and no row otherwise. */
  function WriteOwned(store: Store, id: string, userId: int32, patch: Campaign, now: Instant): (s: Store)
    ensures s.Keys == store.Keys
    ensures forall k :: k in store && k != id ==> s[k] == store[k]
    ensures id in store && Visible(store[id]) && store[id].userId == userId ==>
              s[id] == ApplyPatch(store[id], patch, now)
    ensures !(id in store && Visible(store[id]) && store[id].userId == userId) ==> s == store
  {
    if id in store && Visible(store[id]) && store[id].userId == userId
    then store[id := ApplyPatch(store[id], patch, now)]
    else store
  }

  /** `UpdateCampaignByID`: existence check, terminal-status guard, the
      owner-filtered write, then a re-read by id alone. */
  function UpdateCampaignByID(store: Store, id: string, userId: int32, patch: Campaign, now: Instant)
    : (r: Step<Campaign>)
    ensures !(id in store && Visible(store[id])) ==> r == Step(Err(NotFoundError), store)
    ensures id in store && Visible(store[id]) && IsTerminal(store[id].status) ==>
              r == Step(Err(TerminalError(store[id].status)), store)
    ensures id in store && Visible(store[id]) && !IsTerminal(store[id].status) ==>
              && r.result.Ok?
              && r.store == WriteOwned(store, id, userId, patch, now)
              && r.result.value == r.store[id]
  {
    match GetCampaignByID(store, id)
    case Err(e) => Step(Err(e), store)
    case Ok(existing) =>
      if IsTerminal(existing.status) then
        Step(Err(TerminalError(existing.status)), store)
      else
        var written := WriteOwned(store, id, userId, patch, now);
        Step(GetCampaignByID(written, id), written)
  }

  /** `DeleteCampaignByID`: existence check, then a soft delete that sets
      status "cancelled" and the deletion marker whatever the prior status. */
  function DeleteCampaignByID(store: Store, id: string, now: Instant): (r: Step<()>)
    ensures !(id in store && Visible(store[id])) ==> r == Step(Err(NotFoundError), store)
    ensures id in store && Visible(store[id]) ==>
              && r.result.Ok?
              && r.store.Keys == store.Keys
              && r.store[id].status == "cancelled"
              && r.store[id].deletedAt == Some(now)
              && r.store[id] == store[id].(status := "cancelled", deletedAt := Some(now), updatedAt := now)
    ensures forall k :: k in store && k != id ==> k in r.store && r.store[k] == store[k]
  {
    match GetCampaignByID(store, id)
    case Err(e) => Step(Err(e), store)
    case Ok(_) =>
      Step(Ok(()), store[id := store[id].(status := "cancelled", deletedAt := Some(now), updatedAt := now)])
  }

  /** The ids a `WHERE user_id = ?` query sees under the soft-delete scope. */
  function OwnedIds(store: Store, userId: int32): (ids: set<string>)
    ensures ids <= store.Keys
    ensures forall id :: id in ids <==> id in store && store[id].userId == userId && store[id].deletedAt == None
  {
    set id | id in store && store[id].userId == userId && Visible(store[id])
  }

  /** A row the owner query returns. */
  predicate OwnedRow(store: Store, userId: int32, c: Campaign) {
    c.userId == userId && Visible(c) && c in store.Values
  }

  /** The state of the owner scan once every key outside `remaining` has
      been visited: `ids` lists each owned key visited so far, once, and
      `rows` holds the row under each of them. */
  ghost predicate Scanned(store: Store, userId: int32, remaining: set<string>,
                          rows: seq<Campaign>, ids: seq<string>) {
    && remaining <= store.Keys
    && |rows| == |ids|
    && (forall i :: 0 <= i < |ids| ==> ids[i] in OwnedIds(store, userId) && ids[i] !in remaining)
    && (forall i :: 0 <= i < |ids| ==> rows[i] == store[ids[i]])
    && (forall i, j :: 0 <= i < j < |ids| ==> ids[i] != ids[j])
    && (forall id :: id in OwnedIds(store, userId) && id !in remaining ==> id in ids)
  }

  /** Visiting one more key keeps the scan state. */
  lemma ScanStep(store: Store, userId: int32, remaining: set<string>,
                 rows: seq<Campaign>, ids: seq<string>, id: string)
    requires Scanned(store, userId, remaining, rows, ids) && id in remaining
    ensures id in OwnedIds(store, userId) ==>
              Scanned(store, userId, remaining - {id}, rows + [store[id]], ids + [id])
    ensures id !in OwnedIds(store, userId) ==> Scanned(store, userId, remaining - {id}, rows, ids)
  {
  }

  /** A finished scan lists the owned keys once each: as many as there are. */
  lemma {:induction false} DistinctCard(ids: seq<string>, s: set<string>)
    requires forall i, j :: 0 <= i < j < |ids| ==> ids[i] != ids[j]
    requires forall id :: id in s <==> id in ids
    ensures |s| == |ids|
    decreases |ids|
  {
    if |ids| > 0 {
      var last := ids[|ids| - 1];
      var front := ids[..|ids| - 1];
      assert forall id :: id in s - {last} <==> id in front by {
        forall id ensures id in s - {last} <==> id in front {
          if id in front {
            var k :| 0 <= k < |front| && front[k] == id;
            assert ids[k] == id;
          }
          if id in ids && id != last {
            var k :| 0 <= k < |ids| && ids[k] == id;
            assert k < |ids| - 1;
            assert front[k] == id;
          }
        }
      }
      DistinctCard(front, s - {last});
    } else {
      assert forall id :: id !in s;
    }
  }

  /** `GetCampaignByUserID`: every visible row owned by `userId`, each once,
      in whatever order the table yields them; no match is an empty success. */
  method GetCampaignByUserID(store: Store, userId: int32) returns (rows: seq<Campaign>)
    ensures forall i :: 0 <= i < |rows| ==> OwnedRow(store, userId, rows[i])
    ensures forall id :: id in OwnedIds(store, userId) ==> store[id] in rows
    ensures |rows| == |OwnedIds(store, userId)|
    ensures WellKeyed(store) ==> forall i, j :: 0 <= i < j < |rows| ==> rows[i].id != rows[j].id
  {
    rows := [];
    var remaining := store.Keys;
    ghost var ids: seq<string> := [];
    while remaining != {}
      invariant Scanned(store, userId, remaining, rows, ids)
      decreases |remaining|
    {
      var id :| id in remaining;
      ScanStep(store, userId, remaining, rows, ids, id);
      if store[id].userId == userId && Visible(store[id]) {
        rows := rows + [store[id]];
        ids := ids + [id];
      }
      remaining := remaining - {id};
    }
    DistinctCard(ids, OwnedIds(store, userId));
    RowsOfOwnedIds(store, userId, rows, ids);
  }

  /** Rows read under distinct owned ids are owned rows, and under the
      primary-key invariant they carry distinct ids. */
  lemma RowsOfOwnedIds(store: Store, userId: int32, rows: seq<Campaign>, ids: seq<string>)
    requires |rows| == |ids|
    requires forall i :: 0 <= i < |ids| ==> ids[i] in OwnedIds(store, userId) && rows[i] == store[ids[i]]
    requires forall i, j :: 0 <= i < j < |ids| ==> ids[i] != ids[j]
    ensures forall i :: 0 <= i < |rows| ==> OwnedRow(store, userId, rows[i])
    ensures forall id :: id in ids ==> id in store && store[id] in rows
    ensures WellKeyed(store) ==> forall i, j :: 0 <= i < j < |rows| ==> rows[i].id != rows[j].id
  {
    forall i | 0 <= i < |rows| ensures OwnedRow(store, userId, rows[i]) {
      assert store[ids[i]] in store.Values;
    }
    forall id | id in ids ensures store[id] in rows {
      var i :| 0 <= i < |ids| && ids[i] == id;
      assert rows[i] == store[id];
    }
  }
}
