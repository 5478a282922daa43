/** Properties of the repository that relate several operations or quantify
    over the whole table. */
module RepositoryFacts {
  import opened Base
  import opened Models
  import opened Repository

  /** Update on an id with no visible row fails with NotFound, writes nothing. */
  lemma UpdateMissing(store: Store, id: string, userId: int32, patch: Campaign, now: Instant)
    requires GetCampaignByID(store, id).Err?
    ensures UpdateCampaignByID(store, id, userId, patch, now).result == Err(NotFoundError)
    ensures UpdateCampaignByID(store, id, userId, patch, now).store == store
  {
  }

  /** The terminal-status guard: a cancelled or completed row is never
      written by update, which fails naming the status. */
  lemma UpdateTerminalFrozen(store: Store, id: string, userId: int32, patch: Campaign, now: Instant)
    requires id in store && Visible(store[id]) && IsTerminal(store[id].status)
    ensures UpdateCampaignByID(store, id, userId, patch, now).result.Err?
    ensures UpdateCampaignByID(store, id, userId, patch, now).result.error.code == FailedPrecondition
    ensures UpdateCampaignByID(store, id, userId, patch, now).result.error.message
            == "campaign status is " + store[id].status
    ensures UpdateCampaignByID(store, id, userId, patch, now).store == store
  {
  }

  /** Update only ever writes the row filed under `id`, and only when that
      row belongs to `userId`; every other row is untouched. A successful
      update of an owned row applies exactly the patch's non-zero fields. */
  lemma UpdateFrame(store: Store, id: string, userId: int32, patch: Campaign, now: Instant)
    ensures var r := UpdateCampaignByID(store, id, userId, patch, now);
            && r.store.Keys == store.Keys
            && (forall k :: k in store && k != id ==> r.store[k] == store[k])
            && (id in store && store[id].userId != userId ==> r.store == store)
            && (r.store != store ==> r.store[id] == ApplyPatch(store[id], patch, now))
  {
  }

  /** Owner mismatch is silent: the filtered write matches no row, no error
      is raised, and the re-read returns the row as it was. */
  lemma UpdateOwnerMismatchSilent(store: Store, id: string, userId: int32, patch: Campaign, now: Instant)
    requires id in store && Visible(store[id]) && !IsTerminal(store[id].status)
    requires store[id].userId != userId
    ensures UpdateCampaignByID(store, id, userId, patch, now) == Step(Ok(store[id]), store)
  {
  }

  /** No update, whatever its arguments, changes a row whose status is
      terminal, and none removes a row or changes its id. */
  lemma UpdateKeepsTerminalRows(store: Store, id: string, userId: int32, patch: Campaign, now: Instant)
    requires WellKeyed(store)
    ensures var r := UpdateCampaignByID(store, id, userId, patch, now);
            && WellKeyed(r.store)
            && (forall k :: k in store && IsTerminal(store[k].status) ==> r.store[k] == store[k])
  {
  }

  /** Delete is soft: the row stays in the table, cancelled and marked, but
      get, update and a second delete no longer see it. */
  lemma DeleteHides(store: Store, id: string, now: Instant, userId: int32, patch: Campaign, later: Instant)
    requires GetCampaignByID(store, id).Ok?
    ensures var s := DeleteCampaignByID(store, id, now).store;
            && id in s && s[id].status == "cancelled" && s[id].deletedAt.Some?
            && GetCampaignByID(s, id) == Err(NotFoundError)
            && UpdateCampaignByID(s, id, userId, patch, later) == Step(Err(NotFoundError), s)
            && DeleteCampaignByID(s, id, later) == Step(Err(NotFoundError), s)
  {
  }

  /** Delete keeps every row filed under its own id. */
  lemma DeleteKeepsWellKeyed(store: Store, id: string, now: Instant)
    requires WellKeyed(store)
    ensures WellKeyed(DeleteCampaignByID(store, id, now).store)
  {
  }

  /** A created row is read back unchanged by id. */
  lemma CreateThenGet(store: Store, c: Campaign, now: Instant)
    requires c.id !in store && Visible(c)
    ensures var r := CreateCampaign(store, c, now);
            GetCampaignByID(r.store, c.id) == r.result
  {
  }

  /** The primary key is never issued twice: two successful creates in a
      row carry distinct ids, and the second id cannot be the first's. */
  lemma CreateTwiceDistinct(store: Store, a: Campaign, b: Campaign, now: Instant, later: Instant)
    requires CreateCampaign(store, a, now).result.Ok?
    requires CreateCampaign(CreateCampaign(store, a, now).store, b, later).result.Ok?
    ensures a.id != b.id
    ensures CreateCampaign(CreateCampaign(store, a, now).store, a, later).result == Err(CreateFailedError)
  {
  }
}
