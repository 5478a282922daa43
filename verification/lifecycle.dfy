/** End-to-end properties of the service over the store: the status life
    cycle, identity of a campaign across calls, and the create/get/update/
    delete scenario. */
module Lifecycle {
  import opened Base
  import opened Codec
  import opened Models
  import Repository
  import RepositoryFacts
  import opened Service

  /** Every service write keeps each row filed under its own id. */
  lemma ServiceKeepsWellKeyed(store: Store, newId: string, id: string, now: Instant,
                              c: CreateCampaignRequest, u: UpdateCampaignByIDRequest)
    requires WellKeyed(store)
    ensures WellKeyed(CreateCampaign(store, newId, now, c).store)
    ensures WellKeyed(UpdateCampaignByID(store, now, u).store)
    ensures WellKeyed(DeleteCampaignByID(store, id, now).store)
  {
    if u.status != 3 {
      RepositoryFacts.UpdateKeepsTerminalRows(store, u.id, u.userId, UpdatePayload(u), now);
    }
    RepositoryFacts.DeleteKeepsWellKeyed(store, id, now);
  }

  /** A campaign created under a fresh id is read back, through the
      service, exactly as the create response reported it. */
  lemma CreateThenGet(store: Store, newId: string, now: Instant, req: CreateCampaignRequest)
    requires newId !in store
    ensures var r := CreateCampaign(store, newId, now, req);
            && r.result.Ok?
            && GetCampaignByID(r.store, newId) == Ok(GetCampaignByIDResponse(r.result.value.createdCampaign))
  {
  }

  /** Two successful creates in sequence carry distinct ids. */
  lemma CreateDistinctIds(store: Store, a: string, b: string, now: Instant, later: Instant,
                          reqA: CreateCampaignRequest, reqB: CreateCampaignRequest)
    requires CreateCampaign(store, a, now, reqA).result.Ok?
    requires CreateCampaign(CreateCampaign(store, a, now, reqA).store, b, later, reqB).result.Ok?
    ensures a != b
  {
  }

  /** A request for status "completed" is refused whatever the table holds,
      even for an id that does not exist, and nothing is written. */
  lemma CompletedAlwaysDenied(store: Store, now: Instant, req: UpdateCampaignByIDRequest)
    requires MapStatusDB(req.status) == "completed"
    ensures UpdateCampaignByID(store, now, req).result == Err(CompletedDeniedError)
    ensures UpdateCampaignByID(store, now, req).store == store
  {
  }

  /** A successful service update leaves the campaign's id and owner as
      they were, because its patch never sets either. */
  lemma UpdateKeepsIdentity(store: Store, now: Instant, req: UpdateCampaignByIDRequest)
    requires WellKeyed(store)
    requires UpdateCampaignByID(store, now, req).result.Ok?
    ensures var r := UpdateCampaignByID(store, now, req);
            && req.id in store && req.id in r.store
            && r.store[req.id].id == req.id
            && r.store[req.id].userId == store[req.id].userId
            && r.result.value.updatedCampaign[0].id == req.id
            && r.result.value.updatedCampaign[0].userId == store[req.id].userId
  {
  }

  /** Every row that is "completed" after a write was already so before it. */
  predicate NoNewCompletion(before: Store, after: Store) {
    forall k :: k in after && after[k].status == "completed" ==>
      k in before && before[k].status == "completed"
  }

  /** No client-facing operation ever makes a campaign "completed": after
      create, update or delete, a row is completed only if it already was. */
  lemma NoCompletionOnCreate(store: Store, newId: string, now: Instant, c: CreateCampaignRequest)
    ensures NoNewCompletion(store, CreateCampaign(store, newId, now, c).store)
  {
  }

  lemma NoCompletionOnUpdate(store: Store, now: Instant, u: UpdateCampaignByIDRequest)
    ensures NoNewCompletion(store, UpdateCampaignByID(store, now, u).store)
  {
  }

  lemma NoCompletionOnDelete(store: Store, id: string, now: Instant)
    ensures NoNewCompletion(store, DeleteCampaignByID(store, id, now).store)
  {
  }

  /** The status a service update leaves: a terminal row keeps everything;
      any other row ends with its old status or with "active", "paused"
      or "cancelled". */
  lemma UpdateStatusTransitions(store: Store, now: Instant, req: UpdateCampaignByIDRequest)
    requires req.id in store
    ensures var s := UpdateCampaignByID(store, now, req).store;
            && req.id in s
            && (IsTerminal(store[req.id].status) ==> s[req.id] == store[req.id])
            && (s[req.id].status == store[req.id].status
                || s[req.id].status in {"active", "paused", "cancelled"})
  {
  }

  /** Status index 0 encodes to "", so it keeps the stored status; category
      index 0 encodes to "unspecified", so it overwrites the stored category.
      Shown for an owned, visible, non-terminal row. */
  lemma UpdateZeroIndices(store: Store, now: Instant, req: UpdateCampaignByIDRequest)
    requires req.id in store && Visible(store[req.id]) && !IsTerminal(store[req.id].status)
    requires store[req.id].userId == req.userId
    requires req.status == 0 && req.category == 0
    ensures var s := UpdateCampaignByID(store, now, req).store;
            && s[req.id].status == store[req.id].status
            && s[req.id].category == "unspecified"
  {
  }

  /** An update that leaves the deadline out does not keep the stored
      deadline: the absent timestamp converts to the Unix epoch, which is
      not Go's zero time, so the patch writes it. */
  lemma UpdateWithoutDeadlineOverwrites(store: Store, now: Instant, req: UpdateCampaignByIDRequest)
    requires req.id in store && Visible(store[req.id]) && !IsTerminal(store[req.id].status)
    requires store[req.id].userId == req.userId && req.status != 3
    requires req.deadline == None
    ensures UpdateCampaignByID(store, now, req).store[req.id].deadline == Epoch
  {
  }

  /** The worked scenario: create (category education) yields an active
      campaign that get returns unchanged; an owner's update to category
      healthcare, sending status 0 and no deadline, changes the category,
      keeps the status and resets the deadline to the epoch; delete then leaves it cancelled and marked, and get no longer
      finds it. */
  lemma Scenario(store: Store, newId: string, t0: Instant, t1: Instant, t2: Instant,
                 owner: int32, deadline: Instant)
    requires newId !in store
    ensures var create := CreateCampaign(store, newId, t0,
              CreateCampaignRequest(owner, "Build a well", "", 1000, Some(deadline), 1, 10));
            var s1 := create.store;
            var update := UpdateCampaignByID(s1, t1,
              UpdateCampaignByIDRequest(newId, owner, "", "", 0, None, 0, 2, 0));
            var s2 := update.store;
            var s3 := DeleteCampaignByID(s2, newId, t2).store;
            && create.result.Ok?
            && s1[newId].status == "active" && s1[newId].category == "education"
            && GetCampaignByID(s1, newId) == Ok(GetCampaignByIDResponse(create.result.value.createdCampaign))
            && update.result.Ok?
            && s2[newId].category == "healthcare" && s2[newId].status == "active"
            && s1[newId].deadline == deadline && s2[newId].deadline == Epoch
            && update.result.value.updatedCampaign[0].category == 2
            && update.result.value.updatedCampaign[0].status == 1
            && s3[newId].status == "cancelled" && s3[newId].deletedAt == Some(t2)
            && GetCampaignByID(s3, newId).Err?
            && GetCampaignByID(s3, newId).error.code == NotFound
  {
    var creq := CreateCampaignRequest(owner, "Build a well", "", 1000, Some(deadline), 1, 10);
    var create := CreateCampaign(store, newId, t0, creq);
    var s1 := create.store;
    NamesDistinct();
    assert MapCategoryDB(1) == "education" && MapCategoryDB(2) == "healthcare";
    assert s1[newId] == Repository.CreateCampaign(store, CreatePayload(creq, newId), t0).result.value;
    var ureq := UpdateCampaignByIDRequest(newId, owner, "", "", 0, None, 0, 2, 0);
    var rep := Repository.UpdateCampaignByID(s1, newId, owner, UpdatePayload(ureq), t1);
    assert rep.store[newId] == ApplyPatch(s1[newId], UpdatePayload(ureq), t1);
    var s2 := UpdateCampaignByID(s1, t1, ureq).store;
    assert s2 == rep.store;
    assert StatusProtoNames[1] == "active" && CategoryNames[2] == "healthcare";
  }
}
