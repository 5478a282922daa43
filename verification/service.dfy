/** The orchestration layer: builds repository payloads from wire requests
    through the codec, enforces the one request-level policy (no client may
    set status "completed"), and encodes stored rows back into wire form. */
module Service {
  import opened Base
  import opened Codec
  import opened Models
  import Repository

  /** The wire form of a campaign: enums as indices, no deletion marker. */
  datatype CampaignMessage = CampaignMessage(
    id: string,
    userId: int32,
    title: string,
    description: string,
    targetAmount: int32,
    collectedAmount: int32,
    deadline: Instant,
    status: int32,
    category: int32,
    minDonation: int32,
    createdAt: Instant,
    updatedAt: Instant)

  datatype CreateCampaignRequest = CreateCampaignRequest(
    userId: int32, title: string, description: string, targetAmount: int32,
    deadline: Option<Instant>, category: int32, minDonation: int32)

  datatype UpdateCampaignByIDRequest = UpdateCampaignByIDRequest(
    id: string, userId: int32, title: string, description: string, targetAmount: int32,
    deadline: Option<Instant>, status: int32, category: int32, minDonation: int32)

  /** Each response carries its campaign in a one-element list. */
  datatype CreateCampaignResponse = CreateCampaignResponse(createdCampaign: seq<CampaignMessage>)
  datatype GetCampaignByIDResponse = GetCampaignByIDResponse(campaign: seq<CampaignMessage>)
  datatype UpdateCampaignByIDResponse = UpdateCampaignByIDResponse(updatedCampaign: seq<CampaignMessage>)
  /** The delete acknowledgement wraps an empty message. */
  datatype DeleteCampaignByIDResponse = DeleteCampaignByIDResponse(deleteResponse: ())

  /** The Unix epoch: what an absent wire timestamp converts to. It is not
      Go's zero time, so gorm treats it as a value to write. */
  const Epoch: Instant := Time(0)

  /** `Deadline.AsTime()`: a present timestamp converts to its instant, an
      absent one to the Unix epoch. */
  function AsTime(d: Option<Instant>): (t: Instant)
    ensures d.None? ==> t == Epoch && t != ZeroTime
    ensures d.Some? ==> t == d.value
  {
    match d
    case None => Epoch
    case Some(t) => t
  }

  const CompletedDeniedError: Error :=
    Error(PermissionDenied, "You cannot manually set status to COMPLETED")

  /** Encode a stored row for the wire: both enum strings are decoded to
      indices, every other column is copied. */
  function ToMessage(c: Campaign): (m: CampaignMessage)
    ensures m.id == c.id && m.userId == c.userId
    ensures m.title == c.title && m.description == c.description
    ensures m.targetAmount == c.targetAmount && m.collectedAmount == c.collectedAmount
    ensures m.deadline == c.deadline && m.minDonation == c.minDonation
    ensures m.createdAt == c.createdAt && m.updatedAt == c.updatedAt
    ensures 0 <= m.status < 5 && 0 <= m.category < 10
    ensures c.status in StatusProtoNames ==> StatusProtoNames[m.status] == c.status
    ensures c.status !in StatusProtoNames ==> m.status == 0
    ensures c.category in CategoryNames ==> CategoryNames[m.category] == c.category
    ensures c.category !in CategoryNames ==> m.category == 0
  {
    CampaignMessage(c.id, c.userId, c.title, c.description, c.targetAmount, c.collectedAmount,
                    c.deadline, MapStatusProto(c.status), MapCateogryProto(c.category),
                    c.minDonation, c.createdAt, c.updatedAt)
  }

  /** The record handed to the repository on create: the fresh id, the
      request's fields, the category encoded; status, collected amount and
      timestamps stay at Go's zero values. */
  function CreatePayload(req: CreateCampaignRequest, newId: string): (c: Campaign)
    ensures c.id == newId && c.userId == req.userId
    ensures c.title == req.title && c.description == req.description
    ensures c.targetAmount == req.targetAmount && c.minDonation == req.minDonation
    ensures c.deadline == AsTime(req.deadline)
    ensures c.status == "" && c.collectedAmount == 0 && c.deletedAt == None
    ensures c.createdAt == ZeroTime && c.updatedAt == ZeroTime
    ensures c.category == MapCategoryDB(req.category)
  {
    Campaign(newId, req.userId, req.title, req.description, req.targetAmount, 0,
             AsTime(req.deadline), "", MapCategoryDB(req.category), req.minDonation,
             ZeroTime, ZeroTime, None)
  }

  /** `CreateCampaign`: `newId` is the freshly generated UUID. The stored
      status is the column default "active", so the response reports status
      1; a category index 0..9 comes back as sent. A repository error is
      returned unchanged. */
  function CreateCampaign(store: Store, newId: string, now: Instant, req: CreateCampaignRequest)
    : (r: Repository.Step<CreateCampaignResponse>)
    ensures var rep := Repository.CreateCampaign(store, CreatePayload(req, newId), now);
            && r.store == rep.store
            && (rep.result.Err? ==> r.result == Err(rep.result.error))
    ensures r.result.Ok? <==> newId !in store
    ensures r.result.Ok? ==>
              && |r.result.value.createdCampaign| == 1
              && r.result.value.createdCampaign[0].id == newId
              && r.result.value.createdCampaign[0].userId == req.userId
              && r.result.value.createdCampaign[0].status == 1
              && r.store[newId].status == DefaultStatus
              && r.store[newId].category == MapCategoryDB(req.category)
              && (0 <= req.category < 10 ==> r.result.value.createdCampaign[0].category == req.category)
  {
    var rep := Repository.CreateCampaign(store, CreatePayload(req, newId), now);
    match rep.result
    case Err(e) => Repository.Step(Err(e), rep.store)
    case Ok(created) =>
      NamesDistinct();
      assert StatusProtoNames[1] == DefaultStatus;
      Repository.Step(Ok(CreateCampaignResponse([ToMessage(created)])), rep.store)
  }

  /** `GetCampaignByID`: the visible row under `id`, encoded; a repository
      error is returned unchanged. */
  function GetCampaignByID(store: Store, id: string): (r: Result<GetCampaignByIDResponse>)
    ensures Repository.GetCampaignByID(store, id).Err? ==>
              r == Err(Repository.GetCampaignByID(store, id).error)
    ensures r.Ok? <==> id in store && Visible(store[id])
    ensures r.Ok? ==> r.value.campaign == [ToMessage(store[id])]
  {
    match Repository.GetCampaignByID(store, id)
    case Err(e) => Err(e)
    case Ok(c) => Ok(GetCampaignByIDResponse([ToMessage(c)]))
  }

  /** `DeleteCampaignByID`: the repository's soft delete; success becomes
      the empty acknowledgement and an error is returned unchanged. */
  function DeleteCampaignByID(store: Store, id: string, now: Instant)
    : (r: Repository.Step<DeleteCampaignByIDResponse>)
    ensures var rep := Repository.DeleteCampaignByID(store, id, now);
            && r.store == rep.store
            && (rep.result.Err? ==> r.result == Err(rep.result.error))
            && (rep.result.Ok? ==> r.result == Ok(DeleteCampaignByIDResponse(())))
    ensures r.result.Ok? <==> id in store && Visible(store[id])
  {
    var rep := Repository.DeleteCampaignByID(store, id, now);
    match rep.result
    case Err(e) => Repository.Step(Err(e), rep.store)
    case Ok(_) => Repository.Step(Ok(DeleteCampaignByIDResponse(())), rep.store)
  }

  /** The patch handed to the repository on update: the request's content
      fields with both enums encoded; id, owner, collected amount and
      timestamps stay at Go's zero values, so the patch never writes them. */
  function UpdatePayload(req: UpdateCampaignByIDRequest): (c: Campaign)
    ensures c.id == "" && c.userId == 0 && c.collectedAmount == 0
    ensures c.title == req.title && c.description == req.description
    ensures c.targetAmount == req.targetAmount && c.minDonation == req.minDonation
    ensures c.deadline == AsTime(req.deadline)
    ensures c.createdAt == ZeroTime && c.updatedAt == ZeroTime && c.deletedAt == None
    ensures c.status == MapStatusDB(req.status) && c.category == MapCategoryDB(req.category)
  {
    Campaign("", 0, req.title, req.description, req.targetAmount, 0, AsTime(req.deadline),
             MapStatusDB(req.status), MapCategoryDB(req.category), req.minDonation,
             ZeroTime, ZeroTime, None)
  }

  /** `UpdateCampaignByID`: a request whose status encodes to "completed"
      (index 3) is refused with PermissionDenied before the repository is
      consulted; otherwise the repository's update decides, and its error
      is returned unchanged. */
  function UpdateCampaignByID(store: Store, now: Instant, req: UpdateCampaignByIDRequest)
    : (r: Repository.Step<UpdateCampaignByIDResponse>)
    ensures req.status == 3 ==> r == Repository.Step(Err(CompletedDeniedError), store)
    ensures req.status != 3 ==>
              var rep := Repository.UpdateCampaignByID(store, req.id, req.userId, UpdatePayload(req), now);
              && r.store == rep.store
              && (rep.result.Err? ==> r.result == Err(rep.result.error))
              && (rep.result.Ok? ==> r.result == Ok(UpdateCampaignByIDResponse([ToMessage(rep.result.value)])))
  {
    var payload := UpdatePayload(req);
    NamesDistinct();
    if payload.status == "completed" then
      Repository.Step(Err(CompletedDeniedError), store)
    else
      var rep := Repository.UpdateCampaignByID(store, req.id, req.userId, payload, now);
      match rep.result
      case Err(e) => Repository.Step(Err(e), rep.store)
      case Ok(updated) => Repository.Step(Ok(UpdateCampaignByIDResponse([ToMessage(updated)])), rep.store)
  }
}
