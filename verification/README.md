# Campaign service: lifecycle-guarded campaign store

A Dafny model of the core of a crowdfunding campaign service. The service
keeps one entity, the campaign. It translates the campaign's two enums
(category and status) between wire integers and persisted strings. It
guards updates with a terminal-status rule and soft-deletes by cancelling.

The model has three layers, each made of pure functions over an abstract
table `Store = map<string, Campaign>` that is keyed by the primary key:

- `Codec` (codec.dfy): the four enum lookups. Each Go function ranges over a
  literal map and lets every matching entry overwrite a zero-valued result.
  `Codec.MapRange` is that loop, run over a table visited in a given order.
  Each lookup is proved equal to a reference definition: the position of
  the name in the list `CategoryNames`, `StatusDBNames` or
  `StatusProtoNames`. The tables are proved injective, so every visiting
  order gives the same answer.
- `Models` (models.dfy): the `CampaignDB` row, the store, and two gorm
  behaviours stated as explicit assumptions:
  - Soft-delete scope: lookups see only rows whose `deletedAt` is `None`.
  - Patch semantics: `Updates(struct)` writes only the patch fields that are
    not Go's zero value, and stamps `updatedAt`.
- `Repository` (repository.dfy, with lemmas in repository_facts.dfy): create,
  get by id, update, delete and list by owner. Every write returns a `Step`,
  which holds the result and the table afterwards.
- `Service` (service.dfy): request-to-payload mapping through the codec, the
  "no client may set completed" policy, and response encoding.
  `Lifecycle` (lifecycle.dfy) states end-to-end properties:
  - create then get returns what create reported;
  - no client operation makes a row completed;
  - terminal rows are frozen against update;
  - the worked create/get/update/delete scenario behaves as described.

Time is an opaque `Instant`, where `ZeroTime` stands for Go's zero
`time.Time`. Writes take the current time as a parameter. Create takes the
freshly generated UUID as a parameter. A request's deadline is an optional
timestamp. An absent one converts to the Unix epoch (`Service.AsTime`),
which is not Go's zero time, so an update without a deadline overwrites the
stored deadline (`Lifecycle.UpdateWithoutDeadlineOverwrites`).

Points where the code's behaviour is easy to misread:

- An unknown category index encodes to `""`, not to `"unspecified"`.
- Get, update and delete do not see a soft-deleted row, so they answer
  NotFound for it. The comment at repository/campaign_repo.go:45 says
  otherwise. A second delete therefore fails with NotFound instead of being
  idempotent.
- Create fails exactly when the insert affects zero rows. In the model that
  happens when the id is already a key, including the key of a soft-deleted
  row.
- An update whose owner does not match writes nothing, raises no error and
  returns the stored row unchanged (`RepositoryFacts.UpdateOwnerMismatchSilent`).
- The service has no list-by-owner handler, so listing exists only at the
  repository layer.

The decode function for categories keeps the source's spelling
`MapCateogryProto`.

## Model

| member | source | states |
|---|---|---|
| Codec.MapCategoryDB | campaign-service/helper/map_enum.go:3-24 | an index 0..9 encodes to the category name at that position; any other index encodes to "" |
| Codec.MapCateogryProto | campaign-service/helper/map_enum.go:27-47 | the result is always in 0..9; a known name decodes to its position; any other string, "" included, decodes to 0 |
| Codec.MapStatusDB | campaign-service/helper/map_enum.go:49-64 | index 0 encodes to "" and 1..4 to active/paused/completed/cancelled; any other index encodes to "" |
| Codec.MapStatusProto | campaign-service/helper/map_enum.go:66-81 | the result is always in 0..4; "unspecified"/active/paused/completed/cancelled decode to their positions; any other string, "" included, decodes to 0 |
| Codec.MapRange | campaign-service/helper/map_enum.go:18-22 | the range loop ends either with its starting zero value or with the value of an entry whose key matched the input |
| Codec.MapRangeMiss | campaign-service/helper/map_enum.go:18-23 | when no entry matches, the range loop leaves its zero-valued result untouched |
| Codec.MapRangeHit | campaign-service/helper/map_enum.go:18-22 | when entries match and all matching entries agree on a value, the loop ends with that value whatever it started with |
| Codec.MapRangeOrderIndependent | campaign-service/helper/map_enum.go:41-45 | for a table with distinct keys, every reordering of its entries gives the same loop result |
| Codec.IndexedByIndex | campaign-service/helper/map_enum.go:6-23 | a lookup by index in a 0-based table yields the name at that position, or "" outside the table |
| Codec.IndexedByName | campaign-service/helper/map_enum.go:29-46 | a lookup by name in a table of distinct names yields the name's position, or 0 for a name outside it |
| Codec.NamesDistinct | campaign-service/helper/map_enum.go:51-57 | the category names, persisted status names and decoded status names are each pairwise distinct |
| Codec.TablesInjective | campaign-service/helper/map_enum.go:3-81 | all four maps have distinct keys and distinct values, so at most one entry matches any input |
| Codec.CodecOrderIndependent | campaign-service/helper/map_enum.go:58-79 | every iteration order of each of the four maps gives the same result as the modelled lookup |
| Codec.CategoryIndexRoundTrip | campaign-service/helper/map_enum.go:3-47 | for every index 0..9, decoding the encoded category gives the index back |
| Codec.StatusIndexRoundTrip | campaign-service/helper/map_enum.go:49-81 | for every index 0..4, decoding the encoded status gives the index back, including 0 through "" |
| Codec.CategoryNameRoundTrip | campaign-service/helper/map_enum.go:6-40 | each of the ten category names survives decoding then encoding |
| Codec.StatusNameRoundTrip | campaign-service/helper/map_enum.go:52-69 | active/paused/completed/cancelled survive decoding then encoding; "unspecified" comes back as "" |
| Models.WithInsertDefaults | campaign-service/models/campaign.go:17-21 | the inserted row is the caller's record except that an empty status becomes "active" and a zero createdAt or updatedAt becomes the insert time; set values are kept |
| Models.Visible | campaign-service/models/campaign.go:22 | a row is visible to default queries exactly when its deletion marker is null; a row with a marker is hidden |
| Models.IsTerminal | campaign-service/repository/campaign_repo.go:83 | a stored status is terminal exactly when the codec reads it back as wire status 3 (completed) or 4 (cancelled) |
| Models.ApplyPatch | campaign-service/repository/campaign_repo.go:87 | for every written column (owner, title, description, amounts, deadline, status, category, minimum donation) a zero patch value keeps the stored one and a non-zero value replaces it; id, creation time and deletion marker are kept; updatedAt becomes the write time |
| Models.PatchFieldSemantics | campaign-service/repository/campaign_repo.go:87 | an empty status keeps the stored status; any non-empty category, "unspecified" included, replaces it; the all-zero patch changes nothing but updatedAt |
| Models.PatchIdempotent | campaign-service/repository/campaign_repo.go:87 | applying a patch twice equals applying it once |
| Repository.TerminalError | campaign-service/repository/campaign_repo.go:83-84 | the refusal has code FailedPrecondition and its message ends with the current status |
| Repository.CreateCampaign | campaign-service/repository/campaign_repo.go:33-41 | the insert succeeds exactly when the id is not yet a key; the returned and stored row is the caller's record with the insert defaults applied; otherwise Internal "Failed to create a campaign" and no change |
| Repository.GetCampaignByID | campaign-service/repository/campaign_repo.go:43-50 | succeeds exactly when a visible row has that id, and returns that row; otherwise NotFound |
| Repository.WriteOwned | campaign-service/repository/campaign_repo.go:87-89 | the id-and-owner filtered write patches only a visible row with matching owner and leaves every other row as it was |
| Repository.UpdateCampaignByID | campaign-service/repository/campaign_repo.go:70-96 | missing id gives NotFound and no change; terminal status gives FailedPrecondition and no change; otherwise the filtered write happens and the re-read row is returned |
| Repository.DeleteCampaignByID | campaign-service/repository/campaign_repo.go:52-68 | missing id gives NotFound and no change; otherwise the row stays, with status cancelled and the deletion marker set, and no other row changes |
| Repository.OwnedIds | campaign-service/repository/campaign_repo.go:101 | the ids the owner query sees: exactly the stored ids whose row has that owner and no deletion marker |
| Repository.GetCampaignByUserID | campaign-service/repository/campaign_repo.go:98-105 | returns every visible row of that owner and nothing else, as many rows as such ids, with distinct ids when every row is filed under its own id; no match is an empty success |
| RepositoryFacts.UpdateMissing | campaign-service/repository/campaign_repo.go:72-75 | update of an id without a visible row fails with NotFound and leaves the table unchanged |
| RepositoryFacts.UpdateTerminalFrozen | campaign-service/repository/campaign_repo.go:82-85 | update of a cancelled or completed row fails with FailedPrecondition naming the status, and the table is unchanged |
| RepositoryFacts.UpdateFrame | campaign-service/repository/campaign_repo.go:87 | update writes at most the row under the given id, only if that row's owner matches, and then only the patch |
| RepositoryFacts.UpdateOwnerMismatchSilent | campaign-service/repository/campaign_repo.go:87-95 | with a non-matching owner, update returns the unchanged row with no error and writes nothing |
| RepositoryFacts.UpdateKeepsTerminalRows | campaign-service/repository/campaign_repo.go:82-89 | no update changes any row whose status is terminal, and the primary-key invariant is kept |
| RepositoryFacts.DeleteHides | campaign-service/repository/campaign_repo.go:52-66 | after delete the row is still stored, cancelled and marked, but get, update and a second delete answer NotFound |
| RepositoryFacts.DeleteKeepsWellKeyed | campaign-service/repository/campaign_repo.go:61-64 | soft delete keeps every row filed under its own id |
| RepositoryFacts.CreateThenGet | campaign-service/repository/campaign_repo.go:33-50 | a visible row created under a fresh id is read back exactly as create returned it |
| RepositoryFacts.CreateTwiceDistinct | campaign-service/models/campaign.go:10 | two successful creates carry distinct ids; re-inserting an existing id fails with Internal |
| Service.ToMessage | campaign-service/service/campaign_service.go:98-113 | the wire campaign copies every column but the deletion marker; status and category decode to their index ranges, inverting the codec for known names and giving 0 for unknown strings |
| Service.AsTime | campaign-service/service/campaign_service.go:137 | an absent request deadline converts to the Unix epoch, which is not Go's zero time; a present one to its own instant |
| Service.CreatePayload | campaign-service/service/campaign_service.go:41-50 | the create payload carries the fresh id, the caller's owner, title, description, target, converted deadline and minimum donation, an encoded category, and no status, collected amount or timestamps |
| Service.CreateCampaign | campaign-service/service/campaign_service.go:36-83 | success exactly for a fresh id; the stored status is "active" and the response says 1; a category index 0..9 comes back unchanged; repository errors pass through unchanged |
| Service.GetCampaignByID | campaign-service/service/campaign_service.go:85-117 | succeeds exactly for a visible row and returns it encoded; repository errors pass through unchanged |
| Service.DeleteCampaignByID | campaign-service/service/campaign_service.go:119-129 | success is the empty acknowledgement; repository errors pass through unchanged; the table is the repository's |
| Service.UpdatePayload | campaign-service/service/campaign_service.go:133-141 | the update patch carries the request's title, description, target, converted deadline, minimum donation and encoded status and category, and never sets id, owner, collected amount or timestamps |
| Service.UpdateCampaignByID | campaign-service/service/campaign_service.go:131-178 | status index 3 is refused with PermissionDenied and no write; otherwise the repository update decides and its errors pass through unchanged |
| Lifecycle.ServiceKeepsWellKeyed | campaign-service/models/campaign.go:10 | create, update and delete through the service keep every row filed under its own id |
| Lifecycle.CreateThenGet | campaign-service/service/campaign_service.go:36-117 | a campaign created under a fresh id is returned by get exactly as the create response reported it |
| Lifecycle.CreateDistinctIds | campaign-service/service/campaign_service.go:38-42 | two successful creates in sequence carry distinct ids |
| Lifecycle.CompletedAlwaysDenied | campaign-service/service/campaign_service.go:143-146 | a request whose status encodes to "completed" is refused with PermissionDenied whatever the table holds, and nothing is written |
| Lifecycle.UpdateKeepsIdentity | campaign-service/service/campaign_service.go:133-141 | a successful update leaves the campaign's id and owner unchanged, in the table and in the response |
| Lifecycle.NoCompletionOnCreate | campaign-service/service/campaign_service.go:41-50 | after create no row is completed unless it already was: the new row has the default status |
| Lifecycle.NoCompletionOnUpdate | campaign-service/service/campaign_service.go:143-146 | after an update through the service no row is completed unless it already was |
| Lifecycle.NoCompletionOnDelete | campaign-service/repository/campaign_repo.go:59-64 | after delete no row is completed unless it already was: delete only ever writes "cancelled" |
| Lifecycle.UpdateStatusTransitions | campaign-service/repository/campaign_repo.go:82-87 | a terminal row is left untouched by update; any other row ends with its old status or active, paused or cancelled |
| Lifecycle.UpdateZeroIndices | campaign-service/service/campaign_service.go:138-139 | status index 0 keeps the stored status, while category index 0 overwrites the category with "unspecified" |
| Lifecycle.UpdateWithoutDeadlineOverwrites | campaign-service/service/campaign_service.go:137 | an owner's update that leaves the deadline out sets the stored deadline to the epoch instead of keeping it |
| Lifecycle.Scenario | campaign-service/service/campaign_service.go:36-152 | create, get, an owner's category update without a deadline, then delete: active and education, read back unchanged, healthcare with status kept and deadline reset to the epoch, then cancelled, marked and no longer found |

## Left out

- Process bootstrap (campaign-service/main.go): environment loading, database connection, gRPC registration and the TCP listener. It is plumbing with no behaviour to state.
- gorm and SQL themselves. The store is a map. Only the two gorm behaviours above are modelled, and they are stated as the model's assumptions.
- Database faults other than a primary-key conflict, such as a lost connection or a rejected enum value. They would produce the Internal errors at repository/campaign_repo.go:65 and :88 and the NotFound at :102. No input of the model reaches those branches.
- UUID generation. The new id is a parameter. Its freshness is the condition under which create succeeds, not a precondition.
- Timestamps. `Instant` is opaque. Converting a present wire timestamp (`AsTime`, `timestamppb.New`) is the identity on it, and an absent one becomes the epoch.
- Models.ApplyPatch: the patch's `id`, `createdAt` and `deletedAt` fields are not written. gorm adds a non-empty patch id to the filter, and the service never sets any of the three.
- The `interface{}` results and their failed-cast branches (for example campaign_service.go:59-62 and campaign_repo.go:77-80). Every operation returns the concrete row type, so these branches cannot occur.
- The read-then-write race in update and delete. It is a concurrency concern and the model is sequential.
- The stale `CampaignService` interface at campaign_service.go:19-23. It declares no behaviour.
- List-by-owner at the service layer. The service has no handler for it, so the generated base server answers Unimplemented, and that generated code is not part of this model.
- Models.TableName: it is a constant and has no contract. The schema-qualified name matters only to SQL, which is not modelled.
- The byte content of error messages is kept as strings, but the gRPC status encoding is not modelled.
