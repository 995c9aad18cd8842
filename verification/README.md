# Events, people and participants: a Dafny model of the service core

This project models the data-shaping core of a reactive Spring Boot CRUD backend for events,
people and their participation. It covers:

- the entity records (`Event`, `Person`, `Participant`), with their factories, their
  `isNew` test and their copy-with operations;
- request decoding and validation. That is the compact-constructor ordering checks plus the
  `@NotBlank`, `@NotNull` and `@Size` annotations;
- the partial-update merge and the entity-to-response projections of `EventFunctions` and
  `PersonFunctions`;
- the `EventService` and `PersonService` operations over a store;
- the `requireNonNull` preconditions of `util/`.

Modelling choices:

- **Reactive types.** Every reactive type (`Mono`, `Flux`, `Maybe`, `Single`, `Flowable`,
  `Completable`) is read as a `Reactive.Signal`. A signal is either an error or a completed
  finite sequence of items. `zip` pairs items by position; on the sources the core zips,
  which each emit one item or fail, it fails exactly when some source fails. `map`
  transforms each item.
- **Preconditions.** The five `*Preconditions` files differ only in their reactive type. They
  share one generic family, `Preconditions.RequireNonNull`, `RequireNonNull2` and
  `RequireNonNull3`. Lemmas state what each reactive type adds.
- **Repositories.** A repository is a `Repository.Store`: a `map` from id to record, plus the
  order in which the ids were first saved. The source's paged query orders its rows by the
  sort the request carries, and without one in whatever order the database returns. The
  model has no sort and fixes the order to first-saved order (see "## Left out"). Each service also keeps every record under its own id (`Repository.KeyedById`).
- **Service operations.** Each is a pure function from a store to a `Step`: the new store
  plus the reply signal. The random UUIDs the source draws are passed in as parameters. A
  creation requires that the drawn id is not stored yet.
- **Values.** `LocalDateTime` is an integer (`isAfter` is `>`). A Java reference that may be
  null is `Common.Nullable`, and `java.util.Optional` is `Common.Option`.
- **Naming variants.** The source mixes storage variants. `Event.java` names the times
  `start`/`end`, `EventFunctions` reads `startTime()`/`endTime()` and `EventService` reads
  `start()`/`end()`. Only the embedded-relation variant has a participant list. The model
  uses one `Event` with `start`, `end` and `participantIds`. Its `EventResponse` uses the
  JSON names `startTime`/`endTime`. `EventService` keeps private copies of the
  `EventFunctions` helpers (`EventService.java:59-76`), and both are modelled by the
  `EventFunctions` members.
- **Size bound.** The size bound of titles and names is `Requests.MAX_TITLE` /
  `Requests.MAX_NAME`, set to 256. The constants class is not part of this model. The
  storage column holds 256 characters and the tests reject 300.
- **`getId`.** The `getId` of each entity is the datatype's `id` destructor.
- **`Person.from(name)`.** The one-argument `Person.from(name)` is `PersonEntity.From`
  applied to the drawn id.

## Model

| member | source | states |
|---|---|---|
| `Preconditions.RequireNonNull` | src/main/java/se/kry/springboot/demo/handson/util/MonoPreconditions.java:10-15 | fails with a null-pointer error exactly when the argument is null, otherwise emits exactly that argument |
| `Preconditions.RequireNonNull2` | src/main/java/se/kry/springboot/demo/handson/util/MonoPreconditions.java:17-22 | fails exactly when at least one of the two arguments is null, otherwise emits the single tuple (a, b) in order |
| `Preconditions.RequireNonNull3` | src/main/java/se/kry/springboot/demo/handson/util/MonoPreconditions.java:24-30 | fails exactly when at least one of the three arguments is null, otherwise emits the single tuple (a, b, c) in order |
| `Reactive.Zip2` | src/main/java/se/kry/springboot/demo/handson/util/FluxPreconditions.java:17-22 | zip fails exactly when a source fails, reporting the first source's error first; otherwise it pairs items by position up to the shorter source |
| `Reactive.Zip3` | src/main/java/se/kry/springboot/demo/handson/util/FluxPreconditions.java:24-30 | the three-source zip fails exactly when a source fails; otherwise it makes triples by position up to the shortest source |
| `Reactive.ZipOfSingles` | src/main/java/se/kry/springboot/demo/handson/util/FlowablePreconditions.java:18-24 | zipping two one-item publishers yields exactly one pair, so the pair form emits one tuple |
| `Preconditions.EveryNullCombinationFails` | src/main/java/se/kry/springboot/demo/handson/util/FlowablePreconditions.java:18-33 | each of (null, null), (x, null) and (null, y) fails, and every triple with a null fails, all with the same null-pointer error |
| `Preconditions.NeverEmpty` | src/main/java/se/kry/springboot/demo/handson/util/MaybePreconditions.java:11-33 | as a Maybe, each arity emits at most one item and never completes empty: null is an error, not an absent value |
| `Preconditions.SingleShaped` | src/main/java/se/kry/springboot/demo/handson/util/ReactivePreconditions.java:11-33 | as a Single, each arity either fails or emits exactly one value, and for non-null arguments that value is the arguments in order |
| `EventEntity.Event.IsNew` | src/main/java/se/kry/springboot/demo/handson/data/Event.java:35-38 | true exactly when the creation date is absent, that is before the persistence layer stamps the event |
| `EventEntity.From` | src/main/java/se/kry/springboot/demo/handson/data/Event.java:25-28 | the new event has exactly the given id, title, start and end, no participants, both audit fields absent, and so is new |
| `EventEntity.Event.Copy` | src/main/java/se/kry/springboot/demo/handson/data/Event.java:40-44 | the title, start and end become f(title), g(start), h(end); apart from these three fields the result equals the original (id, participants, audit fields) |
| `EventEntity.Event.CopyParticipants` | src/main/java/se/kry/springboot/demo/handson/services/EventFunctions.java:30 | the participant ids become f(participantIds); apart from that field the result equals the original |
| `EventEntity.CopyIdentity` | src/main/java/se/kry/springboot/demo/handson/data/Event.java:40-44 | copying with three identity functions returns an equal event |
| `EventEntity.CopyComposes` | src/main/java/se/kry/springboot/demo/handson/data/Event.java:40-44 | two copies in a row equal one copy with the composed functions |
| `EventEntity.CopyKeepsIdentityAndIsNew` | src/main/java/se/kry/springboot/demo/handson/data/Event.java:31-43 | neither copy changes the id or whether the event is new |
| `PersonEntity.Person.IsNew` | src/main/java/se/kry/springboot/demo/handson/data/Person.java:36-39 | true exactly when the creation date is absent, that is before the persistence layer stamps the person |
| `PersonEntity.From` | src/main/java/se/kry/springboot/demo/handson/data/Person.java:22-29 | the new person has exactly the given id and name, both audit fields absent, and so is new |
| `PersonEntity.Person.Copy` | src/main/java/se/kry/springboot/demo/handson/data/Person.java:41-43 | the name becomes f(name); apart from the name the result equals the original (id, audit fields) |
| `PersonEntity.CopyIdentity` | src/main/java/se/kry/springboot/demo/handson/data/Person.java:41-43 | copying with the identity function returns an equal person |
| `PersonEntity.CopyOfFrom` | src/main/java/se/kry/springboot/demo/handson/data/Person.java:22-43 | copying a person built by `from` equals building one with the rewritten name under the same id |
| `PersonEntity.CopyKeepsIdentityAndIsNew` | src/main/java/se/kry/springboot/demo/handson/data/Person.java:31-43 | copying never changes the id or whether the person is new |
| `ParticipantEntity.Participant.IsNew` | src/main/java/se/kry/springboot/demo/handson/data/Participant.java:26-29 | true exactly when the creation date is absent, that is before the persistence layer stamps the record |
| `ParticipantEntity.From` | src/main/java/se/kry/springboot/demo/handson/data/Participant.java:17-19 | the record stores the drawn id and both foreign ids unchanged, without a creation date, so it is new |
| `ParticipantEntity.StampingEndsNew` | src/main/java/se/kry/springboot/demo/handson/data/Participant.java:17-29 | a record built by `from` is new; setting its creation date, as the persistence layer's stamp does, makes it no longer new and keeps the id and the (event, person) pair |
| `Requests.TrimStart` | src/main/java/se/kry/springboot/demo/handson/domain/EventCreationRequest.java:11 | the leading half of the `trim()` that `@NotBlank` applies: the result is a suffix of the input that starts with a character above the space (or is empty), and everything dropped is at most the space |
| `Requests.TrimEnd` | src/main/java/se/kry/springboot/demo/handson/domain/EventCreationRequest.java:11 | the trailing half of that `trim()`: the result is a prefix of the input that ends with a character above the space (or is empty), and everything dropped is at most the space |
| `Requests.BlankIffTrimEmpty` | src/main/java/se/kry/springboot/demo/handson/domain/EventCreationRequest.java:11 | for every string, `IsBlank` holds exactly when trimming leaves the empty string, the `trim().length() > 0` reading of `@NotBlank` |
| `Requests.BlankFollowsTrim` | src/main/java/se/kry/springboot/demo/handson/domain/PersonCreationRequest.java:6 | `@NotBlank` follows `trim()`: the empty string and control characters up to the space are blank, while a no-break space or a printable character is not |
| `Requests.Utf16Length` | src/main/java/se/kry/springboot/demo/handson/domain/EventCreationRequest.java:11 | the length `@Size` checks: between the character count and twice it, and equal to the character count exactly when every character is in the Basic Multilingual Plane |
| `Requests.AstralCharactersCountTwice` | src/main/java/se/kry/springboot/demo/handson/domain/PersonCreationRequest.java:6 | a character outside the Basic Multilingual Plane counts twice, so 200 of them exceed the 256 bound and the person creation, person update and event update requests refuse them |
| `Requests.NewEventCreationRequest` | src/main/java/se/kry/springboot/demo/handson/domain/EventCreationRequest.java:10-19 | accepted exactly when title, start and end are present, the title is non-blank and at most 256 UTF-16 units long, and start is not after end, so every accepted request is ordered; a missing time is a null-pointer failure; a start after the end is reported as such; with both times present and ordered, every other refusal is a constraint violation on the title; an accepted request stores its fields unchanged |
| `Requests.CreationRequestCases` | src/test/java/se/kry/springboot/demo/handson/web/EventsControllerTest.java:71-142 | a blank title, a 300-character title, a missing start, a missing end and a start after the end are all refused; equal times are accepted |
| `Requests.NewEventUpdateRequest` | src/main/java/se/kry/springboot/demo/handson/domain/EventUpdateRequest.java:7-18 | accepted exactly when a present title has at most 256 UTF-16 units and two present times are ordered; the ordering failure, carrying the start and the end, occurs exactly when both times are present and start is after end; every refusal other than the ordering failure is a constraint violation on the title |
| `Requests.UpdateRequestCases` | src/test/java/se/kry/springboot/demo/handson/web/EventsControllerTest.java:276-301 | the all-absent request is valid; a 300-character title and a start after the end are refused; equal times and a single time are accepted |
| `Requests.NewPersonCreationRequest` | src/main/java/se/kry/springboot/demo/handson/domain/PersonCreationRequest.java:6 | accepted exactly when the name is present, non-blank and at most 256 UTF-16 units long, and then stores it unchanged; every refusal is a constraint violation on the name |
| `Requests.NewPersonUpdateRequest` | src/main/java/se/kry/springboot/demo/handson/domain/PersonUpdateRequest.java:6 | accepted exactly when the name is absent or at most 256 UTF-16 units long, and then stores it unchanged; every refusal is a constraint violation on the name |
| `EventFunctions.NewEventFromCreationRequest` | src/main/java/se/kry/springboot/demo/handson/services/EventFunctions.java:13-18 | the built event is new, has no participants, carries the drawn id, and has the request's title, start and end |
| `EventFunctions.UpdateEventFromUpdateRequest` | src/main/java/se/kry/springboot/demo/handson/services/EventFunctions.java:20-26 | each of title, start and end becomes the request's value when present and the event's otherwise; the id, participants and audit fields are kept |
| `EventFunctions.UpdateEventParticipantsFromUpdateRequest` | src/main/java/se/kry/springboot/demo/handson/services/EventFunctions.java:28-31 | the participant ids become exactly the requested list, and nothing else changes |
| `EventFunctions.ParticipantsUpdateIsInvisibleToResponse` | src/main/java/se/kry/springboot/demo/handson/services/EventFunctions.java:28-35 | replacing the participant list leaves the response unchanged, and replacing it with the list already held leaves the event unchanged |
| `EventFunctions.ResponseFromEvent` | src/main/java/se/kry/springboot/demo/handson/services/EventFunctions.java:33-35 | the response carries the event's id, title, start and end |
| `EventFunctions.EmptyUpdateIsIdentity` | src/main/java/se/kry/springboot/demo/handson/services/EventFunctions.java:20-26 | an all-absent update request leaves the event unchanged |
| `EventFunctions.FullUpdateOverwrites` | src/test/java/se/kry/springboot/demo/handson/services/EventServiceTest.java:198-223 | a fully populated update answers with the original id and exactly the request's title and times |
| `EventFunctions.UpdateIsIdempotent` | src/main/java/se/kry/springboot/demo/handson/services/EventFunctions.java:20-26 | applying the same update twice equals applying it once |
| `EventFunctions.ResponseIdentifiesBusinessFields` | src/main/java/se/kry/springboot/demo/handson/services/EventFunctions.java:33-35 | two responses are equal exactly when the events agree on id, title and times: the projection drops the audit fields and participants and nothing else |
| `EventFunctions.CreationRoundTrip` | src/main/java/se/kry/springboot/demo/handson/services/EventService.java:59-64 | the response to a freshly built event repeats the creation request on the drawn id |
| `EventFunctions.UpdateKeepsOrderingWhenBothOrNeither` | src/main/java/se/kry/springboot/demo/handson/services/EventService.java:66-72 | an ordered event stays ordered under a valid update that brings both times or neither |
| `EventFunctions.UpdateMayInvertInterval` | src/main/java/se/kry/springboot/demo/handson/services/EventService.java:66-72 | a valid update that brings only a start after the stored end yields an event whose start is after its end: the merge does not re-check ordering |
| `PersonFunctions.NewPersonFromCreationRequest` | src/main/java/se/kry/springboot/demo/handson/services/PersonFunctions.java:12-14 | the built person is new, carries the drawn id, and has the requested name |
| `PersonFunctions.ResponseFromPerson` | src/main/java/se/kry/springboot/demo/handson/services/PersonFunctions.java:16-18 | the response carries the person's id and name |
| `PersonFunctions.UpdatePersonFromUpdateRequest` | src/main/java/se/kry/springboot/demo/handson/services/PersonFunctions.java:20-24 | the name becomes the request's name when present and the person's otherwise; the id and audit fields are kept |
| `PersonFunctions.EmptyUpdateIsIdentity` | src/main/java/se/kry/springboot/demo/handson/services/PersonFunctions.java:20-24 | an update without a name leaves the person unchanged |
| `PersonFunctions.NamedUpdateOverwrites` | src/test/java/se/kry/springboot/demo/handson/services/PersonServiceTest.java:48-66 | an update with a new name answers with the same id and that name |
| `PersonFunctions.UpdateIsIdempotent` | src/main/java/se/kry/springboot/demo/handson/services/PersonFunctions.java:20-24 | applying the same update twice equals applying it once |
| `PersonFunctions.ResponseIdentifiesBusinessFields` | src/main/java/se/kry/springboot/demo/handson/services/PersonFunctions.java:16-18 | two responses are equal exactly when the persons agree on id and name |
| `Repository.Count` | src/main/java/se/kry/springboot/demo/handson/services/PersonService.java:39 | the count of stored records equals the length of the storage order, since that order lists every id exactly once |
| `Repository.Save` | src/main/java/se/kry/springboot/demo/handson/services/PersonService.java:32 | save is an upsert: the record is stored under its id; a new id is appended to the order and the count grows by one; a known id keeps its place |
| `Repository.FindById` | src/main/java/se/kry/springboot/demo/handson/services/PersonService.java:46 | finds a record exactly when the id is stored, and then it is the stored record |
| `Repository.DeleteById` | src/main/java/se/kry/springboot/demo/handson/services/PersonService.java:59 | removes the id from the records and from the order; a stored id shortens the order by exactly one; an unknown id leaves the store unchanged |
| `Repository.FindBy` | src/main/java/se/kry/springboot/demo/handson/services/PersonService.java:40 | the page holds the records at positions offset, offset+1, ... of the storage order, as many as the page size allows and the store holds |
| `Repository.EveryRecordOnItsPage` | src/main/java/se/kry/springboot/demo/handson/services/EventService.java:34-39 | paging covers the store: the record at storage position k is on page k / size at position k % size, and that page is below the page count the total gives |
| `Repository.SaveThenDeleteRestores` | src/main/java/se/kry/springboot/demo/handson/services/EventService.java:28-32 | deleting a record just saved under a new id gives back the store as it was, order included |
| `Repository.DeleteIsIdempotent` | src/main/java/se/kry/springboot/demo/handson/services/EventService.java:54-57 | deleting twice leaves the same store as deleting once |
| `Repository.SaveThenFind` | src/main/java/se/kry/springboot/demo/handson/services/EventService.java:46-52 | a saved record is found under its id, and every other id finds what it found before |
| `Repository.DeleteThenFind` | src/main/java/se/kry/springboot/demo/handson/services/EventService.java:54-57 | a deleted id is not found, and every other id finds what it found before |
| `Paging.NewPage` | src/main/java/se/kry/springboot/demo/handson/services/EventService.java:38 | the page keeps the content and request; when the content is not empty and the page reaches past the given total, the total becomes the offset plus the content size, and otherwise the given total is kept; the result is one the constructor would keep |
| `Paging.MapPage` | src/main/java/se/kry/springboot/demo/handson/services/PersonService.java:41 | mapping a page maps each content item in order and keeps the request and total |
| `Paging.ConsistentSliceKeepsTotal` | src/main/java/se/kry/springboot/demo/handson/services/EventService.java:34-39 | when the content is the slice the store yields for the request, the page total is the store count |
| `Paging.TotalPagesIsCeiling` | src/test/java/se/kry/springboot/demo/handson/services/EventServiceTest.java:146 | the total page count is the ceiling of total / size: enough pages for every element and no page more |
| `EventService.CreateEvent` | src/main/java/se/kry/springboot/demo/handson/services/EventService.java:28-32 | the store gains exactly the event built from the request under the drawn id, appended to the storage order, with every stored event unchanged; the new event is new and ordered, the count rises by one, and the answer is the request's fields on the drawn id |
| `EventService.GetEvents` | src/main/java/se/kry/springboot/demo/handson/services/EventService.java:34-39 | emits one page whose total is the store count, whose request is the one given, and whose content is the projection of the requested slice in storage order |
| `EventService.GetEvent` | src/main/java/se/kry/springboot/demo/handson/services/EventService.java:41-44 | never fails; completes empty exactly when the id is unknown, and otherwise emits the projection of the stored event |
| `EventService.UpdateEvent` | src/main/java/se/kry/springboot/demo/handson/services/EventService.java:46-52 | an unknown id completes empty with no write; a known id stores the merged event and answers with its projection; every other entry and the order are unchanged |
| `EventService.DeleteEvent` | src/main/java/se/kry/springboot/demo/handson/services/EventService.java:54-57 | completes with no item and removes the id from the records and the storage order, the other ids keeping their relative order, whether or not it was stored; a stored id lowers the count by one |
| `EventService.CreateThenGet` | src/main/java/se/kry/springboot/demo/handson/services/EventService.java:28-44 | reading back a created event answers what the creation answered |
| `EventService.UpdateThenGet` | src/main/java/se/kry/springboot/demo/handson/services/EventService.java:41-52 | reading back after an update answers what the update answered, whether the id was found or not |
| `EventService.DeleteThenGet` | src/main/java/se/kry/springboot/demo/handson/services/EventService.java:41-57 | a deleted event reads back as not found, and other events read back as before |
| `EventService.EveryEventIsListed` | src/main/java/se/kry/springboot/demo/handson/services/EventService.java:34-39 | listing page by page reaches every stored event: position k is answered on page k / size at position k % size, and that page number is below the reported page count |
| `EventService.CreateThenDeleteRestores` | src/main/java/se/kry/springboot/demo/handson/services/EventService.java:28-57 | deleting an event right after creating it leaves the store as it was |
| `EventService.DeleteEventIsIdempotent` | src/test/java/se/kry/springboot/demo/handson/services/EventServiceTest.java:264-271 | deleting twice gives the same store and the same completion as deleting once |
| `EventService.NinetyNineEventsInPagesOfFive` | src/test/java/se/kry/springboot/demo/handson/services/EventServiceTest.java:130-163 | with 99 stored events and page size 5: total 99, 20 pages, page number 0, 5 items |
| `PersonService.CreatePerson` | src/main/java/se/kry/springboot/demo/handson/services/PersonService.java:29-34 | a null request fails with the store untouched; otherwise the store gains exactly the person built from the request under the drawn id, appended to the storage order, with every stored person unchanged, and the answer is its projection |
| `PersonService.GetPeople` | src/main/java/se/kry/springboot/demo/handson/services/PersonService.java:36-42 | a null pageable fails; otherwise one page whose total is the store count and whose content is the projection of the requested slice |
| `PersonService.GetPerson` | src/main/java/se/kry/springboot/demo/handson/services/PersonService.java:44-48 | fails exactly for a null id; an unknown id completes empty; a known id emits the projection of the stored person |
| `PersonService.UpdatePerson` | src/main/java/se/kry/springboot/demo/handson/services/PersonService.java:50-56 | a null id or request fails with the store untouched; an unknown id completes empty with no write; a known id stores the merged person and answers with its projection; every other entry is unchanged |
| `PersonService.DeletePerson` | src/main/java/se/kry/springboot/demo/handson/services/PersonService.java:58-60 | a null id fails with the store untouched; otherwise the id is removed from the records and the storage order, the other ids keeping their relative order, and the call completes, whether or not it was stored; a stored id lowers the count by one |
| `PersonService.EveryPersonIsListed` | src/main/java/se/kry/springboot/demo/handson/services/PersonService.java:36-42 | listing page by page reaches every stored person: position k is answered on page k / size at position k % size, and that page number is below the reported page count |
| `PersonService.DeletePersonIsIdempotent` | src/test/java/se/kry/springboot/demo/handson/services/PersonServiceTest.java:75-82 | deleting twice gives the same store and the same reply as deleting once |
| `PersonService.RenameThenGet` | src/test/java/se/kry/springboot/demo/handson/services/PersonServiceTest.java:48-66 | renaming a stored person answers (same id, new name), and reading it back answers the same |
| `PersonService.CreateThenGet` | src/main/java/se/kry/springboot/demo/handson/services/PersonService.java:29-48 | reading back a created person answers what the creation answered |

## Left out

- HTTP controllers, routing, status codes and the `Location` header are framework glue.
- The Spring Data repository proxies and their queries are left out. The store model replaces
  them.
- The participant join query and `deleteAllByEventId` are not modelled.
- Participant reconciliation (`getEventParticipants` / `updateEventParticipants`) is not
  modelled. The shown `EventService` has no such operations. The shown code only replaces the
  participant list wholesale (`EventFunctions.UpdateEventParticipantsFromUpdateRequest`).
- `Repository.Save`: the source's `save` decides between insert and update by
  `isNew()`, that is by whether the creation date is still absent, not by whether the id is
  stored. The model's upsert agrees with it on the two ways the services call `save`: a new
  record under a freshly drawn id, and an update of a record just loaded from the store.
- Audit timestamps are left out. The persistence layer fills in `createdDate` and
  `lastModifiedDate` on save; this model's `Save` stores the record as given, so a saved
  record stays "new".
- Randomness is left out. `UUID.randomUUID()` is a parameter, and creation assumes the drawn
  id is not stored yet. A colliding id (a storage error in the source) is not modelled.
- Null arguments to `EventService` are not modelled. The shown `EventService` does not check
  for null, so what a null does depends on the operation. For example, `updateEvent` with a
  null request and an unknown id completes empty, since the merge runs only on a found event.
- Reactive scheduling is not modelled: concurrency of `zip`, backpressure and
  `@Transactional`.
- A storage failure that propagates through a service is not modelled.
- `LocalDateTime` and `Instant` are abstracted to integers. No calendar arithmetic is needed.
- `Repository.FindBy`: the sort a `Pageable` carries (filled from the request's `sort`
  parameter and applied by the derived `findBy(Pageable)` query) is not modelled; every
  request is treated as unsorted. The order of a paged query is assumed to be first-saved
  order and the same on every read, while an unsorted query may return any order. `Repository.EveryRecordOnItsPage`, `EventService.EveryEventIsListed`,
  `PersonService.EveryPersonIsListed` and the per-position content of `GetEvents` and
  `GetPeople` hold only under this assumption.
- `Reactive.Zip2`: a source that completes empty before a later source fails is read as an
  error of the whole, while Reactor completes the zip empty. Every zip in the core combines
  sources that each emit one item or fail, where the two readings agree.
- `Reactive.Zip3`: the same difference from Reactor as `Reactive.Zip2`, for any of its three
  sources. It too is used only on sources that each emit one item or fail.
- A `null` `Optional` field in an update request is not modelled; the JSON decoder supplies
  `Optional.empty()` for an omitted field. Jackson (de)serialisation itself is out of scope.
- `Paging.TotalPagesIsCeiling` states the exact integer ceiling. The source computes it
  through `double` division and an `int` cast, which agree for any realistic count.
- `Pageable.unpaged()` is not modelled. Only paged requests with a size of at least one are.
- The message of `StartIsAfterEndException` is not modelled.
- The database's column-length error is not modelled.
- The integration scenario and the infrastructure configuration classes are out of scope.
