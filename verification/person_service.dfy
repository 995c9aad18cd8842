/** services/PersonService.java: person CRUD over the store. Every operation first runs its
    arguments through `requireNonNull` and touches the store only when none is null. The
    random id of a new person is a parameter. */
module PersonService {
  import opened Common
  import opened Reactive
  import opened Paging
  import opened Repository
  import opened PersonEntity
  import opened Requests
  import opened PersonFunctions
  import opened Preconditions

  /** The person store: every person is kept under its own id. */
  type People = s: ValidStore<Person> | KeyedById(s, (p: Person) => p.id) witness Store(map[], [])

  /** `createPerson`: stores one new person with the requested name and answers with its
      projection. A random UUID is assumed not to collide with a stored one. */
  function CreatePerson(store: People, request: Nullable<PersonCreationRequest>, freshId: Uuid): (r: Step<People, PersonResponse>)
    requires freshId !in store.rows
    ensures request.Null? ==> r == Step(store, Error(NullPointer))
    ensures request.Ref? ==>
              && r.store.rows == store.rows[freshId := NewPersonFromCreationRequest(request.value, freshId)]
              && r.store.order == store.order + [freshId]
              && r.store.rows[freshId].IsNew()
              && r.reply == Just(PersonResponse(freshId, request.value.name))
  {
    match RequireNonNull(request)
    case Error(e) => Step(store, Error(e))
    case Complete(_) =>
      var person := NewPersonFromCreationRequest(request.value, freshId);
      var saved: People := Save(store, freshId, person);
      Step(saved, Just(ResponseFromPerson(person)))
  }

  /** `getPeople`: the count and the requested slice combined into one page of projections. */
  function GetPeople(store: People, pageable: Nullable<Pageable>): (r: Signal<Page<PersonResponse>>)
    ensures pageable.Null? ==> r == Error(NullPointer)
    ensures pageable.Ref? ==>
              && r.Complete? && |r.items| == 1
              && r.items[0].total == Count(store)
              && r.items[0].pageable == pageable.value
              && |r.items[0].content| == SliceLength(Count(store), pageable.value.Offset(), pageable.value.pageSize)
              && forall i :: 0 <= i < |r.items[0].content| ==>
                   r.items[0].content[i] == ResponseFromPerson(store.rows[store.order[pageable.value.Offset() + i]])
  {
    match RequireNonNull(pageable)
    case Error(e) => Error(e)
    case Complete(_) =>
      var count := Count(store);
      var list := FindBy(store, pageable.value);
      ConsistentSliceKeepsTotal(list, pageable.value, count);
      Map(Zip2(Just(count), Just(list)),
          (pair: (nat, seq<Person>)) => MapPage(NewPage(pair.1, pageable.value, pair.0), ResponseFromPerson))
  }

  /** `getPerson`: the projection of the stored person, or an empty completion when the id is
      unknown; an error only for a null id. */
  function GetPerson(store: People, id: Nullable<Uuid>): (r: Signal<PersonResponse>)
    ensures AtMostOne(r)
    ensures r.Error? <==> id.Null?
    ensures r.Error? ==> r.failure == NullPointer
    ensures id.Ref? && id.value !in store.rows ==> r == Empty()
    ensures id.Ref? && id.value in store.rows ==> r == Just(ResponseFromPerson(store.rows[id.value]))
  {
    match RequireNonNull(id)
    case Error(e) => Error(e)
    case Complete(_) =>
      Map(match FindById(store, id.value) case None => Empty() case Some(p) => Just(p), ResponseFromPerson)
  }

  /** `updatePerson`: merges the request into the stored person and saves it. A null id or
      request fails without touching the store; an unknown id answers with an empty
      completion and writes nothing. */
  function UpdatePerson(store: People, id: Nullable<Uuid>, request: Nullable<PersonUpdateRequest>): (r: Step<People, PersonResponse>)
    ensures id.Null? || request.Null? ==> r == Step(store, Error(NullPointer))
    ensures id.Ref? && request.Ref? && id.value !in store.rows ==> r == Step(store, Empty())
    ensures r.store.rows.Keys == store.rows.Keys && r.store.order == store.order
    ensures forall k :: k in store.rows && (id.Null? || k != id.value) ==> r.store.rows[k] == store.rows[k]
    ensures id.Ref? && request.Ref? && id.value in store.rows ==>
              && r.store.rows[id.value] == UpdatePersonFromUpdateRequest(store.rows[id.value], request.value)
              && r.reply == Just(ResponseFromPerson(r.store.rows[id.value]))
  {
    match RequireNonNull2(id, request)
    case Error(e) => Step(store, Error(e))
    case Complete(_) =>
      match FindById(store, id.value)
      case None => Step(store, Empty())
      case Some(person) =>
        var updated := UpdatePersonFromUpdateRequest(person, request.value);
        var saved: People := Save(store, id.value, updated);
        Step(saved, Just(ResponseFromPerson(updated)))
  }

  /** `deletePerson`: removes the id and completes whether or not it was stored; a null id
      fails without touching the store. */
  function DeletePerson(store: People, id: Nullable<Uuid>): (r: Step<People, ()>)
    ensures id.Null? ==> r == Step(store, Error(NullPointer))
    ensures id.Ref? ==> r.reply == Empty() && r.store.rows == store.rows - {id.value}
    ensures id.Ref? ==> r.store.order == Without(store.order, id.value)
    ensures id.Ref? && id.value !in store.rows ==> r.store == store
    ensures id.Ref? && id.value in store.rows ==> Count(r.store) == Count(store) - 1
  {
    match RequireNonNull(id)
    case Error(e) => Step(store, Error(e))
    case Complete(_) =>
      var remaining: People := DeleteById(store, id.value);
      Step(remaining, Empty())
  }

  /** Listing page by page reaches every stored person: the one at storage position `k` is
      answered on page `k / size` at position `k % size`, and that page is one of the pages
      the answer reports. */
  lemma EveryPersonIsListed(store: People, size: PageSize, k: nat)
    requires k < Count(store)
    ensures var reply := GetPeople(store, Ref(Pageable(k / size, size)));
            && reply.Complete? && |reply.items| == 1
            && k % size < |reply.items[0].content|
            && reply.items[0].content[k % size] == ResponseFromPerson(store.rows[store.order[k]])
            && reply.items[0].Number() < reply.items[0].TotalPages()
  {
    EveryRecordOnItsPage(store, size, k);
  }

  /** Deleting twice leaves the store and the answer of deleting once. */
  lemma DeletePersonIsIdempotent(store: People, id: Nullable<Uuid>)
    ensures DeletePerson(DeletePerson(store, id).store, id) == DeletePerson(store, id)
  {
    if id.Ref? {
      DeleteIsIdempotent(store, id.value);
    }
  }

  /** The update example of the service tests: a new name answers with the same id and that
      name, and reading the person back answers the same. */
  lemma RenameThenGet(store: People, id: Uuid, newName: string)
    requires id in store.rows
    ensures UpdatePerson(store, Ref(id), Ref(PersonUpdateRequest(Some(newName)))).reply == Just(PersonResponse(id, newName))
    ensures GetPerson(UpdatePerson(store, Ref(id), Ref(PersonUpdateRequest(Some(newName)))).store, Ref(id))
            == Just(PersonResponse(id, newName))
  {
    NamedUpdateOverwrites(store.rows[id], newName);
  }

  /** Reading back a created person answers what the creation answered. */
  lemma CreateThenGet(store: People, request: PersonCreationRequest, freshId: Uuid)
    requires freshId !in store.rows
    ensures GetPerson(CreatePerson(store, Ref(request), freshId).store, Ref(freshId))
            == CreatePerson(store, Ref(request), freshId).reply
  {
  }
}
