/** services/EventService.java: event CRUD over the store. The random id of a new event is a
    parameter. The shown service performs no null checks of its own, so its arguments are
    plain values here. */
module EventService {
  import opened Common
  import opened Reactive
  import opened Paging
  import opened Repository
  import opened EventEntity
  import opened Requests
  import opened EventFunctions

  /** The event store: every event is kept under its own id. */
  type Events = s: ValidStore<Event> | KeyedById(s, (e: Event) => e.id) witness Store(map[], [])

  /** `createEvent`: stores one new event built from the request and answers with its
      projection. A random UUID is assumed not to collide with a stored one. */
  function CreateEvent(store: Events, request: OrderedEventCreationRequest, freshId: Uuid): (r: Step<Events, EventResponse>)
    requires freshId !in store.rows
    ensures r.store.rows == store.rows[freshId := NewEventFromCreationRequest(request, freshId)]
    ensures r.store.order == store.order + [freshId]
    ensures r.store.rows[freshId].IsNew()
    ensures r.store.rows[freshId].start <= r.store.rows[freshId].end
    ensures Count(r.store) == Count(store) + 1
    ensures r.reply == Just(EventResponse(freshId, request.title, request.start, request.end))
  {
    var event := NewEventFromCreationRequest(request, freshId);
    var saved: Events := Save(store, freshId, event);
    Step(saved, Just(ResponseFromEvent(event)))
  }

  /** `getEvents`: the count and the requested slice, read side by side and combined into one
      page of projections. */
  function GetEvents(store: Events, pageable: Pageable): (r: Signal<Page<EventResponse>>)
    ensures r.Complete? && |r.items| == 1
    ensures r.items[0].total == Count(store)
    ensures r.items[0].pageable == pageable
    ensures |r.items[0].content| == SliceLength(Count(store), pageable.Offset(), pageable.pageSize)
    ensures forall i :: 0 <= i < |r.items[0].content| ==>
              r.items[0].content[i] == ResponseFromEvent(store.rows[store.order[pageable.Offset() + i]])
  {
    var count := Count(store);
    var list := FindBy(store, pageable);
    ConsistentSliceKeepsTotal(list, pageable, count);
    Map(Zip2(Just(count), Just(list)),
        (pair: (nat, seq<Event>)) => MapPage(NewPage(pair.1, pageable, pair.0), ResponseFromEvent))
  }

  /** `getEvent`: the projection of the stored event, or an empty completion when the id is
      unknown; never an error. */
  function GetEvent(store: Events, id: Uuid): (r: Signal<EventResponse>)
    ensures r.Complete? && AtMostOne(r)
    ensures r == Empty() <==> id !in store.rows
    ensures id in store.rows ==> r == Just(ResponseFromEvent(store.rows[id]))
  {
    Map(match FindById(store, id) case None => Empty() case Some(e) => Just(e), ResponseFromEvent)
  }

  /** `updateEvent`: merges the request into the stored event and saves it. An unknown id
      answers with an empty completion and writes nothing. */
  function UpdateEvent(store: Events, id: Uuid, request: EventUpdateRequest): (r: Step<Events, EventResponse>)
    ensures id !in store.rows ==> r == Step(store, Empty())
    ensures r.store.rows.Keys == store.rows.Keys && r.store.order == store.order
    ensures forall k :: k in store.rows && k != id ==> r.store.rows[k] == store.rows[k]
    ensures id in store.rows ==>
              && r.store.rows[id] == UpdateEventFromUpdateRequest(store.rows[id], request)
              && r.reply == Just(ResponseFromEvent(r.store.rows[id]))
  {
    match FindById(store, id)
    case None => Step(store, Empty())
    case Some(event) =>
      var updated := UpdateEventFromUpdateRequest(event, request);
      var saved: Events := Save(store, id, updated);
      Step(saved, Just(ResponseFromEvent(updated)))
  }

  /** `deleteEvent`: removes the id and completes, whether or not the id was stored. */
  function DeleteEvent(store: Events, id: Uuid): (r: Step<Events, ()>)
    ensures r.reply == Empty()
    ensures r.store.rows == store.rows - {id}
    ensures r.store.order == Without(store.order, id)
    ensures id !in store.rows ==> r.store == store
    ensures id in store.rows ==> Count(r.store) == Count(store) - 1
  {
    var remaining: Events := DeleteById(store, id);
    Step(remaining, Empty())
  }

  /** Reading back a created event answers what the creation answered. */
  lemma CreateThenGet(store: Events, request: OrderedEventCreationRequest, freshId: Uuid)
    requires freshId !in store.rows
    ensures GetEvent(CreateEvent(store, request, freshId).store, freshId) == CreateEvent(store, request, freshId).reply
  {
  }

  /** Reading back after an update answers what the update answered, found or not. */
  lemma UpdateThenGet(store: Events, id: Uuid, request: EventUpdateRequest)
    ensures GetEvent(UpdateEvent(store, id, request).store, id) == UpdateEvent(store, id, request).reply
  {
  }

  /** A deleted event reads back as not found; other events read back as before. */
  lemma DeleteThenGet(store: Events, id: Uuid, other: Uuid)
    ensures GetEvent(DeleteEvent(store, id).store, id) == Empty()
    ensures other != id ==> GetEvent(DeleteEvent(store, id).store, other) == GetEvent(store, other)
  {
  }

  /** Deleting an event right after creating it leaves the store as it was. */
  lemma CreateThenDeleteRestores(store: Events, request: OrderedEventCreationRequest, freshId: Uuid)
    requires freshId !in store.rows
    ensures DeleteEvent(CreateEvent(store, request, freshId).store, freshId).store == store
  {
    SaveThenDeleteRestores(store, freshId, NewEventFromCreationRequest(request, freshId));
  }

  /** Deleting twice leaves the store and the answer of deleting once. */
  lemma DeleteEventIsIdempotent(store: Events, id: Uuid)
    ensures DeleteEvent(DeleteEvent(store, id).store, id) == DeleteEvent(store, id)
  {
    DeleteIsIdempotent(store, id);
  }

  /** Listing page by page reaches every stored event: the one at storage position `k` is
      answered on page `k / size` at position `k % size`, and that page is one of the pages
      the answer reports. */
  lemma EveryEventIsListed(store: Events, size: PageSize, k: nat)
    requires k < Count(store)
    ensures var page := GetEvents(store, Pageable(k / size, size)).items[0];
            && k % size < |page.content|
            && page.content[k % size] == ResponseFromEvent(store.rows[store.order[k]])
            && page.Number() < page.TotalPages()
  {
    EveryRecordOnItsPage(store, size, k);
  }

  /** The paging example of the service tests: 99 stored events read with page size 5 give
      page 0 of 20 pages, 99 elements in all and 5 on the page. */
  lemma NinetyNineEventsInPagesOfFive(store: Events)
    requires Count(store) == 99
    ensures var page := GetEvents(store, Pageable(0, 5)).items[0];
            page.total == 99 && page.TotalPages() == 20 && page.Number() == 0 && |page.content| == 5
  {
  }
}
