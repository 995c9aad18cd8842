/** The pure helpers of services/EventFunctions.java (EventService.java keeps private copies of
    `newEventFromCreationRequest`, `updateEventFromUpdateRequest` and `responseFromEvent`
    with the same behaviour): building an event from a creation request,
    merging an update request into an event, replacing its participant list, and projecting
    it to a response. */
module EventFunctions {
  import opened Common
  import opened EventEntity
  import opened Requests

  /** A fresh, unsaved event carrying the request's title and times; `freshId` stands for the
      random id `Event.from` draws. */
  function NewEventFromCreationRequest(request: EventCreationRequest, freshId: Uuid): (e: Event)
    ensures e.IsNew() && e.lastModifiedDate.None?
    ensures e.participantIds == []
    ensures e.id == freshId
    ensures e.title == request.title && e.start == request.start && e.end == request.end
  {
    From(freshId, request.title, request.start, request.end)
  }

  /** The partial-update merge: each updatable field becomes the request's value when present
      and keeps the event's value otherwise; the id, participants and audit fields are kept. */
  function UpdateEventFromUpdateRequest(event: Event, request: EventUpdateRequest): (e: Event)
    ensures e.title == request.title.OrElse(event.title)
    ensures e.start == request.start.OrElse(event.start)
    ensures e.end == request.end.OrElse(event.end)
    ensures e.id == event.id && e.participantIds == event.participantIds
    ensures e.createdDate == event.createdDate && e.lastModifiedDate == event.lastModifiedDate
  {
    event.Copy(
      title => request.title.OrElse(title),
      start => request.start.OrElse(start),
      end => request.end.OrElse(end))
  }

  /** Replacing the participant list wholesale with the requested ids. */
  function UpdateEventParticipantsFromUpdateRequest(event: Event, request: EventParticipantsUpdateRequest): (e: Event)
    ensures e.participantIds == request.personIds
    ensures e.(participantIds := event.participantIds) == event
  {
    event.CopyParticipants(participantIds => request.personIds)
  }

  /** The response exposes the id and the business fields, under the names `startTime` and
      `endTime`, and drops the audit fields and the participants. */
  function ResponseFromEvent(event: Event): (r: EventResponse)
    ensures r.id == event.id && r.title == event.title
    ensures r.startTime == event.start && r.endTime == event.end
  {
    EventResponse(event.id, event.title, event.start, event.end)
  }

  /** Replacing the participant list changes nothing the response shows, and replacing it
      with the list it already holds changes nothing at all. */
  lemma ParticipantsUpdateIsInvisibleToResponse(event: Event, request: EventParticipantsUpdateRequest)
    ensures ResponseFromEvent(UpdateEventParticipantsFromUpdateRequest(event, request)) == ResponseFromEvent(event)
    ensures request.personIds == event.participantIds ==> UpdateEventParticipantsFromUpdateRequest(event, request) == event
  {
  }

  /** An update request with every field absent leaves the event unchanged. */
  lemma EmptyUpdateIsIdentity(event: Event)
    ensures UpdateEventFromUpdateRequest(event, EventUpdateRequest(None, None, None)) == event
  {
  }

  /** A fully populated update request yields exactly its title and times on the same id. */
  lemma FullUpdateOverwrites(event: Event, title: string, start: Time, end: Time)
    ensures ResponseFromEvent(UpdateEventFromUpdateRequest(event, EventUpdateRequest(Some(title), Some(start), Some(end))))
            == EventResponse(event.id, title, start, end)
  {
  }

  /** Applying the same update twice is applying it once. */
  lemma UpdateIsIdempotent(event: Event, request: EventUpdateRequest)
    ensures UpdateEventFromUpdateRequest(UpdateEventFromUpdateRequest(event, request), request)
            == UpdateEventFromUpdateRequest(event, request)
  {
  }

  /** Two responses agree exactly when the events agree on id, title and times: the
      projection loses the audit fields and participants and nothing else. */
  lemma ResponseIdentifiesBusinessFields(e1: Event, e2: Event)
    ensures ResponseFromEvent(e1) == ResponseFromEvent(e2)
            <==> e1.(participantIds := e2.participantIds, createdDate := e2.createdDate,
                     lastModifiedDate := e2.lastModifiedDate) == e2
  {
  }

  /** The response to a freshly built event repeats the creation request on the drawn id. */
  lemma CreationRoundTrip(request: EventCreationRequest, freshId: Uuid)
    ensures ResponseFromEvent(NewEventFromCreationRequest(request, freshId))
            == EventResponse(freshId, request.title, request.start, request.end)
  {
  }

  /** The merge keeps an event's times ordered when the request brings both times or
      neither, since a valid request orders the times it brings. */
  lemma UpdateKeepsOrderingWhenBothOrNeither(event: Event, request: EventUpdateRequest)
    requires request.Valid()
    requires event.start <= event.end
    requires request.start.Some? <==> request.end.Some?
    ensures UpdateEventFromUpdateRequest(event, request).start <= UpdateEventFromUpdateRequest(event, request).end
  {
  }

  /** The merge does not re-check a single supplied time against the stored other one: a
      valid request bringing only a start after the stored end yields an event whose start
      is after its end. */
  lemma UpdateMayInvertInterval(event: Event, newStart: Time)
    requires newStart > event.end
    ensures EventUpdateRequest(None, Some(newStart), None).Valid()
    ensures UpdateEventFromUpdateRequest(event, EventUpdateRequest(None, Some(newStart), None)).start
            > UpdateEventFromUpdateRequest(event, EventUpdateRequest(None, Some(newStart), None)).end
  {
  }
}
