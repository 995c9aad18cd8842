/** The persisted event record (data/Event.java). The source snapshot mixes storage variants:
    the record names its times `start`/`end` while the service helpers read `startTime`/
    `endTime`, and one variant embeds the list of participant ids. The model has one event
    with `start`, `end` and `participantIds`. */
module EventEntity {
  import opened Common

  datatype Event = Event(
    id: Uuid,
    title: string,
    start: Time,
    end: Time,
    participantIds: seq<Uuid>,
    createdDate: Option<Instant>,
    lastModifiedDate: Option<Instant>)
  {
    /** `Persistable.isNew`: the persistence layer has not stored this event yet. */
    predicate IsNew() {
      createdDate.None?
    }

    /** The three-function `copy`: rewrites the title and the two times and carries every
        other component, the id and the audit fields included, over unchanged. */
    function Copy(titleFunction: string -> string, startFunction: Time -> Time, endFunction: Time -> Time): (e: Event)
      ensures e.title == titleFunction(title)
      ensures e.start == startFunction(start)
      ensures e.end == endFunction(end)
      ensures e.(title := title, start := start, end := end) == this
    {
      this.(title := titleFunction(title), start := startFunction(start), end := endFunction(end))
    }

    /** The participant-list `copy` of the embedded-relation variant: rewrites the participant
        ids and nothing else. */
    function CopyParticipants(participantsFunction: seq<Uuid> -> seq<Uuid>): (e: Event)
      ensures e.participantIds == participantsFunction(participantIds)
      ensures e.(participantIds := participantIds) == this
    {
      this.(participantIds := participantsFunction(participantIds))
    }
  }

  /** `Event.from`: a transient event with the given title and times; `id` stands for the
      `UUID.randomUUID()` the source draws. It has no participants and no audit fields. */
  function From(id: Uuid, title: string, start: Time, end: Time): (e: Event)
    ensures e.id == id && e.title == title && e.start == start && e.end == end
    ensures e.participantIds == []
    ensures e.createdDate.None? && e.lastModifiedDate.None?
    ensures e.IsNew()
  {
    Event(id, title, start, end, [], None, None)
  }

  /** Copying with three identity functions gives back an equal event. */
  lemma CopyIdentity(e: Event)
    ensures e.Copy(t => t, s => s, x => x) == e
  {
  }

  /** Two copies in a row are one copy with the composed functions. */
  lemma CopyComposes(e: Event, f1: string -> string, g1: Time -> Time, h1: Time -> Time,
                     f2: string -> string, g2: Time -> Time, h2: Time -> Time)
    ensures e.Copy(f1, g1, h1).Copy(f2, g2, h2) == e.Copy(t => f2(f1(t)), s => g2(g1(s)), x => h2(h1(x)))
  {
  }

  /** Neither copy changes whether the event is new, and neither touches its id. */
  lemma CopyKeepsIdentityAndIsNew(e: Event, f: string -> string, g: Time -> Time, h: Time -> Time,
                                  p: seq<Uuid> -> seq<Uuid>)
    ensures e.Copy(f, g, h).IsNew() <==> e.IsNew()
    ensures e.CopyParticipants(p).IsNew() <==> e.IsNew()
    ensures e.Copy(f, g, h).id == e.id && e.CopyParticipants(p).id == e.id
  {
  }
}
