/** The join record of the relational variant (data/Participant.java): one person taking part
    in one event. */
module ParticipantEntity {
  import opened Common

  datatype Participant = Participant(
    id: Uuid,
    eventId: Uuid,
    personId: Uuid,
    createdDate: Option<Instant>)
  {
    /** `Persistable.isNew`: the persistence layer has not stored this record yet. */
    predicate IsNew() {
      createdDate.None?
    }
  }

  /** `Participant.from(eventId, personId)`; `id` stands for the `UUID.randomUUID()` drawn. */
  function From(id: Uuid, eventId: Uuid, personId: Uuid): (p: Participant)
    ensures p.id == id
    ensures p.eventId == eventId && p.personId == personId
    ensures p.IsNew()
  {
    Participant(id, eventId, personId, None)
  }

  /** `isNew` decides whether a save inserts or updates. A record built by `From` is new, so
      its first save inserts it; once the persistence layer stamps its creation date it is
      no longer new, so a later save updates it, and the stamp keeps the id and the pair. */
  lemma StampingEndsNew(id: Uuid, eventId: Uuid, personId: Uuid, stamp: Instant)
    ensures From(id, eventId, personId).IsNew()
    ensures var stamped := From(id, eventId, personId).(createdDate := Some(stamp));
            && !stamped.IsNew()
            && stamped.id == id && stamped.eventId == eventId && stamped.personId == personId
  {
  }
}
