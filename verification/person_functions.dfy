/** The pure helpers of services/PersonFunctions.java: building a person from a creation
    request, projecting it to a response, and merging an update request into it. */
module PersonFunctions {
  import opened Common
  import opened PersonEntity
  import opened Requests

  /** A fresh, unsaved person with the requested name; `freshId` stands for the random id
      the one-argument `Person.from` draws. */
  function NewPersonFromCreationRequest(request: PersonCreationRequest, freshId: Uuid): (p: Person)
    ensures p.IsNew() && p.lastModifiedDate.None?
    ensures p.id == freshId && p.name == request.name
  {
    From(freshId, request.name)
  }

  /** The response exposes the id and the name and drops the audit fields. */
  function ResponseFromPerson(person: Person): (r: PersonResponse)
    ensures r.id == person.id && r.name == person.name
  {
    PersonResponse(person.id, person.name)
  }

  /** The partial-update merge: the name becomes the request's name when present; the id and
      the audit fields are kept. */
  function UpdatePersonFromUpdateRequest(person: Person, request: PersonUpdateRequest): (p: Person)
    ensures p.name == request.name.OrElse(person.name)
    ensures p.id == person.id
    ensures p.createdDate == person.createdDate && p.lastModifiedDate == person.lastModifiedDate
  {
    person.Copy(name => request.name.OrElse(name))
  }

  /** An update request without a name leaves the person unchanged. */
  lemma EmptyUpdateIsIdentity(person: Person)
    ensures UpdatePersonFromUpdateRequest(person, PersonUpdateRequest(None)) == person
  {
  }

  /** An update bringing a new name answers with the same id and that name. */
  lemma NamedUpdateOverwrites(person: Person, newName: string)
    ensures ResponseFromPerson(UpdatePersonFromUpdateRequest(person, PersonUpdateRequest(Some(newName))))
            == PersonResponse(person.id, newName)
  {
  }

  /** Applying the same update twice is applying it once. */
  lemma UpdateIsIdempotent(person: Person, request: PersonUpdateRequest)
    ensures UpdatePersonFromUpdateRequest(UpdatePersonFromUpdateRequest(person, request), request)
            == UpdatePersonFromUpdateRequest(person, request)
  {
  }

  /** Two responses agree exactly when the persons agree on id and name. */
  lemma ResponseIdentifiesBusinessFields(p1: Person, p2: Person)
    ensures ResponseFromPerson(p1) == ResponseFromPerson(p2)
            <==> p1.(createdDate := p2.createdDate, lastModifiedDate := p2.lastModifiedDate) == p2
  {
  }
}
