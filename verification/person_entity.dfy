/** The persisted person record (data/Person.java). */
module PersonEntity {
  import opened Common

  datatype Person = Person(
    id: Uuid,
    name: string,
    createdDate: Option<Instant>,
    lastModifiedDate: Option<Instant>)
  {
    /** `Persistable.isNew`: the persistence layer has not stored this person yet. */
    predicate IsNew() {
      createdDate.None?
    }

    /** `copy`: rewrites the name and carries the id and the audit fields over unchanged. */
    function Copy(nameFunction: string -> string): (p: Person)
      ensures p.name == nameFunction(name)
      ensures p.(name := name) == this
    {
      this.(name := nameFunction(name))
    }
  }

  /** `Person.from(id, name)`: a transient person. The one-argument overload `from(name)` is
      this function applied to the `UUID.randomUUID()` it draws, passed in as `id`. */
  function From(id: Uuid, name: string): (p: Person)
    ensures p.id == id && p.name == name
    ensures p.createdDate.None? && p.lastModifiedDate.None?
    ensures p.IsNew()
  {
    Person(id, name, None, None)
  }

  /** Copying with the identity function gives back an equal person. */
  lemma CopyIdentity(p: Person)
    ensures p.Copy(n => n) == p
  {
  }

  /** Copying never changes the id or whether the person is new. */
  lemma CopyKeepsIdentityAndIsNew(p: Person, f: string -> string)
    ensures p.Copy(f).id == p.id
    ensures p.Copy(f).IsNew() <==> p.IsNew()
  {
  }

  /** Copying a person built by `From` is building one with the rewritten name under the same
      id. */
  lemma CopyOfFrom(id: Uuid, name: string, f: string -> string)
    ensures From(id, name).Copy(f) == From(id, f(name))
  {
  }
}
