/** A contact record as the store persists it: a plain JavaScript object,
    modelled as a finite map from property name to value. Only `id` and
    `createdAt` are written by the store itself; every other property comes
    from a caller's update and is stored as-is. */
module Contact {

  /** The property values a contact can hold: form text, the creation
      timestamp, and the `favorite` flag. */
  datatype Value = Str(str: string) | Num(num: int) | Bool(flag: bool)

  type Contact = map<string, Value>

  /** `contact.id === id` for a string argument `id`: strict equality holds
      only when the property is present and is that very string. */
  predicate HasId(c: Contact, id: string) {
    "id" in c && c["id"] == Str(id)
  }

  /** The record `createContact` builds: `{ id, createdAt: Date.now() }`. */
  function NewContact(id: string, now: int): (c: Contact)
    ensures c.Keys == {"id", "createdAt"}
    ensures HasId(c, id)
    ensures c["createdAt"] == Num(now)
  {
    map["id" := Str(id), "createdAt" := Num(now)]
  }

  /** `Object.assign(target, updates)`: a shallow merge in which every
      property of `updates` overwrites the target's, `id` included, and every
      other property of the target is kept. */
  function Assign(target: Contact, updates: Contact): (r: Contact)
    ensures r.Keys == target.Keys + updates.Keys
    ensures forall k :: k in updates ==> r[k] == updates[k]
    ensures forall k :: k in target && k !in updates ==> r[k] == target[k]
  {
    target + updates
  }

  /** Merging the same updates twice gives what merging them once gives. */
  lemma AssignIdempotent(target: Contact, updates: Contact)
    ensures Assign(Assign(target, updates), updates) == Assign(target, updates)
  {
  }

  /** A merge that does not mention `id` leaves the record's identity alone;
      one that does mention it moves the record to the new id. */
  lemma AssignId(target: Contact, updates: Contact, id: string)
    ensures "id" !in updates ==> (HasId(Assign(target, updates), id) <==> HasId(target, id))
    ensures "id" in updates ==> (HasId(Assign(target, updates), id) <==> updates["id"] == Str(id))
  {
  }
}
