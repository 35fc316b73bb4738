/** The contact store: one persisted key, `"contacts"`, holding either
    nothing or the whole list of contacts, plus the process-wide
    `fakeCache` of the latency gate. Every exported async function becomes a
    pure transition from the state before the call to the state after it
    together with what the call resolves to (or throws). */
module ContactStore {
  import opened Wrappers
  import opened Contact
  import opened SortBy
  import opened FakeNetwork

  /** `localforage`'s `"contacts"` entry and the gate's `fakeCache`. */
  datatype State = State(store: Option<seq<Contact>>, cache: Cache)

  /** What the calls throw: reading `.find`/`.findIndex` of a missing list,
      and updating an id that no record has. */
  datatype Error = NullStore | NotFound(id: string)

  /** The state after a call and what the call produced. */
  datatype Step<T> = Step(state: State, value: T)

  /** `matchSorter(contacts, query, { keys: ["first", "last"] })`, a foreign
      ranking function supplied by the caller. */
  type Search = (seq<Contact>, string) -> seq<Contact>

  /** The list `getContacts` starts from: `null` reads as the empty list. */
  function Stored(st: State): seq<Contact> {
    st.store.GetOr([])
  }

  /** `i` is the position of the first record of `cs` whose id is `id`. */
  ghost predicate FirstMatch(cs: seq<Contact>, id: string, i: int) {
    0 <= i < |cs| && HasId(cs[i], id) && forall j :: 0 <= j < i ==> !HasId(cs[j], id)
  }

  ghost predicate Absent(cs: seq<Contact>, id: string) {
    forall j :: 0 <= j < |cs| ==> !HasId(cs[j], id)
  }

  /** `cs.findIndex(c => c.id === id)`: the first matching position, or -1. */
  function FindIndex(cs: seq<Contact>, id: string): (r: int)
    ensures r == -1 <==> Absent(cs, id)
    ensures r != -1 ==> FirstMatch(cs, id, r)
  {
    if cs == [] then -1
    else if HasId(cs[0], id) then 0
    else
      var k := FindIndex(cs[1..], id);
      if k == -1 then -1 else k + 1
  }

  /** `cs.find(c => c.id === id)`: the first matching record, if any. */
  function Find(cs: seq<Contact>, id: string): (r: Option<Contact>)
    ensures r.None? <==> Absent(cs, id)
    ensures r.Some? ==> exists i :: FirstMatch(cs, id, i) && cs[i] == r.value
  {
    var i := FindIndex(cs, id);
    if i == -1 then None else Some(cs[i])
  }

  /** `set(contacts)`: overwrite the stored list; the cache is untouched. */
  function Set(st: State, cs: seq<Contact>): (r: State)
    ensures r.store.Some? && r.store.value == cs
    ensures r.cache == st.cache
  {
    State(Some(cs), st.cache)
  }

  /** `getContacts(query)`: the stored list (empty when nothing is stored),
      narrowed by `search` when the query is truthy, then stably sorted by
      (`last`, `createdAt`), so records that tie keep the order they had in
      the list that was sorted. Reading never writes the store. */
  function GetContacts(st: State, query: Arg, search: Search): (r: Step<seq<Contact>>)
    ensures r.state.store == st.store
    ensures r.state.cache == Gate(st.cache, Text("getContacts:" + Stringify(query))).0
    ensures Sorted(r.value)
    ensures !Truthy(query) ==> multiset(r.value) == multiset(Stored(st))
    ensures !Truthy(query) ==> forall k :: Peers(r.value, k) == Peers(Stored(st), k)
    ensures Truthy(query) ==> multiset(r.value) == multiset(search(Stored(st), query.text))
    ensures Truthy(query) ==> forall k :: Peers(r.value, k) == Peers(search(Stored(st), query.text), k)
    ensures st.store.None? && !Truthy(query) ==> r.value == []
  {
    var cache := Gate(st.cache, Text("getContacts:" + Stringify(query))).0;
    var contacts := Stored(st);
    var matched := if Truthy(query) then search(contacts, query.text) else contacts;
    SortPermutes(matched);
    SortSorted(matched);
    assert forall k :: Peers(Sort(matched), k) == Peers(matched, k) by {
      forall k {
        SortStable(matched, k);
      }
    }
    Step(State(st.store, cache), Sort(matched))
  }

  /** `createContact()` with the generated id and `Date.now()` as parameters:
      clears the gate, reads the list through `getContacts()` (which sorts it),
      puts the new record `{ id, createdAt }` in front and stores the result. */
  function CreateContact(st: State, id: string, now: int): (r: Step<Contact>)
    ensures r.value.Keys == {"id", "createdAt"}
    ensures HasId(r.value, id) && r.value["createdAt"] == Num(now)
    ensures r.state.store.Some?
    ensures var cs := r.state.store.value;
      && |cs| == |Stored(st)| + 1
      && cs[0] == r.value
      && Sorted(cs[1..])
      && multiset(cs) == multiset(Stored(st)) + multiset{r.value}
    ensures r.state.cache == {"undefined", "getContacts:undefined"}
  {
    var gated := State(st.store, Gate(st.cache, Undefined).0);
    var listed := GetContacts(gated, Undefined, (cs, q) => cs);
    var contact := NewContact(id, now);
    var cs := [contact] + listed.value;
    assert Stored(gated) == Stored(st);
    assert cs[1..] == listed.value;
    assert listed.state.cache == {"undefined", "getContacts:undefined"} by {
      assert gated.cache == {"undefined"};
      assert "getContacts:" + Stringify(Undefined) == "getContacts:undefined";
      assert |"getContacts:undefined"| != |"undefined"|;
    }
    Step(Set(listed.state, cs), contact)
  }

  /** `getContact(id)`: the first record with that id, or `null`; throws when
      nothing is stored. The gate sees `"contact:" + id` either way. */
  function GetContact(st: State, id: string): (r: Step<Result<Option<Contact>, Error>>)
    ensures r.state.store == st.store
    ensures r.state.cache == Gate(st.cache, Text("contact:" + id)).0
    ensures r.value.Failure? <==> st.store.None?
    ensures r.value.Failure? ==> r.value.error == NullStore
    ensures r.value.Success? ==> (r.value.value.None? <==> Absent(st.store.value, id))
    ensures r.value.Success? && r.value.value.Some? ==>
      exists i :: FirstMatch(st.store.value, id, i) && st.store.value[i] == r.value.value.value
  {
    var gated := State(st.store, Gate(st.cache, Text("contact:" + id)).0);
    match st.store
    case None => Step(gated, Failure(NullStore))
    case Some(cs) => Step(gated, Success(Find(cs, id)))
  }

  /** `updateContact(id, updates)`: merges `updates` into the first record
      with that id and stores the list; throws, without writing, when nothing
      is stored or no record has the id. The gate is cleared first. */
  function UpdateContact(st: State, id: string, updates: Contact): (r: Step<Result<Contact, Error>>)
    ensures r.state.cache == {"undefined"}
    ensures st.store.None? ==> r.value == Failure(NullStore) && r.state.store == st.store
    ensures st.store.Some? && Absent(st.store.value, id) ==>
      r.value == Failure(NotFound(id)) && r.state.store == st.store
    ensures r.value.Success? <==> st.store.Some? && !Absent(st.store.value, id)
    ensures r.value.Success? ==> st.store.Some? && exists i :: (
      && FirstMatch(st.store.value, id, i)
      && r.value.value == Assign(st.store.value[i], updates)
      && r.state.store == Some(st.store.value[i := r.value.value]))
  {
    var gated := State(st.store, Gate(st.cache, Undefined).0);
    match st.store
    case None => Step(gated, Failure(NullStore))
    case Some(cs) =>
      var i := FindIndex(cs, id);
      if i == -1 then Step(gated, Failure(NotFound(id)))
      else
        var merged := Assign(cs[i], updates);
        Step(Set(gated, cs[i := merged]), Success(merged))
  }

  /** `deleteContact(id)`: removes the first record with that id and stores
      the list, resolving to whether one was found; throws when nothing is
      stored. It does not pass through the gate. */
  function DeleteContact(st: State, id: string): (r: Step<Result<bool, Error>>)
    ensures r.state.cache == st.cache
    ensures st.store.None? ==> r == Step(st, Failure(NullStore))
    ensures st.store.Some? ==> r.value.Success? && (r.value.value <==> !Absent(st.store.value, id))
    ensures r.value == Success(false) ==> r.state == st
    ensures r.value == Success(true) ==> exists i :: (
      && FirstMatch(st.store.value, id, i)
      && r.state.store == Some(st.store.value[..i] + st.store.value[i + 1..]))
  {
    match st.store
    case None => Step(st, Failure(NullStore))
    case Some(cs) =>
      var i := FindIndex(cs, id);
      if i > -1 then Step(Set(st, cs[..i] + cs[i + 1..]), Success(true))
      else Step(st, Success(false))
  }
}
