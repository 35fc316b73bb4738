/** Properties that relate several calls of the contact store: reading back
    what was written, undoing a create, reading twice, and the worked
    scenario of creating, editing, searching and deleting one contact. */
module StoreProperties {
  import opened Wrappers
  import opened Contact
  import opened SortBy
  import opened FakeNetwork
  import opened ContactStore

  /** Both records carry the same string id. */
  predicate Clash(x: Contact, y: Contact) {
    "id" in x && "id" in y && x["id"].Str? && x["id"] == y["id"]
  }

  /** No two records share an id: the store's intended invariant, which no
      operation enforces on its own. */
  ghost predicate UniqueIds(cs: seq<Contact>) {
    forall a, b :: 0 <= a < b < |cs| ==> !Clash(cs[a], cs[b])
  }

  /** `x` shares its id with no record of `s`. */
  ghost predicate NoClash(x: Contact, s: seq<Contact>) {
    forall j :: 0 <= j < |s| ==> !Clash(x, s[j])
  }

  /** `search` only ever drops records, the way a filter does. */
  ghost predicate Narrows(search: Search) {
    forall cs, q :: multiset(search(cs, q)) <= multiset(cs)
  }

  lemma FirstMatchUnique(cs: seq<Contact>, id: string, i: int, j: int)
    requires FirstMatch(cs, id, i) && FirstMatch(cs, id, j)
    ensures i == j
  {
  }

  /** `find` lands on whichever position is the first match. */
  lemma FindAt(cs: seq<Contact>, id: string, i: int)
    requires FirstMatch(cs, id, i)
    ensures FindIndex(cs, id) == i
    ensures Find(cs, id) == Some(cs[i])
  {
    FirstMatchUnique(cs, id, i, FindIndex(cs, id));
  }

  /** With a filtering search, any query lists a permutation of a subset of
      the stored records, and nothing at all when nothing is stored. */
  lemma SearchListsSubset(st: State, query: Arg, search: Search)
    requires Narrows(search)
    ensures multiset(GetContacts(st, query, search).value) <= multiset(Stored(st))
    ensures st.store.None? ==> GetContacts(st, query, search).value == []
  {
    var listed := GetContacts(st, query, search).value;
    if Truthy(query) {
      assert multiset(search(Stored(st), query.text)) <= multiset(Stored(st));
    }
    if st.store.None? {
      assert multiset(listed) == multiset{};
    }
  }

  /** Right after `createContact`, `getContact` on the new id finds exactly the
      new record, even if an older record already had that id. */
  lemma CreateThenGet(st: State, id: string, now: int)
    ensures var created := CreateContact(st, id, now);
      GetContact(created.state, id).value == Success(Some(NewContact(id, now)))
  {
    var created := CreateContact(st, id, now);
    FindAt(created.state.store.value, id, 0);
  }

  /** `deleteContact` undoes `createContact` up to the sort that the create
      applied to the older records: it finds the new record, and what is left
      is the old list in (`last`, `createdAt`) order. */
  lemma CreateThenDelete(st: State, id: string, now: int)
    ensures var created := CreateContact(st, id, now);
      var deleted := DeleteContact(created.state, id);
      && deleted.value == Success(true)
      && deleted.state.store == Some(Sort(Stored(st)))
      && deleted.state.cache == created.state.cache
  {
    var created := CreateContact(st, id, now);
    var cs := created.state.store.value;
    FindAt(cs, id, 0);
    assert cs[..0] + cs[1..] == cs[1..];
  }

  /** On a list that is already in order, create followed by delete restores
      the store exactly. */
  lemma CreateThenDeleteSorted(st: State, id: string, now: int)
    requires st.store.Some? && Sorted(st.store.value)
    ensures DeleteContact(CreateContact(st, id, now).state, id).state.store == st.store
  {
    CreateThenDelete(st, id, now);
    SortOfSorted(st.store.value);
  }

  /** Reading a contact twice gives the same answer both times and the second
      read changes nothing, not even the gate's cache. */
  lemma GetTwice(st: State, id: string)
    ensures var first := GetContact(st, id);
      GetContact(first.state, id) == first
  {
    var key := Text("contact:" + id);
    assert Truthy(key) by {
      assert |"contact:" + id| > 0;
    }
    GateRepeat(st.cache, key);
  }

  /** When a stored record has the id, an update that leaves `id` alone
      succeeds, and `getContact` then returns the merged record that the update
      returned. */
  lemma UpdateThenGet(st: State, id: string, updates: Contact)
    requires "id" !in updates
    ensures var updated := UpdateContact(st, id, updates);
      st.store.Some? && !Absent(st.store.value, id) ==>
        && updated.value.Success?
        && GetContact(updated.state, id).value == Success(Some(updated.value.value))
  {
    var updated := UpdateContact(st, id, updates);
    if updated.value.Success? {
      var cs := st.store.value;
      var i := FindIndex(cs, id);
      var merged := Assign(cs[i], updates);
      AssignId(cs[i], updates, id);
      var ns := cs[i := merged];
      assert FirstMatch(ns, id, i) by {
        forall j | 0 <= j < i
          ensures !HasId(ns[j], id)
        {
          assert ns[j] == cs[j];
        }
      }
      FindAt(ns, id, i);
    }
  }

  /** When a stored record has the id, applying the same updates a second
      time succeeds again, stores the same list and returns the same record. */
  lemma UpdateTwice(st: State, id: string, updates: Contact)
    requires "id" !in updates
    ensures var once := UpdateContact(st, id, updates);
      st.store.Some? && !Absent(st.store.value, id) ==>
        && once.value.Success?
        && UpdateContact(once.state, id, updates) == once
  {
    var once := UpdateContact(st, id, updates);
    if once.value.Success? {
      var cs := st.store.value;
      var i := FindIndex(cs, id);
      var merged := Assign(cs[i], updates);
      AssignId(cs[i], updates, id);
      AssignIdempotent(cs[i], updates);
      var ns := cs[i := merged];
      assert FirstMatch(ns, id, i) by {
        forall j | 0 <= j < i
          ensures !HasId(ns[j], id)
        {
          assert ns[j] == cs[j];
        }
      }
      FindAt(ns, id, i);
      assert ns[i := Assign(ns[i], updates)] == ns;
    }
  }

  /** The favourite toggle: `updateContact(id, { favorite: true })` sets the
      flag and keeps every other property of the record. */
  lemma FavoriteUpdate(st: State, id: string, before: Contact)
    requires st.store.Some? && Find(st.store.value, id) == Some(before)
    ensures var updated := UpdateContact(st, id, map["favorite" := Bool(true)]);
      && updated.value.Success?
      && updated.value.value["favorite"] == Bool(true)
      && updated.value.value.Keys == before.Keys + {"favorite"}
      && forall k :: k in before && k != "favorite" ==> updated.value.value[k] == before[k]
  {
  }

  /** With unique ids, a deleted contact can no longer be read. */
  lemma DeleteThenGet(st: State, id: string)
    requires st.store.Some? && UniqueIds(st.store.value)
    ensures var deleted := DeleteContact(st, id);
      GetContact(deleted.state, id).value == Success(None)
  {
    var cs := st.store.value;
    var i := FindIndex(cs, id);
    if i != -1 {
      var ns := cs[..i] + cs[i + 1..];
      forall j | 0 <= j < |ns|
        ensures !HasId(ns[j], id)
      {
        if j < i {
          assert ns[j] == cs[j];
        } else {
          assert ns[j] == cs[j + 1];
        }
      }
    }
  }

  /** Deleting keeps ids unique. */
  lemma DeleteKeepsUnique(st: State, id: string)
    requires st.store.Some? && UniqueIds(st.store.value)
    ensures UniqueIds(DeleteContact(st, id).state.store.value)
  {
    var cs := st.store.value;
    var i := FindIndex(cs, id);
    if i != -1 {
      var ns := cs[..i] + cs[i + 1..];
      forall a, b, x | 0 <= a < b < |ns| && HasId(ns[a], x)
        ensures !HasId(ns[b], x)
      {
        var a' := if a < i then a else a + 1;
        var b' := if b < i then b else b + 1;
        assert ns[a] == cs[a'] && ns[b] == cs[b'];
      }
    }
  }

  /** An update that leaves `id` alone keeps ids unique. */
  lemma UpdateKeepsUnique(st: State, id: string, updates: Contact)
    requires st.store.Some? && UniqueIds(st.store.value) && "id" !in updates
    ensures UniqueIds(UpdateContact(st, id, updates).state.store.value)
  {
    var cs := st.store.value;
    var i := FindIndex(cs, id);
    if i != -1 {
      var ns := cs[i := Assign(cs[i], updates)];
      forall a, b, x | 0 <= a < b < |ns| && HasId(ns[a], x)
        ensures !HasId(ns[b], x)
      {
        AssignId(cs[i], updates, x);
      }
    }
  }

  lemma UniqueCons(x: Contact, s: seq<Contact>)
    ensures UniqueIds([x] + s) <==> NoClash(x, s) && UniqueIds(s)
  {
    var out := [x] + s;
    if NoClash(x, s) && UniqueIds(s) {
      forall a, b | 0 <= a < b < |out|
        ensures !Clash(out[a], out[b])
      {
        assert out[b] == s[b - 1];
        if a > 0 {
          assert out[a] == s[a - 1];
        }
      }
    }
    if UniqueIds(out) {
      forall a, b | 0 <= a < b < |s|
        ensures !Clash(s[a], s[b])
      {
        assert s[a] == out[a + 1] && s[b] == out[b + 1];
      }
      forall j | 0 <= j < |s|
        ensures !Clash(x, s[j])
      {
        assert out[0] == x && s[j] == out[j + 1];
      }
    }
  }

  lemma NoClashMultiset(x: Contact, s: seq<Contact>, t: seq<Contact>)
    requires NoClash(x, s) && multiset(t) <= multiset(s)
    ensures NoClash(x, t)
  {
    forall j | 0 <= j < |t|
      ensures !Clash(x, t[j])
    {
      assert t[j] in multiset(t);
      assert t[j] in multiset(s);
      assert t[j] in s;
      var m :| 0 <= m < |s| && s[m] == t[j];
      assert !Clash(x, s[m]);
    }
  }

  lemma {:induction false} InsertKeepsUnique(x: Contact, s: seq<Contact>)
    requires UniqueIds(s) && NoClash(x, s)
    ensures UniqueIds(Insert(x, s))
  {
    UniqueCons(x, s);
    if s != [] && !KeyLe(x, s[0]) {
      var t := s[1..];
      assert s == [s[0]] + t;
      UniqueCons(s[0], t);
      NoClashMultiset(x, s, t);
      InsertKeepsUnique(x, t);
      InsertPermutes(x, t);
      assert NoClash(s[0], [x] + t) by {
        assert !Clash(x, s[0]);
        UniqueCons(x, t);
      }
      NoClashMultiset(s[0], [x] + t, Insert(x, t));
      UniqueCons(s[0], Insert(x, t));
    }
  }

  /** Sorting keeps ids unique. */
  lemma {:induction false} SortKeepsUnique(s: seq<Contact>)
    requires UniqueIds(s)
    ensures UniqueIds(Sort(s))
  {
    if s != [] {
      assert s == [s[0]] + s[1..];
      UniqueCons(s[0], s[1..]);
      SortKeepsUnique(s[1..]);
      SortPermutes(s[1..]);
      NoClashMultiset(s[0], s[1..], Sort(s[1..]));
      InsertKeepsUnique(s[0], Sort(s[1..]));
    }
  }

  /** Creating a record under an id no record has keeps ids unique. */
  lemma CreateKeepsUnique(st: State, id: string, now: int)
    requires UniqueIds(Stored(st)) && Absent(Stored(st), id)
    ensures UniqueIds(CreateContact(st, id, now).state.store.value)
  {
    var c := NewContact(id, now);
    var sorted := Sort(Stored(st));
    SortKeepsUnique(Stored(st));
    SortPermutes(Stored(st));
    assert NoClash(c, Stored(st));
    NoClashMultiset(c, Stored(st), sorted);
    UniqueCons(c, sorted);
  }

  /** The records of the worked scenario below. */
  const AdaShell: Contact := map["id" := Str("x1"), "createdAt" := Num(1000)]
  const AdaNames: Contact := map["first" := Str("Ada"), "last" := Str("Lovelace")]
  const Ada: Contact := map["id" := Str("x1"), "createdAt" := Num(1000),
                            "first" := Str("Ada"), "last" := Str("Lovelace")]

  lemma ScenarioCreate()
    ensures CreateContact(State(None, {}), "x1", 1000).value == AdaShell
    ensures CreateContact(State(None, {}), "x1", 1000).state.store == Some([AdaShell])
  {
    var created := CreateContact(State(None, {}), "x1", 1000);
    assert created.value == AdaShell;
    var cs := created.state.store.value;
    assert |cs| == 1 && cs[0] == AdaShell;
    assert cs == [AdaShell];
  }

  lemma ScenarioName(cache: Cache)
    ensures var named := UpdateContact(State(Some([AdaShell]), cache), "x1", AdaNames);
      named.value == Success(Ada) && named.state.store == Some([Ada])
  {
    assert FindIndex([AdaShell], "x1") == 0;
    assert Assign(AdaShell, AdaNames) == Ada;
    assert [AdaShell][0 := Ada] == [Ada];
  }

  lemma ScenarioSearch(cache: Cache, search: Search)
    requires search([Ada], "ada") == [Ada]
    ensures GetContacts(State(Some([Ada]), cache), Text("ada"), search).value == [Ada]
  {
    var found := GetContacts(State(Some([Ada]), cache), Text("ada"), search).value;
    assert multiset(found) == multiset{Ada};
    assert |found| == 1;
    assert found[0] in multiset(found);
  }

  lemma ScenarioDelete(cache: Cache, search: Search)
    ensures var deleted := DeleteContact(State(Some([Ada]), cache), "x1");
      && deleted.value == Success(true)
      && GetContacts(deleted.state, Undefined, search).value == []
  {
    assert FindIndex([Ada], "x1") == 0;
    assert [Ada][..0] + [Ada][1..] == [];
  }

  /** One contact's life on an empty store: create it, name it, find it by a
      search that matches it, delete it, and list nothing. */
  lemma Scenario(search: Search)
    requires search([Ada], "ada") == [Ada]
    ensures var created := CreateContact(State(None, {}), "x1", 1000);
      var named := UpdateContact(created.state, "x1", AdaNames);
      var found := GetContacts(named.state, Text("ada"), search);
      var deleted := DeleteContact(found.state, "x1");
      && created.value == AdaShell
      && named.value == Success(Ada)
      && found.value == [Ada]
      && deleted.value == Success(true)
      && GetContacts(deleted.state, Undefined, search).value == []
  {
    var created := CreateContact(State(None, {}), "x1", 1000);
    ScenarioCreate();
    ScenarioName(created.state.cache);
    var named := UpdateContact(created.state, "x1", AdaNames);
    ScenarioSearch(named.state.cache, search);
    var found := GetContacts(named.state, Text("ada"), search);
    ScenarioDelete(found.state.cache, search);
  }
}
