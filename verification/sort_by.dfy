/** `contacts.sort(sortBy("last", "createdAt"))`: a stable sort of the
    contact list, ascending by last name and then by creation time.
    A missing or non-text `last` sorts as the empty string and a missing or
    non-numeric `createdAt` as zero. */
module SortBy {
  import opened Contact

  /** The text compared for the `last` property. */
  function LastName(c: Contact): string {
    if "last" in c && c["last"].Str? then c["last"].str else ""
  }

  /** The number compared for the `createdAt` property. */
  function CreatedAt(c: Contact): int {
    if "createdAt" in c && c["createdAt"].Num? then c["createdAt"].num else 0
  }

  /** String `<=`, lexicographic by Unicode scalar value. This agrees with
      JavaScript's code-unit order except where a character above U+FFFF is
      compared with one in U+E000..U+FFFF. */
  predicate StrLe(a: string, b: string) {
    if a == [] then true
    else if b == [] then false
    else if a[0] != b[0] then a[0] < b[0]
    else StrLe(a[1..], b[1..])
  }

  lemma {:induction false} StrLeRefl(a: string)
    ensures StrLe(a, a)
  {
    if a != [] {
      StrLeRefl(a[1..]);
    }
  }

  lemma {:induction false} StrLeTotal(a: string, b: string)
    ensures StrLe(a, b) || StrLe(b, a)
  {
    if a != [] && b != [] && a[0] == b[0] {
      StrLeTotal(a[1..], b[1..]);
    }
  }

  lemma {:induction false} StrLeAntisym(a: string, b: string)
    requires StrLe(a, b) && StrLe(b, a)
    ensures a == b
  {
    if a != [] && b != [] {
      StrLeAntisym(a[1..], b[1..]);
      assert a == [a[0]] + a[1..];
      assert b == [b[0]] + b[1..];
    }
  }

  lemma {:induction false} StrLeTrans(a: string, b: string, c: string)
    requires StrLe(a, b) && StrLe(b, c)
    ensures StrLe(a, c)
  {
    if a != [] && b != [] && c != [] && a[0] == b[0] == c[0] {
      StrLeTrans(a[1..], b[1..], c[1..]);
    }
  }

  /** Two records tie under the comparator. */
  predicate SameKey(x: Contact, y: Contact) {
    LastName(x) == LastName(y) && CreatedAt(x) == CreatedAt(y)
  }

  /** `x` may come before `y`: the comparator does not return a positive number. */
  predicate KeyLe(x: Contact, y: Contact) {
    var a, b := LastName(x), LastName(y);
    (a != b && StrLe(a, b)) || (a == b && CreatedAt(x) <= CreatedAt(y))
  }

  /** The comparator is a total preorder whose ties are exactly `SameKey`. */
  lemma KeyLeTotalPreorder(x: Contact, y: Contact, z: Contact)
    ensures KeyLe(x, x)
    ensures KeyLe(x, y) || KeyLe(y, x)
    ensures KeyLe(x, y) && KeyLe(y, x) <==> SameKey(x, y)
    ensures KeyLe(x, y) && KeyLe(y, z) ==> KeyLe(x, z)
  {
    StrLeTotal(LastName(x), LastName(y));
    if KeyLe(x, y) && KeyLe(y, x) && LastName(x) != LastName(y) {
      StrLeAntisym(LastName(x), LastName(y));
    }
    if KeyLe(x, y) && KeyLe(y, z) {
      var a, b, c := LastName(x), LastName(y), LastName(z);
      if a != b && b != c {
        StrLeTrans(a, b, c);
        if a == c {
          StrLeAntisym(a, b);
        }
      }
    }
  }

  /** Ascending order: every earlier record may precede every later one. */
  ghost predicate Sorted(s: seq<Contact>) {
    forall i, j :: 0 <= i < j < |s| ==> KeyLe(s[i], s[j])
  }

  /** The records of `s` that tie with `k`, in their order in `s`. */
  function Peers(s: seq<Contact>, k: Contact): seq<Contact> {
    if s == [] then []
    else (if SameKey(s[0], k) then [s[0]] else []) + Peers(s[1..], k)
  }

  /** Inserts `x` before the first record it may precede. */
  function Insert(x: Contact, s: seq<Contact>): seq<Contact> {
    if s == [] then [x]
    else if KeyLe(x, s[0]) then [x] + s
    else [s[0]] + Insert(x, s[1..])
  }

  /** The sorted list, by insertion. */
  function Sort(s: seq<Contact>): seq<Contact> {
    if s == [] then [] else Insert(s[0], Sort(s[1..]))
  }

  lemma {:induction false} InsertPermutes(x: Contact, s: seq<Contact>)
    ensures multiset(Insert(x, s)) == multiset(s) + multiset{x}
  {
    if s != [] && !KeyLe(x, s[0]) {
      InsertPermutes(x, s[1..]);
      assert s == [s[0]] + s[1..];
    }
  }

  /** `b` may precede every record of `s`. */
  ghost predicate Bounds(b: Contact, s: seq<Contact>) {
    forall j :: 0 <= j < |s| ==> KeyLe(b, s[j])
  }

  lemma SortedCons(b: Contact, s: seq<Contact>)
    requires Bounds(b, s) && Sorted(s)
    ensures Sorted([b] + s)
  {
    var out := [b] + s;
    forall i, j | 0 <= i < j < |out|
      ensures KeyLe(out[i], out[j])
    {
      assert out[j] == s[j - 1];
      if i > 0 {
        assert out[i] == s[i - 1];
      }
    }
  }

  lemma SortedTail(s: seq<Contact>)
    requires Sorted(s) && s != []
    ensures Sorted(s[1..]) && Bounds(s[0], s[1..])
  {
    forall i, j | 0 <= i < j < |s[1..]|
      ensures KeyLe(s[1..][i], s[1..][j])
    {
      assert s[1..][i] == s[i + 1] && s[1..][j] == s[j + 1];
    }
    forall j | 0 <= j < |s[1..]|
      ensures KeyLe(s[0], s[1..][j])
    {
      assert s[1..][j] == s[j + 1];
    }
  }

  lemma {:induction false} InsertBounds(b: Contact, x: Contact, s: seq<Contact>)
    requires KeyLe(b, x) && Bounds(b, s)
    ensures Bounds(b, Insert(x, s))
  {
    if s != [] && !KeyLe(x, s[0]) {
      InsertBounds(b, x, s[1..]);
      var r := Insert(x, s[1..]);
      forall j | 0 <= j < |[s[0]] + r|
        ensures KeyLe(b, ([s[0]] + r)[j])
      {
        if j > 0 {
          assert ([s[0]] + r)[j] == r[j - 1];
        }
      }
    }
  }

  lemma {:induction false} InsertSorted(x: Contact, s: seq<Contact>)
    requires Sorted(s)
    ensures Sorted(Insert(x, s))
  {
    if s == [] {
    } else if KeyLe(x, s[0]) {
      SortedTail(s);
      forall j | 0 <= j < |s|
        ensures KeyLe(x, s[j])
      {
        if j > 0 {
          KeyLeTotalPreorder(x, s[0], s[j]);
        }
      }
      SortedCons(x, s);
    } else {
      SortedTail(s);
      InsertSorted(x, s[1..]);
      KeyLeTotalPreorder(x, s[0], x);
      InsertBounds(s[0], x, s[1..]);
      SortedCons(s[0], Insert(x, s[1..]));
    }
  }

  /** `Sort` keeps exactly the records it is given. */
  lemma {:induction false} SortPermutes(s: seq<Contact>)
    ensures multiset(Sort(s)) == multiset(s)
  {
    if s != [] {
      SortPermutes(s[1..]);
      InsertPermutes(s[0], Sort(s[1..]));
      assert s == [s[0]] + s[1..];
    }
  }

  /** `Sort` orders by (`last`, `createdAt`). */
  lemma {:induction false} SortSorted(s: seq<Contact>)
    ensures Sorted(Sort(s))
  {
    if s != [] {
      SortSorted(s[1..]);
      InsertSorted(s[0], Sort(s[1..]));
    }
  }

  lemma {:induction false} InsertPeers(x: Contact, s: seq<Contact>, k: Contact)
    ensures Peers(Insert(x, s), k) == (if SameKey(x, k) then [x] else []) + Peers(s, k)
  {
    if s == [] {
      assert Peers([x], k) == (if SameKey(x, k) then [x] else []) + Peers([], k);
    } else if KeyLe(x, s[0]) {
      assert ([x] + s)[1..] == s;
    } else {
      InsertPeers(x, s[1..], k);
      KeyLeTotalPreorder(x, s[0], k);
      assert ([s[0]] + Insert(x, s[1..]))[1..] == Insert(x, s[1..]);
    }
  }

  /** `Sort` is stable: records that tie keep their original relative order. */
  lemma {:induction false} SortStable(s: seq<Contact>, k: Contact)
    ensures Peers(Sort(s), k) == Peers(s, k)
  {
    if s != [] {
      SortStable(s[1..], k);
      InsertPeers(s[0], Sort(s[1..]), k);
    }
  }

  /** Sorting a list that is already in order leaves it as it is, so sorting twice
      is sorting once. */
  lemma {:induction false} SortOfSorted(s: seq<Contact>)
    requires Sorted(s)
    ensures Sort(s) == s
  {
    if s != [] {
      SortedTail(s);
      SortOfSorted(s[1..]);
      if |s| > 1 {
        assert KeyLe(s[0], s[1]);
      }
      assert [s[0]] + s[1..] == s;
    }
  }

  lemma SortIdempotent(s: seq<Contact>)
    ensures Sort(Sort(s)) == Sort(s)
  {
    SortSorted(s);
    SortOfSorted(Sort(s));
  }
}
