/** `fakeNetwork(key)`: the simulated-latency gate. A process-wide object
    `fakeCache` records the keys already seen; a key seen before resolves at
    once, a new key is recorded and resolves after a random delay. A falsy
    key first empties the cache. The delay length is not modelled, only
    whether there is one. */
module FakeNetwork {

  /** A JavaScript argument that may be a string, `undefined` or `null`. */
  datatype Arg = Undefined | Null | Text(text: string)

  /** `!!a`: only `undefined`, `null` and `""` are falsy. */
  predicate Truthy(a: Arg) {
    a.Text? && a.text != []
  }

  /** The string a value becomes in a template literal or as a property name. */
  function Stringify(a: Arg): string {
    match a
    case Undefined => "undefined"
    case Null => "null"
    case Text(s) => s
  }

  datatype Latency = Immediate | Delayed

  /** The set of property names set to `true` in `fakeCache`. */
  type Cache = set<string>

  /** One call: the cache afterwards and whether the promise is delayed. */
  function Gate(cache: Cache, key: Arg): (r: (Cache, Latency))
    ensures Stringify(key) in r.0
    ensures !Truthy(key) ==> r == ({Stringify(key)}, Delayed)
    ensures Truthy(key) && key.text in cache ==> r == (cache, Immediate)
    ensures Truthy(key) && key.text !in cache ==> r == (cache + {key.text}, Delayed)
    ensures r.1 == Immediate <==> Truthy(key) && key.text in cache
  {
    var start: Cache := if Truthy(key) then cache else {};
    var name := Stringify(key);
    assert !Truthy(key) ==> start + {name} == {name};
    if name in start then (start, Immediate) else (start + {name}, Delayed)
  }

  /** Asking twice for the same truthy key: the second call is immediate and
      leaves the cache as the first call left it. */
  lemma GateRepeat(cache: Cache, key: Arg)
    requires Truthy(key)
    ensures Gate(Gate(cache, key).0, key) == (Gate(cache, key).0, Immediate)
  {
  }

  /** A call with no key forgets every earlier key: afterwards only
      `"undefined"` is remembered, whatever the cache held. */
  lemma GateReset(cache: Cache)
    ensures Gate(cache, Undefined).0 == {"undefined"}
    ensures forall k :: k in cache && k != "undefined" ==> k !in Gate(cache, Undefined).0
  {
  }

  /** A truthy key never makes the gate forget a key. */
  lemma GateGrows(cache: Cache, key: Arg)
    requires Truthy(key)
    ensures cache <= Gate(cache, key).0
    ensures Gate(cache, key).0 - cache <= {key.text}
  {
  }
}
