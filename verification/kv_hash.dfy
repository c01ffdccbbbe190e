/** HashStore: a plain map from key to value, with no ordering. Its behaviour
    is the logical store every other backend is compared against. */
module Hash {
  import opened KV

  datatype HashStore = HashStore(store: map<Key, string>)

  function New(): (h: HashStore)
    ensures forall k :: Get(h, k) == Err(NotFound)
  {
    HashStore(map[])
  }

  /** Inserts or overwrites one key; no other key is affected. */
  function Set(h: HashStore, key: Key, value: string): (r: HashStore)
    ensures Get(r, key) == Ok(value)
    ensures forall k :: k != key ==> Get(r, k) == Get(h, k)
    ensures r.store.Keys == h.store.Keys + {key}
  {
    HashStore(h.store[key := value])
  }

  /** The stored value, or exactly NotFound when the key is absent. */
  function Get(h: HashStore, key: Key): (r: Result<string>)
    ensures r.Ok? <==> key in h.store
    ensures r.Ok? ==> r.value == h.store[key]
    ensures r.Err? ==> r.error == NotFound
  {
    if key in h.store then Ok(h.store[key]) else Err(NotFound)
  }

  /** Removes a present key; an absent key is an error and changes nothing. */
  function Delete(h: HashStore, key: Key): (r: (HashStore, Result<()>))
    ensures Get(h, key).Err? ==> r == (h, Err(NotFound))
    ensures Get(h, key).Ok? ==> r.1 == Ok(()) && Get(r.0, key) == Err(NotFound)
    ensures forall k :: k != key ==> Get(r.0, k) == Get(h, k)
  {
    if key !in h.store then (h, Err(NotFound))
    else (HashStore(h.store - {key}), Ok(()))
  }

  /** The hash store keeps no order, so Range always fails. */
  function Range(h: HashStore, start: Key, end: Key): (r: Result<seq<Key>>)
    ensures r == Err(Unsupported)
  {
    Err(Unsupported)
  }

  /** Nothing to persist: Flush leaves every lookup as it was. */
  function Flush(h: HashStore): (r: (HashStore, Result<()>))
    ensures r.1 == Ok(())
    ensures forall k :: Get(r.0, k) == Get(h, k)
  {
    (h, Ok(()))
  }

  /** Writing the same pair twice is the same as writing it once. */
  lemma SetIdempotent(h: HashStore, key: Key, value: string)
    ensures Set(Set(h, key, value), key, value) == Set(h, key, value)
  {
  }

  /** Deleting an already-deleted key fails again and still changes nothing. */
  lemma DeleteTwice(h: HashStore, key: Key)
    ensures var (h1, _) := Delete(h, key); Delete(h1, key) == (h1, Err(NotFound))
  {
  }
}
