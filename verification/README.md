# FastKVst `kv` stores in Dafny

This project models the `kv` package of FastKVst: a family of in-memory
key-value stores behind one contract (`KVStore`: Set, Get, Delete, Range,
Flush over string keys and values, with the two errors `ErrNotFound` and
`ErrUnsupported`). Four backends are modelled, each as immutable data and
pure functions or short methods:

- `kv_store.dfy` (module `KV`): the contract's vocabulary. It holds the error
  datatype and the `Result`/`Option` wrappers. It also holds Go's `<` on
  strings, modelled as lexicographic order on characters (`Less`), and
  sorted key lists (`SortedKeys`, Go's `sort.Strings` applied to distinct
  keys). Finally it holds entry sequences and the map they denote
  (`EntryMap`).
- `kv_hash.dfy` (module `Hash`): the hash store, a plain map. Its `Get` is the
  reference answer; the LSM store and the skip list are proved to give the
  same answer as `Hash.Get` over their logical contents.
- `kv_lsm.dfy` (module `Lsm`): the LSM store.
  - Data: a memtable map plus an immutable table of entries kept strictly
    sorted by key, and a flush threshold (1000 by default).
  - `mergeLSMEntries` appears twice. `Merge` is a recursive definition.
    `MergeEntries` is the two-pointer loop, proved to compute `Merge`.
  - `Search` is `sort.Search`.
  - The logical contents are `View`: the table overridden by the memtable.
- `kv_skiplist.dfy` (module `SkipList`): the skip list, modelled as its
  level-0 chain rather than pointers.
  - `entries[n]` is the n-th node after the head. `heights[n]` is the length
    of that node's `next` array. The head is position -1.
  - `Next(h, x, i)` is where `x.next[i]` points: the first later node with
    more than `i` links.
  - `FindPredecessors` is the shared descent loop with its `update` trail.
  - `SpliceLinks` and `UnlinkLinks` take Set's and Delete's pointer rewiring
    along that trail, link by link. They show it leaves every link of every
    node where `Next` puts it in the new list.
  - `randomLevel` draws from a coin oracle; `DrawnLevel` is the level it
    draws.
- `kv_trie.dfy` (module `Trie`): the trie as a recursive datatype, with
  children keyed by character and an optional value per node. Range is the
  depth-first walk. The order in which a node's children are visited is
  Go's map iteration order, so it is a parameter (`order`).

Set never fails in Go, so its models return only the new state. Delete
returns the state and a `Result<()>`. The exported Flush of the hash store,
the skip list and the trie likewise returns the state with `Ok(())`.
`Lsm.Flush` models the LSM store's internal `flush`, which has no error and
returns only the new state.

Two places where the code and its documentation or tests disagree. The model
follows the code in both:

- LSM Range filters the memtable and the table separately (kv_lsm.go:71-81).
  A memtable tombstone therefore does not hide an older non-empty table
  entry: the key is listed even though Get returns `""`.
  `Lsm.RangeListsTombstonedKey` exhibits this on one state, and
  `Lsm.DeleteStillListed` shows that Delete produces it from any store
  whose table holds the key with a non-empty value.
- Trie Range visits children in map order (kv_trie.go:89), while
  kv_trie_test.go:35 expects ascending keys. `Trie.Range` is stated as
  "exactly these keys, each once", and `Trie.RangeMayBeUnordered` exhibits
  a descending result.

The `KVStore` comment says Range returns values, but every backend returns
keys, and so does the model.

## Model

| member | source | states |
|---|---|---|
| `KV.SortedKeys` | FastKVst/kv/kv_lsm.go:83-87 | the collected key set, listed in strictly ascending order, each key once, nothing else |
| `Hash.New` | FastKVst/kv/kv_hash.go:14-18 | a new store answers NotFound for every key |
| `Hash.Set` | FastKVst/kv/kv_hash.go:21-27 | afterwards Get(key) is the value, every other key reads as before, and the key set gains exactly `key` |
| `Hash.Get` | FastKVst/kv/kv_hash.go:30-39 | Ok exactly when the key is stored, with its value; otherwise the error is exactly NotFound |
| `Hash.Delete` | FastKVst/kv/kv_hash.go:42-51 | an absent key gives NotFound and no change; a present key gives Ok, then Get is NotFound; other keys are untouched |
| `Hash.Range` | FastKVst/kv/kv_hash.go:54-56 | Unsupported, whatever the arguments and state |
| `Hash.Flush` | FastKVst/kv/kv_hash.go:59-62 | no error, and every lookup is unchanged |
| `Hash.SetIdempotent` | FastKVst/kv/kv_hash.go:25 | writing the same pair twice equals writing it once |
| `Hash.DeleteTwice` | FastKVst/kv/kv_hash.go:46-49 | deleting a deleted key fails with NotFound and changes nothing |
| `Lsm.New` | FastKVst/kv/kv_lsm.go:22-27 | empty logical contents, sorted empty table, threshold 1000 |
| `Lsm.MergeEntries` | FastKVst/kv/kv_lsm.go:113-137 | the two-pointer loop computes `Merge`; on sorted inputs the output is sorted and denotes the union in which `b` wins |
| `Lsm.MergeElements` | FastKVst/kv/kv_lsm.go:116-136 | every output entry is copied from one of the inputs |
| `Lsm.MergeSorted` | FastKVst/kv/kv_lsm.go:116-136 | strictly sorted inputs give a strictly sorted output |
| `Lsm.MergeMap` | FastKVst/kv/kv_lsm.go:117-127 | the output denotes the union of the inputs; on a shared key the value of `b` wins |
| `Lsm.MergeLength` | FastKVst/kv/kv_lsm.go:123-127 | the output length is the sum of the input lengths less the number of shared keys |
| `Lsm.SortedMemtable` | FastKVst/kv/kv_lsm.go:101-107 | the memtable's pairs as a strictly sorted entry list denoting exactly the memtable |
| `Lsm.Flush` | FastKVst/kv/kv_lsm.go:100-110 | the memtable becomes empty, the table stays sorted, and the logical contents are unchanged |
| `Lsm.FlushPreservesGet` | FastKVst/kv/kv_lsm.go:92-97 | Get answers every key the same before and after a flush |
| `Lsm.Search` | FastKVst/kv/kv_lsm.go:48-50 | the key just before the returned index is below `key` and the key at it is not (on a sorted table, the index splits the keys below `key` from the rest) |
| `Lsm.SearchFinds` | FastKVst/kv/kv_lsm.go:51 | on a sorted table the search lands on `key` exactly when the table holds it |
| `Lsm.Get` | FastKVst/kv/kv_lsm.go:41-55 | the memtable value if present there; otherwise the same answer as the reference map over the logical contents |
| `Lsm.Set` | FastKVst/kv/kv_lsm.go:30-38 | the logical contents are updated at `key` and Get(key) is the value; the store flushes exactly when the updated memtable reaches the threshold, and otherwise only the memtable changes; with threshold at least 1 the memtable stays below the threshold |
| `Lsm.Delete` | FastKVst/kv/kv_lsm.go:58-63 | never fails; the tombstone "" is written into the memtable only, the table is untouched and no flush happens, so Get returns "" and not NotFound |
| `Lsm.DeleteStillListed` | FastKVst/kv/kv_lsm.go:58-81 | after deleting a key whose table entry is non-empty, Get reads "" but Range over an interval holding the key still lists it |
| `Lsm.LiveKeysBetween` | FastKVst/kv/kv_lsm.go:71-81 | the keys Range collects are all present, and every key whose current value is non-empty is collected |
| `Lsm.Range` | FastKVst/kv/kv_lsm.go:66-89 | ascending, each key once, exactly the in-range keys with a non-empty value in either level |
| `Lsm.RangeListsTombstonedKey` | FastKVst/kv/kv_lsm.go:71-81 | a key with a memtable tombstone and a non-empty table entry reads as "" but is listed by Range |
| `SkipList.Next` | FastKVst/kv/kv_skiplist.go:11-14 | a node's level-i link is the first later node with more than i links, or nil |
| `SkipList.NextUnique` | FastKVst/kv/kv_skiplist.go:13 | the properties of a level-i link determine its target |
| `SkipList.NextMonotone` | FastKVst/kv/kv_skiplist.go:40-43 | a node's level-(i+1) link never stops short of its level-i link: each level's chain is a sub-chain of the one below |
| `SkipList.InsertLinks` | FastKVst/kv/kv_skiplist.go:62-65 | for a predecessor whose link reaches the insertion point: below the new node's height it links to the new node, which takes over its old target; on higher levels its target only moves along by one |
| `SkipList.RemoveLinks` | FastKVst/kv/kv_skiplist.go:96-101 | for a predecessor whose link reaches the node: it links to the node exactly on the node's levels, and there inherits the node's link; on other levels its target only moves back by one |
| `SkipList.FindPredecessors` | FastKVst/kv/kv_skiplist.go:38-45 | the descent stops on the last node below `key`; each `update[i]` is the head or a node with a level-i link, and that link passes the stopping node |
| `SkipList.SpliceLinks` | FastKVst/kv/kv_skiplist.go:50-65 | along the descent's trail, Set's rewiring leaves every link where the new list's heights put it: below the new height, `update[i]` links to the new node and the new node takes `update[i]`'s old target; every other link keeps its target |
| `SkipList.UnlinkLinks` | FastKVst/kv/kv_skiplist.go:93-101 | along the descent's trail, Delete's rewiring leaves every link where the shortened list's heights put it: on the removed node's levels, `update[i]` takes over its link; every other link keeps its target |
| `SkipList.New` | FastKVst/kv/kv_skiplist.go:21-27 | an empty, valid list at level 1 |
| `SkipList.DrawnLevel` | FastKVst/kv/kv_skiplist.go:29-35 | a level in [1, 16]: one more than the number of successful draws before the first failure, capped at 16 |
| `SkipList.RandomLevel` | FastKVst/kv/kv_skiplist.go:29-35 | the loop returns exactly the level `DrawnLevel` describes for the same draws |
| `SkipList.Get` | FastKVst/kv/kv_skiplist.go:69-81 | the same answer as the reference map over the level-0 chain |
| `SkipList.SpliceValid` | FastKVst/kv/kv_skiplist.go:50-65 | inserting a new key at its place keeps the chain sorted and the heights within the active level, and adds exactly that key |
| `SkipList.SpliceTop` | FastKVst/kv/kv_skiplist.go:51-56 | an insertion never leaves the top active level empty |
| `SkipList.Set` | FastKVst/kv/kv_skiplist.go:37-67 | the contents are updated at `key`; an existing key changes only that node's value; a new key gets one node, at its place in the order, whose height is the drawn level, and the level becomes the larger of the old level and the drawn one |
| `SkipList.UnlinkValid` | FastKVst/kv/kv_skiplist.go:93-101 | removing the found node keeps the list valid and removes exactly its key |
| `SkipList.UnlinkedLevels` | FastKVst/kv/kv_skiplist.go:96-101 | the unlink loop runs for exactly the node's own number of levels |
| `SkipList.ShrinkLevel` | FastKVst/kv/kv_skiplist.go:103-105 | the level drops only over empty top levels, never below 1, and then the top level is occupied; nodes and heights are untouched |
| `SkipList.Delete` | FastKVst/kv/kv_skiplist.go:83-111 | an absent key gives NotFound and no change; a present key's node is removed and every other node keeps its place and height; the level only drops, past levels left empty, to 1 or an occupied top level |
| `SkipList.Window` | FastKVst/kv/kv_skiplist.go:117-127 | between the first key not below start and the first key not below end lie exactly the keys in [start, end) |
| `SkipList.WindowKeys` | FastKVst/kv/kv_skiplist.go:123-127 | the keys read along that stretch are ascending and are exactly the stored keys in [start, end) |
| `SkipList.Range` | FastKVst/kv/kv_skiplist.go:114-129 | no error; ascending; exactly the stored keys in [start, end) |
| `SkipList.Flush` | FastKVst/kv/kv_skiplist.go:132-134 | no error and the list is left exactly as it was, so it stays valid with the same contents |
| `Trie.New` | FastKVst/kv/kv_trie.go:20-24 | a root with no children: the only path is the empty one |
| `Trie.Get` | FastKVst/kv/kv_trie.go:42-56 | Ok exactly when the node at the key's path exists and holds a value; a missing child or an empty end node gives NotFound |
| `Trie.SetGet` | FastKVst/kv/kv_trie.go:27-39 | after Set, the key reads the value and every other key reads as before |
| `Trie.SetPaths` | FastKVst/kv/kv_trie.go:31-36 | Set adds exactly the prefixes of the key as paths and keeps all others |
| `Trie.SetIdempotent` | FastKVst/kv/kv_trie.go:30-37 | writing the same pair twice gives the same trie as once |
| `Trie.Delete` | FastKVst/kv/kv_trie.go:59-77 | when the key has no value, NotFound and the trie unchanged; otherwise no error |
| `Trie.DeleteGet` | FastKVst/kv/kv_trie.go:74 | afterwards the key is NotFound and every other key reads as before |
| `Trie.DeletePaths` | FastKVst/kv/kv_trie.go:74-75 | no node is removed: the paths are unchanged |
| `Trie.DfsMembers` | FastKVst/kv/kv_trie.go:85-92 | the walk emits a key exactly when it is the character path to a node holding a value and lies in [start, end) |
| `Trie.DfsDistinct` | FastKVst/kv/kv_trie.go:89-91 | the walk never emits a key twice |
| `Trie.Range` | FastKVst/kv/kv_trie.go:80-95 | no error; exactly the stored keys in [start, end), each once, in whatever order the children are visited |
| `Trie.RangeMayBeUnordered` | FastKVst/kv/kv_trie.go:89 | with children visited 'b' first, Range over "a" and "b" returns ["b", "a"] |
| `Trie.Flush` | FastKVst/kv/kv_trie.go:98-100 | no error; every lookup and every path is unchanged |

## Left out

- Locking (`sync.RWMutex`) and concurrent use: every operation is one atomic,
  sequential step. The skip list's missing lock is therefore invisible here.
- Randomness in the skip list (`rand.Seed`, `rand.Float64`, the promotion
  probability 0.25): `SkipList.RandomLevel` reads draws from a `coin` oracle.
  The distribution of levels is not modelled.
- Go map iteration order. The LSM flush sorts what it collects, so the order
  does not matter there. The trie's child order is the `order` oracle, which
  must list each node's children once.
- UTF-8: keys are sequences of characters. Decoding of invalid bytes to
  U+FFFD by `range key` is not modelled. Code-point order equals Go's
  byte-wise order on valid UTF-8.
- `kv_Btree.go`: it wraps `github.com/google/btree`, which is not part of
  this model.
- `bench_runner.go` and `main.go`: timing, flags, files and console output.
- Set returns `nil` in every backend, so its models return no error value.
  The LSM store's exported `Flush` only takes the lock, calls the internal
  `flush` and returns `nil`; the model has only `Lsm.Flush`, the internal
  `flush`, which returns the new state without an error value.
- A failing Get returns `""` beside the error in Go; the model returns only
  the error.
- The skip list is modelled as its level-0 chain plus node heights rather
  than as pointers. This presumes the links are the ones the heights
  determine. `SpliceLinks` and `UnlinkLinks` show that Set and Delete keep
  it that way. They are stated one link at a time, not as a pointer heap.
- Trie Set, Get and Delete walk the key with a loop; the model recurses on
  the key instead, one character per step.
- Slice capacity preallocation and memory reclamation.
- Lsm.Set: the bound "the memtable stays below the threshold" is stated
  for a threshold of at least 1. With a threshold of 0 or less every Set
  flushes, as the contract states, and leaves an empty memtable, which no
  size is below.
