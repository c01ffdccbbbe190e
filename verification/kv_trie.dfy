/** TrieStore: one node per key prefix, children keyed by character, and a
    value on the nodes that end a stored key. Deleting only clears a value;
    nodes are never removed. Range is a depth-first walk whose child order
    is Go's map iteration order, supplied here as `order`. */
module Trie {
  import opened KV

  datatype TrieNode = TrieNode(children: map<char, TrieNode>, value: Option<string>)

  function New(): (t: TrieNode)
    ensures forall p :: HasPath(t, p) <==> p == []
  {
    TrieNode(map[], None)
  }

  /* ----------------------------------------------------------------------
     Paths.
     ---------------------------------------------------------------------- */

  /** The node reached by following `path` from `t`, if every step exists. */
  function Lookup(t: TrieNode, path: Key): Option<TrieNode>
    decreases |path|
  {
    if |path| == 0 then Some(t)
    else if path[0] in t.children then Lookup(t.children[path[0]], path[1..])
    else None
  }

  predicate HasPath(t: TrieNode, path: Key) {
    Lookup(t, path).Some?
  }

  /** The value held by the node at `path`, if there is such a node. */
  function ValueAt(t: TrieNode, path: Key): Option<string> {
    match Lookup(t, path)
    case None => None
    case Some(n) => n.value
  }

  predicate IsPrefix(p: Key, k: Key) {
    |p| <= |k| && k[..|p|] == p
  }

  /* ----------------------------------------------------------------------
     The store operations.
     ---------------------------------------------------------------------- */

  /** Walks `key` character by character; fails with NotFound at the first
      missing child, or at the end if that node holds no value. */
  function Get(t: TrieNode, key: Key): (r: Result<string>)
    ensures r.Ok? <==> ValueAt(t, key).Some?
    ensures r.Ok? ==> ValueAt(t, key) == Some(r.value)
    ensures r.Err? ==> r.error == NotFound
    decreases |key|
  {
    if |key| == 0 then
      (if t.value.Some? then Ok(t.value.value) else Err(NotFound))
    else if key[0] !in t.children then Err(NotFound)
    else Get(t.children[key[0]], key[1..])
  }

  /** Walks `key`, creating each missing child as an empty node, and stores
      `value` at the last node. */
  function Set(t: TrieNode, key: Key, value: string): TrieNode
    decreases |key|
  {
    if |key| == 0 then t.(value := Some(value))
    else
      var child := if key[0] in t.children then t.children[key[0]] else New();
      t.(children := t.children[key[0] := Set(child, key[1..], value)])
  }

  /** Clears the value at the end of `key`. A missing child or an empty end
      node is NotFound, and then nothing changes. */
  function Delete(t: TrieNode, key: Key): (r: (TrieNode, Result<()>))
    ensures Get(t, key).Err? ==> r == (t, Err(NotFound))
    ensures Get(t, key).Ok? ==> r.1 == Ok(())
    decreases |key|
  {
    if |key| == 0 then
      (if t.value.None? then (t, Err(NotFound)) else (t.(value := None), Ok(())))
    else if key[0] !in t.children then (t, Err(NotFound))
    else
      var (child, res) := Delete(t.children[key[0]], key[1..]);
      if res.Err? then (t, res)
      else (t.(children := t.children[key[0] := child]), Ok(()))
  }

  /** Nothing to persist for an in-memory trie. */
  function Flush(t: TrieNode): (r: (TrieNode, Result<()>))
    ensures r.1 == Ok(())
    ensures forall k :: Get(r.0, k) == Get(t, k)
    ensures forall p :: HasPath(r.0, p) <==> HasPath(t, p)
  {
    (t, Ok(()))
  }

  /* ----------------------------------------------------------------------
     Set and Delete against Get and the set of paths.
     ---------------------------------------------------------------------- */

  lemma {:induction false} EmptyGet(k: Key)
    ensures Get(New(), k) == Err(NotFound)
  {
  }

  lemma {:induction false} EmptyPaths(p: Key)
    ensures HasPath(New(), p) <==> p == []
  {
  }

  /** After Set(key, value), `key` holds `value` and every other key reads
      as before. */
  lemma {:induction false} SetGet(t: TrieNode, key: Key, value: string, k: Key)
    ensures Get(Set(t, key, value), k) == if k == key then Ok(value) else Get(t, k)
    decreases |key|
  {
    if |key| > 0 && |k| > 0 && k[0] == key[0] {
      var child := if key[0] in t.children then t.children[key[0]] else New();
      SetGet(child, key[1..], value, k[1..]);
      if key[0] !in t.children {
        EmptyGet(k[1..]);
      }
      assert k == key <==> k[1..] == key[1..] by {
        assert k == [k[0]] + k[1..] && key == [key[0]] + key[1..];
      }
    }
  }

  /** Set adds exactly the prefixes of `key` as paths; existing nodes stay. */
  lemma {:induction false} SetPaths(t: TrieNode, key: Key, value: string, p: Key)
    ensures HasPath(Set(t, key, value), p) <==> HasPath(t, p) || IsPrefix(p, key)
    decreases |key|
  {
    if |key| > 0 && |p| > 0 && p[0] == key[0] {
      var child := if key[0] in t.children then t.children[key[0]] else New();
      SetPaths(child, key[1..], value, p[1..]);
      if key[0] !in t.children {
        EmptyPaths(p[1..]);
      }
      assert IsPrefix(p, key) <==> IsPrefix(p[1..], key[1..]) by {
        assert p == [p[0]] + p[1..] && key == [key[0]] + key[1..];
        if IsPrefix(p[1..], key[1..]) {
          assert key[..|p|] == [key[0]] + key[1..][..|p| - 1];
        }
        if IsPrefix(p, key) {
          assert key[1..][..|p| - 1] == key[..|p|][1..];
        }
      }
    }
  }

  /** Writing the same pair twice gives the same trie as writing it once. */
  lemma {:induction false} SetIdempotent(t: TrieNode, key: Key, value: string)
    ensures Set(Set(t, key, value), key, value) == Set(t, key, value)
    decreases |key|
  {
    if |key| > 0 {
      var child := if key[0] in t.children then t.children[key[0]] else New();
      SetIdempotent(child, key[1..], value);
    }
  }

  /** A successful Delete makes `key` absent; every other key reads as before. */
  lemma {:induction false} DeleteGet(t: TrieNode, key: Key, k: Key)
    ensures Get(Delete(t, key).0, k) == if k == key then Err(NotFound) else Get(t, k)
    decreases |key|
  {
    if |key| > 0 && key[0] in t.children && |k| > 0 && k[0] == key[0] {
      DeleteGet(t.children[key[0]], key[1..], k[1..]);
      assert k == key <==> k[1..] == key[1..] by {
        assert k == [k[0]] + k[1..] && key == [key[0]] + key[1..];
      }
    }
  }

  /** Delete removes no node: the set of paths is unchanged. */
  lemma {:induction false} DeletePaths(t: TrieNode, key: Key, p: Key)
    ensures HasPath(Delete(t, key).0, p) <==> HasPath(t, p)
    decreases |key|
  {
    if |key| > 0 && key[0] in t.children && |p| > 0 && p[0] == key[0] {
      DeletePaths(t.children[key[0]], key[1..], p[1..]);
    }
  }

  /* ----------------------------------------------------------------------
     Range.
     ---------------------------------------------------------------------- */

  /** `order(prefix)` lists the children of the node at `prefix` once each,
      in the order Go's map iteration happens to visit them. */
  predicate Enumerates(t: TrieNode, order: Key -> seq<char>, prefix: Key)
    decreases t
  {
    && NoDuplicates(order(prefix))
    && (forall c :: c in order(prefix) <==> c in t.children)
    && (forall c :: c in t.children ==> Enumerates(t.children[c], order, prefix + [c]))
  }

  /** The walk below the node `t` that sits at `prefix`: its own key first,
      then each child's subtree in `order`. */
  function Dfs(t: TrieNode, prefix: Key, start: Key, end: Key, order: Key -> seq<char>): seq<Key>
    requires Enumerates(t, order, prefix)
    decreases t, 1
  {
    (if t.value.Some? && InRange(prefix, start, end) then [prefix] else [])
    + DfsChildren(t, prefix, start, end, order, order(prefix))
  }

  function DfsChildren(t: TrieNode, prefix: Key, start: Key, end: Key, order: Key -> seq<char>,
                       cs: seq<char>): seq<Key>
    requires forall c :: c in cs ==> c in t.children && Enumerates(t.children[c], order, prefix + [c])
    decreases t, 0, |cs|
  {
    if |cs| == 0 then []
    else Dfs(t.children[cs[0]], prefix + [cs[0]], start, end, order)
         + DfsChildren(t, prefix, start, end, order, cs[1..])
  }

  /** Going one character deeper. */
  lemma Descend(t: TrieNode, k: Key, n: int)
    requires 0 <= n < |k| && k[n] in t.children
    ensures Get(t, k[n..]) == Get(t.children[k[n]], k[n + 1..])
  {
    assert k[n..][1..] == k[n + 1..];
  }

  lemma PrefixStep(k: Key, prefix: Key, c: char)
    ensures IsPrefix(prefix + [c], k) <==> IsPrefix(prefix, k) && |k| > |prefix| && k[|prefix|] == c
  {
    if IsPrefix(prefix, k) && |k| > |prefix| && k[|prefix|] == c {
      assert k[..|prefix| + 1] == k[..|prefix|] + [c];
    }
    if IsPrefix(prefix + [c], k) {
      assert k[..|prefix|] == (prefix + [c])[..|prefix|];
    }
  }

  /** The walk emits a key exactly when it is the character path to a node
      holding a value, and lies in [start, end). */
  lemma {:induction false} DfsMembers(t: TrieNode, prefix: Key, start: Key, end: Key, order: Key -> seq<char>)
    requires Enumerates(t, order, prefix)
    ensures forall k :: k in Dfs(t, prefix, start, end, order) <==>
      IsPrefix(prefix, k) && Get(t, k[|prefix|..]).Ok? && InRange(k, start, end)
    decreases t, 1
  {
    DfsChildrenMembers(t, prefix, start, end, order, order(prefix));
    forall k | IsPrefix(prefix, k) && |k| == |prefix|
      ensures k == prefix && k[|prefix|..] == []
    {
    }
    forall k | IsPrefix(prefix, k) && |k| > |prefix| && Get(t, k[|prefix|..]).Ok?
      ensures k[|prefix|] in order(prefix)
    {
      assert k[|prefix|..][0] == k[|prefix|];
    }
  }

  lemma {:induction false} DfsChildrenMembers(t: TrieNode, prefix: Key, start: Key, end: Key,
                                              order: Key -> seq<char>, cs: seq<char>)
    requires forall c :: c in cs ==> c in t.children && Enumerates(t.children[c], order, prefix + [c])
    ensures forall k :: k in DfsChildren(t, prefix, start, end, order, cs) <==>
      IsPrefix(prefix, k) && |k| > |prefix| && k[|prefix|] in cs
      && Get(t, k[|prefix|..]).Ok? && InRange(k, start, end)
    decreases t, 0, |cs|
  {
    if |cs| > 0 {
      var c := cs[0];
      DfsMembers(t.children[c], prefix + [c], start, end, order);
      DfsChildrenMembers(t, prefix, start, end, order, cs[1..]);
      forall k
        ensures IsPrefix(prefix + [c], k) <==> IsPrefix(prefix, k) && |k| > |prefix| && k[|prefix|] == c
      {
        PrefixStep(k, prefix, c);
      }
      forall k | IsPrefix(prefix, k) && |k| > |prefix| && k[|prefix|] == c
        ensures Get(t, k[|prefix|..]) == Get(t.children[c], k[|prefix + [c]|..])
      {
        Descend(t, k, |prefix|);
      }
    }
  }

  lemma NoDuplicatesAppend<T>(a: seq<T>, b: seq<T>)
    requires NoDuplicates(a) && NoDuplicates(b)
    requires forall x :: x in a ==> x !in b
    ensures NoDuplicates(a + b)
  {
    forall i, j | 0 <= i < j < |a + b|
      ensures (a + b)[i] != (a + b)[j]
    {
      if i < |a| && j >= |a| {
        assert (a + b)[i] in a && (a + b)[j] in b;
      }
    }
  }

  /** The walk emits no key twice: distinct children lead to distinct paths. */
  lemma {:induction false} DfsDistinct(t: TrieNode, prefix: Key, start: Key, end: Key, order: Key -> seq<char>)
    requires Enumerates(t, order, prefix)
    ensures NoDuplicates(Dfs(t, prefix, start, end, order))
    decreases t, 1
  {
    DfsChildrenDistinct(t, prefix, start, end, order, order(prefix));
    DfsChildrenMembers(t, prefix, start, end, order, order(prefix));
    NoDuplicatesAppend(if t.value.Some? && InRange(prefix, start, end) then [prefix] else [],
                       DfsChildren(t, prefix, start, end, order, order(prefix)));
  }

  lemma {:induction false} DfsChildrenDistinct(t: TrieNode, prefix: Key, start: Key, end: Key,
                                               order: Key -> seq<char>, cs: seq<char>)
    requires forall c :: c in cs ==> c in t.children && Enumerates(t.children[c], order, prefix + [c])
    requires NoDuplicates(cs)
    ensures NoDuplicates(DfsChildren(t, prefix, start, end, order, cs))
    decreases t, 0, |cs|
  {
    if |cs| > 0 {
      var c := cs[0];
      var first := Dfs(t.children[c], prefix + [c], start, end, order);
      var rest := DfsChildren(t, prefix, start, end, order, cs[1..]);
      DfsDistinct(t.children[c], prefix + [c], start, end, order);
      DfsChildrenDistinct(t, prefix, start, end, order, cs[1..]);
      DfsMembers(t.children[c], prefix + [c], start, end, order);
      DfsChildrenMembers(t, prefix, start, end, order, cs[1..]);
      forall k | k in first
        ensures k !in rest
      {
        PrefixStep(k, prefix, c);
        assert c !in cs[1..];
      }
      NoDuplicatesAppend(first, rest);
    }
  }

  /** Exactly the stored keys in [start, end), each once; the order is the
      map iteration order and therefore unspecified. */
  function Range(t: TrieNode, start: Key, end: Key, order: Key -> seq<char>): (r: Result<seq<Key>>)
    requires Enumerates(t, order, [])
    ensures r.Ok? && NoDuplicates(r.value)
    ensures forall k :: k in r.value <==> Get(t, k).Ok? && InRange(k, start, end)
  {
    DfsMembers(t, [], start, end, order);
    DfsDistinct(t, [], start, end, order);
    assert forall k: Key :: IsPrefix([], k) && k[0..] == k;
    Ok(Dfs(t, [], start, end, order))
  }

  /** A map iteration order that visits 'b' before 'a' at the root. */
  function BeforeA(p: Key): seq<char> {
    if p == [] then ['b', 'a'] else []
  }

  /** The trie holding "a" and "b", both with value "1". */
  function TwoKeys(): TrieNode {
    TrieNode(map['a' := Leaf(), 'b' := Leaf()], None)
  }

  function Leaf(): TrieNode {
    TrieNode(map[], Some("1"))
  }

  lemma LeafDfs(c: char)
    requires c == 'a' || c == 'b'
    ensures Enumerates(Leaf(), BeforeA, [c])
    ensures Dfs(Leaf(), [c], "a", "c", BeforeA) == [[c]]
  {
    assert BeforeA([c]) == [];
  }

  /** With a map order that visits 'b' before 'a', Range over the keys "a"
      and "b" yields ["b", "a"]: the result need not be ascending. */
  lemma RangeMayBeUnordered()
    ensures Enumerates(TwoKeys(), BeforeA, [])
    ensures Range(TwoKeys(), "a", "c", BeforeA) == Ok(["b", "a"])
  {
    var t := TwoKeys();
    LeafDfs('a');
    LeafDfs('b');
    assert [] + ['a'] == ['a'] && [] + ['b'] == ['b'];
    assert Enumerates(t, BeforeA, []);
    assert DfsChildren(t, [], "a", "c", BeforeA, ['a']) == ["a"];
    assert DfsChildren(t, [], "a", "c", BeforeA, ['b', 'a']) == ["b", "a"];
    assert Dfs(t, [], "a", "c", BeforeA) == ["b", "a"];
  }
}
