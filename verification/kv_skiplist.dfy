/** SkipListStore: a head sentinel and nodes with between 1 and 16 forward
    links. The nodes are kept in their level-0 order: `entries[n]` is the n-th
    node after the head and `heights[n]` the number of links it has. The head
    is position -1 and has a link on every level. A node's link on level `i`
    goes to the next node that has more than `i` links, which is what `Next`
    computes. `SpliceLinks` and `UnlinkLinks` show that the pointer rewiring
    of Set and Delete, applied along the descent's `update` trail, leaves
    every node with exactly those links. */
module SkipList {
  import opened KV
  import Hash

  const MaxLevel: int := 16

  datatype SkipListStore = SkipListStore(entries: seq<Entry>, heights: seq<int>, level: int)

  /** Level 0 is strictly ascending, every node has 1 to `level` links and
      the active level lies in [1, MaxLevel]. */
  predicate Valid(s: SkipListStore) {
    && |s.entries| == |s.heights|
    && 1 <= s.level <= MaxLevel
    && SortedEntries(s.entries)
    && forall n :: 0 <= n < |s.heights| ==> 1 <= s.heights[n] <= s.level
  }

  /** The logical contents: key to value along level 0. */
  function Abs(s: SkipListStore): map<Key, string> {
    EntryMap(s.entries)
  }

  /* ----------------------------------------------------------------------
     Links.
     ---------------------------------------------------------------------- */

  /** Where position `x`'s level-`i` link points, `|h|` standing for nil:
      the first later node with more than `i` links. */
  function Next(h: seq<int>, x: int, i: int): (n: int)
    requires -1 <= x < |h|
    ensures x < n <= |h|
    ensures n < |h| ==> h[n] > i
    ensures forall j :: x < j < n ==> h[j] <= i
    decreases |h| - x
  {
    if x + 1 == |h| || h[x + 1] > i then x + 1 else Next(h, x + 1, i)
  }

  /** The three properties of `Next` pin it down. */
  lemma NextUnique(h: seq<int>, x: int, i: int, n: int)
    requires -1 <= x < n <= |h|
    requires n < |h| ==> h[n] > i
    requires forall j :: x < j < n ==> h[j] <= i
    ensures Next(h, x, i) == n
  {
  }

  /** Each level's chain is a sub-chain of the one below: a link on level
      `i + 1` never stops short of the level-`i` link from the same node. */
  lemma NextMonotone(h: seq<int>, x: int, i: int)
    requires -1 <= x < |h|
    ensures Next(h, x, i) <= Next(h, x, i + 1)
  {
  }

  /** The level-0 link of a node is the node right after it. */
  lemma NextBottom(s: SkipListStore, x: int)
    requires Valid(s) && -1 <= x < |s.entries|
    ensures Next(s.heights, x, 0) == x + 1
  {
    NextUnique(s.heights, x, 0, x + 1);
  }

  /** The active level is no more than needed: it is 1, or some node has a
      link on the top active level. */
  predicate TopOccupied(s: SkipListStore) {
    s.level == 1 || Next(s.heights, -1, s.level - 1) < |s.heights|
  }

  /** Splicing a node of height `lvl` in at position `p`: for a predecessor
      `u` whose level-`i` link passed `p`, the new node takes over that link
      on the levels below `lvl` (and links to `u`'s old target), and on the
      other levels `u` keeps its old target, one position further on. */
  lemma InsertLinks(h: seq<int>, p: int, lvl: int, u: int, i: int)
    requires 0 <= p <= |h| && -1 <= u < p && Next(h, u, i) >= p
    ensures var h' := h[..p] + [lvl] + h[p..];
      if i < lvl then Next(h', u, i) == p && Next(h', p, i) == Next(h, u, i) + 1
      else Next(h', u, i) == Next(h, u, i) + 1
  {
    var h' := h[..p] + [lvl] + h[p..];
    var n := Next(h, u, i);
    InsertShifts(h, p, lvl);
    if i < lvl {
      NextUnique(h', u, i, p);
      NextUnique(h', p, i, n + 1);
    } else {
      NextUnique(h', u, i, n + 1);
    }
  }

  lemma InsertShifts(h: seq<int>, p: int, lvl: int)
    requires 0 <= p <= |h|
    ensures var h' := h[..p] + [lvl] + h[p..];
      && |h'| == |h| + 1 && h'[p] == lvl
      && (forall j :: 0 <= j < p ==> h'[j] == h[j])
      && (forall j :: p < j < |h'| ==> h'[j] == h[j - 1])
  {
  }

  /** Unlinking the node at position `p`: a predecessor `u` whose level-`i`
      link reaches at least `p` points at `p` exactly on the levels below
      `p`'s height, and then inherits `p`'s own link; on the other levels its
      target only moves one position back. */
  lemma RemoveLinks(h: seq<int>, p: int, u: int, i: int)
    requires 0 <= p < |h| && -1 <= u < p && Next(h, u, i) >= p
    ensures Next(h, u, i) == p <==> i < h[p]
    ensures var h' := h[..p] + h[p + 1..];
      if i < h[p] then Next(h', u, i) == Next(h, p, i) - 1
      else Next(h', u, i) == Next(h, u, i) - 1
  {
    var h' := h[..p] + h[p + 1..];
    assert forall j :: u < j < p ==> h'[j] == h[j];
    assert forall j :: p <= j < |h'| ==> h'[j] == h[j + 1];
    if i < h[p] {
      NextUnique(h, u, i, p);
      NextUnique(h', u, i, Next(h, p, i) - 1);
    } else {
      NextUnique(h', u, i, Next(h, u, i) - 1);
    }
  }

  /** The trail the descent leaves for position `p`: on each level, the head
      or a node before `p` that has a link on that level, whose link there
      reaches `p` or beyond. */
  predicate Trail(h: seq<int>, p: int, update: seq<int>) {
    && 0 <= p <= |h| && |update| == MaxLevel
    && forall l :: 0 <= l < MaxLevel ==>
      && -1 <= update[l] < p
      && (update[l] == -1 || h[update[l]] > l)
      && Next(h, update[l], l) >= p
  }

  /** Old position `n` after a node is inserted at `p`. */
  function ShiftUp(n: int, p: int): int {
    if n < p then n else n + 1
  }

  /** Old position `n`, other than `p`, after the node at `p` is removed. */
  function ShiftDown(n: int, p: int): int {
    if n < p then n else n - 1
  }

  /** Where Go's Set leaves the level-`i` link of position `u` of the new
      list: the new node at `p` takes the old link of `update[i]`, and
      `update[i]` links to the new node, on the levels below `lvl`; every
      other link keeps its old target. */
  function SplicedLink(h: seq<int>, p: int, lvl: int, update: seq<int>, u: int, i: int): int
    requires Trail(h, p, update) && 0 <= i < MaxLevel && -1 <= u <= |h|
  {
    if u == p then ShiftUp(Next(h, update[i], i), p)
    else if u < p && i < lvl && u == update[i] then p
    else ShiftUp(Next(h, if u < p then u else u - 1, i), p)
  }

  /** On a level it carries, a node before `p` other than the trail's node
      has its link stop short of `p`. */
  lemma OffTrail(h: seq<int>, p: int, update: seq<int>, u: int, i: int)
    requires Trail(h, p, update) && 0 <= i < MaxLevel
    requires -1 <= u < p && (u == -1 || h[u] > i) && u != update[i]
    requires p < |h| ==> h[p] > i
    ensures Next(h, u, i) < p
  {
  }

  /** Go's splice along a trail leaves every link of the new list where
      `Next` puts it. */
  lemma SpliceLinks(h: seq<int>, p: int, lvl: int, update: seq<int>, u: int, i: int)
    requires Trail(h, p, update) && 1 <= lvl && 0 <= i < MaxLevel
    requires -1 <= u <= |h|
    requires u == -1 || (h[..p] + [lvl] + h[p..])[u] > i
    ensures Next(h[..p] + [lvl] + h[p..], u, i) == SplicedLink(h, p, lvl, update, u, i)
  {
    if u == p {
      InsertLinks(h, p, lvl, update[i], i);
    } else if u < p {
      SpliceLinksBefore(h, p, lvl, update, u, i);
    } else {
      InsertAfter(h, p, lvl, u, i);
    }
  }

  /** Past the new node, every link is the old one moved along by one. */
  lemma InsertAfter(h: seq<int>, p: int, lvl: int, u: int, i: int)
    requires 0 <= p < u <= |h|
    ensures Next(h[..p] + [lvl] + h[p..], u, i) == Next(h, u - 1, i) + 1
  {
    InsertShifts(h, p, lvl);
    NextUnique(h[..p] + [lvl] + h[p..], u, i, Next(h, u - 1, i) + 1);
  }

  /** A link that stops short of the insertion point is not disturbed. */
  lemma InsertBefore(h: seq<int>, p: int, lvl: int, u: int, i: int)
    requires 0 <= p <= |h| && -1 <= u < p && Next(h, u, i) < p
    ensures Next(h[..p] + [lvl] + h[p..], u, i) == Next(h, u, i)
  {
    InsertShifts(h, p, lvl);
    NextUnique(h[..p] + [lvl] + h[p..], u, i, Next(h, u, i));
  }

  /** `SpliceLinks` for every link of the new list. */
  lemma SpliceLinksAll(h: seq<int>, p: int, lvl: int, update: seq<int>)
    requires Trail(h, p, update) && 1 <= lvl
    ensures var h' := h[..p] + [lvl] + h[p..];
      forall u, i | 0 <= i < MaxLevel && -1 <= u < |h'| && (u == -1 || h'[u] > i) ::
        Next(h', u, i) == SplicedLink(h, p, lvl, update, u, i)
  {
    var h' := h[..p] + [lvl] + h[p..];
    forall u, i | 0 <= i < MaxLevel && -1 <= u < |h'| && (u == -1 || h'[u] > i)
      ensures Next(h', u, i) == SplicedLink(h, p, lvl, update, u, i)
    {
      SpliceLinks(h, p, lvl, update, u, i);
    }
  }

  lemma SpliceLinksBefore(h: seq<int>, p: int, lvl: int, update: seq<int>, u: int, i: int)
    requires Trail(h, p, update) && 1 <= lvl && 0 <= i < MaxLevel
    requires -1 <= u < p && (u == -1 || h[u] > i)
    ensures Next(h[..p] + [lvl] + h[p..], u, i) == SplicedLink(h, p, lvl, update, u, i)
  {
    var n := Next(h, u, i);
    if i < lvl && u == update[i] {
      InsertLinks(h, p, lvl, u, i);
    } else if n < p {
      InsertBefore(h, p, lvl, u, i);
    } else {
      if i < lvl {
        OffTrail(h, p, update, u, i);
      }
      InsertLinks(h, p, lvl, u, i);
    }
  }

  /** Where Go's Delete leaves the level-`i` link of position `u` of the
      shortened list: on the levels the removed node at `p` had, `update[i]`
      takes over its link; every other link keeps its old target. */
  function UnlinkedLink(h: seq<int>, p: int, update: seq<int>, u: int, i: int): int
    requires Trail(h, p, update) && p < |h| && 0 <= i < MaxLevel && -1 <= u < |h| - 1
  {
    var o := if u < p then u else u + 1;
    if i < h[p] && o == update[i] then ShiftDown(Next(h, p, i), p)
    else ShiftDown(Next(h, o, i), p)
  }

  /** `UnlinkLinks` for every link of the shortened list. */
  lemma UnlinkLinksAll(h: seq<int>, p: int, update: seq<int>)
    requires Trail(h, p, update) && p < |h|
    ensures var h' := h[..p] + h[p + 1..];
      forall u, i | 0 <= i < MaxLevel && -1 <= u < |h'| && (u == -1 || h'[u] > i) ::
        Next(h', u, i) == UnlinkedLink(h, p, update, u, i)
  {
    var h' := h[..p] + h[p + 1..];
    forall u, i | 0 <= i < MaxLevel && -1 <= u < |h'| && (u == -1 || h'[u] > i)
      ensures Next(h', u, i) == UnlinkedLink(h, p, update, u, i)
    {
      UnlinkLinks(h, p, update, u, i);
    }
  }

  /** Go's unlinking along a trail leaves every link of the shortened list
      where `Next` puts it, and no link points at the removed node. */
  lemma UnlinkLinks(h: seq<int>, p: int, update: seq<int>, u: int, i: int)
    requires Trail(h, p, update) && p < |h| && 0 <= i < MaxLevel
    requires -1 <= u < |h| - 1
    requires u == -1 || (h[..p] + h[p + 1..])[u] > i
    ensures Next(h[..p] + h[p + 1..], u, i) == UnlinkedLink(h, p, update, u, i)
  {
    if u < p {
      var n := Next(h, u, i);
      RemoveShifts(h, p);
      if i < h[p] && u == update[i] {
        RemoveLinks(h, p, u, i);
      } else if n < p {
        RemoveBefore(h, p, u, i);
      } else {
        if i < h[p] {
          OffTrail(h, p, update, u, i);
        }
        RemoveLinks(h, p, u, i);
      }
    } else {
      RemoveAfter(h, p, u, i);
    }
  }

  lemma RemoveShifts(h: seq<int>, p: int)
    requires 0 <= p < |h|
    ensures var h' := h[..p] + h[p + 1..];
      && |h'| == |h| - 1
      && (forall j :: 0 <= j < p ==> h'[j] == h[j])
      && (forall j :: p <= j < |h'| ==> h'[j] == h[j + 1])
  {
  }

  /** Past the removed node, every link is the old one moved back by one. */
  lemma RemoveAfter(h: seq<int>, p: int, u: int, i: int)
    requires 0 <= p <= u < |h| - 1
    ensures Next(h[..p] + h[p + 1..], u, i) == Next(h, u + 1, i) - 1
  {
    RemoveShifts(h, p);
    NextUnique(h[..p] + h[p + 1..], u, i, Next(h, u + 1, i) - 1);
  }

  /** A link that stops short of the removed node is not disturbed. */
  lemma RemoveBefore(h: seq<int>, p: int, u: int, i: int)
    requires 0 <= p < |h| && -1 <= u < p && Next(h, u, i) < p
    ensures Next(h[..p] + h[p + 1..], u, i) == Next(h, u, i)
  {
    RemoveShifts(h, p);
    NextUnique(h[..p] + h[p + 1..], u, i, Next(h, u, i));
  }

  /* ----------------------------------------------------------------------
     Search.
     ---------------------------------------------------------------------- */

  /** The level-`i` link of `u` does not lead to a key below `key`. */
  predicate Ahead(s: SkipListStore, key: Key, u: int, i: int)
    requires Valid(s) && -1 <= u < |s.entries|
  {
    var n := Next(s.heights, u, i);
    n == |s.entries| || !Less(s.entries[n].key, key)
  }

  /** Moving `x` forward to a node below `key` keeps it short of every
      recorded predecessor's link. */
  lemma AheadPreserved(s: SkipListStore, key: Key, u: int, i: int, x: int, n: int)
    requires Valid(s) && -1 <= u <= x < n < |s.entries|
    requires Next(s.heights, u, i) > x && Ahead(s, key, u, i)
    requires Less(s.entries[n].key, key)
    ensures Next(s.heights, u, i) > n
  {
    var m := Next(s.heights, u, i);
    if m < n {
      LessTransitive(s.entries[m].key, s.entries[n].key, key);
    }
  }

  lemma NextAboveLevel(s: SkipListStore, i: int)
    requires Valid(s) && s.level <= i
    ensures Next(s.heights, -1, i) == |s.heights|
  {
    NextUnique(s.heights, -1, i, |s.heights|);
  }

  /** What the descent knows of `update[l]` once it stands at `x`. */
  predicate Recorded(s: SkipListStore, key: Key, update: seq<int>, l: int, x: int)
    requires Valid(s) && 0 <= l < |update| && -1 <= x < |s.entries|
  {
    && -1 <= update[l] <= x
    && (update[l] == -1 || s.heights[update[l]] > l)
    && Next(s.heights, update[l], l) > x
    && Ahead(s, key, update[l], l)
  }

  /** The descent shared by Set, Get, Delete and Range: from the top active
      level down, follow links while they lead to a key below `key`. `x` ends
      on the last node below `key` (or the head), and `update[i]` is the last
      node visited on level `i`, whose level-`i` link passes `x`. */
  method FindPredecessors(s: SkipListStore, key: Key) returns (x: int, update: seq<int>)
    requires Valid(s)
    ensures -1 <= x < |s.entries|
    ensures x >= 0 ==> Less(s.entries[x].key, key)
    ensures x + 1 < |s.entries| ==> !Less(s.entries[x + 1].key, key)
    ensures Trail(s.heights, x + 1, update)
  {
    update := seq(MaxLevel, _ => -1);
    x := -1;
    forall l | s.level <= l < MaxLevel
      ensures Next(s.heights, -1, l) == |s.heights|
    {
      NextAboveLevel(s, l);
    }
    var i := s.level - 1;
    while i >= 0
      invariant -1 <= i < s.level
      invariant -1 <= x < |s.entries|
      invariant x >= 0 ==> Less(s.entries[x].key, key) && s.heights[x] > i
      invariant |update| == MaxLevel
      invariant forall l :: i < l < MaxLevel ==> Recorded(s, key, update, l, x)
      invariant i == -1 ==> update[0] == x
    {
      while Next(s.heights, x, i) < |s.entries| && Less(s.entries[Next(s.heights, x, i)].key, key)
        invariant -1 <= x < |s.entries|
        invariant x >= 0 ==> Less(s.entries[x].key, key) && s.heights[x] > i
        invariant forall l :: i < l < MaxLevel ==> Recorded(s, key, update, l, x)
        decreases |s.entries| - x
      {
        var n := Next(s.heights, x, i);
        forall l | i < l < MaxLevel
          ensures Recorded(s, key, update, l, n)
        {
          assert Recorded(s, key, update, l, x);
          AheadPreserved(s, key, update[l], l, x, n);
        }
        x := n;
      }
      var recorded := update[i := x];
      forall l | i <= l < MaxLevel
        ensures Recorded(s, key, recorded, l, x)
      {
        if l > i {
          assert Recorded(s, key, update, l, x);
        }
      }
      update := recorded;
      i := i - 1;
    }
    forall l | 0 <= l < MaxLevel
      ensures -1 <= update[l] < x + 1 && (update[l] == -1 || s.heights[update[l]] > l)
      ensures Next(s.heights, update[l], l) >= x + 1
    {
      assert Recorded(s, key, update, l, x);
    }
    assert Ahead(s, key, x, 0) by {
      assert Recorded(s, key, update, 0, x);
    }
    NextBottom(s, x);
  }

  /* ----------------------------------------------------------------------
     The store operations.
     ---------------------------------------------------------------------- */

  function New(): (s: SkipListStore)
    ensures Valid(s) && TopOccupied(s)
    ensures Abs(s) == map[]
  {
    SkipListStore([], [], 1)
  }

  /** The level `randomLevel` draws: one more level for each successful
      draw, at most MaxLevel. Draw number `n` is `coin(n)`; it stands for the
      test `rand.Float64() < 0.25`. */
  function DrawnLevel(coin: nat -> bool): (lvl: int)
    ensures 1 <= lvl <= MaxLevel
    ensures forall n :: 1 <= n < lvl ==> coin(n)
    ensures lvl < MaxLevel ==> !coin(lvl)
  {
    LevelFrom(coin, 1)
  }

  /** The level reached by drawing on from level `lvl`. */
  function LevelFrom(coin: nat -> bool, lvl: int): (r: int)
    requires 1 <= lvl <= MaxLevel
    ensures lvl <= r <= MaxLevel
    ensures forall n :: lvl <= n < r ==> coin(n)
    ensures r < MaxLevel ==> !coin(r)
    decreases MaxLevel - lvl
  {
    if lvl < MaxLevel && coin(lvl) then LevelFrom(coin, lvl + 1) else lvl
  }

  /** `randomLevel`'s loop, drawing the level `DrawnLevel` describes. */
  method RandomLevel(coin: nat -> bool) returns (lvl: int)
    ensures lvl == DrawnLevel(coin)
    ensures 1 <= lvl <= MaxLevel
    ensures forall n :: 1 <= n < lvl ==> coin(n)
    ensures lvl < MaxLevel ==> !coin(lvl)
  {
    lvl := 1;
    while lvl < MaxLevel && coin(lvl)
      invariant 1 <= lvl <= MaxLevel
      invariant forall n :: 1 <= n < lvl ==> coin(n)
      invariant LevelFrom(coin, lvl) == DrawnLevel(coin)
    {
      lvl := lvl + 1;
    }
  }

  /** The value stored under `key`, exactly as the reference hash store
      holding the same pairs would answer. */
  method Get(s: SkipListStore, key: Key) returns (r: Result<string>)
    requires Valid(s)
    ensures r == Hash.Get(Hash.HashStore(Abs(s)), key)
  {
    var x, _ := FindPredecessors(s, key);
    var p := Next(s.heights, x, 0);
    NextBottom(s, x);
    BoundaryLocates(s.entries, key, p);
    EntryMapKeys(s.entries);
    if p < |s.entries| && s.entries[p].key == key {
      EntryMapAt(s.entries, p);
      r := Ok(s.entries[p].value);
    } else {
      r := Err(NotFound);
    }
  }

  /** The list with a node for `e` of height `lvl` spliced in at position
      `p`, the active level raised to `lvl` if that is higher. */
  function Splice(s: SkipListStore, p: int, e: Entry, lvl: int): SkipListStore
    requires 0 <= p <= |s.entries| && p <= |s.heights|
  {
    SkipListStore(s.entries[..p] + [e] + s.entries[p..], s.heights[..p] + [lvl] + s.heights[p..],
                  if lvl > s.level then lvl else s.level)
  }

  /** Splicing a new key in at its place in the order keeps the list valid
      and adds exactly that key. */
  lemma SpliceValid(s: SkipListStore, p: int, e: Entry, lvl: int)
    requires Valid(s) && 0 <= p <= |s.entries| && 1 <= lvl <= MaxLevel
    requires 0 < p ==> Less(s.entries[p - 1].key, e.key)
    requires p < |s.entries| ==> Less(e.key, s.entries[p].key)
    requires e.key !in KeySet(s.entries)
    ensures Valid(Splice(s, p, e, lvl))
    ensures Abs(Splice(s, p, e, lvl)) == Abs(s)[e.key := e.value]
  {
    SortedInsert(s.entries, p, e);
    EntryMapInsert(s.entries, p, e);
    var h := Splice(s, p, e, lvl).heights;
    assert forall n :: 0 <= n < p ==> h[n] == s.heights[n];
    assert forall n :: p < n < |h| ==> h[n] == s.heights[n - 1];
  }

  /** A splice never empties the top active level. */
  lemma SpliceTop(s: SkipListStore, p: int, e: Entry, lvl: int)
    requires Valid(s) && TopOccupied(s) && 0 <= p <= |s.entries| && 1 <= lvl <= MaxLevel
    ensures TopOccupied(Splice(s, p, e, lvl))
  {
    var r := Splice(s, p, e, lvl);
    var h := r.heights;
    if r.level > 1 {
      if lvl >= s.level {
        assert h[p] > r.level - 1;
      } else {
        var n := Next(s.heights, -1, s.level - 1);
        var n' := if n < p then n else n + 1;
        assert h[n'] == s.heights[n];
      }
    }
  }

  /** Everything Set needs of a splice of a new key at its place. */
  lemma SpliceNew(s: SkipListStore, p: int, e: Entry, lvl: int)
    requires Valid(s) && 0 <= p <= |s.entries| && 1 <= lvl <= MaxLevel
    requires 0 < p ==> Less(s.entries[p - 1].key, e.key)
    requires p < |s.entries| ==> Less(e.key, s.entries[p].key)
    requires e.key !in KeySet(s.entries)
    ensures Valid(Splice(s, p, e, lvl))
    ensures Abs(Splice(s, p, e, lvl)) == Abs(s)[e.key := e.value]
    ensures TopOccupied(s) ==> TopOccupied(Splice(s, p, e, lvl))
  {
    SpliceValid(s, p, e, lvl);
    if TopOccupied(s) {
      SpliceTop(s, p, e, lvl);
    }
  }

  /** Overwrites the value of a present key in place; otherwise splices in a
      node of height `RandomLevel(coin)`, raising the active level to it. */
  method Set(s: SkipListStore, key: Key, value: string, coin: nat -> bool) returns (r: SkipListStore)
    requires Valid(s)
    ensures Valid(r)
    ensures Abs(r) == Abs(s)[key := value]
    ensures key in Abs(s) ==> r.heights == s.heights && r.level == s.level && |r.entries| == |s.entries|
    ensures key in Abs(s) ==> forall n :: 0 <= n < |s.entries| ==> r.entries[n].key == s.entries[n].key
    ensures key !in Abs(s) ==> |r.entries| == |s.entries| + 1 && s.level <= r.level
    ensures key !in Abs(s) ==> exists p :: (0 <= p <= |s.entries|
      && r.entries == s.entries[..p] + [Entry(key, value)] + s.entries[p..]
      && r.heights == s.heights[..p] + [DrawnLevel(coin)] + s.heights[p..])
    ensures key !in Abs(s) ==> r.level == if DrawnLevel(coin) > s.level then DrawnLevel(coin) else s.level
    ensures TopOccupied(s) ==> TopOccupied(r)
  {
    var x, update := FindPredecessors(s, key);
    var p := x + 1;
    BoundaryLocates(s.entries, key, p);
    EntryMapKeys(s.entries);
    if p < |s.entries| && s.entries[p].key == key {
      var t := s.entries[p := Entry(key, value)];
      assert forall n :: 0 <= n < |t| ==> t[n].key == s.entries[n].key;
      EntryMapReplace(s.entries, p, value);
      r := s.(entries := t);
    } else {
      var lvl := RandomLevel(coin);
      if p < |s.entries| {
        LessTotal(key, s.entries[p].key);
      }
      SpliceNew(s, p, Entry(key, value), lvl);
      SpliceLinksAll(s.heights, p, lvl, update);
      r := Splice(s, p, Entry(key, value), lvl);
      assert r.entries == s.entries[..p] + [Entry(key, value)] + s.entries[p..];
    }
  }

  /** The list with the node at position `p` taken out of every level. */
  function Unlink(s: SkipListStore, p: int): SkipListStore
    requires 0 <= p < |s.entries| && p < |s.heights|
  {
    SkipListStore(s.entries[..p] + s.entries[p + 1..], s.heights[..p] + s.heights[p + 1..], s.level)
  }

  lemma UnlinkValid(s: SkipListStore, p: int)
    requires Valid(s) && 0 <= p < |s.entries|
    ensures Valid(Unlink(s, p))
    ensures Abs(Unlink(s, p)) == Abs(s) - {s.entries[p].key}
  {
    SortedRemove(s.entries, p);
    EntryMapRemove(s.entries, p);
    var h := Unlink(s, p).heights;
    assert forall n :: 0 <= n < p ==> h[n] == s.heights[n];
    assert forall n :: p <= n < |h| ==> h[n] == s.heights[n + 1];
  }

  /** Delete's first loop: walking up from level 0, the update trail points
      at the found node on exactly the levels the node has, so the loop
      unlinks it from all of them. */
  method UnlinkedLevels(s: SkipListStore, p: int, update: seq<int>) returns (i: int)
    requires Valid(s) && 0 <= p < |s.entries| && Trail(s.heights, p, update)
    ensures i == s.heights[p]
  {
    i := 0;
    while i < s.level && Next(s.heights, update[i], i) == p
      invariant 0 <= i <= s.heights[p]
    {
      RemoveLinks(s.heights, p, update[i], i);
      i := i + 1;
    }
    if i < s.level {
      RemoveLinks(s.heights, p, update[i], i);
    }
  }

  /** Delete's second loop: lowers the active level while its top level is
      empty, never below 1. */
  method ShrinkLevel(s: SkipListStore) returns (r: SkipListStore)
    requires Valid(s)
    ensures Valid(r) && TopOccupied(r)
    ensures r.entries == s.entries && r.heights == s.heights && r.level <= s.level
    ensures forall l :: r.level <= l < s.level ==> Next(s.heights, -1, l) == |s.heights|
  {
    var level := s.level;
    while level > 1 && Next(s.heights, -1, level - 1) == |s.heights|
      invariant 1 <= level <= s.level
      invariant forall n :: 0 <= n < |s.heights| ==> 1 <= s.heights[n] <= level
      invariant forall l :: level <= l < s.level ==> Next(s.heights, -1, l) == |s.heights|
    {
      level := level - 1;
    }
    r := s.(level := level);
  }

  /** Unlinks a present key from every level it is on and then lowers the
      active level past empty top levels; an absent key is an error and
      changes nothing. */
  method Delete(s: SkipListStore, key: Key) returns (r: SkipListStore, res: Result<()>)
    requires Valid(s)
    ensures Valid(r)
    ensures res.Ok? <==> key in Abs(s)
    ensures res.Err? ==> res.error == NotFound && r == s
    ensures res.Ok? ==> Abs(r) == Abs(s) - {key} && TopOccupied(r)
    ensures res.Ok? ==> exists p :: (0 <= p < |s.entries| && s.entries[p].key == key
      && r.entries == s.entries[..p] + s.entries[p + 1..]
      && r.heights == s.heights[..p] + s.heights[p + 1..])
    ensures res.Ok? ==> r.level <= s.level
    ensures res.Ok? ==> forall l :: r.level <= l < s.level ==> Next(r.heights, -1, l) == |r.heights|
    ensures TopOccupied(s) ==> TopOccupied(r)
  {
    var x, update := FindPredecessors(s, key);
    var p := x + 1;
    BoundaryLocates(s.entries, key, p);
    EntryMapKeys(s.entries);
    if p < |s.entries| && s.entries[p].key == key {
      var _ := UnlinkedLevels(s, p, update);
      UnlinkLinksAll(s.heights, p, update);
      UnlinkValid(s, p);
      r := ShrinkLevel(Unlink(s, p));
      res := Ok(());
    } else {
      r, res := s, Err(NotFound);
    }
  }

  /** Descends to the first key not below `start`, then walks level 0
      collecting keys while they are below `end`. */
  method Range(s: SkipListStore, start: Key, end: Key) returns (r: Result<seq<Key>>)
    requires Valid(s)
    ensures r.Ok? && Ascending(r.value)
    ensures forall k :: k in r.value <==> k in Abs(s) && InRange(k, start, end)
  {
    var x, _ := FindPredecessors(s, start);
    var lo := x + 1;
    var p := Next(s.heights, x, 0);
    NextBottom(s, x);
    var keys: seq<Key> := [];
    while p < |s.entries| && Less(s.entries[p].key, end)
      invariant lo <= p <= |s.entries|
      invariant |keys| == p - lo
      invariant forall j :: 0 <= j < |keys| ==> keys[j] == s.entries[lo + j].key
      invariant forall j :: lo <= j < p ==> Less(s.entries[j].key, end)
    {
      keys := keys + [s.entries[p].key];
      NextBottom(s, p);
      p := Next(s.heights, p, 0);
    }
    WindowKeys(s.entries, keys, start, end, lo, p);
    r := Ok(keys);
  }

  /** In a sorted table, positions `lo` to `hi` are exactly those whose key
      lies in [start, end) when `lo` is the first position not below `start`
      and `hi` the first from `lo` on that is not below `end`. */
  lemma Window(t: seq<Entry>, start: Key, end: Key, lo: int, hi: int)
    requires SortedEntries(t) && 0 <= lo <= hi <= |t|
    requires 0 < lo ==> Less(t[lo - 1].key, start)
    requires lo < |t| ==> !Less(t[lo].key, start)
    requires forall j :: lo <= j < hi ==> Less(t[j].key, end)
    requires hi < |t| ==> !Less(t[hi].key, end)
    ensures forall j :: 0 <= j < |t| ==> (lo <= j < hi <==> InRange(t[j].key, start, end))
  {
    forall j | 0 <= j < |t|
      ensures lo <= j < hi <==> InRange(t[j].key, start, end)
    {
      if j < lo - 1 {
        LessTransitive(t[j].key, t[lo - 1].key, start);
      } else if lo < j < hi {
        if Less(t[j].key, start) {
          LessTransitive(t[lo].key, t[j].key, start);
        }
      } else if hi < j {
        if Less(t[j].key, end) {
          LessTransitive(t[hi].key, t[j].key, end);
        }
      }
    }
  }

  /** The keys read off positions `lo` to `hi` of such a window are the
      table's keys in [start, end), ascending. */
  lemma WindowKeys(t: seq<Entry>, keys: seq<Key>, start: Key, end: Key, lo: int, hi: int)
    requires SortedEntries(t) && 0 <= lo <= hi <= |t|
    requires 0 < lo ==> Less(t[lo - 1].key, start)
    requires lo < |t| ==> !Less(t[lo].key, start)
    requires forall j :: lo <= j < hi ==> Less(t[j].key, end)
    requires hi < |t| ==> !Less(t[hi].key, end)
    requires |keys| == hi - lo && forall j :: 0 <= j < |keys| ==> keys[j] == t[lo + j].key
    ensures Ascending(keys)
    ensures forall k :: k in keys <==> k in EntryMap(t) && InRange(k, start, end)
  {
    Window(t, start, end, lo, hi);
    EntryMapKeys(t);
    forall k
      ensures k in keys <==> k in KeySet(t) && InRange(k, start, end)
    {
      if k in keys {
        var j :| 0 <= j < |keys| && keys[j] == k;
        assert t[lo + j].key == k;
      }
      if k in KeySet(t) && InRange(k, start, end) {
        var j :| 0 <= j < |t| && t[j].key == k;
        assert keys[j - lo] == k;
      }
    }
  }

  /** Nothing to persist for an in-memory list. */
  function Flush(s: SkipListStore): (r: (SkipListStore, Result<()>))
    ensures r.1 == Ok(())
    ensures r.0 == s
    ensures Valid(s) ==> Valid(r.0) && Abs(r.0) == Abs(s)
  {
    (s, Ok(()))
  }
}
