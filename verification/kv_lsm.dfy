/** LSMStore: a two-level log-structured store. Writes land in a mutable
    memtable; once it holds `threshold` keys it is sorted and merged into an
    immutable table kept strictly ascending by key. Deletion writes an
    empty-string tombstone. */
module Lsm {
  import opened KV
  import Hash

  const DefaultThreshold: int := 1000

  datatype LSMStore = LSMStore(memtable: map<Key, string>, immuTable: seq<Entry>, threshold: int)

  /** The invariant every operation keeps: the immutable table is strictly sorted. */
  predicate Valid(s: LSMStore) {
    SortedEntries(s.immuTable)
  }

  /** The logical contents: the memtable overrides the immutable table.
      A tombstone shows up as the key mapped to "". */
  function View(s: LSMStore): map<Key, string> {
    EntryMap(s.immuTable) + s.memtable
  }

  function New(): (s: LSMStore)
    ensures Valid(s) && View(s) == map[]
    ensures s.threshold == DefaultThreshold
  {
    LSMStore(map[], [], DefaultThreshold)
  }

  /* ----------------------------------------------------------------------
     mergeLSMEntries
     ---------------------------------------------------------------------- */

  /** The two-pointer merge as a recursive definition: the smaller head goes
      first, and on equal keys the entry of `b` (the newer one) is kept. */
  function Merge(a: seq<Entry>, b: seq<Entry>): seq<Entry>
    decreases |a| + |b|
  {
    if |a| == 0 then b
    else if |b| == 0 then a
    else if Less(a[0].key, b[0].key) then [a[0]] + Merge(a[1..], b)
    else if Less(b[0].key, a[0].key) then [b[0]] + Merge(a, b[1..])
    else [b[0]] + Merge(a[1..], b[1..])
  }

  /** One round of the merge loop, seen on the unmerged suffixes. */
  lemma MergeStep(a: seq<Entry>, b: seq<Entry>, i: int, j: int)
    requires 0 <= i < |a| && 0 <= j < |b|
    ensures Merge(a[i..], b[j..]) ==
      if Less(a[i].key, b[j].key) then [a[i]] + Merge(a[i + 1..], b[j..])
      else if Less(b[j].key, a[i].key) then [b[j]] + Merge(a[i..], b[j + 1..])
      else [b[j]] + Merge(a[i + 1..], b[j + 1..])
  {
    assert a[i..][1..] == a[i + 1..] && b[j..][1..] == b[j + 1..];
  }

  /** Once one side is used up, the merge is the rest of the other side. */
  lemma MergeExhausted(a: seq<Entry>, b: seq<Entry>, i: int, j: int)
    requires 0 <= i <= |a| && 0 <= j <= |b| && (i == |a| || j == |b|)
    ensures Merge(a[i..], b[j..]) == a[i..] + b[j..]
  {
    if i == |a| {
      assert a[i..] + b[j..] == b[j..];
    } else {
      assert b[j..] == [];
      assert a[i..] + b[j..] == a[i..];
    }
  }

  lemma AppendAssociative(x: seq<Entry>, y: seq<Entry>, z: seq<Entry>)
    ensures (x + y) + z == x + (y + z)
  {
  }

  /** The loop of `mergeLSMEntries`, index by index; it computes `Merge`. */
  method MergeEntries(a: seq<Entry>, b: seq<Entry>) returns (out: seq<Entry>)
    ensures out == Merge(a, b)
    ensures SortedEntries(a) && SortedEntries(b) ==>
              SortedEntries(out) && EntryMap(out) == EntryMap(a) + EntryMap(b)
  {
    out := [];
    var i, j := 0, 0;
    while i < |a| && j < |b|
      invariant 0 <= i <= |a| && 0 <= j <= |b|
      invariant out + Merge(a[i..], b[j..]) == Merge(a, b)
      decreases |a| - i + |b| - j
    {
      MergeStep(a, b, i, j);
      if Less(a[i].key, b[j].key) {
        AppendAssociative(out, [a[i]], Merge(a[i + 1..], b[j..]));
        out := out + [a[i]];
        i := i + 1;
      } else if Less(b[j].key, a[i].key) {
        AppendAssociative(out, [b[j]], Merge(a[i..], b[j + 1..]));
        out := out + [b[j]];
        j := j + 1;
      } else {
        AppendAssociative(out, [b[j]], Merge(a[i + 1..], b[j + 1..]));
        out := out + [b[j]];
        i := i + 1;
        j := j + 1;
      }
    }
    MergeExhausted(a, b, i, j);
    while i < |a|
      invariant 0 <= i <= |a|
      invariant out + (a[i..] + b[j..]) == Merge(a, b)
    {
      assert a[i..] + b[j..] == [a[i]] + (a[i + 1..] + b[j..]);
      AppendAssociative(out, [a[i]], a[i + 1..] + b[j..]);
      out := out + [a[i]];
      i := i + 1;
    }
    assert a[i..] + b[j..] == b[j..];
    while j < |b|
      invariant 0 <= j <= |b|
      invariant out + b[j..] == Merge(a, b)
    {
      assert b[j..] == [b[j]] + b[j + 1..];
      AppendAssociative(out, [b[j]], b[j + 1..]);
      out := out + [b[j]];
      j := j + 1;
    }
    assert out + b[j..] == out;
    if SortedEntries(a) && SortedEntries(b) {
      MergeSorted(a, b);
      MergeMap(a, b);
    }
  }

  lemma SortedTail(t: seq<Entry>)
    requires SortedEntries(t) && |t| > 0
    ensures SortedEntries(t[1..])
    ensures forall e :: e in t[1..] ==> Less(t[0].key, e.key)
  {
  }

  /** The merge only copies entries: each output entry comes from an input. */
  lemma {:induction false} MergeElements(a: seq<Entry>, b: seq<Entry>)
    ensures forall e :: e in Merge(a, b) ==> e in a || e in b
    decreases |a| + |b|
  {
    if |a| == 0 || |b| == 0 {
    } else if Less(a[0].key, b[0].key) {
      MergeElements(a[1..], b);
    } else if Less(b[0].key, a[0].key) {
      MergeElements(a, b[1..]);
    } else {
      MergeElements(a[1..], b[1..]);
    }
  }

  lemma MergeAbove(x: Key, a: seq<Entry>, b: seq<Entry>)
    requires SortedEntries(a) && SortedEntries(b)
    requires |a| > 0 ==> Less(x, a[0].key)
    requires |b| > 0 ==> Less(x, b[0].key)
    ensures forall e :: e in Merge(a, b) ==> Less(x, e.key)
  {
    MergeElements(a, b);
    forall e | e in Merge(a, b)
      ensures Less(x, e.key)
    {
      if e in a && e != a[0] {
        SortedTail(a);
        assert e in a[1..];
        LessTransitive(x, a[0].key, e.key);
      } else if e in b && e != b[0] {
        SortedTail(b);
        assert e in b[1..];
        LessTransitive(x, b[0].key, e.key);
      }
    }
  }

  lemma SortedCons(e: Entry, t: seq<Entry>)
    requires SortedEntries(t)
    requires forall d :: d in t ==> Less(e.key, d.key)
    ensures SortedEntries([e] + t)
  {
    forall i, j | 0 <= i < j < |[e] + t|
      ensures Less(([e] + t)[i].key, ([e] + t)[j].key)
    {
      if i == 0 {
        assert ([e] + t)[j] == t[j - 1];
      }
    }
  }

  /** Merging two strictly sorted tables yields a strictly sorted table. */
  lemma {:induction false} MergeSorted(a: seq<Entry>, b: seq<Entry>)
    requires SortedEntries(a) && SortedEntries(b)
    ensures SortedEntries(Merge(a, b))
    decreases |a| + |b|
  {
    if |a| == 0 || |b| == 0 {
    } else if Less(a[0].key, b[0].key) {
      SortedTail(a);
      MergeSorted(a[1..], b);
      MergeAbove(a[0].key, a[1..], b);
      SortedCons(a[0], Merge(a[1..], b));
    } else if Less(b[0].key, a[0].key) {
      SortedTail(b);
      MergeSorted(a, b[1..]);
      MergeAbove(b[0].key, a, b[1..]);
      SortedCons(b[0], Merge(a, b[1..]));
    } else {
      SortedTail(a);
      SortedTail(b);
      MergeSorted(a[1..], b[1..]);
      LessTotal(a[0].key, b[0].key);
      MergeAbove(b[0].key, a[1..], b[1..]);
      SortedCons(b[0], Merge(a[1..], b[1..]));
    }
  }

  lemma KeySetCons(t: seq<Entry>)
    requires |t| > 0
    ensures KeySet(t) == {t[0].key} + KeySet(t[1..])
  {
    assert forall i :: 0 < i < |t| ==> t[i].key == t[1..][i - 1].key;
  }

  lemma KeyNotInSorted(x: Key, t: seq<Entry>)
    requires SortedEntries(t)
    requires |t| > 0 ==> Less(x, t[0].key)
    ensures x !in KeySet(t)
  {
    forall i | 0 <= i < |t|
      ensures t[i].key != x
    {
      if i > 0 {
        LessTransitive(x, t[0].key, t[i].key);
      }
      LessIrreflexive(x);
    }
  }

  lemma UpdateRight(m1: map<Key, string>, m2: map<Key, string>, k: Key, v: string)
    ensures (m1 + m2)[k := v] == m1 + m2[k := v]
  {
  }

  lemma UpdateOverPresent(m1: map<Key, string>, m2: map<Key, string>, k: Key, v: string, w: string)
    ensures (m1 + m2)[k := v] == m1[k := w] + m2[k := v]
  {
  }

  /** Union with override: every key of either input survives, and on a
      shared key the value from `b` (the memtable side) wins. */
  lemma {:induction false} MergeMap(a: seq<Entry>, b: seq<Entry>)
    requires SortedEntries(a) && SortedEntries(b)
    ensures EntryMap(Merge(a, b)) == EntryMap(a) + EntryMap(b)
    decreases |a| + |b|
  {
    if |a| == 0 || |b| == 0 {
    } else if Less(a[0].key, b[0].key) {
      SortedTail(a);
      MergeMap(a[1..], b);
      EntryMapCons(a[0], Merge(a[1..], b));
      EntryMapKeys(b);
      KeyNotInSorted(a[0].key, b);
      UpdateOverAbsent(EntryMap(a[1..]), EntryMap(b), a[0].key, a[0].value);
    } else if Less(b[0].key, a[0].key) {
      SortedTail(b);
      MergeMap(a, b[1..]);
      EntryMapCons(b[0], Merge(a, b[1..]));
    } else {
      SortedTail(a);
      SortedTail(b);
      MergeMap(a[1..], b[1..]);
      LessTotal(a[0].key, b[0].key);
      EntryMapCons(b[0], Merge(a[1..], b[1..]));
      UpdateOverPresent(EntryMap(a[1..]), EntryMap(b[1..]), b[0].key, b[0].value, a[0].value);
    }
  }

  lemma IntersectWithout(x: Key, p: set<Key>, q: set<Key>)
    requires x !in q
    ensures ({x} + p) * q == p * q
  {
  }

  lemma IntersectShared(x: Key, p: set<Key>, q: set<Key>)
    requires x !in p
    ensures ({x} + p) * ({x} + q) == {x} + p * q
    ensures |({x} + p) * ({x} + q)| == 1 + |p * q|
  {
    assert x !in p * q;
  }

  /** Each shared key is written once: the output is as long as both inputs
      together, less the number of keys they have in common. */
  lemma {:induction false} MergeLength(a: seq<Entry>, b: seq<Entry>)
    requires SortedEntries(a) && SortedEntries(b)
    ensures |Merge(a, b)| == |a| + |b| - |KeySet(a) * KeySet(b)|
    decreases |a| + |b|
  {
    if |a| == 0 {
      assert KeySet(a) == {};
    } else if |b| == 0 {
      assert KeySet(b) == {};
    } else if Less(a[0].key, b[0].key) {
      SortedTail(a);
      MergeLength(a[1..], b);
      KeySetCons(a);
      KeyNotInSorted(a[0].key, b);
      IntersectWithout(a[0].key, KeySet(a[1..]), KeySet(b));
    } else if Less(b[0].key, a[0].key) {
      SortedTail(b);
      MergeLength(a, b[1..]);
      KeySetCons(b);
      KeyNotInSorted(b[0].key, a);
      IntersectWithout(b[0].key, KeySet(b[1..]), KeySet(a));
      assert KeySet(a) * KeySet(b) == KeySet(b) * KeySet(a);
      assert KeySet(a) * KeySet(b[1..]) == KeySet(b[1..]) * KeySet(a);
    } else {
      SortedTail(a);
      SortedTail(b);
      MergeLength(a[1..], b[1..]);
      LessTotal(a[0].key, b[0].key);
      KeySetCons(a);
      KeySetCons(b);
      KeyNotInSorted(a[0].key, a[1..]);
      IntersectShared(a[0].key, KeySet(a[1..]), KeySet(b[1..]));
    }
  }

  /* ----------------------------------------------------------------------
     flush
     ---------------------------------------------------------------------- */

  /** The memtable's entries sorted by key, as `flush` builds them before the
      merge. The keys of a map are distinct, so the sorted order is unique. */
  function SortedMemtable(m: map<Key, string>): (r: seq<Entry>)
    ensures SortedEntries(r)
    ensures EntryMap(r) == m
  {
    var ks := SortedKeys(m.Keys);
    var r := seq(|ks|, i requires 0 <= i < |ks| => Entry(ks[i], m[ks[i]]));
    SortedMemtableDenotes(m, ks, r);
    r
  }

  lemma SortedMemtableDenotes(m: map<Key, string>, ks: seq<Key>, r: seq<Entry>)
    requires Ascending(ks) && forall k :: k in ks <==> k in m
    requires |r| == |ks| && forall i :: 0 <= i < |ks| ==> r[i] == Entry(ks[i], m[ks[i]])
    ensures SortedEntries(r)
    ensures EntryMap(r) == m
  {
    forall k | k in m
      ensures k in EntryMap(r) && EntryMap(r)[k] == m[k]
    {
      var i :| 0 <= i < |ks| && ks[i] == k;
      EntryMapAt(r, i);
    }
    EntryMapKeys(r);
    forall k | k in EntryMap(r)
      ensures k in m
    {
      var i :| 0 <= i < |r| && r[i].key == k;
    }
  }

  /** The internal `flush`: the memtable, sorted, is merged into the table
      and then emptied; no key's lookup changes. */
  function Flush(s: LSMStore): (r: LSMStore)
    requires Valid(s)
    ensures Valid(r)
    ensures r.memtable == map[] && r.threshold == s.threshold
    ensures View(r) == View(s)
  {
    var sortedMem := SortedMemtable(s.memtable);
    MergeSorted(s.immuTable, sortedMem);
    MergeMap(s.immuTable, sortedMem);
    LSMStore(map[], Merge(s.immuTable, sortedMem), s.threshold)
  }

  /* ----------------------------------------------------------------------
     Get: memtable first, then binary search in the table
     ---------------------------------------------------------------------- */

  /** Go's `sort.Search` over `[lo, hi)` with the predicate `t[i].key >= key`:
      it halves the interval until it closes on the boundary index. */
  function Search(t: seq<Entry>, key: Key, lo: int, hi: int): (i: int)
    requires 0 <= lo <= hi <= |t|
    ensures lo <= i <= hi
    ensures lo < i ==> Less(t[i - 1].key, key)
    ensures i < hi ==> !Less(t[i].key, key)
    decreases hi - lo
  {
    if lo == hi then lo
    else
      var h := (lo + hi) / 2;
      if Less(t[h].key, key) then Search(t, key, h + 1, hi) else Search(t, key, lo, h)
  }

  /** On a strictly sorted table the search lands on the key exactly when
      the key occurs in the table. */
  lemma SearchFinds(t: seq<Entry>, key: Key)
    requires SortedEntries(t)
    ensures var i := Search(t, key, 0, |t|);
            key in KeySet(t) <==> i < |t| && t[i].key == key
  {
    BoundaryLocates(t, key, Search(t, key, 0, |t|));
  }

  /** The stored value of the key (a tombstone reads as ""), or NotFound when
      neither level holds it: the same answer as the logical map. */
  function Get(s: LSMStore, key: Key): (r: Result<string>)
    requires Valid(s)
    ensures r == Hash.Get(Hash.HashStore(View(s)), key)
    ensures key in s.memtable ==> r == Ok(s.memtable[key])
  {
    if key in s.memtable then Ok(s.memtable[key])
    else
      var i := Search(s.immuTable, key, 0, |s.immuTable|);
      SearchFinds(s.immuTable, key);
      if i < |s.immuTable| && s.immuTable[i].key == key then
        EntryMapAt(s.immuTable, i);
        Ok(s.immuTable[i].value)
      else
        EntryMapKeys(s.immuTable);
        Err(NotFound)
  }

  /** Flushing moves entries between levels without changing any lookup. */
  lemma FlushPreservesGet(s: LSMStore, key: Key)
    requires Valid(s)
    ensures Get(Flush(s), key) == Get(s, key)
  {
  }

  /* ----------------------------------------------------------------------
     Set, Delete
     ---------------------------------------------------------------------- */

  /** Writes into the memtable and flushes once the memtable has reached the
      threshold, so with a positive threshold it stays below it. */
  function Set(s: LSMStore, key: Key, value: string): (r: LSMStore)
    requires Valid(s)
    ensures Valid(r) && r.threshold == s.threshold
    ensures View(r) == View(s)[key := value]
    ensures Get(r, key) == Ok(value)
    ensures s.threshold >= 1 ==> |r.memtable| < s.threshold
    ensures (r.memtable == map[]) == (|s.memtable[key := value]| >= s.threshold)
    ensures |s.memtable[key := value]| < s.threshold ==>
      r.memtable == s.memtable[key := value] && r.immuTable == s.immuTable
  {
    var written := s.(memtable := s.memtable[key := value]);
    UpdateRight(EntryMap(s.immuTable), s.memtable, key, value);
    if |written.memtable| >= s.threshold then Flush(written) else written
  }

  /** Writes an empty-string tombstone; it never fails, and afterwards Get
      reports the key as present with value "" rather than NotFound. */
  function Delete(s: LSMStore, key: Key): (r: (LSMStore, Result<()>))
    requires Valid(s)
    ensures r.1 == Ok(())
    ensures Valid(r.0) && r.0.threshold == s.threshold
    ensures View(r.0) == View(s)[key := ""]
    ensures Get(r.0, key) == Ok("")
    ensures r.0.memtable == s.memtable[key := ""] && r.0.immuTable == s.immuTable
  {
    UpdateRight(EntryMap(s.immuTable), s.memtable, key, "");
    (s.(memtable := s.memtable[key := ""]), Ok(()))
  }

  /* ----------------------------------------------------------------------
     Range
     ---------------------------------------------------------------------- */

  /** The keys some level holds with a non-empty value, each level judged on its own. */
  function LiveKeys(s: LSMStore): set<Key> {
    (set k | k in s.memtable && s.memtable[k] != "")
    + (set i | 0 <= i < |s.immuTable| && s.immuTable[i].value != "" :: s.immuTable[i].key)
  }

  /** Every live key is present in the logical map, and every key whose
      current value is non-empty is live. */
  lemma LiveKeysBetween(s: LSMStore)
    ensures forall k :: k in LiveKeys(s) ==> k in View(s)
    ensures forall k :: k in View(s) && View(s)[k] != "" ==> k in LiveKeys(s)
  {
    EntryMapKeys(s.immuTable);
    forall k | k in View(s) && View(s)[k] != "" && k !in s.memtable
      ensures k in LiveKeys(s)
    {
      EntryMapWitness(s.immuTable, k);
      var i :| 0 <= i < |s.immuTable| && s.immuTable[i] == Entry(k, EntryMap(s.immuTable)[k]);
      assert s.immuTable[i].key == k;
    }
  }

  /** The keys in [start, end) holding a non-empty value in either level,
      ascending and each once. Each level is filtered on its own, so a
      memtable tombstone does not hide a non-empty table entry. */
  function Range(s: LSMStore, start: Key, end: Key): (r: Result<seq<Key>>)
    ensures r.Ok? && Ascending(r.value)
    ensures forall k :: k in r.value <==> InRange(k, start, end) && k in LiveKeys(s)
    ensures forall k :: k in r.value ==> k in View(s)
    ensures forall k :: InRange(k, start, end) && k in View(s) && View(s)[k] != "" ==> k in r.value
  {
    LiveKeysBetween(s);
    Ok(SortedKeys(set k | k in LiveKeys(s) && InRange(k, start, end)))
  }

  /** Documentation and code disagree: a key deleted in the memtable whose
      older table entry is non-empty is still listed by Range, although Get
      returns the tombstone "". */
  lemma RangeListsTombstonedKey()
    ensures var s := LSMStore(map["a" := ""], [Entry("a", "1")], DefaultThreshold);
            Valid(s) && Get(s, "a") == Ok("") && Range(s, "a", "b") == Ok(["a"])
  {
    var s := LSMStore(map["a" := ""], [Entry("a", "1")], DefaultThreshold);
    assert s.immuTable[0].value != "";
    assert LiveKeys(s) == {"a"};
    assert InRange("a", "a", "b");
    var r := Range(s, "a", "b").value;
    assert "a" in r;
    assert |r| == 1;
    assert r == ["a"];
  }

  /** The same for any store: deleting a key whose table entry is non-empty
      leaves the tombstone in the memtable only, so Get reads "" while Range
      over an interval holding the key still lists it. */
  lemma DeleteStillListed(s: LSMStore, key: Key, start: Key, end: Key)
    requires Valid(s) && InRange(key, start, end)
    requires key in EntryMap(s.immuTable) && EntryMap(s.immuTable)[key] != ""
    ensures Get(Delete(s, key).0, key) == Ok("")
    ensures key in Range(Delete(s, key).0, start, end).value
  {
    var d := Delete(s, key).0;
    EntryMapWitness(s.immuTable, key);
    var i :| 0 <= i < |s.immuTable| && s.immuTable[i] == Entry(key, EntryMap(s.immuTable)[key]);
    assert d.immuTable[i].value != "" && d.immuTable[i].key == key;
    assert key in LiveKeys(d);
  }
}
