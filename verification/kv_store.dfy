/** The shared vocabulary of the key-value stores: keys, the two error
    values, result wrappers, Go's byte-wise string order, and sorted key
    sequences. The error taxonomy is the store contract's; the order on keys
    is the one the ordered backends and the LSM table rely on. */
module KV {

  type Key = string

  /** The only two error values a store ever returns. */
  datatype Error = NotFound | Unsupported

  /** The `(value, error)` pair of a Go store call: exactly one side is meaningful. */
  datatype Result<T> = Ok(value: T) | Err(error: Error)

  datatype Option<T> = None | Some(value: T)

  /** One key-value pair, as kept in the LSM immutable table and the skip list. */
  datatype Entry = Entry(key: Key, value: string)

  /* ----------------------------------------------------------------------
     Go's `<` on strings: lexicographic, a proper prefix coming first.
     Characters are compared by code point, which agrees with Go's
     byte-wise comparison of the UTF-8 encodings.
     ---------------------------------------------------------------------- */

  predicate Less(a: Key, b: Key)
    decreases |a|
  {
    if |a| == 0 then |b| > 0
    else if |b| == 0 then false
    else if a[0] != b[0] then a[0] < b[0]
    else Less(a[1..], b[1..])
  }

  /** `start <= k && k < end`, the half-open interval every Range uses. */
  predicate InRange(k: Key, start: Key, end: Key) {
    !Less(k, start) && Less(k, end)
  }

  lemma {:induction false} LessIrreflexive(a: Key)
    ensures !Less(a, a)
    decreases |a|
  {
    if |a| > 0 {
      LessIrreflexive(a[1..]);
    }
  }

  lemma {:induction false} LessTransitive(a: Key, b: Key, c: Key)
    requires Less(a, b) && Less(b, c)
    ensures Less(a, c)
    decreases |a|
  {
    if |a| > 0 && a[0] == b[0] && b[0] == c[0] {
      LessTransitive(a[1..], b[1..], c[1..]);
    }
  }

  lemma {:induction false} LessTotal(a: Key, b: Key)
    ensures a == b || Less(a, b) || Less(b, a)
    decreases |a|
  {
    if |a| > 0 && |b| > 0 && a[0] == b[0] {
      LessTotal(a[1..], b[1..]);
      if a[1..] == b[1..] {
        assert a == [a[0]] + a[1..] && b == [b[0]] + b[1..];
      }
    }
  }

  lemma {:induction false} LessAsymmetric(a: Key, b: Key)
    requires Less(a, b)
    ensures !Less(b, a)
  {
    if Less(b, a) {
      LessTransitive(a, b, a);
      LessIrreflexive(a);
    }
  }

  /* ----------------------------------------------------------------------
     Sorted key sequences.
     ---------------------------------------------------------------------- */

  /** Strictly ascending: sorted and without duplicates. */
  predicate Ascending(ks: seq<Key>) {
    forall i, j :: 0 <= i < j < |ks| ==> Less(ks[i], ks[j])
  }

  predicate NoDuplicates<T(==)>(s: seq<T>) {
    forall i, j :: 0 <= i < j < |s| ==> s[i] != s[j]
  }

  lemma AscendingHasNoDuplicates(ks: seq<Key>)
    requires Ascending(ks)
    ensures NoDuplicates(ks)
  {
    forall i, j | 0 <= i < j < |ks|
      ensures ks[i] != ks[j]
    {
      LessIrreflexive(ks[i]);
    }
  }

  predicate IsMinimum(m: Key, s: set<Key>) {
    m in s && forall y :: y in s ==> !Less(y, m)
  }

  lemma {:induction false} MinimumExists(s: set<Key>)
    requires s != {}
    ensures exists m :: IsMinimum(m, s)
    decreases |s|
  {
    var x :| x in s;
    if s == {x} {
      LessIrreflexive(x);
      assert IsMinimum(x, s);
    } else {
      MinimumExists(s - {x});
      var m :| IsMinimum(m, s - {x});
      if Less(x, m) {
        forall y | y in s
          ensures !Less(y, x)
        {
          if y == x {
            LessIrreflexive(x);
          } else if Less(y, x) {
            LessTransitive(y, x, m);
          }
        }
        assert IsMinimum(x, s);
      } else {
        assert IsMinimum(m, s);
      }
    }
  }

  lemma MinimumUnique(s: set<Key>)
    ensures forall m, m' :: IsMinimum(m, s) && IsMinimum(m', s) ==> m == m'
  {
    forall m, m' | IsMinimum(m, s) && IsMinimum(m', s)
      ensures m == m'
    {
      LessTotal(m, m');
    }
  }

  lemma MinimumBelowRest(m: Key, s: set<Key>)
    requires IsMinimum(m, s)
    ensures forall y :: y in s - {m} ==> Less(m, y)
  {
    forall y | y in s - {m}
      ensures Less(m, y)
    {
      LessTotal(m, y);
    }
  }

  /** The keys of a set in ascending order; this is what Go's `sort.Strings`
      produces from a slice holding each key of the set once. */
  function SortedKeys(s: set<Key>): (r: seq<Key>)
    ensures Ascending(r)
    ensures forall k :: k in r <==> k in s
    ensures |r| == |s|
    decreases |s|
  {
    if s == {} then []
    else
      MinimumExists(s);
      MinimumUnique(s);
      var m :| IsMinimum(m, s);
      MinimumBelowRest(m, s);
      [m] + SortedKeys(s - {m})
  }

  /* ----------------------------------------------------------------------
     Entry sequences and the map they denote.
     ---------------------------------------------------------------------- */

  /** Strictly ascending by key (the LSM table and the skip list's level 0). */
  predicate SortedEntries(t: seq<Entry>) {
    forall i, j :: 0 <= i < j < |t| ==> Less(t[i].key, t[j].key)
  }

  function KeySet(t: seq<Entry>): set<Key> {
    set i | 0 <= i < |t| :: t[i].key
  }

  /** The map an entry sequence denotes; where a key repeats, its first entry counts. */
  function EntryMap(t: seq<Entry>): map<Key, string> {
    if |t| == 0 then map[] else EntryMap(t[1..])[t[0].key := t[0].value]
  }

  lemma {:induction false} EntryMapKeys(t: seq<Entry>)
    ensures EntryMap(t).Keys == KeySet(t)
  {
    if |t| > 0 {
      EntryMapKeys(t[1..]);
      assert forall i :: 0 < i < |t| ==> t[i].key == t[1..][i - 1].key;
    }
  }

  lemma {:induction false} EntryMapAt(t: seq<Entry>, i: int)
    requires SortedEntries(t) && 0 <= i < |t|
    ensures t[i].key in EntryMap(t) && EntryMap(t)[t[i].key] == t[i].value
  {
    if i > 0 {
      EntryMapAt(t[1..], i - 1);
      LessIrreflexive(t[i].key);
    }
  }

  lemma {:induction false} EntryMapWitness(t: seq<Entry>, k: Key)
    requires k in EntryMap(t)
    ensures exists i :: 0 <= i < |t| && t[i] == Entry(k, EntryMap(t)[k])
  {
    if t[0].key != k {
      EntryMapWitness(t[1..], k);
      var i :| 0 <= i < |t[1..]| && t[1..][i] == Entry(k, EntryMap(t[1..])[k]);
      assert t[i + 1] == Entry(k, EntryMap(t)[k]);
    } else {
      assert t[0] == Entry(k, EntryMap(t)[k]);
    }
  }

  /** Concatenation overrides on the left: the earlier segment's entries win. */
  lemma {:induction false} EntryMapAppend(a: seq<Entry>, b: seq<Entry>)
    ensures EntryMap(a + b) == EntryMap(b) + EntryMap(a)
  {
    if |a| > 0 {
      assert (a + b)[1..] == a[1..] + b;
      EntryMapAppend(a[1..], b);
    } else {
      assert a + b == b;
    }
  }

  /** In a strictly sorted table, a boundary index `i` (every key before it
      below `key`, none from `i` on) is where `key` sits, if it is there at all. */
  lemma BoundaryLocates(t: seq<Entry>, key: Key, i: int)
    requires SortedEntries(t) && 0 <= i <= |t|
    requires 0 < i ==> Less(t[i - 1].key, key)
    requires i < |t| ==> !Less(t[i].key, key)
    ensures key in KeySet(t) <==> i < |t| && t[i].key == key
  {
    if key in KeySet(t) {
      var p :| 0 <= p < |t| && t[p].key == key;
      LessIrreflexive(key);
      if p < i - 1 {
        LessTransitive(t[p].key, t[i - 1].key, key);
      }
    }
  }

  lemma UpdateOverAbsent(m1: map<Key, string>, m2: map<Key, string>, k: Key, v: string)
    requires k !in m2
    ensures (m1 + m2)[k := v] == m1[k := v] + m2
  {
  }

  lemma RemoveFromUnion(m1: map<Key, string>, m2: map<Key, string>, k: Key, v: string)
    requires k !in m1 && k !in m2
    ensures (m1[k := v] + m2) - {k} == m1 + m2
  {
  }

  /** Inserting an entry for a new key adds exactly that key. */
  lemma EntryMapInsert(t: seq<Entry>, p: int, e: Entry)
    requires 0 <= p <= |t| && e.key !in KeySet(t)
    ensures EntryMap(t[..p] + [e] + t[p..]) == EntryMap(t)[e.key := e.value]
  {
    var front, back := t[..p], t[p..];
    assert t == front + back;
    assert t[..p] + [e] + t[p..] == front + ([e] + back);
    EntryMapAppend(front, [e] + back);
    EntryMapAppend(front, back);
    EntryMapCons(e, back);
    EntryMapKeys(front);
    assert e.key !in KeySet(front);
    UpdateOverAbsent(EntryMap(back), EntryMap(front), e.key, e.value);
  }

  /** In a strictly sorted table a key occurs at one position only. */
  lemma SortedKeyOnce(t: seq<Entry>, p: int)
    requires SortedEntries(t) && 0 <= p < |t|
    ensures t[p].key !in KeySet(t[..p]) && t[p].key !in KeySet(t[p + 1..])
  {
    LessIrreflexive(t[p].key);
    forall i | 0 <= i < |t| && i != p
      ensures t[i].key != t[p].key
    {
    }
    assert forall i :: 0 <= i < p ==> t[..p][i] == t[i];
    assert forall i :: p + 1 <= i < |t| ==> t[p + 1..][i - p - 1] == t[i];
  }

  /** Removing the entry of a key that occurs once removes exactly that key. */
  lemma EntryMapRemove(t: seq<Entry>, p: int)
    requires SortedEntries(t) && 0 <= p < |t|
    ensures EntryMap(t[..p] + t[p + 1..]) == EntryMap(t) - {t[p].key}
  {
    SplitAt(t, p);
    SortedKeyOnce(t, p);
    EntryMapRemoveOnce(t[..p], t[p], t[p + 1..]);
  }

  lemma SplitAt(t: seq<Entry>, p: int)
    requires 0 <= p < |t|
    ensures t == t[..p] + ([t[p]] + t[p + 1..])
  {
    assert t[p..] == [t[p]] + t[p + 1..];
    assert t == t[..p] + t[p..];
  }

  lemma EntryMapRemoveOnce(front: seq<Entry>, e: Entry, back: seq<Entry>)
    requires e.key !in KeySet(front) && e.key !in KeySet(back)
    ensures EntryMap(front + back) == EntryMap(front + ([e] + back)) - {e.key}
  {
    var m1, m2 := EntryMap(back), EntryMap(front);
    EntryMapKeys(front);
    EntryMapKeys(back);
    calc {
      EntryMap(front + back);
      { EntryMapAppend(front, back); }
      m1 + m2;
      { RemoveFromUnion(m1, m2, e.key, e.value); }
      (m1[e.key := e.value] + m2) - {e.key};
      { EntryMapCons(e, back); }
      (EntryMap([e] + back) + m2) - {e.key};
      { EntryMapAppend(front, [e] + back); }
      EntryMap(front + ([e] + back)) - {e.key};
    }
  }

  /** Overwriting the value of a key in place changes only that key's value. */
  lemma EntryMapReplace(t: seq<Entry>, p: int, value: string)
    requires SortedEntries(t) && 0 <= p < |t|
    ensures EntryMap(t[p := Entry(t[p].key, value)]) == EntryMap(t)[t[p].key := value]
  {
    var k, e := t[p].key, Entry(t[p].key, value);
    var u := t[..p] + t[p + 1..];
    assert u[..p] == t[..p] && u[p..] == t[p + 1..];
    assert t[p := e] == u[..p] + [e] + u[p..];
    EntryMapRemove(t, p);
    EntryMapKeys(u);
    EntryMapInsert(u, p, e);
  }

  lemma EntryMapCons(e: Entry, t: seq<Entry>)
    ensures EntryMap([e] + t) == EntryMap(t)[e.key := e.value]
  {
    assert ([e] + t)[1..] == t;
  }

  lemma SortedInsert(t: seq<Entry>, p: int, e: Entry)
    requires SortedEntries(t) && 0 <= p <= |t|
    requires 0 < p ==> Less(t[p - 1].key, e.key)
    requires p < |t| ==> Less(e.key, t[p].key)
    ensures SortedEntries(t[..p] + [e] + t[p..])
  {
    var u := t[..p] + [e] + t[p..];
    forall i, j | 0 <= i < j < |u|
      ensures Less(u[i].key, u[j].key)
    {
      if i < p && j == p {
        if i < p - 1 {
          LessTransitive(t[i].key, t[p - 1].key, e.key);
        }
      } else if i == p && j > p {
        if j > p + 1 {
          LessTransitive(e.key, t[p].key, t[j - 1].key);
        }
      } else if i < p && j > p {
        assert u[i] == t[i] && u[j] == t[j - 1];
      }
    }
  }

  lemma SortedRemove(t: seq<Entry>, p: int)
    requires SortedEntries(t) && 0 <= p < |t|
    ensures SortedEntries(t[..p] + t[p + 1..])
  {
    var u := t[..p] + t[p + 1..];
    forall i, j | 0 <= i < j < |u|
      ensures Less(u[i].key, u[j].key)
    {
      var i' := if i < p then i else i + 1;
      var j' := if j < p then j else j + 1;
      assert u[i] == t[i'] && u[j] == t[j'];
    }
  }
}
