/**
  A `TreeMap<Character, String>` as the hub uses it: an association list
  kept in strictly ascending key order, so that iteration order, descending
  key order and size are those of the Java map.
 */
module TreeMap {
  import opened Common

  datatype Entry = Entry(key: char, value: string)

  type NodeData = seq<Entry>

  /** Keys strictly ascending, hence each key present once. */
  ghost predicate Sorted(t: NodeData) {
    forall i, j :: 0 <= i < j < |t| ==> t[i].key < t[j].key
  }

  /** `keySet()` in iteration (ascending) order. */
  function Keys(t: NodeData): (ks: seq<char>)
    ensures |ks| == |t|
    ensures forall i :: 0 <= i < |t| ==> ks[i] == t[i].key
  {
    seq(|t|, i requires 0 <= i < |t| => t[i].key)
  }

  function KeySet(t: NodeData): set<char> {
    set e | e in t :: e.key
  }

  /** `get(k)`, with `None` for an absent key. */
  function Get(t: NodeData, k: char): (r: Option<string>)
    ensures r.Some? <==> k in KeySet(t)
    ensures r.Some? ==> exists i :: 0 <= i < |t| && t[i] == Entry(k, r.value)
  {
    if |t| == 0 then None
    else if t[0].key == k then Some(t[0].value)
    else
      var r := Get(t[1..], k);
      assert KeySet(t) == {t[0].key} + KeySet(t[1..]) by {
        assert forall i :: 0 < i < |t| ==> t[i].key == t[1..][i - 1].key;
        assert forall i :: 0 <= i < |t| - 1 ==> t[1..][i].key == t[i + 1].key;
      }
      if r.Some? then
        var i :| 0 <= i < |t[1..]| && t[1..][i] == Entry(k, r.value);
        assert t[i + 1] == Entry(k, r.value);
        r
      else r
  }

  /** `put(k, v)`: insert in key order, or overwrite the value of an equal key. */
  function Put(t: NodeData, k: char, v: string): (r: NodeData)
    requires Sorted(t)
    ensures Sorted(r)
    ensures KeySet(r) == KeySet(t) + {k}
    ensures k !in KeySet(t) ==> |r| == |t| + 1
    ensures k in KeySet(t) ==> |r| == |t|
  {
    if |t| == 0 || k < t[0].key then
      PutFront(t, k, v);
      [Entry(k, v)] + t
    else if k == t[0].key then
      PutReplace(t, v);
      [Entry(k, v)] + t[1..]
    else
      SortedTail(t);
      var rest := Put(t[1..], k, v);
      PutBehind(t, k, rest);
      [t[0]] + rest
  }

  lemma PutFront(t: NodeData, k: char, v: string)
    requires Sorted(t) && (|t| == 0 || k < t[0].key)
    ensures Sorted([Entry(k, v)] + t)
    ensures KeySet([Entry(k, v)] + t) == KeySet(t) + {k}
    ensures k !in KeySet(t)
  {
    var r := [Entry(k, v)] + t;
    assert r[1..] == t;
    KeySetSplit(r);
    if |t| > 0 {
      KeySetSplit(t);
      SortedNotIn(t, k);
    }
  }

  lemma PutReplace(t: NodeData, v: string)
    requires Sorted(t) && |t| > 0
    ensures Sorted([Entry(t[0].key, v)] + t[1..])
    ensures KeySet([Entry(t[0].key, v)] + t[1..]) == KeySet(t)
  {
    var r := [Entry(t[0].key, v)] + t[1..];
    assert r[1..] == t[1..];
    KeySetSplit(t);
    KeySetSplit(r);
    SortedTail(t);
    SortedCons(r[0], t[1..]);
  }

  lemma PutBehind(t: NodeData, k: char, rest: NodeData)
    requires Sorted(t) && |t| > 0 && t[0].key < k
    requires Sorted(rest) && KeySet(rest) == KeySet(t[1..]) + {k}
    ensures Sorted([t[0]] + rest)
    ensures KeySet([t[0]] + rest) == KeySet(t) + {k}
    ensures k !in KeySet(t) <==> k !in KeySet(t[1..])
  {
    KeySetSplit(t);
    KeySetCons(t[0], rest);
    SortedTail(t);
    BoundAbove(t[0].key, k, KeySet(t[1..]), KeySet(rest));
    SortedCons(t[0], rest);
  }

  lemma KeySetCons(e: Entry, rest: NodeData)
    ensures KeySet([e] + rest) == {e.key} + KeySet(rest)
  {
    KeySetSplit([e] + rest);
    assert ([e] + rest)[1..] == rest;
  }

  /** A lower bound of a set that is also below `k` bounds the set with `k` added. */
  lemma BoundAbove(lo: char, k: char, s: set<char>, s': set<char>)
    requires lo < k && s' == s + {k}
    requires forall c :: c in s ==> lo < c
    ensures forall c :: c in s' ==> lo < c
  {
  }

  /** After `put(k, v)`, `get(k)` is `v` and every other key reads as before. */
  lemma {:induction false} PutGet(t: NodeData, k: char, v: string, k': char)
    requires Sorted(t)
    ensures Get(Put(t, k, v), k') == if k' == k then Some(v) else Get(t, k')
  {
    var r := Put(t, k, v);
    SplitKeys(r);
    if |t| > 0 {
      SplitKeys(t);
      if k > t[0].key {
        SortedTail(t);
        assert r[1..] == Put(t[1..], k, v);
        PutGet(t[1..], k, v, k');
      } else {
        assert r[1..] == (if k < t[0].key then t else t[1..]);
      }
    }
  }

  /** Overwriting an existing key keeps the key order untouched. */
  lemma {:induction false} PutExisting(t: NodeData, k: char, v: string)
    requires Sorted(t) && k in KeySet(t)
    ensures Keys(Put(t, k, v)) == Keys(t)
  {
    SplitKeys(t);
    var r := Put(t, k, v);
    if k == t[0].key {
      assert r == [Entry(k, v)] + t[1..];
      KeysCons(Entry(k, v), t[1..]);
      KeysCons(t[0], t[1..]);
      assert t == [t[0]] + t[1..];
    } else {
      SortedTail(t);
      PutExisting(t[1..], k, v);
      PutExistingStep(t, k, v);
    }
  }

  lemma PutExistingStep(t: NodeData, k: char, v: string)
    requires Sorted(t) && |t| > 0 && t[0].key < k
    requires Sorted(t[1..]) && Keys(Put(t[1..], k, v)) == Keys(t[1..])
    ensures Keys(Put(t, k, v)) == Keys(t)
  {
    PutUnfold(t, k, v);
    KeysCons(t[0], Put(t[1..], k, v));
    KeysCons(t[0], t[1..]);
    assert t == [t[0]] + t[1..];
  }

  /** A key above the first entry is put into the tail. */
  lemma PutUnfold(t: NodeData, k: char, v: string)
    requires Sorted(t) && |t| > 0 && t[0].key < k
    ensures Sorted(t[1..])
    ensures Put(t, k, v) == [t[0]] + Put(t[1..], k, v)
  {
    SortedTail(t);
  }

  lemma KeysCons(e: Entry, rest: NodeData)
    ensures Keys([e] + rest) == [e.key] + Keys(rest)
  {
  }

  /** Putting the key already at position `m` of the map rewrites that
      entry's value and leaves every other position as it was. */
  lemma {:induction false} PutAt(t: NodeData, m: int, v: string)
    requires Sorted(t) && 0 <= m < |t|
    ensures Put(t, t[m].key, v) == t[m := Entry(t[m].key, v)]
  {
    var e := Entry(t[m].key, v);
    if m > 0 {
      assert t[0].key < t[m].key;
      PutUnfold(t, t[m].key, v);
      assert t[1..][m - 1] == t[m];
      PutAt(t[1..], m - 1, v);
      ConsUpdate(t, m, e);
    } else {
      ConsUpdate(t, 0, e);
    }
  }

  /** Updating position `m` of a sequence is updating its head or its tail. */
  lemma ConsUpdate<T>(s: seq<T>, m: int, x: T)
    requires 0 <= m < |s|
    ensures m == 0 ==> [x] + s[1..] == s[m := x]
    ensures m > 0 ==> [s[0]] + s[1..][m - 1 := x] == s[m := x]
  {
  }

  /** In a sorted map, looking up the key at position `m` finds that entry. */
  lemma {:induction false} GetAt(t: NodeData, m: int)
    requires Sorted(t) && 0 <= m < |t|
    ensures Get(t, t[m].key) == Some(t[m].value)
  {
    if m > 0 {
      SortedTail(t);
      assert t[1..][m - 1] == t[m];
      GetAt(t[1..], m - 1);
      SplitKeys(t);
    }
  }

  /** `put(k, v)` adds no entry other than `(k, v)`. */
  lemma {:induction false} PutEntries(t: NodeData, k: char, v: string)
    requires Sorted(t)
    ensures forall e :: e in Put(t, k, v) ==> e in t || e == Entry(k, v)
  {
    if |t| > 0 && k > t[0].key {
      SortedTail(t);
      PutEntries(t[1..], k, v);
      assert Put(t, k, v) == [t[0]] + Put(t[1..], k, v);
      assert forall e :: e in t[1..] ==> e in t;
    } else if |t| > 0 && k == t[0].key {
      assert forall e :: e in t[1..] ==> e in t;
    }
  }

  lemma KeySetSplit(t: NodeData)
    requires |t| > 0
    ensures KeySet(t) == {t[0].key} + KeySet(t[1..])
  {
    assert t == [t[0]] + t[1..];
  }

  lemma SplitKeys(t: NodeData)
    requires |t| > 0
    ensures KeySet(t) == {t[0].key} + KeySet(t[1..])
    ensures Get(t, t[0].key) == Some(t[0].value)
    ensures forall k :: k != t[0].key ==> Get(t, k) == Get(t[1..], k)
  {
    assert forall i :: 0 < i < |t| ==> t[i].key == t[1..][i - 1].key;
    assert forall i :: 0 <= i < |t| - 1 ==> t[1..][i].key == t[i + 1].key;
  }

  lemma SortedTail(t: NodeData)
    requires Sorted(t) && |t| > 0
    ensures Sorted(t[1..])
    ensures forall c :: c in KeySet(t[1..]) ==> t[0].key < c
  {
    assert forall i :: 0 <= i < |t| - 1 ==> t[1..][i] == t[i + 1];
  }

  /** A key below the smallest key is absent. */
  lemma SortedNotIn(t: NodeData, k: char)
    requires Sorted(t) && |t| > 0 && k <= t[0].key
    ensures k !in KeySet(t[1..])
  {
    SortedTail(t);
  }

  lemma SortedCons(e: Entry, rest: NodeData)
    requires Sorted(rest)
    requires forall c :: c in KeySet(rest) ==> e.key < c
    ensures Sorted([e] + rest)
  {
    var r := [e] + rest;
    forall i, j | 0 <= i < j < |r| ensures r[i].key < r[j].key {
      if i == 0 {
        assert r[j].key == rest[j - 1].key;
        assert rest[j - 1].key in KeySet(rest);
      } else {
        assert r[i] == rest[i - 1] && r[j] == rest[j - 1];
      }
    }
  }

  /** In a sorted map the number of entries is the number of keys. */
  lemma {:induction false} SortedSize(t: NodeData)
    requires Sorted(t)
    ensures |KeySet(t)| == |t|
  {
    if |t| > 0 {
      SplitKeys(t);
      SortedSize(t[1..]);
      assert forall i :: 0 <= i < |t| - 1 ==> t[1..][i].key == t[i + 1].key && t[i + 1].key > t[0].key;
      assert t[0].key !in KeySet(t[1..]);
    }
  }

  /** `descendingKeySet()`: every key exactly once, largest first. */
  function Descending(t: NodeData): (ds: seq<char>)
    requires Sorted(t)
    ensures |ds| == |t|
    ensures forall i :: 0 <= i < |t| ==> ds[i] == t[|t| - 1 - i].key
    ensures forall i, j :: 0 <= i < j < |ds| ==> ds[i] > ds[j]
    ensures forall c :: c in ds <==> c in KeySet(t)
  {
    var ds := Reverse(Keys(t));
    assert forall i :: 0 <= i < |ds| ==> ds[i] == t[|t| - 1 - i].key;
    assert forall c :: c in KeySet(t) ==> c in ds by {
      forall c | c in KeySet(t) ensures c in ds {
        var i :| 0 <= i < |t| && t[i].key == c;
        assert ds[|t| - 1 - i] == c;
      }
    }
    ds
  }
}
