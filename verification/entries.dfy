/** Entry sequences, the abstract map they denote, and the sorted insertion that
    both search trees refine. Every engine is judged against these definitions. */
module Entries {

  datatype Option<+T> = None | Some(value: T)

  /** The keys occurring in a sequence of (key, value) entries. */
  function KeysOf<V>(s: seq<(int, V)>): set<int>
  {
    if |s| == 0 then {} else {s[0].0} + KeysOf(s[1..])
  }

  lemma {:induction false} KeysOfIndex<V>(s: seq<(int, V)>, k: int)
    ensures k in KeysOf(s) <==> exists i :: 0 <= i < |s| && s[i].0 == k
  {
    if |s| > 0 {
      KeysOfIndex(s[1..], k);
      if k in KeysOf(s[1..]) {
        var i :| 0 <= i < |s[1..]| && s[1..][i].0 == k;
        assert s[i + 1].0 == k;
      }
      if exists i :: 0 <= i < |s| && s[i].0 == k {
        var i :| 0 <= i < |s| && s[i].0 == k;
        if i > 0 {
          assert s[1..][i - 1].0 == k;
        }
      }
    }
  }

  lemma KeysOfAppend<V>(a: seq<(int, V)>, b: seq<(int, V)>)
    ensures KeysOf(a + b) == KeysOf(a) + KeysOf(b)
  {
    if |a| > 0 {
      assert (a + b)[1..] == a[1..] + b;
      KeysOfAppend(a[1..], b);
    } else {
      assert a + b == b;
    }
  }

  /** No key occurs twice. */
  ghost predicate UniqueKeys<V>(s: seq<(int, V)>)
  {
    forall i, j :: 0 <= i < j < |s| ==> s[i].0 != s[j].0
  }

  /** Keys strictly increase along the sequence. */
  ghost predicate Ascending<V>(s: seq<(int, V)>)
  {
    forall i, j :: 0 <= i < j < |s| ==> s[i].0 < s[j].0
  }

  /** Every key of `s` is below `bound`. */
  ghost predicate Below<V>(s: seq<(int, V)>, bound: int)
  {
    forall i :: 0 <= i < |s| ==> s[i].0 < bound
  }

  /** Every key of `s` is above `bound`. */
  ghost predicate Above<V>(s: seq<(int, V)>, bound: int)
  {
    forall i :: 0 <= i < |s| ==> bound < s[i].0
  }

  /** hash_function of both hash tables: the home chain or the first probed slot of a
      key in a table of `n` places, from a hash the caller supplies. */
  function Home(hash: int -> nat, k: int, n: int): (i: int)
    requires n > 0
    ensures 0 <= i < n
  {
    hash(k) % n
  }

  /** The value of the first entry whose key is `k`, the way a linear scan finds it. */
  function Find<V>(s: seq<(int, V)>, k: int): (r: Option<V>)
    ensures r.Some? <==> k in KeysOf(s)
    ensures r.Some? ==> (k, r.value) in s
  {
    if |s| == 0 then None
    else if s[0].0 == k then Some(s[0].1)
    else
      var r := Find(s[1..], k);
      assert r.Some? ==> (k, r.value) in s[1..];
      r
  }

  /** The map a sequence of entries denotes; where a key repeats, the first entry wins. */
  ghost function ToMap<V>(s: seq<(int, V)>): (m: map<int, V>)
    ensures m.Keys == KeysOf(s)
  {
    map k | k in KeysOf(s) :: Find(s, k).value
  }

  function Get<V>(m: map<int, V>, k: int): Option<V>
  {
    if k in m then Some(m[k]) else None
  }

  lemma GetToMap<V>(s: seq<(int, V)>, k: int)
    ensures Get(ToMap(s), k) == Find(s, k)
  {
  }

  /** Two maps agreeing on every lookup are equal. */
  lemma MapExt<V>(m1: map<int, V>, m2: map<int, V>)
    requires forall k :: Get(m1, k) == Get(m2, k)
    ensures m1 == m2
  {
    forall k
      ensures k in m1 <==> k in m2
      ensures k in m1 ==> m1[k] == m2[k]
    {
      assert Get(m1, k) == Get(m2, k);
    }
  }

  lemma {:induction false} FindAppend<V>(a: seq<(int, V)>, b: seq<(int, V)>, k: int)
    ensures Find(a + b, k) == if Find(a, k).Some? then Find(a, k) else Find(b, k)
  {
    if |a| == 0 {
      assert a + b == b;
    } else {
      assert (a + b)[1..] == a[1..] + b;
      FindAppend(a[1..], b, k);
    }
  }

  /** Lookup in a sequence split around one entry. */
  lemma FindSplit<V>(a: seq<(int, V)>, x: (int, V), b: seq<(int, V)>, k: int)
    ensures Find(a + [x] + b, k) ==
      if Find(a, k).Some? then Find(a, k) else if x.0 == k then Some(x.1) else Find(b, k)
    ensures KeysOf(a + [x] + b) == KeysOf(a) + {x.0} + KeysOf(b)
  {
    FindAppend(a + [x], b, k);
    FindAppend(a, [x], k);
    KeysOfAppend(a + [x], b);
    KeysOfAppend(a, [x]);
  }

  lemma BelowByKeys<V>(a: seq<(int, V)>, b: seq<(int, V)>, bound: int)
    requires KeysOf(a) == KeysOf(b)
    requires Below(b, bound)
    ensures Below(a, bound)
  {
    forall i | 0 <= i < |a| ensures a[i].0 < bound {
      KeysOfIndex(a, a[i].0);
      KeysOfIndex(b, a[i].0);
    }
  }

  lemma AboveByKeys<V>(a: seq<(int, V)>, b: seq<(int, V)>, bound: int)
    requires KeysOf(a) == KeysOf(b)
    requires Above(b, bound)
    ensures Above(a, bound)
  {
    forall i | 0 <= i < |a| ensures bound < a[i].0 {
      KeysOfIndex(a, a[i].0);
      KeysOfIndex(b, a[i].0);
    }
  }

  /** Updating the map of one part of a split sequence updates the map of the whole,
      provided no earlier part already holds the key. */
  lemma SplitUpdate<V>(a: seq<(int, V)>, a': seq<(int, V)>, x: (int, V), b: seq<(int, V)>,
                       b': seq<(int, V)>, x': (int, V), k: int, v: V)
    requires x'.0 == x.0
    requires (ToMap(a') == ToMap(a)[k := v] && k in KeysOf(a) && x' == x && b' == b)
          || (a' == a && k !in KeysOf(a) && x.0 == k && x' == (k, v) && b' == b)
          || (a' == a && k !in KeysOf(a) && x.0 != k && x' == x && ToMap(b') == ToMap(b)[k := v])
    ensures ToMap(a' + [x'] + b') == ToMap(a + [x] + b)[k := v]
  {
    forall k' ensures Get(ToMap(a' + [x'] + b'), k') == Get(ToMap(a + [x] + b)[k := v], k') {
      FindSplit(a, x, b, k');
      FindSplit(a', x', b', k');
      GetToMap(a, k');
      GetToMap(a', k');
      GetToMap(b, k');
      GetToMap(b', k');
      GetToMap(a + [x] + b, k');
      GetToMap(a' + [x'] + b', k');
    }
    MapExt(ToMap(a' + [x'] + b'), ToMap(a + [x] + b)[k := v]);
  }

  /** Lookup in an ascending sequence split around one entry goes to the part the
      key's order selects, the way a search tree descends. */
  lemma AscendingFind<V>(a: seq<(int, V)>, x: (int, V), b: seq<(int, V)>, k: int)
    requires Ascending(a + [x] + b)
    ensures Ascending(a) && Ascending(b)
    ensures Get(ToMap(a + [x] + b), k) ==
      if k < x.0 then Get(ToMap(a), k) else if x.0 < k then Get(ToMap(b), k) else Some(x.1)
  {
    AscendingSplit(a, x, b);
    FindSplit(a, x, b, k);
    GetToMap(a + [x] + b, k);
    GetToMap(a, k);
    GetToMap(b, k);
    if x.0 <= k {
      BelowKeys(a, x.0, k);
    }
    if k <= x.0 {
      AboveKeys(b, x.0, k);
    }
  }

  /** Updating one part of an ascending sequence split around an entry, without
      changing any part's keys, keeps it ascending and updates its map at `k`. */
  lemma AscendingUpdate<V>(a: seq<(int, V)>, a': seq<(int, V)>, x: (int, V), b: seq<(int, V)>,
                           b': seq<(int, V)>, x': (int, V), k: int, v: V)
    requires Ascending(a + [x] + b)
    requires Ascending(a') && Ascending(b')
    requires KeysOf(a') == KeysOf(a) && KeysOf(b') == KeysOf(b) && x'.0 == x.0
    requires (ToMap(a') == ToMap(a)[k := v] && k in KeysOf(a) && x' == x && b' == b)
          || (a' == a && k !in KeysOf(a) && x.0 == k && x' == (k, v) && b' == b)
          || (a' == a && k !in KeysOf(a) && x.0 != k && x' == x && ToMap(b') == ToMap(b)[k := v])
    ensures Ascending(a' + [x'] + b')
    ensures ToMap(a' + [x'] + b') == ToMap(a + [x] + b)[k := v]
  {
    AscendingSplit(a, x, b);
    BelowByKeys(a', a, x.0);
    AboveByKeys(b', b, x.0);
    AscendingSplit(a', x', b');
    SplitUpdate(a, a', x, b, b', x', k, v);
  }

  /** With unique keys, every entry is what a lookup of its key returns. */
  lemma {:induction false} FindUnique<V>(s: seq<(int, V)>, i: int)
    requires UniqueKeys(s)
    requires 0 <= i < |s|
    ensures Find(s, s[i].0) == Some(s[i].1)
  {
    if i > 0 {
      assert s[0].0 != s[i].0;
      assert s[1..][i - 1] == s[i];
      FindUnique(s[1..], i - 1);
    }
  }

  lemma AscendingUnique<V>(s: seq<(int, V)>)
    requires Ascending(s)
    ensures UniqueKeys(s)
  {
  }

  /** Concatenation regrouped. */
  lemma Assoc<T>(a: seq<T>, b: seq<T>, c: seq<T>)
    ensures a + b + c == a + (b + c)
  {
  }

  /** An ascending sequence split around one entry: everything before is smaller,
      everything after is larger. */
  lemma AscendingSplit<V>(a: seq<(int, V)>, x: (int, V), b: seq<(int, V)>)
    ensures Ascending(a + [x] + b) <==>
      Ascending(a) && Ascending(b) && Below(a, x.0) && Above(b, x.0)
  {
    if Ascending(a) && Ascending(b) && Below(a, x.0) && Above(b, x.0) {
      AscendingJoin(a, x, b);
    }
    if Ascending(a + [x] + b) {
      AscendingParts(a, x, b);
    }
  }

  lemma AscendingJoin<V>(a: seq<(int, V)>, x: (int, V), b: seq<(int, V)>)
    requires Ascending(a) && Ascending(b) && Below(a, x.0) && Above(b, x.0)
    ensures Ascending(a + [x] + b)
  {
    var s := a + [x] + b;
    forall i, j | 0 <= i < j < |s|
      ensures s[i].0 < s[j].0
    {
      if j < |a| {
        assert s[i] == a[i] && s[j] == a[j];
      } else if j == |a| {
        assert s[i] == a[i] && s[j] == x;
      } else if i < |a| {
        assert s[i] == a[i] && s[j] == b[j - |a| - 1];
      } else if i == |a| {
        assert s[i] == x && s[j] == b[j - |a| - 1];
      } else {
        assert s[i] == b[i - |a| - 1] && s[j] == b[j - |a| - 1];
      }
    }
  }

  lemma AscendingParts<V>(a: seq<(int, V)>, x: (int, V), b: seq<(int, V)>)
    requires Ascending(a + [x] + b)
    ensures Ascending(a) && Ascending(b) && Below(a, x.0) && Above(b, x.0)
  {
    var s := a + [x] + b;
    forall i, j | 0 <= i < j < |a|
      ensures a[i].0 < a[j].0
    {
      assert s[i] == a[i] && s[j] == a[j];
    }
    forall i | 0 <= i < |a|
      ensures a[i].0 < x.0
    {
      assert s[i] == a[i] && s[|a|] == x;
    }
    forall i, j | 0 <= i < j < |b|
      ensures b[i].0 < b[j].0
    {
      assert s[|a| + 1 + i] == b[i] && s[|a| + 1 + j] == b[j];
    }
    forall i | 0 <= i < |b|
      ensures x.0 < b[i].0
    {
      assert s[|a|] == x && s[|a| + 1 + i] == b[i];
    }
  }

  lemma BelowKeys<V>(s: seq<(int, V)>, bound: int, k: int)
    requires Below(s, bound)
    requires bound <= k
    ensures k !in KeysOf(s)
  {
    KeysOfIndex(s, k);
  }

  lemma AboveKeys<V>(s: seq<(int, V)>, bound: int, k: int)
    requires Above(s, bound)
    requires k <= bound
    ensures k !in KeysOf(s)
  {
    KeysOfIndex(s, k);
  }

  /** The reference insertion into an ascending sequence: `(k, v)` goes in front of
      the first larger key, and nothing changes when `k` is already present
      (first write wins). */
  function SortedInsert<V>(s: seq<(int, V)>, k: int, v: V): seq<(int, V)>
  {
    if |s| == 0 then [(k, v)]
    else if k < s[0].0 then [(k, v)] + s
    else if k == s[0].0 then s
    else [s[0]] + SortedInsert(s[1..], k, v)
  }

  /** Sorted insertion adds no entry other than `(k, v)`. */
  lemma {:induction false} SortedInsertElems<V>(s: seq<(int, V)>, k: int, v: V)
    ensures forall x :: x in SortedInsert(s, k, v) ==> x in s || x == (k, v)
    ensures KeysOf(SortedInsert(s, k, v)) == KeysOf(s) + {k}
  {
    if |s| == 0 {
    } else if k < s[0].0 {
      assert ([(k, v)] + s)[1..] == s;
    } else if k == s[0].0 {
    } else {
      SortedInsertElems(s[1..], k, v);
      assert ([s[0]] + SortedInsert(s[1..], k, v))[1..] == SortedInsert(s[1..], k, v);
      forall x | x in SortedInsert(s, k, v)
        ensures x in s || x == (k, v)
      {
        if x != s[0] {
          assert x in SortedInsert(s[1..], k, v);
        }
      }
    }
  }

  /** Sorted insertion keeps the sequence ascending and adds exactly `k` to its keys. */
  lemma {:induction false} SortedInsertAscending<V>(s: seq<(int, V)>, k: int, v: V)
    requires Ascending(s)
    ensures Ascending(SortedInsert(s, k, v))
    ensures KeysOf(SortedInsert(s, k, v)) == KeysOf(s) + {k}
  {
    SortedInsertElems(s, k, v);
    if |s| == 0 {
    } else if k < s[0].0 {
      ConsAscending((k, v), s);
    } else if k == s[0].0 {
    } else {
      assert Ascending(s[1..]);
      SortedInsertAscending(s[1..], k, v);
      InsertAbove(s, k, v);
      ConsAscending(s[0], SortedInsert(s[1..], k, v));
    }
  }

  lemma ConsAscending<V>(x: (int, V), r: seq<(int, V)>)
    requires Ascending(r) && Above(r, x.0)
    ensures Ascending([x] + r)
  {
    AscendingJoin([], x, r);
    assert [x] + r == [] + [x] + r;
  }

  /** What sorted insertion places after the head of an ascending sequence stays
      above the head's key. */
  lemma InsertAbove<V>(s: seq<(int, V)>, k: int, v: V)
    requires Ascending(s) && |s| > 0 && s[0].0 < k
    ensures Above(SortedInsert(s[1..], k, v), s[0].0)
  {
    var rest := SortedInsert(s[1..], k, v);
    SortedInsertElems(s[1..], k, v);
    forall i | 0 <= i < |rest|
      ensures s[0].0 < rest[i].0
    {
      assert rest[i] in rest;
      if rest[i] != (k, v) {
        assert rest[i] in s[1..];
        var j :| 0 <= j < |s[1..]| && s[1..][j] == rest[i];
        assert s[j + 1] == rest[i];
      }
    }
  }

  /** Lookups after a sorted insertion: `k` maps to `v` only if it was absent. */
  lemma {:induction false} SortedInsertFind<V>(s: seq<(int, V)>, k: int, v: V, k': int)
    requires Ascending(s)
    ensures Find(SortedInsert(s, k, v), k') ==
      if k' == k && Find(s, k).None? then Some(v) else Find(s, k')
  {
    if |s| == 0 {
    } else if k < s[0].0 {
      if k' == k {
        AscendingSplit([], s[0], s[1..]);
        assert s == [] + [s[0]] + s[1..];
        AboveKeys(s[1..], s[0].0, k);
      }
    } else if k == s[0].0 {
    } else {
      assert ([s[0]] + SortedInsert(s[1..], k, v))[1..] == SortedInsert(s[1..], k, v);
      SortedInsertFind(s[1..], k, v, k');
    }
  }

  /** The map-level meaning of sorted insertion. */
  lemma SortedInsertMap<V>(s: seq<(int, V)>, k: int, v: V)
    requires Ascending(s)
    ensures ToMap(SortedInsert(s, k, v)) ==
      if k in ToMap(s) then ToMap(s) else ToMap(s)[k := v]
  {
    var m := if k in ToMap(s) then ToMap(s) else ToMap(s)[k := v];
    forall k' ensures Get(ToMap(SortedInsert(s, k, v)), k') == Get(m, k') {
      SortedInsertFind(s, k, v, k');
      GetToMap(SortedInsert(s, k, v), k');
      GetToMap(s, k');
    }
    MapExt(ToMap(SortedInsert(s, k, v)), m);
  }

  /** Inserting a key smaller than everything in `b` does not reach into `b`. */
  lemma {:induction false} SortedInsertPrefix<V>(a: seq<(int, V)>, b: seq<(int, V)>, k: int, v: V)
    requires |b| > 0 && k < b[0].0
    ensures SortedInsert(a + b, k, v) == SortedInsert(a, k, v) + b
  {
    if |a| == 0 {
      assert a + b == b;
    } else {
      assert (a + b)[0] == a[0];
      assert (a + b)[1..] == a[1..] + b;
      SortedInsertPrefix(a[1..], b, k, v);
    }
  }

  /** Inserting a key larger than everything in `a` leaves `a` in front. */
  lemma {:induction false} SortedInsertSuffix<V>(a: seq<(int, V)>, b: seq<(int, V)>, k: int, v: V)
    requires Below(a, k)
    ensures SortedInsert(a + b, k, v) == a + SortedInsert(b, k, v)
  {
    if |a| == 0 {
      assert a + b == b;
    } else {
      assert (a + b)[0] == a[0];
      assert (a + b)[1..] == a[1..] + b;
      SortedInsertSuffix(a[1..], b, k, v);
      assert a == [a[0]] + a[1..];
    }
  }

  /** Sorted insertion of a key already present changes nothing. */
  lemma {:induction false} SortedInsertPresent<V>(s: seq<(int, V)>, k: int, v: V)
    requires Ascending(s)
    requires k in KeysOf(s)
    ensures SortedInsert(s, k, v) == s
  {
    if |s| > 0 && s[0].0 != k {
      if k < s[0].0 {
        AscendingSplit([], s[0], s[1..]);
        assert s == [] + [s[0]] + s[1..];
        AboveKeys(s[1..], s[0].0, k);
        assert false;
      }
      SortedInsertPresent(s[1..], k, v);
      assert s == [s[0]] + s[1..];
    }
  }

  /** Lookup after overwriting the value of the first entry holding a key. */
  lemma FindReplace<V>(s: seq<(int, V)>, j: int, v: V, k: int)
    requires 0 <= j < |s|
    requires s[j].0 !in KeysOf(s[..j])
    ensures Find(s[j := (s[j].0, v)], k) == if k == s[j].0 then Some(v) else Find(s, k)
    ensures KeysOf(s[j := (s[j].0, v)]) == KeysOf(s)
    ensures UniqueKeys(s) ==> UniqueKeys(s[j := (s[j].0, v)])
  {
    var x := (s[j].0, v);
    assert s == s[..j] + [s[j]] + s[j + 1..];
    assert s[j := x] == s[..j] + [x] + s[j + 1..];
    FindSplit(s[..j], s[j], s[j + 1..], k);
    FindSplit(s[..j], x, s[j + 1..], k);
  }

  /** Lookup after appending an entry for an absent key. */
  lemma FindAppendNew<V>(s: seq<(int, V)>, k0: int, v: V, k: int)
    requires k0 !in KeysOf(s)
    ensures Find(s + [(k0, v)], k) == if k == k0 then Some(v) else Find(s, k)
    ensures KeysOf(s + [(k0, v)]) == KeysOf(s) + {k0}
    ensures UniqueKeys(s) ==> UniqueKeys(s + [(k0, v)])
  {
    FindAppend(s, [(k0, v)], k);
    KeysOfAppend(s, [(k0, v)]);
    KeysOfIndex(s, k0);
  }

  /** Lookup after erasing one entry of a sequence with unique keys. */
  lemma FindRemove<V>(s: seq<(int, V)>, j: int, k: int)
    requires UniqueKeys(s)
    requires 0 <= j < |s|
    ensures Find(s[..j] + s[j + 1..], k) == if k == s[j].0 then None else Find(s, k)
    ensures KeysOf(s[..j] + s[j + 1..]) == KeysOf(s) - {s[j].0}
    ensures UniqueKeys(s[..j] + s[j + 1..])
  {
    var a, x, b := s[..j], s[j], s[j + 1..];
    assert s == a + [x] + b;
    UniqueSplit(a + [x], b);
    UniqueSplit(a, [x]);
    KeysOfAppend(a, [x]);
    assert KeysOf([x]) == {x.0};
    UniqueSplit(a, b);
    FindSplit(a, x, b, k);
    FindAppend(a, b, k);
    KeysOfAppend(a, b);
  }

  /** Joining two sequences with unique keys and no key in common. */
  lemma UniqueAppend<V>(a: seq<(int, V)>, b: seq<(int, V)>)
    requires UniqueKeys(a) && UniqueKeys(b)
    requires KeysOf(a) !! KeysOf(b)
    ensures UniqueKeys(a + b)
  {
    var s := a + b;
    forall i, j | 0 <= i < j < |s| ensures s[i].0 != s[j].0 {
      if i < |a| <= j {
        KeysOfIndex(a, s[i].0);
        KeysOfIndex(b, s[j].0);
        assert s[j] == b[j - |a|];
      } else if |a| <= i {
        assert s[i] == b[i - |a|] && s[j] == b[j - |a|];
      }
    }
  }

  /** With unique keys, an entry occurs exactly when lookup of its key returns its value. */
  lemma UniqueMember<V>(s: seq<(int, V)>, k: int, v: V)
    requires UniqueKeys(s)
    ensures (k, v) in s <==> Find(s, k) == Some(v)
  {
    if (k, v) in s {
      var i :| 0 <= i < |s| && s[i] == (k, v);
      FindUnique(s, i);
    }
  }

  /** Two parts have unique keys together exactly when each does and no key is in both. */
  lemma UniqueSplit<V>(a: seq<(int, V)>, b: seq<(int, V)>)
    ensures UniqueKeys(a + b) <==> UniqueKeys(a) && UniqueKeys(b) && KeysOf(a) !! KeysOf(b)
  {
    if UniqueKeys(a) && UniqueKeys(b) && KeysOf(a) !! KeysOf(b) {
      UniqueAppend(a, b);
    }
    if UniqueKeys(a + b) {
      var s := a + b;
      forall i, j | 0 <= i < j < |b| ensures b[i].0 != b[j].0 {
        assert s[|a| + i] == b[i] && s[|a| + j] == b[j];
      }
      forall i, j | 0 <= i < j < |a| ensures a[i].0 != a[j].0 {
        assert s[i] == a[i] && s[j] == a[j];
      }
      forall i, j | 0 <= i < |a| && 0 <= j < |b| ensures a[i].0 != b[j].0 {
        assert s[i] == a[i] && s[|a| + j] == b[j];
      }
      forall k | k in KeysOf(a) ensures k !in KeysOf(b) {
        KeysOfIndex(a, k);
        KeysOfIndex(b, k);
      }
    }
  }

  /** Lookup after inserting an entry for an absent key between two parts. */
  lemma FindInsert<V>(a: seq<(int, V)>, x: (int, V), b: seq<(int, V)>, k: int)
    requires x.0 !in KeysOf(a + b)
    ensures Find(a + [x] + b, k) == if k == x.0 then Some(x.1) else Find(a + b, k)
    ensures KeysOf(a + [x] + b) == KeysOf(a + b) + {x.0}
  {
    FindSplit(a, x, b, k);
    FindAppend(a, b, k);
    KeysOfAppend(a, b);
  }

  /** Sequences with unique keys and the same entries denote the same map. */
  lemma UniqueSameMap<V>(a: seq<(int, V)>, b: seq<(int, V)>)
    requires UniqueKeys(a) && UniqueKeys(b)
    requires multiset(a) == multiset(b)
    ensures ToMap(a) == ToMap(b)
  {
    forall k ensures Get(ToMap(a), k) == Get(ToMap(b), k) {
      GetToMap(a, k);
      GetToMap(b, k);
      if Find(a, k).Some? {
        UniqueMember(a, k, Find(a, k).value);
        assert (k, Find(a, k).value) in multiset(b);
        UniqueMember(b, k, Find(a, k).value);
      } else if Find(b, k).Some? {
        UniqueMember(b, k, Find(b, k).value);
        assert (k, Find(b, k).value) in multiset(a);
        UniqueMember(a, k, Find(b, k).value);
      }
    }
    MapExt(ToMap(a), ToMap(b));
  }

  /** Inserting an entry for an absent key between two parts adds that key to the map. */
  lemma InsertMap<V>(a: seq<(int, V)>, x: (int, V), b: seq<(int, V)>)
    requires x.0 !in KeysOf(a + b)
    ensures ToMap(a + [x] + b) == ToMap(a + b)[x.0 := x.1]
    ensures UniqueKeys(a + b) ==> UniqueKeys(a + [x] + b)
  {
    forall k ensures Get(ToMap(a + [x] + b), k) == Get(ToMap(a + b)[x.0 := x.1], k) {
      FindInsert(a, x, b, k);
      GetToMap(a + [x] + b, k);
      GetToMap(a + b, k);
    }
    MapExt(ToMap(a + [x] + b), ToMap(a + b)[x.0 := x.1]);
    if UniqueKeys(a + b) {
      UniqueSplit(a, b);
      KeysOfAppend(a, b);
      assert KeysOf([x]) == {x.0};
      UniqueSplit(a, [x]);
      KeysOfAppend(a, [x]);
      UniqueSplit(a + [x], b);
    }
  }

  /** Overwriting the value of an entry whose key no earlier entry holds updates the
      map at that key and keeps the keys. */
  lemma ReplaceMap<V>(a: seq<(int, V)>, x: (int, V), y: (int, V), b: seq<(int, V)>)
    requires x.0 == y.0 && x.0 !in KeysOf(a)
    ensures ToMap(a + [y] + b) == ToMap(a + [x] + b)[x.0 := y.1]
    ensures UniqueKeys(a + [x] + b) ==> UniqueKeys(a + [y] + b)
  {
    SplitUpdate(a, a, x, b, b, y, x.0, y.1);
    var s, s' := a + [x] + b, a + [y] + b;
    forall i | 0 <= i < |s| ensures s'[i].0 == s[i].0 {
    }
  }
}
