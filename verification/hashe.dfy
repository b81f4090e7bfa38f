/** The separately chained hash table (`hash_table_e`): a vector of chains, an element
    counter, and a doubling rehash when one more element would push the load above
    three quarters.

    `std::hash` is not modelled: every operation takes the hash as a parameter
    `hash`, an arbitrary function from keys to naturals, and the home chain of a key
    is `hash(k) % capacity`. */
module ChainedHash {
  import opened Entries

  /** The chains, in index order, and the counter kept beside them. */
  datatype Table<V> = Table(buckets: seq<seq<(int, V)>>, count: int)

  /** The capacity the constructor uses when none is given. */
  const DefaultSize := 10

  /** All entries, chain after chain: the order display lists them in. */
  function Flatten<V>(b: seq<seq<(int, V)>>): seq<(int, V)>
  {
    if |b| == 0 then [] else b[0] + Flatten(b[1..])
  }

  lemma {:induction false} FlattenAppend<V>(x: seq<seq<(int, V)>>, y: seq<seq<(int, V)>>)
    ensures Flatten(x + y) == Flatten(x) + Flatten(y)
  {
    if |x| == 0 {
      assert x + y == y;
    } else {
      assert (x + y)[1..] == x[1..] + y;
      FlattenAppend(x[1..], y);
    }
  }

  /** The entries before chain `i`, chain `i`, and the entries after it. */
  lemma FlattenSplit<V>(b: seq<seq<(int, V)>>, i: int)
    requires 0 <= i < |b|
    ensures Flatten(b) == Flatten(b[..i]) + b[i] + Flatten(b[i + 1..])
  {
    assert b == b[..i] + b[i..];
    FlattenAppend(b[..i], b[i..]);
    assert b[i..][1..] == b[i + 1..];
    var x, y, z := Flatten(b[..i]), b[i], Flatten(b[i + 1..]);
    assert x + (y + z) == x + y + z;
  }

  lemma {:induction false} FlattenKeys<V>(b: seq<seq<(int, V)>>, k: int)
    ensures k in KeysOf(Flatten(b)) <==> exists j :: 0 <= j < |b| && k in KeysOf(b[j])
  {
    if |b| > 0 {
      KeysOfAppend(b[0], Flatten(b[1..]));
      FlattenKeys(b[1..], k);
      if exists j :: 0 <= j < |b| && k in KeysOf(b[j]) {
        var j :| 0 <= j < |b| && k in KeysOf(b[j]);
        if j > 0 {
          assert b[1..][j - 1] == b[j];
        }
      }
      if exists j :: 0 <= j < |b[1..]| && k in KeysOf(b[1..][j]) {
        var j :| 0 <= j < |b[1..]| && k in KeysOf(b[1..][j]);
        assert b[1..][j] == b[j + 1];
      }
    }
  }

  lemma {:induction false} FlattenMember<V>(b: seq<seq<(int, V)>>, x: (int, V))
    ensures x in Flatten(b) <==> exists j :: 0 <= j < |b| && x in b[j]
  {
    if |b| > 0 {
      FlattenMember(b[1..], x);
      if exists j :: 0 <= j < |b| && x in b[j] {
        var j :| 0 <= j < |b| && x in b[j];
        if j > 0 {
          assert b[1..][j - 1] == b[j];
        }
      }
      if exists j :: 0 <= j < |b[1..]| && x in b[1..][j] {
        var j :| 0 <= j < |b[1..]| && x in b[1..][j];
        assert b[1..][j] == b[j + 1];
      }
    }
  }

  /** Every entry sits in its key's home chain. */
  ghost predicate Placed<V>(hash: int -> nat, b: seq<seq<(int, V)>>)
  {
    |b| > 0 && forall j, k :: 0 <= j < |b| && k in KeysOf(b[j]) ==> Home(hash, k, |b|) == j
  }

  ghost predicate ChainsUnique<V>(b: seq<seq<(int, V)>>)
  {
    forall j :: 0 <= j < |b| ==> UniqueKeys(b[j])
  }

  /** The representation invariant: placement, no key twice in a chain, and a counter
      equal to the number of entries. */
  ghost predicate WellFormed<V>(hash: int -> nat, t: Table<V>)
  {
    Placed(hash, t.buckets) && ChainsUnique(t.buckets) && t.count == |Flatten(t.buckets)|
  }

  /** At most three quarters full. */
  ghost predicate LoadOk<V>(t: Table<V>)
  {
    4 * t.count <= 3 * |t.buckets|
  }

  ghost predicate Valid<V>(hash: int -> nat, t: Table<V>)
  {
    WellFormed(hash, t) && LoadOk(t)
  }

  /** The abstract map the table stores. */
  ghost function View<V>(t: Table<V>): map<int, V>
  {
    ToMap(Flatten(t.buckets))
  }

  /** Only the home chain can hold a key, so lookup in the whole table is lookup in
      the home chain. */
  lemma FlattenFindHome<V>(hash: int -> nat, b: seq<seq<(int, V)>>, k: int)
    requires Placed(hash, b)
    ensures Find(Flatten(b), k) == Find(b[Home(hash, k, |b|)], k)
  {
    var i := Home(hash, k, |b|);
    FlattenSplit(b, i);
    FlattenKeys(b[..i], k);
    FlattenKeys(b[i + 1..], k);
    var front, back := b[..i], b[i + 1..];
    forall j | 0 <= j < |front| ensures k !in KeysOf(front[j]) {
      assert front[j] == b[j];
    }
    forall j | 0 <= j < |back| ensures k !in KeysOf(back[j]) {
      assert back[j] == b[i + 1 + j];
    }
    FindAppend(Flatten(b[..i]) + b[i], Flatten(b[i + 1..]), k);
    FindAppend(Flatten(b[..i]), b[i], k);
  }

  lemma {:induction false} FlattenUniqueFrom<V>(hash: int -> nat, b: seq<seq<(int, V)>>, m: int)
    requires Placed(hash, b) && ChainsUnique(b)
    requires 0 <= m <= |b|
    ensures UniqueKeys(Flatten(b[m..]))
    decreases |b| - m
  {
    if m < |b| {
      FlattenUniqueFrom(hash, b, m + 1);
      assert b[m..][1..] == b[m + 1..];
      forall k | k in KeysOf(b[m]) ensures k !in KeysOf(Flatten(b[m + 1..])) {
        FlattenKeys(b[m + 1..], k);
        var back := b[m + 1..];
        assert Home(hash, k, |b|) == m;
        forall j | 0 <= j < |back| ensures k !in KeysOf(back[j]) {
          assert back[j] == b[m + 1 + j];
        }
      }
      UniqueAppend(b[m], Flatten(b[m + 1..]));
    }
  }

  /** Different chains never share a key, so no key occurs twice in the table. */
  lemma FlattenUnique<V>(hash: int -> nat, b: seq<seq<(int, V)>>)
    requires Placed(hash, b) && ChainsUnique(b)
    ensures UniqueKeys(Flatten(b))
  {
    FlattenUniqueFrom(hash, b, 0);
    assert b[0..] == b;
  }

  /** The map after `k` gets the outcome `o`: stored with a value, or erased. */
  ghost function Assign<V>(m: map<int, V>, k: int, o: Option<V>): map<int, V>
  {
    if o.Some? then m[k := o.value] else m - {k}
  }

  /** Replacing the home chain of `k` by a chain that answers every lookup as before
      except that `k` now has the outcome `o` keeps the invariant and changes the
      table's map at `k` only. */
  lemma HomeUpdate<V>(hash: int -> nat, b: seq<seq<(int, V)>>, k: int, o: Option<V>,
                      c': seq<(int, V)>)
    requires Placed(hash, b) && ChainsUnique(b)
    requires UniqueKeys(c')
    requires KeysOf(c') <= KeysOf(b[Home(hash, k, |b|)]) + {k}
    requires forall k' :: Find(c', k') == if k' == k then o else Find(b[Home(hash, k, |b|)], k')
    ensures Placed(hash, b[Home(hash, k, |b|) := c'])
    ensures ChainsUnique(b[Home(hash, k, |b|) := c'])
    ensures ToMap(Flatten(b[Home(hash, k, |b|) := c'])) == Assign(ToMap(Flatten(b)), k, o)
    ensures |Flatten(b[Home(hash, k, |b|) := c'])|
         == |Flatten(b)| - |b[Home(hash, k, |b|)]| + |c'|
  {
    var i := Home(hash, k, |b|);
    var b' := b[i := c'];
    assert b'[..i] == b[..i] && b'[i + 1..] == b[i + 1..];
    FlattenSplit(b, i);
    FlattenSplit(b', i);
    forall j, k' | 0 <= j < |b'| && k' in KeysOf(b'[j]) ensures Home(hash, k', |b'|) == j {
    }
    forall k' ensures Get(ToMap(Flatten(b')), k') == Get(Assign(ToMap(Flatten(b)), k, o), k') {
      GetToMap(Flatten(b'), k');
      GetToMap(Flatten(b), k');
      FlattenFindHome(hash, b', k');
      FlattenFindHome(hash, b, k');
    }
    MapExt(ToMap(Flatten(b')), Assign(ToMap(Flatten(b)), k, o));
  }

  /** With the invariant, `k` is stored exactly when its home chain holds it. */
  lemma HomeKeys<V>(hash: int -> nat, t: Table<V>, k: int)
    requires |t.buckets| > 0
    ensures Placed(hash, t.buckets) ==>
      (k in View(t) <==> k in KeysOf(t.buckets[Home(hash, k, |t.buckets|)]))
    ensures Placed(hash, t.buckets) ==>
      Get(View(t), k) == Find(t.buckets[Home(hash, k, |t.buckets|)], k)
  {
    if Placed(hash, t.buckets) {
      FlattenFindHome(hash, t.buckets, k);
      GetToMap(Flatten(t.buckets), k);
    }
  }

  /** The position of the first entry holding `k`: the scan every operation makes
      along a chain. */
  function IndexOf<V>(c: seq<(int, V)>, k: int): (r: Option<nat>)
    ensures r.Some? ==> r.value < |c| && c[r.value].0 == k && k !in KeysOf(c[..r.value])
    ensures r.None? <==> k !in KeysOf(c)
  {
    if |c| == 0 then None
    else if c[0].0 == k then Some(0)
    else
      match IndexOf(c[1..], k)
      case None => None
      case Some(j) =>
        assert c[..j + 1] == [c[0]] + c[1..][..j];
        KeysOfAppend([c[0]], c[1..][..j]);
        Some(j + 1)
  }

  /** The constructor: `size` empty chains (`DefaultSize` when none is given). A
      capacity of zero would make every home computation a division by zero. */
  function New<V>(size: int): (t: Table<V>)
    requires size > 0
    ensures |t.buckets| == size && t.count == 0
    ensures Flatten(t.buckets) == []
  {
    var t := Table(seq(size, _ => []), 0);
    EmptyFlatten(t.buckets);
    t
  }

  lemma {:induction false} EmptyFlatten<V>(b: seq<seq<(int, V)>>)
    requires forall j :: 0 <= j < |b| ==> b[j] == []
    ensures Flatten(b) == []
  {
    if |b| > 0 {
      assert forall j :: 0 <= j < |b[1..]| ==> b[1..][j] == b[j + 1];
      EmptyFlatten(b[1..]);
    }
  }

  /** An empty table with at least one chain is valid and stores nothing, whatever
      the hash. */
  lemma EmptyValid<V>(hash: int -> nat, t: Table<V>)
    requires |t.buckets| > 0
    requires Flatten(t.buckets) == [] && t.count == 0
    ensures Valid(hash, t)
    ensures View(t) == map[]
  {
    forall j | 0 <= j < |t.buckets| ensures t.buckets[j] == [] {
      FlattenSplit(t.buckets, j);
    }
  }

  /** The part of add after the load check: in the key's home chain, overwrite the
      value of the entry holding the key, or append a new entry at the chain's end and
      count it. */
  function Put<V>(hash: int -> nat, t: Table<V>, k: int, v: V): (r: Table<V>)
    requires |t.buckets| > 0
    ensures |r.buckets| == |t.buckets|
    ensures forall j :: 0 <= j < |t.buckets| && j != Home(hash, k, |t.buckets|) ==>
      r.buckets[j] == t.buckets[j]
    ensures k !in KeysOf(t.buckets[Home(hash, k, |t.buckets|)]) ==>
      r.buckets[Home(hash, k, |t.buckets|)] == t.buckets[Home(hash, k, |t.buckets|)] + [(k, v)]
    ensures WellFormed(hash, t) ==> WellFormed(hash, r) && View(r) == View(t)[k := v]
    ensures WellFormed(hash, t) ==> r.count == if k in View(t) then t.count else t.count + 1
  {
    var i := Home(hash, k, |t.buckets|);
    var c := t.buckets[i];
    PutCorrect(hash, t, k, v);
    match IndexOf(c, k)
    case Some(j) => Table(t.buckets[i := c[j := (k, v)]], t.count)
    case None => Table(t.buckets[i := c + [(k, v)]], t.count + 1)
  }

  lemma PutCorrect<V>(hash: int -> nat, t: Table<V>, k: int, v: V)
    requires |t.buckets| > 0
    ensures var i := Home(hash, k, |t.buckets|);
      var c := t.buckets[i];
      WellFormed(hash, t) ==>
        match IndexOf(c, k)
        case Some(j) =>
          var b' := t.buckets[i := c[j := (k, v)]];
          k in View(t) && WellFormed(hash, Table(b', t.count)) && ToMap(Flatten(b')) == View(t)[k := v]
        case None =>
          var b' := t.buckets[i := c + [(k, v)]];
          k !in View(t) && WellFormed(hash, Table(b', t.count + 1)) && ToMap(Flatten(b')) == View(t)[k := v]
  {
    var i := Home(hash, k, |t.buckets|);
    var c := t.buckets[i];
    if WellFormed(hash, t) {
      HomeKeys(hash, t, k);
      match IndexOf(c, k)
      case Some(j) =>
        forall k' ensures Find(c[j := (k, v)], k') == if k' == k then Some(v) else Find(c, k') {
          FindReplace(c, j, v, k');
        }
        FindReplace(c, j, v, k);
        HomeUpdate(hash, t.buckets, k, Some(v), c[j := (k, v)]);
      case None =>
        forall k' ensures Find(c + [(k, v)], k') == if k' == k then Some(v) else Find(c, k') {
          FindAppendNew(c, k, v, k');
        }
        FindAppendNew(c, k, v, k);
        HomeUpdate(hash, t.buckets, k, Some(v), c + [(k, v)]);
    }
  }

  /** The load check of add: one more element would exceed three quarters of the
      capacity. Over the reals `n + 1 > size * 0.75` is `4 * (n + 1) > 3 * size`. */
  function NeedsGrow<V>(t: Table<V>): bool
  {
    4 * (t.count + 1) > 3 * |t.buckets|
  }

  /** One step of rehash: append an entry to its home chain. */
  function Place<V>(hash: int -> nat, b: seq<seq<(int, V)>>, e: (int, V)): (r: seq<seq<(int, V)>>)
    requires |b| > 0
    ensures |r| == |b|
  {
    var i := Home(hash, e.0, |b|);
    b[i := b[i] + [e]]
  }

  /** Rehash's loop: every entry of `s`, in order, appended to its home chain. */
  function Distribute<V>(hash: int -> nat, s: seq<(int, V)>, b: seq<seq<(int, V)>>): (r: seq<seq<(int, V)>>)
    requires |b| > 0
    ensures |r| == |b|
    decreases |s|
  {
    if |s| == 0 then b else Distribute(hash, s[1..], Place(hash, b, s[0]))
  }

  /** The entries of `s` whose home among `n` chains is `i`, in order: the reference
      definition of what chain `i` receives during a rehash. */
  function Select<V>(hash: int -> nat, s: seq<(int, V)>, n: int, i: int): seq<(int, V)>
    requires n > 0
  {
    if |s| == 0 then []
    else (if Home(hash, s[0].0, n) == i then [s[0]] else []) + Select(hash, s[1..], n, i)
  }

  lemma {:induction false} DistributeChain<V>(hash: int -> nat, s: seq<(int, V)>, b: seq<seq<(int, V)>>, i: int)
    requires |b| > 0 && 0 <= i < |b|
    ensures Distribute(hash, s, b)[i] == b[i] + Select(hash, s, |b|, i)
    decreases |s|
  {
    if |s| > 0 {
      DistributeChain(hash, s[1..], Place(hash, b, s[0]), i);
    }
  }

  lemma {:induction false} DistributeElems<V>(hash: int -> nat, s: seq<(int, V)>, b: seq<seq<(int, V)>>)
    requires |b| > 0
    ensures multiset(Flatten(Distribute(hash, s, b))) == multiset(Flatten(b)) + multiset(s)
    decreases |s|
  {
    if |s| > 0 {
      PlaceElems(hash, b, s[0]);
      DistributeElems(hash, s[1..], Place(hash, b, s[0]));
      assert s == [s[0]] + s[1..];
    }
  }

  lemma PlaceElems<V>(hash: int -> nat, b: seq<seq<(int, V)>>, e: (int, V))
    requires |b| > 0
    ensures multiset(Flatten(Place(hash, b, e))) == multiset(Flatten(b)) + multiset{e}
  {
    var i := Home(hash, e.0, |b|);
    var b' := Place(hash, b, e);
    FlattenSplit(b, i);
    FlattenSplit(b', i);
    assert b'[..i] == b[..i] && b'[i + 1..] == b[i + 1..];
  }

  lemma {:induction false} SelectKeys<V>(hash: int -> nat, s: seq<(int, V)>, n: int, i: int, k: int)
    requires n > 0
    ensures k in KeysOf(Select(hash, s, n, i)) <==> k in KeysOf(s) && Home(hash, k, n) == i
  {
    if |s| > 0 {
      KeysOfAppend(if Home(hash, s[0].0, n) == i then [s[0]] else [], Select(hash, s[1..], n, i));
      SelectKeys(hash, s[1..], n, i, k);
    }
  }

  lemma {:induction false} SelectFind<V>(hash: int -> nat, s: seq<(int, V)>, n: int, i: int, k: int)
    requires n > 0
    requires Home(hash, k, n) == i
    ensures Find(Select(hash, s, n, i), k) == Find(s, k)
  {
    if |s| > 0 {
      var h: seq<(int, V)> := if Home(hash, s[0].0, n) == i then [s[0]] else [];
      FindAppend(h, Select(hash, s[1..], n, i), k);
      SelectFind(hash, s[1..], n, i, k);
    }
  }

  lemma {:induction false} SelectUnique<V>(hash: int -> nat, s: seq<(int, V)>, n: int, i: int)
    requires n > 0
    requires UniqueKeys(s)
    ensures UniqueKeys(Select(hash, s, n, i))
  {
    if |s| > 0 {
      assert forall j :: 0 <= j < |s[1..]| ==> s[1..][j] == s[j + 1];
      SelectUnique(hash, s[1..], n, i);
      var h: seq<(int, V)> := if Home(hash, s[0].0, n) == i then [s[0]] else [];
      SelectKeys(hash, s[1..], n, i, s[0].0);
      KeysOfIndex(s[1..], s[0].0);
      UniqueAppend(h, Select(hash, s[1..], n, i));
    }
  }

  /** rehash: a table of `n` chains holding the same entries, each appended to its new
      home chain in the order the old chains list them. */
  function Rehash<V>(hash: int -> nat, t: Table<V>, n: int): (r: Table<V>)
    requires n > 0
    ensures |r.buckets| == n && r.count == t.count
    ensures multiset(Flatten(r.buckets)) == multiset(Flatten(t.buckets))
    ensures forall i :: 0 <= i < n ==> r.buckets[i] == Select(hash, Flatten(t.buckets), n, i)
    ensures WellFormed(hash, t) ==> WellFormed(hash, r) && View(r) == View(t)
  {
    var empty: seq<seq<(int, V)>> := seq(n, _ => []);
    var r := Table(Distribute(hash, Flatten(t.buckets), empty), t.count);
    DistributeFresh(hash, Flatten(t.buckets), n);
    RehashCorrect(hash, t, r);
    r
  }

  /** Distributing entries over `n` empty chains keeps the entries and gives each
      chain its selection. */
  lemma DistributeFresh<V>(hash: int -> nat, s: seq<(int, V)>, n: int)
    requires n > 0
    ensures var b := Distribute(hash, s, seq(n, _ => []));
      multiset(Flatten(b)) == multiset(s) &&
      forall i :: 0 <= i < n ==> b[i] == Select(hash, s, n, i)
  {
    var empty: seq<seq<(int, V)>> := seq(n, _ => []);
    EmptyFlatten(empty);
    DistributeElems(hash, s, empty);
    forall i | 0 <= i < n ensures Distribute(hash, s, empty)[i] == Select(hash, s, n, i) {
      DistributeChain(hash, s, empty, i);
    }
  }

  lemma RehashCorrect<V>(hash: int -> nat, t: Table<V>, r: Table<V>)
    requires |r.buckets| > 0 && r.count == t.count
    requires multiset(Flatten(r.buckets)) == multiset(Flatten(t.buckets))
    requires forall i :: 0 <= i < |r.buckets| ==>
      r.buckets[i] == Select(hash, Flatten(t.buckets), |r.buckets|, i)
    ensures WellFormed(hash, t) ==> WellFormed(hash, r) && View(r) == View(t)
  {
    if WellFormed(hash, t) {
      var s, n := Flatten(t.buckets), |r.buckets|;
      FlattenUnique(hash, t.buckets);
      forall j, k | 0 <= j < n && k in KeysOf(r.buckets[j]) ensures Home(hash, k, n) == j {
        SelectKeys(hash, s, n, j, k);
      }
      forall j | 0 <= j < n ensures UniqueKeys(r.buckets[j]) {
        SelectUnique(hash, s, n, j);
      }
      assert |Flatten(r.buckets)| == |multiset(Flatten(r.buckets))| == |multiset(s)| == |s|;
      forall k ensures Get(View(r), k) == Get(View(t), k) {
        HomeKeys(hash, r, k);
        SelectFind(hash, s, n, Home(hash, k, n), k);
        GetToMap(s, k);
      }
      MapExt(View(r), View(t));
    }
  }

  /** add: grow to twice the capacity when one more element would pass three
      quarters, then `Put`. The check runs whether or not the key is already
      present. */
  function Add<V>(hash: int -> nat, t: Table<V>, k: int, v: V): (r: Table<V>)
    requires |t.buckets| > 0
    ensures |r.buckets| == if NeedsGrow(t) then 2 * |t.buckets| else |t.buckets|
    ensures WellFormed(hash, t) ==> WellFormed(hash, r) && View(r) == View(t)[k := v]
    ensures WellFormed(hash, t) ==> r.count == if k in View(t) then t.count else t.count + 1
    ensures Valid(hash, t) ==> Valid(hash, r)
  {
    var t1 := if NeedsGrow(t) then Rehash(hash, t, 2 * |t.buckets|) else t;
    Put(hash, t1, k, v)
  }

  /** contains: a scan of the home chain. */
  function Contains<V>(hash: int -> nat, t: Table<V>, k: int): (b: bool)
    requires |t.buckets| > 0
    ensures WellFormed(hash, t) ==> (b <==> k in View(t))
  {
    HomeKeys(hash, t, k);
    IndexOf(t.buckets[Home(hash, k, |t.buckets|)], k).Some?
  }

  /** at, read side: the value in the home chain, or `None` where the source throws
      "key not found". */
  function At<V>(hash: int -> nat, t: Table<V>, k: int): (r: Option<V>)
    requires |t.buckets| > 0
    ensures WellFormed(hash, t) ==> r == Get(View(t), k)
  {
    var c := t.buckets[Home(hash, k, |t.buckets|)];
    HomeKeys(hash, t, k);
    match IndexOf(c, k)
    case None => None
    case Some(j) =>
      FindReplace(c, j, c[j].1, k);
      assert c[j := (c[j].0, c[j].1)] == c;
      Some(c[j].1)
  }

  /** at, write side: assigning through the reference `at` returns. Only the entry's
      value changes; `None` where the source throws. */
  function SetAt<V>(hash: int -> nat, t: Table<V>, k: int, v: V): (r: Option<Table<V>>)
    requires |t.buckets| > 0
    ensures r.Some? <==> k in KeysOf(t.buckets[Home(hash, k, |t.buckets|)])
    ensures r.Some? ==> |r.value.buckets| == |t.buckets| && r.value.count == t.count
    ensures WellFormed(hash, t) ==> (r.Some? <==> k in View(t))
    ensures WellFormed(hash, t) && r.Some? ==>
      WellFormed(hash, r.value) && View(r.value) == View(t)[k := v]
  {
    HomeKeys(hash, t, k);
    if IndexOf(t.buckets[Home(hash, k, |t.buckets|)], k).None? then None
    else Some(Put(hash, t, k, v))
  }

  /** remove: erase the entry holding the key from its home chain and count it out;
      `false` and no change when the key is absent. */
  function Remove<V>(hash: int -> nat, t: Table<V>, k: int): (r: (bool, Table<V>))
    requires |t.buckets| > 0
    ensures |r.1.buckets| == |t.buckets|
    ensures r.1.count == if r.0 then t.count - 1 else t.count
    ensures !r.0 ==> r.1 == t
    ensures WellFormed(hash, t) ==> (r.0 <==> k in View(t))
    ensures WellFormed(hash, t) ==> WellFormed(hash, r.1) && View(r.1) == View(t) - {k}
    ensures Valid(hash, t) ==> Valid(hash, r.1)
  {
    var i := Home(hash, k, |t.buckets|);
    var c := t.buckets[i];
    RemoveCorrect(hash, t, k);
    match IndexOf(c, k)
    case None => (false, t)
    case Some(j) => (true, Table(t.buckets[i := c[..j] + c[j + 1..]], t.count - 1))
  }

  lemma RemoveCorrect<V>(hash: int -> nat, t: Table<V>, k: int)
    requires |t.buckets| > 0
    ensures var i := Home(hash, k, |t.buckets|);
      var c := t.buckets[i];
      WellFormed(hash, t) ==>
        match IndexOf(c, k)
        case Some(j) =>
          var b' := t.buckets[i := c[..j] + c[j + 1..]];
          k in View(t) && WellFormed(hash, Table(b', t.count - 1)) && ToMap(Flatten(b')) == View(t) - {k}
        case None =>
          k !in View(t) && View(t) - {k} == View(t)
  {
    var i := Home(hash, k, |t.buckets|);
    var c := t.buckets[i];
    if WellFormed(hash, t) {
      HomeKeys(hash, t, k);
      match IndexOf(c, k)
      case Some(j) => RemoveHit(hash, t, k, j);
      case None =>
    }
  }

  /** Erasing the entry a chain scan found. */
  lemma RemoveHit<V>(hash: int -> nat, t: Table<V>, k: int, j: nat)
    requires |t.buckets| > 0 && WellFormed(hash, t)
    requires IndexOf(t.buckets[Home(hash, k, |t.buckets|)], k) == Some(j)
    ensures var i := Home(hash, k, |t.buckets|);
      var c := t.buckets[i];
      var b' := t.buckets[i := c[..j] + c[j + 1..]];
      k in View(t) && WellFormed(hash, Table(b', t.count - 1)) && ToMap(Flatten(b')) == View(t) - {k}
  {
    var i := Home(hash, k, |t.buckets|);
    var c := t.buckets[i];
    var c' := c[..j] + c[j + 1..];
    HomeKeys(hash, t, k);
    assert UniqueKeys(c);
    forall k' ensures Find(c', k') == if k' == k then None else Find(c, k') {
      FindRemove(c, j, k');
    }
    FindRemove(c, j, k);
    HomeUpdate(hash, t.buckets, k, None, c');
  }

  /** display: every entry, chain by chain. Each listed pair is an entry of some chain
      and each entry is listed. */
  function Display<V>(t: Table<V>): (r: seq<(int, V)>)
    ensures forall i :: 0 <= i < |r| ==> exists j :: 0 <= j < |t.buckets| && r[i] in t.buckets[j]
    ensures forall j, m :: 0 <= j < |t.buckets| && 0 <= m < |t.buckets[j]| ==> t.buckets[j][m] in r
  {
    var r := Flatten(t.buckets);
    forall i | 0 <= i < |r| ensures exists j :: 0 <= j < |t.buckets| && r[i] in t.buckets[j] {
      FlattenMember(t.buckets, r[i]);
    }
    forall j, m | 0 <= j < |t.buckets| && 0 <= m < |t.buckets[j]| ensures t.buckets[j][m] in r {
      FlattenMember(t.buckets, t.buckets[j][m]);
    }
    r
  }

  /** With the invariant, display lists `count` pairs with distinct keys, and lists a
      pair exactly when the table maps its key to its value. */
  lemma DisplayCorrect<V>(hash: int -> nat, t: Table<V>)
    requires WellFormed(hash, t)
    ensures |Display(t)| == t.count
    ensures UniqueKeys(Display(t))
    ensures forall k, v :: (k, v) in Display(t) <==> k in View(t) && View(t)[k] == v
  {
    FlattenUnique(hash, t.buckets);
    forall k, v ensures (k, v) in Display(t) <==> k in View(t) && View(t)[k] == v {
      UniqueMember(Flatten(t.buckets), k, v);
      GetToMap(Flatten(t.buckets), k);
    }
  }

  /** clear: every chain emptied and the counter reset; the capacity stays. */
  function Clear<V>(t: Table<V>): (r: Table<V>)
    ensures |r.buckets| == |t.buckets| && r.count == 0
    ensures Flatten(r.buckets) == []
  {
    var r := Table(seq(|t.buckets|, _ => []), 0);
    EmptyFlatten(r.buckets);
    r
  }
}
