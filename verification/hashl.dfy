/** The open-addressing hash table with linear probing (`hash_table_l`): one vector of
    slots, each empty, occupied or removed, an element counter, and the same doubling
    rehash as the chained table.

    `std::hash` is a parameter `hash` as in the chained table. A removed slot keeps its
    old key and value in the source, but every read tests the status first, so the
    model drops them; the same holds for slots emptied by clear. */
module ProbingHash {
  import opened Entries

  datatype Slot<V> = Empty | Occupied(key: int, value: V) | Removed

  /** The slots and the counter kept beside them. */
  datatype Table<V> = Table(slots: seq<Slot<V>>, count: int)

  /** The capacity the constructor uses when none is given. */
  const DefaultSize := 10

  /** The slot reached after `e` steps of `index = (index + 1) % n` from `start`. */
  function Pos(start: int, e: int, n: int): (i: int)
    requires 0 <= start < n && 0 <= e < n
    ensures 0 <= i < n
  {
    if start + e < n then start + e else start + e - n
  }

  /** The number of steps from `start` to `i`. */
  function Dist(start: int, i: int, n: int): (e: int)
    requires 0 <= start < n && 0 <= i < n
    ensures 0 <= e < n && Pos(start, e, n) == i
  {
    if start <= i then i - start else i + n - start
  }

  /** Slot `i` is occupied by key `k`. */
  predicate Holds<V>(s: seq<Slot<V>>, i: int, k: int)
  {
    0 <= i < |s| && s[i].Occupied? && s[i].key == k
  }

  /** The entry an occupied slot contributes to display. */
  function One<V>(x: Slot<V>): seq<(int, V)>
  {
    if x.Occupied? then [(x.key, x.value)] else []
  }

  /** display: the entries of the occupied slots in slot order. */
  function Display<V>(s: seq<Slot<V>>): seq<(int, V)>
  {
    if |s| == 0 then [] else One(s[0]) + Display(s[1..])
  }

  lemma {:induction false} DisplayAppend<V>(x: seq<Slot<V>>, y: seq<Slot<V>>)
    ensures Display(x + y) == Display(x) + Display(y)
  {
    if |x| == 0 {
      assert x + y == y;
    } else {
      assert (x + y)[1..] == x[1..] + y;
      DisplayAppend(x[1..], y);
    }
  }

  /** display lists the slots before `i`, then slot `i`, then the slots after it. */
  lemma DisplaySplit<V>(s: seq<Slot<V>>, i: int)
    requires 0 <= i < |s|
    ensures Display(s) == Display(s[..i]) + One(s[i]) + Display(s[i + 1..])
  {
    assert s == s[..i] + s[i..];
    DisplayAppend(s[..i], s[i..]);
    assert s[i..] == [s[i]] + s[i + 1..];
    DisplayCons(s[i], s[i + 1..]);
    Gather3(Display(s[..i]), One(s[i]), Display(s[i + 1..]), []);
  }

  /** Writing one slot changes display in that slot's place only. */
  lemma DisplayUpdate<V>(s: seq<Slot<V>>, i: int, x: Slot<V>)
    requires 0 <= i < |s|
    ensures Display(s) == Display(s[..i]) + One(s[i]) + Display(s[i + 1..])
    ensures Display(s[i := x]) == Display(s[..i]) + One(x) + Display(s[i + 1..])
  {
    DisplaySplit(s, i);
    DisplaySplit(s[i := x], i);
    assert s[i := x][..i] == s[..i] && s[i := x][i + 1..] == s[i + 1..];
  }

  lemma {:induction false} DisplayKeys<V>(s: seq<Slot<V>>, k: int)
    ensures k in KeysOf(Display(s)) <==> exists i :: Holds(s, i, k)
  {
    if |s| > 0 {
      KeysOfAppend(One(s[0]), Display(s[1..]));
      assert KeysOf(One(s[0])) == if s[0].Occupied? then {s[0].key} else {} by {
        if s[0].Occupied? {
          assert One(s[0])[1..] == [];
        }
      }
      DisplayKeys(s[1..], k);
      if s[0].Occupied? && s[0].key == k {
        assert Holds(s, 0, k);
      }
      if exists i :: Holds(s, i, k) {
        var i :| Holds(s, i, k);
        if i > 0 {
          assert Holds(s[1..], i - 1, k);
        }
      }
      if exists i :: Holds(s[1..], i, k) {
        var i :| Holds(s[1..], i, k);
        assert Holds(s, i + 1, k);
      }
    }
  }

  lemma {:induction false} DisplayMember<V>(s: seq<Slot<V>>, k: int, v: V)
    ensures (k, v) in Display(s) <==> exists i :: 0 <= i < |s| && s[i] == Occupied(k, v)
  {
    if |s| > 0 {
      DisplayMember(s[1..], k, v);
      if exists i :: 0 <= i < |s| && s[i] == Occupied(k, v) {
        var i :| 0 <= i < |s| && s[i] == Occupied(k, v);
        if i > 0 {
          assert s[1..][i - 1] == s[i];
        }
      }
      if exists i :: 0 <= i < |s[1..]| && s[1..][i] == Occupied(k, v) {
        var i :| 0 <= i < |s[1..]| && s[1..][i] == Occupied(k, v);
        assert s[i + 1] == s[1..][i];
      }
    }
  }

  /** display never lists more entries than there are slots, and lists one per slot
      exactly when every slot is occupied. */
  lemma {:induction false} DisplayLength<V>(s: seq<Slot<V>>)
    ensures |Display(s)| <= |s|
    ensures |Display(s)| == |s| <==> forall i :: 0 <= i < |s| ==> s[i].Occupied?
  {
    if |s| > 0 {
      DisplayLength(s[1..]);
      assert forall i :: 0 <= i < |s[1..]| ==> s[1..][i] == s[i + 1];
    }
  }

  /** Fewer occupied slots than slots leaves a slot that is not occupied. */
  lemma FreeSlot<V>(s: seq<Slot<V>>) returns (i: int)
    requires |Display(s)| < |s|
    ensures 0 <= i < |s| && !s[i].Occupied?
  {
    DisplayLength(s);
    i :| 0 <= i < |s| && !s[i].Occupied?;
  }

  /** No key occupies two slots: no key is listed twice. */
  ghost predicate Unique<V>(s: seq<Slot<V>>)
  {
    UniqueKeys(Display(s))
  }

  /** No removed slot: the state every remove-free history stays in. */
  ghost predicate NoTombstones<V>(s: seq<Slot<V>>)
  {
    forall i :: 0 <= i < |s| ==> !s[i].Removed?
  }

  /** No empty slot lies between the home of the key in slot `i` and slot `i`, so a
      lookup for that key does not stop before reaching it. */
  ghost predicate NoGap<V>(hash: int -> nat, s: seq<Slot<V>>, i: int)
    requires 0 <= i < |s| && s[i].Occupied?
  {
    var h := Home(hash, s[i].key, |s|);
    forall e :: 0 <= e < Dist(h, i, |s|) ==> !s[Pos(h, e, |s|)].Empty?
  }

  /** Every occupied slot is reachable by a lookup of its key. */
  ghost predicate Reachable<V>(hash: int -> nat, s: seq<Slot<V>>)
  {
    |s| > 0 && forall i :: 0 <= i < |s| && s[i].Occupied? ==> NoGap(hash, s, i)
  }

  /** The counter equals the number of occupied slots. */
  ghost predicate CountOk<V>(t: Table<V>)
  {
    t.count == |Display(t.slots)|
  }

  /** At most three quarters full. */
  ghost predicate LoadOk<V>(t: Table<V>)
  {
    4 * t.count <= 3 * |t.slots|
  }

  /** The abstract map the table stores. */
  ghost function View<V>(t: Table<V>): map<int, V>
  {
    ToMap(Display(t.slots))
  }

  /** The lookup probe shared by contains, at, search and remove: from step `e` on,
      stop at an empty slot (absent), at an occupied slot holding `k` (found), or
      when the probe is back at its start after `n` steps (absent). */
  function Probe<V>(s: seq<Slot<V>>, start: int, k: int, e: int): (r: Option<int>)
    requires 0 <= start < |s| && 0 <= e <= |s|
    ensures r.Some? ==> Holds(s, r.value, k)
    decreases |s| - e
  {
    if e == |s| then None
    else
      var i := Pos(start, e, |s|);
      if s[i].Empty? then None
      else if s[i].Occupied? && s[i].key == k then Some(i)
      else Probe(s, start, k, e + 1)
  }

  /** If no empty slot comes before a slot holding `k`, the probe finds `k`. */
  lemma {:induction false} ProbeFinds<V>(s: seq<Slot<V>>, start: int, k: int, e: int, d: int)
    requires 0 <= start < |s| && 0 <= e <= d < |s|
    requires Holds(s, Pos(start, d, |s|), k)
    requires forall e' :: e <= e' < d ==> !s[Pos(start, e', |s|)].Empty?
    ensures Probe(s, start, k, e).Some?
    decreases d - e
  {
    if e < d && !Holds(s, Pos(start, e, |s|), k) {
      ProbeFinds(s, start, k, e + 1, d);
    }
  }

  /** If every slot before step `d` is occupied by another key, the probe stops at
      step `d` exactly. */
  lemma {:induction false} ProbeFirst<V>(s: seq<Slot<V>>, start: int, k: int, e: int, d: int)
    requires 0 <= start < |s| && 0 <= e <= d < |s|
    requires Holds(s, Pos(start, d, |s|), k)
    requires forall e' :: e <= e' < d ==>
      s[Pos(start, e', |s|)].Occupied? && s[Pos(start, e', |s|)].key != k
    ensures Probe(s, start, k, e) == Some(Pos(start, d, |s|))
    decreases d - e
  {
    if e < d {
      ProbeFirst(s, start, k, e + 1, d);
    }
  }

  /** With every occupied slot reachable, a lookup finds a key exactly when some slot
      holds it. */
  lemma ProbeComplete<V>(hash: int -> nat, s: seq<Slot<V>>, k: int)
    requires |s| > 0
    ensures Reachable(hash, s) ==>
      (Probe(s, Home(hash, k, |s|), k, 0).Some? <==> k in KeysOf(Display(s)))
  {
    DisplayKeys(s, k);
    if Reachable(hash, s) && k in KeysOf(Display(s)) {
      var i :| Holds(s, i, k);
      assert NoGap(hash, s, i);
      var h := Home(hash, k, |s|);
      ProbeFinds(s, h, k, 0, Dist(h, i, |s|));
    }
  }

  /** Distinct step counts from one start reach distinct slots. */
  lemma PosDistinct(start: int, e1: int, e2: int, n: int)
    requires 0 <= start < n && 0 <= e1 < n && 0 <= e2 < n && e1 != e2
    ensures Pos(start, e1, n) != Pos(start, e2, n)
  {
  }

  /** Slot `i` ends add's probe for `k`: it is not occupied, or it holds `k`. */
  predicate Stops<V>(s: seq<Slot<V>>, i: int, k: int)
  {
    0 <= i < |s| && (!s[i].Occupied? || s[i].key == k)
  }

  /** add's probe loop: the first step from `e` on whose slot is not occupied or holds
      `k`. The source would loop forever without such a slot; the precondition
      rules that out. */
  function AddStep<V>(s: seq<Slot<V>>, start: int, k: int, e: int): (d: int)
    requires 0 <= start < |s| && 0 <= e
    requires exists d :: e <= d < |s| && Stops(s, Pos(start, d, |s|), k)
    ensures e <= d < |s| && Stops(s, Pos(start, d, |s|), k)
    ensures forall e' :: e <= e' < d ==> !Stops(s, Pos(start, e', |s|), k)
    decreases |s| - e
  {
    if Stops(s, Pos(start, e, |s|), k) then e
    else AddStep(s, start, k, e + 1)
  }

  /** rehash's probe loop: the first step from `e` on whose slot is not occupied. */
  function FreeStep<V>(s: seq<Slot<V>>, start: int, e: int): (d: int)
    requires 0 <= start < |s| && 0 <= e
    requires exists d :: e <= d < |s| && !s[Pos(start, d, |s|)].Occupied?
    ensures e <= d < |s| && !s[Pos(start, d, |s|)].Occupied?
    ensures forall e' :: e <= e' < d ==> s[Pos(start, e', |s|)].Occupied?
    decreases |s| - e
  {
    if !s[Pos(start, e, |s|)].Occupied? then e
    else FreeStep(s, start, e + 1)
  }

  /** With fewer entries than slots, both probe loops end. */
  lemma StopExists<V>(s: seq<Slot<V>>, start: int, k: int)
    requires 0 <= start < |s| && |Display(s)| < |s|
    ensures exists d :: 0 <= d < |s| && !s[Pos(start, d, |s|)].Occupied?
    ensures exists d :: 0 <= d < |s| && Stops(s, Pos(start, d, |s|), k)
  {
    var i := FreeSlot(s);
    var d := Dist(start, i, |s|);
    assert Stops(s, Pos(start, d, |s|), k);
  }

  /** Where add's probe stops at an occupied slot, the lookup probe stops there too;
      where it stops at an empty slot, the lookup reports the key absent. Only a
      removed slot lets the two disagree. */
  lemma {:induction false} ProbeAgree<V>(s: seq<Slot<V>>, start: int, k: int, e: int)
    requires 0 <= start < |s| && 0 <= e
    requires exists d :: e <= d < |s| && Stops(s, Pos(start, d, |s|), k)
    ensures var i := Pos(start, AddStep(s, start, k, e), |s|);
      (s[i].Occupied? ==> Probe(s, start, k, e) == Some(i)) &&
      (s[i].Empty? ==> Probe(s, start, k, e) == None)
    decreases |s| - e
  {
    if !Stops(s, Pos(start, e, |s|), k) {
      ProbeAgree(s, start, k, e + 1);
    }
  }

  /** Overwriting the slot a lookup found leaves the lookup finding it. */
  lemma {:induction false} ProbeWrite<V>(s: seq<Slot<V>>, start: int, k: int, e: int, i: int, v: V)
    requires 0 <= start < |s| && 0 <= e <= |s|
    requires Probe(s, start, k, e) == Some(i)
    ensures Probe(s[i := Occupied(k, v)], start, k, e) == Some(i)
    decreases |s| - e
  {
    if Pos(start, e, |s|) != i {
      ProbeWrite(s, start, k, e + 1, i, v);
    }
  }

  /** Writing a non-empty slot keeps every entry reachable, provided the written entry
      is reachable itself: no empty slot between its home and slot `i`. */
  lemma WriteReachable<V>(hash: int -> nat, s: seq<Slot<V>>, i: int, x: Slot<V>)
    requires 0 <= i < |s| && !x.Empty?
    requires x.Occupied? ==> var h := Home(hash, x.key, |s|);
      forall e :: 0 <= e < Dist(h, i, |s|) ==> !s[Pos(h, e, |s|)].Empty?
    ensures Reachable(hash, s) ==> Reachable(hash, s[i := x])
  {
    if Reachable(hash, s) {
      var s' := s[i := x];
      forall j | 0 <= j < |s'| && s'[j].Occupied? ensures NoGap(hash, s', j) {
        var h := Home(hash, s'[j].key, |s|);
        forall e | 0 <= e < Dist(h, j, |s|) ensures !s'[Pos(h, e, |s|)].Empty? {
          if j != i {
            assert NoGap(hash, s, j);
          } else {
            PosDistinct(h, e, Dist(h, i, |s|), |s|);
          }
        }
      }
    }
  }

  /** The first slot holding a key, under unique keys, lists no earlier entry for it. */
  lemma UniqueFirst<V>(s: seq<Slot<V>>, i: int)
    requires 0 <= i < |s| && s[i].Occupied? && Unique(s)
    ensures s[i].key !in KeysOf(Display(s[..i]))
  {
    DisplaySplit(s, i);
    UniqueSplit(Display(s[..i]) + One(s[i]), Display(s[i + 1..]));
    UniqueSplit(Display(s[..i]), One(s[i]));
    assert KeysOf(One(s[i])) == {s[i].key} by {
      assert One(s[i])[1..] == [];
    }
  }

  /** Writing entry (k, v) into a slot that holds `k` as the first entry for `k`, or
      into a slot holding no entry when `k` is absent, maps `k` to `v`, keeps unique
      keys, and adds an entry exactly when the slot held none. */
  lemma WriteView<V>(s: seq<Slot<V>>, i: int, k: int, v: V)
    requires 0 <= i < |s|
    requires if s[i].Occupied? then s[i].key == k && k !in KeysOf(Display(s[..i]))
             else k !in KeysOf(Display(s))
    ensures ToMap(Display(s[i := Occupied(k, v)])) == ToMap(Display(s))[k := v]
    ensures Unique(s) ==> Unique(s[i := Occupied(k, v)])
    ensures |Display(s[i := Occupied(k, v)])| ==
      if s[i].Occupied? then |Display(s)| else |Display(s)| + 1
  {
    DisplayUpdate(s, i, Occupied(k, v));
    var a, b := Display(s[..i]), Display(s[i + 1..]);
    assert One(Occupied(k, v)) == [(k, v)];
    if s[i].Occupied? {
      assert One(s[i]) == [(k, s[i].value)];
      ReplaceMap(a, (k, s[i].value), (k, v), b);
    } else {
      assert One(s[i]) == [];
      assert Display(s) == a + b;
      InsertMap(a, (k, v), b);
    }
  }

  /** Claiming a slot that holds no entry adds exactly the written entry. */
  lemma ClaimElems<V>(s: seq<Slot<V>>, i: int, x: Slot<V>)
    requires 0 <= i < |s| && !s[i].Occupied? && x.Occupied?
    ensures multiset(Display(s[i := x])) == multiset(Display(s)) + multiset{(x.key, x.value)}
    ensures KeysOf(Display(s[i := x])) == KeysOf(Display(s)) + {x.key}
    ensures |Display(s[i := x])| == |Display(s)| + 1
  {
    DisplayUpdate(s, i, x);
    var a, b := Display(s[..i]), Display(s[i + 1..]);
    assert One(x) == [(x.key, x.value)];
    assert One(s[i]) == [];
    var e := (x.key, x.value);
    assert Display(s) == a + b;
    assert Display(s[i := x]) == a + [e] + b;
    ClaimSplit(a, e, b);
  }

  lemma ClaimSplit<V>(a: seq<(int, V)>, e: (int, V), b: seq<(int, V)>)
    ensures multiset(a + [e] + b) == multiset(a + b) + multiset{e}
    ensures KeysOf(a + [e] + b) == KeysOf(a + b) + {e.0}
    ensures |a + [e] + b| == |a + b| + 1
  {
    FindSplit(a, e, b, e.0);
    KeysOfAppend(a, b);
  }

  /** Marking an occupied slot removed drops its entry, and under unique keys drops its
      key from the map. */
  lemma EraseView<V>(s: seq<Slot<V>>, i: int)
    requires 0 <= i < |s| && s[i].Occupied?
    ensures |Display(s[i := Removed])| == |Display(s)| - 1
    ensures Unique(s) ==>
      Unique(s[i := Removed]) && ToMap(Display(s[i := Removed])) == ToMap(Display(s)) - {s[i].key}
  {
    DisplayUpdate(s, i, Removed);
    var a, b := Display(s[..i]), Display(s[i + 1..]);
    var x := (s[i].key, s[i].value);
    assert One(s[i]) == [x];
    var gone: Slot<V> := Removed;
    assert One(gone) == [];
    var d := Display(s);
    assert d == a + [x] + b;
    assert Display(s[i := Removed]) == a + b;
    if Unique(s) {
      var j := |a|;
      assert d[..j] == a && d[j + 1..] == b && d[j] == x;
      forall k ensures Get(ToMap(a + b), k) == Get(ToMap(d) - {x.0}, k) {
        FindRemove(d, j, k);
        GetToMap(a + b, k);
        GetToMap(d, k);
      }
      FindRemove(d, j, x.0);
      MapExt(ToMap(a + b), ToMap(d) - {x.0});
    }
  }

  /** display of slots none of which is occupied is empty. */
  lemma {:induction false} DisplayNone<V>(s: seq<Slot<V>>)
    requires forall i :: 0 <= i < |s| ==> !s[i].Occupied?
    ensures Display(s) == []
  {
    if |s| > 0 {
      assert forall i :: 0 <= i < |s[1..]| ==> s[1..][i] == s[i + 1];
      DisplayNone(s[1..]);
    }
  }

  /** A vector of `n` empty slots, as `std::vector` default-constructs them. */
  function Fresh<V>(n: nat): (s: seq<Slot<V>>)
    ensures |s| == n && Display(s) == []
    ensures forall i :: 0 <= i < n ==> s[i].Empty?
  {
    var s := seq(n, _ => Empty);
    DisplayNone(s);
    s
  }

  /** The constructor: `size` empty slots and no elements. */
  function New<V>(size: int): (t: Table<V>)
    requires size > 0
    ensures |t.slots| == size && t.count == 0
  {
    Table(Fresh(size), 0)
  }

  /** A new table holds every invariant and stores the empty map. */
  lemma NewValid<V>(hash: int -> nat, size: int)
    requires size > 0
    ensures var t := New<V>(size);
      CountOk(t) && LoadOk(t) && Reachable(hash, t.slots) && Unique(t.slots) &&
      NoTombstones(t.slots) && View(t) == map[]
  {
  }

  /** rehash's loop from slot `m` of the old vector on: every occupied slot moves to
      the first unoccupied slot from its home in the new vector `acc`. */
  function Reinsert<V>(hash: int -> nat, src: seq<Slot<V>>, m: int, acc: seq<Slot<V>>): (r: seq<Slot<V>>)
    requires 0 <= m <= |src| && |acc| > 0
    requires |Display(acc)| + |Display(src[m..])| <= |acc|
    ensures |r| == |acc|
    ensures multiset(Display(r)) == multiset(Display(acc)) + multiset(Display(src[m..]))
    decreases |src| - m
  {
    if m == |src| then acc
    else
      assert Display(src[m..]) == One(src[m]) + Display(src[m + 1..]) by {
        assert src[m..][1..] == src[m + 1..];
      }
      if src[m].Occupied? then
        var h := Home(hash, src[m].key, |acc|);
        StopExists(acc, h, src[m].key);
        var i := Pos(h, FreeStep(acc, h, 0), |acc|);
        ClaimElems(acc, i, src[m]);
        Reinsert(hash, src, m + 1, acc[i := src[m]])
      else
        Reinsert(hash, src, m + 1, acc)
  }

  /** One pass of rehash's loop, unfolded: the entry of slot `m`, if any, is written
      to the first unoccupied slot from its home. */
  lemma ReinsertStep<V>(hash: int -> nat, src: seq<Slot<V>>, m: int, acc: seq<Slot<V>>)
      returns (acc': seq<Slot<V>>)
    requires 0 <= m < |src| && |acc| > 0
    requires |Display(acc)| + |Display(src[m..])| <= |acc|
    ensures Display(src[m..]) == One(src[m]) + Display(src[m + 1..])
    ensures |acc'| == |acc| && |Display(acc')| + |Display(src[m + 1..])| <= |acc'|
    ensures Reinsert(hash, src, m, acc) == Reinsert(hash, src, m + 1, acc')
    ensures !src[m].Occupied? ==> acc' == acc
    ensures src[m].Occupied? ==> (exists i ::
      0 <= i < |acc| && !acc[i].Occupied? && acc' == acc[i := src[m]] &&
      (forall e :: 0 <= e < Dist(Home(hash, src[m].key, |acc|), i, |acc|) ==>
        acc[Pos(Home(hash, src[m].key, |acc|), e, |acc|)].Occupied?))
  {
    assert src[m..][1..] == src[m + 1..];
    if src[m].Occupied? {
      var h := Home(hash, src[m].key, |acc|);
      StopExists(acc, h, src[m].key);
      var d := FreeStep(acc, h, 0);
      var i := Pos(h, d, |acc|);
      ClaimElems(acc, i, src[m]);
      acc' := acc[i := src[m]];
      assert Dist(h, i, |acc|) == d by {
        if Dist(h, i, |acc|) != d {
          PosDistinct(h, Dist(h, i, |acc|), d, |acc|);
        }
      }
    } else {
      acc' := acc;
    }
  }

  /** rehash never leaves a removed slot. */
  lemma {:induction false} ReinsertNoTombstones<V>(hash: int -> nat, src: seq<Slot<V>>, m: int, acc: seq<Slot<V>>)
    requires 0 <= m <= |src| && |acc| > 0
    requires |Display(acc)| + |Display(src[m..])| <= |acc|
    requires NoTombstones(acc)
    ensures NoTombstones(Reinsert(hash, src, m, acc))
    decreases |src| - m
  {
    if m < |src| {
      var acc' := ReinsertStep(hash, src, m, acc);
      ReinsertNoTombstones(hash, src, m + 1, acc');
    }
  }

  /** rehash places every entry where a lookup of its key reaches it. */
  lemma {:induction false} ReinsertReachable<V>(hash: int -> nat, src: seq<Slot<V>>, m: int, acc: seq<Slot<V>>)
    requires 0 <= m <= |src| && |acc| > 0
    requires |Display(acc)| + |Display(src[m..])| <= |acc|
    requires Reachable(hash, acc)
    ensures Reachable(hash, Reinsert(hash, src, m, acc))
    decreases |src| - m
  {
    if m < |src| {
      var acc' := ReinsertStep(hash, src, m, acc);
      if src[m].Occupied? {
        var i :| 0 <= i < |acc| && !acc[i].Occupied? && acc' == acc[i := src[m]] &&
          (forall e :: 0 <= e < Dist(Home(hash, src[m].key, |acc|), i, |acc|) ==>
            acc[Pos(Home(hash, src[m].key, |acc|), e, |acc|)].Occupied?);
        WriteReachable(hash, acc, i, src[m]);
      }
      ReinsertReachable(hash, src, m + 1, acc');
    }
  }

  /** rehash keeps keys unique when the entries still to move have unique keys, none
      of them already placed. */
  lemma {:induction false} ReinsertUnique<V>(hash: int -> nat, src: seq<Slot<V>>, m: int, acc: seq<Slot<V>>)
    requires 0 <= m <= |src| && |acc| > 0
    requires |Display(acc)| + |Display(src[m..])| <= |acc|
    requires Unique(acc) && UniqueKeys(Display(src[m..]))
    requires KeysOf(Display(acc)) !! KeysOf(Display(src[m..]))
    ensures Unique(Reinsert(hash, src, m, acc))
    decreases |src| - m
  {
    if m < |src| {
      var acc' := ReinsertStep(hash, src, m, acc);
      var rest := Display(src[m + 1..]);
      if src[m].Occupied? {
        var i :| 0 <= i < |acc| && !acc[i].Occupied? && acc' == acc[i := src[m]];
        ClaimUnique(acc, i, src[m], rest);
      } else {
        assert One(src[m]) == [];
        assert Display(src[m..]) == rest;
      }
      ReinsertUnique(hash, src, m + 1, acc');
    }
  }

  /** Moving the first of the entries still to move into an unoccupied slot keeps the
      placed keys unique and apart from the keys still to move. */
  lemma ClaimUnique<V>(acc: seq<Slot<V>>, i: int, x: Slot<V>, rest: seq<(int, V)>)
    requires 0 <= i < |acc| && !acc[i].Occupied? && x.Occupied?
    requires Unique(acc) && UniqueKeys(One(x) + rest)
    requires KeysOf(Display(acc)) !! KeysOf(One(x) + rest)
    ensures Unique(acc[i := x]) && UniqueKeys(rest)
    ensures KeysOf(Display(acc[i := x])) !! KeysOf(rest)
  {
    UniqueSplit(One(x), rest);
    KeysOfAppend(One(x), rest);
    assert One(x) == [(x.key, x.value)];
    assert KeysOf(One(x)) == {x.key};
    ClaimElems(acc, i, x);
    WriteView(acc, i, x.key, x.value);
    assert acc[i := x] == acc[i := Occupied(x.key, x.value)];
  }

  /** Moving entries with unique keys into empty slots keeps them unique. */
  lemma ReinsertFresh<V>(hash: int -> nat, src: seq<Slot<V>>, acc: seq<Slot<V>>)
    requires |acc| > 0 && Display(acc) == [] && |Display(src)| <= |acc|
    ensures src[0..] == src
    ensures Unique(src) ==> Unique(Reinsert(hash, src, 0, acc))
  {
    assert src[0..] == src;
    if Unique(src) {
      ReinsertUnique(hash, src, 0, acc);
    }
  }

  /** rehash: move every entry into `n` fresh slots; the counter is kept. */
  function Rehash<V>(hash: int -> nat, t: Table<V>, n: int): (r: Table<V>)
    requires n > 0 && |Display(t.slots)| <= n
    ensures |r.slots| == n && r.count == t.count
    ensures multiset(Display(r.slots)) == multiset(Display(t.slots))
    ensures CountOk(t) ==> CountOk(r)
    ensures NoTombstones(r.slots) && Reachable(hash, r.slots)
    ensures Unique(t.slots) ==> Unique(r.slots) && View(r) == View(t)
  {
    var acc := Fresh(n);
    assert t.slots[0..] == t.slots;
    var s := Reinsert(hash, t.slots, 0, acc);
    ReinsertNoTombstones(hash, t.slots, 0, acc);
    ReinsertReachable(hash, t.slots, 0, acc);
    ReinsertFresh(hash, t.slots, acc);
    assert |multiset(Display(s))| == |Display(s)|;
    SameView(Display(t.slots), Display(s));
    Table(s, t.count)
  }

  /** Entries that are a permutation of entries with unique keys denote the same map. */
  lemma SameView<V>(a: seq<(int, V)>, b: seq<(int, V)>)
    requires multiset(a) == multiset(b)
    ensures UniqueKeys(a) && UniqueKeys(b) ==> ToMap(a) == ToMap(b)
  {
    if UniqueKeys(a) && UniqueKeys(b) {
      UniqueSameMap(a, b);
    }
  }

  /** add's load test, `num_elements + 1 > table_size * 0.75`, in integers. */
  predicate NeedsGrow<V>(t: Table<V>)
  {
    4 * (t.count + 1) > 3 * |t.slots|
  }

  /** The first half of add: double the capacity when the table would get too full. */
  function Grow<V>(hash: int -> nat, t: Table<V>): (r: Table<V>)
    requires |t.slots| > 0 && CountOk(t)
    ensures |r.slots| == if NeedsGrow(t) then 2 * |t.slots| else |t.slots|
    ensures r.count == t.count && CountOk(r) && |Display(r.slots)| < |r.slots|
    ensures LoadOk(t) ==> 4 * (t.count + 1) <= 3 * |r.slots|
    ensures Reachable(hash, t.slots) ==> Reachable(hash, r.slots)
    ensures NoTombstones(t.slots) ==> NoTombstones(r.slots)
    ensures Unique(t.slots) ==> Unique(r.slots) && View(r) == View(t)
  {
    DisplayLength(t.slots);
    if NeedsGrow(t) then Rehash(hash, t, 2 * |t.slots|) else t
  }

  /** The slot a lookup for `k` finds, if any. */
  function Lookup<V>(hash: int -> nat, s: seq<Slot<V>>, k: int): (r: Option<int>)
    requires |s| > 0
    ensures r.Some? ==> Holds(s, r.value, k)
    ensures Reachable(hash, s) ==> (r.Some? <==> k in KeysOf(Display(s)))
  {
    ProbeComplete(hash, s, k);
    Probe(s, Home(hash, k, |s|), k, 0)
  }

  /** The second half of add: probe for the first slot that is unoccupied or holds
      `k` and write the entry there; the counter grows when the slot was unoccupied. */
  function Put<V>(hash: int -> nat, t: Table<V>, k: int, v: V): (r: Table<V>)
    requires |t.slots| > 0 && |Display(t.slots)| < |t.slots|
    ensures |r.slots| == |t.slots| && t.count <= r.count <= t.count + 1
    ensures Lookup(hash, r.slots, k).Some? && r.slots[Lookup(hash, r.slots, k).value].value == v
    ensures CountOk(t) ==> CountOk(r)
    ensures Reachable(hash, t.slots) ==> Reachable(hash, r.slots)
    ensures NoTombstones(t.slots) ==> NoTombstones(r.slots)
    ensures Reachable(hash, t.slots) && Unique(t.slots) &&
            (NoTombstones(t.slots) || Lookup(hash, t.slots, k).None?) ==>
            Unique(r.slots) && View(r) == View(t)[k := v] &&
            r.count == if k in View(t) then t.count else t.count + 1
  {
    var s := t.slots;
    var h := Home(hash, k, |s|);
    StopExists(s, h, k);
    var d := AddStep(s, h, k, 0);
    var i := Pos(h, d, |s|);
    var s' := s[i := Occupied(k, v)];
    PutCorrect(hash, s, k, v, d);
    Table(s', if s[i].Occupied? then t.count else t.count + 1)
  }

  lemma PutCorrect<V>(hash: int -> nat, s: seq<Slot<V>>, k: int, v: V, d: int)
    requires |s| > 0
    requires exists d' :: 0 <= d' < |s| && Stops(s, Pos(Home(hash, k, |s|), d', |s|), k)
    requires d == AddStep(s, Home(hash, k, |s|), k, 0)
    ensures var i := Pos(Home(hash, k, |s|), d, |s|); var s' := s[i := Occupied(k, v)];
      Lookup(hash, s', k) == Some(i) &&
      (|Display(s')| == if s[i].Occupied? then |Display(s)| else |Display(s)| + 1) &&
      (Reachable(hash, s) ==> Reachable(hash, s')) &&
      (NoTombstones(s) ==> NoTombstones(s')) &&
      (Reachable(hash, s) && Unique(s) && (NoTombstones(s) || Lookup(hash, s, k).None?) ==>
        Unique(s') && ToMap(Display(s')) == ToMap(Display(s))[k := v] &&
        (s[i].Occupied? <==> k in KeysOf(Display(s))))
  {
    var h := Home(hash, k, |s|);
    var i := Pos(h, d, |s|);
    var s' := s[i := Occupied(k, v)];
    forall e' | 0 <= e' < d
      ensures s'[Pos(h, e', |s|)].Occupied? && s'[Pos(h, e', |s|)].key != k
    {
      PosDistinct(h, e', d, |s|);
    }
    ProbeFirst(s', h, k, 0, d);
    assert Dist(h, i, |s|) == d by {
      if Dist(h, i, |s|) != d {
        PosDistinct(h, Dist(h, i, |s|), d, |s|);
      }
    }
    WriteReachable(hash, s, i, Occupied(k, v));
    ProbeAgree(s, h, k, 0);
    if s[i].Occupied? {
      DisplayUpdate(s, i, Occupied(k, v));
      assert One(s[i]) == [(k, s[i].value)] && One(Occupied(k, v)) == [(k, v)];
    } else {
      ClaimElems(s, i, Occupied(k, v));
    }
    if Reachable(hash, s) && Unique(s) && (NoTombstones(s) || Lookup(hash, s, k).None?) {
      DisplayKeys(s, k);
      if s[i].Occupied? {
        assert Holds(s, i, k);
        UniqueFirst(s, i);
      } else {
        assert Lookup(hash, s, k).None?;
      }
      WriteView(s, i, k, v);
    }
  }

  /** contains: whether a lookup finds the key. */
  function Contains<V>(hash: int -> nat, t: Table<V>, k: int): (b: bool)
    requires |t.slots| > 0
    ensures b ==> k in KeysOf(Display(t.slots))
    ensures Reachable(hash, t.slots) ==> (b <==> k in View(t))
  {
    DisplayKeys(t.slots, k);
    Lookup(hash, t.slots, k).Some?
  }

  /** at, read side, and search: the value in the slot a lookup finds, or `None`
      where at throws "key not found" and search returns false. */
  function At<V>(hash: int -> nat, t: Table<V>, k: int): (r: Option<V>)
    requires |t.slots| > 0
    ensures r.Some? ==> (k, r.value) in Display(t.slots)
    ensures Reachable(hash, t.slots) && Unique(t.slots) ==> r == Get(View(t), k)
  {
    var s := t.slots;
    ProbeValue(hash, s, k);
    match Lookup(hash, s, k)
    case None => None
    case Some(i) =>
      DisplayMember(s, k, s[i].value);
      Some(s[i].value)
  }

  /** Under reachability and unique keys, the slot a lookup finds holds the value the
      map stores. */
  lemma ProbeValue<V>(hash: int -> nat, s: seq<Slot<V>>, k: int)
    requires |s| > 0
    ensures Reachable(hash, s) && Unique(s) ==>
      Get(ToMap(Display(s)), k) ==
        if Lookup(hash, s, k).Some? then Some(s[Lookup(hash, s, k).value].value) else None
  {
    GetToMap(Display(s), k);
    var r := Lookup(hash, s, k);
    if Reachable(hash, s) && Unique(s) && r.Some? {
      DisplayMember(s, k, s[r.value].value);
      UniqueMember(Display(s), k, s[r.value].value);
    }
  }

  /** Overwriting the slot a lookup found: the lookup still finds it, the number of
      entries is kept, and under the invariants the map is updated at `k`. */
  lemma Overwrite<V>(hash: int -> nat, s: seq<Slot<V>>, k: int, v: V, i: int)
    requires |s| > 0 && Lookup(hash, s, k) == Some(i)
    ensures var s' := s[i := Occupied(k, v)];
      Lookup(hash, s', k) == Some(i) && |Display(s')| == |Display(s)| &&
      k in KeysOf(Display(s)) &&
      (Reachable(hash, s) ==> Reachable(hash, s')) &&
      (NoTombstones(s) ==> NoTombstones(s')) &&
      (Reachable(hash, s) && Unique(s) ==>
        Unique(s') && ToMap(Display(s')) == ToMap(Display(s))[k := v])
  {
    ProbeWrite(s, Home(hash, k, |s|), k, 0, i, v);
    DisplayKeys(s, k);
    if Reachable(hash, s) {
      assert NoGap(hash, s, i);
      WriteReachable(hash, s, i, Occupied(k, v));
      if Unique(s) {
        UniqueFirst(s, i);
        WriteView(s, i, k, v);
      }
    }
    DisplayUpdate(s, i, Occupied(k, v));
    assert One(s[i]) == [(k, s[i].value)] && One(Occupied(k, v)) == [(k, v)];
  }

  /** at, write side: assigning through the reference at returns overwrites the value
      in the slot a lookup finds; `None` where at throws. */
  function SetAt<V>(hash: int -> nat, t: Table<V>, k: int, v: V): (r: Option<Table<V>>)
    requires |t.slots| > 0
    ensures Reachable(hash, t.slots) ==> (r.Some? <==> k in View(t))
    ensures r.Some? ==>
      |r.value.slots| == |t.slots| && r.value.count == t.count && At(hash, r.value, k) == Some(v)
    ensures r.Some? && CountOk(t) ==> CountOk(r.value)
    ensures r.Some? && Reachable(hash, t.slots) ==> Reachable(hash, r.value.slots)
    ensures r.Some? && NoTombstones(t.slots) ==> NoTombstones(r.value.slots)
    ensures r.Some? && Reachable(hash, t.slots) && Unique(t.slots) ==>
      Unique(r.value.slots) && View(r.value) == View(t)[k := v]
  {
    match Lookup(hash, t.slots, k)
    case None => None
    case Some(i) =>
      Overwrite(hash, t.slots, k, v, i);
      Some(Table(t.slots[i := Occupied(k, v)], t.count))
  }

  /** add as written: grow when needed, then write the entry where add's probe stops,
      which may be a removed slot in front of the key's existing slot. */
  function Add<V>(hash: int -> nat, t: Table<V>, k: int, v: V): (r: Table<V>)
    requires |t.slots| > 0 && CountOk(t)
    ensures |r.slots| == if NeedsGrow(t) then 2 * |t.slots| else |t.slots|
    ensures CountOk(r) && At(hash, r, k) == Some(v)
    ensures LoadOk(t) ==> LoadOk(r)
    ensures Reachable(hash, t.slots) ==> Reachable(hash, r.slots)
    ensures Reachable(hash, t.slots) && Unique(t.slots) && NoTombstones(t.slots) ==>
      Unique(r.slots) && NoTombstones(r.slots) && View(r) == View(t)[k := v] &&
      r.count == if k in View(t) then t.count else t.count + 1
  {
    Put(hash, Grow(hash, t), k, v)
  }

  /** When no doubling is due, add writes the entry into the first slot along the
      key's probe path that is unoccupied or holds the key, and counts it when that
      slot was unoccupied. */
  lemma AddWrites<V>(hash: int -> nat, t: Table<V>, k: int, v: V, i: int)
    requires |t.slots| > 0 && CountOk(t) && !NeedsGrow(t)
    requires 0 <= i < |t.slots| && Stops(t.slots, i, k)
    requires var h := Home(hash, k, |t.slots|);
      forall e :: 0 <= e < Dist(h, i, |t.slots|) ==> !Stops(t.slots, Pos(h, e, |t.slots|), k)
    ensures Add(hash, t, k, v) ==
      Table(t.slots[i := Occupied(k, v)], if t.slots[i].Occupied? then t.count else t.count + 1)
  {
    var s, n := t.slots, |t.slots|;
    DisplayLength(s);
    assert Grow(hash, t) == t;
    var h := Home(hash, k, n);
    StopExists(s, h, k);
    var d := AddStep(s, h, k, 0);
    assert Pos(h, d, n) == i;
  }

  /** When no doubling is due and a lookup finds the key, the corrected add overwrites
      that slot and keeps the counter. */
  lemma AddFixedOverwrites<V>(hash: int -> nat, t: Table<V>, k: int, v: V, i: int)
    requires |t.slots| > 0 && CountOk(t) && !NeedsGrow(t)
    requires Lookup(hash, t.slots, k) == Some(i)
    ensures AddFixed(hash, t, k, v) == Table(t.slots[i := Occupied(k, v)], t.count)
  {
    DisplayLength(t.slots);
    assert Grow(hash, t) == t;
  }

  /** Without removed slots, add's probe stops at the slot a lookup finds. */
  lemma AddStepFinds<V>(hash: int -> nat, s: seq<Slot<V>>, k: int, i: int)
    requires |s| > 0 && |Display(s)| < |s|
    requires Lookup(hash, s, k) == Some(i)
    ensures exists d :: 0 <= d < |s| && Stops(s, Pos(Home(hash, k, |s|), d, |s|), k)
    ensures NoTombstones(s) ==>
      Pos(Home(hash, k, |s|), AddStep(s, Home(hash, k, |s|), k, 0), |s|) == i
  {
    StopExists(s, Home(hash, k, |s|), k);
    ProbeAgree(s, Home(hash, k, |s|), k, 0);
  }

  /** add with the overwrite its comment promises: when a lookup finds the key, its
      value is overwritten in place; only otherwise is the entry written where add's
      probe stops. */
  function AddFixed<V>(hash: int -> nat, t: Table<V>, k: int, v: V): (r: Table<V>)
    requires |t.slots| > 0 && CountOk(t)
    ensures |r.slots| == if NeedsGrow(t) then 2 * |t.slots| else |t.slots|
    ensures CountOk(r) && At(hash, r, k) == Some(v)
    ensures LoadOk(t) ==> LoadOk(r)
    ensures Reachable(hash, t.slots) ==> Reachable(hash, r.slots)
    ensures Reachable(hash, t.slots) && Unique(t.slots) ==>
      Unique(r.slots) && View(r) == View(t)[k := v] &&
      r.count == if k in View(t) then t.count else t.count + 1
    ensures NoTombstones(t.slots) ==> r == Add(hash, t, k, v)
  {
    var t1 := Grow(hash, t);
    match Lookup(hash, t1.slots, k)
    case Some(i) =>
      Overwrite(hash, t1.slots, k, v, i);
      AddStepFinds(hash, t1.slots, k, i);
      Table(t1.slots[i := Occupied(k, v)], t1.count)
    case None => Put(hash, t1, k, v)
  }

  /** remove: mark the slot a lookup finds as removed and decrement the counter; report
      whether there was one. */
  function Remove<V>(hash: int -> nat, t: Table<V>, k: int): (r: (bool, Table<V>))
    requires |t.slots| > 0
    ensures Reachable(hash, t.slots) ==> (r.0 <==> k in View(t))
    ensures !r.0 ==> r.1 == t
    ensures r.0 ==> |r.1.slots| == |t.slots| && r.1.count == t.count - 1
    ensures CountOk(t) ==> CountOk(r.1)
    ensures Reachable(hash, t.slots) ==> Reachable(hash, r.1.slots)
    ensures Reachable(hash, t.slots) && Unique(t.slots) ==>
      Unique(r.1.slots) && View(r.1) == View(t) - {k}
  {
    match Lookup(hash, t.slots, k)
    case None => (false, t)
    case Some(i) =>
      WriteReachable(hash, t.slots, i, Removed);
      EraseView(t.slots, i);
      (true, Table(t.slots[i := Removed], t.count - 1))
  }

  /** clear: every slot empty and the counter zero; the capacity is kept. */
  function Clear<V>(t: Table<V>): (r: Table<V>)
    ensures |r.slots| == |t.slots| && r.count == 0
    ensures CountOk(r) && NoTombstones(r.slots) && Unique(r.slots) && View(r) == map[]
  {
    Table(Fresh(|t.slots|), 0)
  }

  /** A cleared table is a valid empty table again. */
  lemma ClearValid<V>(hash: int -> nat, t: Table<V>)
    requires |t.slots| > 0
    ensures Reachable(hash, Clear(t).slots) && LoadOk(Clear(t))
  {
  }

  /** display lists exactly the occupied slots' entries, one per counted element;
      under unique keys these are exactly the map's pairs. */
  lemma DisplayCorrect<V>(t: Table<V>, k: int, v: V)
    requires CountOk(t)
    ensures |Display(t.slots)| == t.count
    ensures (k, v) in Display(t.slots) <==>
      exists i :: 0 <= i < |t.slots| && t.slots[i] == Occupied(k, v)
    ensures Unique(t.slots) ==> ((k, v) in Display(t.slots) <==> k in View(t) && View(t)[k] == v)
  {
    DisplayMember(t.slots, k, v);
    if Unique(t.slots) {
      UniqueMember(Display(t.slots), k, v);
      GetToMap(Display(t.slots), k);
    }
  }

  /** A table built by add alone from a new table keeps unique keys: every state of a
      remove-free history satisfies the invariants add needs. */
  lemma AddHistory<V>(hash: int -> nat, size: int, ks: seq<int>, v: V)
    requires size > 0
    ensures var t := AddAll(hash, New(size), ks, v);
      CountOk(t) && LoadOk(t) && Reachable(hash, t.slots) && Unique(t.slots) &&
      NoTombstones(t.slots) && View(t).Keys == KeySet(ks)
  {
    AddAllKeeps(hash, New(size), ks, v);
  }

  /** add each key of `ks` in turn with value `v`. */
  function AddAll<V>(hash: int -> nat, t: Table<V>, ks: seq<int>, v: V): (r: Table<V>)
    requires |t.slots| > 0 && CountOk(t)
    ensures |r.slots| > 0 && CountOk(r)
    decreases |ks|
  {
    if |ks| == 0 then t else AddAll(hash, Add(hash, t, ks[0], v), ks[1..], v)
  }

  lemma {:induction false} AddAllKeeps<V>(hash: int -> nat, t: Table<V>, ks: seq<int>, v: V)
    requires AddReady(hash, t)
    ensures var r := AddAll(hash, t, ks, v);
      AddReady(hash, r) && View(r).Keys == View(t).Keys + KeySet(ks)
    decreases |ks|
  {
    if |ks| == 0 {
      assert KeySet(ks) == {};
    } else {
      var t' := Add(hash, t, ks[0], v);
      var r := AddAll(hash, t', ks[1..], v);
      assert AddAll(hash, t, ks, v) == r;
      AddKeeps(hash, t, ks[0], v);
      AddAllKeeps(hash, t', ks[1..], v);
      KeySetCons(ks);
      var a, b, c := View(t).Keys, View(t').Keys, View(r).Keys;
      assert b == a + {ks[0]} && c == b + KeySet(ks[1..]);
    }
  }

  /** The invariants a history of adds alone keeps. */
  ghost predicate AddReady<V>(hash: int -> nat, t: Table<V>)
  {
    |t.slots| > 0 && CountOk(t) && LoadOk(t) &&
    Reachable(hash, t.slots) && Unique(t.slots) && NoTombstones(t.slots)
  }

  /** One add keeps the invariants and adds its key to the stored keys. */
  lemma AddKeeps<V>(hash: int -> nat, t: Table<V>, k: int, v: V)
    requires AddReady(hash, t)
    ensures AddReady(hash, Add(hash, t, k, v))
    ensures View(Add(hash, t, k, v)).Keys == View(t).Keys + {k}
  {
  }

  /** The keys a sequence lists. */
  function KeySet(ks: seq<int>): set<int>
  {
    set k | k in ks
  }

  lemma KeySetCons(ks: seq<int>)
    requires |ks| > 0
    ensures KeySet(ks) == {ks[0]} + KeySet(ks[1..])
  {
    assert ks == [ks[0]] + ks[1..];
  }

  /** display of a four-slot table, slot by slot. */
  lemma DisplayFour<V>(a: Slot<V>, b: Slot<V>, c: Slot<V>, d: Slot<V>)
    ensures Display([a, b, c, d]) == One(a) + One(b) + One(c) + One(d)
  {
    DisplayThree(b, c, d);
    DisplayCons(a, [b, c, d]);
    assert [a, b, c, d] == [a] + [b, c, d];
    Gather3(One(a), One(b), One(c), One(d));
  }

  lemma DisplayThree<V>(b: Slot<V>, c: Slot<V>, d: Slot<V>)
    ensures Display([b, c, d]) == One(b) + One(c) + One(d)
  {
    var e: seq<Slot<V>> := [];
    DisplayCons(d, e);
    assert [d] == [d] + e;
    DisplayCons(c, [d]);
    assert [c, d] == [c] + [d];
    DisplayCons(b, [c, d]);
    assert [b, c, d] == [b] + [c, d];
    Gather3(One(b), One(c), One(d), []);
  }

  lemma Gather3<T>(x: seq<T>, y: seq<T>, z: seq<T>, w: seq<T>)
    ensures x + (y + z + w) == x + y + z + w
    ensures x + (y + (z + w)) == x + y + z + w
    ensures x + (y + z) == x + y + z
  {
  }

  lemma DisplayCons<V>(x: Slot<V>, s: seq<Slot<V>>)
    ensures Display([x] + s) == One(x) + Display(s)
  {
    assert ([x] + s)[1..] == s;
  }

  /** Writing one slot of a four-slot table. */
  lemma UpdateFour<V>(a: Slot<V>, b: Slot<V>, c: Slot<V>, d: Slot<V>, x: Slot<V>)
    ensures [a, b, c, d][0 := x] == [x, b, c, d]
    ensures [a, b, c, d][1 := x] == [a, x, c, d]
  {
  }

  /** A hash sending every key to slot 0, so that all keys share one probe sequence. */
  function ZeroHash(k: int): nat
  {
    0
  }

  /** add 1 into a new table of four slots writes slot 0. */
  lemma ExampleAddFirst()
    ensures Add(ZeroHash, New(4), 1, 'a') == Table([Occupied(1, 'a'), Empty, Empty, Empty], 1)
  {
    var t: Table<char> := New(4);
    assert t.slots == [Empty, Empty, Empty, Empty];
    assert Display(t.slots) == [];
    assert Home(ZeroHash, 1, 4) == 0;
    AddWrites(ZeroHash, t, 1, 'a', 0);
    UpdateFour(Empty, Empty, Empty, Empty, Occupied(1, 'a'));
  }

  /** add 2 after it probes past slot 0 to slot 1. */
  lemma ExampleAddSecond()
    ensures Display([Occupied(1, 'a'), Empty, Empty, Empty]) == [(1, 'a')]
    ensures Add(ZeroHash, Table([Occupied(1, 'a'), Empty, Empty, Empty], 1), 2, 'b') ==
      Table([Occupied(1, 'a'), Occupied(2, 'b'), Empty, Empty], 2)
  {
    var t: Table<char> := Table([Occupied(1, 'a'), Empty, Empty, Empty], 1);
    DisplayFour(Occupied(1, 'a'), Empty, Empty, Empty);
    assert Display(t.slots) == [(1, 'a')];
    assert Home(ZeroHash, 2, 4) == 0;
    assert Dist(0, 1, 4) == 1 && Pos(0, 0, 4) == 0;
    AddWrites(ZeroHash, t, 2, 'b', 1);
    UpdateFour(Occupied(1, 'a'), Empty, Empty, Empty, Occupied(2, 'b'));
  }

  /** remove 1 marks slot 0 removed. */
  lemma ExampleRemoveFirst()
    ensures Remove(ZeroHash, Table([Occupied(1, 'a'), Occupied(2, 'b'), Empty, Empty], 2), 1) ==
      (true, Table([Removed, Occupied(2, 'b'), Empty, Empty], 1))
  {
    var t: Table<char> := Table([Occupied(1, 'a'), Occupied(2, 'b'), Empty, Empty], 2);
    assert Home(ZeroHash, 1, 4) == 0;
    assert Lookup(ZeroHash, t.slots, 1) == Some(0);
    UpdateFour(Occupied(1, 'a'), Occupied(2, 'b'), Empty, Empty, Removed);
  }

  /** add 2 again stops at the removed slot 0, in front of slot 1 that holds 2. */
  lemma ExampleAddAgain()
    ensures Display([Removed, Occupied(2, 'b'), Empty, Empty]) == [(2, 'b')]
    ensures Add(ZeroHash, Table([Removed, Occupied(2, 'b'), Empty, Empty], 1), 2, 'c') ==
      Table([Occupied(2, 'c'), Occupied(2, 'b'), Empty, Empty], 2)
  {
    var t: Table<char> := Table([Removed, Occupied(2, 'b'), Empty, Empty], 1);
    DisplayFour(Removed, Occupied(2, 'b'), Empty, Empty);
    assert Display(t.slots) == [(2, 'b')];
    assert Home(ZeroHash, 2, 4) == 0;
    assert Dist(0, 0, 4) == 0;
    AddWrites(ZeroHash, t, 2, 'c', 0);
    UpdateFour(Removed, Occupied(2, 'b'), Empty, Empty, Occupied(2, 'c'));
  }

  /** The corrected add overwrites slot 1 instead. */
  lemma ExampleAddFixedAgain()
    ensures Display([Removed, Occupied(2, 'b'), Empty, Empty]) == [(2, 'b')]
    ensures AddFixed(ZeroHash, Table([Removed, Occupied(2, 'b'), Empty, Empty], 1), 2, 'c') ==
      Table([Removed, Occupied(2, 'c'), Empty, Empty], 1)
  {
    var t: Table<char> := Table([Removed, Occupied(2, 'b'), Empty, Empty], 1);
    DisplayFour(Removed, Occupied(2, 'b'), Empty, Empty);
    assert Display(t.slots) == [(2, 'b')];
    assert Home(ZeroHash, 2, 4) == 0;
    assert Probe(t.slots, 0, 2, 1) == Some(1);
    assert Lookup(ZeroHash, t.slots, 2) == Some(1);
    AddFixedOverwrites(ZeroHash, t, 2, 'c', 1);
    UpdateFour(Removed, Occupied(2, 'b'), Empty, Empty, Occupied(2, 'c'));
  }

  /** Removing 2 from the table with the duplicate clears only the first copy, so 2
      is still present. */
  lemma ExampleRemoveDuplicate()
    ensures Remove(ZeroHash, Table([Occupied(2, 'c'), Occupied(2, 'b'), Empty, Empty], 2), 2) ==
      (true, Table([Removed, Occupied(2, 'b'), Empty, Empty], 1))
    ensures Contains(ZeroHash, Table([Removed, Occupied(2, 'b'), Empty, Empty], 1), 2)
  {
    var t: Table<char> := Table([Occupied(2, 'c'), Occupied(2, 'b'), Empty, Empty], 2);
    assert ZeroHash(2) == 0;
    assert Home(ZeroHash, 2, 4) == 0;
    assert Lookup(ZeroHash, t.slots, 2) == Some(0);
    UpdateFour(Occupied(2, 'c'), Occupied(2, 'b'), Empty, Empty, Removed);
    var u: Table<char> := Table([Removed, Occupied(2, 'b'), Empty, Empty], 1);
    assert Probe(u.slots, 0, 2, 1) == Some(1);
    assert Lookup(ZeroHash, u.slots, 2) == Some(1);
  }

  /** Removing 2 from the corrected table leaves it absent. */
  lemma ExampleRemoveFixed()
    ensures Remove(ZeroHash, Table([Removed, Occupied(2, 'c'), Empty, Empty], 1), 2) ==
      (true, Table([Removed, Removed, Empty, Empty], 0))
    ensures !Contains<char>(ZeroHash, Table([Removed, Removed, Empty, Empty], 0), 2)
  {
    var w: Table<char> := Table([Removed, Occupied(2, 'c'), Empty, Empty], 1);
    assert ZeroHash(2) == 0;
    assert Home(ZeroHash, 2, 4) == 0;
    assert Probe(w.slots, 0, 2, 1) == Some(1);
    assert Lookup(ZeroHash, w.slots, 2) == Some(1);
    UpdateFour(Removed, Occupied(2, 'c'), Empty, Empty, Removed);
    var z: Table<char> := Table([Removed, Removed, Empty, Empty], 0);
    assert Probe(z.slots, 0, 2, 2) == None;
    assert Probe(z.slots, 0, 2, 1) == None;
    assert Lookup(ZeroHash, z.slots, 2) == None;
  }

  /** Two slots holding key 2 list it twice. */
  lemma ExampleDuplicate()
    ensures CountOk(Table([Occupied(2, 'c'), Occupied(2, 'b'), Empty, Empty], 2))
    ensures !Unique([Occupied(2, 'c'), Occupied(2, 'b'), Empty, Empty])
  {
    DisplayFour(Occupied(2, 'c'), Occupied(2, 'b'), Empty, Empty);
    assert One(Occupied(2, 'c')) == [(2, 'c')] && One(Occupied(2, 'b')) == [(2, 'b')];
    assert One<char>(Empty) == [];
    var r := Display([Occupied(2, 'c'), Occupied(2, 'b'), Empty, Empty]);
    assert r == [(2, 'c'), (2, 'b')];
    assert r[0].0 == r[1].0;
  }

  /** One slot holding key 2 lists it once. */
  lemma ExampleSingle()
    ensures Unique([Removed, Occupied(2, 'c'), Empty, Empty])
  {
    DisplayFour(Removed, Occupied(2, 'c'), Empty, Empty);
    assert One(Occupied(2, 'c')) == [(2, 'c')];
    assert One<char>(Empty) == [] && One<char>(Removed) == [];
    assert Display([Removed, Occupied(2, 'c'), Empty, Empty]) == [(2, 'c')];
  }

  /** The discrepancy: with every key hashing to slot 0 of four, add 1, add 2, remove 1,
      add 2 leaves key 2 in two slots with a counter of two for one key; removing 2
      then leaves 2 present. */
  lemma DuplicateAfterRemove()
    ensures var t2 := Add(ZeroHash, Add(ZeroHash, New(4), 1, 'a'), 2, 'b');
      var t := Add(ZeroHash, Remove(ZeroHash, t2, 1).1, 2, 'c');
      t.slots == [Occupied(2, 'c'), Occupied(2, 'b'), Empty, Empty] && t.count == 2 &&
      !Unique(t.slots) && Contains(ZeroHash, Remove(ZeroHash, t, 2).1, 2)
  {
    ExampleAddFirst();
    var t1 := Add(ZeroHash, New(4), 1, 'a');
    assert t1 == Table([Occupied(1, 'a'), Empty, Empty, Empty], 1);
    ExampleAddSecond();
    var t2 := Add(ZeroHash, t1, 2, 'b');
    assert t2 == Table([Occupied(1, 'a'), Occupied(2, 'b'), Empty, Empty], 2);
    ExampleRemoveFirst();
    var t3 := Remove(ZeroHash, t2, 1).1;
    assert t3 == Table([Removed, Occupied(2, 'b'), Empty, Empty], 1);
    ExampleAddAgain();
    var t := Add(ZeroHash, t3, 2, 'c');
    assert t == Table([Occupied(2, 'c'), Occupied(2, 'b'), Empty, Empty], 2);
    ExampleRemoveDuplicate();
    ExampleDuplicate();
  }

  /** The same history with the corrected add keeps one slot per key, and removing 2
      afterwards leaves the table without it. */
  lemma NoDuplicateFixed()
    ensures var t2 := Add(ZeroHash, Add(ZeroHash, New(4), 1, 'a'), 2, 'b');
      var t := AddFixed(ZeroHash, Remove(ZeroHash, t2, 1).1, 2, 'c');
      t.slots == [Removed, Occupied(2, 'c'), Empty, Empty] && t.count == 1 &&
      Unique(t.slots) && !Contains(ZeroHash, Remove(ZeroHash, t, 2).1, 2)
  {
    ExampleAddFirst();
    var t1 := Add(ZeroHash, New(4), 1, 'a');
    assert t1 == Table([Occupied(1, 'a'), Empty, Empty, Empty], 1);
    ExampleAddSecond();
    var t2 := Add(ZeroHash, t1, 2, 'b');
    assert t2 == Table([Occupied(1, 'a'), Occupied(2, 'b'), Empty, Empty], 2);
    ExampleRemoveFirst();
    var t3 := Remove(ZeroHash, t2, 1).1;
    assert t3 == Table([Removed, Occupied(2, 'b'), Empty, Empty], 1);
    ExampleAddFixedAgain();
    var t := AddFixed(ZeroHash, t3, 2, 'c');
    assert t == Table([Removed, Occupied(2, 'c'), Empty, Empty], 1);
    ExampleRemoveFixed();
    ExampleSingle();
  }
}
