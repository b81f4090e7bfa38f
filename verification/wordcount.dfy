/** The word-frequency driver: for each word in turn, `contains`, then either
    `at(w) += 1` or `add(w, 1)`. Words are given as integer keys; tokenising, accent
    removal and file reading are not part of this model. Every engine, started empty,
    ends holding exactly the occurrence count of every word. */
module WordCount {
  import opened Entries
  import AvlTree
  import RbTree
  import ChainedHash
  import ProbingHash

  /** The reference: each word that occurs, mapped to its number of occurrences. */
  ghost function Frequencies(ws: seq<int>): map<int, int>
  {
    map w | w in multiset(ws) :: multiset(ws)[w]
  }

  /** One word counted into a map of counts. */
  ghost function Bump(m: map<int, int>, w: int): map<int, int>
  {
    if w in m then m[w := m[w] + 1] else m[w := 1]
  }

  lemma BumpPresent(m: map<int, int>, w: int, n: int)
    requires Get(m, w) == Some(n)
    ensures Bump(m, w) == m[w := n + 1]
  {
  }

  /** The counts after processing `ws` in order, starting from `m`. */
  ghost function Tally(m: map<int, int>, ws: seq<int>): map<int, int>
    decreases |ws|
  {
    if |ws| == 0 then m else Tally(Bump(m, ws[0]), ws[1..])
  }

  /** Counting words one at a time adds each word's occurrences to what was there. */
  lemma {:induction false} TallyAdds(m: map<int, int>, ws: seq<int>)
    ensures forall w :: w in Tally(m, ws) <==> w in m || w in multiset(ws)
    ensures forall w :: w in Tally(m, ws) ==>
      Tally(m, ws)[w] == (if w in m then m[w] else 0) + multiset(ws)[w]
    decreases |ws|
  {
    if |ws| > 0 {
      TallyAdds(Bump(m, ws[0]), ws[1..]);
      assert ws == [ws[0]] + ws[1..];
      assert multiset(ws) == multiset{ws[0]} + multiset(ws[1..]);
    }
  }

  /** Counting from nothing gives the occurrence counts. */
  lemma TallyFrequencies(ws: seq<int>)
    ensures Tally(map[], ws) == Frequencies(ws)
  {
    TallyAdds(map[], ws);
    var a, b := Tally(map[], ws), Frequencies(ws);
    assert forall w :: w in a <==> w in b;
    assert forall w :: w in a ==> a[w] == b[w];
  }

  /** One driver step on the AVL tree. */
  function AvlStep(t: AvlTree.Tree<int>, w: int): (r: AvlTree.Tree<int>)
    requires AvlTree.Avl(t) && AvlTree.Ordered(t)
    ensures AvlTree.Avl(r) && AvlTree.Ordered(r)
    ensures AvlTree.View(r) == Bump(AvlTree.View(t), w)
  {
    if AvlTree.Contains(t, w) then
      var n := AvlTree.At(t, w).value;
      AvlBump(t, w, n);
      AvlTree.SetAt(t, w, n + 1).value
    else
      AvlTree.InsertView(t, w, 1);
      AvlTree.Insert(t, w, 1)
  }

  lemma AvlBump(t: AvlTree.Tree<int>, w: int, n: int)
    requires AvlTree.Avl(t) && AvlTree.Ordered(t)
    requires AvlTree.At(t, w) == Some(n)
    ensures AvlTree.SetAt(t, w, n + 1).Some?
    ensures AvlTree.Avl(AvlTree.SetAt(t, w, n + 1).value)
    ensures AvlTree.Ordered(AvlTree.SetAt(t, w, n + 1).value)
    ensures AvlTree.View(AvlTree.SetAt(t, w, n + 1).value) == Bump(AvlTree.View(t), w)
  {
    var m := AvlTree.View(t);
    assert Get(m, w) == Some(n);
    assert w in KeysOf(AvlTree.Inorder(t)) by { assert w in m.Keys; }
    AvlTree.SetAtView(t, w, n + 1);
    BumpPresent(m, w, n);
  }

  /** One driver step on the red-black tree; `add` is reached only for an absent
      word, as that tree requires. */
  function RbStep(t: RbTree.Tree<int>, w: int): (r: RbTree.Tree<int>)
    requires RbTree.Ordered(t)
    ensures RbTree.Ordered(r)
    ensures RbTree.View(r) == Bump(RbTree.View(t), w)
  {
    if RbTree.Contains(t, w) then
      var n := RbTree.At(t, w).value;
      RbBump(t, w, n);
      RbTree.SetAt(t, w, n + 1).value
    else
      RbTree.AddView(t, w, 1);
      RbTree.Add(t, w, 1)
  }

  lemma RbBump(t: RbTree.Tree<int>, w: int, n: int)
    requires RbTree.Ordered(t)
    requires RbTree.At(t, w) == Some(n)
    ensures RbTree.SetAt(t, w, n + 1).Some?
    ensures RbTree.Ordered(RbTree.SetAt(t, w, n + 1).value)
    ensures RbTree.View(RbTree.SetAt(t, w, n + 1).value) == Bump(RbTree.View(t), w)
  {
    var m := RbTree.View(t);
    assert Get(m, w) == Some(n);
    assert w in KeysOf(RbTree.Inorder(t)) by { assert w in m.Keys; }
    RbTree.SetAtView(t, w, n + 1);
    BumpPresent(m, w, n);
  }

  /** One driver step on the chained table. */
  function ChainedStep(hash: int -> nat, t: ChainedHash.Table<int>, w: int): (r: ChainedHash.Table<int>)
    requires ChainedHash.WellFormed(hash, t)
    ensures ChainedHash.WellFormed(hash, r)
    ensures ChainedHash.View(r) == Bump(ChainedHash.View(t), w)
  {
    if ChainedHash.Contains(hash, t, w) then
      var n := ChainedHash.At(hash, t, w).value;
      ChainedBump(hash, t, w, n);
      ChainedHash.SetAt(hash, t, w, n + 1).value
    else
      ChainedFresh(hash, t, w);
      ChainedHash.Add(hash, t, w, 1)
  }

  lemma ChainedBump(hash: int -> nat, t: ChainedHash.Table<int>, w: int, n: int)
    requires ChainedHash.WellFormed(hash, t)
    requires ChainedHash.At(hash, t, w) == Some(n)
    ensures ChainedHash.SetAt(hash, t, w, n + 1).Some?
    ensures ChainedHash.WellFormed(hash, ChainedHash.SetAt(hash, t, w, n + 1).value)
    ensures ChainedHash.View(ChainedHash.SetAt(hash, t, w, n + 1).value) ==
      Bump(ChainedHash.View(t), w)
  {
    BumpPresent(ChainedHash.View(t), w, n);
  }

  lemma ChainedFresh(hash: int -> nat, t: ChainedHash.Table<int>, w: int)
    requires ChainedHash.WellFormed(hash, t)
    requires !ChainedHash.Contains(hash, t, w)
    ensures ChainedHash.WellFormed(hash, ChainedHash.Add(hash, t, w, 1))
    ensures ChainedHash.View(ChainedHash.Add(hash, t, w, 1)) == Bump(ChainedHash.View(t), w)
  {
    assert w !in ChainedHash.View(t);
  }

  /** The invariants the probing table keeps through the driver. */
  ghost predicate ProbingOk(hash: int -> nat, t: ProbingHash.Table<int>)
  {
    |t.slots| > 0 && ProbingHash.CountOk(t) && ProbingHash.Reachable(hash, t.slots) &&
    ProbingHash.Unique(t.slots)
  }

  /** One driver step on the probing table, with the add as written: add is reached
      only for an absent word. */
  function ProbingStep(hash: int -> nat, t: ProbingHash.Table<int>, w: int): (r: ProbingHash.Table<int>)
    requires ProbingOk(hash, t)
    ensures ProbingOk(hash, r)
    ensures ProbingHash.View(r) == Bump(ProbingHash.View(t), w)
  {
    if ProbingHash.Contains(hash, t, w) then
      var n := ProbingHash.At(hash, t, w).value;
      ProbingBump(hash, t, w, n);
      ProbingHash.SetAt(hash, t, w, n + 1).value
    else
      ProbingFresh(hash, t, w);
      ProbingHash.Add(hash, t, w, 1)
  }

  lemma ProbingBump(hash: int -> nat, t: ProbingHash.Table<int>, w: int, n: int)
    requires ProbingOk(hash, t)
    requires ProbingHash.At(hash, t, w) == Some(n)
    ensures ProbingHash.SetAt(hash, t, w, n + 1).Some?
    ensures ProbingOk(hash, ProbingHash.SetAt(hash, t, w, n + 1).value)
    ensures ProbingHash.View(ProbingHash.SetAt(hash, t, w, n + 1).value) ==
      Bump(ProbingHash.View(t), w)
  {
    BumpPresent(ProbingHash.View(t), w, n);
  }

  lemma ProbingFresh(hash: int -> nat, t: ProbingHash.Table<int>, w: int)
    requires ProbingOk(hash, t)
    requires !ProbingHash.Contains(hash, t, w)
    ensures ProbingOk(hash, ProbingHash.Add(hash, t, w, 1))
    ensures ProbingHash.View(ProbingHash.Add(hash, t, w, 1)) == Bump(ProbingHash.View(t), w)
  {
    assert w !in ProbingHash.View(t);
  }

  function AvlCount(t: AvlTree.Tree<int>, ws: seq<int>): (r: AvlTree.Tree<int>)
    requires AvlTree.Avl(t) && AvlTree.Ordered(t)
    ensures AvlTree.Avl(r) && AvlTree.Ordered(r)
    ensures AvlTree.View(r) == Tally(AvlTree.View(t), ws)
    decreases |ws|
  {
    if |ws| == 0 then t else AvlCount(AvlStep(t, ws[0]), ws[1..])
  }

  function RbCount(t: RbTree.Tree<int>, ws: seq<int>): (r: RbTree.Tree<int>)
    requires RbTree.Ordered(t)
    ensures RbTree.Ordered(r)
    ensures RbTree.View(r) == Tally(RbTree.View(t), ws)
    decreases |ws|
  {
    if |ws| == 0 then t else RbCount(RbStep(t, ws[0]), ws[1..])
  }

  function ChainedCount(hash: int -> nat, t: ChainedHash.Table<int>, ws: seq<int>): (r: ChainedHash.Table<int>)
    requires ChainedHash.WellFormed(hash, t)
    ensures ChainedHash.WellFormed(hash, r)
    ensures ChainedHash.View(r) == Tally(ChainedHash.View(t), ws)
    decreases |ws|
  {
    if |ws| == 0 then t else ChainedCount(hash, ChainedStep(hash, t, ws[0]), ws[1..])
  }

  function ProbingCount(hash: int -> nat, t: ProbingHash.Table<int>, ws: seq<int>): (r: ProbingHash.Table<int>)
    requires ProbingOk(hash, t)
    ensures ProbingOk(hash, r)
    ensures ProbingHash.View(r) == Tally(ProbingHash.View(t), ws)
    decreases |ws|
  {
    if |ws| == 0 then t else ProbingCount(hash, ProbingStep(hash, t, ws[0]), ws[1..])
  }

  /** All four engines, started empty, end with the occurrence count of every word,
      whatever the hash and whatever capacity the hash tables are built with. */
  lemma EnginesAgree(hash: int -> nat, n: nat, ws: seq<int>)
    requires n > 0
    ensures AvlTree.View(AvlCount(AvlTree.Leaf, ws)) == Frequencies(ws)
    ensures RbTree.View(RbCount(RbTree.Nil, ws)) == Frequencies(ws)
    ensures ChainedHash.WellFormed(hash, ChainedHash.New<int>(n))
    ensures ChainedHash.View(ChainedCount(hash, ChainedHash.New(n), ws)) == Frequencies(ws)
    ensures ProbingOk(hash, ProbingHash.New(n))
    ensures ProbingHash.View(ProbingCount(hash, ProbingHash.New(n), ws)) == Frequencies(ws)
  {
    TallyFrequencies(ws);
    var c: ChainedHash.Table<int> := ChainedHash.New(n);
    ChainedHash.EmptyValid(hash, c);
    ProbingHash.NewValid<int>(hash, n);
  }
}
