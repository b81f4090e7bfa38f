/** The height-balanced search tree (`avl_tree`): a recursive insert that ignores
    duplicate keys and restores balance with four rotation cases on the way back
    up, binary search, and in-order traversal. */
module AvlTree {
  import opened Entries

  /** A node stores its key, value and own height; `Leaf` is the absent child. */
  datatype Tree<V> = Leaf | Node(left: Tree<V>, key: int, value: V, height: int, right: Tree<V>)

  function Max(a: int, b: int): int
  {
    if a < b then b else a
  }

  /** get_height: an absent child has height 0, a node reports its stored height. */
  function Height<V>(t: Tree<V>): int
  {
    if t.Leaf? then 0 else t.height
  }

  /** get_balance: height of the left child minus height of the right child. */
  function BalanceFactor<V>(t: Tree<V>): int
  {
    if t.Leaf? then 0 else Height(t.left) - Height(t.right)
  }

  /** A node whose stored height is recomputed from its children, as the source
      does after every relink. */
  function Join<V>(l: Tree<V>, k: int, v: V, r: Tree<V>): Tree<V>
  {
    Node(l, k, v, 1 + Max(Height(l), Height(r)), r)
  }

  /** inorder_traversal: the (key, value) pairs left subtree first. */
  function Inorder<V>(t: Tree<V>): seq<(int, V)>
  {
    match t
    case Leaf => []
    case Node(l, k, v, _, r) => Inorder(l) + [(k, v)] + Inorder(r)
  }

  /** Every stored height is one more than the taller child's. */
  ghost predicate HeightsOk<V>(t: Tree<V>)
  {
    match t
    case Leaf => true
    case Node(l, _, _, h, r) => HeightsOk(l) && HeightsOk(r) && h == 1 + Max(Height(l), Height(r))
  }

  /** Heights are correct and the two children of every node differ in height by at most one. */
  ghost predicate Avl<V>(t: Tree<V>)
  {
    match t
    case Leaf => true
    case Node(l, _, _, h, r) =>
      Avl(l) && Avl(r) && h == 1 + Max(Height(l), Height(r)) && -1 <= Height(l) - Height(r) <= 1
  }

  /** The search-tree ordering: the traversal has strictly ascending keys. */
  ghost predicate Ordered<V>(t: Tree<V>)
  {
    Ascending(Inorder(t))
  }

  /** The abstract map the tree stores. */
  ghost function View<V>(t: Tree<V>): map<int, V>
  {
    ToMap(Inorder(t))
  }

  lemma {:induction false} HeightNonNeg<V>(t: Tree<V>)
    requires HeightsOk(t)
    ensures Height(t) >= 0
    ensures t.Node? ==> Height(t) >= 1
  {
    if t.Node? {
      HeightNonNeg(t.left);
      HeightNonNeg(t.right);
    }
  }

  lemma {:induction false} AvlHeightsOk<V>(t: Tree<V>)
    requires Avl(t)
    ensures HeightsOk(t)
  {
    if t.Node? {
      AvlHeightsOk(t.left);
      AvlHeightsOk(t.right);
    }
  }

  /** right_rotate: the left child `x` is promoted, `y` becomes its right child and
      takes over `x`'s right subtree; both heights are recomputed. */
  function RightRotate<V>(y: Tree<V>): (x: Tree<V>)
    requires y.Node? && y.left.Node?
    ensures Inorder(x) == Inorder(y)
    ensures x.Node? && x.key == y.left.key && x.right.Node? && x.right.key == y.key
    ensures HeightsOk(y.left.left) && HeightsOk(y.left.right) && HeightsOk(y.right) ==> HeightsOk(x)
  {
    var x := y.left;
    Join(x.left, x.key, x.value, Join(x.right, y.key, y.value, y.right))
  }

  /** left_rotate: the mirror image of `RightRotate`. */
  function LeftRotate<V>(x: Tree<V>): (y: Tree<V>)
    requires x.Node? && x.right.Node?
    ensures Inorder(y) == Inorder(x)
    ensures y.Node? && y.key == x.right.key && y.left.Node? && y.left.key == x.key
    ensures HeightsOk(x.left) && HeightsOk(x.right.left) && HeightsOk(x.right.right) ==> HeightsOk(y)
  {
    var y := x.right;
    Join(Join(x.left, x.key, x.value, y.left), y.key, y.value, y.right)
  }

  /** What the four rotation cases dereference: the heavy child, and for a double
      rotation also that child's inner grandchild. */
  ghost predicate RebalanceSafe<V>(n: Tree<V>, k: int)
  {
    && n.Node?
    && (BalanceFactor(n) > 1 ==> n.left.Node? && (k > n.left.key ==> n.left.right.Node?))
    && (BalanceFactor(n) < -1 ==> n.right.Node? && (k < n.right.key ==> n.right.left.Node?))
  }

  /** The tail of insert_rec after the height update: the four rotation cases,
      chosen by comparing the inserted key with the heavy child's key. */
  function Rebalance<V>(n: Tree<V>, k: int): (r: Tree<V>)
    requires RebalanceSafe(n, k)
    ensures Inorder(r) == Inorder(n)
  {
    var balance := BalanceFactor(n);
    if balance > 1 && k < n.left.key then
      RightRotate(n)
    else if balance < -1 && k > n.right.key then
      LeftRotate(n)
    else if balance > 1 && k > n.left.key then
      RightRotate(n.(left := LeftRotate(n.left)))
    else if balance < -1 && k < n.right.key then
      LeftRotate(n.(right := RightRotate(n.right)))
    else
      n
  }

  /** After an insertion below `t` made it one taller, no rotation happened at its
      root, and the side the key went to is now the taller one. */
  ghost predicate Grew<V>(t: Tree<V>, r: Tree<V>, k: int)
  {
    && t.Node? && r.Node?
    && r.key == t.key && k != t.key
    && (k < t.key ==> BalanceFactor(r) == 1)
    && (k > t.key ==> BalanceFactor(r) == -1)
  }

  /** The outcome an insertion below a balanced tree `t` must have. */
  ghost predicate InsertOutcome<V>(t: Tree<V>, r: Tree<V>, k: int)
  {
    && Avl(r)
    && Height(t) <= Height(r) <= Height(t) + 1
    && (t.Node? && Height(r) == Height(t) + 1 ==> Grew(t, r, k))
  }

  /** The left-right case of `Rebalance`, unfolded. */
  lemma RebalanceLeftRight<V>(n: Tree<V>, k: int)
    requires n.Node? && n.left.Node? && n.left.right.Node?
    requires BalanceFactor(n) > 1 && k > n.left.key
    ensures RebalanceSafe(n, k)
    ensures var l := n.left; var b := l.right;
      Rebalance(n, k) ==
        Join(Join(l.left, l.key, l.value, b.left), b.key, b.value, Join(b.right, n.key, n.value, n.right))
  {
  }

  /** The right-left case of `Rebalance`, unfolded. */
  lemma RebalanceRightLeft<V>(n: Tree<V>, k: int)
    requires n.Node? && n.right.Node? && n.right.left.Node?
    requires BalanceFactor(n) < -1 && k < n.right.key
    ensures RebalanceSafe(n, k)
    ensures var r := n.right; var a := r.left;
      Rebalance(n, k) ==
        Join(Join(n.left, n.key, n.value, a.left), a.key, a.value, Join(a.right, r.key, r.value, r.right))
  {
  }

  /** Joining two balanced subtrees whose heights differ by at most one. */
  lemma JoinAvl<V>(l: Tree<V>, k: int, v: V, r: Tree<V>)
    requires Avl(l) && Avl(r) && -1 <= Height(l) - Height(r) <= 1
    ensures Avl(Join(l, k, v, r)) && Height(Join(l, k, v, r)) == 1 + Max(Height(l), Height(r))
  {
  }

  /** The key went left: the four rotation cases rebalance, the new subtree is
      balanced, and it is at most one taller than before. */
  lemma InsertLeftCase<V>(t: Tree<V>, l': Tree<V>, k: int)
    requires Avl(t) && t.Node? && k < t.key
    requires InsertOutcome(t.left, l', k)
    ensures RebalanceSafe(Join(l', t.key, t.value, t.right), k)
    ensures InsertOutcome(t, Rebalance(Join(l', t.key, t.value, t.right), k), k)
  {
    var l, rt := t.left, t.right;
    var n := Join(l', t.key, t.value, rt);
    AvlHeightsOk(l); AvlHeightsOk(rt); AvlHeightsOk(l');
    HeightNonNeg(l); HeightNonNeg(rt); HeightNonNeg(l');
    if Height(l') == Height(rt) + 2 {
      assert Height(l) == Height(rt) + 1;
      assert Grew(l, l', k);
      if k < l'.key {
        LeftLeft(t, l', k);
      } else {
        LeftRight(t, l', k);
      }
    } else {
      assert Rebalance(n, k) == n;
    }
  }

  /** The key went into the left child's left subtree: one right rotation. */
  lemma LeftLeft<V>(t: Tree<V>, l': Tree<V>, k: int)
    requires Avl(t) && t.Node? && InsertOutcome(t.left, l', k)
    requires Height(l') == Height(t.right) + 2 && l'.Node? && k < l'.key
    ensures RebalanceSafe(Join(l', t.key, t.value, t.right), k)
    ensures InsertOutcome(t, Rebalance(Join(l', t.key, t.value, t.right), k), k)
  {
    AvlHeightsOk(t.left); AvlHeightsOk(t.right); AvlHeightsOk(l');
    HeightNonNeg(t.left); HeightNonNeg(t.right);
    assert Height(t.left) == Height(t.right) + 1;
    assert Grew(t.left, l', k);
    var rt := t.right;
    var n := Join(l', t.key, t.value, rt);
    var a, b := l'.left, l'.right;
    AvlHeightsOk(rt); AvlHeightsOk(a); AvlHeightsOk(b);
    HeightNonNeg(rt); HeightNonNeg(a); HeightNonNeg(b);
    assert Height(a) == Height(b) + 1;
    var r := Rebalance(n, k);
    assert r == RightRotate(n);
    assert r == Join(a, l'.key, l'.value, Join(b, t.key, t.value, rt));
  }

  /** The key went into the left child's right subtree: a left rotation of the child,
      then a right rotation. */
  lemma LeftRight<V>(t: Tree<V>, l': Tree<V>, k: int)
    requires Avl(t) && t.Node? && InsertOutcome(t.left, l', k)
    requires Height(l') == Height(t.right) + 2 && l'.Node? && k > l'.key
    ensures RebalanceSafe(Join(l', t.key, t.value, t.right), k)
    ensures InsertOutcome(t, Rebalance(Join(l', t.key, t.value, t.right), k), k)
  {
    AvlHeightsOk(t.left); AvlHeightsOk(t.right); AvlHeightsOk(l');
    HeightNonNeg(t.left); HeightNonNeg(t.right);
    assert Height(t.left) == Height(t.right) + 1;
    assert Grew(t.left, l', k);
    var rt := t.right;
    var n := Join(l', t.key, t.value, rt);
    var a, b := l'.left, l'.right;
    AvlHeightsOk(rt); AvlHeightsOk(a); AvlHeightsOk(b);
    HeightNonNeg(rt); HeightNonNeg(a); HeightNonNeg(b);
    assert Height(b) == Height(a) + 1;
    assert b.Node?;
    AvlHeightsOk(b.left); AvlHeightsOk(b.right);
    HeightNonNeg(b.left); HeightNonNeg(b.right);
    var h := Height(rt);
    assert Height(b) == h + 1 && Height(a) == h;
    assert h - 1 <= Height(b.left) <= h && h - 1 <= Height(b.right) <= h;
    var x := Join(a, l'.key, l'.value, b.left);
    var y := Join(b.right, t.key, t.value, rt);
    assert Height(x) == h + 1 && Height(y) == h + 1 && Height(t) == h + 2;
    JoinAvl(a, l'.key, l'.value, b.left);
    JoinAvl(b.right, t.key, t.value, rt);
    JoinAvl(x, b.key, b.value, y);
    RebalanceLeftRight(n, k);
    var r := Rebalance(n, k);
    assert r == Join(x, b.key, b.value, y);
    assert Avl(r) && Height(r) == Height(t);
    assert InsertOutcome(t, r, k);
  }

  /** The mirror image of `InsertLeftCase`. */
  lemma InsertRightCase<V>(t: Tree<V>, r': Tree<V>, k: int)
    requires Avl(t) && t.Node? && k > t.key
    requires InsertOutcome(t.right, r', k)
    ensures RebalanceSafe(Join(t.left, t.key, t.value, r'), k)
    ensures InsertOutcome(t, Rebalance(Join(t.left, t.key, t.value, r'), k), k)
  {
    var l, rt := t.left, t.right;
    var n := Join(l, t.key, t.value, r');
    AvlHeightsOk(l); AvlHeightsOk(rt); AvlHeightsOk(r');
    HeightNonNeg(l); HeightNonNeg(rt); HeightNonNeg(r');
    if Height(r') == Height(l) + 2 {
      assert Height(rt) == Height(l) + 1;
      assert Grew(rt, r', k);
      if k > r'.key {
        RightRight(t, r', k);
      } else {
        RightLeft(t, r', k);
      }
    } else {
      assert Rebalance(n, k) == n;
    }
  }

  /** The mirror image of `LeftLeft`. */
  lemma RightRight<V>(t: Tree<V>, r': Tree<V>, k: int)
    requires Avl(t) && t.Node? && InsertOutcome(t.right, r', k)
    requires Height(r') == Height(t.left) + 2 && r'.Node? && k > r'.key
    ensures RebalanceSafe(Join(t.left, t.key, t.value, r'), k)
    ensures InsertOutcome(t, Rebalance(Join(t.left, t.key, t.value, r'), k), k)
  {
    AvlHeightsOk(t.right); AvlHeightsOk(t.left); AvlHeightsOk(r');
    HeightNonNeg(t.right); HeightNonNeg(t.left);
    assert Height(t.right) == Height(t.left) + 1;
    assert Grew(t.right, r', k);
    var l := t.left;
    var n := Join(l, t.key, t.value, r');
    var a, b := r'.left, r'.right;
    AvlHeightsOk(l); AvlHeightsOk(a); AvlHeightsOk(b);
    HeightNonNeg(l); HeightNonNeg(a); HeightNonNeg(b);
    assert Height(b) == Height(a) + 1;
    var r := Rebalance(n, k);
    assert r == LeftRotate(n);
    assert r == Join(Join(l, t.key, t.value, a), r'.key, r'.value, b);
  }

  /** The mirror image of `LeftRight`. */
  lemma RightLeft<V>(t: Tree<V>, r': Tree<V>, k: int)
    requires Avl(t) && t.Node? && InsertOutcome(t.right, r', k)
    requires Height(r') == Height(t.left) + 2 && r'.Node? && k < r'.key
    ensures RebalanceSafe(Join(t.left, t.key, t.value, r'), k)
    ensures InsertOutcome(t, Rebalance(Join(t.left, t.key, t.value, r'), k), k)
  {
    AvlHeightsOk(t.right); AvlHeightsOk(t.left); AvlHeightsOk(r');
    HeightNonNeg(t.right); HeightNonNeg(t.left);
    assert Height(t.right) == Height(t.left) + 1;
    assert Grew(t.right, r', k);
    var l := t.left;
    var n := Join(l, t.key, t.value, r');
    var a, b := r'.left, r'.right;
    AvlHeightsOk(l); AvlHeightsOk(a); AvlHeightsOk(b);
    HeightNonNeg(l); HeightNonNeg(a); HeightNonNeg(b);
    assert Height(a) == Height(b) + 1;
    assert a.Node?;
    AvlHeightsOk(a.left); AvlHeightsOk(a.right);
    HeightNonNeg(a.left); HeightNonNeg(a.right);
    var h := Height(l);
    assert Height(a) == h + 1 && Height(b) == h;
    assert h - 1 <= Height(a.left) <= h && h - 1 <= Height(a.right) <= h;
    var x := Join(l, t.key, t.value, a.left);
    var y := Join(a.right, r'.key, r'.value, b);
    assert Height(x) == h + 1 && Height(y) == h + 1 && Height(t) == h + 2;
    JoinAvl(l, t.key, t.value, a.left);
    JoinAvl(a.right, r'.key, r'.value, b);
    JoinAvl(x, a.key, a.value, y);
    RebalanceRightLeft(n, k);
    var r := Rebalance(n, k);
    assert r == Join(x, a.key, a.value, y);
    assert Avl(r) && Height(r) == Height(t);
    assert InsertOutcome(t, r, k);
  }

  /** insert_rec (and `add`, which applies it at the root): descend by key, ignore a
      duplicate, recompute the height on the way back and rebalance. The result is
      again balanced and at most one taller. */
  function Insert<V>(t: Tree<V>, k: int, v: V): (r: Tree<V>)
    requires Avl(t)
    ensures InsertOutcome(t, r, k)
    decreases t
  {
    match t
    case Leaf => Node(Leaf, k, v, 1, Leaf)
    case Node(l, nk, nv, _, rt) =>
      if k < nk then
        var l' := Insert(l, k, v);
        InsertLeftCase(t, l', k);
        Rebalance(Join(l', nk, nv, rt), k)
      else if k > nk then
        var r' := Insert(rt, k, v);
        InsertRightCase(t, r', k);
        Rebalance(Join(l, nk, nv, r'), k)
      else
        t
  }

  /** Insertion into an ordered tree lays out exactly the sorted insertion of
      `(k, v)` into the old traversal: a present key keeps its first value. */
  lemma {:induction false} InsertInorder<V>(t: Tree<V>, k: int, v: V)
    requires Avl(t) && Ordered(t)
    ensures Inorder(Insert(t, k, v)) == SortedInsert(Inorder(t), k, v)
  {
    match t
    case Leaf =>
    case Node(l, nk, nv, _, rt) =>
      assert Ordered(l) && Ordered(rt) by {
        AscendingParts(Inorder(l), (nk, nv), Inorder(rt));
      }
      if k < nk {
        InsertInorder(l, k, v);
        InsertInorderLeft(t, k, v);
      } else if k > nk {
        InsertInorder(rt, k, v);
        InsertInorderRight(t, k, v);
      } else {
        InsertInorderHere(t, k, v);
      }
  }

  lemma InsertInorderHere<V>(t: Tree<V>, k: int, v: V)
    requires Avl(t) && Ordered(t) && t.Node? && k == t.key
    ensures Inorder(Insert(t, k, v)) == SortedInsert(Inorder(t), k, v)
  {
    var a, x, b := Inorder(t.left), (t.key, t.value), Inorder(t.right);
    assert Below(a, k) by {
      AscendingParts(a, x, b);
    }
    SortedInsertSuffix(a, [x] + b, k, v);
    Assoc(a, [x], b);
  }

  lemma InsertInorderLeft<V>(t: Tree<V>, k: int, v: V)
    requires Avl(t) && Ordered(t) && t.Node? && k < t.key
    requires Inorder(Insert(t.left, k, v)) == SortedInsert(Inorder(t.left), k, v)
    ensures Inorder(Insert(t, k, v)) == SortedInsert(Inorder(t), k, v)
  {
    var a, x, b := Inorder(t.left), (t.key, t.value), Inorder(t.right);
    var l' := Insert(t.left, k, v);
    InsertLeftCase(t, l', k);
    assert Insert(t, k, v) == Rebalance(Join(l', t.key, t.value, t.right), k);
    assert Inorder(Insert(t, k, v)) == SortedInsert(a, k, v) + [x] + b;
    SortedInsertPrefix(a, [x] + b, k, v);
    Assoc(a, [x], b);
    Assoc(SortedInsert(a, k, v), [x], b);
  }

  lemma InsertInorderRight<V>(t: Tree<V>, k: int, v: V)
    requires Avl(t) && Ordered(t) && t.Node? && k > t.key
    requires Inorder(Insert(t.right, k, v)) == SortedInsert(Inorder(t.right), k, v)
    ensures Inorder(Insert(t, k, v)) == SortedInsert(Inorder(t), k, v)
  {
    var a, x, b := Inorder(t.left), (t.key, t.value), Inorder(t.right);
    var r' := Insert(t.right, k, v);
    InsertRightCase(t, r', k);
    assert Insert(t, k, v) == Rebalance(Join(t.left, t.key, t.value, r'), k);
    assert Inorder(Insert(t, k, v)) == a + [x] + SortedInsert(b, k, v);
    assert Below(a + [x], k) by {
      AscendingParts(a, x, b);
      assert forall i :: 0 <= i < |a| ==> (a + [x])[i] == a[i];
    }
    SortedInsertSuffix(a + [x], b, k, v);
  }

  /** add keeps the search-tree ordering, so the traversal stays strictly ascending,
      and it stores `v` under `k` only when `k` was absent (first write wins). */
  lemma InsertView<V>(t: Tree<V>, k: int, v: V)
    requires Avl(t) && Ordered(t)
    ensures Ordered(Insert(t, k, v))
    ensures KeysOf(Inorder(Insert(t, k, v))) == KeysOf(Inorder(t)) + {k}
    ensures View(Insert(t, k, v)) == if k in View(t) then View(t) else View(t)[k := v]
  {
    InsertInorder(t, k, v);
    SortedInsertAscending(Inorder(t), k, v);
    SortedInsertMap(Inorder(t), k, v);
  }

  /** Adding a key that is already present returns the very same tree. */
  lemma {:induction false} InsertPresent<V>(t: Tree<V>, k: int, v: V)
    requires Avl(t) && Ordered(t)
    requires k in KeysOf(Inorder(t))
    ensures Insert(t, k, v) == t
  {
    match t
    case Node(l, nk, nv, _, rt) =>
      assert Join(l, nk, nv, rt) == t;
      assert Rebalance(t, k) == t;
      if k < nk {
        assert Ordered(l) && k in KeysOf(Inorder(l)) by {
          AscendingParts(Inorder(l), (nk, nv), Inorder(rt));
          FindSplit(Inorder(l), (nk, nv), Inorder(rt), k);
          AboveKeys(Inorder(rt), nk, k);
        }
        InsertPresent(l, k, v);
        assert Insert(t, k, v) == Rebalance(Join(Insert(l, k, v), nk, nv, rt), k);
      } else if k > nk {
        assert Ordered(rt) && k in KeysOf(Inorder(rt)) by {
          AscendingParts(Inorder(l), (nk, nv), Inorder(rt));
          FindSplit(Inorder(l), (nk, nv), Inorder(rt), k);
          BelowKeys(Inorder(l), nk, k);
        }
        InsertPresent(rt, k, v);
        assert Insert(t, k, v) == Rebalance(Join(l, nk, nv, Insert(rt, k, v)), k);
      }
  }

  /** search: the node holding `k` (as a subtree), or `Leaf` when the descent
      falls off the tree. */
  function Search<V>(t: Tree<V>, k: int): (r: Tree<V>)
    ensures r.Node? ==> r.key == k && (k, r.value) in Inorder(t)
  {
    if t.Leaf? || t.key == k then t
    else if k < t.key then Search(t.left, k)
    else Search(t.right, k)
  }

  /** In an ordered tree, search finds `k` exactly when the tree stores it, and
      then the stored value. */
  lemma {:induction false} SearchCorrect<V>(t: Tree<V>, k: int)
    ensures Ordered(t) ==> (Search(t, k).Node? <==> k in View(t))
    ensures Ordered(t) && Search(t, k).Node? ==> View(t)[k] == Search(t, k).value
  {
    match t
    case Leaf =>
    case Node(l, nk, nv, _, rt) =>
      if Ordered(t) {
        AscendingFind(Inorder(l), (nk, nv), Inorder(rt), k);
        if k < nk {
          SearchCorrect(l, k);
        } else if k > nk {
          SearchCorrect(rt, k);
        }
      }
  }

  /** contains: true exactly when the key is stored. */
  function Contains<V>(t: Tree<V>, k: int): (b: bool)
    ensures Ordered(t) ==> (b <==> k in View(t))
  {
    SearchCorrect(t, k);
    Search(t, k).Node?
  }

  /** at, read side: the stored value, or `None` where the source throws
      "key not found". */
  function At<V>(t: Tree<V>, k: int): (r: Option<V>)
    ensures Ordered(t) ==> r == Get(View(t), k)
  {
    SearchCorrect(t, k);
    var n := Search(t, k);
    if n.Node? then Some(n.value) else None
  }

  /** at, write side: assigning through the reference `at` returns. The node the
      search reaches gets the new value and nothing else changes; `None` where the
      source throws. */
  function SetAt<V>(t: Tree<V>, k: int, v: V): (r: Option<Tree<V>>)
    ensures r.Some? <==> Search(t, k).Node?
    ensures r.Some? ==> KeysOf(Inorder(r.value)) == KeysOf(Inorder(t))
    ensures r.Some? ==> (Avl(t) ==> Avl(r.value)) && Height(r.value) == Height(t)
  {
    match t
    case Leaf => None
    case Node(l, nk, nv, h, rt) =>
      if nk == k then
        FindSplit(Inorder(l), (nk, nv), Inorder(rt), k);
        FindSplit(Inorder(l), (nk, v), Inorder(rt), k);
        Some(Node(l, nk, v, h, rt))
      else if k < nk then
        match SetAt(l, k, v)
        case None => None
        case Some(l') =>
          FindSplit(Inorder(l), (nk, nv), Inorder(rt), k);
          FindSplit(Inorder(l'), (nk, nv), Inorder(rt), k);
          Some(Node(l', nk, nv, h, rt))
      else
        match SetAt(rt, k, v)
        case None => None
        case Some(rt') =>
          FindSplit(Inorder(l), (nk, nv), Inorder(rt), k);
          FindSplit(Inorder(l), (nk, nv), Inorder(rt'), k);
          Some(Node(l, nk, nv, h, rt'))
  }

  /** Assigning through `at` keeps the ordering and changes the stored map at `k` only. */
  lemma {:induction false} SetAtView<V>(t: Tree<V>, k: int, v: V)
    requires Ordered(t)
    requires k in KeysOf(Inorder(t))
    ensures SetAt(t, k, v).Some?
    ensures Ordered(SetAt(t, k, v).value)
    ensures View(SetAt(t, k, v).value) == View(t)[k := v]
    decreases t, 1
  {
    SearchCorrect(t, k);
    assert t.Node?;
    if k < t.key {
      SetAtViewLeft(t, k, v);
    } else if k > t.key {
      SetAtViewRight(t, k, v);
    } else {
      SetAtViewHere(t, k, v);
    }
  }

  lemma {:induction false} SetAtViewLeft<V>(t: Tree<V>, k: int, v: V)
    requires t.Node? && k < t.key
    requires Ordered(t)
    requires k in KeysOf(Inorder(t))
    ensures SetAt(t, k, v).Some?
    ensures Ordered(SetAt(t, k, v).value)
    ensures View(SetAt(t, k, v).value) == View(t)[k := v]
    decreases t, 0
  {
    var a, b := Inorder(t.left), Inorder(t.right);
    AscendingSplit(a, (t.key, t.value), b);
    FindSplit(a, (t.key, t.value), b, k);
    AboveKeys(b, t.key, k);
    SetAtView(t.left, k, v);
    var l' := SetAt(t.left, k, v).value;
    assert SetAt(t, k, v) == Some(Node(l', t.key, t.value, t.height, t.right));
    AscendingUpdate(a, Inorder(l'), (t.key, t.value), b, b, (t.key, t.value), k, v);
  }

  lemma {:induction false} SetAtViewRight<V>(t: Tree<V>, k: int, v: V)
    requires t.Node? && k > t.key
    requires Ordered(t)
    requires k in KeysOf(Inorder(t))
    ensures SetAt(t, k, v).Some?
    ensures Ordered(SetAt(t, k, v).value)
    ensures View(SetAt(t, k, v).value) == View(t)[k := v]
    decreases t, 0
  {
    var a, b := Inorder(t.left), Inorder(t.right);
    AscendingSplit(a, (t.key, t.value), b);
    FindSplit(a, (t.key, t.value), b, k);
    BelowKeys(a, t.key, k);
    SetAtView(t.right, k, v);
    var r' := SetAt(t.right, k, v).value;
    assert SetAt(t, k, v) == Some(Node(t.left, t.key, t.value, t.height, r'));
    AscendingUpdate(a, a, (t.key, t.value), b, Inorder(r'), (t.key, t.value), k, v);
  }

  lemma SetAtViewHere<V>(t: Tree<V>, k: int, v: V)
    requires t.Node? && k == t.key
    requires Ordered(t)
    requires k in KeysOf(Inorder(t))
    ensures SetAt(t, k, v).Some?
    ensures Ordered(SetAt(t, k, v).value)
    ensures View(SetAt(t, k, v).value) == View(t)[k := v]
  {
    var a, b := Inorder(t.left), Inorder(t.right);
    assert SetAt(t, k, v) == Some(Node(t.left, t.key, v, t.height, t.right));
    AscendingSplit(a, (t.key, t.value), b);
    BelowKeys(a, t.key, k);
    AscendingUpdate(a, a, (t.key, t.value), b, b, (t.key, v), k, v);
  }

}
