/** The colour-balanced search tree (`red_black_tree`) as the source writes it:
    plain search-tree placement of a red node, then an upward fix-up loop of
    recolourings and rotations, then the root is painted black.

    The source keeps a parent back-link in every node. Here the fix-up cursor is
    a zipper: the subtree rooted at the cursor node plus the path of frames up to
    the root, where frame 0 is the cursor's parent, frame 1 its grandparent, and
    so on. Reading `node->parent` is reading frame 0, and a rotation at a node
    without a parent is a rotation of the whole tree. */
module RbTree {
  import opened Entries

  datatype Color = Red | Black

  datatype Tree<V> = Nil | Node(color: Color, left: Tree<V>, key: int, value: V, right: Tree<V>)

  /** A parent seen from one of its children: its colour, entry and other child. */
  datatype Frame<V> =
    | LeftOf(color: Color, key: int, value: V, right: Tree<V>)   // the child is the parent's left one
    | RightOf(left: Tree<V>, color: Color, key: int, value: V)   // the child is the parent's right one

  /** The cursor subtree and the frames from its parent up to the root. */
  datatype Zipper<V> = Zipper(focus: Tree<V>, path: seq<Frame<V>>)

  function Attach<V>(t: Tree<V>, f: Frame<V>): Tree<V>
  {
    match f
    case LeftOf(c, k, v, r) => Node(c, t, k, v, r)
    case RightOf(l, c, k, v) => Node(c, l, k, v, t)
  }

  /** The whole tree a zipper describes. */
  function Plug<V>(z: Zipper<V>): Tree<V>
    decreases |z.path|
  {
    if |z.path| == 0 then z.focus
    else Plug(Zipper(Attach(z.focus, z.path[0]), z.path[1..]))
  }

  /** inorder_traversal. Colour plays no part in it. */
  function Inorder<V>(t: Tree<V>): seq<(int, V)>
  {
    match t
    case Nil => []
    case Node(_, l, k, v, r) => Inorder(l) + [(k, v)] + Inorder(r)
  }

  /** The links of a tree without its colours: two trees with the same shape differ
      only in how their nodes are painted. */
  function Shape<V>(t: Tree<V>): Tree<V>
  {
    match t
    case Nil => Nil
    case Node(_, l, k, v, r) => Node(Black, Shape(l), k, v, Shape(r))
  }

  /** The search-tree ordering: the traversal has strictly ascending keys. */
  ghost predicate Ordered<V>(t: Tree<V>)
  {
    Ascending(Inorder(t))
  }

  /** The abstract map the tree stores. */
  ghost function View<V>(t: Tree<V>): map<int, V>
  {
    ToMap(Inorder(t))
  }

  /** The entries to the left of the cursor that the path contributes. */
  function Before<V>(path: seq<Frame<V>>): seq<(int, V)>
  {
    if |path| == 0 then []
    else match path[0]
      case LeftOf(_, _, _, _) => Before(path[1..])
      case RightOf(l, _, k, v) => Before(path[1..]) + Inorder(l) + [(k, v)]
  }

  /** The entries to the right of the cursor that the path contributes. */
  function After<V>(path: seq<Frame<V>>): seq<(int, V)>
  {
    if |path| == 0 then []
    else match path[0]
      case LeftOf(_, k, v, r) => [(k, v)] + Inorder(r) + After(path[1..])
      case RightOf(_, _, _, _) => After(path[1..])
  }

  /** The traversal of the whole tree is the path's left part, the cursor subtree,
      and the path's right part. */
  lemma {:induction false} PlugInorder<V>(z: Zipper<V>)
    ensures Inorder(Plug(z)) == Before(z.path) + Inorder(z.focus) + After(z.path)
    decreases |z.path|
  {
    if |z.path| > 0 {
      var z' := Zipper(Attach(z.focus, z.path[0]), z.path[1..]);
      PlugInorder(z');
      PlugStep(z);
    }
  }

  /** One frame moved from the path into the cursor subtree keeps the traversal. */
  lemma PlugStep<V>(z: Zipper<V>)
    requires |z.path| > 0
    ensures Before(z.path) + Inorder(z.focus) + After(z.path)
         == Before(z.path[1..]) + Inorder(Attach(z.focus, z.path[0])) + After(z.path[1..])
  {
    var b, m, a := Before(z.path[1..]), Inorder(z.focus), After(z.path[1..]);
    match z.path[0]
    case LeftOf(_, k, v, r) =>
      assert Before(z.path) == b;
      assert After(z.path) == [(k, v)] + Inorder(r) + a;
      GatherLeft(b, m, [(k, v)], Inorder(r), a);
    case RightOf(l, _, k, v) =>
      assert Before(z.path) == b + Inorder(l) + [(k, v)];
      assert After(z.path) == a;
      GatherRight(b, Inorder(l), [(k, v)], m, a);
  }

  lemma GatherLeft<T>(b: seq<T>, m: seq<T>, p: seq<T>, q: seq<T>, a: seq<T>)
    ensures b + m + (p + q + a) == b + (m + p + q) + a
  {
  }

  lemma GatherRight<T>(b: seq<T>, l: seq<T>, p: seq<T>, m: seq<T>, a: seq<T>)
    ensures b + l + p + m + a == b + (l + p + m) + a
  {
  }

  /** Painting one node. */
  function Paint<V>(t: Tree<V>, c: Color): Tree<V>
  {
    if t.Node? then t.(color := c) else t
  }

  /** Moving the cursor to its parent (`node = node->parent`). */
  function Up<V>(z: Zipper<V>): (r: Zipper<V>)
    requires |z.path| > 0
    ensures |r.path| == |z.path| - 1
    ensures Plug(r) == Plug(z)
  {
    Zipper(Attach(z.focus, z.path[0]), z.path[1..])
  }

  /** Moving the cursor to its left child. */
  function DownLeft<V>(z: Zipper<V>): (r: Zipper<V>)
    requires z.focus.Node?
    ensures |r.path| == |z.path| + 1
    ensures Plug(r) == Plug(z)
  {
    var n := z.focus;
    var r := Zipper(n.left, [LeftOf(n.color, n.key, n.value, n.right)] + z.path);
    assert r.path[1..] == z.path;
    r
  }

  /** Moving the cursor to its right child. */
  function DownRight<V>(z: Zipper<V>): (r: Zipper<V>)
    requires z.focus.Node?
    ensures |r.path| == |z.path| + 1
    ensures Plug(r) == Plug(z)
  {
    var n := z.focus;
    var r := Zipper(n.right, [RightOf(n.left, n.color, n.key, n.value)] + z.path);
    assert r.path[1..] == z.path;
    r
  }

  /** Replacing the cursor subtree by one with the same traversal keeps the
      traversal of the whole tree. */
  lemma ReplaceFocus<V>(z: Zipper<V>, t: Tree<V>)
    requires Inorder(t) == Inorder(z.focus)
    ensures Inorder(Plug(z.(focus := t))) == Inorder(Plug(z))
  {
    PlugInorder(z);
    PlugInorder(z.(focus := t));
  }

  /** rotate_left: the right child is promoted and the rotated node becomes its left
      child, taking over the promoted child's left subtree. Without a node or a
      right child nothing happens. At the root the promoted child becomes the root. */
  function RotateLeft<V>(t: Tree<V>): (r: Tree<V>)
    ensures Inorder(r) == Inorder(t)
    ensures t.Nil? || t.right.Nil? ==> r == t
    ensures t.Node? && t.right.Node? ==>
      r.Node? && r.key == t.right.key && r.left.Node? && r.left.key == t.key
    ensures t.Node? ==> r.Node?
  {
    if t.Nil? || t.right.Nil? then t
    else
      var y := t.right;
      Node(y.color, Node(t.color, t.left, t.key, t.value, y.left), y.key, y.value, y.right)
  }

  /** rotate_right: the mirror image of `RotateLeft`. */
  function RotateRight<V>(t: Tree<V>): (r: Tree<V>)
    ensures Inorder(r) == Inorder(t)
    ensures t.Nil? || t.left.Nil? ==> r == t
    ensures t.Node? && t.left.Node? ==>
      r.Node? && r.key == t.left.key && r.right.Node? && r.right.key == t.key
    ensures t.Node? ==> r.Node?
  {
    if t.Nil? || t.left.Nil? then t
    else
      var x := t.left;
      Node(x.color, x.left, x.key, x.value, Node(t.color, x.right, t.key, t.value, t.right))
  }

  function ColorOf<V>(t: Tree<V>): Color
  {
    if t.Node? then t.color else Black
  }

  /** The red-uncle case of fix_insert: parent and uncle become black, the
      grandparent red, and the cursor moves to the grandparent. No link changes. */
  function RedUncle<V>(z: Zipper<V>): (r: Zipper<V>)
    requires |z.path| >= 2
    ensures |r.path| == |z.path| - 2 && r.path == z.path[2..]
    ensures var g := Up(Up(z)).focus;
      r.focus.Node? && r.focus.key == g.key && r.focus.value == g.value &&
      r.focus.left == Paint(g.left, Black) && r.focus.right == Paint(g.right, Black)
    ensures Shape(Plug(r)) == Shape(Plug(z))
    ensures Inorder(Plug(r)) == Inorder(Plug(z))
    ensures r.focus.Node? && r.focus.color == Red
    ensures ColorOf(r.focus.left) == Black && ColorOf(r.focus.right) == Black
  {
    var g := Up(Up(z));
    var n := g.focus;
    var r := g.(focus := Node(Red, Paint(n.left, Black), n.key, n.value, Paint(n.right, Black)));
    ShapeReplaceFocus(g, r.focus);
    ReplaceFocus(g, r.focus);
    r
  }

  lemma {:induction false} ShapeReplaceFocus<V>(z: Zipper<V>, t: Tree<V>)
    requires Shape(t) == Shape(z.focus)
    ensures Shape(Plug(z.(focus := t))) == Shape(Plug(z))
    decreases |z.path|
  {
    if |z.path| > 0 {
      var f := z.path[0];
      ShapeReplaceFocus(Zipper(Attach(z.focus, f), z.path[1..]), Attach(t, f));
    }
  }

  /** One pass of the fix_insert loop, entered when the cursor has a red parent and a
      grandparent. With a black or absent uncle, the triangle case first moves the
      cursor up to the parent and rotates there; the code then paints its `parent`
      variable black without re-reading it, so the node painted is the old parent,
      which the rotation has just moved below the cursor's old node. */
  function Step<V>(z: Zipper<V>): (r: Zipper<V>)
    requires |z.path| >= 2
    ensures |r.path| < |z.path|
    ensures Inorder(Plug(r)) == Inorder(Plug(z))
  {
    var parent, grand := z.path[0], z.path[1];
    if grand.LeftOf? then
      if grand.right.Node? && grand.right.color == Red then
        RedUncle(z)
      else if parent.RightOf? then
        var z1 := Up(z);
        var rot := RotateLeft(z1.focus);
        ReplaceFocus(z1, rot);
        var z2 := DownLeft(z1.(focus := rot));
        var z3 := z2.(focus := Paint(z2.focus, Black));
        ReplaceFocus(z2, z3.focus);
        var z4 := Up(Up(z3));
        var rot2 := RotateRight(Paint(z4.focus, Red));
        ReplaceFocus(z4, rot2);
        DownLeft(z4.(focus := rot2))
      else
        var z1 := Up(z);
        var z2 := z1.(focus := Paint(z1.focus, Black));
        ReplaceFocus(z1, z2.focus);
        var z3 := Up(z2);
        var rot := RotateRight(Paint(z3.focus, Red));
        ReplaceFocus(z3, rot);
        DownLeft(z3.(focus := rot))
    else
      if grand.left.Node? && grand.left.color == Red then
        RedUncle(z)
      else if parent.LeftOf? then
        var z1 := Up(z);
        var rot := RotateRight(z1.focus);
        ReplaceFocus(z1, rot);
        var z2 := DownRight(z1.(focus := rot));
        var z3 := z2.(focus := Paint(z2.focus, Black));
        ReplaceFocus(z2, z3.focus);
        var z4 := Up(Up(z3));
        var rot2 := RotateLeft(Paint(z4.focus, Red));
        ReplaceFocus(z4, rot2);
        DownRight(z4.(focus := rot2))
      else
        var z1 := Up(z);
        var z2 := z1.(focus := Paint(z1.focus, Black));
        ReplaceFocus(z1, z2.focus);
        var z3 := Up(z2);
        var rot := RotateLeft(Paint(z3.focus, Red));
        ReplaceFocus(z3, rot);
        DownRight(z3.(focus := rot))
  }

  /** The fix_insert loop (without its final root painting): runs while the cursor
      has a red parent, and stops early when there is no grandparent. It changes
      colours and links only, never the traversal. */
  function FixUp<V>(z: Zipper<V>): (t: Tree<V>)
    ensures Inorder(t) == Inorder(Plug(z))
    decreases |z.path|
  {
    if |z.path| == 0 || z.path[0].color == Black then Plug(z)
    else if |z.path| == 1 then Plug(z)
    else FixUp(Step(z))
  }

  /** search_rec: the node holding `k` (as a subtree), or `Nil` when the descent
      falls off the tree. */
  function Search<V>(t: Tree<V>, k: int): (r: Tree<V>)
    ensures r.Node? ==> r.key == k && (k, r.value) in Inorder(t)
  {
    match t
    case Nil => Nil
    case Node(_, l, nk, _, rt) =>
      if k < nk then Search(l, k)
      else if k > nk then Search(rt, k)
      else t
  }

  /** In an ordered tree, search finds `k` exactly when the tree stores it, and
      then the stored value. */
  lemma {:induction false} SearchCorrect<V>(t: Tree<V>, k: int)
    ensures Ordered(t) ==> (Search(t, k).Node? <==> k in View(t))
    ensures Ordered(t) && Search(t, k).Node? ==> View(t)[k] == Search(t, k).value
  {
    match t
    case Nil =>
    case Node(_, l, nk, nv, rt) =>
      if Ordered(t) {
        AscendingFind(Inorder(l), (nk, nv), Inorder(rt), k);
        if k < nk {
          SearchCorrect(l, k);
        } else if k > nk {
          SearchCorrect(rt, k);
        }
      }
  }

  /** Colours never steer the search: searching the uncoloured shape reaches the
      same node. */
  lemma {:induction false} SearchIgnoresColour<V>(t: Tree<V>, k: int)
    ensures Search(Shape(t), k) == Shape(Search(t, k))
  {
    match t
    case Nil =>
    case Node(_, l, nk, _, rt) =>
      if k < nk {
        SearchIgnoresColour(l, k);
      } else if k > nk {
        SearchIgnoresColour(rt, k);
      }
  }

  /** contains: true exactly when the key is stored. The header repeats the AVL
      tree's contains, at and the write through at, and so does this module. */
  function Contains<V>(t: Tree<V>, k: int): (b: bool)
    ensures Ordered(t) ==> (b <==> k in View(t))
  {
    SearchCorrect(t, k);
    Search(t, k).Node?
  }

  /** at, read side: the stored value, or `None` where the source throws
      "key not found". */
  function At<V>(t: Tree<V>, k: int): (r: Option<V>)
    ensures Ordered(t) ==> r == Get(View(t), k)
  {
    SearchCorrect(t, k);
    var n := Search(t, k);
    if n.Node? then Some(n.value) else None
  }

  /** at, write side: assigning through the reference `at` returns. The node the
      search reaches gets the new value; links, colours and keys stay as they were;
      `None` where the source throws. */
  function SetAt<V>(t: Tree<V>, k: int, v: V): (r: Option<Tree<V>>)
    ensures r.Some? <==> Search(t, k).Node?
    ensures r.Some? ==> KeysOf(Inorder(r.value)) == KeysOf(Inorder(t))
  {
    match t
    case Nil => None
    case Node(c, l, nk, nv, rt) =>
      if k < nk then
        match SetAt(l, k, v)
        case None => None
        case Some(l') =>
          FindSplit(Inorder(l), (nk, nv), Inorder(rt), k);
          FindSplit(Inorder(l'), (nk, nv), Inorder(rt), k);
          Some(Node(c, l', nk, nv, rt))
      else if k > nk then
        match SetAt(rt, k, v)
        case None => None
        case Some(rt') =>
          FindSplit(Inorder(l), (nk, nv), Inorder(rt), k);
          FindSplit(Inorder(l), (nk, nv), Inorder(rt'), k);
          Some(Node(c, l, nk, nv, rt'))
      else
        FindSplit(Inorder(l), (nk, nv), Inorder(rt), k);
        FindSplit(Inorder(l), (nk, v), Inorder(rt), k);
        Some(Node(c, l, nk, v, rt))
  }

  /** Assigning through `at` keeps the ordering and changes the stored map at `k` only. */
  lemma {:induction false} SetAtView<V>(t: Tree<V>, k: int, v: V)
    requires Ordered(t)
    requires k in KeysOf(Inorder(t))
    ensures SetAt(t, k, v).Some?
    ensures Ordered(SetAt(t, k, v).value)
    ensures View(SetAt(t, k, v).value) == View(t)[k := v]
    decreases t, 1
  {
    SearchCorrect(t, k);
    assert t.Node?;
    if k < t.key {
      SetAtViewLeft(t, k, v);
    } else if k > t.key {
      SetAtViewRight(t, k, v);
    } else {
      SetAtViewHere(t, k, v);
    }
  }

  lemma {:induction false} SetAtViewLeft<V>(t: Tree<V>, k: int, v: V)
    requires t.Node? && k < t.key
    requires Ordered(t)
    requires k in KeysOf(Inorder(t))
    ensures SetAt(t, k, v).Some?
    ensures Ordered(SetAt(t, k, v).value)
    ensures View(SetAt(t, k, v).value) == View(t)[k := v]
    decreases t, 0
  {
    var a, b := Inorder(t.left), Inorder(t.right);
    AscendingSplit(a, (t.key, t.value), b);
    FindSplit(a, (t.key, t.value), b, k);
    AboveKeys(b, t.key, k);
    SetAtView(t.left, k, v);
    var l' := SetAt(t.left, k, v).value;
    assert SetAt(t, k, v) == Some(Node(t.color, l', t.key, t.value, t.right));
    AscendingUpdate(a, Inorder(l'), (t.key, t.value), b, b, (t.key, t.value), k, v);
  }

  lemma {:induction false} SetAtViewRight<V>(t: Tree<V>, k: int, v: V)
    requires t.Node? && k > t.key
    requires Ordered(t)
    requires k in KeysOf(Inorder(t))
    ensures SetAt(t, k, v).Some?
    ensures Ordered(SetAt(t, k, v).value)
    ensures View(SetAt(t, k, v).value) == View(t)[k := v]
    decreases t, 0
  {
    var a, b := Inorder(t.left), Inorder(t.right);
    AscendingSplit(a, (t.key, t.value), b);
    FindSplit(a, (t.key, t.value), b, k);
    BelowKeys(a, t.key, k);
    SetAtView(t.right, k, v);
    var r' := SetAt(t.right, k, v).value;
    assert SetAt(t, k, v) == Some(Node(t.color, t.left, t.key, t.value, r'));
    AscendingUpdate(a, a, (t.key, t.value), b, Inorder(r'), (t.key, t.value), k, v);
  }

  lemma SetAtViewHere<V>(t: Tree<V>, k: int, v: V)
    requires t.Node? && k == t.key
    requires Ordered(t)
    requires k in KeysOf(Inorder(t))
    ensures SetAt(t, k, v).Some?
    ensures Ordered(SetAt(t, k, v).value)
    ensures View(SetAt(t, k, v).value) == View(t)[k := v]
  {
    var a, b := Inorder(t.left), Inorder(t.right);
    assert SetAt(t, k, v) == Some(Node(t.color, t.left, t.key, v, t.right));
    AscendingSplit(a, (t.key, t.value), b);
    BelowKeys(a, t.key, k);
    AscendingUpdate(a, a, (t.key, t.value), b, b, (t.key, v), k, v);
  }


  /** insert_rec: walks down from the root as a search would and hangs the new red
      node where the search falls off, recording the way down as the zipper path.
      The caller guarantees the key is absent: with a present key the source drops
      the new node and the fix-up then reads the parent of a node that has none. */
  function Descend<V>(t: Tree<V>, k: int, v: V, path: seq<Frame<V>>): (z: Zipper<V>)
    requires Search(t, k).Nil?
    ensures z.focus == Node(Red, Nil, k, v, Nil)
    ensures |z.path| >= |path|
  {
    match t
    case Nil => Zipper(Node(Red, Nil, k, v, Nil), path)
    case Node(c, l, nk, nv, rt) =>
      if k < nk then Descend(l, k, v, [LeftOf(c, nk, nv, rt)] + path)
      else if k > nk then Descend(rt, k, v, [RightOf(l, c, nk, nv)] + path)
      else assert false; Zipper(t, path)
  }

  /** insert_rec as a tree operation: plain search-tree placement of a red node,
      with a present key leaving the tree as it was (the source drops the node). */
  function InsertRec<V>(t: Tree<V>, k: int, v: V): Tree<V>
  {
    match t
    case Nil => Node(Red, Nil, k, v, Nil)
    case Node(c, l, nk, nv, rt) =>
      if k < nk then Node(c, InsertRec(l, k, v), nk, nv, rt)
      else if k > nk then Node(c, l, nk, nv, InsertRec(rt, k, v))
      else t
  }

  /** The descent describes exactly the tree insert_rec builds, with the cursor on
      the new node. */
  lemma {:induction false} DescendPlug<V>(t: Tree<V>, k: int, v: V, path: seq<Frame<V>>)
    requires Search(t, k).Nil?
    ensures Plug(Descend(t, k, v, path)) == Plug(Zipper(InsertRec(t, k, v), path))
  {
    match t
    case Nil =>
    case Node(c, l, nk, nv, rt) =>
      if k < nk {
        var p := [LeftOf(c, nk, nv, rt)] + path;
        DescendPlug(l, k, v, p);
        assert p[1..] == path;
      } else {
        var p := [RightOf(l, c, nk, nv)] + path;
        DescendPlug(rt, k, v, p);
        assert p[1..] == path;
      }
  }

  lemma GrowLeft<V>(a: seq<(int, V)>, a': seq<(int, V)>, x: (int, V), b: seq<(int, V)>, y: (int, V))
    requires multiset(a') == multiset(a) + multiset{y}
    ensures multiset(a' + [x] + b) == multiset(a + [x] + b) + multiset{y}
  {
  }

  lemma GrowRight<V>(a: seq<(int, V)>, x: (int, V), b: seq<(int, V)>, b': seq<(int, V)>, y: (int, V))
    requires multiset(b') == multiset(b) + multiset{y}
    ensures multiset(a + [x] + b') == multiset(a + [x] + b) + multiset{y}
  {
  }

  /** Placing an absent key loses nothing: the old entries plus the new one. */
  lemma {:induction false} InsertRecElems<V>(t: Tree<V>, k: int, v: V)
    requires Search(t, k).Nil?
    ensures multiset(Inorder(InsertRec(t, k, v))) == multiset(Inorder(t)) + multiset{(k, v)}
  {
    match t
    case Nil =>
    case Node(c, l, nk, nv, rt) =>
      if k < nk {
        var m := Inorder(InsertRec(l, k, v));
        assert Inorder(InsertRec(t, k, v)) == m + [(nk, nv)] + Inorder(rt);
        InsertRecElems(l, k, v);
        GrowLeft(Inorder(l), m, (nk, nv), Inorder(rt), (k, v));
      } else {
        assert k > nk;
        var m := Inorder(InsertRec(rt, k, v));
        assert Inorder(InsertRec(t, k, v)) == Inorder(l) + [(nk, nv)] + m;
        InsertRecElems(rt, k, v);
        GrowRight(Inorder(l), (nk, nv), Inorder(rt), m, (k, v));
      }
  }

  /** In an ordered tree insert_rec lays out exactly the sorted insertion. */
  lemma {:induction false} InsertRecInorder<V>(t: Tree<V>, k: int, v: V)
    requires Ordered(t)
    ensures Inorder(InsertRec(t, k, v)) == SortedInsert(Inorder(t), k, v)
  {
    match t
    case Nil =>
    case Node(c, l, nk, nv, rt) =>
      AscendingSplit(Inorder(l), (nk, nv), Inorder(rt));
      if k < nk {
        InsertRecInorder(l, k, v);
        SortedInsertPrefix(Inorder(l), [(nk, nv)] + Inorder(rt), k, v);
        assert Inorder(t) == Inorder(l) + ([(nk, nv)] + Inorder(rt));
        assert Inorder(InsertRec(t, k, v))
            == SortedInsert(Inorder(l), k, v) + ([(nk, nv)] + Inorder(rt));
      } else if k > nk {
        InsertRecInorder(rt, k, v);
        assert Below(Inorder(l) + [(nk, nv)], k);
        SortedInsertSuffix(Inorder(l) + [(nk, nv)], Inorder(rt), k, v);
      } else {
        SortedInsertSuffix(Inorder(l), [(nk, nv)] + Inorder(rt), k, v);
        assert Inorder(t) == Inorder(l) + ([(nk, nv)] + Inorder(rt));
      }
  }

  /** The final `root->node_color = BLACK`. */
  function Blacken<V>(t: Tree<V>): Tree<V>
  {
    if t.Node? then t.(color := Black) else t
  }

  /** add: an empty tree gets a black root; otherwise the red node is placed by
      `Descend`, the fix-up loop runs, and the root is painted black. The source
      requires a key that is not yet stored (see `Descend`). The result has a black
      root and holds exactly the old entries plus the new one. */
  function Add<V>(t: Tree<V>, k: int, v: V): (r: Tree<V>)
    requires Search(t, k).Nil?
    ensures r.Node? && r.color == Black
    ensures multiset(Inorder(r)) == multiset(Inorder(t)) + multiset{(k, v)}
  {
    if t.Nil? then Node(Black, Nil, k, v, Nil)
    else
      var z := Descend(t, k, v, []);
      DescendPlug(t, k, v, []);
      InsertRecElems(t, k, v);
      assert (k, v) in multiset(Inorder(Plug(z)));
      Blacken(FixUp(z))
  }

  /** add into an ordered tree keeps it ordered, adds `k` to the key set, keeps every
      other key's value, and stores `v` under `k`. */
  lemma AddView<V>(t: Tree<V>, k: int, v: V)
    requires Ordered(t)
    requires Search(t, k).Nil?
    ensures k !in View(t)
    ensures Inorder(Add(t, k, v)) == SortedInsert(Inorder(t), k, v)
    ensures Ordered(Add(t, k, v))
    ensures KeysOf(Inorder(Add(t, k, v))) == KeysOf(Inorder(t)) + {k}
    ensures View(Add(t, k, v)) == View(t)[k := v]
  {
    SearchCorrect(t, k);
    if t.Node? {
      DescendPlug(t, k, v, []);
    }
    InsertRecInorder(t, k, v);
    SortedInsertAscending(Inorder(t), k, v);
    SortedInsertMap(Inorder(t), k, v);
  }

  /** Black nodes on the leftmost path; in a colour-balanced tree every path has
      this many. */
  function BlackHeight<V>(t: Tree<V>): nat
  {
    match t
    case Nil => 0
    case Node(c, l, _, _, _) => BlackHeight(l) + (if c == Black then 1 else 0)
  }

  /** Every path from a node down to a missing child meets the same number of
      black nodes. */
  ghost predicate BlackBalanced<V>(t: Tree<V>)
  {
    match t
    case Nil => true
    case Node(_, l, _, _, r) =>
      BlackBalanced(l) && BlackBalanced(r) && BlackHeight(l) == BlackHeight(r)
  }

  /** Adding 3, 1, 2 in that order: the triangle case paints the stale `parent`
      (the node holding 1) black instead of the node that moved up (2), and the
      result has a black left child and a red right child under a black root,
      so the black counts of the two sides differ. */
  lemma StaleParentExample()
    ensures Add(Add(Add(Nil, 3, 'c'), 1, 'a'), 2, 'b')
         == Node(Black, Node(Black, Nil, 1, 'a', Nil), 2, 'b', Node(Red, Nil, 3, 'c', Nil))
    ensures !BlackBalanced(Add(Add(Add(Nil, 3, 'c'), 1, 'a'), 2, 'b'))
  {
    var t1 := Add(Nil, 3, 'c');
    assert t1 == Node(Black, Nil, 3, 'c', Nil);
    var z1 := Descend(t1, 1, 'a', []);
    assert z1 == Zipper(Node(Red, Nil, 1, 'a', Nil), [LeftOf(Black, 3, 'c', Nil)]);
    var t2 := Add(t1, 1, 'a');
    assert t2 == Node(Black, Node(Red, Nil, 1, 'a', Nil), 3, 'c', Nil);
    var z2 := Descend(t2, 2, 'b', []);
    assert z2 == Zipper(Node(Red, Nil, 2, 'b', Nil), [RightOf(Nil, Red, 1, 'a'), LeftOf(Black, 3, 'c', Nil)]);
    var s := Step(z2);
    assert s == Zipper(Node(Black, Nil, 1, 'a', Nil), [LeftOf(Red, 2, 'b', Node(Red, Nil, 3, 'c', Nil))]);
    assert FixUp(z2) == Node(Red, Node(Black, Nil, 1, 'a', Nil), 2, 'b', Node(Red, Nil, 3, 'c', Nil));
  }

}
