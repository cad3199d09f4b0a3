/**
 * The earlier draft of the red-black tree, src/RedBlackTree.java, on a heap.
 *
 * Unlike the final version it has no sentinel: a missing child is `null`,
 * and a node may hold no value at all (`new RedBlackTree(null)`). Its
 * `insert` is empty, its `balance` only handles a red uncle, and its
 * `lookUpNode` descends to the wrong side.
 *
 * Nodes live in an `Arena` as in `RedBlackTree`, with `null` as the leaf
 * handle; a handle absent from the `value` map is a node without a value.
 * The ghost `shape` is the tree the heap holds; the key of a valueless node
 * in the shape means nothing.
 */
module DraftRedBlackTree {
  import opened Trees
  import opened Arenas
  import BinarySearchTree

  /** Heap f holds the non-empty tree t with `null` leaves, all handles below `next`. */
  ghost predicate Wellformed(f: Fields, t: Tree<Ref>, next: Ref)
  {
    && t.Node?
    && Holds(f, t, NULL)
    && (forall h :: h in Handles(t) ==> h < next)
  }

  // ---------------------------------------------------------------------
  // Search
  // ---------------------------------------------------------------------

  /**
   * `lookUpNode(item)` as written (lines 75-98): `null` at a node without a
   * value, the node itself when its value equals the item, and otherwise a
   * descent to the LEFT child when the value is smaller than the item (to
   * the right when it is greater), `null` when that child is missing.
   * Nodes are named by their paths; `valued` is the set of handles that hold
   * a value.
   */
  function LookUpAsWritten(t: Tree<Ref>, valued: set<Ref>, k: int): (r: Option<Path>)
    requires t.Node?
    ensures r.Some? ==> At(t, r.value).Node? && At(t, r.value).key == k && At(t, r.value).handle in valued
    ensures t.handle !in valued ==> r.None?
    decreases t
  {
    if t.handle !in valued then None
    else if t.key == k then Some([])
    else if t.key < k then
      if t.left.Nil? then None
      else match LookUpAsWritten(t.left, valued, k)
        case None => None
        case Some(q) => Some([L] + q)
    else
      if t.right.Nil? then None
      else match LookUpAsWritten(t.right, valued, k)
        case None => None
        case Some(q) => Some([R] + q)
  }

  /**
   * The descent `lookUpNode` is documented to perform: to the right of a
   * smaller value, to the left of a greater one.
   */
  function LookUpIntended(t: Tree<Ref>, valued: set<Ref>, k: int): (r: Option<Path>)
    requires t.Node?
    ensures r.Some? ==> At(t, r.value).Node? && At(t, r.value).key == k && At(t, r.value).handle in valued
    decreases t
  {
    if t.handle !in valued then None
    else if t.key == k then Some([])
    else if t.key < k then
      if t.right.Nil? then None
      else match LookUpIntended(t.right, valued, k)
        case None => None
        case Some(q) => Some([R] + q)
    else
      if t.left.Nil? then None
      else match LookUpIntended(t.left, valued, k)
        case None => None
        case Some(q) => Some([L] + q)
  }

  /**
   * In a binary search tree whose nodes all hold values, the intended
   * descent finds k exactly when k is a key, at the node the search of
   * `BinarySearchTree` finds.
   */
  lemma {:induction false} LookUpIntendedFinds(t: Tree<Ref>, valued: set<Ref>, k: int)
    requires t.Node? && IsBST(t) && Handles(t) <= valued
    ensures LookUpIntended(t, valued, k).Some? <==> k in Keys(t)
    ensures LookUpIntended(t, valued, k) == BinarySearchTree.LookUpNode(t, k)
    decreases t
  {
    BSTNode(t);
    BinarySearchTree.FindLocates(t, k);
    assert InOrder(t) == InOrder(t.left) + [t.key] + InOrder(t.right);
    if t.key < k && t.right.Node? {
      LookUpIntendedFinds(t.right, valued, k);
      BinarySearchTree.FindLocates(t.right, k);
    } else if t.key > k && t.left.Node? {
      LookUpIntendedFinds(t.left, valued, k);
      BinarySearchTree.FindLocates(t.left, k);
    }
  }

  /**
   * The descent as written misses keys: in the search tree with 1 at the
   * root and 2 as its right child, looking up 2 goes left and finds nothing.
   */
  lemma LookUpMissesKey()
    ensures var t := Node(1, Black, 1, Nil, Node(2, Red, 2, Nil, Nil));
      && IsBST(t) && 2 in Keys(t)
      && LookUpAsWritten(t, Handles(t), 2).None?
      && LookUpIntended(t, Handles(t), 2) == Some([R])
  {
    var t := Node(1, Black, 1, Nil, Node(2, Red, 2, Nil, Nil));
    assert InOrder(t) == [1, 2];
    assert [R] + [] == [R];
  }

  // ---------------------------------------------------------------------
  // Balancing
  // ---------------------------------------------------------------------

  /**
   * `balance()` on the node at p (lines 230-243): when it has a grandparent
   * and its parent's sibling (the uncle) is a red node, the uncle and the
   * parent are painted black and the grandparent red, and the grandparent
   * is balanced in turn; otherwise nothing changes. The colour of the
   * parent itself is not looked at.
   */
  function BalanceTree<H>(t: Tree<H>, p: Path): (u: Tree<H>)
    requires At(t, p).Node?
    decreases |p|
  {
    if |p| < 2 then t
    else
      var pp := Parent(p);
      var gp := Parent(pp);
      var up := gp + [Other(Last(pp))];
      NodeReaches(t, p);
      ReachesParent(t, p);
      NodeReaches(t, pp);
      assert |pp| == |p| - 1;
      ReachesParent(t, pp);
      if ColorOf(At(t, up)) == Red then
        var t1 := PaintAt(PaintAt(PaintAt(t, up, Black), pp, Black), gp, Red);
        Paint3(t, up, Black, pp, Black, gp, Red);
        RecolouredPositions(t, t1, gp);
        BalanceTree(t1, gp)
      else t
  }

  /**
   * `balance()` only recolours: the tree keeps its shape, its keys in order
   * and its handles; only colours can differ.
   */
  lemma {:induction false} BalanceRecolours<H>(t: Tree<H>, p: Path)
    requires At(t, p).Node?
    ensures Recoloured(t, BalanceTree(t, p))
    ensures InOrder(BalanceTree(t, p)) == InOrder(t) && Handles(BalanceTree(t, p)) == Handles(t)
    decreases |p|
  {
    if |p| < 2 {
      RecolouredRefl(t);
    } else {
      var pp := Parent(p);
      var gp := Parent(pp);
      var up := gp + [Other(Last(pp))];
      NodeReaches(t, p);
      ReachesParent(t, p);
      NodeReaches(t, pp);
      assert |pp| == |p| - 1;
      ReachesParent(t, pp);
      if ColorOf(At(t, up)) == Red {
        var t1 := PaintAt(PaintAt(PaintAt(t, up, Black), pp, Black), gp, Red);
        Paint3(t, up, Black, pp, Black, gp, Red);
        RecolouredPositions(t, t1, gp);
        BalanceRecolours(t1, gp);
        RecolouredTrans(t, t1, BalanceTree(t1, gp));
      } else {
        RecolouredRefl(t);
      }
    }
    RecolouredKeeps(t, BalanceTree(t, p));
  }

  /** `balance()` at p recolours nothing at p's depth or below. */
  lemma {:induction false} BalanceAbove<H>(t: Tree<H>, p: Path, q: Path)
    requires At(t, p).Node? && |q| >= |p|
    ensures At(BalanceTree(t, p), q) == At(t, q)
    decreases |p|
  {
    if |p| >= 2 {
      var pp := Parent(p);
      var gp := Parent(pp);
      var up := gp + [Other(Last(pp))];
      NodeReaches(t, p);
      ReachesParent(t, p);
      NodeReaches(t, pp);
      assert |pp| == |p| - 1;
      ReachesParent(t, pp);
      if ColorOf(At(t, up)) == Red {
        var t1 := PaintAt(t, up, Black);
        var t2 := PaintAt(t1, pp, Black);
        var t3 := PaintAt(t2, gp, Red);
        Paint3(t, up, Black, pp, Black, gp, Red);
        RecolouredPositions(t, t3, gp);
        PaintBeside(t, up, Black, q);
        PaintBeside(t1, pp, Black, q);
        PaintBeside(t2, gp, Red, q);
        BalanceAbove(t3, gp, q);
      }
    }
  }

  /**
   * The red-uncle case of `balance()` at p: afterwards the uncle and the
   * parent are black and the grandparent is red, whatever the balancing
   * further up does.
   */
  lemma BalanceRedUncle<H>(t: Tree<H>, p: Path)
    requires At(t, p).Node? && |p| >= 2
    requires ColorOf(At(t, Parent(Parent(p)) + [Other(Last(Parent(p)))])) == Red
    ensures var pp := Parent(p);
      var gp := Parent(pp);
      var u := BalanceTree(t, p);
      && ColorOf(At(u, gp + [Other(Last(pp))])) == Black
      && ColorOf(At(u, pp)) == Black
      && ColorOf(At(u, gp)) == Red
  {
    var pp := Parent(p);
    var gp := Parent(pp);
    var up := gp + [Other(Last(pp))];
    NodeReaches(t, p);
    ReachesParent(t, p);
    NodeReaches(t, pp);
    assert |pp| == |p| - 1;
    ReachesParent(t, pp);
    var t1 := PaintAt(t, up, Black);
    var t2 := PaintAt(t1, pp, Black);
    var t3 := PaintAt(t2, gp, Red);
    PaintRecolours(t, up, Black);
    PaintRecolours(t1, pp, Black);
    PaintRecolours(t2, gp, Red);
    RecolouredPositions(t, t1, pp);
    RecolouredPositions(t, t1, gp);
    RecolouredPositions(t1, t2, gp);
    assert up != pp by {
      assert up[|up| - 1] != pp[|pp| - 1];
    }
    PaintBeside(t1, pp, Black, up);
    PaintBeside(t2, gp, Red, up);
    PaintBeside(t2, gp, Red, pp);
    Paint3(t, up, Black, pp, Black, gp, Red);
    RecolouredPositions(t, t3, gp);
    BalanceAbove(t3, gp, up);
    BalanceAbove(t3, gp, pp);
    BalanceAbove(t3, gp, gp);
  }

  // ---------------------------------------------------------------------
  // Rotations on the heap
  // ---------------------------------------------------------------------

  lemma RotateLeftWellformed(f: Fields, t: Tree<Ref>, next: Ref, p: Path)
    requires Wellformed(f, t, next) && At(t, p).Node? && At(t, p).right.Node?
    ensures CanRotate(f, At(t, p).handle, R) && f.right[At(t, p).handle] == At(t, p).right.handle
    ensures Wellformed(RotateLeftFields(f, At(t, p).handle), RotateLeftAt(t, p), next)
  {
    RotateLeftLinked(f, t, NULL, p);
    RotateAt(t, p);
    LinkedNode(f, t, NULL, NULL, p);
    Steps(t, p, R);
    LinkedNode(f, t, NULL, NULL, p + [R]);
    if p == [] {
      NodeReaches(t, p);
      PutAt(t, p, Trees.RotateLeft(At(t, p)));
    }
  }

  lemma RotateRightWellformed(f: Fields, t: Tree<Ref>, next: Ref, p: Path)
    requires Wellformed(f, t, next) && At(t, p).Node? && At(t, p).left.Node?
    ensures CanRotate(f, At(t, p).handle, L) && f.left[At(t, p).handle] == At(t, p).left.handle
    ensures Wellformed(RotateRightFields(f, At(t, p).handle), RotateRightAt(t, p), next)
  {
    RotateRightLinked(f, t, NULL, p);
    RotateAt(t, p);
    LinkedNode(f, t, NULL, NULL, p);
    Steps(t, p, L);
    LinkedNode(f, t, NULL, NULL, p + [L]);
    if p == [] {
      NodeReaches(t, p);
      PutAt(t, p, Trees.RotateRight(At(t, p)));
    }
  }

  lemma PaintWellformed(f: Fields, t: Tree<Ref>, next: Ref, q: Path, c: Color)
    requires Wellformed(f, t, next) && At(t, q).Node?
    ensures Wellformed(f.(color := f.color[At(t, q).handle := c]), PaintAt(t, q, c), next)
  {
    PaintLinked(f, t, NULL, q, c);
    PaintKeeps(t, q, c);
    PaintRecolours(t, q, c);
    RecolouredPositions(t, PaintAt(t, q, c), []);
  }

  /** The value of a node created from `item`: none for a `null` item. */
  function ValueOf(item: Option<int>): map<Ref, int>
  {
    match item
    case None => map[]
    case Some(k) => map[1 := k]
  }

  class Arena {
    var value: map<Ref, int>
    var color: map<Ref, Color>
    var left: map<Ref, Ref>
    var right: map<Ref, Ref>
    var parent: map<Ref, Ref>
    /** The handle the next node created gets. */
    var next: Ref
    ghost var shape: Tree<Ref>

    function F(): Fields
      reads this
    {
      Fields(value, color, left, right, parent)
    }

    /** The heap holds `shape`, a non-empty tree with `null` leaves and handles below `next`. */
    ghost predicate Valid()
      reads this
    {
      Wellformed(F(), shape, next)
    }

    /**
     * `RedBlackTree(value)`: a black node holding the item (none for a
     * `null` item), with `null` children and no parent.
     */
    constructor (item: Option<int>)
      ensures Valid() && shape == Node(1, Black, if item.Some? then item.value else 0, Nil, Nil)
      ensures value == ValueOf(item) && parent[1] == NULL && next == 2
    {
      value := ValueOf(item);
      color := map[1 := Black];
      left := map[1 := NULL];
      right := map[1 := NULL];
      parent := map[1 := NULL];
      next := 2;
      shape := Node(1, Black, if item.Some? then item.value else 0, Nil, Nil);
      new;
      assert NodeHas(F(), 1, shape.color, shape.key, NULL, NULL, NULL);
      assert Linked(F(), shape, NULL, NULL);
      assert Unique(shape);
      assert Holds(F(), shape, NULL);
      assert Handles(shape) == {1};
    }

    /** `RedBlackTree(value, color)`: the same, with the given colour. */
    constructor WithColor(item: Option<int>, c: Color)
      ensures Valid() && shape == Node(1, c, if item.Some? then item.value else 0, Nil, Nil)
      ensures value == ValueOf(item) && parent[1] == NULL && next == 2
    {
      value := ValueOf(item);
      color := map[1 := c];
      left := map[1 := NULL];
      right := map[1 := NULL];
      parent := map[1 := NULL];
      next := 2;
      shape := Node(1, c, if item.Some? then item.value else 0, Nil, Nil);
      new;
      assert NodeHas(F(), 1, shape.color, shape.key, NULL, NULL, NULL);
      assert Linked(F(), shape, NULL, NULL);
      assert Unique(shape);
      assert Holds(F(), shape, NULL);
      assert Handles(shape) == {1};
    }

    /** The heap entry of the node at p, and what its links mean. */
    lemma Entry(p: Path)
      requires Valid() && At(shape, p).Node?
      ensures var n := At(shape, p);
        && NodeHas(F(), n.handle, n.color, n.key, Top(n.left, NULL), Top(n.right, NULL), UpOf(shape, p, NULL))
        && (left[n.handle] == NULL <==> n.left.Nil?) && (right[n.handle] == NULL <==> n.right.Nil?)
        && Reaches(shape, p) && Reaches(shape, p + [L]) && Reaches(shape, p + [R])
        && At(shape, p + [L]) == n.left && At(shape, p + [R]) == n.right
        && (p == [] <==> parent[n.handle] == NULL)
        && (p != [] ==> parent[n.handle] == At(shape, Parent(p)).handle)
    {
      var n := At(shape, p);
      LinkedNode(F(), shape, NULL, NULL, p);
      Steps(shape, p, L);
      Steps(shape, p, R);
      if n.left.Node? {
        LinkedNode(F(), shape, NULL, NULL, p + [L]);
      }
      if n.right.Node? {
        LinkedNode(F(), shape, NULL, NULL, p + [R]);
      }
      if p != [] {
        ParentLink(F(), shape, NULL, p);
      }
    }

    // -------------------------------------------------------------------
    // Queries
    // -------------------------------------------------------------------

    /** `lookUpNode(item)` on node n at p: the handle `LookUpAsWritten` names, or `null`. */
    function LookUpNode(n: Ref, k: int, ghost p: Path): (r: Ref)
      reads this
      requires Valid() && At(shape, p).Node? && At(shape, p).handle == n
      ensures match LookUpAsWritten(At(shape, p), value.Keys, k)
        case None => r == NULL
        case Some(q) => r == At(At(shape, p), q).handle
      decreases At(shape, p)
    {
      Entry(p);
      if n !in value then NULL
      else if value[n] == k then n
      else if value[n] < k then
        if left[n] == NULL then NULL else LookUpNode(left[n], k, p + [L])
      else
        if right[n] == NULL then NULL else LookUpNode(right[n], k, p + [R])
    }

    /** `min()`: the handle of the node `BinarySearchTree.Min` finds below p. */
    function Min(n: Ref, ghost p: Path): (r: Ref)
      reads this
      requires Valid() && At(shape, p).Node? && At(shape, p).handle == n
      ensures r == At(At(shape, p), BinarySearchTree.Min(At(shape, p))).handle
      decreases At(shape, p)
    {
      Entry(p);
      ghost var t := At(shape, p);
      if left[n] == NULL then n
      else
        assert ([L] + BinarySearchTree.Min(t.left))[1..] == BinarySearchTree.Min(t.left);
        Min(left[n], p + [L])
    }

    /** `max()`: the handle of the node `BinarySearchTree.Max` finds below p. */
    function Max(n: Ref, ghost p: Path): (r: Ref)
      reads this
      requires Valid() && At(shape, p).Node? && At(shape, p).handle == n
      ensures r == At(At(shape, p), BinarySearchTree.Max(At(shape, p))).handle
      decreases At(shape, p)
    {
      Entry(p);
      ghost var t := At(shape, p);
      if right[n] == NULL then n
      else
        assert ([R] + BinarySearchTree.Max(t.right))[1..] == BinarySearchTree.Max(t.right);
        Max(right[n], p + [R])
    }

    /** `successorNode()`: `min()` of the right child, which must exist. */
    function SuccessorNode(n: Ref, ghost p: Path): (r: Ref)
      reads this
      requires Valid() && At(shape, p).Node? && At(shape, p).handle == n && At(shape, p).right.Node?
      ensures r == At(At(shape, p), BinarySearchTree.Successor(At(shape, p))).handle
    {
      Entry(p);
      ghost var t := At(shape, p);
      assert ([R] + BinarySearchTree.Min(t.right))[1..] == BinarySearchTree.Min(t.right);
      Min(right[n], p + [R])
    }

    /** `predecessorNode()`: `max()` of the left child, which must exist. */
    function PredecessorNode(n: Ref, ghost p: Path): (r: Ref)
      reads this
      requires Valid() && At(shape, p).Node? && At(shape, p).handle == n && At(shape, p).left.Node?
      ensures r == At(At(shape, p), BinarySearchTree.Predecessor(At(shape, p))).handle
    {
      Entry(p);
      ghost var t := At(shape, p);
      assert ([L] + BinarySearchTree.Max(t.left))[1..] == BinarySearchTree.Max(t.left);
      Max(left[n], p + [L])
    }

    /**
     * `getSibiling()` on node n at p: `null` at the root, otherwise the
     * parent's other child, `null` when there is none.
     */
    function GetSibiling(n: Ref, ghost p: Path): (r: Ref)
      reads this
      requires Valid() && At(shape, p).Node? && At(shape, p).handle == n
      ensures p == [] ==> r == NULL
      ensures p != [] ==> r == Top(At(shape, Parent(p) + [Other(Last(p))]), NULL)
    {
      SiblingLinks(p);
      if parent[n] != NULL then
        if left[parent[n]] != NULL && left[parent[n]] == n then right[parent[n]] else left[parent[n]]
      else NULL
    }

    /** The links `getSibiling` follows from the node at p. */
    lemma SiblingLinks(p: Path)
      requires Valid() && At(shape, p).Node?
      ensures var n := At(shape, p).handle;
        && n > 0 && n in parent && (p == [] <==> parent[n] == NULL)
        && (p != [] ==>
          && parent[n] in left && parent[n] in right
          && (left[parent[n]] == n <==> Last(p) == L)
          && left[parent[n]] == Top(At(shape, Parent(p) + [L]), NULL)
          && right[parent[n]] == Top(At(shape, Parent(p) + [R]), NULL)
          && Top(At(shape, Parent(p) + [Other(Last(p))]), NULL)
             == if Last(p) == L then right[parent[n]] else left[parent[n]])
    {
      Entry(p);
      if p != [] {
        var pp := Parent(p);
        ReachesParent(shape, p);
        ParentLink(F(), shape, NULL, p);
        Entry(pp);
      }
    }

    // -------------------------------------------------------------------
    // Updates
    // -------------------------------------------------------------------

    method SetColor(h: Ref, c: Color, ghost q: Path)
      requires Valid() && At(shape, q).Node? && At(shape, q).handle == h
      modifies this
      ensures Valid() && shape == PaintAt(old(shape), q, c)
      ensures F() == old(F()).(color := old(color)[h := c]) && next == old(next)
    {
      PaintWellformed(F(), shape, next, q, c);
      color := color[h := c];
      shape := PaintAt(shape, q, c);
    }

    /**
     * `rotateleft()` on node x at p: nothing when x has no right child;
     * otherwise the right child takes x's place (in its parent, if any), x
     * becomes its left child and its former left subtree x's right one.
     */
    method RotateLeft(x: Ref, ghost p: Path)
      requires Valid() && At(shape, p).Node? && At(shape, p).handle == x
      modifies this
      ensures Valid() && next == old(next)
      ensures old(At(shape, p)).right.Nil? ==> F() == old(F()) && shape == old(shape)
      ensures old(At(shape, p)).right.Node? ==>
        && CanRotate(old(F()), x, R) && F() == RotateLeftFields(old(F()), x)
        && shape == RotateLeftAt(old(shape), p)
    {
      Entry(p);
      if right[x] != NULL {
        RotateLeftWellformed(F(), shape, next, p);
        var y := right[x];
        var par := parent[x];
        right := right[x := left[y]];
        if left[y] != NULL {
          parent := parent[left[y] := x];
        }
        left := left[y := x];
        parent := parent[x := y];
        parent := parent[y := par];
        if par != NULL {
          if left[par] == x {
            left := left[par := y];
          } else {
            right := right[par := y];
          }
        }
        shape := RotateLeftAt(shape, p);
      }
    }

    /** `rotateRight()`: the mirror image of `RotateLeft`. */
    method RotateRight(x: Ref, ghost p: Path)
      requires Valid() && At(shape, p).Node? && At(shape, p).handle == x
      modifies this
      ensures Valid() && next == old(next)
      ensures old(At(shape, p)).left.Nil? ==> F() == old(F()) && shape == old(shape)
      ensures old(At(shape, p)).left.Node? ==>
        && CanRotate(old(F()), x, L) && F() == RotateRightFields(old(F()), x)
        && shape == RotateRightAt(old(shape), p)
    {
      Entry(p);
      if left[x] != NULL {
        RotateRightWellformed(F(), shape, next, p);
        var y := left[x];
        var par := parent[x];
        left := left[x := right[y]];
        if right[y] != NULL {
          parent := parent[right[y] := x];
        }
        right := right[y := x];
        parent := parent[x := y];
        parent := parent[y := par];
        if par != NULL {
          if left[par] == x {
            left := left[par := y];
          } else {
            right := right[par := y];
          }
        }
        shape := RotateRightAt(shape, p);
      }
    }

    /**
     * `balance()` on node n at p: the heap ends up holding the tree
     * `BalanceTree` computes; only colours are written.
     */
    method Balance(n: Ref, ghost p: Path)
      requires Valid() && At(shape, p).Node? && At(shape, p).handle == n
      modifies this
      ensures Valid() && next == old(next) && shape == BalanceTree(old(shape), p)
      ensures value == old(value) && left == old(left) && right == old(right) && parent == old(parent)
      decreases |p|
    {
      Entry(p);
      var par := parent[n];
      if par != NULL {
        ghost var pp := Parent(p);
        ReachesParent(shape, p);
        Entry(pp);
        if parent[par] != NULL {
          var grandParent := parent[par];
          ghost var gp := Parent(pp);
          ghost var up := gp + [Other(Last(pp))];
          ReachesParent(shape, pp);
          Entry(gp);
          var uncle := GetSibiling(par, pp);
          if grandParent != NULL && uncle != NULL {
            Entry(up);
            if color[uncle] == Red {
              ghost var t := shape;
              SetColor(uncle, Black, up);
              ghost var t1 := shape;
              PaintRecolours(t, up, Black);
              RecolouredPositions(t, t1, pp);
              RecolouredAt(t, t1, pp);
              SetColor(par, Black, pp);
              ghost var t2 := shape;
              PaintRecolours(t1, pp, Black);
              RecolouredPositions(t1, t2, gp);
              RecolouredAt(t, t1, gp);
              RecolouredAt(t1, t2, gp);
              SetColor(grandParent, Red, gp);
              Paint3(t, up, Black, pp, Black, gp, Red);
              RecolouredPositions(t, shape, gp);
              RecolouredAt(t, shape, gp);
              Balance(grandParent, gp);
            }
          }
        }
      }
    }

    /** `insert(item)`: the draft's body is empty, so nothing changes. */
    method Insert(k: int)
      ensures shape == old(shape) && F() == old(F())
    {
    }
  }
}
