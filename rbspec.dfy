/**
 * The red-black algorithms of src/main/RedBlackTree.java stated on pure trees,
 * exactly as the source runs them: `balanceInsertion`, `insert`, `delete` and
 * `balanceDeletion`, with a node named by its position (a path from the root)
 * and the sentinel leaf standing for an empty subtree.
 *
 * Where the source dereferences `null` the result says so; where it would
 * write parent/child links that no longer describe one tree, the model stops
 * before those writes and says so. The heap methods of `RedBlackTree.Arena`
 * are proved to follow these functions step for step.
 */
module RedBlackSpec {
  import opened Trees
  import BinarySearchTree

  /** How a run ended. */
  datatype Halt =
    | Finished
    /** The source dereferences a null reference (a `NullPointerException`). */
    | NullDereference
    /** The source would leave parent and child links that disagree. */
    | BrokenLinks

  datatype Outcome<H> = Outcome(tree: Tree<H>, halt: Halt)

  // ---------------------------------------------------------------------
  // Insertion
  // ---------------------------------------------------------------------

  /**
   * `balanceInsertion` on the (real) node at p: a parentless node is painted
   * black; below a red parent, a red uncle triggers recolouring and a fresh
   * start at the grandparent, a zig-zag triggers a rotation of the parent and
   * a fresh start at the node that took its place, and an aligned pair
   * triggers a rotation of the grandparent and recolouring.
   */
  function BalanceInsertion<H>(t: Tree<H>, p: Path): (o: Outcome<H>)
    requires At(t, p).Node?
    decreases |p|, 1
  {
    if p == [] then Outcome(PaintAt(t, p, Black), Finished)
    else
      var pp := Parent(p);
      assert p == pp + [Last(p)];
      NodeReaches(t, p);
      Steps(t, pp, Last(p));
      if At(t, pp).color != Red then Outcome(t, Finished)
      else if pp == [] then Outcome(t, NullDereference)
      else UncleStep(t, p)
  }

  /**
   * The part of `balanceInsertion` that looks at the uncle, for a node at p
   * whose parent is red and not the root: a red uncle is recoloured with the
   * parent and the walk goes on from the grandparent; otherwise a zig-zag is
   * rotated straight and the walk goes on from the parent, and a straight
   * line is rotated at the grandparent and recoloured.
   */
  function UncleStep<H>(t: Tree<H>, p: Path): (o: Outcome<H>)
    requires At(t, p).Node? && |p| >= 2
    decreases |p|, 0
  {
    var pp := Parent(p);
    assert p == pp + [Last(p)];
    NodeReaches(t, p);
    Steps(t, pp, Last(p));
    var parent := At(t, pp);
    var gp := Parent(pp);
    assert pp == gp + [Last(pp)];
    Steps(t, gp, Last(pp));
    var up := gp + [Other(Last(pp))];
    if ColorOf(At(t, up)) == Red then
      var t1 := PaintAt(PaintAt(PaintAt(t, up, Black), pp, Black), gp, Red);
      Paint3(t, up, Black, pp, Black, gp, Red);
      RecolouredPositions(t, t1, gp);
      BalanceInsertion(t1, gp)
    else if Last(p) == R && Last(pp) == L then
      PutAt(t, pp, RotateLeft(parent));
      BalanceInsertion(RotateLeftAt(t, pp), pp)
    else if Last(p) == L && Last(pp) == R then
      PutAt(t, pp, RotateRight(parent));
      BalanceInsertion(RotateRightAt(t, pp), pp)
    else if Last(p) == L then
      Outcome(PaintAt(PaintAt(RotateRightAt(t, gp), gp + [R], Red), gp, Black), Finished)
    else
      Outcome(PaintAt(PaintAt(RotateLeftAt(t, gp), gp + [L], Red), gp, Black), Finished)
  }

  /**
   * `insert` called on the node at p0: find the insertion point below it;
   * unless it already holds k, link a new red leaf holding k (handle h) on
   * k's side and rebalance from it.
   */
  function Insert<H>(t: Tree<H>, p0: Path, k: int, h: H): (o: Outcome<H>)
    requires At(t, p0).Node?
  {
    var q := p0 + BinarySearchTree.Find(At(t, p0), k);
    AtAppend(t, p0, BinarySearchTree.Find(At(t, p0), k));
    var n := At(t, q);
    if n.key == k then Outcome(t, Finished)
    else
      var d := BinarySearchTree.Side(n.key, k);
      var leaf := Node(h, Red, k, Nil, Nil);
      ReachesChild(t, q, d);
      PutAt(t, q + [d], leaf);
      BalanceInsertion(Put(t, q + [d], leaf), q + [d])
  }

  /** b holds the nodes of a, with the same keys in the same order, and no handle twice. */
  ghost predicate Rearranged<H>(a: Tree<H>, b: Tree<H>)
  {
    b.Node? == a.Node? && InOrder(b) == InOrder(a) && Handles(b) == Handles(a) && Unique(b)
  }

  /** A replacement below the root keeps the root's colour. */
  lemma PutBelowRoot<H>(t: Tree<H>, p: Path, s: Tree<H>)
    requires t.Node? && p != []
    ensures Put(t, p, s).Node? && ColorOf(Put(t, p, s)) == ColorOf(t)
  {
  }

  /** So does recolouring a node below the root. */
  lemma PaintBelowRoot<H>(t: Tree<H>, p: Path, c: Color)
    requires t.Node? && p != []
    ensures PaintAt(t, p, c).Node? && ColorOf(PaintAt(t, p, c)) == ColorOf(t)
  {
    if At(t, p).Node? {
      PutBelowRoot(t, p, At(t, p).(color := c));
    }
  }

  /**
   * `balanceInsertion` only rotates and recolours: the tree keeps its nodes
   * and its in-order sequence of keys.
   */
  lemma {:induction false} BalanceInsertionKeeps<H>(t: Tree<H>, p: Path)
    requires At(t, p).Node? && Unique(t)
    ensures Rearranged(t, BalanceInsertion(t, p).tree)
    decreases |p|, 1
  {
    if p == [] {
      PaintKeeps(t, p, Black);
    } else {
      var pp := Parent(p);
      assert p == pp + [Last(p)];
      NodeReaches(t, p);
      Steps(t, pp, Last(p));
      if At(t, pp).color == Red && pp != [] {
        UncleStepKeeps(t, p);
      }
    }
  }

  /** The uncle cases of `BalanceInsertionKeeps`. */
  lemma {:induction false} UncleStepKeeps<H>(t: Tree<H>, p: Path)
    requires At(t, p).Node? && |p| >= 2 && Unique(t)
    ensures Rearranged(t, UncleStep(t, p).tree)
    decreases |p|, 0
  {
    var pp := Parent(p);
    assert p == pp + [Last(p)];
    NodeReaches(t, p);
    Steps(t, pp, Last(p));
    var gp := Parent(pp);
    assert pp == gp + [Last(pp)];
    Steps(t, gp, Last(pp));
    var up := gp + [Other(Last(pp))];
    if ColorOf(At(t, up)) == Red {
      RecolourKeeps(t, up, pp, gp);
      BalanceInsertionKeeps(PaintAt(PaintAt(PaintAt(t, up, Black), pp, Black), gp, Red), gp);
    } else if Last(p) == R && Last(pp) == L {
      RotateInPlaceKeeps(t, pp);
      BalanceInsertionKeeps(RotateLeftAt(t, pp), pp);
    } else if Last(p) == L && Last(pp) == R {
      RotateInPlaceKeeps(t, pp);
      BalanceInsertionKeeps(RotateRightAt(t, pp), pp);
    } else {
      RotateAndPaintKeeps(t, gp);
    }
  }

  /** The recolouring of the red-uncle case keeps the nodes and their order. */
  lemma RecolourKeeps<H>(t: Tree<H>, up: Path, pp: Path, gp: Path)
    requires At(t, gp).Node? && Unique(t)
    ensures var t1 := PaintAt(PaintAt(PaintAt(t, up, Black), pp, Black), gp, Red);
      Rearranged(t, t1) && At(t1, gp).Node?
  {
    var t1 := PaintAt(PaintAt(PaintAt(t, up, Black), pp, Black), gp, Red);
    Paint3(t, up, Black, pp, Black, gp, Red);
    RecolouredKeeps(t, t1);
    RecolouredPositions(t, t1, gp);
    RecolouredPositions(t, t1, []);
  }

  /** A rotation at a node keeps the nodes and their order, and leaves a node at that position. */
  lemma RotateInPlaceKeeps<H>(t: Tree<H>, pp: Path)
    requires At(t, pp).Node? && Unique(t)
    ensures At(t, pp).right.Node? ==> Rearranged(t, RotateLeftAt(t, pp)) && At(RotateLeftAt(t, pp), pp).Node?
    ensures At(t, pp).left.Node? ==> Rearranged(t, RotateRightAt(t, pp)) && At(RotateRightAt(t, pp), pp).Node?
  {
    RotateAt(t, pp);
    NodeReaches(t, pp);
    if At(t, pp).right.Node? {
      PutAt(t, pp, RotateLeft(At(t, pp)));
    }
    if At(t, pp).left.Node? {
      PutAt(t, pp, RotateRight(At(t, pp)));
    }
  }

  /** The rotation and recolouring of the aligned case keep the nodes and their order. */
  lemma RotateAndPaintKeeps<H>(t: Tree<H>, gp: Path)
    requires At(t, gp).Node? && Unique(t)
    ensures At(t, gp).left.Node? ==>
      Rearranged(t, PaintAt(PaintAt(RotateRightAt(t, gp), gp + [R], Red), gp, Black))
    ensures At(t, gp).right.Node? ==>
      Rearranged(t, PaintAt(PaintAt(RotateLeftAt(t, gp), gp + [L], Red), gp, Black))
  {
    RotateAt(t, gp);
    if At(t, gp).left.Node? {
      var u := RotateRightAt(t, gp);
      PaintKeeps(u, gp + [R], Red);
      PaintKeeps(PaintAt(u, gp + [R], Red), gp, Black);
    }
    if At(t, gp).right.Node? {
      var u := RotateLeftAt(t, gp);
      PaintKeeps(u, gp + [L], Red);
      PaintKeeps(PaintAt(u, gp + [L], Red), gp, Black);
    }
  }

  /**
   * On a tree with a black root, `balanceInsertion` never dereferences
   * `null` and leaves the root black.
   */
  lemma {:induction false} BalanceInsertionRootBlack<H>(t: Tree<H>, p: Path)
    requires At(t, p).Node? && ColorOf(t) == Black
    ensures BalanceInsertion(t, p).halt == Finished
    ensures ColorOf(BalanceInsertion(t, p).tree) == Black
    decreases |p|, 1
  {
    if p == [] {
      PutAt(t, p, t.(color := Black));
    } else {
      var pp := Parent(p);
      assert p == pp + [Last(p)];
      NodeReaches(t, p);
      Steps(t, pp, Last(p));
      if At(t, pp).color == Red {
        assert pp != [];
        UncleStepRootBlack(t, p);
      }
    }
  }

  /** The uncle cases of `BalanceInsertionRootBlack`. */
  lemma {:induction false} UncleStepRootBlack<H>(t: Tree<H>, p: Path)
    requires At(t, p).Node? && |p| >= 2 && ColorOf(t) == Black
    ensures UncleStep(t, p).halt == Finished
    ensures ColorOf(UncleStep(t, p).tree) == Black
    decreases |p|, 0
  {
    var pp := Parent(p);
    assert p == pp + [Last(p)];
    NodeReaches(t, p);
    Steps(t, pp, Last(p));
    var gp := Parent(pp);
    assert pp == gp + [Last(pp)];
    Steps(t, gp, Last(pp));
    var up := gp + [Other(Last(pp))];
    if ColorOf(At(t, up)) == Red {
      var t1 := PaintAt(PaintAt(PaintAt(t, up, Black), pp, Black), gp, Red);
      Paint3(t, up, Black, pp, Black, gp, Red);
      RecolouredPositions(t, t1, gp);
      if gp == [] {
        PutAt(t1, gp, t1.(color := Black));
        assert BalanceInsertion(t1, gp) == Outcome(PaintAt(t1, gp, Black), Finished);
      } else {
        var t0 := PaintAt(PaintAt(t, up, Black), pp, Black);
        PaintBelowRoot(t, up, Black);
        PaintBelowRoot(PaintAt(t, up, Black), pp, Black);
        PaintBelowRoot(t0, gp, Red);
        BalanceInsertionRootBlack(t1, gp);
      }
    } else if Last(p) == R && Last(pp) == L {
      PutAt(t, pp, RotateLeft(At(t, pp)));
      PutBelowRoot(t, pp, RotateLeft(At(t, pp)));
      BalanceInsertionRootBlack(RotateLeftAt(t, pp), pp);
    } else if Last(p) == L && Last(pp) == R {
      PutAt(t, pp, RotateRight(At(t, pp)));
      PutBelowRoot(t, pp, RotateRight(At(t, pp)));
      BalanceInsertionRootBlack(RotateRightAt(t, pp), pp);
    } else {
      var d := Last(p);
      var u := if d == L then RotateRightAt(t, gp) else RotateLeftAt(t, gp);
      var u1 := PaintAt(u, gp + [Other(d)], Red);
      PaintRecolours(u, gp + [Other(d)], Red);
      if gp == [] {
        assert u.Node?;
        RecolouredPositions(u, u1, gp);
        PutAt(u1, gp, u1.(color := Black));
      } else {
        PutBelowRoot(t, gp, At(u, gp));
        PaintBelowRoot(u, gp + [Other(d)], Red);
        PaintBelowRoot(u1, gp, Black);
      }
    }
  }

  /**
   * `insert` called on the root of a binary search tree with distinct
   * handles, with a fresh handle for the new node: an absent key is added as
   * one new node and afterwards `contains` finds it, a present key changes
   * nothing, order is kept, and a black root stays black without any `null`
   * dereference.
   */
  lemma InsertAdds<H>(t: Tree<H>, k: int, h: H)
    requires t.Node? && IsBST(t) && Unique(t) && h !in Handles(t)
    ensures var o := Insert(t, [], k, h);
      && IsBST(o.tree) && Unique(o.tree) && Keys(o.tree) == Keys(t) + {k}
      && o.tree.Node? && BinarySearchTree.Contains(o.tree, k)
      && (k in Keys(t) ==> o == Outcome(t, Finished))
      && (k !in Keys(t) ==> Handles(o.tree) == Handles(t) + {h} && Size(o.tree) == Size(t) + 1)
      && (ColorOf(t) == Black ==> o.halt == Finished && ColorOf(o.tree) == Black)
  {
    var q := BinarySearchTree.Find(t, k);
    assert [] + q == q;
    BinarySearchTree.FindLocates(t, k);
    if k !in Keys(t) {
      var d := BinarySearchTree.Side(At(t, q).key, k);
      var leaf := Node(h, Red, k, Nil, Nil);
      var p := q + [d];
      var u := Put(t, p, leaf);
      BinarySearchTree.InsertionPoint(t, k, leaf);
      Steps(t, q, d);
      PutAt(t, p, leaf);
      UniqueFrame(t, p);
      PutSelf(t, p);
      HandlesPut(t, p, leaf);
      UniquePut(t, p, leaf);
      BalanceInsertionKeeps(u, p);
      PutBelowRoot(t, p, leaf);
      if ColorOf(t) == Black {
        BalanceInsertionRootBlack(u, p);
      }
    }
  }

  // ---------------------------------------------------------------------
  // Deletion
  // ---------------------------------------------------------------------

  /**
   * Whether the source takes the node at p for its parent's left child: a
   * real node compares its own reference, the sentinel is taken for the left
   * child whenever the parent's left child is the sentinel.
   */
  function SeenLeft<H>(t: Tree<H>, p: Path): bool
    requires p != []
  {
    if At(t, p).Node? then Last(p) == L else Child(At(t, Parent(p)), L).Nil?
  }

  /** The position `getSibling` returns for the node at p. */
  function SiblingPath<H>(t: Tree<H>, p: Path): Path
    requires p != []
  {
    Parent(p) + [if SeenLeft(t, p) then R else L]
  }

  /** Nodes outside the subtree at p (a termination measure). */
  function Outside<H>(t: Tree<H>, p: Path): nat
  {
    Size(Put(t, p, Nil))
  }

  /**
   * `balanceDeletion(dc)` on the node at p (possibly the sentinel), where dc
   * is the colour of the node that was removed.
   */
  function BalanceDeletion<H>(t: Tree<H>, p: Path, dc: Color): (o: Outcome<H>)
    requires t.Node? && Reaches(t, p)
    decreases Outside(t, p), if p == [] then 0 else Size(At(t, SiblingPath(t, p))), 2
  {
    var c := ColorOf(At(t, p));
    if (dc == Black && c == Red) || (dc == Red && c == Black) then Outcome(PaintAt(t, p, Black), Finished)
    else if dc == Red then Outcome(t, Finished)
    else if p == [] then Outcome(t, NullDereference)
    else SiblingStep(t, p)
  }

  /**
   * The part of `balanceDeletion` that looks at the sibling, for a black
   * node at p below the root after a black node was removed.
   */
  function SiblingStep<H>(t: Tree<H>, p: Path): (o: Outcome<H>)
    requires t.Node? && Reaches(t, p) && p != []
    decreases Outside(t, p), Size(At(t, SiblingPath(t, p))), 1
  {
    var sp := SiblingPath(t, p);
    var sibling := At(t, sp);
    if sibling.Nil? then Outcome(t, NullDereference)
    else if sibling.color == Black then
      if ColorOf(sibling.left) == Red || ColorOf(sibling.right) == Red then
        ReachesParent(t, p);
        RedNephew(t, Parent(p), sp)
      else
        BlackSiblingStep(t, p)
    else RedSiblingStep(t, p, Black)
  }

  /**
   * The case of `balanceDeletion` for a black sibling with black children:
   * the sibling turns red, then a red parent turns black, and a black parent
   * below the root is balanced in turn.
   */
  function BlackSiblingStep<H>(t: Tree<H>, p: Path): (o: Outcome<H>)
    requires t.Node? && Reaches(t, p) && p != []
    decreases Outside(t, p), Size(At(t, SiblingPath(t, p))), 0
  {
    var pp := Parent(p);
    ReachesParent(t, p);
    var sp := SiblingPath(t, p);
    var t1 := PaintAt(t, sp, Red);
    if At(t, pp).color == Red then Outcome(PaintAt(t1, pp, Black), Finished)
    else if pp == [] then Outcome(t1, Finished)
    else
      DeletionMovesUp(t, p, sp, Red);
      BalanceDeletion(t1, pp, Black)
  }

  /**
   * The case of `balanceDeletion` for a red sibling: rotate the parent,
   * recolour, and balance the node again at its new position; the mirror
   * branch, taken for the sentinel only when it is the parent's left child,
   * breaks the links of a sentinel that was the right child.
   */
  function RedSiblingStep<H>(t: Tree<H>, p: Path, dc: Color): (o: Outcome<H>)
    requires t.Node? && Reaches(t, p) && p != [] && At(t, SiblingPath(t, p)).Node?
    decreases Outside(t, p), Size(At(t, SiblingPath(t, p))), 0
  {
    var pp := Parent(p);
    if !SeenLeft(t, p) && At(t, p).Nil? then Outcome(t, BrokenLinks)
    else if SeenLeft(t, p) then
      RedSiblingRight(t, p);
      var t2 := PaintAt(PaintAt(RotateLeftAt(t, pp), pp, Black), pp + [L], Red);
      BalanceDeletion(t2, pp + [L, L], dc)
    else
      RedSiblingLeft(t, p);
      var t1 := PaintAt(RotateLeftAt(t, pp), pp + [L, L], Black);
      if pp == [] then Outcome(t1, NullDereference)
      else
        var t2 := PaintAt(t1, Parent(pp), Red);
        BalanceDeletion(t2, pp, dc)
  }

  /**
   * The red-nephew case of `balanceDeletion`: the black sibling at sp has a
   * red child. A far red child is lifted by a single rotation of the parent;
   * a near one by the hand-written double rotation, whose links are right
   * only when the parent is the root (and, in the mirror case, the red
   * child's left subtree is empty). The red child is then painted black.
   */
  function RedNephew<H>(t: Tree<H>, pp: Path, sp: Path): (o: Outcome<H>)
    requires At(t, pp).Node? && |sp| == |pp| + 1 && sp[..|pp|] == pp
    requires At(t, sp).Node? && (ColorOf(At(t, sp).left) == Red || ColorOf(At(t, sp).right) == Red)
  {
    var sibling := At(t, sp);
    assert sp == pp + [Last(sp)];
    Steps(t, pp, Last(sp));
    if Last(sp) == L then
      if ColorOf(sibling.left) != Red then
        if pp != [] then Outcome(t, BrokenLinks)
        else Outcome(PaintAt(DoubleRotateRight(t), [], Black), Finished)
      else
        PutAt(t, pp, RotateRight(At(t, pp)));
        Outcome(PaintAt(RotateRightAt(t, pp), pp + [L], Black), Finished)
    else
      if ColorOf(sibling.left) == Red then
        if pp != [] || sibling.left.left.Node? then Outcome(t, BrokenLinks)
        else Outcome(PaintAt(DoubleRotateLeft(t), [], Black), Finished)
      else
        PutAt(t, pp, RotateLeft(At(t, pp)));
        Outcome(PaintAt(RotateLeftAt(t, pp), pp + [R], Black), Finished)
  }

  /** Lift the right child of the left child to the top (lines 500-508 of the source, at the root). */
  function DoubleRotateRight<H>(t: Tree<H>): (u: Tree<H>)
    requires t.Node? && t.left.Node? && t.left.right.Node?
    ensures InOrder(u) == InOrder(t) && Handles(u) == Handles(t)
  {
    RotateRight(t.(left := RotateLeft(t.left)))
  }

  /** Lift the left child of the right child to the top (lines 517-525 of the source, at the root). */
  function DoubleRotateLeft<H>(t: Tree<H>): (u: Tree<H>)
    requires t.Node? && t.right.Node? && t.right.left.Node?
    ensures InOrder(u) == InOrder(t) && Handles(u) == Handles(t)
  {
    RotateLeft(t.(right := RotateRight(t.right)))
  }

  /**
   * The branch of `delete` for a node with at most one real child (lines
   * 449-456): its child (or the sentinel) replaces it and is rebalanced with
   * the removed node's colour, unless the node is the only one in the tree.
   */
  function RemoveNode<H>(t: Tree<H>, q: Path): (o: Outcome<H>)
    requires At(t, q).Node? && (At(t, q).left.Nil? || At(t, q).right.Nil?)
  {
    var z := At(t, q);
    var replacer := if z.left.Nil? then z.right else z.left;
    if replacer.Nil? && q == [] then Outcome(t, Finished)
    else
      NodeReaches(t, q);
      PutAt(t, q, replacer);
      ReachesPutSame(t, q, replacer);
      BalanceDeletion(Put(t, q, replacer), q, z.color)
  }

  /**
   * `delete(k)` called on the node at p0: look k up below it; a node with at
   * most one real child is removed directly, one with two takes its
   * successor's key and the successor is removed instead.
   */
  function Delete<H>(t: Tree<H>, p0: Path, k: int): (o: Outcome<H>)
    requires At(t, p0).Node?
  {
    var q := p0 + BinarySearchTree.Find(At(t, p0), k);
    AtAppend(t, p0, BinarySearchTree.Find(At(t, p0), k));
    var z := At(t, q);
    if z.key != k then Outcome(t, Finished)
    else if z.left.Nil? || z.right.Nil? then RemoveNode(t, q)
    else RemoveSuccessor(t, q)
  }

  /**
   * The branch of `delete` for the node at q with two real children (lines
   * 458-463): it takes its successor's key and the successor, which has no
   * left child, is removed instead.
   */
  function RemoveSuccessor<H>(t: Tree<H>, q: Path): (o: Outcome<H>)
    requires At(t, q).Node? && At(t, q).left.Node? && At(t, q).right.Node?
  {
    var z := At(t, q);
    var s := q + BinarySearchTree.Successor(z);
    AtAppend(t, q, BinarySearchTree.Successor(z));
    var t1 := Put(t, q, z.(key := At(t, s).key));
    NodeReaches(t, q);
    AtPutBelow(t, q, BinarySearchTree.Successor(z), z.(key := At(t, s).key));
    RemoveNode(t1, s)
  }

  /** `delete(k)` from p0 finds k in a node with two real children, and removes its successor instead. */
  predicate RemovesSuccessor<H>(t: Tree<H>, p0: Path, k: int)
    requires At(t, p0).Node?
  {
    var z := At(At(t, p0), BinarySearchTree.Find(At(t, p0), k));
    z.key == k && z.left.Node? && z.right.Node?
  }

  /** The path of the node `delete(k)` from p0 unlinks: the node holding k, or else its successor. */
  function RemovedPath<H>(t: Tree<H>, p0: Path, k: int): (d: Path)
    requires At(t, p0).Node?
    ensures At(t, d).Node? && Reaches(t, d)
    ensures RemovesSuccessor(t, p0, k) <==> |d| > |p0 + BinarySearchTree.Find(At(t, p0), k)|
  {
    var q := p0 + BinarySearchTree.Find(At(t, p0), k);
    AtAppend(t, p0, BinarySearchTree.Find(At(t, p0), k));
    if RemovesSuccessor(t, p0, k) then
      AtAppend(t, q, BinarySearchTree.Successor(At(t, q)));
      NodeReaches(t, q + BinarySearchTree.Successor(At(t, q)));
      q + BinarySearchTree.Successor(At(t, q))
    else
      NodeReaches(t, q);
      q
  }

  /**
   * `delete` called on a node without a left child, for that node's own key,
   * finds the node at once and removes it directly.
   */
  lemma DeleteAtNode<H>(t: Tree<H>, s: Path)
    requires At(t, s).Node? && At(t, s).left.Nil?
    ensures !RemovesSuccessor(t, s, At(t, s).key)
    ensures Delete(t, s, At(t, s).key) == RemoveNode(t, s)
    ensures RemovedPath(t, s, At(t, s).key) == s
  {
    assert BinarySearchTree.Find(At(t, s), At(t, s).key) == [];
    assert s + [] == s;
  }

  // ---------------------------------------------------------------------
  // Properties of the deletion
  // ---------------------------------------------------------------------

  lemma DoubleRotateUnique<H>(t: Tree<H>)
    requires Unique(t)
    ensures t.Node? && t.left.Node? && t.left.right.Node? ==> Unique(DoubleRotateRight(t))
    ensures t.Node? && t.right.Node? && t.right.left.Node? ==> Unique(DoubleRotateLeft(t))
  {
    if t.Node? && t.left.Node? && t.left.right.Node? {
      RotateUnique(t.left);
      RotateUnique(t.(left := RotateLeft(t.left)));
    }
    if t.Node? && t.right.Node? && t.right.left.Node? {
      RotateUnique(t.right);
      RotateUnique(t.(right := RotateRight(t.right)));
    }
  }

  /**
   * Unless it stops before links it would break, the red-nephew
   * restructuring only rotates and recolours.
   */
  lemma RedNephewKeeps<H>(t: Tree<H>, pp: Path, sp: Path)
    requires At(t, pp).Node? && |sp| == |pp| + 1 && sp[..|pp|] == pp
    requires At(t, sp).Node? && (ColorOf(At(t, sp).left) == Red || ColorOf(At(t, sp).right) == Red)
    requires Unique(t)
    ensures RedNephew(t, pp, sp).halt != BrokenLinks ==> Rearranged(t, RedNephew(t, pp, sp).tree)
  {
    var o := RedNephew(t, pp, sp);
    assert sp == pp + [Last(sp)];
    Steps(t, pp, Last(sp));
    RotateAt(t, pp);
    DoubleRotateUnique(t);
    if o.tree != t {
      if Last(sp) == L {
        if ColorOf(At(t, sp).left) != Red {
          PaintKeeps(DoubleRotateRight(t), [], Black);
        } else {
          PaintKeeps(RotateRightAt(t, pp), pp + [L], Black);
        }
      } else {
        if ColorOf(At(t, sp).left) == Red {
          PaintKeeps(DoubleRotateLeft(t), [], Black);
        } else {
          PaintKeeps(RotateLeftAt(t, pp), pp + [R], Black);
        }
      }
    }
  }

  /**
   * `balanceDeletion` only rotates and recolours: unless the run stops
   * before links it would break, the tree keeps its nodes and its in-order
   * sequence of keys (on a null dereference, the tree the source leaves
   * behind when it throws).
   */
  lemma {:induction false} BalanceDeletionKeeps<H>(t: Tree<H>, p: Path, dc: Color)
    requires t.Node? && Reaches(t, p) && Unique(t)
    ensures BalanceDeletion(t, p, dc).halt != BrokenLinks ==> Rearranged(t, BalanceDeletion(t, p, dc).tree)
    decreases Outside(t, p), if p == [] then 0 else Size(At(t, SiblingPath(t, p))), 1
  {
    var me := At(t, p);
    var c := ColorOf(me);
    if (dc == Black && c == Red) || (dc == Red && c == Black) {
      PaintKeeps(t, p, Black);
    } else if dc == Red || p == [] {
    } else {
      SiblingStepKeeps(t, p);
    }
  }

  /** Unless it stops before links it would break, `SiblingStep` only rotates and recolours. */
  lemma {:induction false} SiblingStepKeeps<H>(t: Tree<H>, p: Path)
    requires t.Node? && Reaches(t, p) && Unique(t) && p != []
    ensures SiblingStep(t, p).halt != BrokenLinks ==> Rearranged(t, SiblingStep(t, p).tree)
    decreases Outside(t, p), Size(At(t, SiblingPath(t, p))), 0
  {
    var pp := Parent(p);
    ReachesParent(t, p);
    var sp := SiblingPath(t, p);
    var sibling := At(t, sp);
    if sibling.Nil? {
    } else if sibling.color == Black {
      if ColorOf(sibling.left) == Red || ColorOf(sibling.right) == Red {
        RedNephewKeeps(t, pp, sp);
      } else {
        var t1 := PaintAt(t, sp, Red);
        PaintKeeps(t, sp, Red);
        if At(t, pp).color == Red {
          PaintKeeps(t1, pp, Black);
        } else if pp != [] {
          DeletionMovesUp(t, p, sp, Red);
          BalanceDeletionKeeps(t1, pp, Black);
        }
      }
    } else if !SeenLeft(t, p) && At(t, p).Nil? {
    } else if SeenLeft(t, p) {
      RedSiblingRight(t, p);
      var u := RotateLeftAt(t, pp);
      RotateAt(t, pp);
      PaintKeeps(u, pp, Black);
      PaintKeeps(PaintAt(u, pp, Black), pp + [L], Red);
      BalanceDeletionKeeps(PaintAt(PaintAt(u, pp, Black), pp + [L], Red), pp + [L, L], Black);
    } else {
      RedSiblingLeft(t, p);
      var u := RotateLeftAt(t, pp);
      RotateAt(t, pp);
      PaintKeeps(u, pp + [L, L], Black);
      var t1 := PaintAt(u, pp + [L, L], Black);
      if pp != [] {
        PaintKeeps(t1, Parent(pp), Red);
        BalanceDeletionKeeps(PaintAt(t1, Parent(pp), Red), pp, Black);
      }
    }
  }

  /** Putting a node's only subtree in its place drops exactly that node. */
  lemma ReplaceByChild<H>(t: Tree<H>, q: Path)
    requires At(t, q).Node? && (At(t, q).left.Nil? || At(t, q).right.Nil?) && Unique(t)
    ensures var z := At(t, q);
      var t1 := Put(t, q, if z.left.Nil? then z.right else z.left);
      && Reaches(t1, q) && Unique(t1)
      && InOrder(t1) == Before(t, q) + InOrder(z.left) + InOrder(z.right) + After(t, q)
      && Handles(t1) == Handles(t) - {z.handle}
  {
    ReplaceHandles(t, q);
    var z := At(t, q);
    ReplaceOrder(t, q, if z.left.Nil? then z.right else z.left);
  }

  /** The order half of `ReplaceByChild`, for the child r that takes the node's place. */
  lemma ReplaceOrder<H>(t: Tree<H>, q: Path, r: Tree<H>)
    requires At(t, q).Node? && InOrder(r) == InOrder(At(t, q).left) + InOrder(At(t, q).right)
    ensures Reaches(Put(t, q, r), q)
    ensures InOrder(Put(t, q, r)) == Before(t, q) + InOrder(At(t, q).left) + InOrder(At(t, q).right) + After(t, q)
  {
    NodeReaches(t, q);
    ReachesPutSame(t, q, r);
    InOrderPut(t, q, r);
  }

  /** The handle half of `ReplaceByChild`. */
  lemma ReplaceHandles<H>(t: Tree<H>, q: Path)
    requires At(t, q).Node? && (At(t, q).left.Nil? || At(t, q).right.Nil?) && Unique(t)
    ensures var z := At(t, q);
      var t1 := Put(t, q, if z.left.Nil? then z.right else z.left);
      Unique(t1) && Handles(t1) == Handles(t) - {z.handle}
  {
    var z := At(t, q);
    var replacer := if z.left.Nil? then z.right else z.left;
    var rest := Handles(Put(t, q, Nil));
    NodeReaches(t, q);
    UniqueFrame(t, q);
    ChildReplaces(z);
    HandlesPut(t, q, replacer);
    assert rest !! Handles(replacer);
    UniquePut(t, q, replacer);
    DropOne(rest, Handles(z), Handles(replacer), z.handle);
  }

  /** Replacing the part Z of a disjoint union by Z without h takes h out of the union. */
  lemma DropOne<H>(rest: set<H>, z: set<H>, r: set<H>, h: H)
    requires rest !! z && r == z - {h} && h !in rest
    ensures rest + r == (rest + z) - {h}
  {
  }

  /** The child that replaces a node with at most one real child holds the rest of its subtree. */
  lemma ChildReplaces<H>(z: Tree<H>)
    requires z.Node? && (z.left.Nil? || z.right.Nil?) && Unique(z)
    ensures var r := if z.left.Nil? then z.right else z.left;
      && Unique(r) && InOrder(r) == InOrder(z.left) + InOrder(z.right)
      && Handles(r) == Handles(z) - {z.handle} && Handles(r) <= Handles(z)
  {
  }

  /**
   * Removing a node with at most one real child takes exactly its key out of
   * the in-order sequence and its handle out of the tree, unless it is the
   * only node, which stays; nothing is claimed when the rebalancing stops
   * before links it would break.
   */
  lemma RemoveNodeKeeps<H>(t: Tree<H>, q: Path)
    requires At(t, q).Node? && (At(t, q).left.Nil? || At(t, q).right.Nil?) && Unique(t)
    ensures var z, o := At(t, q), RemoveNode(t, q);
      if q == [] && z.left.Nil? && z.right.Nil? then o == Outcome(t, Finished)
      else
        o.halt != BrokenLinks ==>
          && Unique(o.tree) && o.tree.Node?
          && InOrder(o.tree) == Before(t, q) + InOrder(z.left) + InOrder(z.right) + After(t, q)
          && Handles(o.tree) == Handles(t) - {z.handle}
  {
    var z := At(t, q);
    var replacer := if z.left.Nil? then z.right else z.left;
    if !(q == [] && z.left.Nil? && z.right.Nil?) {
      var t1 := Put(t, q, replacer);
      ReplaceByChild(t, q);
      if q != [] {
        assert t1.Node?;
      }
      BalanceDeletionKeeps(t1, q, z.color);
    }
  }

  /**
   * The first step of removing through the successor: the node at q takes
   * the successor's key and keeps its handle; the successor is still below it.
   */
  lemma CopySuccessor<H>(t: Tree<H>, q: Path)
    requires At(t, q).Node? && At(t, q).left.Node? && At(t, q).right.Node? && Unique(t)
    ensures var z := At(t, q);
      var sp := BinarySearchTree.Successor(z);
      var t1 := Put(t, q, z.(key := At(z, sp).key));
      && Reaches(t1, q + sp) && At(t1, q + sp) == At(z, sp) && Unique(t1) && Handles(t1) == Handles(t)
  {
    var z := At(t, q);
    var sp := BinarySearchTree.Successor(z);
    var z1 := z.(key := At(z, sp).key);
    NodeReaches(t, q);
    AtPutBelow(t, q, sp, z1);
    assert At(z1, sp) == At(z, sp);
    UniqueFrame(t, q);
    assert Handles(z1) == Handles(z);
    UniqueReplace(t, q, z1);
    NodeReaches(Put(t, q, z1), q + sp);
  }

  /**
   * Once the node at q holds the successor's key, splicing the successor out
   * leaves the old in-order sequence without the key at q.
   */
  lemma SpliceSuccessor<H>(t: Tree<H>, q: Path)
    requires At(t, q).Node? && At(t, q).left.Node? && At(t, q).right.Node?
    ensures var z := At(t, q);
      var sp := BinarySearchTree.Successor(z);
      var y := At(z, sp);
      var t1 := Put(t, q, z.(key := y.key));
      Reaches(t1, q + sp) ==>
      Before(t1, q + sp) + InOrder(y.right) + After(t1, q + sp)
        == Before(t, q) + InOrder(z.left) + InOrder(z.right) + After(t, q)
  {
    var z := At(t, q);
    var m := BinarySearchTree.Min(z.right);
    var sp := BinarySearchTree.Successor(z);
    var s := q + sp;
    var y := At(z, sp);
    var z1 := z.(key := y.key);
    var t1 := Put(t, q, z1);
    if Reaches(t1, s) {
      NodeReaches(t, q);
      var u := Put(z1, sp, y.right);
      assert Put(t1, s, y.right) == Put(t, q, u) by {
        PutAppend(t1, q, sp, y.right);
        PutAt(t, q, z1);
        PutPut(t, q, z1, u);
      }
      assert InOrder(Put(t1, s, y.right)) == Before(t1, s) + InOrder(y.right) + After(t1, s) by {
        InOrderPut(t1, s, y.right);
      }
      assert InOrder(Put(t, q, u)) == Before(t, q) + InOrder(u) + After(t, q) by {
        InOrderPut(t, q, u);
      }
      SpliceSuccessorLocal(z);
    }
  }

  /** Within the node's own subtree: copying the successor's key up and splicing the successor out keeps the in-order keys. */
  lemma SpliceSuccessorLocal<H>(z: Tree<H>)
    requires z.Node? && z.left.Node? && z.right.Node?
    ensures var sp := BinarySearchTree.Successor(z);
      var y := At(z, sp);
      InOrder(Put(z.(key := y.key), sp, y.right)) == InOrder(z.left) + InOrder(z.right)
  {
    var m := BinarySearchTree.Min(z.right);
    var sp := BinarySearchTree.Successor(z);
    assert sp == [R] + m;
    assert At(z, sp) == At(z.right, m);
    var y := At(z.right, m);
    assert Put(z.(key := y.key), sp, y.right) == z.(key := y.key, right := Put(z.right, m, y.right));
    SpliceMinKeys(z.right);
  }

  /** The minimum's key followed by the keys left after splicing the minimum out are the subtree's keys. */
  lemma SpliceMinKeys<H>(r: Tree<H>)
    requires r.Node?
    ensures var m := BinarySearchTree.Min(r);
      InOrder(r) == [At(r, m).key] + InOrder(Put(r, m, At(r, m).right))
  {
    var keys := InOrder(r);
    BinarySearchTree.SpliceMin(r);
    BinarySearchTree.MinFirst(r);
    assert keys == [keys[0]] + keys[1..];
  }

  /**
   * Removing through the successor takes the key of the node at q out of the
   * in-order sequence (its place is taken by the successor's key, whose own
   * node goes) and the successor's handle out of the tree, unless the
   * rebalancing stops before links it would break.
   */
  lemma RemoveSuccessorKeeps<H>(t: Tree<H>, q: Path)
    requires At(t, q).Node? && At(t, q).left.Node? && At(t, q).right.Node? && Unique(t)
    ensures var z, o := At(t, q), RemoveSuccessor(t, q);
      o.halt != BrokenLinks ==>
      && Unique(o.tree) && o.tree.Node?
      && InOrder(o.tree) == Before(t, q) + InOrder(z.left) + InOrder(z.right) + After(t, q)
      && Handles(o.tree) == Handles(t) - {At(z, BinarySearchTree.Successor(z)).handle}
  {
    var z := At(t, q);
    var sp := BinarySearchTree.Successor(z);
    var t1 := Put(t, q, z.(key := At(z, sp).key));
    CopySuccessor(t, q);
    SpliceSuccessor(t, q);
    AtAppend(t, q, sp);
    assert RemoveSuccessor(t, q) == RemoveNode(t1, q + sp);
    RemoveNodeKeeps(t1, q + sp);
  }

  /**
   * When `delete(k)` from p0 finds k (and the tree is not that one node), the
   * key found leaves the in-order sequence and the node at `RemovedPath`
   * leaves the tree, unless the rebalancing stops before links it would
   * break.
   */
  lemma DeleteFound<H>(t: Tree<H>, p0: Path, k: int)
    requires At(t, p0).Node? && Unique(t)
    requires var q := p0 + BinarySearchTree.Find(At(t, p0), k);
      Reaches(t, q) && At(t, q).Node? && At(t, q).key == k && !(q == [] && At(t, q).left.Nil? && At(t, q).right.Nil?)
    ensures var q, o := p0 + BinarySearchTree.Find(At(t, p0), k), Delete(t, p0, k);
      o.halt != BrokenLinks ==>
      && Unique(o.tree) && o.tree.Node?
      && InOrder(o.tree) == Before(t, q) + InOrder(At(t, q).left) + InOrder(At(t, q).right) + After(t, q)
      && Handles(o.tree) == Handles(t) - {At(t, RemovedPath(t, p0, k)).handle}
  {
    var q := p0 + BinarySearchTree.Find(At(t, p0), k);
    AtAppend(t, p0, BinarySearchTree.Find(At(t, p0), k));
    var z := At(t, q);
    if z.left.Nil? || z.right.Nil? {
      RemoveNodeKeeps(t, q);
    } else {
      RemoveSuccessorKeeps(t, q);
      AtAppend(t, q, BinarySearchTree.Successor(z));
    }
  }

  /** Dropping one entry of a strictly increasing sequence keeps it strictly increasing. */
  lemma IncreasingDrop(a: seq<int>, k: int, b: seq<int>)
    requires Increasing(a + [k] + b)
    ensures Increasing(a + b) && k !in a + b
    ensures (set x | x in a + b) == (set x | x in a + [k] + b) - {k}
  {
    IncreasingConcat(a, k, b);
    var s := a + b;
    forall i, j | 0 <= i < j < |s| ensures s[i] < s[j] {
      if j < |a| {
      } else if i < |a| {
        assert s[i] in a && s[j] in b;
      } else {
        assert s[i] == b[i - |a|] && s[j] == b[j - |a|];
      }
    }
  }

  /**
   * A tree whose in-order sequence is that of t without the key at q holds,
   * in search-tree order, exactly the keys of t but that one.
   */
  lemma DropKey<H>(t: Tree<H>, q: Path, u: Tree<H>)
    requires Reaches(t, q) && At(t, q).Node? && IsBST(t)
    requires InOrder(u) == Before(t, q) + InOrder(At(t, q).left) + InOrder(At(t, q).right) + After(t, q)
    ensures IsBST(u) && Keys(u) == Keys(t) - {At(t, q).key} && Size(u) + 1 == Size(t)
    ensures u.Node? ==> !BinarySearchTree.Contains(u, At(t, q).key)
  {
    var z := At(t, q);
    var a, b := Before(t, q) + InOrder(z.left), InOrder(z.right) + After(t, q);
    InOrderSplit(t, q);
    assert InOrder(z) == InOrder(z.left) + [z.key] + InOrder(z.right);
    SplitAround(Before(t, q), InOrder(z.left), z.key, InOrder(z.right), After(t, q));
    IncreasingDrop(a, z.key, b);
  }

  lemma SplitAround(p: seq<int>, l: seq<int>, k: int, r: seq<int>, s: seq<int>)
    ensures p + (l + [k] + r) + s == (p + l) + [k] + (r + s)
    ensures p + l + r + s == (p + l) + (r + s)
  {
  }

  /**
   * `delete(k)` on a node of a binary search tree: an absent key changes
   * nothing; a present key is removed, with every other key kept and the
   * order intact, unless the tree is that one node, which stays. Exactly one
   * node goes, the one at `RemovedPath`. None of this is claimed when the
   * rebalancing stops before links it would break (`BrokenLinks`): what the
   * source then leaves is not one tree. On a null dereference it is the tree
   * the heap holds when the source throws.
   */
  lemma {:induction false} DeleteRemoves<H>(t: Tree<H>, p0: Path, k: int)
    requires At(t, p0).Node? && IsBST(t) && Unique(t)
    ensures var o := Delete(t, p0, k);
      && (k !in Keys(At(t, p0)) ==> o == Outcome(t, Finished))
      && (p0 == [] && t.left.Nil? && t.right.Nil? ==> o == Outcome(t, Finished))
      && (k in Keys(At(t, p0)) && !(p0 == [] && t.left.Nil? && t.right.Nil?) && o.halt != BrokenLinks ==>
            && Unique(o.tree) && o.tree.Node? && IsBST(o.tree)
            && Keys(o.tree) == Keys(t) - {k} && !BinarySearchTree.Contains(o.tree, k)
            && Size(o.tree) + 1 == Size(t)
            && Handles(o.tree) == Handles(t) - {At(t, RemovedPath(t, p0, k)).handle})
  {
    var f := BinarySearchTree.Find(At(t, p0), k);
    var q := p0 + f;
    AtAppend(t, p0, f);
    NodeReaches(t, p0);
    BSTAt(t, p0);
    BinarySearchTree.FindLocates(At(t, p0), k);
    var z := At(t, q);
    var o := Delete(t, p0, k);
    if p0 == [] && t.left.Nil? && t.right.Nil? {
      assert f == [] && q == [];
    } else if z.key == k {
      NodeReaches(t, q);
      DeleteFound(t, p0, k);
      if o.halt != BrokenLinks {
        DropKey(t, q, o.tree);
      }
    }

  }

  // ---------------------------------------------------------------------
  // Facts the definitions above rely on
  // ---------------------------------------------------------------------

  lemma OutsideSize<H>(t: Tree<H>, p: Path)
    requires Reaches(t, p)
    ensures Outside(t, p) + Size(At(t, p)) == Size(t)
  {
    SizePut(t, p, Nil);
  }

  /** After recolouring, the parent of p is a position with fewer nodes outside it. */
  lemma DeletionMovesUp<H>(t: Tree<H>, p: Path, q: Path, c: Color)
    requires t.Node? && Reaches(t, p) && p != []
    ensures var t1 := PaintAt(t, q, c);
      t1.Node? && Reaches(t1, Parent(p)) && Outside(t1, Parent(p)) < Outside(t, p)
  {
    var t1 := PaintAt(t, q, c);
    var pp := Parent(p);
    PaintRecolours(t, q, c);
    assert p == pp + [Last(p)];
    Steps(t, pp, Last(p));
    RecolouredPositions(t, t1, pp);
    RecolouredPositions(t, t1, []);
    OutsideSize(t, p);
    OutsideSize(t1, pp);
  }

  /**
   * The red-sibling case when the node is its parent's left child: after the
   * rotation and recolouring the node sits two levels lower with the same
   * nodes outside it, and its new sibling is the old sibling's left subtree.
   */
  lemma RedSiblingRight<H>(t: Tree<H>, p: Path)
    requires t.Node? && Reaches(t, p) && p != [] && SeenLeft(t, p) && At(t, SiblingPath(t, p)).Node?
    ensures var pp := Parent(p);
      && p == pp + [L] && SiblingPath(t, p) == pp + [R]
      && At(t, pp).Node? && At(t, pp).right.Node?
      && var t2 := PaintAt(PaintAt(RotateLeftAt(t, pp), pp, Black), pp + [L], Red);
      && t2.Node? && Reaches(t2, pp + [L, L])
      && Outside(t2, pp + [L, L]) == Outside(t, p)
      && Size(At(t2, SiblingPath(t2, pp + [L, L]))) < Size(At(t, SiblingPath(t, p)))
  {
    var pp := Parent(p);
    assert p == pp + [Last(p)];
    Steps(t, pp, Last(p));
    assert Last(p) == L;
    var x := RotateLeft(At(t, pp));
    var t1 := Put(t, pp, x);
    RotatedLeftBelow(t, pp);
    var t2 := PaintAt(PaintAt(t1, pp, Black), pp + [L], Red);
    Paint2(t1, pp, Black, pp + [L], Red);
    RecolouredPositions(t1, t2, []);
    RecolouredPositions(t1, t2, pp + [L]);
    RecolouredPositions(t1, t2, pp + [L, L]);
    RecolouredPositions(t1, t2, pp + [L, R]);
    AtChild(t2, pp + [L], L);
    assert pp + [L] + [L] == pp + [L, L];
    assert Parent(pp + [L, L]) == pp + [L];
    assert SeenLeft(t2, pp + [L, L]);
    assert SiblingPath(t2, pp + [L, L]) == pp + [L, R];
    var sibling := At(t, pp).right;
    assert SiblingPath(t, p) == pp + [R];
    assert At(t, SiblingPath(t, p)) == sibling;
    assert InOrder(sibling) == InOrder(sibling.left) + [sibling.key] + InOrder(sibling.right);
    OutsideSize(t, p);
    OutsideSize(t2, pp + [L, L]);
  }

  /** Positions below a left rotation at pp. */
  lemma RotatedLeftBelow<H>(t: Tree<H>, pp: Path)
    requires At(t, pp).Node? && At(t, pp).right.Node?
    ensures var x := RotateLeft(At(t, pp));
      var t1 := Put(t, pp, x);
      && At(t1, pp + [L]) == x.left
      && At(t1, pp + [L, L]) == At(t, pp).left
      && At(t1, pp + [L, R]) == At(t, pp).right.left
      && Reaches(t1, pp + [L, L]) && Reaches(t1, pp + [L, R])
      && Size(t1) == Size(t)
  {
    var x := RotateLeft(At(t, pp));
    var t1 := Put(t, pp, x);
    NodeReaches(t, pp);
    AtPutBelow(t, pp, [L], x);
    AtPutBelow(t, pp, [L, L], x);
    AtPutBelow(t, pp, [L, R], x);
    assert pp + [L] + [L] == pp + [L, L];
    assert pp + [L] + [R] == pp + [L, R];
    ReachesChild(t1, pp + [L], L);
    ReachesChild(t1, pp + [L], R);
    SizePut(t, pp, x);
  }

  /**
   * The red-sibling case when the node is a real right child: the left
   * rotation lifts the node itself into its parent's place, so above it
   * there are fewer nodes than before.
   */
  lemma RedSiblingLeft<H>(t: Tree<H>, p: Path)
    requires t.Node? && Reaches(t, p) && p != [] && !SeenLeft(t, p) && At(t, p).Node?
    ensures var pp := Parent(p);
      && At(t, pp).Node? && At(t, pp).right.Node?
      && var t1 := PaintAt(RotateLeftAt(t, pp), pp + [L, L], Black);
      && t1.Node?
      && (pp != [] ==>
        var t2 := PaintAt(t1, Parent(pp), Red);
        t2.Node? && Reaches(t2, pp) && Outside(t2, pp) < Outside(t, p))
  {
    var pp := Parent(p);
    assert p == pp + [Last(p)];
    Steps(t, pp, Last(p));
    var parent := At(t, pp);
    var x := RotateLeft(parent);
    var t1 := Put(t, pp, x);
    PutAt(t, pp, x);
    ReachesPutSame(t, pp, x);
    SizePut(t, pp, x);
    PaintRecolours(t1, pp + [L, L], Black);
    RecolouredPositions(t1, PaintAt(t1, pp + [L, L], Black), []);
    if pp != [] {
      var t2 := PaintAt(PaintAt(t1, pp + [L, L], Black), Parent(pp), Red);
      Paint2(t1, pp + [L, L], Black, Parent(pp), Red);
      RecolouredPositions(t1, t2, []);
      RecolouredPositions(t1, t2, pp);
      OutsideSize(t, p);
      OutsideSize(t2, pp);
    }
  }
}
