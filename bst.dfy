/**
 * The unbalanced binary search tree of src/main/BinarySearchTree.java: a node
 * with a value, a parent and two possibly-null children, offering queries
 * only. A node is modelled by the pure subtree rooted at it (a `Nil` child is
 * a `null` child); node results are paths from that node.
 *
 * The same descent is used by the red-black tree, whose missing children are
 * the sentinel instead of `null`: in the pure abstraction the two coincide.
 */
module BinarySearchTree {
  import opened Trees

  /** The one-node tree built by `BinarySearchTree(value)`. */
  function New<H>(h: H, value: int): (t: Tree<H>)
    ensures t.Node? && InOrder(t) == [value] && Height(t) == 1 && Handles(t) == {h}
  {
    Node(h, Black, value, Nil, Nil)
  }

  /** The side of a node holding `key` on which `k` belongs. */
  function Side(key: int, k: int): Dir
  {
    if key > k then L else R
  }

  /**
   * `find`: the node holding k, or else the last node of the descent, whose
   * child on k's side is missing (the insertion point).
   */
  function Find<H>(t: Tree<H>, k: int): (p: Path)
    requires t.Node?
    ensures At(t, p).Node?
    ensures At(t, p).key == k || Child(At(t, p), Side(At(t, p).key, k)).Nil?
    decreases t
  {
    if t.key == k || (t.left.Nil? && t.right.Nil?) then []
    else if t.key > k then
      if t.left.Nil? then [] else [L] + Find(t.left, k)
    else
      if t.right.Nil? then [] else [R] + Find(t.right, k)
  }

  /** In a binary search tree, `find` lands on k exactly when k is a key. */
  lemma {:induction false} FindLocates<H>(t: Tree<H>, k: int)
    requires t.Node? && IsBST(t)
    ensures k in Keys(t) <==> At(t, Find(t, k)).key == k
    decreases t
  {
    BSTNode(t);
    var p := Find(t, k);
    assert InOrder(t) == InOrder(t.left) + [t.key] + InOrder(t.right);
    assert k in Keys(t) <==> k in Keys(t.left) || k == t.key || k in Keys(t.right);
    if t.key == k || (t.left.Nil? && t.right.Nil?) {
    } else if t.key > k {
      if t.left.Node? {
        FindLocates(t.left, k);
      }
    } else {
      if t.right.Node? {
        FindLocates(t.right, k);
      }
    }
  }

  /**
   * Linking a new leaf for an absent key at the insertion point `find`
   * returns keeps binary-search-tree order and adds exactly that key.
   */
  lemma {:induction false} InsertionPoint<H>(t: Tree<H>, k: int, leaf: Tree<H>)
    requires t.Node? && IsBST(t) && k !in Keys(t)
    requires leaf.Node? && leaf.key == k && leaf.left.Nil? && leaf.right.Nil?
    ensures var q := Find(t, k);
      var u := Put(t, q + [Side(At(t, q).key, k)], leaf);
      IsBST(u) && Keys(u) == Keys(t) + {k} && Size(u) == Size(t) + 1
    decreases t
  {
    var q := Find(t, k);
    var d := Side(At(t, q).key, k);
    var u := Put(t, q + [d], leaf);
    assert InOrder(leaf) == [k];
    if q == [] {
      assert q + [d] == [d];
      PutChild(t, d, leaf);
      BSTNode(t);
      BSTNode(u);
    } else {
      BSTNode(t);
      var q' := q[1..];
      assert q == [q[0]] + q';
      assert q + [d] == [q[0]] + (q' + [d]);
      if q[0] == L {
        assert q' == Find(t.left, k);
        InsertionPoint(t.left, k, leaf);
        assert u == Node(t.handle, t.color, t.key, Put(t.left, q' + [d], leaf), t.right);
      } else {
        assert q' == Find(t.right, k);
        InsertionPoint(t.right, k, leaf);
        assert u == Node(t.handle, t.color, t.key, t.left, Put(t.right, q' + [d], leaf));
      }
      BSTNode(u);
    }
  }

  /** `min`: follow left children while they exist. */
  function Min<H>(t: Tree<H>): (p: Path)
    requires t.Node?
    ensures At(t, p).Node? && At(t, p).left.Nil?
    decreases t
  {
    if t.left.Nil? then [] else [L] + Min(t.left)
  }

  /** `max`: follow right children while they exist. */
  function Max<H>(t: Tree<H>): (p: Path)
    requires t.Node?
    ensures At(t, p).Node? && At(t, p).right.Nil?
    decreases t
  {
    if t.right.Nil? then [] else [R] + Max(t.right)
  }

  /** The node `min` returns holds the first key of the in-order sequence. */
  lemma {:induction false} MinFirst<H>(t: Tree<H>)
    requires t.Node?
    ensures Before(t, Min(t)) == []
    ensures InOrder(t)[0] == At(t, Min(t)).key
    decreases t
  {
    if t.left.Node? {
      MinFirst(t.left);
    }
  }

  /** The node `max` returns holds the last key of the in-order sequence. */
  lemma {:induction false} MaxLast<H>(t: Tree<H>)
    requires t.Node?
    ensures After(t, Max(t)) == []
    ensures InOrder(t)[|InOrder(t)| - 1] == At(t, Max(t)).key
    decreases t
  {
    if t.right.Node? {
      MaxLast(t.right);
    }
  }

  /** Under binary-search-tree order, `min` and `max` hold the least and greatest keys. */
  lemma MinMaxExtreme<H>(t: Tree<H>)
    requires t.Node? && IsBST(t)
    ensures At(t, Min(t)).key in Keys(t) && forall x :: x in Keys(t) ==> At(t, Min(t)).key <= x
    ensures At(t, Max(t)).key in Keys(t) && forall x :: x in Keys(t) ==> x <= At(t, Max(t)).key
  {
    MinFirst(t);
    MaxLast(t);
    var s := InOrder(t);
    forall x | x in Keys(t)
      ensures s[0] <= x <= s[|s| - 1]
    {
      var i :| 0 <= i < |s| && s[i] == x;
    }
  }

  /** Putting the minimum's right subtree in its place drops the first key. */
  lemma {:induction false} SpliceMin<H>(t: Tree<H>)
    requires t.Node?
    ensures InOrder(Put(t, Min(t), At(t, Min(t)).right)) == InOrder(t)[1..]
    decreases t
  {
    if t.left.Node? {
      var m := Min(t.left);
      SpliceMin(t.left);
      assert Put(t, Min(t), At(t, Min(t)).right) == t.(left := Put(t.left, m, At(t.left, m).right));
      assert InOrder(t.left) != [];
      assert (InOrder(t.left) + [t.key] + InOrder(t.right))[1..] == InOrder(t.left)[1..] + [t.key] + InOrder(t.right);
    }
  }

  /** `successorNode`: the minimum of the right subtree, which must exist. */
  function Successor<H>(t: Tree<H>): (p: Path)
    requires t.Node? && t.right.Node?
    ensures At(t, p).Node? && At(t, p).left.Nil?
    ensures |InOrder(t.left)| + 1 < |InOrder(t)| && InOrder(t)[|InOrder(t.left)| + 1] == At(t, p).key
  {
    MinFirst(t.right);
    [R] + Min(t.right)
  }

  /** `predecessorNode`: the maximum of the left subtree, which must exist. */
  function Predecessor<H>(t: Tree<H>): (p: Path)
    requires t.Node? && t.left.Node?
    ensures At(t, p).Node? && At(t, p).right.Nil?
    ensures InOrder(t)[|InOrder(t.left)| - 1] == At(t, p).key
  {
    MaxLast(t.left);
    [L] + Max(t.left)
  }

  /**
   * `lookUpNode`: the node `find` lands on if it holds k. The source compares
   * the found value with the item by reference; the model compares values.
   */
  function LookUpNode<H>(t: Tree<H>, k: int): (r: Option<Path>)
    requires t.Node?
    ensures r.Some? ==> At(t, r.value).Node? && At(t, r.value).key == k
    ensures IsBST(t) ==> (r.Some? <==> k in Keys(t))
  {
    FindLocatesIfBST(t, k);
    var p := Find(t, k);
    if At(t, p).key == k then Some(p) else None
  }

  /** `contains`: whether `lookUpNode` finds a node. */
  function Contains<H>(t: Tree<H>, k: int): (b: bool)
    requires t.Node?
    ensures b <==> LookUpNode(t, k).Some?
    ensures IsBST(t) ==> (b <==> k in Keys(t))
  {
    LookUpNode(t, k).Some?
  }

  lemma FindLocatesIfBST<H>(t: Tree<H>, k: int)
    requires t.Node?
    ensures IsBST(t) ==> (k in Keys(t) <==> At(t, Find(t, k)).key == k)
  {
    if IsBST(t) {
      FindLocates(t, k);
    }
  }

  /**
   * `getHeight`: 1 for a childless node, otherwise 1 plus the larger child
   * height, a missing child counting 0.
   */
  function GetHeight<H>(t: Tree<H>): (h: nat)
    requires t.Node?
    ensures h == Height(t) && h >= 1
  {
    if t.left.Nil? && t.right.Nil? then 1
    else
      var leftHeight := 1 + (if t.left.Node? then GetHeight(t.left) else 0);
      var rightHeight := 1 + (if t.right.Node? then GetHeight(t.right) else 0);
      if leftHeight > rightHeight then leftHeight else rightHeight
  }

  /** `getRoot`: follow parent links from the node at p until there is no parent. */
  function GetRoot<H>(t: Tree<H>, p: Path): (r: Path)
    requires At(t, p).Node?
    ensures r == [] && At(t, r).Node?
    decreases |p|
  {
    if p == [] then p
    else
      NodeReaches(t, p);
      ReachesParent(t, p);
      GetRoot(t, Parent(p))
  }
}
