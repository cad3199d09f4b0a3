/**
 * The sentinel-based red-black tree of src/main/RedBlackTree.java, on a heap.
 *
 * Every Java node object is a handle of an `Arena`; its fields `value`,
 * `color`, `leftChild`, `rightChild` and `parent` are five maps indexed by
 * handle. Handle `NIL` is the `nullLeaf` sentinel shared by all nodes of the
 * tree: it is black, its child links are `null` and its parent link is
 * whatever the algorithms last wrote there. The ghost `shape` is the tree the
 * heap holds (`Valid`), and every operation is proved to turn the heap into
 * the one holding the tree that the matching function of `RedBlackSpec`
 * computes.
 *
 * A method modelling a Java method called on a node takes the node's handle
 * and, as a ghost parameter, its position in the shape.
 */
module RedBlackTree {
  import opened Trees
  import opened Arenas
  import BinarySearchTree
  import RedBlackSpec

  /** The `nullLeaf` sentinel. */
  const NIL: Ref := 0

  /**
   * Heap f holds the non-empty tree t: its nodes carry their values, all
   * with handles below `next` (so there are fewer than `next` of them), and
   * the sentinel is black with `null` children.
   */
  ghost predicate Wellformed(f: Fields, t: Tree<Ref>, next: Ref)
  {
    && t.Node?
    && Holds(f, t, NIL)
    && (forall h :: h in Handles(t) ==> h in f.value && h < next)
    && Size(t) < next
    && NIL in f.color && f.color[NIL] == Black
    && NIL in f.left && f.left[NIL] == NULL
    && NIL in f.right && f.right[NIL] == NULL
    && NIL in f.parent
    && NIL !in f.value
  }

  lemma RotateLeftWellformed(f: Fields, t: Tree<Ref>, next: Ref, p: Path)
    requires Wellformed(f, t, next) && At(t, p).Node? && At(t, p).right.Node?
    ensures CanRotate(f, At(t, p).handle, R) && f.right[At(t, p).handle] == At(t, p).right.handle
    ensures Wellformed(RotateLeftFields(f, At(t, p).handle), RotateLeftAt(t, p), next)
    ensures var g := RotateLeftFields(f, At(t, p).handle);
      g.parent[NIL] == f.parent[NIL] || g.parent[NIL] in Handles(RotateLeftAt(t, p))
  {
    var x := At(t, p);
    var u := RotateLeftAt(t, p);
    assert CanRotate(f, x.handle, R) && Holds(RotateLeftFields(f, x.handle), u, NIL) by {
      RotateLeftLinked(f, t, NIL, p);
    }
    assert Handles(u) == Handles(t) && Size(u) == Size(t) by {
      RotateAt(t, p);
    }
    assert x.handle in Handles(t) && f.right[x.handle] == x.right.handle && x.right.handle > 0 && x.handle > 0
      && f.parent[x.handle] != NIL by {
      HandleAt(t, p);
      LinkedNode(f, t, NULL, NIL, p);
      LinkedHandles(f, t, NULL, NIL);
      Steps(t, p, R);
      HandleAt(t, p + [R]);
      if p != [] {
        ParentLink(f, t, NIL, p);
      }
    }
    RotateFieldsElsewhere(f, x.handle, R, NIL);
  }

  lemma RotateRightWellformed(f: Fields, t: Tree<Ref>, next: Ref, p: Path)
    requires Wellformed(f, t, next) && At(t, p).Node? && At(t, p).left.Node?
    ensures CanRotate(f, At(t, p).handle, L) && f.left[At(t, p).handle] == At(t, p).left.handle
    ensures Wellformed(RotateRightFields(f, At(t, p).handle), RotateRightAt(t, p), next)
    ensures var g := RotateRightFields(f, At(t, p).handle);
      g.parent[NIL] == f.parent[NIL] || g.parent[NIL] in Handles(RotateRightAt(t, p))
  {
    var x := At(t, p);
    var u := RotateRightAt(t, p);
    assert CanRotate(f, x.handle, L) && Holds(RotateRightFields(f, x.handle), u, NIL) by {
      RotateRightLinked(f, t, NIL, p);
    }
    assert Handles(u) == Handles(t) && Size(u) == Size(t) by {
      RotateAt(t, p);
    }
    assert x.handle in Handles(t) && f.left[x.handle] == x.left.handle && x.left.handle > 0 && x.handle > 0
      && f.parent[x.handle] != NIL by {
      HandleAt(t, p);
      LinkedNode(f, t, NULL, NIL, p);
      LinkedHandles(f, t, NULL, NIL);
      Steps(t, p, L);
      HandleAt(t, p + [L]);
      if p != [] {
        ParentLink(f, t, NIL, p);
      }
    }
    RotateFieldsElsewhere(f, x.handle, L, NIL);
  }

  lemma TransplantWellformed(f: Fields, t: Tree<Ref>, next: Ref, q: Path, s: Tree<Ref>)
    requires Wellformed(f, t, next) && At(t, q).Node? && (s == At(t, q).left || s == At(t, q).right)
    requires q == [] ==> s.Node?
    ensures At(t, q).handle in f.parent
    ensures var up := f.parent[At(t, q).handle];
      up == UpOf(t, q, NULL) && (up != NULL ==> up in f.left && up in f.right)
    ensures Wellformed(TransplantFields(f, At(t, q).handle, Top(s, NIL)), Put(t, q, s), next)
  {
    TransplantLinked(f, t, NIL, q, s);
    NodeReaches(t, q);
    HandlesPut(t, q, s);
    UniqueFrame(t, q);
    LinkedNode(f, t, NULL, NIL, q);
    if q != [] {
      ParentLink(f, t, NIL, q);
    } else {
      PutAt(t, q, s);
    }
    var g := TransplantFields(f, At(t, q).handle, Top(s, NIL));
    assert g.left[NIL] == NULL && g.right[NIL] == NULL;
    SizePut(t, q, s);
  }

  lemma LinkLeafWellformed(f: Fields, t: Tree<Ref>, next: Ref, q: Path, d: Dir, k: int)
    requires Wellformed(f, t, next) && At(t, q).Node? && Child(At(t, q), d).Nil?
    ensures next > 0 && next !in Handles(t) && At(t, q).handle > 0
    ensures Handles(Put(t, q + [d], Node(next, Red, k, Nil, Nil))) == Handles(t) + {next}
    ensures Wellformed(LinkLeafFields(f, At(t, q).handle, d, next, k, NIL),
      Put(t, q + [d], Node(next, Red, k, Nil, Nil)), next + 1)
  {
    LinkedHandles(f, t, NULL, NIL);
    HandleAt(t, q);
    var p := q + [d];
    var s := Node(next, Red, k, Nil, Nil);
    LinkLeafLinked(f, t, NIL, q, d, next, k);
    Steps(t, q, d);
    PutSelf(t, p);
    HandlesPut(t, p, s);
    SizePut(t, p, s);
  }

  /**
   * Heap g differs from heap f at most in the sentinel's parent link, which
   * no node of the tree depends on.
   */
  lemma SentinelParentFree(f: Fields, g: Fields, t: Tree<Ref>, next: Ref)
    requires Wellformed(f, t, next)
    requires g.value == f.value && g.color == f.color && g.left == f.left && g.right == f.right
    requires g.parent.Keys == f.parent.Keys
    requires forall h :: h in f.parent && h != NIL ==> g.parent[h] == f.parent[h]
    ensures Wellformed(g, t, next)
  {
    LinkedHandles(f, t, NULL, NIL);
    LinkedFrame(f, g, t, NULL, NIL);
  }

  /**
   * The writes of the double rotation written out in `balanceDeletion` when
   * the sibling S is a left child and its right child u is the red nephew
   * (lines 500-508 of the source), P being the parent: u's right subtree
   * moves under P, its left one under S, and u takes P's place with S and P
   * as its children. P's own parent is not told.
   */
  function HandRotateRightFields(f: Fields, P: Ref, S: Ref, u: Ref): Fields
    requires P in f.parent && u in f.left && u in f.right
  {
    var left1 := f.left[P := f.right[u]];
    var parent1 := f.parent[f.right[u] := P];
    var right1 := f.right[u := P];
    var parent2 := parent1[u := parent1[P]];
    var parent3 := parent2[P := u];
    var right2 := right1[S := left1[u]];
    var parent4 := parent3[left1[u] := S];
    var left2 := left1[u := S];
    var parent5 := parent4[S := u];
    Fields(f.value, f.color, left2, right2, parent5)
  }

  /**
   * The mirror image of `HandRotateRightFields` (lines 517-525 of the
   * source), as written: the parent link of u's left subtree, which moves
   * under P, is not rewritten; u's own parent link is written instead.
   */
  function HandRotateLeftFields(f: Fields, P: Ref, S: Ref, u: Ref): Fields
    requires P in f.parent && u in f.left && u in f.right
  {
    var right1 := f.right[P := f.left[u]];
    var parent1 := f.parent[u := P];
    var left1 := f.left[u := P];
    var parent2 := parent1[u := parent1[P]];
    var parent3 := parent2[P := u];
    var left2 := left1[S := right1[u]];
    var parent4 := parent3[right1[u] := S];
    var right2 := right1[u := S];
    var parent5 := parent4[S := u];
    Fields(f.value, f.color, left2, right2, parent5)
  }

  /**
   * Entry by entry, the written-out double rotation at the root agrees with
   * a left rotation of S followed by a right rotation of P, except perhaps
   * in the sentinel's parent link.
   */
  lemma HandRotateRightAgrees(f: Fields, P: Ref, S: Ref, u: Ref)
    requires P in f.left && P in f.right && P in f.parent && S in f.left && S in f.right && S in f.parent
    requires u in f.left && u in f.right && u in f.parent
    requires f.left[P] == S && f.right[S] == u && f.parent[P] == NULL && f.parent[S] == P && f.parent[u] == S
    requires P > 0 && S > 0 && u > 0 && P != S && P != u && S != u
    requires var uL, uR := f.left[u], f.right[u];
      && uL in f.parent && uR in f.parent && uL != NULL && uR != NULL
      && uL != P && uL != S && uL != u && uR != P && uR != S && uR != u
      && (uL == uR ==> uL == NIL)
    ensures CanRotate(f, S, R) && CanRotate(RotateLeftFields(f, S), P, L)
    ensures var g, g2 := HandRotateRightFields(f, P, S, u), RotateRightFields(RotateLeftFields(f, S), P);
      && g.value == g2.value && g.color == g2.color && g.left == g2.left && g.right == g2.right
      && g.parent.Keys == g2.parent.Keys
      && (forall h :: h in g2.parent && h != NIL ==> g.parent[h] == g2.parent[h])
  {
    var f1 := RotateLeftFields(f, S);
    assert f1.left[P] == u && f1.right[u] == f.right[u] && f1.parent[P] == NULL;
  }

  /** A left rotation of the root's left child, then a right rotation of the root. */
  lemma DoubleRotateRightWellformed(f: Fields, t: Tree<Ref>, next: Ref)
    requires Wellformed(f, t, next) && t.left.Node? && t.left.right.Node?
    ensures CanRotate(f, t.left.handle, R) && CanRotate(RotateLeftFields(f, t.left.handle), t.handle, L)
    ensures Wellformed(RotateRightFields(RotateLeftFields(f, t.left.handle), t.handle),
      RedBlackSpec.DoubleRotateRight(t), next)
  {
    RotateLeftWellformed(f, t, next, [L]);
    var f1 := RotateLeftFields(f, t.left.handle);
    var t1 := RotateLeftAt(t, [L]);
    assert t1 == t.(left := Trees.RotateLeft(t.left));
    RotateRightWellformed(f1, t1, next, []);
    assert RotateRightAt(t1, []) == RedBlackSpec.DoubleRotateRight(t);
  }

  /** The heap entries of the three nodes the double rotation at the root moves. */
  lemma DoubleRotateRightEntries(f: Fields, t: Tree<Ref>, next: Ref)
    requires Wellformed(f, t, next) && t.left.Node? && t.left.right.Node?
    ensures var P, S, u := t.handle, t.left.handle, t.left.right.handle;
      && P in f.left && P in f.right && P in f.parent && S in f.left && S in f.right && S in f.parent
      && u in f.left && u in f.right && u in f.parent
      && f.left[P] == S && f.right[S] == u && f.parent[P] == NULL && f.parent[S] == P && f.parent[u] == S
      && P > 0 && S > 0 && u > 0 && P != S && P != u && S != u
      && var uL, uR := f.left[u], f.right[u];
      && uL in f.parent && uR in f.parent && uL != NULL && uR != NULL
      && uL != P && uL != S && uL != u && uR != P && uR != S && uR != u
      && (uL == uR ==> uL == NIL)
  {
    LinkedHandles(f, t, NULL, NIL);
    LinkedNode(f, t, NULL, NIL, []);
    LinkedNode(f, t, NULL, NIL, [L]);
    LinkedNode(f, t, NULL, NIL, [L, R]);
    Distinct3(t);
    Distinct3(t.left);
    Distinct3(t.left.right);
    assert Parent([L, R]) == [L] && Parent([L]) == [];
    var u := t.left.right;
    assert Top(u.left, NIL) == NIL || Top(u.left, NIL) in Handles(u.left);
    assert Top(u.right, NIL) == NIL || Top(u.right, NIL) in Handles(u.right);
  }

  /**
   * At the root, the written-out double rotation leaves the heap holding
   * `RedBlackSpec.DoubleRotateRight` of the tree.
   */
  lemma HandRotateRightWellformed(f: Fields, t: Tree<Ref>, next: Ref)
    requires Wellformed(f, t, next) && t.left.Node? && t.left.right.Node?
    ensures var P, S, u := t.handle, t.left.handle, t.left.right.handle;
      && P in f.parent && u in f.left && u in f.right
      && Wellformed(HandRotateRightFields(f, P, S, u), RedBlackSpec.DoubleRotateRight(t), next)
  {
    var P, S, u := t.handle, t.left.handle, t.left.right.handle;
    DoubleRotateRightEntries(f, t, next);
    DoubleRotateRightWellformed(f, t, next);
    HandRotateRightAgrees(f, P, S, u);
    SentinelParentFree(RotateRightFields(RotateLeftFields(f, S), P), HandRotateRightFields(f, P, S, u),
      RedBlackSpec.DoubleRotateRight(t), next);
  }

  /** The mirror image of `HandRotateRightAgrees`, when u has no left subtree. */
  lemma HandRotateLeftAgrees(f: Fields, P: Ref, S: Ref, u: Ref)
    requires P in f.left && P in f.right && P in f.parent && S in f.left && S in f.right && S in f.parent
    requires u in f.left && u in f.right && u in f.parent
    requires f.right[P] == S && f.left[P] != S && f.left[S] == u && f.parent[P] == NULL && f.parent[S] == P && f.parent[u] == S
    requires P > 0 && S > 0 && u > 0 && P != S && P != u && S != u
    requires var uL, uR := f.left[u], f.right[u];
      && uL == NIL && NIL in f.parent && uR in f.parent && uR != NULL
      && uR != P && uR != S && uR != u
    ensures CanRotate(f, S, L) && CanRotate(RotateRightFields(f, S), P, R)
    ensures var g, g2 := HandRotateLeftFields(f, P, S, u), RotateLeftFields(RotateRightFields(f, S), P);
      && g.value == g2.value && g.color == g2.color && g.left == g2.left && g.right == g2.right
      && g.parent.Keys == g2.parent.Keys
      && (forall h :: h in g2.parent && h != NIL ==> g.parent[h] == g2.parent[h])
  {
    var f1 := RotateRightFields(f, S);
    assert f1.right[P] == u && f1.left[u] == NIL && f1.parent[P] == NULL;
  }

  /** A right rotation of the root's right child, then a left rotation of the root. */
  lemma DoubleRotateLeftWellformed(f: Fields, t: Tree<Ref>, next: Ref)
    requires Wellformed(f, t, next) && t.right.Node? && t.right.left.Node?
    ensures CanRotate(f, t.right.handle, L) && CanRotate(RotateRightFields(f, t.right.handle), t.handle, R)
    ensures Wellformed(RotateLeftFields(RotateRightFields(f, t.right.handle), t.handle),
      RedBlackSpec.DoubleRotateLeft(t), next)
  {
    RotateRightWellformed(f, t, next, [R]);
    var f1 := RotateRightFields(f, t.right.handle);
    var t1 := RotateRightAt(t, [R]);
    assert t1 == t.(right := Trees.RotateRight(t.right));
    RotateLeftWellformed(f1, t1, next, []);
    assert RotateLeftAt(t1, []) == RedBlackSpec.DoubleRotateLeft(t);
  }

  /** The heap entries of the three nodes the mirror double rotation at the root moves. */
  lemma DoubleRotateLeftEntries(f: Fields, t: Tree<Ref>, next: Ref)
    requires Wellformed(f, t, next) && t.right.Node? && t.right.left.Node? && t.right.left.left.Nil?
    ensures var P, S, u := t.handle, t.right.handle, t.right.left.handle;
      && P in f.left && P in f.right && P in f.parent && S in f.left && S in f.right && S in f.parent
      && u in f.left && u in f.right && u in f.parent
      && f.right[P] == S && f.left[P] != S && f.left[S] == u && f.parent[P] == NULL && f.parent[S] == P && f.parent[u] == S
      && P > 0 && S > 0 && u > 0 && P != S && P != u && S != u
      && var uL, uR := f.left[u], f.right[u];
      && uL == NIL && NIL in f.parent && uR in f.parent && uR != NULL
      && uR != P && uR != S && uR != u
  {
    LinkedHandles(f, t, NULL, NIL);
    LinkedNode(f, t, NULL, NIL, []);
    LinkedNode(f, t, NULL, NIL, [R]);
    LinkedNode(f, t, NULL, NIL, [R, L]);
    Distinct3(t);
    Distinct3(t.right);
    Distinct3(t.right.left);
    assert Parent([R, L]) == [R] && Parent([R]) == [];
    var u := t.right.left;
    assert Top(t.left, NIL) == NIL || Top(t.left, NIL) in Handles(t.left);
    assert Top(u.right, NIL) == NIL || Top(u.right, NIL) in Handles(u.right);
  }

  /**
   * At the root, and when the red nephew u has no left subtree, the mirror
   * double rotation as written leaves the heap holding
   * `RedBlackSpec.DoubleRotateLeft` of the tree.
   */
  lemma HandRotateLeftWellformed(f: Fields, t: Tree<Ref>, next: Ref)
    requires Wellformed(f, t, next) && t.right.Node? && t.right.left.Node? && t.right.left.left.Nil?
    ensures var P, S, u := t.handle, t.right.handle, t.right.left.handle;
      && P in f.parent && u in f.left && u in f.right
      && Wellformed(HandRotateLeftFields(f, P, S, u), RedBlackSpec.DoubleRotateLeft(t), next)
  {
    var P, S, u := t.handle, t.right.handle, t.right.left.handle;
    DoubleRotateLeftEntries(f, t, next);
    DoubleRotateLeftWellformed(f, t, next);
    HandRotateLeftAgrees(f, P, S, u);
    SentinelParentFree(RotateLeftFields(RotateRightFields(f, S), P), HandRotateLeftFields(f, P, S, u),
      RedBlackSpec.DoubleRotateLeft(t), next);
  }

  /**
   * The left rotation in the red-sibling branch of `balanceDeletion` when the
   * node n at p (possibly the sentinel) is a left child: the sibling takes
   * the parent's place and n goes two levels down, still below its parent.
   */
  lemma RedSiblingRotationLeft(f: Fields, t: Tree<Ref>, next: Ref, n: Ref, p: Path)
    requires Wellformed(f, t, next) && Reaches(t, p) && p != [] && n == Top(At(t, p), NIL)
    requires n == NIL ==> f.parent[NIL] == UpOf(t, p, NULL)
    requires RedBlackSpec.SeenLeft(t, p) && At(t, RedBlackSpec.SiblingPath(t, p)).Node?
    ensures var pp := Parent(p);
      && At(t, pp).Node? && At(t, pp).right.Node? && CanRotate(f, At(t, pp).handle, R)
      && var f1, t1 := RotateLeftFields(f, At(t, pp).handle), RotateLeftAt(t, pp);
      && n in f.parent && f.parent[n] == At(t, pp).handle && n in f1.parent && Wellformed(f1, t1, next)
      && At(t1, pp).Node? && At(t1, pp).handle == At(t, RedBlackSpec.SiblingPath(t, p)).handle
      && At(t1, pp + [L]).Node? && f1.parent[n] == At(t1, pp + [L]).handle && f1.parent[n] > 0
      && Reaches(t1, pp + [L, L]) && n == Top(At(t1, pp + [L, L]), NIL)
  {
    var pp := Parent(p);
    assert p == pp + [L] && At(t, pp).Node? && At(t, pp).right.Node?
      && RedBlackSpec.SiblingPath(t, p) == pp + [R] by {
      RedBlackSpec.RedSiblingRight(t, p);
    }
    var x := Trees.RotateLeft(At(t, pp));
    assert CanRotate(f, At(t, pp).handle, R) by {
      RotateLeftWellformed(f, t, next, pp);
    }
    var f1, t1 := RotateLeftFields(f, At(t, pp).handle), RotateLeftAt(t, pp);
    assert Wellformed(f1, t1, next) by {
      RotateLeftWellformed(f, t, next, pp);
    }
    assert n in f.parent && f.parent[n] == At(t, pp).handle by {
      Steps(t, pp, L);
      if n != NIL {
        LinkedNode(f, t, NULL, NIL, p);
      }
    }
    assert At(t1, pp) == x && x.handle == At(t, pp + [R]).handle by {
      NodeReaches(t, pp);
      Steps(t, pp, L);
      AtPutBelow(t, pp, [], x);
      assert pp + [] == pp;
    }
    assert At(t1, pp + [L]) == x.left && At(t1, pp + [L, L]) == At(t, pp).left
      && Reaches(t1, pp + [L, L]) by {
      RedBlackSpec.RotatedLeftBelow(t, pp);
    }
    assert n == Top(At(t1, pp + [L, L]), NIL) by {
      Steps(t, pp, L);
    }
    var a := At(t, pp);
    assert a.handle > 0 && a.right.handle > 0 && f.right[a.handle] == a.right.handle by {
      RotateLeftWellformed(f, t, next, pp);
      NodeReaches(t, pp);
      UniqueFrame(t, pp);
      assert a.handle in Handles(a) && a.right.handle in Handles(a);
      LinkedHandles(f, t, NULL, NIL);
    }
    assert n != a.handle && n != a.right.handle by {
      if n != NIL {
        NodeReaches(t, pp);
        UniqueFrame(t, pp);
        Distinct3(a);
        assert n in Handles(a.left);
      }
    }
    assert n in f1.parent && f1.parent[n] == a.handle;
  }

  /**
   * The left rotation in the red-sibling branch of `balanceDeletion` when the
   * node n at p is a real right child: n itself takes its parent's place, the
   * sibling goes two levels down, and n's parent link is the old grandparent.
   */
  lemma RedSiblingRotationRight(f: Fields, t: Tree<Ref>, next: Ref, n: Ref, p: Path)
    requires Wellformed(f, t, next) && Reaches(t, p) && p != [] && n == Top(At(t, p), NIL)
    requires !RedBlackSpec.SeenLeft(t, p) && At(t, p).Node? && At(t, RedBlackSpec.SiblingPath(t, p)).Node?
    ensures var pp := Parent(p);
      && At(t, pp).Node? && At(t, pp).right.Node? && CanRotate(f, At(t, pp).handle, R)
      && var f1, t1 := RotateLeftFields(f, At(t, pp).handle), RotateLeftAt(t, pp);
      && n in f.parent && f.parent[n] == At(t, pp).handle && n in f1.parent && Wellformed(f1, t1, next)
      && At(t1, pp + [L, L]).Node? && At(t1, pp + [L, L]).handle == At(t, RedBlackSpec.SiblingPath(t, p)).handle
      && At(t1, pp).Node? && n == At(t1, pp).handle
      && (f1.parent[n] == NULL <==> pp == [])
      && (pp != [] ==> At(t1, Parent(pp)).Node? && f1.parent[n] == At(t1, Parent(pp)).handle && f1.parent[n] > 0)
  {
    var pp := Parent(p);
    assert p == pp + [Last(p)];
    RedBlackSpec.RedSiblingLeft(t, p);
    RedBlackSpec.RotatedLeftBelow(t, pp);
    NodeReaches(t, pp);
    Steps(t, pp, L);
    AtPutBelow(t, pp, [], Trees.RotateLeft(At(t, pp)));
    assert pp + [] == pp;
    RotateLeftWellformed(f, t, next, pp);
    LinkedNode(f, t, NULL, NIL, p);
    var f1, t1 := RotateLeftFields(f, At(t, pp).handle), RotateLeftAt(t, pp);
    LinkedNode(f1, t1, NULL, NIL, pp);
    if pp != [] {
      NodeReaches(t1, pp);
      ReachesParent(t1, pp);
      LinkedNode(f1, t1, NULL, NIL, Parent(pp));
    }
  }


  /** Replacing the subtree at q leaves the node above q, and so q's parent handle, in place. */
  lemma ParentAfterPut(t: Tree<Ref>, q: Path, s: Tree<Ref>)
    requires Reaches(t, q) && q != []
    ensures At(t, Parent(q)).Node?
    ensures At(Put(t, q, s), Parent(q)).Node? && At(Put(t, q, s), Parent(q)).handle == At(t, Parent(q)).handle
    ensures UpOf(Put(t, q, s), q, NULL) == UpOf(t, q, NULL)
    ensures UpOf(t, q, NULL) in Handles(Put(t, q, s))
  {
    ReachesParent(t, q);
    NodeReaches(t, Parent(q));
    assert q == Parent(q) + [Last(q)];
    AtPutUnder(t, Parent(q), [Last(q)], s);
    HandleAt(Put(t, q, s), Parent(q));
  }

  /**
   * Removing the node at q with at most one real child keeps every other
   * node, among them its child and the node above it, unless the
   * rebalancing stops before links it would break.
   */
  lemma RemoveNodeHandles(t: Tree<Ref>, q: Path)
    requires At(t, q).Node? && (At(t, q).left.Nil? || At(t, q).right.Nil?) && Unique(t)
    ensures var z, o := At(t, q), RedBlackSpec.RemoveNode(t, q);
      var s := if z.left.Nil? then z.right else z.left;
      && (o.halt != RedBlackSpec.BrokenLinks ==> forall h :: h in Handles(t) && h != z.handle ==> h in Handles(o.tree))
      && (s.Node? ==> s.handle in Handles(t) && s.handle != z.handle)
      && (q != [] ==> UpOf(t, q, NULL) in Handles(t) && UpOf(t, q, NULL) != z.handle)
  {
    var z := At(t, q);
    var s := if z.left.Nil? then z.right else z.left;
    NodeReaches(t, q);
    RedBlackSpec.RemoveNodeKeeps(t, q);
    UniqueFrame(t, q);
    Distinct3(z);
    if s.Node? {
      assert s.handle in Handles(s);
    }
    if q != [] {
      ParentAfterPut(t, q, s);
      HandlesPut(t, q, s);
    }
  }

  /** Copying value k into the node at q keeps the heap well formed. */
  lemma ValueWellformed(f: Fields, t: Tree<Ref>, next: Ref, q: Path, k: int)
    requires Wellformed(f, t, next) && At(t, q).Node?
    ensures Wellformed(f.(value := f.value[At(t, q).handle := k]), Put(t, q, At(t, q).(key := k)), next)
    ensures Handles(Put(t, q, At(t, q).(key := k))) == Handles(t)
  {
    ValueLinked(f, t, NIL, q, k);
    NodeReaches(t, q);
    HandlesPut(t, q, At(t, q).(key := k));
    SizePut(t, q, At(t, q).(key := k));
    HandleAt(t, q);
    if q == [] {
      PutAt(t, q, At(t, q).(key := k));
    }
    HandlesPut(t, q, At(t, q));
    PutSelf(t, q);
    assert Handles(At(t, q).(key := k)) == Handles(At(t, q));
  }

  /** Where a rotation at gp puts the two nodes it moves. */
  lemma RotatedBelow(t: Tree<Ref>, gp: Path, d: Dir)
    requires At(t, gp).Node? && Child(At(t, gp), Other(d)).Node?
    ensures var u := if d == R then RotateRightAt(t, gp) else RotateLeftAt(t, gp);
      && u.Node? && Reaches(u, gp + [d])
      && At(u, gp).Node? && At(u, gp).handle == Child(At(t, gp), Other(d)).handle
      && At(u, gp + [d]).Node? && At(u, gp + [d]).handle == At(t, gp).handle
  {
    var x := if d == R then RotateRight(At(t, gp)) else RotateLeft(At(t, gp));
    NodeReaches(t, gp);
    PutAt(t, gp, x);
    ReachesPutSame(t, gp, x);
    AtPutBelow(t, gp, [d], x);
    Steps(Put(t, gp, x), gp, d);
  }

  class Arena {
    var value: map<Ref, int>
    var color: map<Ref, Color>
    var left: map<Ref, Ref>
    var right: map<Ref, Ref>
    var parent: map<Ref, Ref>
    /** The handle the next node created gets. */
    var next: Ref
    ghost var shape: Tree<Ref>

    function F(): Fields
      reads this
    {
      Fields(value, color, left, right, parent)
    }

    /**
     * The heap holds `shape`: a non-empty tree whose nodes carry their values,
     * all with handles below `next`, and the sentinel is black with `null`
     * children.
     */
    ghost predicate Valid()
      reads this
    {
      Wellformed(F(), shape, next)
    }

    /** `RedBlackTree(value)`: a black root with sentinel children, and the sentinel. */
    constructor (k: int)
      ensures Valid() && shape == BinarySearchTree.New(1, k)
      ensures parent[NIL] == NULL && next == 2
    {
      value := map[1 := k];
      color := map[NIL := Black, 1 := Black];
      left := map[NIL := NULL, 1 := NIL];
      right := map[NIL := NULL, 1 := NIL];
      parent := map[NIL := NULL, 1 := NULL];
      next := 2;
      shape := Node(1, Black, k, Nil, Nil);
      new;
      assert NodeHas(F(), 1, Black, k, NIL, NIL, NULL);
      assert Linked(F(), shape, NULL, NIL);
      assert Holds(F(), shape, NIL);
      assert Handles(shape) == {1} && InOrder(shape) == [k];
    }

    /** The heap entry of the node at p, and what its child links mean. */
    lemma Entry(p: Path)
      requires Valid() && At(shape, p).Node?
      ensures var n := At(shape, p);
        && NodeHas(F(), n.handle, n.color, n.key, Top(n.left, NIL), Top(n.right, NIL), UpOf(shape, p, NULL))
        && n.handle in value && value[n.handle] == n.key && n.handle < next
        && (left[n.handle] == NIL <==> n.left.Nil?) && (right[n.handle] == NIL <==> n.right.Nil?)
        && (n.left.Node? ==> left[n.handle] > 0) && (n.right.Node? ==> right[n.handle] > 0)
        && Reaches(shape, p) && Reaches(shape, p + [L]) && Reaches(shape, p + [R])
        && At(shape, p + [L]) == n.left && At(shape, p + [R]) == n.right
        && (p == [] <==> parent[n.handle] == NULL)
        && (p != [] ==> parent[n.handle] == At(shape, Parent(p)).handle && parent[n.handle] > 0)
    {
      var n := At(shape, p);
      LinkedNode(F(), shape, NULL, NIL, p);
      Steps(shape, p, L);
      Steps(shape, p, R);
      HandleAt(shape, p);
      if n.left.Node? {
        LinkedNode(F(), shape, NULL, NIL, p + [L]);
      }
      if n.right.Node? {
        LinkedNode(F(), shape, NULL, NIL, p + [R]);
      }
      if p != [] {
        ParentLink(F(), shape, NIL, p);
      }
    }

    // -------------------------------------------------------------------
    // Queries
    // -------------------------------------------------------------------

    /** The heap entry of the node at q below p. */
    lemma EntryBelow(p: Path, q: Path)
      requires Valid() && At(At(shape, p), q).Node?
      ensures At(shape, p + q) == At(At(shape, p), q)
      ensures var n := At(At(shape, p), q);
        n.handle in value && value[n.handle] == n.key && n.handle > 0
    {
      AtAppend(shape, p, q);
      Entry(p + q);
    }

    /**
     * `find(k)` on node n (at p): the handle of the node at the position
     * `BinarySearchTree.Find` computes below p, which holds k or whose child
     * on k's side is the sentinel.
     */
    function Find(n: Ref, k: int, ghost p: Path): (r: Ref)
      reads this
      requires Valid() && At(shape, p).Node? && At(shape, p).handle == n
      ensures r == At(At(shape, p), BinarySearchTree.Find(At(shape, p), k)).handle
      decreases At(shape, p)
    {
      Entry(p);
      ghost var t := At(shape, p);
      if value[n] == k || (left[n] == NIL && right[n] == NIL) then n
      else if value[n] > k then
        if left[n] == NIL then n
        else
          assert ([L] + BinarySearchTree.Find(t.left, k))[1..] == BinarySearchTree.Find(t.left, k);
          Find(left[n], k, p + [L])
      else
        if right[n] == NIL then n
        else
          assert ([R] + BinarySearchTree.Find(t.right, k))[1..] == BinarySearchTree.Find(t.right, k);
          Find(right[n], k, p + [R])
    }

    /** `lookUpNode(k)`: the node `find` lands on if it holds k, else `null`. */
    function LookUpNode(n: Ref, k: int, ghost p: Path): (r: Ref)
      reads this
      requires Valid() && At(shape, p).Node? && At(shape, p).handle == n
      ensures match BinarySearchTree.LookUpNode(At(shape, p), k)
        case None => r == NULL
        case Some(q) => r == At(At(shape, p), q).handle && r != NULL
    {
      EntryBelow(p, BinarySearchTree.Find(At(shape, p), k));
      var result := Find(n, k, p);
      if value[result] == k then result else NULL
    }

    /** `contains(k)`: whether `lookUpNode(k)` finds a node. */
    function Contains(n: Ref, k: int, ghost p: Path): (b: bool)
      reads this
      requires Valid() && At(shape, p).Node? && At(shape, p).handle == n
      ensures b == BinarySearchTree.Contains(At(shape, p), k)
    {
      EntryBelow(p, BinarySearchTree.Find(At(shape, p), k));
      LookUpNode(n, k, p) != NULL
    }

    /** `min()`: the handle of the node `BinarySearchTree.Min` finds below p. */
    function Min(n: Ref, ghost p: Path): (r: Ref)
      reads this
      requires Valid() && At(shape, p).Node? && At(shape, p).handle == n
      ensures r == At(At(shape, p), BinarySearchTree.Min(At(shape, p))).handle
      decreases At(shape, p)
    {
      Entry(p);
      ghost var t := At(shape, p);
      if left[n] == NIL then n
      else
        assert ([L] + BinarySearchTree.Min(t.left))[1..] == BinarySearchTree.Min(t.left);
        Min(left[n], p + [L])
    }

    /** `max()`: the handle of the node `BinarySearchTree.Max` finds below p. */
    function Max(n: Ref, ghost p: Path): (r: Ref)
      reads this
      requires Valid() && At(shape, p).Node? && At(shape, p).handle == n
      ensures r == At(At(shape, p), BinarySearchTree.Max(At(shape, p))).handle
      decreases At(shape, p)
    {
      Entry(p);
      ghost var t := At(shape, p);
      if right[n] == NIL then n
      else
        assert ([R] + BinarySearchTree.Max(t.right))[1..] == BinarySearchTree.Max(t.right);
        Max(right[n], p + [R])
    }

    /**
     * `successorNode()`: `min()` of the right child, which must be a real
     * node (on the sentinel, `min()` dereferences its `null` left child).
     */
    function SuccessorNode(n: Ref, ghost p: Path): (r: Ref)
      reads this
      requires Valid() && At(shape, p).Node? && At(shape, p).handle == n && At(shape, p).right.Node?
      ensures r == At(At(shape, p), BinarySearchTree.Successor(At(shape, p))).handle
    {
      Entry(p);
      ghost var t := At(shape, p);
      assert ([R] + BinarySearchTree.Min(t.right))[1..] == BinarySearchTree.Min(t.right);
      Min(right[n], p + [R])
    }

    /** `predecessorNode()`: `max()` of the left child, which must be a real node. */
    function PredecessorNode(n: Ref, ghost p: Path): (r: Ref)
      reads this
      requires Valid() && At(shape, p).Node? && At(shape, p).handle == n && At(shape, p).left.Node?
      ensures r == At(At(shape, p), BinarySearchTree.Predecessor(At(shape, p))).handle
    {
      Entry(p);
      ghost var t := At(shape, p);
      assert ([L] + BinarySearchTree.Max(t.left))[1..] == BinarySearchTree.Max(t.left);
      Max(left[n], p + [L])
    }

    /**
     * `getSibling()` on the node or sentinel n at p (the sentinel's parent
     * link must lead to p's parent): `null` at the root, otherwise the node
     * at `RedBlackSpec.SiblingPath`, the sentinel standing for an empty one.
     */
    function GetSibling(n: Ref, ghost p: Path): (r: Ref)
      reads this
      requires Valid() && Reaches(shape, p) && n == Top(At(shape, p), NIL)
      requires n == NIL ==> parent[NIL] == UpOf(shape, p, NULL)
      ensures p == [] <==> r == NULL
      ensures p != [] ==> r == Top(At(shape, RedBlackSpec.SiblingPath(shape, p)), NIL)
    {
      SiblingLinks(n, p);
      if parent[n] != NULL then
        if left[parent[n]] != NULL && left[parent[n]] == n then right[parent[n]] else left[parent[n]]
      else NULL
    }

    /** What the links `getSibling` follows mean for the node or sentinel n at p. */
    lemma SiblingLinks(n: Ref, p: Path)
      requires Valid() && Reaches(shape, p) && n == Top(At(shape, p), NIL)
      requires n == NIL ==> parent[NIL] == UpOf(shape, p, NULL)
      ensures n in parent && (p == [] <==> parent[n] == NULL)
      ensures p != [] ==>
        && At(shape, Parent(p)).Node? && parent[n] == At(shape, Parent(p)).handle
        && parent[n] in left && parent[n] in right
        && ((left[parent[n]] != NULL && left[parent[n]] == n) <==> RedBlackSpec.SeenLeft(shape, p))
        && left[parent[n]] == Top(At(shape, Parent(p) + [L]), NIL)
        && right[parent[n]] == Top(At(shape, Parent(p) + [R]), NIL)
        && left[parent[n]] != NULL && right[parent[n]] != NULL
    {
      if p == [] {
        Entry(p);
      } else {
        var pp := Parent(p);
        ReachesParent(shape, p);
        Entry(pp);
        assert p == pp + [Last(p)];
        AtChild(shape, pp, Last(p));
        if At(shape, p).Node? {
          Entry(p);
          ParentLink(F(), shape, NIL, p);
        }
      }
    }

    /**
     * `getRoot()` on n: follow parent links until one is `null`, for at most
     * `fuel` steps.
     */
    function GetRoot(n: Ref, fuel: nat): (r: Ref)
      reads this
      ensures fuel == 0 || n !in parent || parent[n] == NULL ==> r == n
      decreases fuel
    {
      if fuel == 0 || n !in parent || parent[n] == NULL then n
      else GetRoot(parent[n], fuel - 1)
    }

    /** From the node at p, `getRoot()` reaches the root within |p| steps. */
    lemma {:induction false} GetRootFinds(n: Ref, p: Path, fuel: nat)
      requires Valid() && At(shape, p).Node? && At(shape, p).handle == n && |p| <= fuel
      ensures GetRoot(n, fuel) == shape.handle
      decreases |p|
    {
      Entry(p);
      if p != [] {
        NodeReaches(shape, p);
        ReachesParent(shape, p);
        GetRootFinds(parent[n], Parent(p), fuel - 1);
      }
    }

    /**
     * From any node of the tree, `getRoot()` with `next` steps finds the
     * root, the one node whose parent link is `null`.
     */
    lemma GetRootOfNode(n: Ref)
      requires Valid() && n in Handles(shape)
      ensures GetRoot(n, next) == shape.handle
      ensures GetRoot(n, next) in parent && parent[GetRoot(n, next)] == NULL
    {
      var p := PathTo(shape, n);
      DepthBelowSize(shape, p);
      GetRootFinds(n, p, next);
      Entry([]);
    }

    /**
     * When the sentinel's parent link points at a node of the tree, the walk
     * up from the sentinel reaches the root.
     */
    lemma GetRootOfSentinel()
      requires Valid() && NIL in parent && parent[NIL] in Handles(shape)
      ensures GetRoot(NIL, next) == shape.handle
    {
      var p := PathTo(shape, parent[NIL]);
      DepthBelowSize(shape, p);
      Entry(p);
      GetRootFinds(parent[NIL], p, next - 1);
      assert parent[NIL] != NULL && next != 0;
    }

    /** `getHeight()` on the node or sentinel at p: the height of the subtree there. */
    function GetHeight(n: Ref, ghost p: Path): (h: int)
      reads this
      requires Valid() && Reaches(shape, p) && n == Top(At(shape, p), NIL)
      ensures h == Height(At(shape, p))
      decreases At(shape, p)
    {
      if n == NIL then
        assert At(shape, p).Nil? by {
          if At(shape, p).Node? {
            Entry(p);
          }
        }
        0
      else
        Entry(p);
        var l := GetHeight(left[n], p + [L]);
        var r := GetHeight(right[n], p + [R]);
        1 + (if l < r then r else l)
    }
 
    // -------------------------------------------------------------------
    // Primitive updates
    // -------------------------------------------------------------------

    /** `x.color = c` on the node or sentinel h at q (the sentinel only ever gets black). */
    method SetColor(h: Ref, c: Color, ghost q: Path)
      requires Valid() && Reaches(shape, q) && h == Top(At(shape, q), NIL) && (h == NIL ==> c == Black)
      modifies this
      ensures Valid() && shape == PaintAt(old(shape), q, c)
      ensures F() == old(F()).(color := old(color)[h := c]) && next == old(next)
    {
      if At(shape, q).Node? {
        Entry(q);
        PaintLinked(F(), shape, NIL, q, c);
        PaintKeeps(shape, q, c);
      } else {
        assert color[NIL := Black] == color;
      }
      color := color[h := c];
      shape := PaintAt(shape, q, c);
    }

    /**
     * `rotateLeft()` on node x at p, whose right child y is a real node: y
     * takes x's place (the parent's child link or the root), x becomes y's
     * left child and y's left subtree becomes x's right one; returns y.
     */
    method RotateLeft(x: Ref, ghost p: Path) returns (y: Ref)
      requires Valid() && At(shape, p).Node? && At(shape, p).handle == x && At(shape, p).right.Node?
      modifies this
      ensures CanRotate(old(F()), x, R) && F() == RotateLeftFields(old(F()), x)
      ensures Valid() && shape == RotateLeftAt(old(shape), p) && next == old(next)
      ensures parent[NIL] == old(parent[NIL]) || parent[NIL] in Handles(shape)
      ensures y == old(At(shape, p).right.handle)
    {
      RotateLeftWellformed(F(), shape, next, p);
      y := right[x];
      var par := parent[x];
      right := right[x := left[y]];
      if left[y] != NULL {
        parent := parent[left[y] := x];
      }
      left := left[y := x];
      parent := parent[x := y];
      parent := parent[y := par];
      if par != NULL {
        if left[par] == x {
          left := left[par := y];
        } else {
          right := right[par := y];
        }
      }
      shape := RotateLeftAt(shape, p);
    }

    /** `rotateRight()`: the mirror image of `RotateLeft`; returns the former left child. */
    method RotateRight(x: Ref, ghost p: Path) returns (y: Ref)
      requires Valid() && At(shape, p).Node? && At(shape, p).handle == x && At(shape, p).left.Node?
      modifies this
      ensures CanRotate(old(F()), x, L) && F() == RotateRightFields(old(F()), x)
      ensures Valid() && shape == RotateRightAt(old(shape), p) && next == old(next)
      ensures parent[NIL] == old(parent[NIL]) || parent[NIL] in Handles(shape)
      ensures y == old(At(shape, p).left.handle)
    {
      RotateRightWellformed(F(), shape, next, p);
      y := left[x];
      var par := parent[x];
      left := left[x := right[y]];
      if right[y] != NULL {
        parent := parent[right[y] := x];
      }
      right := right[y := x];
      parent := parent[x := y];
      parent := parent[y := par];
      if par != NULL {
        if left[par] == x {
          left := left[par := y];
        } else {
          right := right[par := y];
        }
      }
      shape := RotateRightAt(shape, p);
    }

    /**
     * `transplant(u, v)` where u is the node at q and v its child subtree s
     * (or the sentinel): u's parent, if any, takes v as the child in u's
     * place, and v's parent link becomes u's parent, even for the sentinel.
     */
    method Transplant(u: Ref, v: Ref, ghost q: Path, ghost s: Tree<Ref>)
      requires Valid() && At(shape, q).Node? && At(shape, q).handle == u
      requires (s == At(shape, q).left || s == At(shape, q).right) && v == Top(s, NIL)
      requires q == [] ==> s.Node?
      modifies this
      ensures u in old(parent) && (old(parent[u]) != NULL ==> old(parent[u]) in old(left) && old(parent[u]) in old(right))
      ensures F() == TransplantFields(old(F()), u, v)
      ensures Valid() && shape == Put(old(shape), q, s) && next == old(next)
      ensures parent[v] == UpOf(old(shape), q, NULL)
    {
      TransplantWellformed(F(), shape, next, q, s);
      var par := parent[u];
      if par != NULL {
        if left[par] == u {
          left := left[par := v];
        } else {
          right := right[par := v];
        }
      }
      parent := parent[v := par];
      shape := Put(shape, q, s);
    }

    /**
     * `RedBlackTree(value, parent)`: a new red node holding k with sentinel
     * children and parent link `up`; it is not yet anybody's child.
     */
    method NewNode(k: int, up: Ref) returns (n: Ref)
      requires Valid()
      modifies this
      ensures n == old(next) && n > 0 && n !in Handles(shape) && next == n + 1
      ensures F() == Fields(old(value)[n := k], old(color)[n := Red], old(left)[n := NIL], old(right)[n := NIL], old(parent)[n := up])
      ensures Valid() && shape == old(shape)
    {
      Entry([]);
      n := next;
      ghost var f := F();
      value := value[n := k];
      color := color[n := Red];
      left := left[n := NIL];
      right := right[n := NIL];
      parent := parent[n := up];
      next := next + 1;
      forall h | h in Handles(shape) ensures SameNode(f, F(), h) {
      }
      LinkedFrame(f, F(), shape, NULL, NIL);
    }
 
    /** Which child link of its parent leads to the node at p. */
    lemma ChildSide(p: Path)
      requires Valid() && At(shape, p).Node? && p != []
      ensures var h := At(shape, p).handle;
        && At(shape, Parent(p)).Node? && h in parent && parent[h] == At(shape, Parent(p)).handle
        && parent[h] in left && parent[h] in right
        && (left[parent[h]] == h <==> Last(p) == L)
        && (right[parent[h]] == h <==> Last(p) == R)
        && p == Parent(p) + [Last(p)]
    {
      Entry(p);
      ReachesParent(shape, p);
      ParentLink(F(), shape, NIL, p);
      var pp := Parent(p);
      Entry(pp);
      assert p == pp + [Last(p)];
      AtChild(shape, pp, Last(p));
      UniqueFrame(shape, pp);
      var pn := At(shape, pp);
      if Last(p) == L && pn.right.Node? {
        assert pn.right.handle in Handles(pn.right);
      }
    }

    /** The node at q in a recoloured shape keeps its handle. */
    lemma SameHandle(a: Tree<Ref>, b: Tree<Ref>, q: Path)
      requires Recoloured(a, b) && At(a, q).Node?
      ensures At(b, q).Node? && At(b, q).handle == At(a, q).handle
    {
      RecolouredAt(a, b, q);
    }

    // -------------------------------------------------------------------
    // Insertion
    // -------------------------------------------------------------------

    /**
     * `parent.color = uncle.color = BLACK; grandParent.color = RED`, with the
     * uncle at up, the parent at pp and the grandparent at gp: the uncle is
     * painted first, then the parent, then the grandparent.
     */
    method RecolourFamily(uncle: Ref, par: Ref, grandParent: Ref, ghost up: Path, ghost pp: Path, ghost gp: Path)
      requires Valid() && Reaches(shape, up) && uncle == Top(At(shape, up), NIL)
      requires At(shape, pp).Node? && At(shape, pp).handle == par
      requires At(shape, gp).Node? && At(shape, gp).handle == grandParent
      modifies this
      ensures Valid() && next == old(next)
      ensures shape == PaintAt(PaintAt(PaintAt(old(shape), up, Black), pp, Black), gp, Red)
      ensures At(shape, gp).Node? && At(shape, gp).handle == grandParent
    {
      ghost var t := shape;
      Entry(gp);
      SetColor(uncle, Black, up);
      ghost var t1 := shape;
      PaintRecolours(t, up, Black);
      SameHandle(t, t1, pp);
      NodeReaches(t1, pp);
      SetColor(par, Black, pp);
      ghost var t2 := shape;
      PaintRecolours(t1, pp, Black);
      RecolouredTrans(t, t1, t2);
      SameHandle(t, t2, gp);
      NodeReaches(t2, gp);
      SetColor(grandParent, Red, gp);
      PaintRecolours(t2, gp, Red);
      RecolouredTrans(t, t2, shape);
      SameHandle(t, shape, gp);
    }

    /**
     * The aligned case of `balanceInsertion()`: the grandparent at gp rotates
     * towards d (right for d == R), lifting the parent into its place; the
     * old grandparent is painted red and the parent black.
     */
    method RotateAndRecolour(par: Ref, grandParent: Ref, ghost gp: Path, d: Dir)
      requires Valid() && At(shape, gp).Node? && At(shape, gp).handle == grandParent
      requires Child(At(shape, gp), Other(d)).Node? && Child(At(shape, gp), Other(d)).handle == par
      modifies this
      ensures Valid() && next == old(next)
      ensures var u := if d == R then RotateRightAt(old(shape), gp) else RotateLeftAt(old(shape), gp);
        shape == PaintAt(PaintAt(u, gp + [d], Red), gp, Black)
    {
      ghost var t := shape;
      Entry(gp);
      if d == R {
        var top := RotateRight(grandParent, gp);
      } else {
        var top := RotateLeft(grandParent, gp);
      }
      RotatedBelow(t, gp, d);
      ghost var u := shape;
      SetColor(grandParent, Red, gp + [d]);
      PaintRecolours(u, gp + [d], Red);
      SameHandle(u, shape, gp);
      NodeReaches(shape, gp);
      SetColor(par, Black, gp);
    }

    /**
     * `balanceInsertion()` on the node n at p: the heap ends up holding the
     * tree `RedBlackSpec.BalanceInsertion` computes, and the run ends as it
     * says.
     */
    method BalanceInsertion(n: Ref, ghost p: Path) returns (halt: RedBlackSpec.Halt)
      requires Valid() && At(shape, p).Node? && At(shape, p).handle == n
      modifies this
      ensures Valid() && next == old(next)
      ensures shape == RedBlackSpec.BalanceInsertion(old(shape), p).tree
      ensures halt == RedBlackSpec.BalanceInsertion(old(shape), p).halt
      decreases |p|, 1
    {
      ghost var t := shape;
      assert Reaches(t, p) && n in parent && (parent[n] == NULL <==> p == []) by {
        Entry(p);
      }
      var par := parent[n];
      if par == NULL {
        SetColor(n, Black, p);
        return RedBlackSpec.Finished;
      }
      ghost var pp := Parent(p);
      assert p == pp + [Last(p)] && At(t, pp).Node? && Reaches(t, pp)
        && par == At(t, pp).handle && par in color && color[par] == At(t, pp).color by {
        ChildSide(p);
        Entry(pp);
        NodeReaches(t, pp);
      }
      if color[par] != Red {
        return RedBlackSpec.Finished;
      }
      var uncle := GetSibling(par, pp);
      if uncle == NULL {
        return RedBlackSpec.NullDereference;
      }
      halt := UncleStep(n, par, uncle, p);
    }

    /**
     * The part of `balanceInsertion()` on the node n at p that looks at the
     * uncle, once the parent par is red and not the root.
     */
    method UncleStep(n: Ref, par: Ref, uncle: Ref, ghost p: Path) returns (halt: RedBlackSpec.Halt)
      requires Valid() && At(shape, p).Node? && At(shape, p).handle == n && |p| >= 2
      requires At(shape, Parent(p)).Node? && At(shape, Parent(p)).handle == par
      requires uncle == Top(At(shape, RedBlackSpec.SiblingPath(shape, Parent(p))), NIL)
      modifies this
      ensures Valid() && next == old(next)
      ensures shape == RedBlackSpec.UncleStep(old(shape), p).tree
      ensures halt == RedBlackSpec.UncleStep(old(shape), p).halt
      decreases |p|, 0
    {
      ghost var t := shape;
      ghost var pp := Parent(p);
      assert p == pp + [Last(p)] && At(t, p) == Child(At(t, pp), Last(p)) && Reaches(t, pp)
        && par in parent && par in left && par in right
        && (left[par] == n <==> Last(p) == L) && (right[par] == n <==> Last(p) == R) by {
        ChildSide(p);
        Entry(pp);
        NodeReaches(t, pp);
        Steps(t, pp, Last(p));
      }
      var grandParent := parent[par];
      ghost var gp := Parent(pp);
      ghost var up := gp + [Other(Last(pp))];
      assert pp == gp + [Last(pp)] && At(t, gp).Node? && At(t, pp) == Child(At(t, gp), Last(pp))
        && grandParent == At(t, gp).handle && grandParent in left && grandParent in right
        && (left[grandParent] == par <==> Last(pp) == L) && (right[grandParent] == par <==> Last(pp) == R)
        && Reaches(t, up) && uncle == Top(At(t, up), NIL) && uncle in color && color[uncle] == ColorOf(At(t, up)) by {
        ChildSide(pp);
        Entry(gp);
        Steps(t, gp, Last(pp));
        assert RedBlackSpec.SiblingPath(t, pp) == up;
        EntryOrSentinel(up);
      }
      if color[uncle] == Red {
        RecolourFamily(uncle, par, grandParent, up, pp, gp);
        halt := BalanceInsertion(grandParent, gp);
      } else if n == right[par] && par == left[grandParent] {
        var top := RotateLeft(par, pp);
        assert At(shape, pp).Node? && At(shape, pp).handle == top by {
          PutAt(t, pp, Trees.RotateLeft(At(t, pp)));
        }
        halt := BalanceInsertion(top, pp);
      } else if n == left[par] && par == right[grandParent] {
        var top := RotateRight(par, pp);
        assert At(shape, pp).Node? && At(shape, pp).handle == top by {
          PutAt(t, pp, Trees.RotateRight(At(t, pp)));
        }
        halt := BalanceInsertion(top, pp);
      } else {
        if n == left[par] && par == left[grandParent] {
          RotateAndRecolour(par, grandParent, gp, R);
        } else {
          RotateAndRecolour(par, grandParent, gp, L);
        }
        halt := RedBlackSpec.Finished;
      }
    }

    /**
     * `u.leftChild = new RedBlackTree<>(k, u)` (or `rightChild`, by d) for the
     * node u at q whose child on side d is the sentinel: a new red leaf
     * holding k, with the next free handle, becomes that child.
     */
    method AddLeaf(u: Ref, k: int, d: Dir, ghost q: Path) returns (c: Ref)
      requires Valid() && At(shape, q).Node? && At(shape, q).handle == u && Child(At(shape, q), d).Nil?
      modifies this
      ensures c == old(next) && next == c + 1
      ensures Valid() && shape == Put(old(shape), q + [d], Node(c, Red, k, Nil, Nil))
      ensures Handles(shape) == Handles(old(shape)) + {c}
    {
      LinkLeafWellformed(F(), shape, next, q, d, k);
      Entry(q);
      c := NewNode(k, u);
      if d == L {
        left := left[u := c];
      } else {
        right := right[u := c];
      }
      shape := Put(shape, q + [d], Node(c, Red, k, Nil, Nil));
    }

    /**
     * `insert(k)` called on the node n at p0: the heap ends up holding the
     * tree `RedBlackSpec.Insert` computes with the next free handle for the
     * new node, and when the run ends normally the root is returned.
     */
    method Insert(n: Ref, k: int, ghost p0: Path) returns (root: Ref, halt: RedBlackSpec.Halt)
      requires Valid() && At(shape, p0).Node? && At(shape, p0).handle == n
      modifies this
      ensures Valid()
      ensures shape == RedBlackSpec.Insert(old(shape), p0, k, old(next)).tree
      ensures halt == RedBlackSpec.Insert(old(shape), p0, k, old(next)).halt
      ensures halt == RedBlackSpec.Finished ==> root == shape.handle
    {
      ghost var t := shape;
      ghost var q := p0 + BinarySearchTree.Find(At(shape, p0), k);
      assert At(t, q) == At(At(t, p0), BinarySearchTree.Find(At(t, p0), k)) && n in Handles(t)
        && value[At(t, q).handle] == At(t, q).key by {
        EntryBelow(p0, BinarySearchTree.Find(At(shape, p0), k));
        HandleAt(shape, p0);
      }
      var possibleParentNode := Find(n, k, p0);
      var nodeValue := value[possibleParentNode];
      halt := RedBlackSpec.Finished;
      if nodeValue != k {
        ghost var d := BinarySearchTree.Side(nodeValue, k);
        ghost var leaf := Node(next, Red, k, Nil, Nil);
        var c;
        if nodeValue > k {
          c := AddLeaf(possibleParentNode, k, L, q);
        } else {
          c := AddLeaf(possibleParentNode, k, R, q);
        }
        ghost var u := shape;
        assert At(u, q + [d]).Node? && At(u, q + [d]).handle == c && Unique(u) by {
          Steps(t, q, d);
          PutAt(t, q + [d], leaf);
        }
        halt := BalanceInsertion(c, q + [d]);
        assert Handles(shape) == Handles(u) by {
          RedBlackSpec.BalanceInsertionKeeps(u, q + [d]);
        }
      }
      if halt == RedBlackSpec.Finished {
        GetRootOfNode(n);
        root := GetRoot(n, next);
      } else {
        root := NULL;
      }
    }

    // -------------------------------------------------------------------
    // Deletion
    // -------------------------------------------------------------------

    /**
     * The written-out double rotation of `balanceDeletion` at the root P,
     * whose left child S has the real right child u.
     */
    method HandRotateRight(P: Ref, S: Ref, u: Ref)
      requires Valid() && shape.left.Node? && shape.left.right.Node?
      requires P == shape.handle && S == shape.left.handle && u == shape.left.right.handle
      modifies this
      ensures P in old(parent) && u in old(left) && u in old(right)
      ensures F() == HandRotateRightFields(old(F()), P, S, u)
      ensures Valid() && shape == RedBlackSpec.DoubleRotateRight(old(shape)) && next == old(next)
      ensures parent[NIL] == old(parent[NIL]) || parent[NIL] in Handles(shape)
    {
      HandRotateRightWellformed(F(), shape, next);
      left := left[P := right[u]];
      parent := parent[right[u] := P];
      right := right[u := P];
      parent := parent[u := parent[P]];
      parent := parent[P := u];
      right := right[S := left[u]];
      parent := parent[left[u] := S];
      left := left[u := S];
      parent := parent[S := u];
      shape := RedBlackSpec.DoubleRotateRight(shape);
    }

    /**
     * The mirror double rotation of `balanceDeletion` as written, at the root
     * P whose right child S has the real left child u, itself without a left
     * subtree.
     */
    method HandRotateLeft(P: Ref, S: Ref, u: Ref)
      requires Valid() && shape.right.Node? && shape.right.left.Node? && shape.right.left.left.Nil?
      requires P == shape.handle && S == shape.right.handle && u == shape.right.left.handle
      modifies this
      ensures P in old(parent) && u in old(left) && u in old(right)
      ensures F() == HandRotateLeftFields(old(F()), P, S, u)
      ensures Valid() && shape == RedBlackSpec.DoubleRotateLeft(old(shape)) && next == old(next)
      ensures parent[NIL] == old(parent[NIL]) || parent[NIL] in Handles(shape)
    {
      HandRotateLeftWellformed(F(), shape, next);
      right := right[P := left[u]];
      parent := parent[u := P];
      left := left[u := P];
      parent := parent[u := parent[P]];
      parent := parent[P := u];
      left := left[S := right[u]];
      parent := parent[right[u] := S];
      right := right[u := S];
      parent := parent[S := u];
      shape := RedBlackSpec.DoubleRotateLeft(shape);
    }

    /**
     * The restructuring branch of `balanceDeletion`: the parent `par` at pp,
     * the black sibling at sp and its red child `uncleRedChild` (the left one
     * when both are red). The heap ends up holding the tree
     * `RedBlackSpec.RedNephew` computes.
     */
    /** What the heap says about the parent at pp, the sibling at sp and the sibling's children. */
    lemma NephewLinks(par: Ref, sibling: Ref, uncleRedChild: Ref, pp: Path, sp: Path)
      requires Valid() && At(shape, pp).Node? && At(shape, pp).handle == par
      requires |sp| == |pp| + 1 && sp[..|pp|] == pp && At(shape, sp).Node? && At(shape, sp).handle == sibling
      requires var s := At(shape, sp);
        uncleRedChild == if ColorOf(s.left) == Red then Top(s.left, NIL)
          else if ColorOf(s.right) == Red then Top(s.right, NIL) else NULL
      requires uncleRedChild != NULL
      ensures var s := At(shape, sp);
        && sp == pp + [Last(sp)] && sibling in parent && parent[sibling] == par
        && par in left && par in parent && sibling in left && sibling in right
        && (left[par] == sibling <==> Last(sp) == L)
        && (parent[par] == NULL <==> pp == [])
        && (right[sibling] == uncleRedChild <==> ColorOf(s.left) != Red)
        && (left[sibling] == uncleRedChild <==> ColorOf(s.left) == Red)
        && (ColorOf(s.left) == Red ==>
              s.left.Node? && uncleRedChild == s.left.handle
              && uncleRedChild in left && (left[uncleRedChild] != NIL <==> s.left.left.Node?))
        && (ColorOf(s.left) != Red ==> s.right.Node? && uncleRedChild == s.right.handle)
    {
      var s := At(shape, sp);
      assert sp == pp + [Last(sp)];
      ChildSide(sp);
      Entry(sp);
      Entry(pp);
      if s.left.Node? {
        Entry(sp + [L]);
      }
      if s.right.Node? {
        Entry(sp + [R]);
      }
      UniqueFrame(shape, sp);
      Distinct3(s);
      if s.left.Node? && s.right.Node? {
        assert s.left.handle in Handles(s.left) && s.right.handle in Handles(s.right);
      }
    }

    /**
     * The restructuring branch of `balanceDeletion`: the parent `par` at pp,
     * the black sibling at sp and its red child `uncleRedChild` (the left one
     * when both are red). The heap ends up holding the tree
     * `RedBlackSpec.RedNephew` computes.
     */
    method RestructureRedNephew(par: Ref, sibling: Ref, uncleRedChild: Ref, ghost pp: Path, ghost sp: Path)
      returns (halt: RedBlackSpec.Halt)
      requires Valid() && At(shape, pp).Node? && At(shape, pp).handle == par
      requires |sp| == |pp| + 1 && sp[..|pp|] == pp && At(shape, sp).Node? && At(shape, sp).handle == sibling
      requires var s := At(shape, sp);
        uncleRedChild == if ColorOf(s.left) == Red then Top(s.left, NIL)
          else if ColorOf(s.right) == Red then Top(s.right, NIL) else NULL
      requires uncleRedChild != NULL
      modifies this
      ensures Valid() && next == old(next)
      ensures shape == RedBlackSpec.RedNephew(old(shape), pp, sp).tree
      ensures halt == RedBlackSpec.RedNephew(old(shape), pp, sp).halt
      ensures parent[NIL] == old(parent[NIL]) || parent[NIL] in Handles(shape)
    {
      ghost var t := shape;
      NephewLinks(par, sibling, uncleRedChild, pp, sp);
      Steps(shape, pp, L);
      halt := RedBlackSpec.Finished;
      if left[parent[sibling]] == sibling {
        if right[sibling] == uncleRedChild {
          if parent[par] != NULL {
            return RedBlackSpec.BrokenLinks;
          }
          HandRotateRight(par, sibling, uncleRedChild);
          PaintKeeps(shape, [], Black);
          SetColor(uncleRedChild, Black, []);
        } else {
          var top := RotateRight(par, pp);
          AtPutBelow(t, pp, [L], Trees.RotateRight(At(t, pp)));
          NodeReaches(shape, pp + [L]);
          PaintKeeps(shape, pp + [L], Black);
          SetColor(uncleRedChild, Black, pp + [L]);
        }
      } else {
        if left[sibling] == uncleRedChild {
          if parent[par] != NULL || left[uncleRedChild] != NIL {
            return RedBlackSpec.BrokenLinks;
          }
          HandRotateLeft(par, sibling, uncleRedChild);
          PaintKeeps(shape, [], Black);
          SetColor(uncleRedChild, Black, []);
        } else {
          var top := RotateLeft(par, pp);
          AtPutBelow(t, pp, [R], Trees.RotateLeft(At(t, pp)));
          NodeReaches(shape, pp + [R]);
          PaintKeeps(shape, pp + [R], Black);
          SetColor(uncleRedChild, Black, pp + [R]);
        }
      }
    }

    /** The heap entry of whatever stands at q: a node, or the sentinel for an empty subtree. */
    lemma EntryOrSentinel(q: Path)
      requires Valid() && Reaches(shape, q)
      ensures var s, h := At(shape, q), Top(At(shape, q), NIL);
        && h in color && color[h] == ColorOf(s) && h in left && h in right && h in parent
        && (s.Nil? ==> h == NIL && left[h] == NULL)
        && (s.Node? ==> h > 0 && left[h] == Top(s.left, NIL) && right[h] == Top(s.right, NIL))
        && (s.Node? ==> left[h] != NULL && right[h] != NULL)
    {
      if At(shape, q).Node? {
        Entry(q);
      }
    }

    /**
     * The adjustment branch of `balanceDeletion` for a red sibling, up to its
     * recursive call: `parent.rotateLeft()`, the sibling painted black, then
     * whatever `this.parent` has become painted red. Returns false when that
     * is `null`. The node n ends up two levels lower when it was a left child,
     * and in its parent's old place when it was a right child.
     */
    method AdjustRedSibling(n: Ref, sibling: Ref, ghost p: Path) returns (ok: bool)
      requires Valid() && Reaches(shape, p) && p != [] && n == Top(At(shape, p), NIL)
      requires n == NIL ==> parent[NIL] == UpOf(shape, p, NULL) && RedBlackSpec.SeenLeft(shape, p)
      requires At(shape, RedBlackSpec.SiblingPath(shape, p)).Node?
      requires sibling == At(shape, RedBlackSpec.SiblingPath(shape, p)).handle
      modifies this
      ensures Valid() && next == old(next)
      ensures parent[NIL] == old(parent[NIL]) || parent[NIL] in Handles(shape)
      ensures Handles(shape) == Handles(old(shape))
      ensures var t, pp := old(shape), Parent(p);
        && At(t, pp).Node? && At(t, pp).right.Node?
        && var t1 := RotateLeftAt(t, pp);
        if RedBlackSpec.SeenLeft(t, p) then
          && ok && shape == PaintAt(PaintAt(t1, pp, Black), pp + [L], Red)
          && Reaches(shape, pp + [L, L]) && n == Top(At(shape, pp + [L, L]), NIL)
          && (n == NIL ==> parent[NIL] == UpOf(shape, pp + [L, L], NULL))
        else
          && (ok <==> pp != [])
          && var t2 := PaintAt(t1, pp + [L, L], Black);
          && shape == (if ok then PaintAt(t2, Parent(pp), Red) else t2)
          && (ok ==> At(shape, pp).Node? && n == At(shape, pp).handle)
    {
      ghost var t := shape;
      ghost var pp := Parent(p);
      ghost var seen := RedBlackSpec.SeenLeft(t, p);
      if seen {
        RedSiblingRotationLeft(F(), shape, next, n, p);
      } else {
        RedSiblingRotationRight(F(), shape, next, n, p);
      }
      var top := RotateLeft(parent[n], pp);
      RotateAt(t, pp);
      ok := RecolourRotated(n, sibling, p, t);
    }

    /**
     * The recolouring that ends the red-sibling adjustment, once the parent of
     * the node or sentinel n at p in tree t has been rotated left: the
     * sibling turns black and, unless n's parent link is `null`, that parent
     * turns red.
     */
    method RecolourRotated(n: Ref, sibling: Ref, ghost p: Path, ghost t: Tree<Ref>) returns (ok: bool)
      requires t.Node? && Reaches(t, p) && p != [] && At(t, Parent(p)).Node? && At(t, Parent(p)).right.Node?
      requires Valid() && shape == RotateLeftAt(t, Parent(p)) && n in parent
      requires var pp := Parent(p);
        if RedBlackSpec.SeenLeft(t, p) then
          && Reaches(shape, pp + [L, L]) && n == Top(At(shape, pp + [L, L]), NIL)
          && At(shape, pp).Node? && At(shape, pp).handle == sibling
          && At(shape, pp + [L]).Node? && parent[n] == At(shape, pp + [L]).handle && parent[n] > 0
        else
          && At(shape, pp + [L, L]).Node? && At(shape, pp + [L, L]).handle == sibling
          && At(shape, pp).Node? && n == At(shape, pp).handle
          && (parent[n] == NULL <==> pp == [])
          && (pp != [] ==> At(shape, Parent(pp)).Node? && parent[n] == At(shape, Parent(pp)).handle && parent[n] > 0)
      modifies this
      ensures Valid() && next == old(next)
      ensures parent[NIL] == old(parent[NIL]) && Handles(shape) == Handles(old(shape))
      ensures var pp := Parent(p);
        var t1 := RotateLeftAt(t, pp);
        if RedBlackSpec.SeenLeft(t, p) then
          && ok && shape == PaintAt(PaintAt(t1, pp, Black), pp + [L], Red)
          && Reaches(shape, pp + [L, L]) && n == Top(At(shape, pp + [L, L]), NIL)
          && (n == NIL ==> parent[NIL] == UpOf(shape, pp + [L, L], NULL))
        else
          && (ok <==> pp != [])
          && var t2 := PaintAt(t1, pp + [L, L], Black);
          && shape == (if ok then PaintAt(t2, Parent(pp), Red) else t2)
          && (ok ==> At(shape, pp).Node? && n == At(shape, pp).handle)
    {
      ghost var pp := Parent(p);
      ghost var seen := RedBlackSpec.SeenLeft(t, p);
      ghost var t1 := shape;
      ghost var sp := if seen then pp else pp + [L, L];
      NodeReaches(shape, sp);
      PaintKeeps(shape, sp, Black);
      PaintRecolours(shape, sp, Black);
      SetColor(sibling, Black, sp);
      ghost var t2 := shape;
      if parent[n] == NULL {
        ok := false;
        return;
      }
      ghost var up := if seen then pp + [L] else Parent(pp);
      SameHandle(t1, t2, up);
      NodeReaches(t2, up);
      PaintKeeps(shape, up, Red);
      PaintRecolours(shape, up, Red);
      SetColor(parent[n], Red, up);
      RecolouredTrans(t1, t2, shape);
      ok := true;
      if seen {
        RecolouredAt(t1, shape, pp + [L, L]);
        SameHandle(t1, shape, pp + [L]);
        assert Parent(pp + [L, L]) == pp + [L];
      } else {
        SameHandle(t1, shape, pp);
      }
    }

    /**
     * `balanceDeletion(deletedColor)` on the node or sentinel n at p (the
     * sentinel's parent link leading to p's parent): the heap ends up holding
     * the tree `RedBlackSpec.BalanceDeletion` computes.
     */
    method BalanceDeletion(n: Ref, deletedColor: Color, ghost p: Path) returns (halt: RedBlackSpec.Halt)
      requires Valid() && Reaches(shape, p) && n == Top(At(shape, p), NIL)
      requires n == NIL ==> parent[NIL] == UpOf(shape, p, NULL)
      modifies this
      ensures Valid() && next == old(next)
      ensures shape == RedBlackSpec.BalanceDeletion(old(shape), p, deletedColor).tree
      ensures halt == RedBlackSpec.BalanceDeletion(old(shape), p, deletedColor).halt
      ensures parent[NIL] == old(parent[NIL]) || parent[NIL] in Handles(shape)
      ensures Handles(shape) == Handles(old(shape))
      decreases RedBlackSpec.Outside(shape, p), if p == [] then 0 else Size(At(shape, RedBlackSpec.SiblingPath(shape, p))), 2
    {
      ghost var t := shape;
      assert n in color && color[n] == ColorOf(At(t, p)) by {
        EntryOrSentinel(p);
      }
      if (deletedColor == Black && color[n] == Red) || (deletedColor == Red && color[n] == Black) {
        PaintKeeps(t, p, Black);
        SetColor(n, Black, p);
        return RedBlackSpec.Finished;
      }
      if deletedColor != Black || color[n] != Black {
        return RedBlackSpec.Finished;
      }
      var sibling := GetSibling(n, p);
      if sibling == NULL {
        return RedBlackSpec.NullDereference;
      }
      ghost var pp := Parent(p);
      ghost var sp := RedBlackSpec.SiblingPath(t, p);
      ghost var s := At(t, sp);
      assert sibling in color && sibling in left && color[sibling] == ColorOf(s)
        && (s.Nil? <==> left[sibling] == NULL) by {
        SiblingLinks(n, p);
        ReachesChild(t, pp, Last(sp));
        EntryOrSentinel(sp);
      }
      if color[sibling] == Black {
        if left[sibling] == NULL {
          return RedBlackSpec.NullDereference;
        }
        assert s.Node? && s.handle == sibling && s.color == Black
          && left[sibling] == Top(s.left, NIL) && right[sibling] == Top(s.right, NIL)
          && left[sibling] in color && right[sibling] in color && right[sibling] != NULL
          && color[left[sibling]] == ColorOf(s.left) && color[right[sibling]] == ColorOf(s.right) by {
          SiblingLinks(n, p);
          ReachesChild(t, pp, Last(sp));
          EntryOrSentinel(sp);
          Steps(t, sp, L);
          EntryOrSentinel(sp + [L]);
          EntryOrSentinel(sp + [R]);
        }
        var uncleRedChild := if color[left[sibling]] == Red then left[sibling]
          else if color[right[sibling]] == Red then right[sibling] else NULL;
        if uncleRedChild != NULL {
          assert At(t, pp).Node? && At(t, pp).handle == parent[n] && |sp| == |pp| + 1 && sp[..|pp|] == pp by {
            SiblingLinks(n, p);
            assert sp == pp + [Last(sp)];
          }
          halt := RestructureRedNephew(parent[n], sibling, uncleRedChild, pp, sp);
          assert Handles(shape) == Handles(t) by {
            RedBlackSpec.RedNephewKeeps(t, pp, sp);
          }
          return;
        }
        halt := RecolourSibling(n, sibling, deletedColor, p);
      } else {
        halt := RedSibling(n, sibling, deletedColor, p);
      }
    }

    /**
     * The adjustment branch of `balanceDeletion` for a red sibling: rotate,
     * recolour, and balance n again at its new position.
     */
    method RedSibling(n: Ref, sibling: Ref, deletedColor: Color, ghost p: Path) returns (halt: RedBlackSpec.Halt)
      requires Valid() && Reaches(shape, p) && p != [] && n == Top(At(shape, p), NIL)
      requires n == NIL ==> parent[NIL] == UpOf(shape, p, NULL)
      requires ColorOf(At(shape, p)) == Black && deletedColor == Black
      requires var s := At(shape, RedBlackSpec.SiblingPath(shape, p));
        s.Node? && s.handle == sibling && s.color == Red
      modifies this
      ensures Valid() && next == old(next)
      ensures shape == RedBlackSpec.RedSiblingStep(old(shape), p, deletedColor).tree
      ensures halt == RedBlackSpec.RedSiblingStep(old(shape), p, deletedColor).halt
      ensures parent[NIL] == old(parent[NIL]) || parent[NIL] in Handles(shape)
      ensures Handles(shape) == Handles(old(shape))
      decreases RedBlackSpec.Outside(shape, p), Size(At(shape, RedBlackSpec.SiblingPath(shape, p))), 1
    {
      ghost var t := shape;
      ghost var pp := Parent(p);
      ghost var seen := RedBlackSpec.SeenLeft(t, p);
      assert p == pp + [Last(p)] && n in parent && parent[n] == At(t, pp).handle && parent[n] in right
        && (n == NIL <==> At(t, p).Nil?) && (right[parent[n]] == NIL <==> !seen && n == NIL) by {
        SiblingLinks(n, p);
        assert p == pp + [Last(p)];
        Steps(t, pp, L);
        Entry(RedBlackSpec.SiblingPath(t, p));
        EntryOrSentinel(p);
        if seen {
          assert RedBlackSpec.SiblingPath(t, p) == pp + [R];
          assert right[parent[n]] == sibling;
        } else {
          assert Last(p) == R;
          assert right[parent[n]] == n;
        }
      }
      // `rotateLeft` with the sentinel as right child would link the sentinel into the tree
      if right[parent[n]] == NIL {
        return RedBlackSpec.BrokenLinks;
      }
      var ok := AdjustRedSibling(n, sibling, p);
      if !ok {
        return RedBlackSpec.NullDereference;
      }
      halt := RedSiblingRebalance(n, deletedColor, p, t);
    }

    /**
     * The end of the red-sibling branch, once the parent of the node at p in
     * tree t has been rotated and recoloured: n is balanced again at its new
     * position.
     */
    method RedSiblingRebalance(n: Ref, deletedColor: Color, ghost p: Path, ghost t: Tree<Ref>) returns (halt: RedBlackSpec.Halt)
      requires t.Node? && Reaches(t, p) && p != [] && At(t, RedBlackSpec.SiblingPath(t, p)).Node?
      requires RedBlackSpec.SeenLeft(t, p) || (At(t, p).Node? && Parent(p) != [])
      requires Valid() && At(t, Parent(p)).Node? && At(t, Parent(p)).right.Node?
      requires var pp, t1 := Parent(p), RotateLeftAt(t, Parent(p));
        if RedBlackSpec.SeenLeft(t, p) then
          && shape == PaintAt(PaintAt(t1, pp, Black), pp + [L], Red)
          && Reaches(shape, pp + [L, L]) && n == Top(At(shape, pp + [L, L]), NIL)
          && (n == NIL ==> parent[NIL] == UpOf(shape, pp + [L, L], NULL))
        else
          && shape == PaintAt(PaintAt(t1, pp + [L, L], Black), Parent(pp), Red)
          && At(shape, pp).Node? && n == At(shape, pp).handle
      modifies this
      ensures Valid() && next == old(next)
      ensures shape == RedBlackSpec.RedSiblingStep(t, p, deletedColor).tree
      ensures halt == RedBlackSpec.RedSiblingStep(t, p, deletedColor).halt
      ensures parent[NIL] == old(parent[NIL]) || parent[NIL] in Handles(shape)
      ensures Handles(shape) == Handles(old(shape))
      decreases RedBlackSpec.Outside(t, p), Size(At(t, RedBlackSpec.SiblingPath(t, p))), 0
    {
      ghost var pp := Parent(p);
      ghost var q := if RedBlackSpec.SeenLeft(t, p) then pp + [L, L] else pp;
      assert Reaches(shape, q) && n == Top(At(shape, q), NIL) && (n == NIL ==> parent[NIL] == UpOf(shape, q, NULL))
        && RedBlackSpec.Outside(shape, q) <= RedBlackSpec.Outside(t, p)
        && (RedBlackSpec.Outside(shape, q) == RedBlackSpec.Outside(t, p) ==>
          Size(At(shape, RedBlackSpec.SiblingPath(shape, q))) < Size(At(t, RedBlackSpec.SiblingPath(t, p)))) by {
        if RedBlackSpec.SeenLeft(t, p) {
          RedBlackSpec.RedSiblingRight(t, p);
        } else {
          RedBlackSpec.RedSiblingLeft(t, p);
          NodeReaches(shape, pp);
          EntryBelow(pp, []);
        }
      }
      halt := BalanceDeletion(n, deletedColor, q);
    }

    /**
     * The recolouring branch of `balanceDeletion` for a black sibling with
     * black children: the sibling turns red, then `RecolourParent`.
     */
    method RecolourSibling(n: Ref, sibling: Ref, deletedColor: Color, ghost p: Path) returns (halt: RedBlackSpec.Halt)
      requires Valid() && Reaches(shape, p) && p != [] && n == Top(At(shape, p), NIL)
      requires n == NIL ==> parent[NIL] == UpOf(shape, p, NULL)
      requires ColorOf(At(shape, p)) == Black && deletedColor == Black
      requires var s := At(shape, RedBlackSpec.SiblingPath(shape, p));
        s.Node? && s.handle == sibling && s.color == Black && ColorOf(s.left) == Black && ColorOf(s.right) == Black
      modifies this
      ensures Valid() && next == old(next)
      ensures shape == RedBlackSpec.BlackSiblingStep(old(shape), p).tree
      ensures halt == RedBlackSpec.BlackSiblingStep(old(shape), p).halt
      ensures parent[NIL] == old(parent[NIL]) || parent[NIL] in Handles(shape)
      ensures Handles(shape) == Handles(old(shape))
      decreases RedBlackSpec.Outside(shape, p), 0, 1
    {
      ghost var t := shape;
      ghost var pp := Parent(p);
      ghost var sp := RedBlackSpec.SiblingPath(shape, p);
      assert Reaches(t, sp) && n in parent && parent[n] == At(t, pp).handle && parent[n] > 0
        && parent[n] != sibling && parent[n] in parent && (pp == [] <==> parent[parent[n]] == NULL)
        && parent[n] in color && color[parent[n]] == At(t, pp).color && sibling > 0 by {
        SiblingLinks(n, p);
        Entry(pp);
        Entry(sp);
        NodeReaches(t, sp);
        UniqueFrame(t, pp);
        assert sp == pp + [Last(sp)];
        Steps(t, pp, Last(sp));
        assert sibling in Handles(At(t, pp).left) || sibling in Handles(At(t, pp).right);
      }
      PaintKeeps(t, sp, Red);
      SetColor(sibling, Red, sp);
      halt := RecolourParent(n, p, t);
    }

    /**
     * The rest of the recolouring branch, once the sibling of n (at p in
     * tree t) is red: a red parent turns black, and a black parent below the
     * root is balanced in turn.
     */
    method RecolourParent(n: Ref, ghost p: Path, ghost t: Tree<Ref>) returns (halt: RedBlackSpec.Halt)
      requires t.Node? && Reaches(t, p) && p != [] && Unique(t)
      requires var s := At(t, RedBlackSpec.SiblingPath(t, p));
        s.Node? && s.color == Black && ColorOf(s.left) == Black && ColorOf(s.right) == Black
      requires Valid() && shape == PaintAt(t, RedBlackSpec.SiblingPath(t, p), Red)
      requires At(t, Parent(p)).Node? && n in parent && parent[n] == At(t, Parent(p)).handle && parent[n] > 0
      requires parent[n] in parent && (Parent(p) == [] <==> parent[parent[n]] == NULL)
      requires parent[n] in color && color[parent[n]] == At(t, Parent(p)).color
      modifies this
      ensures Valid() && next == old(next)
      ensures shape == RedBlackSpec.BlackSiblingStep(t, p).tree
      ensures halt == RedBlackSpec.BlackSiblingStep(t, p).halt
      ensures parent[NIL] == old(parent[NIL]) || parent[NIL] in Handles(shape)
      ensures Handles(shape) == Handles(old(shape))
      decreases RedBlackSpec.Outside(t, p), 0, 0
    {
      ghost var pp := Parent(p);
      ghost var sp := RedBlackSpec.SiblingPath(t, p);
      assert Reaches(shape, pp) && parent[n] == Top(At(shape, pp), NIL) by {
        ReachesParent(t, p);
        PaintRecolours(t, sp, Red);
        SameHandle(t, shape, pp);
        NodeReaches(shape, pp);
      }
      if color[parent[n]] == Red {
        PaintKeeps(shape, pp, Black);
        SetColor(parent[n], Black, pp);
        halt := RedBlackSpec.Finished;
      } else if parent[parent[n]] != NULL {
        assert RedBlackSpec.Outside(shape, pp) < RedBlackSpec.Outside(t, p) by {
          RedBlackSpec.DeletionMovesUp(t, p, sp, Red);
        }
        halt := BalanceDeletion(parent[n], color[parent[n]], pp);
      } else {
        halt := RedBlackSpec.Finished;
      }
    }

    /** `x.value = k` on the node x at q. */
    method SetValue(x: Ref, k: int, ghost q: Path)
      requires Valid() && At(shape, q).Node? && At(shape, q).handle == x
      modifies this
      ensures Valid() && shape == Put(old(shape), q, At(old(shape), q).(key := k)) && next == old(next)
      ensures F() == old(F()).(value := old(value)[x := k])
      ensures Handles(shape) == Handles(old(shape))
    {
      ValueWellformed(F(), shape, next, q, k);
      value := value[x := k];
      shape := Put(shape, q, At(shape, q).(key := k));
    }

    /**
     * The branch of `delete` for the node `toRemove` at q with at most one
     * real child: the child (or the sentinel) takes its place and is
     * balanced with the removed colour, unless `toRemove` is the only node.
     * Returns the replacer, from which `delete` looks for the root.
     */
    method RemoveNode(toRemove: Ref, ghost q: Path) returns (replacer: Ref, halt: RedBlackSpec.Halt)
      requires Valid() && At(shape, q).Node? && At(shape, q).handle == toRemove
      requires At(shape, q).left.Nil? || At(shape, q).right.Nil?
      modifies this
      ensures Valid() && next == old(next)
      ensures shape == RedBlackSpec.RemoveNode(old(shape), q).tree
      ensures halt == RedBlackSpec.RemoveNode(old(shape), q).halt
      ensures replacer == Top(if At(old(shape), q).left.Nil? then At(old(shape), q).right else At(old(shape), q).left, NIL)
      ensures halt != RedBlackSpec.BrokenLinks ==>
        forall h :: h in Handles(old(shape)) && h != toRemove ==> h in Handles(shape)
      ensures halt != RedBlackSpec.BrokenLinks && replacer != NIL ==> replacer in Handles(shape)
      ensures halt != RedBlackSpec.BrokenLinks && replacer == NIL && q != [] ==> parent[NIL] in Handles(shape)
    {
      ghost var t := shape;
      ghost var z := At(shape, q);
      ghost var s := if z.left.Nil? then z.right else z.left;
      Entry(q);
      replacer := if left[toRemove] == NIL then right[toRemove] else left[toRemove];
      halt := RedBlackSpec.Finished;
      if replacer != NIL || parent[toRemove] != NULL {
        ghost var t1 := Put(t, q, s);
        assert t1.Node? && Reaches(t1, q) && At(t1, q) == s && UpOf(t1, q, NULL) == UpOf(t, q, NULL) by {
          NodeReaches(t, q);
          PutAt(t, q, s);
          ReachesPutSame(t, q, s);
          if q != [] {
            ParentAfterPut(t, q, s);
          }
        }
        Transplant(toRemove, replacer, q, s);
        halt := BalanceDeletion(replacer, color[toRemove], q);
        assert RedBlackSpec.RemoveNode(t, q) == RedBlackSpec.Outcome(shape, halt);
      }
      RemoveNodeHandles(t, q);
    }

    /**
     * The branch of `delete` for the node `toRemove` at q with two real
     * children: copy the successor's value into it, then call `delete` on the
     * successor for that value.
     */
    method RemoveSuccessor(toRemove: Ref, ghost q: Path) returns (halt: RedBlackSpec.Halt)
      requires Valid() && At(shape, q).Node? && At(shape, q).handle == toRemove
      requires At(shape, q).left.Node? && At(shape, q).right.Node?
      modifies this
      ensures Valid() && next == old(next)
      ensures shape == RedBlackSpec.RemoveSuccessor(old(shape), q).tree
      ensures halt == RedBlackSpec.RemoveSuccessor(old(shape), q).halt
      ensures var sq := q + BinarySearchTree.Successor(At(old(shape), q));
        Reaches(old(shape), sq) && At(old(shape), sq).Node? &&
        (halt != RedBlackSpec.BrokenLinks ==>
          forall h :: h in Handles(old(shape)) && h != At(old(shape), sq).handle ==> h in Handles(shape))
      decreases 1, 0
    {
      ghost var t := shape;
      ghost var z := At(shape, q);
      ghost var sq := q + BinarySearchTree.Successor(z);
      EntryBelow(q, BinarySearchTree.Successor(z));
      NodeReaches(t, sq);
      var childToDelete := SuccessorNode(toRemove, q);
      SetValue(toRemove, value[childToDelete], q);
      NodeReaches(t, q);
      AtPutBelow(t, q, BinarySearchTree.Successor(z), z.(key := At(t, sq).key));
      Entry(sq);
      RedBlackSpec.DeleteAtNode(shape, sq);
      var _, h := Delete(childToDelete, value[childToDelete], sq);
      halt := h;
    }

    /**
     * `delete(k)` called on node n at p0: the heap ends up holding the tree
     * `RedBlackSpec.Delete` computes, and the handle returned is the root
     * reached from the replacer (n itself when no node was removed
     * directly). When the lone node of the tree holds k, nothing is removed
     * and the walk starts at the sentinel.
     */
    method Delete(n: Ref, k: int, ghost p0: Path) returns (root: Ref, halt: RedBlackSpec.Halt)
      requires Valid() && At(shape, p0).Node? && At(shape, p0).handle == n
      modifies this
      ensures Valid() && next == old(next)
      ensures shape == RedBlackSpec.Delete(old(shape), p0, k).tree
      ensures halt == RedBlackSpec.Delete(old(shape), p0, k).halt
      ensures halt == RedBlackSpec.Finished && !(p0 == [] && old(shape).left.Nil? && old(shape).right.Nil? && old(shape).key == k)
        ==> root == shape.handle
      ensures p0 == [] && old(shape).left.Nil? && old(shape).right.Nil? && old(shape).key == k
        ==> shape == old(shape) && root == GetRoot(NIL, next)
      ensures var d := RedBlackSpec.RemovedPath(old(shape), p0, k);
        halt != RedBlackSpec.BrokenLinks ==>
          forall h :: h in Handles(old(shape)) && h != At(old(shape), d).handle ==> h in Handles(shape)
      decreases if RedBlackSpec.RemovesSuccessor(shape, p0, k) then 1 else 0, 1
    {
      ghost var t := shape;
      ghost var q := p0 + BinarySearchTree.Find(At(shape, p0), k);
      EntryBelow(p0, BinarySearchTree.Find(At(shape, p0), k));
      HandleAt(shape, p0);
      var toRemove := LookUpNode(n, k, p0);
      var replacer := n;
      halt := RedBlackSpec.Finished;
      if toRemove != NULL {
        Entry(q);
        if left[toRemove] == NIL || right[toRemove] == NIL {
          replacer, halt := RemoveNode(toRemove, q);
          HandleAt(t, q);
          if q == [] {
            assert p0 == [] && At(t, q) == t;
          }
        } else {
          halt := RemoveSuccessor(toRemove, q);
          ghost var sq := q + BinarySearchTree.Successor(At(t, q));
          if n == At(t, sq).handle {
            UniquePosition(t, p0, sq);
          }
        }
      }
      if halt == RedBlackSpec.Finished {
        if replacer != NIL {
          GetRootOfNode(replacer);
        } else if q != [] {
          GetRootOfSentinel();
        }
        root := GetRoot(replacer, next);
      } else {
        root := NULL;
      }
    }
  }
}
