/**
 * Heaps of tree nodes held in an arena: five maps from handles to a node's
 * value, colour, left child, right child and parent. `Linked` ties such a heap
 * to a pure `Tree` (its shape): every node of the shape has exactly the links
 * and colour the shape gives it. Real nodes have positive handles; a missing
 * child is a distinguished `leaf` handle (the sentinel, or `NULL`).
 */
module Arenas {
  import opened Trees

  type Ref = int

  /** Java's `null`. */
  const NULL: Ref := -1

  datatype Fields = Fields(
    value: map<Ref, int>,
    color: map<Ref, Color>,
    left: map<Ref, Ref>,
    right: map<Ref, Ref>,
    parent: map<Ref, Ref>)

  /** The handle at the root of a subtree, `leaf` for an empty one. */
  function Top(t: Tree<Ref>, leaf: Ref): Ref
  {
    if t.Nil? then leaf else t.handle
  }

  /** The parent handle of position p, `up` for the root position. */
  function UpOf(t: Tree<Ref>, p: Path, up: Ref): Ref
  {
    if p == [] then up else Top(At(t, Parent(p)), NULL)
  }

  function ChildLink(f: Fields, h: Ref, d: Dir): Ref
    requires h in f.left && h in f.right
  {
    if d == L then f.left[h] else f.right[h]
  }

  /** The heap entry of handle h is the node (c, k) with the given links. */
  ghost predicate NodeHas(f: Fields, h: Ref, c: Color, k: int, l: Ref, r: Ref, up: Ref)
  {
    && h > 0
    && h in f.color && f.color[h] == c
    && h in f.left && f.left[h] == l
    && h in f.right && f.right[h] == r
    && h in f.parent && f.parent[h] == up
    && (h in f.value ==> f.value[h] == k)
  }

  /** The heap holds tree t below a node whose handle is `up`. */
  ghost predicate Linked(f: Fields, t: Tree<Ref>, up: Ref, leaf: Ref)
  {
    match t
    case Nil => true
    case Node(h, c, k, l, r) =>
      NodeHas(f, h, c, k, Top(l, leaf), Top(r, leaf), up) && Linked(f, l, h, leaf) && Linked(f, r, h, leaf)
  }

  /** Handle h has the same heap entry in f and in g. */
  ghost predicate SameNode(f: Fields, g: Fields, h: Ref)
  {
    && (h in f.value <==> h in g.value) && (h in f.value ==> f.value[h] == g.value[h])
    && (h in f.color <==> h in g.color) && (h in f.color ==> f.color[h] == g.color[h])
    && (h in f.left <==> h in g.left) && (h in f.left ==> f.left[h] == g.left[h])
    && (h in f.right <==> h in g.right) && (h in f.right ==> f.right[h] == g.right[h])
    && (h in f.parent <==> h in g.parent) && (h in f.parent ==> f.parent[h] == g.parent[h])
  }

  /** Handle h has the same heap entry in f and in g, except for its d-side child link. */
  ghost predicate SameButChild(f: Fields, g: Fields, h: Ref, d: Dir)
  {
    && (h in f.value <==> h in g.value) && (h in f.value ==> f.value[h] == g.value[h])
    && (h in f.color <==> h in g.color) && (h in f.color ==> f.color[h] == g.color[h])
    && (h in f.parent <==> h in g.parent) && (h in f.parent ==> f.parent[h] == g.parent[h])
    && h in g.left && h in g.right
    && (d == R ==> h in f.left && f.left[h] == g.left[h])
    && (d == L ==> h in f.right && f.right[h] == g.right[h])
  }

  lemma {:induction false} LinkedFrame(f: Fields, g: Fields, t: Tree<Ref>, up: Ref, leaf: Ref)
    requires Linked(f, t, up, leaf)
    requires forall h :: h in Handles(t) ==> SameNode(f, g, h)
    ensures Linked(g, t, up, leaf)
  {
    match t
    case Nil =>
    case Node(h, c, k, l, r) =>
      assert h in Handles(t) && SameNode(f, g, h);
      LinkedFrame(f, g, l, h, leaf);
      LinkedFrame(f, g, r, h, leaf);
  }

  /** Moving a subtree under a new parent only needs its root's parent link changed. */
  lemma LinkedReparent(f: Fields, g: Fields, t: Tree<Ref>, up: Ref, up': Ref, leaf: Ref)
    requires t.Node? && Unique(t) && Linked(f, t, up, leaf)
    requires forall h :: h in Handles(t) && h != t.handle ==> SameNode(f, g, h)
    requires NodeHas(g, t.handle, t.color, t.key, Top(t.left, leaf), Top(t.right, leaf), up')
    ensures Linked(g, t, up', leaf)
  {
    LinkedFrame(f, g, t.left, t.handle, leaf);
    LinkedFrame(f, g, t.right, t.handle, leaf);
  }

  /** The subtree at any existing position is linked below its parent. */
  lemma {:induction false} LinkedAt(f: Fields, t: Tree<Ref>, up: Ref, leaf: Ref, p: Path)
    requires Linked(f, t, up, leaf) && Reaches(t, p)
    ensures Linked(f, At(t, p), UpOf(t, p, up), leaf)
    decreases |p|
  {
    if p != [] {
      var c := Child(t, p[0]);
      LinkedAt(f, c, t.handle, leaf, p[1..]);
      if p[1..] == [] {
        assert Parent(p) == [];
      } else {
        assert Parent(p) == [p[0]] + Parent(p[1..]);
      }
    }
  }

  /** The heap entry of the node at position p. */
  lemma LinkedNode(f: Fields, t: Tree<Ref>, up: Ref, leaf: Ref, p: Path)
    requires Linked(f, t, up, leaf) && At(t, p).Node?
    ensures var n := At(t, p);
      NodeHas(f, n.handle, n.color, n.key, Top(n.left, leaf), Top(n.right, leaf), UpOf(t, p, up))
    ensures Top(At(t, p + [L]), leaf) == Top(At(t, p).left, leaf)
    ensures Top(At(t, p + [R]), leaf) == Top(At(t, p).right, leaf)
  {
    NodeReaches(t, p);
    LinkedAt(f, t, up, leaf, p);
    AtChild(t, p, L);
    AtChild(t, p, R);
  }

  lemma PutFrame(t: Tree<Ref>, p: Path)
    requires t.Node? && p != []
    ensures Handles(Put(t, p, Nil)) ==
      {t.handle} + Handles(Put(Child(t, p[0]), p[1..], Nil)) + Handles(Child(t, Other(p[0])))
  {
  }

  /** Where the parent of a position lies, relative to the root's two subtrees. */
  lemma ParentOnPath(t: Tree<Ref>, p: Path, up: Ref)
    requires Unique(t) && Reaches(t, p) && p != []
    ensures |p| == 1 ==> UpOf(t, p, up) == t.handle && Last(p) == p[0]
    ensures |p| > 1 ==>
      && UpOf(t, p, up) == UpOf(Child(t, p[0]), p[1..], t.handle)
      && Last(p) == Last(p[1..])
      && UpOf(t, p, up) in Handles(Child(t, p[0]))
      && UpOf(t, p, up) != t.handle
      && UpOf(t, p, up) !in Handles(Child(t, Other(p[0])))
  {
    ReachesParent(t, p);
    if |p| == 1 {
      assert Parent(p) == [];
    } else {
      assert Parent(p) == [p[0]] + Parent(p[1..]);
      HandleAt(t, Parent(p));
    }
  }

  /**
   * Local rewriting: when the heap changes only inside the subtree at p and in
   * the child link that leads to it, and the new subtree s is linked there,
   * the heap holds the tree with s in place.
   */
  lemma {:induction false} LinkedPut(f: Fields, g: Fields, t: Tree<Ref>, up: Ref, leaf: Ref, p: Path, s: Tree<Ref>)
    requires Unique(t) && Reaches(t, p) && Linked(f, t, up, leaf)
    requires forall h :: h in Handles(Put(t, p, Nil)) && (p == [] || h != UpOf(t, p, up)) ==> SameNode(f, g, h)
    requires p != [] ==>
      SameButChild(f, g, UpOf(t, p, up), Last(p)) && ChildLink(g, UpOf(t, p, up), Last(p)) == Top(s, leaf)
    requires Linked(g, s, UpOf(t, p, up), leaf)
    ensures Linked(g, Put(t, p, s), up, leaf)
    decreases |p|
  {
    if p != [] {
      var d := p[0];
      var c := Child(t, d);
      var o := Child(t, Other(d));
      var c' := Put(c, p[1..], s);
      assert Put(t, p, s) == if d == L then Node(t.handle, t.color, t.key, c', o) else Node(t.handle, t.color, t.key, o, c');
      PutFrame(t, p);
      ParentOnPath(t, p, up);
      LinkedFrame(f, g, o, t.handle, leaf);
      if |p| == 1 {
        assert c' == s;
      } else {
        LinkedPutBelow(f, g, t, up, leaf, p, s);
      }
    }
  }

  lemma LinkedPutBelow(f: Fields, g: Fields, t: Tree<Ref>, up: Ref, leaf: Ref, p: Path, s: Tree<Ref>)
    requires Unique(t) && Reaches(t, p) && Linked(f, t, up, leaf) && |p| > 1
    requires forall h :: h in Handles(Put(t, p, Nil)) && h != UpOf(t, p, up) ==> SameNode(f, g, h)
    requires SameButChild(f, g, UpOf(t, p, up), Last(p)) && ChildLink(g, UpOf(t, p, up), Last(p)) == Top(s, leaf)
    requires Linked(g, s, UpOf(t, p, up), leaf)
    ensures Linked(g, Put(Child(t, p[0]), p[1..], s), t.handle, leaf)
    ensures SameNode(f, g, t.handle)
    ensures Top(Put(Child(t, p[0]), p[1..], s), leaf) == Top(Child(t, p[0]), leaf)
    decreases |p|, 0
  {
    PutFrame(t, p);
    ParentOnPath(t, p, up);
    UniqueFrame(t, [p[0]]);
    var c := Child(t, p[0]);
    assert Handles(Put(c, p[1..], Nil)) <= Handles(Put(t, p, Nil));
    LinkedPut(f, g, c, t.handle, leaf, p[1..], s);
  }

  // ---------------------------------------------------------------------
  // Rotations on the heap
  // ---------------------------------------------------------------------

  /** The entries a rotation of x that lifts its d-side child reads are present. */
  ghost predicate CanRotate(f: Fields, x: Ref, d: Dir)
  {
    && x in f.left && x in f.right && x in f.parent
    && ChildLink(f, x, d) in f.left && ChildLink(f, x, d) in f.right
    && (f.parent[x] != NULL ==> f.parent[x] in f.left && f.parent[x] in f.right)
  }

  /**
   * The heap after the writes of a left rotation of x (`rotateLeft`): x's
   * right child y takes x's place, y's left child b becomes x's right child
   * (and, when b is not `null`, b's parent becomes x), and x's former parent
   * is relinked to y.
   */
  function RotateLeftFields(f: Fields, x: Ref): Fields
    requires CanRotate(f, x, R)
  {
    var y := f.right[x];
    var up := f.parent[x];
    var b := f.left[y];
    var right1 := f.right[x := b];
    var parent1 := if b != NULL then f.parent[b := x] else f.parent;
    var left1 := f.left[y := x];
    var parent2 := parent1[x := y][y := up];
    if up == NULL then Fields(f.value, f.color, left1, right1, parent2)
    else if left1[up] == x then Fields(f.value, f.color, left1[up := y], right1, parent2)
    else Fields(f.value, f.color, left1, right1[up := y], parent2)
  }

  /** The mirror image of `RotateLeftFields` (`rotateRight`). */
  function RotateRightFields(f: Fields, x: Ref): Fields
    requires CanRotate(f, x, L)
  {
    var y := f.left[x];
    var up := f.parent[x];
    var b := f.right[y];
    var left1 := f.left[x := b];
    var parent1 := if b != NULL then f.parent[b := x] else f.parent;
    var right1 := f.right[y := x];
    var parent2 := parent1[x := y][y := up];
    if up == NULL then Fields(f.value, f.color, left1, right1, parent2)
    else if left1[up] == x then Fields(f.value, f.color, left1[up := y], right1, parent2)
    else Fields(f.value, f.color, left1, right1[up := y], parent2)
  }

  /** The tree's own shape: linked below `NULL`, sentinel or `null` leaves, positive handles. */
  ghost predicate Holds(f: Fields, t: Tree<Ref>, leaf: Ref)
  {
    Unique(t) && Linked(f, t, NULL, leaf) && leaf <= 0
  }

  /** The child link of the parent of position p leads to p. */
  lemma ParentLink(f: Fields, t: Tree<Ref>, leaf: Ref, p: Path)
    requires Holds(f, t, leaf) && At(t, p).Node? && p != []
    ensures var up := UpOf(t, p, NULL);
      up > 0 && up in f.left && up in f.right
      && (f.left[up] == At(t, p).handle <==> Last(p) == L)
      && ChildLink(f, up, Last(p)) == At(t, p).handle
  {
    NodeReaches(t, p);
    ReachesParent(t, p);
    NodeReaches(t, Parent(p));
    assert p == Parent(p) + [Last(p)];
    var pn := At(t, Parent(p));
    LinkedNode(f, t, NULL, leaf, Parent(p));
    LinkedNode(f, t, NULL, leaf, p);
    AtChild(t, Parent(p), Last(p));
    UniqueFrame(t, Parent(p));
    if Last(p) == R && pn.left.Node? {
      assert pn.left.handle in Handles(pn.left);
    }
  }

  /** Every node of a linked tree has a positive handle and a complete heap entry. */
  lemma {:induction false} LinkedHandles(f: Fields, t: Tree<Ref>, up: Ref, leaf: Ref)
    requires Linked(f, t, up, leaf)
    ensures forall h :: h in Handles(t) ==>
      h > 0 && h in f.color && h in f.left && h in f.right && h in f.parent
  {
    match t
    case Nil =>
    case Node(h, c, k, l, r) =>
      LinkedHandles(f, l, h, leaf);
      LinkedHandles(f, r, h, leaf);
  }

  /** Away from x, its lifted child and its parent, a rotation changes no child link. */
  lemma RotateFieldsElsewhere(f: Fields, x: Ref, d: Dir, h: Ref)
    requires CanRotate(f, x, d)
    requires h != x && h != ChildLink(f, x, d) && h != f.parent[x]
    ensures var g := if d == R then RotateLeftFields(f, x) else RotateRightFields(f, x);
      && g.value == f.value && g.color == f.color
      && (h in f.left ==> h in g.left && g.left[h] == f.left[h])
      && (h in f.right ==> h in g.right && g.right[h] == f.right[h])
      && (h in f.parent ==> h in g.parent)
  {
  }

  /** Unique handles of a node with two subtrees below it, spelled out. */
  lemma Distinct3(x: Tree<Ref>)
    requires x.Node? && Unique(x)
    ensures x.handle !in Handles(x.left) && x.handle !in Handles(x.right)
    ensures Handles(x.left) !! Handles(x.right)
  {
  }

  /** Handle h has the same heap entry in f and in g, except for its parent link. */
  ghost predicate SameButParent(f: Fields, g: Fields, h: Ref)
  {
    && (h in f.value <==> h in g.value) && (h in f.value ==> f.value[h] == g.value[h])
    && (h in f.color <==> h in g.color) && (h in f.color ==> f.color[h] == g.color[h])
    && (h in f.left <==> h in g.left) && (h in f.left ==> f.left[h] == g.left[h])
    && (h in f.right <==> h in g.right) && (h in f.right ==> f.right[h] == g.right[h])
    && h in g.parent
  }

  /** Entry by entry, what a left rotation of x writes. */
  lemma RotateLeftEntries(f: Fields, x: Ref)
    requires CanRotate(f, x, R) && f.right[x] in f.parent
    requires var y, up, b := f.right[x], f.parent[x], f.left[f.right[x]];
      && x != y && up != x && up != y && b != x && b != y && (b != NULL ==> b != up)
      && (up != NULL ==> up in f.left && up in f.right)
    ensures var g, y, up, b := RotateLeftFields(f, x), f.right[x], f.parent[x], f.left[f.right[x]];
      && g.value == f.value && g.color == f.color
      && (forall h :: h != x && h != y && h != b && h != up ==> SameNode(f, g, h))
      && x in g.left && g.left[x] == f.left[x] && x in g.right && g.right[x] == b && x in g.parent && g.parent[x] == y
      && y in g.left && g.left[y] == x && y in g.right && g.right[y] == f.right[y] && y in g.parent && g.parent[y] == up
      && (b != NULL ==> SameButParent(f, g, b) && g.parent[b] == x)
      && (up != NULL ==> var d := if f.left[up] == x then L else R;
            SameButChild(f, g, up, d) && ChildLink(g, up, d) == y)
  {
  }

  /** Entry by entry, what a right rotation of x writes. */
  lemma RotateRightEntries(f: Fields, x: Ref)
    requires CanRotate(f, x, L) && f.left[x] in f.parent
    requires var y, up, b := f.left[x], f.parent[x], f.right[f.left[x]];
      && x != y && up != x && up != y && b != x && b != y && (b != NULL ==> b != up)
      && (up != NULL ==> up in f.left && up in f.right)
    ensures var g, y, up, b := RotateRightFields(f, x), f.left[x], f.parent[x], f.right[f.left[x]];
      && g.value == f.value && g.color == f.color
      && (forall h :: h != x && h != y && h != b && h != up ==> SameNode(f, g, h))
      && x in g.left && g.left[x] == b && x in g.right && g.right[x] == f.right[x] && x in g.parent && g.parent[x] == y
      && y in g.left && g.left[y] == f.left[y] && y in g.right && g.right[y] == x && y in g.parent && g.parent[y] == up
      && (b != NULL ==> SameButParent(f, g, b) && g.parent[b] == x)
      && (up != NULL ==> var d := if f.left[up] == x then L else R;
            SameButChild(f, g, up, d) && ChildLink(g, up, d) == y)
  {
  }

  /** The rotated subtree is linked in the rotated heap; nothing outside it changes. */
  lemma RotateLeftLocal(f: Fields, x: Tree<Ref>, up: Ref, leaf: Ref)
    requires Unique(x) && Linked(f, x, up, leaf) && x.Node? && x.right.Node? && leaf <= 0
    requires up !in Handles(x) && (up != NULL ==> up > 0 && up in f.left && up in f.right)
    ensures CanRotate(f, x.handle, R)
    ensures var g := RotateLeftFields(f, x.handle);
      && Linked(g, RotateLeft(x), up, leaf)
      && (forall h :: h !in Handles(x) && h != up && h != leaf ==> SameNode(f, g, h))
      && (up != NULL ==> var d := if f.left[up] == x.handle then L else R;
            SameButChild(f, g, up, d) && ChildLink(g, up, d) == x.right.handle)
  {
    var y := x.right;
    var a, b, c := x.left, y.left, y.right;
    assert NodeHas(f, y.handle, y.color, y.key, Top(b, leaf), Top(c, leaf), x.handle);
    LinkedHandles(f, x, up, leaf);
    assert y.handle !in Handles(b) && y.handle !in Handles(c) && Handles(b) !! Handles(c);
    assert Top(b, leaf) != x.handle && Top(b, leaf) != y.handle;
    RotateLeftEntries(f, x.handle);
    var g := RotateLeftFields(f, x.handle);
    forall h | h in Handles(a) + Handles(c) || (h in Handles(b) && h != b.handle) ensures SameNode(f, g, h) {
    }
    LinkedFrame(f, g, a, x.handle, leaf);
    LinkedFrame(f, g, c, y.handle, leaf);
    if b.Node? {
      LinkedReparent(f, g, b, y.handle, x.handle, leaf);
    }
    assert Linked(g, Node(x.handle, x.color, x.key, a, b), y.handle, leaf);
  }

  /** The mirror image of `RotateLeftLocal`. */
  lemma RotateRightLocal(f: Fields, x: Tree<Ref>, up: Ref, leaf: Ref)
    requires Unique(x) && Linked(f, x, up, leaf) && x.Node? && x.left.Node? && leaf <= 0
    requires up !in Handles(x) && (up != NULL ==> up > 0 && up in f.left && up in f.right)
    ensures CanRotate(f, x.handle, L)
    ensures var g := RotateRightFields(f, x.handle);
      && Linked(g, RotateRight(x), up, leaf)
      && (forall h :: h !in Handles(x) && h != up && h != leaf ==> SameNode(f, g, h))
      && (up != NULL ==> var d := if f.left[up] == x.handle then L else R;
            SameButChild(f, g, up, d) && ChildLink(g, up, d) == x.left.handle)
  {
    var y := x.left;
    var a, b, c := y.left, y.right, x.right;
    assert NodeHas(f, y.handle, y.color, y.key, Top(a, leaf), Top(b, leaf), x.handle);
    LinkedHandles(f, x, up, leaf);
    assert y.handle !in Handles(a) && y.handle !in Handles(b) && Handles(a) !! Handles(b);
    assert Top(b, leaf) != x.handle && Top(b, leaf) != y.handle;
    RotateRightEntries(f, x.handle);
    var g := RotateRightFields(f, x.handle);
    forall h | h in Handles(a) + Handles(c) || (h in Handles(b) && h != b.handle) ensures SameNode(f, g, h) {
    }
    LinkedFrame(f, g, a, y.handle, leaf);
    LinkedFrame(f, g, c, x.handle, leaf);
    if b.Node? {
      LinkedReparent(f, g, b, y.handle, x.handle, leaf);
    }
    assert Linked(g, Node(x.handle, x.color, x.key, b, c), y.handle, leaf);
  }

  /** The parent of a position lies outside the subtree there. */
  lemma {:induction false} UpInFrame(t: Tree<Ref>, p: Path, up: Ref)
    requires Unique(t) && Reaches(t, p) && p != []
    ensures UpOf(t, p, up) in Handles(Put(t, p, Nil))
    decreases |p|
  {
    PutFrame(t, p);
    ParentOnPath(t, p, up);
    if |p| > 1 {
      UpInFrame(Child(t, p[0]), p[1..], t.handle);
    }
  }

  /** What the subtree at p and its surroundings look like to a rewrite there. */
  lemma Surroundings(f: Fields, t: Tree<Ref>, leaf: Ref, p: Path)
    requires Holds(f, t, leaf) && At(t, p).Node?
    ensures Reaches(t, p) && Unique(At(t, p))
    ensures Linked(f, At(t, p), UpOf(t, p, NULL), leaf)
    ensures var up := UpOf(t, p, NULL);
      && up !in Handles(At(t, p))
      && (up != NULL ==> up > 0 && up in f.left && up in f.right)
      && (p == [] <==> up == NULL)
      && (p != [] ==> up in Handles(Put(t, p, Nil)))
    ensures Handles(Put(t, p, Nil)) !! Handles(At(t, p))
    ensures Handles(t) == Handles(Put(t, p, Nil)) + Handles(At(t, p))
    ensures forall h :: h in Handles(t) ==> h > 0
  {
    NodeReaches(t, p);
    LinkedAt(f, t, NULL, leaf, p);
    UniqueFrame(t, p);
    LinkedHandles(f, t, NULL, leaf);
    if p != [] {
      UpInFrame(t, p, NULL);
      ParentLink(f, t, leaf, p);
    }
  }

  /** A left rotation at p keeps the heap linked to the rotated shape. */
  lemma RotateLeftLinked(f: Fields, t: Tree<Ref>, leaf: Ref, p: Path)
    requires Holds(f, t, leaf) && At(t, p).Node? && At(t, p).right.Node?
    ensures CanRotate(f, At(t, p).handle, R)
    ensures var g := RotateLeftFields(f, At(t, p).handle);
      && Holds(g, RotateLeftAt(t, p), leaf)
      && (forall h :: h > 0 && h !in Handles(t) ==> SameNode(f, g, h))
  {
    var x := At(t, p);
    Surroundings(f, t, leaf, p);
    var up := UpOf(t, p, NULL);
    RotateLeftLocal(f, x, up, leaf);
    var g := RotateLeftFields(f, x.handle);
    if p != [] {
      ParentLink(f, t, leaf, p);
    }
    LinkedPut(f, g, t, NULL, leaf, p, RotateLeft(x));
    RotateAt(t, p);
  }

  /** A right rotation at p keeps the heap linked to the rotated shape. */
  lemma RotateRightLinked(f: Fields, t: Tree<Ref>, leaf: Ref, p: Path)
    requires Holds(f, t, leaf) && At(t, p).Node? && At(t, p).left.Node?
    ensures CanRotate(f, At(t, p).handle, L)
    ensures var g := RotateRightFields(f, At(t, p).handle);
      && Holds(g, RotateRightAt(t, p), leaf)
      && (forall h :: h > 0 && h !in Handles(t) ==> SameNode(f, g, h))
  {
    var x := At(t, p);
    Surroundings(f, t, leaf, p);
    var up := UpOf(t, p, NULL);
    RotateRightLocal(f, x, up, leaf);
    var g := RotateRightFields(f, x.handle);
    if p != [] {
      ParentLink(f, t, leaf, p);
    }
    LinkedPut(f, g, t, NULL, leaf, p, RotateRight(x));
    RotateAt(t, p);
  }

  // ---------------------------------------------------------------------
  // Recolouring, value copies, transplants and new leaves
  // ---------------------------------------------------------------------

  /**
   * Rewriting the colour and value entries of the node at q, and nothing
   * else, keeps the heap linked to the shape with that node relabelled.
   */
  lemma RelabelLinked(f: Fields, g: Fields, t: Tree<Ref>, leaf: Ref, q: Path, c: Color, k: int)
    requires Holds(f, t, leaf) && At(t, q).Node?
    requires g.left == f.left && g.right == f.right && g.parent == f.parent
    requires forall h :: h != At(t, q).handle ==> SameNode(f, g, h)
    requires At(t, q).handle in g.color && g.color[At(t, q).handle] == c
    requires At(t, q).handle in g.value ==> g.value[At(t, q).handle] == k
    ensures Holds(g, Put(t, q, At(t, q).(color := c, key := k)), leaf)
  {
    var n := At(t, q);
    var s := n.(color := c, key := k);
    Surroundings(f, t, leaf, q);
    var up := UpOf(t, q, NULL);
    LinkedNode(f, t, NULL, leaf, q);
    LinkedFrame(f, g, n.left, n.handle, leaf);
    LinkedFrame(f, g, n.right, n.handle, leaf);
    assert Linked(g, s, up, leaf);
    if q != [] {
      ParentLink(f, t, leaf, q);
      assert up != n.handle && SameNode(f, g, up);
    }
    LinkedPut(f, g, t, NULL, leaf, q, s);
    assert Handles(s) == Handles(n);
    UniqueReplace(t, q, s);
  }

  /** Painting the node at q with colour c. */
  lemma PaintLinked(f: Fields, t: Tree<Ref>, leaf: Ref, q: Path, c: Color)
    requires Holds(f, t, leaf) && At(t, q).Node?
    ensures Holds(f.(color := f.color[At(t, q).handle := c]), PaintAt(t, q, c), leaf)
  {
    var n := At(t, q);
    LinkedNode(f, t, NULL, leaf, q);
    RelabelLinked(f, f.(color := f.color[n.handle := c]), t, leaf, q, c, n.key);
    assert n.(color := c, key := n.key) == n.(color := c);
  }

  /** Copying value k into the node at q. */
  lemma ValueLinked(f: Fields, t: Tree<Ref>, leaf: Ref, q: Path, k: int)
    requires Holds(f, t, leaf) && At(t, q).Node?
    ensures Holds(f.(value := f.value[At(t, q).handle := k]), Put(t, q, At(t, q).(key := k)), leaf)
  {
    var n := At(t, q);
    LinkedNode(f, t, NULL, leaf, q);
    RelabelLinked(f, f.(value := f.value[n.handle := k]), t, leaf, q, n.color, k);
    assert n.(color := n.color, key := k) == n.(key := k);
  }

  /**
   * The writes of `transplant(u, v)`: u's parent (if any) takes v in place
   * of u as a child, and v's parent becomes u's parent.
   */
  function TransplantFields(f: Fields, u: Ref, v: Ref): Fields
    requires u in f.parent
    requires f.parent[u] != NULL ==> f.parent[u] in f.left && f.parent[u] in f.right
  {
    var up := f.parent[u];
    var f1 :=
      if up == NULL then f
      else if f.left[up] == u then f.(left := f.left[up := v])
      else f.(right := f.right[up := v]);
    f1.(parent := f1.parent[v := up])
  }

  /**
   * Transplanting a child subtree s of the node at q into its place keeps the
   * heap linked to the shape with the node removed.
   */
  lemma TransplantLinked(f: Fields, t: Tree<Ref>, leaf: Ref, q: Path, s: Tree<Ref>)
    requires Holds(f, t, leaf) && At(t, q).Node? && (s == At(t, q).left || s == At(t, q).right)
    ensures At(t, q).handle in f.parent
    ensures var up := f.parent[At(t, q).handle];
      up == UpOf(t, q, NULL) && (up != NULL ==> up in f.left && up in f.right)
    ensures Holds(TransplantFields(f, At(t, q).handle, Top(s, leaf)), Put(t, q, s), leaf)
  {
    var n := At(t, q);
    Surroundings(f, t, leaf, q);
    LinkedNode(f, t, NULL, leaf, q);
    var up := UpOf(t, q, NULL);
    var v := Top(s, leaf);
    var g := TransplantFields(f, n.handle, v);
    assert Unique(n);
    assert Handles(s) <= Handles(n) && n.handle !in Handles(s);
    LinkedHandles(f, t, NULL, leaf);
    if q != [] {
      ParentLink(f, t, leaf, q);
      assert v != up;
      if Last(q) == L {
        assert g.left == f.left[up := v] && g.right == f.right;
      } else {
        assert g.left == f.left && g.right == f.right[up := v];
      }
      assert SameButChild(f, g, up, Last(q));
    }
    forall h | h != up && h != v ensures SameNode(f, g, h) {
    }
    if s.Node? {
      assert Linked(f, s, n.handle, leaf);
      forall h | h in Handles(s) && h != s.handle ensures SameNode(f, g, h) {
      }
      LinkedReparent(f, g, s, n.handle, up, leaf);
    }
    LinkedPut(f, g, t, NULL, leaf, q, s);
    UniqueFrame(t, q);
    UniquePut(t, q, s);
  }

  /**
   * The writes of linking a new red leaf n holding k below u on side d (the
   * constructor `RedBlackTree(value, parent)` and the assignment of the
   * parent's child link).
   */
  function LinkLeafFields(f: Fields, u: Ref, d: Dir, n: Ref, k: int, leaf: Ref): Fields
  {
    Fields(
      f.value[n := k],
      f.color[n := Red],
      if d == L then f.left[n := leaf][u := n] else f.left[n := leaf],
      if d == R then f.right[n := leaf][u := n] else f.right[n := leaf],
      f.parent[n := u])
  }

  /** Linking a new leaf with a fresh handle where the shape has an empty child. */
  lemma LinkLeafLinked(f: Fields, t: Tree<Ref>, leaf: Ref, q: Path, d: Dir, n: Ref, k: int)
    requires Holds(f, t, leaf) && At(t, q).Node? && Child(At(t, q), d).Nil?
    requires n > 0 && n !in Handles(t)
    ensures Holds(LinkLeafFields(f, At(t, q).handle, d, n, k, leaf), Put(t, q + [d], Node(n, Red, k, Nil, Nil)), leaf)
  {
    var u := At(t, q);
    var g := LinkLeafFields(f, u.handle, d, n, k, leaf);
    var s := Node(n, Red, k, Nil, Nil);
    var p := q + [d];
    Surroundings(f, t, leaf, q);
    LinkedNode(f, t, NULL, leaf, q);
    LinkedHandles(f, t, NULL, leaf);
    Steps(t, q, d);
    assert Parent(p) == q && Last(p) == d;
    assert UpOf(t, p, NULL) == u.handle;
    assert At(t, p).Nil?;
    UniqueFrame(t, p);
    assert Handles(Put(t, p, Nil)) == Handles(t) by {
      PutSelf(t, p);
    }
    forall h | h != u.handle && h != n ensures SameNode(f, g, h) {
    }
    LinkedPut(f, g, t, NULL, leaf, p, s);
    UniquePut(t, p, s);
  }
}
