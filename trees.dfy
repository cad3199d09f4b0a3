/**
 * Pure coloured binary trees: the abstraction that the heap models of the
 * red-black tree and of the binary search tree are proved against.
 *
 * A position in a tree is a path of left/right steps from the root. A `Nil`
 * subtree stands for Java's `null` child and for the shared sentinel leaf
 * alike: which of the two it is, is decided by the heap model.
 */
module Trees {

  datatype Color = Red | Black

  datatype Dir = L | R

  type Path = seq<Dir>

  datatype Option<T> = None | Some(value: T)

  /** A node carries the handle naming it in a heap, its colour and its key. */
  datatype Tree<H> = Nil | Node(handle: H, color: Color, key: int, left: Tree<H>, right: Tree<H>)

  /** Colour of a subtree's root; an empty subtree (the sentinel) is black. */
  function ColorOf<H>(t: Tree<H>): Color
  {
    if t.Nil? then Black else t.color
  }

  function Child<H>(t: Tree<H>, d: Dir): Tree<H>
  {
    match t
    case Nil => Nil
    case Node(_, _, _, l, r) => if d == L then l else r
  }

  function Other(d: Dir): Dir
  {
    if d == L then R else L
  }

  function Parent(p: Path): Path
    requires p != []
  {
    p[..|p| - 1]
  }

  function Last(p: Path): Dir
    requires p != []
  {
    p[|p| - 1]
  }

  /** The subtree at position p (Nil once the path leaves the tree). */
  function At<H>(t: Tree<H>, p: Path): Tree<H>
    decreases |p|
  {
    if p == [] || t.Nil? then t else At(Child(t, p[0]), p[1..])
  }

  /** Position p exists: every step before the last one leaves a node. */
  predicate Reaches<H>(t: Tree<H>, p: Path)
    decreases |p|
  {
    p == [] || (t.Node? && Reaches(Child(t, p[0]), p[1..]))
  }

  /** t with the subtree at position p replaced by s. */
  function Put<H>(t: Tree<H>, p: Path, s: Tree<H>): Tree<H>
    decreases |p|
  {
    if p == [] then s
    else match t
      case Nil => Nil
      case Node(h, c, k, l, r) =>
        if p[0] == L then Node(h, c, k, Put(l, p[1..], s), r)
        else Node(h, c, k, l, Put(r, p[1..], s))
  }

  // ---------------------------------------------------------------------
  // Path algebra
  // ---------------------------------------------------------------------

  lemma {:induction false} AtAppend<H>(t: Tree<H>, p: Path, q: Path)
    ensures At(t, p + q) == At(At(t, p), q)
    decreases |p|
  {
    if p == [] {
      assert p + q == q;
    } else if t.Nil? {
      NilAt<H>(q);
      NilAt<H>(p + q);
    } else {
      assert (p + q)[0] == p[0];
      assert (p + q)[1..] == p[1..] + q;
      AtAppend(Child(t, p[0]), p[1..], q);
    }
  }

  lemma NilAt<H>(q: Path)
    ensures At(Tree<H>.Nil, q) == Tree<H>.Nil
  {
  }

  lemma AtChild<H>(t: Tree<H>, p: Path, d: Dir)
    ensures At(t, p + [d]) == Child(At(t, p), d)
  {
    AtAppend(t, p, [d]);
  }

  lemma {:induction false} NodeReaches<H>(t: Tree<H>, p: Path)
    requires At(t, p).Node?
    ensures Reaches(t, p)
    decreases |p|
  {
    if p != [] {
      NodeReaches(Child(t, p[0]), p[1..]);
    }
  }

  lemma {:induction false} ReachesChild<H>(t: Tree<H>, p: Path, d: Dir)
    ensures Reaches(t, p + [d]) <==> At(t, p).Node?
    decreases |p|
  {
    if p == [] {
      assert ([d])[1..] == [];
    } else if t.Nil? {
      NilAt<H>(p);
    } else {
      assert (p + [d])[0] == p[0];
      assert (p + [d])[1..] == p[1..] + [d];
      ReachesChild(Child(t, p[0]), p[1..], d);
    }
  }

  lemma {:induction false} ReachesParent<H>(t: Tree<H>, p: Path)
    requires Reaches(t, p) && p != []
    ensures At(t, Parent(p)).Node?
  {
    assert p == Parent(p) + [Last(p)];
    ReachesChild(t, Parent(p), Last(p));
  }

  /** A child position of a node. */
  lemma Steps<H>(t: Tree<H>, p: Path, d: Dir)
    requires Reaches(t, p + [d]) || At(t, p).Node?
    ensures At(t, p).Node? && Reaches(t, p)
    ensures At(t, p + [d]) == Child(At(t, p), d)
    ensures At(t, p + [Other(d)]) == Child(At(t, p), Other(d))
    ensures Reaches(t, p + [d]) && Reaches(t, p + [Other(d)])
  {
    ReachesChild(t, p, d);
    ReachesChild(t, p, Other(d));
    NodeReaches(t, p);
    AtChild(t, p, d);
    AtChild(t, p, Other(d));
  }

  lemma {:induction false} PutAt<H>(t: Tree<H>, p: Path, s: Tree<H>)
    requires Reaches(t, p)
    ensures At(Put(t, p, s), p) == s
    decreases |p|
  {
    if p != [] {
      PutAt(Child(t, p[0]), p[1..], s);
    }
  }

  /** Replacing one child of a node. */
  lemma PutChild<H>(t: Tree<H>, d: Dir, s: Tree<H>)
    requires t.Node?
    ensures Put(t, [d], s) == if d == L then t.(left := s) else t.(right := s)
  {
    assert [d][1..] == [];
  }

  lemma {:induction false} PutSelf<H>(t: Tree<H>, p: Path)
    ensures Put(t, p, At(t, p)) == t
    decreases |p|
  {
    if p != [] && t.Node? {
      PutSelf(Child(t, p[0]), p[1..]);
    }
  }

  lemma {:induction false} PutPut<H>(t: Tree<H>, p: Path, s1: Tree<H>, s2: Tree<H>)
    ensures Put(Put(t, p, s1), p, s2) == Put(t, p, s2)
    decreases |p|
  {
    if p != [] && t.Node? {
      PutPut(Child(t, p[0]), p[1..], s1, s2);
    }
  }

  lemma {:induction false} PutAppend<H>(t: Tree<H>, p: Path, q: Path, s: Tree<H>)
    ensures Put(t, p + q, s) == Put(t, p, Put(At(t, p), q, s))
    decreases |p|
  {
    if p == [] {
      assert p + q == q;
    } else if t.Nil? {
    } else {
      assert (p + q)[0] == p[0];
      assert (p + q)[1..] == p[1..] + q;
      PutAppend(Child(t, p[0]), p[1..], q, s);
    }
  }

  /** Reading below a replaced position reads the replacement. */
  lemma AtPutBelow<H>(t: Tree<H>, p: Path, q: Path, s: Tree<H>)
    requires Reaches(t, p)
    ensures At(Put(t, p, s), p + q) == At(s, q)
  {
    AtAppend(Put(t, p, s), p, q);
    PutAt(t, p, s);
  }

  /** Replacing below a position acts on the subtree at that position. */
  lemma AtPutUnder<H>(t: Tree<H>, p: Path, q: Path, s: Tree<H>)
    requires Reaches(t, p)
    ensures At(Put(t, p + q, s), p) == Put(At(t, p), q, s)
  {
    PutAppend(t, p, q, s);
    PutAt(t, p, Put(At(t, p), q, s));
  }

  /** Positions still exist after a replacement above them keeps a node there. */
  lemma {:induction false} ReachesPut<H>(t: Tree<H>, p: Path, s: Tree<H>, q: Path)
    requires Reaches(t, q) && Reaches(t, p)
    requires s.Node? || |q| <= |p| || q[..|p|] != p
    requires s.Node? && |q| > |p| && q[..|p|] == p ==> Reaches(s, q[|p|..])
    ensures Reaches(Put(t, p, s), q)
    decreases |p|
  {
    if p == [] {
      assert q[|p|..] == q;
    } else if q != [] {
      if q[0] == p[0] {
        if |q| > |p| && q[..|p|] == p {
          assert q[1..][..|p[1..]|] == p[1..];
          assert q[1..][|p[1..]|..] == q[|p|..];
        }
        if |q[1..]| > |p[1..]| && q[1..][..|p[1..]|] == p[1..] {
          assert q[..|p|] == p;
          assert q[1..][|p[1..]|..] == q[|p|..];
        }
        ReachesPut(Child(t, p[0]), p[1..], s, q[1..]);
      }
    }
  }

  // ---------------------------------------------------------------------
  // In-order sequence and keys
  // ---------------------------------------------------------------------

  function InOrder<H>(t: Tree<H>): seq<int>
  {
    match t
    case Nil => []
    case Node(_, _, k, l, r) => InOrder(l) + [k] + InOrder(r)
  }

  /** Number of nodes. */
  function Size<H>(t: Tree<H>): nat
  {
    |InOrder(t)|
  }

  function Keys<H>(t: Tree<H>): set<int>
  {
    set x | x in InOrder(t)
  }

  /** Keys of the in-order sequence that come before the subtree at p. */
  function Before<H>(t: Tree<H>, p: Path): seq<int>
    decreases |p|
  {
    if p == [] || t.Nil? then []
    else if p[0] == L then Before(t.left, p[1..])
    else InOrder(t.left) + [t.key] + Before(t.right, p[1..])
  }

  /** Keys of the in-order sequence that come after the subtree at p. */
  function After<H>(t: Tree<H>, p: Path): seq<int>
    decreases |p|
  {
    if p == [] || t.Nil? then []
    else if p[0] == L then After(t.left, p[1..]) + [t.key] + InOrder(t.right)
    else After(t.right, p[1..])
  }

  lemma {:induction false} InOrderPut<H>(t: Tree<H>, p: Path, s: Tree<H>)
    requires Reaches(t, p)
    ensures InOrder(Put(t, p, s)) == Before(t, p) + InOrder(s) + After(t, p)
    decreases |p|
  {
    if p != [] {
      InOrderPut(Child(t, p[0]), p[1..], s);
    }
  }

  lemma InOrderSplit<H>(t: Tree<H>, p: Path)
    requires Reaches(t, p)
    ensures InOrder(t) == Before(t, p) + InOrder(At(t, p)) + After(t, p)
  {
    InOrderPut(t, p, At(t, p));
    PutSelf(t, p);
  }

  /** A replacement with the same in-order sequence keeps the whole sequence. */
  lemma InOrderReplace<H>(t: Tree<H>, p: Path, s: Tree<H>)
    requires Reaches(t, p) && InOrder(s) == InOrder(At(t, p))
    ensures InOrder(Put(t, p, s)) == InOrder(t)
  {
    InOrderPut(t, p, s);
    InOrderSplit(t, p);
  }

  ghost predicate Increasing(s: seq<int>)
  {
    forall i, j :: 0 <= i < j < |s| ==> s[i] < s[j]
  }

  /** Binary-search-tree order: the in-order sequence is strictly increasing. */
  ghost predicate IsBST<H>(t: Tree<H>)
  {
    Increasing(InOrder(t))
  }

  lemma IncreasingConcat(a: seq<int>, k: int, b: seq<int>)
    ensures Increasing(a + [k] + b) <==>
      Increasing(a) && Increasing(b) && (forall x :: x in a ==> x < k) && (forall x :: x in b ==> k < x)
  {
    var s := a + [k] + b;
    if Increasing(a) && Increasing(b) && (forall x :: x in a ==> x < k) && (forall x :: x in b ==> k < x) {
      forall i, j | 0 <= i < j < |s|
        ensures s[i] < s[j]
      {
        if j < |a| {
        } else if j == |a| {
          assert s[i] in a;
        } else if i < |a| {
          assert s[i] in a;
          assert s[j] in b;
        } else if i == |a| {
          assert s[j] in b;
        } else {
          assert s[i] == b[i - |a| - 1] && s[j] == b[j - |a| - 1];
        }
      }
    }
    if Increasing(s) {
      forall i, j | 0 <= i < j < |a| ensures a[i] < a[j] {
        assert a[i] == s[i] && a[j] == s[j];
      }
      forall i, j | 0 <= i < j < |b| ensures b[i] < b[j] {
        assert b[i] == s[i + |a| + 1] && b[j] == s[j + |a| + 1];
      }
      forall x | x in a ensures x < k {
        var i :| 0 <= i < |a| && a[i] == x;
        assert s[i] == x && s[|a|] == k;
      }
      forall x | x in b ensures k < x {
        var i :| 0 <= i < |b| && b[i] == x;
        assert s[i + |a| + 1] == x && s[|a|] == k;
      }
    }
  }

  /** The recursive characterisation of binary-search-tree order. */
  lemma BSTNode<H>(t: Tree<H>)
    requires t.Node?
    ensures IsBST(t) <==>
      IsBST(t.left) && IsBST(t.right) &&
      (forall x :: x in Keys(t.left) ==> x < t.key) &&
      (forall x :: x in Keys(t.right) ==> t.key < x)
  {
    assert InOrder(t) == InOrder(t.left) + [t.key] + InOrder(t.right);
    assert forall x :: x in Keys(t.left) <==> x in InOrder(t.left);
    assert forall x :: x in Keys(t.right) <==> x in InOrder(t.right);
    IncreasingConcat(InOrder(t.left), t.key, InOrder(t.right));
  }

  lemma IncreasingParts(a: seq<int>, b: seq<int>, c: seq<int>)
    requires Increasing(a + b + c)
    ensures Increasing(b)
  {
    var s := a + b + c;
    forall i, j | 0 <= i < j < |b| ensures b[i] < b[j] {
      assert b[i] == s[|a| + i] && b[j] == s[|a| + j];
    }
  }

  /** Every subtree of a binary search tree is one. */
  lemma BSTAt<H>(t: Tree<H>, p: Path)
    requires IsBST(t) && Reaches(t, p)
    ensures IsBST(At(t, p))
  {
    InOrderSplit(t, p);
    IncreasingParts(Before(t, p), InOrder(At(t, p)), After(t, p));
  }

  // ---------------------------------------------------------------------
  // Handles
  // ---------------------------------------------------------------------

  function Handles<H>(t: Tree<H>): set<H>
  {
    match t
    case Nil => {}
    case Node(h, _, _, l, r) => {h} + Handles(l) + Handles(r)
  }

  /** No handle names two nodes. */
  ghost predicate Unique<H>(t: Tree<H>)
  {
    match t
    case Nil => true
    case Node(h, _, _, l, r) =>
      h !in Handles(l) && h !in Handles(r) && Handles(l) !! Handles(r) && Unique(l) && Unique(r)
  }

  lemma {:induction false} HandlesPut<H>(t: Tree<H>, p: Path, s: Tree<H>)
    requires Reaches(t, p)
    ensures Handles(Put(t, p, s)) == Handles(Put(t, p, Nil)) + Handles(s)
    decreases |p|
  {
    if p != [] {
      HandlesPut(Child(t, p[0]), p[1..], s);
    }
  }

  lemma {:induction false} UniqueFrame<H>(t: Tree<H>, p: Path)
    requires Reaches(t, p) && Unique(t)
    ensures Unique(Put(t, p, Nil)) && Unique(At(t, p))
    ensures Handles(Put(t, p, Nil)) !! Handles(At(t, p))
    ensures Handles(t) == Handles(Put(t, p, Nil)) + Handles(At(t, p))
    decreases |p|
  {
    if p != [] {
      UniqueFrame(Child(t, p[0]), p[1..]);
    }
  }

  lemma {:induction false} UniquePut<H>(t: Tree<H>, p: Path, s: Tree<H>)
    requires Reaches(t, p) && Unique(Put(t, p, Nil)) && Unique(s)
    requires Handles(Put(t, p, Nil)) !! Handles(s)
    ensures Unique(Put(t, p, s))
    decreases |p|
  {
    if p != [] {
      HandlesPut(Child(t, p[0]), p[1..], s);
      UniquePut(Child(t, p[0]), p[1..], s);
    }
  }

  /** Replacing a subtree by one built from its own handles keeps handles distinct. */
  lemma UniqueReplace<H>(t: Tree<H>, p: Path, s: Tree<H>)
    requires Reaches(t, p) && Unique(t) && Unique(s) && Handles(s) == Handles(At(t, p))
    ensures Unique(Put(t, p, s)) && Handles(Put(t, p, s)) == Handles(t)
  {
    UniqueFrame(t, p);
    HandlesPut(t, p, s);
    UniquePut(t, p, s);
  }

  lemma {:induction false} HandleAt<H>(t: Tree<H>, p: Path)
    requires At(t, p).Node?
    ensures At(t, p).handle in Handles(t)
    ensures p != [] ==> At(t, p).handle in Handles(Child(t, p[0]))
    decreases |p|
  {
    if p != [] {
      HandleAt(Child(t, p[0]), p[1..]);
    }
  }

  /** In a tree with distinct handles, a handle determines its position. */
  lemma {:induction false} UniquePosition<H>(t: Tree<H>, p: Path, q: Path)
    requires Unique(t) && At(t, p).Node? && At(t, q).Node? && At(t, p).handle == At(t, q).handle
    ensures p == q
    decreases |p|
  {
    HandleAt(t, p);
    HandleAt(t, q);
    if p != [] && q != [] {
      if p[0] == q[0] {
        UniquePosition(Child(t, p[0]), p[1..], q[1..]);
        assert p == [p[0]] + p[1..] && q == [q[0]] + q[1..];
      }
    }
  }

  /** A node is fewer steps from the root than there are nodes. */
  lemma {:induction false} DepthBelowSize<H>(t: Tree<H>, p: Path)
    requires At(t, p).Node?
    ensures |p| < Size(t)
    decreases |p|
  {
    if p != [] {
      DepthBelowSize(Child(t, p[0]), p[1..]);
    }
  }

  /** The position of a handle of the tree. */
  ghost function PathTo<H>(t: Tree<H>, h: H): (p: Path)
    requires h in Handles(t)
    ensures At(t, p).Node? && At(t, p).handle == h
  {
    if t.handle == h then []
    else if h in Handles(t.left) then [L] + PathTo(t.left, h)
    else [R] + PathTo(t.right, h)
  }

  // ---------------------------------------------------------------------
  // Rotations and recolouring
  // ---------------------------------------------------------------------

  /** Left rotation of x with right child y: y takes x's place, x becomes y's left child. */
  function RotateLeft<H>(t: Tree<H>): (u: Tree<H>)
    requires t.Node? && t.right.Node?
    ensures u.Node? && u.left.Node?
    ensures InOrder(u) == InOrder(t) && Handles(u) == Handles(t)
    ensures RotateRight(u) == t
  {
    var y := t.right;
    Node(y.handle, y.color, y.key, Node(t.handle, t.color, t.key, t.left, y.left), y.right)
  }

  /** Right rotation of x with left child y: y takes x's place, x becomes y's right child. */
  function RotateRight<H>(t: Tree<H>): (u: Tree<H>)
    requires t.Node? && t.left.Node?
    ensures u.Node? && u.right.Node?
    ensures InOrder(u) == InOrder(t) && Handles(u) == Handles(t)
  {
    var y := t.left;
    Node(y.handle, y.color, y.key, y.left, Node(t.handle, t.color, t.key, y.right, t.right))
  }

  lemma RotateRightLeft<H>(t: Tree<H>)
    requires t.Node? && t.left.Node?
    ensures RotateLeft(RotateRight(t)) == t
  {
  }

  lemma RotateUnique<H>(t: Tree<H>)
    requires Unique(t)
    ensures t.Node? && t.right.Node? ==> Unique(RotateLeft(t))
    ensures t.Node? && t.left.Node? ==> Unique(RotateRight(t))
  {
  }

  function RotateLeftAt<H>(t: Tree<H>, p: Path): Tree<H>
    requires At(t, p).Node? && At(t, p).right.Node?
  {
    Put(t, p, RotateLeft(At(t, p)))
  }

  function RotateRightAt<H>(t: Tree<H>, p: Path): Tree<H>
    requires At(t, p).Node? && At(t, p).left.Node?
  {
    Put(t, p, RotateRight(At(t, p)))
  }

  /** Recolour the node at p (no change when p is empty). */
  function PaintAt<H>(t: Tree<H>, p: Path, c: Color): Tree<H>
  {
    if At(t, p).Node? then Put(t, p, At(t, p).(color := c)) else t
  }

  /** Rotations keep the in-order sequence, the handles and their distinctness. */
  lemma RotateAt<H>(t: Tree<H>, p: Path)
    requires Unique(t)
    ensures At(t, p).Node? && At(t, p).right.Node? ==>
      var u := RotateLeftAt(t, p);
      InOrder(u) == InOrder(t) && Handles(u) == Handles(t) && Unique(u) && Size(u) == Size(t)
    ensures At(t, p).Node? && At(t, p).left.Node? ==>
      var u := RotateRightAt(t, p);
      InOrder(u) == InOrder(t) && Handles(u) == Handles(t) && Unique(u) && Size(u) == Size(t)
  {
    if At(t, p).Node? {
      NodeReaches(t, p);
      UniqueFrame(t, p);
      RotateUnique(At(t, p));
      if At(t, p).right.Node? {
        InOrderReplace(t, p, RotateLeft(At(t, p)));
        UniqueReplace(t, p, RotateLeft(At(t, p)));
      }
      if At(t, p).left.Node? {
        InOrderReplace(t, p, RotateRight(At(t, p)));
        UniqueReplace(t, p, RotateRight(At(t, p)));
      }
    }
  }

  /** Recolouring keeps the in-order sequence, the handles and their distinctness. */
  lemma PaintKeeps<H>(t: Tree<H>, p: Path, c: Color)
    requires Unique(t)
    ensures var u := PaintAt(t, p, c);
      InOrder(u) == InOrder(t) && Handles(u) == Handles(t) && Unique(u) && Size(u) == Size(t)
  {
    if At(t, p).Node? {
      NodeReaches(t, p);
      UniqueFrame(t, p);
      InOrderReplace(t, p, At(t, p).(color := c));
      UniqueReplace(t, p, At(t, p).(color := c));
    }
  }

  /**
   * Recolouring the node at r leaves the subtree at q as it was when q is
   * deeper than r, or as deep but elsewhere.
   */
  lemma {:induction false} PaintBeside<H>(t: Tree<H>, r: Path, c: Color, q: Path)
    requires |q| > |r| || (|q| == |r| && q != r)
    ensures At(PaintAt(t, r, c), q) == At(t, q)
    decreases |r|
  {
    if At(t, r).Node? && r != [] {
      var d := r[0];
      assert At(Child(t, d), r[1..]) == At(t, r);
      if q[0] == d {
        PaintBeside(Child(t, d), r[1..], c, q[1..]);
      }
    }
  }

  /** b is a with some nodes recoloured: same handles, keys and structure. */
  ghost predicate Recoloured<H>(a: Tree<H>, b: Tree<H>)
  {
    match a
    case Nil => b.Nil?
    case Node(h, _, k, l, r) =>
      b.Node? && b.handle == h && b.key == k && Recoloured(l, b.left) && Recoloured(r, b.right)
  }

  lemma {:induction false} RecolouredKeeps<H>(a: Tree<H>, b: Tree<H>)
    requires Recoloured(a, b)
    ensures InOrder(b) == InOrder(a) && Handles(b) == Handles(a) && Size(b) == Size(a)
    ensures Unique(a) ==> Unique(b)
    ensures Recoloured(b, a)
  {
    match a
    case Nil =>
    case Node(_, _, _, l, r) =>
      RecolouredKeeps(l, b.left);
      RecolouredKeeps(r, b.right);
  }

  lemma {:induction false} RecolouredTrans<H>(a: Tree<H>, b: Tree<H>, c: Tree<H>)
    requires Recoloured(a, b) && Recoloured(b, c)
    ensures Recoloured(a, c)
  {
    match a
    case Nil =>
    case Node(_, _, _, l, r) =>
      RecolouredTrans(l, b.left, c.left);
      RecolouredTrans(r, b.right, c.right);
  }

  lemma {:induction false} RecolouredAt<H>(a: Tree<H>, b: Tree<H>, q: Path)
    requires Recoloured(a, b)
    ensures Recoloured(At(a, q), At(b, q))
    ensures Reaches(a, q) <==> Reaches(b, q)
    decreases |q|
  {
    if q != [] && a.Node? {
      RecolouredAt(Child(a, q[0]), Child(b, q[0]), q[1..]);
    }
  }

  lemma {:induction false} RecolouredRefl<H>(a: Tree<H>)
    ensures Recoloured(a, a)
  {
    match a
    case Nil =>
    case Node(_, _, _, l, r) =>
      RecolouredRefl(l);
      RecolouredRefl(r);
  }

  lemma {:induction false} RecolouredPut<H>(t: Tree<H>, q: Path, s: Tree<H>)
    requires Reaches(t, q) && Recoloured(At(t, q), s)
    ensures Recoloured(t, Put(t, q, s))
    decreases |q|
  {
    if q != [] {
      RecolouredRefl(t.left);
      RecolouredRefl(t.right);
      RecolouredPut(Child(t, q[0]), q[1..], s);
    }
  }

  /** Recolouring a node changes nothing but that node's colour. */
  lemma PaintRecolours<H>(t: Tree<H>, q: Path, c: Color)
    ensures Recoloured(t, PaintAt(t, q, c))
    ensures At(PaintAt(t, q, c), q).Node? ==> At(PaintAt(t, q, c), q).color == c
  {
    if At(t, q).Node? {
      NodeReaches(t, q);
      RecolouredRefl(At(t, q).left);
      RecolouredRefl(At(t, q).right);
      RecolouredPut(t, q, At(t, q).(color := c));
      PutAt(t, q, At(t, q).(color := c));
    } else {
      RecolouredRefl(t);
    }
  }

  /** Positions and subtree sizes survive recolouring. */
  lemma RecolouredPositions<H>(a: Tree<H>, b: Tree<H>, q: Path)
    requires Recoloured(a, b)
    ensures At(a, q).Node? <==> At(b, q).Node?
    ensures Reaches(a, q) <==> Reaches(b, q)
    ensures Size(At(a, q)) == Size(At(b, q))
  {
    RecolouredAt(a, b, q);
    RecolouredKeeps(At(a, q), At(b, q));
  }

  /** Three successive recolourings. */
  lemma Paint3<H>(t: Tree<H>, a: Path, ca: Color, b: Path, cb: Color, c: Path, cc: Color)
    ensures Recoloured(t, PaintAt(PaintAt(PaintAt(t, a, ca), b, cb), c, cc))
  {
    var t1 := PaintAt(t, a, ca);
    var t2 := PaintAt(t1, b, cb);
    PaintRecolours(t, a, ca);
    PaintRecolours(t1, b, cb);
    PaintRecolours(t2, c, cc);
    RecolouredTrans(t, t1, t2);
    RecolouredTrans(t, t2, PaintAt(t2, c, cc));
  }

  /** Two successive recolourings. */
  lemma Paint2<H>(t: Tree<H>, a: Path, ca: Color, b: Path, cb: Color)
    ensures Recoloured(t, PaintAt(PaintAt(t, a, ca), b, cb))
  {
    var t1 := PaintAt(t, a, ca);
    PaintRecolours(t, a, ca);
    PaintRecolours(t1, b, cb);
    RecolouredTrans(t, t1, PaintAt(t1, b, cb));
  }

  lemma {:induction false} ReachesPutSame<H>(t: Tree<H>, q: Path, s: Tree<H>)
    requires Reaches(t, q)
    ensures Reaches(Put(t, q, s), q)
    decreases |q|
  {
    if q != [] {
      ReachesPutSame(Child(t, q[0]), q[1..], s);
    }
  }

  /** Replacing a subtree changes the size by the difference of the two subtrees. */
  lemma SizePut<H>(t: Tree<H>, p: Path, s: Tree<H>)
    requires Reaches(t, p)
    ensures Size(Put(t, p, s)) + Size(At(t, p)) == Size(t) + Size(s)
  {
    InOrderPut(t, p, s);
    InOrderSplit(t, p);
  }

  // ---------------------------------------------------------------------
  // Red-black shape
  // ---------------------------------------------------------------------

  /** No red node has a red child. */
  ghost predicate NoRedRed<H>(t: Tree<H>)
  {
    match t
    case Nil => true
    case Node(_, c, _, l, r) =>
      (c == Red ==> ColorOf(l) == Black && ColorOf(r) == Black) && NoRedRed(l) && NoRedRed(r)
  }

  /** Black nodes on the leftmost path, the subtree's root included. */
  function BlackHeight<H>(t: Tree<H>): nat
  {
    match t
    case Nil => 0
    case Node(_, c, _, l, _) => BlackHeight(l) + (if c == Black then 1 else 0)
  }

  /** Every path from a node down to the sentinel meets the same number of black nodes. */
  ghost predicate Balanced<H>(t: Tree<H>)
  {
    match t
    case Nil => true
    case Node(_, _, _, l, r) => BlackHeight(l) == BlackHeight(r) && Balanced(l) && Balanced(r)
  }

  ghost predicate IsRedBlack<H>(t: Tree<H>)
  {
    IsBST(t) && ColorOf(t) == Black && NoRedRed(t) && Balanced(t)
  }

  function Height<H>(t: Tree<H>): nat
  {
    match t
    case Nil => 0
    case Node(_, _, _, l, r) => 1 + Max(Height(l), Height(r))
  }

  function Max(a: int, b: int): int
  {
    if a < b then b else a
  }

  function Pow2(n: nat): nat
  {
    if n == 0 then 1 else 2 * Pow2(n - 1)
  }

  lemma {:induction false} Pow2Add(a: nat, b: nat)
    ensures Pow2(a + b) == Pow2(a) * Pow2(b)
    decreases a
  {
    if a > 0 {
      Pow2Add(a - 1, b);
    }
  }

  lemma {:induction false} Pow2Monotonic(a: nat, b: nat)
    requires a <= b
    ensures Pow2(a) <= Pow2(b)
    decreases b
  {
    if a < b {
      Pow2Monotonic(a, b - 1);
    }
  }

  lemma {:induction false} SizeAtLeastBlackHeight<H>(t: Tree<H>)
    requires NoRedRed(t) && Balanced(t)
    ensures Pow2(BlackHeight(t)) <= Size(t) + 1
  {
    match t
    case Nil =>
    case Node(_, c, _, l, r) =>
      SizeAtLeastBlackHeight(l);
      SizeAtLeastBlackHeight(r);
      if c == Black {
        assert Pow2(BlackHeight(t)) == 2 * Pow2(BlackHeight(l));
      } else {
        Pow2Monotonic(BlackHeight(t), BlackHeight(t) + 1);
      }
  }

  lemma {:induction false} HeightAtMostTwiceBlackHeight<H>(t: Tree<H>)
    requires NoRedRed(t) && Balanced(t)
    ensures Height(t) <= 2 * BlackHeight(t) + (if ColorOf(t) == Red then 1 else 0)
  {
    match t
    case Nil =>
    case Node(_, c, _, l, r) =>
      HeightAtMostTwiceBlackHeight(l);
      HeightAtMostTwiceBlackHeight(r);
  }

  /**
   * The height of a tree with the red-black colour rules and a black root is at
   * most 2 log2(n + 1) for n nodes, stated without logarithms.
   */
  lemma HeightBound<H>(t: Tree<H>)
    requires NoRedRed(t) && Balanced(t) && ColorOf(t) == Black
    ensures Pow2(Height(t)) <= (Size(t) + 1) * (Size(t) + 1)
  {
    var b := BlackHeight(t);
    HeightAtMostTwiceBlackHeight(t);
    SizeAtLeastBlackHeight(t);
    Pow2Monotonic(Height(t), 2 * b);
    Pow2Add(b, b);
    MultiplyMonotonic(Pow2(b), Size(t) + 1);
  }

  lemma MultiplyMonotonic(a: nat, b: nat)
    requires a <= b
    ensures a * a <= b * b
  {
    assert a * a <= a * b <= b * b;
  }
}
