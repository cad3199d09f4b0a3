/**
 * The insertion rebalancing of src/main/RedBlackTree.java with its zig-zag
 * case repaired, and the proof that, repaired, an insertion into a red-black
 * tree gives a red-black tree.
 *
 * In the zig-zag case (a red node that is the right child of a red left
 * child, or the mirror image) the source rotates the parent and then resumes
 * the balancing at the value `rotateLeft` returns: the node that took the
 * parent's place. That node's parent is now the black grandparent, so the
 * balancing stops at once and leaves the old parent, still red, below a red
 * node. `ZigZagLeavesRedRed` shows this on a two-node tree. The repair
 * resumes at the old parent instead, which then meets the aligned case.
 */
module InsertionRepair {
  import opened Trees
  import BinarySearchTree
  import RedBlackSpec

  /** 1 on a zig-zag position (the last two steps turn), else 0. */
  function ZigZag(p: Path): nat
  {
    if |p| >= 2 && Last(p) != Last(Parent(p)) then 1 else 0
  }

  /**
   * `RedBlackSpec.BalanceInsertion` with the zig-zag case resuming at the old
   * parent, which after the rotation is the child of the node at p's parent
   * position on the side p came from.
   */
  function BalanceInsertion<H>(t: Tree<H>, p: Path): (o: RedBlackSpec.Outcome<H>)
    requires At(t, p).Node?
    decreases |p|, ZigZag(p)
  {
    if p == [] then RedBlackSpec.Outcome(PaintAt(t, p, Black), RedBlackSpec.Finished)
    else
      var pp := Parent(p);
      assert p == pp + [Last(p)];
      NodeReaches(t, p);
      Steps(t, pp, Last(p));
      var parent := At(t, pp);
      if parent.color != Red then RedBlackSpec.Outcome(t, RedBlackSpec.Finished)
      else if pp == [] then RedBlackSpec.Outcome(t, RedBlackSpec.NullDereference)
      else
        var gp := Parent(pp);
        assert pp == gp + [Last(pp)];
        Steps(t, gp, Last(pp));
        var up := gp + [Other(Last(pp))];
        if ColorOf(At(t, up)) == Red then
          var t1 := PaintAt(PaintAt(PaintAt(t, up, Black), pp, Black), gp, Red);
          Paint3(t, up, Black, pp, Black, gp, Red);
          RecolouredPositions(t, t1, gp);
          BalanceInsertion(t1, gp)
        else if Last(p) == R && Last(pp) == L then
          AtPutBelow(t, pp, [L], RotateLeft(parent));
          assert Parent(pp + [L]) == pp;
          BalanceInsertion(RotateLeftAt(t, pp), pp + [L])
        else if Last(p) == L && Last(pp) == R then
          AtPutBelow(t, pp, [R], RotateRight(parent));
          assert Parent(pp + [R]) == pp;
          BalanceInsertion(RotateRightAt(t, pp), pp + [R])
        else if Last(p) == L then
          RedBlackSpec.Outcome(PaintAt(PaintAt(RotateRightAt(t, gp), gp + [R], Red), gp, Black), RedBlackSpec.Finished)
        else
          RedBlackSpec.Outcome(PaintAt(PaintAt(RotateLeftAt(t, gp), gp + [L], Red), gp, Black), RedBlackSpec.Finished)
  }

  /** `RedBlackSpec.Insert` rebalancing with the repaired `BalanceInsertion`. */
  function Insert<H>(t: Tree<H>, p0: Path, k: int, h: H): (o: RedBlackSpec.Outcome<H>)
    requires At(t, p0).Node?
  {
    var q := p0 + BinarySearchTree.Find(At(t, p0), k);
    AtAppend(t, p0, BinarySearchTree.Find(At(t, p0), k));
    var n := At(t, q);
    if n.key == k then RedBlackSpec.Outcome(t, RedBlackSpec.Finished)
    else
      var d := BinarySearchTree.Side(n.key, k);
      var leaf := Node(h, Red, k, Nil, Nil);
      ReachesChild(t, q, d);
      PutAt(t, q + [d], leaf);
      BalanceInsertion(Put(t, q + [d], leaf), q + [d])
  }

  // ---------------------------------------------------------------------
  // The source as written
  // ---------------------------------------------------------------------

  /**
   * Inserting 2 into the red-black tree 3(black) with left child 1(red):
   * the new node is the right child of 1, a zig-zag. The source finishes
   * without an error but leaves 1 red below the red 2.
   */
  lemma ZigZagLeavesRedRed()
    ensures var t := Node(1, Black, 3, Node(2, Red, 1, Nil, Nil), Nil);
      var o := RedBlackSpec.Insert(t, [], 2, 3);
      && IsRedBlack(t)
      && o.halt == RedBlackSpec.Finished
      && !NoRedRed(o.tree)
  {
    var t := Node(1, Black, 3, Node(2, Red, 1, Nil, Nil), Nil);
    var u := Node(1, Black, 3, Node(2, Red, 1, Nil, Node(3, Red, 2, Nil, Nil)), Nil);
    var w := Node(1, Black, 3, Node(3, Red, 2, Node(2, Red, 1, Nil, Nil), Nil), Nil);
    assert RedBlackSpec.Insert(t, [], 2, 3) == RedBlackSpec.BalanceInsertion(u, [L, R]) by {
      ZigZagLeaf();
    }
    assert RedBlackSpec.BalanceInsertion(u, [L, R]) == RedBlackSpec.BalanceInsertion(w, [L]) by {
      assert Parent([L, R]) == [L] && Parent([L]) == [] && Last([L, R]) == R && Last([L]) == L;
      assert [L, R][1..] == [R] && [R][1..] == [] && [L][1..] == [];
      assert [] + [R] == [R] && At(u, [R]) == Nil && At(u, [L]) == u.left;
      assert RotateLeftAt(u, [L]) == w;
    }
    assert RedBlackSpec.BalanceInsertion(w, [L]) == RedBlackSpec.Outcome(w, RedBlackSpec.Finished) by {
      assert Parent([L]) == [] && [L][1..] == [] && At(w, [L]) == w.left;
    }
  }

  /** The leaf that inserting 2 into 3(black) with left child 1(red) links in. */
  lemma ZigZagLeaf()
    ensures var t := Node(1, Black, 3, Node(2, Red, 1, Nil, Nil), Nil);
      var u := Node(1, Black, 3, Node(2, Red, 1, Nil, Node(3, Red, 2, Nil, Nil)), Nil);
      && RedBlackSpec.Insert(t, [], 2, 3) == RedBlackSpec.BalanceInsertion(u, [L, R])
      && Insert(t, [], 2, 3) == BalanceInsertion(u, [L, R])
  {
    var t := Node(1, Black, 3, Node(2, Red, 1, Nil, Nil), Nil);
    assert BinarySearchTree.Find(t, 2) == [L] by {
      assert BinarySearchTree.Find(t.left, 2) == [];
    }
    assert [] + [L] == [L] && [L] + [R] == [L, R];
    assert [L, R][1..] == [R] && [R][1..] == [];
  }

  /**
   * The same insertion, repaired: it gives 2(black) with red children 1
   * and 3.
   */
  lemma ZigZagRepaired()
    ensures var t := Node(1, Black, 3, Node(2, Red, 1, Nil, Nil), Nil);
      Insert(t, [], 2, 3) == RedBlackSpec.Outcome(Node(3, Black, 2, Node(2, Red, 1, Nil, Nil), Node(1, Red, 3, Nil, Nil)), RedBlackSpec.Finished)
  {
    var t := Node(1, Black, 3, Node(2, Red, 1, Nil, Nil), Nil);
    var u := Node(1, Black, 3, Node(2, Red, 1, Nil, Node(3, Red, 2, Nil, Nil)), Nil);
    var w := Node(1, Black, 3, Node(3, Red, 2, Node(2, Red, 1, Nil, Nil), Nil), Nil);
    ZigZagLeaf();
    assert BalanceInsertion(u, [L, R]) == BalanceInsertion(w, [L, L]) by {
      assert Parent([L, R]) == [L] && Parent([L]) == [] && Last([L, R]) == R && Last([L]) == L;
      assert [L, R][1..] == [R] && [R][1..] == [] && [L][1..] == [];
      assert [] + [R] == [R] && At(u, [R]) == Nil && At(u, [L]) == u.left;
      assert RotateLeftAt(u, [L]) == w;
      assert [L] + [L] == [L, L];
    }
    assert Parent([L, L]) == [L] && Last([L, L]) == L && [L, L][1..] == [L] && [L][1..] == [];
    assert [] + [R] == [R] && [R][1..] == [];
    assert At(w, [L]) == w.left && At(w, [L, L]) == w.left.left && At(w, [R]) == Nil;
    assert RotateRightAt(w, []) == Node(3, Red, 2, Node(2, Red, 1, Nil, Nil), Node(1, Black, 3, Nil, Nil));
  }

  /** Reading and replacing one step below a node. */
  lemma OneStep<H>(t: Tree<H>, d: Dir, s: Tree<H>)
    requires t.Node?
    ensures At(t, [d]) == Child(t, d)
    ensures Put(t, [d], s) == if d == L then t.(left := s) else t.(right := s)
  {
    assert [d][1..] == [];
  }

  // ---------------------------------------------------------------------
  // The red-black rules around one position
  // ---------------------------------------------------------------------

  /**
   * Apart from the subtree at g, t has no red node with a red child,
   * counting a subtree at g whose root has colour c. This is everything
   * `NoRedRed` asks of t outside g.
   */
  ghost predicate Fits<H>(t: Tree<H>, g: Path, c: Color)
    decreases |g|
  {
    if g == [] then true
    else
      && t.Node?
      && NoRedRed(Child(t, Other(g[0])))
      && (t.color == Red ==>
            ColorOf(Child(t, Other(g[0]))) == Black
            && (if |g| == 1 then c else ColorOf(Child(t, g[0]))) == Black)
      && Fits(Child(t, g[0]), g[1..], c)
  }

  /** Red-black colouring of a tree with a replaced subtree, read off in two parts. */
  lemma {:induction false} FitsPut<H>(t: Tree<H>, g: Path, s: Tree<H>)
    requires Reaches(t, g)
    ensures NoRedRed(Put(t, g, s)) <==> Fits(t, g, ColorOf(s)) && NoRedRed(s)
    decreases |g|
  {
    if g != [] {
      FitsPut(Child(t, g[0]), g[1..], s);
      if |g| > 1 {
        RedBlackSpec.PutBelowRoot(Child(t, g[0]), g[1..], s);
      }
    }
  }

  /** `Fits` does not look inside the subtree at g. */
  lemma {:induction false} FitsFrame<H>(t: Tree<H>, g: Path, s: Tree<H>, c: Color)
    requires Reaches(t, g)
    ensures Fits(Put(t, g, s), g, c) == Fits(t, g, c)
    decreases |g|
  {
    if g != [] {
      FitsFrame(Child(t, g[0]), g[1..], s, c);
      if |g| > 1 {
        RedBlackSpec.PutBelowRoot(Child(t, g[0]), g[1..], s);
      }
    }
  }

  /** `Fits` at a deeper position: the part above g and the part below it. */
  lemma {:induction false} FitsSplit<H>(t: Tree<H>, g: Path, s: Path, c: Color)
    requires s != []
    ensures Fits(t, g + s, c) <==> Fits(t, g, ColorOf(At(t, g))) && Fits(At(t, g), s, c)
    decreases |g|
  {
    if g == [] {
      assert g + s == s;
    } else {
      assert (g + s)[0] == g[0];
      assert (g + s)[1..] == g[1..] + s;
      FitsSplit(Child(t, g[0]), g[1..], s, c);
    }
  }

  lemma {:induction false} BalancedAt<H>(t: Tree<H>, g: Path)
    requires Balanced(t)
    ensures Balanced(At(t, g))
    decreases |g|
  {
    if g != [] && t.Node? {
      BalancedAt(Child(t, g[0]), g[1..]);
    }
  }

  /** A balanced replacement of the same black height keeps a tree balanced. */
  lemma {:induction false} BalancedPut<H>(t: Tree<H>, g: Path, s: Tree<H>)
    requires Reaches(t, g) && Balanced(t) && Balanced(s)
    requires BlackHeight(s) == BlackHeight(At(t, g))
    ensures Balanced(Put(t, g, s)) && BlackHeight(Put(t, g, s)) == BlackHeight(t)
    decreases |g|
  {
    if g != [] {
      BalancedPut(Child(t, g[0]), g[1..], s);
    }
  }

  /** Recolouring inside a replaced subtree recolours the replacement. */
  lemma PaintPut<H>(t: Tree<H>, g: Path, x: Tree<H>, s: Path, c: Color)
    requires Reaches(t, g)
    ensures PaintAt(Put(t, g, x), g + s, c) == Put(t, g, PaintAt(x, s, c))
  {
    var t' := Put(t, g, x);
    AtPutBelow(t, g, s, x);
    if At(x, s).Node? {
      PutAppend(t', g, s, At(x, s).(color := c));
      PutAt(t, g, x);
      PutPut(t, g, x, Put(x, s, At(x, s).(color := c)));
    }
  }

  // ---------------------------------------------------------------------
  // The repaired rebalancing keeps the red-black rules
  // ---------------------------------------------------------------------

  /**
   * The state `balanceInsertion` is called in: the node at p is red, its
   * subtree and everything outside it obey the colour rules, the only red
   * node that may have a red child is p's parent, black heights agree, and
   * the root is black unless p is the root.
   */
  ghost predicate Pending<H>(t: Tree<H>, p: Path)
  {
    && At(t, p).Node? && At(t, p).color == Red && NoRedRed(At(t, p))
    && Fits(t, p, Black) && Balanced(t)
    && (p != [] ==> ColorOf(t) == Black)
  }

  /** The facts about the node at p, its parent and its grandparent that every case needs. */
  lemma Family<H>(t: Tree<H>, p: Path)
    requires Pending(t, p) && |p| >= 2 && At(t, Parent(p)).Node? && At(t, Parent(p)).color == Red
    ensures var pp := Parent(p); var gp := Parent(pp);
      && p == gp + [Last(pp), Last(p)] && pp == gp + [Last(pp)]
      && Reaches(t, gp) && Reaches(t, pp) && Reaches(t, p)
      && At(t, gp).Node? && At(t, gp).color == Black
      && Child(At(t, gp), Last(pp)) == At(t, pp)
      && Child(At(t, pp), Last(p)) == At(t, p)
      && NoRedRed(Child(At(t, gp), Other(Last(pp))))
      && NoRedRed(Child(At(t, pp), Other(Last(p))))
      && ColorOf(Child(At(t, pp), Other(Last(p)))) == Black
      && Fits(t, gp, Black)
      && Balanced(At(t, gp))
      && At(t, gp + [Other(Last(pp))]) == Child(At(t, gp), Other(Last(pp)))
  {
    var pp := Parent(p);
    var gp := Parent(pp);
    assert p == pp + [Last(p)];
    assert pp == gp + [Last(pp)];
    assert p == gp + [Last(pp), Last(p)];
    NodeReaches(t, p);
    Steps(t, pp, Last(p));
    Steps(t, gp, Last(pp));
    FitsSplit(t, gp, [Last(pp), Last(p)], Black);
    BalancedAt(t, gp);
  }

  /** Red parent and red uncle: after recolouring, the grandparent is pending. */
  lemma RedUncleStep<H>(t: Tree<H>, p: Path)
    requires Pending(t, p) && |p| >= 2 && At(t, Parent(p)).Node? && At(t, Parent(p)).color == Red
    requires ColorOf(At(t, Parent(Parent(p)) + [Other(Last(Parent(p)))])) == Red
    ensures var pp := Parent(p); var gp := Parent(pp);
      Pending(PaintAt(PaintAt(PaintAt(t, gp + [Other(Last(pp))], Black), pp, Black), gp, Red), gp)
  {
    Family(t, p);
    var pp := Parent(p);
    var gp := Parent(pp);
    var dp := Last(pp);
    var G := At(t, gp);
    PutSelf(t, gp);
    PaintPut(t, gp, G, [Other(dp)], Black);
    var Ga := PaintAt(G, [Other(dp)], Black);
    PaintPut(t, gp, Ga, [dp], Black);
    var Gb := PaintAt(Ga, [dp], Black);
    PaintPut(t, gp, Gb, [], Red);
    assert gp + [] == gp;
    var G1 := PaintAt(Gb, [], Red);
    var P := Child(G, dp);
    var U := Child(G, Other(dp));
    assert P.Node? && U.Node?;
    OneStep(G, Other(dp), U.(color := Black));
    OneStep(Ga, dp, P.(color := Black));
    if dp == L {
      assert Ga == Node(G.handle, G.color, G.key, P, U.(color := Black));
      assert Gb == Node(G.handle, G.color, G.key, P.(color := Black), U.(color := Black));
      assert G1 == Node(G.handle, Red, G.key, P.(color := Black), U.(color := Black));
    } else {
      assert Ga == Node(G.handle, G.color, G.key, U.(color := Black), P);
      assert Gb == Node(G.handle, G.color, G.key, U.(color := Black), P.(color := Black));
      assert G1 == Node(G.handle, Red, G.key, U.(color := Black), P.(color := Black));
    }
    PutAt(t, gp, G1);
    FitsFrame(t, gp, G1, Black);
    BalancedPut(t, gp, G1);
    if gp != [] {
      RedBlackSpec.PutBelowRoot(t, gp, G1);
    }
  }

  /**
   * Red parent, black uncle, zig-zag: after the rotation of the parent the
   * old parent, one level lower on the same side as the parent, is pending.
   */
  lemma ZigZagStep<H>(t: Tree<H>, p: Path)
    requires Pending(t, p) && |p| >= 2 && At(t, Parent(p)).Node? && At(t, Parent(p)).color == Red
    requires ColorOf(At(t, Parent(Parent(p)) + [Other(Last(Parent(p)))])) == Black
    requires Last(p) != Last(Parent(p))
    ensures var pp := Parent(p);
      && At(t, pp).Node?
      && (Last(p) == R ==> At(t, pp).right.Node? && Pending(RotateLeftAt(t, pp), pp + [L]))
      && (Last(p) == L ==> At(t, pp).left.Node? && Pending(RotateRightAt(t, pp), pp + [R]))
  {
    Family(t, p);
    var pp := Parent(p);
    var gp := Parent(pp);
    var dp := Last(pp);
    var P := At(t, pp);
    var N := At(t, p);
    var X := if dp == L then RotateLeft(P) else RotateRight(P);
    assert X == Node(N.handle, Red, N.key, Child(X, L), Child(X, R));
    var t1 := Put(t, pp, X);
    AtPutBelow(t, pp, [dp], X);
    PutAt(t, pp, X);
    BalancedAt(t, pp);
    BalancedPut(t, pp, X);
    FitsSplit(t1, pp, [dp], Black);
    FitsFrame(t, pp, X, Red);
    FitsSplit(t, gp, [dp], Red);
    RedBlackSpec.PutBelowRoot(t, pp, X);
  }

  /** Red parent, black uncle, aligned: the rotation and recolouring finish the job. */
  lemma AlignedStep<H>(t: Tree<H>, p: Path)
    requires Pending(t, p) && |p| >= 2 && At(t, Parent(p)).Node? && At(t, Parent(p)).color == Red
    requires ColorOf(At(t, Parent(Parent(p)) + [Other(Last(Parent(p)))])) == Black
    requires Last(p) == Last(Parent(p))
    ensures var gp := Parent(Parent(p));
      && At(t, gp).Node?
      && (Last(p) == L ==>
            && At(t, gp).left.Node?
            && var u := PaintAt(PaintAt(RotateRightAt(t, gp), gp + [R], Red), gp, Black);
              NoRedRed(u) && Balanced(u) && ColorOf(u) == Black)
      && (Last(p) == R ==>
            && At(t, gp).right.Node?
            && var u := PaintAt(PaintAt(RotateLeftAt(t, gp), gp + [L], Red), gp, Black);
              NoRedRed(u) && Balanced(u) && ColorOf(u) == Black)
  {
    Family(t, p);
    var pp := Parent(p);
    var gp := Parent(pp);
    var d := Last(p);
    var G := At(t, gp);
    var Y := if d == L then RotateRight(G) else RotateLeft(G);
    PaintPut(t, gp, Y, [Other(d)], Red);
    var Y2 := PaintAt(Y, [Other(d)], Red);
    PaintPut(t, gp, Y2, [], Black);
    assert gp + [] == gp;
    var X := PaintAt(Y2, [], Black);
    var P := Child(G, d);
    assert P.Node?;
    OneStep(Y, Other(d), Child(Y, Other(d)).(color := Red));
    if d == L {
      assert Y == Node(P.handle, P.color, P.key, P.left, Node(G.handle, G.color, G.key, P.right, G.right));
      assert Y2 == Node(P.handle, P.color, P.key, P.left, Node(G.handle, Red, G.key, P.right, G.right));
      assert X == Node(P.handle, Black, P.key, P.left, Node(G.handle, Red, G.key, P.right, G.right));
    } else {
      assert Y == Node(P.handle, P.color, P.key, Node(G.handle, G.color, G.key, G.left, P.left), P.right);
      assert Y2 == Node(P.handle, P.color, P.key, Node(G.handle, Red, G.key, G.left, P.left), P.right);
      assert X == Node(P.handle, Black, P.key, Node(G.handle, Red, G.key, G.left, P.left), P.right);
    }
    FitsPut(t, gp, X);
    BalancedPut(t, gp, X);
    if gp != [] {
      RedBlackSpec.PutBelowRoot(t, gp, X);
    }
  }

  /**
   * From the state an insertion leaves, the repaired `balanceInsertion`
   * finishes without error and with all the red-black colour rules.
   */
  lemma {:induction false} BalanceInsertionRepairs<H>(t: Tree<H>, p: Path)
    requires Pending(t, p)
    ensures var o := BalanceInsertion(t, p);
      && o.halt == RedBlackSpec.Finished
      && NoRedRed(o.tree) && Balanced(o.tree) && ColorOf(o.tree) == Black
    decreases |p|, ZigZag(p)
  {
    if p != [] {
      var pp := Parent(p);
      assert p == pp + [Last(p)];
      NodeReaches(t, p);
      Steps(t, pp, Last(p));
      if At(t, pp).color != Red {
        FitsSplit(t, pp, [Last(p)], Black);
        FitsSplit(t, pp, [Last(p)], Red);
        FitsPut(t, p, At(t, p));
        PutSelf(t, p);
      } else if pp != [] {
        var gp := Parent(pp);
        var up := gp + [Other(Last(pp))];
        if ColorOf(At(t, up)) == Red {
          RedUncleStep(t, p);
          BalanceInsertionRepairs(PaintAt(PaintAt(PaintAt(t, up, Black), pp, Black), gp, Red), gp);
        } else if Last(p) != Last(pp) {
          ZigZagStep(t, p);
          assert Parent(pp + [Last(pp)]) == pp;
          if Last(p) == R {
            BalanceInsertionRepairs(RotateLeftAt(t, pp), pp + [L]);
          } else {
            BalanceInsertionRepairs(RotateRightAt(t, pp), pp + [R]);
          }
        } else {
          AlignedStep(t, p);
        }
      }
    }
  }

  /** The repaired `balanceInsertion` still only rotates and recolours. */
  lemma {:induction false} BalanceInsertionKeeps<H>(t: Tree<H>, p: Path)
    requires At(t, p).Node? && Unique(t)
    ensures RedBlackSpec.Rearranged(t, BalanceInsertion(t, p).tree)
    decreases |p|, ZigZag(p), 1
  {
    if p == [] {
      PaintKeeps(t, p, Black);
    } else {
      var pp := Parent(p);
      assert p == pp + [Last(p)];
      NodeReaches(t, p);
      Steps(t, pp, Last(p));
      if At(t, pp).color != Red || pp == [] {
        assert BalanceInsertion(t, p).tree == t;
      } else if ColorOf(At(t, Parent(pp) + [Other(Last(pp))])) == Red {
        RecolourThenKeeps(t, p);
      } else if Last(p) != Last(pp) {
        ZigZagThenKeeps(t, p);
      } else {
        AlignedKeeps(t, p);
      }
    }
  }

  /** The aligned case of `BalanceInsertionKeeps`. */
  lemma AlignedKeeps<H>(t: Tree<H>, p: Path)
    requires At(t, p).Node? && Unique(t) && |p| >= 2 && At(t, Parent(p)).Node? && At(t, Parent(p)).color == Red
    requires ColorOf(At(t, Parent(Parent(p)) + [Other(Last(Parent(p)))])) == Black
    requires Last(p) == Last(Parent(p))
    ensures RedBlackSpec.Rearranged(t, BalanceInsertion(t, p).tree)
  {
    var pp := Parent(p);
    var gp := Parent(pp);
    assert p == pp + [Last(p)];
    assert pp == gp + [Last(pp)];
    NodeReaches(t, p);
    Steps(t, pp, Last(p));
    Steps(t, gp, Last(pp));
    RedBlackSpec.RotateAndPaintKeeps(t, gp);
  }

  /** The red-uncle case of `BalanceInsertionKeeps`. */
  lemma {:induction false} RecolourThenKeeps<H>(t: Tree<H>, p: Path)
    requires At(t, p).Node? && Unique(t) && |p| >= 2 && At(t, Parent(p)).Node? && At(t, Parent(p)).color == Red
    requires ColorOf(At(t, Parent(Parent(p)) + [Other(Last(Parent(p)))])) == Red
    ensures RedBlackSpec.Rearranged(t, BalanceInsertion(t, p).tree)
    decreases |p|, ZigZag(p), 0
  {
    var pp := Parent(p);
    var gp := Parent(pp);
    var up := gp + [Other(Last(pp))];
    var t1 := PaintAt(PaintAt(PaintAt(t, up, Black), pp, Black), gp, Red);
    assert pp == gp + [Last(pp)];
    NodeReaches(t, pp);
    Steps(t, gp, Last(pp));
    RedBlackSpec.RecolourKeeps(t, up, pp, gp);
    assert BalanceInsertion(t, p) == BalanceInsertion(t1, gp);
    BalanceInsertionKeeps(t1, gp);
  }

  /** The zig-zag case of `BalanceInsertionKeeps`. */
  lemma {:induction false} ZigZagThenKeeps<H>(t: Tree<H>, p: Path)
    requires At(t, p).Node? && Unique(t) && |p| >= 2 && At(t, Parent(p)).Node? && At(t, Parent(p)).color == Red
    requires ColorOf(At(t, Parent(Parent(p)) + [Other(Last(Parent(p)))])) == Black
    requires Last(p) != Last(Parent(p))
    ensures RedBlackSpec.Rearranged(t, BalanceInsertion(t, p).tree)
    decreases |p|, ZigZag(p), 0
  {
    var pp := Parent(p);
    assert p == pp + [Last(p)];
    NodeReaches(t, p);
    Steps(t, pp, Last(p));
    if Last(p) == R {
      RotateKeeps(t, pp, L);
      assert Parent(pp + [L]) == pp;
      assert BalanceInsertion(t, p) == BalanceInsertion(RotateLeftAt(t, pp), pp + [L]);
      BalanceInsertionKeeps(RotateLeftAt(t, pp), pp + [L]);
    } else {
      RotateKeeps(t, pp, R);
      assert Parent(pp + [R]) == pp;
      assert BalanceInsertion(t, p) == BalanceInsertion(RotateRightAt(t, pp), pp + [R]);
      BalanceInsertionKeeps(RotateRightAt(t, pp), pp + [R]);
    }
  }

  /**
   * The rotation of the zig-zag case keeps the nodes and their order, and
   * leaves the old parent one step below on side d.
   */
  lemma RotateKeeps<H>(t: Tree<H>, pp: Path, d: Dir)
    requires At(t, pp).Node? && Child(At(t, pp), Other(d)).Node? && Unique(t)
    ensures d == L ==> RedBlackSpec.Rearranged(t, RotateLeftAt(t, pp)) && At(RotateLeftAt(t, pp), pp + [L]).Node?
    ensures d == R ==> RedBlackSpec.Rearranged(t, RotateRightAt(t, pp)) && At(RotateRightAt(t, pp), pp + [R]).Node?
  {
    RotateAt(t, pp);
    NodeReaches(t, pp);
    if d == L {
      AtPutBelow(t, pp, [L], RotateLeft(At(t, pp)));
      OneStep(RotateLeft(At(t, pp)), L, Nil);
    } else {
      AtPutBelow(t, pp, [R], RotateRight(At(t, pp)));
      OneStep(RotateRight(At(t, pp)), R, Nil);
    }
  }

  /**
   * `insert` on the root of a red-black tree with distinct handles, given a
   * fresh handle, with the repaired rebalancing: no error, the result is a
   * red-black tree again with exactly one key more (or is the same tree when
   * the key is present), and so its height stays within 2 log2(n + 1) for n
   * nodes.
   */
  lemma InsertKeepsRedBlack<H>(t: Tree<H>, k: int, h: H)
    requires t.Node? && IsRedBlack(t) && Unique(t) && h !in Handles(t)
    ensures var o := Insert(t, [], k, h);
      && o.halt == RedBlackSpec.Finished
      && IsRedBlack(o.tree) && Unique(o.tree)
      && Keys(o.tree) == Keys(t) + {k}
      && (k in Keys(t) ==> o.tree == t)
      && (k !in Keys(t) ==> Handles(o.tree) == Handles(t) + {h} && Size(o.tree) == Size(t) + 1)
      && Pow2(Height(o.tree)) <= (Size(o.tree) + 1) * (Size(o.tree) + 1)
  {
    var q := BinarySearchTree.Find(t, k);
    assert [] + q == q;
    BinarySearchTree.FindLocates(t, k);
    if k !in Keys(t) {
      InsertNewKey(t, k, h);
    }
    HeightBound(Insert(t, [], k, h).tree);
  }

  /** The case of `InsertKeepsRedBlack` where k is absent and a leaf is linked in. */
  lemma InsertNewKey<H>(t: Tree<H>, k: int, h: H)
    requires t.Node? && IsRedBlack(t) && Unique(t) && h !in Handles(t) && k !in Keys(t)
    ensures var o := Insert(t, [], k, h);
      && o.halt == RedBlackSpec.Finished
      && IsRedBlack(o.tree) && Unique(o.tree)
      && Keys(o.tree) == Keys(t) + {k}
      && Handles(o.tree) == Handles(t) + {h} && Size(o.tree) == Size(t) + 1
  {
    var q := BinarySearchTree.Find(t, k);
    assert [] + q == q;
    var d := BinarySearchTree.Side(At(t, q).key, k);
    var leaf := Node(h, Red, k, Nil, Nil);
    var p := q + [d];
    var u := Put(t, p, leaf);
    assert At(t, q).key != k && Reaches(t, p) && At(t, p).Nil? && At(u, p) == leaf by {
      BinarySearchTree.FindLocates(t, k);
      Steps(t, q, d);
      PutAt(t, p, leaf);
    }
    assert Insert(t, [], k, h) == BalanceInsertion(u, p);
    assert IsBST(u) && Keys(u) == Keys(t) + {k} && Size(u) == Size(t) + 1 by {
      BinarySearchTree.InsertionPoint(t, k, leaf);
    }
    assert Unique(u) && Handles(u) == Handles(t) + {h} by {
      UniqueFrame(t, p);
      HandlesPut(t, p, leaf);
      UniquePut(t, p, leaf);
    }
    assert Pending(u, p) by {
      PutSelf(t, p);
      FitsPut(t, p, At(t, p));
      FitsFrame(t, p, leaf, Black);
      BalancedPut(t, p, leaf);
      RedBlackSpec.PutBelowRoot(t, p, leaf);
    }
    BalanceInsertionKeeps(u, p);
    BalanceInsertionRepairs(u, p);
  }
}
