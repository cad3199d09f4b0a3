/**
 * The deletion rebalancing of src/main/RedBlackTree.java with its three
 * faults repaired, the inputs that show each fault, and the proof that,
 * repaired, a deletion from a red-black tree gives a red-black tree.
 *
 * The faults, all in `balanceDeletion`:
 * - the red-nephew case only paints the red nephew black, so under a red
 *   parent the restructured subtree has unequal black heights
 *   (`RedNephewUnbalances`); the repair gives the node on top the parent's
 *   colour and paints both its children black;
 * - the near red nephew is lifted by hand-written link updates that are
 *   right only at the root: below it the grandparent keeps pointing at the
 *   old parent and part of the tree is lost (`NearNephewBreaksLinks`); the
 *   repair makes the same double rotation with two library rotations;
 * - the red-sibling case always calls `rotateLeft` on the parent, also when
 *   the node is the right child, where that lifts the node itself or links
 *   the sentinel into the tree (`RightNodeBreaksLinks`); the repair rotates
 *   towards the node's side.
 */
module DeletionRepair {
  import opened Trees
  import BinarySearchTree
  import RedBlackSpec
  import InsertionRepair

  // ---------------------------------------------------------------------
  // The repaired rebalancing
  // ---------------------------------------------------------------------

  /** The side `getSibling` takes the node or sentinel at p to be on. */
  function Side<H>(t: Tree<H>, p: Path): Dir
    requires p != []
  {
    if RedBlackSpec.SeenLeft(t, p) then L else R
  }

  /** n painted c; the sentinel stays black. */
  function Painted<H>(n: Tree<H>, c: Color): Tree<H>
  {
    if n.Node? then n.(color := c) else n
  }

  /**
   * The red-nephew case on the parent subtree P, whose black child on side
   * sd has a red child (the left one is taken when both are red, as in the
   * source). A red child on the near side is first rotated above its
   * parent; then P is rotated away from sd. The node that ends on top takes
   * P's colour and both its children turn black.
   */
  function RestructureNephew<H>(P: Tree<H>, sd: Dir): Tree<H>
    requires P.Node? && Child(P, sd).Node?
    requires ColorOf(Child(P, sd).left) == Red || ColorOf(Child(P, sd).right) == Red
  {
    var S := Child(P, sd);
    var near := if ColorOf(S.left) == Red then sd == R else sd == L;
    var top :=
      if sd == L then RotateRight(if near then P.(left := RotateLeft(S)) else P)
      else RotateLeft(if near then P.(right := RotateRight(S)) else P);
    Node(top.handle, P.color, top.key, Painted(top.left, Black), Painted(top.right, Black))
  }

  /**
   * The red-sibling case on the parent subtree P, for a node on side d: P
   * is rotated towards d, the sibling that comes up turns black and P,
   * now its child on side d, turns red.
   */
  function LiftSibling<H>(P: Tree<H>, d: Dir): Tree<H>
    requires P.Node? && Child(P, Other(d)).Node?
  {
    if d == L then
      var top := RotateLeft(P);
      top.(color := Black, left := top.left.(color := Red))
    else
      var top := RotateRight(P);
      top.(color := Black, right := top.right.(color := Red))
  }

  /** `RedBlackSpec.BalanceDeletion` with the repaired cases. */
  function BalanceDeletion<H>(t: Tree<H>, p: Path, dc: Color): (o: RedBlackSpec.Outcome<H>)
    requires t.Node? && Reaches(t, p)
    decreases RedBlackSpec.Outside(t, p), if p == [] then 0 else Size(At(t, RedBlackSpec.SiblingPath(t, p))), 2
  {
    var c := ColorOf(At(t, p));
    if (dc == Black && c == Red) || (dc == Red && c == Black) then
      RedBlackSpec.Outcome(PaintAt(t, p, Black), RedBlackSpec.Finished)
    else if dc == Red then RedBlackSpec.Outcome(t, RedBlackSpec.Finished)
    else if p == [] then RedBlackSpec.Outcome(t, RedBlackSpec.NullDereference)
    else SiblingStep(t, p)
  }

  /** `RedBlackSpec.SiblingStep` with the repaired red-nephew and red-sibling cases. */
  function SiblingStep<H>(t: Tree<H>, p: Path): (o: RedBlackSpec.Outcome<H>)
    requires t.Node? && Reaches(t, p) && p != []
    decreases RedBlackSpec.Outside(t, p), Size(At(t, RedBlackSpec.SiblingPath(t, p))), 1
  {
    var sp := RedBlackSpec.SiblingPath(t, p);
    var sibling := At(t, sp);
    if sibling.Nil? then RedBlackSpec.Outcome(t, RedBlackSpec.NullDereference)
    else if sibling.color == Black then
      if ColorOf(sibling.left) == Red || ColorOf(sibling.right) == Red then
        var pp := Parent(p);
        ReachesParent(t, p);
        assert sp == pp + [Last(sp)];
        Steps(t, pp, Last(sp));
        RedBlackSpec.Outcome(Put(t, pp, RestructureNephew(At(t, pp), Last(sp))), RedBlackSpec.Finished)
      else
        BlackSiblingStep(t, p)
    else RedSiblingStep(t, p, Black)
  }

  /** `RedBlackSpec.BlackSiblingStep`, going on with the repaired rebalancing. */
  function BlackSiblingStep<H>(t: Tree<H>, p: Path): (o: RedBlackSpec.Outcome<H>)
    requires t.Node? && Reaches(t, p) && p != []
    decreases RedBlackSpec.Outside(t, p), Size(At(t, RedBlackSpec.SiblingPath(t, p))), 0
  {
    var pp := Parent(p);
    ReachesParent(t, p);
    var sp := RedBlackSpec.SiblingPath(t, p);
    var t1 := PaintAt(t, sp, Red);
    if At(t, pp).color == Red then RedBlackSpec.Outcome(PaintAt(t1, pp, Black), RedBlackSpec.Finished)
    else if pp == [] then RedBlackSpec.Outcome(t1, RedBlackSpec.Finished)
    else
      RedBlackSpec.DeletionMovesUp(t, p, sp, Red);
      BalanceDeletion(t1, pp, Black)
  }

  /** The red-sibling case, rotating towards the node, then balancing the node again. */
  function RedSiblingStep<H>(t: Tree<H>, p: Path, dc: Color): (o: RedBlackSpec.Outcome<H>)
    requires t.Node? && Reaches(t, p) && p != [] && At(t, RedBlackSpec.SiblingPath(t, p)).Node?
    decreases RedBlackSpec.Outside(t, p), Size(At(t, RedBlackSpec.SiblingPath(t, p))), 0
  {
    var pp, d := Parent(p), Side(t, p);
    LiftedBelow(t, p);
    BalanceDeletion(Put(t, pp, LiftSibling(At(t, pp), d)), pp + [d, d], dc)
  }

  /**
   * Where the red-sibling repair leaves the node at p, on side d of its
   * parent at pp: at pp + [d, d], with the same subtree, the same nodes
   * outside it and, as new sibling, a child of its old sibling.
   */
  lemma LiftedBelow<H>(t: Tree<H>, p: Path)
    requires t.Node? && Reaches(t, p) && p != [] && At(t, RedBlackSpec.SiblingPath(t, p)).Node?
    ensures var pp, d := Parent(p), Side(t, p);
      && At(t, pp).Node? && Child(At(t, pp), Other(d)).Node?
      && RedBlackSpec.SiblingPath(t, p) == pp + [Other(d)]
      && Child(At(t, pp), d) == At(t, p)
      && var u := Put(t, pp, LiftSibling(At(t, pp), d));
      && u.Node? && Reaches(u, pp + [d, d]) && At(u, pp + [d, d]) == At(t, p)
      && RedBlackSpec.Outside(u, pp + [d, d]) == RedBlackSpec.Outside(t, p)
      && Size(At(u, RedBlackSpec.SiblingPath(u, pp + [d, d]))) < Size(At(t, RedBlackSpec.SiblingPath(t, p)))
  {
    LiftedPaths(t, p);
    var pp, d := Parent(p), Side(t, p);
    var P := At(t, pp);
    var S := Child(P, Other(d));
    var Y := LiftSibling(P, d);
    var u := Put(t, pp, Y);
    var N := Child(Y, d);
    var q := pp + [d, d];
    assert InOrder(Y) == InOrder(P) by {
      if d == L {
        assert InOrder(Y) == InOrder(RotateLeft(P));
      } else {
        assert InOrder(Y) == InOrder(RotateRight(P));
      }
    }
    SizePut(t, pp, Y);
    RedBlackSpec.OutsideSize(t, p);
    RedBlackSpec.OutsideSize(u, q);
    var e := if RedBlackSpec.SeenLeft(u, q) then R else L;
    assert RedBlackSpec.SiblingPath(u, q) == pp + [d, e];
    assert At(u, pp + [d, e]) == Child(N, e) by {
      assert pp + [d] + [e] == pp + [d, e];
      Steps(u, pp + [d], e);
    }
    if e == d {
      assert At(t, p).Nil?;
    } else {
      assert e == Other(d);
      Steps(t, pp, Other(d));
      LiftedSmaller(P, d);
    }
  }

  /** The new sibling the red-sibling repair gives is a child of the old one. */
  lemma LiftedSmaller<H>(P: Tree<H>, d: Dir)
    requires P.Node? && Child(P, Other(d)).Node?
    ensures var N := Child(LiftSibling(P, d), d);
      N.Node? && Size(Child(N, Other(d))) < Size(Child(P, Other(d)))
  {
    var S := Child(P, Other(d));
    assert InOrder(S) == InOrder(S.left) + [S.key] + InOrder(S.right);
  }

  /** The paths of `LiftedBelow`: where the lifted sibling leaves the node at p. */
  lemma LiftedPaths<H>(t: Tree<H>, p: Path)
    requires t.Node? && Reaches(t, p) && p != [] && At(t, RedBlackSpec.SiblingPath(t, p)).Node?
    ensures var pp, d := Parent(p), Side(t, p);
      && Reaches(t, pp) && At(t, pp).Node? && Child(At(t, pp), Other(d)).Node?
      && RedBlackSpec.SiblingPath(t, p) == pp + [Other(d)]
      && Child(At(t, pp), d) == At(t, p)
      && var Y := LiftSibling(At(t, pp), d);
      && var u := Put(t, pp, Y);
      && u.Node? && Reaches(u, pp + [d]) && At(u, pp + [d]) == Child(Y, d)
      && Child(Y, d).Node? && Child(Child(Y, d), d) == At(t, p)
      && Child(Child(Y, d), Other(d)) == Child(Child(At(t, pp), Other(d)), d)
      && Reaches(u, pp + [d, d]) && At(u, pp + [d, d]) == At(t, p)
  {
    var pp, d := Parent(p), Side(t, p);
    assert p == pp + [Last(p)];
    Steps(t, pp, Last(p));
    var P := At(t, pp);
    var S := Child(P, Other(d));
    assert At(t, pp + [Other(d)]) == S && Child(P, d) == At(t, p);
    var Y := LiftSibling(P, d);
    var u := Put(t, pp, Y);
    var N := Child(Y, d);
    assert N.Node? && Child(N, d) == At(t, p);
    assert Child(N, Other(d)) == if d == L then S.left else S.right;
    AtPutBelow(t, pp, [d], Y);
    AtPutBelow(t, pp, [d, d], Y);
    var q := pp + [d, d];
    assert At(u, pp + [d]) == N;
    Steps(u, pp + [d], d);
    assert pp + [d] + [d] == q;
    if pp != [] {
      RedBlackSpec.PutBelowRoot(t, pp, Y);
    }
  }

  // ---------------------------------------------------------------------
  // The repaired rebalancing keeps the red-black rules
  // ---------------------------------------------------------------------

  /** A black node fits wherever a node of any colour does. */
  lemma {:induction false} FitsBlack<H>(t: Tree<H>, g: Path, c: Color)
    requires InsertionRepair.Fits(t, g, c)
    ensures InsertionRepair.Fits(t, g, Black)
    decreases |g|
  {
    if g != [] {
      FitsBlack(Child(t, g[0]), g[1..], c);
    }
  }

  /**
   * The state `balanceDeletion` is called in after a black node was
   * removed: the subtree at p (below the root) keeps the colour rules but is
   * one black node short. With a balanced subtree w one black node taller in
   * its place the tree would be balanced; outside p the colour rules hold
   * for a black node at p, and the root is black.
   */
  ghost predicate Deficient<H>(t: Tree<H>, p: Path, w: Tree<H>)
  {
    && t.Node? && Reaches(t, p) && p != [] && ColorOf(t) == Black
    && NoRedRed(At(t, p)) && InsertionRepair.Fits(t, p, Black)
    && Balanced(At(t, p)) && Balanced(w) && BlackHeight(w) == BlackHeight(At(t, p)) + 1
    && Balanced(Put(t, p, w))
  }

  /**
   * Around a deficient position: the sibling is a real node as tall as w,
   * on the other side, and it is the position `getSibling` returns.
   */
  lemma DeficientFamily<H>(t: Tree<H>, p: Path, w: Tree<H>)
    requires Deficient(t, p, w)
    ensures var pp, d := Parent(p), Last(p);
      var P := At(t, pp);
      var S := Child(P, Other(d));
      && p == pp + [d] && Reaches(t, pp) && P.Node? && Child(P, d) == At(t, p)
      && S.Node? && At(t, pp + [Other(d)]) == S
      && Side(t, p) == d && RedBlackSpec.SiblingPath(t, p) == pp + [Other(d)]
      && NoRedRed(S) && Balanced(S) && BlackHeight(S) == BlackHeight(w)
      && (P.color == Red ==> S.color == Black)
      && InsertionRepair.Fits(t, pp, P.color)
      && Reaches(Put(t, p, w), pp) && At(Put(t, p, w), pp) == Put(P, [d], w)
      && Balanced(Put(P, [d], w))
  {
    var pp, d := Parent(p), Last(p);
    assert p == pp + [d];
    Steps(t, pp, d);
    var P := At(t, pp);
    InsertionRepair.FitsSplit(t, pp, [d], Black);
    assert [d][1..] == [];
    InsertionRepair.OneStep(P, d, w);
    AtPutUnder(t, pp, [d], w);
    PutAppend(t, pp, [d], w);
    ReachesPutSame(t, pp, Put(P, [d], w));
    InsertionRepair.BalancedAt(Put(t, p, w), pp);
  }

  /**
   * A subtree Y as tall as the parent of a deficient p would be with w in
   * p's place can replace that parent and keep the tree balanced.
   */
  lemma ParentBalanced<H>(t: Tree<H>, p: Path, w: Tree<H>, Y: Tree<H>)
    requires Deficient(t, p, w) && Balanced(Y)
    requires BlackHeight(Y) == BlackHeight(Put(At(t, Parent(p)), [Last(p)], w))
    ensures Balanced(Put(t, Parent(p), Y))
  {
    var pp, d := Parent(p), Last(p);
    DeficientFamily(t, p, w);
    InsertionRepair.BalancedPut(Put(t, p, w), pp, Y);
    PutAppend(t, pp, [d], w);
    PutPut(t, pp, Put(At(t, pp), [d], w), Y);
  }

  /**
   * A case that ends the rebalancing puts, in place of the parent of a
   * deficient p, a subtree that keeps the colour rules, is black or of the
   * parent's colour, and is as tall as the parent would be with w in p's
   * place: the whole tree is then coloured as a red-black tree.
   */
  lemma Closes<H>(t: Tree<H>, p: Path, w: Tree<H>, Y: Tree<H>)
    requires Deficient(t, p, w)
    requires Y.Node? && NoRedRed(Y) && Balanced(Y)
    requires Y.color == Black || Y.color == ColorOf(At(t, Parent(p)))
    requires BlackHeight(Y) == BlackHeight(Put(At(t, Parent(p)), [Last(p)], w))
    requires Parent(p) == [] ==> Y.color == Black
    ensures var u := Put(t, Parent(p), Y);
      u.Node? && ColorOf(u) == Black && NoRedRed(u) && Balanced(u)
  {
    var pp := Parent(p);
    DeficientFamily(t, p, w);
    ParentBalanced(t, p, w, Y);
    FitsBlack(t, pp, At(t, pp).color);
    InsertionRepair.FitsPut(t, pp, Y);
    if pp != [] {
      RedBlackSpec.PutBelowRoot(t, pp, Y);
    }
  }

  /** A red node at a deficient position is painted black, which ends the rebalancing. */
  lemma PaintRepairs<H>(t: Tree<H>, p: Path, w: Tree<H>)
    requires Deficient(t, p, w) && ColorOf(At(t, p)) == Red
    ensures var u := PaintAt(t, p, Black);
      u.Node? && ColorOf(u) == Black && NoRedRed(u) && Balanced(u)
  {
    var Nb := At(t, p).(color := Black);
    PutAt(t, p, w);
    ReachesPutSame(t, p, w);
    InsertionRepair.BalancedPut(Put(t, p, w), p, Nb);
    PutPut(t, p, w, Nb);
    InsertionRepair.FitsPut(t, p, Nb);
    RedBlackSpec.PutBelowRoot(t, p, Nb);
  }

  /**
   * The repaired red-nephew case on the parent subtree P of a black node N
   * on side d, one black node shorter than its black sibling S: the result
   * keeps the colour rules, has P's colour and is as tall as P would be
   * with N one black node taller.
   */
  lemma RestructureNephewRepairs<H>(P: Tree<H>, d: Dir)
    requires P.Node?
    requires var N, S := Child(P, d), Child(P, Other(d));
      && S.Node? && S.color == Black && (ColorOf(S.left) == Red || ColorOf(S.right) == Red)
      && ColorOf(N) == Black && NoRedRed(N) && NoRedRed(S) && Balanced(N) && Balanced(S)
      && BlackHeight(S) == BlackHeight(N) + 1
    ensures var Y := RestructureNephew(P, Other(d));
      && Y.Node? && Y.color == P.color && NoRedRed(Y) && Balanced(Y)
      && BlackHeight(Y) == BlackHeight(Child(P, Other(d))) + (if P.color == Black then 1 else 0)
  {
    var N, S := Child(P, d), Child(P, Other(d));
    var Y := RestructureNephew(P, Other(d));
    if d == L {
      if ColorOf(S.left) == Red {
        var C := S.left;
        assert Y == Node(C.handle, P.color, C.key,
          Node(P.handle, Black, P.key, N, C.left), Node(S.handle, Black, S.key, C.right, S.right));
      } else {
        assert Y == Node(S.handle, P.color, S.key,
          Node(P.handle, Black, P.key, N, S.left), S.right.(color := Black));
      }
    } else {
      if ColorOf(S.left) == Red {
        assert Y == Node(S.handle, P.color, S.key,
          S.left.(color := Black), Node(P.handle, Black, P.key, S.right, N));
      } else {
        var C := S.right;
        assert Y == Node(C.handle, P.color, C.key,
          Node(S.handle, Black, S.key, S.left, C.left), Node(P.handle, Black, P.key, C.right, N));
      }
    }
  }

  /** The repaired case for a black sibling with a red child ends the rebalancing. */
  lemma NephewRepairs<H>(t: Tree<H>, p: Path, w: Tree<H>)
    requires Deficient(t, p, w) && ColorOf(At(t, p)) == Black
    requires var P := At(t, Parent(p));
      P.Node? && var S := Child(P, Other(Last(p)));
      S.Node? && S.color == Black && (ColorOf(S.left) == Red || ColorOf(S.right) == Red)
    ensures var pp, d := Parent(p), Last(p);
      var u := Put(t, pp, RestructureNephew(At(t, pp), Other(d)));
      u.Node? && ColorOf(u) == Black && NoRedRed(u) && Balanced(u)
  {
    var pp, d := Parent(p), Last(p);
    DeficientFamily(t, p, w);
    var P := At(t, pp);
    RestructureNephewRepairs(P, d);
    InsertionRepair.OneStep(P, d, w);
    Closes(t, p, w, RestructureNephew(P, Other(d)));
  }

  /** Recolouring a child of the node at pp is a replacement of that node. */
  lemma PaintChild<H>(t: Tree<H>, pp: Path, e: Dir, c: Color)
    requires Reaches(t, pp) && At(t, pp).Node? && Child(At(t, pp), e).Node?
    ensures var P := At(t, pp);
      PaintAt(t, pp + [e], c) == Put(t, pp, Put(P, [e], Child(P, e).(color := c)))
  {
    var P := At(t, pp);
    AtChild(t, pp, e);
    PutAppend(t, pp, [e], Child(P, e).(color := c));
  }

  /**
   * The repaired black-sibling case that ends the rebalancing: the sibling
   * has no red child and turns red, and a red parent turns black, or the
   * parent is the root.
   */
  lemma RecolourRepairs<H>(t: Tree<H>, p: Path, w: Tree<H>)
    requires Deficient(t, p, w) && ColorOf(At(t, p)) == Black
    requires var P := At(t, Parent(p));
      P.Node? && var S := Child(P, Other(Last(p)));
      S.Node? && S.color == Black && ColorOf(S.left) == Black && ColorOf(S.right) == Black
    requires ColorOf(At(t, Parent(p))) == Red || Parent(p) == []
    ensures var o := BlackSiblingStep(t, p);
      o.halt == RedBlackSpec.Finished && o.tree.Node? && ColorOf(o.tree) == Black && NoRedRed(o.tree) && Balanced(o.tree)
  {
    var pp, d := Parent(p), Last(p);
    DeficientFamily(t, p, w);
    var P := At(t, pp);
    var S := Child(P, Other(d));
    var P1 := Put(P, [Other(d)], S.(color := Red));
    InsertionRepair.OneStep(P, Other(d), S.(color := Red));
    InsertionRepair.OneStep(P, d, w);
    PaintChild(t, pp, Other(d), Red);
    var t1 := Put(t, pp, P1);
    ReachesPutSame(t, pp, P1);
    PutAt(t, pp, P1);
    if P.color == Red {
      PutPut(t, pp, P1, P1.(color := Black));
      Closes(t, p, w, P1.(color := Black));
    } else {
      assert t1 == P1;
    }
  }

  /**
   * The repaired black-sibling case that goes on: the sibling turns red and
   * the black parent, below the root, is now the deficient position.
   */
  lemma RecolourMovesUp<H>(t: Tree<H>, p: Path, w: Tree<H>)
    requires Deficient(t, p, w) && ColorOf(At(t, p)) == Black
    requires var P := At(t, Parent(p));
      P.Node? && var S := Child(P, Other(Last(p)));
      S.Node? && S.color == Black && ColorOf(S.left) == Black && ColorOf(S.right) == Black
    requires ColorOf(At(t, Parent(p))) == Black && Parent(p) != []
    ensures var pp, d := Parent(p), Last(p);
      Deficient(PaintAt(t, RedBlackSpec.SiblingPath(t, p), Red), pp, Put(At(t, pp), [d], w))
  {
    var pp, d := Parent(p), Last(p);
    DeficientFamily(t, p, w);
    var P := At(t, pp);
    var S := Child(P, Other(d));
    var P1 := Put(P, [Other(d)], S.(color := Red));
    var w1 := Put(P, [d], w);
    InsertionRepair.OneStep(P, Other(d), S.(color := Red));
    InsertionRepair.OneStep(P, d, w);
    PaintChild(t, pp, Other(d), Red);
    var t1 := Put(t, pp, P1);
    ReachesPutSame(t, pp, P1);
    PutAt(t, pp, P1);
    RedBlackSpec.PutBelowRoot(t, pp, P1);
    InsertionRepair.FitsFrame(t, pp, P1, Black);
    PutPut(t, pp, P1, w1);
    PutAppend(t, pp, [d], w);
  }

  /**
   * The repaired red-sibling case on the black parent subtree P of a node N
   * on side d, one black node shorter than its red sibling S: after the
   * rotation N is below a red node whose other child is black, and with w
   * in N's place the subtree is balanced and one black node taller than w.
   */
  lemma LiftSiblingRepairs<H>(P: Tree<H>, d: Dir, w: Tree<H>)
    requires P.Node? && P.color == Black
    requires var N, S := Child(P, d), Child(P, Other(d));
      && S.Node? && S.color == Red && NoRedRed(S) && Balanced(S) && Balanced(N) && Balanced(w)
      && BlackHeight(S) == BlackHeight(N) + 1 && BlackHeight(w) == BlackHeight(N) + 1
    ensures var Y := LiftSibling(P, d);
      && Y.Node? && Y.color == Black && InsertionRepair.Fits(Y, [d, d], Black)
      && Balanced(Put(Y, [d, d], w)) && BlackHeight(Put(Y, [d, d], w)) == BlackHeight(w) + 1
  {
    var N, S := Child(P, d), Child(P, Other(d));
    var Y := LiftSibling(P, d);
    assert [d, d][1..] == [d] && [d][1..] == [] && [d] + [d] == [d, d];
    InsertionRepair.OneStep(Child(Y, d), d, w);
    InsertionRepair.OneStep(Y, d, Put(Child(Y, d), [d], w));
    PutAppend(Y, [d], [d], w);
    if d == L {
      assert Y == Node(S.handle, Black, S.key, Node(P.handle, Red, P.key, N, S.left), S.right);
      assert Put(Y, [d, d], w) == Node(S.handle, Black, S.key, Node(P.handle, Red, P.key, w, S.left), S.right);
    } else {
      assert Y == Node(S.handle, Black, S.key, S.left, Node(P.handle, Red, P.key, S.right, N));
      assert Put(Y, [d, d], w) == Node(S.handle, Black, S.key, S.left, Node(P.handle, Red, P.key, S.right, w));
    }
  }

  /**
   * The repaired red-sibling case: after the rotation the node, two levels
   * lower, is deficient again, with the same w.
   */
  lemma LiftRepairs<H>(t: Tree<H>, p: Path, w: Tree<H>)
    requires Deficient(t, p, w)
    requires var P := At(t, Parent(p));
      P.Node? && var S := Child(P, Other(Last(p)));
      S.Node? && S.color == Red
    ensures var pp, d := Parent(p), Last(p);
      Deficient(Put(t, pp, LiftSibling(At(t, pp), d)), pp + [d, d], w)
  {
    var pp, d := Parent(p), Last(p);
    DeficientFamily(t, p, w);
    LiftedBelow(t, p);
    var P := At(t, pp);
    var Y := LiftSibling(P, d);
    var Y' := Put(Y, [d, d], w);
    var u := Put(t, pp, Y);
    var q := pp + [d, d];
    LiftSiblingRepairs(P, d, w);
    InsertionRepair.OneStep(P, d, w);
    PutAt(t, pp, Y);
    ReachesPutSame(t, pp, Y);
    if pp != [] {
      RedBlackSpec.PutBelowRoot(t, pp, Y);
    }
    InsertionRepair.FitsFrame(t, pp, Y, Black);
    InsertionRepair.FitsSplit(u, pp, [d, d], Black);
    PutAppend(u, pp, [d, d], w);
    PutPut(t, pp, Y, Y');
    ParentBalanced(t, p, w, Y');
  }

  /**
   * The repaired `balanceDeletion` on a deficient position finishes and
   * leaves a tree coloured as a red-black tree.
   */
  lemma {:induction false} BalanceDeletionRepairs<H>(t: Tree<H>, p: Path, w: Tree<H>)
    requires Deficient(t, p, w)
    ensures var o := BalanceDeletion(t, p, Black);
      && o.halt == RedBlackSpec.Finished && o.tree.Node?
      && ColorOf(o.tree) == Black && NoRedRed(o.tree) && Balanced(o.tree)
    decreases RedBlackSpec.Outside(t, p), Size(At(t, RedBlackSpec.SiblingPath(t, p))), 1
  {
    if ColorOf(At(t, p)) == Red {
      PaintRepairs(t, p, w);
    } else {
      SiblingStepRepairs(t, p, w);
    }
  }

  /** The sibling cases of `BalanceDeletionRepairs`. */
  lemma {:induction false} SiblingStepRepairs<H>(t: Tree<H>, p: Path, w: Tree<H>)
    requires Deficient(t, p, w) && ColorOf(At(t, p)) == Black
    ensures var o := SiblingStep(t, p);
      && o.halt == RedBlackSpec.Finished && o.tree.Node?
      && ColorOf(o.tree) == Black && NoRedRed(o.tree) && Balanced(o.tree)
    decreases RedBlackSpec.Outside(t, p), Size(At(t, RedBlackSpec.SiblingPath(t, p))), 0
  {
    var pp, d := Parent(p), Last(p);
    DeficientFamily(t, p, w);
    var P := At(t, pp);
    var S := Child(P, Other(d));
    var sp := pp + [Other(d)];
    assert Last(sp) == Other(d);
    if S.color == Black {
      if ColorOf(S.left) == Red || ColorOf(S.right) == Red {
        NephewRepairs(t, p, w);
      } else if P.color == Red || pp == [] {
        RecolourRepairs(t, p, w);
      } else {
        RecolourMovesUp(t, p, w);
        RedBlackSpec.DeletionMovesUp(t, p, sp, Red);
        BalanceDeletionRepairs(PaintAt(t, sp, Red), pp, Put(P, [d], w));
      }
    } else {
      LiftRepairs(t, p, w);
      LiftedBelow(t, p);
      BalanceDeletionRepairs(Put(t, pp, LiftSibling(P, d)), pp + [d, d], w);
    }
  }

  // ---------------------------------------------------------------------
  // The repaired rebalancing only rotates and recolours
  // ---------------------------------------------------------------------

  lemma RestructureNephewKeeps<H>(P: Tree<H>, sd: Dir)
    requires P.Node? && Child(P, sd).Node?
    requires ColorOf(Child(P, sd).left) == Red || ColorOf(Child(P, sd).right) == Red
    ensures var Y := RestructureNephew(P, sd);
      && Y.Node? && InOrder(Y) == InOrder(P) && Handles(Y) == Handles(P)
      && (Unique(P) ==> Unique(Y))
  {
    var S := Child(P, sd);
    var near := if ColorOf(S.left) == Red then sd == R else sd == L;
    var P' := if !near then P else if sd == L then P.(left := RotateLeft(S)) else P.(right := RotateRight(S));
    assert InOrder(P') == InOrder(P) && Handles(P') == Handles(P);
    var top := if sd == L then RotateRight(P') else RotateLeft(P');
    var Y := RestructureNephew(P, sd);
    assert Y == Node(top.handle, P.color, top.key, Painted(top.left, Black), Painted(top.right, Black));
    assert InOrder(Painted(top.left, Black)) == InOrder(top.left) && Handles(Painted(top.left, Black)) == Handles(top.left);
    assert InOrder(Painted(top.right, Black)) == InOrder(top.right) && Handles(Painted(top.right, Black)) == Handles(top.right);
    if Unique(P) {
      RotateUnique(S);
      RotateUnique(P');
    }
  }

  lemma LiftSiblingKeeps<H>(P: Tree<H>, d: Dir)
    requires P.Node? && Child(P, Other(d)).Node?
    ensures var Y := LiftSibling(P, d);
      && Y.Node? && InOrder(Y) == InOrder(P) && Handles(Y) == Handles(P)
      && (Unique(P) ==> Unique(Y))
  {
    if Unique(P) {
      RotateUnique(P);
    }
  }

  /** Replacing the subtree at pp by a rearrangement of it rearranges the tree. */
  lemma ReplaceKeeps<H>(t: Tree<H>, pp: Path, Y: Tree<H>)
    requires Reaches(t, pp) && Unique(t) && t.Node?
    requires InOrder(Y) == InOrder(At(t, pp)) && Handles(Y) == Handles(At(t, pp))
    requires Unique(At(t, pp)) ==> Unique(Y)
    requires pp == [] ==> Y.Node?
    ensures RedBlackSpec.Rearranged(t, Put(t, pp, Y))
  {
    UniqueFrame(t, pp);
    InOrderReplace(t, pp, Y);
    UniqueReplace(t, pp, Y);
  }

  /**
   * The repaired `balanceDeletion` never stops before links it would break;
   * the tree keeps its nodes and its in-order sequence of keys.
   */
  lemma {:induction false} BalanceDeletionKeeps<H>(t: Tree<H>, p: Path, dc: Color)
    requires t.Node? && Reaches(t, p) && Unique(t)
    ensures BalanceDeletion(t, p, dc).halt != RedBlackSpec.BrokenLinks
    ensures RedBlackSpec.Rearranged(t, BalanceDeletion(t, p, dc).tree)
    decreases RedBlackSpec.Outside(t, p), if p == [] then 0 else Size(At(t, RedBlackSpec.SiblingPath(t, p))), 1
  {
    var c := ColorOf(At(t, p));
    if (dc == Black && c == Red) || (dc == Red && c == Black) {
      PaintKeeps(t, p, Black);
    } else if dc == Red || p == [] {
    } else {
      SiblingStepKeeps(t, p);
    }
  }

  /** The sibling cases of `BalanceDeletionKeeps`. */
  lemma {:induction false} SiblingStepKeeps<H>(t: Tree<H>, p: Path)
    requires t.Node? && Reaches(t, p) && Unique(t) && p != []
    ensures SiblingStep(t, p).halt != RedBlackSpec.BrokenLinks
    ensures RedBlackSpec.Rearranged(t, SiblingStep(t, p).tree)
    decreases RedBlackSpec.Outside(t, p), Size(At(t, RedBlackSpec.SiblingPath(t, p))), 0
  {
    var pp := Parent(p);
    ReachesParent(t, p);
    var sp := RedBlackSpec.SiblingPath(t, p);
    var sibling := At(t, sp);
    if sibling.Nil? {
    } else if sibling.color == Black {
      if ColorOf(sibling.left) == Red || ColorOf(sibling.right) == Red {
        assert sp == pp + [Last(sp)];
        Steps(t, pp, Last(sp));
        RestructureNephewKeeps(At(t, pp), Last(sp));
        ReplaceKeeps(t, pp, RestructureNephew(At(t, pp), Last(sp)));
      } else {
        var t1 := PaintAt(t, sp, Red);
        PaintKeeps(t, sp, Red);
        if At(t, pp).color == Red {
          PaintKeeps(t1, pp, Black);
        } else if pp != [] {
          RedBlackSpec.DeletionMovesUp(t, p, sp, Red);
          BalanceDeletionKeeps(t1, pp, Black);
        }
      }
    } else {
      var d := Side(t, p);
      LiftedBelow(t, p);
      var u := Put(t, pp, LiftSibling(At(t, pp), d));
      LiftSiblingKeeps(At(t, pp), d);
      NodeReaches(t, pp);
      ReplaceKeeps(t, pp, LiftSibling(At(t, pp), d));
      BalanceDeletionKeeps(u, pp + [d, d], Black);
    }
  }

  // ---------------------------------------------------------------------
  // Deletion with the repaired rebalancing
  // ---------------------------------------------------------------------

  /** `RedBlackSpec.RemoveNode`, rebalancing with the repaired `BalanceDeletion`. */
  function RemoveNode<H>(t: Tree<H>, q: Path): (o: RedBlackSpec.Outcome<H>)
    requires At(t, q).Node? && (At(t, q).left.Nil? || At(t, q).right.Nil?)
  {
    var z := At(t, q);
    var replacer := if z.left.Nil? then z.right else z.left;
    if replacer.Nil? && q == [] then RedBlackSpec.Outcome(t, RedBlackSpec.Finished)
    else
      NodeReaches(t, q);
      PutAt(t, q, replacer);
      ReachesPutSame(t, q, replacer);
      BalanceDeletion(Put(t, q, replacer), q, z.color)
  }

  /** `RedBlackSpec.RemoveSuccessor`, removing the successor with the repaired `RemoveNode`. */
  function RemoveSuccessor<H>(t: Tree<H>, q: Path): (o: RedBlackSpec.Outcome<H>)
    requires At(t, q).Node? && At(t, q).left.Node? && At(t, q).right.Node?
  {
    var z := At(t, q);
    var s := q + BinarySearchTree.Successor(z);
    AtAppend(t, q, BinarySearchTree.Successor(z));
    var t1 := Put(t, q, z.(key := At(t, s).key));
    NodeReaches(t, q);
    AtPutBelow(t, q, BinarySearchTree.Successor(z), z.(key := At(t, s).key));
    RemoveNode(t1, s)
  }

  /** `RedBlackSpec.Delete` called on the root, with the repaired rebalancing. */
  function Delete<H>(t: Tree<H>, k: int): (o: RedBlackSpec.Outcome<H>)
    requires t.Node?
  {
    var q := BinarySearchTree.Find(t, k);
    var z := At(t, q);
    if z.key != k then RedBlackSpec.Outcome(t, RedBlackSpec.Finished)
    else if z.left.Nil? || z.right.Nil? then RemoveNode(t, q)
    else RemoveSuccessor(t, q)
  }

  /**
   * With the repaired rebalancing, removing a node with at most one real
   * child takes exactly its key out of the in-order sequence and its handle
   * out of the tree, unless it is the only node, which stays.
   */
  lemma RemoveNodeKeeps<H>(t: Tree<H>, q: Path)
    requires At(t, q).Node? && (At(t, q).left.Nil? || At(t, q).right.Nil?) && Unique(t)
    ensures var z, o := At(t, q), RemoveNode(t, q);
      if q == [] && z.left.Nil? && z.right.Nil? then o == RedBlackSpec.Outcome(t, RedBlackSpec.Finished)
      else
        && o.halt != RedBlackSpec.BrokenLinks && Unique(o.tree) && o.tree.Node?
        && InOrder(o.tree) == Before(t, q) + InOrder(z.left) + InOrder(z.right) + After(t, q)
        && Handles(o.tree) == Handles(t) - {z.handle}
  {
    var z := At(t, q);
    var replacer := if z.left.Nil? then z.right else z.left;
    if !(q == [] && z.left.Nil? && z.right.Nil?) {
      var t1 := Put(t, q, replacer);
      RedBlackSpec.ReplaceByChild(t, q);
      if q != [] {
        assert t1.Node?;
      }
      BalanceDeletionKeeps(t1, q, z.color);
    }
  }

  /**
   * With the repaired rebalancing, removing through the successor takes the
   * key of the node at q out of the in-order sequence and the successor's
   * handle out of the tree.
   */
  lemma RemoveSuccessorKeeps<H>(t: Tree<H>, q: Path)
    requires At(t, q).Node? && At(t, q).left.Node? && At(t, q).right.Node? && Unique(t)
    ensures var z, o := At(t, q), RemoveSuccessor(t, q);
      && o.halt != RedBlackSpec.BrokenLinks && Unique(o.tree) && o.tree.Node?
      && InOrder(o.tree) == Before(t, q) + InOrder(z.left) + InOrder(z.right) + After(t, q)
      && Handles(o.tree) == Handles(t) - {At(z, BinarySearchTree.Successor(z)).handle}
  {
    var z := At(t, q);
    var sp := BinarySearchTree.Successor(z);
    var t1 := Put(t, q, z.(key := At(z, sp).key));
    RedBlackSpec.CopySuccessor(t, q);
    RedBlackSpec.SpliceSuccessor(t, q);
    AtAppend(t, q, sp);
    assert RemoveSuccessor(t, q) == RemoveNode(t1, q + sp);
    RemoveNodeKeeps(t1, q + sp);
  }

  /**
   * With the repaired rebalancing, removing a node with at most one real
   * child from a tree coloured as a red-black tree finishes and leaves one.
   */
  lemma RemoveNodeRepairs<H>(t: Tree<H>, q: Path)
    requires ColorOf(t) == Black && NoRedRed(t) && Balanced(t)
    requires At(t, q).Node? && (At(t, q).left.Nil? || At(t, q).right.Nil?)
    requires !(q == [] && At(t, q).left.Nil? && At(t, q).right.Nil?)
    ensures var o := RemoveNode(t, q);
      && o.halt == RedBlackSpec.Finished && o.tree.Node?
      && ColorOf(o.tree) == Black && NoRedRed(o.tree) && Balanced(o.tree)
  {
    var z := At(t, q);
    var r := if z.left.Nil? then z.right else z.left;
    var t1 := Put(t, q, r);
    NodeReaches(t, q);
    PutAt(t, q, r);
    ReachesPutSame(t, q, r);
    InsertionRepair.BalancedAt(t, q);
    PutSelf(t, q);
    InsertionRepair.FitsPut(t, q, z);
    FitsBlack(t, q, z.color);
    if z.color == Red || ColorOf(r) == Black {
      assert r.Nil?;
    }
    if z.color == Red {
      assert q != [];
      InsertionRepair.BalancedPut(t, q, r);
      InsertionRepair.FitsPut(t, q, r);
      RedBlackSpec.PutBelowRoot(t, q, r);
    } else if r.Node? {
      var rb := r.(color := Black);
      PutPut(t, q, r, rb);
      InsertionRepair.BalancedPut(t, q, rb);
      InsertionRepair.FitsPut(t, q, rb);
      if q != [] {
        RedBlackSpec.PutBelowRoot(t, q, rb);
      }
    } else {
      RedBlackSpec.PutBelowRoot(t, q, r);
      InsertionRepair.FitsFrame(t, q, r, Black);
      PutPut(t, q, r, z);
      assert Deficient(t1, q, z);
      BalanceDeletionRepairs(t1, q, z);
    }
  }

  /**
   * With the repaired rebalancing, removing through the successor from a
   * tree coloured as a red-black tree finishes and leaves one.
   */
  lemma RemoveSuccessorRepairs<H>(t: Tree<H>, q: Path)
    requires ColorOf(t) == Black && NoRedRed(t) && Balanced(t)
    requires At(t, q).Node? && At(t, q).left.Node? && At(t, q).right.Node?
    ensures var o := RemoveSuccessor(t, q);
      && o.halt == RedBlackSpec.Finished && o.tree.Node?
      && ColorOf(o.tree) == Black && NoRedRed(o.tree) && Balanced(o.tree)
  {
    var z := At(t, q);
    var sp := BinarySearchTree.Successor(z);
    var z1 := z.(key := At(z, sp).key);
    var t1 := Put(t, q, z1);
    NodeReaches(t, q);
    AtAppend(t, q, sp);
    AtPutBelow(t, q, sp, z1);
    assert At(z1, sp) == At(z, sp);
    PutSelf(t, q);
    InsertionRepair.FitsPut(t, q, z);
    InsertionRepair.FitsPut(t, q, z1);
    InsertionRepair.BalancedAt(t, q);
    InsertionRepair.BalancedPut(t, q, z1);
    if q != [] {
      RedBlackSpec.PutBelowRoot(t, q, z1);
    }
    assert RemoveSuccessor(t, q) == RemoveNode(t1, q + sp);
    RemoveNodeRepairs(t1, q + sp);
  }

  /**
   * The repaired `delete(k)` on a red-black tree always finishes. An absent
   * key, or the tree's only node, leaves the tree as it was. Otherwise k is
   * gone, every other key stays, exactly one node goes, and the result is a
   * red-black tree again.
   */
  lemma DeleteKeepsRedBlack<H>(t: Tree<H>, k: int)
    requires t.Node? && IsRedBlack(t) && Unique(t)
    ensures var o := Delete(t, k);
      && o.halt == RedBlackSpec.Finished
      && (k !in Keys(t) || (t.left.Nil? && t.right.Nil?) ==> o.tree == t)
      && (k in Keys(t) && !(t.left.Nil? && t.right.Nil?) ==>
            && o.tree.Node? && IsRedBlack(o.tree) && Unique(o.tree)
            && Keys(o.tree) == Keys(t) - {k} && !BinarySearchTree.Contains(o.tree, k)
            && Size(o.tree) + 1 == Size(t))
  {
    var q := BinarySearchTree.Find(t, k);
    BinarySearchTree.FindLocates(t, k);
    var z := At(t, q);
    var o := Delete(t, k);
    if z.key == k {
      NodeReaches(t, q);
      if t.left.Nil? && t.right.Nil? {
        assert q == [];
      } else if z.left.Nil? || z.right.Nil? {
        RemoveNodeKeeps(t, q);
        RemoveNodeRepairs(t, q);
        RedBlackSpec.DropKey(t, q, o.tree);
      } else {
        RemoveSuccessorKeeps(t, q);
        RemoveSuccessorRepairs(t, q);
        RedBlackSpec.DropKey(t, q, o.tree);
      }
    }
  }

  // ---------------------------------------------------------------------
  // The source as written, on red-black trees
  // ---------------------------------------------------------------------

  /** A childless node holding k, named by k. */
  function Leaf(k: int, c: Color): Tree<int>
  {
    Node(k, c, k, Nil, Nil)
  }

  /**
   * 10(black) with children 5(black) and 20(red), where 20 has children
   * 15(black) and 30(black) and 30 a right child 35(red).
   */
  function NephewTree(): Tree<int>
  {
    Node(10, Black, 10, Leaf(5, Black),
      Node(20, Red, 20, Leaf(15, Black), Node(30, Black, 30, Nil, Leaf(35, Red))))
  }

  /** `NephewTree` with the sentinel in the place of 15. */
  function NephewRemoved(): Tree<int>
  {
    Node(10, Black, 10, Leaf(5, Black), Node(20, Red, 20, Nil, Node(30, Black, 30, Nil, Leaf(35, Red))))
  }

  lemma NephewTreeIsRedBlack()
    ensures IsRedBlack(NephewTree())
  {
    assert InOrder(NephewTree()) == [5, 10, 15, 20, 30, 35];
  }

  /** Both deletions of 15 unlink the black leaf and rebalance from its place. */
  lemma NephewDeleteStarts()
    ensures RedBlackSpec.Delete(NephewTree(), [], 15)
      == RedBlackSpec.BalanceDeletion(NephewRemoved(), [R, L], Black)
    ensures Delete(NephewTree(), 15) == BalanceDeletion(NephewRemoved(), [R, L], Black)
  {
    var t := NephewTree();
    assert BinarySearchTree.Find(t, 15) == [R, L] by {
      assert BinarySearchTree.Find(t.right, 15) == [L] by {
        assert BinarySearchTree.Find(t.right.left, 15) == [];
      }
    }
    assert [] + [R, L] == [R, L] && [R, L][1..] == [L] && [L][1..] == [];
    assert Put(t, [R, L], Nil) == NephewRemoved();
  }

  /**
   * Deleting 15 from `NephewTree`: the far red nephew 35 is lifted by a
   * left rotation of 20 and painted black, but 20 stays red under the black
   * 30. The source finishes with a tree whose paths below 30 have different
   * black heights.
   */
  lemma RedNephewUnbalances()
    ensures var o := RedBlackSpec.Delete(NephewTree(), [], 15);
      && IsRedBlack(NephewTree())
      && o == RedBlackSpec.Outcome(Node(10, Black, 10, Leaf(5, Black),
           Node(30, Black, 30, Leaf(20, Red), Leaf(35, Black))), RedBlackSpec.Finished)
      && !Balanced(o.tree)
  {
    NephewTreeIsRedBlack();
    NephewDeleteStarts();
    NephewRecoloured();
  }

  /** The as-written red-nephew case on `NephewRemoved`. */
  lemma NephewRecoloured()
    ensures RedBlackSpec.BalanceDeletion(NephewRemoved(), [R, L], Black)
      == RedBlackSpec.Outcome(Node(10, Black, 10, Leaf(5, Black),
           Node(30, Black, 30, Leaf(20, Red), Leaf(35, Black))), RedBlackSpec.Finished)
  {
    var t1 := NephewRemoved();
    var u := Node(10, Black, 10, Leaf(5, Black), Node(30, Black, 30, Leaf(20, Red), Leaf(35, Red)));
    assert RedBlackSpec.BalanceDeletion(t1, [R, L], Black)
      == RedBlackSpec.Outcome(PaintAt(u, [R, R], Black), RedBlackSpec.Finished) by {
      assert Parent([R, L]) == [R] && Last([R, L]) == L && [R] + [R] == [R, R] && [R, R][1..] == [R] && [R][1..] == [];
      assert RedBlackSpec.SiblingPath(t1, [R, L]) == [R, R];
      assert RotateLeftAt(t1, [R]) == u;
    }
    assert [R, R][1..] == [R] && [R][1..] == [];
  }

  /**
   * The same deletion, repaired: 30 takes the red colour of 20 and both its
   * children turn black, which gives a red-black tree.
   */
  lemma RedNephewRepaired()
    ensures Delete(NephewTree(), 15) == RedBlackSpec.Outcome(Node(10, Black, 10, Leaf(5, Black),
        Node(30, Red, 30, Leaf(20, Black), Leaf(35, Black))), RedBlackSpec.Finished)
  {
    NephewDeleteStarts();
    var t1 := NephewRemoved();
    assert Parent([R, L]) == [R] && Last([R, L]) == L && [R] + [R] == [R, R] && [R, R][1..] == [R] && [R][1..] == [];
    assert RedBlackSpec.SiblingPath(t1, [R, L]) == [R, R];
    assert BalanceDeletion(t1, [R, L], Black) == SiblingStep(t1, [R, L]);
  }

  /**
   * 10(black) with black children 5 and 15, where 5 has children 3(black)
   * and 7(black), 7 a left child 6(red), and 15 children 12(black) and
   * 17(black).
   */
  function NearNephewTree(): Tree<int>
  {
    Node(10, Black, 10,
      Node(5, Black, 5, Leaf(3, Black), Node(7, Black, 7, Leaf(6, Red), Nil)),
      Node(15, Black, 15, Leaf(12, Black), Leaf(17, Black)))
  }

  lemma NearNephewTreeIsRedBlack()
    ensures IsRedBlack(NearNephewTree())
  {
    assert InOrder(NearNephewTree()) == [3, 5, 6, 7, 10, 12, 15, 17];
  }

  /** Deleting 3 from `NearNephewTree` rebalances from the place of 3. */
  lemma NearNephewDeleteStarts()
    ensures var t1 := Node(10, Black, 10,
        Node(5, Black, 5, Nil, Node(7, Black, 7, Leaf(6, Red), Nil)),
        Node(15, Black, 15, Leaf(12, Black), Leaf(17, Black)));
      RedBlackSpec.Delete(NearNephewTree(), [], 3) == RedBlackSpec.BalanceDeletion(t1, [L, L], Black)
  {
    var t := NearNephewTree();
    assert BinarySearchTree.Find(t, 3) == [L, L] by {
      assert BinarySearchTree.Find(t.left, 3) == [L] by {
        assert BinarySearchTree.Find(t.left.left, 3) == [];
      }
    }
    assert [] + [L, L] == [L, L] && [L, L][1..] == [L] && [L][1..] == [];
  }

  /**
   * Deleting 3 from `NearNephewTree`: the red nephew 6 is the near child of
   * a right sibling below the root, which the source lifts by hand-written
   * link updates that leave 10 pointing at 5 with 6 and 7 unlinked.
   */
  lemma NearNephewBreaksLinks()
    ensures IsRedBlack(NearNephewTree())
      && RedBlackSpec.Delete(NearNephewTree(), [], 3).halt == RedBlackSpec.BrokenLinks
  {
    NearNephewTreeIsRedBlack();
    NearNephewDeleteStarts();
    var t1 := Node(10, Black, 10,
      Node(5, Black, 5, Nil, Node(7, Black, 7, Leaf(6, Red), Nil)),
      Node(15, Black, 15, Leaf(12, Black), Leaf(17, Black)));
    assert Parent([L, L]) == [L] && Last([L, L]) == L && [L] + [R] == [L, R] && [L, R][1..] == [R] && [R][1..] == [];
    assert RedBlackSpec.SiblingPath(t1, [L, L]) == [L, R];
    assert RedBlackSpec.BalanceDeletion(t1, [L, L], Black) == RedBlackSpec.RedNephew(t1, [L], [L, R]);
  }

  /** 10(black) with children 5(red) and 15(black), where 5 has black children 3 and 7. */
  function RedSiblingTree(): Tree<int>
  {
    Node(10, Black, 10, Node(5, Red, 5, Leaf(3, Black), Leaf(7, Black)), Leaf(15, Black))
  }

  lemma RedSiblingTreeIsRedBlack()
    ensures IsRedBlack(RedSiblingTree())
  {
    assert InOrder(RedSiblingTree()) == [3, 5, 7, 10, 15];
  }

  /**
   * Deleting 15 from `RedSiblingTree`: the sentinel that takes 15's place
   * is the right child of 10 and has a red sibling, and the source rotates
   * 10 to the left all the same, around the sentinel.
   */
  lemma RightNodeBreaksLinks()
    ensures IsRedBlack(RedSiblingTree())
      && RedBlackSpec.Delete(RedSiblingTree(), [], 15).halt == RedBlackSpec.BrokenLinks
  {
    RedSiblingTreeIsRedBlack();
    var t := RedSiblingTree();
    var t1 := Node(10, Black, 10, Node(5, Red, 5, Leaf(3, Black), Leaf(7, Black)), Nil);
    assert RedBlackSpec.Delete(t, [], 15) == RedBlackSpec.BalanceDeletion(t1, [R], Black) by {
      assert BinarySearchTree.Find(t, 15) == [R] by {
        assert BinarySearchTree.Find(t.right, 15) == [];
      }
      assert [] + [R] == [R] && [R][1..] == [];
      assert Put(t, [R], Nil) == t1;
    }
    assert Parent([R]) == [] && Last([R]) == R && [] + [L] == [L] && [L][1..] == [] && [R][1..] == [];
    assert !RedBlackSpec.SeenLeft(t1, [R]) && RedBlackSpec.SiblingPath(t1, [R]) == [L];
    assert RedBlackSpec.BalanceDeletion(t1, [R], Black) == RedBlackSpec.SiblingStep(t1, [R]);
    assert RedBlackSpec.SiblingStep(t1, [R]) == RedBlackSpec.RedSiblingStep(t1, [R], Black);
  }
}
