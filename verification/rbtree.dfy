/** The red-black trees of rbtree.c: nodes with parent pointers that are relinked in place, and one sentinel that stands for
    every missing child. */
module RbTree {
  datatype Color = Black | Red

  // struct rbnode and the data behind it, which rbtree_delete copies as a block
  class Node<P> {
    var color: Color
    var left: Node<P>
    var right: Node<P>
    var parent: Node?<P>
    var payload: P
    // The nodes of the tree in order are numbered: the subtree of this node holds the numbers from lo up to hi, and this
    // node has number pos. bh counts the black nodes below it on every path to the sentinel, and the sentinel with them.
    ghost var lo: int
    ghost var pos: int
    ghost var hi: int
    ghost var bh: int

    // A node that is in no tree: black, its own child on both sides, like the sentinel of rbtree.c.
    constructor (p: P)
      ensures payload == p && color == Black && left == this && right == this && parent == null && bh == 0
    {
      color := Black;
      left, right, parent := this, this, null;
      payload := p;
      bh := 0;
    }
  }

  /** A tree is well formed when each of its nodes agrees with its neighbours on links, numbers and black heights; everything
      that is said of a whole subtree, or of the order of the tree, follows from these conditions. */
  class Tree<P(!new)> {
    const nil: Node<P>
    const cmp: (P, P) -> int
    var root: Node<P>
    // The nodes in order, the set of them, and their payloads in order
    ghost var nodes: seq<Node<P>>
    ghost var repr: set<Node<P>>
    ghost var contents: seq<P>

    constructor (nil: Node<P>, cmp: (P, P) -> int)
      requires Comparator(cmp)
      requires nil.color == Black && nil.left == nil && nil.right == nil && nil.bh == 0
      ensures Valid() && repr == {} && contents == [] && this.nil == nil && this.cmp == cmp
    {
      this.nil, this.cmp, this.root := nil, cmp, nil;
      nodes, repr, contents := [], {}, [];
    }

    // ---------- links and ranks ----------

    ghost predicate LeftOk(n: Node<P>)
      requires n in repr
      reads `root, `nodes, `repr, repr`left, repr`parent, repr`lo, repr`pos, repr`hi
    {
      if n.left == nil then n.lo == n.pos
      else n.left in repr && n.left.parent == n && n.left.lo == n.lo && n.left.hi == n.pos
    }

    ghost predicate RightOk(n: Node<P>)
      requires n in repr
      reads `root, `nodes, `repr, repr`right, repr`parent, repr`lo, repr`pos, repr`hi
    {
      if n.right == nil then n.pos + 1 == n.hi
      else n.right in repr && n.right.parent == n && n.right.lo == n.pos + 1 && n.right.hi == n.hi
    }

    ghost predicate ParentOk(n: Node<P>)
      requires n in repr
      reads `root, `nodes, `repr, repr`left, repr`right, repr`parent
    {
      if n == root then n.parent == null
      else n.parent != null && n.parent in repr && (n.parent.left == n || n.parent.right == n)
    }

    // The links and numbers of n agree with those of its neighbours.
    ghost predicate Linked(n: Node<P>)
      requires n in repr
      reads `root, `nodes, `repr, repr`left, repr`right, repr`parent, repr`lo, repr`pos, repr`hi
    {
      && 0 <= n.lo <= n.pos < n.hi <= |nodes| && nodes[n.pos] == n
      && LeftOk(n) && RightOk(n) && ParentOk(n)
    }

    // The links make one binary tree of the nodes, in the order of `nodes`; the sentinel is not one of them, and is its own
    // child.
    ghost predicate Shape()
      reads `root, `nodes, `repr, repr`left, repr`right, repr`parent, repr`lo, repr`pos, repr`hi, nil`left, nil`right
    {
      && nil !in repr && nil.left == nil && nil.right == nil
      && (forall i {:trigger nodes[i]} :: 0 <= i < |nodes| ==> nodes[i] in repr && nodes[i].pos == i)
      && (forall n {:trigger Linked(n)} :: n in repr ==> Linked(n))
      && (if root == nil then nodes == [] else root in repr && root.lo == 0 && root.hi == |nodes|)
    }

    // ---------- colours and black heights ----------

    // The black nodes on a path from c down, c among them
    ghost function H(c: Node<P>): int
      reads c`bh, c`color
    {
      c.bh + if c.color == Black then 1 else 0
    }

    ghost predicate Kid(c: Node<P>)
      reads `repr
    {
      c == nil || c in repr
    }

    // Black heights and colours are right at n, but for a child d of dp whose black height is one less than it is to be, and
    // which may be red below a red node.
    ghost predicate Tinted(n: Node<P>, d: Node<P>, dp: Node?<P>)
      requires n in repr && Kid(n.left) && Kid(n.right)
      reads `root, `nodes, `repr, repr`left, repr`right, repr`color, repr`bh, nil`color, nil`bh
    {
      && n.bh >= 1
      && n.bh == H(n.left) + (if n == dp && n.left == d then 1 else 0)
      && n.bh == H(n.right) + (if n == dp && n.right == d then 1 else 0)
      && (n.color == Red && n != d ==>
            (n.left.color == Black || n.left == d) && (n.right.color == Black || n.right == d))
    }

    // The same everywhere; Balanced(nil, null) makes no exception.
    ghost predicate Balanced(d: Node<P>, dp: Node?<P>)
      requires Shape()
      reads `root, `nodes, `repr, repr`left, repr`right, repr`parent, repr`lo, repr`pos, repr`hi, nil`left, nil`right
      reads repr`color, repr`bh, nil`color, nil`bh
    {
      && nil.color == Black && nil.bh == 0
      && forall n {:trigger Tinted(n, d, dp)} :: n in repr ==> Linked(n) && Tinted(n, d, dp)
    }

    // ---------- rotations ----------

    // How the fields change when x turns below its right child y, whose left child b it takes over; p was the parent of x.
    twostate predicate Links(x: Node<P>, y: Node<P>, b: Node<P>, p: Node?<P>)
      reads `root, `nodes, `repr, repr`left, repr`right, repr`parent
    {
      && repr == old(repr)
      && (forall n {:trigger n in repr} :: n in repr ==>
        && n.left == (if n == y then x else if n == p && old(n.left) == x then y else old(n.left))
        && n.right == (if n == x then b else if n == p && old(n.left) != x then y else old(n.right))
        && n.parent == (if n == x then y else if n == y then p else if n == b then x else old(n.parent)))
      && root == if p == null then y else old(root)
    }

    // Seen from all other nodes, y is now where x was.
    twostate predicate Turned(x: Node<P>, y: Node<P>)
      reads `root, `nodes, `repr, repr`left, repr`right
    {
      && repr == old(repr)
      && (forall n {:trigger n.left} {:trigger n.right} :: n in repr && n != x && n != y ==>
        && n.left == (if old(n.left) == x then y else old(n.left))
        && n.right == (if old(n.right) == x then y else old(n.right)))
      && root == (if old(root) == x then y else old(root))
    }

    // rotate_left
    method TurnLeft(x: Node<P>)
      requires Shape() && x in repr && x.right != nil
      modifies `root, repr`left, repr`right, repr`parent
      ensures Links(x, old(x.right), old(x.right.left), old(x.parent))
    {
      assert Linked(x); assert Linked(x.right);
      assert x.parent != null ==> Linked(x.parent);
      var y := x.right;
      assert y.left != nil ==> Linked(y.left);
      x.right := y.left;
      if y.left != nil {
        y.left.parent := x;
      }
      if y != nil {
        y.parent := x.parent;
      }
      if x.parent != null {
        if x == x.parent.left {
          x.parent.left := y;
        } else {
          x.parent.right := y;
        }
      } else {
        root := y;
      }
      y.left := x;
      if x != nil {
        x.parent := y;
      }
    }

    // The numbers after that rotation: y spans what x spanned.
    twostate predicate Ranks(x: Node<P>, y: Node<P>)
      reads `root, `nodes, `repr, repr`lo, repr`hi, repr`pos, x, y
    {
      && repr == old(repr) && nodes == old(nodes)
      && forall n {:trigger n in repr} :: n in repr ==>
        && n.pos == old(n.pos)
        && n.lo == (if n == y then old(x.lo) else old(n.lo))
        && n.hi == (if n == y then old(x.hi) else if n == x then y.pos else old(n.hi))
    }

    ghost method Rerank(x: Node<P>, y: Node<P>)
      requires x in repr && y in repr && x != y
      modifies repr`lo, repr`hi
      ensures Ranks(x, y)
    {
      y.lo, y.hi, x.hi := x.lo, x.hi, y.pos;
    }

    twostate lemma RotatedShape(x: Node<P>)
      requires old(Shape()) && x in old(repr) && old(x.right) != nil
      requires old(x.right in repr && (x.right.left == nil || x.right.left in repr))
      requires Links(x, old(x.right), old(x.right.left), old(x.parent))
      requires Ranks(x, old(x.right))
      requires nil.left == old(nil.left) && nil.right == old(nil.right)
      ensures Shape()
    {
      var y := old(x.right);
      assert old(Linked(x));
      assert old(Linked(y));
      forall n | n in repr ensures Linked(n) {
        assert old(Linked(n));
      }
    }

    twostate lemma RotatedTurned(x: Node<P>)
      requires old(Shape()) && x in old(repr) && old(x.right) != nil
      requires old(x.right in repr && (x.right.left == nil || x.right.left in repr))
      requires Links(x, old(x.right), old(x.right.left), old(x.parent))
      ensures Turned(x, old(x.right))
    {
      var y := old(x.right);
      assert old(Linked(x));
      assert old(Linked(y));
      forall n | n in repr && n != x && n != y ensures
        && n.left == (if old(n.left) == x then y else old(n.left))
        && n.right == (if old(n.right) == x then y else old(n.right)) {
        assert old(Linked(n));
      }
    }

    // rotate_left, with the numbers that go with it
    method RotateLeft(x: Node<P>)
      requires Shape() && x in repr && x.right != nil
      modifies `root, repr`left, repr`right, repr`parent, repr`lo, repr`hi
      ensures Turned(x, old(x.right))
      ensures x.left == old(x.left) && x.right == old(x.right.left)
      ensures old(x.right).left == x && old(x.right).right == old(x.right.right)
      ensures x.parent == old(x.right) && old(x.right).parent == old(x.parent)
      ensures Shape()
    {
      var y := x.right;
      assert Linked(x) && Linked(y);
      TurnLeft(x);
      RotatedTurned(x);
      Rerank(x, y);
      RotatedShape(x);
    }

    // The same for a rotation to the right
    twostate predicate LinksR(x: Node<P>, y: Node<P>, b: Node<P>, p: Node?<P>)
      reads `root, `nodes, `repr, repr`right, repr`left, repr`parent
    {
      && repr == old(repr)
      && (forall n {:trigger n in repr} :: n in repr ==>
        && n.right == (if n == y then x else if n == p && old(n.right) == x then y else old(n.right))
        && n.left == (if n == x then b else if n == p && old(n.right) != x then y else old(n.left))
        && n.parent == (if n == x then y else if n == y then p else if n == b then x else old(n.parent)))
      && root == if p == null then y else old(root)
    }

    // rotate_right
    method TurnRight(x: Node<P>)
      requires Shape() && x in repr && x.left != nil
      modifies `root, repr`right, repr`left, repr`parent
      ensures LinksR(x, old(x.left), old(x.left.right), old(x.parent))
    {
      assert Linked(x); assert Linked(x.left);
      assert x.parent != null ==> Linked(x.parent);
      var y := x.left;
      assert y.right != nil ==> Linked(y.right);
      x.left := y.right;
      if y.right != nil {
        y.right.parent := x;
      }
      if y != nil {
        y.parent := x.parent;
      }
      if x.parent != null {
        if x == x.parent.right {
          x.parent.right := y;
        } else {
          x.parent.left := y;
        }
      } else {
        root := y;
      }
      y.right := x;
      if x != nil {
        x.parent := y;
      }
    }

    twostate predicate RanksR(x: Node<P>, y: Node<P>)
      reads `root, `nodes, `repr, repr`lo, repr`hi, repr`pos, x, y
    {
      && repr == old(repr) && nodes == old(nodes)
      && forall n {:trigger n in repr} :: n in repr ==>
        && n.pos == old(n.pos)
        && n.lo == (if n == y then old(x.lo) else if n == x then y.pos + 1 else old(n.lo))
        && n.hi == (if n == y then old(x.hi) else old(n.hi))
    }

    ghost method RerankR(x: Node<P>, y: Node<P>)
      requires x in repr && y in repr && x != y
      modifies repr`lo, repr`hi
      ensures RanksR(x, y)
    {
      y.lo, y.hi, x.lo := x.lo, x.hi, y.pos + 1;
    }

    twostate lemma RotatedShapeR(x: Node<P>)
      requires old(Shape()) && x in old(repr) && old(x.left) != nil
      requires old(x.left in repr && (x.left.right == nil || x.left.right in repr))
      requires LinksR(x, old(x.left), old(x.left.right), old(x.parent))
      requires RanksR(x, old(x.left))
      requires nil.right == old(nil.right) && nil.left == old(nil.left)
      ensures Shape()
    {
      var y := old(x.left);
      assert old(Linked(x));
      assert old(Linked(y));
      forall n | n in repr ensures Linked(n) {
        assert old(Linked(n));
      }
    }

    twostate lemma RotatedTurnedR(x: Node<P>)
      requires old(Shape()) && x in old(repr) && old(x.left) != nil
      requires old(x.left in repr && (x.left.right == nil || x.left.right in repr))
      requires LinksR(x, old(x.left), old(x.left.right), old(x.parent))
      ensures Turned(x, old(x.left))
    {
      var y := old(x.left);
      assert old(Linked(x));
      assert old(Linked(y));
      forall n | n in repr && n != x && n != y ensures
        && n.right == (if old(n.right) == x then y else old(n.right))
        && n.left == (if old(n.left) == x then y else old(n.left)) {
        assert old(Linked(n));
      }
    }

    // rotate_right, with the numbers that go with it
    method RotateRight(x: Node<P>)
      requires Shape() && x in repr && x.left != nil
      modifies `root, repr`right, repr`left, repr`parent, repr`lo, repr`hi
      ensures Turned(x, old(x.left))
      ensures x.right == old(x.right) && x.left == old(x.left.right)
      ensures old(x.left).right == x && old(x.left).left == old(x.left.left)
      ensures x.parent == old(x.left) && old(x.left).parent == old(x.parent)
      ensures Shape()
    {
      var y := x.left;
      assert Linked(x) && Linked(y);
      TurnRight(x);
      RotatedTurnedR(x);
      RerankR(x, y);
      RotatedShapeR(x);
    }

    // ---------- insertion ----------

    // The invariant of the loop of insert_fixup: all is well but that x and its parent may both be red.
    ghost predicate InsertInv(x: Node<P>)
      reads `root, `nodes, `repr, repr`left, repr`right, repr`parent, repr`lo, repr`pos, repr`hi, nil`left, nil`right
      reads repr`color, repr`bh, nil`color, nil`bh
    {
      && Shape() && x in repr && x.color == Red && Balanced(x, null)
      && (root.color == Black || root == x)
      && Linked(x) && x.left.color == Black && x.right.color == Black
    }

    // Below a red parent, x has a black grandparent.
    lemma InsertGrand(x: Node<P>)
      requires InsertInv(x) && x != root
      ensures x.parent != null && x.parent in repr && (x.parent.left == x || x.parent.right == x)
      ensures x.parent != x && x.parent.left != x.parent.right
      ensures x.parent.color == Red ==>
        var g := x.parent.parent;
        && g != null && g in repr && g.color == Black && g != x && g != x.parent
        && (g.left == x.parent || g.right == x.parent) && g.left != g.right
        && g.left != x && g.right != x && Kid(g.left) && Kid(g.right)
    {
      var p := x.parent;
      assert Linked(x) && Linked(p);
      if p.color == Red {
        var g := p.parent;
        assert Linked(g) && Tinted(p, x, null) && Tinted(g, x, null);
      }
    }

    // No link and no number changes.
    twostate predicate SameLinks()
      reads `root, `nodes, `repr, repr`left, repr`right, repr`parent, repr`lo, repr`pos, repr`hi, nil`left, nil`right
    {
      && root == old(root) && repr == old(repr) && nodes == old(nodes)
      && nil.left == old(nil.left) && nil.right == old(nil.right)
      && forall n {:trigger n in repr} :: n in repr ==>
        && n.left == old(n.left) && n.right == old(n.right) && n.parent == old(n.parent)
        && n.lo == old(n.lo) && n.pos == old(n.pos) && n.hi == old(n.hi)
    }

    // The nodes of `reds` are painted red and those of `blacks` black, and nothing else is painted.
    twostate predicate Painted(reds: set<Node<P>>, blacks: set<Node<P>>)
      reads `root, `nodes, `repr, repr`color, nil`color, nil`bh
    {
      && repr == old(repr) && nil.color == old(nil.color) && nil.bh == old(nil.bh)
      && forall n {:trigger n in repr} :: n in repr ==>
        n.color == (if n in reds then Red else if n in blacks then Black else old(n.color))
    }

    // The black height of `m` grows by `k`, and no other one changes.
    twostate predicate Grown(m: Node<P>, k: int)
      reads `root, `nodes, `repr, repr`bh
    {
      && repr == old(repr)
      && forall n {:trigger n in repr} :: n in repr ==> n.bh == old(n.bh) + (if n == m then k else 0)
    }

    // Recolouring moves the fault two levels up; the subtree above it is larger, so that the loop ends.
    twostate lemma InsertRecolored(x: Node<P>)
      requires old(InsertInv(x)) && x != old(root) && old(x.parent != null && x.parent.color == Red && x.parent.parent != null)
      requires SameLinks()
      requires old(x.parent.parent in repr && Kid(x.parent.parent.left) && Kid(x.parent.parent.right))
      requires old(x.parent.parent.left.color == Red && x.parent.parent.right.color == Red)
      requires var g := old(x.parent.parent); Painted({g}, {old(g.left), old(g.right)}) && Grown(g, 1)
      ensures InsertInv(old(x.parent.parent))
      ensures var g := old(x.parent.parent); g.hi - g.lo > x.hi - x.lo
    {
      var g := old(x.parent.parent);
      assert old(Linked(g)) && old(Linked(x)) && old(Linked(x.parent));
      assert old(Tinted(g, x, null));
      forall n | n in repr ensures Linked(n) && Tinted(n, g, null) {
        assert old(Linked(n)) && old(Tinted(n, x, null));
      }
    }

    method InsertRecolor(x: Node<P>, y: Node<P>) returns (g: Node<P>)
      requires InsertInv(x) && x != root && x.parent != null && x.parent.color == Red
      requires x.parent.parent != null && y.color == Red
      requires (x.parent.parent.left == x.parent && x.parent.parent.right == y)
        || (x.parent.parent.right == x.parent && x.parent.parent.left == y)
      modifies repr`color, repr`bh
      ensures InsertInv(g)
      ensures g.hi - g.lo > x.hi - x.lo
    {
      InsertGrand(x);
      g := x.parent.parent;
      assert Linked(g) && Linked(x) && Linked(x.parent);
      x.parent.color := Black;
      y.color := Black;
      x.parent.parent.color := Red;
      g.bh := g.bh + 1;
      InsertRecolored(x);
    }

    ghost function Sib(p: Node<P>, x: Node<P>): Node<P>
      reads p`left, p`right
    {
      if p.left == x then p.right else p.left
    }

    // x is below a red parent whose sibling is black
    ghost predicate InsertTurn(x: Node<P>)
      reads `root, `nodes, `repr, repr`left, repr`right, repr`parent, repr`lo, repr`pos, repr`hi, nil`left, nil`right
      reads repr`color, repr`bh, nil`color, nil`bh
    {
      && InsertInv(x) && x != root && x.parent != null && x.parent in repr && x.parent.color == Red
      && x.parent.parent != null && x.parent.parent in repr && Kid(Sib(x.parent.parent, x.parent))
      && Sib(x.parent.parent, x.parent).color == Black
    }

    twostate predicate OuterTurned(x: Node<P>, p: Node<P>, g: Node<P>)
      requires old(allocated(p)) && old(allocated(g))
      reads `root, `nodes, `repr, repr`left, repr`right, repr`parent, repr`lo, repr`pos, repr`hi, nil`left, nil`right
      reads repr`color, repr`bh, nil`color, nil`bh, p, g
    {
      && Painted({g}, {p}) && Grown(g, 0) && Turned(g, p)
      && (if old(g.left) == p
          then p.left == x && p.right == g && g.left == old(p.right) && g.right == old(g.right)
          else p.right == x && p.left == g && g.right == old(p.left) && g.left == old(g.left))
      && Shape() && p.parent == old(g.parent) && g.parent == p
    }

    twostate lemma InsertOuterRest(x: Node<P>)
      requires old(InsertTurn(x)) && old(x.parent.left == x <==> x.parent.parent.left == x.parent)
      requires OuterTurned(x, old(x.parent), old(x.parent.parent))
      ensures forall n {:trigger Tinted(n, x, null)} :: n in repr && n != old(x.parent) && n != old(x.parent.parent) ==>
        Linked(n) && Tinted(n, x, null)
    {
      var p, g := old(x.parent), old(x.parent.parent);
      assert old(Linked(p)) && old(Linked(g));
      assert old(Tinted(g, x, null)) && old(Tinted(p, x, null));
      forall n | n in repr && n != g && n != p ensures Linked(n) && Tinted(n, x, null) {
        assert Linked(n);
        assert old(Linked(n)) && old(Tinted(n, x, null));
      }
    }

    twostate lemma InsertOuterDone(x: Node<P>)
      requires old(InsertTurn(x)) && old(x.parent.left == x <==> x.parent.parent.left == x.parent)
      requires OuterTurned(x, old(x.parent), old(x.parent.parent))
      ensures InsertInv(x) && x.parent == old(x.parent) && x.parent.color == Black
    {
      var p, g := old(x.parent), old(x.parent.parent);
      InsertOuterRest(x);
      assert old(Linked(g)) && old(Linked(x)) && old(Linked(p));
      assert old(Tinted(g, x, null)) && old(Tinted(p, x, null));
      assert Linked(g) && Linked(p) && Linked(x);
    }

    twostate predicate InnerTurned(x: Node<P>, p: Node<P>, g: Node<P>)
      requires old(allocated(p)) && old(allocated(g))
      reads `root, `nodes, `repr, repr`left, repr`right, repr`parent, repr`lo, repr`pos, repr`hi, nil`left, nil`right
      reads repr`color, repr`bh, nil`color, nil`bh, x, p, g
    {
      && Painted({}, {}) && Grown(g, 0) && Turned(p, x)
      && (if old(p.right) == x
          then x.left == p && x.right == old(x.right) && p.left == old(p.left) && p.right == old(x.left)
          else x.right == p && x.left == old(x.left) && p.right == old(p.right) && p.left == old(x.right))
      && Shape() && x.parent == g && p.parent == x
    }

    twostate lemma InsertInnerRest(x: Node<P>)
      requires old(InsertTurn(x)) && old(x.parent.left == x <==> x.parent.parent.left != x.parent)
      requires InnerTurned(x, old(x.parent), old(x.parent.parent))
      ensures forall n {:trigger Tinted(n, old(x.parent), null)} :: n in repr && n != x && n != old(x.parent) ==>
        Linked(n) && Tinted(n, old(x.parent), null)
    {
      var p := old(x.parent);
      assert old(Linked(p)) && old(Linked(x));
      assert old(Tinted(x, x, null)) && old(Tinted(p, x, null));
      forall n | n in repr && n != x && n != p ensures Linked(n) && Tinted(n, p, null) {
        assert Linked(n);
        assert old(Linked(n)) && old(Tinted(n, x, null));
      }
    }

    twostate lemma InsertInnerDone(x: Node<P>)
      requires old(InsertTurn(x)) && old(x.parent.left == x <==> x.parent.parent.left != x.parent)
      requires InnerTurned(x, old(x.parent), old(x.parent.parent))
      ensures InsertTurn(old(x.parent)) && old(x.parent).parent == x && x.parent == old(x.parent.parent)
      ensures x.left == old(x.parent) <==> x.parent.left == x
      ensures x.parent.left == x <==> old(x.parent.parent.left == x.parent)
    {
      var p, g := old(x.parent), old(x.parent.parent);
      InsertInnerRest(x);
      assert old(Linked(g)) && old(Linked(x)) && old(Linked(p));
      assert old(Tinted(x, x, null)) && old(Tinted(p, x, null));
      assert Linked(g) && Linked(p) && Linked(x);
    }

    method InsertInnerLeft(x: Node<P>) returns (p: Node<P>)
      requires InsertTurn(x) && x.parent.right == x && x.parent.parent.left == x.parent
      modifies `root, repr`left, repr`right, repr`parent, repr`lo, repr`hi
      ensures InsertTurn(p) && p.parent.left == p && p.parent.parent.left == p.parent
    {
      InsertGrand(x);
      assert Linked(x.parent);
      p := x.parent;
      RotateLeft(p);
      InsertInnerDone(x);
    }

    method InsertInnerRight(x: Node<P>) returns (p: Node<P>)
      requires InsertTurn(x) && x.parent.left == x && x.parent.parent.right == x.parent
      modifies `root, repr`left, repr`right, repr`parent, repr`lo, repr`hi
      ensures InsertTurn(p) && p.parent.right == p && p.parent.parent.right == p.parent
    {
      InsertGrand(x);
      assert Linked(x.parent);
      p := x.parent;
      RotateRight(p);
      InsertInnerDone(x);
    }

    method InsertOuterLeft(x: Node<P>)
      requires InsertTurn(x) && x.parent.left == x && x.parent.parent.left == x.parent
      modifies `root, repr`left, repr`right, repr`parent, repr`lo, repr`hi, repr`color
      ensures InsertInv(x) && x.parent != null && x.parent.color == Black
    {
      InsertGrand(x);
      assert Linked(x.parent) && Linked(x.parent.parent);
      x.parent.color := Black;
      x.parent.parent.color := Red;
      RotateRight(x.parent.parent);
      InsertOuterDone(x);
    }

    method InsertOuterRight(x: Node<P>)
      requires InsertTurn(x) && x.parent.right == x && x.parent.parent.right == x.parent
      modifies `root, repr`left, repr`right, repr`parent, repr`lo, repr`hi, repr`color
      ensures InsertInv(x) && x.parent != null && x.parent.color == Black
    {
      InsertGrand(x);
      assert Linked(x.parent) && Linked(x.parent.parent);
      x.parent.color := Black;
      x.parent.parent.color := Red;
      RotateLeft(x.parent.parent);
      InsertOuterDone(x);
    }

    twostate lemma RootPainted(x: Node<P>)
      requires old(InsertInv(x)) && root == old(root) && root in repr && SameLinks() && Painted({}, {root}) && Grown(x, 0)
      requires x == root || old(x.parent != null && x.parent in repr && x.parent.color == Black)
      ensures Shape() && Balanced(nil, null) && root.color == Black && root != nil
    {
      assert old(Linked(x)) && old(Tinted(x, x, null)) && old(Linked(root));
      forall n | n in repr ensures Linked(n) && Tinted(n, nil, null) {
        assert old(Linked(n)) && old(Tinted(n, x, null));
      }
    }

    // insert_fixup
    method InsertFixup(x0: Node<P>)
      requires InsertInv(x0)
      modifies `root, repr`left, repr`right, repr`parent, repr`lo, repr`hi, repr`color, repr`bh
      ensures Shape() && Balanced(nil, null) && root.color == Black && root != nil
    {
      var x := x0;
      while x != root && x.parent.color == Red
        invariant InsertInv(x)
        invariant x != root ==> x.parent != null
        decreases if x != root && x.parent.color == Red then 1 + |nodes| - (x.hi - x.lo) else 0
      {
        InsertGrand(x);
        if x.parent == x.parent.parent.left {
          var y := x.parent.parent.right;
          if y.color == Red {
            x := InsertRecolor(x, y);
          } else {
            if x == x.parent.right {
              x := InsertInnerLeft(x);
            }
            InsertOuterLeft(x);
          }
        } else {
          var y := x.parent.parent.left;
          if y.color == Red {
            x := InsertRecolor(x, y);
          } else {
            if x == x.parent.left {
              x := InsertInnerRight(x);
            }
            InsertOuterRight(x);
          }
        }
      }
      assert Linked(x);
      PaintRoot(x);
    }

    method PaintRoot(ghost x: Node<P>)
      requires InsertInv(x) && (x == root || (x.parent != null && x.parent in repr && x.parent.color == Black))
      modifies repr`color
      ensures Shape() && Balanced(nil, null) && root.color == Black && root != nil
    {
      root.color := Black;
      RootPainted(x);
    }

    // ---------- the whole insertion ----------

    // `contents` holds the payloads of the nodes.
    ghost predicate Shown()
      reads `nodes, `contents, nodes`payload
    {
      |contents| == |nodes| && forall i {:trigger nodes[i]} :: 0 <= i < |nodes| ==> contents[i] == nodes[i].payload
    }

    // A red-black search tree: linked, balanced, with a black root, and sorted
    ghost predicate Valid()
      reads `root, `nodes, `repr, `contents, repr`left, repr`right, repr`parent, repr`lo, repr`pos, repr`hi, nil`left, nil`right
      reads repr`color, repr`bh, nil`color, nil`bh, nodes`payload
    {
      && Comparator(cmp)
      && Shape() && Balanced(nil, null) && root.color == Black
      && Sorted(cmp, contents) && Shown()
    }

    twostate lemma ShownSpliced(k: int)
      requires old(Shown()) && 0 <= k <= old(|nodes|) < |nodes|
      requires nodes == old(nodes)[..k] + [nodes[k]] + old(nodes)[k..]
      requires contents == old(contents)[..k] + [nodes[k].payload] + old(contents)[k..]
      requires forall i {:trigger old(nodes)[i]} :: 0 <= i < old(|nodes|) ==> old(nodes)[i].payload == old(nodes[i].payload)
      ensures Shown()
    {
      forall i | 0 <= i < |nodes| ensures contents[i] == nodes[i].payload {
        if i < k {
          assert nodes[i] == old(nodes)[i];
        } else if i > k {
          assert nodes[i] == old(nodes)[i - 1];
        }
      }
    }

    ghost method MakeRoom(x: Node<P>, q: int, k: int)
      requires Shape() && x !in repr && 0 <= k <= |nodes|
      modifies `repr, `nodes, repr`lo, repr`pos, repr`hi, x`lo, x`pos, x`hi, x`bh
      ensures repr == old(repr) + {x} && nodes == old(nodes)[..k] + [x] + old(nodes)[k..]
      ensures x.lo == x.pos == k && x.hi == k + 1 && x.bh == 1
      ensures forall n {:trigger n in old(repr)} :: n in old(repr) ==>
        && n.lo == (if old(n.lo) > q then old(n.lo) + 1 else old(n.lo))
        && n.hi == (if old(n.hi) > q then old(n.hi) + 1 else old(n.hi))
        && n.pos == (if old(n.pos) >= k then old(n.pos) + 1 else old(n.pos))
    {
      forall n | n in repr { n.lo := if n.lo > q then n.lo + 1 else n.lo; }
      forall n | n in repr { n.hi := if n.hi > q then n.hi + 1 else n.hi; }
      forall n | n in repr { n.pos := if n.pos >= k then n.pos + 1 else n.pos; }
      x.lo, x.pos, x.hi, x.bh := k, k, k + 1, 1;
      repr, nodes := repr + {x}, nodes[..k] + [x] + nodes[k..];
    }

    // x hangs as a leaf below its parent p, in the place of a nil child, and the ranks have made room for it
    twostate predicate Hung(x: Node<P>)
      requires x !in old(repr)
      reads this, repr, x, nil
    {
      && repr == old(repr) + {x} && x != nil && 0 <= x.pos <= old(|nodes|)
      && nodes == old(nodes)[..x.pos] + [x] + old(nodes)[x.pos..]
      && nil.left == old(nil.left) && nil.right == old(nil.right) && nil.color == old(nil.color) && nil.bh == old(nil.bh)
      && x.lo == x.pos && x.hi == x.pos + 1 && x.left == nil && x.right == nil
      && (if x.parent == null then old(root) == nil && root == x
          else x.parent in old(repr) && root == old(root) && HungBelow(x, x.parent))
    }

    twostate predicate HungBelow(x: Node<P>, p: Node<P>)
      requires p in old(repr) && old(repr) <= repr
      reads this, repr, x
    {
      && (if p.left == x then old(p.left) == nil && x.pos == old(p.pos) else old(p.right) == nil && x.pos == old(p.pos) + 1)
      && forall n {:trigger n in old(repr)} :: n in old(repr) ==>
        && n.left == (if n == p && p.left == x then x else old(n.left))
        && n.right == (if n == p && p.left != x then x else old(n.right))
        && n.parent == old(n.parent)
        && n.lo == (if old(n.lo) > old(p.pos) then old(n.lo) + 1 else old(n.lo))
        && n.hi == (if old(n.hi) > old(p.pos) then old(n.hi) + 1 else old(n.hi))
        && n.pos == (if old(n.pos) >= x.pos then old(n.pos) + 1 else old(n.pos))
    }

    twostate lemma HungLinked(x: Node<P>)
      requires old(Shape()) && x !in old(repr) && Hung(x)
      ensures forall n {:trigger Linked(n)} :: n in repr ==> Linked(n)
    {
      var p := x.parent;
      if p != null {
        assert old(Linked(p));
      }
      forall n | n in repr ensures Linked(n) {
        if n != x {
          assert old(Linked(n));
        }
      }
    }

    twostate lemma HungShape(x: Node<P>)
      requires old(Shape()) && x !in old(repr) && Hung(x)
      ensures Shape()
    {
      HungLinked(x);
      forall i | 0 <= i < |nodes| ensures nodes[i] in repr && nodes[i].pos == i {
        if i < x.pos {
          assert nodes[i] == old(nodes)[i];
        } else if i > x.pos {
          assert nodes[i] == old(nodes)[i - 1];
        }
      }
      var p := x.parent;
      if p != null {
        assert old(Linked(p));
        assert old(Linked(root));
      } else {
        assert root == x;
      }
    }

    twostate lemma HungInv(x: Node<P>)
      requires old(Shape()) && x !in old(repr) && Hung(x) && Shape()
      requires old(Balanced(nil, null) && root.color == Black)
      requires x.color == Red && x.bh == 1
      requires forall n {:trigger n in old(repr)} :: n in old(repr) ==> n.color == old(n.color) && n.bh == old(n.bh)
      ensures InsertInv(x)
    {
      assert Linked(x) && Tinted(x, x, null);
      forall n | n in repr ensures Linked(n) && Tinted(n, x, null) {
        assert Linked(n);
        if n != x {
          assert old(Linked(n)) && old(Tinted(n, nil, null));
        }
      }
    }

    // The second half of rbtree_insert: x is hung below the place that the descent has found.
    method AttachLeaf(x: Node<P>, parent: Node?<P>, cmp: int, ghost k: int)
      requires Shape() && Balanced(nil, null) && root.color == Black && x !in repr && x != nil
      requires if parent == null then root == nil && k == 0
        else parent in repr && (if cmp <= 0 then parent.left == nil && k == parent.pos else parent.right == nil && k == parent.pos + 1)
      modifies `root, `repr, `nodes, repr`left, repr`right, repr`lo, repr`pos, repr`hi
      modifies x`left, x`right, x`parent, x`color, x`lo, x`pos, x`hi, x`bh
      ensures InsertInv(x)
      ensures 0 <= k <= old(|nodes|) && repr == old(repr) + {x} && nodes == old(nodes)[..k] + [x] + old(nodes)[k..]
    {
      assert parent != null ==> Linked(parent);
      MakeRoom(x, if parent == null then 0 else parent.pos, k);
      x.color := Red;
      x.left := nil;
      x.right := nil;
      x.parent := parent;
      if parent != null {
        if cmp <= 0 {
          parent.left := x;
        } else {
          parent.right := x;
        }
      } else {
        root := x;
      }
      HungShape(x);
      HungInv(x);
    }

    // The number that a new child of `parent` gets, on its left if c <= 0 and on its right otherwise
    ghost function Gap(parent: Node?<P>, c: int): int
      reads if parent == null then {} else {parent}
    {
      if parent == null then 0 else if c <= 0 then parent.pos else parent.pos + 1
    }

    // The descent of rbtree_insert. It takes no more steps than the tree is high.
    method Descend(v: P) returns (parent: Node?<P>, c: int, ghost steps: nat)
      requires Valid()
      ensures if parent == null then root == nil else parent in repr && (if c <= 0 then parent.left else parent.right) == nil
      ensures 0 <= Gap(parent, c) <= |nodes|
      ensures forall i :: 0 <= i < Gap(parent, c) ==> cmp(v, contents[i]) > 0
      ensures forall i :: Gap(parent, c) <= i < |nodes| ==> cmp(v, contents[i]) <= 0
      ensures Kid(root) && steps <= Height(root)
    {
      var cur := root;
      parent := null;
      c := 0;
      steps := 0;
      ghost var lo, hi := 0, |nodes|;
      while cur != nil
        invariant 0 <= lo <= hi <= |nodes|
        invariant if cur == nil then lo == hi else cur in repr && cur.lo == lo && cur.hi == hi
        invariant if parent == null then cur == root && lo == 0
          else parent in repr && (if c <= 0 then cur == parent.left && hi == parent.pos else cur == parent.right && lo == parent.pos + 1)
        invariant forall i :: 0 <= i < lo ==> cmp(v, contents[i]) > 0
        invariant forall i :: hi <= i < |nodes| ==> cmp(v, contents[i]) <= 0
        invariant Kid(root) && steps + Height(cur) <= Height(root)
        decreases hi - lo
      {
        assert Linked(cur);
        c := cmp(v, cur.payload);
        parent := cur;
        steps := steps + 1;
        DescendOrder(v, cur.pos);
        if c <= 0 {
          hi := cur.pos;
          cur := cur.left;
        } else {
          lo := cur.pos + 1;
          cur := cur.right;
        }
        assert cur != nil ==> Linked(cur);
      }
    }

    method Place(x: Node<P>) returns (ghost k: int)
      requires Valid() && x !in repr && x != nil
      modifies `root, `repr, `nodes, `contents, repr`left, repr`right
      modifies repr`lo, repr`pos, repr`hi, x`left, x`right, x`parent, x`color, x`lo, x`pos, x`hi, x`bh
      ensures InsertInv(x) && Sorted(cmp, contents) && Shown()
      ensures repr == old(repr) + {x}
      ensures 0 <= k <= old(|nodes|) && nodes == old(nodes)[..k] + [x] + old(nodes)[k..]
      ensures contents == old(contents)[..k] + [x.payload] + old(contents)[k..]
      ensures forall i :: 0 <= i < k ==> cmp(x.payload, old(contents)[i]) > 0
      ensures forall i :: k <= i < old(|contents|) ==> cmp(x.payload, old(contents)[i]) <= 0
    {
      var parent: Node?<P>, c;
      ghost var steps;
      parent, c, steps := Descend(x.payload);
      k := Gap(parent, c);
      InsertSorted(cmp, contents, x.payload, k);
      contents := contents[..k] + [x.payload] + contents[k..];
      AttachLeaf(x, parent, c, k);
      ShownSpliced(k);
    }

    // rbtree_insert: x goes right before the first payload that is not less than its own.
    method Insert(x: Node<P>) returns (ghost k: int)
      requires Valid() && x !in repr && x != nil
      modifies `root, `repr, `nodes, `contents, repr`left, repr`right, repr`parent, repr`color
      modifies repr`lo, repr`pos, repr`hi, repr`bh, x`left, x`right, x`parent, x`color, x`lo, x`pos, x`hi, x`bh
      ensures Valid()
      ensures repr == old(repr) + {x}
      ensures 0 <= k <= old(|nodes|) && nodes == old(nodes)[..k] + [x] + old(nodes)[k..]
      ensures contents == old(contents)[..k] + [x.payload] + old(contents)[k..]
      ensures forall i :: 0 <= i < k ==> cmp(x.payload, old(contents)[i]) > 0
      ensures forall i :: k <= i < old(|contents|) ==> cmp(x.payload, old(contents)[i]) <= 0
    {
      k := Place(x);
      InsertFixup(x);
    }

    lemma DescendOrder(v: P, p: int)
      requires Comparator(cmp) && Sorted(cmp, contents) && 0 <= p < |contents|
      ensures cmp(v, contents[p]) <= 0 ==> forall i :: p <= i < |contents| ==> cmp(v, contents[i]) <= 0
      ensures cmp(v, contents[p]) > 0 ==> forall i :: 0 <= i <= p ==> cmp(v, contents[i]) > 0
    {
      forall i | p <= i < |contents| && cmp(v, contents[p]) <= 0 ensures cmp(v, contents[i]) <= 0 {
        assert AtMost(cmp, v, contents[p]) && (i == p || AtMost(cmp, contents[p], contents[i]));
      }
      forall i | 0 <= i <= p && cmp(v, contents[p]) > 0 ensures cmp(v, contents[i]) > 0 {
        assert !AtMost(cmp, v, contents[p]) && (i == p || AtMost(cmp, contents[i], contents[p]));
        assert !AtMost(cmp, v, contents[i]);
      }
    }

    // ---------- deletion ----------

    // The invariant of the loop of delete_fixup: all is well but that the black height of x is one too small. If x is the
    // sentinel, its parent field says where it stands.
    ghost predicate DelInv(x: Node<P>)
      reads `root, `nodes, `repr, repr`left, repr`right, repr`parent, repr`lo, repr`pos, repr`hi, nil`left, nil`right
      reads repr`color, repr`bh, nil`color, nil`bh, x`parent
    {
      && Shape() && Kid(x) && Balanced(x, x.parent)
      && (root.color == Black || root == x)
      && (x == root ==> x.parent == null)
      && (x != root ==> (
            && x.parent != null && x.parent in repr && (x.parent.left == x || x.parent.right == x)
            && x.parent.left != x.parent.right))
    }

    ghost predicate DelTurn(x: Node<P>)
      reads `root, `nodes, `repr, repr`left, repr`right, repr`parent, repr`lo, repr`pos, repr`hi, nil`left, nil`right
      reads repr`color, repr`bh, nil`color, nil`bh, x`parent
    {
      && DelInv(x) && x != root && x.color == Black
      && Linked(x.parent) && Sib(x.parent, x) in repr && Linked(Sib(x.parent, x))
    }

    // The sibling of x is never the sentinel, and its borrowed parent is right.
    lemma DelSibling(x: Node<P>)
      requires DelInv(x) && x != root && x.color == Black
      ensures DelTurn(x)
      ensures var w := Sib(x.parent, x);
        && w.parent == x.parent && w != x
        && (w.color == Red ==> w.left in repr && w.right in repr)
        && (x.parent.color == Red ==> w.color == Black)
    {
      var p := x.parent;
      assert Linked(p) && Tinted(p, x, p);
      var w := Sib(p, x);
      if x != nil {
        assert Linked(x) && Tinted(x, x, p);
      }
      assert w != nil;
      assert Linked(w) && Tinted(w, x, p);
    }

    // the red sibling w turns above the parent p of x
    twostate predicate RedTurned(x: Node<P>, p: Node<P>, w: Node<P>)
      requires old(allocated(p)) && old(allocated(w))
      reads this, nil, repr, x, p, w
    {
      && Painted({p}, {w}) && Grown(p, 0) && Turned(p, w)
      && (if old(p.left) == x
          then p.left == x && p.right == old(w.left) && w.left == p && w.right == old(w.right)
          else p.right == x && p.left == old(w.right) && w.right == p && w.left == old(w.left))
      && Shape() && x.parent == p && x.color == Black
    }

    twostate lemma RedTurnedRest(x: Node<P>)
      requires old(DelTurn(x)) && old(Sib(x.parent, x).color) == Red
      requires RedTurned(x, old(x.parent), old(Sib(x.parent, x)))
      ensures forall n {:trigger Tinted(n, x, old(x.parent))} :: n in repr && n != old(x.parent) && n != old(Sib(x.parent, x)) ==>
        Linked(n) && Tinted(n, x, old(x.parent))
    {
      var p, w := old(x.parent), old(Sib(x.parent, x));
      assert old(Tinted(p, x, p)) && old(Tinted(w, x, p));
      forall n | n in repr && n != p && n != w ensures Linked(n) && Tinted(n, x, p) {
        assert Linked(n);
        assert old(Linked(n)) && old(Tinted(n, x, p));
      }
    }

    twostate lemma RedTurnedDone(x: Node<P>)
      requires old(DelTurn(x)) && old(Sib(x.parent, x).color) == Red
      requires RedTurned(x, old(x.parent), old(Sib(x.parent, x)))
      ensures DelInv(x) && x != root && x.parent.color == Red
    {
      var p, w := old(x.parent), old(Sib(x.parent, x));
      RedTurnedRest(x);
      assert old(Tinted(p, x, p)) && old(Tinted(w, x, p));
      assert Linked(p) && Linked(w);
      assert Tinted(p, x, p) && Tinted(w, x, p);
    }

    method DeleteRedLeft(x: Node<P>) returns (w: Node<P>)
      requires DelTurn(x) && x == x.parent.left && x.parent.right.color == Red
      modifies `root, repr`left, repr`right, repr`parent, repr`lo, repr`hi, repr`color
      ensures DelInv(x) && x != root && x.color == Black && x.parent == old(x.parent) && x.parent.color == Red
      ensures x == x.parent.left && w == x.parent.right
    {
      DelSibling(x);
      w := x.parent.right;
      w.color := Black;
      x.parent.color := Red;
      ghost var p := x.parent;
      RotateLeft(x.parent);
      assert Linked(p);
      RedTurnedDone(x);
      w := x.parent.right;
    }

    method DeleteRedRight(x: Node<P>) returns (w: Node<P>)
      requires DelTurn(x) && x != x.parent.left && x.parent.left.color == Red
      modifies `root, repr`left, repr`right, repr`parent, repr`lo, repr`hi, repr`color
      ensures DelInv(x) && x != root && x.color == Black && x.parent == old(x.parent) && x.parent.color == Red
      ensures x != x.parent.left && w == x.parent.left
    {
      DelSibling(x);
      w := x.parent.left;
      w.color := Black;
      x.parent.color := Red;
      ghost var p := x.parent;
      RotateRight(x.parent);
      assert Linked(p);
      RedTurnedDone(x);
      w := x.parent.left;
    }

    // a black sibling w with two black children is painted red, and the debt moves up to the parent
    twostate lemma DebtRaisedRest(x: Node<P>)
      requires old(DelTurn(x)) && old(Sib(x.parent, x).color == Black)
      requires old(Sib(x.parent, x).left.color == Black && Sib(x.parent, x).right.color == Black)
      requires SameLinks() && Painted({old(Sib(x.parent, x))}, {}) && Grown(old(x.parent), -1)
      ensures var p := old(x.parent);
        forall n {:trigger Tinted(n, p, p.parent)} :: n in repr && n != p && n != old(Sib(x.parent, x)) ==> Linked(n) && Tinted(n, p, p.parent)
    {
      var p, w := old(x.parent), old(Sib(x.parent, x));
      forall n | n in repr && n != p && n != w ensures Linked(n) && Tinted(n, p, p.parent) {
        assert old(Linked(n)) && old(Tinted(n, x, p));
      }
    }

    twostate lemma DebtRaisedPair(x: Node<P>)
      requires old(DelTurn(x)) && old(Sib(x.parent, x).color == Black)
      requires old(Sib(x.parent, x).left.color == Black && Sib(x.parent, x).right.color == Black)
      requires SameLinks() && Painted({old(Sib(x.parent, x))}, {}) && Grown(old(x.parent), -1)
      ensures var p, w := old(x.parent), old(Sib(x.parent, x));
        Linked(p) && Linked(w) && Tinted(p, p, p.parent) && Tinted(w, p, p.parent)
    {
      var p, w := old(x.parent), old(Sib(x.parent, x));
      assert old(Tinted(p, x, p)) && old(Tinted(w, x, p));
      if x != nil {
        assert old(Linked(x)) && old(Tinted(x, x, p));
      }
    }

    twostate lemma DebtRaised(x: Node<P>)
      requires old(DelTurn(x)) && old(Sib(x.parent, x).color == Black)
      requires old(Sib(x.parent, x).left.color == Black && Sib(x.parent, x).right.color == Black)
      requires SameLinks() && Painted({old(Sib(x.parent, x))}, {}) && Grown(old(x.parent), -1)
      ensures DelInv(old(x.parent))
    {
      var p := old(x.parent);
      KeptShape();
      DebtRaisedRest(x);
      DebtRaisedPair(x);
      assert p != root ==> Linked(p.parent);
    }

    twostate lemma KeptShape()
      requires old(Shape()) && SameLinks()
      ensures Shape()
    {
      forall n | n in repr ensures Linked(n) {
        assert old(Linked(n));
      }
    }

    method DeleteRaise(x: Node<P>, w: Node<P>) returns (p: Node<P>)
      requires DelTurn(x) && w == Sib(x.parent, x) && w.color == Black && w.left.color == Black && w.right.color == Black
      modifies repr`color, repr`bh
      ensures DelInv(p) && p == old(x.parent) && p.color == old(x.parent.color)
      ensures p != root ==> p.parent != null && p.parent.hi - p.parent.lo > p.hi - p.lo
    {
      DelSibling(x);
      p := x.parent;
      p.bh := p.bh - 1;
      w.color := Red;
      DebtRaised(x);
      assert Linked(p);
      assert p != root ==> Linked(p.parent);
    }

    // the red near nephew turns above the black sibling w
    twostate predicate NearTurned(x: Node<P>, p: Node<P>, w: Node<P>, v: Node<P>)
      requires old(allocated(p)) && old(allocated(w)) && old(allocated(v))
      reads this, nil, repr, x, p, w, v
    {
      && Painted({w}, {v}) && Grown(w, 0) && Turned(w, v)
      && (if old(p.left) == x
          then p.left == x && p.right == v && v.left == old(v.left) && v.right == w && w.left == old(v.right) && w.right == old(w.right)
          else p.right == x && p.left == v && v.right == old(v.right) && v.left == w && w.right == old(v.left) && w.left == old(w.left))
      && Shape() && x.parent == p && x.color == Black
    }

    ghost function Near(x: Node<P>): Node<P>
      requires x.parent != null
      reads x, x.parent, Sib(x.parent, x)
    {
      if x.parent.left == x then Sib(x.parent, x).left else Sib(x.parent, x).right
    }

    ghost function Far(x: Node<P>): Node<P>
      requires x.parent != null
      reads x, x.parent, Sib(x.parent, x)
    {
      if x.parent.left == x then Sib(x.parent, x).right else Sib(x.parent, x).left
    }

    twostate lemma NearTurnedRest(x: Node<P>)
      requires old(DelTurn(x) && Sib(x.parent, x).color == Black && Near(x).color == Red && Far(x).color == Black && Near(x) in repr)
      requires NearTurned(x, old(x.parent), old(Sib(x.parent, x)), old(Near(x)))
      ensures forall n {:trigger Tinted(n, x, old(x.parent))} :: n in repr && n != old(Sib(x.parent, x)) && n != old(Near(x)) ==>
        Linked(n) && Tinted(n, x, old(x.parent))
    {
      var p, w, v := old(x.parent), old(Sib(x.parent, x)), old(Near(x));
      assert old(Linked(v)) && old(Tinted(w, x, p)) && old(Tinted(v, x, p));
      forall n | n in repr && n != w && n != v ensures Linked(n) && Tinted(n, x, p) {
        assert Linked(n);
        assert old(Linked(n)) && old(Tinted(n, x, p));
      }
    }

    twostate lemma NearTurnedDone(x: Node<P>)
      requires old(DelTurn(x) && Sib(x.parent, x).color == Black && Near(x).color == Red && Far(x).color == Black && Near(x) in repr)
      requires NearTurned(x, old(x.parent), old(Sib(x.parent, x)), old(Near(x)))
      ensures DelTurn(x) && Sib(x.parent, x).color == Black && Far(x).color == Red && x.parent == old(x.parent)
    {
      var p, w, v := old(x.parent), old(Sib(x.parent, x)), old(Near(x));
      NearTurnedRest(x);
      assert old(Linked(v)) && old(Tinted(w, x, p)) && old(Tinted(v, x, p));
      assert Linked(p) && Linked(w) && Linked(v);
      assert Tinted(w, x, p) && Tinted(v, x, p);
    }

    // the black sibling w, with a red far child, takes the place and the colour of the parent p
    twostate predicate FarTurned(x: Node<P>, p: Node<P>, w: Node<P>, f: Node<P>)
      requires old(allocated(p)) && old(allocated(w))
      reads this, nil, repr, x, p, w
    {
      && nil.color == old(nil.color) && nil.bh == old(nil.bh) && Turned(p, w)
      && (forall n {:trigger n in repr} :: n in repr ==>
        && n.color == (if n == w then old(p.color) else if n == p || n == f then Black else old(n.color))
        && n.bh == old(n.bh) + (if n == w then 1 else if n == p then -1 else 0))
      && (if old(p.left) == x
          then p.left == x && p.right == old(w.left) && w.left == p && w.right == f
          else p.right == x && p.left == old(w.right) && w.right == p && w.left == f)
      && Shape()
    }

    twostate lemma FarTurnedRest(x: Node<P>)
      requires old(DelTurn(x) && Sib(x.parent, x).color == Black && Far(x).color == Red && Far(x) in repr)
      requires FarTurned(x, old(x.parent), old(Sib(x.parent, x)), old(Far(x)))
      ensures forall n {:trigger Tinted(n, nil, null)} :: n in repr && n != old(Sib(x.parent, x)) && n != old(x.parent) ==>
        Linked(n) && Tinted(n, nil, null)
    {
      var p, w, f := old(x.parent), old(Sib(x.parent, x)), old(Far(x));
      assert old(Linked(f)) && old(Tinted(p, x, p)) && old(Tinted(w, x, p)) && old(Tinted(f, x, p));
      forall n | n in repr && n != w && n != p ensures Linked(n) && Tinted(n, nil, null) {
        assert Linked(n);
        assert old(Linked(n)) && old(Tinted(n, x, p));
      }
    }

    twostate lemma FarTurnedDone(x: Node<P>)
      requires old(DelTurn(x) && Sib(x.parent, x).color == Black && Far(x).color == Red && Far(x) in repr)
      requires FarTurned(x, old(x.parent), old(Sib(x.parent, x)), old(Far(x)))
      ensures Balanced(nil, null) && root.color == Black && root in repr
    {
      var p, w, f := old(x.parent), old(Sib(x.parent, x)), old(Far(x));
      FarTurnedRest(x);
      assert old(Linked(f)) && old(Tinted(p, x, p)) && old(Tinted(w, x, p)) && old(Tinted(f, x, p));
      assert Linked(p) && Linked(w);
      assert Tinted(p, nil, null) && Tinted(w, nil, null);
    }

    method DeleteNearLeft(x: Node<P>, w0: Node<P>) returns (w: Node<P>)
      requires DelTurn(x) && x == x.parent.left && w0 == x.parent.right
      requires w0.color == Black && w0.left.color == Red && w0.right.color == Black
      modifies `root, repr`left, repr`right, repr`parent, repr`lo, repr`hi, repr`color
      ensures DelTurn(x) && x == x.parent.left && w == x.parent.right && w.color == Black && w.right.color == Red
      ensures x.parent == old(x.parent)
    {
      w := w0;
      DelSibling(x);
      assert Linked(w.left);
      ghost var p := x.parent;
      w.left.color := Black;
      w.color := Red;
      RotateRight(w);
      assert Linked(p);
      NearTurnedDone(x);
      w := x.parent.right;
    }

    method DeleteNearRight(x: Node<P>, w0: Node<P>) returns (w: Node<P>)
      requires DelTurn(x) && x != x.parent.left && w0 == x.parent.left
      requires w0.color == Black && w0.right.color == Red && w0.left.color == Black
      modifies `root, repr`right, repr`left, repr`parent, repr`lo, repr`hi, repr`color
      ensures DelTurn(x) && x != x.parent.left && w == x.parent.left && w.color == Black && w.left.color == Red
      ensures x.parent == old(x.parent)
    {
      w := w0;
      DelSibling(x);
      assert Linked(w.right);
      ghost var p := x.parent;
      w.right.color := Black;
      w.color := Red;
      RotateLeft(w);
      assert Linked(p);
      NearTurnedDone(x);
      w := x.parent.left;
    }

    method DeleteFarLeft(x: Node<P>, w: Node<P>)
      requires DelTurn(x) && x == x.parent.left && w == x.parent.right && w.color == Black && w.right.color == Red
      modifies `root, repr`left, repr`right, repr`parent, repr`lo, repr`hi, repr`color, repr`bh
      ensures DelInv(root) && root.color == Black
    {
      DelSibling(x);
      assert Linked(w.right);
      ghost var p := x.parent;
      w.color := x.parent.color;
      x.parent.color := Black;
      w.right.color := Black;
      p.bh := p.bh - 1;
      w.bh := w.bh + 1;
      RotateLeft(x.parent);
      FarTurnedDone(x);
      NoDebt();
    }

    method DeleteFarRight(x: Node<P>, w: Node<P>)
      requires DelTurn(x) && x != x.parent.left && w == x.parent.left && w.color == Black && w.left.color == Red
      modifies `root, repr`right, repr`left, repr`parent, repr`lo, repr`hi, repr`color, repr`bh
      ensures DelInv(root) && root.color == Black
    {
      DelSibling(x);
      assert Linked(w.left);
      ghost var p := x.parent;
      w.color := x.parent.color;
      x.parent.color := Black;
      w.left.color := Black;
      p.bh := p.bh - 1;
      w.bh := w.bh + 1;
      RotateRight(x.parent);
      FarTurnedDone(x);
      NoDebt();
    }

    lemma NoDebt()
      requires Shape() && Balanced(nil, null) && root.color == Black && root in repr
      ensures DelInv(root)
    {
      assert Linked(root);
      forall n | n in repr ensures Linked(n) && Tinted(n, root, null) {
        assert Linked(n) && Tinted(n, nil, null);
      }
    }

    // the debt is paid by painting x black
    twostate lemma DebtPaid(x: Node<P>)
      requires old(DelInv(x)) && (x == root || old(x.color) == Red)
      requires SameLinks() && Painted({}, {x}) && Grown(x, 0)
      ensures Shape() && Balanced(nil, null) && root.color == Black
    {
      var p := old(x.parent);
      assert x != nil ==> old(Linked(x));
      forall n | n in repr ensures Linked(n) && Tinted(n, nil, null) {
        assert old(Linked(n)) && old(Tinted(n, x, p));
      }
    }

    method DeleteStepLeft(x0: Node<P>) returns (x: Node<P>)
      requires DelTurn(x0) && x0 == x0.parent.left
      modifies `root, repr`left, repr`right, repr`parent, repr`lo, repr`hi, repr`color, repr`bh
      ensures DelInv(x)
      ensures x != root && x.color == Black ==> x.parent.hi - x.parent.lo > old(x0.parent.hi - x0.parent.lo)
    {
      x := x0;
      DelSibling(x);
      assert Linked(x.parent);
      var w := x.parent.right;
      if w.color == Red {
        w := DeleteRedLeft(x);
        DelSibling(x);
      }
      if w.left.color == Black && w.right.color == Black {
        x := DeleteRaise(x, w);
      } else {
        if w.right.color == Black {
          w := DeleteNearLeft(x, w);
        }
        DeleteFarLeft(x, w);
        x := root;
      }
    }

    method DeleteStepRight(x0: Node<P>) returns (x: Node<P>)
      requires DelTurn(x0) && x0 != x0.parent.left
      modifies `root, repr`left, repr`right, repr`parent, repr`lo, repr`hi, repr`color, repr`bh
      ensures DelInv(x)
      ensures x != root && x.color == Black ==> x.parent.hi - x.parent.lo > old(x0.parent.hi - x0.parent.lo)
    {
      x := x0;
      DelSibling(x);
      assert Linked(x.parent);
      var w := x.parent.left;
      if w.color == Red {
        w := DeleteRedRight(x);
        DelSibling(x);
      }
      if w.right.color == Black && w.left.color == Black {
        x := DeleteRaise(x, w);
      } else {
        if w.left.color == Black {
          w := DeleteNearRight(x, w);
        }
        DeleteFarRight(x, w);
        x := root;
      }
    }

    // delete_fixup. Its loop ends because the parent of x grows; where a red sibling makes it shrink, the parent is red then,
    // and the same pass ends the loop.
    method DeleteFixup(x0: Node<P>)
      requires DelInv(x0)
      modifies `root, repr`left, repr`right, repr`parent, repr`lo, repr`hi, repr`color, repr`bh, nil`color
      ensures Shape() && Balanced(nil, null) && root.color == Black
    {
      var x := x0;
      while x != root && x.color == Black
        invariant DelInv(x)
        modifies `root, repr`left, repr`right, repr`parent, repr`lo, repr`hi, repr`color, repr`bh
        decreases if x != root && x.color == Black then 1 + |nodes| - (x.parent.hi - x.parent.lo) else 0
      {
        DelSibling(x);
        if x == x.parent.left {
          x := DeleteStepLeft(x);
        } else {
          x := DeleteStepRight(x);
        }
        assert x != root ==> Linked(x.parent);
      }
      PayDebt(x);
    }

    method PayDebt(x: Node<P>)
      requires DelInv(x) && (x == root || x.color == Red)
      modifies repr`color, nil`color
      ensures Shape() && Balanced(nil, null) && root.color == Black
    {
      x.color := Black;
      DebtPaid(x);
    }

    // ---------- the whole deletion ----------

    ghost function OnlyChild(y: Node<P>): Node<P>
      reads y`left, y`right
    {
      if y.left != nil then y.left else y.right
    }

    // y is out: its only child x hangs below its parent p instead, and the ranks have closed up
    twostate predicate Spliced(y: Node<P>, x: Node<P>, p: Node?<P>)
      requires y in old(repr)
      reads this, repr, x, nil
    {
      && repr == old(repr) - {y} && x.parent == p
      && nodes == (if 0 <= old(y.pos) < old(|nodes|) then old(nodes)[..old(y.pos)] + old(nodes)[old(y.pos) + 1..] else [])
      && nil.left == old(nil.left) && nil.right == old(nil.right) && nil.color == old(nil.color) && nil.bh == old(nil.bh)
      && root == (if p == null then x else old(root))
      && forall n {:trigger n in repr} :: n in repr ==>
        && n.left == (if n == p && old(n.left) == y then x else old(n.left))
        && n.right == (if n == p && old(n.left) != y then x else old(n.right))
        && n.parent == (if n == x then p else old(n.parent))
        && n.lo == (if old(n.lo) > old(y.pos) then old(n.lo) - 1 else old(n.lo))
        && n.hi == (if old(n.hi) > old(y.pos) then old(n.hi) - 1 else old(n.hi))
        && n.pos == (if old(n.pos) > old(y.pos) then old(n.pos) - 1 else old(n.pos))
    }

    twostate lemma SplicedLinked(y: Node<P>)
      requires old(Shape()) && y in old(repr) && old(y.left == nil || y.right == nil)
      requires Spliced(y, old(OnlyChild(y)), old(y.parent))
      ensures forall n {:trigger Linked(n)} :: n in repr ==> Linked(n)
    {
      var x, p := old(OnlyChild(y)), old(y.parent);
      assert old(Linked(y));
      if x != nil {
        assert old(Linked(x));
      }
      forall n | n in repr ensures Linked(n) {
        assert old(Linked(n));
      }
    }

    twostate lemma SplicedShape(y: Node<P>)
      requires old(Shape()) && y in old(repr) && old(y.left == nil || y.right == nil)
      requires Spliced(y, old(OnlyChild(y)), old(y.parent))
      ensures Shape()
    {
      SplicedLinked(y);
      assert old(Linked(y));
      forall i | 0 <= i < |nodes| ensures nodes[i] in repr && nodes[i].pos == i {
        if i < old(y.pos) {
          assert nodes[i] == old(nodes)[i];
        } else {
          assert nodes[i] == old(nodes)[i + 1];
        }
      }
      var p := old(y.parent);
      if p == null {
        assert old(OnlyChild(y)) != nil ==> old(Linked(OnlyChild(y)));
      } else {
        assert old(Linked(p));
        assert old(Linked(root));
      }
    }

    twostate lemma SplicedBlackTints(y: Node<P>)
      requires old(Shape()) && y in old(repr) && old(y.left == nil || y.right == nil)
      requires Spliced(y, old(OnlyChild(y)), old(y.parent)) && Shape()
      requires old(Balanced(nil, null) && root.color == Black)
      requires forall n {:trigger n in repr} :: n in repr ==> n.color == old(n.color) && n.bh == old(n.bh)
      requires old(y.color) == Black
      ensures forall n {:trigger Tinted(n, old(OnlyChild(y)), old(y.parent))} :: n in repr ==>
        Linked(n) && Tinted(n, old(OnlyChild(y)), old(y.parent))
    {
      var x, p := old(OnlyChild(y)), old(y.parent);
      assert old(Linked(y)) && old(Tinted(y, nil, null));
      if x != nil {
        assert old(Linked(x)) && old(Tinted(x, nil, null));
      }
      forall n | n in repr ensures Linked(n) && Tinted(n, x, p) {
        assert Linked(n);
        assert old(Linked(n)) && old(Tinted(n, nil, null));
      }
    }

    twostate lemma SplicedBlack(y: Node<P>)
      requires old(Shape()) && y in old(repr) && old(y.left == nil || y.right == nil)
      requires Spliced(y, old(OnlyChild(y)), old(y.parent)) && Shape()
      requires old(Balanced(nil, null) && root.color == Black)
      requires forall n {:trigger n in repr} :: n in repr ==> n.color == old(n.color) && n.bh == old(n.bh)
      requires old(y.color) == Black
      ensures DelInv(old(OnlyChild(y)))
    {
      var p := old(y.parent);
      assert old(Linked(y)) && old(Tinted(y, nil, null));
      if p != null {
        assert old(Linked(p)) && old(Tinted(p, nil, null));
        assert Linked(p);
      }
      SplicedBlackTints(y);
    }

    twostate lemma SplicedRed(y: Node<P>)
      requires old(Shape()) && y in old(repr) && old(y.left == nil || y.right == nil)
      requires Spliced(y, old(OnlyChild(y)), old(y.parent)) && Shape()
      requires old(Balanced(nil, null) && root.color == Black)
      requires forall n {:trigger n in repr} :: n in repr ==> n.color == old(n.color) && n.bh == old(n.bh)
      requires old(y.color) == Red
      ensures Balanced(nil, null) && root.color == Black
    {
      var x, p := old(OnlyChild(y)), old(y.parent);
      assert old(Linked(y)) && old(Tinted(y, nil, null));
      if p != null {
        assert old(Linked(p)) && old(Tinted(p, nil, null));
      }
      forall n | n in repr ensures Linked(n) && Tinted(n, nil, null) {
        assert Linked(n);
        assert old(Linked(n)) && old(Tinted(n, nil, null));
      }
    }

    ghost method CloseUp(y: Node<P>)
      requires Shape() && y in repr
      modifies `repr, `nodes, repr`lo, repr`pos, repr`hi
      ensures repr == old(repr) - {y}
      ensures nodes == (if 0 <= old(y.pos) < old(|nodes|) then old(nodes)[..old(y.pos)] + old(nodes)[old(y.pos) + 1..] else [])
      ensures forall n {:trigger n in old(repr)} :: n in old(repr) ==>
        && n.lo == (if old(n.lo) > old(y.pos) then old(n.lo) - 1 else old(n.lo))
        && n.hi == (if old(n.hi) > old(y.pos) then old(n.hi) - 1 else old(n.hi))
        && n.pos == (if old(n.pos) > old(y.pos) then old(n.pos) - 1 else old(n.pos))
    {
      assert Linked(y);
      ghost var q := y.pos;
      forall n | n in repr { n.lo := if n.lo > q then n.lo - 1 else n.lo; }
      forall n | n in repr { n.hi := if n.hi > q then n.hi - 1 else n.hi; }
      forall n | n in repr { n.pos := if n.pos > q then n.pos - 1 else n.pos; }
      repr, nodes := repr - {y}, nodes[..q] + nodes[q + 1..];
    }

    // The splice of rbtree_delete: the only child of y, or the sentinel, takes its place and its parent.
    method Unlink(y: Node<P>) returns (x: Node<P>)
      requires nil !in repr && y !in repr && y != nil && Kid(OnlyChild(y))
      requires y.parent != null ==> y.parent in repr
      modifies `root, repr`left, repr`right, repr`parent, nil`parent
      ensures x == old(OnlyChild(y)) && x.parent == old(y.parent)
      ensures root == (if old(y.parent) == null then x else old(root))
      ensures var p := old(y.parent); forall n {:trigger n in repr} :: n in repr ==>
        && n.left == (if n == p && old(n.left) == y then x else old(n.left))
        && n.right == (if n == p && old(n.left) != y then x else old(n.right))
        && n.parent == (if n == x then p else old(n.parent))
    {
      if y.left != nil {
        x := y.left;
      } else {
        x := y.right;
      }
      x.parent := y.parent;
      if y.parent != null {
        if y == y.parent.left {
          y.parent.left := x;
        } else {
          y.parent.right := x;
        }
      } else {
        root := x;
      }
    }

    method TakeOut(y: Node<P>) returns (x: Node<P>)
      requires Shape() && y in repr && (y.left == nil || y.right == nil)
      modifies `root, `repr, `nodes, repr`left, repr`right, repr`parent, repr`lo, repr`pos, repr`hi, nil`parent
      ensures x == old(OnlyChild(y)) && Spliced(y, x, old(y.parent))
    {
      assert Linked(y);
      assert y.parent != null ==> Linked(y.parent);
      CloseUp(y);
      x := Unlink(y);
    }

    method SpliceOut(y: Node<P>) returns (x: Node<P>)
      requires Shape() && y in repr && (y.left == nil || y.right == nil)
      requires Balanced(nil, null) && root.color == Black
      modifies `root, `repr, `nodes, repr`left, repr`right, repr`parent, repr`lo, repr`pos, repr`hi, nil`parent
      ensures repr == old(repr) - {y} && y.color == old(y.color)
      ensures 0 <= old(y.pos) < old(|nodes|) && nodes == old(nodes)[..old(y.pos)] + old(nodes)[old(y.pos) + 1..]
      ensures Shape() && if y.color == Black then DelInv(x) else Balanced(nil, null) && root.color == Black
    {
      assert Linked(y);
      x := TakeOut(y);
      SplicedShape(y);
      if y.color == Black {
        SplicedBlack(y);
      } else {
        SplicedRed(y);
      }
    }

    // the payloads after the node at k has left
    twostate lemma ShownWithout(k: int)
      requires old(Shown()) && 0 <= k < old(|nodes|)
      requires nodes == old(nodes)[..k] + old(nodes)[k + 1..]
      requires contents == old(contents)[..k] + old(contents)[k + 1..]
      requires forall i {:trigger old(nodes)[i]} :: 0 <= i < old(|nodes|) && i != k ==> old(nodes)[i].payload == old(nodes[i].payload)
      ensures Shown()
    {
      forall i | 0 <= i < |nodes| ensures contents[i] == nodes[i].payload {
        assert nodes[i] == old(nodes)[if i < k then i else i + 1];
      }
    }

    // the payloads after the successor of the node at k has left and its payload has been copied over that one's
    twostate lemma ShownMoved(k: int)
      requires old(Shown()) && 0 <= k < old(|nodes|) - 1
      requires nodes == old(nodes)[..k + 1] + old(nodes)[k + 2..]
      requires old(nodes)[k].payload == old(nodes[k + 1].payload)
      requires contents == old(contents)[..k] + old(contents)[k + 1..]
      requires forall i {:trigger old(nodes)[i]} :: 0 <= i < old(|nodes|) && i != k ==> old(nodes)[i].payload == old(nodes[i].payload)
      ensures Shown()
    {
      forall i | 0 <= i < |nodes| ensures contents[i] == nodes[i].payload {
        assert nodes[i] == old(nodes)[if i <= k then i else i + 1];
      }
    }

    // The node that rbtree_delete splices out for z
    method Victim(z: Node<P>) returns (y: Node<P>)
      requires Shape() && z in repr
      ensures y in repr && (y.left == nil || y.right == nil)
      ensures if z.left == nil || z.right == nil then y == z else y.pos == z.pos + 1
    {
      assert Linked(z);
      if z.left == nil || z.right == nil {
        y := z;
      } else {
        y := z.right;
        assert Linked(y);
        while y.left != nil
          invariant y in repr && Linked(y) && y.lo == z.pos + 1
          decreases y.hi - y.lo
        {
          y := y.left;
          assert Linked(y);
        }
      }
    }

    method Extract(z: Node<P>) returns (y: Node<P>, x: Node<P>, ghost k: int)
      requires Valid() && z in repr
      modifies `root, `repr, `nodes, `contents, repr`left, repr`right, repr`parent, repr`lo, repr`pos, repr`hi
      modifies z`payload, nil`parent
      ensures Shape() && Sorted(cmp, contents) && Shown()
      ensures if y.color == Black then DelInv(x) else Balanced(nil, null) && root.color == Black
      ensures 0 <= k < old(|nodes|) && old(nodes)[k] == z
      ensures contents == old(contents)[..k] + old(contents)[k + 1..]
      ensures y in old(repr) && repr == old(repr) - {y}
      ensures old(z.left == nil || z.right == nil) ==>
        y == z && z.payload == old(z.payload) && nodes == old(nodes)[..k] + old(nodes)[k + 1..]
      ensures old(z.left != nil && z.right != nil) ==>
        && k + 1 < old(|nodes|) && y == old(nodes)[k + 1] && z.payload == old(y.payload)
        && nodes == old(nodes)[..k + 1] + old(nodes)[k + 2..]
    {
      assert Linked(z);
      k := z.pos;
      y := Victim(z);
      assert Linked(y);
      RemoveSorted(cmp, contents, k);
      contents := contents[..k] + contents[k + 1..];
      x := SpliceOut(y);
      if y != z {
        z.payload := y.payload;
        ShownMoved(k);
      } else {
        ShownWithout(k);
      }
    }

    // rbtree_delete: the entry of z, number k, leaves the contents. The node that leaves the tree is y: z itself, or the next
    // node in order, whose payload then is in z.
    method Delete(z: Node<P>) returns (ghost y: Node<P>, ghost k: int)
      requires Valid() && z in repr
      modifies `root, `repr, `nodes, `contents, repr`left, repr`right, repr`parent, repr`color, repr`lo, repr`pos, repr`hi, repr`bh
      modifies z`payload, nil`parent, nil`color
      ensures Valid()
      ensures 0 <= k < old(|nodes|) && old(nodes)[k] == z
      ensures contents == old(contents)[..k] + old(contents)[k + 1..]
      ensures y in old(repr) && repr == old(repr) - {y}
      ensures old(z.left == nil || z.right == nil) ==>
        y == z && z.payload == old(z.payload) && nodes == old(nodes)[..k] + old(nodes)[k + 1..]
      ensures old(z.left != nil && z.right != nil) ==>
        && k + 1 < old(|nodes|) && y == old(nodes)[k + 1] && z.payload == old(y.payload)
        && nodes == old(nodes)[..k + 1] + old(nodes)[k + 2..]
    {
      var v, x;
      v, x, k := Extract(z);
      y := v;
      if v.color == Black {
        DeleteFixup(x);
      }
    }

    // Writing to the payload of node number k, or of a node outside the tree, as users of the tree may where the order allows
    method SetPayload(x: Node<P>, p: P, ghost outside: bool, ghost k: int)
      requires Valid()
      requires if outside then x !in repr
        else 0 <= k < |nodes| == |contents| && nodes[k] == x && Sorted(cmp, contents[k := p])
      modifies x`payload, `contents
      ensures Valid() && x.payload == p
      ensures contents == if outside then old(contents) else old(contents)[k := p]
    {
      NodesApart(x, outside, k);
      x.payload := p;
      if !outside {
        contents := contents[k := p];
      }
      ShownSet(x, outside, k);
    }

    lemma NodesApart(x: Node<P>, outside: bool, k: int)
      requires Shape() && if outside then x !in repr else 0 <= k < |nodes| && nodes[k] == x
      ensures forall i {:trigger nodes[i]} :: 0 <= i < |nodes| && (outside || i != k) ==> nodes[i] != x
    {
    }

    lemma ShownSet(x: Node<P>, outside: bool, k: int)
      requires |contents| == |nodes| && (outside || 0 <= k < |nodes|)
      requires forall i {:trigger nodes[i]} :: 0 <= i < |nodes| && (outside || i != k) ==> contents[i] == nodes[i].payload
      requires !outside ==> contents[k] == nodes[k].payload
      ensures Shown()
    {
    }

    // ---------- searching ----------

    // the nodes met by an in-order walk along the left and right fields
    ghost function Walk(n: Node<P>): seq<Node<P>>
      requires Shape() && Kid(n)
      reads `root, `nodes, `repr, repr`left, repr`right, repr`parent, repr`lo, repr`pos, repr`hi, nil`left, nil`right
      decreases if n == nil then 0 else n.hi - n.lo
    {
      if n == nil then []
      else
        assert Linked(n) && (n.left != nil ==> Linked(n.left)) && (n.right != nil ==> Linked(n.right));
        Walk(n.left) + [n] + Walk(n.right)
    }

    lemma {:induction false} WalkIsSlice(n: Node<P>)
      requires Shape() && n in repr
      ensures 0 <= n.lo <= n.hi <= |nodes| && Walk(n) == nodes[n.lo..n.hi]
      decreases n.hi - n.lo
    {
      assert Linked(n);
      if n.left != nil {
        assert Linked(n.left);
        WalkIsSlice(n.left);
      }
      if n.right != nil {
        assert Linked(n.right);
        WalkIsSlice(n.right);
      }
      assert Walk(n.left) == nodes[n.lo..n.pos] && Walk(n.right) == nodes[n.pos + 1..n.hi];
      SlicesMeet(n.lo, n.pos, n.hi);
    }

    lemma SlicesMeet(lo: int, pos: int, hi: int)
      requires 0 <= lo <= pos < hi <= |nodes|
      ensures nodes[lo..pos] + [nodes[pos]] + nodes[pos + 1..hi] == nodes[lo..hi]
    {
    }

    // following the pointers from the root meets exactly the nodes of the tree, in the order of `nodes`
    lemma WalkIsNodes()
      requires Shape()
      ensures Kid(root) && Walk(root) == nodes
      ensures repr == set n | n in nodes
    {
      forall n | n in repr ensures n in nodes {
        assert Linked(n);
      }
      if root != nil {
        WalkIsSlice(root);
      }
    }

    // The number of nodes on the longest path from n down
    ghost function Height(n: Node<P>): nat
      requires Shape() && Kid(n)
      reads `root, `nodes, `repr, repr`left, repr`right, repr`parent, repr`lo, repr`pos, repr`hi, nil`left, nil`right
      decreases if n == nil then 0 else n.hi - n.lo
    {
      if n == nil then 0
      else
        assert Linked(n) && (n.left != nil ==> Linked(n.left)) && (n.right != nil ==> Linked(n.right));
        var l, r := Height(n.left), Height(n.right);
        1 + if l < r then r else l
    }

    ghost function Size(n: Node<P>): int
      reads n`lo, n`hi
    {
      if n == nil then 0 else n.hi - n.lo
    }

    lemma {:induction false} BlackHeightBounds(n: Node<P>)
      requires Shape() && Balanced(nil, null) && Kid(n)
      ensures H(n) >= 1 && Height(n) <= 2 * (H(n) - 1) + (if n.color == Red then 1 else 0)
      ensures Size(n) + 1 >= Pow2(H(n) - 1)
      decreases if n == nil then 0 else n.hi - n.lo
    {
      if n != nil {
        assert Linked(n) && Tinted(n, nil, null);
        assert n.left != nil ==> Linked(n.left);
        assert n.right != nil ==> Linked(n.right);
        BlackHeightBounds(n.left);
        BlackHeightBounds(n.right);
      }
    }

    // a valid tree of n nodes is at most 2 * log2(n + 1) high
    lemma HeightBound()
      requires Valid()
      ensures Kid(root) && Pow2(Height(root)) <= (|nodes| + 1) * (|nodes| + 1)
    {
      BlackHeightBounds(root);
      SquareBound(Height(root), H(root) - 1, |nodes| + 1);
    }

    lemma InContents(n: Node<P>)
      requires Valid() && n in repr
      ensures 0 <= n.pos < |contents| && contents[n.pos] == n.payload
    {
      assert Linked(n);
    }

    lemma HasBlackBelow(n: Node<P>)
      requires Shape() && Balanced(nil, null) && n in repr
      ensures n.bh >= 1
    {
      assert Linked(n) && Tinted(n, nil, null);
    }

    // The only child of a node is red and has no children.
    lemma OnlyChildAlone(n: Node<P>, c: Node<P>)
      requires Shape() && Balanced(nil, null) && n in repr && c in repr
      requires (n.left == nil && n.right == c) || (n.right == nil && n.left == c)
      ensures c.left == nil && c.right == nil
    {
      assert Linked(n) && Tinted(n, nil, null);
      assert Linked(c) && Tinted(c, nil, null);
      if c.left != nil {
        HasBlackBelow(c.left);
      } else if c.right != nil {
        HasBlackBelow(c.right);
      }
    }

    // From three nodes on, the root has two children.
    lemma RootHasTwo()
      requires Valid() && |nodes| >= 3
      ensures root in repr && root.left != nil && root.right != nil
    {
      assert Linked(root);
      if root.left == nil {
        if root.right != nil {
          assert Linked(root.right);
          OnlyChildAlone(root, root.right);
        }
      } else if root.right == nil {
        assert Linked(root.left);
        OnlyChildAlone(root, root.left);
      }
    }

    // rbtree_leftmost
    method Leftmost(x: Node<P>) returns (m: Node?<P>, ghost steps: nat)
      requires Shape() && Kid(x)
      ensures if x == nil then m == null else 0 <= x.lo < |nodes| && m == nodes[x.lo] && m.left == nil
      ensures steps <= Height(x)
    {
      steps := 0;
      if x == nil {
        return null, 0;
      }
      var x' := x;
      assert Linked(x);
      var next := x;
      while next != nil
        invariant x' in repr && x'.lo == x.lo && Linked(x')
        invariant next == x' || next == x'.left
        invariant steps + Height(next) <= Height(x)
        decreases if next == nil then 0 else if next == x' then 1 + (x'.hi - x'.lo) else x'.hi - x'.lo
      {
        x' := next;
        assert Linked(x');
        next := next.left;
        steps := steps + 1;
      }
      m := x';
    }

    // rbtree_rightmost
    method Rightmost(x: Node<P>) returns (m: Node?<P>, ghost steps: nat)
      requires Shape() && Kid(x)
      ensures if x == nil then m == null else 0 < x.hi <= |nodes| && m == nodes[x.hi - 1] && m.right == nil
      ensures steps <= Height(x)
    {
      steps := 0;
      if x == nil {
        return null, 0;
      }
      var x' := x;
      assert Linked(x);
      var next := x;
      while next != nil
        invariant x' in repr && x'.hi == x.hi && Linked(x')
        invariant next == x' || next == x'.right
        invariant steps + Height(next) <= Height(x)
        decreases if next == nil then 0 else if next == x' then 1 + (x'.hi - x'.lo) else x'.hi - x'.lo
      {
        x' := next;
        assert Linked(x');
        next := next.right;
        steps := steps + 1;
      }
      m := x';
    }

    // rbtree_upper_bound
    method UpperBound(v: P) returns (best: Node?<P>, ghost steps: nat)
      requires Valid()
      ensures best != null ==> best in repr && 0 <= best.pos < |nodes| && nodes[best.pos] == best
      ensures forall i :: 0 <= i < |nodes| && (best == null || i < best.pos) ==> cmp(contents[i], v) <= 0
      ensures forall i :: 0 <= i < |nodes| && best != null && best.pos <= i ==> cmp(contents[i], v) > 0
      ensures Kid(root) && steps <= Height(root)
    {
      best := null;
      steps := 0;
      var cur := root;
      ghost var lo, hi := 0, |nodes|;
      while cur != nil
        invariant 0 <= lo <= hi <= |nodes|
        invariant if cur == nil then lo == hi else cur in repr && cur.lo == lo && cur.hi == hi
        invariant if best == null then hi == |nodes| else best in repr && best.pos == hi
        invariant forall i :: 0 <= i < lo ==> cmp(contents[i], v) <= 0
        invariant forall i :: hi <= i < |nodes| ==> cmp(contents[i], v) > 0
        invariant Kid(root) && steps + Height(cur) <= Height(root)
        decreases hi - lo
      {
        assert Linked(cur);
        steps := steps + 1;
        UpperOrder(v, cur.pos);
        if cmp(cur.payload, v) > 0 {
          best := cur;
          hi := cur.pos;
          cur := cur.left;
        } else {
          lo := cur.pos + 1;
          cur := cur.right;
        }
        assert cur != nil ==> Linked(cur);
      }
      assert best != null ==> Linked(best);
    }

    lemma UpperOrder(v: P, p: int)
      requires Comparator(cmp) && Sorted(cmp, contents) && 0 <= p < |contents|
      ensures cmp(contents[p], v) > 0 ==> forall i :: p <= i < |contents| ==> cmp(contents[i], v) > 0
      ensures cmp(contents[p], v) <= 0 ==> forall i :: 0 <= i <= p ==> cmp(contents[i], v) <= 0
    {
      forall i | p <= i < |contents| && cmp(contents[p], v) > 0 ensures cmp(contents[i], v) > 0 {
        assert !AtMost(cmp, contents[p], v) && (i == p || AtMost(cmp, contents[p], contents[i]));
        assert !AtMost(cmp, contents[i], v);
      }
      forall i | 0 <= i <= p && cmp(contents[p], v) <= 0 ensures cmp(contents[i], v) <= 0 {
        assert AtMost(cmp, contents[p], v) && (i == p || AtMost(cmp, contents[i], contents[p]));
        assert AtMost(cmp, contents[i], v);
      }
    }
  }

  // ---------- orders ----------

  ghost predicate AtMost<P>(cmp: (P, P) -> int, a: P, b: P)
  {
    cmp(a, b) <= 0
  }

  // What every comparison function must be for the tree to order by it: a total preorder, for which several payloads may be
  // equal, and whose sign turns round when its arguments are swapped
  ghost predicate Comparator<P(!new)>(cmp: (P, P) -> int)
  {
    && (forall a, b {:trigger AtMost(cmp, a, b)} :: AtMost(cmp, a, b) <==> cmp(b, a) >= 0)
    && (forall a, b, c {:trigger AtMost(cmp, a, b), AtMost(cmp, b, c)} ::
          AtMost(cmp, a, b) && AtMost(cmp, b, c) ==> AtMost(cmp, a, c))
  }

  ghost predicate Sorted<P>(cmp: (P, P) -> int, s: seq<P>)
  {
    forall i, j :: 0 <= i < j < |s| ==> cmp(s[i], s[j]) <= 0
  }

  lemma RemoveSorted<P(!new)>(cmp: (P, P) -> int, s: seq<P>, k: int)
    requires Sorted(cmp, s) && 0 <= k < |s|
    ensures Sorted(cmp, s[..k] + s[k + 1..])
  {
  }

  lemma InsertSorted<P(!new)>(cmp: (P, P) -> int, s: seq<P>, v: P, k: int)
    requires Comparator(cmp) && Sorted(cmp, s) && 0 <= k <= |s|
    requires forall i :: 0 <= i < k ==> cmp(v, s[i]) > 0
    requires forall i :: k <= i < |s| ==> cmp(v, s[i]) <= 0
    ensures Sorted(cmp, s[..k] + [v] + s[k..])
  {
    forall i | 0 <= i < k ensures cmp(s[i], v) <= 0 {
      assert AtMost(cmp, s[i], v);
    }
  }

  ghost function Pow2(n: nat): nat
  {
    if n == 0 then 1 else 2 * Pow2(n - 1)
  }

  lemma SquareBound(h: nat, b: nat, n: nat)
    requires h <= 2 * b && Pow2(b) <= n
    ensures Pow2(h) <= n * n
  {
    Pow2Mono(h, 2 * b);
    Pow2Square(b);
    SquareMono(Pow2(b), n);
  }

  lemma SquareMono(a: nat, n: nat)
    requires a <= n
    ensures a * a <= n * n
  {
    assert a * a <= a * n <= n * n;
  }

  lemma Pow2Mono(m: nat, n: nat)
    requires m <= n
    ensures Pow2(m) <= Pow2(n)
  {
  }

  lemma {:induction false} Pow2Square(n: nat)
    ensures Pow2(2 * n) == Pow2(n) * Pow2(n)
  {
    if n > 0 {
      Pow2Square(n - 1);
      var a := Pow2(n - 1);
      assert Pow2(2 * n) == 2 * Pow2(2 * n - 1) == 4 * Pow2(2 * (n - 1)) == 4 * (a * a);
      assert (2 * a) * (2 * a) == 4 * (a * a);
    }
  }
}
