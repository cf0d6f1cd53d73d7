/** The parent-pointer red-black tree of memory.c on the heap. */
module MemTree {
  import opened RedBlack
  import opened MemLinks
  import opened Pages

  /** The globals of memory.c: `mm_root`, and a ghost copy of the tree it denotes. */
  class ForkTree {
    var mmRoot: MemNode?
    ghost var repr: set<MemNode>

    /** The tree `ibv_fork_init` creates. */
    constructor ()
      ensures Valid() && fresh(repr) && |Seq()| == 1
      ensures Seq()[0].start == 0 && Seq()[0].end == UINTPTR_MAX && Seq()[0].refcnt == 0
    {
      var node := new MemNode(0, UINTPTR_MAX, 0);
      mmRoot := node;
      repr := {node};
      tree := Node(Leaf, node, Black, Leaf);
      new;
      assert Image()[node] == Cell(Black, null, null, null);
      ghost var leaf: MTree := Leaf;
      assert Linked(leaf, node, Image()) && Ordered(leaf, 0, 0) && Ordered(leaf, 1, UINTPTR_MAX + 1) && Balanced(leaf);
      assert OrderedCtx(Top) && LinkedCtx(Top, node, node, Image());
      assert At(Top, tree, mmRoot, Image());
      assert InOrder(tree) == [node];
    }

    ghost function Image(): Heap
      reads this`repr, repr`color, repr`parent, repr`left, repr`right
    {
      map n | n in repr :: Cell(n.color, n.parent, n.left, n.right)
    }

    method PutLeft(n: MemNode, v: MemNode?)
      requires n in repr
      modifies n`left
      ensures n.left == v && Image() == SetLeft(old(Image()), n, v)
    {
      n.left := v;
    }

    method PutRight(n: MemNode, v: MemNode?)
      requires n in repr
      modifies n`right
      ensures n.right == v && Image() == SetRight(old(Image()), n, v)
    {
      n.right := v;
    }

    method PutParent(n: MemNode, v: MemNode?)
      requires n in repr
      modifies n`parent
      ensures n.parent == v && Image() == SetParent(old(Image()), n, v)
    {
      n.parent := v;
    }

    /** Writes `child` where `node` hangs: into its parent, or into mm_root. */
    method PutChild(node: MemNode, child: MemNode?)
      requires node.parent != null ==> node.parent in repr
      modifies this`mmRoot, repr`left, repr`right
      ensures Image() == SetChild(old(Image()), node.parent, node, child)
      ensures mmRoot == if node.parent == null then child else old(mmRoot)
    {
      if node.parent != null {
        if node.parent.right == node {
          node.parent.right := child;
        } else {
          node.parent.left := child;
        }
      } else {
        mmRoot := child;
      }
    }

    method RotateRight(node: MemNode, ghost c: MCtx, ghost t: MTree)
      requires At(c, t, mmRoot, Image()) && t.Node? && t.n == node && t.l.Node?
      modifies this`mmRoot, repr`left, repr`right, repr`parent
      ensures At(c, RotatedRight(t), mmRoot, Image())
    {
      RotatableRight(c, t, mmRoot, Image());
      var tmp := node.left;
      PutLeft(node, tmp.right);
      if node.left != null {
        PutParent(node.left, node);
      }
      PutChild(node, tmp);
      PutParent(tmp, node.parent);
      PutRight(tmp, node);
      PutParent(node, tmp);
      RotateRightAt(c, t, old(mmRoot), old(Image()), Image());
    }

    method RotateLeft(node: MemNode, ghost c: MCtx, ghost t: MTree)
      requires At(c, t, mmRoot, Image()) && t.Node? && t.n == node && t.r.Node?
      modifies this`mmRoot, repr`left, repr`right, repr`parent
      ensures At(c, RotatedLeft(t), mmRoot, Image())
    {
      RotatableLeft(c, t, mmRoot, Image());
      var tmp := node.right;
      PutRight(node, tmp.left);
      if node.right != null {
        PutParent(node.right, node);
      }
      PutChild(node, tmp);
      PutParent(tmp, node.parent);
      PutLeft(tmp, node);
      PutParent(node, tmp);
      RotateLeftAt(c, t, old(mmRoot), old(Image()), Image());
    }

    method Paint(node: MemNode, col: Color, ghost c: MCtx, ghost t: MTree)
      requires At(c, t, mmRoot, Image()) && t.Node? && t.n == node
      modifies repr`color
      ensures At(c, t.(c := col), mmRoot, Image())
    {
      Open(c, t, mmRoot, Image());
      node.color := col;
      assert Image() == SetColor(old(Image()), node, col);
      PaintAt(c, t, mmRoot, col, old(Image()), Image());
    }

    // ----- insertion -------------------------------------------------------------------

    /** `__mm_add_rebalance`, red uncle. */
    method AddRecolor(parent: MemNode, uncle: MemNode, gp: MemNode, ghost c0: MCtx, ghost t0: MTree)
      returns (ghost t: MTree)
      requires At(c0, t0, mmRoot, Image()) && InsertState(c0, t0)
      requires !c0.Top? && c0.c.Red? && !c0.up.Top? && c0.n == parent && c0.up.n == gp
      requires uncle.color == Red && uncle == Ref(if c0.up.InLeft? then c0.up.r else c0.up.l)
      modifies repr`color
      ensures At(c0.up.up, t, mmRoot, Image()) && InsertState(c0.up.up, t) && t.Node? && t.n == gp
      ensures InOrder(Plug(c0.up.up, t)) == InOrder(Plug(c0, t0)) && Depth(c0.up.up) < Depth(c0)
    {
      hide At, InsertState, Plug, InOrder;
      InsertGrandparent(c0, t0);
      ghost var z, g := Zip(c0, t0), c0.up.up;
      ghost var u := if c0.up.InLeft? then c0.up.r else c0.up.l;
      Close(c0, t0, mmRoot, Image());
      assert u.Node? && u.n == uncle && u.c.Red? by {
        Close(c0.up, z, mmRoot, Image());
        Open(g, Zip(c0.up, z), mmRoot, Image());
        Open(if c0.up.InLeft? then InRight(z, gp, Black, g) else InLeft(gp, Black, z, g), u, mmRoot, Image());
      }
      Paint(parent, Black, c0.up, z);
      ghost var p, u' := z.(c := Black), u.(c := Black);
      Close(c0.up, p, mmRoot, Image());
      Open(g, Zip(c0.up, p), mmRoot, Image());
      ghost var cu := if c0.up.InLeft? then InRight(p, gp, Black, g) else InLeft(gp, Black, p, g);
      Open(cu, u, mmRoot, Image());
      Paint(uncle, Black, cu, u);
      Close(cu, u', mmRoot, Image());
      Paint(gp, Red, g, Zip(cu, u'));
      t := Zip(cu, u').(c := Red);
      InsertRecolor(c0, t0, t);
    }

    /** `__mm_add_rebalance`, black uncle, the parent being a left child. */
    method AddRotateLeft(node0: MemNode, ghost c0: MCtx, ghost t0: MTree)
      returns (node: MemNode, ghost c: MCtx, ghost t: MTree)
      requires At(c0, t0, mmRoot, Image()) && InsertState(c0, t0) && t0.n == node0
      requires !c0.Top? && c0.c.Red? && c0.up.InLeft? && IsBlack(c0.up.r)
      modifies this`mmRoot, repr`left, repr`right, repr`parent, repr`color
      ensures At(c, t, mmRoot, Image()) && InsertState(c, t) && t.Node? && t.n == node
      ensures Depth(c) < Depth(c0) && InOrder(Plug(c, t)) == InOrder(Plug(c0, t0))
    {
      InsertGrandparent(c0, t0);
      ghost var z, g, u := Zip(c0, t0), c0.up.up, c0.up.r;
      assert t0.c.Red? && Depth(c0) == Depth(g) + 2;
      hide At, InsertState, Plug, InOrder;
      Open(c0, t0, mmRoot, Image());
      Close(c0, t0, mmRoot, Image());
      Close(c0.up, z, mmRoot, Image());
      var parent := node0.parent;
      var gp := parent.parent;

      node := node0;
      ghost var x, q, y := t0, c0.n, if c0.InLeft? then c0.r else t0.r;
      if node == parent.right {
        OpenCtx(c0, t0, mmRoot, Image());
        x, q := Node(c0.l, c0.n, Red, t0.l), t0.n;
        RotateLeft(parent, c0.up, z);
        node := parent;
        Open(c0.up, Node(x, q, Red, y), mmRoot, Image());
        Open(InLeft(q, Red, y, c0.up), x, mmRoot, Image());
        parent := node.parent;
      } else {
        OpenCtx(c0, t0, mmRoot, Image());
      }
      LiftLeft(parent, gp, g, Node(x, q, Red, y), u);
      Open(g, Node(x, q, Black, Node(y, gp, Red, u)), mmRoot, Image());
      c, t := InLeft(q, Black, Node(y, gp, Red, u), g), x;
      InsertRotateLeft(c0, t0, x, q, y);
    }

    /** The end of that case: parent and grandparent exchange colors, and the grandparent is rotated down. */
    method LiftLeft(parent: MemNode, gp: MemNode, ghost g: MCtx, ghost s: MTree, ghost u: MTree)
      requires At(InLeft(gp, Black, u, g), s, mmRoot, Image()) && s.Node? && s.n == parent
      modifies this`mmRoot, repr`left, repr`right, repr`parent, repr`color
      ensures At(g, Node(s.l, parent, Black, Node(s.r, gp, Red, u)), mmRoot, Image())
    {
      hide At;
      Paint(parent, Black, InLeft(gp, Black, u, g), s);
      Close(InLeft(gp, Black, u, g), s.(c := Black), mmRoot, Image());
      ghost var w := Node(s.(c := Black), gp, Black, u);
      Paint(gp, Red, g, w);
      RotateRight(gp, g, w.(c := Red));
    }

    method LiftRight(parent: MemNode, gp: MemNode, ghost g: MCtx, ghost s: MTree, ghost u: MTree)
      requires At(InRight(u, gp, Black, g), s, mmRoot, Image()) && s.Node? && s.n == parent
      modifies this`mmRoot, repr`left, repr`right, repr`parent, repr`color
      ensures At(g, Node(Node(u, gp, Red, s.l), parent, Black, s.r), mmRoot, Image())
    {
      hide At;
      Paint(parent, Black, InRight(u, gp, Black, g), s);
      Close(InRight(u, gp, Black, g), s.(c := Black), mmRoot, Image());
      ghost var w := Node(u, gp, Black, s.(c := Black));
      Paint(gp, Red, g, w);
      RotateLeft(gp, g, w.(c := Red));
    }

    /** `__mm_add_rebalance`, black uncle, the parent being a right child. */
    method AddRotateRight(node0: MemNode, ghost c0: MCtx, ghost t0: MTree)
      returns (node: MemNode, ghost c: MCtx, ghost t: MTree)
      requires At(c0, t0, mmRoot, Image()) && InsertState(c0, t0) && t0.n == node0
      requires !c0.Top? && c0.c.Red? && c0.up.InRight? && IsBlack(c0.up.l)
      modifies this`mmRoot, repr`left, repr`right, repr`parent, repr`color
      ensures At(c, t, mmRoot, Image()) && InsertState(c, t) && t.Node? && t.n == node
      ensures Depth(c) < Depth(c0) && InOrder(Plug(c, t)) == InOrder(Plug(c0, t0))
    {
      InsertGrandparent(c0, t0);
      ghost var z, g, u := Zip(c0, t0), c0.up.up, c0.up.l;
      assert t0.c.Red? && Depth(c0) == Depth(g) + 2;
      hide At, InsertState, Plug, InOrder;
      Open(c0, t0, mmRoot, Image());
      Close(c0, t0, mmRoot, Image());
      Close(c0.up, z, mmRoot, Image());
      OpenCtx(c0, t0, mmRoot, Image());
      var parent := node0.parent;
      var gp := parent.parent;

      node := node0;
      ghost var y, q, x := if c0.InRight? then c0.l else t0.l, c0.n, t0;
      if node == parent.left {
        q, x := t0.n, Node(t0.r, c0.n, Red, c0.r);
        RotateRight(parent, c0.up, z);
        node := parent;
        Open(c0.up, Node(y, q, Red, x), mmRoot, Image());
        Open(InRight(y, q, Red, c0.up), x, mmRoot, Image());
        parent := node.parent;
      }
      LiftRight(parent, gp, g, Node(y, q, Red, x), u);
      Open(g, Node(Node(u, gp, Red, y), q, Black, x), mmRoot, Image());
      c, t := InRight(Node(u, gp, Red, y), q, Black, g), x;
      InsertRotateRight(c0, t0, y, q, x);
    }

    /** `__mm_add_rebalance`: T is the tree afterwards. */
    method AddRebalance(new_: MemNode, ghost c0: MCtx, ghost t0: MTree) returns (ghost T: MTree)
      requires At(c0, t0, mmRoot, Image()) && InsertState(c0, t0) && t0.Node? && t0.n == new_
      modifies this`mmRoot, repr`left, repr`right, repr`parent, repr`color
      ensures At(Top, T, mmRoot, Image()) && RedBlackTree(T)
      ensures InOrder(T) == InOrder(Plug(c0, t0))
    {
      hide At, InsertState, Plug, InOrder;
      var node := new_;
      ghost var c, t := c0, t0;
      FocusFacts(c, t, mmRoot, Image());
      while node.parent != null && node.parent.color == Red
        invariant At(c, t, mmRoot, Image()) && InsertState(c, t) && t.Node? && t.n == node
        invariant node.parent == CtxRef(c) && (!c.Top? ==> c.n in repr && c.n.color == c.c)
        invariant InOrder(Plug(c, t)) == InOrder(Plug(c0, t0))
        decreases Depth(c)
      {
        var parent := node.parent;
        var gp := node.parent.parent;
        InsertGrandparent(c, t);
        Close(c, t, mmRoot, Image());
        FocusFacts(c.up, Zip(c, t), mmRoot, Image());
        if parent == gp.left {
          var uncle := gp.right;
          if uncle != null && uncle.color == Red {
            t := AddRecolor(parent, uncle, gp, c, t);
            node, c := gp, c.up.up;
          } else {
            node, c, t := AddRotateLeft(node, c, t);
          }
        } else {
          var uncle := gp.left;
          if uncle != null && uncle.color == Red {
            t := AddRecolor(parent, uncle, gp, c, t);
            node, c := gp, c.up.up;
          } else {
            node, c, t := AddRotateRight(node, c, t);
          }
        }
        FocusFacts(c, t, mmRoot, Image());
      }
      InsertDone(c, t);
      AtPlug(c, t, mmRoot, Image());
      T := Plug(c, t);
      Open(Top, T, mmRoot, Image());
      OpenCtx(Top, T, mmRoot, Image());
      Paint(mmRoot, Black, Top, T);
      T := T.(c := Black);
    }

    // ----- removal ---------------------------------------------------------------------

    /** The fix-up loop of `__mm_remove`, red sibling on the right. */
    method RemoveRedLeft(parent: MemNode, sib: MemNode, ghost c0: MCtx, ghost t: MTree) returns (ghost c: MCtx)
      requires At(c0, t, mmRoot, Image()) && DeleteState(c0, t) && IsBlack(t)
      requires c0.InLeft? && c0.n == parent && Ref(c0.r) == sib && sib.color == Red
      modifies this`mmRoot, repr`left, repr`right, repr`parent, repr`color
      ensures At(c, t, mmRoot, Image()) && DeleteState(c, t) && InOrder(Plug(c, t)) == InOrder(Plug(c0, t))
      ensures c.InLeft? && c.n == parent && c.c.Red? && c.r == c0.r.l && c.r.Node? && c.r.c.Black?
    {
      FocusFacts(c0, t, mmRoot, Image());
      DeleteSibling(c0, t);
      DeleteRedSibling(c0, t);
      hide At, DeleteState, Plug, InOrder;
      ghost var s, up := c0.r, c0.up;
      Close(c0, t, mmRoot, Image());
      Paint(parent, Red, up, Zip(c0, t));
      Open(up, Node(t, parent, Red, s), mmRoot, Image());
      Paint(sib, Black, InRight(t, parent, Red, up), s);
      Close(InRight(t, parent, Red, up), s.(c := Black), mmRoot, Image());
      RotateLeft(parent, up, Node(t, parent, Red, s.(c := Black)));
      Open(up, Node(Node(t, parent, Red, s.l), sib, Black, s.r), mmRoot, Image());
      Open(InLeft(sib, Black, s.r, up), Node(t, parent, Red, s.l), mmRoot, Image());
      c := InLeft(parent, Red, s.l, InLeft(sib, Black, s.r, up));
    }

    /** The fix-up loop of `__mm_remove`, black sibling on the right with black children. */
    method RemoveRecolor(parent: MemNode, sib: MemNode, ghost c: MCtx, ghost t0: MTree) returns (ghost t: MTree)
      requires At(c, t0, mmRoot, Image()) && DeleteState(c, t0) && IsBlack(t0) && !c.Top? && c.n == parent
      requires var s := if c.InLeft? then c.r else c.l;
        Ref(s) == sib && s.Node? && s.c.Black? && IsBlack(s.l) && IsBlack(s.r)
      modifies repr`color
      ensures At(c.up, t, mmRoot, Image()) && DeleteState(c.up, t)
      ensures t.Node? && t.n == parent && t.c == c.c
      ensures InOrder(Plug(c.up, t)) == InOrder(Plug(c, t0)) && Depth(c.up) + 1 == Depth(c)
    {
      ghost var s := if c.InLeft? then c.r else c.l;
      t := if c.InLeft? then Node(t0, c.n, c.c, s.(c := Red)) else Node(s.(c := Red), c.n, c.c, t0);
      DeleteRecolor(c, t0, s, t);
      hide At, DeleteState, Plug, InOrder;
      Close(c, t0, mmRoot, Image());
      Open(c.up, Zip(c, t0), mmRoot, Image());
      ghost var cs := if c.InLeft? then InRight(t0, c.n, c.c, c.up) else InLeft(c.n, c.c, t0, c.up);
      Paint(sib, Red, cs, s);
      Close(cs, s.(c := Red), mmRoot, Image());
    }

    /** The fix-up loop of `__mm_remove`, black sibling on the right with a red child. */
    method RemoveRotateLeft(parent: MemNode, sib0: MemNode, ghost c: MCtx, ghost t: MTree) returns (ghost T: MTree)
      requires At(c, t, mmRoot, Image()) && DeleteState(c, t) && IsBlack(t)
      requires c.InLeft? && c.n == parent && Ref(c.r) == sib0 && c.r.Node? && c.r.c.Black?
      requires !(IsBlack(c.r.l) && IsBlack(c.r.r))
      modifies this`mmRoot, repr`left, repr`right, repr`parent, repr`color
      ensures At(Top, T, mmRoot, Image()) && RedBlackTree(T) && InOrder(T) == InOrder(Plug(c, t))
    {
      hide At, DeleteState, Plug, InOrder, RedBlackTree;
      var sib := sib0;
      ghost var s, up, cs := c.r, c.up, InRight(t, parent, c.c, c.up);
      Close(c, t, mmRoot, Image());
      Open(up, Zip(c, t), mmRoot, Image());
      FocusFacts(cs, s, mmRoot, Image());
      Open(cs, s, mmRoot, Image());
      FocusFacts(InRight(s.l, s.n, s.c, cs), s.r, mmRoot, Image());
      ghost var b, q, e := s.l, s.n, s.r;
      if sib.right == null || sib.right.color == Black {
        if sib.left != null {
          Paint(sib.left, Black, InLeft(s.n, Black, s.r, cs), s.l);
          Close(InLeft(s.n, Black, s.r, cs), s.l.(c := Black), mmRoot, Image());
        }
        Paint(sib, Red, cs, Node(s.l.(c := Black), s.n, Black, s.r));
        RotateRight(sib, cs, Node(s.l.(c := Black), s.n, Red, s.r));
        b, q, e := s.l.l, s.l.n, Node(s.l.r, s.n, Red, s.r);
        FocusFacts(cs, Node(b, q, Black, e), mmRoot, Image());
        sib := parent.right;
      }
      T := RotateOver(parent, sib, up, Node(t, parent, c.c, Node(b, q, Black, e)));
      DeleteRotateLeft(c, t, b, q, e.(c := Black));
    }

    /** The last statements of the fix-up loop, sibling on the right. */
    method RotateOver(parent: MemNode, sib: MemNode, ghost up: MCtx, ghost z: MTree) returns (ghost T: MTree)
      requires z.Node? && z.n == parent && z.r.Node? && z.r.n == sib && z.r.r.Node?
      requires At(InRight(z.l, z.n, z.c, up), z.r, mmRoot, Image())
      modifies this`mmRoot, repr`left, repr`right, repr`parent, repr`color
      ensures T == Plug(up, Node(Node(z.l, parent, Black, z.r.l), sib, z.c, z.r.r.(c := Black)))
      ensures At(Top, T, mmRoot, Image())
    {
      hide At, Plug;
      ghost var cs := InRight(z.l, parent, z.c, up);
      ghost var b, e := z.r.l, z.r.r;
      FocusFacts(cs, z.r, mmRoot, Image());
      Paint(sib, parent.color, cs, z.r);
      ghost var w := z.r.(c := z.c);
      Close(cs, w, mmRoot, Image());
      Paint(parent, Black, up, Node(z.l, parent, z.c, w));
      ghost var cb := InRight(z.l, parent, Black, up);
      Open(up, Node(z.l, parent, Black, w), mmRoot, Image());
      Open(cb, w, mmRoot, Image());
      ghost var ce := InRight(b, sib, z.c, cb);
      if sib.right != null {
        Paint(sib.right, Black, ce, e);
      }
      Close(ce, e.(c := Black), mmRoot, Image());
      Close(cb, Node(b, sib, z.c, e.(c := Black)), mmRoot, Image());
      ghost var x := Node(z.l, parent, Black, Node(b, sib, z.c, e.(c := Black)));
      RotateLeft(parent, up, x);
      AtPlug(up, RotatedLeft(x), mmRoot, Image());
      T := Plug(up, RotatedLeft(x));
    }

    /** The fix-up loop of `__mm_remove`, red sibling on the left. */
    method RemoveRedRight(parent: MemNode, sib: MemNode, ghost c0: MCtx, ghost t: MTree) returns (ghost c: MCtx)
      requires At(c0, t, mmRoot, Image()) && DeleteState(c0, t) && IsBlack(t)
      requires c0.InRight? && c0.n == parent && Ref(c0.l) == sib && sib.color == Red
      modifies this`mmRoot, repr`left, repr`right, repr`parent, repr`color
      ensures At(c, t, mmRoot, Image()) && DeleteState(c, t) && InOrder(Plug(c, t)) == InOrder(Plug(c0, t))
      ensures c.InRight? && c.n == parent && c.c.Red? && c.l == c0.l.r && c.l.Node? && c.l.c.Black?
    {
      FocusFacts(c0, t, mmRoot, Image());
      DeleteSibling(c0, t);
      DeleteRedSibling(c0, t);
      hide At, DeleteState, Plug, InOrder;
      ghost var s, up := c0.l, c0.up;
      Close(c0, t, mmRoot, Image());
      Paint(parent, Red, up, Zip(c0, t));
      Open(up, Node(s, parent, Red, t), mmRoot, Image());
      Paint(sib, Black, InLeft(parent, Red, t, up), s);
      Close(InLeft(parent, Red, t, up), s.(c := Black), mmRoot, Image());
      RotateRight(parent, up, Node(s.(c := Black), parent, Red, t));
      Open(up, Node(s.l, sib, Black, Node(s.r, parent, Red, t)), mmRoot, Image());
      Open(InRight(s.l, sib, Black, up), Node(s.r, parent, Red, t), mmRoot, Image());
      c := InRight(s.r, parent, Red, InRight(s.l, sib, Black, up));
    }

    /** The fix-up loop of `__mm_remove`, black sibling on the left with a red child. */
    method RemoveRotateRight(parent: MemNode, sib0: MemNode, ghost c: MCtx, ghost t: MTree) returns (ghost T: MTree)
      requires At(c, t, mmRoot, Image()) && DeleteState(c, t) && IsBlack(t)
      requires c.InRight? && c.n == parent && Ref(c.l) == sib0 && c.l.Node? && c.l.c.Black?
      requires !(IsBlack(c.l.l) && IsBlack(c.l.r))
      modifies this`mmRoot, repr`left, repr`right, repr`parent, repr`color
      ensures At(Top, T, mmRoot, Image()) && RedBlackTree(T) && InOrder(T) == InOrder(Plug(c, t))
    {
      hide At, DeleteState, Plug, InOrder, RedBlackTree;
      var sib := sib0;
      ghost var s, up, cs := c.l, c.up, InLeft(parent, c.c, t, c.up);
      Close(c, t, mmRoot, Image());
      Open(up, Zip(c, t), mmRoot, Image());
      FocusFacts(cs, s, mmRoot, Image());
      Open(cs, s, mmRoot, Image());
      FocusFacts(InLeft(s.n, s.c, s.r, cs), s.l, mmRoot, Image());
      ghost var e, q, b := s.l, s.n, s.r;
      if sib.left == null || sib.left.color == Black {
        if sib.right != null {
          Paint(sib.right, Black, InRight(s.l, s.n, Black, cs), s.r);
          Close(InRight(s.l, s.n, Black, cs), s.r.(c := Black), mmRoot, Image());
        }
        Paint(sib, Red, cs, Node(s.l, s.n, Black, s.r.(c := Black)));
        RotateLeft(sib, cs, Node(s.l, s.n, Red, s.r.(c := Black)));
        e, q, b := Node(s.l, s.n, Red, s.r.l), s.r.n, s.r.r;
        FocusFacts(cs, Node(e, q, Black, b), mmRoot, Image());
        sib := parent.left;
      }
      T := RotateUnder(parent, sib, up, Node(Node(e, q, Black, b), parent, c.c, t));
      DeleteRotateRight(c, t, e.(c := Black), q, b);
    }

    /** The last statements of the fix-up loop, sibling on the left. */
    method RotateUnder(parent: MemNode, sib: MemNode, ghost up: MCtx, ghost z: MTree) returns (ghost T: MTree)
      requires z.Node? && z.n == parent && z.l.Node? && z.l.n == sib && z.l.l.Node?
      requires At(InLeft(z.n, z.c, z.r, up), z.l, mmRoot, Image())
      modifies this`mmRoot, repr`left, repr`right, repr`parent, repr`color
      ensures T == Plug(up, Node(z.l.l.(c := Black), sib, z.c, Node(z.l.r, parent, Black, z.r)))
      ensures At(Top, T, mmRoot, Image())
    {
      hide At, Plug;
      ghost var cs := InLeft(parent, z.c, z.r, up);
      ghost var e, b := z.l.l, z.l.r;
      FocusFacts(cs, z.l, mmRoot, Image());
      Paint(sib, parent.color, cs, z.l);
      ghost var w := z.l.(c := z.c);
      Close(cs, w, mmRoot, Image());
      Paint(parent, Black, up, Node(w, parent, z.c, z.r));
      ghost var cb := InLeft(parent, Black, z.r, up);
      Open(up, Node(w, parent, Black, z.r), mmRoot, Image());
      Open(cb, w, mmRoot, Image());
      ghost var ce := InLeft(sib, z.c, b, cb);
      if sib.left != null {
        Paint(sib.left, Black, ce, e);
      }
      Close(ce, e.(c := Black), mmRoot, Image());
      Close(cb, Node(e.(c := Black), sib, z.c, b), mmRoot, Image());
      ghost var x := Node(Node(e.(c := Black), sib, z.c, b), parent, Black, z.r);
      RotateRight(parent, up, x);
      AtPlug(up, RotatedRight(x), mmRoot, Image());
      T := Plug(up, RotatedRight(x));
    }

    /** One turn of the loop with the black node missing on the left. */
    method RemoveStepLeft(parent0: MemNode, ghost c0: MCtx, ghost t0: MTree)
      returns (done: bool, child: MemNode?, ghost c: MCtx, ghost t: MTree)
      requires At(c0, t0, mmRoot, Image()) && DeleteState(c0, t0) && IsBlack(t0) && c0.InLeft? && c0.n == parent0
      modifies this`mmRoot, repr`left, repr`right, repr`parent, repr`color
      ensures At(c, t, mmRoot, Image()) && child == Ref(t) && InOrder(Plug(c, t)) == InOrder(Plug(c0, t0))
      ensures if done then c.Top? && RedBlackTree(t)
              else t.Node? && t.n == parent0 && DeleteState(c, t) && (IsBlack(t) ==> Depth(c) < Depth(c0))
    {
      hide At, DeleteState, InOrder, RedBlackTree, Balanced, BlackHeight;
      c, t := c0, t0;
      DeleteSibling(c, t);
      FocusFacts(c, t, mmRoot, Image());
      var sib := parent0.right;
      if sib.color == Red {
        c := RemoveRedLeft(parent0, sib, c, t);
        FocusFacts(c, t, mmRoot, Image());
        sib := parent0.right;
      }
      SiblingChildren(c, t, mmRoot, Image());
      if (sib.left == null || sib.left.color == Black) && (sib.right == null || sib.right.color == Black) {
        t := RemoveRecolor(parent0, sib, c, t);
        c, done, child := c.up, false, parent0;
      } else {
        t := RemoveRotateLeft(parent0, sib, c, t);
        c, done, child := Top, true, mmRoot;
        FocusFacts(c, t, mmRoot, Image());
      }
    }

    /** One turn of the loop with the black node missing on the right. */
    method RemoveStepRight(parent0: MemNode, ghost c0: MCtx, ghost t0: MTree)
      returns (done: bool, child: MemNode?, ghost c: MCtx, ghost t: MTree)
      requires At(c0, t0, mmRoot, Image()) && DeleteState(c0, t0) && IsBlack(t0) && c0.InRight? && c0.n == parent0
      modifies this`mmRoot, repr`left, repr`right, repr`parent, repr`color
      ensures At(c, t, mmRoot, Image()) && child == Ref(t) && InOrder(Plug(c, t)) == InOrder(Plug(c0, t0))
      ensures if done then c.Top? && RedBlackTree(t)
              else t.Node? && t.n == parent0 && DeleteState(c, t) && (IsBlack(t) ==> Depth(c) < Depth(c0))
    {
      hide At, DeleteState, InOrder, RedBlackTree, Balanced, BlackHeight;
      c, t := c0, t0;
      DeleteSibling(c, t);
      FocusFacts(c, t, mmRoot, Image());
      var sib := parent0.left;
      if sib.color == Red {
        c := RemoveRedRight(parent0, sib, c, t);
        FocusFacts(c, t, mmRoot, Image());
        sib := parent0.left;
      }
      SiblingChildren(c, t, mmRoot, Image());
      if (sib.left == null || sib.left.color == Black) && (sib.right == null || sib.right.color == Black) {
        t := RemoveRecolor(parent0, sib, c, t);
        c, done, child := c.up, false, parent0;
      } else {
        t := RemoveRotateRight(parent0, sib, c, t);
        c, done, child := Top, true, mmRoot;
        FocusFacts(c, t, mmRoot, Image());
      }
    }

    /** One round of the fix-up loop of `__mm_remove`; `done` stands for its `break`. */
    method RemoveStep(child0: MemNode?, parent0: MemNode, ghost c0: MCtx, ghost t0: MTree)
      returns (done: bool, child: MemNode?, parent: MemNode?, ghost c: MCtx, ghost t: MTree)
      requires At(c0, t0, mmRoot, Image()) && DeleteState(c0, t0) && IsBlack(t0)
      requires !c0.Top? && c0.n == parent0 && Ref(t0) == child0
      modifies this`mmRoot, repr`left, repr`right, repr`parent, repr`color
      ensures At(c, t, mmRoot, Image()) && child == Ref(t) && parent == CtxRef(c)
      ensures InOrder(Plug(c, t)) == InOrder(Plug(c0, t0))
      ensures if done then c.Top? && RedBlackTree(t) else DeleteState(c, t) && (IsBlack(t) ==> Depth(c) < Depth(c0))
    {
      hide At, DeleteState, InOrder, RedBlackTree, Plug;
      DeleteSibling(c0, t0);
      FocusFacts(c0, t0, mmRoot, Image());
      if parent0.left == child0 {
        done, child, c, t := RemoveStepLeft(parent0, c0, t0);
      } else {
        done, child, c, t := RemoveStepRight(parent0, c0, t0);
      }
      FocusFacts(c, t, mmRoot, Image());
      parent := if done then null else parent0.parent;
    }

    /** The repair at the end of `__mm_remove`: T is the tree afterwards. */
    method RemoveFixup(child0: MemNode?, parent0: MemNode?, ghost c0: MCtx, ghost t0: MTree) returns (ghost T: MTree)
      requires At(c0, t0, mmRoot, Image()) && DeleteState(c0, t0)
      requires Ref(t0) == child0 && CtxRef(c0) == parent0
      modifies this`mmRoot, repr`left, repr`right, repr`parent, repr`color
      ensures At(Top, T, mmRoot, Image()) && RedBlackTree(T)
      ensures InOrder(T) == InOrder(Plug(c0, t0))
    {
      hide At, DeleteState, InOrder, RedBlackTree;
      var child, parent := child0, parent0;
      ghost var c, t := c0, t0;
      var done := false;
      FocusFacts(c, t, mmRoot, Image());
      while !done && (child == null || child.color == Black) && child != mmRoot
        invariant At(c, t, mmRoot, Image()) && child == Ref(t) && parent == CtxRef(c)
        invariant t.Node? ==> t.n in repr && t.n.color == t.c
        invariant c.Top? <==> child == mmRoot
        invariant InOrder(Plug(c, t)) == InOrder(Plug(c0, t0))
        invariant if done then c.Top? && RedBlackTree(t) else DeleteState(c, t)
        decreases if done then 0 else if IsBlack(t) then Depth(c) + 2 else 1
      {
        done, child, parent, c, t := RemoveStep(child, parent, c, t);
        FocusFacts(c, t, mmRoot, Image());
      }
      if done {
        BlackenedRoot(t);
      } else {
        DeleteDone(c, t);
      }
      if child != null {
        Paint(child, Black, c, t);
      }
      AtPlug(c, Blacken(t), mmRoot, Image());
      T := Plug(c, Blacken(t));
    }

    method PutColor(n: MemNode, v: Color)
      requires n in repr
      modifies n`color
      ensures n.color == v && Image() == SetColor(old(Image()), n, v)
    {
      n.color := v;
    }

    /** Writes `child` where `node` hangs; removal tests the left link first. */
    method PutChildLeftFirst(node: MemNode, child: MemNode?)
      requires node.parent != null ==>
        node.parent in repr && (node.parent.left == node <==> node.parent.right != node)
      modifies this`mmRoot, repr`left, repr`right
      ensures Image() == SetChild(old(Image()), node.parent, node, child)
      ensures mmRoot == if node.parent == null then child else old(mmRoot)
    {
      if node.parent != null {
        if node.parent.left == node {
          node.parent.left := child;
        } else {
          node.parent.right := child;
        }
      } else {
        mmRoot := child;
      }
    }

    /** The walk of `__mm_remove` to the predecessor of a node with a left child. */
    method FindPredecessor(node: MemNode, ghost cl: MCtx, ghost l: MTree)
      returns (tmp: MemNode, ghost i: MCtx, ghost t: MTree)
      requires At(cl, l, mmRoot, Image()) && l.Node? && node in repr && l.n == node.left
      ensures AllRight(i) && Plug(i, t) == l && At(Graft(i, cl), t, mmRoot, Image())
      ensures t.Node? && t.n == tmp && t.r.Leaf?
    {
      i, t := Top, l;
      assert Plug(i, t) == l && Graft(i, cl) == cl && AllRight(i);
      hide At, Plug, Graft, AllRight;
      FocusFacts(cl, l, mmRoot, Image());
      tmp := node.left;
      while tmp.right != null
        invariant At(Graft(i, cl), t, mmRoot, Image()) && AllRight(i) && Plug(i, t) == l
        invariant t.Node? && t.n == tmp && tmp in repr && tmp.right == Ref(t.r)
        decreases t
      {
        StepRight(i, cl, t);
        Open(Graft(i, cl), t, mmRoot, Image());
        i, t := InRight(t.l, t.n, t.c, i), t.r;
        tmp := tmp.right;
        FocusFacts(Graft(i, cl), t, mmRoot, Image());
      }
    }

    /** The writes of `__mm_remove` that cut the predecessor tmp out and give it node's left subtree. */
    method TakeLeftSubtree(node: MemNode, tmp: MemNode) returns (parent: MemNode)
      requires node in repr && node.left != null && tmp in repr && tmp.parent != null && node != tmp
      requires node.left in repr && tmp.parent in repr && (tmp.left != null ==> tmp.left in repr)
      requires tmp.parent != tmp && tmp.left != tmp && node.left != node
      modifies repr`left, repr`right, repr`parent, repr`color
      ensures parent == if old(tmp.parent) == node then tmp else old(tmp.parent)
      ensures Image() == old(LowerWrites(Image(), node, tmp, node.color, tmp.parent, tmp.left, node.left))
    {
      PutColor(tmp, node.color);
      if tmp.parent != node {
        parent := tmp.parent;
        PutRight(parent, tmp.left);
        if tmp.left != null {
          PutParent(tmp.left, parent);
        }
        PutLeft(tmp, node.left);
        PutParent(node.left, tmp);
      } else {
        parent := tmp;
      }
    }

    /** The writes of `__mm_remove` that put the predecessor tmp in the place of node. */
    method ReplaceByPredecessor(node: MemNode, tmp: MemNode) returns (parent: MemNode)
      requires node in repr && node.left != null && node.right != null && tmp in repr && tmp.parent != null
      requires PredecessorLinks(Image(), node, tmp, tmp.parent, tmp.left, node.left, node.right, node.parent)
      requires node.parent != null ==> (node.parent.left == node <==> node.parent.right != node)
      modifies this`mmRoot, repr`left, repr`right, repr`parent, repr`color
      ensures parent == if old(tmp.parent) == node then tmp else old(tmp.parent)
      ensures Image() == old(UpperWrites(LowerWrites(Image(), node, tmp, node.color, tmp.parent, tmp.left, node.left),
                                         node, tmp, node.right, node.parent))
      ensures mmRoot == if old(node.parent) == null then tmp else old(mmRoot)
    {
      hide LowerWrites;
      ghost var h, q, r := Image(), node.parent, node.right;
      LowerLeavesNode(h, node, tmp, node.color, tmp.parent, tmp.left, node.left, r, q);
      parent := TakeLeftSubtree(node, tmp);
      assert Image()[node].right == r && Image()[node].parent == q && (q != null ==> Image()[q] == h[q]);
      PutRight(tmp, node.right);
      PutParent(node.right, tmp);
      PutParent(tmp, node.parent);
      PutChildLeftFirst(node, tmp);
    }

    /** The first half of `__mm_remove` for a node with two children: its predecessor takes its place. */
    method MovePredecessor(node: MemNode, ghost o: MCtx, ghost t0: MTree)
      returns (nodecol: Color, child: MemNode?, parent: MemNode, ghost c: MCtx, ghost t: MTree)
      requires At(o, t0, mmRoot, Image()) && RedBlackTree(Plug(o, t0))
      requires t0.Node? && t0.n == node && t0.l.Node? && t0.r.Node?
      modifies this`mmRoot, repr`left, repr`right, repr`parent, repr`color
      ensures At(c, t, mmRoot, Image()) && child == Ref(t) && parent == CtxRef(c)
      ensures if nodecol.Red? then RedBlackTree(Plug(c, t)) else DeleteState(c, t)
      ensures InOrder(Plug(c, t)) == Before(o) + InOrder(t0.l) + InOrder(t0.r) + After(o)
    {
      hide At, RedBlackTree, DeleteState, Plug, InOrder, Before, After, Graft, AllRight,
        LowerWrites, UpperWrites, PredecessorLinks;
      ghost var cl := InLeft(node, t0.c, t0.r, o);
      Open(o, t0, mmRoot, Image());
      FocusFacts(cl, t0.l, mmRoot, Image());
      FocusFacts(o, t0, mmRoot, Image());
      var tmp;
      ghost var i, tw;
      tmp, i, tw := FindPredecessor(node, cl, t0.l);
      ghost var h, root := Image(), mmRoot;
      FocusFacts(Graft(i, cl), tw, root, h);
      GraftRef(i, cl);
      PredecessorDistinct(i, o, node, t0.c, t0.r, tw.l, tmp, tw.c, root, h);
      nodecol := tmp.color;
      child := tmp.left;
      parent := ReplaceByPredecessor(node, tmp);
      PredecessorAt(i, o, node, t0.c, t0.r, tw.l, tmp, tw.c, t0.l.n, root, h, Image());
      PredecessorMoved(i, node, tmp, t0.c, t0.l, t0.r, o, tw.l, tw.c);
      c, t := Graft(i, InLeft(tmp, t0.c, t0.r, o)), tw.l;
      GraftRef(i, InLeft(tmp, t0.c, t0.r, o));
    }

    // ----- the operations on the tree as a sequence ------------------------------------

    ghost var tree: MTree

    ghost predicate Valid()
      reads this, repr`color, repr`parent, repr`left, repr`right
    {
      At(Top, tree, mmRoot, Image()) && RedBlackTree(tree)
    }

    /** The nodes in address order. */
    ghost function Seq(): seq<MemNode>
      reads this`tree
    {
      InOrder(tree)
    }

    lemma SeqInRepr()
      requires Valid()
      ensures forall i :: 0 <= i < |Seq()| ==> Seq()[i] in repr
    {
      SeqLinked(tree, null, Image());
    }

    static lemma CutOut(S: seq<MemNode>, k: nat, A: seq<MemNode>, B: seq<MemNode>, n: MemNode, C: seq<MemNode>,
                        D: seq<MemNode>)
      requires S == A + B + [n] + C + D && k == |A| + |B|
      ensures S[..k] + S[k + 1..] == A + B + C + D
    {
    }

    /** The other case of `__mm_remove`: a node with at most one child. */
    method MoveChild(node: MemNode, ghost o: MCtx, ghost t0: MTree)
      returns (nodecol: Color, child: MemNode?, parent: MemNode?, ghost t: MTree)
      requires At(o, t0, mmRoot, Image()) && RedBlackTree(Plug(o, t0))
      requires t0.Node? && t0.n == node && (t0.l.Leaf? || t0.r.Leaf?)
      modifies this`mmRoot, repr`left, repr`right, repr`parent
      ensures At(o, t, mmRoot, Image()) && child == Ref(t) && parent == CtxRef(o)
      ensures if nodecol.Red? then RedBlackTree(Plug(o, t)) else DeleteState(o, t)
      ensures InOrder(Plug(o, t)) == Before(o) + InOrder(t0.l) + InOrder(t0.r) + After(o)
    {
      hide At, InOrder, Before, After, RedBlackTree, DeleteState, Plug;
      FocusFacts(o, t0, mmRoot, Image());
      t := if t0.l.Node? then t0.l else t0.r;
      OneChildMoved(o, t0, t);
      nodecol := node.color;
      child := if node.left != null then node.left else node.right;
      parent := node.parent;
      Unhang(node, child, o, t0, t);
    }

    /** `__mm_remove`. */
    method Remove(node: MemNode, ghost k: nat)
      requires Valid() && k < |Seq()| && Seq()[k] == node
      modifies this`mmRoot, this`tree, repr`left, repr`right, repr`parent, repr`color
      ensures Valid() && Seq() == old(Seq())[..k] + old(Seq())[k + 1..]
    {
      hide At, InOrder, Before, After, RedBlackTree, DeleteState, Plug, Graft, AllRight;
      ghost var o, t := FocusAt(tree, mmRoot, Image(), node, k);
      CutOut(Seq(), k, Before(o), InOrder(t.l), node, InOrder(t.r), After(o));
      hide Valid;
      FocusFacts(o, t, mmRoot, Image());
      var child, parent, nodecol;
      ghost var c, b;
      if node.left != null && node.right != null {
        nodecol, child, parent, c, b := MovePredecessor(node, o, t);
      } else {
        nodecol, child, parent, b := MoveChild(node, o, t);
        c := o;
      }
      if nodecol == Red {
        AtPlug(c, b, mmRoot, Image());
        tree := Plug(c, b);
      } else {
        tree := RemoveFixup(child, parent, c, b);
      }
    }

    /** The first half of `__mm_remove` for a node with at most one child. */
    method Unhang(node: MemNode, child: MemNode?, ghost o: MCtx, ghost t: MTree, ghost b: MTree)
      requires At(o, t, mmRoot, Image()) && t.Node? && t.n == node && (t.l.Leaf? || t.r.Leaf?)
      requires b == (if t.l.Node? then t.l else t.r) && child == Ref(b)
      modifies this`mmRoot, repr`left, repr`right, repr`parent
      ensures At(o, b, mmRoot, Image())
    {
      Open(o, t, mmRoot, Image());
      OpenCtx(o, t, mmRoot, Image());
      FocusFacts(if t.l.Node? then InLeft(t.n, t.c, t.r, o) else InRight(t.l, t.n, t.c, o), b, mmRoot, Image());
      hide At;
      if child != null {
        PutParent(child, node.parent);
      }
      PutChildLeftFirst(node, child);
      OneChildAt(o, t, b, old(mmRoot), old(Image()), Image());
    }

    /** new_ belongs at position k of the sequence. */
    ghost predicate Position(new_: MemNode, k: nat)
      reads this`tree
    {
      k <= |Seq()| && new_.start <= UINTPTR_MAX &&
      (forall i :: 0 <= i < k ==> Seq()[i].start < new_.start) &&
      (forall i :: k <= i < |Seq()| ==> new_.start < Seq()[i].start)
    }

    /** The descent of `__mm_add`. */
    method FindParent(new_: MemNode, ghost k: nat) returns (parent: MemNode, ghost c: MCtx)
      requires Valid() && mmRoot != null && Position(new_, k)
      ensures At(c, Leaf, mmRoot, Image()) && Plug(c, Leaf) == tree && parent == CtxRef(c) && parent in repr
      ensures Lo(c) <= new_.start < Hi(c) && (c.InRight? <==> parent.start < new_.start)
    {
      c := Top;
      ghost var t := tree;
      assert Lo(c) <= new_.start < Hi(c) && Plug(c, t) == tree;
      hide At, Plug, InOrder, Before, After, RedBlackTree, OrderedCtx, Linked, LinkedCtx;
      var node: MemNode? := mmRoot;
      var above: MemNode? := null;
      FocusFacts(c, t, mmRoot, Image());
      while node != null
        invariant At(c, t, mmRoot, Image()) && Plug(c, t) == tree && Ref(t) == node && CtxRef(c) == above
        invariant Lo(c) <= new_.start < Hi(c)
        invariant node == null ==> above != null
        invariant above != null ==> (c.InRight? <==> above.start < new_.start)
        decreases t
      {
        above := node;
        FocusFacts(c, t, mmRoot, Image());
        OrderAround(c, t);
        assert Seq()[|Before(c)| + |InOrder(t.l)|] == node;
        Open(c, t, mmRoot, Image());
        Descend(c, t, tree);
        if node.start < new_.start {
          node := node.right;
          c, t := InRight(t.l, t.n, t.c, c), t.r;
        } else {
          node := node.left;
          c, t := InLeft(t.n, t.c, t.r, c), t.l;
        }
      }
      parent := above;
    }

    /** The writes of `__mm_add`. */
    method Attach(new_: MemNode, parent: MemNode, ghost c: MCtx)
      requires At(c, Leaf, mmRoot, Image()) && parent == CtxRef(c) && parent in repr && new_ !in repr
      requires Lo(c) <= new_.start < Hi(c) && (c.InRight? <==> parent.start < new_.start)
      modifies this`repr, repr`left, repr`right, new_`left, new_`right, new_`parent, new_`color
      ensures repr == old(repr) + {new_} && At(c, Node(Leaf, new_, Red, Leaf), mmRoot, Image())
    {
      hide At;
      FocusFacts(c, Leaf, mmRoot, Image());
      repr := repr + {new_};
      Grown(c, Leaf, mmRoot, old(Image()), Image());
      ghost var h := Image();
      if parent.start < new_.start {
        PutRight(parent, new_);
      } else {
        PutLeft(parent, new_);
      }
      PutParent(new_, parent);
      PutLeft(new_, null);
      PutRight(new_, null);
      PutColor(new_, Red);
      LeafAt(c, new_, mmRoot, h);
    }

    lemma NewLeaf(c: MCtx, new_: MemNode, k: nat)
      requires At(c, Leaf, mmRoot, Image()) && Plug(c, Leaf) == tree && RedBlackTree(tree) && Position(new_, k)
      requires Lo(c) <= new_.start < Hi(c)
      ensures var t := Node(Leaf, new_, Red, Leaf);
        InsertState(c, t) && InOrder(Plug(c, t)) == Seq()[..k] + [new_] + Seq()[k..]
    {
      assert OrderedCtx(c);
      LeafPosition(c, new_, k);
    }

    /** `__mm_add`. */
    method Add(new_: MemNode, ghost k: nat)
      requires Valid() && mmRoot != null && new_ !in repr && Position(new_, k)
      modifies this`mmRoot, this`tree, this`repr, repr`left, repr`right, repr`parent, repr`color
      modifies new_`left, new_`right, new_`parent, new_`color
      ensures Valid() && repr == old(repr) + {new_}
      ensures Seq() == old(Seq())[..k] + [new_] + old(Seq())[k..]
    {
      hide At, InsertState, InOrder, RedBlackTree, Plug, Position;
      var parent;
      ghost var c;
      parent, c := FindParent(new_, k);
      NewLeaf(c, new_, k);
      Attach(new_, parent, c);
      tree := AddRebalance(new_, c, Node(Leaf, new_, Red, Leaf));
    }

    /** The first node of the subtree in focus. */
    method Leftmost(node0: MemNode, ghost c0: MCtx, ghost t0: MTree) returns (node: MemNode)
      requires At(c0, t0, mmRoot, Image()) && Plug(c0, t0) == tree && t0.Node? && t0.n == node0
      ensures |Before(c0)| < |Seq()| && node == Seq()[|Before(c0)|]
    {
      hide At, InOrder, Before, After, Plug;
      ghost var c, t := c0, t0;
      FocusFacts(c, t, mmRoot, Image());
      node := node0;
      while node.left != null
        invariant At(c, t, mmRoot, Image()) && Plug(c, t) == tree && |Before(c)| == |Before(c0)|
        invariant t.Node? && node == t.n && node in repr && node.left == Ref(t.l)
        decreases t
      {
        Open(c, t, mmRoot, Image());
        Descend(c, t, tree);
        Around(InLeft(t.n, t.c, t.r, c), t.l);
        c, t := InLeft(t.n, t.c, t.r, c), t.l;
        node := node.left;
        FocusFacts(c, t, mmRoot, Image());
      }
      PositionOf(c, t);
      EmptyLeaf(t.l);
    }

    /** The last node of the subtree in focus. */
    method Rightmost(node0: MemNode, ghost c0: MCtx, ghost t0: MTree) returns (node: MemNode)
      requires At(c0, t0, mmRoot, Image()) && Plug(c0, t0) == tree && t0.Node? && t0.n == node0
      ensures var e := |Before(c0)| + |InOrder(t0)|; 0 < e <= |Seq()| && node == Seq()[e - 1]
    {
      hide At, InOrder, Before, After, Plug;
      ghost var c, t := c0, t0;
      FocusFacts(c, t, mmRoot, Image());
      node := node0;
      while node.right != null
        invariant At(c, t, mmRoot, Image()) && Plug(c, t) == tree
        invariant |Before(c)| + |InOrder(t)| == |Before(c0)| + |InOrder(t0)|
        invariant t.Node? && node == t.n && node in repr && node.right == Ref(t.r)
        decreases t
      {
        Open(c, t, mmRoot, Image());
        Descend(c, t, tree);
        PositionOf(c, t);
        Around(InRight(t.l, t.n, t.c, c), t.r);
        c, t := InRight(t.l, t.n, t.c, c), t.r;
        node := node.right;
        FocusFacts(c, t, mmRoot, Image());
      }
      PositionOf(c, t);
      EmptyLeaf(t.r);
    }

    /** `__mm_next`. */
    method Next(node0: MemNode, ghost k: nat) returns (node: MemNode?)
      requires Valid() && k < |Seq()| && Seq()[k] == node0
      ensures node == if k + 1 < |Seq()| then Seq()[k + 1] else null
    {
      hide At, InOrder, Before, After, RedBlackTree, Plug;
      ghost var c, t := FocusAt(tree, mmRoot, Image(), node0, k);
      PositionOf(c, t);
      FocusFacts(c, t, mmRoot, Image());
      if node0.right != null {
        ghost var c' := InRight(t.l, t.n, t.c, c);
        Open(c, t, mmRoot, Image());
        Descend(c, t, tree);
        Around(c', t.r);
        node := Leftmost(node0.right, c', t.r);
      } else {
        EmptyLeaf(t.r);
        node := node0;
        while node.parent != null && node == node.parent.right
          invariant At(c, t, mmRoot, Image()) && Plug(c, t) == tree && |Before(c)| + |InOrder(t)| == k + 1
          invariant t.Node? && node == t.n && node in repr && node.parent == CtxRef(c)
          invariant !c.Top? ==> c.n in repr && (c.InRight? <==> c.n.right == node)
          decreases Depth(c)
        {
          Close(c, t, mmRoot, Image());
          Around(c, t);
          Ascend(c, t);
          c, t := c.up, Zip(c, t);
          node := node.parent;
          FocusFacts(c, t, mmRoot, Image());
        }
        Around(c, t);
        node := node.parent;
      }
    }

    /** `__mm_prev`. */
    method Prev(node0: MemNode, ghost k: nat) returns (node: MemNode?)
      requires Valid() && k < |Seq()| && Seq()[k] == node0
      ensures node == if k > 0 then Seq()[k - 1] else null
    {
      hide At, InOrder, Before, After, RedBlackTree, Plug;
      ghost var c, t := FocusAt(tree, mmRoot, Image(), node0, k);
      PositionOf(c, t);
      FocusFacts(c, t, mmRoot, Image());
      if node0.left != null {
        ghost var c' := InLeft(t.n, t.c, t.r, c);
        Open(c, t, mmRoot, Image());
        Descend(c, t, tree);
        Around(c', t.l);
        node := Rightmost(node0.left, c', t.l);
      } else {
        EmptyLeaf(t.l);
        node := node0;
        while node.parent != null && node == node.parent.left
          invariant At(c, t, mmRoot, Image()) && Plug(c, t) == tree && |Before(c)| == k
          invariant t.Node? && node == t.n && node in repr && node.parent == CtxRef(c)
          invariant !c.Top? ==> c.n in repr && (c.InLeft? <==> c.n.left == node)
          decreases Depth(c)
        {
          Close(c, t, mmRoot, Image());
          Around(c, t);
          Ascend(c, t);
          c, t := c.up, Zip(c, t);
          node := node.parent;
          FocusFacts(c, t, mmRoot, Image());
        }
        Around(c, t);
        node := node.parent;
      }
    }

    /** `__mm_find_start`: the node that holds an address. */
    method FindStart(start: nat, ghost k: nat) returns (node: MemNode?)
      requires Valid() && k < |Seq()| && Seq()[k].start <= start <= Seq()[k].end
      requires forall i :: 0 <= i < k ==> Seq()[i].end < start
      requires forall i :: k < i < |Seq()| ==> start < Seq()[i].start
      ensures node == Seq()[k]
    {
      ghost var c, t: MTree := Top, tree;
      assert Plug(c, t) == tree && Before(c) == [];
      SeqSorted(tree, 0, UINTPTR_MAX + 1);
      hide At, InOrder, Before, After, RedBlackTree, Plug;
      node := mmRoot;
      FocusFacts(c, t, mmRoot, Image());
      while node != null
        invariant At(c, t, mmRoot, Image()) && Plug(c, t) == tree && node == Ref(t)
        invariant |Before(c)| <= k < |Before(c)| + |InOrder(t)|
        decreases t
      {
        PositionOf(c, t);
        FocusFacts(c, t, mmRoot, Image());
        if node.start <= start && node.end >= start {
          break;
        }
        Open(c, t, mmRoot, Image());
        Descend(c, t, tree);
        if node.start < start {
          Around(InRight(t.l, t.n, t.c, c), t.r);
          node := node.right;
          c, t := InRight(t.l, t.n, t.c, c), t.r;
        } else {
          Around(InLeft(t.n, t.c, t.r, c), t.l);
          node := node.left;
          c, t := InLeft(t.n, t.c, t.r, c), t.l;
        }
      }
      EmptyLeaf(t);
      if t.Node? { PositionOf(c, t); }
    }
  }
}
