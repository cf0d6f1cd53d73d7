/** How the linked nodes of memory.c represent a red-black tree, and what one pointer operation does
    to that representation.  Heaps are snapshots here, so every lemma is about values. */
module MemLinks {
  import opened Pages
  import opened RedBlack

  /** One range of the address space.  `start` is the search key; it is never written after the node
      has been created. */
  class MemNode {
    var color: Color
    var parent: MemNode?
    var left: MemNode?
    var right: MemNode?
    const start: nat
    var end: nat
    var refcnt: int

    constructor (start: nat, end: nat, refcnt: int)
      ensures this.start == start && this.end == end && this.refcnt == refcnt
      ensures color == Black && parent == null && left == null && right == null
    {
      this.start, this.end, this.refcnt := start, end, refcnt;
      color, parent, left, right := Black, null, null, null;
    }
  }

  type MTree = Tree<MemNode>
  type MCtx = Ctx<MemNode>

  // ----- search-tree order -------------------------------------------------------------

  /** t is a search tree whose keys lie in [lo, hi). */
  ghost predicate Ordered(t: MTree, lo: int, hi: int) {
    match t
    case Leaf => true
    case Node(l, n, _, r) => lo <= n.start < hi && Ordered(l, lo, n.start) && Ordered(r, n.start + 1, hi)
  }

  /** The keys that may be put into the hole of c are those in [Lo(c), Hi(c)). */
  ghost function Lo(c: MCtx): int {
    match c
    case Top => 0
    case InLeft(_, _, _, up) => Lo(up)
    case InRight(_, n, _, _) => n.start + 1
  }

  ghost function Hi(c: MCtx): int {
    match c
    case Top => UINTPTR_MAX + 1
    case InLeft(n, _, _, _) => n.start
    case InRight(_, _, _, up) => Hi(up)
  }

  ghost predicate OrderedCtx(c: MCtx)
    decreases c
  {
    match c
    case Top => true
    case InLeft(n, _, r, up) => Lo(up) <= n.start < Hi(up) && Ordered(r, n.start + 1, Hi(up)) && OrderedCtx(up)
    case InRight(l, n, _, up) => Lo(up) <= n.start < Hi(up) && Ordered(l, Lo(up), n.start) && OrderedCtx(up)
  }

  lemma {:induction false} OrderedPlug(c: MCtx, t: MTree)
    ensures OrderedCtx(c) && Ordered(t, Lo(c), Hi(c)) <==> Ordered(Plug(c, t), 0, UINTPTR_MAX + 1)
    decreases c
  {
    if c.Top? {
    } else {
      OrderedZip(c, t);
      OrderedPlug(c.up, Zip(c, t));
      hide Ordered, OrderedCtx, Lo, Hi;
      assert Plug(c, t) == Plug(c.up, Zip(c, t));
    }
  }

  lemma OrderedZip(c: MCtx, t: MTree)
    requires !c.Top?
    ensures OrderedCtx(c) && Ordered(t, Lo(c), Hi(c)) <==>
      OrderedCtx(c.up) && Ordered(Zip(c, t), Lo(c.up), Hi(c.up))
  {
  }

  // ----- links -------------------------------------------------------------------------

  /** The links and the colour stored in one node; a Heap is a snapshot of them for a set of nodes. */
  datatype Cell = Cell(color: Color, parent: MemNode?, left: MemNode?, right: MemNode?)
  type Heap = map<MemNode, Cell>

  ghost function Ref(t: MTree): MemNode? { if t.Leaf? then null else t.n }
  ghost function CtxRef(c: MCtx): MemNode? { if c.Top? then null else c.n }

  /** The snapshot below the root of t looks like t, and that root's parent is p. */
  ghost predicate Linked(t: MTree, p: MemNode?, h: Heap) {
    match t
    case Leaf => true
    case Node(l, n, c, r) =>
      n in h && h[n] == Cell(c, p, Ref(l), Ref(r)) && Linked(l, n, h) && Linked(r, n, h)
  }

  /** The snapshot around a hole looks like c, where the hole holds the pointer `hole`. */
  ghost predicate LinkedCtx(c: MCtx, hole: MemNode?, root: MemNode?, h: Heap)
    decreases c
  {
    match c
    case Top => root == hole
    case InLeft(n, col, r, up) =>
      n in h && h[n] == Cell(col, CtxRef(up), hole, Ref(r)) && Linked(r, n, h) && LinkedCtx(up, n, root, h)
    case InRight(l, n, col, up) =>
      n in h && h[n] == Cell(col, CtxRef(up), Ref(l), hole) && Linked(l, n, h) && LinkedCtx(up, n, root, h)
  }

  /** The tree hanging from `root` is t plugged into c. */
  ghost predicate At(c: MCtx, t: MTree, root: MemNode?, h: Heap) {
    OrderedCtx(c) && Ordered(t, Lo(c), Hi(c)) && Linked(t, CtxRef(c), h) && LinkedCtx(c, Ref(t), root, h)
  }

  lemma {:induction false} LinkedPlug(c: MCtx, t: MTree, root: MemNode?, h: Heap)
    ensures Linked(t, CtxRef(c), h) && LinkedCtx(c, Ref(t), root, h) <==>
            Linked(Plug(c, t), null, h) && root == Ref(Plug(c, t))
    decreases c
  {
    match c
    case Top =>
    case InLeft(n, col, r, up) => LinkedPlug(up, Node(t, n, col, r), root, h);
    case InRight(l, n, col, up) => LinkedPlug(up, Node(l, n, col, t), root, h);
  }

  /** Where the ghost focus sits does not matter. */
  lemma AtPlug(c: MCtx, t: MTree, root: MemNode?, h: Heap)
    ensures At(c, t, root, h) <==> At(Top, Plug(c, t), root, h)
  {
    OrderedPlug(c, t); LinkedPlug(c, t, root, h);
  }

  /** One level of a subtree in focus. */
  lemma Open(c: MCtx, t: MTree, root: MemNode?, h: Heap)
    requires At(c, t, root, h) && t.Node?
    ensures At(InLeft(t.n, t.c, t.r, c), t.l, root, h)
    ensures At(InRight(t.l, t.n, t.c, c), t.r, root, h)
    ensures t.n in h && h[t.n] == Cell(t.c, CtxRef(c), Ref(t.l), Ref(t.r))
  {
  }

  /** The focus moves to the parent. */
  lemma Close(c: MCtx, t: MTree, root: MemNode?, h: Heap)
    requires At(c, t, root, h) && !c.Top?
    ensures At(c.up, Zip(c, t), root, h)
    ensures c.n in h && h[c.n].parent == CtxRef(c.up) && h[c.n].color == c.c
    ensures c.InLeft? ==> h[c.n].left == Ref(t) && h[c.n].right == Ref(c.r)
    ensures c.InRight? ==> h[c.n].left == Ref(c.l) && h[c.n].right == Ref(t)
  {
  }

  /** The root pointer never points into the hole. */
  lemma {:induction false} RootDiffers(c: MCtx, hole: MemNode?, root: MemNode?, h: Heap)
    requires LinkedCtx(c, hole, root, h) && OrderedCtx(c) && !c.Top?
    ensures root != null && !(Lo(c) <= root.start < Hi(c))
    decreases c
  {
    if !c.up.Top? {
      RootDiffers(c.up, c.n, root, h);
    }
  }

  /** What the code can read from the focus: the parent's own links and colour, and those of its other
      child (the "sibling" of the focus). */
  lemma FocusFacts(c: MCtx, t: MTree, root: MemNode?, h: Heap)
    requires At(c, t, root, h)
    ensures c.Top? <==> Ref(t) == root
    ensures t.Node? ==> t.n in h && h[t.n] == Cell(t.c, CtxRef(c), Ref(t.l), Ref(t.r))
    ensures !c.Top? ==> c.n in h && h[c.n].color == c.c && h[c.n].parent == CtxRef(c.up)
    ensures c.InLeft? ==> h[c.n].left == Ref(t) && h[c.n].right == Ref(c.r)
    ensures c.InRight? ==> h[c.n].left == Ref(c.l) && h[c.n].right == Ref(t)
    ensures t.Node? && c.InLeft? && c.r.Node? ==> t.n != c.r.n
    ensures t.Node? && c.InRight? && c.l.Node? ==> t.n != c.l.n
    ensures c.InLeft? && c.r.Node? ==> c.r.n in h && h[c.r.n] == Cell(c.r.c, c.n, Ref(c.r.l), Ref(c.r.r))
    ensures c.InRight? && c.l.Node? ==> c.l.n in h && h[c.l.n] == Cell(c.l.c, c.n, Ref(c.l.l), Ref(c.l.r))
  {
    if c.InLeft? {
      assert Ordered(c.r, c.n.start + 1, Hi(c.up)) && Linked(c.r, c.n, h);
    } else if c.InRight? {
      assert Ordered(c.l, Lo(c.up), c.n.start) && Linked(c.l, c.n, h);
    }
    if !c.Top? { RootDiffers(c, Ref(t), root, h); }
  }

  lemma OpenCtx(c: MCtx, t: MTree, root: MemNode?, h: Heap)
    requires At(c, t, root, h) && t.Node?
    ensures c.Top? ==> root == t.n
    ensures c.InLeft? ==>
      c.n in h && Hi(c) == c.n.start && h[c.n].left == t.n && h[c.n].right != t.n && t.n.start < c.n.start
    ensures c.InRight? ==>
      c.n in h && Lo(c) == c.n.start + 1 && h[c.n].right == t.n && h[c.n].left != t.n && c.n.start < t.n.start
  {
    if c.InLeft? {
      assert Ordered(c.r, c.n.start + 1, Hi(c.up));
    } else if c.InRight? {
      assert Ordered(c.l, Lo(c.up), c.n.start);
    }
  }

  /** Writes outside a key range leave the subtrees of that range alone. */
  lemma {:induction false} Frame(t: MTree, lo: int, hi: int, p: MemNode?, h: Heap, h': Heap)
    requires Linked(t, p, h) && Ordered(t, lo, hi)
    requires forall n :: n in h && lo <= n.start < hi ==> n in h' && h'[n] == h[n]
    ensures Linked(t, p, h')
  {
    if t.Node? {
      Frame(t.l, lo, t.n.start, t.n, h, h'); Frame(t.r, t.n.start + 1, hi, t.n, h, h');
    }
  }

  lemma {:induction false} FrameCtx(c: MCtx, hole: MemNode?, root: MemNode?, h: Heap, h': Heap)
    requires LinkedCtx(c, hole, root, h) && OrderedCtx(c)
    requires forall n :: n in h && !(Lo(c) <= n.start < Hi(c)) ==> n in h' && h'[n] == h[n]
    ensures LinkedCtx(c, hole, root, h')
    decreases c
  {
    match c
    case Top =>
    case InLeft(n, col, r, up) => Frame(r, n.start + 1, Hi(up), n, h, h'); FrameCtx(up, n, root, h, h');
    case InRight(l, n, col, up) => Frame(l, Lo(up), n.start, n, h, h'); FrameCtx(up, n, root, h, h');
  }

  /** In the address range of t only the parent link of its root has changed, to p. */
  ghost predicate Moved(t: MTree, lo: int, hi: int, p: MemNode?, h: Heap, h': Heap) {
    forall n :: n in h && lo <= n.start < hi ==> n in h' && h'[n] == if n == Ref(t) then h[n].(parent := p) else h[n]
  }

  /** Hanging a subtree under another parent writes only the parent link of its root. */
  lemma Rehang(t: MTree, lo: int, hi: int, p: MemNode?, p': MemNode?, h: Heap, h': Heap)
    requires Linked(t, p, h) && Ordered(t, lo, hi) && Moved(t, lo, hi, p', h, h')
    ensures Linked(t, p', h')
  {
    if t.Node? {
      Frame(t.l, lo, t.n.start, t.n, h, h'); Frame(t.r, t.n.start + 1, hi, t.n, h, h');
    }
  }

  /** The snapshot and the root pointer after the pointer in the hole (a child link of the node above
      it, or mm_root) has been replaced. */
  ghost function Relinked(c: MCtx, hole: MemNode?, h: Heap): Heap {
    match c
    case Top => h
    case InLeft(n, _, _, _) => if n in h then h[n := h[n].(left := hole)] else h
    case InRight(_, n, _, _) => if n in h then h[n := h[n].(right := hole)] else h
  }

  ghost function RelinkedRoot(c: MCtx, hole: MemNode?, root: MemNode?): MemNode? {
    if c.Top? then hole else root
  }

  lemma RelinkedCtx(c: MCtx, hole: MemNode?, hole': MemNode?, root: MemNode?, h: Heap, h': Heap)
    requires LinkedCtx(c, hole, root, h) && OrderedCtx(c) && h'.Keys == h.Keys
    requires forall n :: n in h && !(Lo(c) <= n.start < Hi(c)) ==> h'[n] == Relinked(c, hole', h)[n]
    ensures LinkedCtx(c, hole', RelinkedRoot(c, hole', root), h')
  {
    match c
    case Top =>
    case InLeft(n, col, r, up) => RelinkedLeft(n, col, r, up, hole, hole', root, h, h');
    case InRight(l, n, col, up) => RelinkedRight(l, n, col, up, hole, hole', root, h, h');
  }

  lemma RelinkedLeft(n: MemNode, col: Color, r: MTree, up: MCtx, hole: MemNode?, hole': MemNode?, root: MemNode?,
                     h: Heap, h': Heap)
    requires var c := InLeft(n, col, r, up); LinkedCtx(c, hole, root, h) && OrderedCtx(c)
    requires h'.Keys == h.Keys && h'[n] == h[n].(left := hole')
    requires forall m :: m in h && m != n && !(Lo(up) <= m.start < n.start) ==> h'[m] == h[m]
    ensures LinkedCtx(InLeft(n, col, r, up), hole', root, h')
  {
    Frame(r, n.start + 1, Hi(up), n, h, h'); FrameCtx(up, n, root, h, h');
  }

  lemma RelinkedRight(l: MTree, n: MemNode, col: Color, up: MCtx, hole: MemNode?, hole': MemNode?, root: MemNode?,
                      h: Heap, h': Heap)
    requires var c := InRight(l, n, col, up); LinkedCtx(c, hole, root, h) && OrderedCtx(c)
    requires h'.Keys == h.Keys && h'[n] == h[n].(right := hole')
    requires forall m :: m in h && m != n && !(n.start < m.start < Hi(up)) ==> h'[m] == h[m]
    ensures LinkedCtx(InRight(l, n, col, up), hole', root, h')
  {
    Frame(l, Lo(up), n.start, n, h, h'); FrameCtx(up, n, root, h, h');
  }

  /** A step that rewrites the subtree in focus and the pointer to it. */
  lemma Replace(c: MCtx, t: MTree, t': MTree, root: MemNode?, h: Heap, h': Heap)
    requires At(c, t, root, h) && h'.Keys == h.Keys
    requires Ordered(t', Lo(c), Hi(c)) && Linked(t', CtxRef(c), h')
    requires forall n :: n in h && !(Lo(c) <= n.start < Hi(c)) ==> h'[n] == Relinked(c, Ref(t'), h)[n]
    ensures At(c, t', RelinkedRoot(c, Ref(t'), root), h')
  {
    RelinkedCtx(c, Ref(t), Ref(t'), root, h, h');
  }

  ghost function RotatedRight(t: MTree): MTree
    requires t.Node? && t.l.Node?
  {
    Node(t.l.l, t.l.n, t.l.c, Node(t.l.r, t.n, t.c, t.r))
  }

  ghost function RotatedLeft(t: MTree): MTree
    requires t.Node? && t.r.Node?
  {
    Node(Node(t.l, t.n, t.c, t.r.l), t.r.n, t.r.c, t.r.r)
  }

  lemma RotateRightTree(t: MTree, lo: int, hi: int, p: MemNode?, h: Heap, h': Heap)
    requires t.Node? && t.l.Node? && Ordered(t, lo, hi) && Linked(t, p, h)
    requires t.n in h' && h'[t.n] == Cell(t.c, t.l.n, Ref(t.l.r), Ref(t.r))
    requires t.l.n in h' && h'[t.l.n] == Cell(t.l.c, p, Ref(t.l.l), t.n)
    requires forall n :: n in h && lo <= n.start < hi && n != t.n && n != t.l.n ==>
      n in h' && h'[n] == if n == Ref(t.l.r) then h[n].(parent := t.n) else h[n]
    ensures Ordered(RotatedRight(t), lo, hi) && Linked(RotatedRight(t), p, h')
  {
    var Node(Node(a, y, cy, b), x, cx, d) := t;
    assert Linked(t.l, x, h) && Ordered(t.l, lo, x.start);
    assert Ordered(b, y.start + 1, x.start);
    assert Linked(a, y, h') by { Frame(a, lo, y.start, y, h, h'); }
    assert Linked(b, x, h') by { Rehang(b, y.start + 1, x.start, y, x, h, h'); }
    assert Linked(d, x, h') by { Frame(d, x.start + 1, hi, x, h, h'); }
  }

  // What one assignment does to a snapshot; a null target stands for a guarded write.
  ghost function SetLeft(h: Heap, n: MemNode?, v: MemNode?): Heap {
    if n != null && n in h then h[n := h[n].(left := v)] else h
  }

  ghost function SetRight(h: Heap, n: MemNode?, v: MemNode?): Heap {
    if n != null && n in h then h[n := h[n].(right := v)] else h
  }

  ghost function SetParent(h: Heap, n: MemNode?, v: MemNode?): Heap {
    if n != null && n in h then h[n := h[n].(parent := v)] else h
  }

  ghost function SetColor(h: Heap, n: MemNode?, v: Color): Heap {
    if n != null && n in h then h[n := h[n].(color := v)] else h
  }

  /** Writes `child` where `node` hangs, below p. */
  ghost function SetChild(h: Heap, p: MemNode?, node: MemNode, child: MemNode?): Heap {
    if p != null && p in h && h[p].right == node then SetRight(h, p, child) else SetLeft(h, p, child)
  }

  lemma RotateLeftTree(t: MTree, lo: int, hi: int, p: MemNode?, h: Heap, h': Heap)
    requires t.Node? && t.r.Node? && Ordered(t, lo, hi) && Linked(t, p, h)
    requires t.n in h' && h'[t.n] == Cell(t.c, t.r.n, Ref(t.l), Ref(t.r.l))
    requires t.r.n in h' && h'[t.r.n] == Cell(t.r.c, p, t.n, Ref(t.r.r))
    requires forall n :: n in h && lo <= n.start < hi && n != t.n && n != t.r.n ==>
      n in h' && h'[n] == if n == Ref(t.r.l) then h[n].(parent := t.n) else h[n]
    ensures Ordered(RotatedLeft(t), lo, hi) && Linked(RotatedLeft(t), p, h')
  {
    var Node(a, x, cx, Node(b, y, cy, d)) := t;
    assert Linked(t.r, x, h) && Ordered(t.r, x.start + 1, hi);
    assert Ordered(b, x.start + 1, y.start);
    assert Linked(a, x, h') by { Frame(a, lo, x.start, x, h, h'); }
    assert Linked(b, x, h') by { Rehang(b, x.start + 1, y.start, y, x, h, h'); }
    assert Linked(d, y, h') by { Frame(d, y.start + 1, hi, y, h, h'); }
  }

  /** What `__mm_rotate_right` writes. */
  ghost function RightRotation(x: MemNode, y: MemNode, b: MemNode?, p: MemNode?, h: Heap): Heap {
    var h1 := SetParent(SetLeft(h, x, b), b, x);
    var h2 := SetParent(SetChild(h1, p, x, y), y, p);
    SetParent(SetRight(h2, y, x), x, y)
  }

  /** The links that make a right rotation at x well defined. */
  ghost predicate CanRotateRight(x: MemNode, y: MemNode, b: MemNode?, p: MemNode?, h: Heap) {
    x in h && y in h && x != y && h[x].left == y && h[y].right == b && h[x].parent == p &&
    (b != null ==> b in h && b != x && b != y) &&
    (p != null ==> p in h && p != x && p != y && p != b)
  }

  lemma RightRotationCells(x: MemNode, y: MemNode, b: MemNode?, p: MemNode?, h: Heap, h': Heap)
    requires CanRotateRight(x, y, b, p, h) && h' == RightRotation(x, y, b, p, h)
    ensures h'.Keys == h.Keys
    ensures h'[x] == h[x].(left := b, parent := y) && h'[y] == h[y].(right := x, parent := p)
    ensures b != null ==> h'[b] == h[b].(parent := x)
    ensures p != null ==> h'[p] == if h[p].right == x then h[p].(right := y) else h[p].(left := y)
    ensures forall n :: n in h && n != x && n != y && n != b && n != p ==> h'[n] == h[n]
  {
  }

  lemma RotatableRight(c: MCtx, t: MTree, root: MemNode?, h: Heap)
    requires At(c, t, root, h) && t.Node? && t.l.Node?
    ensures CanRotateRight(t.n, t.l.n, Ref(t.l.r), CtxRef(c), h)
    ensures h[t.n].right == Ref(t.r) && h[t.l.n].left == Ref(t.l.l)
    ensures h[t.n].color == t.c && h[t.l.n].color == t.l.c
    ensures Lo(c) <= t.l.n.start < t.n.start < Hi(c) && (c.Top? ==> root == t.n)
    ensures c.InLeft? ==> h[c.n].right != t.n && Hi(c) == c.n.start
    ensures c.InRight? ==> h[c.n].right == t.n && Lo(c) == c.n.start + 1
    ensures t.l.r.Node? ==> t.l.n.start < t.l.r.n.start < t.n.start
  {
    Open(c, t, root, h); OpenCtx(c, t, root, h);
    var c1 := InLeft(t.n, t.c, t.r, c);
    Open(c1, t.l, root, h);
    if t.l.r.Node? { Open(InRight(t.l.l, t.l.n, t.l.c, c1), t.l.r, root, h); }
  }

  lemma RotateRightAt(c: MCtx, t: MTree, root: MemNode?, h: Heap, h': Heap)
    requires At(c, t, root, h) && t.Node? && t.l.Node?
    requires h' == RightRotation(t.n, t.l.n, Ref(t.l.r), CtxRef(c), h)
    ensures At(c, RotatedRight(t), RelinkedRoot(c, t.l.n, root), h')
  {
    RotatableRight(c, t, root, h);
    RightRotationCells(t.n, t.l.n, Ref(t.l.r), CtxRef(c), h, h');
    RotateRightTree(t, Lo(c), Hi(c), CtxRef(c), h, h');
    Replace(c, t, RotatedRight(t), root, h, h');
  }

  /** What `__mm_rotate_left` writes. */
  ghost function LeftRotation(x: MemNode, y: MemNode, b: MemNode?, p: MemNode?, h: Heap): Heap {
    var h1 := SetParent(SetRight(h, x, b), b, x);
    var h2 := SetParent(SetChild(h1, p, x, y), y, p);
    SetParent(SetLeft(h2, y, x), x, y)
  }

  ghost predicate CanRotateLeft(x: MemNode, y: MemNode, b: MemNode?, p: MemNode?, h: Heap) {
    x in h && y in h && x != y && h[x].right == y && h[y].left == b && h[x].parent == p &&
    (b != null ==> b in h && b != x && b != y) &&
    (p != null ==> p in h && p != x && p != y && p != b)
  }

  lemma LeftRotationCells(x: MemNode, y: MemNode, b: MemNode?, p: MemNode?, h: Heap, h': Heap)
    requires CanRotateLeft(x, y, b, p, h) && h' == LeftRotation(x, y, b, p, h)
    ensures h'.Keys == h.Keys
    ensures h'[x] == h[x].(right := b, parent := y) && h'[y] == h[y].(left := x, parent := p)
    ensures b != null ==> h'[b] == h[b].(parent := x)
    ensures p != null ==> h'[p] == if h[p].right == x then h[p].(right := y) else h[p].(left := y)
    ensures forall n :: n in h && n != x && n != y && n != b && n != p ==> h'[n] == h[n]
  {
  }

  lemma RotatableLeft(c: MCtx, t: MTree, root: MemNode?, h: Heap)
    requires At(c, t, root, h) && t.Node? && t.r.Node?
    ensures CanRotateLeft(t.n, t.r.n, Ref(t.r.l), CtxRef(c), h)
    ensures h[t.n].left == Ref(t.l) && h[t.r.n].right == Ref(t.r.r)
    ensures h[t.n].color == t.c && h[t.r.n].color == t.r.c
    ensures Lo(c) <= t.n.start < t.r.n.start < Hi(c) && (c.Top? ==> root == t.n)
    ensures c.InLeft? ==> h[c.n].right != t.n && Hi(c) == c.n.start
    ensures c.InRight? ==> h[c.n].right == t.n && Lo(c) == c.n.start + 1
    ensures t.r.l.Node? ==> t.n.start < t.r.l.n.start < t.r.n.start
  {
    Open(c, t, root, h); OpenCtx(c, t, root, h);
    var c1 := InRight(t.l, t.n, t.c, c);
    Open(c1, t.r, root, h);
    if t.r.l.Node? { Open(InLeft(t.r.n, t.r.c, t.r.r, c1), t.r.l, root, h); }
  }

  lemma RotateLeftAt(c: MCtx, t: MTree, root: MemNode?, h: Heap, h': Heap)
    requires At(c, t, root, h) && t.Node? && t.r.Node?
    requires h' == LeftRotation(t.n, t.r.n, Ref(t.r.l), CtxRef(c), h)
    ensures At(c, RotatedLeft(t), RelinkedRoot(c, t.r.n, root), h')
  {
    RotatableLeft(c, t, root, h);
    LeftRotationCells(t.n, t.r.n, Ref(t.r.l), CtxRef(c), h, h');
    RotateLeftTree(t, Lo(c), Hi(c), CtxRef(c), h, h');
    Replace(c, t, RotatedLeft(t), root, h, h');
  }

  lemma PaintAt(c: MCtx, t: MTree, root: MemNode?, col: Color, h: Heap, h': Heap)
    requires At(c, t, root, h) && t.Node? && h' == SetColor(h, t.n, col)
    ensures At(c, t.(c := col), root, h')
  {
    Open(c, t, root, h); OpenCtx(c, t, root, h);
    Frame(t.l, Lo(c), t.n.start, t.n, h, h'); Frame(t.r, t.n.start + 1, Hi(c), t.n, h, h');
    FrameCtx(c, t.n, root, h, h');
  }

  /** What the code can read of the children of the focus's sibling. */
  lemma SiblingChildren(c: MCtx, t: MTree, root: MemNode?, h: Heap)
    requires At(c, t, root, h) && !c.Top?
    ensures var s := if c.InLeft? then c.r else c.l;
      (s.Node? ==> s.n in h && h[s.n] == Cell(s.c, c.n, Ref(s.l), Ref(s.r))) &&
      (s.Node? && s.l.Node? ==> s.l.n in h && h[s.l.n].color == s.l.c) &&
      (s.Node? && s.r.Node? ==> s.r.n in h && h[s.r.n].color == s.r.c)
  {
    var s := if c.InLeft? then c.r else c.l;
    assert Linked(s, c.n, h);
    if s.Node? {
      assert Linked(s.l, s.n, h) && Linked(s.r, s.n, h);
    }
  }

  // ----- moving the predecessor up -----------------------------------------------------

  lemma GraftRef(i: MCtx, o: MCtx)
    ensures CtxRef(Graft(i, o)) == if i.Top? then CtxRef(o) else CtxRef(i)
  {
  }

  /** Along an all-right path the hole keeps the upper key bound. */
  lemma {:induction false} SpineBounds(i: MCtx, o: MCtx, t: MTree)
    requires AllRight(i) && OrderedCtx(Graft(i, o))
    ensures Hi(Graft(i, o)) == Hi(o) && OrderedCtx(o)
    ensures i.Top? || (Lo(o) <= i.n.start < Hi(o) && Lo(Graft(i, o)) == i.n.start + 1)
    ensures i.Top? || (Plug(i, t).Node? && Lo(o) <= Plug(i, t).n.start <= i.n.start)
    decreases i
  {
    if i.InRight? {
      SpineBounds(i.up, o, Node(i.l, i.n, i.c, t));
    }
  }

  /** Below its largest node m, a spine is a search tree with keys under m. */
  lemma {:induction false} SpineOrdered(i: MCtx, x: MTree, y: MTree, m: MemNode, lo: int, hi: int)
    requires AllRight(i) && Ordered(Plug(i, x), lo, hi)
    requires forall lo', hi' :: Ordered(x, lo', hi') ==> lo' <= m.start < hi' && Ordered(y, lo', m.start)
    ensures lo <= m.start < hi && Ordered(Plug(i, y), lo, m.start)
    decreases i
  {
    if i.InRight? {
      SpineOrdered(i.up, Node(i.l, i.n, i.c, x), Node(i.l, i.n, i.c, y), m, lo, hi);
    }
  }

  /** The predecessor m of n is cut out of its place: the first half of the move. */
  lemma SpliceAt(c: MCtx, b: MTree, m: MemNode, pc: Color, root: MemNode?, h: Heap, h': Heap)
    requires At(c, Node(b, m, pc, Leaf), root, h) && !c.Top?
    requires h' == SetParent(Relinked(c, Ref(b), h), Ref(b), c.n)
    ensures At(c, b, root, h')
  {
    FocusFacts(c, Node(b, m, pc, Leaf), root, h);
    assert Linked(b, m, h) && Ordered(b, Lo(c), m.start);
    assert Ordered(b, Lo(c), Hi(c)) by { OrderedWider(b, Lo(c), m.start, Lo(c), Hi(c)); }
    assert b.Node? ==> b.n in h && Lo(c) <= b.n.start < Hi(c);
    Rehang(b, Lo(c), Hi(c), m, c.n, h, h');
    Replace(c, Node(b, m, pc, Leaf), b, root, h, h');
  }

  lemma {:induction false} OrderedWider(t: MTree, lo: int, hi: int, lo': int, hi': int)
    requires Ordered(t, lo, hi) && lo' <= lo && hi <= hi'
    ensures Ordered(t, lo', hi')
  {
    if t.Node? {
      OrderedWider(t.l, lo, t.n.start, lo', t.n.start);
      OrderedWider(t.r, t.n.start + 1, hi, t.n.start + 1, hi');
    }
  }

  lemma SubtreesOf(o: MCtx, l: MTree, n: MemNode, col: Color, r: MTree, root: MemNode?, h: Heap)
    requires At(o, Node(l, n, col, r), root, h)
    ensures Linked(l, n, h) && Linked(r, n, h) && Ordered(r, n.start + 1, Hi(o)) && n.start < Hi(o)
  {
  }

  lemma RootWithin(t: MTree, lo: int, hi: int)
    requires Ordered(t, lo, hi)
    ensures t.Node? ==> lo <= t.n.start < hi
  {
  }

  lemma BothMoved(o: MCtx, l: MTree, n: MemNode, m: MemNode, r: MTree, h: Heap, h': Heap)
    requires h'.Keys == h.Keys && Lo(o) <= m.start < n.start < Hi(o)
    requires (l.Node? ==> l.n.start < m.start) && (r.Node? ==> n.start < r.n.start)
    requires forall x :: x in h && Lo(o) <= x.start < Hi(o) && x != m && x != n ==>
      h'[x] == if x == Ref(l) || x == Ref(r) then h[x].(parent := m) else h[x]
    ensures Moved(l, Lo(o), m.start, m, h, h') && Moved(r, n.start + 1, Hi(o), m, h, h')
  {
  }

  /** The subtrees below n hang below m. */
  lemma SubstituteBelow(o: MCtx, l: MTree, n: MemNode, m: MemNode, col: Color, r: MTree, root: MemNode?, h: Heap,
                        h': Heap)
    requires At(o, Node(l, n, col, r), root, h) && h'.Keys == h.Keys
    requires Lo(o) <= m.start < n.start && Ordered(l, Lo(o), m.start)
    requires forall x :: x in h && Lo(o) <= x.start < Hi(o) && x != m && x != n ==>
      h'[x] == if x == Ref(l) || x == Ref(r) then h[x].(parent := m) else h[x]
    ensures Linked(l, m, h') && Linked(r, m, h') && Ordered(r, m.start + 1, Hi(o)) && n.start < Hi(o)
  {
    hide At, Linked, Ordered, LinkedCtx, OrderedCtx, Lo, Hi, Moved;
    SubtreesOf(o, l, n, col, r, root, h);
    RootWithin(l, Lo(o), m.start);
    RootWithin(r, n.start + 1, Hi(o));
    BothMoved(o, l, n, m, r, h, h');
    RehangBoth(Lo(o), Hi(o), l, n, m, r, h, h');
  }

  lemma RehangBoth(lo: int, hi: int, l: MTree, n: MemNode, m: MemNode, r: MTree, h: Heap, h': Heap)
    requires Linked(l, n, h) && Linked(r, n, h) && Ordered(l, lo, m.start) && Ordered(r, n.start + 1, hi)
    requires Moved(l, lo, m.start, m, h, h') && Moved(r, n.start + 1, hi, m, h, h') && m.start < n.start
    ensures Linked(l, m, h') && Linked(r, m, h') && Ordered(r, m.start + 1, hi)
  {
    hide Linked, Ordered, Moved;
    Rehang(l, lo, m.start, n, m, h, h');
    Rehang(r, n.start + 1, hi, n, m, h, h');
    OrderedWider(r, n.start + 1, hi, m.start + 1, hi);
  }

  /** m takes the place of n: the second half of the move. */
  lemma SubstituteAt(o: MCtx, l: MTree, n: MemNode, m: MemNode, col: Color, r: MTree, root: MemNode?, h: Heap, h': Heap)
    requires At(o, Node(l, n, col, r), root, h) && h'.Keys == h.Keys
    requires Lo(o) <= m.start < n.start && Ordered(l, Lo(o), m.start)
    requires m in h && h'[m] == Cell(col, CtxRef(o), Ref(l), Ref(r))
    requires forall x :: x in h && Lo(o) <= x.start < Hi(o) && x != m && x != n ==>
      h'[x] == if x == Ref(l) || x == Ref(r) then h[x].(parent := m) else h[x]
    requires forall x :: x in h && !(Lo(o) <= x.start < Hi(o)) ==> h'[x] == Relinked(o, m, h)[x]
    ensures At(o, Node(l, m, col, r), RelinkedRoot(o, m, root), h')
  {
    SubstituteBelow(o, l, n, m, col, r, root, h, h');
    Replace(o, Node(l, n, col, r), Node(l, m, col, r), root, h, h');
  }

  /** What `__mm_remove` first writes for a node n with two children: m is its predecessor, p the parent
      of m (n itself when m is the left child of n), b the left child of m, l the left child of n. */
  ghost function LowerWrites(h: Heap, n: MemNode, m: MemNode, col: Color, p: MemNode, b: MemNode?, l: MemNode): Heap {
    var h1 := SetColor(h, m, col);
    if p != n then SetParent(SetLeft(SetParent(SetRight(h1, p, b), b, p), m, l), l, m) else h1
  }

  /** And what it writes next; r and q are the right child and the parent of n. */
  ghost function UpperWrites(h: Heap, n: MemNode, m: MemNode, r: MemNode, q: MemNode?): Heap {
    SetChild(SetParent(SetParent(SetRight(h, m, r), r, m), m, q), q, n, m)
  }

  ghost predicate PredecessorLinks(h: Heap, n: MemNode, m: MemNode, p: MemNode, b: MemNode?,
                                   l: MemNode, r: MemNode, q: MemNode?) {
    n in h && m in h && p in h && l in h && r in h && n != m && r != n && r != m && r != p && r != l &&
    l != n && p != m && h[m].left == b && h[m].parent == p && (p == n <==> l == m) &&
    (b != null ==> b in h && b != n && b != m && b != p && b != l && b != r && h[b].parent == m) &&
    (q != null ==> q in h && q != n && q != m && q != p && q != l && q != r && q != b)
  }

  /** The snapshot in which m is merely cut out. */
  ghost function Spliced(h: Heap, n: MemNode, p: MemNode, b: MemNode?): Heap {
    if p != n then SetParent(SetRight(h, p, b), b, p) else SetParent(SetLeft(h, n, b), b, n)
  }

  lemma LowerCells(h: Heap, n: MemNode, m: MemNode, col: Color, p: MemNode, b: MemNode?,
                   l: MemNode, r: MemNode, q: MemNode?, h': Heap)
    requires PredecessorLinks(h, n, m, p, b, l, r, q) && h' == LowerWrites(h, n, m, col, p, b, l)
    ensures h'.Keys == h.Keys && Spliced(h, n, p, b).Keys == h.Keys
    ensures h'[m].color == col && h'[m].left == if p == n then b else l
    ensures forall x :: x in h && x != m && x != n ==>
      h'[x] == var y := Spliced(h, n, p, b)[x]; if x == h'[m].left then y.(parent := m) else y
    ensures q != null ==> h'[q] == h[q]
  {
  }

  lemma LowerLeavesNode(h: Heap, n: MemNode, m: MemNode, col: Color, p: MemNode, b: MemNode?,
                        l: MemNode, r: MemNode, q: MemNode?)
    requires PredecessorLinks(h, n, m, p, b, l, r, q)
    ensures var h' := LowerWrites(h, n, m, col, p, b, l);
      n in h' && h'[n].right == h[n].right && h'[n].parent == h[n].parent &&
      (q != null ==> q in h' && h'[q] == h[q])
  {
  }

  lemma UpperCells(h: Heap, n: MemNode, m: MemNode, r: MemNode, q: MemNode?, h': Heap)
    requires n in h && m in h && r in h && n != m && r != n && r != m
    requires q != null ==> q in h && q != n && q != m && q != r
    requires h' == UpperWrites(h, n, m, r, q)
    ensures h'.Keys == h.Keys && h'[m] == Cell(h[m].color, q, h[m].left, r)
    ensures forall x :: x in h && x != m && x != n && x != q ==> h'[x] == if x == r then h[x].(parent := m) else h[x]
    ensures q != null ==> h'[q] == if h[q].right == n then h[q].(right := m) else h[q].(left := m)
  {
  }

  /** Where n, m and the nodes around them stand in address order. */
  lemma PredecessorBounds(i: MCtx, o: MCtx, n: MemNode, col: Color, r: MTree, b: MTree, m: MemNode, pc: Color,
                          root: MemNode?, h: Heap)
    requires AllRight(i) && r.Node?
    requires At(Graft(i, InLeft(n, col, r, o)), Node(b, m, pc, Leaf), root, h)
    ensures Lo(o) <= m.start < n.start < r.n.start < Hi(o)
    ensures b.Node? ==> Lo(o) <= b.n.start < m.start && (i.Top? || i.n.start < b.n.start)
    ensures var l := Plug(i, Node(b, m, pc, Leaf));
      l.Node? && if i.Top? then l.n == m else Lo(o) <= l.n.start <= i.n.start < m.start
  {
    var cl, t := InLeft(n, col, r, o), Node(b, m, pc, Leaf);
    SpineBounds(i, cl, t);
    assert Ordered(r, n.start + 1, Hi(o)) && Ordered(t, Lo(Graft(i, cl)), Hi(Graft(i, cl)));
    assert Ordered(b, Lo(Graft(i, cl)), m.start) && (i.Top? ==> Lo(Graft(i, cl)) == Lo(o));
  }

  /** What the heap says about them. */
  lemma PredecessorCells(i: MCtx, o: MCtx, n: MemNode, col: Color, r: MTree, b: MTree, m: MemNode, pc: Color,
                         root: MemNode?, h: Heap)
    requires AllRight(i) && r.Node? && Plug(i, Node(b, m, pc, Leaf)).Node?
    requires At(Graft(i, InLeft(n, col, r, o)), Node(b, m, pc, Leaf), root, h)
    ensures m in h && h[m].left == Ref(b) && h[m].parent == if i.Top? then n else i.n
    ensures (if i.Top? then n else i.n) in h && (b.Node? ==> b.n in h && h[b.n].parent == m)
    ensures n in h && r.n in h && Plug(i, Node(b, m, pc, Leaf)).n in h && (!o.Top? ==> o.n in h)
  {
    hide At, Graft, Plug, AllRight, Before, After, InOrder, Ordered, OrderedCtx, Linked, LinkedCtx, Lo, Hi;
    var cl, t := InLeft(n, col, r, o), Node(b, m, pc, Leaf);
    var c := Graft(i, cl);
    GraftRef(i, cl);
    FocusFacts(c, t, root, h);
    Open(c, t, root, h);
    if b.Node? { FocusFacts(InLeft(m, pc, Leaf, c), b, root, h); }
    PlugGraft(i, cl, t);
    AtPlug(c, t, root, h);
    AtPlug(cl, Plug(i, t), root, h);
    FocusFacts(cl, Plug(i, t), root, h);
    if !i.Top? { ParentIn(c, t, root, h); }
    Close(cl, Plug(i, t), root, h);
    FocusFacts(o, Zip(cl, Plug(i, t)), root, h);
  }

  lemma ParentIn(c: MCtx, t: MTree, root: MemNode?, h: Heap)
    requires At(c, t, root, h) && CtxRef(c) != null
    ensures CtxRef(c) in h
  {
    FocusFacts(c, t, root, h);
  }

  /** The links around a node n with two children and its predecessor m, which hangs below n along i. */
  lemma PredecessorDistinct(i: MCtx, o: MCtx, n: MemNode, col: Color, r: MTree, b: MTree, m: MemNode, pc: Color,
                            root: MemNode?, h: Heap)
    requires AllRight(i) && r.Node?
    requires At(Graft(i, InLeft(n, col, r, o)), Node(b, m, pc, Leaf), root, h)
    ensures var l := Plug(i, Node(b, m, pc, Leaf));
      l.Node? && PredecessorLinks(h, n, m, if i.Top? then n else i.n, Ref(b), l.n, r.n, CtxRef(o))
    ensures Lo(o) <= m.start < n.start < Hi(o) && (i.Top? || i.n != n)
  {
    hide At, Graft, Plug, AllRight;
    PredecessorBounds(i, o, n, col, r, b, m, pc, root, h);
    PredecessorCells(i, o, n, col, r, b, m, pc, root, h);
  }

  lemma SplicedAt(i: MCtx, cl: MCtx, b: MTree, m: MemNode, pc: Color, root: MemNode?, h: Heap)
    requires AllRight(i) && cl.InLeft? && At(Graft(i, cl), Node(b, m, pc, Leaf), root, h)
    ensures At(Graft(i, cl), b, root, Spliced(h, cl.n, if i.Top? then cl.n else i.n, Ref(b)))
  {
    var c := Graft(i, cl);
    SpineBounds(i, cl, b);
    Open(c, Node(b, m, pc, Leaf), root, h);
    FocusFacts(c, Node(b, m, pc, Leaf), root, h);
    if b.Node? { Open(InLeft(m, pc, Leaf, c), b, root, h); }
    SpliceAt(c, b, m, pc, root, h, SetParent(Relinked(c, Ref(b), h), Ref(b), c.n));
  }

  /** Cutting m out changes the root of the spine only if m was that root. */
  lemma {:induction false} SpineRoot(i: MCtx, x: MTree, y: MTree)
    requires AllRight(i)
    ensures i.Top? || (Plug(i, x).Node? && Plug(i, y).Node? && Plug(i, x).n == Plug(i, y).n)
    decreases i
  {
    match i
    case Top =>
    case InRight(l, n, c, up) =>
      assert Plug(i, x) == Plug(up, Node(l, n, c, x)) && Plug(i, y) == Plug(up, Node(l, n, c, y));
      SpineRoot(up, Node(l, n, c, x), Node(l, n, c, y));
    case InLeft(_, _, _, _) =>
  }

  lemma SpineBelow(i: MCtx, cl: MCtx, b: MTree, m: MemNode, pc: Color, root: MemNode?, h: Heap)
    requires AllRight(i) && At(Graft(i, cl), Node(b, m, pc, Leaf), root, h)
    ensures Ordered(Plug(i, b), Lo(cl), m.start)
  {
    var t := Node(b, m, pc, Leaf);
    PlugGraft(i, cl, t); AtPlug(Graft(i, cl), t, root, h); AtPlug(cl, Plug(i, t), root, h);
    SpineOrdered(i, t, b, m, Lo(cl), Hi(cl));
  }

  lemma BelowBounds(o: MCtx, t: MTree, root: MemNode?, h: Heap)
    requires At(o, t, root, h) && t.Node?
    ensures t.l.Node? ==> Lo(o) <= t.l.n.start < Hi(o)
    ensures t.r.Node? ==> Lo(o) <= t.r.n.start < Hi(o)
  {
    assert Ordered(t.l, Lo(o), t.n.start) && Ordered(t.r, t.n.start + 1, Hi(o));
  }

  /** From the snapshot h1 in which m is merely cut out, the move wrote m, the parent links of its new
      children, and the pointer that led to n. */
  ghost predicate Substituted(n: MemNode, m: MemNode, col: Color, l: MemNode?, r: MemNode, q: MemNode?, h1: Heap,
                              h': Heap)
  {
    m in h1 && n in h1 && h'.Keys == h1.Keys && h'[m] == Cell(col, q, l, r) &&
    (forall x :: x in h1 && x != m && x != n && x != q ==>
       h'[x] == if x == l || x == r then h1[x].(parent := m) else h1[x]) &&
    (q != null ==> q in h1 && h'[q] == if h1[q].right == n then h1[q].(right := m) else h1[q].(left := m))
  }

  lemma MoveCells(h: Heap, n: MemNode, m: MemNode, col: Color, p: MemNode, b: MemNode?,
                  l: MemNode, r: MemNode, q: MemNode?, h': Heap)
    requires PredecessorLinks(h, n, m, p, b, l, r, q)
    requires h' == UpperWrites(LowerWrites(h, n, m, col, p, b, l), n, m, r, q)
    ensures Substituted(n, m, col, if p == n then b else l, r, q, Spliced(h, n, p, b), h')
  {
    hide LowerWrites, UpperWrites;
    var h2 := LowerWrites(h, n, m, col, p, b, l);
    LowerCells(h, n, m, col, p, b, l, r, q, h2);
    UpperCells(h2, n, m, r, q, h');
  }

  lemma SubstitutedAt(o: MCtx, l: MTree, n: MemNode, m: MemNode, col: Color, r: MTree, root: MemNode?, h: Heap,
                      h': Heap)
    requires At(o, Node(l, n, col, r), root, h) && r.Node?
    requires Lo(o) <= m.start < n.start < Hi(o) && Ordered(l, Lo(o), m.start)
    requires Substituted(n, m, col, Ref(l), r.n, CtxRef(o), h, h')
    ensures At(o, Node(l, m, col, r), RelinkedRoot(o, m, root), h')
  {
    hide At, Linked, LinkedCtx, Ordered, OrderedCtx;
    OpenCtx(o, Node(l, n, col, r), root, h);
    BelowBounds(o, Node(l, n, col, r), root, h);
    SubstituteAt(o, l, n, m, col, r, root, h, h');
  }

  /** Both halves of the move. */
  lemma PredecessorAt(i: MCtx, o: MCtx, n: MemNode, col: Color, r: MTree, b: MTree, m: MemNode, pc: Color,
                      l: MemNode, root: MemNode?, h: Heap, h': Heap)
    requires AllRight(i) && r.Node?
    requires At(Graft(i, InLeft(n, col, r, o)), Node(b, m, pc, Leaf), root, h)
    requires l == Ref(Plug(i, Node(b, m, pc, Leaf)))
    requires h' == UpperWrites(LowerWrites(h, n, m, col, if i.Top? then n else i.n, Ref(b), l), n, m, r.n, CtxRef(o))
    ensures At(Graft(i, InLeft(m, col, r, o)), b, RelinkedRoot(o, m, root), h')
  {
    var cl, t, p := InLeft(n, col, r, o), Node(b, m, pc, Leaf), if i.Top? then n else i.n;
    var h1, l1 := Spliced(h, n, p, Ref(b)), Plug(i, b);
    assert Ref(l1) == if i.Top? then Ref(b) else l by { SpineRoot(i, b, t); }
    assert Lo(cl) == Lo(o);
    hide At, Plug, LowerWrites, UpperWrites, Spliced, Substituted, Linked, LinkedCtx, Ordered, OrderedCtx, Graft,
      AllRight;
    PredecessorDistinct(i, o, n, col, r, b, m, pc, root, h);
    MoveCells(h, n, m, col, p, Ref(b), l, r.n, CtxRef(o), h');
    SplicedAt(i, cl, b, m, pc, root, h);
    SpineBelow(i, cl, b, m, pc, root, h);
    PlugGraft(i, cl, b); AtPlug(Graft(i, cl), b, root, h1); AtPlug(cl, l1, root, h1); Close(cl, l1, root, h1);
    SubstitutedAt(o, l1, n, m, col, r, root, h1, h');
    Open(o, Node(l1, m, col, r), RelinkedRoot(o, m, root), h');
    PlugGraft(i, InLeft(m, col, r, o), b);
    AtPlug(InLeft(m, col, r, o), l1, RelinkedRoot(o, m, root), h');
    AtPlug(Graft(i, InLeft(m, col, r, o)), b, RelinkedRoot(o, m, root), h');
  }

  lemma OnlyChild(o: MCtx, t: MTree, b: MTree, root: MemNode?, h: Heap)
    requires At(o, t, root, h) && t.Node? && (t.l.Leaf? || t.r.Leaf?)
    requires b == if t.l.Node? then t.l else t.r
    ensures Ordered(b, Lo(o), Hi(o)) && Linked(b, t.n, h) && (b.Node? ==> b.n in h)
  {
    Open(o, t, root, h);
    if t.l.Node? { OrderedWider(b, Lo(o), t.n.start, Lo(o), Hi(o)); }
    else { OrderedWider(b, t.n.start + 1, Hi(o), Lo(o), Hi(o)); }
  }

  /** Inside the bounds of o the writes concern the parent link of b only, and outside the link to it. */
  lemma OneChildWrites(o: MCtx, n: MemNode, b: MTree, h: Heap, h': Heap)
    requires b.Node? ==> b.n in h && Lo(o) <= b.n.start < Hi(o)
    requires o.InLeft? ==> o.n in h && Hi(o) == o.n.start && h[o.n].left == n && h[o.n].right != n
    requires o.InRight? ==> o.n in h && Lo(o) == o.n.start + 1 && h[o.n].right == n
    requires h' == SetChild(SetParent(h, Ref(b), CtxRef(o)), CtxRef(o), n, Ref(b))
    ensures h'.Keys == h.Keys && Moved(b, Lo(o), Hi(o), CtxRef(o), h, h')
    ensures forall m :: m in h && !(Lo(o) <= m.start < Hi(o)) ==> h'[m] == Relinked(o, Ref(b), h)[m]
  {
    hide Lo, Hi;
  }

  /** A node with at most one child is replaced by that child. */
  lemma OneChildAt(o: MCtx, t: MTree, b: MTree, root: MemNode?, h: Heap, h': Heap)
    requires At(o, t, root, h) && t.Node? && (t.l.Leaf? || t.r.Leaf?)
    requires b == if t.l.Node? then t.l else t.r
    requires h' == SetChild(SetParent(h, Ref(b), CtxRef(o)), CtxRef(o), t.n, Ref(b))
    ensures At(o, b, RelinkedRoot(o, Ref(b), root), h')
  {
    hide At, Ordered, OrderedCtx, Linked, LinkedCtx;
    OnlyChild(o, t, b, root, h);
    OpenCtx(o, t, root, h);
    BelowBounds(o, t, root, h);
    OneChildWrites(o, t.n, b, h, h');
    hide Moved, Lo, Hi;
    Rehang(b, Lo(o), Hi(o), t.n, CtxRef(o), h, h');
    Replace(o, t, b, root, h, h');
  }

  // ----- the in-order sequence ---------------------------------------------------------

  lemma {:induction false} SeqSorted(t: MTree, lo: int, hi: int)
    requires Ordered(t, lo, hi)
    ensures forall i :: 0 <= i < |InOrder(t)| ==> lo <= InOrder(t)[i].start < hi
    ensures forall i, j :: 0 <= i < j < |InOrder(t)| ==> InOrder(t)[i].start < InOrder(t)[j].start
  {
    match t
    case Leaf =>
    case Node(l, n, _, r) =>
      SeqSorted(l, lo, n.start); SeqSorted(r, n.start + 1, hi);
  }

  lemma {:induction false} SeqLinked(t: MTree, p: MemNode?, h: Heap)
    requires Linked(t, p, h)
    ensures forall i :: 0 <= i < |InOrder(t)| ==> InOrder(t)[i] in h
  {
    match t
    case Leaf =>
    case Node(l, n, _, r) =>
      SeqLinked(l, n, h); SeqLinked(r, n, h);
  }

  /** The focus on a given node of the sequence, and its position. */
  lemma FocusAt(T: MTree, root: MemNode?, h: Heap, node: MemNode, k: nat) returns (c: MCtx, t: MTree)
    requires At(Top, T, root, h) && k < |InOrder(T)| && InOrder(T)[k] == node
    ensures t.Node? && t.n == node && Plug(c, t) == T && At(c, t, root, h)
    ensures InOrder(T) == Before(c) + InOrder(t.l) + [node] + InOrder(t.r) + After(c)
    ensures k == |Before(c)| + |InOrder(t.l)|
  {
    c, t := Focus(Top, T, node);
    AtPlug(c, t, root, h);
    OrderAround(c, t);
    SeqSorted(T, 0, UINTPTR_MAX + 1);
    var B, L, S := Before(c), InOrder(t.l), InOrder(T);
    hide *;
    assert S[|B| + |L|] == node;
  }

  /** Allocating a node changes nothing in the tree. */
  lemma Grown(c: MCtx, t: MTree, root: MemNode?, h: Heap, h': Heap)
    requires At(c, t, root, h) && forall n :: n in h ==> n in h' && h'[n] == h[n]
    ensures At(c, t, root, h')
  {
    Frame(t, Lo(c), Hi(c), CtxRef(c), h, h');
    FrameCtx(c, Ref(t), root, h, h');
  }

  /** What `__mm_add` writes. */
  ghost function LeafWrites(c: MCtx, n: MemNode, h: Heap): Heap {
    var h1 := if c.InRight? then SetRight(h, CtxRef(c), n) else SetLeft(h, CtxRef(c), n);
    SetColor(SetRight(SetLeft(SetParent(h1, n, CtxRef(c)), n, null), n, null), n, Red)
  }

  /** Hanging a new leaf into an empty hole. */
  lemma LeafAt(c: MCtx, n: MemNode, root: MemNode?, h: Heap)
    requires At(c, Leaf, root, h) && n in h && Lo(c) <= n.start < Hi(c) && !c.Top?
    ensures At(c, Node(Leaf, n, Red, Leaf), root, LeafWrites(c, n, h))
  {
    var h' := LeafWrites(c, n, h);
    assert h'.Keys == h.Keys && h'[n] == Cell(Red, CtxRef(c), null, null);
    assert c.n != n;
    assert forall m :: m in h && m != n ==> h'[m] == Relinked(c, n, h)[m];
    Replace(c, Leaf, Node(Leaf, n, Red, Leaf), root, h, h');
  }

  lemma OneNode(t: MTree, lo: int, hi: int)
    requires t.Node? && t.l.Leaf? && t.r.Leaf? && lo <= t.n.start < hi
    ensures Ordered(t, lo, hi) && InOrder(t.l) == [] && InOrder(t.r) == []
  {
  }

  /** A key that fits into the hole of c stands between Before(c) and After(c). */
  lemma KeyPosition(c: MCtx, n: MemNode)
    requires OrderedCtx(c) && Lo(c) <= n.start < Hi(c)
    ensures forall i :: 0 <= i < |Before(c)| ==> Before(c)[i].start < n.start
    ensures forall i :: 0 <= i < |After(c)| ==> n.start < After(c)[i].start
  {
    var t: MTree := Node(Leaf, n, Red, Leaf);
    hide InOrder, Before, After, Plug, Ordered, OrderedCtx;
    OneNode(t, Lo(c), Hi(c));
    OrderedPlug(c, t);
    SeqSorted(Plug(c, t), 0, UINTPTR_MAX + 1);
    OrderAround(c, t);
    var s, B, A := InOrder(Plug(c, t)), Before(c), After(c);
    assert s == B + [n] + A;
    hide *;
    assert s[|B|] == n;
    assert forall i :: 0 <= i < |A| ==> s[|B| + 1 + i] == A[i];
    assert forall i :: 0 <= i < |B| ==> s[i] == B[i];
  }

  /** Where a new leaf ends up in the sequence, and what is left to repair. */
  lemma LeafPosition(c: MCtx, n: MemNode, k: nat)
    requires OrderedCtx(c) && Lo(c) <= n.start < Hi(c) && RedBlackTree(Plug(c, Leaf))
    requires k <= |InOrder(Plug(c, Leaf))|
    requires forall i :: 0 <= i < k ==> InOrder(Plug(c, Leaf))[i].start < n.start
    requires forall i :: k <= i < |InOrder(Plug(c, Leaf))| ==> n.start < InOrder(Plug(c, Leaf))[i].start
    ensures var s, t := InOrder(Plug(c, Leaf)), Node(Leaf, n, Red, Leaf);
      InsertState(c, t) && InOrder(Plug(c, t)) == s[..k] + [n] + s[k..]
  {
    BalancedPlug(c, Leaf);
    assert InsertState(c, Node(Leaf, n, Red, Leaf));
    hide *;
    KeyPosition(c, n);
    LeafOrder(c, n);
    SplitAt(Before(c), After(c), InOrder(Plug(c, Leaf)), n, k);
  }

  lemma LeafOrder(c: MCtx, n: MemNode)
    ensures InOrder(Plug(c, Leaf)) == Before(c) + After(c)
    ensures InOrder(Plug(c, Node(Leaf, n, Red, Leaf))) == Before(c) + [n] + After(c)
  {
    var t: MTree := Node(Leaf, n, Red, Leaf);
    assert InOrder<MemNode>(Leaf) == [] && InOrder(t.l) == [] && InOrder(t.r) == [] && t.n == n;
    hide Plug, Before, After, InOrder;
    InOrderPlug(c, Leaf);
    OrderAround(c, t);
  }

  lemma SplitAt(b: seq<MemNode>, a: seq<MemNode>, s: seq<MemNode>, n: MemNode, k: nat)
    requires s == b + a && k <= |s|
    requires forall i :: 0 <= i < k ==> s[i].start < n.start
    requires forall i :: k <= i < |s| ==> n.start < s[i].start
    requires forall i :: 0 <= i < |b| ==> b[i].start < n.start
    requires forall i :: 0 <= i < |a| ==> n.start < a[i].start
    ensures s[..k] == b && s[k..] == a
  {
    forall i | 0 <= i < |b| ensures i < k && s[i] == b[i] { assert s[i] == b[i]; }
    forall i | 0 <= i < |a| ensures k <= |b| + i && s[|b| + i] == a[i] { assert s[|b| + i] == a[i]; }
    assert |b| > 0 ==> s[|b| - 1] == b[|b| - 1];
    assert |a| > 0 ==> s[|b|] == a[0];
  }
}
