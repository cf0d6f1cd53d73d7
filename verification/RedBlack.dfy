/** Red-black trees as values: shapes, zipper contexts, the colour rules, and what one step of the
    insertion and deletion repairs does to them.  Nothing here touches the heap; the module
    `MemTree` shows that the pointer code performs exactly these steps. */
module RedBlack {
  import opened Arith

  datatype Color = Red | Black

  datatype Tree<N> = Leaf | Node(l: Tree<N>, n: N, c: Color, r: Tree<N>)

  /** A tree with one subtree cut out: the path from the hole up to the root. */
  datatype Ctx<N> =
    | Top
    | InLeft(n: N, c: Color, r: Tree<N>, up: Ctx<N>)   // the hole is the left child of n
    | InRight(l: Tree<N>, n: N, c: Color, up: Ctx<N>)  // the hole is the right child of n

  // ----- contents ----------------------------------------------------------------------

  ghost function InOrder<N>(t: Tree<N>): seq<N> {
    match t
    case Leaf => []
    case Node(l, n, _, r) => InOrder(l) + [n] + InOrder(r)
  }

  /** The nodes that precede the hole in order. */
  ghost function Before<N>(c: Ctx<N>): seq<N> {
    match c
    case Top => []
    case InLeft(_, _, _, up) => Before(up)
    case InRight(l, n, _, up) => Before(up) + InOrder(l) + [n]
  }

  /** The nodes that follow the hole in order. */
  ghost function After<N>(c: Ctx<N>): seq<N> {
    match c
    case Top => []
    case InLeft(n, _, r, up) => [n] + InOrder(r) + After(up)
    case InRight(_, _, _, up) => After(up)
  }

  ghost function Plug<N>(c: Ctx<N>, t: Tree<N>): Tree<N> {
    match c
    case Top => t
    case InLeft(n, col, r, up) => Plug(up, Node(t, n, col, r))
    case InRight(l, n, col, up) => Plug(up, Node(l, n, col, t))
  }

  ghost function Depth<N>(c: Ctx<N>): nat {
    if c.Top? then 0 else 1 + Depth(c.up)
  }

  lemma {:induction false} InOrderPlug<N>(c: Ctx<N>, t: Tree<N>)
    ensures InOrder(Plug(c, t)) == Before(c) + InOrder(t) + After(c)
    decreases c
  {
    match c
    case Top =>
    case InLeft(n, col, r, up) =>
      InOrderPlug(up, Node(t, n, col, r));
    case InRight(l, n, col, up) =>
      InOrderPlug(up, Node(l, n, col, t));
  }

  /** Every node of a tree is the root of some subtree. */
  lemma {:induction false} Focus<N>(c0: Ctx<N>, t0: Tree<N>, n: N) returns (c: Ctx<N>, t: Tree<N>)
    requires n in InOrder(t0)
    ensures t.Node? && t.n == n && Plug(c, t) == Plug(c0, t0)
    decreases t0
  {
    if n == t0.n {
      c, t := c0, t0;
    } else if n in InOrder(t0.l) {
      c, t := Focus(InLeft(t0.n, t0.c, t0.r, c0), t0.l, n);
    } else {
      c, t := Focus(InRight(t0.l, t0.n, t0.c, c0), t0.r, n);
    }
  }

  // ----- the colour rules --------------------------------------------------------------

  function Weight(c: Color): nat { if c.Black? then 1 else 0 }

  /** Black nodes on the leftmost path. */
  ghost function BlackHeight<N>(t: Tree<N>): nat {
    if t.Leaf? then 0 else BlackHeight(t.l) + Weight(t.c)
  }

  ghost predicate IsBlack<N>(t: Tree<N>) { t.Leaf? || t.c.Black? }

  /** No red node has a red child, and all paths down carry equally many black nodes. */
  ghost predicate Balanced<N>(t: Tree<N>) {
    match t
    case Leaf => true
    case Node(l, _, c, r) =>
      Balanced(l) && Balanced(r) && BlackHeight(l) == BlackHeight(r) &&
      (c.Red? ==> IsBlack(l) && IsBlack(r))
  }

  ghost predicate RedBlackTree<N>(t: Tree<N>) { Balanced(t) && IsBlack(t) }

  /** A red tree may be put into the hole. */
  ghost predicate AdmitsRed<N>(c: Ctx<N>) { !c.Top? && c.c.Black? }

  /** The context follows the colour rules around a hole of black height h. */
  ghost predicate CtxBalanced<N>(c: Ctx<N>, h: nat) {
    match c
    case Top => true
    case InLeft(_, col, r, up) =>
      Balanced(r) && BlackHeight(r) == h && (col.Red? ==> IsBlack(r) && AdmitsRed(up)) &&
      CtxBalanced(up, h + Weight(col))
    case InRight(l, _, col, up) =>
      Balanced(l) && BlackHeight(l) == h && (col.Red? ==> IsBlack(l) && AdmitsRed(up)) &&
      CtxBalanced(up, h + Weight(col))
  }

  /** Splitting a red-black tree at a hole loses nothing: the whole follows the rules exactly when
      the part and its context do. */
  lemma {:induction false} BalancedPlug<N>(c: Ctx<N>, t: Tree<N>)
    ensures RedBlackTree(Plug(c, t)) <==>
            CtxBalanced(c, BlackHeight(t)) && Balanced(t) && (IsBlack(t) || AdmitsRed(c))
    decreases c
  {
    match c
    case Top =>
    case InLeft(n, col, r, up) => BalancedPlug(up, Node(t, n, col, r));
    case InRight(l, n, col, up) => BalancedPlug(up, Node(l, n, col, t));
  }

  // ----- repairing an insertion --------------------------------------------------------

  /** One level of Plug. */
  ghost function Zip<N>(c: Ctx<N>, t: Tree<N>): Tree<N>
    requires !c.Top?
  {
    if c.InLeft? then Node(t, c.n, c.c, c.r) else Node(c.l, c.n, c.c, t)
  }

  /** All rules hold except that the red tree in focus may hang below a red node (or be the root). */
  ghost predicate InsertState<N>(c: Ctx<N>, t: Tree<N>) {
    t.Node? && t.c.Red? && Balanced(t) && CtxBalanced(c, BlackHeight(t))
  }

  lemma PlugSameOrder<N>(c: Ctx<N>, t: Tree<N>, t': Tree<N>)
    requires InOrder(t) == InOrder(t')
    ensures InOrder(Plug(c, t)) == InOrder(Plug(c, t'))
  {
    InOrderPlug(c, t); InOrderPlug(c, t');
  }

  /** A red parent is not the root, and its own parent is black. */
  lemma InsertGrandparent<N>(c: Ctx<N>, t: Tree<N>)
    requires InsertState(c, t) && !c.Top? && c.c.Red?
    ensures !c.up.Top? && c.up.c.Black?
  {
  }

  /** Red uncle: the red moves two levels up. */
  lemma InsertRecolor<N>(c: Ctx<N>, t: Tree<N>, t': Tree<N>)
    requires InsertState(c, t) && !c.Top? && c.c.Red? && !c.up.Top?
    requires var z := Zip(c, t); var p := Node(z.l, z.n, Black, z.r);
      if c.up.InLeft?
      then c.up.r.Node? && c.up.r.c.Red? && t' == Node(p, c.up.n, Red, c.up.r.(c := Black))
      else c.up.l.Node? && c.up.l.c.Red? && t' == Node(c.up.l.(c := Black), c.up.n, Red, p)
    ensures InsertState(c.up.up, t') && InOrder(Plug(c.up.up, t')) == InOrder(Plug(c, t))
  {
    var z := Zip(c, t);
    assert CtxBalanced(c.up, BlackHeight(t));
    assert Balanced(if c.up.InLeft? then c.up.r else c.up.l);
    assert Balanced(Node(z.l, z.n, Black, z.r));
    assert InOrder(z) == InOrder(Node(z.l, z.n, Black, z.r));
    PlugSameOrder(c.up.up, t', Zip(c.up, z));
  }

  lemma Reassociate<N>(x: Tree<N>, q: N, y: Tree<N>, g: N, u: Tree<N>, c1: Color, c2: Color, c3: Color, c4: Color)
    ensures InOrder(Node(Node(x, q, c1, y), g, c2, u)) == InOrder(Node(x, q, c3, Node(y, g, c4, u)))
  {
    assert InOrder(Node(x, q, c1, y)) == InOrder(x) + [q] + InOrder(y);
    assert InOrder(Node(y, g, c4, u)) == InOrder(y) + [g] + InOrder(u);
  }

  /** Black uncle: one or two rotations finish the repair.  x, q, y, g, u stand in order; q ends on top. */
  lemma InsertRotateLeft<N>(c: Ctx<N>, t: Tree<N>, x: Tree<N>, q: N, y: Tree<N>)
    requires InsertState(c, t) && !c.Top? && c.c.Red? && c.up.InLeft? && IsBlack(c.up.r)
    requires if c.InLeft? then x == t && q == c.n && y == c.r
             else x == Node(c.l, c.n, Red, t.l) && q == t.n && y == t.r
    ensures var c' := InLeft(q, Black, Node(y, c.up.n, Red, c.up.r), c.up.up);
      InsertState(c', x) && InOrder(Plug(c', x)) == InOrder(Plug(c, t))
  {
    var g, u, up := c.up.n, c.up.r, c.up.up;
    assert CtxBalanced(c.up, BlackHeight(t));
    assert Balanced(t.l) && Balanced(t.r) && Balanced(x) && Balanced(y);
    if c.InRight? { Reassociate(c.l, c.n, t.l, t.n, t.r, Red, Red, Red, Red); }
    var z := Zip(c, t);
    assert InOrder(z) == InOrder(Node(x, q, Black, y));
    assert InOrder(Node(z, g, Black, u)) == InOrder(Node(Node(x, q, Black, y), g, Black, u));
    Reassociate(x, q, y, g, u, Black, Black, Black, Red);
    PlugSameOrder(up, Node(z, g, Black, u), Node(x, q, Black, Node(y, g, Red, u)));
  }

  lemma InsertRotateRight<N>(c: Ctx<N>, t: Tree<N>, y: Tree<N>, q: N, x: Tree<N>)
    requires InsertState(c, t) && !c.Top? && c.c.Red? && c.up.InRight? && IsBlack(c.up.l)
    requires if c.InRight? then x == t && q == c.n && y == c.l
             else x == Node(t.r, c.n, Red, c.r) && q == t.n && y == t.l
    ensures var c' := InRight(Node(c.up.l, c.up.n, Red, y), q, Black, c.up.up);
      InsertState(c', x) && InOrder(Plug(c', x)) == InOrder(Plug(c, t))
  {
    var g, u, up := c.up.n, c.up.l, c.up.up;
    assert CtxBalanced(c.up, BlackHeight(t));
    assert Balanced(t.l) && Balanced(t.r) && Balanced(x) && Balanced(y);
    if c.InLeft? { Reassociate(t.l, t.n, t.r, c.n, c.r, Red, Red, Red, Red); }
    var z := Zip(c, t);
    assert InOrder(z) == InOrder(Node(y, q, Black, x));
    assert InOrder(Node(u, g, Black, z)) == InOrder(Node(u, g, Black, Node(y, q, Black, x)));
    Reassociate(u, g, y, q, x, Red, Black, Black, Black);
    PlugSameOrder(up, Node(u, g, Black, z), Node(Node(u, g, Red, y), q, Black, x));
  }

  /** The loop's exit: painting the root black restores every rule. */
  lemma InsertDone<N>(c: Ctx<N>, t: Tree<N>)
    requires InsertState(c, t) && (c.Top? || c.c.Black?)
    ensures var T := Plug(c, t);
      T.Node? && RedBlackTree(T.(c := Black)) && InOrder(T.(c := Black)) == InOrder(T)
  {
    if c.Top? {
      assert t.(c := Black) == Node(t.l, t.n, Black, t.r);
    } else {
      BalancedPlug(c, t);
      InOrderPlug(c, t);
    }
  }

  // ----- repairing a deletion ----------------------------------------------------------

  ghost function Blacken<N>(t: Tree<N>): Tree<N> {
    if t.Leaf? then t else Node(t.l, t.n, Black, t.r)
  }

  /** All rules hold except that every path through the tree in focus is one black node short, and
      that its root may be a red node with a red child. */
  ghost predicate DeleteState<N>(c: Ctx<N>, t: Tree<N>) {
    Balanced(Blacken(t)) && CtxBalanced(c, BlackHeight(t) + 1)
  }

  /** The sibling exists, and it has children unless it is black. */
  lemma DeleteSibling<N>(c: Ctx<N>, t: Tree<N>)
    requires DeleteState(c, t) && !c.Top?
    ensures var s := if c.InLeft? then c.r else c.l;
      s.Node? && (s.c.Red? ==> s.l.Node? && s.l.c.Black? && s.r.Node? && s.r.c.Black?)
  {
    var s := if c.InLeft? then c.r else c.l;
    assert Balanced(s) && BlackHeight(s) == BlackHeight(t) + 1;
    if s.c.Red? { assert BlackHeight(s.l) == BlackHeight(s.r) == BlackHeight(t) + 1; }
  }

  /** Red sibling: one rotation gives the focus a black sibling and a red parent. */
  lemma DeleteRedSibling<N>(c: Ctx<N>, t: Tree<N>)
    requires DeleteState(c, t) && !c.Top? && IsBlack(t)
    requires var s := if c.InLeft? then c.r else c.l; s.Node? && s.c.Red?
    ensures var c' :=
        if c.InLeft? then InLeft(c.n, Red, c.r.l, InLeft(c.r.n, Black, c.r.r, c.up))
        else InRight(c.l.r, c.n, Red, InRight(c.l.l, c.l.n, Black, c.up));
      DeleteState(c', t) && InOrder(Plug(c', t)) == InOrder(Plug(c, t))
  {
    DeleteSibling(c, t);
    if c.InLeft? {
      Reassociate(t, c.n, c.r.l, c.r.n, c.r.r, Red, Black, c.c, Red);
      PlugSameOrder(c.up, Zip(c, t), Node(Node(t, c.n, Red, c.r.l), c.r.n, Black, c.r.r));
    } else {
      Reassociate(c.l.l, c.l.n, c.l.r, c.n, t, Red, c.c, Black, Red);
      PlugSameOrder(c.up, Zip(c, t), Node(c.l.l, c.l.n, Black, Node(c.l.r, c.n, Red, t)));
    }
  }

  /** Black sibling with black children: painting it red moves the shortage one level up. */
  lemma DeleteRecolor<N>(c: Ctx<N>, t: Tree<N>, s: Tree<N>, t': Tree<N>)
    requires DeleteState(c, t) && !c.Top? && IsBlack(t)
    requires s == if c.InLeft? then c.r else c.l
    requires s.Node? && s.c.Black? && IsBlack(s.l) && IsBlack(s.r)
    requires var s' := Node(s.l, s.n, Red, s.r);
      t' == if c.InLeft? then Node(t, c.n, c.c, s') else Node(s', c.n, c.c, t)
    ensures DeleteState(c.up, t') && InOrder(Plug(c.up, t')) == InOrder(Plug(c, t))
  {
    assert InOrder(s) == InOrder(Node(s.l, s.n, Red, s.r));
    assert Balanced(Node(s.l, s.n, Red, s.r));
    PlugSameOrder(c.up, t', Zip(c, t));
  }

  /** Black sibling with a red child: one or two rotations finish the repair. */
  lemma DeleteRotateLeft<N>(c: Ctx<N>, t: Tree<N>, b: Tree<N>, q: N, far: Tree<N>)
    requires DeleteState(c, t) && c.InLeft? && IsBlack(t) && c.r.Node? && c.r.c.Black?
    requires if c.r.r.Node? && c.r.r.c.Red?
      then b == c.r.l && q == c.r.n && far == Blacken(c.r.r)
      else c.r.l.Node? && c.r.l.c.Red? && b == c.r.l.l && q == c.r.l.n && far == Node(c.r.l.r, c.r.n, Black, c.r.r)
    ensures var T := Plug(c.up, Node(Node(t, c.n, Black, b), q, c.c, far));
      RedBlackTree(T) && InOrder(T) == InOrder(Plug(c, t))
  {
    var s, n := c.r, c.n;
    assert Balanced(s.l) && Balanced(s.r);
    var N1 := Node(t, n, Black, b);
    var T := Node(N1, q, c.c, far);
    assert Balanced(b) && Balanced(far) && BlackHeight(b) == BlackHeight(t) && BlackHeight(far) == BlackHeight(t) + 1;
    assert t.Node? ==> t == Blacken(t);
    assert Balanced(N1) && BlackHeight(N1) == BlackHeight(t) + 1;
    assert BlackHeight(T) == BlackHeight(t) + 1 + Weight(c.c);
    assert Balanced(T) && CtxBalanced(c.up, BlackHeight(T)) && (c.c.Red? ==> AdmitsRed(c.up));
    if s.r.Node? && s.r.c.Red? {
      assert InOrder(s) == InOrder(Node(b, q, Black, far));
    } else {
      Reassociate(b, q, s.l.r, s.n, s.r, Red, Black, Black, Black);
      assert InOrder(s) == InOrder(Node(Node(b, q, Red, s.l.r), s.n, Black, s.r));
    }
    assert InOrder(Zip(c, t)) == InOrder(Node(t, n, c.c, Node(b, q, Black, far)));
    Reassociate(t, n, b, q, far, Black, c.c, c.c, Black);
    BalancedPlug(c.up, T);
    PlugSameOrder(c.up, Zip(c, t), T);
  }

  lemma DeleteRotateRight<N>(c: Ctx<N>, t: Tree<N>, far: Tree<N>, q: N, b: Tree<N>)
    requires DeleteState(c, t) && c.InRight? && IsBlack(t) && c.l.Node? && c.l.c.Black?
    requires if c.l.l.Node? && c.l.l.c.Red?
      then b == c.l.r && q == c.l.n && far == Blacken(c.l.l)
      else c.l.r.Node? && c.l.r.c.Red? && b == c.l.r.r && q == c.l.r.n && far == Node(c.l.l, c.l.n, Black, c.l.r.l)
    ensures var T := Plug(c.up, Node(far, q, c.c, Node(b, c.n, Black, t)));
      RedBlackTree(T) && InOrder(T) == InOrder(Plug(c, t))
  {
    var s, n := c.l, c.n;
    assert Balanced(s.l) && Balanced(s.r);
    var N1 := Node(b, n, Black, t);
    var T := Node(far, q, c.c, N1);
    assert Balanced(b) && Balanced(far) && BlackHeight(b) == BlackHeight(t) && BlackHeight(far) == BlackHeight(t) + 1;
    assert t.Node? ==> t == Blacken(t);
    assert Balanced(N1) && BlackHeight(N1) == BlackHeight(t) + 1;
    assert BlackHeight(T) == BlackHeight(t) + 1 + Weight(c.c);
    assert Balanced(T) && CtxBalanced(c.up, BlackHeight(T)) && (c.c.Red? ==> AdmitsRed(c.up));
    if s.l.Node? && s.l.c.Red? {
      assert InOrder(s) == InOrder(Node(far, q, Black, b));
    } else {
      Reassociate(s.l, s.n, s.r.l, q, b, Black, Black, Black, Red);
      assert InOrder(s) == InOrder(Node(s.l, s.n, Black, Node(s.r.l, q, Red, b)));
    }
    assert InOrder(Zip(c, t)) == InOrder(Node(Node(far, q, Black, b), n, c.c, t));
    Reassociate(far, q, b, n, t, Black, c.c, c.c, Black);
    BalancedPlug(c.up, T);
    PlugSameOrder(c.up, Zip(c, t), T);
  }

  /** The loop's exit: painting the focus black makes up for the missing black node. */
  lemma DeleteDone<N>(c: Ctx<N>, t: Tree<N>)
    requires DeleteState(c, t) && (c.Top? || !IsBlack(t))
    ensures var T := Plug(c, Blacken(t));
      RedBlackTree(T) && InOrder(T) == InOrder(Plug(c, t))
  {
    BalancedPlug(c, Blacken(t));
    PlugSameOrder(c, t, Blacken(t));
  }

  // ----- replacing a node by its predecessor -------------------------------------------

  ghost predicate AllRight<N>(c: Ctx<N>) { c.Top? || (c.InRight? && AllRight(c.up)) }

  /** The context i, continued by o. */
  ghost function Graft<N>(i: Ctx<N>, o: Ctx<N>): Ctx<N> {
    match i
    case Top => o
    case InLeft(n, c, r, up) => InLeft(n, c, r, Graft(up, o))
    case InRight(l, n, c, up) => InRight(l, n, c, Graft(up, o))
  }

  /** Walking one step to the right inside a tree, seen from the hole's context. */
  lemma StepRight<N>(i: Ctx<N>, o: Ctx<N>, t: Tree<N>)
    requires t.Node? && AllRight(i)
    ensures var i' := InRight(t.l, t.n, t.c, i);
      AllRight(i') && Plug(i', t.r) == Plug(i, t) && Graft(i', o) == InRight(t.l, t.n, t.c, Graft(i, o))
  {
  }

  /** One step down from the focus. */
  lemma Descend<N>(c: Ctx<N>, t: Tree<N>, T: Tree<N>)
    requires Plug(c, t) == T && t.Node?
    ensures Plug(InRight(t.l, t.n, t.c, c), t.r) == T && Plug(InLeft(t.n, t.c, t.r, c), t.l) == T
  {
  }

  /** One step up. */
  lemma Ascend<N>(c: Ctx<N>, t: Tree<N>)
    requires !c.Top?
    ensures Plug(c.up, Zip(c, t)) == Plug(c, t) && Depth(c) == Depth(c.up) + 1
  {
  }

  lemma EmptyLeaf<N>(t: Tree<N>)
    ensures t.Leaf? <==> InOrder(t) == []
  {
  }

  lemma {:induction false} PlugGraft<N>(i: Ctx<N>, o: Ctx<N>, t: Tree<N>)
    ensures Plug(Graft(i, o), t) == Plug(o, Plug(i, t))
    decreases i
  {
    if !i.Top? { PlugGraft(i.up, o, Zip(i, t)); }
  }

  lemma {:induction false} NothingAfter<N>(i: Ctx<N>)
    requires AllRight(i)
    ensures After(i) == []
    decreases i
  {
    if !i.Top? { NothingAfter(i.up); }
  }

  /** The colour rules do not look at which node carries the colours. */
  lemma {:induction false} SwapBalanced<N>(i: Ctx<N>, n: N, m: N, c: Color, r: Tree<N>, o: Ctx<N>, h: nat)
    requires CtxBalanced(Graft(i, InLeft(n, c, r, o)), h)
    ensures CtxBalanced(Graft(i, InLeft(m, c, r, o)), h)
    ensures AdmitsRed(Graft(i, InLeft(n, c, r, o))) <==> AdmitsRed(Graft(i, InLeft(m, c, r, o)))
    decreases i
  {
    if !i.Top? { SwapBalanced(i.up, n, m, c, r, o, h + Weight(i.c)); }
  }

  /** The predecessor m of n leaves its place and takes over the place and the colour of n: n is the
      only node that is gone, and only m's old colour can be missed. */
  lemma PredecessorMoved<N>(i: Ctx<N>, n: N, m: N, c: Color, l: Tree<N>, r: Tree<N>, o: Ctx<N>, b: Tree<N>, pc: Color)
    requires AllRight(i) && l == Plug(i, Node(b, m, pc, Leaf))
    requires RedBlackTree(Plug(o, Node(l, n, c, r)))
    ensures var c' := Graft(i, InLeft(m, c, r, o));
      if pc.Red? then RedBlackTree(Plug(c', b)) else DeleteState(c', b)
    ensures InOrder(Plug(Graft(i, InLeft(m, c, r, o)), b)) == Before(o) + InOrder(l) + InOrder(r) + After(o)
  {
    var t := Node(b, m, pc, Leaf);
    var c0, c' := Graft(i, InLeft(n, c, r, o)), Graft(i, InLeft(m, c, r, o));
    PlugGraft(i, InLeft(n, c, r, o), t);
    BalancedPlug(c0, t);
    SwapBalanced(i, n, m, c, r, o, BlackHeight(t));
    BalancedPlug(c', b);
    assert b.Node? ==> Blacken(b) == Node(b.l, b.n, Black, b.r);
    PredecessorOrder(i, m, c, r, o, b, pc);
  }

  lemma PredecessorOrder<N>(i: Ctx<N>, m: N, c: Color, r: Tree<N>, o: Ctx<N>, b: Tree<N>, pc: Color)
    requires AllRight(i)
    ensures InOrder(Plug(Graft(i, InLeft(m, c, r, o)), b)) ==
            Before(o) + InOrder(Plug(i, Node(b, m, pc, Leaf))) + InOrder(r) + After(o)
  {
    PlugGraft(i, InLeft(m, c, r, o), b);
    InOrderPlug(o, Node(Plug(i, b), m, c, r));
    SpineOrder(i, b, m, pc);
  }

  lemma SpineOrder<N>(i: Ctx<N>, b: Tree<N>, m: N, pc: Color)
    requires AllRight(i)
    ensures InOrder(Plug(i, Node(b, m, pc, Leaf))) == InOrder(Plug(i, b)) + [m]
  {
    NothingAfter(i);
    InOrderPlug(i, Node(b, m, pc, Leaf)); InOrderPlug(i, b);
    assert InOrder(Node(b, m, pc, Leaf)) == InOrder(b) + [m];
  }

  /** A node with at most one child is replaced by that child. */
  lemma OneChildMoved<N>(o: Ctx<N>, t: Tree<N>, b: Tree<N>)
    requires RedBlackTree(Plug(o, t)) && t.Node? && (t.l.Leaf? || t.r.Leaf?)
    requires b == if t.l.Node? then t.l else t.r
    ensures if t.c.Red? then RedBlackTree(Plug(o, b)) else DeleteState(o, b)
    ensures InOrder(Plug(o, b)) == Before(o) + InOrder(t.l) + InOrder(t.r) + After(o)
  {
    hide InOrder, Before, After, Plug;
    OneChildOrder(o, t, b);
    BalancedPlug(o, t);
    BalancedPlug(o, b);
    assert Balanced(b);
    assert b.Node? ==> Balanced(Blacken(b));
  }

  lemma OneChildOrder<N>(o: Ctx<N>, t: Tree<N>, b: Tree<N>)
    requires t.Node? && (t.l.Leaf? || t.r.Leaf?) && b == if t.l.Node? then t.l else t.r
    ensures InOrder(Plug(o, b)) == Before(o) + InOrder(t.l) + InOrder(t.r) + After(o)
  {
    InOrderPlug(o, b);
    if t.l.Node? {
      assert Before(o) + InOrder(t.l) + [] == Before(o) + InOrder(t.l);
    } else {
      assert Before(o) + [] == Before(o);
    }
  }

  /** The sequence around a node in focus. */
  lemma OrderAround<N>(c: Ctx<N>, t: Tree<N>)
    requires t.Node?
    ensures InOrder(Plug(c, t)) == Before(c) + InOrder(t.l) + [t.n] + InOrder(t.r) + After(c)
  {
    InOrderPlug(c, t);
    assert InOrder(t) == InOrder(t.l) + [t.n] + InOrder(t.r);
    Flatten(Before(c), InOrder(t.l), t.n, InOrder(t.r), After(c));
  }

  /** The same, by position. */
  lemma PositionOf<N>(c: Ctx<N>, t: Tree<N>)
    requires t.Node?
    ensures var s, k := InOrder(Plug(c, t)), |Before(c)| + |InOrder(t.l)|;
      k < |s| && s[k] == t.n && |s| == |Before(c)| + |InOrder(t)| + |After(c)| &&
      |InOrder(t)| == |InOrder(t.l)| + 1 + |InOrder(t.r)|
  {
    OrderAround(c, t);
  }

  /** The sequence right after and right before a subtree, read off its context. */
  lemma Around<N>(c: Ctx<N>, t: Tree<N>)
    ensures var s, e := InOrder(Plug(c, t)), |Before(c)| + |InOrder(t)|;
      |s| == e + |After(c)| && (c.Top? ==> |Before(c)| == |After(c)| == 0) &&
      (c.InLeft? ==>
         e < |s| && s[e] == c.n && Before(c.up) == Before(c) &&
         |InOrder(Zip(c, t))| == |InOrder(t)| + 1 + |InOrder(c.r)|) &&
      (c.InRight? ==> |Before(c)| == |Before(c.up)| + |InOrder(c.l)| + 1 && s[|Before(c)| - 1] == c.n) &&
      (c.InRight? ==> |InOrder(Zip(c, t))| == |InOrder(c.l)| + 1 + |InOrder(t)|)
  {
    InOrderPlug(c, t);
    hide Plug;
    var s := InOrder(Plug(c, t));
    assert c.InLeft? ==> After(c)[0] == c.n;
    assert c.InRight? ==> Before(c)[|Before(c)| - 1] == c.n;
  }

  lemma Flatten<N>(b: seq<N>, l: seq<N>, n: N, r: seq<N>, a: seq<N>)
    ensures b + (l + [n] + r) + a == b + l + [n] + r + a
  {
  }

  lemma BlackenedRoot<N>(t: Tree<N>)
    requires RedBlackTree(t)
    ensures Blacken(t) == t
  {
  }

  // ----- height ------------------------------------------------------------------------

  ghost function Height<N>(t: Tree<N>): nat {
    match t
    case Leaf => 0
    case Node(l, _, _, r) => 1 + if Height(l) < Height(r) then Height(r) else Height(l)
  }

  lemma {:induction false} HeightBlackHeight<N>(t: Tree<N>)
    requires Balanced(t)
    ensures Height(t) <= 2 * BlackHeight(t) + (if IsBlack(t) then 0 else 1)
    ensures Pow2(BlackHeight(t)) <= |InOrder(t)| + 1
  {
    match t
    case Leaf =>
    case Node(l, _, _, r) => HeightBlackHeight(l); HeightBlackHeight(r);
  }

  /** A red-black tree of size n has height at most 2*log2(n+1). */
  lemma {:induction false} LogarithmicHeight<N>(t: Tree<N>)
    requires RedBlackTree(t)
    ensures Pow2((Height(t) + 1) / 2) <= |InOrder(t)| + 1
  {
    HeightBlackHeight(t);
    PowerMonotone((Height(t) + 1) / 2, BlackHeight(t));
  }
}
