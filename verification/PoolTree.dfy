/**
 The size tree of the pool allocator: block headers linked by left, right and parent
 pointers, read as a binary search tree on block size, with the context of a subtree.
 */
module PoolTree {

  type Addr = nat
  const NIL: Addr := 0

  datatype Magic = MagicA | MagicF | MagicE | MagicI | NoMagic

  datatype Bhdr = Bhdr(magic: Magic, size: nat, left: Addr, right: Addr, parent: Addr, fwd: Addr, prev: Addr)

  type Heap = map<Addr, Bhdr>

  datatype Tree = Leaf | Node(l: Tree, a: Addr, r: Tree)

  /** A tree with a hole in it. */
  datatype Ctx = Top | InLeft(up: Ctx, a: Addr, r: Tree) | InRight(up: Ctx, l: Tree, a: Addr)

  ghost function Nodes(t: Tree): set<Addr> {
    match t
    case Leaf => {}
    case Node(l, a, r) => Nodes(l) + {a} + Nodes(r)
  }

  ghost function CtxNodes(c: Ctx): set<Addr> {
    match c
    case Top => {}
    case InLeft(up, a, r) => CtxNodes(up) + {a} + Nodes(r)
    case InRight(up, l, a) => CtxNodes(up) + {a} + Nodes(l)
  }

  ghost function Plug(c: Ctx, t: Tree): Tree {
    match c
    case Top => t
    case InLeft(up, a, r) => Plug(up, Node(t, a, r))
    case InRight(up, l, a) => Plug(up, Node(l, a, t))
  }

  lemma {:induction false} PlugNodes(c: Ctx, t: Tree)
    ensures Nodes(Plug(c, t)) == CtxNodes(c) + Nodes(t)
  {
    match c
    case Top =>
    case InLeft(up, a, r) => PlugNodes(up, Node(t, a, r));
    case InRight(up, l, a) => PlugNodes(up, Node(l, a, t));
  }

  // ----- trees and contexts in a heap

  /** From x, whose parent is p, the links of h spell out t. */
  ghost predicate IsTree(h: Heap, x: Addr, p: Addr, t: Tree)
    decreases t
  {
    match t
    case Leaf => x == NIL
    case Node(l, a, r) =>
      && x == a != NIL && a in h && h[a].parent == p
      && IsTree(h, h[a].left, a, l) && IsTree(h, h[a].right, a, r)
  }

  /** From root, whose parent is rp, the links of h spell out c around pointer x of parent p. */
  ghost predicate IsCtx(h: Heap, c: Ctx, root: Addr, rp: Addr, p: Addr, x: Addr) {
    match c
    case Top => root == x && p == rp
    case InLeft(up, a, r) =>
      && p == a != NIL && a in h && h[a].left == x
      && IsTree(h, h[a].right, a, r) && IsCtx(h, up, root, rp, h[a].parent, a)
    case InRight(up, l, a) =>
      && p == a != NIL && a in h && h[a].right == x
      && IsTree(h, h[a].left, a, l) && IsCtx(h, up, root, rp, h[a].parent, a)
  }

  lemma {:induction false} PlugIsTree(h: Heap, c: Ctx, root: Addr, rp: Addr, p: Addr, x: Addr, t: Tree)
    requires IsCtx(h, c, root, rp, p, x) && IsTree(h, x, p, t)
    ensures IsTree(h, root, rp, Plug(c, t))
  {
    match c
    case Top =>
    case InLeft(up, a, r) => PlugIsTree(h, up, root, rp, h[a].parent, a, Node(t, a, r));
    case InRight(up, l, a) => PlugIsTree(h, up, root, rp, h[a].parent, a, Node(l, a, t));
  }

  /** Every node of a tree is the root of a subtree in a context. */
  lemma {:induction false} FindCtx(h: Heap, c: Ctx, root: Addr, rp: Addr, p: Addr, x: Addr, t: Tree, a: Addr)
    returns (c': Ctx, l: Tree, r: Tree)
    requires IsCtx(h, c, root, rp, p, x) && IsTree(h, x, p, t) && a in Nodes(t)
    ensures a in h && IsCtx(h, c', root, rp, h[a].parent, a) && IsTree(h, a, h[a].parent, Node(l, a, r))
    ensures Plug(c', Node(l, a, r)) == Plug(c, t)
    decreases t
  {
    if a == t.a {
      c', l, r := c, t.l, t.r;
    } else if a in Nodes(t.l) {
      c', l, r := FindCtx(h, InLeft(c, t.a, t.r), root, rp, t.a, h[t.a].left, t.l, a);
    } else {
      c', l, r := FindCtx(h, InRight(c, t.l, t.a), root, rp, t.a, h[t.a].right, t.r, a);
    }
  }

  predicate SameLinks(h: Heap, h': Heap, a: Addr) {
    a in h && a in h' && h'[a].left == h[a].left && h'[a].right == h[a].right && h'[a].parent == h[a].parent
  }

  lemma {:induction false} TreeFrame(h: Heap, h': Heap, x: Addr, p: Addr, t: Tree)
    requires IsTree(h, x, p, t) && forall a :: a in Nodes(t) ==> SameLinks(h, h', a)
    ensures IsTree(h', x, p, t)
    decreases t
  {
    match t
    case Leaf =>
    case Node(l, a, r) =>
      assert SameLinks(h, h', a);
      TreeFrame(h, h', h[a].left, a, l);
      TreeFrame(h, h', h[a].right, a, r);
  }

  /** Only the parent pointer of the root is new. */
  lemma Reparent(h: Heap, h': Heap, x: Addr, p: Addr, p': Addr, t: Tree)
    requires IsTree(h, x, p, t) && (t.Node? ==> t.a !in Nodes(t.l) + Nodes(t.r))
    requires forall a :: a in Nodes(t) && a != x ==> SameLinks(h, h', a)
    requires x != NIL ==> x in h' && h'[x].left == h[x].left && h'[x].right == h[x].right && h'[x].parent == p'
    ensures IsTree(h', x, p', t)
  {
    if t.Node? {
      TreeFrame(h, h', h[x].left, x, t.l);
      TreeFrame(h, h', h[x].right, x, t.r);
    }
  }

  /** Node b is node a with its pointer to the hole redirected to x'. */
  ghost predicate Relinked(h: Heap, h': Heap, c: Ctx, x': Addr) {
    match c
    case Top => true
    case InLeft(_, a, _) => a in h && a in h' && h'[a].left == x' && h'[a].right == h[a].right && h'[a].parent == h[a].parent
    case InRight(_, _, a) => a in h && a in h' && h'[a].right == x' && h'[a].left == h[a].left && h'[a].parent == h[a].parent
  }

  ghost predicate HoleApart(c: Ctx) {
    match c
    case Top => true
    case InLeft(up, a, r) => a !in CtxNodes(up) + Nodes(r)
    case InRight(up, l, a) => a !in CtxNodes(up) + Nodes(l)
  }

  lemma {:induction false} CtxFrame(h: Heap, h': Heap, c: Ctx, root: Addr, rp: Addr, p: Addr, x: Addr)
    requires IsCtx(h, c, root, rp, p, x) && forall a :: a in CtxNodes(c) ==> SameLinks(h, h', a)
    ensures IsCtx(h', c, root, rp, p, x)
  {
    match c
    case Top =>
    case InLeft(up, a, r) =>
      assert SameLinks(h, h', a);
      TreeFrame(h, h', h[a].right, a, r);
      CtxFrame(h, h', up, root, rp, h[a].parent, a);
    case InRight(up, l, a) =>
      assert SameLinks(h, h', a);
      TreeFrame(h, h', h[a].left, a, l);
      CtxFrame(h, h', up, root, rp, h[a].parent, a);
  }

  /** Redirecting the pointer to the hole gives the same context around another subtree. */
  lemma Relink(h: Heap, h': Heap, c: Ctx, root: Addr, rp: Addr, p: Addr, x: Addr, x': Addr)
    requires IsCtx(h, c, root, rp, p, x) && HoleApart(c) && Relinked(h, h', c, x')
    requires forall a :: a in CtxNodes(c) && a != p ==> SameLinks(h, h', a)
    ensures IsCtx(h', c, if c.Top? then x' else root, rp, p, x')
  {
    match c
    case Top =>
    case InLeft(up, a, r) =>
      TreeFrame(h, h', h[a].right, a, r);
      CtxFrame(h, h', up, root, rp, h[a].parent, a);
    case InRight(up, l, a) =>
      TreeFrame(h, h', h[a].left, a, l);
      CtxFrame(h, h', up, root, rp, h[a].parent, a);
  }

  // ----- search order

  lemma {:induction false} TreeInHeap(h: Heap, x: Addr, p: Addr, t: Tree)
    requires IsTree(h, x, p, t)
    ensures InHeap(h, Nodes(t))
    decreases t
  {
    if t.Node? {
      TreeInHeap(h, h[x].left, x, t.l);
      TreeInHeap(h, h[x].right, x, t.r);
    }
  }

  ghost predicate InHeap(h: Heap, s: set<Addr>) {
    forall a :: a in s ==> a in h
  }

  /** Left of a node are only smaller blocks, right of it only larger ones. */
  ghost predicate Ordered(h: Heap, t: Tree) {
    InHeap(h, Nodes(t)) &&
    match t
    case Leaf => true
    case Node(l, a, r) =>
      && (forall b :: b in Nodes(l) ==> h[b].size < h[a].size)
      && (forall b :: b in Nodes(r) ==> h[a].size < h[b].size)
      && Ordered(h, l) && Ordered(h, r)
  }

  /** A block of the given size belongs into the hole. */
  ghost predicate Fits(h: Heap, c: Ctx, size: int)
    requires InHeap(h, CtxNodes(c))
  {
    match c
    case Top => true
    case InLeft(up, a, _) => size < h[a].size && Fits(h, up, size)
    case InRight(up, _, a) => h[a].size < size && Fits(h, up, size)
  }

  ghost predicate OrderedCtx(h: Heap, c: Ctx) {
    InHeap(h, CtxNodes(c)) &&
    match c
    case Top => true
    case InLeft(up, a, r) =>
      && Ordered(h, r) && (forall b :: b in Nodes(r) ==> h[a].size < h[b].size)
      && (forall b :: b in Nodes(r) + {a} ==> Fits(h, up, h[b].size)) && OrderedCtx(h, up)
    case InRight(up, l, a) =>
      && Ordered(h, l) && (forall b :: b in Nodes(l) ==> h[b].size < h[a].size)
      && (forall b :: b in Nodes(l) + {a} ==> Fits(h, up, h[b].size)) && OrderedCtx(h, up)
  }

  ghost predicate AllFit(h: Heap, c: Ctx, t: Tree) {
    OrderedCtx(h, c) && Ordered(h, t) && forall b :: b in Nodes(t) ==> Fits(h, c, h[b].size)
  }

  lemma FitsLeft(h: Heap, up: Ctx, t: Tree, a: Addr, r: Tree)
    ensures AllFit(h, InLeft(up, a, r), t) <==> AllFit(h, up, Node(t, a, r))
  {
  }

  lemma FitsRight(h: Heap, up: Ctx, l: Tree, a: Addr, t: Tree)
    ensures AllFit(h, InRight(up, l, a), t) <==> AllFit(h, up, Node(l, a, t))
  {
  }

  lemma {:induction false} PlugOrdered(h: Heap, c: Ctx, t: Tree)
    ensures AllFit(h, c, t) <==> Ordered(h, Plug(c, t))
  {
    match c
    case Top =>
    case InLeft(up, a, r) =>
      FitsLeft(h, up, t, a, r);
      PlugOrdered(h, up, Node(t, a, r));
    case InRight(up, l, a) =>
      FitsRight(h, up, l, a, t);
      PlugOrdered(h, up, Node(l, a, t));
  }

  lemma {:induction false} FitsSomewhere(h: Heap, c: Ctx, b: Addr)
    requires OrderedCtx(h, c) && b in CtxNodes(c)
    ensures !Fits(h, c, h[b].size)
  {
    match c
    case Top =>
    case InLeft(up, a, r) =>
      if b in CtxNodes(up) { FitsSomewhere(h, up, b); }
    case InRight(up, l, a) =>
      if b in CtxNodes(up) { FitsSomewhere(h, up, b); }
  }

  /** In an ordered tree every node occurs once. */
  lemma Apart(h: Heap, c: Ctx, t: Tree)
    requires AllFit(h, c, t)
    ensures CtxNodes(c) !! Nodes(t) && HoleApart(c)
    ensures t.Node? ==> t.a !in Nodes(t.l) + Nodes(t.r) && Nodes(t.l) !! Nodes(t.r)
  {
    forall b | b in CtxNodes(c)
      ensures b !in Nodes(t)
    {
      FitsSomewhere(h, c, b);
    }
    match c
    case Top =>
    case InLeft(up, a, r) =>
      if a in CtxNodes(up) { FitsSomewhere(h, up, a); }
    case InRight(up, l, a) =>
      if a in CtxNodes(up) { FitsSomewhere(h, up, a); }
  }

  ghost predicate SameSizes(h: Heap, h': Heap, s: set<Addr>) {
    forall a :: a in s ==> a in h && a in h' && h'[a].size == h[a].size
  }

  lemma {:induction false} OrderedFrame(h: Heap, h': Heap, t: Tree)
    requires Ordered(h, t) && SameSizes(h, h', Nodes(t))
    ensures Ordered(h', t)
  {
    match t
    case Leaf =>
    case Node(l, a, r) =>
      OrderedFrame(h, h', l);
      OrderedFrame(h, h', r);
  }

  lemma {:induction false} FitsFrame(h: Heap, h': Heap, c: Ctx, size: int)
    requires SameSizes(h, h', CtxNodes(c))
    ensures Fits(h', c, size) <==> Fits(h, c, size)
  {
    match c
    case Top =>
    case InLeft(up, _, _) => FitsFrame(h, h', up, size);
    case InRight(up, _, _) => FitsFrame(h, h', up, size);
  }

  lemma {:induction false} OrderedCtxFrame(h: Heap, h': Heap, c: Ctx)
    requires OrderedCtx(h, c) && SameSizes(h, h', CtxNodes(c))
    ensures OrderedCtx(h', c)
  {
    match c
    case Top =>
    case InLeft(up, a, r) =>
      OrderedCtxFrame(h, h', up);
      OrderedFrame(h, h', r);
      forall b | b in Nodes(r) + {a}
        ensures Fits(h', up, h'[b].size)
      {
        FitsFrame(h, h', up, h[b].size);
      }
    case InRight(up, l, a) =>
      OrderedCtxFrame(h, h', up);
      OrderedFrame(h, h', l);
      forall b | b in Nodes(l) + {a}
        ensures Fits(h', up, h'[b].size)
      {
        FitsFrame(h, h', up, h[b].size);
      }
  }

  /** Replacing a subtree by one that fits as well keeps the order. */
  lemma Replaced(h: Heap, h': Heap, c: Ctx, t: Tree, t': Tree)
    requires AllFit(h, c, t) && SameSizes(h, h', CtxNodes(c)) && Ordered(h', t')
    requires forall b :: b in Nodes(t') ==> exists b0 :: b0 in Nodes(t) && h'[b].size == h[b0].size
    ensures Ordered(h', Plug(c, t'))
  {
    OrderedCtxFrame(h, h', c);
    forall b | b in Nodes(t')
      ensures Fits(h', c, h'[b].size)
    {
      var b0 :| b0 in Nodes(t) && h'[b].size == h[b0].size;
      FitsFrame(h, h', c, h[b0].size);
    }
    PlugOrdered(h', c, t');
  }

  // ----- the successor

  predicate LeftSpine(c: Ctx) {
    c.Top? || (c.InLeft? && LeftSpine(c.up))
  }

  lemma {:induction false} SpineAbove(h: Heap, c: Ctx, size: int)
    requires OrderedCtx(h, c) && LeftSpine(c) && Fits(h, c, size)
    ensures forall b :: b in CtxNodes(c) ==> size < h[b].size
  {
    if c.InLeft? { SpineAbove(h, c.up, size); }
  }

  /** With the smallest node m of the right subtree in place of the root, the order holds. */
  lemma SuccessorOrdered(h: Heap, l: Tree, t: Addr, c: Ctx, m: Addr, mr: Tree)
    requires LeftSpine(c) && Ordered(h, Node(l, t, Plug(c, Node(Leaf, m, mr))))
    ensures Ordered(h, Node(l, m, Plug(c, mr)))
  {
    hide Fits, OrderedCtx, Plug, CtxNodes;
    var r, s := Plug(c, Node(Leaf, m, mr)), Plug(c, mr);
    PlugOrdered(h, c, Node(Leaf, m, mr));
    PlugOrdered(h, c, mr);
    PlugNodes(c, Node(Leaf, m, mr));
    PlugNodes(c, mr);
    SpineAbove(h, c, h[m].size);
    assert m in Nodes(r);
    ChildrenApart(h, Node(l, t, r));
  }

  lemma ChildrenApart(h: Heap, t: Tree)
    requires Ordered(h, t)
    ensures t.Node? ==> t.a !in Nodes(t.l) && t.a !in Nodes(t.r) && Nodes(t.l) !! Nodes(t.r)
  {
  }
}
