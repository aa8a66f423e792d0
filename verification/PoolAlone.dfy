/**
 Deleting a block that is alone of its size: what takes its place in the tree, and the state
 this leaves.
 */
module PoolAlone {
  import opened PoolTree
  import opened PoolFree
  import opened PoolDelete
  import opened PoolIndex

  /** h with subtree x put in the place of t below q. */
  function Splice(h: Heap, q: Addr, t: Addr, x: Addr): Heap
    requires (q != NIL ==> q in h) && (x != NIL ==> x in h)
  {
    SetParent(SetChild(h, q, t, x), x, q)
  }

  lemma SpliceLinks(h: Heap, q: Addr, t: Addr, x: Addr, s: set<Addr>)
    requires (q != NIL ==> q in h && q in s) && (x != NIL ==> x in h && x in s)
    ensures LinksOf(h, Splice(h, q, t, x), s)
  {
    hide LinksOf, SetChild, SetParent;
    ChildSet(h, q, t, x, s);
    var h1 := SetChild(h, q, t, x);
    LinksHeap(h, h1, s);
    ParentSet(h1, x, q, s);
    LinksChain(h, h1, Splice(h, q, t, x), s, s, s);
  }

  lemma TakeLeftLinks(h: Heap, t: Addr, m: Addr, s: set<Addr>)
    requires t in h && m in h && h[t].left != NIL && h[t].left in h && h[t].left in s && m in s
    ensures LinksOf(h, TakeLeft(h, t, m), s)
  {
  }

  /** Links of l and r only have changed, and s at x holds their nodes: splicing s in for t deletes t. */
  lemma AloneSpliced(h: Heap, h2: Heap, root: Addr, rings: map<Addr, seq<Addr>>, c: Ctx, q: Addr, l: Tree, t: Addr, r: Tree,
                     x: Addr, p: Addr, s: Tree)
    requires FreeOk(h, root, Plug(c, Node(l, t, r)), rings) && t in rings && |rings[t]| == 1
    requires IsCtx(h, c, root, NIL, q, t) && IsTree(h, t, q, Node(l, t, r))
    requires IsTree(h2, x, p, s) && Ordered(h, s) && Nodes(s) == Nodes(l) + Nodes(r)
    requires LinksOf(h, h2, Nodes(l) + Nodes(r))
    ensures t in h2 && h2[t].parent == q && (q != NIL ==> q in h2) && (x != NIL ==> x in h2)
    ensures var h3, root' := Splice(h2, q, t, x), if q == NIL then x else root;
            && FreeOk(h3, root', Plug(c, s), rings - {t}) && SameBlocks(h, h3)
            && (forall y :: InRings(rings - {t}, y) <==> InRings(rings, y) && y != t)
            && (forall y :: y in h && !InRings(rings, y) ==> h3[y] == h[y])
  {
    hide FreeOk, RingsStay, Splice, InRings, AllFit, IsTree, IsCtx, Ordered, Plug, CtxNodes, Nodes, HoleApart, SameLinks, SetChild, SetParent;
    FreeTree(h, root, Plug(c, Node(l, t, r)), rings);
    PlugOrdered(h, c, Node(l, t, r));
    NodeSets(h, c, l, t, r);
    NodesOfNode(l, t, r);
    NodeLinks(h, c, root, q, l, t, r);
    CtxUntouched(h, h2, c, root, q, t, Nodes(l) + Nodes(r));
    ChildInHeap(h2, x, p, s);
    RootApart(h, s);
    Spliced(h2, c, root, q, t, x, p, s);
    var h3 := Splice(h2, q, t, x);
    SpliceTree(h2, c, root, q, t, x, s);
    var all := CtxNodes(c) + Nodes(l) + Nodes(r);
    SpliceLinks(h2, q, t, x, all);
    LinksChain(h, h2, h3, Nodes(l) + Nodes(r), all, all);
    AloneDeleted(h, h3, root, if q == NIL then x else root, rings, c, l, t, r, s);
    LinksBlocks(h, h3, all);
  }

  lemma FreeTree(h: Heap, root: Addr, tree: Tree, rings: map<Addr, seq<Addr>>)
    requires FreeOk(h, root, tree, rings)
    ensures IsTree(h, root, NIL, tree) && Ordered(h, tree) && rings.Keys == Nodes(tree) && RingsOk(h, rings)
  {
  }

  lemma SpliceTree(h: Heap, c: Ctx, root: Addr, q: Addr, t: Addr, x: Addr, s: Tree)
    requires (q != NIL ==> q in h) && (x != NIL ==> x in h)
    requires IsTree(SetParent(SetChild(h, q, t, x), x, q), if q == NIL then x else root, NIL, Plug(c, s))
    ensures IsTree(Splice(h, q, t, x), if q == NIL then x else root, NIL, Plug(c, s))
  {
  }

  lemma LinksBlocks(h: Heap, h': Heap, s: set<Addr>)
    requires LinksOf(h, h', s)
    ensures SameBlocks(h, h')
  {
  }

  lemma CtxUntouched(h: Heap, h': Heap, c: Ctx, root: Addr, q: Addr, t: Addr, s: set<Addr>)
    requires IsCtx(h, c, root, NIL, q, t) && InHeap(h, CtxNodes(c)) && CtxNodes(c) !! s && SameOutside(h, h', s)
    ensures IsCtx(h', c, root, NIL, q, t) && InHeap(h', CtxNodes(c))
  {
    CtxFrame(h, h', c, root, NIL, q, t);
  }

  /** The leftmost node m of the right subtree, found below f, in the place of t. */
  lemma SuccessorMoved(h: Heap, q: Addr, l: Tree, t: Addr, k: Ctx, f: Addr, m: Addr, mr: Tree)
    requires IsTree(h, t, q, Node(l, t, Plug(k, Node(Leaf, m, mr)))) && Ordered(h, Node(l, t, Plug(k, Node(Leaf, m, mr))))
    requires l.Node? && LeftSpine(k)
    requires t in h && IsCtx(h, k, h[t].right, t, f, m) && IsTree(h, m, f, Node(Leaf, m, mr))
    ensures m in h && (f != t <==> k.InLeft?) && h[t].left != NIL && h[t].left in h && m != t && h[m].left == NIL
    ensures f != t ==> f in h && m in h && (h[m].right != NIL ==> h[m].right in h) && h[t].right != NIL && h[t].right in h
    ensures var h1 := if f != t then Extract(h, t, f, m) else h;
            && t in h1 && m in h1 && h1[t] == h[t]
            && var h2, s := TakeLeft(h1, t, m), Node(l, m, Plug(k, mr));
            && m in h2 && IsTree(h2, m, h2[m].parent, s) && Ordered(h, s)
            && Nodes(s) == Nodes(l) + Nodes(Plug(k, Node(Leaf, m, mr)))
            && LinksOf(h, h2, Nodes(l) + Nodes(Plug(k, Node(Leaf, m, mr))))
  {
    hide Ordered, AllFit, OrderedCtx, Fits, Extract, TakeLeft, LinksOf, Nodes, CtxNodes, Plug, SetParent, HoleApart, SameLinks;
    var r := Plug(k, Node(Leaf, m, mr));
    SuccessorFacts(h, q, l, t, k, f, m, mr);
    SuccessorOrdered(h, l, t, k, m, mr);
    SuccessorNodes(h, l, t, k, m, mr);
    var all := Nodes(l) + Nodes(r);
    var h1 := if f != t then Extract(h, t, f, m) else h;
    if f != t {
      SpineRoot(h, k, h[t].right, t, f, m);
      ExtractTree(h, k, t, f, m, mr);
      ChildInHeap(h, h[m].right, m, mr);
      ExtractLinks(h, t, f, m, all);
      LeftKept(h, h1, h[t].left, t, l, CtxNodes(k) + Nodes(mr) + {m});
    } else {
      LinksNone(h, all);
      PlugTop(mr);
    }
    LinksHeap(h, h1, all);
    TakeLeftTree(h1, t, l, m, Plug(k, mr));
    TakeLeftLinks(h1, t, m, all);
    LinksChain(h, h1, TakeLeft(h1, t, m), all, all, all);
    LinksHeap(h1, TakeLeft(h1, t, m), all);
  }

  lemma PlugTop(t: Tree)
    ensures Plug(Top, t) == t
  {
  }

  lemma LinksNone(h: Heap, s: set<Addr>)
    ensures LinksOf(h, h, s)
  {
  }

  lemma LeftKept(h: Heap, h': Heap, x: Addr, p: Addr, l: Tree, s: set<Addr>)
    requires IsTree(h, x, p, l) && InHeap(h, Nodes(l)) && Nodes(l) !! s && SameOutside(h, h', s)
    ensures IsTree(h', x, p, l)
  {
    TreeFrame(h, h', x, p, l);
  }

  lemma SuccessorFacts(h: Heap, q: Addr, l: Tree, t: Addr, k: Ctx, f: Addr, m: Addr, mr: Tree)
    requires IsTree(h, t, q, Node(l, t, Plug(k, Node(Leaf, m, mr)))) && Ordered(h, Node(l, t, Plug(k, Node(Leaf, m, mr))))
    requires l.Node? && LeftSpine(k)
    requires t in h && IsCtx(h, k, h[t].right, t, f, m) && IsTree(h, m, f, Node(Leaf, m, mr))
    ensures t != NIL && IsTree(h, h[t].left, t, l) && h[t].left != NIL && h[t].left in h && h[t].left in Nodes(l)
    ensures m in h && m != NIL && h[m].left == NIL && IsTree(h, h[m].right, m, mr)
    ensures k.Top? ==> f == t && h[t].right == m
    ensures k.InLeft? ==> f in CtxNodes(k)
    ensures k.Top? || k.InLeft?
    ensures l.a !in Nodes(l.l) + Nodes(l.r) && InHeap(h, Nodes(l))
  {
    ChildInHeap(h, h[t].left, t, l);
    assert Ordered(h, l);
    RootApart(h, l);
  }

  lemma SuccessorNodes(h: Heap, l: Tree, t: Addr, k: Ctx, m: Addr, mr: Tree)
    requires Ordered(h, Node(l, t, Plug(k, Node(Leaf, m, mr))))
    ensures AllFit(h, k, Node(Leaf, m, mr))
    ensures var r := Plug(k, Node(Leaf, m, mr));
            && Nodes(r) == CtxNodes(k) + {m} + Nodes(mr) && t !in Nodes(r) && t !in Nodes(l) && Nodes(l) !! Nodes(r)
            && Nodes(Plug(k, mr)) == CtxNodes(k) + Nodes(mr) && m !in CtxNodes(k) && m !in Nodes(mr)
            && Nodes(Node(l, t, r)) == Nodes(l) + {t} + Nodes(r)
            && Nodes(Node(Leaf, m, mr)) == {m} + Nodes(mr)
            && Nodes(Node(l, m, Plug(k, mr))) == Nodes(l) + Nodes(r)
  {
    hide CtxNodes, AllFit, HoleApart, Fits, Plug;
    var r := Plug(k, Node(Leaf, m, mr));
    ChildrenApart(h, Node(l, t, r));
    PlugOrdered(h, k, Node(Leaf, m, mr));
    PlugNodes(k, Node(Leaf, m, mr));
    PlugNodes(k, mr);
    NodeSets(h, k, Leaf, m, mr);
  }
}
