/** `SharedMemoryRbTreeMap`: rotations, insertion, erasure and searches over the node table. */
module RbTreeMap {
  import opened Orders
  import opened RbTrees
  import opened RbStore
  import opened RbSteps
  import NodePools

  class RbTree<K(!new), V> {
    const less: (K, K) -> bool
    var store: Store<K, V>
    var root: int
    var size: nat
    const pool: NodePools.NodePool<(K, V)>
    ghost var tree: Tree<K, V>

    /** The table is a red-black tree with sorted keys, and nothing else. */
    ghost predicate Shaped()
      reads this
    {
      && At(store, root, Top, tree) && RedBlack(tree)
      && store.Keys == Ids(tree) && size == |Inorder(tree)|
      && StrictOrder(less) && SortedKeys(less, Inorder(tree))
    }

    /** Node storage is conserved: what was allocated is in the tree or in the cache, and nothing is in both. */
    ghost predicate Pooled()
      reads this, pool, pool.mem
    {
      && pool.Valid() && store.Keys <= pool.mem.owned
      && (forall x :: x in pool.cached ==> x !in store)
      && pool.allocations == size + pool.cachedCount
    }

    ghost predicate Valid()
      reads this, pool, pool.mem
    {
      Shaped() && Pooled()
    }

    /** The items in iteration order. */
    ghost function Items(): seq<Item<K, V>>
      reads this
    {
      Inorder(tree)
    }

    constructor (less: (K, K) -> bool, mem: NodePools.NodeMemory<(K, V)>)
      requires StrictOrder(less) && mem.Valid()
      ensures this.less == less && Valid() && Items() == [] && fresh(pool) && pool.mem == mem && pool.cached == []
    {
      this.less := less;
      pool := new NodePools.NodePool(mem);
      store, root, size := map[], 0, 0;
      tree := E;
      new;
      assert RB(tree, 0);
    }

    /** Point the link above a node to its replacement. */
    method Redirect(par: int, node: int, child: int, ghost c: Ctx<K, V>, ghost t: Tree<K, V>)
      requires par == ParentId(c) && (!c.Top? ==> par in store && par != 0)
      requires !c.Top? ==> (store[par].left == node <==> c.InL?)
      modifies this`store, this`root
      ensures store == SetHole(old(store), c, child)
      ensures root == if c.Top? then child else old(root)
    {
      if par == 0 {
        root := child;
      } else if node == store[par].left {
        store := store[par := store[par].(left := child)];
      } else {
        store := store[par := store[par].(right := child)];
      }
    }

    /** `rotate_left`. */
    method RotateLeft(node: int, ghost c: Ctx<K, V>, ghost t: Tree<K, V>)
      requires At(store, root, c, t) && t.N? && t.right.N? && node == t.item.id
      modifies this`store, this`root
      ensures At(store, root, c, RotatedLeft(t)) && store.Keys == old(store.Keys)
    {
      hide Rep, RepCtx, Distinct, CtxDistinct, Ids, CtxIds;
      ghost var s, r := store, root;
      LeftRotationLinks(store, root, c, t);
      var child := store[node].right;
      var inner := store[child].left;
      store := store[node := store[node].(right := inner)];
      if inner != 0 {
        store := store[inner := store[inner].(parent := node)];
      }
      store := store[child := store[child].(parent := store[node].parent)];
      Redirect(store[node].parent, node, child, c, t);
      store := store[child := store[child].(left := node)];
      store := store[node := store[node].(parent := child)];
      RotateLeftRep(s, store, r, root, c, t);
    }

    /** `rotate_right`. */
    method RotateRight(node: int, ghost c: Ctx<K, V>, ghost t: Tree<K, V>)
      requires At(store, root, c, t) && t.N? && t.left.N? && node == t.item.id
      modifies this`store, this`root
      ensures At(store, root, c, RotatedRight(t)) && store.Keys == old(store.Keys)
    {
      hide Rep, RepCtx, Distinct, CtxDistinct, Ids, CtxIds;
      ghost var s, r := store, root;
      RightRotationLinks(store, root, c, t);
      var child := store[node].left;
      var inner := store[child].right;
      store := store[node := store[node].(left := inner)];
      if inner != 0 {
        store := store[inner := store[inner].(parent := node)];
      }
      store := store[child := store[child].(parent := store[node].parent)];
      Redirect(store[node].parent, node, child, c, t);
      store := store[child := store[child].(right := node)];
      store := store[node := store[node].(parent := child)];
      RotateRightRep(s, store, r, root, c, t);
    }

    method Paint(node: int, red: bool, ghost c: Ctx<K, V>, ghost t: Tree<K, V>)
      requires At(store, root, c, t) && t.N? && node == t.item.id
      modifies this`store
      ensures At(store, root, c, t.(red := red)) && store.Keys == old(store.Keys)
    {
      PaintRep(store, root, c, t, red);
      store := store[node := store[node].(red := red)];
    }

    /** Parent and uncle black, grandparent red. */
    method Recolour(l: int, r: int, g: int, ghost up: Ctx<K, V>, ghost t: Tree<K, V>)
      requires At(store, root, up, t) && t.N? && t.left.N? && t.right.N?
      requires l == t.left.item.id && r == t.right.item.id && g == t.item.id
      modifies this`store
      ensures At(store, root, up, N(Blacken(t.left), true, t.item, Blacken(t.right))) && store.Keys == old(store.Keys)
    {
      hide Rep, RepCtx, Distinct, CtxDistinct, Ids, CtxIds;
      DownLeft(store, root, up, t);
      Paint(l, false, InL(up, t.red, t.item, t.right), t.left);
      ghost var t1 := N(Blacken(t.left), t.red, t.item, t.right);
      DownLeft(store, root, up, t1);
      DownRight(store, root, up, t1);
      Paint(r, false, InR(t1.left, t1.red, t1.item, up), t1.right);
      ghost var t2 := N(t1.left, t1.red, t1.item, Blacken(t.right));
      DownRight(store, root, up, t2);
      Paint(g, true, up, t2);
    }

    /** Parent black, grandparent red, rotate the grandparent right. */
    method LiftLeft(p: int, g: int, ghost up: Ctx<K, V>, ghost t: Tree<K, V>)
      requires At(store, root, up, t) && t.N? && t.left.N? && p == t.left.item.id && g == t.item.id
      modifies this`store, this`root
      ensures At(store, root, up, N(t.left.left, false, t.left.item, N(t.left.right, true, t.item, t.right)))
      ensures store.Keys == old(store.Keys)
    {
      hide Rep, RepCtx, Distinct, CtxDistinct, Ids, CtxIds;
      DownLeft(store, root, up, t);
      Paint(p, false, InL(up, t.red, t.item, t.right), t.left);
      ghost var t1 := N(Blacken(t.left), t.red, t.item, t.right);
      DownLeft(store, root, up, t1);
      Paint(g, true, up, t1);
      RotateRight(g, up, t1.(red := true));
    }

    method LiftRight(p: int, g: int, ghost up: Ctx<K, V>, ghost t: Tree<K, V>)
      requires At(store, root, up, t) && t.N? && t.right.N? && p == t.right.item.id && g == t.item.id
      modifies this`store, this`root
      ensures At(store, root, up, N(N(t.left, true, t.item, t.right.left), false, t.right.item, t.right.right))
      ensures store.Keys == old(store.Keys)
    {
      hide Rep, RepCtx, Distinct, CtxDistinct, Ids, CtxIds;
      DownRight(store, root, up, t);
      Paint(p, false, InR(t.left, t.red, t.item, up), t.right);
      ghost var t1 := N(t.left, t.red, t.item, Blacken(t.right));
      DownRight(store, root, up, t1);
      Paint(g, true, up, t1);
      RotateLeft(g, up, t1.(red := true));
    }

    /** `insert_fixup`. */
    method InsertFixup(node: int, ghost c0: Ctx<K, V>, ghost t0: Tree<K, V>, ghost h0: nat)
      returns (ghost tree: Tree<K, V>)
      requires At(store, root, c0, t0) && Inserting(c0, t0, h0) && node == t0.item.id
      modifies this`store, this`root
      ensures At(store, root, Top, tree) && RedBlack(tree) && Inorder(tree) == Inorder(Plug(c0, t0))
      ensures store.Keys == old(store.Keys)
    {
      hide Rep, RepCtx, Distinct, CtxDistinct, Ids, CtxIds, Inorder, Inserting;
      var node := node;
      ghost var c, t, h := c0, t0, h0;
      InsertingNode(c, t, h);
      Links(store, root, c, t);
      while node != root && store[store[node].parent].red
        invariant At(store, root, c, t) && Inserting(c, t, h) && t.N? && node == t.item.id
        invariant node in store && (node != root ==> store[node].parent in store)
        invariant Inorder(Plug(c, t)) == Inorder(Plug(c0, t0)) && store.Keys == old(store.Keys)
        decreases Depth(c)
      {
        Links(store, root, c, t);
        ParentColour(store, root, c, t);
        RedParent(c, t, h);
        var parent := store[node].parent;
        if c.InL? {
          DownLeft(store, root, c.up, Refilled(c, t));
        } else {
          DownRight(store, root, c.up, Refilled(c, t));
        }
        Links(store, root, c.up, Refilled(c, t));
        var grandparent := store[parent].parent;
        if parent == store[grandparent].left {
          node, c, t, h := FixLeft(node, parent, grandparent, c, t, h);
        } else {
          node, c, t, h := FixRight(node, parent, grandparent, c, t, h);
        }
        InsertingNode(c, t, h);
        Links(store, root, c, t);
      }
      Links(store, root, c, t);
      if node != root { ParentColour(store, root, c, t); }
      tree := BlackenRoot(c, t, h);
    }

    /** The last step: the root turns black. */
    method BlackenRoot(ghost c: Ctx<K, V>, ghost t: Tree<K, V>, ghost h: nat) returns (ghost tree: Tree<K, V>)
      requires At(store, root, c, t) && Inserting(c, t, h) && TopBlack(c)
      modifies this`store
      ensures At(store, root, Top, tree) && RedBlack(tree) && Inorder(tree) == Inorder(Plug(c, t))
      ensures store.Keys == old(store.Keys)
    {
      tree := Plug(c, t);
      Refocus(store, root, c, t);
      InsertedRoot(c, t, h);
      Links(store, root, Top, tree);
      if root != 0 {
        Paint(root, false, Top, tree);
        tree := Blacken(tree);
      }
    }

    /** One round with the parent on the left of the grandparent. */
    method FixLeft(node: int, parent: int, grandparent: int, ghost c: Ctx<K, V>, ghost t: Tree<K, V>, ghost h: nat)
      returns (node': int, ghost c': Ctx<K, V>, ghost t': Tree<K, V>, ghost h': nat)
      requires At(store, root, c, t) && Inserting(c, t, h) && t.N? && node == t.item.id
      requires !c.Top? && c.red && c.up.InL? && parent == c.item.id && grandparent == c.up.item.id
      modifies this`store, this`root
      ensures At(store, root, c', t') && Inserting(c', t', h') && t'.N? && node' == t'.item.id && Depth(c') < Depth(c)
      ensures Inorder(Plug(c', t')) == Inorder(Plug(c, t)) && store.Keys == old(store.Keys)
    {
      hide Rep, RepCtx, Distinct, CtxDistinct, Ids, CtxIds, Inorder;
      RedParent(c, t, h);
      ghost var pt, gup, g, u := Refilled(c, t), c.up.up, c.up.item, c.up.right;
      ghost var gt := N(pt, false, g, u);
      if c.InL? { DownLeft(store, root, c.up, pt); } else { DownRight(store, root, c.up, pt); }
      DownLeft(store, root, gup, gt);
      Links(store, root, gup, gt);
      Links(store, root, c.up, pt);
      Links(store, root, c, t);
      ChildColour(store, root, gup, gt);
      var uncle := store[grandparent].right;
      node' := node;
      if uncle != 0 && store[uncle].red {
        Recolour(parent, uncle, grandparent, gup, gt);
        RecolouredInserting(gup, pt, g, u, h);
        c', t', h' := gup, N(Blacken(pt), true, g, Blacken(u)), h + 1;
        RecolouredOrder(gt);
        SameOrder(gup, gt, t');
        node' := grandparent;
      } else {
        var p := parent;
        ghost var out := pt;
        t' := t;
        if node == store[parent].right {
          node' := parent;
          InnerInserting(c.up, c.left, c.item, t, h);
          RotateLeft(parent, c.up, pt);
          RotationKeepsOrder(pt);
          out := RotatedLeft(pt);
          t' := out.left;
          p := node;
          DownLeft(store, root, gup, N(out, false, g, u));
        }
        LiftLeft(p, grandparent, gup, N(out, false, g, u));
        c', h' := InL(gup, false, out.item, N(out.right, true, g, u)), h;
        RotatedInserting(gup, t', out.item, out.right, g, u, h);
        DownLeft(store, root, gup, Refilled(c', t'));
        LiftOrder(gt, N(out, false, g, u), Refilled(c', t'));
        SameOrder(gup, gt, Refilled(c', t'));
      }
    }

    /** One round with the parent on the right of the grandparent. */
    method FixRight(node: int, parent: int, grandparent: int, ghost c: Ctx<K, V>, ghost t: Tree<K, V>, ghost h: nat)
      returns (node': int, ghost c': Ctx<K, V>, ghost t': Tree<K, V>, ghost h': nat)
      requires At(store, root, c, t) && Inserting(c, t, h) && t.N? && node == t.item.id
      requires !c.Top? && c.red && c.up.InR? && parent == c.item.id && grandparent == c.up.item.id
      modifies this`store, this`root
      ensures At(store, root, c', t') && Inserting(c', t', h') && t'.N? && node' == t'.item.id && Depth(c') < Depth(c)
      ensures Inorder(Plug(c', t')) == Inorder(Plug(c, t)) && store.Keys == old(store.Keys)
    {
      hide Rep, RepCtx, Distinct, CtxDistinct, Ids, CtxIds, Inorder;
      RedParent(c, t, h);
      ghost var pt, gup, g, u := Refilled(c, t), c.up.up, c.up.item, c.up.left;
      ghost var gt := N(u, false, g, pt);
      if c.InL? { DownLeft(store, root, c.up, pt); } else { DownRight(store, root, c.up, pt); }
      DownRight(store, root, gup, gt);
      Links(store, root, gup, gt);
      Links(store, root, c.up, pt);
      Links(store, root, c, t);
      ChildColour(store, root, gup, gt);
      var uncle := store[grandparent].left;
      node' := node;
      if uncle != 0 && store[uncle].red {
        Recolour(uncle, parent, grandparent, gup, gt);
        RecolouredInserting(gup, u, g, pt, h);
        c', t', h' := gup, N(Blacken(u), true, g, Blacken(pt)), h + 1;
        RecolouredOrder(gt);
        SameOrder(gup, gt, t');
        node' := grandparent;
      } else {
        var p := parent;
        ghost var out := pt;
        t' := t;
        if node == store[parent].left {
          node' := parent;
          InnerInserting(c.up, c.right, c.item, t, h);
          RotateRight(parent, c.up, pt);
          RotationKeepsOrder(pt);
          out := RotatedRight(pt);
          t' := out.right;
          p := node;
          DownRight(store, root, gup, N(u, false, g, out));
        }
        LiftRight(p, grandparent, gup, N(u, false, g, out));
        c', h' := InR(N(u, true, g, out.left), false, out.item, gup), h;
        RotatedInserting(gup, t', out.item, out.left, g, u, h);
        DownRight(store, root, gup, Refilled(c', t'));
        LiftOrderRight(gt, N(u, false, g, out), Refilled(c', t'));
        SameOrder(gup, gt, Refilled(c', t'));
      }
    }

    /** The colour of a possibly null node. */
    function IsRed(node: int): bool
      reads this`store
      requires node != 0 ==> node in store
    {
      node != 0 && store[node].red
    }

    /** `erase_fixup`. */
    method EraseFixup(node: int, parent: int, ghost c0: Ctx<K, V>, ghost t0: Tree<K, V>, ghost h0: nat)
      returns (ghost tree: Tree<K, V>)
      requires At(store, root, c0, t0) && Erasing(c0, t0, h0) && node == RootId(t0) && parent == ParentId(c0)
      modifies this`store, this`root
      ensures At(store, root, Top, tree) && RedBlack(tree) && Inorder(tree) == Inorder(Plug(c0, t0))
      ensures store.Keys == old(store.Keys)
    {
      hide Rep, RepCtx, Distinct, CtxDistinct, Ids, CtxIds, Inorder, Erasing;
      var node, parent := node, parent;
      ghost var c, t, h := c0, t0, h0;
      RootHere(store, root, c, t);
      while node != root && !IsRed(node)
        invariant At(store, root, c, t) && Erasing(c, t, h) && node == RootId(t) && parent == ParentId(c)
        invariant node != 0 ==> node in store
        invariant Inorder(Plug(c, t)) == Inorder(Plug(c0, t0)) && store.Keys == old(store.Keys)
        decreases Rounds(c, t)
      {
        RootHere(store, root, c, t);
        SiblingExists(c, t, h);
        if node == store[parent].left {
          node, parent, c, t, h := EraseLeft(node, parent, c, t, h);
        } else {
          node, parent, c, t, h := EraseRight(node, parent, c, t, h);
        }
        RootHere(store, root, c, t);
      }
      RootHere(store, root, c, t);
      ErasedTree(c, t, h);
      if node != 0 {
        Paint(node, false, c, t);
      }
      SameOrder(c, t, Blacken(t));
      Refocus(store, root, c, Blacken(t));
      tree := Plug(c, Blacken(t));
    }

    /** One round with the short subtree on the left. */
    method EraseLeft(node: int, parent: int, ghost c: Ctx<K, V>, ghost t: Tree<K, V>, ghost h: nat)
      returns (node': int, parent': int, ghost c': Ctx<K, V>, ghost t': Tree<K, V>, ghost h': nat)
      requires At(store, root, c, t) && Erasing(c, t, h) && IsBlack(t) && c.InL? && node == RootId(t)
               && parent == c.item.id
      modifies this`store, this`root
      ensures At(store, root, c', t') && Erasing(c', t', h') && node' == RootId(t') && parent' == ParentId(c')
      ensures Rounds(c', t') < Rounds(c, t)
      ensures Inorder(Plug(c', t')) == Inorder(Plug(c, t)) && store.Keys == old(store.Keys)
    {
      hide Rep, RepCtx, Distinct, CtxDistinct, Ids, CtxIds, Inorder;
      RootHere(store, root, c, t);
      SiblingExists(c, t, h);
      DownLeft(store, root, c.up, Refilled(c, t));
      ChildColour(store, root, c.up, Refilled(c, t));
      ghost var d := c;
      var sibling := store[parent].right;
      if IsRed(sibling) {
        d := RotateSiblingLeft(parent, sibling, c, t, h);
        RootHere(store, root, d, t);
        SiblingExists(d, t, h);
        sibling := store[parent].right;
      }
      DownLeft(store, root, d.up, Refilled(d, t));
      DownRight(store, root, d.up, Refilled(d, t));
      ghost var w := d.right;
      ghost var wc := InR(t, d.red, d.item, d.up);
      ChildColour(store, root, wc, w);
      Links(store, root, wc, w);
      if !IsRed(store[sibling].left) && !IsRed(store[sibling].right) {
        Paint(sibling, true, wc, w);
        t', c', h' := N(t, d.red, d.item, w.(red := true)), d.up, if d.red then h else h + 1;
        DownRight(store, root, d.up, t');
        ShortageMovesUp(d, t, h);
        NodeOrder(w, w.(red := true));
        NodeOrder(Refilled(d, t), t');
        SameOrder(d.up, Refilled(d, t), t');
        RootHere(store, root, c', t');
        Links(store, root, c', t');
        node' := parent;
        parent' := store[node'].parent;
      } else {
        t', h' := RepairLeft(parent, sibling, d, t, h);
        c', node', parent' := Top, root, 0;
        RootHere(store, root, Top, t');
      }
    }

    /** Red sibling on the right: make it the grandparent. */
    method RotateSiblingLeft(parent: int, sibling: int, ghost c: Ctx<K, V>, ghost t: Tree<K, V>, ghost h: nat)
      returns (ghost d: Ctx<K, V>)
      requires At(store, root, c, t) && Erasing(c, t, h) && IsBlack(t) && c.InL? && parent == c.item.id
      requires c.right.N? && c.right.red && sibling == c.right.item.id
      modifies this`store, this`root
      ensures At(store, root, d, t) && Erasing(d, t, h) && d.InL? && d.red && d.item == c.item
              && Depth(d) == Depth(c) + 1
      ensures d.right.N? && !d.right.red
      ensures Inorder(Plug(d, t)) == Inorder(Plug(c, t)) && store.Keys == old(store.Keys)
    {
      hide Rep, RepCtx, Distinct, CtxDistinct, Ids, CtxIds, Inorder;
      SiblingExists(c, t, h);
      ghost var p0, w := Refilled(c, t), c.right;
      RedSibling(c.up, c.item, w, h);
      DownLeft(store, root, c.up, p0);
      DownRight(store, root, c.up, p0);
      Paint(sibling, false, InR(t, c.red, c.item, c.up), w);
      ghost var p1 := N(t, c.red, c.item, w.(red := false));
      DownRight(store, root, c.up, p1);
      Paint(parent, true, c.up, p1);
      ghost var p2 := p1.(red := true);
      RotateLeft(parent, c.up, p2);
      ghost var e := InL(c.up, false, w.item, w.right);
      d := InL(e, true, c.item, w.left);
      DownLeft(store, root, c.up, RotatedLeft(p2));
      DownLeft(store, root, e, N(t, true, c.item, w.left));
      NodeOrder(w, w.(red := false));
      NodeOrder(p0, p2);
      RotationKeepsOrder(p2);
      SameOrder(c.up, p0, RotatedLeft(p2));
      assert Plug(d, t) == Plug(e, N(t, true, c.item, w.left));
    }

    /** Black sibling on the right with a red child: the final rotations. */
    method RepairLeft(parent: int, sibling: int, ghost c: Ctx<K, V>, ghost t: Tree<K, V>, ghost h: nat)
      returns (ghost t': Tree<K, V>, ghost h': nat)
      requires At(store, root, c, t) && Erasing(c, t, h) && IsBlack(t) && c.InL? && parent == c.item.id
      requires c.right.N? && !c.right.red && sibling == c.right.item.id
               && (!IsBlack(c.right.left) || !IsBlack(c.right.right))
      modifies this`store, this`root
      ensures At(store, root, Top, t') && Erasing(Top, t', h')
      ensures Inorder(t') == Inorder(Plug(c, t)) && store.Keys == old(store.Keys)
    {
      hide Rep, RepCtx, Distinct, CtxDistinct, Ids, CtxIds, Inorder;
      SiblingExists(c, t, h);
      ghost var w := c.right;
      ghost var wc := InR(t, c.red, c.item, c.up);
      assert RB(w.left, h) && RB(w.right, h);
      DownLeft(store, root, c.up, Refilled(c, t));
      DownRight(store, root, c.up, Refilled(c, t));
      ChildColour(store, root, wc, w);
      Links(store, root, wc, w);
      var sibling := sibling;
      if !IsRed(store[sibling].right) {
        w := StraightenLeft(sibling, wc, w, h);
        RootHere(store, root, wc, w);
        sibling := store[parent].right;
      }
      ghost var p := N(t, c.red, c.item, w);
      DownRight(store, root, c.up, p);
      FinishLeft(parent, sibling, c.up, p, h);
      ghost var q := N(N(t, false, c.item, w.left), c.red, w.item, Blacken(w.right));
      if c.red { RedNotTop(c); }
      RepairedTree(c.up, c.red, t, c.item, w.left, w.item, Blacken(w.right), h);
      t' := Plug(c.up, q);
      h' :| RB(t', h');
      Refocus(store, root, c.up, q);
      NodeOrder(Refilled(c, t), p);
      SameOrder(c.up, Refilled(c, t), q);
    }

    /** Red inner child: rotate it above the sibling, so that the outer child is red. */
    method StraightenLeft(sibling: int, ghost wc: Ctx<K, V>, ghost w: Tree<K, V>, ghost h: nat)
      returns (ghost w': Tree<K, V>)
      requires At(store, root, wc, w) && w.N? && !w.red && sibling == w.item.id && RB(w.left, h) && RB(w.right, h)
      requires !IsBlack(w.left) && IsBlack(w.right)
      modifies this`store, this`root
      ensures At(store, root, wc, w') && w'.N? && w'.right.N? && w'.right.red && RB(w'.left, h)
              && RB(Blacken(w'.right), h + 1)
      ensures Inorder(w') == Inorder(w) && store.Keys == old(store.Keys)
    {
      hide Rep, RepCtx, Distinct, CtxDistinct, Ids, CtxIds, Inorder;
      Links(store, root, wc, w);
      DownLeft(store, root, wc, w);
      Paint(store[sibling].left, false, InL(wc, false, w.item, w.right), w.left);
      ghost var w1 := N(Blacken(w.left), false, w.item, w.right);
      DownLeft(store, root, wc, w1);
      Paint(sibling, true, wc, w1);
      RotateRight(sibling, wc, w1.(red := true));
      RotationKeepsOrder(w1.(red := true));
      w' := RotatedRight(w1.(red := true));
      BlackenOrder(w.left);
      NodeOrder(w, w1.(red := true));
    }

    /** The sibling takes the parent's colour, parent and outer child turn black, rotate the parent. */
    method FinishLeft(parent: int, sibling: int, ghost up: Ctx<K, V>, ghost p: Tree<K, V>, ghost h: nat)
      requires At(store, root, up, p) && p.N? && p.right.N? && p.right.right.N? && parent == p.item.id
               && sibling == p.right.item.id
      modifies this`store, this`root
      ensures At(store, root, up, N(N(p.left, false, p.item, p.right.left), p.red, p.right.item,
                                    Blacken(p.right.right)))
      ensures Inorder(N(N(p.left, false, p.item, p.right.left), p.red, p.right.item,
                        Blacken(p.right.right))) == Inorder(p)
      ensures store.Keys == old(store.Keys)
    {
      hide Rep, RepCtx, Distinct, CtxDistinct, Ids, CtxIds, Inorder;
      ghost var w, wc := p.right, InR(p.left, p.red, p.item, up);
      DownRight(store, root, up, p);
      RootHere(store, root, wc, w);
      Paint(sibling, store[parent].red, wc, w);
      ghost var w2 := w.(red := p.red);
      DownRight(store, root, up, N(p.left, p.red, p.item, w2));
      Paint(parent, false, up, N(p.left, p.red, p.item, w2));
      ghost var wc2 := InR(p.left, false, p.item, up);
      DownRight(store, root, up, N(p.left, false, p.item, w2));
      Links(store, root, wc2, w2);
      DownRight(store, root, wc2, w2);
      Paint(store[sibling].right, false, InR(w2.left, w2.red, w2.item, wc2), w2.right);
      ghost var w3 := N(w2.left, w2.red, w2.item, Blacken(w2.right));
      DownRight(store, root, wc2, w3);
      ghost var p3 := N(p.left, false, p.item, w3);
      DownRight(store, root, up, p3);
      RotateLeft(parent, up, p3);
      BlackenOrder(w.right);
      NodeOrder(w, w3);
      NodeOrder(p, p3);
      RotationKeepsOrder(p3);
    }

    /** One round with the short subtree on the right. */
    method EraseRight(node: int, parent: int, ghost c: Ctx<K, V>, ghost t: Tree<K, V>, ghost h: nat)
      returns (node': int, parent': int, ghost c': Ctx<K, V>, ghost t': Tree<K, V>, ghost h': nat)
      requires At(store, root, c, t) && Erasing(c, t, h) && IsBlack(t) && c.InR? && node == RootId(t)
               && parent == c.item.id
      modifies this`store, this`root
      ensures At(store, root, c', t') && Erasing(c', t', h') && node' == RootId(t') && parent' == ParentId(c')
      ensures Rounds(c', t') < Rounds(c, t)
      ensures Inorder(Plug(c', t')) == Inorder(Plug(c, t)) && store.Keys == old(store.Keys)
    {
      hide Rep, RepCtx, Distinct, CtxDistinct, Ids, CtxIds, Inorder;
      RootHere(store, root, c, t);
      SiblingExists(c, t, h);
      DownRight(store, root, c.up, Refilled(c, t));
      ChildColour(store, root, c.up, Refilled(c, t));
      ghost var d := c;
      var sibling := store[parent].left;
      if IsRed(sibling) {
        d := RotateSiblingRight(parent, sibling, c, t, h);
        RootHere(store, root, d, t);
        SiblingExists(d, t, h);
        sibling := store[parent].left;
      }
      DownRight(store, root, d.up, Refilled(d, t));
      DownLeft(store, root, d.up, Refilled(d, t));
      ghost var w := d.left;
      ghost var wc := InL(d.up, d.red, d.item, t);
      ChildColour(store, root, wc, w);
      Links(store, root, wc, w);
      if !IsRed(store[sibling].right) && !IsRed(store[sibling].left) {
        Paint(sibling, true, wc, w);
        t', c', h' := N(w.(red := true), d.red, d.item, t), d.up, if d.red then h else h + 1;
        DownLeft(store, root, d.up, t');
        ShortageMovesUp(d, t, h);
        NodeOrder(w, w.(red := true));
        NodeOrder(Refilled(d, t), t');
        SameOrder(d.up, Refilled(d, t), t');
        RootHere(store, root, c', t');
        Links(store, root, c', t');
        node' := parent;
        parent' := store[node'].parent;
      } else {
        t', h' := RepairRight(parent, sibling, d, t, h);
        c', node', parent' := Top, root, 0;
        RootHere(store, root, Top, t');
      }
    }

    /** Red sibling on the left: make it the grandparent. */
    method RotateSiblingRight(parent: int, sibling: int, ghost c: Ctx<K, V>, ghost t: Tree<K, V>, ghost h: nat)
      returns (ghost d: Ctx<K, V>)
      requires At(store, root, c, t) && Erasing(c, t, h) && IsBlack(t) && c.InR? && parent == c.item.id
      requires c.left.N? && c.left.red && sibling == c.left.item.id
      modifies this`store, this`root
      ensures At(store, root, d, t) && Erasing(d, t, h) && d.InR? && d.red && d.item == c.item
              && Depth(d) == Depth(c) + 1
      ensures d.left.N? && !d.left.red
      ensures Inorder(Plug(d, t)) == Inorder(Plug(c, t)) && store.Keys == old(store.Keys)
    {
      hide Rep, RepCtx, Distinct, CtxDistinct, Ids, CtxIds, Inorder;
      SiblingExists(c, t, h);
      ghost var p0, w := Refilled(c, t), c.left;
      RedSibling(c.up, c.item, w, h);
      DownRight(store, root, c.up, p0);
      DownLeft(store, root, c.up, p0);
      Paint(sibling, false, InL(c.up, c.red, c.item, t), w);
      ghost var p1 := N(w.(red := false), c.red, c.item, t);
      DownLeft(store, root, c.up, p1);
      Paint(parent, true, c.up, p1);
      ghost var p2 := p1.(red := true);
      RotateRight(parent, c.up, p2);
      ghost var e := InR(w.left, false, w.item, c.up);
      d := InR(w.right, true, c.item, e);
      DownRight(store, root, c.up, RotatedRight(p2));
      DownRight(store, root, e, N(w.right, true, c.item, t));
      NodeOrder(w, w.(red := false));
      NodeOrder(p0, p2);
      RotationKeepsOrder(p2);
      SameOrder(c.up, p0, RotatedRight(p2));
      assert Plug(d, t) == Plug(e, N(w.right, true, c.item, t));
    }

    /** Black sibling on the left with a red child: the final rotations. */
    method RepairRight(parent: int, sibling: int, ghost c: Ctx<K, V>, ghost t: Tree<K, V>, ghost h: nat)
      returns (ghost t': Tree<K, V>, ghost h': nat)
      requires At(store, root, c, t) && Erasing(c, t, h) && IsBlack(t) && c.InR? && parent == c.item.id
      requires c.left.N? && !c.left.red && sibling == c.left.item.id
               && (!IsBlack(c.left.right) || !IsBlack(c.left.left))
      modifies this`store, this`root
      ensures At(store, root, Top, t') && Erasing(Top, t', h')
      ensures Inorder(t') == Inorder(Plug(c, t)) && store.Keys == old(store.Keys)
    {
      hide Rep, RepCtx, Distinct, CtxDistinct, Ids, CtxIds, Inorder;
      SiblingExists(c, t, h);
      ghost var w := c.left;
      ghost var wc := InL(c.up, c.red, c.item, t);
      assert RB(w.right, h) && RB(w.left, h);
      DownRight(store, root, c.up, Refilled(c, t));
      DownLeft(store, root, c.up, Refilled(c, t));
      ChildColour(store, root, wc, w);
      Links(store, root, wc, w);
      var sibling := sibling;
      if !IsRed(store[sibling].left) {
        w := StraightenRight(sibling, wc, w, h);
        RootHere(store, root, wc, w);
        sibling := store[parent].left;
      }
      ghost var p := N(w, c.red, c.item, t);
      DownLeft(store, root, c.up, p);
      FinishRight(parent, sibling, c.up, p, h);
      ghost var q := N(Blacken(w.left), c.red, w.item, N(w.right, false, c.item, t));
      if c.red { RedNotTop(c); }
      RepairedTree(c.up, c.red, t, c.item, w.right, w.item, Blacken(w.left), h);
      t' := Plug(c.up, q);
      h' :| RB(t', h');
      Refocus(store, root, c.up, q);
      NodeOrder(Refilled(c, t), p);
      SameOrder(c.up, Refilled(c, t), q);
    }

    /** Red inner child: rotate it above the sibling, so that the outer child is red. */
    method StraightenRight(sibling: int, ghost wc: Ctx<K, V>, ghost w: Tree<K, V>, ghost h: nat)
      returns (ghost w': Tree<K, V>)
      requires At(store, root, wc, w) && w.N? && !w.red && sibling == w.item.id && RB(w.right, h) && RB(w.left, h)
      requires !IsBlack(w.right) && IsBlack(w.left)
      modifies this`store, this`root
      ensures At(store, root, wc, w') && w'.N? && w'.left.N? && w'.left.red && RB(w'.right, h)
              && RB(Blacken(w'.left), h + 1)
      ensures Inorder(w') == Inorder(w) && store.Keys == old(store.Keys)
    {
      hide Rep, RepCtx, Distinct, CtxDistinct, Ids, CtxIds, Inorder;
      Links(store, root, wc, w);
      DownRight(store, root, wc, w);
      Paint(store[sibling].right, false, InR(w.left, false, w.item, wc), w.right);
      ghost var w1 := N(w.left, false, w.item, Blacken(w.right));
      DownRight(store, root, wc, w1);
      Paint(sibling, true, wc, w1);
      RotateLeft(sibling, wc, w1.(red := true));
      RotationKeepsOrder(w1.(red := true));
      w' := RotatedLeft(w1.(red := true));
      BlackenOrder(w.right);
      NodeOrder(w, w1.(red := true));
    }

    /** The sibling takes the parent's colour, parent and outer child turn black, rotate the parent. */
    method FinishRight(parent: int, sibling: int, ghost up: Ctx<K, V>, ghost p: Tree<K, V>, ghost h: nat)
      requires At(store, root, up, p) && p.N? && p.left.N? && p.left.left.N? && parent == p.item.id
               && sibling == p.left.item.id
      modifies this`store, this`root
      ensures At(store, root, up, N(Blacken(p.left.left), p.red, p.left.item, N(p.left.right, false, p.item, p.right)))
      ensures Inorder(N(Blacken(p.left.left), p.red, p.left.item,
                        N(p.left.right, false, p.item, p.right))) == Inorder(p)
      ensures store.Keys == old(store.Keys)
    {
      hide Rep, RepCtx, Distinct, CtxDistinct, Ids, CtxIds, Inorder;
      ghost var w, wc := p.left, InL(up, p.red, p.item, p.right);
      DownLeft(store, root, up, p);
      RootHere(store, root, wc, w);
      Paint(sibling, store[parent].red, wc, w);
      ghost var w2 := w.(red := p.red);
      DownLeft(store, root, up, N(w2, p.red, p.item, p.right));
      Paint(parent, false, up, N(w2, p.red, p.item, p.right));
      ghost var wc2 := InL(up, false, p.item, p.right);
      DownLeft(store, root, up, N(w2, false, p.item, p.right));
      Links(store, root, wc2, w2);
      DownLeft(store, root, wc2, w2);
      Paint(store[sibling].left, false, InL(wc2, w2.red, w2.item, w2.right), w2.left);
      ghost var w3 := N(Blacken(w2.left), w2.red, w2.item, w2.right);
      DownLeft(store, root, wc2, w3);
      ghost var p3 := N(w3, false, p.item, p.right);
      DownLeft(store, root, up, p3);
      RotateRight(parent, up, p3);
      BlackenOrder(w.left);
      NodeOrder(w, w3);
      NodeOrder(p, p3);
      RotationKeepsOrder(p3);
    }

    /** `minimum` of a nonempty subtree. */
    method Minimum(node: int, ghost c: Ctx<K, V>, ghost t: Tree<K, V>)
      returns (m: int, ghost d: Ctx<K, V>, ghost u: Tree<K, V>)
      requires At(store, root, c, t) && t.N? && node == t.item.id
      ensures LeftSpine(d) && Plug(d, u) == t && u.N? && u.left.E? && m == u.item.id
      ensures At(store, root, Join(d, c), u)
    {
      m, d, u := node, Top, t;
      Links(store, root, c, t);
      while store[m].left != 0
        invariant LeftSpine(d) && Plug(d, u) == t && u.N? && m == u.item.id && m in store
        invariant At(store, root, Join(d, c), u)
        decreases u
      {
        Links(store, root, Join(d, c), u);
        DownLeft(store, root, Join(d, c), u);
        d, u := InL(d, u.red, u.item, u.right), u.left;
        m := store[m].left;
        Links(store, root, Join(d, c), u);
      }
      Links(store, root, Join(d, c), u);
    }

    /** `transplant`. */
    method Transplant(target: int, replacement: int, ghost c: Ctx<K, V>)
      requires target in store && store[target].parent == ParentId(c) && (c.Top? <==> ParentId(c) == 0)
      requires !c.Top? ==> c.item.id in store && (store[c.item.id].left == target <==> c.InL?)
      requires replacement != 0 ==> replacement in store && replacement != ParentId(c)
      requires target != ParentId(c)
      modifies this`store, this`root
      ensures root == if c.Top? then replacement else old(root)
      ensures store == (var s := SetHole(old(store), c, replacement);
                        if replacement == 0 then s else s[replacement := s[replacement].(parent := ParentId(c))])
    {
      var par := store[target].parent;
      if par == 0 {
        root := replacement;
      } else if target == store[par].left {
        store := store[par := store[par].(left := replacement)];
      } else {
        store := store[par := store[par].(right := replacement)];
      }
      if replacement != 0 {
        store := store[replacement := store[replacement].(parent := par)];
      }
    }

    /** Take the successor out of its old place. */
    method Detach(target: int, removed: int, node: int, ghost d: Ctx<K, V>, ghost b: Ctx<K, V>) returns (parent: int)
      requires target in store && removed in store && node == store[removed].right
               && store[removed].parent == ParentId(b)
      requires !b.Top? && ParentId(b) != 0 && b.item.id in store && (store[b.item.id].left == removed <==> b.InL?)
      requires (d.Top? <==> ParentId(b) == target) && (d.Top? ==> b.InR?)
      requires node != 0 ==>
                 && node in store && node != ParentId(b) && node != removed && node != target
                 && store[node].parent == removed
      requires removed != ParentId(b) && removed != target && removed != 0
      requires var r := store[target].right; r in store && r != target && r != node && (r == removed <==> d.Top?)
      modifies this`store, this`root
      ensures parent == (if d.Top? then removed else ParentId(b)) && root == old(root)
      ensures store == (if d.Top? then old(store)
                        else var s, r := Transplanted(old(store), b, node), old(store[target].right);
                             s[removed := s[removed].(right := r)][r := s[r].(parent := removed)])
    {
      if store[removed].parent == target {
        parent := removed;
        if node != 0 {
          store := store[node := store[node].(parent := removed)];
        }
      } else {
        parent := store[removed].parent;
        Transplant(removed, node, b);
        store := store[removed := store[removed].(right := store[target].right)];
        var right := store[removed].right;
        store := store[right := store[right].(parent := removed)];
      }
    }

    /** Put the successor in the place of the target, with its left child and its colour. */
    method TakePlace(target: int, removed: int, ghost c: Ctx<K, V>)
      requires target in store && removed in store && removed != target && removed != 0
      requires store[target].parent == ParentId(c) && (c.Top? <==> ParentId(c) == 0)
      requires !c.Top? ==> c.item.id in store && (store[c.item.id].left == target <==> c.InL?)
      requires removed != ParentId(c) && target != ParentId(c)
      requires var l := store[target].left; l in store && l != target && l != removed && l != ParentId(c)
      modifies this`store, this`root
      ensures root == if c.Top? then removed else old(root)
      ensures store == (var s, l := SetHole(old(store), c, removed), old(store[target].left);
                        s[removed := s[removed].(parent := ParentId(c), left := l,
                                                 red := old(store[target].red))][l := s[l].(parent := removed)])
    {
      Transplant(target, removed, c);
      store := store[removed := store[removed].(left := store[target].left)];
      var left := store[removed].left;
      store := store[left := store[left].(parent := removed)];
      store := store[removed := store[removed].(red := store[target].red)];
    }

    /** Erasing a node with two children: its in-order successor takes its place. */
    method SpliceSuccessor(target: int, ghost c: Ctx<K, V>, ghost t: Tree<K, V>)
      returns (node: int, parent: int, wasRed: bool, ghost d: Ctx<K, V>, ghost ty: Tree<K, V>)
      requires At(store, root, c, t) && t.N? && t.left.N? && t.right.N? && target == t.item.id
      modifies this`store, this`root
      ensures Successor(t, d, ty) && wasRed == ty.red && node == RootId(ty.right)
      ensures var b := Join(d, InR(t.left, t.red, ty.item, c));
              At(store, root, b, ty.right) && parent == ParentId(b) && target !in Ids(ty.right) && target !in CtxIds(b)
      ensures store.Keys == old(store.Keys)
    {
      hide At, Join, Plug, LeftSpine, Ids, CtxIds;
      ghost var s0, r0 := store, root;
      ghost var zc := InR(t.left, t.red, t.item, c);
      DownRight(store, root, c, t);
      Links(store, root, c, t);
      var removed;
      removed, d, ty := Minimum(store[target].right, zc, t.right);
      ghost var b := Join(d, zc);
      SuccessorOut(store, root, c, t, d, ty);
      SuccessorLinks(store, root, c, t, d, ty);
      wasRed := store[removed].red;
      node := store[removed].right;
      parent := Detach(target, removed, node, d, b);
      ghost var m := store;
      TakePlace(target, removed, c);
      SpliceTables(s0, m, store, r0, root, c, t, d, ty);
      JoinParent(d, InR(t.left, t.red, ty.item, c));
      JoinParent(d, zc);
    }

    /** A node with at most one child: the child moves up. */
    method SpliceChild(target: int, node: int, ghost c: Ctx<K, V>, ghost t: Tree<K, V>, ghost u: Tree<K, V>)
      requires At(store, root, c, t) && t.N? && target == t.item.id && node == RootId(u)
      requires (t.left.E? && u == t.right) || (t.right.E? && u == t.left)
      modifies this`store, this`root
      ensures At(store, root, c, u) && store.Keys == old(store.Keys) && target !in Ids(u) && target !in CtxIds(c)
    {
      ghost var s, r := store, root;
      Links(store, root, c, t);
      NoNull(u);
      assert Rep(store, t.item.id, u);
      Transplant(target, node, c);
      TransplantRep(s, store, r, root, c, t, u);
    }

    /** `destroy_node`, and one node less. */
    method Recycle(target: int)
      requires Pooled() && target in store && size > 0
      modifies this`store, this`size, pool, pool.mem`prev
      ensures Pooled() && pool.cached == [target] + old(pool.cached)
      ensures store == old(store) - {target} && size == old(size) - 1
    {
      pool.Destroy(target);
      store := store - {target};
      size := size - 1;
    }

    /** `erase_node`: exactly the target disappears from the order, and every other node keeps its
        key and value. After the target has been recycled it is never read again. */
    method EraseNode(target: int, ghost c: Ctx<K, V>, ghost t: Tree<K, V>, ghost h: nat)
      returns (ghost tree: Tree<K, V>)
      requires At(store, root, c, t) && t.N? && target == t.item.id && Focus(c, t, h) && size > 0 && Pooled()
      modifies this`store, this`root, this`size, pool, pool.mem`prev
      ensures At(store, root, Top, tree) && RedBlack(tree) && size == old(size) - 1
      ensures Inorder(tree) == Before(c) + Inorder(t.left) + Inorder(t.right) + After(c)
      ensures store.Keys == old(store.Keys) - {target} && Pooled() && pool.cached == [target] + old(pool.cached)
    {
      hide Rep, RepCtx, Distinct, CtxDistinct, Ids, CtxIds;
      Links(store, root, c, t);
      RootHere(store, root, c, t);
      var node, parent, wasRed := 0, 0, store[target].red;
      ghost var c', t', h' := c, t, h;
      if store[target].left == 0 || store[target].right == 0 {
        if store[target].left == 0 {
          node := store[target].right;
          t' := t.right;
        } else {
          node := store[target].left;
          t' := t.left;
        }
        parent := store[target].parent;
        SpliceChild(target, node, c, t, t');
        TakenOut(c, t, t', h);
        h' := if t.red then h else h - 1;
        InorderPlug(c, t');
        OneChildOrder(c, t, t');
      } else {
        ghost var d, ty;
        node, parent, wasRed, d, ty := SpliceSuccessor(target, c, t);
        FocusDown(c, t, h);
        h' := SpineFocus(d, InR(t.left, t.red, t.item, c), ty, t.right, if t.red then h else h - 1);
        TakenOutBelow(d, t.left, t.red, t.item, ty.item, c, ty, h');
        c', t' := Join(d, InR(t.left, t.red, ty.item, c)), ty.right;
        h' := if ty.red then h' else h' - 1;
        SplicedOrder(c, t, d, ty);
      }
      RecycleRep(store, root, c', t', target);
      Recycle(target);
      if !wasRed {
        tree := EraseFixup(node, parent, c', t', h');
      } else {
        tree := Plug(c', t');
        Refocus(store, root, c', t');
      }
    }

    /** `find_node`. */
    method Find(key: K) returns (r: int)
      requires Shaped()
      ensures r != 0 ==> exists x :: x in Items() && x.id == r && Equivalent(less, x.key, key)
      ensures r == 0 ==> forall x :: x in Items() ==> !Equivalent(less, x.key, key)
    {
      hide Rep, RepCtx, Distinct, CtxDistinct, Ids, CtxIds;
      ghost var c, t := Top, tree;
      r := root;
      RootHere(store, root, c, t);
      while r != 0
        invariant At(store, root, c, t) && Plug(c, t) == tree && r == RootId(t) && Window(less, c, key)
        invariant r != 0 ==> r in store
        decreases t
      {
        Links(store, root, c, t);
        NodeKey(store, root, c, t);
        WindowDown(less, c, t, key);
        InorderPlug(c, t);
        if less(key, store[r].key) {
          DownLeft(store, root, c, t);
          c, t := InL(c, t.red, t.item, t.right), t.left;
          r := store[r].left;
        } else if less(store[r].key, key) {
          DownRight(store, root, c, t);
          c, t := InR(t.left, t.red, t.item, c), t.right;
          r := store[r].right;
        } else {
          assert t.item in Items();
          return;
        }
        RootHere(store, root, c, t);
      }
      RootHere(store, root, c, t);
      InorderPlug(c, t);
    }

    /** `insert_value`: the absent key is added in a node from the cache or in new storage at `at`, or the tree is
        left untouched; so it is if the constructor of the pair throws. */
    method Insert(key: K, val: V, at: int, throws: bool)
      returns (r: int, inserted: bool, ghost pre: seq<Item<K, V>>, ghost post: seq<Item<K, V>>)
      requires Valid() && at != 0 && at !in pool.mem.owned && at !in pool.mem.anchors
      modifies this, pool, pool.mem
      ensures Valid()
      ensures inserted <==> !throws && forall x :: x in old(Items()) ==> !Equivalent(less, x.key, key)
      ensures inserted ==> old(Items()) == pre + post && Items() == pre + [Item(r, key, val)] + post
      ensures inserted ==> r == (if old(pool.cached) == [] then at else old(pool.cached)[0])
      ensures inserted ==> pool.cached == (if old(pool.cached) == [] then [] else old(pool.cached)[1..])
      ensures inserted ==> pool.mem.owned == old(pool.mem.owned) + {r}
      ensures !inserted ==> tree == old(tree) && store == old(store) && size == old(size) && root == old(root)
      ensures !inserted ==> pool.cached == old(pool.cached) && pool.mem.owned == old(pool.mem.owned)
      ensures !inserted && r != 0 ==> exists x :: x in Items() && x.id == r && Equivalent(less, x.key, key)
      ensures !inserted && r == 0 ==> throws && forall x :: x in old(Items()) ==> !Equivalent(less, x.key, key)
    {
      hide At, RedBlack, SortedKeys, StrictOrder, Ids, CtxIds, Plug, Focus, Window, Before, After;
      pre, post := [], [];
      var current, parent, insertLeft;
      ghost var c, h;
      current, parent, insertLeft, c, h := FindPlace(key);
      if current != 0 {
        return current, false, pre, post;
      }
      r := pool.Create((key, val), at, throws, false);
      if throws {
        return 0, false, pre, post;
      }
      pre, post := Before(c), After(c);
      LinkNewNode(parent, insertLeft, Item(r, key, val), c, h);
      inserted := true;
    }

    /** The search of `insert_value`: a node with an equivalent key, or the place for a new one. */
    method FindPlace(key: K) returns (current: int, parent: int, insertLeft: bool, ghost c: Ctx<K, V>, ghost h: nat)
      requires Shaped()
      ensures current != 0 ==> exists x :: x in Items() && x.id == current && Equivalent(less, x.key, key)
      ensures current == 0 ==>
                && (forall x :: x in Items() ==> !Equivalent(less, x.key, key))
                && At(store, root, c, E) && Plug(c, E) == tree && Focus(c, E, h) && Window(less, c, key)
                && parent == ParentId(c) && (c.InL? ==> insertLeft) && (c.InR? ==> !insertLeft)
                && Items() == Before(c) + After(c)
    {
      hide Rep, RepCtx, Distinct, CtxDistinct, Ids, CtxIds;
      ghost var t := tree;
      c := Top;
      h :| RB(tree, h);
      parent, current, insertLeft := 0, root, false;
      RootHere(store, root, c, t);
      while current != 0
        invariant At(store, root, c, t) && Plug(c, t) == tree && current == RootId(t) && Window(less, c, key)
        invariant Focus(c, t, h) && parent == ParentId(c) && (c.InL? ==> insertLeft) && (c.InR? ==> !insertLeft)
        invariant current != 0 ==> current in store
        decreases t
      {
        Links(store, root, c, t);
        NodeKey(store, root, c, t);
        WindowDown(less, c, t, key);
        FocusDown(c, t, h);
        InorderPlug(c, t);
        parent := current;
        if less(key, store[current].key) {
          DownLeft(store, root, c, t);
          insertLeft := true;
          h := if t.red then h else h - 1;
          c, t := InL(c, t.red, t.item, t.right), t.left;
          current := store[current].left;
        } else if less(store[current].key, key) {
          DownRight(store, root, c, t);
          insertLeft := false;
          h := if t.red then h else h - 1;
          c, t := InR(t.left, t.red, t.item, c), t.right;
          current := store[current].right;
        } else {
          assert t.item in Items();
          return;
        }
        RootHere(store, root, c, t);
      }
      RootHere(store, root, c, t);
      InorderPlug(c, t);
    }

    /** `link_new_node`. */
    method LinkNewNode(parent: int, insertLeft: bool, y: Item<K, V>, ghost c: Ctx<K, V>, ghost h: nat)
      requires Shaped() && At(store, root, c, E) && Plug(c, E) == tree && Focus(c, E, h)
      requires y.id != 0 && y.id !in store && Window(less, c, y.key)
      requires parent == ParentId(c) && (c.InL? ==> insertLeft) && (c.InR? ==> !insertLeft)
      modifies this
      ensures Shaped() && Items() == Before(c) + [y] + After(c)
      ensures size == old(size) + 1 && store.Keys == old(store.Keys) + {y.id}
    {
      hide At, SortedKeys, RedBlack, Ids, Focus, Inserting, StrictOrder, Plug, Window;
      ghost var s, t := store, N(E, true, y, E);
      LinkRep(store, root, c, y);
      RootHere(store, root, c, E);
      LinkedOrder(less, c, y, tree);
      FreshInserting(c, y, h);
      store := store[y.id := Node(parent, 0, 0, true, y.key, y.val)];
      if parent == 0 {
        root := y.id;
      } else if insertLeft {
        store := store[parent := store[parent].(left := y.id)];
      } else {
        store := store[parent := store[parent].(right := y.id)];
      }
      assert store == SetHole(s, c, y.id)[y.id := Node(parent, 0, 0, true, y.key, y.val)];
      tree := InsertFixup(y.id, c, t, h);
      size := size + 1;
      SameItemsSameIds(s.Keys, c, y, tree);
    }

    /** Where the `i`-th item stands. */
    ghost method Position(i: nat) returns (c: Ctx<K, V>, t: Tree<K, V>, h: nat)
      requires Shaped() && i < |Items()|
      ensures Plug(c, t) == tree && t.N? && t.item == Items()[i] && At(store, root, c, t) && Focus(c, t, h)
      ensures Before(c) + Inorder(t.left) == Items()[..i] && Inorder(t.right) + After(c) == Items()[i + 1..]
    {
      hide Rep, RepCtx, Distinct, CtxDistinct, Ids, CtxIds;
      c, t := Locate(Top, tree, i);
      h := FocusAt(c, t);
      Refocus(store, root, c, t);
      SplitAround(c, t, i);
    }

    /** `erase` at an iterator: returns what followed the erased node, which is still there. */
    method EraseAt(node: int, ghost i: nat) returns (next: int)
      requires Valid() && i < |Items()| && node == Items()[i].id
      modifies this, pool, pool.mem`prev
      ensures Valid() && Items() == old(Items())[..i] + old(Items())[i + 1..]
      ensures next == NextId(old(Items()), i) && (i < |Items()| ==> next == Items()[i].id)
      ensures store.Keys == old(store.Keys) - {node} && pool.cached == [node] + old(pool.cached)
    {
      hide Rep, RepCtx, Distinct, CtxDistinct, SortedKeys, RedBlack, StrictOrder, Plug;
      ghost var c, t, h := Position(i);
      next := NextNode(node, i);
      EraseItem(node, i, c, t, h);
    }

    method EraseItem(node: int, ghost i: nat, ghost c: Ctx<K, V>, ghost t: Tree<K, V>, ghost h: nat)
      requires Valid() && i < |Items()| && node == Items()[i].id
      requires Plug(c, t) == tree && t.N? && t.item == Items()[i] && At(store, root, c, t) && Focus(c, t, h)
      requires Before(c) + Inorder(t.left) == Items()[..i] && Inorder(t.right) + After(c) == Items()[i + 1..]
      modifies this, pool, pool.mem`prev
      ensures Valid() && Items() == old(Items())[..i] + old(Items())[i + 1..]
      ensures store.Keys == old(store.Keys) - {node} && pool.cached == [node] + old(pool.cached)
    {
      assert Distinct(tree);
      hide At, SortedKeys, RedBlack, Ids, CtxIds, Focus, StrictOrder, Plug, Distinct, Inorder, Before, After;
      ghost var was := tree;
      RemovedSorted(less, tree, i);
      tree := EraseNode(node, c, t, h);
      Pairs(Before(c), Inorder(t.left), Inorder(t.right), After(c));
      RemovedIds(was, tree, i, store.Keys);
    }

    /** `successor`. */
    method NextNode(node: int, ghost i: nat) returns (r: int)
      requires Shaped() && i < |Items()| && node == Items()[i].id
      ensures r == NextId(Items(), i)
    {
      hide Rep, RepCtx, Distinct, CtxDistinct, Ids, CtxIds, SortedKeys, RedBlack, StrictOrder;
      ghost var c, t, h := Position(i);
      Links(store, root, c, t);
      if store[node].right != 0 {
        DownRight(store, root, c, t);
        ghost var d, u;
        r, d, u := Minimum(store[node].right, InR(t.left, t.red, t.item, c), t.right);
        FirstItem(d, u);
        return;
      }
      var node := node;
      r := store[node].parent;
      ghost var rest := After(c);
      while r != 0 && node == store[r].right
        invariant At(store, root, c, t) && t.N? && node == t.item.id && r == ParentId(c) && After(c) == rest
        invariant r != 0 ==> r in store
        decreases c
      {
        Links(store, root, c, t);
        ghost var up := Refilled(c, t);
        DownRight(store, root, c.up, up);
        c, t := c.up, up;
        node := r;
        Links(store, root, c, t);
        r := store[r].parent;
      }
      Links(store, root, c, t);
    }

    /** `predecessor`. */
    method PreviousNode(node: int, ghost i: nat) returns (r: int)
      requires Shaped() && i < |Items()| && node == Items()[i].id
      ensures r == if i == 0 then 0 else Items()[i - 1].id
    {
      hide Rep, RepCtx, Distinct, CtxDistinct, Ids, CtxIds, SortedKeys, RedBlack, StrictOrder;
      ghost var c, t, h := Position(i);
      Links(store, root, c, t);
      assert i > 0 ==> Items()[..i][i - 1] == Items()[i - 1];
      if store[node].left != 0 {
        DownLeft(store, root, c, t);
        r := Maximum(store[node].left, InL(c, t.red, t.item, t.right), t.left);
        return;
      }
      var node := node;
      r := store[node].parent;
      ghost var rest := Before(c);
      while r != 0 && node == store[r].left
        invariant At(store, root, c, t) && t.N? && node == t.item.id && r == ParentId(c) && Before(c) == rest
        invariant r != 0 ==> r in store
        decreases c
      {
        Links(store, root, c, t);
        ghost var up := Refilled(c, t);
        DownLeft(store, root, c.up, up);
        c, t := c.up, up;
        node := r;
        Links(store, root, c, t);
        r := store[r].parent;
      }
      Links(store, root, c, t);
    }

    /** `maximum` of a nonempty subtree. */
    method Maximum(node: int, ghost c: Ctx<K, V>, ghost t: Tree<K, V>) returns (m: int)
      requires At(store, root, c, t) && t.N? && node == t.item.id
      ensures |Inorder(t)| > 0 && m == Inorder(t)[|Inorder(t)| - 1].id
    {
      hide Rep, RepCtx, Distinct, CtxDistinct, Ids, CtxIds;
      m := node;
      ghost var c, u := c, t;
      Links(store, root, c, u);
      while store[m].right != 0
        invariant At(store, root, c, u) && u.N? && m == u.item.id && m in store
        invariant |Inorder(t)| > 0 && Inorder(u)[|Inorder(u)| - 1] == Inorder(t)[|Inorder(t)| - 1]
        decreases u
      {
        Links(store, root, c, u);
        DownRight(store, root, c, u);
        InorderNode(u);
        c, u := InR(u.left, u.red, u.item, c), u.right;
        InorderNode(u);
        m := store[m].right;
        Links(store, root, c, u);
      }
      Links(store, root, c, u);
    }

    /** `erase` by key. */
    method Erase(key: K) returns (count: nat, ghost i: nat)
      requires Valid()
      modifies this, pool, pool.mem`prev
      ensures Valid()
      ensures count == 0 <==> forall x :: x in old(Items()) ==> !Equivalent(less, x.key, key)
      ensures count == 0 ==> tree == old(tree) && store == old(store) && pool.cached == old(pool.cached)
      ensures count != 0 ==> count == 1 && i < |old(Items())| && Equivalent(less, old(Items())[i].key, key)
                             && Items() == old(Items())[..i] + old(Items())[i + 1..]
                             && pool.cached == [old(Items())[i].id] + old(pool.cached)
    {
      hide At, SortedKeys, RedBlack, StrictOrder, Ids, Distinct, Inorder;
      i := 0;
      var target := Find(key);
      if target == 0 {
        return 0, i;
      }
      ghost var x :| x in Items() && x.id == target && Equivalent(less, x.key, key);
      i :| 0 <= i < |Items()| && Items()[i] == x;
      ghost var c, t, h := Position(i);
      EraseItem(target, i, c, t, h);
      count := 1;
    }

    /** `clear`: every node goes to the cache. */
    method Clear()
      requires Valid()
      modifies this, pool, pool.mem`prev
      ensures Valid() && Items() == [] && store == map[] && size == 0
      ensures (set x | x in pool.cached) == old(store.Keys) + set x | x in old(pool.cached)
      ensures |pool.cached| == |old(pool.cached)| + |old(Items())| && pool.allocations == old(pool.allocations)
    {
      while root != 0
        invariant Valid() && pool.allocations == old(pool.allocations)
        invariant store.Keys + (set x | x in pool.cached) == old(store.Keys) + set x | x in old(pool.cached)
        decreases |Items()|
      {
        RootHere(store, root, Top, tree);
        InorderNode(tree);
        ghost var i := |Inorder(tree.left)|;
        ghost var c, t, h := Position(i);
        EraseItem(root, i, c, t, h);
      }
      RootHere(store, root, Top, tree);
    }

    /** `shrink_to_fit`: the cache goes back to the heap; what stays allocated is what the tree holds. */
    method ShrinkToFit()
      requires Valid()
      modifies pool, pool.mem`prev, pool.mem`owned, pool.mem`returned
      ensures Valid() && Items() == old(Items()) && pool.cached == [] && pool.allocations == size
      ensures pool.mem.owned == old(pool.mem.owned) - set x | x in old(pool.cached)
    {
      hide At, SortedKeys, RedBlack, StrictOrder, Ids, Inorder;
      pool.ShrinkToFit();
    }

    /** `lower_bound_node`: the first node whose key is not less than `key`. */
    method LowerBound(key: K) returns (r: int, ghost i: nat)
      requires Shaped()
      ensures i <= |Items()| && r == if i < |Items()| then Items()[i].id else 0
      ensures forall j :: 0 <= j < i ==> less(Items()[j].key, key)
      ensures forall j :: i <= j < |Items()| ==> !less(Items()[j].key, key)
    {
      hide At, Ids, CtxIds, SortedKeys, RedBlack, Plug;
      ghost var c, t := Top, tree;
      assert Plug(c, t) == tree by { TopPlug(t); }
      r := 0;
      var current := root;
      RootHere(store, root, c, t);
      while current != 0
        invariant At(store, root, c, t) && Plug(c, t) == tree && current == RootId(t)
                  && (current != 0 ==> current in store)
        invariant r == (if After(c) == [] then 0 else After(c)[0].id)
        invariant BoundedBy(x => less(x, key), c)
        decreases t
      {
        Links(store, root, c, t);
        NodeKey(store, root, c, t);
        PlugDown(c, t);
        if !less(store[current].key, key) {
          BoundLeft(less, x => less(x, key), c, t);
          DownLeft(store, root, c, t);
          c, t := InL(c, t.red, t.item, t.right), t.left;
          r := current;
          current := store[current].left;
        } else {
          BoundRight(less, x => less(x, key), c, t);
          DownRight(store, root, c, t);
          c, t := InR(t.left, t.red, t.item, c), t.right;
          current := store[current].right;
        }
        RootHere(store, root, c, t);
      }
      RootHere(store, root, c, t);
      InorderPlug(c, t);
      i := |Before(c)|;
      assert Items() == Before(c) + After(c);
    }

    /** `upper_bound_node`: the first node whose key is greater than `key`. */
    method UpperBound(key: K) returns (r: int, ghost i: nat)
      requires Shaped()
      ensures i <= |Items()| && r == if i < |Items()| then Items()[i].id else 0
      ensures forall j :: 0 <= j < i ==> !less(key, Items()[j].key)
      ensures forall j :: i <= j < |Items()| ==> less(key, Items()[j].key)
    {
      hide At, Ids, CtxIds, SortedKeys, RedBlack, Plug;
      ghost var c, t := Top, tree;
      assert Plug(c, t) == tree by { TopPlug(t); }
      r := 0;
      var current := root;
      RootHere(store, root, c, t);
      while current != 0
        invariant At(store, root, c, t) && Plug(c, t) == tree && current == RootId(t)
                  && (current != 0 ==> current in store)
        invariant r == (if After(c) == [] then 0 else After(c)[0].id)
        invariant BoundedBy(x => !less(key, x), c)
        decreases t
      {
        Links(store, root, c, t);
        NodeKey(store, root, c, t);
        PlugDown(c, t);
        if less(key, store[current].key) {
          BoundLeft(less, x => !less(key, x), c, t);
          DownLeft(store, root, c, t);
          c, t := InL(c, t.red, t.item, t.right), t.left;
          r := current;
          current := store[current].left;
        } else {
          BoundRight(less, x => !less(key, x), c, t);
          DownRight(store, root, c, t);
          c, t := InR(t.left, t.red, t.item, c), t.right;
          current := store[current].right;
        }
        RootHere(store, root, c, t);
      }
      RootHere(store, root, c, t);
      InorderPlug(c, t);
      i := |Before(c)|;
      assert Items() == Before(c) + After(c);
    }

    /** Iteration from `begin()` by `successor` visits every item once, in key order. */
    method Traverse() returns (ids: seq<int>)
      requires Shaped()
      ensures |ids| == |Items()| && forall i :: 0 <= i < |ids| ==> ids[i] == Items()[i].id
    {
      hide Rep, RepCtx, CtxDistinct, CtxIds, SortedKeys, RedBlack, StrictOrder;
      ids := [];
      var current := 0;
      RootHere(store, root, Top, tree);
      if root != 0 {
        ghost var d, u;
        current, d, u := Minimum(root, Top, tree);
        FirstItem(d, u);
      }
      while current != 0
        invariant |ids| <= |Items()| && forall i :: 0 <= i < |ids| ==> ids[i] == Items()[i].id
        invariant current == if |ids| < |Items()| then Items()[|ids|].id else 0
        decreases |Items()| - |ids|
      {
        ghost var k := |ids|;
        var next := NextNode(current, k);
        ids := ids + [current];
        if |ids| < |Items()| { ItemNotNull(tree, |ids|); }
        current := next;
      }
      if |ids| < |Items()| { ItemNotNull(tree, |ids|); }
    }
  }
}
