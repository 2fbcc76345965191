/** One step of each red-black tree operation: what it does to the node table and to the tree. */
module RbSteps {
  import opened Orders
  import opened RbTrees
  import opened RbStore

  // ---------------------------------------------------------------- rotated trees

  function RotatedLeft<K, V>(t: Tree<K, V>): Tree<K, V>
    requires t.N? && t.right.N?
  {
    N(N(t.left, t.red, t.item, t.right.left), t.right.red, t.right.item, t.right.right)
  }

  function RotatedRight<K, V>(t: Tree<K, V>): Tree<K, V>
    requires t.N? && t.left.N?
  {
    N(t.left.left, t.left.red, t.left.item, N(t.left.right, t.red, t.item, t.right))
  }

  lemma Reassociate<T>(a: seq<T>, x: T, b: seq<T>, y: T, c: seq<T>)
    ensures (a + [x] + b) + [y] + c == a + [x] + (b + [y] + c)
  {
  }

  /** A rotation keeps the nodes and their order. */
  lemma RotationKeepsOrder<K, V>(t: Tree<K, V>)
    requires t.N?
    ensures t.right.N? ==> Inorder(RotatedLeft(t)) == Inorder(t)
    ensures t.left.N? ==> Inorder(RotatedRight(t)) == Inorder(t)
  {
    if t.right.N? {
      Reassociate(Inorder(t.left), t.item, Inorder(t.right.left), t.right.item, Inorder(t.right.right));
    }
    if t.left.N? {
      Reassociate(Inorder(t.left.left), t.left.item, Inorder(t.left.right), t.item, Inorder(t.right));
    }
  }

  lemma RotationKeepsIds<K, V>(a: Tree<K, V>, rx: bool, x: Item<K, V>, b: Tree<K, V>, ry: bool, y: Item<K, V>,
                               c: Tree<K, V>)
    ensures Ids(N(a, rx, x, N(b, ry, y, c))) == Ids(a) + {x.id} + Ids(b) + {y.id} + Ids(c)
    ensures Ids(N(N(a, rx, x, b), ry, y, c)) == Ids(a) + {x.id} + Ids(b) + {y.id} + Ids(c)
    ensures Distinct(N(a, rx, x, N(b, ry, y, c))) <==> Distinct(N(N(a, rx, x, b), ry, y, c))
  {
    assert Ids(N(b, ry, y, c)) == Ids(b) + {y.id} + Ids(c);
    assert Ids(N(a, rx, x, b)) == Ids(a) + {x.id} + Ids(b);
  }

  /** The table after a left rotation represents the rotated tree. */
  lemma RotateLeftRep<K, V>(s: Store<K, V>, s': Store<K, V>, root: int, root': int, c: Ctx<K, V>, t: Tree<K, V>)
    requires At(s, root, c, t) && t.N? && t.right.N?
    requires root' == (if c.Top? then t.right.item.id else root) && (!c.Top? ==> c.item.id in s)
    requires var x, y, b := t.item.id, t.right.item.id, RootId(t.right.left);
             && s'.Keys == s.Keys
             && x in s && y in s && s'[x] == s[x].(parent := y, right := b)
             && s'[y] == s[y].(parent := ParentId(c), left := x)
             && (b != 0 ==> b in s && s'[b] == s[b].(parent := x))
             && forall i :: i in s && i != x && i != y && i != b ==> s'[i] == SetHole(s, c, y)[i]
    ensures At(s', root', c, RotatedLeft(t))
  {
    var x, y := t.item.id, t.right.item.id;
    RotationKeepsIds(t.left, t.red, t.item, t.right.left, t.right.red, t.right.item, t.right.right);
    RepIds(s, ParentId(c), t);
    RepCtxIds(s, root, c, x);
    assert Rep(s, x, t.right) && Distinct(t.right);
    NoNull(t);
    CtxNoNull(c);
    NoNull(t.right.left);
    HoleReplaced(s, s', root, root', c, x, y);
    RepFrame(s, s', x, t.left);
    Reparented(s, s', y, x, t.right.left);
    RepFrame(s, s', y, t.right.right);
    assert Rep(s', y, N(t.left, t.red, t.item, t.right.left));
  }

  lemma RotateRightRep<K, V>(s: Store<K, V>, s': Store<K, V>, root: int, root': int, c: Ctx<K, V>, t: Tree<K, V>)
    requires At(s, root, c, t) && t.N? && t.left.N?
    requires root' == (if c.Top? then t.left.item.id else root) && (!c.Top? ==> c.item.id in s)
    requires var x, y, b := t.item.id, t.left.item.id, RootId(t.left.right);
             && s'.Keys == s.Keys
             && x in s && y in s && s'[x] == s[x].(parent := y, left := b)
             && s'[y] == s[y].(parent := ParentId(c), right := x)
             && (b != 0 ==> b in s && s'[b] == s[b].(parent := x))
             && forall i :: i in s && i != x && i != y && i != b ==> s'[i] == SetHole(s, c, y)[i]
    ensures At(s', root', c, RotatedRight(t))
  {
    var x, y := t.item.id, t.left.item.id;
    RotationKeepsIds(t.left.left, t.left.red, t.left.item, t.left.right, t.red, t.item, t.right);
    RepIds(s, ParentId(c), t);
    RepCtxIds(s, root, c, x);
    assert Rep(s, x, t.left) && Distinct(t.left);
    NoNull(t);
    CtxNoNull(c);
    NoNull(t.left.right);
    HoleReplaced(s, s', root, root', c, x, y);
    RepFrame(s, s', x, t.right);
    Reparented(s, s', y, x, t.left.right);
    RepFrame(s, s', y, t.left.left);
    assert Rep(s', y, N(t.left.right, t.red, t.item, t.right));
  }

  /** What is known of the links of a position before a rotation there. */
  lemma Links<K, V>(s: Store<K, V>, root: int, c: Ctx<K, V>, t: Tree<K, V>)
    requires At(s, root, c, t) && t.N?
    ensures Ids(t) <= s.Keys && CtxIds(c) <= s.Keys && t.item.id in Ids(t) && t.item.id != 0
    ensures s[t.item.id].parent == ParentId(c) && s[t.item.id].left == RootId(t.left)
            && s[t.item.id].right == RootId(t.right)
    ensures RootId(t.left) != 0 <==> t.left.N?
    ensures RootId(t.right) != 0 <==> t.right.N?
    ensures !c.Top? ==> c.item.id in CtxIds(c) && c.item.id != 0 && (s[c.item.id].left == t.item.id <==> c.InL?)
    ensures !c.Top? ==> (s[c.item.id].right == t.item.id <==> c.InR?)
    ensures c.Top? <==> root == t.item.id
    ensures c.Top? <==> ParentId(c) == 0
  {
    RepIds(s, ParentId(c), t);
    RepCtxIds(s, root, c, t.item.id);
    RootInCtx(s, root, c, t.item.id);
    NoNull(t.left);
    NoNull(t.right);
    if c.InR? { NoNull(c.left); }
    if c.InL? { NoNull(c.right); }
  }

  /** The four addresses a left rotation touches are what the tree says, and all different. */
  lemma LeftRotationLinks<K, V>(s: Store<K, V>, root: int, c: Ctx<K, V>, t: Tree<K, V>)
    requires At(s, root, c, t) && t.N? && t.right.N?
    ensures var x, y, b, p := t.item.id, t.right.item.id, RootId(t.right.left), ParentId(c);
            && x in s && y in s && s[x].right == y && s[y].left == b && s[x].parent == p
            && x != 0 && y != 0 && x != y && (b != 0 ==> b in s && b != x && b != y)
            && (c.Top? <==> p == 0) && (!c.Top? ==> p in s && p != x && p != y && p != b)
            && (!c.Top? ==> (s[p].left == x <==> c.InL?))
  {
    Links(s, root, c, t);
    DownRight(s, root, c, t);
    Links(s, root, InR(t.left, t.red, t.item, c), t.right);
    NoNull(t.right.left);
  }

  lemma RightRotationLinks<K, V>(s: Store<K, V>, root: int, c: Ctx<K, V>, t: Tree<K, V>)
    requires At(s, root, c, t) && t.N? && t.left.N?
    ensures var x, y, b, p := t.item.id, t.left.item.id, RootId(t.left.right), ParentId(c);
            && x in s && y in s && s[x].left == y && s[y].right == b && s[x].parent == p
            && x != 0 && y != 0 && x != y && (b != 0 ==> b in s && b != x && b != y)
            && (c.Top? <==> p == 0) && (!c.Top? ==> p in s && p != x && p != y && p != b)
            && (!c.Top? ==> (s[p].left == x <==> c.InL?))
  {
    Links(s, root, c, t);
    DownLeft(s, root, c, t);
    Links(s, root, InL(c, t.red, t.item, t.right), t.left);
    NoNull(t.left.right);
  }

  /** The root of a tree with a hole elsewhere is one of the surrounding nodes. */
  lemma {:induction false} RootInCtx<K, V>(s: Store<K, V>, root: int, c: Ctx<K, V>, hole: int)
    requires RepCtx(s, root, c, hole)
    ensures if c.Top? then root == hole else root in CtxIds(c)
    decreases c
  {
    if !c.Top? {
      RootInCtx(s, root, c.up, c.item.id);
    }
  }

  // ---------------------------------------------------------------- painting

  lemma PaintRep<K, V>(s: Store<K, V>, root: int, c: Ctx<K, V>, t: Tree<K, V>, red: bool)
    requires At(s, root, c, t) && t.N?
    ensures t.item.id in s
    ensures At(s[t.item.id := s[t.item.id].(red := red)], root, c, t.(red := red))
  {
    var s' := s[t.item.id := s[t.item.id].(red := red)];
    RepIds(s, ParentId(c), t);
    RepCtxIds(s, root, c, t.item.id);
    RepFrame(s, s', t.item.id, t.left);
    RepFrame(s, s', t.item.id, t.right);
    RepCtxFrame(s, s', root, c, t.item.id);
  }

  /** What is in a hole may be exchanged for anything with the same order and the same nodes. */
  lemma SameOrder<K, V>(c: Ctx<K, V>, t: Tree<K, V>, t': Tree<K, V>)
    requires Inorder(t) == Inorder(t')
    ensures Inorder(Plug(c, t)) == Inorder(Plug(c, t'))
  {
    InorderPlug(c, t);
    InorderPlug(c, t');
  }

  // ---------------------------------------------------------------- insertion, on trees

  /** The loop invariant of `insert_fixup`: only the red node in focus may have a red parent. */
  ghost predicate Inserting<K, V>(c: Ctx<K, V>, t: Tree<K, V>, h: nat) {
    t.N? && t.red && RB(t, h) && CtxOk(c, h) && RootBlack(c)
  }

  /** A red parent has a parent, and that one is black. */
  lemma RedParent<K, V>(c: Ctx<K, V>, t: Tree<K, V>, h: nat)
    requires Inserting(c, t, h) && !c.Top? && c.red
    ensures !c.up.Top? && !c.up.red && CtxOk(c.up.up, h + 1) && RootBlack(c.up.up)
    ensures var u := if c.up.InL? then c.up.right else c.up.left; RB(u, h)
    ensures var w := if c.InL? then c.right else c.left; RB(w, h) && IsBlack(w)
  {
    assert CtxOk(c.up, h) && TopBlack(c.up);
    assert !c.up.Top? ==> RootBlack(c.up);
  }

  /** Red uncle: parent and uncle turn black, and the red grandparent is the next focus. */
  lemma RecolouredInserting<K, V>(up: Ctx<K, V>, l: Tree<K, V>, g: Item<K, V>, r: Tree<K, V>, h: nat)
    requires CtxOk(up, h + 1) && RootBlack(up) && l.N? && r.N? && l.red && r.red
    requires RB(l.left, h) && RB(l.right, h) && RB(r.left, h) && RB(r.right, h)
    ensures Inserting(up, N(Blacken(l), true, g, Blacken(r)), h + 1)
  {
    assert RB(Blacken(l), h + 1) && RB(Blacken(r), h + 1);
  }

  /** Black uncle: after the rotation the parent is black and the loop ends. */
  lemma RotatedInserting<K, V>(up: Ctx<K, V>, t: Tree<K, V>, p: Item<K, V>, w: Tree<K, V>, g: Item<K, V>,
                               u: Tree<K, V>, h: nat)
    requires CtxOk(up, h + 1) && RootBlack(up) && t.N? && t.red && RB(t, h)
    requires RB(w, h) && IsBlack(w) && RB(u, h) && IsBlack(u)
    ensures Inserting(InL(up, false, p, N(w, true, g, u)), t, h)
    ensures Inserting(InR(N(u, true, g, w), false, p, up), t, h)
  {
  }

  /** Node on the inner side: the first rotation makes its old parent the outer one. */
  lemma InnerInserting<K, V>(up: Ctx<K, V>, w: Tree<K, V>, p: Item<K, V>, t: Tree<K, V>, h: nat)
    requires t.N? && t.red && RB(t, h) && RB(w, h) && IsBlack(w)
    ensures RB(N(w, true, p, t.left), h) && RB(N(t.right, true, p, w), h)
    ensures RB(t.left, h) && IsBlack(t.left) && RB(t.right, h) && IsBlack(t.right)
  {
  }

  /** One level up: the innermost surrounding node with the hole filled. */
  function Refilled<K, V>(c: Ctx<K, V>, t: Tree<K, V>): Tree<K, V>
    requires !c.Top?
  {
    match c
    case InL(_, red, item, right) => N(t, red, item, right)
    case InR(left, red, item, _) => N(left, red, item, t)
  }

  lemma InsertingNode<K, V>(c: Ctx<K, V>, t: Tree<K, V>, h: nat)
    requires Inserting(c, t, h)
    ensures t.N?
  {
  }

  /** The colour read through a parent or child link is the colour in the tree. */
  lemma ParentColour<K, V>(s: Store<K, V>, root: int, c: Ctx<K, V>, t: Tree<K, V>)
    requires At(s, root, c, t) && t.N? && !c.Top?
    ensures t.item.id in s && s[t.item.id].parent == c.item.id && c.item.id in s && s[c.item.id].red == c.red
  {
  }

  lemma ChildColour<K, V>(s: Store<K, V>, root: int, c: Ctx<K, V>, t: Tree<K, V>)
    requires At(s, root, c, t) && t.N?
    ensures t.left.N? ==> t.left.item.id in s && s[t.left.item.id].red == t.left.red
    ensures t.right.N? ==> t.right.item.id in s && s[t.right.item.id].red == t.right.red
  {
    assert Rep(s, t.item.id, t.left) && Rep(s, t.item.id, t.right);
  }

  lemma InsertedRoot<K, V>(c: Ctx<K, V>, t: Tree<K, V>, h: nat)
    requires Inserting(c, t, h) && TopBlack(c)
    ensures Plug(c, t).N? && RedBlack(Blacken(Plug(c, t))) && Inorder(Blacken(Plug(c, t))) == Inorder(Plug(c, t))
  {
    PlugNode(c, t);
    if c.Top? {
      assert RB(Blacken(t), h + 1);
    } else {
      PlugRedBlack(c, t, h);
    }
  }

  lemma {:induction false} PlugNode<K, V>(c: Ctx<K, V>, t: Tree<K, V>)
    requires t.N?
    ensures Plug(c, t).N?
    decreases c
  {
    if !c.Top? { PlugNode(c.up, Refilled(c, t)); }
  }

  lemma RecolouredOrder<K, V>(t: Tree<K, V>)
    requires t.N?
    ensures Inorder(N(Blacken(t.left), true, t.item, Blacken(t.right))) == Inorder(t)
  {
  }

  /** Lifting the left child above the root keeps the order. */
  lemma LiftOrder<K, V>(t: Tree<K, V>, u: Tree<K, V>, r: Tree<K, V>)
    requires t.N? && u.N? && u.left.N? && u.item == t.item && u.right == t.right && Inorder(u.left) == Inorder(t.left)
    requires r == N(u.left.left, false, u.left.item, N(u.left.right, true, u.item, u.right))
    ensures Inorder(r) == Inorder(t)
  {
    Reassociate(Inorder(u.left.left), u.left.item, Inorder(u.left.right), u.item, Inorder(u.right));
  }

  lemma LiftOrderRight<K, V>(t: Tree<K, V>, u: Tree<K, V>, r: Tree<K, V>)
    requires t.N? && u.N? && u.right.N? && u.item == t.item && u.left == t.left && Inorder(u.right) == Inorder(t.right)
    requires r == N(N(u.left, true, u.item, u.right.left), false, u.right.item, u.right.right)
    ensures Inorder(r) == Inorder(t)
  {
    Reassociate(Inorder(u.left), u.item, Inorder(u.right.left), u.right.item, Inorder(u.right.right));
  }

  // ---------------------------------------------------------------- erasure, on trees

  /** The loop invariant of `erase_fixup`: the subtree in focus is one black node short. */
  ghost predicate Erasing<K, V>(c: Ctx<K, V>, t: Tree<K, V>, h: nat) {
    Almost(t, h) && CtxOk(c, h + 1) && RootBlack(c)
  }

  function Sibling<K, V>(c: Ctx<K, V>): Tree<K, V>
    requires !c.Top?
  {
    if c.InL? then c.right else c.left
  }

  /** A subtree that is one black node short always has a sibling. */
  lemma SiblingExists<K, V>(c: Ctx<K, V>, t: Tree<K, V>, h: nat)
    requires Erasing(c, t, h) && !c.Top? && IsBlack(t)
    ensures Sibling(c).N? && RB(Sibling(c), h + 1) && RB(t, h)
    ensures c.red ==> IsBlack(Sibling(c)) && TopBlack(c.up) && CtxOk(c.up, h + 1)
    ensures !c.red ==> CtxOk(c.up, h + 2)
    ensures RootBlack(c.up)
  {
  }

  /** Red sibling: after the rotation the sibling is black and the parent red. */
  lemma RedSibling<K, V>(up: Ctx<K, V>, p: Item<K, V>, w: Tree<K, V>, h: nat)
    requires w.N? && w.red && RB(w, h + 1) && CtxOk(up, h + 2) && RootBlack(up)
    ensures w.left.N? && w.right.N? && !w.left.red && !w.right.red
    ensures var c := InL(InL(up, false, w.item, w.right), true, p, w.left); CtxOk(c, h + 1) && RootBlack(c)
    ensures var c := InR(w.right, true, p, InR(w.left, false, w.item, up)); CtxOk(c, h + 1) && RootBlack(c)
  {
    assert RB(w.left, h + 1) && RB(w.right, h + 1);
    var c := InL(up, false, w.item, w.right);
    assert CtxOk(c, h + 1) && RootBlack(c);
    var d := InR(w.left, false, w.item, up);
    assert CtxOk(d, h + 1) && RootBlack(d);
  }

  /** Black sibling with black children: the shortage moves up to the parent. */
  lemma ShortageMovesUp<K, V>(c: Ctx<K, V>, t: Tree<K, V>, h: nat)
    requires Erasing(c, t, h) && !c.Top? && IsBlack(t)
    requires var w := Sibling(c); w.N? && !w.red && IsBlack(w.left) && IsBlack(w.right)
    ensures var w := Sibling(c).(red := true);
            var u := if c.InL? then N(t, c.red, c.item, w) else N(w, c.red, c.item, t);
            Erasing(c.up, u, if c.red then h else h + 1)
  {
    SiblingExists(c, t, h);
    var w := Sibling(c);
    assert RB(w.left, h) && RB(w.right, h) && RB(w.(red := true), h);
  }

  /** Black sibling with a red outer child: the last rotation repairs everything. */
  lemma RepairedTree<K, V>(up: Ctx<K, V>, red: bool, a: Tree<K, V>, p: Item<K, V>, b: Tree<K, V>, w: Item<K, V>,
                           d: Tree<K, V>, h: nat)
    requires RB(a, h) && RB(b, h) && RB(d, h + 1) && IsBlack(d) && RootBlack(up)
    requires CtxOk(up, if red then h + 1 else h + 2) && (red ==> TopBlack(up) && !up.Top?)
    ensures RedBlack(Plug(up, N(N(a, false, p, b), red, w, d)))
    ensures RedBlack(Plug(up, N(d, red, w, N(b, false, p, a))))
  {
    var t := N(N(a, false, p, b), red, w, d);
    assert RB(N(a, false, p, b), h + 1) && RB(N(b, false, p, a), h + 1);
    PlugRedBlack(up, t, if red then h + 1 else h + 2);
    PlugRedBlack(up, N(d, red, w, N(b, false, p, a)), if red then h + 1 else h + 2);
  }

  lemma RedNotTop<K, V>(c: Ctx<K, V>)
    requires RootBlack(c) && !c.Top? && c.red
    ensures !c.up.Top?
  {
  }

  /** Painting the focus black ends the erasure. */
  lemma ErasedTree<K, V>(c: Ctx<K, V>, t: Tree<K, V>, h: nat)
    requires Erasing(c, t, h) && (c.Top? || !IsBlack(t))
    ensures RedBlack(Plug(c, Blacken(t))) && Inorder(Blacken(t)) == Inorder(t)
  {
    var k: nat := if IsBlack(t) then h else h + 1;
    assert RB(Blacken(t), k);
    PlugRedBlack(c, Blacken(t), k);
  }

  ghost function Rounds<K, V>(c: Ctx<K, V>, t: Tree<K, V>): nat {
    if c.Top? || !IsBlack(t) then 0 else 1 + Depth(c)
  }

  lemma BlackenOrder<K, V>(t: Tree<K, V>)
    ensures Inorder(Blacken(t)) == Inorder(t)
  {
  }

  /** Colours do not matter for the order. */
  lemma NodeOrder<K, V>(t: Tree<K, V>, t': Tree<K, V>)
    requires t.N? && t'.N? && t.item == t'.item
    requires Inorder(t.left) == Inorder(t'.left) && Inorder(t.right) == Inorder(t'.right)
    ensures Inorder(t) == Inorder(t')
  {
  }

  /** A position is the root exactly when nothing surrounds it, even if it is empty. */
  lemma RootHere<K, V>(s: Store<K, V>, root: int, c: Ctx<K, V>, t: Tree<K, V>)
    requires At(s, root, c, t)
    ensures c.Top? <==> root == RootId(t)
    ensures t.N? ==> t.item.id in s && t.item.id != 0 && s[t.item.id].red == t.red
    ensures !c.Top? ==>
              && c.item.id in s && c.item.id != 0 && s[c.item.id].parent == ParentId(c.up)
              && s[c.item.id].red == c.red
    ensures c.InL? ==> s[c.item.id].left == RootId(t) && s[c.item.id].right == RootId(c.right)
    ensures c.InR? ==> s[c.item.id].right == RootId(t) && s[c.item.id].left == RootId(c.left)
    ensures !c.Top? && Sibling(c).N? ==> RootId(Sibling(c)) != RootId(t) && RootId(Sibling(c)) != 0
  {
    RootInCtx(s, root, c, RootId(t));
    CtxNoNull(c);
    NoNull(t);
    if !c.Top? { NoNull(Sibling(c)); }
  }

  // ---------------------------------------------------------------- taking a node out

  /** The context `d` inside the hole of `b`. */
  function Join<K, V>(d: Ctx<K, V>, b: Ctx<K, V>): Ctx<K, V>
    decreases d
  {
    match d
    case Top => b
    case InL(up, red, item, right) => InL(Join(up, b), red, item, right)
    case InR(left, red, item, up) => InR(left, red, item, Join(up, b))
  }

  /** A path that only goes left. */
  predicate LeftSpine<K, V>(d: Ctx<K, V>)
    decreases d
  {
    d.Top? || (d.InL? && LeftSpine(d.up))
  }

  lemma {:induction false} SpineBefore<K, V>(d: Ctx<K, V>)
    requires LeftSpine(d)
    ensures Before(d) == []
    decreases d
  {
    if !d.Top? { SpineBefore(d.up); }
  }

  lemma {:induction false} JoinAt<K, V>(s: Store<K, V>, root: int, d: Ctx<K, V>, b: Ctx<K, V>, t: Tree<K, V>)
    ensures At(s, root, Join(d, b), t) <==> At(s, root, b, Plug(d, t))
    ensures Plug(Join(d, b), t) == Plug(b, Plug(d, t))
    decreases d
  {
    match d
    case Top =>
    case InL(up, red, item, right) =>
      JoinAt(s, root, up, b, N(t, red, item, right));
      DownLeft(s, root, Join(up, b), N(t, red, item, right));
    case InR(left, red, item, up) =>
      JoinAt(s, root, up, b, N(left, red, item, t));
      DownRight(s, root, Join(up, b), N(left, red, item, t));
  }

  /** Exchanging the node at the foot of a path changes no colour. */
  lemma {:induction false} JoinColours<K, V>(d: Ctx<K, V>, l: Tree<K, V>, red: bool, z: Item<K, V>, y: Item<K, V>,
                                             c: Ctx<K, V>, h: nat)
    ensures CtxOk(Join(d, InR(l, red, z, c)), h) <==> CtxOk(Join(d, InR(l, red, y, c)), h)
    ensures RootBlack(Join(d, InR(l, red, z, c))) <==> RootBlack(Join(d, InR(l, red, y, c)))
    ensures TopBlack(Join(d, InR(l, red, z, c))) <==> TopBlack(Join(d, InR(l, red, y, c)))
    ensures Join(d, InR(l, red, z, c)).Top? <==> Join(d, InR(l, red, y, c)).Top?
    decreases d
  {
    if !d.Top? {
      JoinColours(d.up, l, red, z, y, c, if d.red then h else h + 1);
    }
  }

  /** A node with at most one child is replaced by that child. */
  lemma TransplantRep<K, V>(s: Store<K, V>, s': Store<K, V>, root: int, root': int, c: Ctx<K, V>, t: Tree<K, V>,
                            u: Tree<K, V>)
    requires At(s, root, c, t) && t.N? && (u == t.left || u == t.right)
    requires root' == (if c.Top? then RootId(u) else root) && (!c.Top? ==> c.item.id in s)
    requires s'.Keys == s.Keys
    requires u.N? ==> u.item.id in s && s'[u.item.id] == s[u.item.id].(parent := ParentId(c))
    requires forall i :: i in Ids(u) + CtxIds(c) && i != RootId(u) ==>
               && i in s && i in s'
               && s'[i] == SetHole(s, c, RootId(u))[i]
    ensures At(s', root', c, u)
  {
    RepIds(s, ParentId(c), t);
    RepCtxIds(s, root, c, t.item.id);
    NoNull(u);
    CtxNoNull(c);
    assert Ids(u) <= Ids(t) && Rep(s, t.item.id, u) && Distinct(u);
    HoleReplaced(s, s', root, root', c, t.item.id, RootId(u));
    Reparented(s, s', t.item.id, ParentId(c), u);
  }

  /** A node `y` from outside takes the place, the children and the colour of `z`. */
  lemma ReplaceNodeRep<K, V>(s: Store<K, V>, s': Store<K, V>, root: int, root': int, c: Ctx<K, V>, t: Tree<K, V>,
                             y: Item<K, V>)
    requires At(s, root, c, t) && t.N? && y.id !in Ids(t) && y.id !in CtxIds(c) && y.id != 0
    requires root' == (if c.Top? then y.id else root) && (!c.Top? ==> c.item.id in s)
    requires y.id in s' && s'[y.id] == Node(ParentId(c), RootId(t.left), RootId(t.right), t.red, y.key, y.val)
    requires t.left.N? ==>
               && t.left.item.id in s && t.left.item.id in s'
               && s'[t.left.item.id] == s[t.left.item.id].(parent := y.id)
    requires t.right.N? ==>
               && t.right.item.id in s && t.right.item.id in s'
               && s'[t.right.item.id] == s[t.right.item.id].(parent := y.id)
    requires forall i :: i in Ids(t) + CtxIds(c) && i != t.item.id && i != RootId(t.left) && i != RootId(t.right) ==>
               i in s && i in s' && s'[i] == SetHole(s, c, y.id)[i]
    ensures At(s', root', c, N(t.left, t.red, y, t.right))
  {
    RepIds(s, ParentId(c), t);
    RepCtxIds(s, root, c, t.item.id);
    NoNull(t.left);
    NoNull(t.right);
    CtxNoNull(c);
    assert Rep(s, t.item.id, t.left) && Rep(s, t.item.id, t.right);
    HoleReplaced(s, s', root, root', c, t.item.id, y.id);
    Reparented(s, s', t.item.id, y.id, t.left);
    Reparented(s, s', t.item.id, y.id, t.right);
  }

  lemma {:induction false} JoinIds<K, V>(d: Ctx<K, V>, b: Ctx<K, V>)
    ensures CtxIds(Join(d, b)) == CtxIds(d) + CtxIds(b)
    decreases d
  {
    if !d.Top? { JoinIds(d.up, b); }
  }

  lemma {:induction false} PlugRoot<K, V>(d: Ctx<K, V>, t: Tree<K, V>, u: Tree<K, V>)
    requires !d.Top?
    ensures RootId(Plug(d, t)) == RootId(Plug(d, u)) && Plug(d, u).N?
    decreases d
  {
    if !d.up.Top? {
      PlugRoot(d.up, Refilled(d, t), Refilled(d, u));
    }
  }

  lemma {:induction false} JoinParent<K, V>(d: Ctx<K, V>, b: Ctx<K, V>)
    ensures ParentId(Join(d, b)) == if d.Top? then ParentId(b) else ParentId(d)
    ensures Join(d, b).Top? <==> d.Top? && b.Top?
    ensures !d.Top? ==> ParentId(d) in CtxIds(d)
  {
  }

  /** The table after `u` took the place of its parent in the hole of `c`. */
  function Transplanted<K, V>(s: Store<K, V>, c: Ctx<K, V>, u: int): Store<K, V>
    requires (!c.Top? ==> c.item.id in s) && (u != 0 ==> u in s)
  {
    var s' := SetHole(s, c, u);
    if u == 0 then s' else s'[u := s'[u].(parent := ParentId(c))]
  }

  /** The successor `y` of a node `z` with two children, and the tree without it. */
  ghost predicate Successor<K, V>(t: Tree<K, V>, d: Ctx<K, V>, ty: Tree<K, V>) {
    t.N? && t.left.N? && t.right.N? && LeftSpine(d) && Plug(d, ty) == t.right && ty.N? && ty.left.E?
  }

  lemma SuccessorOut<K, V>(s: Store<K, V>, root: int, c: Ctx<K, V>, t: Tree<K, V>, d: Ctx<K, V>, ty: Tree<K, V>)
    requires At(s, root, c, t) && Successor(t, d, ty)
    ensures var b := Join(d, InR(t.left, t.red, t.item, c));
            && At(s, root, b, ty) && b.item.id in s && (ty.right.N? ==> ty.right.item.id in s)
            && At(Transplanted(s, b, RootId(ty.right)), root, c, N(t.left, t.red, t.item, Plug(d, ty.right)))
            && At(Transplanted(s, b, RootId(ty.right)), root, b, ty.right)
    ensures ty.item.id !in Ids(N(t.left, t.red, t.item, Plug(d, ty.right))) && ty.item.id !in CtxIds(c)
            && ty.item.id != 0
  {
    hide Rep, RepCtx, CtxDistinct, Inorder, LeftSpine;
    var zc := InR(t.left, t.red, t.item, c);
    var b := Join(d, zc);
    DownRight(s, root, c, t);
    JoinAt(s, root, d, zc, ty);
    Links(s, root, b, ty);
    NoNull(ty.right);
    JoinParent(d, zc);
    var s1 := Transplanted(s, b, RootId(ty.right));
    TransplantRep(s, s1, root, root, b, ty, ty.right);
    JoinAt(s1, root, d, zc, ty.right);
    DownRight(s1, root, c, N(t.left, t.red, t.item, Plug(d, ty.right)));
    SuccessorApart(s, root, c, t, d, ty);
  }

  /** The successor is not among the nodes left when it is taken out. */
  lemma SuccessorApart<K, V>(s: Store<K, V>, root: int, c: Ctx<K, V>, t: Tree<K, V>, d: Ctx<K, V>, ty: Tree<K, V>)
    requires Successor(t, d, ty) && At(s, root, Join(d, InR(t.left, t.red, t.item, c)), ty)
    ensures ty.item.id !in Ids(N(t.left, t.red, t.item, Plug(d, ty.right))) && ty.item.id !in CtxIds(c)
            && ty.item.id != 0
  {
    hide Rep, RepCtx, CtxDistinct, Inorder, LeftSpine;
    JoinIds(d, InR(t.left, t.red, t.item, c));
    Refocus(s, root, d, ty.right);
  }

  /** The links a splice follows, and which of the addresses differ. */
  lemma SuccessorLinks<K, V>(s: Store<K, V>, root: int, c: Ctx<K, V>, t: Tree<K, V>, d: Ctx<K, V>, ty: Tree<K, V>)
    requires At(s, root, c, t) && Successor(t, d, ty)
    ensures var b := Join(d, InR(t.left, t.red, t.item, c));
            var z, y, l, r, n, p, q := t.item.id, ty.item.id, t.left.item.id, t.right.item.id, RootId(ty.right),
              ParentId(c), ParentId(b);
            && z in s && y in s && l in s && r in s && (n != 0 ==> n in s) && (!c.Top? ==> p in s) && b.item.id in s
            && q in s
            && s[z].left == l && s[z].right == r && s[z].parent == p && s[y].parent == q && s[y].right == n
            && s[y].left == 0
            && s[y].red == ty.red && s[y].key == ty.item.key && s[y].val == ty.item.val && s[z].red == t.red
            && z != y && z != l && z != r && z != n && z != p && y != l && y != n && y != p && l != n && l != p
            && l != r && (n != 0 ==> n != p)
            && y != 0 && z != 0 && l != 0 && r != 0 && r != p && q != p && q != y && q != l && q != n
            && (d.Top? <==> q == z) && (d.Top? <==> r == y) && (d.Top? ==> b == InR(t.left, t.red, t.item, c))
            && (c.Top? <==> p == 0) && (!c.Top? ==> (s[p].left == z <==> c.InL?))
            && (s[q].left == y <==> b.InL?) && (d.Top? <==> b.InR?) && !b.Top? && q != 0
            && (n != 0 ==> s[n].parent == y) && r != n
  {
    var zc := InR(t.left, t.red, t.item, c);
    var b := Join(d, zc);
    DownRight(s, root, c, t);
    JoinAt(s, root, d, zc, ty);
    Links(s, root, c, t);
    Links(s, root, zc, t.right);
    Links(s, root, b, ty);
    JoinIds(d, zc);
    JoinParent(d, zc);
    NoNull(t.left);
    NoNull(ty.right);
    SpineRoot(d, ty);
    assert Rep(s, ty.item.id, ty.right);
    if !d.Top? { SpineParent(d, zc); }
  }

  lemma {:induction false} SpineRoot<K, V>(d: Ctx<K, V>, t: Tree<K, V>)
    requires t.N?
    ensures Plug(d, t).N?
    ensures if d.Top? then RootId(Plug(d, t)) == t.item.id else RootId(Plug(d, t)) in CtxIds(d)
    decreases d
  {
    if !d.Top? {
      SpineRoot(d.up, Refilled(d, t));
    }
  }

  lemma SpineParent<K, V>(d: Ctx<K, V>, b: Ctx<K, V>)
    requires LeftSpine(d) && !d.Top?
    ensures Join(d, b).InL?
  {
  }

  /** The target is not among the nodes left when its successor has its place. */
  lemma TargetApart<K, V>(s: Store<K, V>, root: int, c: Ctx<K, V>, t: Tree<K, V>, d: Ctx<K, V>, ty: Tree<K, V>)
    requires Successor(t, d, ty) && At(s, root, Join(d, InR(t.left, t.red, t.item, c)), ty)
    ensures t.item.id !in Ids(ty.right) && t.item.id !in CtxIds(Join(d, InR(t.left, t.red, ty.item, c)))
  {
    hide Rep, RepCtx, Inorder, LeftSpine;
    JoinAt(s, root, d, InR(t.left, t.red, t.item, c), ty);
    JoinIds(d, InR(t.left, t.red, ty.item, c));
    JoinIds(d, InR(t.left, t.red, t.item, c));
    Refocus(s, root, d, ty);
  }

  /** After the splice the table represents the tree in which `y` stands for `z`. */
  lemma SpliceRep<K, V>(s: Store<K, V>, s': Store<K, V>, root: int, root': int, c: Ctx<K, V>, t: Tree<K, V>,
                        d: Ctx<K, V>, ty: Tree<K, V>)
    requires At(s, root, c, t) && Successor(t, d, ty)
    requires root' == (if c.Top? then ty.item.id else root) && (!c.Top? ==> c.item.id in s)
    requires var b := Join(d, InR(t.left, t.red, t.item, c));
             var y, l, n := ty.item.id, t.left.item.id, RootId(ty.right);
             var r := if d.Top? then n else t.right.item.id;
             && b.item.id in s && (n != 0 ==> n in s)
             && var s1 := Transplanted(s, b, n);
             && s'.Keys == s.Keys && l in s && (r != 0 ==> r in s) && y in s
             && s'[y] == Node(ParentId(c), l, r, t.red, ty.item.key, ty.item.val)
             && s'[l] == s1[l].(parent := y) && (r != 0 ==> s'[r] == s1[r].(parent := y))
             && forall i :: i in s && i != t.item.id && i != y && i != l && i != r ==> s'[i] == SetHole(s1, c, y)[i]
    ensures var b := Join(d, InR(t.left, t.red, ty.item, c));
            At(s', root', b, ty.right) && t.item.id !in Ids(ty.right) && t.item.id !in CtxIds(b)
  {
    hide Rep, RepCtx;
    var n := RootId(ty.right);
    var b := Join(d, InR(t.left, t.red, t.item, c));
    var s1 := Transplanted(s, b, n);
    var u := N(t.left, t.red, t.item, Plug(d, ty.right));
    var yc := InR(t.left, t.red, ty.item, c);
    SuccessorOut(s, root, c, t, d, ty);
    if !d.Top? { PlugRoot(d, ty, ty.right); }
    assert RootId(u.right) == if d.Top? then n else t.right.item.id;
    assert u.right.N? ==> u.right.item.id == RootId(u.right) && u.right.item.id != 0 by { NoNull(u.right); }
    RepIds(s1, ParentId(c), u);
    RepCtxIds(s1, root, c, t.item.id);
    ReplaceNodeRep(s1, s', root, root', c, u, ty.item);
    DownRight(s', root', c, N(t.left, t.red, ty.item, Plug(d, ty.right)));
    JoinAt(s', root', d, yc, ty.right);
    TargetApart(s, root, c, t, d, ty);
  }

  /** Detaching the successor and putting it in place, as two tables. */
  lemma SpliceTables<K, V>(s: Store<K, V>, m: Store<K, V>, s': Store<K, V>, root: int, root': int, c: Ctx<K, V>,
                           t: Tree<K, V>, d: Ctx<K, V>, ty: Tree<K, V>)
    requires At(s, root, c, t) && Successor(t, d, ty)
    requires root' == (if c.Top? then ty.item.id else root) && (!c.Top? ==> c.item.id in s && c.item.id in m)
    requires var b := Join(d, InR(t.left, t.red, t.item, c));
             var z, y, l, r, n := t.item.id, ty.item.id, t.left.item.id, t.right.item.id, RootId(ty.right);
             && b.item.id in s && (n != 0 ==> n in s) && y in s && r in s && l in s && m.Keys == s.Keys
             && m == (if d.Top? then s
                      else var v := Transplanted(s, b, n); v[y := v[y].(right := r)][r := v[r].(parent := y)])
             && var w := SetHole(m, c, y);
             && s' == w[y := w[y].(parent := ParentId(c), left := l, red := t.red)][l := w[l].(parent := y)]
    ensures var b := Join(d, InR(t.left, t.red, ty.item, c));
            At(s', root', b, ty.right) && t.item.id !in Ids(ty.right) && t.item.id !in CtxIds(b)
  {
    hide At, Join, Plug, LeftSpine, Ids, CtxIds;
    SuccessorLinks(s, root, c, t, d, ty);
    SpliceRep(s, s', root, root', c, t, d, ty);
  }

  /** A node outside the tree may be recycled. */
  lemma RecycleRep<K, V>(s: Store<K, V>, root: int, c: Ctx<K, V>, t: Tree<K, V>, z: int)
    requires At(s, root, c, t) && z !in Ids(t) && z !in CtxIds(c)
    ensures At(s - {z}, root, c, t)
  {
    RepIds(s, ParentId(c), t);
    RepCtxIds(s, root, c, RootId(t));
    RepFrame(s, s - {z}, ParentId(c), t);
    RepCtxFrame(s, s - {z}, root, c, RootId(t));
  }

  // ---------------------------------------------------------------- colours after taking a node out

  /** The colours along a path down the left spine. */
  lemma {:induction false} SpineFocus<K, V>(d: Ctx<K, V>, c: Ctx<K, V>, u: Tree<K, V>, t: Tree<K, V>, h: nat)
    returns (k: nat)
    requires Focus(c, t, h) && Plug(d, u) == t && u.N?
    ensures Focus(Join(d, c), u, k)
    decreases d
  {
    if d.Top? {
      k := h;
    } else {
      var j := SpineFocus(d.up, c, Refilled(d, u), t, h);
      FocusDown(Join(d.up, c), Refilled(d, u), j);
      k := if d.red then j else j - 1;
    }
  }

  /** Taking out a node that had at most one child, `u`: a red one leaves a red-black tree, a black
      one leaves a subtree that is one black node short. */
  lemma TakenOut<K, V>(c: Ctx<K, V>, t: Tree<K, V>, u: Tree<K, V>, h: nat)
    requires Focus(c, t, h) && t.N? && ((t.left.E? && u == t.right) || (t.right.E? && u == t.left))
    ensures t.red ==> RedBlack(Plug(c, u))
    ensures !t.red ==> Erasing(c, u, h - 1)
  {
    if t.red {
      PlugRedBlack(c, u, h);
    } else {
      RBAlmost(u, h - 1);
    }
  }

  lemma RBAlmost<K, V>(t: Tree<K, V>, h: nat)
    requires RB(t, h)
    ensures Almost(t, h)
  {
  }

  lemma TakenOutBelow<K, V>(d: Ctx<K, V>, l: Tree<K, V>, red: bool, z: Item<K, V>, y: Item<K, V>, c: Ctx<K, V>,
                            ty: Tree<K, V>, h: nat)
    requires Focus(Join(d, InR(l, red, z, c)), ty, h) && ty.N? && ty.left.E?
    ensures var b := Join(d, InR(l, red, y, c));
            (ty.red ==> RedBlack(Plug(b, ty.right))) && (!ty.red ==> Erasing(b, ty.right, h - 1))
  {
    var b := Join(d, InR(l, red, y, c));
    JoinColours(d, l, red, z, y, c, h);
    JoinParent(d, InR(l, red, y, c));
    if ty.red {
      PlugRedBlack(b, ty.right, h);
    } else {
      RBAlmost(ty.right, h - 1);
    }
  }

  /** The order after the successor took the place of the erased node. */
  lemma SplicedOrder<K, V>(c: Ctx<K, V>, t: Tree<K, V>, d: Ctx<K, V>, ty: Tree<K, V>)
    requires Successor(t, d, ty)
    ensures Inorder(Plug(Join(d, InR(t.left, t.red, ty.item, c)), ty.right)) == Before(c) + Inorder(t.left)
            + Inorder(t.right) + After(c)
  {
    hide At, Join;
    var r := Plug(d, ty.right);
    var yc := InR(t.left, t.red, ty.item, c);
    JoinAt(map[], 0, d, yc, ty.right);
    InorderPlug(yc, r);
    InorderPlug(d, ty.right);
    InorderPlug(d, ty);
    SpineBefore(d);
    assert Inorder(t.right) == [ty.item] + Inorder(r);
    Regroup2(Before(c), Inorder(t.left), ty.item, Inorder(r), After(c));
  }

  lemma OneChildOrder<K, V>(c: Ctx<K, V>, t: Tree<K, V>, u: Tree<K, V>)
    requires t.N? && ((t.left.E? && u == t.right) || (t.right.E? && u == t.left))
    ensures Before(c) + Inorder(u) + After(c) == Before(c) + Inorder(t.left) + Inorder(t.right) + After(c)
  {
  }

  lemma Regroup2<T>(a: seq<T>, b: seq<T>, y: T, r: seq<T>, e: seq<T>)
    ensures (a + b + [y]) + r + e == a + b + ([y] + r) + e
  {
  }

  // ---------------------------------------------------------------- keys in order

  ghost predicate SortedKeys<K, V>(less: (K, K) -> bool, s: seq<Item<K, V>>) {
    forall i, j :: 0 <= i < j < |s| ==> less(s[i].key, s[j].key)
  }

  lemma SortedParts<K, V>(less: (K, K) -> bool, a: seq<Item<K, V>>, b: seq<Item<K, V>>)
    requires SortedKeys(less, a + b)
    ensures SortedKeys(less, a) && SortedKeys(less, b)
    ensures forall x, y :: x in a && y in b ==> less(x.key, y.key)
  {
    assert forall i :: 0 <= i < |a| ==> (a + b)[i] == a[i];
    assert forall i :: 0 <= i < |b| ==> (a + b)[|a| + i] == b[i];
  }

  lemma SortedJoin<K, V>(less: (K, K) -> bool, a: seq<Item<K, V>>, b: seq<Item<K, V>>)
    requires SortedKeys(less, a) && SortedKeys(less, b)
    requires forall x, y :: x in a && y in b ==> less(x.key, y.key)
    ensures SortedKeys(less, a + b)
  {
  }

  /** All keys left of the hole are below `key`, all keys right of it above. */
  ghost predicate Window<K, V>(less: (K, K) -> bool, c: Ctx<K, V>, key: K) {
    && (forall x :: x in Before(c) ==> less(x.key, key))
    && (forall x :: x in After(c) ==> less(key, x.key))
  }

  /** The node in focus separates its own subtrees. */
  lemma FocusSorted<K, V>(less: (K, K) -> bool, c: Ctx<K, V>, t: Tree<K, V>, x: Item<K, V>)
    requires SortedKeys(less, Inorder(Plug(c, t))) && t.N?
    ensures x in Inorder(t.left) || x in Before(c) ==> less(x.key, t.item.key)
    ensures x in Inorder(t.right) || x in After(c) ==> less(t.item.key, x.key)
  {
    hide Inorder, Before, After;
    InorderPlug(c, t);
    InorderNode(t);
    var b, a := Before(c) + Inorder(t.left), Inorder(t.right) + After(c);
    Regroup3(Before(c), Inorder(t.left), t.item, Inorder(t.right), After(c));
    SortedParts(less, b, [t.item] + a);
    SortedParts(less, [t.item], a);
    assert t.item in [t.item] + a && t.item in [t.item];
  }

  lemma InorderNode<K, V>(t: Tree<K, V>)
    requires t.N?
    ensures Inorder(t) == Inorder(t.left) + [t.item] + Inorder(t.right)
  {
  }

  lemma Regroup3<T>(a: seq<T>, b: seq<T>, x: T, d: seq<T>, e: seq<T>)
    ensures a + (b + [x] + d) + e == (a + b) + ([x] + (d + e))
  {
  }

  lemma WindowDown<K(!new), V>(less: (K, K) -> bool, c: Ctx<K, V>, t: Tree<K, V>, key: K)
    requires StrictOrder(less) && SortedKeys(less, Inorder(Plug(c, t))) && t.N? && Window(less, c, key)
    ensures less(key, t.item.key) ==> Window(less, InL(c, t.red, t.item, t.right), key)
    ensures less(t.item.key, key) ==> Window(less, InR(t.left, t.red, t.item, c), key)
  {
    var l, r := InL(c, t.red, t.item, t.right), InR(t.left, t.red, t.item, c);
    if less(key, t.item.key) {
      forall x | x in After(l) ensures less(key, x.key) {
        FocusSorted(less, c, t, x);
        if x in Inorder(t.right) || x in After(c) { Transitive(less, key, t.item.key, x.key); }
      }
    }
    if less(t.item.key, key) {
      forall x | x in Before(r) ensures less(x.key, key) {
        FocusSorted(less, c, t, x);
        if x in Inorder(t.left) || x in Before(c) { Transitive(less, x.key, t.item.key, key); }
      }
    }
  }

  /** A node at the leaf where the search ended. */
  lemma LinkRep<K, V>(s: Store<K, V>, root: int, c: Ctx<K, V>, y: Item<K, V>)
    requires At(s, root, c, E) && y.id !in s && y.id != 0
    ensures !c.Top? ==> c.item.id in s
    ensures At(SetHole(s, c, y.id)[y.id := Node(ParentId(c), 0, 0, true, y.key, y.val)], if c.Top? then y.id else root,
               c, N(E, true, y, E))
  {
    RepCtxIds(s, root, c, 0);
    HoleReplaced(s, SetHole(s, c, y.id)[y.id := Node(ParentId(c), 0, 0, true, y.key, y.val)],
                 root, if c.Top? then y.id else root, c, 0, y.id);
  }

  lemma InsertedSorted<K(!new), V>(less: (K, K) -> bool, c: Ctx<K, V>, y: Item<K, V>)
    requires SortedKeys(less, Before(c) + After(c)) && Window(less, c, y.key)
    ensures SortedKeys(less, Before(c) + [y] + After(c))
  {
    SortedParts(less, Before(c), After(c));
    SortedJoin(less, [y], After(c));
    SortedJoin(less, Before(c), [y] + After(c));
    assert Before(c) + [y] + After(c) == Before(c) + ([y] + After(c));
  }

  lemma FreshInserting<K, V>(c: Ctx<K, V>, y: Item<K, V>, h: nat)
    requires Focus(c, E, h)
    ensures Inserting(c, N(E, true, y, E), h)
  {
  }

  lemma LinkedOrder<K(!new), V>(less: (K, K) -> bool, c: Ctx<K, V>, y: Item<K, V>, t: Tree<K, V>)
    requires t == Plug(c, E) && SortedKeys(less, Inorder(t)) && Window(less, c, y.key)
    ensures Inorder(t) == Before(c) + After(c) && |Before(c) + [y] + After(c)| == |Inorder(t)| + 1
    ensures Inorder(Plug(c, N(E, true, y, E))) == Before(c) + [y] + After(c)
    ensures SortedKeys(less, Before(c) + [y] + After(c))
  {
    hide SortedKeys, Window;
    InorderPlug(c, E);
    assert Inorder(t) == Before(c) + After(c);
    InsertedSorted(less, c, y);
    InorderPlug(c, N(E, true, y, E));
    assert Inorder(N(E, true, y, E)) == [y];
  }

  /** The position of the `i`-th item. */
  lemma {:induction false} Locate<K, V>(c: Ctx<K, V>, t: Tree<K, V>, i: nat) returns (d: Ctx<K, V>, u: Tree<K, V>)
    requires i < |Inorder(t)|
    ensures Plug(d, u) == Plug(c, t) && u.N? && u.item == Inorder(t)[i]
    ensures |Before(d)| + |Inorder(u.left)| == |Before(c)| + i
    decreases t
  {
    var k := |Inorder(t.left)|;
    if i < k {
      d, u := Locate(InL(c, t.red, t.item, t.right), t.left, i);
    } else if i == k {
      d, u := c, t;
    } else {
      d, u := Locate(InR(t.left, t.red, t.item, c), t.right, i - k - 1);
    }
  }

  lemma {:induction false} FocusAt<K, V>(c: Ctx<K, V>, t: Tree<K, V>) returns (h: nat)
    requires RedBlack(Plug(c, t))
    ensures Focus(c, t, h)
    decreases c
  {
    if c.Top? {
      h :| RB(t, h);
    } else {
      var k := FocusAt(c.up, Refilled(c, t));
      FocusDown(c.up, Refilled(c, t), k);
      h := if c.red then k else k - 1;
    }
  }

  /** Identities and number of nodes of the in-order sequence. */
  lemma {:induction false} InorderIds<K, V>(t: Tree<K, V>)
    ensures forall i :: i in Ids(t) <==> exists x :: x in Inorder(t) && x.id == i
  {
    if t.N? {
      InorderIds(t.left);
      InorderIds(t.right);
    }
  }

  lemma NodeKey<K, V>(s: Store<K, V>, root: int, c: Ctx<K, V>, t: Tree<K, V>)
    requires At(s, root, c, t) && t.N?
    ensures t.item.id in s && s[t.item.id].key == t.item.key && s[t.item.id].val == t.item.val
  {
  }

  lemma SameItemsSameIds<K, V>(keys: set<int>, c: Ctx<K, V>, y: Item<K, V>, t: Tree<K, V>)
    requires keys == Ids(Plug(c, E)) && Inorder(t) == Before(c) + [y] + After(c)
    ensures Ids(t) == keys + {y.id}
  {
    var u := Plug(c, E);
    InorderPlug(c, E);
    InorderIds(t);
    InorderIds(u);
    assert forall x :: x in Inorder(t) <==> x in Inorder(u) || x == y;
    forall i ensures i in Ids(t) <==> i in Ids(u) || i == y.id {
      if i in Ids(t) { var x :| x in Inorder(t) && x.id == i; }
      if i in Ids(u) { var x :| x in Inorder(u) && x.id == i; assert x in Inorder(t); }
      assert y in Inorder(t);
    }
  }

  /** The identity of the item behind the `i`-th, or null. */
  function NextId<K, V>(s: seq<Item<K, V>>, i: nat): int { if i + 1 < |s| then s[i + 1].id else 0 }

  lemma SplitAround<K, V>(c: Ctx<K, V>, t: Tree<K, V>, i: nat)
    requires t.N? && |Before(c)| + |Inorder(t.left)| == i
    ensures var s := Inorder(Plug(c, t));
            i < |s| && s[i] == t.item && Before(c) + Inorder(t.left) == s[..i]
              && Inorder(t.right) + After(c) == s[i + 1..]
  {
    hide Inorder, Before, After;
    InorderPlug(c, t);
    InorderNode(t);
    Regroup3(Before(c), Inorder(t.left), t.item, Inorder(t.right), After(c));
    var s := Inorder(Plug(c, t));
    assert s == (Before(c) + Inorder(t.left)) + ([t.item] + (Inorder(t.right) + After(c)));
  }

  lemma RemovedSorted<K, V>(less: (K, K) -> bool, t: Tree<K, V>, i: nat)
    requires i < |Inorder(t)| && SortedKeys(less, Inorder(t))
    ensures SortedKeys(less, Inorder(t)[..i] + Inorder(t)[i + 1..])
  {
    var s := Inorder(t);
    var r := s[..i] + s[i + 1..];
    assert forall j :: 0 <= j < |r| ==> r[j] == s[if j < i then j else j + 1];
  }

  lemma Pairs<T>(a: seq<T>, b: seq<T>, c: seq<T>, d: seq<T>)
    ensures a + b + c + d == (a + b) + (c + d)
  {
  }

  /** Exactly one identity disappears. */
  lemma RemovedIds<K, V>(t: Tree<K, V>, t': Tree<K, V>, i: nat, keys: set<int>)
    requires i < |Inorder(t)| && Inorder(t') == Inorder(t)[..i] + Inorder(t)[i + 1..]
    requires Distinct(t) && keys == Ids(t) - {Inorder(t)[i].id}
    ensures keys == Ids(t')
  {
    var s := Inorder(t);
    InorderIds(t);
    InorderIds(t');
    DistinctItems(t);
    hide Inorder, Ids, Distinct;
    RemovedMembers(s, i);
    forall k ensures k in keys <==> k in Ids(t') {
      if k in keys { var x :| x in s && x.id == k; }
      if k in Ids(t') { var x :| x in Inorder(t') && x.id == k; }
    }
  }

  lemma RemovedMembers<K, V>(s: seq<Item<K, V>>, i: nat)
    requires i < |s| && forall j, k :: 0 <= j < k < |s| ==> s[j].id != s[k].id
    ensures forall x :: x in s[..i] + s[i + 1..] <==> x in s && x.id != s[i].id
  {
    var r := s[..i] + s[i + 1..];
    forall x ensures x in r <==> x in s && x.id != s[i].id {
      if x in r {
        var j :| 0 <= j < |r| && r[j] == x;
        assert x == s[if j < i then j else j + 1];
      }
      if x in s && x.id != s[i].id {
        var j :| 0 <= j < |s| && s[j] == x;
        assert x == r[if j < i then j else j - 1];
      }
    }
  }

  lemma {:induction false} DistinctItems<K, V>(t: Tree<K, V>)
    requires Distinct(t)
    ensures forall i, j :: 0 <= i < j < |Inorder(t)| ==> Inorder(t)[i].id != Inorder(t)[j].id
    decreases t
  {
    if t.N? {
      DistinctItems(t.left);
      DistinctItems(t.right);
      InorderIds(t.left);
      InorderIds(t.right);
      JoinDistinct(Inorder(t.left), t.item, Inorder(t.right), Ids(t.left), Ids(t.right));
    }
  }

  lemma JoinDistinct<K, V>(l: seq<Item<K, V>>, x: Item<K, V>, r: seq<Item<K, V>>, ls: set<int>, rs: set<int>)
    requires (forall y :: y in l ==> y.id in ls) && (forall y :: y in r ==> y.id in rs)
    requires ls !! rs && x.id !in ls && x.id !in rs
    requires forall i, j :: 0 <= i < j < |l| ==> l[i].id != l[j].id
    requires forall i, j :: 0 <= i < j < |r| ==> r[i].id != r[j].id
    ensures var s := l + [x] + r; forall i, j :: 0 <= i < j < |s| ==> s[i].id != s[j].id
  {
    var s, n := l + [x] + r, |l|;
    forall i, j | 0 <= i < j < |s| ensures s[i].id != s[j].id {
      assert i < n ==> s[i] == l[i] && l[i].id in ls;
      assert i > n ==> s[i] == r[i - n - 1];
      assert j < n ==> s[j] == l[j];
      assert j > n ==> s[j] == r[j - n - 1] && r[j - n - 1].id in rs;
    }
  }

  lemma FirstItem<K, V>(d: Ctx<K, V>, u: Tree<K, V>)
    requires LeftSpine(d) && u.N? && u.left.E?
    ensures |Inorder(Plug(d, u))| > 0 && Inorder(Plug(d, u))[0] == u.item
  {
    InorderPlug(d, u);
    SpineBefore(d);
  }

  /** The keys left of the hole are `low`, the keys right of it are not. */
  ghost predicate BoundedBy<K, V>(low: K -> bool, c: Ctx<K, V>) {
    && (forall x :: x in Before(c) ==> low(x.key))
    && (forall x :: x in After(c) ==> !low(x.key))
  }

  lemma TopPlug<K, V>(t: Tree<K, V>)
    ensures Plug(Top, t) == t
  {
  }

  lemma PlugDown<K, V>(c: Ctx<K, V>, t: Tree<K, V>)
    requires t.N?
    ensures Plug(InL(c, t.red, t.item, t.right), t.left) == Plug(c, t)
    ensures Plug(InR(t.left, t.red, t.item, c), t.right) == Plug(c, t)
  {
  }

  lemma BoundLeft<K(!new), V>(less: (K, K) -> bool, low: K -> bool, c: Ctx<K, V>, t: Tree<K, V>)
    requires t.N? && BoundedBy(low, c) && SortedKeys(less, Inorder(Plug(c, t))) && !low(t.item.key)
    requires forall k :: less(t.item.key, k) ==> !low(k)
    ensures BoundedBy(low, InL(c, t.red, t.item, t.right))
  {
    forall x | x in After(InL(c, t.red, t.item, t.right)) ensures !low(x.key) {
      FocusSorted(less, c, t, x);
    }
  }

  lemma BoundRight<K(!new), V>(less: (K, K) -> bool, low: K -> bool, c: Ctx<K, V>, t: Tree<K, V>)
    requires t.N? && BoundedBy(low, c) && SortedKeys(less, Inorder(Plug(c, t))) && low(t.item.key)
    requires forall k :: less(k, t.item.key) ==> low(k)
    ensures BoundedBy(low, InR(t.left, t.red, t.item, c))
  {
    forall x | x in Before(InR(t.left, t.red, t.item, c)) ensures low(x.key) {
      FocusSorted(less, c, t, x);
    }
  }

  lemma ItemNotNull<K, V>(t: Tree<K, V>, i: nat)
    requires Distinct(t) && i < |Inorder(t)|
    ensures Inorder(t)[i].id != 0
  {
    InorderIds(t);
    NoNull(t);
    assert Inorder(t)[i] in Inorder(t);
  }
}
