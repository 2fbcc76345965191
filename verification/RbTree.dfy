/** Red-black trees as values: a tree, and a tree with a hole for the loops that climb it. */
module RbTrees {
  import opened Powers

  /** A node's identity together with its key and value. */
  datatype Item<K, V> = Item(id: int, key: K, val: V)

  datatype Tree<K, V> = E | N(left: Tree<K, V>, red: bool, item: Item<K, V>, right: Tree<K, V>)

  /** A tree with a hole: from the hole up to the root. */
  datatype Ctx<K, V> =
    | Top
    | InL(up: Ctx<K, V>, red: bool, item: Item<K, V>, right: Tree<K, V>)
    | InR(left: Tree<K, V>, red: bool, item: Item<K, V>, up: Ctx<K, V>)

  function Plug<K, V>(c: Ctx<K, V>, t: Tree<K, V>): Tree<K, V>
    decreases c
  {
    match c
    case Top => t
    case InL(up, red, item, right) => Plug(up, N(t, red, item, right))
    case InR(left, red, item, up) => Plug(up, N(left, red, item, t))
  }

  // ---------------------------------------------------------------- in-order sequence

  function Inorder<K, V>(t: Tree<K, V>): seq<Item<K, V>> {
    match t
    case E => []
    case N(l, _, item, r) => Inorder(l) + [item] + Inorder(r)
  }

  /** What comes before and after the hole. */
  function Before<K, V>(c: Ctx<K, V>): seq<Item<K, V>> {
    match c
    case Top => []
    case InL(up, _, _, _) => Before(up)
    case InR(left, _, item, up) => Before(up) + Inorder(left) + [item]
  }

  function After<K, V>(c: Ctx<K, V>): seq<Item<K, V>> {
    match c
    case Top => []
    case InL(up, _, item, right) => [item] + Inorder(right) + After(up)
    case InR(_, _, _, up) => After(up)
  }

  lemma Regroup<T>(a: seq<T>, b: seq<T>, c: seq<T>, d: seq<T>, e: seq<T>)
    ensures a + (b + c + d) + e == a + b + (c + d + e)
    ensures a + (b + c + d) + e == (a + b + c) + d + e
  {
  }

  lemma {:induction false} InorderPlug<K, V>(c: Ctx<K, V>, t: Tree<K, V>)
    ensures Inorder(Plug(c, t)) == Before(c) + Inorder(t) + After(c)
    decreases c
  {
    match c
    case Top =>
    case InL(up, red, item, right) =>
      InorderPlug(up, N(t, red, item, right));
      Regroup(Before(up), Inorder(t), [item], Inorder(right), After(up));
    case InR(left, red, item, up) =>
      InorderPlug(up, N(left, red, item, t));
      Regroup(Before(up), Inorder(left), [item], Inorder(t), After(up));
  }

  // ---------------------------------------------------------------- colours and heights

  predicate IsBlack<K, V>(t: Tree<K, V>) { t.E? || !t.red }

  /** Black height `h`, and no red node with a red child. */
  predicate RB<K, V>(t: Tree<K, V>, h: nat) {
    match t
    case E => h == 0
    case N(l, true, _, r) => IsBlack(l) && IsBlack(r) && RB(l, h) && RB(r, h)
    case N(l, false, _, r) => h > 0 && RB(l, h - 1) && RB(r, h - 1)
  }

  /** Like `RB`, except that a red root may have red children. */
  predicate Almost<K, V>(t: Tree<K, V>, h: nat) {
    match t
    case E => h == 0
    case N(l, true, _, r) => RB(l, h) && RB(r, h)
    case N(l, false, _, r) => h > 0 && RB(l, h - 1) && RB(r, h - 1)
  }

  /** A valid red-black tree: black root, no two reds in a row, equal black heights. */
  ghost predicate RedBlack<K, V>(t: Tree<K, V>) {
    IsBlack(t) && exists h: nat :: RB(t, h)
  }

  predicate TopBlack<K, V>(c: Ctx<K, V>) { c.Top? || !c.red }

  /** The hole takes a tree of black height `h` with a black root. */
  predicate CtxOk<K, V>(c: Ctx<K, V>, h: nat)
    decreases c
  {
    match c
    case Top => true
    case InL(up, true, _, r) => IsBlack(r) && RB(r, h) && TopBlack(up) && CtxOk(up, h)
    case InL(up, false, _, r) => RB(r, h) && CtxOk(up, h + 1)
    case InR(l, true, _, up) => IsBlack(l) && RB(l, h) && TopBlack(up) && CtxOk(up, h)
    case InR(l, false, _, up) => RB(l, h) && CtxOk(up, h + 1)
  }

  /** The root of the tree around the hole is black. */
  predicate RootBlack<K, V>(c: Ctx<K, V>)
    decreases c
  {
    c.Top? || (if c.up.Top? then !c.red else RootBlack(c.up))
  }

  function Blacken<K, V>(t: Tree<K, V>): Tree<K, V> {
    if t.E? then t else t.(red := false)
  }

  /** Filling the hole yields a red-black tree. */
  lemma {:induction false} PlugRedBlack<K, V>(c: Ctx<K, V>, t: Tree<K, V>, h: nat)
    requires RB(t, h) && CtxOk(c, h) && (IsBlack(t) || TopBlack(c))
    requires RootBlack(c) && (c.Top? ==> IsBlack(t))
    ensures RedBlack(Plug(c, t))
    decreases c
  {
    match c
    case Top =>
    case InL(up, red, item, right) =>
      PlugRedBlack(up, N(t, red, item, right), if red then h else h + 1);
    case InR(left, red, item, up) =>
      PlugRedBlack(up, N(left, red, item, t), if red then h else h + 1);
  }

  // ---------------------------------------------------------------- going down

  /** In a red-black tree every position is a hole that fits. */
  ghost predicate Focus<K, V>(c: Ctx<K, V>, t: Tree<K, V>, h: nat) {
    && RB(t, h) && CtxOk(c, h) && RootBlack(c)
    && (IsBlack(t) || TopBlack(c)) && (c.Top? ==> IsBlack(t))
  }

  lemma FocusDown<K, V>(c: Ctx<K, V>, t: Tree<K, V>, h: nat)
    requires Focus(c, t, h) && t.N?
    ensures var k: nat := if t.red then h else h - 1;
            Focus(InL(c, t.red, t.item, t.right), t.left, k) && Focus(InR(t.left, t.red, t.item, c), t.right, k)
  {
  }

  function Depth<K, V>(c: Ctx<K, V>): nat
    decreases c
  {
    if c.Top? then 0 else 1 + Depth(c.up)
  }

  function Height<K, V>(t: Tree<K, V>): nat {
    match t
    case E => 0
    case N(l, _, _, r) => 1 + if Height(l) >= Height(r) then Height(l) else Height(r)
  }

  lemma {:induction false} BlackHeightBounds<K, V>(t: Tree<K, V>, h: nat)
    requires RB(t, h)
    ensures Pow2(h) <= |Inorder(t)| + 1
    ensures Height(t) <= 2 * h + if IsBlack(t) then 0 else 1
  {
    match t
    case E =>
    case N(l, red, _, r) =>
      var k: nat := if red then h else h - 1;
      BlackHeightBounds(l, k);
      BlackHeightBounds(r, k);
      if !red { assert Pow2(h) == 2 * Pow2(h - 1); }
  }

  /** The height is at most twice the logarithm of the number of nodes plus one: with `k` half the
      height, rounded up, there are at least 2^k - 1 nodes. */
  lemma HeightBound<K, V>(t: Tree<K, V>)
    requires RedBlack(t)
    ensures Pow2((Height(t) + 1) / 2) <= |Inorder(t)| + 1
  {
    var h: nat :| RB(t, h);
    BlackHeightBounds(t, h);
    Pow2Mono((Height(t) + 1) / 2, h);
  }
}
