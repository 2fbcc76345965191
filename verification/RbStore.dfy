/** Node tables with parent, left and right links, and what tree they represent. */
module RbStore {
  import opened RbTrees

  /** A tree node; the address 0 is the null pointer. */
  datatype Node<K, V> = Node(parent: int, left: int, right: int, red: bool, key: K, val: V)

  type Store<K, V> = map<int, Node<K, V>>

  function RootId<K, V>(t: Tree<K, V>): int { if t.E? then 0 else t.item.id }

  function ParentId<K, V>(c: Ctx<K, V>): int { if c.Top? then 0 else c.item.id }

  function Ids<K, V>(t: Tree<K, V>): set<int> {
    match t
    case E => {}
    case N(l, _, item, r) => Ids(l) + {item.id} + Ids(r)
  }

  function CtxIds<K, V>(c: Ctx<K, V>): set<int>
    decreases c
  {
    match c
    case Top => {}
    case InL(up, _, item, right) => CtxIds(up) + {item.id} + Ids(right)
    case InR(left, _, item, up) => CtxIds(up) + {item.id} + Ids(left)
  }

  /** No address occurs twice, and none is null. */
  ghost predicate Distinct<K, V>(t: Tree<K, V>) {
    match t
    case E => true
    case N(l, _, item, r) =>
      && item.id != 0 && item.id !in Ids(l) && item.id !in Ids(r) && Ids(l) !! Ids(r)
      && Distinct(l) && Distinct(r)
  }

  ghost predicate CtxDistinct<K, V>(c: Ctx<K, V>)
    decreases c
  {
    match c
    case Top => true
    case InL(up, _, item, right) =>
      && item.id != 0 && item.id !in Ids(right) && item.id !in CtxIds(up) && Ids(right) !! CtxIds(up)
      && Distinct(right) && CtxDistinct(up)
    case InR(left, _, item, up) =>
      && item.id != 0 && item.id !in Ids(left) && item.id !in CtxIds(up) && Ids(left) !! CtxIds(up)
      && Distinct(left) && CtxDistinct(up)
  }

  lemma {:induction false} NoNull<K, V>(t: Tree<K, V>)
    requires Distinct(t)
    ensures 0 !in Ids(t)
    ensures t.N? ==> t.item.id in Ids(t)
    decreases t
  {
    if t.N? {
      NoNull(t.left);
      NoNull(t.right);
    }
  }

  lemma {:induction false} CtxNoNull<K, V>(c: Ctx<K, V>)
    requires CtxDistinct(c)
    ensures 0 !in CtxIds(c)
    decreases c
  {
    match c
    case Top =>
    case InL(up, _, _, right) => NoNull(right); CtxNoNull(up);
    case InR(left, _, _, up) => NoNull(left); CtxNoNull(up);
  }

  /** The subtree `t` below the parent `par`, link by link. */
  ghost predicate Rep<K, V>(s: Store<K, V>, par: int, t: Tree<K, V>)
    decreases t
  {
    match t
    case E => true
    case N(l, red, item, r) =>
      && item.id in s
      && s[item.id] == Node(par, RootId(l), RootId(r), red, item.key, item.val)
      && Rep(s, item.id, l) && Rep(s, item.id, r)
  }

  /** The nodes around a hole that holds the address `hole`. */
  ghost predicate RepCtx<K, V>(s: Store<K, V>, root: int, c: Ctx<K, V>, hole: int)
    decreases c
  {
    match c
    case Top => root == hole
    case InL(up, red, item, right) =>
      && item.id in s
      && s[item.id] == Node(ParentId(up), hole, RootId(right), red, item.key, item.val)
      && Rep(s, item.id, right) && RepCtx(s, root, up, item.id)
    case InR(left, red, item, up) =>
      && item.id in s
      && s[item.id] == Node(ParentId(up), RootId(left), hole, red, item.key, item.val)
      && Rep(s, item.id, left) && RepCtx(s, root, up, item.id)
  }

  /** Tree and surroundings together, with disjoint addresses. */
  ghost predicate At<K, V>(s: Store<K, V>, root: int, c: Ctx<K, V>, t: Tree<K, V>) {
    && RepCtx(s, root, c, RootId(t)) && Rep(s, ParentId(c), t)
    && Distinct(t) && CtxDistinct(c) && Ids(t) !! CtxIds(c)
  }

  lemma {:induction false} RepFrame<K, V>(s: Store<K, V>, s': Store<K, V>, par: int, t: Tree<K, V>)
    requires Rep(s, par, t)
    requires forall i :: i in Ids(t) ==> i in s && i in s' && s'[i] == s[i]
    ensures Rep(s', par, t)
    decreases t
  {
    if t.N? {
      RepFrame(s, s', t.item.id, t.left);
      RepFrame(s, s', t.item.id, t.right);
    }
  }

  lemma {:induction false} RepIds<K, V>(s: Store<K, V>, par: int, t: Tree<K, V>)
    requires Rep(s, par, t)
    ensures Ids(t) <= s.Keys
    decreases t
  {
    if t.N? {
      RepIds(s, t.item.id, t.left);
      RepIds(s, t.item.id, t.right);
    }
  }

  lemma {:induction false} RepCtxIds<K, V>(s: Store<K, V>, root: int, c: Ctx<K, V>, hole: int)
    requires RepCtx(s, root, c, hole)
    ensures CtxIds(c) <= s.Keys
    decreases c
  {
    match c
    case Top =>
    case InL(up, _, item, right) => RepIds(s, item.id, right); RepCtxIds(s, root, up, item.id);
    case InR(left, _, item, up) => RepIds(s, item.id, left); RepCtxIds(s, root, up, item.id);
  }

  lemma {:induction false} RepCtxFrame<K, V>(s: Store<K, V>, s': Store<K, V>, root: int, c: Ctx<K, V>, hole: int)
    requires RepCtx(s, root, c, hole)
    requires forall i :: i in CtxIds(c) ==> i in s && i in s' && s'[i] == s[i]
    ensures RepCtx(s', root, c, hole)
    decreases c
  {
    match c
    case Top =>
    case InL(up, _, item, right) =>
      RepFrame(s, s', item.id, right);
      RepCtxFrame(s, s', root, up, item.id);
    case InR(left, _, item, up) =>
      RepFrame(s, s', item.id, left);
      RepCtxFrame(s, s', root, up, item.id);
  }

  /** The same table seen from the root and from any position inside. */
  lemma {:induction false} Refocus<K, V>(s: Store<K, V>, root: int, c: Ctx<K, V>, t: Tree<K, V>)
    ensures At(s, root, c, t) <==> At(s, root, Top, Plug(c, t))
    ensures Ids(Plug(c, t)) == Ids(t) + CtxIds(c)
    decreases c
  {
    match c
    case Top =>
    case InL(up, red, item, right) =>
      Refocus(s, root, up, N(t, red, item, right));
    case InR(left, red, item, up) =>
      Refocus(s, root, up, N(left, red, item, t));
  }

  lemma DownLeft<K, V>(s: Store<K, V>, root: int, c: Ctx<K, V>, t: Tree<K, V>)
    requires t.N?
    ensures At(s, root, c, t) <==> At(s, root, InL(c, t.red, t.item, t.right), t.left)
  {
  }

  lemma DownRight<K, V>(s: Store<K, V>, root: int, c: Ctx<K, V>, t: Tree<K, V>)
    requires t.N?
    ensures At(s, root, c, t) <==> At(s, root, InR(t.left, t.red, t.item, c), t.right)
  {
  }

  // ---------------------------------------------------------------- replacing what is in the hole

  /** Redirect the link that holds the hole. */
  function SetHole<K, V>(s: Store<K, V>, c: Ctx<K, V>, hole: int): Store<K, V>
    requires !c.Top? ==> c.item.id in s
  {
    match c
    case Top => s
    case InL(_, _, item, _) => s[item.id := s[item.id].(left := hole)]
    case InR(_, _, item, _) => s[item.id := s[item.id].(right := hole)]
  }

  /** The surroundings represent the same context around another address. */
  lemma HoleReplaced<K, V>(s: Store<K, V>, s': Store<K, V>, root: int, root': int, c: Ctx<K, V>, hole: int, hole': int)
    requires RepCtx(s, root, c, hole) && CtxDistinct(c)
    requires root' == (if c.Top? then hole' else root)
    requires !c.Top? ==> c.item.id in s
    requires forall i :: i in CtxIds(c) ==> i in SetHole(s, c, hole') && i in s' && s'[i] == SetHole(s, c, hole')[i]
    ensures RepCtx(s', root', c, hole')
  {
    match c
    case Top =>
    case InL(up, _, item, right) =>
      RepCtxIds(s, root, c, hole);
      RepIds(s, item.id, right);
      RepCtxIds(s, root, up, item.id);
      RepFrame(s, s', item.id, right);
      RepCtxFrame(s, s', root, up, item.id);
    case InR(left, _, item, up) =>
      RepCtxIds(s, root, c, hole);
      RepIds(s, item.id, left);
      RepCtxIds(s, root, up, item.id);
      RepFrame(s, s', item.id, left);
      RepCtxFrame(s, s', root, up, item.id);
  }

  /** A subtree whose root got another parent and is otherwise unchanged. */
  lemma Reparented<K, V>(s: Store<K, V>, s': Store<K, V>, par: int, par': int, t: Tree<K, V>)
    requires Rep(s, par, t) && Distinct(t)
    requires t.N? ==> t.item.id in s' && s'[t.item.id] == s[t.item.id].(parent := par')
    requires forall i :: i in Ids(t) && i != RootId(t) ==> i in s && i in s' && s'[i] == s[i]
    ensures Rep(s', par', t)
  {
    if t.N? {
      RepFrame(s, s', t.item.id, t.left);
      RepFrame(s, s', t.item.id, t.right);
    }
  }
}
