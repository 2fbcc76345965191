/** What the list operations do to a sequence of nodes, and why that is what their names promise. */
module ListSpec {
  import opened Orders
  import opened Links

  function InsertAt(s: seq<int>, k: nat, x: int): seq<int>
    requires k <= |s|
  {
    s[..k] + [x] + s[k..]
  }

  function RemoveAt(s: seq<int>, k: nat): seq<int>
    requires k < |s|
  {
    s[..k] + s[k + 1..]
  }

  /** Without the run from `i` up to `j`. */
  function CutOut(s: seq<int>, i: nat, j: nat): seq<int>
    requires i <= j <= |s|
  {
    s[..i] + s[j..]
  }

  /** With a run in front of the `k`-th. */
  function SpliceAt(s: seq<int>, k: nat, r: seq<int>): seq<int>
    requires k <= |s|
  {
    s[..k] + r + s[k..]
  }

  /** Every node has a value. */
  predicate Covers<T>(v: map<int, T>, s: seq<int>) {
    forall i :: 0 <= i < |s| ==> s[i] in v
  }

  /** The nodes that satisfy a predicate, in order. */
  function Filter(p: int -> bool, s: seq<int>): seq<int> {
    if s == [] then [] else (if p(s[0]) then [s[0]] else []) + Filter(p, s[1..])
  }

  // ---------------------------------------------------------------- unique

  /** What `unique` keeps of `rest` behind the node `kept`. */
  function Dedup<T>(eq: (T, T) -> bool, v: map<int, T>, kept: int, rest: seq<int>): seq<int>
    requires kept in v && Covers(v, rest)
    decreases |rest|
  {
    if rest == [] then []
    else if eq(v[kept], v[rest[0]]) then Dedup(eq, v, kept, rest[1..])
    else [rest[0]] + Dedup(eq, v, rest[0], rest[1..])
  }

  /** `unique`: the first of every run of equal values. */
  function Uniqued<T>(eq: (T, T) -> bool, v: map<int, T>, s: seq<int>): seq<int>
    requires Covers(v, s)
  {
    if s == [] then [] else [s[0]] + Dedup(eq, v, s[0], s[1..])
  }

  /** `unique` starts with the first node kept. */
  lemma UniqueStart<T>(eq: (T, T) -> bool, v: map<int, T>, s: seq<int>)
    requires Covers(v, s) && s != []
    ensures s[0] in v && Covers(v, s[1..])
    ensures [s[0]] + Dedup(eq, v, s[0], s[1..]) == Uniqued(eq, v, s)
  {
  }

  lemma UniqueShort<T>(eq: (T, T) -> bool, v: map<int, T>, s: seq<int>)
    requires Covers(v, s) && |s| < 2
    ensures Uniqued(eq, v, s) == s
  {
  }

  /** One more node is looked at. */
  lemma DedupStep<T>(eq: (T, T) -> bool, v: map<int, T>, kept: int, rest: seq<int>)
    requires kept in v && Covers(v, rest)
    ensures rest == [] ==> Dedup(eq, v, kept, rest) == []
    ensures rest != [] ==> rest[0] in v && Covers(v, rest[1..])
    ensures rest != [] && eq(v[kept], v[rest[0]]) ==> Dedup(eq, v, kept, rest) == Dedup(eq, v, kept, rest[1..])
    ensures rest != [] && !eq(v[kept], v[rest[0]])
            ==> Dedup(eq, v, kept, rest) == [rest[0]] + Dedup(eq, v, rest[0], rest[1..])
  {
  }

  /** Afterwards no two neighbours are equal. */
  lemma {:induction false} DedupSeparates<T>(eq: (T, T) -> bool, v: map<int, T>, kept: int, rest: seq<int>)
    requires kept in v && Covers(v, rest)
    ensures var r := [kept] + Dedup(eq, v, kept, rest);
            && Covers(v, r)
            && forall i, j :: 0 <= i < j < |r| && j == i + 1 ==> !eq(v[r[i]], v[r[j]])
    decreases |rest|
  {
    if rest != [] {
      if eq(v[kept], v[rest[0]]) {
        DedupSeparates(eq, v, kept, rest[1..]);
      } else {
        DedupSeparates(eq, v, rest[0], rest[1..]);
        var q := [rest[0]] + Dedup(eq, v, rest[0], rest[1..]);
        var r := [kept] + q;
        assert Dedup(eq, v, kept, rest) == q;
        assert forall i :: 0 < i < |r| ==> r[i] == q[i - 1];
      }
    }
  }

  /** The runs one after another. */
  function Joined(runs: seq<seq<int>>): seq<int> {
    if runs == [] then [] else runs[0] + Joined(runs[1..])
  }

  /** The node and those behind it whose values equal its own. */
  ghost predicate RunOf<T>(eq: (T, T) -> bool, v: map<int, T>, run: seq<int>, x: int) {
    && run != [] && run[0] == x && Covers(v, run)
    && forall j :: 0 < j < |run| ==> eq(v[x], v[run[j]])
  }

  lemma {:induction false} DedupRuns<T>(eq: (T, T) -> bool, v: map<int, T>, kept: int, rest: seq<int>)
    returns (runs: seq<seq<int>>)
    requires kept in v && Covers(v, rest)
    ensures var r := [kept] + Dedup(eq, v, kept, rest);
            && |runs| == |r| && Joined(runs) == [kept] + rest
            && forall i :: 0 <= i < |r| ==> RunOf(eq, v, runs[i], r[i])
    decreases |rest|
  {
    if rest == [] {
      runs := [[kept]];
      assert runs[1..] == [];
    } else if eq(v[kept], v[rest[0]]) {
      var more := DedupRuns(eq, v, kept, rest[1..]);
      var first := [kept, rest[0]] + more[0][1..];
      runs := [first] + more[1..];
      assert runs[1..] == more[1..] && more[0] == [kept] + more[0][1..];
      assert Joined(more) == more[0] + Joined(more[1..]);
      assert more[0][1..] + Joined(more[1..]) == rest[1..] by {
        assert ([kept] + (more[0][1..] + Joined(more[1..])))[1..] == ([kept] + rest[1..])[1..];
      }
      assert rest == [rest[0]] + rest[1..];
      assert RunOf(eq, v, more[0], kept);
      forall j | 0 < j < |first| ensures first[j] in v && eq(v[kept], v[first[j]]) {
        assert j > 1 ==> first[j] == more[0][j - 1];
      }
    } else {
      var more := DedupRuns(eq, v, rest[0], rest[1..]);
      runs := [[kept]] + more;
      assert runs[1..] == more && rest == [rest[0]] + rest[1..];
    }
  }

  /** `unique` keeps exactly the first of every run: the sequence falls into runs, each of values equal to its first,
      and what is kept are their first nodes. */
  lemma UniquedRuns<T>(eq: (T, T) -> bool, v: map<int, T>, s: seq<int>) returns (runs: seq<seq<int>>)
    requires Covers(v, s)
    ensures var r := Uniqued(eq, v, s);
            && |runs| == |r| && Joined(runs) == s
            && forall i :: 0 <= i < |r| ==> RunOf(eq, v, runs[i], r[i])
  {
    runs := [];
    if s != [] {
      runs := DedupRuns(eq, v, s[0], s[1..]);
      assert s == [s[0]] + s[1..];
    }
  }

  /** A filter looks at every node on its own and keeps the order. */
  lemma {:induction false} FilterAdd(p: int -> bool, xs: seq<int>, ys: seq<int>)
    ensures Filter(p, xs + ys) == Filter(p, xs) + Filter(p, ys)
    decreases |xs|
  {
    if xs == [] {
      assert xs + ys == ys;
    } else {
      var rest, all := xs[1..], xs + ys;
      assert all[0] == xs[0] && all[1..] == rest + ys;
      FilterAdd(p, rest, ys);
      var first, a, b := if p(xs[0]) then [xs[0]] else [], Filter(p, rest), Filter(p, ys);
      assert Filter(p, all) == first + (a + b) && Filter(p, xs) == first + a;
      assert first + (a + b) == (first + a) + b;
    }
  }

  lemma FilterOne(p: int -> bool, x: int)
    ensures Filter(p, [x]) == if p(x) then [x] else []
  {
    assert [x][1..] == [];
  }

  // ---------------------------------------------------------------- stable sort

  /** Put `x` in front of everything that is not less than it. */
  function Insorted<T>(less: (T, T) -> bool, v: map<int, T>, x: int, s: seq<int>): (r: seq<int>)
    requires x in v && Covers(v, s)
    ensures multiset(r) == multiset([x]) + multiset(s)
    ensures Covers(v, r) && forall y :: y in r <==> y in s || y == x
    decreases |s|
  {
    if s == [] || !less(v[s[0]], v[x]) then [x] + s
    else
      var r := Insorted(less, v, x, s[1..]);
      assert s == [s[0]] + s[1..];
      [s[0]] + r
  }

  /** The nodes in a stable order by value. */
  function StableSorted<T>(less: (T, T) -> bool, v: map<int, T>, s: seq<int>): (r: seq<int>)
    requires Covers(v, s)
    ensures multiset(r) == multiset(s)
    ensures Covers(v, r) && forall x :: x in r <==> x in s
    decreases |s|
  {
    if s == [] then []
    else
      var r := Insorted(less, v, s[0], StableSorted(less, v, s[1..]));
      assert s == [s[0]] + s[1..];
      r
  }

  ghost predicate SortedValues<T>(less: (T, T) -> bool, v: map<int, T>, s: seq<int>)
    requires Covers(v, s)
  {
    forall i, j :: 0 <= i < j < |s| ==> !less(v[s[j]], v[s[i]])
  }

  /** The nodes whose values the order does not separate from `c`. */
  ghost function ClassOf<T>(less: (T, T) -> bool, v: map<int, T>, c: T): int -> bool {
    x => x in v && Equivalent(less, v[x], c)
  }

  /** For every class of values, the nodes of that class are in the same order. */
  ghost predicate SameClasses<T(!new)>(less: (T, T) -> bool, v: map<int, T>, s: seq<int>, t: seq<int>) {
    forall c: T :: Filter(ClassOf(less, v, c), s) == Filter(ClassOf(less, v, c), t)
  }

  lemma SameClass<T(!new)>(less: (T, T) -> bool, a: T, b: T, c: T)
    requires WeakOrder(less) && Equivalent(less, a, b) && Equivalent(less, b, c)
    ensures Equivalent(less, a, c)
  {
  }

  /** Not being greater is transitive in a weak order. */
  lemma NotLess<T(!new)>(less: (T, T) -> bool, a: T, b: T, c: T)
    requires WeakOrder(less) && !less(b, a) && !less(c, b)
    ensures !less(c, a)
  {
    if less(c, a) {
      if less(a, b) {
        Transitive(less, c, a, b);
      } else if less(b, c) {
        Transitive(less, b, c, a);
      } else {
        SameClass(less, a, b, c);
      }
    }
  }

  lemma {:induction false} InsortedSorted<T(!new)>(less: (T, T) -> bool, v: map<int, T>, x: int, s: seq<int>)
    requires WeakOrder(less) && x in v && Covers(v, s) && SortedValues(less, v, s)
    ensures SortedValues(less, v, Insorted(less, v, x, s))
    decreases |s|
  {
    var r := Insorted(less, v, x, s);
    if s == [] || !less(v[s[0]], v[x]) {
      forall i, j | 0 <= i < j < |r| ensures !less(v[r[j]], v[r[i]]) {
        assert r[j] == s[j - 1];
        if i > 0 { assert r[i] == s[i - 1]; }
        else if j > 1 { NotLess(less, v[x], v[s[0]], v[s[j - 1]]); }
      }
    } else {
      var t := s[1..];
      assert forall i :: 0 <= i < |t| ==> t[i] == s[i + 1];
      InsortedSorted(less, v, x, t);
      var q := Insorted(less, v, x, t);
      assert r == [s[0]] + q;
      forall i, j | 0 <= i < j < |r| ensures !less(v[r[j]], v[r[i]]) {
        assert r[j] == q[j - 1];
        if i > 0 { assert r[i] == q[i - 1]; }
        else { assert q[j - 1] in q; HeadNotGreater(less, v, x, s, q[j - 1]); }
      }
    }
  }

  lemma HeadNotGreater<T(!new)>(less: (T, T) -> bool, v: map<int, T>, x: int, s: seq<int>, y: int)
    requires WeakOrder(less) && x in v && Covers(v, s) && SortedValues(less, v, s)
    requires s != [] && less(v[s[0]], v[x]) && (y in s[1..] || y == x)
    ensures y in v && !less(v[y], v[s[0]])
  {
    if y == x {
      if less(v[x], v[s[0]]) { Transitive(less, v[x], v[s[0]], v[x]); }
    } else {
      var i :| 0 <= i < |s[1..]| && s[1..][i] == y;
      assert s[i + 1] == y;
    }
  }

  /** Insertion keeps the order inside every class, with `x` first in its own. */
  lemma {:induction false} InsortedStable<T(!new)>(less: (T, T) -> bool, v: map<int, T>, x: int, s: seq<int>, c: T)
    requires WeakOrder(less) && x in v && Covers(v, s)
    ensures Filter(ClassOf(less, v, c), Insorted(less, v, x, s)) == Filter(ClassOf(less, v, c), [x] + s)
    decreases |s|
  {
    var p := ClassOf(less, v, c);
    if s != [] && less(v[s[0]], v[x]) {
      var q := Insorted(less, v, x, s[1..]);
      InsortedStable(less, v, x, s[1..], c);
      assert ([s[0]] + q)[1..] == q && ([x] + s)[1..] == s && ([x] + s[1..])[1..] == s[1..];
      if p(x) && p(s[0]) { SameClass(less, v[s[0]], c, v[x]); }
    }
  }

  lemma {:induction false} StableSortedSorted<T(!new)>(less: (T, T) -> bool, v: map<int, T>, s: seq<int>)
    requires WeakOrder(less) && Covers(v, s)
    ensures SortedValues(less, v, StableSorted(less, v, s))
    decreases |s|
  {
    if s != [] {
      StableSortedSorted(less, v, s[1..]);
      InsortedSorted(less, v, s[0], StableSorted(less, v, s[1..]));
    }
  }

  lemma {:induction false} StableSortedStable<T(!new)>(less: (T, T) -> bool, v: map<int, T>, s: seq<int>, c: T)
    requires WeakOrder(less) && Covers(v, s)
    ensures Filter(ClassOf(less, v, c), StableSorted(less, v, s)) == Filter(ClassOf(less, v, c), s)
    decreases |s|
  {
    if s != [] {
      var r := StableSorted(less, v, s[1..]);
      StableSortedStable(less, v, s[1..], c);
      InsortedStable(less, v, s[0], r, c);
      assert ([s[0]] + r)[1..] == r;
    }
  }

  /** Sorted and stable: nothing else could be the result of a stable sort. */
  lemma StableSortIsTheOne<T(!new)>(less: (T, T) -> bool, v: map<int, T>, s: seq<int>, r: seq<int>)
    requires WeakOrder(less) && Covers(v, s) && Covers(v, r)
    ensures SortedValues(less, v, r) && SameClasses(less, v, r, s) <==> r == StableSorted(less, v, s)
  {
    var q := StableSorted(less, v, s);
    StableSortedSorted(less, v, s);
    forall c: T ensures Filter(ClassOf(less, v, c), q) == Filter(ClassOf(less, v, c), s) {
      StableSortedStable(less, v, s, c);
    }
    if SortedValues(less, v, r) && SameClasses(less, v, r, s) {
      SortedClassesUnique(less, v, r, q);
    }
  }

  lemma {:induction false} SortedClassesUnique<T(!new)>(less: (T, T) -> bool, v: map<int, T>, r: seq<int>, q: seq<int>)
    requires WeakOrder(less) && Covers(v, r) && Covers(v, q)
    requires SortedValues(less, v, r) && SortedValues(less, v, q) && SameClasses(less, v, r, q)
    ensures r == q
    decreases |r|
  {
    if r != [] {
      ClassNonempty(less, v, r, q);
      SameFirst(less, v, r, q);
      TailClasses(less, v, r, q);
      assert forall i :: 0 <= i < |r| - 1 ==> r[1..][i] == r[i + 1];
      assert forall i :: 0 <= i < |q| - 1 ==> q[1..][i] == q[i + 1];
      SortedClassesUnique(less, v, r[1..], q[1..]);
      assert r == [r[0]] + r[1..] && q == [q[0]] + q[1..];
    } else if q != [] {
      ClassNonempty(less, v, q, r);
    }
  }

  lemma {:induction false} FilterMember(p: int -> bool, s: seq<int>)
    ensures forall x :: x in Filter(p, s) <==> x in s && p(x)
    decreases |s|
  {
    if s != [] { FilterMember(p, s[1..]); }
  }

  /** A node of `r` has company of its class in `q`. */
  lemma ClassNonempty<T(!new)>(less: (T, T) -> bool, v: map<int, T>, r: seq<int>, q: seq<int>)
    requires WeakOrder(less) && r != [] && Covers(v, r) && SameClasses(less, v, r, q)
    ensures exists x :: x in q && x in v && Equivalent(less, v[x], v[r[0]])
  {
    var p := ClassOf(less, v, v[r[0]]);
    FilterMember(p, r);
    FilterMember(p, q);
    var x := r[0];
    assert p(x) && x in Filter(p, r);
    assert x in Filter(p, q);
    assert x in q && Equivalent(less, v[x], v[r[0]]);
  }

  lemma SameFirst<T(!new)>(less: (T, T) -> bool, v: map<int, T>, r: seq<int>, q: seq<int>)
    requires WeakOrder(less) && r != [] && q != [] && Covers(v, r) && Covers(v, q)
    requires SortedValues(less, v, r) && SortedValues(less, v, q) && SameClasses(less, v, r, q)
    ensures r[0] == q[0]
  {
    ClassNonempty(less, v, r, q);
    ClassNonempty(less, v, q, r);
    var x :| x in q && Equivalent(less, v[x], v[r[0]]);
    var y :| y in r && Equivalent(less, v[y], v[q[0]]);
    FirstIsLeast(less, v, q, x);
    FirstIsLeast(less, v, r, y);
    NotLess(less, v[q[0]], v[x], v[r[0]]);
    NotLess(less, v[r[0]], v[y], v[q[0]]);
    var p := ClassOf(less, v, v[r[0]]);
    assert p(r[0]) && p(q[0]);
    assert Filter(p, r)[0] == r[0] && Filter(p, q)[0] == q[0];
  }

  lemma FirstIsLeast<T(!new)>(less: (T, T) -> bool, v: map<int, T>, s: seq<int>, x: int)
    requires WeakOrder(less) && x in s && Covers(v, s) && SortedValues(less, v, s)
    ensures !less(v[x], v[s[0]])
  {
    var i :| 0 <= i < |s| && s[i] == x;
  }

  lemma SamePrefix(f: seq<int>, a: seq<int>, b: seq<int>)
    requires f + a == f + b
    ensures a == b
  {
    assert a == (f + a)[|f|..] && b == (f + b)[|f|..];
  }

  lemma TailClasses<T(!new)>(less: (T, T) -> bool, v: map<int, T>, r: seq<int>, q: seq<int>)
    requires r != [] && q != [] && r[0] == q[0] && SameClasses(less, v, r, q)
    ensures SameClasses(less, v, r[1..], q[1..])
  {
    forall c: T ensures Filter(ClassOf(less, v, c), r[1..]) == Filter(ClassOf(less, v, c), q[1..]) {
      var p := ClassOf(less, v, c);
      assert Filter(p, r) == Filter(p, q);
      var f := if p(r[0]) then [r[0]] else [];
      assert Filter(p, r) == f + Filter(p, r[1..]) && Filter(p, q) == f + Filter(p, q[1..]);
      SamePrefix(f, Filter(p, r[1..]), Filter(p, q[1..]));
    }
  }
}
