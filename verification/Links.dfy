/** Doubly linked rings over node memory: one map per link field, and what sequence of nodes the
    links describe. A ring starts and ends at an anchor that is not one of its nodes. */
module Links {
  type Field = map<int, int>

  /** The `i`-th stop on the way around the ring; the anchor comes before the first and after the last. */
  function Stop(h: int, s: seq<int>, i: int): int { if 0 < i <= |s| then s[i - 1] else h }

  function First(h: int, s: seq<int>): int { if s == [] then h else s[0] }

  function Last(h: int, s: seq<int>): int { if s == [] then h else s[|s| - 1] }

  /** `a` and `b` point to each other. */
  ghost predicate Edge(nx: Field, pv: Field, a: int, b: int) {
    a in nx && nx[a] == b && b in pv && pv[b] == a
  }

  ghost predicate Ring(nx: Field, pv: Field, h: int, s: seq<int>) {
    forall i :: 0 <= i <= |s| ==> Edge(nx, pv, Stop(h, s, i), Stop(h, s, i + 1))
  }

  /** A detached run of nodes, linked to each other. */
  ghost predicate Inner(nx: Field, pv: Field, s: seq<int>) {
    forall i, j :: 0 <= i < j < |s| && j == i + 1 ==> Edge(nx, pv, s[i], s[j])
  }

  ghost predicate NoRepeats(s: seq<int>) {
    forall i, j :: 0 <= i < j < |s| ==> s[i] != s[j]
  }

  /** The nodes are pairwise different, and different from the anchor. */
  ghost predicate Apart(h: int, s: seq<int>) {
    h !in s && NoRepeats(s)
  }

  ghost function Nodes(s: seq<int>): set<int> { set x | x in s }

  ghost function Span(h: int, s: seq<int>): set<int> { Nodes(s) + {h} }

  /** The field has the same values at the given nodes. */
  ghost predicate SameOn(f: Field, f': Field, xs: set<int>) {
    forall x :: x in xs && x in f ==> x in f' && f'[x] == f[x]
  }

  lemma StopIn(h: int, s: seq<int>, i: int)
    ensures Stop(h, s, i) in Span(h, s)
  {
  }

  lemma RingFrame(nx: Field, pv: Field, nx': Field, pv': Field, h: int, s: seq<int>)
    requires Ring(nx, pv, h, s) && SameOn(nx, nx', Span(h, s)) && SameOn(pv, pv', Span(h, s))
    ensures Ring(nx', pv', h, s)
  {
    forall i | 0 <= i <= |s| ensures Edge(nx', pv', Stop(h, s, i), Stop(h, s, i + 1)) {
      StopIn(h, s, i);
      StopIn(h, s, i + 1);
      assert Edge(nx, pv, Stop(h, s, i), Stop(h, s, i + 1));
    }
  }

  /** Both neighbours of the `i`-th stop. */
  lemma RingAt(nx: Field, pv: Field, h: int, s: seq<int>, i: nat)
    requires Ring(nx, pv, h, s) && i <= |s|
    ensures Stop(h, s, i) in nx && nx[Stop(h, s, i)] == Stop(h, s, i + 1)
    ensures Stop(h, s, i) in pv && pv[Stop(h, s, i)] == (if i == 0 then Last(h, s) else Stop(h, s, i - 1))
  {
    assert Edge(nx, pv, Stop(h, s, i), Stop(h, s, i + 1));
    var j := if i == 0 then |s| else i - 1;
    assert Edge(nx, pv, Stop(h, s, j), Stop(h, s, j + 1));
  }

  /** Different stops are different nodes, and so are those behind them. */
  lemma StopsApart(h: int, s: seq<int>, i: nat, j: nat)
    requires Apart(h, s) && i <= |s| && j <= |s| && i != j
    ensures Stop(h, s, i) != Stop(h, s, j) && Stop(h, s, i + 1) != Stop(h, s, j + 1)
  {
  }

  lemma ApartParts(h: int, a: seq<int>, m: seq<int>, b: seq<int>)
    requires Apart(h, a + m + b)
    ensures Apart(h, a + b) && Apart(h, m) && Apart(h, a) && Apart(h, b)
    ensures Nodes(a + m + b) == Nodes(a) + Nodes(m) + Nodes(b)
    ensures Nodes(a + b) !! Nodes(m) && Nodes(a) !! Nodes(b)
  {
    var r := a + m + b;
    assert forall i :: 0 <= i < |a| ==> r[i] == a[i];
    assert forall i :: 0 <= i < |m| ==> r[|a| + i] == m[i];
    assert forall i :: 0 <= i < |b| ==> r[|a| + |m| + i] == b[i];
    forall i, j | 0 <= i < j < |a + b| ensures (a + b)[i] != (a + b)[j] {
      assert (a + b)[i] == r[if i < |a| then i else i + |m|];
      assert (a + b)[j] == r[if j < |a| then j else j + |m|];
    }
    forall x | x in m ensures x !in a && x !in b && x in r {
      var k :| 0 <= k < |m| && m[k] == x;
      assert r[|a| + k] == x;
    }
    forall x | x in a ensures x !in b && x in r {
      var k :| 0 <= k < |a| && a[k] == x;
      assert r[k] == x;
    }
    forall x | x in b ensures x in r {
      var k :| 0 <= k < |b| && b[k] == x;
      assert r[|a| + |m| + k] == x;
    }
  }

  lemma ApartJoin(h: int, a: seq<int>, m: seq<int>, b: seq<int>)
    requires Apart(h, a + b) && Apart(h, m) && Nodes(a + b) !! Nodes(m)
    ensures Apart(h, a + m + b)
  {
    var r, w := a + m + b, a + b;
    forall i, j | 0 <= i < j < |r| ensures r[i] != r[j] {
      assert i < |a| ==> r[i] == w[i];
      assert |a| <= i < |a| + |m| ==> r[i] == m[i - |a|] && r[i] in Nodes(m);
      assert |a| + |m| <= i ==> r[i] == w[i - |m|];
      assert j < |a| ==> r[j] == w[j];
      assert |a| <= j < |a| + |m| ==> r[j] == m[j - |a|] && r[j] in Nodes(m);
      assert |a| + |m| <= j ==> r[j] == w[j - |m|];
      assert i < |a| ==> r[i] in Nodes(w);
      assert |a| + |m| <= j ==> r[j] in Nodes(w);
    }
  }

  /** Linking the two ends around a run of nodes takes exactly that run out of the ring. */
  lemma CutRun(nx: Field, pv: Field, h: int, a: seq<int>, m: seq<int>, b: seq<int>)
    requires Ring(nx, pv, h, a + m + b) && Apart(h, a + m + b)
    ensures var nx', pv' := nx[Last(h, a) := First(h, b)], pv[First(h, b) := Last(h, a)];
            Ring(nx', pv', h, a + b) && Inner(nx', pv', m)
  {
    var nx', pv' := nx[Last(h, a) := First(h, b)], pv[First(h, b) := Last(h, a)];
    var r, w := a + m + b, a + b;
    ApartParts(h, a, m, b);
    assert Last(h, a) == Stop(h, w, |a|) && First(h, b) == Stop(h, w, |a| + 1);
    forall i | 0 <= i <= |w| ensures Edge(nx', pv', Stop(h, w, i), Stop(h, w, i + 1)) {
      if i != |a| {
        var j := if i < |a| then i else i + |m|;
        assert Edge(nx, pv, Stop(h, r, j), Stop(h, r, j + 1));
        assert Stop(h, r, j) == Stop(h, w, i) && Stop(h, r, j + 1) == Stop(h, w, i + 1);
        StopsApart(h, w, i, |a|);
      }
    }
    forall i, j | 0 <= i < j < |m| && j == i + 1 ensures Edge(nx', pv', m[i], m[j]) {
      assert Edge(nx, pv, Stop(h, r, |a| + 1 + i), Stop(h, r, |a| + 2 + i));
      assert m[i] in Nodes(m) && m[j] in Nodes(m);
      StopIn(h, w, |a|);
      StopIn(h, w, |a| + 1);
    }
  }

  /** Linking the two ends of a detached run into a gap puts exactly that run into the ring. */
  lemma PasteRun(nx: Field, pv: Field, h: int, a: seq<int>, m: seq<int>, b: seq<int>)
    requires Ring(nx, pv, h, a + b) && Inner(nx, pv, m) && m != [] && Apart(h, a + m + b)
    ensures var nx' := nx[Last(h, a) := m[0]][m[|m| - 1] := First(h, b)];
            var pv' := pv[m[0] := Last(h, a)][First(h, b) := m[|m| - 1]];
            Ring(nx', pv', h, a + m + b)
  {
    var nx' := nx[Last(h, a) := m[0]][m[|m| - 1] := First(h, b)];
    var pv' := pv[m[0] := Last(h, a)][First(h, b) := m[|m| - 1]];
    var r, w := a + m + b, a + b;
    ApartParts(h, a, m, b);
    assert Last(h, a) == Stop(h, r, |a|) && First(h, b) == Stop(h, r, |a| + |m| + 1);
    assert m[0] == Stop(h, r, |a| + 1) && m[|m| - 1] == Stop(h, r, |a| + |m|);
    forall i | 0 <= i <= |r| ensures Edge(nx', pv', Stop(h, r, i), Stop(h, r, i + 1)) {
      if i != |a| { StopsApart(h, r, i, |a|); }
      if i != |a| + |m| { StopsApart(h, r, i, |a| + |m|); }
      if |a| < i < |a| + |m| {
        assert Stop(h, r, i) == m[i - |a| - 1] && Stop(h, r, i + 1) == m[i - |a|];
        assert Edge(nx, pv, m[i - |a| - 1], m[i - |a|]);
      } else if i < |a| || |a| + |m| < i {
        var j := if i < |a| then i else i - |m|;
        assert Stop(h, r, i) == Stop(h, w, j) && Stop(h, r, i + 1) == Stop(h, w, j + 1);
        assert Edge(nx, pv, Stop(h, w, j), Stop(h, w, j + 1));
      }
    }
  }

  lemma EmptyRing(nx: Field, pv: Field, h: int)
    ensures Ring(nx[h := h], pv[h := h], h, [])
  {
  }

  // ---------------------------------------------------------------- the other direction

  function Reversed(s: seq<int>): (r: seq<int>)
    ensures |r| == |s| && forall i :: 0 <= i < |s| ==> r[i] == s[|s| - 1 - i]
  {
    seq(|s|, i requires 0 <= i < |s| => s[|s| - 1 - i])
  }

  /** The same links read the other way around describe the reversed sequence. */
  lemma RingReversed(nx: Field, pv: Field, h: int, s: seq<int>)
    requires Ring(nx, pv, h, s)
    ensures Ring(pv, nx, h, Reversed(s))
  {
    var r := Reversed(s);
    forall i | 0 <= i <= |r| ensures Edge(pv, nx, Stop(h, r, i), Stop(h, r, i + 1)) {
      assert Edge(nx, pv, Stop(h, s, |s| - i), Stop(h, s, |s| - i + 1));
    }
  }

  lemma ReversedNodes(s: seq<int>)
    ensures Nodes(Reversed(s)) == Nodes(s)
    ensures forall h :: Apart(h, s) ==> Apart(h, Reversed(s))
  {
    var r := Reversed(s);
    forall x | x in s ensures x in r {
      var i :| 0 <= i < |s| && s[i] == x;
      assert r[|s| - 1 - i] == x;
    }
  }

  // ---------------------------------------------------------------- only one sequence

  /** The links determine the sequence. */
  lemma {:induction false} RingPrefix(nx: Field, pv: Field, h: int, s: seq<int>, t: seq<int>, k: nat)
    requires Ring(nx, pv, h, s) && Ring(nx, pv, h, t) && h !in s && h !in t
    requires k <= |s| && k <= |t|
    ensures forall i :: 0 <= i < k ==> s[i] == t[i]
    decreases k
  {
    if k > 0 {
      RingPrefix(nx, pv, h, s, t, k - 1);
      RingAt(nx, pv, h, s, k - 1);
      RingAt(nx, pv, h, t, k - 1);
    }
  }

  lemma RingUnique(nx: Field, pv: Field, h: int, s: seq<int>, t: seq<int>)
    requires Ring(nx, pv, h, s) && Ring(nx, pv, h, t) && h !in s && h !in t
    ensures s == t
  {
    var k := if |s| <= |t| then |s| else |t|;
    RingPrefix(nx, pv, h, s, t, k);
    RingAt(nx, pv, h, s, k);
    RingAt(nx, pv, h, t, k);
  }

  // ---------------------------------------------------------------- one direction only

  /** Following the field from `top` visits exactly `s` and arrives at null. */
  ghost predicate Stack(f: Field, top: int, s: seq<int>) {
    && top == First(0, s) && 0 !in s
    && forall i :: 0 <= i < |s| ==> s[i] in f && f[s[i]] == Stop(0, s, i + 2)
  }

  lemma StackFrame(f: Field, f': Field, top: int, s: seq<int>)
    requires Stack(f, top, s) && SameOn(f, f', Nodes(s))
    ensures Stack(f', top, s)
  {
    hide Stop;
    forall i | 0 <= i < |s| ensures s[i] in f' && f'[s[i]] == Stop(0, s, i + 2) {
      var x := s[i];
      assert x in Nodes(s) && x in f;
    }
  }

  lemma StackTop(f: Field, top: int, s: seq<int>)
    requires Stack(f, top, s)
    ensures top == 0 <==> s == []
    ensures s != [] ==> top == s[0]
  {
  }

  lemma StackPush(f: Field, top: int, s: seq<int>, x: int)
    requires Stack(f, top, s) && x != 0 && x !in s
    ensures Stack(f[x := top], x, [x] + s)
  {
    var t := [x] + s;
    forall i | 0 <= i < |t| ensures t[i] in f[x := top] && f[x := top][t[i]] == Stop(0, t, i + 2) {
      if i > 0 { assert t[i] == s[i - 1] && s[i - 1] in s; }
    }
  }

  lemma StackPop(f: Field, top: int, s: seq<int>)
    requires Stack(f, top, s) && s != []
    ensures top == s[0] && top in f && Stack(f, f[top], s[1..])
  {
    var t := s[1..];
    forall i | 0 <= i < |t| ensures t[i] in f && f[t[i]] == Stop(0, t, i + 2) {
      assert t[i] == s[i + 1];
    }
  }

  /** Pointing past a node takes exactly it off. */
  lemma StackDrop(f: Field, top: int, a: seq<int>, x: int, b: seq<int>)
    requires Stack(f, top, a + [x] + b) && NoRepeats(a + [x] + b)
    ensures x in f && f[x] == First(0, b)
    ensures if a == [] then Stack(f, f[x], b) else Stack(f[Last(0, a) := f[x]], top, a + b)
    ensures NoRepeats(a + b) && x !in a + b
  {
    DropParts(a, x, b);
    hide NoRepeats;
    var r, w := a + [x] + b, a + b;
    assert r[|a|] == x && Stop(0, r, |a| + 2) == First(0, b);
    var f' := if a == [] then f else f[Last(0, a) := f[x]];
    forall i | 0 <= i < |w| ensures w[i] in f' && f'[w[i]] == Stop(0, w, i + 2) {
      var j := if i < |a| then i else i + 1;
      assert r[j] == w[i];
      assert i != |a| - 1 ==> Stop(0, r, j + 2) == Stop(0, w, i + 2);
      if a != [] && i != |a| - 1 {
        Differ(w, i, |a| - 1);
      }
    }
    if a == [] { assert w == b; }
  }

  lemma DropParts(a: seq<int>, x: int, b: seq<int>)
    requires NoRepeats(a + [x] + b)
    ensures NoRepeats(a + b) && x !in a + b
  {
    var r, w := a + [x] + b, a + b;
    assert r[|a|] == x;
    forall i | 0 <= i < |w| ensures w[i] == r[if i < |a| then i else i + 1] && w[i] != x {
    }
  }

  lemma Differ(s: seq<int>, i: nat, j: nat)
    requires NoRepeats(s) && i < |s| && j < |s| && i != j
    ensures s[i] != s[j]
  {
  }
}
