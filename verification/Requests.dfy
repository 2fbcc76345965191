/** Allocation requests: which block serves one, what several in a row lead to, and when the heap refuses. */
module Requests {
  import opened Segments
  import opened Chains
  import opened Heaps
  import opened HeapSteps
  import opened Operations

  type Alignment = x: int | 0 < x witness 1

  /** A size, and an alignment as the allocator uses it. */
  datatype Request = Request(n: Word, align: Alignment)

  /** The block has room for the request behind its headers. */
  ghost predicate RoomIn(b: Block, q: Request) {
    HasRoom(b.addr, b.End(), q.n, q.align)
  }

  /** Some free block has room. */
  ghost predicate CanTake(v: View, q: Request) {
    exists b :: b in v.frees && RoomIn(b, q)
  }

  /** Of the free blocks that have room, this one is the smallest, and of those of its size the first. */
  ghost predicate BestFor(v: View, q: Request, b: Block) {
    && b in v.frees && RoomIn(b, q)
    && forall c :: c in v.frees && RoomIn(c, q) ==> c == b || b.size < c.size || (b.size == c.size && b.addr < c.addr)
  }

  /** The heap after the best block has served the request. */
  ghost predicate TakesTo(v: View, q: Request, w: View) {
    exists b :: BestFor(v, q, b) && b in v.blocks && w == AllocateView(v, b, Total(b.addr, q.n, q.align))
  }

  /** The same request several times. */
  function Same(q: Request, count: nat): seq<Request> {
    seq(count, i => q)
  }

  lemma SameMore(q: Request, k: nat, count: nat)
    ensures Same(q, k + 1) == Same(q, k) + [q]
    ensures k < count ==> Same(q, count)[..k] == Same(q, k) && Same(q, count)[k] == q
  {
  }

  function Front(qs: seq<Request>): seq<Request>
    requires qs != []
  {
    qs[..|qs| - 1]
  }

  function Last(qs: seq<Request>): Request
    requires qs != []
  {
    qs[|qs| - 1]
  }

  /** One request after the other, each on the heap left by those before it. */
  ghost predicate Served(v: View, qs: seq<Request>, w: View)
    decreases |qs|
  {
    if qs == [] then v == w
    else exists u :: Served(v, Front(qs), u) && TakesTo(u, Last(qs), w)
  }

  /** After the first `k` requests no free block has room for the next. */
  ghost predicate RefusedAt(v: View, qs: seq<Request>, k: nat)
    requires k < |qs|
  {
    exists u :: Served(v, qs[..k], u) && !CanTake(u, qs[k])
  }

  ghost predicate Refused(v: View, qs: seq<Request>) {
    exists k :: 0 <= k < |qs| && RefusedAt(v, qs, k)
  }

  /** What serves a request, and so what it leads to, is determined by the heap. */
  lemma TakesToOne(v: View, q: Request, w: View, w': View)
    requires TakesTo(v, q, w) && TakesTo(v, q, w')
    ensures w == w' && CanTake(v, q)
  {
  }

  lemma {:induction false} ServedOne(v: View, qs: seq<Request>, w: View, w': View)
    requires Served(v, qs, w) && Served(v, qs, w')
    ensures w == w'
    decreases |qs|
  {
    if qs != [] {
      var front, q := Front(qs), Last(qs);
      var u :| Served(v, front, u) && TakesTo(u, q, w);
      var u' :| Served(v, front, u') && TakesTo(u', q, w');
      ServedOne(v, front, u, u');
      TakesToOne(u, q, w, w');
    }
  }

  lemma ServedSnoc(v: View, qs: seq<Request>, u: View, q: Request, w: View)
    requires Served(v, qs, u) && TakesTo(u, q, w)
    ensures Served(v, qs + [q], w)
  {
    assert Front(qs + [q]) == qs && Last(qs + [q]) == q;
  }

  /** Requests that are served are not refused. */
  lemma {:induction false} ServedNotRefused(v: View, qs: seq<Request>, w: View)
    requires Served(v, qs, w)
    ensures !Refused(v, qs)
    decreases |qs|
  {
    if qs == [] {
      NothingRefused(v);
    } else {
      hide TakesTo, CanTake, Served, RefusedAt, Refused, Front, Last;
      var u := BeforeLast(v, qs, w);
      TakesToOne(u, Last(qs), w, w);
      ServedNotRefused(v, Front(qs), u);
      LastNotRefused(v, qs, u);
      NotRefusedMore(v, qs);
    }
  }

  lemma NothingRefused(v: View)
    ensures !Refused(v, [])
  {
  }

  lemma NotRefusedMore(v: View, qs: seq<Request>)
    requires qs != [] && !Refused(v, Front(qs)) && !RefusedAt(v, qs, |qs| - 1)
    ensures !Refused(v, qs)
  {
    hide RefusedAt;
    forall k: nat | k < |qs| - 1 ensures !RefusedAt(v, qs, k) {
      SameRefusal(v, qs, k);
    }
  }

  lemma LastNotRefused(v: View, qs: seq<Request>, u: View)
    requires qs != [] && Served(v, Front(qs), u) && CanTake(u, Last(qs))
    ensures !RefusedAt(v, qs, |qs| - 1)
  {
    hide Served, CanTake;
    forall x | Served(v, Front(qs), x) ensures CanTake(x, Last(qs)) {
      ServedOne(v, Front(qs), u, x);
    }
  }

  lemma BeforeLast(v: View, qs: seq<Request>, w: View) returns (u: View)
    requires qs != [] && Served(v, qs, w)
    ensures Served(v, Front(qs), u) && TakesTo(u, Last(qs), w)
  {
    u :| Served(v, Front(qs), u) && TakesTo(u, Last(qs), w);
  }

  lemma SameRefusal(v: View, qs: seq<Request>, k: nat)
    requires k < |qs| - 1 && !Refused(v, Front(qs))
    ensures !RefusedAt(v, qs, k)
  {
    hide Served, CanTake;
    var front := Front(qs);
    assert front[..k] == qs[..k] && front[k] == qs[k] && !RefusedAt(v, front, k);
  }

  /** A refusal is not undone by what else was asked for. */
  lemma RefusedHere(v: View, qs: seq<Request>, k: nat, u: View)
    requires k < |qs| && Served(v, qs[..k], u) && !CanTake(u, qs[k])
    ensures Refused(v, qs)
  {
    assert RefusedAt(v, qs, k);
  }
}
