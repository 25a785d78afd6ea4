/** Receiving from and returning to an item-mode ring buffer, on layouts. */
module RingReturn {
  import opened Bytes
  import opened RingLayout
  import opened RingSteps

  lemma Basics(l: Layout)
    requires l.Shape() && l.Counted()
    ensures l.taken <= |l.Parts()| && l.store.Valid() && Pointed(l) && l.free <= l.store.size
  {
  }

  // ---------------------------------------------------------------- receiving

  /** Index of the part that a receive hands out: a dummy at the read pointer is passed over. */
  function Next(l: Layout): nat
    requires l.taken < |l.Parts()|
  {
    if l.Parts()[l.taken].dummy then l.taken + 1 else l.taken
  }

  function TakeLayout(l: Layout): Layout
    requires l.taken < |l.Parts()|
  {
    l.(taken := Next(l) + 1)
  }

  /** A dummy at the read pointer ends the store, and what follows it is data at the head. */
  lemma DummyLeads(l: Layout, i: nat)
    requires l.Shape() && l.Linked() && i < |l.Parts()| && l.Parts()[i].dummy
    ensures l.wrapped && i + 1 < |l.Parts()| && !l.Parts()[i + 1].dummy && l.Parts()[i + 1].pos == 0
  {
    if i < |l.hi| {
      assert l.hi[i].dummy;
      assert l.Parts()[i + 1] == l.lo[0];
    }
  }

  lemma {:induction false} OutOfAppend(a: seq<Part>, b: seq<Part>)
    ensures OutOf(a + b) == OutOf(a) + OutOf(b)
  {
    var ab := a + b;
    forall h | h in OutOf(ab)
      ensures h in OutOf(a) + OutOf(b)
    {
      var i :| 0 <= i < |ab| && ab[i].IsOut() && h == Handle(ab[i]);
      if i < |a| {
        assert a[i].IsOut();
      } else {
        assert b[i - |a|].IsOut();
      }
    }
    forall h | h in OutOf(a)
      ensures h in OutOf(ab)
    {
      var i :| 0 <= i < |a| && a[i].IsOut() && h == Handle(a[i]);
      assert ab[i].IsOut();
    }
    forall h | h in OutOf(b)
      ensures h in OutOf(ab)
    {
      var i :| 0 <= i < |b| && b[i].IsOut() && h == Handle(b[i]);
      assert ab[|a| + i] == b[i];
    }
  }

  lemma OutOfOne(p: Part)
    ensures OutOf([p]) == if p.IsOut() then {Handle(p)} else {}
  {
    assert p.IsOut() ==> [p][0].IsOut();
  }

  /** Moving the read pointer over parts `t..n`, of which the last is data and any before it a dummy. */
  lemma TakeSplit(ps: seq<Part>, t: nat, n: nat)
    requires Split(ps, t) && t <= n < |ps| && n <= t + 1
    requires !ps[n].dummy && (n == t + 1 ==> ps[t].dummy)
    ensures Split(ps, n + 1)
    ensures Chunks(ps[t..]) == [Chunk(ps[n].data, ps[n].split)] + Chunks(ps[n + 1..])
    ensures OutOf(ps[..n + 1]) == OutOf(ps[..t]) + {Handle(ps[n])}
  {
    var mid := if n == t then [] else [ps[t]];
    assert ps[..n + 1] == ps[..t] + (mid + [ps[n]]);
    OutOfAppend(ps[..t], mid + [ps[n]]);
    OutOfAppend(mid, [ps[n]]);
    OutOfOne(ps[n]);
    OutOfOne(ps[t]);
    assert ps[t..][1..] == ps[t + 1..];
    assert ps[n..][1..] == ps[n + 1..];
    assert !ps[t..][n - t].returned;
    var rest := ps[n + 1..];
    assert forall i :: 0 <= i < |rest| ==> rest[i] == ps[t..][n + 1 - t + i];
  }

  lemma TakeShape(l: Layout)
    requires l.Shape() && l.Linked() && l.taken < |l.Parts()|
    ensures TakeLayout(l).Shape() && TakeLayout(l).Linked()
    ensures Next(l) < |l.Parts()| && !l.Parts()[Next(l)].dummy
  {
    if l.Parts()[l.taken].dummy {
      DummyLeads(l, l.taken);
    }
  }

  /** A receive hands out exactly the oldest piece of the queue. */
  lemma TakeValid(l: Layout)
    requires l.Valid() && l.taken < |l.Parts()|
    ensures Next(l) < |l.Parts()| && !l.Parts()[Next(l)].dummy
    ensures var p := l.Parts()[Next(l)];
      && l.store.Valid()
      && TakeLayout(l).Valid()
      && l.Queue() == [Chunk(p.data, p.split)] + TakeLayout(l).Queue()
      && TakeLayout(l).Out() == l.Out() + {Handle(p)}
      && TakeLayout(l).ReadPos() == Wrap(l.store, l.store.End(p))
  {
    hide Store.Chain;
    TakeShape(l);
    NextPos(l, Next(l));
    hide Layout.Shape, Layout.Linked;
    TakeSplit(l.Parts(), l.taken, Next(l));
  }

  // ---------------------------------------------------------------- returning

  function Returned(p: Part): Part {
    p.(returned := true, split := false)
  }

  function Mark(l: Layout, j: nat): Layout
    requires j < |l.Parts()|
  {
    if j < |l.hi| then l.(hi := l.hi[j := Returned(l.hi[j])])
    else l.(lo := l.lo[j - |l.hi| := Returned(l.lo[j - |l.hi|])])
  }

  lemma MarkParts(l: Layout, j: nat)
    requires j < |l.Parts()|
    ensures Mark(l, j).Parts() == l.Parts()[j := Returned(l.Parts()[j])]
  {
  }

  lemma MarkChain(s: Store, ps: seq<Part>, from: nat, to: nat, j: nat)
    requires s.Valid() && s.Chain(ps, from, to) && j < |ps| && !ps[j].dummy
    ensures s.Chain(ps[j := Returned(ps[j])], from, to)
  {
    hide Store.End, Store.PartOk;
    var r := ps[j := Returned(ps[j])];
    assert s.PartOk(ps[j]);
    ReturnedSame(s, ps[j]);
    assert forall i :: 0 <= i < |ps| ==> r[i].pos == ps[i].pos && s.End(r[i]) == s.End(ps[i]) && s.PartOk(r[i]);
  }

  lemma ReturnedSame(s: Store, p: Part)
    requires s.Valid() && s.PartOk(p) && !p.dummy
    ensures Returned(p).pos == p.pos && s.End(Returned(p)) == s.End(p) && s.PartOk(Returned(p))
  {
  }

  lemma MarkShape(l: Layout, j: nat)
    requires l.Shape() && l.Linked() && j < |l.Parts()| && !l.Parts()[j].dummy
    ensures Mark(l, j).Shape()
  {
    hide Store.Chain;
    if j < |l.hi| {
      MarkChain(l.store, l.hi, l.free, if l.wrapped then l.store.size else l.write, j);
    } else {
      MarkChain(l.store, l.lo, 0, l.write, j - |l.hi|);
    }
  }

  lemma MarkLinked(l: Layout, j: nat)
    requires l.Linked() && j < |l.Parts()| && !l.Parts()[j].dummy
    ensures Mark(l, j).Linked()
  {
  }

  /** The first part leaves the layout: the free pointer moves past it. */
  function Pop(l: Layout): Layout
    requires l.store.Valid() && l.hi != [] && l.taken > 0
  {
    if |l.hi| == 1 && l.wrapped then
      l.(hi := l.lo, lo := [], wrapped := false, free := 0, taken := l.taken - 1)
    else
      l.(hi := l.hi[1..], free := l.store.End(l.hi[0]), taken := l.taken - 1)
  }

  lemma PopShape(l: Layout)
    requires l.Shape() && l.Linked() && l.hi != [] && l.taken > 0
    ensures Pop(l).Shape()
    ensures Pop(l).free == Wrap(l.store, l.store.End(l.Parts()[0]))
    ensures !Pop(l).Full()
  {
    var to := if l.wrapped then l.store.size else l.write;
    ChainHead(l.store, l.hi, l.free, to);
    ChainTail(l.store, l.hi, l.free, to);
    EndFacts(l.store, l.hi[0]);
    hide Store.Chain, Store.End;
  }

  lemma PopLinked(l: Layout)
    requires l.store.Valid() && l.Linked() && l.hi != [] && l.taken > 0
    requires !l.wrapped ==> l.lo == []
    ensures Pop(l).Linked()
    ensures Pop(l).Parts() == l.Parts()[1..]
  {
  }

  lemma ChainHead(s: Store, ps: seq<Part>, from: nat, to: nat)
    requires s.Valid() && s.Chain(ps, from, to) && ps != []
    ensures s.PartOk(ps[0]) && ps[0].pos == from && from < s.End(ps[0]) <= to
    ensures |ps| == 1 <==> s.End(ps[0]) == to
  {
    EndFacts(s, ps[0]);
    if |ps| > 1 {
      EndFacts(s, ps[1]);
    }
  }

  lemma ChainTail(s: Store, ps: seq<Part>, from: nat, to: nat)
    requires s.Valid() && s.Chain(ps, from, to) && ps != []
    ensures s.Chain(ps[1..], s.End(ps[0]), to)
  {
    hide Store.End, Store.PartOk;
    var r := ps[1..];
    assert s.End(ps[0]) <= to;
    forall i | 0 <= i < |r|
      ensures s.PartOk(r[i]) && s.End(ps[0]) <= r[i].pos && s.End(r[i]) <= to
    {
      assert r[i] == ps[i + 1];
    }
    forall i, j | 0 <= i < j < |r|
      ensures s.End(r[i]) <= r[j].pos
    {
      assert r[i] == ps[i + 1] && r[j] == ps[j + 1];
    }
    forall i | 0 < i < |r|
      ensures r[i].pos == s.End(r[i - 1])
    {
      assert r[i] == ps[i + 1] && r[i - 1] == ps[i];
    }
    if r != [] {
      assert r[0] == ps[1] && r[|r| - 1] == ps[|ps| - 1];
    }
  }

  /** The loop of `prvReturnItemDefault`: parts that are free or dummies leave at the front, up to the read pointer. */
  function Reclaim(l: Layout): Layout
    requires l.store.Valid()
    decreases l.taken
  {
    if l.taken > 0 && l.hi != [] && !l.hi[0].IsOut() then Reclaim(Pop(l)) else l
  }

  /** What the loop keeps: the invariant of a layout, except that some part is still out. */
  predicate Loose(ps: seq<Part>, taken: nat) {
    && taken <= |ps|
    && NoneReturned(ps[taken..])
    && (taken > 0 ==> !ps[taken - 1].dummy)
  }

  lemma LooseSplit(ps: seq<Part>, taken: nat)
    requires Loose(ps, taken) && OutOf(ps[..taken]) != {}
    ensures Split(ps, taken)
  {
  }

  lemma FrontExists(l: Layout)
    requires l.Shape() && l.Parts() != []
    ensures l.hi != [] && l.hi[0] == l.Parts()[0] && l.hi[0].pos == l.free && l.store.PartOk(l.hi[0])
  {
  }

  lemma DropFront(ps: seq<Part>, taken: nat)
    requires 0 < taken && Loose(ps, taken) && !ps[0].IsOut()
    ensures Loose(ps[1..], taken - 1)
    ensures OutOf(ps[1..][..taken - 1]) == OutOf(ps[..taken])
    ensures ps[1..][taken - 1..] == ps[taken..]
  {
    assert ps[..taken] == [ps[0]] + ps[1..][..taken - 1];
    OutOfAppend([ps[0]], ps[1..][..taken - 1]);
    OutOfOne(ps[0]);
    assert ps[1..][taken - 1..] == ps[taken..];
  }

  /** Without its first part, which was not out, a layout has the same items out and in the queue. */
  lemma FrontDropped(l: Layout, r: Layout)
    requires 0 < l.taken && Loose(l.Parts(), l.taken) && !l.Parts()[0].IsOut()
    requires r.Parts() == l.Parts()[1..] && r.taken == l.taken - 1 && r.write == l.write
    ensures Loose(r.Parts(), r.taken)
    ensures r.Out() == l.Out() && r.Queue() == l.Queue() && r.ReadPos() == l.ReadPos()
  {
    DropFront(l.Parts(), l.taken);
    hide OutOf, Chunks;
  }

  /** One turn of the loop, on layouts. */
  lemma PopStep(l: Layout)
    requires l.Shape() && l.Linked() && Loose(l.Parts(), l.taken) && l.taken > 0
    ensures l.hi != [] && l.hi[0].pos == l.free
    ensures l.hi[0].IsOut() ==> Split(l.Parts(), l.taken)
    ensures !l.hi[0].IsOut() ==>
      && var r := Pop(l);
      && r.Shape() && r.Linked() && Loose(r.Parts(), r.taken) && r.taken == l.taken - 1
      && r.Out() == l.Out() && r.Queue() == l.Queue() && r.ReadPos() == l.ReadPos()
      && r.store == l.store && r.write == l.write
  {
    FrontExists(l);
    if l.hi[0].IsOut() {
      OutOfFirst(l.Parts()[..l.taken]);
      LooseSplit(l.Parts(), l.taken);
    } else {
      PopShape(l);
      PopLinked(l);
      FrontDropped(l, Pop(l));
    }
    hide Layout.Shape, Layout.Linked, Store.Chain, Store.End, Layout.Out, Layout.Queue, Layout.ReadPos, Loose;
  }

  lemma {:induction false} ReclaimValid(l: Layout)
    requires l.Shape() && l.Linked() && Loose(l.Parts(), l.taken)
    ensures Reclaim(l).Valid()
    ensures Reclaim(l).Out() == l.Out() && Reclaim(l).Queue() == l.Queue()
    ensures Reclaim(l).store == l.store && Reclaim(l).write == l.write
    ensures Reclaim(l).ReadPos() == l.ReadPos()
    ensures Reclaim(l).taken > 0 ==>
      Reclaim(l).hi != [] && Reclaim(l).hi[0].IsOut() && Reclaim(l).hi[0].pos == Reclaim(l).free
    decreases l.taken
  {
    if l.taken > 0 {
      PopStep(l);
      hide Layout.Shape, Layout.Linked, Layout.Out, Layout.Queue, Layout.ReadPos, Pop;
      if !l.hi[0].IsOut() {
        ReclaimValid(Pop(l));
      }
    }
  }

  lemma OutOfFirst(ps: seq<Part>)
    requires ps != [] && ps[0].IsOut()
    ensures Handle(ps[0]) in OutOf(ps)
  {
  }

  /** The test `pucFree != pucRead` of the loop, in terms of the layout. */
  lemma FreeIsRead(l: Layout)
    requires l.Shape() && l.taken <= |l.Parts()|
    ensures l.free == l.ReadPos() <==> l.taken == 0 || (l.Full() && l.taken == |l.Parts()|)
  {
    if l.Parts() != [] {
      FrontExists(l);
      if 0 < l.taken < |l.Parts()| {
        PartsDisjoint(l, 0, l.taken);
        EndFacts(l.store, l.Parts()[0]);
        EndFacts(l.store, l.Parts()[l.taken]);
      } else if l.taken > 0 && !l.wrapped {
        ChainHead(l.store, l.hi, l.free, l.write);
      }
    }
  }

  /** `prvReturnItemDefault` on layouts: part `j` comes back. */
  function ReturnLayout(l: Layout, j: nat): Layout
    requires l.store.Valid() && j < |l.Parts()|
  {
    if l.Full() && l.taken == |l.Parts()|
    then l.(hi := [], lo := [], wrapped := false, taken := 0)
    else Reclaim(Mark(l, j))
  }

  /**
   * A return is safe unless the buffer is full, everything in it has been received, and more than the
   * returned item is still out: then the loop does not run and the full flag is cleared all the same.
   */
  ghost predicate SafeReturn(l: Layout, j: nat)
    requires l.taken <= |l.Parts()| && j < |l.Parts()|
  {
    l.Full() && l.taken == |l.Parts()| ==> l.Out() == {Handle(l.Parts()[j])}
  }

  lemma HandlesDiffer(l: Layout, i: nat, j: nat)
    requires l.Shape() && i < |l.Parts()| && j < |l.Parts()| && i != j
    ensures Handle(l.Parts()[i]) != Handle(l.Parts()[j])
  {
    PartsDisjoint(l, if i < j then i else j, if i < j then j else i);
    EndFacts(l.store, l.Parts()[i]);
    EndFacts(l.store, l.Parts()[j]);
  }

  /** No other part goes by the handle of part `j`. */
  lemma HandleNotIn(l: Layout, j: nat, a: nat, b: nat)
    requires l.Shape() && j < |l.Parts()| && a <= b <= |l.Parts()| && !(a <= j < b)
    ensures Handle(l.Parts()[j]) !in OutOf(l.Parts()[a..b])
  {
    var ps := l.Parts();
    var mid := ps[a..b];
    forall i | 0 <= i < |mid|
      ensures Handle(mid[i]) != Handle(ps[j])
    {
      assert mid[i] == ps[a + i];
      HandlesDiffer(l, a + i, j);
    }
    hide Layout.Shape;
  }

  lemma MarkOutOf(ps: seq<Part>, j: nat, t: nat)
    requires j < t <= |ps| && ps[j].IsOut()
    requires Handle(ps[j]) !in OutOf(ps[..j]) && Handle(ps[j]) !in OutOf(ps[j + 1..t])
    ensures OutOf(ps[j := Returned(ps[j])][..t]) == OutOf(ps[..t]) - {Handle(ps[j])}
  {
    var before, after, p := ps[..j], ps[j + 1..t], ps[j];
    assert ps[..t] == before + ([p] + after);
    assert ps[j := Returned(p)][..t] == before + ([Returned(p)] + after);
    OutOfAppend(before, [p] + after);
    OutOfAppend([p], after);
    OutOfAppend(before, [Returned(p)] + after);
    OutOfAppend([Returned(p)], after);
    OutOfOne(p);
    OutOfOne(Returned(p));
    hide OutOf;
  }

  lemma MarkOut(l: Layout, j: nat)
    requires l.Shape() && j < l.taken <= |l.Parts()| && l.Parts()[j].IsOut()
    requires Loose(l.Parts(), l.taken)
    ensures Mark(l, j).Out() == l.Out() - {Handle(l.Parts()[j])}
    ensures Mark(l, j).Queue() == l.Queue()
    ensures Loose(Mark(l, j).Parts(), l.taken)
  {
    HandleNotIn(l, j, 0, j);
    HandleNotIn(l, j, j + 1, l.taken);
    hide Layout.Shape;
    MarkParts(l, j);
    var ps, t := l.Parts(), l.taken;
    MarkOutOf(ps, j, t);
    assert ps[j := Returned(ps[j])][t..] == ps[t..];
  }

  lemma OutHas(l: Layout, j: nat)
    requires j < l.taken <= |l.Parts()| && l.Parts()[j].IsOut()
    ensures Handle(l.Parts()[j]) in l.Out()
  {
    assert l.Parts()[..l.taken][j] == l.Parts()[j];
  }

  /** A return does not move the read pointer. */
  lemma MarkReadPos(l: Layout, j: nat)
    requires j < l.taken <= |l.Parts()|
    ensures Mark(l, j).ReadPos() == l.ReadPos()
  {
    MarkParts(l, j);
  }

  /** A safe return gives back exactly one item; the queue and every other item are as before. */
  lemma ReturnValid(l: Layout, j: nat)
    requires l.Valid() && j < l.taken && l.Parts()[j].IsOut() && SafeReturn(l, j)
    ensures var r := ReturnLayout(l, j);
      && r.Valid() && r.store == l.store && r.write == l.write
      && r.Out() == l.Out() - {Handle(l.Parts()[j])}
      && r.Queue() == l.Queue()
      && r.ReadPos() == (if l.Full() && l.taken == |l.Parts()| then l.write else l.ReadPos())
      && (r.taken > 0 ==> r.hi != [] && r.hi[0].IsOut() && r.hi[0].pos == r.free)
  {
    if l.Full() && l.taken == |l.Parts()| {
      EmptyAt(l, l.write);
    } else {
      MarkShape(l, j);
      MarkLinked(l, j);
      MarkOut(l, j);
      MarkReadPos(l, j);
      hide Layout.Shape, Layout.Linked, Layout.Counted, Layout.Queue, Layout.Out, Layout.ReadPos, Loose;
      ReclaimValid(Mark(l, j));
    }
  }

  lemma EmptyAt(l: Layout, at: nat)
    requires l.Shape() && at == l.free == l.write
    ensures var r := l.(hi := [], lo := [], wrapped := false, taken := 0);
      r.Valid() && r.Out() == {} && r.Queue() == []
  {
  }

  /**
   * The other half: when pointers say "empty", no layout with an item still out fits them. So after an
   * unsafe return, which leaves all three pointers equal and the flag clear, items are lost.
   */
  lemma EmptyPointersHoldNothing(l: Layout)
    requires l.Valid() && l.write == l.free && !l.Full()
    ensures l.Parts() == [] && l.Out() == {} && l.Queue() == []
  {
    if l.Parts() != [] {
      FrontExists(l);
      assert !l.wrapped;
      ChainHead(l.store, l.hi, l.free, l.write);
    }
  }
}
