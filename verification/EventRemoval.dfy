/** What unregistering takes out of the registry, also of a triple that is in several nodes. */
module EventRemoval {
  import opened EventRegistry
  import opened EventRegistryProof

  // ---------------------------------------------------------------- which occurrences go

  function Marks(hs: seq<Handler>, fn: int): seq<bool> {
    if Fresh(hs, fn) then [] else [true]
  }

  function Kept(k: nat): (r: seq<bool>)
    ensures |r| == k && forall j :: 0 <= j < k ==> !r[j]
  {
    seq(k, _ => false)
  }

  /** Of the occurrences in a list of base nodes: those up to the first node that becomes empty. */
  function BasesGone(bs: seq<BaseNode>, base: int, id: int, fn: int): seq<bool> {
    if bs == [] then []
    else
      var r, rest := HeadRemove(bs[0], base, id, fn), BasesGone(bs[1..], base, id, fn);
      (if bs[0].base == base then Marks(BaseTakes(bs[0], id), fn) else []) +
      if r.1 && r.0.handlers == [] && r.0.ids == [] then Kept(|rest|) else rest
  }

  function LoopGone(n: LoopNode, base: int, id: int, fn: int): seq<bool> {
    if base == ANY && id == ANY then Marks(n.handlers, fn) else BasesGone(n.bases, base, id, fn)
  }

  /** Of the occurrences of a triple: in each loop node those that go there, up to the first that becomes empty. */
  function Gone(ns: seq<LoopNode>, base: int, id: int, fn: int): seq<bool> {
    if ns == [] then []
    else
      var r, rest := LoopRemove(ns[0], base, id, fn), Gone(ns[1..], base, id, fn);
      LoopGone(ns[0], base, id, fn) +
      if r.1 && r.0.bases == [] && r.0.handlers == [] then Kept(|rest|) else rest
  }

  /** `now` is `was` without the marked occurrences; where the triple is not meant there is none. */
  predicate Drops(now: seq<Reg>, was: seq<Reg>, t: Key, gone: seq<bool>, meant: bool) {
    now == Drop(was, t, gone) && Occurs(was, t) == if meant then |gone| else 0
  }

  lemma DropsAppend(now: seq<Reg>, was: seq<Reg>, g: seq<bool>, now2: seq<Reg>, was2: seq<Reg>, g2: seq<bool>,
                    t: Key, meant: bool)
    requires Drops(now, was, t, g, meant) && Drops(now2, was2, t, g2, meant)
    ensures Drops(now + now2, was + was2, t, g + g2, meant)
  {
    OccursAppend(was, was2, t);
    if meant {
      DropAppend(was, was2, t, g, g2);
    } else {
      DropNone(was, t, g);
      DropNone(was2, t, g2);
      DropNone(was + was2, t, g + g2);
    }
  }

  lemma DropsNot(rs: seq<Reg>, t: Key, gone: seq<bool>, meant: bool)
    requires !Has(rs, t) && (meant ==> gone == [])
    ensures Drops(rs, rs, t, gone, meant)
  {
    OccursNone(rs, t);
    DropNone(rs, t, gone);
  }

  lemma DropsKept(rs: seq<Reg>, t: Key, k: nat, meant: bool)
    requires Occurs(rs, t) == if meant then k else 0
    ensures Drops(rs, rs, t, Kept(k), meant)
  {
    DropKept(rs, t, Kept(k));
  }

  // ---------------------------------------------------------------- node by node

  lemma {:induction false} TagOccurs(hs: seq<Handler>, base: int, id: int, fn: int)
    requires WfHandlers(hs)
    ensures Occurs(Tag(hs, base, id), Key(base, id, fn)) == if Fresh(hs, fn) then 0 else 1
  {
    var t := Key(base, id, fn);
    OccursNone(Tag(hs, base, id), t);
    if Fresh(hs, fn) {
      FreshTag(hs, base, id, fn);
    } else {
      var head, tail := hs[0], hs[1..];
      assert hs == [head] + tail;
      WfHandlersTail(hs);
      TagCons(head, tail, base, id);
      assert Tag(hs, base, id)[1..] == Tag(tail, base, id);
      FreshTail(hs, fn);
      TagOccurs(tail, base, id, fn);
    }
  }

  /** What becomes of the handlers of one list. */
  lemma TagDrops(hs: seq<Handler>, base: int, id: int, fn: int)
    requires WfHandlers(hs)
    ensures Drops(Tag(HandlersRemove(hs, fn).0, base, id), Tag(hs, base, id), Key(base, id, fn), Marks(hs, fn), true)
  {
    HandlersRemoved(hs, fn, base, id);
    TagOccurs(hs, base, id, fn);
    DropOne(Tag(hs, base, id), Key(base, id, fn), Marks(hs, fn));
    hide Tag, Fresh, HandlersRemove, Without, Drop, WfHandlers;
  }

  lemma IdsOccur(n: BaseNode, id: int, fn: int, i: int)
    requires WfBase(n)
    ensures var t := Key(n.base, id, fn);
      && Occurs(Tag(n.handlers, n.base, ANY), t) == (if id == ANY then |Marks(BaseTakes(n, id), fn)| else 0)
      && Occurs(DispIds(n.ids, n.base, i), t) == (if id != ANY && i == id then |Marks(BaseTakes(n, id), fn)| else 0)
  {
    var t := Key(n.base, id, fn);
    OccursNone(Tag(n.handlers, n.base, ANY), t);
    OccursNone(DispIds(n.ids, n.base, i), t);
    DispIdsIs(n.ids, n.base, i);
    if id == ANY {
      TagOccurs(n.handlers, n.base, ANY, fn);
      if i == ANY {
        DispIdsNone(n.ids, n.base, i);
        HasNothing(t);
      } else {
        DispIdsOther(n.ids, n.base, i, t);
      }
    } else {
      TagOther(n.handlers, n.base, ANY, t);
      if i == id {
        var k := FindId(n.ids, id, 0);
        if k < |n.ids| {
          TagOccurs(n.ids[k].handlers, n.base, id, fn);
        } else {
          NothingFresh(fn);
          HasNothing(t);
        }
      } else {
        DispIdsOther(n.ids, n.base, i, t);
      }
    }
    hide Tag, DispIds, Fresh, Has, Occurs, FindId;
  }

  lemma NothingFresh(fn: int)
    ensures Fresh([], fn)
  {
  }

  /** What becomes of the first of the base nodes. */
  lemma HeadDrops(n: BaseNode, base: int, id: int, fn: int, b: int, i: int)
    requires WfBase(n)
    ensures Drops(DispBase(HeadRemove(n, base, id, fn).0, b, i), DispBase(n, b, i), Key(base, id, fn),
                  if n.base == base then Marks(BaseTakes(n, id), fn) else [], Meant(base, id, b, i))
  {
    var t := Key(base, id, fn);
    HeadRemoved(n, base, id, fn, b, i);
    if n.base != base {
      DispBaseForeign(n, b, i, t);
      DropsNot(DispBase(n, b, i), t, [], Meant(base, id, b, i));
    } else if b != base {
      HasNothing(t);
      DropsNot([], t, Marks(BaseTakes(n, id), fn), false);
    } else {
      IdsOccur(n, id, fn, i);
      OccursAppend(Tag(n.handlers, b, ANY), DispIds(n.ids, b, i), t);
      DropOne(DispBase(n, b, i), t, Marks(BaseTakes(n, id), fn));
    }
    hide Tag, DispIds, HeadRemove, BaseTakes, Without, Drop, Occurs, Fresh, Has;
  }

  lemma {:induction false} BasesDrop(bs: seq<BaseNode>, base: int, id: int, fn: int, b: int, i: int)
    requires WfBases(bs) && base != ANY
    ensures Drops(DispBases(BasesRemove(bs, base, id, fn).0, b, i), DispBases(bs, b, i), Key(base, id, fn),
                  BasesGone(bs, base, id, fn), Meant(base, id, b, i))
    decreases |bs|
  {
    var t, meant := Key(base, id, fn), Meant(base, id, b, i);
    if bs == [] {
      HasNothing(t);
      DropsNot([], t, [], meant);
    } else {
      hide HeadRemove, DispBase, WfBase, Drops, Meant, Marks, BaseTakes;
      var n, tail := bs[0], bs[1..];
      assert forall k :: 0 <= k < |tail| ==> tail[k] == bs[k + 1];
      var r, rest := HeadRemove(n, base, id, fn), BasesGone(tail, base, id, fn);
      HeadRemoved(n, base, id, fn, b, i);
      HeadDrops(n, base, id, fn, b, i);
      BasesDrop(tail, base, id, fn, b, i);
      BasesRemoveHead(bs, base, id, fn);
      var g := if n.base == base then Marks(BaseTakes(n, id), fn) else [];
      if r.1 && r.0.handlers == [] && r.0.ids == [] {
        TailKept(DispBases(BasesRemove(tail, base, id, fn).0, b, i), DispBases(tail, b, i), t, rest, meant);
        DropsAppend([], DispBase(n, b, i), g, DispBases(tail, b, i), DispBases(tail, b, i), Kept(|rest|), t, meant);
        assert [] + DispBases(tail, b, i) == DispBases(tail, b, i);
      } else {
        DropsAppend(DispBase(r.0, b, i), DispBase(n, b, i), g, DispBases(BasesRemove(tail, base, id, fn).0, b, i),
                    DispBases(tail, b, i), rest, t, meant);
        assert ([r.0] + BasesRemove(tail, base, id, fn).0)[1..] == BasesRemove(tail, base, id, fn).0;
      }
    }
  }

  lemma TailKept(now: seq<Reg>, was: seq<Reg>, t: Key, gone: seq<bool>, meant: bool)
    requires Drops(now, was, t, gone, meant)
    ensures Drops(was, was, t, Kept(|gone|), meant)
  {
    DropsKept(was, t, |gone|, meant);
  }

  lemma BasesRemoveHead(bs: seq<BaseNode>, base: int, id: int, fn: int)
    requires bs != []
    ensures var r, rest := HeadRemove(bs[0], base, id, fn), BasesRemove(bs[1..], base, id, fn);
      BasesRemove(bs, base, id, fn) ==
        if r.1 && r.0.handlers == [] && r.0.ids == [] then (bs[1..], true) else ([r.0] + rest.0, rest.1)
  {
    hide BaseRemove;
  }

  lemma LoopDrops(n: LoopNode, base: int, id: int, fn: int, b: int, i: int)
    requires WfLoop(n) && (base == ANY ==> id == ANY)
    ensures var r := LoopRemove(n, base, id, fn);
      && Drops(DispLoop(r.0, b, i), DispLoop(n, b, i), Key(base, id, fn), LoopGone(n, base, id, fn),
               Meant(base, id, b, i))
      && (if r.0.handlers == [] && r.0.bases == [] then r.1 && DispLoop(r.0, b, i) == [] else WfLoop(r.0))
  {
    var t, meant, gone := Key(base, id, fn), Meant(base, id, b, i), LoopGone(n, base, id, fn);
    assert Tag([], ANY, ANY) == [] && DispBases([], b, i) == [];
    var hs, bs := Tag(n.handlers, ANY, ANY), DispBases(n.bases, b, i);
    if base == ANY {
      HandlersRemoved(n.handlers, fn, ANY, ANY);
      TagDrops(n.handlers, ANY, ANY, fn);
      DispBasesAny(n.bases, b, i, t);
      DropsNot(bs, t, [], meant);
      DropsAppend(Tag(HandlersRemove(n.handlers, fn).0, ANY, ANY), hs, gone, bs, bs, [], t, meant);
      assert gone + [] == gone;
    } else {
      TagOther(n.handlers, ANY, ANY, t);
      BasesDrop(n.bases, base, id, fn, b, i);
      BasesRemovedWf(n.bases, base, id, fn);
      DropsNot(hs, t, [], meant);
      DropsAppend(hs, hs, [], DispBases(BasesRemove(n.bases, base, id, fn).0, b, i), bs, gone, t, meant);
      assert [] + gone == gone;
    }
    hide Has, Tag, Without, DispBases, HandlersRemove, BasesRemove, BasesGone, Drops, Meant, Fresh;
  }

  /** Base nodes hold no registration for every base. */
  lemma {:induction false} DispBasesAny(bs: seq<BaseNode>, b: int, i: int, t: Key)
    requires WfBases(bs) && t.base == ANY
    ensures !Has(DispBases(bs, b, i), t)
  {
    if b == ANY {
      DispBasesNone(bs, b, i);
      HasNothing(t);
    } else {
      DispBasesOther(bs, b, i, t);
    }
  }

  /**
   * Unregistering takes occurrences of its own triple out of what every event gets, the same ones everywhere, and
   * nothing else.
   */
  lemma {:induction false} UnregisterDrops(ns: seq<LoopNode>, base: int, id: int, fn: int, b: int, i: int)
    requires WfLoops(ns) && (base == ANY ==> id == ANY)
    ensures Drops(Dispatch(Unregister(ns, base, id, fn), b, i), Dispatch(ns, b, i), Key(base, id, fn),
                  Gone(ns, base, id, fn), Meant(base, id, b, i))
    decreases |ns|
  {
    if ns == [] {
      HasNothing(Key(base, id, fn));
      DropsNot([], Key(base, id, fn), [], Meant(base, id, b, i));
    } else {
      hide WfLoop, Drops;
      assert forall k :: 0 <= k < |ns[1..]| ==> ns[1..][k] == ns[k + 1];
      UnregisterDrops(ns[1..], base, id, fn, b, i);
      HeadNodeDrops(ns, base, id, fn, b, i);
    }
  }

  lemma HeadNodeDrops(ns: seq<LoopNode>, base: int, id: int, fn: int, b: int, i: int)
    requires ns != [] && WfLoop(ns[0]) && (base == ANY ==> id == ANY)
    requires Drops(Dispatch(Unregister(ns[1..], base, id, fn), b, i), Dispatch(ns[1..], b, i), Key(base, id, fn),
                   Gone(ns[1..], base, id, fn), Meant(base, id, b, i))
    ensures Drops(Dispatch(Unregister(ns, base, id, fn), b, i), Dispatch(ns, b, i), Key(base, id, fn),
                  Gone(ns, base, id, fn), Meant(base, id, b, i))
  {
    hide LoopRemove, LoopGone, DispLoop, WfLoop, Drops, Meant, Dispatch, Unregister, Gone;
    var t, meant, n, tail := Key(base, id, fn), Meant(base, id, b, i), ns[0], ns[1..];
    var r, g, rest := LoopRemove(n, base, id, fn), LoopGone(n, base, id, fn), Gone(tail, base, id, fn);
    LoopDrops(n, base, id, fn, b, i);
    UnregisterHead(ns, base, id, fn);
    DispatchHead(ns, b, i);
    var now, was := Dispatch(Unregister(tail, base, id, fn), b, i), Dispatch(tail, b, i);
    if r.1 && r.0.bases == [] && r.0.handlers == [] {
      TailKept(now, was, t, rest, meant);
      DropsAppend([], DispLoop(n, b, i), g, was, was, Kept(|rest|), t, meant);
      assert [] + was == was;
    } else {
      DropsAppend(DispLoop(r.0, b, i), DispLoop(n, b, i), g, now, was, rest, t, meant);
      DispatchHead([r.0] + Unregister(tail, base, id, fn), b, i);
      assert ([r.0] + Unregister(tail, base, id, fn))[1..] == Unregister(tail, base, id, fn);
    }
  }

  lemma UnregisterHead(ns: seq<LoopNode>, base: int, id: int, fn: int)
    requires ns != []
    ensures var r, rest := LoopRemove(ns[0], base, id, fn), Gone(ns[1..], base, id, fn);
      if r.1 && r.0.bases == [] && r.0.handlers == [] then
        Unregister(ns, base, id, fn) == ns[1..] &&
        Gone(ns, base, id, fn) == LoopGone(ns[0], base, id, fn) + Kept(|rest|)
      else
        Unregister(ns, base, id, fn) == [r.0] + Unregister(ns[1..], base, id, fn) &&
        Gone(ns, base, id, fn) == LoopGone(ns[0], base, id, fn) + rest
  {
    hide LoopRemove, LoopGone;
  }

  lemma DispatchHead(ns: seq<LoopNode>, b: int, i: int)
    requires ns != []
    ensures Dispatch(ns, b, i) == DispLoop(ns[0], b, i) + Dispatch(ns[1..], b, i)
  {
    hide DispLoop;
  }

  /** No node is left empty. */
  lemma {:induction false} UnregisterWf(ns: seq<LoopNode>, base: int, id: int, fn: int)
    requires WfLoops(ns) && (base == ANY ==> id == ANY)
    ensures WfLoops(Unregister(ns, base, id, fn))
    decreases |ns|
  {
    if ns != [] {
      hide LoopRemove, WfLoop, Drops, DispLoop;
      assert forall k :: 0 <= k < |ns[1..]| ==> ns[1..][k] == ns[k + 1];
      LoopDrops(ns[0], base, id, fn, base, id);
      UnregisterWf(ns[1..], base, id, fn);
    }
  }

  /** A node that loses a handler loses an occurrence. */
  lemma HeadMarks(n: BaseNode, base: int, id: int, fn: int)
    requires WfBase(n) && HeadRemove(n, base, id, fn).1
    ensures n.base == base && Marks(BaseTakes(n, id), fn) == [true]
  {
    HeadRemoved(n, base, id, fn, base, id);
    HeadDrops(n, base, id, fn, base, id);
    OccursNone(DispBase(n, base, id), Key(base, id, fn));
    hide DispBase, BaseRemove, Has, Fresh, BaseTakes, Drop, Occurs;
  }

  lemma {:induction false} FirstBaseGoes(bs: seq<BaseNode>, base: int, id: int, fn: int)
    requires WfBases(bs)
    ensures BasesGone(bs, base, id, fn) != [] ==> BasesGone(bs, base, id, fn)[0]
    ensures BasesRemove(bs, base, id, fn).1 ==> BasesGone(bs, base, id, fn) != []
    decreases |bs|
  {
    if bs != [] {
      hide HeadRemove, WfBase, Fresh, BaseTakes;
      assert forall k :: 0 <= k < |bs[1..]| ==> bs[1..][k] == bs[k + 1];
      BasesRemoveHead(bs, base, id, fn);
      FirstBaseGoes(bs[1..], base, id, fn);
      if HeadRemove(bs[0], base, id, fn).1 {
        HeadMarks(bs[0], base, id, fn);
      }
    }
  }

  lemma FirstOfLoop(n: LoopNode, base: int, id: int, fn: int)
    requires WfLoop(n)
    ensures LoopGone(n, base, id, fn) != [] ==> LoopGone(n, base, id, fn)[0]
    ensures LoopRemove(n, base, id, fn).1 ==> LoopGone(n, base, id, fn) != []
  {
    FirstBaseGoes(n.bases, base, id, fn);
    RemovedNotFresh(n.handlers, fn);
    hide BasesGone, BasesRemove, HandlersRemove, Fresh, WfBases, WfHandlers;
  }

  lemma {:induction false} RemovedNotFresh(hs: seq<Handler>, fn: int)
    ensures HandlersRemove(hs, fn).1 ==> !Fresh(hs, fn)
  {
    if hs != [] {
      FreshTail(hs, fn);
      RemovedNotFresh(hs[1..], fn);
    }
  }

  /** The first occurrence goes. */
  lemma {:induction false} FirstGoes(ns: seq<LoopNode>, base: int, id: int, fn: int)
    requires WfLoops(ns) && Gone(ns, base, id, fn) != []
    ensures Gone(ns, base, id, fn)[0]
    decreases |ns|
  {
    hide LoopGone, LoopRemove, WfLoop;
    FirstOfLoop(ns[0], base, id, fn);
    assert forall k :: 0 <= k < |ns[1..]| ==> ns[1..][k] == ns[k + 1];
    if Gone(ns[1..], base, id, fn) != [] {
      FirstGoes(ns[1..], base, id, fn);
    }
  }

  /** Unregistering a triple that is there once takes exactly it out of what every event gets. */
  lemma UnregisterRemoves(ns: seq<LoopNode>, base: int, id: int, fn: int, b: int, i: int)
    requires WfLoops(ns) && (base == ANY ==> id == ANY) && Occurs(Dispatch(ns, base, id), Key(base, id, fn)) <= 1
    ensures WfLoops(Unregister(ns, base, id, fn))
    ensures Dispatch(Unregister(ns, base, id, fn), b, i) == Without(Dispatch(ns, b, i), Key(base, id, fn))
  {
    hide Unregister, Gone, Dispatch, Occurs, Drop;
    UnregisterWf(ns, base, id, fn);
    UnregisterDrops(ns, base, id, fn, base, id);
    UnregisterDrops(ns, base, id, fn, b, i);
    if Gone(ns, base, id, fn) != [] {
      FirstGoes(ns, base, id, fn);
    }
    DropOne(Dispatch(ns, b, i), Key(base, id, fn), Gone(ns, base, id, fn));
  }

  // ---------------------------------------------------------------- an input

  function OneHandler(h: Handler): BaseNode {
    BaseNode(1, [], [IdNode(1, [h])])
  }

  /**
   * A handler for one event, another one for every event, and the first one again: the event runs it twice, and
   * after it is unregistered still once.
   */
  lemma RunsTwiceThenOnce(h: Handler, other: Handler)
    ensures var ns := Register(Register(Register([], 1, 1, h), ANY, ANY, other), 1, 1, h);
      && Dispatch(ns, 1, 1) == [Reg(1, 1, h), Reg(ANY, ANY, other), Reg(1, 1, h)]
      && Dispatch(Unregister(ns, 1, 1, h.fn), 1, 1) == [Reg(ANY, ANY, other), Reg(1, 1, h)]
  {
    var one := Register([], 1, 1, h);
    var two := Register(one, ANY, ANY, other);
    var ns := Register(two, 1, 1, h);
    OneAdded([], h);
    OneAdded([other], h);
    assert one == [LoopNode([], [OneHandler(h)])];
    assert two == one + [LoopNode([other], [])];
    assert ns == [LoopNode([], [OneHandler(h)]), LoopNode([other], [OneHandler(h)])];
    assert forall b, i :: Dispatch([], b, i) == [];
    RegisterAppends([], 1, 1, h, 1, 1);
    RegisterAppends(one, ANY, ANY, other, 1, 1);
    RegisterAppends(two, 1, 1, h, 1, 1);
    OneRemoved(h);
    assert Unregister(ns, 1, 1, h.fn) == ns[1..];
    hide Register, Unregister;
    DispatchHead(ns, 1, 1);
    DispatchHead([LoopNode([], [OneHandler(h)])], 1, 1);
  }

  lemma OneAdded(hs: seq<Handler>, h: Handler)
    ensures LoopAdd(LoopNode(hs, []), 1, 1, h) == LoopNode(hs, [OneHandler(h)])
  {
    var n := BaseNode(1, [], []);
    assert FindId(n.ids, 1, 0) == 0 && BaseAdd(n, 1, h) == OneHandler(h);
    assert LastBase([], 1) == -1 && NeedsNewBase([], 1, 1);
    assert [] + [OneHandler(h)] == [OneHandler(h)];
  }

  lemma OneRemoved(h: Handler)
    ensures LoopRemove(LoopNode([], [OneHandler(h)]), 1, 1, h.fn) == (LoopNode([], []), true)
  {
    assert [h][1..] == [] && [IdNode(1, [h])][1..] == [] && [OneHandler(h)][1..] == [];
    assert IdsRemove([IdNode(1, [h])], 1, h.fn) == ([], true);
    assert BaseRemove(OneHandler(h), 1, h.fn) == (BaseNode(1, [], []), true);
  }

  /** Two base nodes of one base, the first with other handlers `rest` for event 1, too. */
  function TwoNodes(h: Handler, rest: seq<Handler>, g: Handler): seq<LoopNode> {
    [LoopNode([], [BaseNode(1, [], [IdNode(1, [h] + rest)]), BaseNode(1, [g], [IdNode(1, [h])])])]
  }

  /** In a list of base nodes, too, an emptied node ends the removal; a node that keeps a handler does not. */
  lemma EmptiedNodeEndsRemoval(h: Handler, other: Handler, g: Handler)
    requires h.fn != other.fn
    ensures Dispatch(TwoNodes(h, [], g), 1, 1) == [Reg(1, 1, h), Reg(1, ANY, g), Reg(1, 1, h)]
    ensures Dispatch(Unregister(TwoNodes(h, [], g), 1, 1, h.fn), 1, 1) == [Reg(1, ANY, g), Reg(1, 1, h)]
    ensures Dispatch(Unregister(TwoNodes(h, [other], g), 1, 1, h.fn), 1, 1) == [Reg(1, 1, other), Reg(1, ANY, g)]
  {
    FirstEmptied(h, g);
    NoneEmptied(h, other, g);
    NodeGives([], [h]);
    NodeGives([g], [h]);
    NodeGives([], [other]);
    assert [h] + [] == [h];
    PairGives(BaseNode(1, [], [IdNode(1, [h])]), BaseNode(1, [g], [IdNode(1, [h])]));
    PairGives(BaseNode(1, [], [IdNode(1, [other])]), BaseNode(1, [g], []));
    assert DispBase(BaseNode(1, [g], []), 1, 1) == [Reg(1, ANY, g)];
    hide Unregister, Dispatch, DispBase;
  }

  lemma NodeGives(gs: seq<Handler>, hs: seq<Handler>)
    ensures DispBase(BaseNode(1, gs, [IdNode(1, hs)]), 1, 1) == Tag(gs, 1, ANY) + Tag(hs, 1, 1)
  {
  }

  lemma PairGives(n: BaseNode, m: BaseNode)
    ensures Dispatch([LoopNode([], [n, m])], 1, 1) == DispBase(n, 1, 1) + DispBase(m, 1, 1)
    ensures Dispatch([LoopNode([], [m])], 1, 1) == DispBase(m, 1, 1)
  {
    hide DispBase;
    assert [n, m][1..] == [m] && [m][1..] == [] && DispBases([], 1, 1) == [] && Dispatch([], 1, 1) == [];
    assert DispBases([m], 1, 1) == DispBase(m, 1, 1);
    assert DispBases([n, m], 1, 1) == DispBase(n, 1, 1) + DispBases([m], 1, 1);
    assert Tag([], ANY, ANY) == [];
    assert [LoopNode([], [n, m])][1..] == [] && [LoopNode([], [m])][1..] == [];
  }

  lemma FirstEmptied(h: Handler, g: Handler)
    ensures Unregister(TwoNodes(h, [], g), 1, 1, h.fn) == [LoopNode([], [BaseNode(1, [g], [IdNode(1, [h])])])]
  {
    var n, m := BaseNode(1, [], [IdNode(1, [h])]), BaseNode(1, [g], [IdNode(1, [h])]);
    assert [h] + [] == [h] && [h][1..] == [] && [IdNode(1, [h])][1..] == [] && [n, m][1..] == [m];
    assert BaseRemove(n, 1, h.fn) == (BaseNode(1, [], []), true);
    assert BasesRemove([n, m], 1, 1, h.fn) == ([m], true);
  }

  lemma NoneEmptied(h: Handler, other: Handler, g: Handler)
    requires h.fn != other.fn
    ensures Unregister(TwoNodes(h, [other], g), 1, 1, h.fn) ==
      [LoopNode([], [BaseNode(1, [], [IdNode(1, [other])]), BaseNode(1, [g], [])])]
  {
    var n, m := BaseNode(1, [], [IdNode(1, [h] + [other])]), BaseNode(1, [g], [IdNode(1, [h])]);
    assert ([h] + [other])[1..] == [other] && [h][1..] == [] && [IdNode(1, [h])][1..] == [];
    assert [n, m][1..] == [m] && [m][1..] == [] && [IdNode(1, [h] + [other])][1..] == [];
    assert HandlersRemove([h] + [other], h.fn) == ([other], true) && IdsRemove([], 1, h.fn) == ([], false);
    var kept: seq<IdNode>, left: seq<BaseNode> := [IdNode(1, [other])], [BaseNode(1, [g], [])];
    assert kept + [] == kept && left + [] == left;
    assert IdsRemove(n.ids, 1, h.fn) == (kept + [], false);
    assert BaseRemove(n, 1, h.fn) == (BaseNode(1, [], [IdNode(1, [other])]), false);
    assert BaseRemove(m, 1, h.fn) == (BaseNode(1, [g], []), true);
    assert BasesRemove([], 1, 1, h.fn) == ([], false);
    assert BasesRemove([m], 1, 1, h.fn) == (left + [], false);
    assert BasesRemove([m], 1, 1, h.fn) == ([BaseNode(1, [g], [])], false);
    assert BasesRemove([n, m], 1, 1, h.fn).0 == [BaseNode(1, [], [IdNode(1, [other])]), BaseNode(1, [g], [])];
    assert Unregister([], 1, 1, h.fn) == [];
  }
}
