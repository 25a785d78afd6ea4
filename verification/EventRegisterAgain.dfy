/**
 * Registering a triple again: in the list that it would go to it only changes the argument, in place; anywhere else
 * it does not matter, and the handler runs twice.
 */
module EventRegisterAgain {
  import opened EventRegistry
  import opened EventRegistryProof

  // ---------------------------------------------------------------- one list

  lemma NotFreshHas(hs: seq<Handler>, base: int, id: int, fn: int)
    requires !Fresh(hs, fn)
    ensures Has(Tag(hs, base, id), Key(base, id, fn))
  {
    var k :| 0 <= k < |hs| && hs[k].fn == fn;
    assert KeyOf(Tag(hs, base, id)[k]) == Key(base, id, fn);
  }

  lemma {:induction false} HandlersReplaced(hs: seq<Handler>, h: Handler, base: int, id: int)
    requires WfHandlers(hs) && !Fresh(hs, h.fn)
    ensures var r := HandlersAdd(hs, h);
      && r != [] && WfHandlers(r) && (forall fn :: Fresh(r, fn) <==> Fresh(hs, fn))
      && Tag(r, base, id) == ReplaceLast(Tag(hs, base, id), Reg(base, id, h))
  {
    var head, tail, t := hs[0], hs[1..], Reg(base, id, h);
    WfHandlersTail(hs);
    FreshTail(hs, h.fn);
    var r := HandlersAdd(hs, h);
    assert hs == [head] + tail;
    TagCons(head, tail, base, id);
    ReplaceAppend([Reg(base, id, head)], Tag(tail, base, id), t);
    if head.fn == h.fn {
      TagCons(h, tail, base, id);
      FreshTag(tail, base, id, h.fn);
      FreshCons(h, tail);
      assert [Reg(base, id, head)][..0] == [];
    } else {
      HandlersReplaced(tail, h, base, id);
      NotFreshHas(tail, base, id, h.fn);
      TagCons(head, HandlersAdd(tail, h), base, id);
      FreshCons(head, HandlersAdd(tail, h));
    }
    hide Tag, Has, WfHandlers, ReplaceLast, Fresh;
    forall fn
      ensures Fresh(r, fn) <==> Fresh(hs, fn)
    {
      FreshTail(hs, fn);
      FreshTail(r, fn);
    }
  }

  lemma FreshCons(h: Handler, hs: seq<Handler>)
    requires WfHandlers(hs) && Fresh(hs, h.fn)
    ensures WfHandlers([h] + hs)
  {
    var r := [h] + hs;
    assert forall k :: 0 < k < |r| ==> r[k] == hs[k - 1];
  }

  // ---------------------------------------------------------------- base nodes

  lemma IdsReplaced(n: BaseNode, id: int, h: Handler, b: int, i: int)
    requires WfIds(n.ids) && id != ANY && !Fresh(BaseTakes(n, id), h.fn)
    ensures WfIds(BaseAdd(n, id, h).ids) && BaseAdd(n, id, h).ids != []
    ensures b == n.base ==> DispIds(BaseAdd(n, id, h).ids, b, i) == ReplaceLast(DispIds(n.ids, b, i), Reg(b, id, h))
    ensures Has(DispIds(n.ids, n.base, id), Key(n.base, id, h.fn))
  {
    var ids, k := n.ids, FindId(n.ids, id, 0);
    var hs := ids[k].handlers;
    HandlersReplaced(hs, h, b, id);
    NodeUpdated(ids, k, HandlersAdd(hs, h));
    NodeDispatched(ids, k, HandlersAdd(hs, h), b, i);
    DispIdsIs(ids, n.base, id);
    NotFreshHas(hs, n.base, id, h.fn);
    DispIdsIs(ids, b, i);
    if i != id {
      DispIdsOther(ids, b, i, Key(b, id, h.fn));
      ReplaceNone(DispIds(ids, b, i), Reg(b, id, h));
    }
    hide DispIds, Tag, FindId, HandlersAdd, WfIds, Fresh, ReplaceLast, Has;
  }

  lemma BaseReplaced(n: BaseNode, id: int, h: Handler, b: int, i: int)
    requires WfBase(n) && (id == ANY ==> n.ids == []) && !Fresh(BaseTakes(n, id), h.fn)
    ensures var r := BaseAdd(n, id, h);
      && WfBase(r) && r.base == n.base
      && DispBase(r, b, i) == ReplaceLast(DispBase(n, b, i), Reg(n.base, id, h))
      && (Meant(n.base, id, b, i) ==> Has(DispBase(n, b, i), Key(n.base, id, h.fn)))
  {
    var r, t := Reg(n.base, id, h), Key(n.base, id, h.fn);
    if b == n.base {
      ReplaceAppend(Tag(n.handlers, b, ANY), DispIds(n.ids, b, i), r);
    }
    HasAppend(Tag(n.handlers, n.base, ANY), DispIds(n.ids, n.base, i), t);
    if id == ANY {
      HandlersReplaced(n.handlers, h, n.base, ANY);
      NotFreshHas(n.handlers, n.base, ANY, h.fn);
      HasNothing(t);
    } else {
      BaseAddIds(n, id, h);
      IdsReplaced(n, id, h, b, i);
      TagOther(n.handlers, n.base, ANY, t);
      ReplaceNone(Tag(n.handlers, n.base, ANY), r);
      if i != id {
        DispIdsOther(n.ids, n.base, i, t);
        ReplaceNone(DispIds(n.ids, n.base, i), r);
      }
    }
    hide BaseAdd, BaseTakes, Tag, DispIds, Fresh, Has, ReplaceLast, WfIds, WfHandlers;
  }

  lemma BasesReplaced(n: LoopNode, base: int, id: int, h: Handler, b: int, i: int)
    requires WfBases(n.bases) && base != ANY && !Fresh(LoopTakes(n, base, id), h.fn)
    ensures var r := LoopAdd(n, base, id, h);
      && r.handlers == n.handlers && WfBases(r.bases) && r.bases != []
      && DispBases(r.bases, b, i) == ReplaceLast(DispBases(n.bases, b, i), Reg(base, id, h))
      && (Meant(base, id, b, i) ==> Has(DispBases(n.bases, b, i), Key(base, id, h.fn)))
  {
    hide BaseAdd, BaseTakes, DispBase, DispBases, Has, WfBase, LastBase, ReplaceLast;
    var bs, k, r := n.bases, LastBase(n.bases, base), Reg(base, id, h);
    BaseReplaced(bs[k], id, h, b, i);
    LastBaseReplaced(bs, k, BaseAdd(bs[k], id, h), r, b, i);
  }

  lemma LastBaseReplaced(bs: seq<BaseNode>, k: nat, m: BaseNode, r: Reg, b: int, i: int)
    requires WfBases(bs) && k == LastBase(bs, r.base) && m.base == r.base && r.base != ANY
    requires DispBase(m, b, i) == ReplaceLast(DispBase(bs[k], b, i), r)
    requires Meant(r.base, r.id, b, i) ==> Has(DispBase(bs[k], b, i), KeyOf(r))
    ensures DispBases(bs[k := m], b, i) == ReplaceLast(DispBases(bs, b, i), r)
    ensures Meant(r.base, r.id, b, i) ==> Has(DispBases(bs, b, i), KeyOf(r))
  {
    hide DispBase, DispBases, Has, WfBase, LastBase, ReplaceLast;
    var before, d, after := DispBases(bs[..k], b, i), DispBase(bs[k], b, i), DispBases(bs[k + 1..], b, i);
    DispBasesAt(bs, k, bs[k], b, i);
    assert bs[k := bs[k]] == bs;
    DispBasesAt(bs, k, m, b, i);
    if Meant(r.base, r.id, b, i) {
      var rest := bs[k + 1..];
      assert forall j :: 0 <= j < |rest| ==> rest[j] == bs[k + 1 + j];
      DispBasesNone(bs[k + 1..], b, i);
      assert before + d + [] == before + d;
      HasAppend(before, d, KeyOf(r));
      ReplaceAppend(before, d, r);
    } else {
      DispBasesOther(bs, b, i, KeyOf(r));
      ReplaceNone(DispBases(bs, b, i), r);
      HasAppend(before + d, after, KeyOf(r));
      HasAppend(before, d, KeyOf(r));
      ReplaceNone(d, r);
    }
  }

  // ---------------------------------------------------------------- loop nodes

  lemma LoopReplaced(n: LoopNode, base: int, id: int, h: Handler, b: int, i: int)
    requires WfLoop(n) && (base == ANY ==> id == ANY && n.bases == []) && !Fresh(LoopTakes(n, base, id), h.fn)
    ensures var m := LoopAdd(n, base, id, h);
      && WfLoop(m) && DispLoop(m, b, i) == ReplaceLast(DispLoop(n, b, i), Reg(base, id, h))
      && (Meant(base, id, b, i) ==> Has(DispLoop(n, b, i), Key(base, id, h.fn)))
  {
    var r, t := Reg(base, id, h), Key(base, id, h.fn);
    HasAppend(Tag(n.handlers, ANY, ANY), DispBases(n.bases, b, i), t);
    ReplaceAppend(Tag(n.handlers, ANY, ANY), DispBases(n.bases, b, i), r);
    if base == ANY {
      HandlersReplaced(n.handlers, h, ANY, ANY);
      NotFreshHas(n.handlers, ANY, ANY, h.fn);
      HasNothing(t);
    } else {
      BasesReplaced(n, base, id, h, b, i);
      TagOther(n.handlers, ANY, ANY, t);
      ReplaceNone(Tag(n.handlers, ANY, ANY), r);
      if !Has(DispBases(n.bases, b, i), t) {
        ReplaceNone(DispBases(n.bases, b, i), r);
      }
    }
    hide Tag, Fresh, Has, ReplaceLast, WfBases, WfHandlers, NeedsNewBase, BaseAdd, HandlersAdd, BaseTakes;
  }

  /**
   * Where the list that a registration goes to has the handler already, no node is added and nothing moves: every
   * event that sees the triple gets the new argument in the last place where it has it.
   */
  lemma RegisterReplaces(ns: seq<LoopNode>, base: int, id: int, h: Handler, b: int, i: int)
    requires WfLoops(ns) && (base == ANY ==> id == ANY) && !Fresh(Takes(ns, base, id), h.fn)
    ensures WfLoops(Register(ns, base, id, h)) && |Register(ns, base, id, h)| == |ns|
    ensures Dispatch(Register(ns, base, id, h), b, i) == ReplaceLast(Dispatch(ns, b, i), Reg(base, id, h))
    ensures Meant(base, id, b, i) ==> Has(Dispatch(ns, b, i), Key(base, id, h.fn))
  {
    hide LoopAdd, DispLoop, LoopTakes, WfLoop, Has, ReplaceLast, Dispatch;
    var r, t := Reg(base, id, h), Key(base, id, h.fn);
    var before, last := ns[..|ns| - 1], ns[|ns| - 1];
    var m := LoopAdd(last, base, id, h);
    assert ns == before + [last] && ns[|ns| - 1 := m] == before + [m];
    DispatchAppend(before, [last], b, i);
    DispatchAppend(before, [m], b, i);
    DispatchOne(last, b, i);
    DispatchOne(m, b, i);
    LoopReplaced(last, base, id, h, b, i);
    HasAppend(Dispatch(before, b, i), DispLoop(last, b, i), t);
    ReplaceAppend(Dispatch(before, b, i), DispLoop(last, b, i), r);
    if !Meant(base, id, b, i) {
      if Has(Dispatch(ns, b, i), t) {
        DispatchMeant(ns, b, i, t);
      }
      ReplaceNone(Dispatch(before, b, i), r);
      ReplaceNone(DispLoop(last, b, i), r);
    }
  }

  /** Only those for whom a triple is meant see it. */
  lemma {:induction false} DispatchMeant(ns: seq<LoopNode>, b: int, i: int, t: Key)
    requires WfLoops(ns) && Has(Dispatch(ns, b, i), t)
    ensures Meant(t.base, t.id, b, i)
  {
    if ns == [] {
      HasNothing(t);
    } else {
      var n := ns[0];
      assert forall k :: 0 <= k < |ns[1..]| ==> ns[1..][k] == ns[k + 1];
      HasAppend(DispLoop(n, b, i), Dispatch(ns[1..], b, i), t);
      HasAppend(Tag(n.handlers, ANY, ANY), DispBases(n.bases, b, i), t);
      if t.base != ANY || t.id != ANY {
        TagOther(n.handlers, ANY, ANY, t);
      }
      hide Has, DispBases, Tag;
      if Has(Dispatch(ns[1..], b, i), t) {
        DispatchMeant(ns[1..], b, i, t);
      } else if !Meant(t.base, t.id, b, i) {
        DispBasesOther(n.bases, b, i, t);
      }
    }
  }

  /** A triple that is not registered is new to the list it goes to. */
  lemma NewIsFresh(ns: seq<LoopNode>, base: int, id: int, fn: int)
    requires WfLoops(ns) && (base == ANY ==> id == ANY) && !Has(Dispatch(ns, base, id), Key(base, id, fn))
    ensures Fresh(Takes(ns, base, id), fn)
  {
    if !Fresh(Takes(ns, base, id), fn) {
      RegisterReplaces(ns, base, id, Handler(fn, 0), base, id);
    }
  }
}
