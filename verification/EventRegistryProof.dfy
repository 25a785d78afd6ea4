/** The nested registry behaves as the flat list: what registering and unregistering do to dispatch. */
module EventRegistryProof {
  import opened EventRegistry

  // ---------------------------------------------------------------- lists of handlers

  predicate Fresh(hs: seq<Handler>, fn: int) {
    forall k :: 0 <= k < |hs| ==> hs[k].fn != fn
  }

  lemma {:induction false} HandlersAddFresh(hs: seq<Handler>, h: Handler)
    requires Fresh(hs, h.fn)
    ensures HandlersAdd(hs, h) == hs + [h]
  {
    if hs != [] {
      assert forall k :: 0 <= k < |hs[1..]| ==> hs[1..][k] == hs[k + 1];
      HandlersAddFresh(hs[1..], h);
    }
  }

  lemma FreshTail(hs: seq<Handler>, fn: int)
    requires hs != []
    ensures Fresh(hs, fn) <==> hs[0].fn != fn && Fresh(hs[1..], fn)
  {
    assert forall k :: 0 <= k < |hs[1..]| ==> hs[1..][k] == hs[k + 1];
    if hs[0].fn != fn && Fresh(hs[1..], fn) {
      forall k | 0 <= k < |hs|
        ensures hs[k].fn != fn
      {
        assert k > 0 ==> hs[1..][k - 1] == hs[k];
      }
    }
  }

  lemma TagAppend(hs: seq<Handler>, h: Handler, base: int, id: int)
    ensures Tag(hs + [h], base, id) == Tag(hs, base, id) + [Reg(base, id, h)]
  {
  }

  lemma TagCons(h: Handler, hs: seq<Handler>, base: int, id: int)
    ensures Tag([h] + hs, base, id) == [Reg(base, id, h)] + Tag(hs, base, id)
  {
  }

  lemma FreshTag(hs: seq<Handler>, base: int, id: int, fn: int)
    requires Fresh(hs, fn)
    ensures !Has(Tag(hs, base, id), Key(base, id, fn))
  {
  }

  lemma WithoutCons(r: Reg, rs: seq<Reg>, t: Key)
    ensures Without([r] + rs, t) == if KeyOf(r) == t then Without(rs, t) else [r] + Without(rs, t)
    ensures Has([r] + rs, t) <==> KeyOf(r) == t || Has(rs, t)
  {
    assert ([r] + rs)[1..] == rs;
    HasAppend([r], rs, t);
    assert [r][0] == r;
    if KeyOf(r) == t {
      assert KeyOf([r][0]) == t;
    }
  }

  lemma WfHandlersTail(hs: seq<Handler>)
    requires WfHandlers(hs) && hs != []
    ensures WfHandlers(hs[1..]) && Fresh(hs[1..], hs[0].fn)
  {
    assert forall k :: 0 <= k < |hs[1..]| ==> hs[1..][k] == hs[k + 1];
  }

  lemma {:induction false} HandlersRemovedWf(hs: seq<Handler>, fn: int)
    requires WfHandlers(hs)
    ensures var r := HandlersRemove(hs, fn);
      && WfHandlers(r.0) && (hs != [] && r.0 == [] ==> r.1)
      && (forall k :: 0 <= k < |r.0| ==> r.0[k] in hs)
  {
    if hs != [] {
      WfHandlersTail(hs);
      HandlersRemovedWf(hs[1..], fn);
      assert hs == [hs[0]] + hs[1..];
    }
  }

  /** Removing a handler takes its triple out of the list it is in. */
  lemma {:induction false} HandlersRemoved(hs: seq<Handler>, fn: int, base: int, id: int)
    requires WfHandlers(hs)
    ensures var r := HandlersRemove(hs, fn);
      && Tag(r.0, base, id) == Without(Tag(hs, base, id), Key(base, id, fn))
      && (r.1 ==> Has(Tag(hs, base, id), Key(base, id, fn)))
      && WfHandlers(r.0) && (hs != [] && r.0 == [] ==> r.1)
  {
    HandlersRemovedWf(hs, fn);
    if hs == [] {
      assert Tag(hs, base, id) == [];
    } else {
      var t, tail := Key(base, id, fn), hs[1..];
      WfHandlersTail(hs);
      assert hs == [hs[0]] + tail;
      TagCons(hs[0], tail, base, id);
      WithoutCons(Reg(base, id, hs[0]), Tag(tail, base, id), t);
      hide Tag, Has, Without, WfHandlers;
      if hs[0].fn == fn {
        FreshTag(tail, base, id, fn);
        WithoutNone(Tag(tail, base, id), t);
      } else {
        HandlersRemoved(tail, fn, base, id);
        TagCons(hs[0], HandlersRemove(tail, fn).0, base, id);
      }
    }
  }

  lemma TagOther(hs: seq<Handler>, base: int, id: int, t: Key)
    requires t.base != base || t.id != id
    ensures !Has(Tag(hs, base, id), t) && Without(Tag(hs, base, id), t) == Tag(hs, base, id)
  {
    WithoutNone(Tag(hs, base, id), t);
  }

  // ---------------------------------------------------------------- id nodes

  lemma {:induction false} DispIdsFind(ids: seq<IdNode>, b: int, i: int, from: nat)
    requires from <= |ids|
    ensures var k := FindId(ids, i, from);
      DispIds(ids[from..], b, i) == if k < |ids| then Tag(ids[k].handlers, b, i) else []
    decreases |ids| - from
  {
    if from < |ids| && ids[from].id != i {
      DispIdsFind(ids, b, i, from + 1);
      assert ids[from..][1..] == ids[from + 1..];
    }
  }

  lemma DispIdsIs(ids: seq<IdNode>, b: int, i: int)
    ensures var k := FindId(ids, i, 0);
      DispIds(ids, b, i) == if k < |ids| then Tag(ids[k].handlers, b, i) else []
  {
    DispIdsFind(ids, b, i, 0);
    assert ids[0..] == ids;
  }

  lemma {:induction false} FindIdUnique(ids: seq<IdNode>, id: int, from: nat, k: nat)
    requires from <= k <= |ids| && (k < |ids| ==> ids[k].id == id) && forall j :: from <= j < k ==> ids[j].id != id
    ensures FindId(ids, id, from) == k
    decreases k - from
  {
    if from < k {
      FindIdUnique(ids, id, from + 1, k);
    }
  }

  /** The id had no node: the new one comes last. */
  lemma IdNodeNew(n: BaseNode, id: int, h: Handler, i: int)
    requires WfIds(n.ids) && id != ANY && FindId(n.ids, id, 0) == |n.ids|
    ensures WfIds(BaseAdd(n, id, h).ids)
    ensures DispIds(BaseAdd(n, id, h).ids, n.base, i)
         == DispIds(n.ids, n.base, i) + if i == id then [Reg(n.base, id, h)] else []
  {
    var ids, r := n.ids, n.ids + [IdNode(id, [h])];
    DispIdsIs(ids, n.base, i);
    DispIdsIs(r, n.base, i);
    var k := FindId(ids, i, 0);
    FindIdUnique(r, i, 0, if i == id then |ids| else if k < |ids| then k else |r|);
    assert Tag([h], n.base, id) == [Reg(n.base, id, h)];
    hide DispIds, Tag, FindId;
  }

  lemma NodeUpdated(ids: seq<IdNode>, k: nat, hs: seq<Handler>)
    requires WfIds(ids) && k < |ids| && hs != [] && WfHandlers(hs)
    ensures WfIds(ids[k := ids[k].(handlers := hs)])
  {
    hide WfHandlers;
  }

  lemma NodeDispatched(ids: seq<IdNode>, k: nat, hs: seq<Handler>, b: int, i: int)
    requires WfIds(ids) && k < |ids|
    ensures DispIds(ids[k := ids[k].(handlers := hs)], b, i) ==
      if i == ids[k].id then Tag(hs, b, i) else DispIds(ids, b, i)
  {
    var r := ids[k := ids[k].(handlers := hs)];
    DispIdsIs(ids, b, i);
    DispIdsIs(r, b, i);
    FindIdUnique(r, i, 0, FindId(ids, i, 0));
    hide DispIds, Tag, FindId, WfHandlers;
  }

  /** The id has a node: the handler comes last in it, and other ids see no difference. */
  lemma IdNodeGrows(n: BaseNode, id: int, h: Handler, i: int)
    requires WfIds(n.ids) && id != ANY && FindId(n.ids, id, 0) < |n.ids|
    requires Fresh(n.ids[FindId(n.ids, id, 0)].handlers, h.fn)
    ensures WfIds(BaseAdd(n, id, h).ids)
    ensures DispIds(BaseAdd(n, id, h).ids, n.base, i)
         == DispIds(n.ids, n.base, i) + if i == id then [Reg(n.base, id, h)] else []
  {
    var ids, k := n.ids, FindId(n.ids, id, 0);
    var hs := ids[k].handlers + [h];
    HandlersAddFresh(ids[k].handlers, h);
    TagAppend(ids[k].handlers, h, n.base, id);
    FreshWf(ids[k].handlers, h);
    NodeUpdated(ids, k, hs);
    NodeDispatched(ids, k, hs, n.base, i);
    DispIdsIs(ids, n.base, i);
    hide DispIds, Tag, FindId, HandlersAdd, WfIds, Fresh;
  }

  /** A registration for one id goes to the end of what that id gets, and no other id sees it. */
  lemma IdsAdded(n: BaseNode, id: int, h: Handler, i: int)
    requires WfIds(n.ids) && id != ANY && Fresh(BaseTakes(n, id), h.fn)
    ensures WfIds(BaseAdd(n, id, h).ids)
    ensures DispIds(BaseAdd(n, id, h).ids, n.base, i)
         == DispIds(n.ids, n.base, i) + if i == id then [Reg(n.base, id, h)] else []
  {
    var k := FindId(n.ids, id, 0);
    if k == |n.ids| {
      IdNodeNew(n, id, h, i);
    } else {
      IdNodeGrows(n, id, h, i);
    }
  }

  lemma DispIdsOther(ids: seq<IdNode>, b: int, i: int, t: Key)
    requires t.base != b || t.id != i
    ensures !Has(DispIds(ids, b, i), t) && Without(DispIds(ids, b, i), t) == DispIds(ids, b, i)
  {
    DispIdsIs(ids, b, i);
    var k := FindId(ids, i, 0);
    if k < |ids| {
      TagOther(ids[k].handlers, b, i, t);
    }
  }

  lemma DispIdsNone(ids: seq<IdNode>, b: int, i: int)
    requires forall k :: 0 <= k < |ids| ==> ids[k].id != i
    ensures DispIds(ids, b, i) == []
  {
    DispIdsIs(ids, b, i);
  }

  lemma WfIdsTail(ids: seq<IdNode>)
    requires WfIds(ids) && ids != []
    ensures WfIds(ids[1..]) && WfHandlers(ids[0].handlers)
    ensures forall k :: 0 <= k < |ids[1..]| ==> ids[1..][k].id != ids[0].id
  {
    assert forall k :: 0 <= k < |ids[1..]| ==> ids[1..][k] == ids[k + 1];
  }

  lemma {:induction false} IdsRemovedWf(ids: seq<IdNode>, id: int, fn: int)
    requires WfIds(ids)
    ensures var r := IdsRemove(ids, id, fn).0;
      WfIds(r) && forall k :: 0 <= k < |r| ==> exists j :: 0 <= j < |ids| && r[k].id == ids[j].id
    ensures ids != [] && IdsRemove(ids, id, fn).0 == [] ==> IdsRemove(ids, id, fn).1
    decreases |ids|
  {
    if ids != [] {
      var tail := ids[1..];
      assert forall k :: 0 <= k < |tail| ==> tail[k] == ids[k + 1];
      WfIdsTail(ids);
      HandlersRemoved(ids[0].handlers, fn, 0, id);
      IdsRemovedWf(tail, id, fn);
      hide Tag, Without, Has;
    }
  }

  /** Unregistering for one id takes that triple out of what the id gets, and changes nothing for other ids. */
  lemma {:induction false} IdsRemoved(ids: seq<IdNode>, id: int, fn: int, b: int, i: int)
    requires WfIds(ids)
    ensures DispIds(IdsRemove(ids, id, fn).0, b, i) == Without(DispIds(ids, b, i), Key(b, id, fn))
    ensures IdsRemove(ids, id, fn).1 ==> Has(DispIds(ids, b, id), Key(b, id, fn))
    decreases |ids|
  {
    if ids != [] {
      var tail, t := ids[1..], Key(b, id, fn);
      WfIdsTail(ids);
      HandlersRemoved(ids[0].handlers, fn, b, id);
      IdsRemoved(tail, id, fn, b, i);
      DispIdsNone(tail, b, ids[0].id);
      if i != id {
        DispIdsOther(tail, b, i, t);
        TagOther(ids[0].handlers, b, i, t);
      }
      hide Tag, Without, Has, HandlersRemove;
      assert Tag([], b, i) == [];
    }
  }

  // ---------------------------------------------------------------- base nodes

  function One(b: bool, r: Reg): seq<Reg> {
    if b then [r] else []
  }

  lemma BaseAdded(n: BaseNode, id: int, h: Handler, b: int, i: int)
    requires n.base != ANY && WfHandlers(n.handlers) && WfIds(n.ids)
    requires id == ANY ==> n.ids == []
    requires Fresh(BaseTakes(n, id), h.fn)
    ensures WfBase(BaseAdd(n, id, h)) && BaseAdd(n, id, h).base == n.base
    ensures DispBase(BaseAdd(n, id, h), b, i) == DispBase(n, b, i) + One(Meant(n.base, id, b, i), Reg(n.base, id, h))
  {
    hide Tag, FindId;
    if id == ANY {
      HandlersAddFresh(n.handlers, h);
      TagAppend(n.handlers, h, n.base, ANY);
    } else {
      IdsAdded(n, id, h, i);
      BaseAddIds(n, id, h);
    }
  }

  lemma BaseAddIds(n: BaseNode, id: int, h: Handler)
    requires id != ANY
    ensures BaseAdd(n, id, h) == n.(ids := BaseAdd(n, id, h).ids) && BaseAdd(n, id, h).ids != []
  {
  }

  /** A changed node changes what is dispatched in its place only. */
  lemma DispBasesAt(bs: seq<BaseNode>, k: nat, n: BaseNode, b: int, i: int)
    requires k < |bs|
    ensures DispBases(bs[k := n], b, i) == DispBases(bs[..k], b, i) + DispBase(n, b, i) + DispBases(bs[k + 1..], b, i)
  {
    assert bs[k := n] == bs[..k] + ([n] + bs[k + 1..]);
    DispBasesAppend(bs[..k], [n] + bs[k + 1..], b, i);
    assert ([n] + bs[k + 1..])[1..] == bs[k + 1..];
    hide DispBase;
  }

  lemma {:induction false} DispBasesNone(bs: seq<BaseNode>, b: int, i: int)
    requires forall j :: 0 <= j < |bs| ==> bs[j].base != b
    ensures DispBases(bs, b, i) == []
  {
    if bs != [] {
      DispBasesNone(bs[1..], b, i);
    }
  }

  /** What the last node of a base gains, the whole list gains at its end. */
  lemma LastBaseGrows(bs: seq<BaseNode>, base: int, n: BaseNode, more: seq<Reg>, b: int, i: int)
    requires LastBase(bs, base) >= 0 && n.base == base
    requires DispBase(n, b, i) == DispBase(bs[LastBase(bs, base)], b, i) + more && (b != base ==> more == [])
    ensures DispBases(bs[LastBase(bs, base) := n], b, i) == DispBases(bs, b, i) + more
  {
    hide DispBase, DispBases;
    var k := LastBase(bs, base);
    var before, after := bs[..k], bs[k + 1..];
    assert forall j :: 0 <= j < |after| ==> after[j] == bs[k + 1 + j];
    DispBasesAt(bs, k, bs[k], b, i);
    assert bs[k := bs[k]] == bs;
    DispBasesAt(bs, k, n, b, i);
    if b == base {
      DispBasesNone(after, b, i);
    }
    MoreLast(DispBases(before, b, i), DispBase(bs[k], b, i), DispBases(after, b, i), more);
  }

  lemma MoreLast(a: seq<Reg>, d: seq<Reg>, c: seq<Reg>, more: seq<Reg>)
    requires more == [] || c == []
    ensures a + (d + more) + c == a + d + c + more
  {
  }

  lemma BasesAdded(n: LoopNode, base: int, id: int, h: Handler, b: int, i: int)
    requires WfBases(n.bases) && base != ANY
    requires Fresh(LoopTakes(n, base, id), h.fn)
    ensures var r := LoopAdd(n, base, id, h);
      && r.handlers == n.handlers && WfBases(r.bases) && r.bases != []
      && DispBases(r.bases, b, i) == DispBases(n.bases, b, i) + One(Meant(base, id, b, i), Reg(base, id, h))
  {
    hide BaseAdd, DispBase, Fresh, BaseTakes, WfBase, LastBase;
    var bs := n.bases;
    if NeedsNewBase(bs, base, id) {
      NewBaseAdded(base, id, h, b, i);
      var m := BaseAdd(BaseNode(base, [], []), id, h);
      DispBasesAppend(bs, [m], b, i);
      assert [m][1..] == [];
    } else {
      var k := LastBase(bs, base);
      WfBaseParts(bs[k]);
      BaseAdded(bs[k], id, h, b, i);
      LastBaseGrows(bs, base, BaseAdd(bs[k], id, h), One(Meant(base, id, b, i), Reg(base, id, h)), b, i);
    }
  }

  lemma WfBaseParts(n: BaseNode)
    requires WfBase(n)
    ensures n.base != ANY && WfHandlers(n.handlers) && WfIds(n.ids)
  {
  }

  lemma NewBaseAdded(base: int, id: int, h: Handler, b: int, i: int)
    requires base != ANY
    ensures var m := BaseAdd(BaseNode(base, [], []), id, h);
      WfBase(m) && DispBase(m, b, i) == One(Meant(base, id, b, i), Reg(base, id, h))
  {
    var n := BaseNode(base, [], []);
    assert DispBase(n, b, i) == [];
    BaseAdded(n, id, h, b, i);
  }

  lemma BaseRemoved(n: BaseNode, id: int, fn: int, b: int, i: int)
    requires WfBase(n)
    ensures var r, t := BaseRemove(n, id, fn), Key(n.base, id, fn);
      && DispBase(r.0, b, i) == Without(DispBase(n, b, i), t)
      && (r.1 ==> Has(DispBase(n, n.base, id), t))
      && r.0.base == n.base && (if r.0.handlers == [] && r.0.ids == [] then r.1 else WfBase(r.0))
  {
    var t := Key(n.base, id, fn);
    WithoutAppend(Tag(n.handlers, b, ANY), DispIds(n.ids, b, i), t);
    HasAppend(Tag(n.handlers, n.base, ANY), DispIds(n.ids, n.base, id), t);
    if id == ANY {
      HandlersRemoved(n.handlers, fn, n.base, ANY);
      if i == ANY {
        DispIdsNone(n.ids, b, i);
      } else {
        DispIdsOther(n.ids, b, i, t);
      }
    } else {
      TagOther(n.handlers, b, ANY, t);
      IdsRemoved(n.ids, id, fn, n.base, i);
      IdsRemovedWf(n.ids, id, fn);
    }
    hide Has, Tag, DispIds, HandlersRemove, IdsRemove, WfIds;
  }

  /** An event that the triple is not meant for does not see it. */
  lemma {:induction false} DispBasesOther(bs: seq<BaseNode>, b: int, i: int, t: Key)
    requires WfBases(bs) && !(t.base == b && (t.id == ANY || t.id == i))
    ensures !Has(DispBases(bs, b, i), t)
  {
    if bs != [] {
      var n := bs[0];
      assert forall k :: 0 <= k < |bs[1..]| ==> bs[1..][k] == bs[k + 1];
      DispBasesOther(bs[1..], b, i, t);
      TagOther(n.handlers, b, ANY, t);
      DispIdsOther(n.ids, b, i, t);
      HasAppend(Tag(n.handlers, b, ANY), DispIds(n.ids, b, i), t);
      HasAppend(DispBase(n, b, i), DispBases(bs[1..], b, i), t);
      hide Tag, DispIds, Has;
      assert DispBase(n, b, i) == Tag(n.handlers, b, ANY) + DispIds(n.ids, b, i) || DispBase(n, b, i) == [];
      HasNothing(t);
    } else {
      HasNothing(t);
    }
  }

  lemma HasNothing(t: Key)
    ensures !Has([], t)
  {
  }

  lemma {:induction false} BasesRemovedWf(bs: seq<BaseNode>, base: int, id: int, fn: int)
    requires WfBases(bs)
    ensures WfBases(BasesRemove(bs, base, id, fn).0)
    ensures bs != [] && BasesRemove(bs, base, id, fn).0 == [] ==> BasesRemove(bs, base, id, fn).1
    decreases |bs|
  {
    if bs != [] {
      assert forall k :: 0 <= k < |bs[1..]| ==> bs[1..][k] == bs[k + 1];
      BasesRemovedWf(bs[1..], base, id, fn);
      if bs[0].base == base {
        BaseRemoved(bs[0], id, fn, base, id);
      }
      hide BaseRemove, DispBase, Without, Has, WfBase;
    }
  }

  lemma DispBaseForeign(n: BaseNode, b: int, i: int, t: Key)
    requires n.base != t.base
    ensures !Has(DispBase(n, b, i), t)
  {
    HasNothing(t);
    if n.base == b {
      TagOther(n.handlers, b, ANY, t);
      DispIdsOther(n.ids, b, i, t);
      HasAppend(Tag(n.handlers, b, ANY), DispIds(n.ids, b, i), t);
    }
    hide Has, Tag, DispIds;
  }

  /** The first of the base nodes, in `BasesRemove`. */
  function HeadRemove(n: BaseNode, base: int, id: int, fn: int): (BaseNode, bool) {
    if n.base == base then BaseRemove(n, id, fn) else (n, false)
  }

  lemma HeadRemoved(n: BaseNode, base: int, id: int, fn: int, b: int, i: int)
    requires WfBase(n)
    ensures var r, t := HeadRemove(n, base, id, fn), Key(base, id, fn);
      && DispBase(r.0, b, i) == Without(DispBase(n, b, i), t)
      && (r.1 ==> Has(DispBase(n, base, id), t))
      && (r.0.handlers == [] && r.0.ids == [] ==> r.1 && DispBase(r.0, b, i) == [])
  {
    var t := Key(base, id, fn);
    if n.base == base {
      BaseRemoved(n, id, fn, b, i);
      assert Tag([], b, ANY) == [];
    } else {
      DispBaseForeign(n, b, i, t);
      WithoutNone(DispBase(n, b, i), t);
    }
    hide BaseRemove, Without, Has, WfIds, WfHandlers, Tag;
  }

  // ---------------------------------------------------------------- loop nodes

  lemma LoopAdded(n: LoopNode, base: int, id: int, h: Handler, b: int, i: int)
    requires WfHandlers(n.handlers) && WfBases(n.bases)
    requires base == ANY ==> id == ANY && n.bases == []
    requires Fresh(LoopTakes(n, base, id), h.fn)
    ensures WfLoop(LoopAdd(n, base, id, h))
    ensures DispLoop(LoopAdd(n, base, id, h), b, i) == DispLoop(n, b, i) + One(Meant(base, id, b, i), Reg(base, id, h))
  {
    hide Tag, NeedsNewBase, BaseAdd, BaseTakes;
    if base == ANY {
      HandlersAddFresh(n.handlers, h);
      TagAppend(n.handlers, h, ANY, ANY);
      FreshWf(n.handlers, h);
    } else {
      BasesAdded(n, base, id, h, b, i);
    }
  }

  lemma FreshWf(hs: seq<Handler>, h: Handler)
    requires WfHandlers(hs) && Fresh(hs, h.fn)
    ensures WfHandlers(hs + [h])
  {
  }

  /**
   * A registration that is new to the list it goes to is added at the end of what the events it is meant for get,
   * and nowhere else, whether or not the triple is registered in an earlier node, too.
   */
  lemma RegisterAppends(ns: seq<LoopNode>, base: int, id: int, h: Handler, b: int, i: int)
    requires WfLoops(ns) && (base == ANY ==> id == ANY)
    requires Fresh(Takes(ns, base, id), h.fn)
    ensures WfLoops(Register(ns, base, id, h))
    ensures Dispatch(Register(ns, base, id, h), b, i) ==
      Dispatch(ns, b, i) + One(Meant(base, id, b, i), Reg(base, id, h))
  {
    hide LoopAdd, DispLoop, Fresh, LoopTakes, WfLoop, One;
    if ns == [] || (ns[|ns| - 1].bases != [] && base == ANY && id == ANY) {
      var m := LoopAdd(LoopNode([], []), base, id, h);
      NewLoopAdded(base, id, h, b, i);
      DispatchAppend(ns, [m], b, i);
      DispatchOne(m, b, i);
    } else {
      var before, last := ns[..|ns| - 1], ns[|ns| - 1];
      var m := LoopAdd(last, base, id, h);
      assert ns == before + [last] && ns[|ns| - 1 := m] == before + [m];
      DispatchAppend(before, [last], b, i);
      DispatchAppend(before, [m], b, i);
      DispatchOne(last, b, i);
      DispatchOne(m, b, i);
      WfLoopParts(last);
      LoopAdded(last, base, id, h, b, i);
      MoreLast(Dispatch(before, b, i), DispLoop(last, b, i), [], One(Meant(base, id, b, i), Reg(base, id, h)));
    }
  }

  lemma DispatchOne(n: LoopNode, b: int, i: int)
    ensures Dispatch([n], b, i) == DispLoop(n, b, i)
  {
    assert [n][1..] == [];
  }

  lemma NewLoopAdded(base: int, id: int, h: Handler, b: int, i: int)
    requires base == ANY ==> id == ANY
    ensures var m := LoopAdd(LoopNode([], []), base, id, h);
      WfLoop(m) && DispLoop(m, b, i) == One(Meant(base, id, b, i), Reg(base, id, h))
  {
    var n := LoopNode([], []);
    assert DispLoop(n, b, i) == [];
    LoopAdded(n, base, id, h, b, i);
  }

  lemma WfLoopParts(n: LoopNode)
    requires WfLoop(n)
    ensures WfHandlers(n.handlers) && WfBases(n.bases)
  {
  }

  // ---------------------------------------------------------------- what a removal reports

  /** Nothing but a handler `fn`. */
  predicate OnlyHandler(hs: seq<Handler>, fn: int) {
    |hs| == 1 && hs[0].fn == fn
  }

  /** A base node with nothing but the registration of `fn` for `id`. */
  predicate OnlyHolds(n: BaseNode, id: int, fn: int) {
    if id == ANY then OnlyHandler(n.handlers, fn) && n.ids == []
    else n.handlers == [] && |n.ids| == 1 && n.ids[0].id == id && OnlyHandler(n.ids[0].handlers, fn)
  }

  lemma {:induction false} HandlersReport(hs: seq<Handler>, fn: int)
    ensures HandlersRemove(hs, fn).1 <==> exists k :: 0 <= k < |hs| && hs[k].fn == fn
    ensures HandlersRemove(hs, fn).1 && HandlersRemove(hs, fn).0 == [] <==> OnlyHandler(hs, fn)
    ensures !HandlersRemove(hs, fn).1 ==> HandlersRemove(hs, fn).0 == hs
  {
    if hs != [] {
      var tail := hs[1..];
      HandlersReport(tail, fn);
      assert forall k :: 0 <= k < |tail| ==> tail[k] == hs[k + 1];
      assert hs == [hs[0]] + tail;
      if hs[0].fn != fn && HandlersRemove(tail, fn).1 {
        var k :| 0 <= k < |tail| && tail[k].fn == fn;
        assert hs[k + 1].fn == fn;
      }
    }
  }

  /** For an id, success is reported exactly when the handler was the only one of its id node. */
  lemma {:induction false} IdsReport(ids: seq<IdNode>, id: int, fn: int)
    requires WfIds(ids)
    ensures IdsRemove(ids, id, fn).1 <==>
      exists k :: 0 <= k < |ids| && ids[k].id == id && OnlyHandler(ids[k].handlers, fn)
    ensures |ids| - 1 <= |IdsRemove(ids, id, fn).0| <= |ids|
    ensures IdsRemove(ids, id, fn).1 <==> |IdsRemove(ids, id, fn).0| < |ids|
    decreases |ids|
  {
    if ids != [] {
      var tail := ids[1..];
      WfIdsTail(ids);
      HandlersReport(ids[0].handlers, fn);
      IdsReport(tail, id, fn);
      hide HandlersRemove, OnlyHandler;
      assert forall k :: 0 <= k < |tail| ==> tail[k] == ids[k + 1];
      if IdsRemove(tail, id, fn).1 {
        var k :| 0 <= k < |tail| && tail[k].id == id && OnlyHandler(tail[k].handlers, fn);
        assert ids[k + 1].id == id;
      }
    }
  }

  /** For any id, success is reported whenever the handler was there, although no node goes. */
  lemma BaseReport(n: BaseNode, id: int, fn: int)
    requires WfBase(n)
    ensures BaseRemove(n, id, fn).1 <==>
      if id == ANY then exists k :: 0 <= k < |n.handlers| && n.handlers[k].fn == fn
      else exists k :: 0 <= k < |n.ids| && n.ids[k].id == id && OnlyHandler(n.ids[k].handlers, fn)
    ensures var r := BaseRemove(n, id, fn);
      r.1 && r.0.handlers == [] && r.0.ids == [] <==> OnlyHolds(n, id, fn)
  {
    HandlersReport(n.handlers, fn);
    IdsReport(n.ids, id, fn);
    hide HandlersRemove, OnlyHandler, IdsRemove;
  }

  /** In a loop node, success is reported exactly when some base node of the base held nothing else. */
  lemma {:induction false} BasesReport(bs: seq<BaseNode>, base: int, id: int, fn: int)
    requires WfBases(bs)
    ensures BasesRemove(bs, base, id, fn).1 <==>
      exists k :: 0 <= k < |bs| && bs[k].base == base && OnlyHolds(bs[k], id, fn)
    ensures BasesRemove(bs, base, id, fn).1 <==> |BasesRemove(bs, base, id, fn).0| < |bs|
    ensures |bs| - 1 <= |BasesRemove(bs, base, id, fn).0| <= |bs|
    decreases |bs|
  {
    if bs != [] {
      var tail := bs[1..];
      assert forall k :: 0 <= k < |tail| ==> tail[k] == bs[k + 1];
      BaseReport(bs[0], id, fn);
      WfBaseHead(bs[0]);
      BasesReport(tail, base, id, fn);
      hide BaseRemove, OnlyHolds, WfBase;
      if BasesRemove(tail, base, id, fn).1 {
        var k :| 0 <= k < |tail| && tail[k].base == base && OnlyHolds(tail[k], id, fn);
        assert bs[k + 1].base == base;
      }
    }
  }

  lemma WfBaseHead(n: BaseNode)
    requires WfBase(n)
    ensures n.handlers != [] || n.ids != []
  {
  }

  /** A handler that shares its id node goes, and failure is reported. */
  lemma SharedNodeReportsFailure(h1: Handler, h2: Handler)
    requires h1.fn != h2.fn
    ensures IdsRemove([IdNode(1, [h1, h2])], 1, h1.fn) == ([IdNode(1, [h2])], false)
  {
    assert [h1, h2][1..] == [h2];
    var ids := [IdNode(1, [h1, h2])];
    assert ids[1..] == [];
    assert HandlersRemove(ids[0].handlers, h1.fn) == ([h2], true);
    assert IdsRemove(ids[1..], 1, h1.fn) == ([], false);
    assert [IdNode(1, [h2])] + [] == [IdNode(1, [h2])];
  }

  /** A handler for any id that shares its base node goes, no node does, and success is reported. */
  lemma SharedBaseReportsSuccess(h1: Handler, h2: Handler)
    requires h1.fn != h2.fn
    ensures BaseRemove(BaseNode(1, [h1, h2], []), ANY, h1.fn) == (BaseNode(1, [h2], []), true)
  {
    assert [h1, h2][1..] == [h2];
  }
}
