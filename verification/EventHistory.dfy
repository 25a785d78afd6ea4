/**
 * When a repeated registration runs the handler twice, told by what was registered in between: only a general
 * registration, behind which specific ones have to stay, makes the difference.
 */
module EventHistory {
  import opened EventRegistry
  import opened EventRegistryProof
  import opened EventRegisterAgain

  predicate Proper(base: int, id: int) {
    base == ANY ==> id == ANY
  }

  // ---------------------------------------------------------------- where a registration goes

  lemma {:induction false} HandlersAddFreshIff(hs: seq<Handler>, h: Handler, fn: int)
    ensures Fresh(HandlersAdd(hs, h), fn) <==> Fresh(hs, fn) && h.fn != fn
  {
    var r := HandlersAdd(hs, h);
    FreshTail(r, fn);
    if hs == [] {
      assert r[1..] == [];
      NothingIsFresh(fn);
    } else {
      FreshTail(hs, fn);
      HandlersAddFreshIff(hs[1..], h, fn);
      assert r[1..] == if hs[0].fn == h.fn then hs[1..] else HandlersAdd(hs[1..], h);
    }
  }

  lemma NothingIsFresh(fn: int)
    ensures Fresh([], fn)
  {
  }

  lemma {:induction false} LastBaseUnique(bs: seq<BaseNode>, base: int, k: int)
    requires -1 <= k < |bs| && (k >= 0 ==> bs[k].base == base) && forall j :: k < j < |bs| ==> bs[j].base != base
    ensures LastBase(bs, base) == k
  {
  }

  /** The node of an id after a registration for some id. */
  lemma BaseTakesAfter(n: BaseNode, id2: int, h: Handler, id: int)
    ensures BaseTakes(BaseAdd(n, id2, h), id) ==
      if id == id2 then HandlersAdd(BaseTakes(n, id), h) else BaseTakes(n, id)
    ensures BaseAdd(n, id2, h).base == n.base
    ensures BaseAdd(n, id2, h).ids == [] <==> n.ids == [] && id2 == ANY
  {
    var r, k, k2 := BaseAdd(n, id2, h), FindId(n.ids, id, 0), FindId(n.ids, id2, 0);
    if id2 != ANY && id != ANY {
      if k2 == |n.ids| {
        FindIdUnique(r.ids, id, 0, if k < |n.ids| then k else if id == id2 then |n.ids| else |r.ids|);
      } else {
        FindIdUnique(r.ids, id, 0, k);
      }
    }
    hide FindId;
  }

  /** When a registration starts a new base node, by what stands in the list. */
  lemma NewBaseIff(bs: seq<BaseNode>, base: int, id: int)
    ensures NeedsNewBase(bs, base, id) <==>
      || (forall k :: 0 <= k < |bs| ==> bs[k].base != base)
      || (id == ANY && bs[|bs| - 1].base != base && bs[|bs| - 1].ids != [])
      || (id == ANY && exists k :: 0 <= k < |bs| && bs[k].base == base && bs[k].ids != [] && NoneBehind(bs, base, k))
  {
    var last := LastBase(bs, base);
    if last >= 0 {
      assert NoneBehind(bs, base, last);
      assert forall k :: 0 <= k < |bs| && bs[k].base == base && NoneBehind(bs, base, k) ==> k == last;
    }
  }

  predicate NoneBehind(bs: seq<BaseNode>, base: int, k: int) {
    forall j :: k < j < |bs| ==> 0 <= j && bs[j].base != base
  }

  /** Registering for the same events again finds what the registration before has left. */
  lemma LoopTakesSame(n: LoopNode, base: int, id: int, h: Handler)
    requires Proper(base, id)
    ensures LoopTakes(LoopAdd(n, base, id, h), base, id) == HandlersAdd(LoopTakes(n, base, id), h)
  {
    hide HandlersAdd, BaseAdd, BaseTakes, LastBase;
    if base != ANY {
      var bs := n.bases;
      var k := LastBase(bs, base);
      if NeedsNewBase(bs, base, id) {
        var m := BaseAdd(BaseNode(base, [], []), id, h);
        BaseTakesAfter(BaseNode(base, [], []), id, h, id);
        LastBaseUnique(bs + [m], base, |bs|);
        NewNodeTakes(base, id);
      } else {
        var m := BaseAdd(bs[k], id, h);
        BaseTakesAfter(bs[k], id, h, id);
        LastBaseUnique(bs[k := m], base, k);
      }
    }
  }

  lemma NewNodeTakes(base: int, id: int)
    ensures BaseTakes(BaseNode(base, [], []), id) == []
  {
  }

  lemma TakesSame(ns: seq<LoopNode>, base: int, id: int, h: Handler)
    requires Proper(base, id)
    ensures Takes(Register(ns, base, id, h), base, id) == HandlersAdd(Takes(ns, base, id), h)
  {
    hide LoopAdd, LoopTakes, HandlersAdd;
    if ns == [] || (ns[|ns| - 1].bases != [] && base == ANY && id == ANY) {
      LoopTakesSame(LoopNode([], []), base, id, h);
      EmptyTakes(base, id);
    } else {
      LoopTakesSame(ns[|ns| - 1], base, id, h);
    }
    AnyKeepsBases(if ns == [] then LoopNode([], []) else ns[|ns| - 1], base, id, h);
    AnyKeepsBases(LoopNode([], []), base, id, h);
  }

  lemma EmptyTakes(base: int, id: int)
    ensures LoopTakes(LoopNode([], []), base, id) == []
  {
  }

  lemma AnyKeepsBases(n: LoopNode, base: int, id: int, h: Handler)
    requires Proper(base, id)
    ensures LoopAdd(n, base, id, h).bases == [] <==> n.bases == [] && base == ANY
    ensures base == ANY ==> LoopAdd(n, base, id, h).bases == n.bases
  {
    hide BaseAdd;
  }

  // ---------------------------------------------------------------- what other registrations change

  /** A registration that specific handlers registered later have to stay behind, or that moves to a new node. */
  predicate Cuts(r: Reg, base: int, id: int) {
    if base == ANY then r.base != ANY else r.base == ANY || (r.base == base && r.id == ANY)
  }

  lemma LoopTakesOther(n: LoopNode, r: Reg, base: int, id: int)
    requires base != ANY && id != ANY && Proper(r.base, r.id) && (r.base != base || r.id != id)
    ensures LoopTakes(LoopAdd(n, r.base, r.id, r.handler), base, id) ==
      if r.base == base && r.id == ANY then [] else LoopTakes(n, base, id)
  {
    hide HandlersAdd, BaseAdd, BaseTakes, LastBase;
    if r.base != ANY {
      var bs := n.bases;
      var k, k2 := LastBase(bs, base), LastBase(bs, r.base);
      if NeedsNewBase(bs, r.base, r.id) {
        var m := BaseAdd(BaseNode(r.base, [], []), r.id, r.handler);
        BaseTakesAfter(BaseNode(r.base, [], []), r.id, r.handler, id);
        LastBaseUnique(bs + [m], base, if r.base == base then |bs| else k);
        NewNodeTakes(r.base, id);
      } else {
        var m := BaseAdd(bs[k2], r.id, r.handler);
        BaseTakesAfter(bs[k2], r.id, r.handler, id);
        LastBaseUnique(bs[k2 := m], base, k);
        NoIdsTakes(bs[k2], id);
      }
    }
  }

  lemma NoIdsTakes(n: BaseNode, id: int)
    ensures id != ANY && n.ids == [] ==> BaseTakes(n, id) == []
  {
  }

  lemma NoBasesTakes(n: LoopNode, base: int, id: int)
    requires base != ANY && n.bases == []
    ensures LoopTakes(n, base, id) == []
  {
  }

  /** What a registration for other events does to the list that a registration for one event, or for all, goes to. */
  lemma TakesOther(ns: seq<LoopNode>, r: Reg, base: int, id: int)
    requires Proper(r.base, r.id) && Proper(base, id) && (base == ANY || id != ANY)
    requires r.base != base || r.id != id
    ensures Takes(Register(ns, r.base, r.id, r.handler), base, id) ==
      if Cuts(r, base, id) then [] else Takes(ns, base, id)
  {
    hide LoopAdd, LoopTakes, HandlersAdd;
    var empty := LoopNode([], []);
    var last := if ns == [] then empty else ns[|ns| - 1];
    AnyKeepsBases(last, r.base, r.id, r.handler);
    AnyKeepsBases(empty, r.base, r.id, r.handler);
    if base != ANY {
      LoopTakesOther(last, r, base, id);
      LoopTakesOther(empty, r, base, id);
      EmptyTakes(base, id);
      if last.bases == [] {
        NoBasesTakes(last, base, id);
      }
      if r.base == ANY {
        NoBasesTakes(LoopAdd(empty, ANY, ANY, r.handler), base, id);
        if last.bases == [] {
          NoBasesTakes(LoopAdd(last, ANY, ANY, r.handler), base, id);
        }
      }
    }
  }

  // ---------------------------------------------------------------- registrations in a row

  function RegisterAll(ns: seq<LoopNode>, rs: seq<Reg>): seq<LoopNode> {
    if rs == [] then ns
    else
      var r := rs[|rs| - 1];
      Register(RegisterAll(ns, rs[..|rs| - 1]), r.base, r.id, r.handler)
  }

  predicate AllProper(rs: seq<Reg>) {
    forall r :: r in rs ==> Proper(r.base, r.id)
  }

  lemma RegisterWf(ns: seq<LoopNode>, base: int, id: int, h: Handler)
    requires WfLoops(ns) && Proper(base, id)
    ensures WfLoops(Register(ns, base, id, h))
  {
    if Fresh(Takes(ns, base, id), h.fn) {
      RegisterAppends(ns, base, id, h, base, id);
    } else {
      RegisterReplaces(ns, base, id, h, base, id);
    }
  }

  lemma {:induction false} RegisterAllWf(ns: seq<LoopNode>, rs: seq<Reg>)
    requires WfLoops(ns) && AllProper(rs)
    ensures WfLoops(RegisterAll(ns, rs))
  {
    if rs != [] {
      var r := rs[|rs| - 1];
      hide WfLoops, Register;
      RegisterAllWf(ns, rs[..|rs| - 1]);
      RegisterWf(RegisterAll(ns, rs[..|rs| - 1]), r.base, r.id, r.handler);
    }
  }

  ghost predicate SomeCuts(rs: seq<Reg>, base: int, id: int) {
    exists r :: r in rs && Cuts(r, base, id)
  }

  lemma {:induction false} FreshAfterAll(ns: seq<LoopNode>, rs: seq<Reg>, base: int, id: int, fn: int)
    requires AllProper(rs) && Proper(base, id) && (base == ANY || id != ANY)
    requires !Has(rs, Key(base, id, fn))
    ensures Fresh(Takes(RegisterAll(ns, rs), base, id), fn) <==>
      Fresh(Takes(ns, base, id), fn) || SomeCuts(rs, base, id)
    decreases |rs|
  {
    hide Takes, Register, Fresh;
    if rs != [] {
      var front, r := rs[..|rs| - 1], rs[|rs| - 1];
      assert rs == front + [r] && [r][0] == r;
      HasAppend(front, [r], Key(base, id, fn));
      FreshAfterAll(ns, front, base, id, fn);
      var m := RegisterAll(ns, front);
      if r.base == base && r.id == id {
        TakesSame(m, base, id, r.handler);
        HandlersAddFreshIff(Takes(m, base, id), r.handler, fn);
        assert KeyOf(r) == Key(base, id, r.handler.fn);
        assert r.handler.fn != fn by { assert Has([r], KeyOf(r)); }
        assert !Cuts(r, base, id);
      } else {
        TakesOther(m, r, base, id);
        NothingIsFresh(fn);
      }
      assert SomeCuts(rs, base, id) <==> SomeCuts(front, base, id) || Cuts(r, base, id);
    }
  }

  /** Registering again at once only replaces the argument, for whatever events. */
  lemma AgainReplaces(ns: seq<LoopNode>, base: int, id: int, h: Handler, again: Handler, b: int, i: int)
    requires WfLoops(ns) && Proper(base, id) && again.fn == h.fn
    ensures var m := Register(ns, base, id, h);
      Dispatch(Register(m, base, id, again), b, i) == ReplaceLast(Dispatch(m, b, i), Reg(base, id, again))
  {
    hide Takes, Register, Fresh, Dispatch;
    RegisterWf(ns, base, id, h);
    TakesSame(ns, base, id, h);
    HandlersAddFreshIff(Takes(ns, base, id), h, h.fn);
    RegisterReplaces(Register(ns, base, id, h), base, id, again, b, i);
  }

  /**
   * After any other registrations in between: for one event the argument is replaced if and only if none of them was
   * for every event or for all events of the base; for every event, if and only if all of them were for every event,
   * too. Otherwise the handler is registered twice.
   */
  lemma AgainIff(ns: seq<LoopNode>, base: int, id: int, h: Handler, rs: seq<Reg>, again: Handler, b: int, i: int)
    requires WfLoops(ns) && Proper(base, id) && (base == ANY || id != ANY) && again.fn == h.fn
    requires AllProper(rs) && !Has(rs, Key(base, id, h.fn))
    ensures var m := RegisterAll(Register(ns, base, id, h), rs);
      Dispatch(Register(m, base, id, again), b, i) ==
        if SomeCuts(rs, base, id)
        then Dispatch(m, b, i) + One(Meant(base, id, b, i), Reg(base, id, again))
        else ReplaceLast(Dispatch(m, b, i), Reg(base, id, again))
  {
    hide Takes, Register, Fresh, Dispatch, SomeCuts, RegisterAll;
    var first := Register(ns, base, id, h);
    RegisterWf(ns, base, id, h);
    RegisterAllWf(first, rs);
    TakesSame(ns, base, id, h);
    HandlersAddFreshIff(Takes(ns, base, id), h, h.fn);
    FreshAfterAll(first, rs, base, id, h.fn);
    if SomeCuts(rs, base, id) {
      RegisterAppends(RegisterAll(first, rs), base, id, again, b, i);
    } else {
      RegisterReplaces(RegisterAll(first, rs), base, id, again, b, i);
    }
  }

  // ---------------------------------------------------------------- handlers for all events of a base

  predicate HasBase(n: LoopNode, base: int) {
    exists k :: 0 <= k < |n.bases| && n.bases[k].base == base
  }

  /** A registration behind which a handler for all events of `base` gets a new node. */
  predicate CutsGeneral(ns: seq<LoopNode>, r: Reg, base: int) {
    || r.base == ANY
    || (r.id != ANY && (r.base == base || ns == [] || !HasBase(ns[|ns| - 1], r.base)))
  }

  lemma LoopTakesGeneral(n: LoopNode, r: Reg, base: int)
    requires base != ANY && r.base != ANY && (r.base != base || r.id != ANY)
    ensures r.id != ANY && (r.base == base || !HasBase(n, r.base)) ==>
      LoopTakes(LoopAdd(n, r.base, r.id, r.handler), base, ANY) == []
    ensures r.id == ANY && LoopTakes(n, base, ANY) != [] ==>
      LoopTakes(LoopAdd(n, r.base, r.id, r.handler), base, ANY) == LoopTakes(n, base, ANY)
  {
    hide HandlersAdd, BaseAdd, BaseTakes, LastBase;
    var bs := n.bases;
    var k, k2 := LastBase(bs, base), LastBase(bs, r.base);
    if NeedsNewBase(bs, r.base, r.id) {
      var m := BaseAdd(BaseNode(r.base, [], []), r.id, r.handler);
      BaseTakesAfter(BaseNode(r.base, [], []), r.id, r.handler, ANY);
      LastBaseUnique(bs + [m], base, if r.base == base then |bs| else k);
      NewNodeTakes(r.base, ANY);
    } else {
      var m := BaseAdd(bs[k2], r.id, r.handler);
      BaseTakesAfter(bs[k2], r.id, r.handler, ANY);
      LastBaseUnique(bs[k2 := m], base, k);
    }
  }

  lemma TakesGeneral(ns: seq<LoopNode>, r: Reg, base: int)
    requires base != ANY && Proper(r.base, r.id) && (r.base != base || r.id != ANY)
    ensures CutsGeneral(ns, r, base) ==> Takes(Register(ns, r.base, r.id, r.handler), base, ANY) == []
    ensures r.base != ANY && r.id == ANY && Takes(ns, base, ANY) != [] ==>
      Takes(Register(ns, r.base, r.id, r.handler), base, ANY) == Takes(ns, base, ANY)
  {
    hide LoopAdd, LoopTakes, HandlersAdd;
    var empty := LoopNode([], []);
    var last := if ns == [] then empty else ns[|ns| - 1];
    if r.base == ANY {
      AnyKeepsBases(last, ANY, ANY, r.handler);
      AnyKeepsBases(empty, ANY, ANY, r.handler);
      NoBasesTakes(LoopAdd(empty, ANY, ANY, r.handler), base, ANY);
      if last.bases == [] {
        NoBasesTakes(LoopAdd(last, ANY, ANY, r.handler), base, ANY);
      }
    } else {
      LoopTakesGeneral(last, r, base);
    }
  }

  lemma {:induction false} GeneralTakesAll(ns: seq<LoopNode>, rs: seq<Reg>, base: int)
    requires base != ANY && Takes(ns, base, ANY) != []
    requires forall r :: r in rs ==> r.base != ANY && r.base != base && r.id == ANY
    ensures Takes(RegisterAll(ns, rs), base, ANY) == Takes(ns, base, ANY)
    decreases |rs|
  {
    hide Takes, Register;
    if rs != [] {
      assert rs[|rs| - 1] in rs;
      GeneralTakesAll(ns, rs[..|rs| - 1], base);
      TakesGeneral(RegisterAll(ns, rs[..|rs| - 1]), rs[|rs| - 1], base);
    }
  }

  /** Handlers for all events of other bases in between make no difference. */
  lemma GeneralAgainReplaces(ns: seq<LoopNode>, base: int, h: Handler, rs: seq<Reg>, again: Handler, b: int, i: int)
    requires WfLoops(ns) && base != ANY && again.fn == h.fn
    requires forall r :: r in rs ==> r.base != ANY && r.base != base && r.id == ANY
    ensures var m := RegisterAll(Register(ns, base, ANY, h), rs);
      Dispatch(Register(m, base, ANY, again), b, i) == ReplaceLast(Dispatch(m, b, i), Reg(base, ANY, again))
  {
    hide Takes, Register, Fresh, Dispatch, RegisterAll;
    var first := Register(ns, base, ANY, h);
    RegisterWf(ns, base, ANY, h);
    RegisterAllWf(first, rs);
    TakesSame(ns, base, ANY, h);
    HandlersAddFreshIff(Takes(ns, base, ANY), h, h.fn);
    NothingIsFresh(h.fn);
    GeneralTakesAll(first, rs, base);
    RegisterReplaces(RegisterAll(first, rs), base, ANY, again, b, i);
  }

  /**
   * A handler for every event, for one event of the same base, or for one event of a base without a node in between
   * registers it twice.
   */
  lemma GeneralAgainAppends(ns: seq<LoopNode>, base: int, h: Handler, r: Reg, again: Handler, b: int, i: int)
    requires WfLoops(ns) && base != ANY && again.fn == h.fn && Proper(r.base, r.id) && (r.base != base || r.id != ANY)
    requires CutsGeneral(Register(ns, base, ANY, h), r, base)
    ensures var m := Register(Register(ns, base, ANY, h), r.base, r.id, r.handler);
      Dispatch(Register(m, base, ANY, again), b, i) ==
        Dispatch(m, b, i) + One(Meant(base, ANY, b, i), Reg(base, ANY, again))
  {
    hide Takes, Register, Fresh, Dispatch;
    var first := Register(ns, base, ANY, h);
    RegisterWf(ns, base, ANY, h);
    RegisterWf(first, r.base, r.id, r.handler);
    TakesGeneral(first, r, base);
    NothingIsFresh(h.fn);
    RegisterAppends(Register(first, r.base, r.id, r.handler), base, ANY, again, b, i);
  }
}
