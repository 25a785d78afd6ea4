/** The event loop: its lists, walked and rebuilt by loops, and the flat list of registrations they stand for. */
module EventLoop {
  import opened Bytes
  import opened EventRegistry
  import opened EventRegistryProof
  import opened EventRegisterAgain
  import opened EventRemoval
  import opened EventHistory

  datatype Result = Ok | InvalidArg | Fail

  // ---------------------------------------------------------------- registering

  /** `handler_instances_add`. */
  method HandlerInstancesAdd(hs: seq<Handler>, h: Handler) returns (r: seq<Handler>)
    ensures r == HandlersAdd(hs, h)
  {
    var k := 0;
    while k < |hs|
      invariant k <= |hs| && HandlersAdd(hs, h) == hs[..k] + HandlersAdd(hs[k..], h)
    {
      assert hs[k..][1..] == hs[k + 1..];
      if hs[k].fn == h.fn {
        assert hs[..k] + ([h] + hs[k + 1..]) == hs[k := h];
        return hs[k := h];
      }
      assert hs[..k] + ([hs[k]] + HandlersAdd(hs[k + 1..], h)) == hs[..k + 1] + HandlersAdd(hs[k + 1..], h);
      k := k + 1;
    }
    assert hs[..k] == hs;
    return hs + [h];
  }

  /** `base_node_add_handler`. */
  method BaseNodeAddHandler(n: BaseNode, id: int, h: Handler) returns (r: BaseNode)
    requires WfIds(n.ids)
    ensures r == BaseAdd(n, id, h)
  {
    if id == ANY {
      var hs := HandlerInstancesAdd(n.handlers, h);
      return n.(handlers := hs);
    }
    var found := |n.ids|;
    for k := 0 to |n.ids|
      invariant 0 <= found <= |n.ids| && (found < |n.ids| ==> found < k && n.ids[found].id == id)
      invariant found == |n.ids| ==> forall j :: 0 <= j < k ==> n.ids[j].id != id
    {
      if n.ids[k].id == id {
        found := k;
      }
    }
    FindIdUnique(n.ids, id, 0, found);
    if found == |n.ids| {
      return n.(ids := n.ids + [IdNode(id, [h])]);
    }
    var hs := HandlerInstancesAdd(n.ids[found].handlers, h);
    return n.(ids := n.ids[found := n.ids[found].(handlers := hs)]);
  }

  /** `loop_node_add_handler`. */
  method LoopNodeAddHandler(n: LoopNode, base: int, id: int, h: Handler) returns (r: LoopNode)
    requires WfLoop(n) || n == LoopNode([], [])
    ensures r == LoopAdd(n, base, id, h)
  {
    if base == ANY && id == ANY {
      var hs := HandlerInstancesAdd(n.handlers, h);
      return n.(handlers := hs);
    }
    var baseNode := -1;
    for k := 0 to |n.bases|
      invariant baseNode == LastBase(n.bases[..k], base)
    {
      assert n.bases[..k + 1][..k] == n.bases[..k];
      if n.bases[k].base == base {
        baseNode := k;
      }
    }
    assert n.bases[..|n.bases|] == n.bases;
    if baseNode < 0 || (n.bases[baseNode].ids != [] && id == ANY)
      || (n.bases[|n.bases| - 1].base != base && n.bases[|n.bases| - 1].ids != [] && id == ANY)
    {
      var m := BaseNodeAddHandler(BaseNode(base, [], []), id, h);
      return n.(bases := n.bases + [m]);
    }
    var m := BaseNodeAddHandler(n.bases[baseNode], id, h);
    return n.(bases := n.bases[baseNode := m]);
  }

  // ---------------------------------------------------------------- unregistering

  /** `handler_instances_remove`. */
  method HandlerInstancesRemove(hs: seq<Handler>, fn: int) returns (r: seq<Handler>, ok: bool)
    ensures (r, ok) == HandlersRemove(hs, fn)
  {
    var k := 0;
    assert hs[0..] == hs && [] + HandlersRemove(hs, fn).0 == HandlersRemove(hs, fn).0;
    while k < |hs|
      invariant k <= |hs|
      invariant HandlersRemove(hs, fn) == (hs[..k] + HandlersRemove(hs[k..], fn).0, HandlersRemove(hs[k..], fn).1)
    {
      assert hs[k..][1..] == hs[k + 1..];
      if hs[k].fn == fn {
        return hs[..k] + hs[k + 1..], true;
      }
      assert hs[..k] + ([hs[k]] + HandlersRemove(hs[k + 1..], fn).0) == hs[..k + 1] + HandlersRemove(hs[k + 1..], fn).0;
      k := k + 1;
    }
    assert hs[..k] + [] == hs;
    return hs, false;
  }

  /** One turn of the loop of `base_node_remove_handler`. */
  lemma IdsRemoveTurn(ids: seq<IdNode>, k: nat, id: int, fn: int)
    requires k <= |ids|
    ensures k == |ids| ==> IdsRemove(ids[k..], id, fn) == ([], false)
    ensures k < |ids| ==>
      var r := if ids[k].id == id then HandlersRemove(ids[k].handlers, fn) else (ids[k].handlers, false);
      var rest := IdsRemove(ids[k + 1..], id, fn);
      IdsRemove(ids[k..], id, fn) ==
        if r.1 && r.0 == [] then (ids[k + 1..], true) else ([ids[k].(handlers := r.0)] + rest.0, rest.1)
  {
    hide HandlersRemove;
    if k < |ids| {
      assert ids[k..][0] == ids[k] && ids[k..][1..] == ids[k + 1..];
    }
  }

  /** `base_node_remove_handler`. */
  method BaseNodeRemoveHandler(n: BaseNode, id: int, fn: int) returns (r: BaseNode, ok: bool)
    ensures (r, ok) == BaseRemove(n, id, fn)
  {
    if id == ANY {
      var hs, found := HandlerInstancesRemove(n.handlers, fn);
      return n.(handlers := hs), found;
    }
    hide HandlersRemove, IdsRemove;
    var ids := n.ids;
    var kept: seq<IdNode>, k := [], 0;
    assert ids[0..] == ids && [] + IdsRemove(ids, id, fn).0 == IdsRemove(ids, id, fn).0;
    while k < |ids|
      invariant k <= |ids|
      invariant IdsRemove(ids, id, fn) == (kept + IdsRemove(ids[k..], id, fn).0, IdsRemove(ids[k..], id, fn).1)
    {
      IdsRemoveTurn(ids, k, id, fn);
      var hs, found := ids[k].handlers, false;
      if ids[k].id == id {
        hs, found := HandlerInstancesRemove(ids[k].handlers, fn);
        if found && hs == [] {
          return n.(ids := kept + ids[k + 1..]), true;
        }
      }
      var node := ids[k].(handlers := hs);
      Associative(kept, [node], IdsRemove(ids[k + 1..], id, fn).0);
      kept := kept + [node];
      k := k + 1;
    }
    IdsRemoveTurn(ids, k, id, fn);
    assert kept + [] == kept;
    return n.(ids := kept), false;
  }

  /** `loop_node_remove_handler`. */
  method LoopNodeRemoveHandler(n: LoopNode, base: int, id: int, fn: int) returns (r: LoopNode, ok: bool)
    ensures (r, ok) == LoopRemove(n, base, id, fn)
  {
    if base == ANY && id == ANY {
      var hs, found := HandlerInstancesRemove(n.handlers, fn);
      return n.(handlers := hs), found;
    }
    hide BaseRemove;
    var bs := n.bases;
    var kept: seq<BaseNode>, k := [], 0;
    assert bs[0..] == bs && [] + BasesRemove(bs, base, id, fn).0 == BasesRemove(bs, base, id, fn).0;
    while k < |bs|
      invariant k <= |bs|
      invariant BasesRemove(bs, base, id, fn) ==
        (kept + BasesRemove(bs[k..], base, id, fn).0, BasesRemove(bs[k..], base, id, fn).1)
    {
      assert bs[k..][0] == bs[k] && bs[k..][1..] == bs[k + 1..];
      var node, res := bs[k], false;
      if bs[k].base == base {
        node, res := BaseNodeRemoveHandler(bs[k], id, fn);
        if res && node.handlers == [] && node.ids == [] {
          return n.(bases := kept + bs[k + 1..]), true;
        }
      }
      Associative(kept, [node], BasesRemove(bs[k + 1..], base, id, fn).0);
      kept := kept + [node];
      k := k + 1;
    }
    assert kept + [] == kept;
    return n.(bases := kept), false;
  }

  /** The loop of `esp_event_handler_unregister_with`: it ends with the first node that becomes empty. */
  method RemoveFromNodes(ns: seq<LoopNode>, base: int, id: int, fn: int) returns (r: seq<LoopNode>)
    ensures r == Unregister(ns, base, id, fn)
  {
    hide LoopRemove;
    var kept: seq<LoopNode>, k := [], 0;
    assert ns[0..] == ns && [] + Unregister(ns, base, id, fn) == Unregister(ns, base, id, fn);
    while k < |ns|
      invariant k <= |ns| && Unregister(ns, base, id, fn) == kept + Unregister(ns[k..], base, id, fn)
    {
      assert ns[k..][0] == ns[k] && ns[k..][1..] == ns[k + 1..];
      var node, ok := LoopNodeRemoveHandler(ns[k], base, id, fn);
      if ok && node.bases == [] && node.handlers == [] {
        return kept + ns[k + 1..];
      }
      Associative(kept, [node], Unregister(ns[k + 1..], base, id, fn));
      kept := kept + [node];
      k := k + 1;
    }
    assert kept + [] == kept;
    return kept;
  }

  // ---------------------------------------------------------------- the loop

  class Loop {
    var nodes: seq<LoopNode>
    /** The live registrations in the order in which they were made; a triple may occur more than once. */
    ghost var flat: seq<Reg>

    ghost predicate Valid()
      reads this
    {
      && WfLoops(nodes)
      && forall b, i :: Dispatch(nodes, b, i) == Matching(flat, b, i)
    }

    constructor ()
      ensures Valid() && flat == []
    {
      nodes, flat := [], [];
    }

    /**
     * `esp_event_handler_register_with`. A triple that is registered already gets its new argument in place where
     * the list it goes to has it, and is registered once more otherwise.
     */
    method RegisterWith(base: int, id: int, h: Handler) returns (res: Result)
      requires Valid()
      modifies this
      ensures Valid()
      ensures res == if base == ANY && id != ANY then InvalidArg else Ok
      ensures flat ==
        if res != Ok then old(flat)
        else if Fresh(Takes(old(nodes), base, id), h.fn) then old(flat) + [Reg(base, id, h)]
        else ReplaceLast(old(flat), Reg(base, id, h))
      ensures nodes == if res == Ok then Register(old(nodes), base, id, h) else old(nodes)
      ensures res == Ok && !Has(old(flat), Key(base, id, h.fn)) ==> flat == old(flat) + [Reg(base, id, h)]
    {
      if base == ANY && id != ANY {
        return InvalidArg;
      }
      Registered(nodes, flat, base, id, h);
      RegisterIs(nodes, base, id, h);
      hide Dispatch, Matching, Has, LoopAdd, WfLoop, Takes, Fresh, ReplaceLast, Register;
      ghost var again := !Fresh(Takes(nodes, base, id), h.fn);
      if |nodes| == 0 || (nodes[|nodes| - 1].bases != [] && base == ANY && id == ANY) {
        var m := LoopNodeAddHandler(LoopNode([], []), base, id, h);
        nodes := nodes + [m];
      } else {
        var m := LoopNodeAddHandler(nodes[|nodes| - 1], base, id, h);
        nodes := nodes[|nodes| - 1 := m];
      }
      flat := if again then ReplaceLast(flat, Reg(base, id, h)) else flat + [Reg(base, id, h)];
      return Ok;
    }

    /** A new triple that is registered twice in a row is there once, with its last argument. */
    method RegisterTwice(base: int, id: int, h: Handler, again: Handler)
      requires Valid() && Proper(base, id) && again.fn == h.fn && !Has(flat, Key(base, id, h.fn))
      modifies this
      ensures Valid() && flat == old(flat) + [Reg(base, id, again)]
    {
      hide Dispatch, Matching, Has, Takes, Fresh, Register;
      TakesSame(nodes, base, id, h);
      HandlersAddFreshIff(Takes(nodes, base, id), h, h.fn);
      var _ := RegisterWith(base, id, h);
      assert flat[..|flat| - 1] == old(flat);
      var _ := RegisterWith(base, id, again);
    }

    /** `esp_event_handler_unregister_with`. A triple that is registered twice may stay behind, but its first goes. */
    method UnregisterWith(base: int, id: int, fn: int) returns (res: Result)
      requires Valid()
      modifies this
      ensures Valid()
      ensures res == if base == ANY && id != ANY then Fail else Ok
      ensures flat ==
        if res == Ok then Drop(old(flat), Key(base, id, fn), Gone(old(nodes), base, id, fn)) else old(flat)
      ensures nodes == if res == Ok then Unregister(old(nodes), base, id, fn) else old(nodes)
      ensures res == Ok && Occurs(old(flat), Key(base, id, fn)) <= 1 ==> flat == Without(old(flat), Key(base, id, fn))
    {
      if base == ANY && id != ANY {
        return Fail;
      }
      Unregistered(nodes, flat, base, id, fn);
      hide Dispatch, Matching, Without, WfLoops, Drop, Occurs, Gone;
      flat := Drop(flat, Key(base, id, fn), Gone(nodes, base, id, fn));
      nodes := RemoveFromNodes(nodes, base, id, fn);
      return Ok;
    }

    /** The handlers that `esp_event_loop_run` executes for one posted event, in the order of execution. */
    method Run(b: int, i: int) returns (executed: seq<Reg>)
      requires Valid()
      ensures executed == Matching(flat, b, i)
    {
      executed := [];
      assert nodes[0..] == nodes;
      for k := 0 to |nodes|
        invariant executed + Dispatch(nodes[k..], b, i) == Dispatch(nodes, b, i)
      {
        assert nodes[k..][0] == nodes[k] && nodes[k..][1..] == nodes[k + 1..];
        var more := RunNode(nodes[k], b, i);
        Associative(executed, more, Dispatch(nodes[k + 1..], b, i));
        executed := executed + more;
      }
    }
  }

  method RunHandlers(hs: seq<Handler>, base: int, id: int) returns (executed: seq<Reg>)
    ensures executed == Tag(hs, base, id)
  {
    executed := [];
    for k := 0 to |hs|
      invariant executed == Tag(hs[..k], base, id)
    {
      executed := executed + [Reg(base, id, hs[k])];
    }
    assert hs[..|hs|] == hs;
  }

  method RunIds(ids: seq<IdNode>, b: int, i: int) returns (executed: seq<Reg>)
    ensures executed == DispIds(ids, b, i)
  {
    assert ids[0..] == ids;
    for k := 0 to |ids|
      invariant DispIds(ids, b, i) == DispIds(ids[k..], b, i)
    {
      assert ids[k..][0] == ids[k] && ids[k..][1..] == ids[k + 1..];
      if ids[k].id == i {
        executed := RunHandlers(ids[k].handlers, b, i);
        return;
      }
    }
    return [];
  }

  /** What one base node of a loop node contributes. */
  method RunBase(n: BaseNode, b: int, i: int) returns (executed: seq<Reg>)
    ensures executed == DispBase(n, b, i)
  {
    executed := [];
    if n.base == b {
      executed := RunHandlers(n.handlers, b, ANY);
      var ids := RunIds(n.ids, b, i);
      executed := executed + ids;
    }
  }

  /** The body of the loop over the loop nodes. */
  method RunNode(n: LoopNode, b: int, i: int) returns (executed: seq<Reg>)
    ensures executed == DispLoop(n, b, i)
  {
    hide Tag, DispBase;
    executed := RunHandlers(n.handlers, ANY, ANY);
    var bs := n.bases;
    assert bs[0..] == bs;
    for k := 0 to |bs|
      invariant executed + DispBases(bs[k..], b, i) == DispLoop(n, b, i)
    {
      assert bs[k..][0] == bs[k] && bs[k..][1..] == bs[k + 1..];
      var more := RunBase(bs[k], b, i);
      Associative(executed, more, DispBases(bs[k + 1..], b, i));
      executed := executed + more;
    }
  }

  // ---------------------------------------------------------------- what the methods keep

  lemma Registered(ns: seq<LoopNode>, flat: seq<Reg>, base: int, id: int, h: Handler)
    requires WfLoops(ns) && (forall b, i :: Dispatch(ns, b, i) == Matching(flat, b, i)) && (base == ANY ==> id == ANY)
    ensures WfLoops(Register(ns, base, id, h))
    ensures !Has(flat, Key(base, id, h.fn)) ==> Fresh(Takes(ns, base, id), h.fn)
    ensures Fresh(Takes(ns, base, id), h.fn) ==>
      forall b, i :: Dispatch(Register(ns, base, id, h), b, i) == Matching(flat + [Reg(base, id, h)], b, i)
    ensures !Fresh(Takes(ns, base, id), h.fn) ==>
      forall b, i :: Dispatch(Register(ns, base, id, h), b, i) == Matching(ReplaceLast(flat, Reg(base, id, h)), b, i)
  {
    hide Dispatch, Register, Matching, Has, Takes, Fresh, WfLoops, ReplaceLast;
    var r, t := Reg(base, id, h), Key(base, id, h.fn);
    if !Has(flat, t) {
      NotHas(flat, t, base, id);
      NewIsFresh(ns, base, id, h.fn);
    }
    if Fresh(Takes(ns, base, id), h.fn) {
      RegisterAppends(ns, base, id, h, 0, 0);
      forall b, i
        ensures Dispatch(Register(ns, base, id, h), b, i) == Matching(flat + [r], b, i)
      {
        RegisterAppends(ns, base, id, h, b, i);
        MatchingAppend(flat, [r], b, i);
        MatchingOne(r, b, i);
      }
    } else {
      RegisterReplaces(ns, base, id, h, 0, 0);
      forall b, i
        ensures Dispatch(Register(ns, base, id, h), b, i) == Matching(ReplaceLast(flat, r), b, i)
      {
        RegisterReplaces(ns, base, id, h, b, i);
        MatchingReplace(flat, r, b, i);
      }
    }
  }

  lemma RegisterIs(ns: seq<LoopNode>, base: int, id: int, h: Handler)
    ensures Register(ns, base, id, h) ==
      if |ns| == 0 || (ns[|ns| - 1].bases != [] && base == ANY && id == ANY)
      then ns + [LoopAdd(LoopNode([], []), base, id, h)]
      else ns[|ns| - 1 := LoopAdd(ns[|ns| - 1], base, id, h)]
  {
    hide LoopAdd;
  }

  lemma NotHas(rs: seq<Reg>, t: Key, b: int, i: int)
    requires !Has(rs, t)
    ensures !Has(Matching(rs, b, i), t)
  {
    OccursNone(rs, t);
    MatchingOccurs(rs, t, b, i);
    OccursNone(Matching(rs, b, i), t);
  }

  lemma Unregistered(ns: seq<LoopNode>, flat: seq<Reg>, base: int, id: int, fn: int)
    requires WfLoops(ns) && (forall b, i :: Dispatch(ns, b, i) == Matching(flat, b, i)) && (base == ANY ==> id == ANY)
    ensures WfLoops(Unregister(ns, base, id, fn))
    ensures var t, gone := Key(base, id, fn), Gone(ns, base, id, fn);
      && |gone| == Occurs(flat, t) && (gone != [] ==> gone[0])
      && (forall b, i :: Dispatch(Unregister(ns, base, id, fn), b, i) == Matching(Drop(flat, t, gone), b, i))
      && (Occurs(flat, t) <= 1 ==> Drop(flat, t, gone) == Without(flat, t))
  {
    hide Dispatch, Unregister, Matching, Without, WfLoops, Drop, Occurs, Gone;
    var t, gone := Key(base, id, fn), Gone(ns, base, id, fn);
    UnregisterWf(ns, base, id, fn);
    UnregisterDrops(ns, base, id, fn, base, id);
    MatchingOccurs(flat, t, base, id);
    if gone != [] {
      FirstGoes(ns, base, id, fn);
    }
    forall b, i
      ensures Dispatch(Unregister(ns, base, id, fn), b, i) == Matching(Drop(flat, t, gone), b, i)
    {
      UnregisterDrops(ns, base, id, fn, b, i);
      MatchingDrop(flat, t, gone, b, i);
    }
    if Occurs(flat, t) <= 1 {
      DropOne(flat, t, gone);
    }
  }
}
