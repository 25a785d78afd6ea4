/**
 * The handler registry of an event loop: a list of loop nodes, each with handlers for every event and a
 * list of base nodes, each with handlers for a base and a list of id nodes. What it should be is one flat
 * list of registrations in order.
 */
module EventRegistry {

  /** `ESP_EVENT_ANY_BASE` and `ESP_EVENT_ANY_ID`. */
  const ANY: int := -1

  datatype Handler = Handler(fn: int, arg: int)
  datatype IdNode = IdNode(id: int, handlers: seq<Handler>)
  datatype BaseNode = BaseNode(base: int, handlers: seq<Handler>, ids: seq<IdNode>)
  datatype LoopNode = LoopNode(handlers: seq<Handler>, bases: seq<BaseNode>)

  /** A registration; two of them are the same triple when they differ in the argument only. */
  datatype Reg = Reg(base: int, id: int, handler: Handler)
  datatype Key = Key(base: int, id: int, fn: int)

  function KeyOf(r: Reg): Key {
    Key(r.base, r.id, r.handler.fn)
  }

  /** Whether handlers registered for (`base`, `id`) are meant for an event (`b`, `i`). */
  predicate Meant(base: int, id: int, b: int, i: int) {
    (base == ANY && id == ANY) || (base == b && (id == ANY || id == i))
  }

  // ---------------------------------------------------------------- flat lists

  /** The registrations in `rs` that an event (`b`, `i`) concerns. */
  function Matching(rs: seq<Reg>, b: int, i: int): seq<Reg> {
    if rs == [] then []
    else (if Meant(rs[0].base, rs[0].id, b, i) then [rs[0]] else []) + Matching(rs[1..], b, i)
  }

  function Without(rs: seq<Reg>, t: Key): seq<Reg> {
    if rs == [] then [] else (if KeyOf(rs[0]) == t then [] else [rs[0]]) + Without(rs[1..], t)
  }

  predicate Has(rs: seq<Reg>, t: Key) {
    exists k :: 0 <= k < |rs| && KeyOf(rs[k]) == t
  }

  /** How often the triple occurs. */
  function Occurs(rs: seq<Reg>, t: Key): nat {
    if rs == [] then 0 else (if KeyOf(rs[0]) == t then 1 else 0) + Occurs(rs[1..], t)
  }

  /** The list without those occurrences of the triple that are marked as gone, in their order. */
  function Drop(rs: seq<Reg>, t: Key, gone: seq<bool>): seq<Reg> {
    if rs == [] || gone == [] then rs
    else if KeyOf(rs[0]) != t then [rs[0]] + Drop(rs[1..], t, gone)
    else (if gone[0] then [] else [rs[0]]) + Drop(rs[1..], t, gone[1..])
  }

  /** The last registration of the triple gets the new argument. */
  function ReplaceLast(rs: seq<Reg>, r: Reg): seq<Reg> {
    if rs == [] then []
    else
      var n := |rs| - 1;
      if KeyOf(rs[n]) == KeyOf(r) then rs[..n] + [r] else ReplaceLast(rs[..n], r) + [rs[n]]
  }

  lemma {:induction false} MatchingAppend(a: seq<Reg>, c: seq<Reg>, b: int, i: int)
    ensures Matching(a + c, b, i) == Matching(a, b, i) + Matching(c, b, i)
  {
    var ac := a + c;
    if a == [] {
      assert ac == c;
    } else {
      var head := if Meant(a[0].base, a[0].id, b, i) then [a[0]] else [];
      assert ac[0] == a[0] && ac[1..] == a[1..] + c;
      calc {
        Matching(ac, b, i);
        head + Matching(ac[1..], b, i);
        { MatchingAppend(a[1..], c, b, i); }
        head + (Matching(a[1..], b, i) + Matching(c, b, i));
        (head + Matching(a[1..], b, i)) + Matching(c, b, i);
      }
    }
  }

  lemma {:induction false} WithoutAppend(a: seq<Reg>, c: seq<Reg>, t: Key)
    ensures Without(a + c, t) == Without(a, t) + Without(c, t)
  {
    var ac := a + c;
    if a == [] {
      assert ac == c;
    } else {
      var head := if KeyOf(a[0]) == t then [] else [a[0]];
      assert ac[0] == a[0] && ac[1..] == a[1..] + c;
      calc {
        Without(ac, t);
        head + Without(ac[1..], t);
        { WithoutAppend(a[1..], c, t); }
        head + (Without(a[1..], t) + Without(c, t));
        (head + Without(a[1..], t)) + Without(c, t);
      }
    }
  }

  lemma {:induction false} WithoutNone(rs: seq<Reg>, t: Key)
    requires !Has(rs, t)
    ensures Without(rs, t) == rs
  {
    if rs != [] {
      assert KeyOf(rs[0]) != t;
      assert forall k :: 0 <= k < |rs[1..]| ==> rs[1..][k] == rs[k + 1];
      WithoutNone(rs[1..], t);
      assert [rs[0]] + rs[1..] == rs;
    }
  }

  lemma HasAppend(a: seq<Reg>, c: seq<Reg>, t: Key)
    ensures Has(a + c, t) <==> Has(a, t) || Has(c, t)
  {
    var ac := a + c;
    if Has(a, t) {
      var k :| 0 <= k < |a| && KeyOf(a[k]) == t;
      assert KeyOf(ac[k]) == t;
    }
    if Has(c, t) {
      var k :| 0 <= k < |c| && KeyOf(c[k]) == t;
      assert KeyOf(ac[|a| + k]) == t;
    }
  }

  lemma {:induction false} OccursAppend(a: seq<Reg>, c: seq<Reg>, t: Key)
    ensures Occurs(a + c, t) == Occurs(a, t) + Occurs(c, t)
  {
    if a == [] {
      assert a + c == c;
    } else {
      assert (a + c)[1..] == a[1..] + c;
      OccursAppend(a[1..], c, t);
    }
  }

  lemma {:induction false} OccursNone(rs: seq<Reg>, t: Key)
    ensures Occurs(rs, t) == 0 <==> !Has(rs, t)
  {
    if rs != [] {
      assert rs == [rs[0]] + rs[1..] && [rs[0]][0] == rs[0];
      HasAppend([rs[0]], rs[1..], t);
      OccursNone(rs[1..], t);
    }
  }

  lemma {:induction false} DropAppend(a: seq<Reg>, c: seq<Reg>, t: Key, g1: seq<bool>, g2: seq<bool>)
    requires |g1| == Occurs(a, t)
    ensures Drop(a + c, t, g1 + g2) == Drop(a, t, g1) + Drop(c, t, g2)
  {
    if a == [] {
      assert a + c == c && g1 + g2 == g2;
    } else {
      var ac, tail := a + c, a[1..];
      assert ac[0] == a[0] && ac[1..] == tail + c;
      if KeyOf(a[0]) == t {
        assert (g1 + g2)[0] == g1[0] && (g1 + g2)[1..] == g1[1..] + g2;
        DropAppend(tail, c, t, g1[1..], g2);
      } else {
        DropAppend(tail, c, t, g1, g2);
        assert [a[0]] + tail == a;
      }
    }
  }

  lemma {:induction false} DropNone(rs: seq<Reg>, t: Key, gone: seq<bool>)
    requires Occurs(rs, t) == 0
    ensures Drop(rs, t, gone) == rs
  {
    if rs != [] {
      DropNone(rs[1..], t, gone);
    }
  }

  /** A triple that occurs once and goes is gone. */
  lemma {:induction false} DropOne(rs: seq<Reg>, t: Key, gone: seq<bool>)
    requires Occurs(rs, t) <= 1 && (Occurs(rs, t) == 1 ==> gone != [] && gone[0])
    ensures Drop(rs, t, gone) == Without(rs, t)
  {
    OccursNone(rs, t);
    if Occurs(rs, t) == 0 {
      WithoutNone(rs, t);
      DropNone(rs, t, gone);
    } else if KeyOf(rs[0]) == t {
      OccursNone(rs[1..], t);
      WithoutNone(rs[1..], t);
      DropNone(rs[1..], t, gone[1..]);
    } else {
      DropOne(rs[1..], t, gone);
    }
  }

  lemma {:induction false} DropKept(rs: seq<Reg>, t: Key, gone: seq<bool>)
    requires forall k :: 0 <= k < |gone| ==> !gone[k]
    ensures Drop(rs, t, gone) == rs
  {
    if rs != [] && gone != [] {
      DropKept(rs[1..], t, if KeyOf(rs[0]) == t then gone[1..] else gone);
    }
  }

  /** Dropping from the flat list is dropping from what every event gets. */
  lemma {:induction false} MatchingDrop(rs: seq<Reg>, t: Key, gone: seq<bool>, b: int, i: int)
    ensures Matching(Drop(rs, t, gone), b, i) == Drop(Matching(rs, b, i), t, gone)
  {
    if rs != [] && gone != [] {
      var head, tail := rs[0], rs[1..];
      var left := if KeyOf(head) == t then gone[1..] else gone;
      var kept := if KeyOf(head) == t && gone[0] then [] else [head];
      MatchingDrop(tail, t, left, b, i);
      MatchingOne(head, b, i);
      MatchingAppend(kept, Drop(tail, t, left), b, i);
      assert rs == [head] + tail;
      MatchingAppend([head], tail, b, i);
      if !Meant(t.base, t.id, b, i) {
        NotMeantNone(tail, t, b, i);
        NotMeantNone(rs, t, b, i);
        OccursNone(Matching(tail, b, i), t);
        OccursNone(Matching(rs, b, i), t);
        DropNone(Matching(tail, b, i), t, left);
        DropNone(Matching(rs, b, i), t, gone);
      } else if Meant(head.base, head.id, b, i) {
        assert ([head] + Matching(tail, b, i))[1..] == Matching(tail, b, i);
      } else {
        assert [] + Matching(tail, b, i) == Matching(tail, b, i);
      }
      hide Meant, Matching, Has;
      assert Matching([], b, i) == [];
    }
  }

  lemma {:induction false} ReplaceAppend(a: seq<Reg>, c: seq<Reg>, r: Reg)
    ensures ReplaceLast(a + c, r) == if Has(c, KeyOf(r)) then a + ReplaceLast(c, r) else ReplaceLast(a, r) + c
    decreases |c|
  {
    if c == [] {
      assert a + c == a;
    } else {
      var n, ac := |c| - 1, a + c;
      var front, last := c[..n], c[n];
      assert ac[..|ac| - 1] == a + front && ac[|ac| - 1] == last && c == front + [last];
      HasAppend(front, [last], KeyOf(r));
      assert [last][0] == last;
      ReplaceAppend(a, front, r);
    }
  }

  lemma {:induction false} ReplaceNone(rs: seq<Reg>, r: Reg)
    requires !Has(rs, KeyOf(r))
    ensures ReplaceLast(rs, r) == rs
  {
    assert [] + rs == rs;
    ReplaceAppend([], rs, r);
  }

  /** Replacing in the flat list is replacing in what every event gets. */
  lemma {:induction false} MatchingReplace(rs: seq<Reg>, r: Reg, b: int, i: int)
    ensures Matching(ReplaceLast(rs, r), b, i) == ReplaceLast(Matching(rs, b, i), r)
    decreases |rs|
  {
    if rs != [] {
      var n := |rs| - 1;
      var front, last := rs[..n], rs[n];
      assert rs == front + [last];
      MatchingAppend(front, [last], b, i);
      MatchingAppend(front, [r], b, i);
      MatchingAppend(ReplaceLast(front, r), [last], b, i);
      MatchingReplace(front, r, b, i);
      MatchingOne(last, b, i);
      MatchingOne(r, b, i);
      var m, x := Matching(front, b, i), Matching([last], b, i);
      if KeyOf(last) != KeyOf(r) {
        ReplaceAppend(m, x, r);
      } else if Meant(r.base, r.id, b, i) {
        assert (m + [last])[..|m|] == m;
      } else {
        NotMeantNone(rs, KeyOf(r), b, i);
        ReplaceNone(Matching(rs, b, i), r);
        assert m + [] == m;
      }
      hide Matching, Meant;
    }
  }

  lemma MatchingOne(r: Reg, b: int, i: int)
    ensures Matching([r], b, i) == if Meant(r.base, r.id, b, i) then [r] else []
  {
    assert [r][1..] == [];
  }

  lemma NotMeantNone(rs: seq<Reg>, t: Key, b: int, i: int)
    requires !Meant(t.base, t.id, b, i)
    ensures !Has(Matching(rs, b, i), t)
  {
    MatchingMembers(rs, b, i);
    var m := Matching(rs, b, i);
    forall k | 0 <= k < |m|
      ensures KeyOf(m[k]) != t
    {
      assert m[k] in m;
    }
  }

  lemma {:induction false} MatchingWithout(rs: seq<Reg>, t: Key, b: int, i: int)
    ensures Matching(Without(rs, t), b, i) == Without(Matching(rs, b, i), t)
  {
    if rs != [] {
      MatchingWithout(rs[1..], t, b, i);
      var r, w, m := rs[0], Without(rs[1..], t), Matching(rs[1..], b, i);
      var kept := if KeyOf(r) == t then [] else [r];
      var meant := if Meant(r.base, r.id, b, i) then [r] else [];
      MatchingAppend(kept, w, b, i);
      WithoutAppend(meant, m, t);
      assert [r][1..] == [];
      assert Matching(kept, b, i) == Without(meant, t);
    }
  }

  lemma {:induction false} MatchingMembers(rs: seq<Reg>, b: int, i: int)
    ensures forall r :: r in Matching(rs, b, i) <==> r in rs && Meant(r.base, r.id, b, i)
  {
    if rs != [] {
      MatchingMembers(rs[1..], b, i);
      assert rs == [rs[0]] + rs[1..];
    }
  }

  lemma {:induction false} MatchingOccurs(rs: seq<Reg>, t: Key, b: int, i: int)
    ensures Occurs(Matching(rs, b, i), t) == if Meant(t.base, t.id, b, i) then Occurs(rs, t) else 0
  {
    if rs != [] {
      var head, tail := rs[0], rs[1..];
      assert rs == [head] + tail;
      MatchingOccurs(tail, t, b, i);
      OccursAppend(if Meant(head.base, head.id, b, i) then [head] else [], Matching(tail, b, i), t);
      assert [head][1..] == [] && Occurs([], t) == 0;
    }
  }

  // ---------------------------------------------------------------- dispatch

  function Tag(hs: seq<Handler>, base: int, id: int): (r: seq<Reg>)
    ensures |r| == |hs| && forall k :: 0 <= k < |hs| ==> r[k] == Reg(base, id, hs[k])
  {
    seq(|hs|, k requires 0 <= k < |hs| => Reg(base, id, hs[k]))
  }

  /** The handlers that `esp_event_loop_run` executes for an event, in order: of the first id node that fits, */
  function DispIds(ids: seq<IdNode>, b: int, i: int): seq<Reg> {
    if ids == [] then []
    else if ids[0].id == i then Tag(ids[0].handlers, b, i)
    else DispIds(ids[1..], b, i)
  }

  function DispBase(n: BaseNode, b: int, i: int): seq<Reg> {
    if n.base == b then Tag(n.handlers, b, ANY) + DispIds(n.ids, b, i) else []
  }

  /** of every base node that fits, */
  function DispBases(bs: seq<BaseNode>, b: int, i: int): seq<Reg> {
    if bs == [] then [] else DispBase(bs[0], b, i) + DispBases(bs[1..], b, i)
  }

  function DispLoop(n: LoopNode, b: int, i: int): seq<Reg> {
    Tag(n.handlers, ANY, ANY) + DispBases(n.bases, b, i)
  }

  /** and of every loop node. */
  function Dispatch(ns: seq<LoopNode>, b: int, i: int): seq<Reg> {
    if ns == [] then [] else DispLoop(ns[0], b, i) + Dispatch(ns[1..], b, i)
  }

  lemma {:induction false} DispBasesAppend(a: seq<BaseNode>, c: seq<BaseNode>, b: int, i: int)
    ensures DispBases(a + c, b, i) == DispBases(a, b, i) + DispBases(c, b, i)
  {
    var ac := a + c;
    if a == [] {
      assert ac == c;
    } else {
      assert ac[0] == a[0] && ac[1..] == a[1..] + c;
      calc {
        DispBases(ac, b, i);
        DispBase(a[0], b, i) + DispBases(ac[1..], b, i);
        { DispBasesAppend(a[1..], c, b, i); }
        DispBase(a[0], b, i) + (DispBases(a[1..], b, i) + DispBases(c, b, i));
        (DispBase(a[0], b, i) + DispBases(a[1..], b, i)) + DispBases(c, b, i);
      }
    }
  }

  lemma {:induction false} DispatchAppend(a: seq<LoopNode>, c: seq<LoopNode>, b: int, i: int)
    ensures Dispatch(a + c, b, i) == Dispatch(a, b, i) + Dispatch(c, b, i)
  {
    var ac := a + c;
    if a == [] {
      assert ac == c;
    } else {
      assert ac[0] == a[0] && ac[1..] == a[1..] + c;
      calc {
        Dispatch(ac, b, i);
        DispLoop(a[0], b, i) + Dispatch(ac[1..], b, i);
        { DispatchAppend(a[1..], c, b, i); }
        DispLoop(a[0], b, i) + (Dispatch(a[1..], b, i) + Dispatch(c, b, i));
        (DispLoop(a[0], b, i) + Dispatch(a[1..], b, i)) + Dispatch(c, b, i);
      }
    }
  }

  // ---------------------------------------------------------------- well-formed nodes

  predicate WfHandlers(hs: seq<Handler>) {
    forall j, k :: 0 <= j < k < |hs| ==> hs[j].fn != hs[k].fn
  }

  /** Id nodes are not empty, and there is one per id. */
  predicate WfIds(ids: seq<IdNode>) {
    && (forall k :: 0 <= k < |ids| ==> ids[k].id != ANY && ids[k].handlers != [] && WfHandlers(ids[k].handlers))
    && (forall j, k :: 0 <= j < k < |ids| ==> ids[j].id != ids[k].id)
  }

  predicate WfBase(n: BaseNode) {
    n.base != ANY && WfHandlers(n.handlers) && WfIds(n.ids) && (n.handlers != [] || n.ids != [])
  }

  predicate WfBases(bs: seq<BaseNode>) {
    forall k :: 0 <= k < |bs| ==> WfBase(bs[k])
  }

  predicate WfLoop(n: LoopNode) {
    WfHandlers(n.handlers) && WfBases(n.bases) && (n.handlers != [] || n.bases != [])
  }

  predicate WfLoops(ns: seq<LoopNode>) {
    forall k :: 0 <= k < |ns| ==> WfLoop(ns[k])
  }

  // ---------------------------------------------------------------- registering

  /** `handler_instances_add`: a handler that is there already only changes its argument. */
  function HandlersAdd(hs: seq<Handler>, h: Handler): seq<Handler> {
    if hs == [] then [h]
    else if hs[0].fn == h.fn then [h] + hs[1..]
    else [hs[0]] + HandlersAdd(hs[1..], h)
  }

  function FindId(ids: seq<IdNode>, id: int, from: nat): (k: nat)
    requires from <= |ids|
    ensures from <= k <= |ids|
    ensures k < |ids| ==> ids[k].id == id
    ensures forall j :: from <= j < k ==> ids[j].id != id
    decreases |ids| - from
  {
    if from == |ids| || ids[from].id == id then from else FindId(ids, id, from + 1)
  }

  /** The last base node of a base, or -1. */
  function LastBase(bs: seq<BaseNode>, base: int): (k: int)
    ensures -1 <= k < |bs|
    ensures k >= 0 ==> bs[k].base == base
    ensures forall j :: k < j < |bs| ==> bs[j].base != base
  {
    if bs == [] then -1
    else if bs[|bs| - 1].base == base then |bs| - 1
    else LastBase(bs[..|bs| - 1], base)
  }

  /** `base_node_add_handler`. */
  function BaseAdd(n: BaseNode, id: int, h: Handler): BaseNode {
    if id == ANY then n.(handlers := HandlersAdd(n.handlers, h))
    else
      var k := FindId(n.ids, id, 0);
      if k == |n.ids| then n.(ids := n.ids + [IdNode(id, [h])])
      else n.(ids := n.ids[k := n.ids[k].(handlers := HandlersAdd(n.ids[k].handlers, h))])
  }

  /** When `loop_node_add_handler` starts a new base node: a general handler must not get before specific ones. */
  predicate NeedsNewBase(bs: seq<BaseNode>, base: int, id: int) {
    var k := LastBase(bs, base);
    || k < 0
    || (bs[k].ids != [] && id == ANY)
    || (bs[|bs| - 1].base != base && bs[|bs| - 1].ids != [] && id == ANY)
  }

  /** `loop_node_add_handler`. */
  function LoopAdd(n: LoopNode, base: int, id: int, h: Handler): LoopNode {
    if base == ANY && id == ANY then n.(handlers := HandlersAdd(n.handlers, h))
    else if NeedsNewBase(n.bases, base, id) then n.(bases := n.bases + [BaseAdd(BaseNode(base, [], []), id, h)])
    else
      var k := LastBase(n.bases, base);
      n.(bases := n.bases[k := BaseAdd(n.bases[k], id, h)])
  }

  /** `esp_event_handler_register_with`. */
  function Register(ns: seq<LoopNode>, base: int, id: int, h: Handler): seq<LoopNode> {
    if ns == [] || (ns[|ns| - 1].bases != [] && base == ANY && id == ANY)
    then ns + [LoopAdd(LoopNode([], []), base, id, h)]
    else ns[|ns| - 1 := LoopAdd(ns[|ns| - 1], base, id, h)]
  }

  /** The list of handlers that a registration goes to: empty for a new node. */
  function BaseTakes(n: BaseNode, id: int): seq<Handler> {
    if id == ANY then n.handlers
    else
      var k := FindId(n.ids, id, 0);
      if k == |n.ids| then [] else n.ids[k].handlers
  }

  function LoopTakes(n: LoopNode, base: int, id: int): seq<Handler> {
    if base == ANY && id == ANY then n.handlers
    else if NeedsNewBase(n.bases, base, id) then []
    else BaseTakes(n.bases[LastBase(n.bases, base)], id)
  }

  function Takes(ns: seq<LoopNode>, base: int, id: int): seq<Handler> {
    if ns == [] || (ns[|ns| - 1].bases != [] && base == ANY && id == ANY) then []
    else LoopTakes(ns[|ns| - 1], base, id)
  }

  // ---------------------------------------------------------------- unregistering

  /** `handler_instances_remove`. */
  function HandlersRemove(hs: seq<Handler>, fn: int): (r: (seq<Handler>, bool)) {
    if hs == [] then ([], false)
    else if hs[0].fn == fn then (hs[1..], true)
    else ([hs[0]] + HandlersRemove(hs[1..], fn).0, HandlersRemove(hs[1..], fn).1)
  }

  /** The loop of `base_node_remove_handler`: success is reported only when an id node goes. */
  function IdsRemove(ids: seq<IdNode>, id: int, fn: int): (seq<IdNode>, bool) {
    if ids == [] then ([], false)
    else
      var r := if ids[0].id == id then HandlersRemove(ids[0].handlers, fn) else (ids[0].handlers, false);
      if r.1 && r.0 == [] then (ids[1..], true)
      else
        var rest := IdsRemove(ids[1..], id, fn);
        ([ids[0].(handlers := r.0)] + rest.0, rest.1)
  }

  function BaseRemove(n: BaseNode, id: int, fn: int): (BaseNode, bool) {
    if id == ANY then
      var r := HandlersRemove(n.handlers, fn);
      (n.(handlers := r.0), r.1)
    else
      var r := IdsRemove(n.ids, id, fn);
      (n.(ids := r.0), r.1)
  }

  /** The loop of `loop_node_remove_handler`: success is reported only when a base node goes. */
  function BasesRemove(bs: seq<BaseNode>, base: int, id: int, fn: int): (seq<BaseNode>, bool) {
    if bs == [] then ([], false)
    else
      var r := if bs[0].base == base then BaseRemove(bs[0], id, fn) else (bs[0], false);
      if r.1 && r.0.handlers == [] && r.0.ids == [] then (bs[1..], true)
      else
        var rest := BasesRemove(bs[1..], base, id, fn);
        ([r.0] + rest.0, rest.1)
  }

  function LoopRemove(n: LoopNode, base: int, id: int, fn: int): (LoopNode, bool) {
    if base == ANY && id == ANY then
      var r := HandlersRemove(n.handlers, fn);
      (n.(handlers := r.0), r.1)
    else
      var r := BasesRemove(n.bases, base, id, fn);
      (n.(bases := r.0), r.1)
  }

  /** `esp_event_handler_unregister_with`. */
  function Unregister(ns: seq<LoopNode>, base: int, id: int, fn: int): seq<LoopNode> {
    if ns == [] then []
    else
      var r := LoopRemove(ns[0], base, id, fn);
      if r.1 && r.0.bases == [] && r.0.handlers == [] then ns[1..]
      else [r.0] + Unregister(ns[1..], base, id, fn)
  }
}
