/** What names read as whose labels do not fill one slot each: instance names with dots, and subtypes. */
module MdnsNameForms {
  import opened Bytes
  import opened MdnsName
  import opened MdnsNameProof
  import opened MdnsNameRoom

  /** A label that the format can hold: 1 to 63 bytes, none of them 0. */
  predicate Label63(s: seq<byte>) {
    1 <= |s| <= 63 && NoZero(s)
  }

  predicate Labels63(strings: seq<seq<byte>>) {
    forall i :: 0 <= i < |strings| ==> Label63(strings[i])
  }

  /** The name written out behind `p`. */
  function Written(p: seq<byte>, strings: seq<seq<byte>>): seq<byte>
    requires Short(strings)
  {
    Plus(p, strings, |strings|) + [0]
  }

  /** What a written name reads as. */
  function ReadBack(p: seq<byte>, strings: seq<seq<byte>>): Option<(Name, nat)>
    requires Short(strings)
  {
    Read(Written(p, strings), |p|, |p|, FRESH)
  }

  function Fill(n: Name, strings: seq<seq<byte>>): Name {
    if strings == [] then n
    else AddLabel(Enter(Fill(n, strings[..|strings| - 1])), strings[|strings| - 1])
  }

  lemma {:induction false} WrittenFills(p: seq<byte>, r: seq<byte>, strings: seq<seq<byte>>, k: nat)
    requires k <= |strings| && Short(strings) && Labels63(strings) && Plus(p, strings, k) <= r
    ensures Read(r, |p|, |p|, FRESH) == Read(r, |p|, |Plus(p, strings, k)|, Fill(FRESH, strings[..k]))
    decreases k
  {
    hide Read, AddLabel, Plus;
    if k == 0 {
      PlusGrowsTo(p, strings, 0);
    } else {
      LastLabel(p, r, strings, k);
      WrittenFills(p, r, strings, k - 1);
      assert strings[..k][..k - 1] == strings[..k - 1] && strings[..k][k - 1] == strings[k - 1];
      ReadWhole(r, |p|, |Plus(p, strings, k - 1)|, Fill(FRESH, strings[..k - 1]), strings[k - 1]);
    }
  }

  lemma PlusGrowsTo(p: seq<byte>, strings: seq<seq<byte>>, k: nat)
    requires k <= |strings| && Short(strings)
    ensures k == 0 ==> Plus(p, strings, k) == p
  {
  }

  lemma ReadWhole(r: seq<byte>, segment: nat, pos: nat, n: Name, text: seq<byte>)
    requires Label63(text)
    requires pos + 1 + |text| <= |r| && r[pos] == |text| && r[pos + 1..pos + 1 + |text|] == text
    ensures Read(r, segment, pos, n) == Read(r, segment, pos + 1 + |text|, AddLabel(Enter(n), text))
  {
    CStringWhole(text);
    hide AddLabel, CString;
  }

  /** A written name is read as its labels, one after the other, and ends where it was written. */
  lemma WrittenReads(p: seq<byte>, strings: seq<seq<byte>>)
    requires Short(strings) && Labels63(strings)
    ensures ReadBack(p, strings) == Some((Fill(FRESH, strings), |Written(p, strings)|))
  {
    hide Read, Plus, Fill;
    WrittenFills(p, Written(p, strings), strings, |strings|);
    assert strings[..|strings|] == strings;
    TerminatorRead(Written(p, strings), |p|, |Plus(p, strings, |strings|)|, Fill(FRESH, strings));
  }

  lemma FillSnoc(n: Name, strings: seq<seq<byte>>, text: seq<byte>)
    ensures Fill(n, strings + [text]) == AddLabel(Enter(Fill(n, strings)), text)
  {
    assert (strings + [text])[..|strings|] == strings;
  }

  // ---------------------------------------------------------------- instance names with dots

  /** `a.b.c` */
  function Dotted(first: seq<byte>, more: seq<seq<byte>>): seq<byte> {
    if more == [] then first else Dotted(first, more[..|more| - 1]) + [DOT] + more[|more| - 1]
  }

  /** As many bytes of it as a slot holds. */
  function InSlot(text: seq<byte>): seq<byte> {
    if |text| <= MAX_HOST then text else text[..MAX_HOST]
  }

  /** Neither a service label nor one of the domains. */
  predicate BelongsToInstance(s: seq<byte>) {
    s != [] && s[0] != UNDERSCORE && !SameText(s, LOCAL) && !SameText(s, IP6) && !SameText(s, IN_ADDR)
  }

  lemma {:induction false} DotsFill(first: seq<byte>, more: seq<seq<byte>>)
    requires Label63(first) && !SameText(first, SUB)
    requires forall i :: 0 <= i < |more| ==> BelongsToInstance(more[i])
    ensures Fill(FRESH, [first] + more) == Name([InSlot(Dotted(first, more))], false, false)
    decreases |more|
  {
    hide SameText;
    if more == [] {
      assert [first] + more == [] + [first];
      FillSnoc(FRESH, [], first);
      assert [] + [first] == [first];
    } else {
      var rest, last := more[..|more| - 1], more[|more| - 1];
      DotsFill(first, rest);
      assert [first] + more == [first] + rest + [last];
      FillSnoc(FRESH, [first] + rest, last);
      SlotAppends(Dotted(first, rest), last);
    }
  }

  /** Cutting at every step is cutting once. */
  lemma SlotAppends(text: seq<byte>, more: seq<byte>)
    ensures Strlcat(Strlcat(InSlot(text), [DOT]), more) == InSlot(text + [DOT] + more)
  {
  }

  /** Labels behind the first slot, at most three of them. */
  lemma {:induction false} ServicesFill(host: seq<byte>, services: seq<seq<byte>>)
    requires |services| <= 3 && (services != [] ==> !JoinsHost(1, services[0]))
    requires forall i :: 0 <= i < |services| ==> !SameText(services[i], SUB)
    ensures forall strings: seq<seq<byte>> :: Fill(FRESH, strings) == Name([host], false, false) ==>
      Fill(FRESH, strings + services) == Name([host] + services, false, false)
    decreases |services|
  {
    hide SameText, Fill, JoinsHost;
    forall strings: seq<seq<byte>> | Fill(FRESH, strings) == Name([host], false, false)
      ensures Fill(FRESH, strings + services) == Name([host] + services, false, false)
    {
      if services == [] {
        assert strings + services == strings && [host] + services == [host];
      } else {
        var rest, last := services[..|services| - 1], services[|services| - 1];
        ServicesFill(host, rest);
        assert strings + services == strings + rest + [last];
        FillSnoc(FRESH, strings + rest, last);
        NextSlot(Name([host] + rest, false, false), last);
        assert [host] + rest + [last] == [host] + services;
      }
    }
  }

  lemma NextSlot(n: Name, text: seq<byte>)
    requires |n.parts| < 4 && !n.invalid && !SameText(text, SUB) && (|n.parts| == 1 ==> !JoinsHost(1, text))
    ensures AddLabel(Enter(n), text) == n.(parts := n.parts + [text])
  {
    hide SameText;
  }

  /**
   * An instance name may contain dots: labels behind the first one that are neither services nor domains are read as
   * part of it, up to the size of its slot, and the services follow in slots of their own.
   */
  lemma DottedInstanceReads(p: seq<byte>, first: seq<byte>, more: seq<seq<byte>>, services: seq<seq<byte>>)
    requires Label63(first) && !SameText(first, SUB) && Labels63(more) && Labels63(services) && |services| <= 3
    requires forall i :: 0 <= i < |more| ==> BelongsToInstance(more[i])
    requires services != [] ==> !BelongsToInstance(services[0])
    requires forall i :: 0 <= i < |services| ==> !SameText(services[i], SUB)
    ensures var strings := [first] + more + services;
      && Short(strings)
      && ReadBack(p, strings) ==
        Some((Name([InSlot(Dotted(first, more))] + services, false, false), |Written(p, strings)|))
  {
    hide SameText, Fill, ReadBack, Dotted, InSlot;
    var strings := [first] + more + services;
    forall i | 0 <= i < |strings|
      ensures Label63(strings[i])
    {
      assert strings[i] == if i == 0 then first else if i <= |more| then more[i - 1] else services[i - 1 - |more|];
    }
    WrittenReads(p, strings);
    DotsFill(first, more);
    ServicesFill(InSlot(Dotted(first, more)), services);
  }

  // ---------------------------------------------------------------- subtypes

  /** The same slots; whether the name is overlong may differ once they are full. */
  predicate SameSlots(a: Name, b: Name) {
    a.parts == b.parts && |a.parts| <= 4 && (|a.parts| < 4 ==> a.invalid == b.invalid)
  }

  lemma LabelSameSlots(a: Name, b: Name, text: seq<byte>)
    requires SameSlots(a, b)
    ensures SameSlots(AddLabel(Enter(a), text), AddLabel(Enter(b), text))
    ensures a.sub ==> AddLabel(Enter(a), text).sub
  {
    hide SameText;
  }

  lemma {:induction false} FillSameSlots(a: Name, b: Name, strings: seq<seq<byte>>)
    requires SameSlots(a, b)
    ensures SameSlots(Fill(a, strings), Fill(b, strings)) && (a.sub ==> Fill(a, strings).sub)
  {
    hide AddLabel;
    if strings != [] {
      FillSameSlots(a, b, strings[..|strings| - 1]);
      LabelSameSlots(Fill(a, strings[..|strings| - 1]), Fill(b, strings[..|strings| - 1]), strings[|strings| - 1]);
    }
  }

  lemma {:induction false} FillAppend(n: Name, a: seq<seq<byte>>, b: seq<seq<byte>>)
    ensures Fill(n, a + b) == Fill(Fill(n, a), b)
    decreases |b|
  {
    if b == [] {
      assert a + b == a;
    } else {
      var rest, last := b[..|b| - 1], b[|b| - 1];
      assert a + b == a + rest + [last];
      FillSnoc(n, a + rest, last);
      FillAppend(n, a, rest);
    }
  }

  /** The label `_sub` only marks the name. */
  lemma SubMarks(n: Name, text: seq<byte>)
    requires SameText(text, SUB) && |n.parts| <= 4
    ensures SameSlots(AddLabel(Enter(n), text), n) && AddLabel(Enter(n), text).sub
  {
    assert text[0] == UNDERSCORE by {
      assert Lower(text[0]) == Lower(SUB[0]);
    }
  }

  lemma {:induction false} FillFits(strings: seq<seq<byte>>)
    ensures |Fill(FRESH, strings).parts| <= 4
  {
    if strings != [] {
      FillFits(strings[..|strings| - 1]);
    }
    hide SameText;
  }

  /** A name with the label `_sub` reads as the name without it, marked as a subtype. */
  lemma SubtypeReads(p: seq<byte>, front: seq<seq<byte>>, sub: seq<byte>, back: seq<seq<byte>>)
    requires Labels63(front) && Labels63(back) && SameText(sub, SUB)
    ensures var strings, plain := front + [sub] + back, front + back;
      && Short(strings) && Short(plain)
      && ReadBack(p, strings).Some? && ReadBack(p, plain).Some?
      && ReadBack(p, strings).value.0.sub
      && ReadBack(p, strings).value.0.parts == ReadBack(p, plain).value.0.parts
  {
    hide Fill, ReadBack, AddLabel;
    var strings, plain := front + [sub] + back, front + back;
    SubIsLabel(sub);
    hide SameText;
    assert forall i :: 0 <= i < |strings| ==>
      strings[i] == if i < |front| then front[i] else if i == |front| then sub else back[i - |front| - 1];
    assert forall i :: 0 <= i < |plain| ==> plain[i] == if i < |front| then front[i] else back[i - |front|];
    WrittenReads(p, strings);
    WrittenReads(p, plain);
    FillAppend(FRESH, front, back);
    FillAppend(FRESH, front + [sub], back);
    FillSnoc(FRESH, front, sub);
    FillFits(front);
    SubMarks(Fill(FRESH, front), sub);
    FillSameSlots(Fill(FRESH, front + [sub]), Fill(FRESH, front), back);
  }

  lemma SubIsLabel(sub: seq<byte>)
    requires SameText(sub, SUB)
    ensures Label63(sub)
  {
    forall i | 0 <= i < |sub|
      ensures sub[i] != 0
    {
      assert Lower(sub[i]) == Lower(SUB[i]);
    }
  }

  // ---------------------------------------------------------------- case

  /** Letters are equal in either case, and nothing else is equal but to itself. */
  lemma CaseIgnored(a: byte, b: byte)
    ensures SameText([a], [b]) <==> a == b || (65 <= a <= 90 && b == a + 32) || (65 <= b <= 90 && a == b + 32)
  {
    assert [a][0] == a && [b][0] == b;
  }
}
