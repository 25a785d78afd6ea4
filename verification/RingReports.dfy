/** Free-size reports of the item modes, and what a return does to a full buffer that was wholly received. */
module RingReports {
  import opened Bytes
  import opened RingLayout
  import opened RingSteps
  import opened RingReturn

  // ---------------------------------------------------------------- free-size reports

  /**
   * The clamp at the end of `prvGetCurMaxSizeNoSplit` and `prvGetCurMaxSizeAllowSplit`. It compares a signed size with
   * an unsigned maximum, so that a negative size counts as larger than any maximum.
   */
  function Clamp(size: int, max: nat): nat {
    if size < 0 || size > max then max else size
  }

  /** The size before the clamp; it is negative where the free bytes do not even hold the headers. */
  function RawSize(s: Store, write: nat, free: nat): int
    requires s.Valid() && write <= s.size && free <= s.size
  {
    if s.kind == NoSplit then
      if write < free then free - write - HEADER_SIZE
      else
        var size1, size2 := s.size - write, free;
        (if size1 > size2 then size1 else size2) - HEADER_SIZE
    else if write == 0 && free == 0 then s.size - HEADER_SIZE
    else if write < free then free - write - HEADER_SIZE
    else free + (s.size - write) - 2 * HEADER_SIZE
  }

  /** `prvGetCurMaxSizeNoSplit` and `prvGetCurMaxSizeAllowSplit`. */
  function CurMaxSize(s: Store, write: nat, free: nat, full: bool): nat
    requires s.Valid() && write <= s.size && free <= s.size
  {
    if full then 0 else Clamp(RawSize(s, write, free), s.Max())
  }

  /** An item fits into `room` aligned bytes exactly when its size, without the header, does. */
  lemma TotalFits(s: Store, n: nat, room: nat)
    requires s.Valid() && Aligned(room, s.align)
    ensures s.Total(n) <= room <==> n + HEADER_SIZE <= room
  {
    if n + HEADER_SIZE <= room {
      HeaderAligned(s.align);
      AlignedSum(HEADER_SIZE, room, s.align);
      AlignMonotone(n, room - HEADER_SIZE, s.align);
    }
  }

  /** Between the pointers, or around the end, the larger stretch decides. */
  lemma StretchExact(s: Store, write: nat, free: nat, n: nat)
    requires s.Valid() && s.kind == NoSplit && n >= 1 && write != free
    requires Aligned(write, s.align) && Aligned(free, s.align) && write <= s.size && free <= s.size
    requires RawSize(s, write, free) >= 0
    ensures n <= s.Max() && Fits(s, write, free, false, n) <==> n <= CurMaxSize(s, write, free, false)
  {
    if write < free {
      AlignedSum(write, free, s.align);
      TotalFits(s, n, free - write);
    } else {
      AlignedSum(write, s.size, s.align);
      TotalFits(s, n, s.size - write);
      TotalFits(s, n, free);
    }
    hide AlignUp, Aligned;
  }

  /** In an empty buffer one of the two stretches takes an item of maximal size. */
  lemma IdleExact(s: Store, write: nat, n: nat)
    requires s.Valid() && s.kind == NoSplit && n >= 1 && Aligned(write, s.align) && write <= s.size
    ensures n <= s.Max() <==> n <= CurMaxSize(s, write, write, false)
  {
    AlignedSum(write, s.size, s.align);
    if s.size - write < AlignUp(s.size / 2, s.align) {
      HalfWay(s.size, s.size - write, s.align);
    }
    hide AlignUp, Aligned;
  }

  /** What `Send` takes in a state. */
  predicate Accepted(l: Layout, n: nat)
    requires l.store.Valid() && l.write <= l.store.size && l.free <= l.store.size
  {
    n <= l.store.Max() && Fits(l.store, l.write, l.free, l.Full(), n)
  }

  function Report(l: Layout): nat
    requires l.store.Valid() && l.write <= l.store.size && l.free <= l.store.size
  {
    CurMaxSize(l.store, l.write, l.free, l.Full())
  }

  /** The gap in front of the free pointer is shorter than a header. */
  predicate ShortGap(l: Layout) {
    l.write < l.free < l.write + HEADER_SIZE
  }

  /** Without splitting and without a short gap, the report is exact: what is reported is what `Send` accepts. */
  lemma NoSplitReportExact(l: Layout, n: nat)
    requires l.Valid() && l.store.kind == NoSplit && n >= 1 && !ShortGap(l)
    ensures Accepted(l, n) <==> n <= Report(l)
  {
    hide AlignUp, Aligned, Store.Chain, Layout.Linked, Layout.Counted;
    if !l.Full() {
      if l.write == l.free {
        IdleExact(l.store, l.write, n);
      } else {
        StretchExact(l.store, l.write, l.free, n);
      }
    }
  }

  /** In a short gap nothing fits, and the maximal size is reported. */
  lemma ShortGapReport(l: Layout, n: nat)
    requires l.Valid() && ShortGap(l)
    ensures Report(l) == l.store.Max() && !Accepted(l, n)
  {
    hide Store.Chain, Layout.Linked, Layout.Counted;
  }

  /** Without splitting, the report is exact if and only if there is no short gap; where only 0 fits it always is. */
  lemma NoSplitReportExactIff(l: Layout)
    requires l.Valid() && l.store.kind == NoSplit
    ensures (forall n :: n >= 1 ==> (Accepted(l, n) <==> n <= Report(l))) <==> l.store.Max() == 0 || !ShortGap(l)
  {
    ReportBounded(l);
    if ShortGap(l) {
      forall n: nat
        ensures Report(l) == l.store.Max() && !Accepted(l, n)
      {
        ShortGapReport(l, n);
      }
      assert l.store.Max() >= 1 ==> !Accepted(l, 1) && 1 <= Report(l);
    } else {
      forall n: nat | n >= 1
        ensures Accepted(l, n) <==> n <= Report(l)
      {
        NoSplitReportExact(l, n);
      }
    }
    hide Layout.Valid, Report, Accepted;
  }

  lemma ReportBounded(l: Layout)
    requires l.Valid()
    ensures l.write <= l.store.size && l.free <= l.store.size && Report(l) <= l.store.Max()
  {
  }

  /** By how much the allow-split report stays below what is accepted: it counts a second header that is not needed. */
  function Undercut(l: Layout): nat {
    if l.free < l.write && l.free < HEADER_SIZE then HEADER_SIZE - l.free else 0
  }

  /** Parts between the pointers take at least a header. */
  lemma UsedBehindFree(l: Layout)
    requires l.Valid() && l.free < l.write
    ensures l.write >= HEADER_SIZE && !l.wrapped
  {
    var last := l.hi[|l.hi| - 1];
    EndFacts(l.store, last);
  }

  /** With splitting, where the size before the clamp is not negative, the report with what it leaves out is exact. */
  lemma SplitReportExact(l: Layout, n: nat)
    requires l.Valid() && l.store.kind == AllowSplit && !l.Full() && n >= 1
    requires RawSize(l.store, l.write, l.free) >= 0
    ensures Accepted(l, n) <==> n <= Report(l) + Undercut(l)
  {
    hide Layout.Linked, Layout.Counted, Store.Chain;
    var s, a := l.store, l.store.align;
    if l.write < l.free {
      AlignedSum(l.write, l.free, a);
      TotalFits(s, n, l.free - l.write);
    } else if l.write > l.free {
      UsedBehindFree(l);
      AlignedSum(l.write, s.size, a);
      AlignedSum(l.free, s.size - l.write, a);
      var room := l.free + (s.size - l.write);
      HeaderAligned(a);
      AlignedSum(HEADER_SIZE, room, a);
      TotalFits(s, n, room - HEADER_SIZE);
      TotalFits(s, n, s.size - l.write);
    }
    hide AlignUp, Aligned;
  }

  /** With splitting, whatever is reported is accepted where the size before the clamp is not negative. */
  lemma SplitReportKept(l: Layout, n: nat)
    requires l.Valid() && l.store.kind == AllowSplit && (l.Full() || RawSize(l.store, l.write, l.free) >= 0)
    requires 1 <= n <= Report(l)
    ensures Accepted(l, n)
  {
    hide Layout.Linked, Layout.Counted, Store.Chain;
    var s, a := l.store, l.store.align;
    if l.write < l.free {
      AlignedSum(l.write, l.free, a);
      TotalFits(s, n, l.free - l.write);
    } else if l.write > l.free {
      AlignedSum(l.write, s.size, a);
      AlignedSum(l.free, s.size - l.write, a);
      var room := l.free + (s.size - l.write);
      HeaderAligned(a);
      AlignedSum(HEADER_SIZE, room, a);
      TotalFits(s, n, room - HEADER_SIZE);
    }
  }

  /** An item of maximal size fits behind the write pointer, and so does any other. */
  predicate MaxFitsBehind(l: Layout)
    requires l.store.Valid()
  {
    l.free <= l.write <= l.store.size && l.store.Total(l.store.Max()) <= l.store.size - l.write
  }

  /**
   * With splitting, every reported size is accepted if and only if the buffer is full, the size before the clamp is
   * not negative, an item of maximal size fits behind the write pointer, or that size is 0.
   */
  lemma SplitReportKeptIff(l: Layout)
    requires l.Valid() && l.store.kind == AllowSplit
    ensures (forall n :: 1 <= n <= Report(l) ==> Accepted(l, n)) <==>
      l.Full() || l.store.Max() == 0 || RawSize(l.store, l.write, l.free) >= 0 || MaxFitsBehind(l)
  {
    ReportBounded(l);
    if l.Full() || RawSize(l.store, l.write, l.free) >= 0 {
      forall n | 1 <= n <= Report(l)
        ensures Accepted(l, n)
      {
        SplitReportKept(l, n);
      }
    } else if MaxFitsBehind(l) {
      forall n | 1 <= n <= Report(l)
        ensures Accepted(l, n)
      {
        TotalMonotone(l.store, n, l.store.Max());
      }
    } else if l.store.Max() >= 1 {
      NegativeSizeFails(l);
    }
    hide Layout.Valid, Report, Accepted, RawSize;
  }

  lemma TotalMonotone(s: Store, n: nat, m: nat)
    requires s.Valid() && n <= m
    ensures s.Total(n) <= s.Total(m)
  {
    AlignMonotone(n, AlignUp(m, s.align), s.align);
  }

  /** A negative size is reported as the maximal one, which does not fit, or not even one byte does. */
  lemma NegativeSizeFails(l: Layout)
    requires l.Valid() && l.store.kind == AllowSplit && l.store.Max() >= 1
    requires !l.Full() && RawSize(l.store, l.write, l.free) < 0 && !MaxFitsBehind(l)
    ensures Report(l) == l.store.Max()
    ensures !Accepted(l, if l.write < l.free then 1 else l.store.Max())
  {
    hide Layout.Linked, Layout.Counted, Store.Chain;
  }

  /** With nothing unread and nothing out, every admissible item fits, wherever the pointers are. */
  lemma IdleTakesAnything(l: Layout, n: nat)
    requires l.Valid() && l.Queue() == [] && l.Out() == {}
    ensures l.Parts() == [] && Fits(l.store, l.write, l.free, l.Full(), n)
  {
    var ps := l.Parts();
    if ps != [] {
      assert ps[0..] == ps;
      LastPartWhole(l);
      ChunksEndWhole(ps);
    }
  }

  // ---------------------------------------------------------------- the unsafe return

  /** The pointers and the flag that `prvReturnItemDefault` leaves. */
  predicate PointersAfter(l: Layout, j: nat, r: Layout)
    requires l.store.Valid() && j < |l.Parts()|
  {
    var c := ReturnLayout(l, j);
    r.store == l.store && r.write == c.write && r.free == c.free && r.Full() == c.Full()
  }

  /**
   * A return keeps every other received item if and only if the buffer was not both full and wholly
   * received, or held nothing but the returned item: exactly then the pointers it leaves fit a layout in
   * which the remaining items are still out.
   */
  lemma ReturnSafeIff(l: Layout, j: nat)
    requires l.Valid() && j < l.taken && l.Parts()[j].IsOut()
    ensures (exists r: Layout :: r.Valid() && PointersAfter(l, j, r) && r.Out() == l.Out() - {Handle(l.Parts()[j])})
       <==> (l.Full() && l.free == l.ReadPos() ==> l.Out() == {Handle(l.Parts()[j])})
  {
    hide Layout.Shape, Layout.Linked, Layout.Counted, Layout.Out, Layout.ReadPos, Layout.Queue, PointersAfter,
      ReturnLayout, SafeReturn;
    Basics(l);
    SafeReturnIs(l, j);
    if SafeReturn(l, j) {
      SafeKeeps(l, j);
    } else {
      UnsafeLoses(l, j);
    }
  }

  lemma SafeReturnIs(l: Layout, j: nat)
    requires l.Valid() && j < l.taken <= |l.Parts()|
    ensures SafeReturn(l, j) <==> (l.Full() && l.free == l.ReadPos() ==> l.Out() == {Handle(l.Parts()[j])})
  {
    FreeIsRead(l);
    hide Layout.Shape, Layout.Linked, Layout.Out, Layout.ReadPos;
  }

  lemma SafeKeeps(l: Layout, j: nat)
    requires l.Valid() && j < l.taken && l.Parts()[j].IsOut() && SafeReturn(l, j)
    ensures var r := ReturnLayout(l, j);
      r.Valid() && PointersAfter(l, j, r) && r.Out() == l.Out() - {Handle(l.Parts()[j])}
  {
    ReturnValid(l, j);
    hide Layout.Shape, Layout.Linked, Layout.Counted, Layout.Out, Layout.ReadPos, Layout.Queue;
  }

  lemma UnsafeLoses(l: Layout, j: nat)
    requires l.Valid() && j < l.taken && l.Parts()[j].IsOut() && !SafeReturn(l, j)
    ensures forall r: Layout :: r.Valid() && PointersAfter(l, j, r) ==> r.Out() != l.Out() - {Handle(l.Parts()[j])}
  {
    OutHas(l, j);
    forall r: Layout | r.Valid() && PointersAfter(l, j, r)
      ensures r.Out() != l.Out() - {Handle(l.Parts()[j])}
    {
      EmptyPointersHoldNothing(r);
    }
    hide Layout.Shape, Layout.Linked, Layout.Counted, Layout.Out, Layout.ReadPos, Layout.Queue;
  }

  const FIRST: seq<byte> := [1, 1, 1, 1, 1, 1, 1, 1]
  const SECOND: seq<byte> := [2, 2, 2, 2, 2, 2, 2, 2]

  /** The smallest case: a store of 32 bytes, two items of 8 bytes each, both received. */
  function TwoOut(): Layout {
    Layout(Store(NoSplit, 32, 4), [Item(0, FIRST), Item(16, SECOND)], [], true, 0, 0, 2)
  }

  function Fresh32(): Layout {
    Layout(Store(NoSplit, 32, 4), [], [], false, 0, 0, 0)
  }

  lemma Fresh32Valid()
    ensures Fresh32().Valid()
  {
  }

  lemma TwoSends()
    ensures SendLayout(Fresh32(), FIRST) == Layout(Store(NoSplit, 32, 4), [Item(0, FIRST)], [], false, 0, 16, 0)
    ensures SendLayout(SendLayout(Fresh32(), FIRST), SECOND)
         == Layout(Store(NoSplit, 32, 4), [Item(0, FIRST), Item(16, SECOND)], [], true, 0, 0, 0)
  {
    hide Store.Chain, Chunks;
    assert Push(Fresh32(), Item(0, FIRST)).hi == [Item(0, FIRST)];
    var l1 := Layout(Store(NoSplit, 32, 4), [Item(0, FIRST)], [], false, 0, 16, 0);
    assert SendLayout(Fresh32(), FIRST) == l1;
    assert Push(l1, Item(16, SECOND)).hi == [Item(0, FIRST), Item(16, SECOND)];
  }

  lemma TwoSendsValid()
    ensures SendLayout(SendLayout(Fresh32(), FIRST), SECOND).Valid()
  {
    Fresh32Valid();
    TwoSends();
    SendValid(Fresh32(), FIRST);
    SendValid(SendLayout(Fresh32(), FIRST), SECOND);
    hide Layout.Valid;
  }

  /**
   * It is reached by two sends and two receives. Returning the second item first marks the buffer empty,
   * and the next item of 8 bytes is then accepted and written over the first, which is still out.
   */
  lemma FullyReceivedBufferLosesItem()
    ensures TwoOut() == TakeLayout(TakeLayout(SendLayout(SendLayout(Fresh32(), FIRST), SECOND)))
    ensures TwoOut().Valid() && !SafeReturn(TwoOut(), 1)
    ensures var r := ReturnLayout(TwoOut(), 1);
      && Fits(r.store, r.write, r.free, r.Full(), 8)
      && r.write == TwoOut().Parts()[0].pos
      && TwoOut().Parts()[0].IsOut()
  {
    TwoSends();
    TwoSendsValid();
    var l2 := SendLayout(SendLayout(Fresh32(), FIRST), SECOND);
    hide Layout.Shape, Layout.Linked, SendLayout;
    TakeValid(l2);
    TakeValid(TakeLayout(l2));
    OutHas(TwoOut(), 0);
  }

  // ---------------------------------------------------------------- reports that are not kept

  /** A store of 32 bytes with splitting: behind an item of 16 bytes nothing fits, and 16 are reported. */
  lemma SplitReportNotKept()
    ensures var l0 := Layout(Store(AllowSplit, 32, 4), [], [], false, 0, 0, 0);
      && l0.Valid() && SendRequires(l0, FIRST + SECOND)
      && var l := SendLayout(l0, FIRST + SECOND);
      && l.write == 24 && l.free == 0
      && Report(l) == 16 && forall n :: n >= 1 ==> !Accepted(l, n)
  {
    var item := FIRST + SECOND;
    var l0 := Layout(Store(AllowSplit, 32, 4), [], [], false, 0, 0, 0);
    assert Push(l0, Item(0, item)).hi == [Item(0, item)];
  }

  const FOUR: seq<byte> := [1, 2, 3, 4]

  function Fresh64(): Layout {
    Layout(Store(NoSplit, 64, 4), [], [], false, 0, 0, 0)
  }

  /** Two items, of 4 and of 24 bytes, in a store of 64 bytes, the first of them received and returned. */
  function OneBack(): Layout {
    Layout(Store(NoSplit, 64, 4), [Item(12, FIRST + SECOND + FIRST)], [], false, 12, 44, 0)
  }

  /** Behind them an item of 12 bytes and an empty one. */
  function GapOfFour(): Layout {
    var parts := [Item(12, FIRST + SECOND + FIRST), Item(44, FIRST + FOUR)];
    Layout(Store(NoSplit, 64, 4), parts, [Item(0, [])], true, 12, 8, 0)
  }

  function OneSent(): Layout {
    Layout(Store(NoSplit, 64, 4), [Item(0, FOUR)], [], false, 0, 12, 0)
  }

  function TwoSent(): Layout {
    Layout(Store(NoSplit, 64, 4), [Item(0, FOUR), Item(12, FIRST + SECOND + FIRST)], [], false, 0, 44, 0)
  }

  lemma TwoSentReached()
    ensures SendRequires(Fresh64(), FOUR) && SendLayout(Fresh64(), FOUR) == OneSent()
    ensures SendRequires(OneSent(), FIRST + SECOND + FIRST)
    ensures SendLayout(OneSent(), FIRST + SECOND + FIRST) == TwoSent() && TwoSent().Valid()
  {
    hide Store.Chain, Chunks, Split;
    var big := FIRST + SECOND + FIRST;
    assert Push(Fresh64(), Item(0, FOUR)).hi == [Item(0, FOUR)];
    assert SendLayout(Fresh64(), FOUR) == OneSent();
    assert Push(OneSent(), Item(12, big)).hi == [Item(0, FOUR), Item(12, big)];
    assert SendLayout(OneSent(), big) == TwoSent();
    Fresh64Valid();
    SendValid(Fresh64(), FOUR);
    SendValid(OneSent(), big);
  }

  lemma Fresh64Valid()
    ensures Fresh64().Valid()
  {
  }

  lemma OneBackReached()
    ensures TwoSent().Valid() && Next(TwoSent()) == 0
    ensures TakeLayout(TwoSent()).Valid() && SafeReturn(TakeLayout(TwoSent()), 0)
    ensures ReturnLayout(TakeLayout(TwoSent()), 0) == OneBack() && OneBack().Valid()
  {
    hide Store.Chain, Chunks, Split;
    TwoSentReached();
    TakeValid(TwoSent());
    var l3 := Mark(TakeLayout(TwoSent()), 0);
    assert l3.hi == [Returned(Item(0, FOUR)), Item(12, FIRST + SECOND + FIRST)];
    assert Pop(l3).hi == [Item(12, FIRST + SECOND + FIRST)];
    assert Reclaim(l3) == Reclaim(Pop(l3)) == Pop(l3) == OneBack();
    ReturnValid(TakeLayout(TwoSent()), 0);
  }

  function GapOfTwenty(): Layout {
    Layout(Store(NoSplit, 64, 4), [Item(12, FIRST + SECOND + FIRST), Item(44, FIRST + FOUR)], [], true, 12, 0, 0)
  }

  /** Two sends, a receive, a return of what was received, and two more sends. */
  lemma GapOfFourReached()
    ensures OneBack().Valid() && SendRequires(OneBack(), FIRST + FOUR)
    ensures SendRequires(SendLayout(OneBack(), FIRST + FOUR), [])
    ensures SendLayout(SendLayout(OneBack(), FIRST + FOUR), []) == GapOfFour() && GapOfFour().Valid()
  {
    hide Store.Chain, Chunks, Split;
    OneBackReached();
    var big := FIRST + SECOND + FIRST;
    assert Push(OneBack(), Item(44, FIRST + FOUR)).hi == [Item(12, big), Item(44, FIRST + FOUR)];
    assert SendLayout(OneBack(), FIRST + FOUR) == GapOfTwenty();
    assert Push(GapOfTwenty(), Item(0, [])).lo == [Item(0, [])];
    SendValid(OneBack(), FIRST + FOUR);
    SendValid(GapOfTwenty(), []);
  }

  /** A store of 64 bytes without splitting: the gap is 4 bytes, nothing fits, and 24 are reported. */
  lemma NoSplitReportNotExact()
    ensures GapOfFour().Valid() && ShortGap(GapOfFour())
    ensures Report(GapOfFour()) == 24 && forall n :: !Accepted(GapOfFour(), n)
  {
    hide Layout.Valid, Accepted, Report, GapOfFour;
    GapOfFourReached();
    GapOfFourShort();
    forall n: nat
      ensures !Accepted(GapOfFour(), n)
    {
      ShortGapReport(GapOfFour(), n);
    }
    ShortGapReport(GapOfFour(), 0);
  }

  lemma GapOfFourShort()
    ensures ShortGap(GapOfFour()) && GapOfFour().store.Valid() && GapOfFour().store.Max() == 24
  {
  }
}
