/**
 * Which items a buffer takes, told by the places for them: `Send` accepts what has a place now and would have one in
 * an empty buffer, wherever its pointers are.
 */
module RingPlaces {
  import opened Bytes
  import opened RingLayout
  import opened RingSteps
  import opened RingReports

  /** The first `cut` bytes of an item, whose rest is to follow at the head of the store. */
  function Front(l: Layout, item: seq<byte>, cut: nat): Part
    requires cut <= |item|
  {
    Part(l.write, item[..cut], false, true, false)
  }

  /** As one part at the write pointer. */
  predicate PlaceWhole(l: Layout, item: seq<byte>)
    requires l.store.Valid()
  {
    Room(l, Item(l.write, item))
  }

  /** As one part at the head, behind a dummy that fills the store. */
  predicate PlaceBehindDummy(l: Layout, item: seq<byte>)
    requires l.store.Valid()
  {
    Room(l, Dummy(l.write)) && Room(Push(l, Dummy(l.write)), Item(0, item))
  }

  /** As two parts, neither of them empty: one that fills the store, and one at the head. */
  predicate PlaceCut(l: Layout, item: seq<byte>, cut: nat)
    requires l.store.Valid()
  {
    && 0 < cut < |item|
    && Room(l, Front(l, item, cut)) && l.store.End(Front(l, item, cut)) == l.store.size
    && Room(Push(l, Front(l, item, cut)), Item(0, item[cut..]))
  }

  ghost predicate HasPlace(l: Layout, item: seq<byte>)
    requires l.store.Valid()
  {
    || PlaceWhole(l, item)
    || PlaceBehindDummy(l, item)
    || (l.store.kind == AllowSplit && exists cut :: PlaceCut(l, item, cut))
  }

  /** An empty buffer with its pointers at `w`. */
  function Idle(s: Store, w: nat): Layout {
    Layout(s, [], [], false, w, w, 0)
  }

  /** Some item of `n` bytes; where it fits depends on its length only. */
  function Blank(n: nat): seq<byte> {
    seq(n, _ => 0)
  }

  /** An item of `n` bytes has a place in an empty buffer, wherever its pointers are. */
  ghost predicate AnywhereIdle(s: Store, n: nat)
    requires s.Valid()
  {
    forall w: nat :: Aligned(w, s.align) && w + HEADER_SIZE <= s.size ==> HasPlace(Idle(s, w), Blank(n))
  }

  lemma IdleValid(s: Store, w: nat)
    requires s.Valid() && Aligned(w, s.align) && w + HEADER_SIZE <= s.size
    ensures Idle(s, w).Valid() && !Idle(s, w).Full()
  {
    assert Idle(s, w).Parts() == [];
  }

  // ---------------------------------------------------------------- what fits has a place, and only that

  lemma FitsHasPlace(l: Layout, item: seq<byte>)
    requires SendRequires(l, item)
    ensures HasPlace(l, item)
  {
    if l.store.Total(|item|) <= l.store.size - l.write {
      WholeRoom(l, item);
    } else {
      FirstRoom(l, item);
      SplitRoom(l, item);
      var p := FirstPart(l, item);
      if p.split {
        assert PlaceCut(l, item, |p.data|);
      } else {
        assert PlaceBehindDummy(l, item);
      }
    }
    hide Layout.Shape, Layout.Linked, Layout.Counted;
  }

  /** An aligned length never exceeds the sum of the aligned lengths of two parts. */
  lemma AlignCut(n: nat, cut: nat, a: nat)
    requires IsAlignment(a) && cut <= n
    ensures AlignUp(n, a) <= AlignUp(cut, a) + AlignUp(n - cut, a)
  {
    AlignedSum(AlignUp(cut, a), AlignUp(n - cut, a), a);
    AlignMonotone(n, AlignUp(cut, a) + AlignUp(n - cut, a), a);
  }

  /** The pointers of a valid buffer. */
  predicate Ordered(l: Layout) {
    && l.store.Valid() && l.write + HEADER_SIZE <= l.store.size && l.free + HEADER_SIZE <= l.store.size
    && (if l.wrapped then l.write <= l.free else l.free <= l.write)
  }

  lemma ValidOrdered(l: Layout)
    requires l.Valid()
    ensures Ordered(l)
  {
    hide Layout.Linked, Layout.Counted;
  }

  lemma WholeFits(l: Layout, item: seq<byte>)
    requires Ordered(l) && PlaceWhole(l, item)
    ensures Fits(l.store, l.write, l.free, l.Full(), |item|)
  {
    hide AlignUp, Aligned;
  }

  lemma DummyFits(l: Layout, item: seq<byte>)
    requires Ordered(l) && PlaceBehindDummy(l, item)
    ensures Fits(l.store, l.write, l.free, l.Full(), |item|)
  {
    hide AlignUp, Aligned;
  }

  lemma CutFits(l: Layout, item: seq<byte>, cut: nat)
    requires Ordered(l) && PlaceCut(l, item, cut) && l.store.kind == AllowSplit
    ensures Fits(l.store, l.write, l.free, l.Full(), |item|)
  {
    AlignCut(|item|, cut, l.store.align);
    hide AlignUp, Aligned;
  }

  lemma PlaceFits(l: Layout, item: seq<byte>)
    requires l.Valid() && HasPlace(l, item)
    ensures l.write <= l.store.size && l.free <= l.store.size
    ensures Fits(l.store, l.write, l.free, l.Full(), |item|)
  {
    hide Layout.Valid, PlaceWhole, PlaceBehindDummy, PlaceCut, Fits, Layout.Full;
    ValidOrdered(l);
    if PlaceWhole(l, item) {
      WholeFits(l, item);
    } else if PlaceBehindDummy(l, item) {
      DummyFits(l, item);
    } else {
      var cut :| PlaceCut(l, item, cut);
      CutFits(l, item, cut);
    }
  }

  /** What a valid buffer accepts: items within the limit that have a place. */
  lemma AcceptedIff(l: Layout, item: seq<byte>)
    requires l.Valid()
    ensures l.write <= l.store.size && l.free <= l.store.size
    ensures Accepted(l, |item|) <==> |item| <= l.store.Max() && HasPlace(l, item)
  {
    if HasPlace(l, item) {
      PlaceFits(l, item);
    }
    if |item| <= l.store.Max() && Fits(l.store, l.write, l.free, l.Full(), |item|) {
      FitsHasPlace(l, item);
    }
    hide HasPlace, Fits, Layout.Linked, Layout.Counted;
  }

  // ---------------------------------------------------------------- the limit

  lemma WithinLimitAnywhere(s: Store, n: nat)
    requires s.Valid() && n <= s.Max()
    ensures AnywhereIdle(s, n)
  {
    forall w: nat | Aligned(w, s.align) && w + HEADER_SIZE <= s.size
      ensures HasPlace(Idle(s, w), Blank(n))
    {
      IdleValid(s, w);
      FitsHasPlace(Idle(s, w), Blank(n));
    }
  }

  /** With splitting, the limit is the largest length that has a place wherever the pointers of an empty buffer are. */
  lemma SplitLimitIff(s: Store, n: nat)
    requires s.Valid() && s.kind == AllowSplit
    ensures n <= s.Max() <==> AnywhereIdle(s, n)
  {
    if n <= s.Max() {
      WithinLimitAnywhere(s, n);
    } else if AnywhereIdle(s, n) {
      HeaderAligned(s.align);
      assert HasPlace(Idle(s, 8), Blank(n));
      NoPlaceAtHeader(s, n);
    }
  }

  /** With the pointers one header behind the head, nothing but a header fits at the head. */
  lemma NoPlaceAtHeader(s: Store, n: nat)
    requires s.Valid() && Aligned(8, s.align) && HasPlace(Idle(s, 8), Blank(n))
    ensures n + 16 <= s.size
  {
  }

  /** Where an empty no-split buffer has a place. */
  lemma NoSplitPlace(s: Store, w: nat, n: nat)
    requires s.Valid() && s.kind == NoSplit && Aligned(w, s.align) && w + HEADER_SIZE <= s.size
    ensures HasPlace(Idle(s, w), Blank(n)) <==> s.Total(n) <= s.size - w || s.Total(n) <= w
  {
    HeaderAligned(s.align);
    EndFacts(s, Dummy(w));
  }

  /** The middle of the store, up to alignment, leaves the write pointer room for a header. */
  lemma MiddlePointer(s: Store)
    requires s.Valid()
    ensures var w := AlignUp(s.size / 2, s.align);
      Aligned(w, s.align) && w + HEADER_SIZE <= s.size && s.size - w <= w + s.size % 2
    ensures s.size % 2 == 1 ==> s.align == 1
  {
  }

  /** Without splitting it is so, too, but for an odd size, where one byte more would have a place. */
  lemma NoSplitLimitIff(s: Store, n: nat)
    requires s.Valid() && s.kind == NoSplit
    ensures n <= s.Max() + s.size % 2 <==> AnywhereIdle(s, n)
  {
    var w := AlignUp(s.size / 2, s.align);
    MiddlePointer(s);
    if AnywhereIdle(s, n) {
      assert HasPlace(Idle(s, w), Blank(n));
      NoSplitPlace(s, w, n);
      LimitFromMiddle(s, n);
    } else if n <= s.Max() {
      WithinLimitAnywhere(s, n);
    } else if n <= s.Max() + s.size % 2 {
      forall v: nat | Aligned(v, s.align) && v + HEADER_SIZE <= s.size
        ensures HasPlace(Idle(s, v), Blank(n))
      {
        NoSplitPlace(s, v, n);
      }
    }
    hide HasPlace, AlignUp, Aligned;
  }

  lemma LimitFromMiddle(s: Store, n: nat)
    requires s.Valid() && s.kind == NoSplit
    requires var w := AlignUp(s.size / 2, s.align); s.Total(n) <= s.size - w || s.Total(n) <= w
    ensures n <= s.Max() + s.size % 2
  {
    MiddlePointer(s);
    hide AlignUp;
  }

  /** By how much `Send` undercuts what would have a place in an empty buffer. */
  function Slack(s: Store): nat {
    if s.kind == NoSplit then s.size % 2 else 0
  }

  /** The limit in terms of places alone. */
  lemma LimitByPlaces(s: Store, n: nat)
    requires s.Valid()
    ensures n <= s.Max() <==> AnywhereIdle(s, n + Slack(s))
  {
    hide AnywhereIdle;
    if s.kind == NoSplit {
      NoSplitLimitIff(s, n + Slack(s));
    } else {
      SplitLimitIff(s, n);
    }
  }

  /** What a valid buffer accepts, in terms of places alone. */
  lemma AcceptedByPlaces(l: Layout, item: seq<byte>)
    requires l.Valid()
    ensures l.write <= l.store.size && l.free <= l.store.size
    ensures Accepted(l, |item|) <==> HasPlace(l, item) && AnywhereIdle(l.store, |item| + Slack(l.store))
  {
    hide HasPlace, AnywhereIdle, Accepted, Layout.Linked, Layout.Counted, Store.Chain, Aligned, Slack, Store.Max;
    AcceptedIff(l, item);
    LimitByPlaces(l.store, |item|);
  }
}
