/** The item-mode ring buffer itself: headers and data as bytes in one store, three pointers and a flag. */
module RingBuffer {
  import opened Bytes
  import opened RingLayout
  import opened RingSteps
  import opened RingReturn
  import opened RingMemory
  import opened RingReports
  import opened RingPlaces

  class Ring {
    const store: Store
    const mem: array<byte>
    var write: nat
    var read: nat
    var free: nat
    var full: bool
    var itemsWaiting: int

    ghost var layout: Layout
    /** Every item ever sent, and every piece ever received, in order. */
    ghost var sent: seq<seq<byte>>
    ghost var received: seq<Chunk>

    /** The pointers, the counter and the bytes are those of the layout `l`. */
    ghost predicate Tied(l: Layout)
      reads this, mem
    {
      && l.store == store && l.Shape() && l.Counted()
      && mem.Length == store.size && Stored(l.Parts(), mem[..])
      && write == l.write && free == l.free && read == l.ReadPos()
      && itemsWaiting == |l.Queue()|
    }

    /** First in, first out: what was received and what is queued make up what was sent. */
    ghost predicate Fifo()
      reads this
      requires layout.taken <= |layout.Parts()|
    {
      var all := received + layout.Queue();
      Joined(all) == sent && (all == [] || !all[|all| - 1].more)
    }

    ghost predicate Valid()
      reads this, mem
    {
      Tied(layout) && layout.Linked() && full == layout.Full() && Fifo()
    }

    /** `xRingbufferCreate`. */
    constructor (kind: Kind, bufferSize: nat, align: nat)
      requires IsAlignment(align) && 16 <= AlignUp(bufferSize, align) < 0x1_0000_0000
      ensures Valid() && fresh(mem)
      ensures store == Store(kind, AlignUp(bufferSize, align), align)
      ensures layout == EmptyLayout(store)
      ensures sent == [] && received == []
    {
      var size := AlignUp(bufferSize, align);
      EmptyValid(Store(kind, size, align));
      hide Layout.Shape, Layout.Counted, Layout.Linked;
      store := Store(kind, size, align);
      mem := new byte[size];
      write, read, free, full, itemsWaiting := 0, 0, 0, false, 0;
      layout := EmptyLayout(Store(kind, size, align));
      sent, received := [], [];
    }

    /** The header at an address, whatever lies there. */
    function HeaderAt(at: nat): Header
      reads mem
      requires at + HEADER_SIZE <= mem.Length
    {
      DecodeHeader(mem[at..at + HEADER_SIZE])
    }

    lemma SameSlice(at: nat, n: nat)
      requires at + n <= mem.Length
      ensures mem[at..at + n] == mem[..][at..at + n]
    {
    }

    method PutHeader(at: nat, h: Header)
      requires at + HEADER_SIZE <= mem.Length && h.len < 0x1_0000_0000
      modifies mem
      ensures mem[..] == WriteHeader(old(mem[..]), at, h)
    {
      CopyInto(mem, at, EncodeHeader(h));
    }

    /** The common end of both copy functions: the item, or its second piece, at the write pointer. */
    method WriteItem(data: seq<byte>, alignedSize: nat)
      requires Tied(layout) && Room(layout, Item(write, data))
      requires alignedSize == AlignUp(|data|, store.align)
      modifies this`write, this`itemsWaiting, this`full, this`layout, mem
      ensures layout == Push(old(layout), Item(old(write), data))
      ensures Tied(layout) && full == (old(full) || write == free)
    {
      hide Layout.Shape, Layout.Counted, Stored, Layout.ReadPos, Push, Layout.Queue, Patch, EncodeHeader, AlignUp, Room;
      ghost var l, p := layout, Item(write, data);
      PushFacts(l, p, mem[..]);
      PutHeader(write, Header(|data|, false, false, false));
      write := write + HEADER_SIZE;
      CopyInto(mem, write, data);
      itemsWaiting := itemsWaiting + 1;
      write := write + alignedSize;
      if store.size - write < HEADER_SIZE {
        write := 0;
      }
      if write == free {
        full := true;
      }
      layout := Push(l, p);
    }

    /** The header, and the data if any, that fill the store up to its end; the write pointer goes to the head. */
    method WriteFirst(data: seq<byte>, dummy: bool, ghost item: seq<byte>)
      requires Tied(layout) && layout.Linked() && full == layout.Full() && SendRequires(layout, item)
      requires Pointed(layout) && store.size - write < store.Total(|item|)
      requires FirstPart(layout, item) == Part(write, data, dummy, !dummy, false)
      modifies this`write, this`itemsWaiting, this`layout, mem
      ensures layout == Push(old(layout), FirstPart(old(layout), item))
      ensures Tied(layout) && write == 0
    {
      hide Layout.Shape, Layout.Counted, Stored, Layout.ReadPos, Push, Layout.Queue, Patch, EncodeHeader, AlignUp,
        Room, FirstPart, Fits;
      ghost var l, p := layout, FirstPart(layout, item);
      FirstFacts(l, item, mem[..]);
      PutHeader(write, Header(|data|, false, dummy, !dummy));
      write := write + HEADER_SIZE;
      CopyInto(mem, write, data);
      if !dummy {
        itemsWaiting := itemsWaiting + 1;
      }
      write := 0;
      layout := Push(l, p);
    }

    /** `prvCopyItemNoSplit`. */
    method CopyItemNoSplit(item: seq<byte>)
      requires Tied(layout) && layout.Linked() && full == layout.Full() && SendRequires(layout, item)
      requires store.kind == NoSplit
      modifies this`write, this`itemsWaiting, this`full, this`layout, mem
      ensures layout == SendLayout(old(layout), item) && Tied(layout)
      ensures full == layout.Full()
    {
      hide Layout.Shape, Layout.Counted, Stored, Layout.ReadPos, Push, Layout.Queue, Patch, EncodeHeader, AlignUp,
        Room, Fits;
      ghost var l := layout;
      SendFacts(l, item);
      var alignedSize := AlignUp(|item|, store.align);
      if l.store.size - l.write < l.store.Total(|item|) {
        CutFacts(l, item);
      } else {
        WholeFacts(l, item);
      }
      if store.size - write < alignedSize + HEADER_SIZE {
        WriteFirst([], true, item);
      }
      WriteItem(item, alignedSize);
    }

    /** `prvCopyItemAllowSplit`. */
    method CopyItemAllowSplit(item: seq<byte>)
      requires Tied(layout) && layout.Linked() && full == layout.Full() && SendRequires(layout, item)
      requires store.kind == AllowSplit
      modifies this`write, this`itemsWaiting, this`full, this`layout, mem
      ensures layout == SendLayout(old(layout), item) && Tied(layout)
      ensures full == layout.Full()
    {
      hide Layout.Shape, Layout.Counted, Stored, Layout.ReadPos, Push, Layout.Queue, Patch, EncodeHeader, AlignUp,
        Room, Fits;
      ghost var l := layout;
      SendFacts(l, item);
      var rest, alignedSize := item, AlignUp(|item|, store.align);
      var remLen := store.size - write;
      if l.store.size - l.write < l.store.Total(|item|) {
        CutFacts(l, item);
      } else {
        WholeFacts(l, item);
      }
      if remLen < alignedSize + HEADER_SIZE {
        remLen := remLen - HEADER_SIZE;
        if remLen > 0 {
          WriteFirst(item[..remLen], false, item);
          rest, alignedSize := rest[remLen..], alignedSize - remLen;
        } else {
          WriteFirst([], true, item);
        }
      }
      WriteItem(rest, alignedSize);
    }

    /** `vCopyItem`: the copy function of the kind of the buffer. */
    method CopyItem(item: seq<byte>)
      requires Tied(layout) && layout.Linked() && full == layout.Full() && SendRequires(layout, item)
      modifies this`write, this`itemsWaiting, this`full, this`layout, mem
      ensures layout == SendLayout(old(layout), item) && Tied(layout)
      ensures full == layout.Full()
    {
      hide Layout.Shape, Layout.Counted, Layout.Linked, Layout.ReadPos, Layout.Queue, Stored, SendLayout, Fits;
      if store.kind == NoSplit {
        CopyItemNoSplit(item);
      } else {
        CopyItemAllowSplit(item);
      }
    }

    lemma AcceptsByPlaces(item: seq<byte>)
      requires Valid()
      ensures write <= store.size && free <= store.size
      ensures Accepts(|item|) <==> HasPlace(layout, item) && AnywhereIdle(store, |item| + Slack(store))
    {
      hide HasPlace, AnywhereIdle, Fits, Layout.Counted, Layout.Linked, Layout.ReadPos, Layout.Queue, Stored, Slack,
        Store.Chain, Aligned, Store.Max, Layout.Full, Fifo;
      AcceptedByPlaces(layout, item);
    }

    /** One attempt of `xRingbufferSend`: refused when too long or when it does not fit now. */
    method Send(item: seq<byte>) returns (ok: bool)
      requires Valid()
      modifies this, mem
      ensures Valid()
      ensures ok <==> old(Accepts(|item|))
      ensures ok <==> HasPlace(old(layout), item) && AnywhereIdle(store, |item| + Slack(store))
      ensures ok ==> layout == SendLayout(old(layout), item)
      ensures ok ==> Joined(layout.Queue()) == Joined(old(layout.Queue())) + [item]
      ensures ok ==> sent == old(sent) + [item]
      ensures !ok ==> layout == old(layout) && sent == old(sent) && mem[..] == old(mem[..])
      ensures layout.Out() == old(layout.Out()) && received == old(received)
    {
      hide Layout.Shape, Layout.Counted, Layout.Linked, Layout.ReadPos, Layout.Queue, Layout.Out, Stored, SendLayout,
        Fits, Joined;
      Basics(layout);
      AcceptsByPlaces(item);
      hide HasPlace, AnywhereIdle, Slack;
      if |item| > store.Max() {
        return false;
      }
      if !Fits(store, write, free, full, |item|) {
        return false;
      }
      ghost var l := layout;
      SendValid(l, item);
      CopyItem(item);
      sent := sent + [item];
      Basics(layout);
      FifoGrows(received, l.Queue(), item, Cut(l, item));
      return true;
    }

    /**
     * `xRingbufferGetCurFreeSize`: without splitting exactly the sizes up to the report are accepted by `Send`, if and
     * only if the gap in front of the free pointer is not shorter than a header; with splitting at least those are, if
     * and only if the free bytes hold the headers or an item of maximal size fits behind the write pointer.
     */
    method GetCurFreeSize() returns (size: nat)
      requires Valid()
      ensures store.kind == NoSplit ==>
        ((forall n :: n >= 1 ==> (Accepts(n) <==> n <= size)) <==> store.Max() == 0 || !ShortGap(layout))
      ensures store.kind == AllowSplit ==>
        ((forall n :: 1 <= n <= size ==> Accepts(n)) <==>
          full || store.Max() == 0 || RawSize(store, write, free) >= 0 || MaxFitsBehind(layout))
      ensures store.kind == AllowSplit && !full && RawSize(store, write, free) >= 0 ==>
        forall n :: n >= 1 ==> (Accepts(n) <==> n <= size + Undercut(layout))
      ensures !full && RawSize(store, write, free) < 0 ==> size == store.Max()
      ensures full ==> size == 0
    {
      hide Layout.Shape, Layout.Counted, Layout.Linked, Layout.ReadPos, Layout.Queue, Stored, Fits, RawSize;
      Basics(layout);
      if full {
        size := 0;
      } else {
        var raw := RawSize(store, write, free);
        size := if raw < 0 || raw > store.Max() then store.Max() else raw;
      }
      assert size == Report(layout);
      assert forall n: nat :: Accepts(n) <==> Accepted(layout, n);
      hide Accepted, Report;
      if store.kind == NoSplit {
        NoSplitReportExactIff(layout);
      } else {
        SplitReportKeptIff(layout);
        if !full && RawSize(store, write, free) >= 0 {
          forall n: nat | n >= 1
            ensures Accepted(layout, n) <==> n <= size + Undercut(layout)
          {
            SplitReportExact(layout, n);
          }
        }
      }
    }

    /** What `Send` takes now. */
    predicate Accepts(n: nat)
      reads this
    {
      store.Valid() && write <= store.size && free <= store.size && n <= store.Max() &&
        Fits(store, write, free, full, n)
    }

    /** `prvCheckItemAvail` for item buffers. */
    method CheckItemAvail() returns (avail: bool)
      requires Valid()
      ensures avail <==> layout.Queue() != []
    {
      ReadMeetsWrite(layout);
      hide Layout.Shape, Layout.Counted, Stored, Layout.ReadPos, Layout.Queue, Layout.Linked;
      avail := itemsWaiting > 0 && (read != write || full);
    }

    /** The header at the read pointer, or at the head of the store behind a dummy. */
    method ReadHeader() returns (from: nat, header: Header)
      requires Valid() && layout.Queue() != []
      ensures Next(layout) < |layout.Parts()|
      ensures from == layout.Parts()[Next(layout)].pos && header == HeaderOf(layout.Parts()[Next(layout)])
    {
      hide Layout.Shape, Layout.Counted, Layout.Linked, Layout.ReadPos, Layout.Queue, Layout.Out, Stored,
        DecodeHeader, AlignUp, Joined, TakeLayout;
      Basics(layout);
      TakeFacts(layout, mem[..]);
      SameSlice(read, HEADER_SIZE);
      SameSlice(layout.Parts()[Next(layout)].pos, HEADER_SIZE);
      from, header := read, HeaderAt(read);
      if header.dummy {
        from := 0;
        header := HeaderAt(from);
      }
    }

    /** `prvGetItemDefault`: the oldest piece, by address and length; it stays in place until returned. */
    method GetItem() returns (ptr: nat, len: nat, isSplit: bool)
      requires Valid() && layout.Queue() != []
      modifies this`read, this`itemsWaiting, this`layout, this`received
      ensures Valid() && layout == TakeLayout(old(layout))
      ensures ptr + len <= mem.Length
      ensures old(layout.Queue()) == [Chunk(mem[ptr..ptr + len], isSplit)] + layout.Queue()
      ensures layout.Out() == old(layout.Out()) + {(ptr, mem[ptr..ptr + len])}
      ensures received == old(received) + [Chunk(mem[ptr..ptr + len], isSplit)]
      ensures ptr == old(layout.Parts()[Next(layout)].pos) + HEADER_SIZE
    {
      hide Layout.Shape, Layout.Counted, Layout.Linked, Layout.ReadPos, Layout.Queue, Layout.Out, Stored,
        DecodeHeader, AlignUp, Joined, TakeLayout;
      Basics(layout);
      ghost var l := layout;
      var from, header := ReadHeader();
      TakeFacts(l, mem[..]);
      TakeKeeps(l);
      ghost var p := l.Parts()[Next(l)];
      SameSlice(p.pos + HEADER_SIZE, |p.data|);
      ptr := from + HEADER_SIZE;
      len := header.len;
      isSplit := header.split;
      assert (ptr, mem[ptr..ptr + len]) == Handle(p);
      var next := from + HEADER_SIZE + AlignUp(header.len, store.align);
      if store.size - next < HEADER_SIZE {
        next := 0;
      }
      QueueMoves(received, l.Queue(), Chunk(p.data, p.split), TakeLayout(l).Queue());
      read, itemsWaiting := next, itemsWaiting - 1;
      layout, received := TakeLayout(l), received + [Chunk(p.data, p.split)];
    }

    /** One attempt of `xRingbufferReceive`. */
    method Receive() returns (ok: bool, ptr: nat, len: nat)
      requires Valid()
      modifies this`read, this`itemsWaiting, this`layout, this`received
      ensures Valid()
      ensures ok <==> old(layout.Queue()) != []
      ensures !ok ==> layout == old(layout) && received == old(received)
      ensures ok ==>
        && ptr + len <= mem.Length
        && mem[ptr..ptr + len] == old(layout.Queue())[0].data
        && layout.Queue() == old(layout.Queue())[1..]
        && received == old(received) + [old(layout.Queue())[0]]
        && layout.Out() == old(layout.Out()) + {(ptr, mem[ptr..ptr + len])}
    {
      hide Layout.Shape, Layout.Counted, Layout.Linked, Layout.ReadPos, Layout.Queue, Layout.Out, Stored, Joined;
      Basics(layout);
      ptr, len := 0, 0;
      ok := CheckItemAvail();
      if ok {
        var isSplit;
        ptr, len, isSplit := GetItem();
      }
    }

    /** One attempt of `xRingbufferReceiveSplit`: both pieces of a divided item come back together. */
    method ReceiveSplit() returns (ok: bool, head: nat, headLen: nat, two: bool, tail: nat, tailLen: nat)
      requires Valid() && store.kind == AllowSplit
      modifies this`read, this`itemsWaiting, this`layout, this`received
      ensures Valid()
      ensures ok <==> old(layout.Queue()) != []
      ensures !ok ==> layout == old(layout) && received == old(received)
      ensures ok ==> WholeItem(mem[..], old(layout.Queue()), layout.Queue(), head, headLen, two, tail, tailLen)
      ensures received + layout.Queue() == old(received + layout.Queue())
      ensures ok ==> layout.Out() == old(layout.Out()) + HandlesAt(mem[..], head, headLen, two, tail, tailLen)
    {
      hide Layout.Shape, Layout.Counted, Layout.Linked, Layout.ReadPos, Layout.Queue, Layout.Out, Stored, TakeLayout,
        Joined, WholeItem, HandlesAt;
      Basics(layout);
      head, headLen, two, tail, tailLen := 0, 0, false, 0, 0;
      ok := CheckItemAvail();
      if ok {
        ghost var l, before := layout, received;
        head, headLen, two := GetItem();
        ghost var m := layout;
        Basics(m);
        SameSlice(head, headLen);
        QueueMoves(before, l.Queue(), Chunk(mem[..][head..head + headLen], two), m.Queue());
        if two {
          TailFollows(l);
          TailNext(l);
          var isSplit;
          tail, tailLen, isSplit := GetItem();
          Basics(layout);
          SameSlice(tail, tailLen);
          ghost var second := Chunk(mem[..][tail..tail + tailLen], isSplit);
          QueueMoves(received[..|received| - 1], m.Queue(), second, layout.Queue());
        }
        WholeItemFacts(mem[..], l.Queue(), m.Queue(), layout.Queue(), head, headLen, two, tail, tailLen);
        HandlesFacts(mem[..], head, headLen, two, tail, tailLen);
      }
    }

    /** The free pointer is at the header of the first part of `lay`, and nothing else has changed hands. */
    ghost predicate Freeing(lay: Layout)
      reads this, mem
    {
      && LoopState(lay, mem[..]) && lay.store == store && store.Valid()
      && lay.free == free && lay.write == write && lay.ReadPos() == read
    }

    /** One turn of the loop of `prvReturnItemDefault`. */
    method FreeFirst(ghost lay: Layout, header: Header) returns (ghost rest: Layout, next: Header)
      requires Freeing(lay) && free + HEADER_SIZE <= mem.Length && header == HeaderAt(free)
      requires (header.freed || header.dummy) && free != read
      modifies this`free, mem
      ensures Freeing(rest) && free + HEADER_SIZE <= mem.Length && next == HeaderAt(free)
      ensures Reclaim(lay) == Reclaim(rest) && rest.taken < lay.taken && !rest.Full() && lay.free != lay.ReadPos()
    {
      hide Layout.Shape, Layout.Linked, Layout.ReadPos, Stored, DecodeHeader, EncodeHeader, AlignUp, LoopState, Loose,
        Pop, Reclaim, WriteHeader;
      SameSlice(free, HEADER_SIZE);
      LoopGuard(lay, mem[..]);
      LoopStep(lay, mem[..]);
      ReclaimPop(lay);
      var to := 0;
      if header.dummy {
        PutHeader(free, header.(freed := true));
      } else {
        to := free + AlignUp(header.len, store.align) + HEADER_SIZE;
      }
      if store.size - to < HEADER_SIZE {
        to := 0;
      }
      free := to;
      rest := Pop(lay);
      LoopFront(rest, mem[..]);
      next := HeaderAt(free);
    }

    /**
     * The loop of `prvReturnItemDefault`: the free pointer moves up to the next item still out, or to the read
     * pointer.
     */
    method AdvanceFree(ghost first: Layout) returns (ghost lay: Layout)
      requires Freeing(first)
      modifies this`free, mem
      ensures Freeing(lay)
      ensures first.free == first.ReadPos() ==> lay == first
      ensures lay == first || !lay.Full()
      ensures !(lay.Full() && lay.taken == |lay.Parts()|) ==>
        && Reclaim(first) == lay
        && if lay.Full() then free == write && (lay.taken > 0 ==> free != read) else free != write || free == read
    {
      hide Layout.Shape, Layout.Linked, Layout.ReadPos, Stored, DecodeHeader, EncodeHeader, AlignUp, LoopState, Loose,
        Pop, Reclaim, WriteHeader;
      lay := first;
      LoopFront(lay, mem[..]);
      var header := HeaderAt(free);
      while (header.freed || header.dummy) && free != read
        invariant Freeing(lay) && Reclaim(lay) == Reclaim(first)
        invariant lay == first || (!lay.Full() && first.free != first.ReadPos())
        invariant free + HEADER_SIZE <= mem.Length && header == HeaderAt(free)
        decreases lay.taken
      {
        lay, header := FreeFirst(lay, header);
      }
      SameSlice(free, HEADER_SIZE);
      if !(lay.Full() && lay.taken == |lay.Parts()|) {
        LoopEnd(lay, mem[..]);
      }
    }

    /**
     * `prvReturnItemDefault`. Safe unless the buffer is full, wholly received (read meets free), and
     * something else is still out.
     */
    method ReturnItem(ptr: nat, ghost data: seq<byte>)
      requires Valid() && (ptr, data) in layout.Out()
      modifies this`free, this`full, this`layout, mem
      ensures var safe := old(full && read == free ==> layout.Out() == {(ptr, data)});
        && (safe ==> Valid() && (read == free || exists h :: h in layout.Out() && h.0 == free + HEADER_SIZE))
        && (safe ==> layout.Out() == old(layout.Out()) - {(ptr, data)} && layout.Queue() == old(layout.Queue()))
        && (!safe ==> !full && free == write == read && old(layout.Out()) - {(ptr, data)} != {})
    {
      hide Layout.Shape, Layout.Counted, Layout.Linked, Layout.ReadPos, Layout.Queue, Layout.Out, Stored,
        DecodeHeader, EncodeHeader, AlignUp, Joined, Mark, LoopState, Loose, Pop, Reclaim, WriteHeader, ReturnLayout;
      ghost var l := layout;
      ghost var j := FindOut(l, ptr, data);
      ghost var special := full && free == read;
      Basics(l);
      ReturnCases(l, j);
      MarkFacts(l, j, mem[..]);
      SameSlice(ptr - HEADER_SIZE, HEADER_SIZE);
      PutHeader(ptr - HEADER_SIZE, HeaderAt(ptr - HEADER_SIZE).(split := false, freed := true));
      ghost var lay := AdvanceFree(Mark(l, j));
      StateStored(lay, mem[..]);
      if full {
        if free != write {
          full := false;
        } else if free == write && free == read {
          full := false;
        }
      }
      if !special {
        layout := lay;
      } else if l.Out() == {(ptr, data)} {
        EmptiedTied(l, mem[..]);
        layout := ReturnLayout(l, j);
      }
    }
  }
}
