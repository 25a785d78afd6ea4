/** Parts of an item-mode ring buffer as bytes in its store, and what the code reads and writes there. */
module RingMemory {
  import opened Bytes
  import opened RingLayout
  import opened RingSteps
  import opened RingReturn

  // ---------------------------------------------------------------- parts in memory

  predicate Holds(m: seq<byte>, p: Part) {
    && p.pos + HEADER_SIZE + |p.data| <= |m|
    && |p.data| < 0x1_0000_0000
    && m[p.pos..p.pos + HEADER_SIZE] == EncodeHeader(HeaderOf(p))
    && m[p.pos + HEADER_SIZE..p.pos + HEADER_SIZE + |p.data|] == p.data
  }

  predicate Stored(ps: seq<Part>, m: seq<byte>) {
    forall i :: 0 <= i < |ps| ==> Holds(m, ps[i])
  }

  function WriteHeader(m: seq<byte>, at: nat, h: Header): (r: seq<byte>)
    requires at + HEADER_SIZE <= |m| && h.len < 0x1_0000_0000
    ensures |r| == |m|
  {
    Patch(m, at, EncodeHeader(h))
  }

  function WritePart(m: seq<byte>, p: Part): (r: seq<byte>)
    requires p.pos + HEADER_SIZE + |p.data| <= |m| && |p.data| < 0x1_0000_0000
    ensures |r| == |m|
  {
    Patch(WriteHeader(m, p.pos, HeaderOf(p)), p.pos + HEADER_SIZE, p.data)
  }

  lemma WriteHolds(m: seq<byte>, p: Part)
    requires p.pos + HEADER_SIZE + |p.data| <= |m| && |p.data| < 0x1_0000_0000
    ensures Holds(WritePart(m, p), p)
  {
    var h := EncodeHeader(HeaderOf(p));
    var m1 := Patch(m, p.pos, h);
    PatchHit(m, p.pos, h);
    PatchFrame(m1, p.pos + HEADER_SIZE, p.data, p.pos, p.pos + HEADER_SIZE);
    PatchHit(m1, p.pos + HEADER_SIZE, p.data);
    hide Patch, EncodeHeader;
  }

  /** A write outside `q` leaves it in place. */
  lemma HoldsFrame(m: seq<byte>, at: nat, bytes: seq<byte>, q: Part)
    requires Holds(m, q) && at + |bytes| <= |m|
    requires q.pos + HEADER_SIZE + |q.data| <= at || at + |bytes| <= q.pos
    ensures Holds(Patch(m, at, bytes), q)
  {
    PatchFrame(m, at, bytes, q.pos, q.pos + HEADER_SIZE);
    PatchFrame(m, at, bytes, q.pos + HEADER_SIZE, q.pos + HEADER_SIZE + |q.data|);
    hide Patch, EncodeHeader;
  }

  lemma WriteFrame(m: seq<byte>, p: Part, q: Part)
    requires p.pos + HEADER_SIZE + |p.data| <= |m| && |p.data| < 0x1_0000_0000 && Holds(m, q)
    requires q.pos + HEADER_SIZE + |q.data| <= p.pos || p.pos + HEADER_SIZE + |p.data| <= q.pos
    ensures Holds(WritePart(m, p), q)
  {
    HoldsFrame(m, p.pos, EncodeHeader(HeaderOf(p)), q);
    HoldsFrame(WriteHeader(m, p.pos, HeaderOf(p)), p.pos + HEADER_SIZE, p.data, q);
    hide Patch, EncodeHeader, Holds;
  }

  lemma PartFits(s: Store, p: Part)
    requires s.Valid() && s.PartOk(p)
    ensures p.pos + HEADER_SIZE + |p.data| <= s.End(p) <= s.size && |p.data| < 0x1_0000_0000
  {
    EndFacts(s, p);
  }

  /** No byte of any part in the buffer changes when a new part is written into the free space. */
  lemma PushStored(l: Layout, p: Part, m: seq<byte>)
    requires l.Shape() && Room(l, p) && |m| == l.store.size && Stored(l.Parts(), m)
    ensures p.pos + HEADER_SIZE + |p.data| <= |m| && |p.data| < 0x1_0000_0000
    ensures Stored(Push(l, p).Parts(), WritePart(m, p))
  {
    PartFits(l.store, p);
    PushParts(l, p);
    WriteHolds(m, p);
    var ps := l.Parts();
    forall i | 0 <= i < |ps|
      ensures Holds(WritePart(m, p), ps[i])
    {
      PartOutsideRoom(l, p, i);
      PartFits(l.store, ps[i]);
      WriteFrame(m, p, ps[i]);
    }
    hide Layout.Shape, Holds, WritePart, Room;
  }

  lemma HeaderHolds(m: seq<byte>, q: Part, p: Part)
    requires Holds(m, q) && p.pos == q.pos && p.data == q.data
    ensures Holds(WriteHeader(m, p.pos, HeaderOf(p)), p)
  {
    var h := EncodeHeader(HeaderOf(p));
    PatchHit(m, p.pos, h);
    PatchFrame(m, p.pos, h, p.pos + HEADER_SIZE, p.pos + HEADER_SIZE + |p.data|);
    hide Patch, EncodeHeader;
  }

  lemma OtherApart(l: Layout, i: nat, j: nat)
    requires l.Shape() && i < |l.Parts()| && j < |l.Parts()| && i != j
    ensures var p, q := l.Parts()[i], l.Parts()[j];
      || p.pos + HEADER_SIZE + |p.data| <= q.pos
      || q.pos + HEADER_SIZE + |q.data| <= p.pos
  {
    PartsDisjoint(l, if i < j then i else j, if i < j then j else i);
    PartFits(l.store, l.Parts()[i]);
    PartFits(l.store, l.Parts()[j]);
  }

  /** The header of a part can be rewritten without touching any other part. */
  lemma HeaderStored(l: Layout, j: nat, p: Part, m: seq<byte>)
    requires l.Shape() && |m| == l.store.size && Stored(l.Parts(), m) && j < |l.Parts()|
    requires p.pos == l.Parts()[j].pos && p.data == l.Parts()[j].data
    ensures p.pos + HEADER_SIZE + |p.data| <= |m| && |p.data| < 0x1_0000_0000
    ensures Stored(l.Parts()[j := p], WriteHeader(m, p.pos, HeaderOf(p)))
  {
    var ps := l.Parts();
    var q := ps[j];
    assert Holds(m, q);
    HeaderHolds(m, q, p);
    forall i | 0 <= i < |ps| && i != j
      ensures Holds(WriteHeader(m, p.pos, HeaderOf(p)), ps[i])
    {
      OtherApart(l, i, j);
      HoldsFrame(m, p.pos, EncodeHeader(HeaderOf(p)), ps[i]);
    }
    hide Layout.Shape, Patch, EncodeHeader;
  }

  /** Every item that is out can still be read, byte for byte, at its address. */
  lemma OutIntact(ps: seq<Part>, t: nat, m: seq<byte>, ptr: nat, data: seq<byte>)
    requires t <= |ps| && Stored(ps, m) && (ptr, data) in OutOf(ps[..t])
    ensures ptr + |data| <= |m| && m[ptr..ptr + |data|] == data
  {
    var i :| 0 <= i < t && ps[..t][i].IsOut() && (ptr, data) == Handle(ps[..t][i]);
    assert Holds(m, ps[i]);
  }

  lemma SplitInHi(l: Layout, i: nat)
    requires l.Linked() && i < |l.Parts()| && l.Parts()[i].split
    ensures i < |l.hi|
  {
  }

  lemma SplitFollowed(l: Layout, i: nat)
    requires l.Shape() && l.Linked() && i < |l.Parts()| && l.Parts()[i].split
    ensures i + 1 < |l.Parts()| && l.Parts()[i + 1].pos == 0 < l.Parts()[i].pos
    ensures !l.Parts()[i + 1].split && !l.Parts()[i + 1].dummy
    ensures l.Parts()[i].data != [] && l.Parts()[i + 1].data != []
  {
    SplitInHi(l, i);
    assert l.Parts()[i] == l.hi[i] && l.Parts()[i + 1] == l.lo[0];
    ChainHead(l.store, l.lo, 0, l.write);
    OtherApart(l, i, i + 1);
  }

  /** Behind a first half lies the second half, at the head of the store. */
  lemma TailFollows(l: Layout)
    requires l.Valid() && l.Queue() != [] && l.Queue()[0].more
    ensures |l.Queue()| >= 2 && !l.Queue()[1].more
    ensures l.Queue()[0].data != [] && l.Queue()[1].data != []
    ensures var i := Next(l); i + 1 < |l.Parts()| && l.Parts()[i + 1].pos == 0 < l.Parts()[i].pos
    ensures !l.Parts()[Next(l) + 1].dummy
  {
    hide Layout.Shape, Layout.Linked, Layout.Counted, Chunks;
    Basics(l);
    QueueEmpty(l);
    TakeValid(l);
    var i := Next(l);
    SplitFollowed(l, i);
    ChunksHead(l.Parts(), i + 1);
  }

  lemma ChunksHead(ps: seq<Part>, t: nat)
    requires t < |ps| && !ps[t].dummy
    ensures Chunks(ps[t..]) == [Chunk(ps[t].data, ps[t].split)] + Chunks(ps[t + 1..])
  {
    assert ps[t..][0] == ps[t] && ps[t..][1..] == ps[t + 1..];
  }

  lemma QueueEmpty(l: Layout)
    requires l.Valid()
    ensures l.Queue() == [] <==> l.taken == |l.Parts()|
  {
    if l.taken < |l.Parts()| {
      TakeValid(l);
    }
  }

  function EmptyLayout(s: Store): Layout {
    Layout(s, [], [], false, 0, 0, 0)
  }

  lemma EmptyValid(s: Store)
    requires s.Valid()
    ensures EmptyLayout(s).Valid() && EmptyLayout(s).Queue() == [] && EmptyLayout(s).Out() == {}
  {
  }

  lemma FirstFacts(l: Layout, item: seq<byte>, m: seq<byte>)
    requires SendRequires(l, item) && |m| == l.store.size && Stored(l.Parts(), m)
    requires l.store.size - l.write < l.store.Total(|item|)
    ensures var p := FirstPart(l, item);
      && p.pos + HEADER_SIZE + |p.data| <= |m| && |p.data| < 0x1_0000_0000 && l.store.Valid()
      && var r := Push(l, p);
      && r.Shape() && r.Counted() && Stored(r.Parts(), WritePart(m, p))
      && r.store == l.store && r.free == l.free && r.write == 0 && r.ReadPos() == l.ReadPos()
      && |r.Queue()| == |l.Queue()| + (if p.dummy then 0 else 1)
  {
    var p := FirstPart(l, item);
    FirstRoom(l, item);
    PushStored(l, p, m);
    PushShape(l, p);
    QueueGrows(l, p);
    PushReadPos(l, p);
    hide Layout.Shape, Layout.Counted, Stored, Layout.ReadPos, Layout.Queue, WritePart, Room, FirstPart, Fits;
  }

  /** What both copy functions rely on. */
  lemma SendFacts(l: Layout, item: seq<byte>)
    requires SendRequires(l, item)
    ensures Pointed(l) && !l.Full()
    ensures SendLayout(l, item).Full() <==> SendLayout(l, item).write == SendLayout(l, item).free
  {
    SendShape(l, item);
    FullWhenMet(SendLayout(l, item));
    assert SendLayout(l, item).Parts() != [] by { SendNonEmpty(l, item); }
  }

  lemma SendNonEmpty(l: Layout, item: seq<byte>)
    requires SendRequires(l, item)
    ensures SendLayout(l, item).Parts() != []
  {
    hide Store.Chain, Store.PartOk, Fits, FirstPart;
  }

  lemma WholeFacts(l: Layout, item: seq<byte>)
    requires SendRequires(l, item) && l.store.Total(|item|) <= l.store.size - l.write
    ensures Pointed(l) && Room(l, Item(l.write, item))
    ensures SendLayout(l, item) == Push(l, Item(l.write, item))
  {
    WholeRoom(l, item);
    hide Store.Chain, Store.PartOk, Fits, Room, Push, AlignUp;
  }

  lemma CutTail(s: Store, write: nat, free: nat, n: nat)
    requires s.Valid() && n <= s.Max() && Aligned(write, s.align)
    requires free <= write && write + HEADER_SIZE <= s.size
    requires Fits(s, write, free, false, n)
    requires s.size - write < s.Total(n)
    ensures var room := s.size - write - HEADER_SIZE;
      s.kind == AllowSplit && room > 0 ==>
        room < n && AlignUp(n - room, s.align) == AlignUp(n, s.align) - room
  {
    HeadRoom(s, write, free, n);
    var room := s.size - write - HEADER_SIZE;
    if s.kind == AllowSplit && room > 0 {
      AlignTail(n, room, s.align);
    }
  }

  /** How `remLen` determines the two pieces. */
  lemma CutFacts(l: Layout, item: seq<byte>)
    requires SendRequires(l, item) && l.store.size - l.write < l.store.Total(|item|)
    ensures Pointed(l)
    ensures l.store.kind == AllowSplit && l.store.size - l.write > HEADER_SIZE ==>
      l.store.size - l.write - HEADER_SIZE <= |item|
    ensures FirstPart(l, item) ==
      if l.store.kind == AllowSplit && l.store.size - l.write > HEADER_SIZE
      then Part(l.write, item[..l.store.size - l.write - HEADER_SIZE], false, true, false)
      else Dummy(l.write)
    ensures var p := FirstPart(l, item);
      && |p.data| <= |item|
      && Room(Push(l, p), Item(0, item[|p.data|..]))
      && AlignUp(|item| - |p.data|, l.store.align) == AlignUp(|item|, l.store.align) - |p.data|
      && SendLayout(l, item) == Push(Push(l, p), Item(0, item[|p.data|..]))
  {
    CutTail(l.store, l.write, l.free, |item|);
    SplitRoom(l, item);
    hide Store.Chain, Store.PartOk, Fits, Room, Push, AlignUp;
  }

  /** In a buffer that is not empty the pointers meet only when it is full. */
  lemma FullWhenMet(l: Layout)
    requires l.Shape()
    ensures l.Parts() != [] ==> (l.Full() <==> l.write == l.free)
  {
    if l.Parts() != [] && !l.wrapped {
      ChainHead(l.store, l.hi, l.free, l.write);
    }
  }

  lemma QueueMoves(received: seq<Chunk>, q: seq<Chunk>, c: Chunk, r: seq<Chunk>)
    requires q == [c] + r
    ensures received + [c] + r == received + q
  {
  }

  lemma JoinedOne(q: seq<Chunk>, r: seq<Chunk>)
    requires q != [] && q == [q[0]] + r && !q[0].more
    ensures Joined(q) == [q[0].data] + Joined(r)
  {
    assert q[1..] == r;
  }

  lemma JoinedTwo(q: seq<Chunk>, m: seq<Chunk>, r: seq<Chunk>)
    requires q != [] && m != [] && q == [q[0]] + m && m == [m[0]] + r && q[0].more
    ensures Joined(q) == [q[0].data + m[0].data] + Joined(r)
  {
    assert q[1] == m[0] && q[2..] == r;
  }

  /**
   * What `q` loses when its oldest item is received whole, in one part or in two, neither of them empty and the
   * second below the first.
   */
  ghost predicate WholeItem(m: seq<byte>, q: seq<Chunk>, rest: seq<Chunk>, head: nat, headLen: nat, two: bool,
      tail: nat, tailLen: nat) {
    && head + headLen <= |m| && tail + tailLen <= |m|
    && var first, second := m[head..head + headLen], m[tail..tail + tailLen];
    && q == (if two then [Chunk(first, true), Chunk(second, false)] else [Chunk(first, false)]) + rest
    && Joined(q) == [if two then first + second else first] + Joined(rest)
    && (two ==> tail < head && headLen > 0 && tailLen > 0)
  }

  lemma WholeItemFacts(m: seq<byte>, q: seq<Chunk>, mid: seq<Chunk>, rest: seq<Chunk>, head: nat, headLen: nat,
      two: bool, tail: nat, tailLen: nat)
    requires head + headLen <= |m| && tail + tailLen <= |m|
    requires q == [Chunk(m[head..head + headLen], two)] + mid
    requires if two
      then mid == [Chunk(m[tail..tail + tailLen], false)] + rest && tail < head && headLen > 0 && tailLen > 0
      else mid == rest
    ensures WholeItem(m, q, rest, head, headLen, two, tail, tailLen)
  {
    if two {
      JoinedTwo(q, mid, rest);
    } else {
      JoinedOne(q, rest);
    }
  }

  /** Address and data of the parts that were handed out. */
  ghost function HandlesAt(m: seq<byte>, head: nat, headLen: nat, two: bool, tail: nat, tailLen: nat)
    : set<(nat, seq<byte>)>
    requires head + headLen <= |m| && tail + tailLen <= |m|
  {
    {(head, m[head..head + headLen])} + if two then {(tail, m[tail..tail + tailLen])} else {}
  }

  lemma HandlesFacts(m: seq<byte>, head: nat, headLen: nat, two: bool, tail: nat, tailLen: nat)
    requires head + headLen <= |m| && tail + tailLen <= |m|
    ensures HandlesAt(m, head, headLen, two, tail, tailLen) ==
      {(head, m[head..head + headLen])} + if two then {(tail, m[tail..tail + tailLen])} else {}
  {
  }

  /** After the first half has been taken, the second is next. */
  lemma TailNext(l: Layout)
    requires l.Valid() && l.Queue() != [] && l.Queue()[0].more
    ensures TakeLayout(l).taken < |l.Parts()| && Next(TakeLayout(l)) == Next(l) + 1
    ensures TakeLayout(l).Valid()
    ensures TakeLayout(l).Parts()[Next(TakeLayout(l))].pos < l.Parts()[Next(l)].pos
  {
    QueueEmpty(l);
    TailFollows(l);
    TakeValid(l);
  }

  lemma FifoGrows(received: seq<Chunk>, q: seq<Chunk>, item: seq<byte>, cut: nat)
    requires cut <= |item|
    requires var all := received + q; all == [] || !all[|all| - 1].more
    ensures var all := received + (q + Pieces(item, cut));
      && Joined(all) == Joined(received + q) + [item]
      && all != [] && !all[|all| - 1].more
  {
    JoinedAppend(received + q, Pieces(item, cut));
    JoinedPieces(item, cut);
    assert received + (q + Pieces(item, cut)) == received + q + Pieces(item, cut);
  }

  /** While something is queued, the read pointer meets the write pointer only in a full buffer. */
  lemma ReadMeetsWrite(l: Layout)
    requires l.Valid()
    ensures l.Queue() != [] ==> l.ReadPos() != l.write || l.Full()
  {
    QueueEmpty(l);
    if l.taken < |l.Parts()| {
      BeforeWrite(l, l.taken);
    }
    hide Layout.Shape, Layout.Linked, Layout.Counted, Layout.Queue;
  }

  lemma BeforeWrite(l: Layout, i: nat)
    requires l.Shape() && i < |l.Parts()|
    ensures l.Parts()[i].pos != l.write || l.Full()
  {
    NextPos(l, i);
    EndFacts(l.store, l.Parts()[i]);
    if i < |l.hi| {
      assert l.free <= l.hi[i].pos < l.store.End(l.hi[i]);
      assert !l.wrapped ==> l.store.End(l.hi[i]) <= l.write;
    } else {
      assert l.Parts()[i] == l.lo[i - |l.hi|];
      assert l.store.End(l.lo[i - |l.hi|]) <= l.write;
    }
  }

  lemma HeaderRead(m: seq<byte>, p: Part)
    requires Holds(m, p)
    ensures DecodeHeader(m[p.pos..p.pos + HEADER_SIZE]) == HeaderOf(p)
  {
    DecodeEncodeHeader(HeaderOf(p));
  }

  /** What `prvGetItemDefault` reads at the read pointer, and behind a dummy there. */
  lemma TakeHeaders(l: Layout, m: seq<byte>)
    requires l.Shape() && l.Linked() && l.taken < |l.Parts()| && |m| == l.store.size && Stored(l.Parts(), m)
    ensures Next(l) < |l.Parts()| && l.ReadPos() == l.Parts()[l.taken].pos
    ensures Holds(m, l.Parts()[l.taken]) && Holds(m, l.Parts()[Next(l)]) && !l.Parts()[Next(l)].dummy
    ensures DecodeHeader(m[l.ReadPos()..l.ReadPos() + HEADER_SIZE]) == HeaderOf(l.Parts()[l.taken])
    ensures l.Parts()[l.taken].dummy ==> l.Parts()[Next(l)].pos == 0
    ensures var p := l.Parts()[Next(l)];
      DecodeHeader(m[p.pos..p.pos + HEADER_SIZE]) == HeaderOf(p)
  {
    hide DecodeHeader, EncodeHeader, AlignUp, Aligned;
    var ps := l.Parts();
    if ps[l.taken].dummy {
      DummyLeads(l, l.taken);
    }
    assert Holds(m, ps[l.taken]) && Holds(m, ps[Next(l)]);
    HeaderRead(m, ps[l.taken]);
    HeaderRead(m, ps[Next(l)]);
    hide Layout.Shape, Layout.Linked;
  }

  /** All that `prvGetItemDefault` relies on. */
  lemma TakeFacts(l: Layout, m: seq<byte>)
    requires l.Valid() && l.Queue() != [] && |m| == l.store.size && Stored(l.Parts(), m)
    ensures l.taken < |l.Parts()| && Next(l) < |l.Parts()| && l.store.Valid()
    ensures l.ReadPos() == l.Parts()[l.taken].pos && l.ReadPos() + HEADER_SIZE <= |m|
    ensures DecodeHeader(m[l.ReadPos()..l.ReadPos() + HEADER_SIZE]) == HeaderOf(l.Parts()[l.taken])
    ensures l.Parts()[l.taken].dummy ==> l.Parts()[Next(l)].pos == 0
    ensures var p := l.Parts()[Next(l)];
      && p.pos + l.store.Total(|p.data|) <= l.store.size
      && p.pos + HEADER_SIZE + |p.data| <= |m|
      && DecodeHeader(m[p.pos..p.pos + HEADER_SIZE]) == HeaderOf(p) && !p.dummy
      && m[p.pos + HEADER_SIZE..p.pos + HEADER_SIZE + |p.data|] == p.data
      && TakeLayout(l).Valid()
      && l.Queue() == [Chunk(p.data, p.split)] + TakeLayout(l).Queue()
      && TakeLayout(l).Out() == l.Out() + {Handle(p)}
      && TakeLayout(l).ReadPos() ==
         if l.store.size - (p.pos + l.store.Total(|p.data|)) < HEADER_SIZE then 0 else p.pos + l.store.Total(|p.data|)
  {
    QueueEmpty(l);
    TakeHeaders(l, m);
    TakeValid(l);
    NextPos(l, Next(l));
    EndFacts(l.store, l.Parts()[Next(l)]);
    hide Layout.Shape, Layout.Counted, Stored, Layout.Queue, Layout.Linked, Layout.Out, Layout.ReadPos, DecodeHeader,
      EncodeHeader, AlignUp;
  }

  lemma TakeKeeps(l: Layout)
    requires l.Valid() && l.taken < |l.Parts()|
    ensures var r := TakeLayout(l);
      && r.taken <= |r.Parts()| && r.Parts() == l.Parts() && r.store == l.store
      && r.free == l.free && r.write == l.write && r.Full() == l.Full()
  {
    TakeValid(l);
  }

  lemma PushReadPos(l: Layout, p: Part)
    requires l.store.Valid() && (!l.wrapped ==> l.lo == []) && l.taken <= |l.Parts()| && p.pos == l.write
    ensures Push(l, p).ReadPos() == l.ReadPos()
  {
    PushParts(l, p);
  }

  /** The write pointer moves over the part, and on to the head when no header fits behind it. */
  lemma PushWrite(l: Layout, p: Part)
    requires l.Shape() && Room(l, p) && !p.dummy
    ensures var e := p.pos + l.store.Total(|p.data|);
      && e <= l.store.size
      && Push(l, p).store == l.store && Push(l, p).free == l.free
      && Push(l, p).write == if l.store.size - e < HEADER_SIZE then 0 else e
  {
  }

  /** All that `WriteItem` has to know about its part. */
  lemma PushFacts(l: Layout, p: Part, m: seq<byte>)
    requires l.Shape() && l.Counted() && Room(l, p) && |m| == l.store.size && Stored(l.Parts(), m)
    requires !p.dummy && !p.returned
    ensures p.pos + HEADER_SIZE + |p.data| <= |m| && |p.data| < 0x1_0000_0000
    ensures var r, e := Push(l, p), p.pos + l.store.Total(|p.data|);
      && l.store.Valid() && r.Shape() && r.Counted() && Stored(r.Parts(), WritePart(m, p))
      && r.store == l.store && r.free == l.free && r.ReadPos() == l.ReadPos()
      && |r.Queue()| == |l.Queue()| + 1
      && e <= l.store.size && r.write == (if l.store.size - e < HEADER_SIZE then 0 else e)
  {
    PushStored(l, p, m);
    PushShape(l, p);
    QueueGrows(l, p);
    PushReadPos(l, p);
    PushWrite(l, p);
    hide Layout.Shape, Layout.Counted, Stored, Layout.ReadPos, Push, Layout.Queue, WritePart, Room;
  }

  // ---------------------------------------------------------------- returning

  /** The part behind an address that was handed out. */
  lemma FindOut(l: Layout, ptr: nat, data: seq<byte>) returns (j: nat)
    requires l.Counted() && (ptr, data) in l.Out()
    ensures j < l.taken <= |l.Parts()| && l.Parts()[j].IsOut() && Handle(l.Parts()[j]) == (ptr, data)
  {
    var ps := l.Parts()[..l.taken];
    var i :| 0 <= i < |ps| && ps[i].IsOut() && (ptr, data) == Handle(ps[i]);
    j := i;
  }

  /** What the reclaim loop keeps. */
  predicate LoopState(l: Layout, m: seq<byte>) {
    && l.Shape() && l.Linked() && Loose(l.Parts(), l.taken)
    && |m| == l.store.size && Stored(l.Parts(), m)
  }

  lemma StateStored(l: Layout, m: seq<byte>)
    requires LoopState(l, m)
    ensures Stored(l.Parts(), m) && |m| == l.store.size
    ensures l.write == l.free && !l.Full() ==> l.ReadPos() == l.free
  {
    FullWhenMet(l);
  }

  /** Marking the header of a returned item is what `Mark` does to the layout. */
  lemma MarkFacts(l: Layout, j: nat, m: seq<byte>)
    requires l.Valid() && j < l.taken && l.Parts()[j].IsOut() && |m| == l.store.size && Stored(l.Parts(), m)
    ensures var p := l.Parts()[j];
      && p.pos + HEADER_SIZE <= |m| && |p.data| < 0x1_0000_0000
      && DecodeHeader(m[p.pos..p.pos + HEADER_SIZE]) == HeaderOf(p)
      && LoopState(Mark(l, j), WriteHeader(m, p.pos, HeaderOf(Returned(p))))
      && Mark(l, j).ReadPos() == l.ReadPos() && Mark(l, j).Full() == l.Full()
      && Mark(l, j).free == l.free && Mark(l, j).write == l.write && Mark(l, j).store == l.store
      && Mark(l, j).taken == l.taken && |Mark(l, j).Parts()| == |l.Parts()|
  {
    MarkShape(l, j);
    MarkLinked(l, j);
    MarkOut(l, j);
    MarkReadPos(l, j);
    MarkParts(l, j);
    assert Holds(m, l.Parts()[j]);
    HeaderRead(m, l.Parts()[j]);
    HeaderStored(l, j, Returned(l.Parts()[j]), m);
    hide Layout.Shape, Layout.Linked, Layout.Counted, Stored, Loose, DecodeHeader, EncodeHeader, WriteHeader,
      Layout.ReadPos, Layout.Out, Layout.Queue;
  }

  /** Before the read pointer the free pointer is at a header that was written for the first part. */
  lemma LoopFront(l: Layout, m: seq<byte>)
    requires LoopState(l, m)
    ensures l.free + HEADER_SIZE <= |m|
    ensures l.taken > 0 ==> l.hi != [] && l.hi[0] == l.Parts()[0] && l.free == l.hi[0].pos && Holds(m, l.hi[0])
    ensures l.taken > 0 ==> DecodeHeader(m[l.free..l.free + HEADER_SIZE]) == HeaderOf(l.hi[0])
  {
    if l.taken > 0 {
      FrontExists(l);
      assert Holds(m, l.Parts()[0]);
      HeaderRead(m, l.hi[0]);
    }
  }

  lemma StoredTail(ps: seq<Part>, m: seq<byte>)
    requires ps != [] && Stored(ps, m)
    ensures Stored(ps[1..], m)
  {
    assert forall i :: 0 <= i < |ps[1..]| ==> ps[1..][i] == ps[i + 1];
  }

  /** One turn of the loop takes the first part off the layout. */
  lemma LoopStep(l: Layout, m: seq<byte>)
    requires LoopState(l, m) && l.taken > 0 && l.hi != [] && !l.hi[0].IsOut() && Holds(m, l.hi[0])
    requires l.hi[0] == l.Parts()[0]
    ensures l.store.Valid()
    ensures LoopState(Pop(l), m)
    ensures l.hi[0].dummy ==> LoopState(Pop(l), WriteHeader(m, l.hi[0].pos, HeaderOf(l.hi[0]).(freed := true)))
    ensures Pop(l).store == l.store && Pop(l).write == l.write && Pop(l).ReadPos() == l.ReadPos() && !Pop(l).Full()
    ensures var next := if l.hi[0].dummy then 0 else l.hi[0].pos + l.store.Total(|l.hi[0].data|);
      next <= l.store.size && Pop(l).free == if l.store.size - next < HEADER_SIZE then 0 else next
  {
    hide Layout.Shape, Layout.Linked, Stored, NoneReturned, DecodeHeader, EncodeHeader, WriteHeader, Layout.ReadPos,
      Pop, OutOf, AlignUp;
    PopGeometry(l);
    DropFront(l.Parts(), l.taken);
    StoredTail(l.Parts(), m);
    if l.hi[0].dummy {
      DummyTail(l, m);
    }
  }

  /** Where everything is without the first part. */
  lemma PopGeometry(l: Layout)
    requires l.Shape() && l.Linked() && l.hi != [] && 0 < l.taken <= |l.Parts()|
    ensures l.store.Valid() && Pop(l).Shape() && Pop(l).Linked() && !Pop(l).Full()
    ensures Pop(l).Parts() == l.Parts()[1..] && Pop(l).taken == l.taken - 1
    ensures Pop(l).store == l.store && Pop(l).write == l.write && Pop(l).ReadPos() == l.ReadPos()
    ensures var next := if l.hi[0].dummy then 0 else l.hi[0].pos + l.store.Total(|l.hi[0].data|);
      next <= l.store.size && Pop(l).free == if l.store.size - next < HEADER_SIZE then 0 else next
  {
    PopShape(l);
    PopLinked(l);
    PopReadPos(l);
    PopFree(l);
    hide Layout.Shape, Layout.Linked, Layout.ReadPos, AlignUp;
  }

  /** Marking the dummy that is dropped changes none of the parts behind it. */
  lemma DummyTail(l: Layout, m: seq<byte>)
    requires l.Shape() && |m| == l.store.size && l.hi != [] && l.hi[0] == l.Parts()[0] && Stored(l.Parts(), m)
    ensures var q := l.hi[0].(returned := true);
      && |WriteHeader(m, q.pos, HeaderOf(q))| == |m| && Stored(l.Parts()[1..], WriteHeader(m, q.pos, HeaderOf(q)))
  {
    var p := l.hi[0];
    var q := p.(returned := true);
    HeaderStored(l, 0, q, m);
    StoredTail(l.Parts()[0 := q], WriteHeader(m, p.pos, HeaderOf(q)));
    assert l.Parts()[0 := q][1..] == l.Parts()[1..];
  }

  lemma PopReadPos(l: Layout)
    requires l.Shape() && l.Linked() && l.hi != [] && 0 < l.taken <= |l.Parts()|
    ensures Pop(l).ReadPos() == l.ReadPos() && Pop(l).store == l.store && Pop(l).write == l.write
  {
    PopLinked(l);
  }

  lemma PopFree(l: Layout)
    requires l.Shape() && l.Linked() && l.hi != [] && l.taken > 0
    ensures var next := if l.hi[0].dummy then 0 else l.hi[0].pos + l.store.Total(|l.hi[0].data|);
      next <= l.store.size && Pop(l).free == if l.store.size - next < HEADER_SIZE then 0 else next
  {
    PopShape(l);
    EndFacts(l.store, l.hi[0]);
    FrontExists(l);
  }

  /** Where the loop goes on, there is a part to drop. */
  lemma LoopGuard(l: Layout, m: seq<byte>)
    requires LoopState(l, m) && l.free != l.ReadPos() && l.free + HEADER_SIZE <= |m|
    requires var h := DecodeHeader(m[l.free..l.free + HEADER_SIZE]); h.freed || h.dummy
    ensures l.taken > 0 && l.hi != [] && l.hi[0] == l.Parts()[0] && l.hi[0].pos == l.free
    ensures !l.hi[0].IsOut() && Holds(m, l.hi[0])
    ensures DecodeHeader(m[l.free..l.free + HEADER_SIZE]) == HeaderOf(l.hi[0])
  {
    FreeIsRead(l);
    LoopFront(l, m);
    hide DecodeHeader, EncodeHeader;
  }

  lemma ReclaimPop(l: Layout)
    requires l.store.Valid() && l.taken > 0 && l.hi != [] && !l.hi[0].IsOut()
    ensures Reclaim(l) == Reclaim(Pop(l)) && Pop(l).taken == l.taken - 1
  {
  }

  /** Where the loop stops, nothing more can be dropped. */
  lemma LoopEnd(l: Layout, m: seq<byte>)
    requires LoopState(l, m) && !(l.Full() && l.taken == |l.Parts()|) && l.free + HEADER_SIZE <= |m|
    requires var h := DecodeHeader(m[l.free..l.free + HEADER_SIZE]); !(h.freed || h.dummy) || l.free == l.ReadPos()
    ensures Reclaim(l) == l
    ensures if l.Full() then l.free == l.write && (l.taken > 0 ==> l.free != l.ReadPos())
            else l.free != l.write || l.free == l.ReadPos()
  {
    FreeIsRead(l);
    FullWhenMet(l);
    if l.taken > 0 {
      LoopFront(l, m);
    }
    hide DecodeHeader, EncodeHeader, Store.Chain, Stored, Pop, Layout.Linked;
  }

  lemma EmptiedTied(l: Layout, m: seq<byte>)
    ensures var r := l.(hi := [], lo := [], wrapped := false, taken := 0);
      r.ReadPos() == r.write && Stored(r.Parts(), m)
  {
  }

  lemma ReturnGood(l: Layout, j: nat)
    requires l.Valid() && j < l.taken <= |l.Parts()| && l.Parts()[j].IsOut() && SafeReturn(l, j)
    ensures ReturnFacts(l, j, ReturnLayout(l, j))
  {
    ReturnValid(l, j);
    var r := ReturnLayout(l, j);
    hide Layout.Linked, Layout.Queue, Reclaim, Mark, ReturnLayout;
    if r.taken > 0 {
      FrontExists(r);
      OutHas(r, 0);
      assert Handle(r.Parts()[0]) in r.Out() && Handle(r.Parts()[0]).0 == r.free + HEADER_SIZE;
    } else {
      FreeIsRead(r);
    }
  }

  /** The two ways a return goes, told apart by the flag and the pointers. */
  lemma ReturnCases(l: Layout, j: nat)
    requires l.Valid() && j < l.taken <= |l.Parts()| && l.Parts()[j].IsOut()
    ensures l.Full() && l.free == l.ReadPos() <==> l.Full() && l.taken == |l.Parts()|
    ensures Handle(l.Parts()[j]) in l.Out()
    ensures SafeReturn(l, j) ==> ReturnFacts(l, j, ReturnLayout(l, j))
    ensures l.Full() && l.taken == |l.Parts()| ==>
      ReturnLayout(l, j) == l.(hi := [], lo := [], wrapped := false, taken := 0) && l.ReadPos() == l.write
    ensures !(l.Full() && l.taken == |l.Parts()|) ==> ReturnLayout(l, j) == Reclaim(Mark(l, j))
  {
    FreeIsRead(l);
    OutHas(l, j);
    if SafeReturn(l, j) {
      ReturnGood(l, j);
    }
    hide Layout.Linked, Layout.Counted, Layout.Out, Layout.Queue, Reclaim, Mark, ReturnFacts, Store.Chain;
  }

  /** What a return has given back, in terms of the layout. */
  ghost predicate ReturnFacts(l: Layout, j: nat, r: Layout)
    requires l.taken <= |l.Parts()| && j < |l.Parts()|
  {
    && r.Valid() && r.store == l.store && r.write == l.write
    && r.Out() == l.Out() - {Handle(l.Parts()[j])}
    && r.Queue() == l.Queue()
    && (r.free == r.ReadPos() || exists h :: h in r.Out() && h.0 == r.free + HEADER_SIZE)
  }
}
