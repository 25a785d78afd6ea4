/** What sending, receiving and returning do to a layout, and what they keep. */
module RingSteps {
  import opened Bytes
  import opened RingLayout

  // ---------------------------------------------------------------- pieces and items

  lemma {:induction false} ChunksAppend(a: seq<Part>, b: seq<Part>)
    ensures Chunks(a + b) == Chunks(a) + Chunks(b)
  {
    if a == [] {
      assert a + b == b;
    } else {
      var head := if a[0].dummy then [] else [Chunk(a[0].data, a[0].split)];
      var ab := a + b;
      assert ab[0] == a[0] && ab[1..] == a[1..] + b;
      calc {
        Chunks(ab);
        head + Chunks(ab[1..]);
        { ChunksAppend(a[1..], b); }
        head + (Chunks(a[1..]) + Chunks(b));
        (head + Chunks(a[1..])) + Chunks(b);
      }
    }
  }

  lemma {:induction false} JoinedAppend(q: seq<Chunk>, r: seq<Chunk>)
    requires q == [] || !q[|q| - 1].more
    ensures Joined(q + r) == Joined(q) + Joined(r)
  {
    var qr := q + r;
    if q == [] {
      assert qr == r;
    } else {
      var n := if q[0].more then 2 else 1;
      var head := if q[0].more then q[0].data + q[1].data else q[0].data;
      assert qr[0] == q[0] && (n == 2 ==> qr[1] == q[1]) && qr[n..] == q[n..] + r;
      calc {
        Joined(qr);
        [head] + Joined(qr[n..]);
        { JoinedAppend(q[n..], r); }
        [head] + (Joined(q[n..]) + Joined(r));
        ([head] + Joined(q[n..])) + Joined(r);
      }
    }
  }

  /** The last part of a buffer is never the first half of an item, nor a dummy. */
  lemma LastPartWhole(l: Layout)
    requires l.Valid() && l.Parts() != []
    ensures var p := l.Parts()[|l.Parts()| - 1]; !p.dummy && !p.split
  {
    var ps := l.Parts();
    if l.lo == [] {
      assert ps[|ps| - 1] == l.hi[|l.hi| - 1];
    } else {
      assert ps[|ps| - 1] == l.lo[|l.lo| - 1];
    }
  }

  lemma ChunksLast(ps: seq<Part>, last: Part)
    requires !last.dummy
    ensures Chunks(ps + [last]) == Chunks(ps) + [Chunk(last.data, last.split)]
  {
    ChunksAppend(ps, [last]);
    assert [last][1..] == [];
  }

  lemma ChunksEndWhole(ps: seq<Part>)
    requires ps != [] && !ps[|ps| - 1].dummy && !ps[|ps| - 1].split
    ensures var q := Chunks(ps); q != [] && !q[|q| - 1].more
  {
    ChunksLast(ps[..|ps| - 1], ps[|ps| - 1]);
    assert ps == ps[..|ps| - 1] + [ps[|ps| - 1]];
  }

  lemma QueueEndsWhole(l: Layout)
    requires l.Valid()
    ensures l.Queue() == [] || !l.Queue()[|l.Queue()| - 1].more
  {
    if l.taken < |l.Parts()| {
      LastPartWhole(l);
      TailEndsWhole(l.Parts(), l.taken);
    }
    hide Layout.Shape, Layout.Linked, Split;
  }

  lemma TailEndsWhole(ps: seq<Part>, t: nat)
    requires t < |ps| && !ps[|ps| - 1].dummy && !ps[|ps| - 1].split
    ensures var q := Chunks(ps[t..]); q != [] && !q[|q| - 1].more
  {
    ChunksEndWhole(ps[t..]);
  }

  // ---------------------------------------------------------------- where the parts lie

  /** The part after part `i`, or the write pointer behind the last one, is where the code moves a pointer to. */
  lemma NextPos(l: Layout, i: nat)
    requires l.Shape() && i < |l.Parts()|
    ensures Wrap(l.store, l.store.End(l.Parts()[i]))
         == if i + 1 < |l.Parts()| then l.Parts()[i + 1].pos else l.write
    ensures l.store.PartOk(l.Parts()[i])
  {
    var n := |l.hi|;
    if i < n {
      EndFacts(l.store, l.hi[i]);
      if i + 1 < n {
        assert l.hi[i + 1].pos == l.store.End(l.hi[i]);
        EndFacts(l.store, l.hi[i + 1]);
      }
    } else {
      var k := i - n;
      EndFacts(l.store, l.lo[k]);
      assert l.Parts()[i] == l.lo[k];
      if k + 1 < |l.lo| {
        assert l.lo[k + 1].pos == l.store.End(l.lo[k]);
        assert l.Parts()[i + 1] == l.lo[k + 1];
        EndFacts(l.store, l.lo[k + 1]);
      }
    }
  }

  /** Different parts share no byte. */
  lemma PartsDisjoint(l: Layout, i: nat, j: nat)
    requires l.Shape() && i < j < |l.Parts()|
    ensures var p, q := l.Parts()[i], l.Parts()[j];
      && l.store.PartOk(p) && l.store.PartOk(q)
      && (l.store.End(p) <= q.pos || l.store.End(q) <= p.pos)
  {
    var n := |l.hi|;
    if j < n {
      assert l.store.End(l.hi[i]) <= l.hi[j].pos;
    } else if i < n {
      assert l.store.End(l.lo[j - n]) <= l.write;
      assert l.free <= l.hi[i].pos;
    } else {
      assert l.store.End(l.lo[i - n]) <= l.lo[j - n].pos;
    }
  }

  /** Nothing lies in the space between the write pointer and the free pointer. */
  lemma PartOutsideRoom(l: Layout, p: Part, i: nat)
    requires l.Shape() && Room(l, p) && i < |l.Parts()|
    ensures var q := l.Parts()[i];
      l.store.PartOk(q) && (l.store.End(q) <= p.pos || l.store.End(p) <= q.pos)
  {
    PushShape(l, p);
    PushParts(l, p);
    PartsDisjoint(Push(l, p), i, |l.Parts()|);
    assert Push(l, p).Parts()[i] == l.Parts()[i];
  }

  // ---------------------------------------------------------------- sending

  /** `prvCheckItemFitsDefault`. */
  predicate Fits(s: Store, write: nat, free: nat, full: bool, n: nat)
    requires s.Valid() && write <= s.size && free <= s.size
  {
    var total := s.Total(n);
    if write == free then !full
    else if free > write then total <= free - write
    else if total <= s.size - write then true
    else if s.kind == AllowSplit then total + HEADER_SIZE <= s.size - (write - free)
    else total <= free
  }

  function Item(pos: nat, data: seq<byte>): Part {
    Part(pos, data, false, false, false)
  }

  function Dummy(pos: nat): Part {
    Part(pos, [], true, false, false)
  }

  /** The write pointer leaves room for a header. */
  predicate Pointed(l: Layout) {
    l.store.Valid() && l.write + HEADER_SIZE <= l.store.size
  }

  /** What is written at the write pointer before wrapping, when `item` does not fit in one piece. */
  function FirstPart(l: Layout, item: seq<byte>): Part
    requires Pointed(l) && l.store.size - l.write < l.store.Total(|item|)
  {
    var room := l.store.size - l.write - HEADER_SIZE;
    if l.store.kind == AllowSplit && 0 < room <= |item|
    then Part(l.write, item[..room], false, true, false)
    else Dummy(l.write)
  }

  function SecondPart(l: Layout, item: seq<byte>): Part
    requires Pointed(l) && l.store.size - l.write < l.store.Total(|item|)
  {
    Item(0, item[|FirstPart(l, item).data|..])
  }

  function SendLayout(l: Layout, item: seq<byte>): Layout
    requires Pointed(l)
  {
    if l.store.Total(|item|) <= l.store.size - l.write then Push(l, Item(l.write, item))
    else Push(Push(l, FirstPart(l, item)), SecondPart(l, item))
  }

  /** An empty no-split buffer takes any admissible item in one piece, before or after the write pointer. */
  lemma HalfFits(s: Store, write: nat, n: nat)
    requires s.Valid() && s.kind == NoSplit && n <= s.Max()
    requires Aligned(write, s.align) && write <= s.size
    requires s.size - write < s.Total(n)
    ensures s.Total(n) <= write
  {
    var a := s.align;
    var half := AlignUp(s.size / 2, a);
    assert s.Total(n) <= half by {
      HeaderAligned(a);
      AlignedSum(HEADER_SIZE, half, a);
      AlignMonotone(n, s.Max(), a);
    }
    AlignedSum(write, s.size, a);
    HalfWay(s.size, s.size - write, a);
  }

  /** Of two aligned pieces that make up the store, one reaches the aligned half. */
  lemma HalfWay(size: nat, piece: nat, a: nat)
    requires IsAlignment(a) && Aligned(size, a) && Aligned(piece, a) && piece <= size
    requires piece < AlignUp(size / 2, a)
    ensures AlignUp(size / 2, a) <= size - piece
  {
    if piece <= size / 2 {
      AlignedSum(piece, size, a);
      AlignMonotone(size / 2, size - piece, a);
    } else {
      AlignMonotone(size / 2, piece, a);
    }
  }

  lemma AlignMonotone(n: nat, m: nat, a: nat)
    requires IsAlignment(a) && n <= m && Aligned(m, a)
    ensures AlignUp(n, a) <= m
  {
  }

  // ---- the two ways of sending

  /** An item that fits in one piece finds room at the write pointer. */
  lemma WholeRoom(l: Layout, item: seq<byte>)
    requires l.Valid() && |item| <= l.store.Max()
    requires Fits(l.store, l.write, l.free, l.Full(), |item|)
    requires l.store.Total(|item|) <= l.store.size - l.write
    ensures Room(l, Item(l.write, item))
  {
  }

  /** What the fit check leaves for the piece at the head of the store. */
  lemma HeadRoom(s: Store, write: nat, free: nat, n: nat)
    requires s.Valid() && n <= s.Max() && Aligned(write, s.align)
    requires free <= write && write + HEADER_SIZE <= s.size
    requires Fits(s, write, free, false, n)
    requires s.size - write < s.Total(n)
    ensures var room := s.size - write - HEADER_SIZE;
      && Aligned(room, s.align)
      && if s.kind == AllowSplit && room > 0
         then room < n && s.Total(n - room) <= free
         else s.Total(n) <= free
  {
    var a := s.align;
    var room := s.size - write - HEADER_SIZE;
    HeaderAligned(a);
    AlignedSum(write, s.size, a);
    AlignedSum(HEADER_SIZE, s.size - write, a);
    if s.kind == AllowSplit {
      if write == free {
        AlignedSum(HEADER_SIZE + HEADER_SIZE, s.size, a);
        AlignMonotone(n, s.Max(), a);
      }
      if room > 0 {
        AlignTail(n, room, a);
      }
    } else if write == free {
      HalfFits(s, write, n);
    }
  }

  /** Otherwise the space in use does not wrap, and the first piece ends with the store. */
  lemma FirstRoom(l: Layout, item: seq<byte>)
    requires l.Valid() && |item| <= l.store.Max()
    requires Fits(l.store, l.write, l.free, l.Full(), |item|)
    requires l.store.size - l.write < l.store.Total(|item|)
    ensures !l.wrapped
    ensures var p := FirstPart(l, item);
      && Room(l, p) && l.store.End(p) == l.store.size
      && p.data == item[..|p.data|]
      && (p.split ==> 0 < |p.data| < |item|)
      && l.store.Total(|item| - |p.data|) <= l.free
  {
    HeadRoom(l.store, l.write, l.free, |item|);
  }

  /** Behind it the second piece finds room at the head of the store. */
  lemma SplitRoom(l: Layout, item: seq<byte>)
    requires l.Valid() && |item| <= l.store.Max()
    requires Fits(l.store, l.write, l.free, l.Full(), |item|)
    requires l.store.size - l.write < l.store.Total(|item|)
    ensures Room(l, FirstPart(l, item))
    ensures Room(Push(l, FirstPart(l, item)), SecondPart(l, item))
  {
    FirstRoom(l, item);
    var q := SecondPart(l, item);
    assert |q.data| == |item| - |FirstPart(l, item).data|;
  }

  /** The second piece of an item cut at an aligned place takes what the whole takes, less the first piece. */
  lemma AlignTail(n: nat, cut: nat, a: nat)
    requires IsAlignment(a) && Aligned(cut, a) && cut < AlignUp(n, a)
    ensures cut < n && AlignUp(n - cut, a) == AlignUp(n, a) - cut
  {
    if n <= cut {
      AlignMonotone(n, cut, a);
    }
    AlignedSum(cut, AlignUp(n, a), a);
    AlignMonotone(n - cut, AlignUp(n, a) - cut, a);
    AlignedSum(cut, AlignUp(n - cut, a), a);
    AlignMonotone(n, cut + AlignUp(n - cut, a), a);
  }

  lemma GrowSplit(ps: seq<Part>, t: nat, p: Part)
    requires Split(ps, t) && !p.returned
    ensures Split(ps + [p], t)
    ensures (ps + [p])[..t] == ps[..t]
    ensures Chunks((ps + [p])[t..]) == Chunks(ps[t..]) + Chunks([p])
  {
    assert (ps + [p])[..t] == ps[..t];
    assert (ps + [p])[t..] == ps[t..] + [p];
    ChunksAppend(ps[t..], [p]);
  }

  lemma PushCounted(l: Layout, p: Part)
    requires l.store.Valid() && (!l.wrapped ==> l.lo == []) && l.Counted() && !p.returned
    ensures Push(l, p).Counted() && Push(l, p).Out() == l.Out()
    ensures Push(l, p).Queue() == l.Queue() + Chunks([p])
  {
    PushParts(l, p);
    GrowSplit(l.Parts(), l.taken, p);
  }

  ghost predicate SendRequires(l: Layout, item: seq<byte>) {
    && l.Valid() && |item| <= l.store.Max()
    && Fits(l.store, l.write, l.free, l.Full(), |item|)
  }

  /** An item cut after `cut` bytes; cut at 0 it is one piece. */
  function Pieces(item: seq<byte>, cut: nat): seq<Chunk>
    requires cut <= |item|
  {
    if cut == 0 then [Chunk(item, false)] else [Chunk(item[..cut], true), Chunk(item[cut..], false)]
  }

  /** Where `SendLayout` cuts the item. */
  function Cut(l: Layout, item: seq<byte>): (cut: nat)
    requires Pointed(l)
    ensures cut <= |item| && (l.store.kind == NoSplit ==> cut == 0)
  {
    if l.store.Total(|item|) <= l.store.size - l.write then 0 else |FirstPart(l, item).data|
  }

  /** A piece of an item, or nothing for a dummy. */
  function Piece(p: Part): seq<Chunk> {
    if p.dummy then [] else [Chunk(p.data, p.split)]
  }

  lemma FirstEnd(l: Layout, item: seq<byte>)
    requires Pointed(l) && l.store.size - l.write < l.store.Total(|item|)
    ensures l.store.End(FirstPart(l, item)) == l.store.size
    ensures !FirstPart(l, item).returned
  {
  }

  /** The geometry after sending. */
  lemma SendShape(l: Layout, item: seq<byte>)
    requires SendRequires(l, item)
    ensures SendLayout(l, item).Shape()
  {
    if l.store.Total(|item|) <= l.store.size - l.write {
      WholeRoom(l, item);
      PushShape(l, Item(l.write, item));
    } else {
      SplitRoom(l, item);
      PushShape(l, FirstPart(l, item));
      PushShape(Push(l, FirstPart(l, item)), SecondPart(l, item));
    }
  }

  lemma SendLinked(l: Layout, item: seq<byte>)
    requires SendRequires(l, item)
    ensures SendLayout(l, item).Linked()
  {
    if l.store.size - l.write < l.store.Total(|item|) {
      FirstRoom(l, item);
    }
  }

  /** Sending writes no part before the queue, and behind it the pieces of the item. */
  lemma SendQueue(l: Layout, item: seq<byte>)
    requires Pointed(l) && l.Counted() && (!l.wrapped ==> l.lo == [])
    requires !l.wrapped || l.store.Total(|item|) <= l.store.size - l.write
    ensures SendLayout(l, item).Counted()
    ensures SendLayout(l, item).Out() == l.Out()
    ensures SendLayout(l, item).Queue() == l.Queue() + Pieces(item, Cut(l, item))
  {
    if l.store.Total(|item|) <= l.store.size - l.write {
      QueueGrows(l, Item(l.write, item));
    } else {
      FirstEnd(l, item);
      QueueGrowsTwice(l, FirstPart(l, item), SecondPart(l, item));
      PieceOfParts(l, item);
    }
  }

  lemma PieceOfParts(l: Layout, item: seq<byte>)
    requires Pointed(l) && l.store.size - l.write < l.store.Total(|item|)
    ensures Piece(FirstPart(l, item)) + Piece(SecondPart(l, item)) == Pieces(item, Cut(l, item))
  {
  }

  lemma QueueGrowsTwice(l: Layout, p: Part, q: Part)
    requires l.store.Valid() && !l.wrapped && l.lo == [] && l.Counted()
    requires !p.returned && !q.returned && l.store.End(p) == l.store.size
    ensures var r := Push(Push(l, p), q);
      r.Counted() && r.Out() == l.Out() && r.Queue() == l.Queue() + (Piece(p) + Piece(q))
  {
    QueueGrows(l, p);
    QueueGrows(Push(l, p), q);
    assert l.Queue() + Piece(p) + Piece(q) == l.Queue() + (Piece(p) + Piece(q));
  }

  lemma QueueGrows(l: Layout, p: Part)
    requires l.store.Valid() && (!l.wrapped ==> l.lo == []) && l.Counted() && !p.returned
    ensures Push(l, p).Counted() && Push(l, p).Out() == l.Out()
    ensures Push(l, p).Queue() == l.Queue() + Piece(p)
  {
    PushCounted(l, p);
    assert [p][1..] == [];
  }

  /** The layout that sending leaves is valid, and only the queue grows: by the item, whole or in two pieces. */
  lemma SendValid(l: Layout, item: seq<byte>)
    requires SendRequires(l, item)
    ensures SendLayout(l, item).Valid()
    ensures SendLayout(l, item).Out() == l.Out()
    ensures SendLayout(l, item).Queue() == l.Queue() + Pieces(item, Cut(l, item))
    ensures Joined(SendLayout(l, item).Queue()) == Joined(l.Queue()) + [item]
  {
    assert !l.wrapped || l.store.Total(|item|) <= l.store.size - l.write by {
      if l.store.size - l.write < l.store.Total(|item|) {
        FirstRoom(l, item);
      }
    }
    SendShape(l, item);
    SendLinked(l, item);
    hide Layout.Shape;
    SendQueue(l, item);
    QueueEndsWhole(l);
    JoinedAppend(l.Queue(), Pieces(item, Cut(l, item)));
    JoinedPieces(item, Cut(l, item));
  }

  lemma JoinedPieces(item: seq<byte>, cut: nat)
    requires cut <= |item|
    ensures Joined(Pieces(item, cut)) == [item]
  {
    var ps := Pieces(item, cut);
    assert ps[|ps|..] == [];
    assert item[..cut] + item[cut..] == item;
  }
}
