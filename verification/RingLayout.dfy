/**
 * The abstract layout of an item-mode FreeRTOS ring buffer: which parts (headers with their data)
 * lie between the free pointer and the write pointer, in circular order, and how many of them the
 * read pointer has passed. Everything here is about values; `RingBuffer` ties it to the bytes.
 */
module RingLayout {
  import opened Bytes

  /** `sizeof(ItemHeader_t)`: a 32-bit length and a 32-bit flag word. */
  const HEADER_SIZE: nat := 8

  // ---------------------------------------------------------------- alignment

  predicate IsAlignment(a: nat) {
    a == 1 || a == 2 || a == 4 || a == 8
  }

  predicate Aligned(n: nat, a: nat)
    requires IsAlignment(a)
  {
    if a == 1 then true else if a == 2 then n % 2 == 0 else if a == 4 then n % 4 == 0 else n % 8 == 0
  }

  /** `rbALIGN_SIZE`. */
  function AlignUp(n: nat, a: nat): (r: nat)
    requires IsAlignment(a)
    ensures n <= r < n + a && Aligned(r, a)
    ensures Aligned(n, a) ==> r == n
  {
    Round2(n);
    Round4(n);
    Round8(n);
    if a == 1 then n else if a == 2 then (n + 1) / 2 * 2 else if a == 4 then (n + 3) / 4 * 4 else (n + 7) / 8 * 8
  }

  lemma Round2(n: nat)
    ensures var r := (n + 1) / 2 * 2; n <= r < n + 2 && r % 2 == 0 && (n % 2 == 0 ==> r == n)
  {
  }

  lemma Round4(n: nat)
    ensures var r := (n + 3) / 4 * 4; n <= r < n + 4 && r % 4 == 0 && (n % 4 == 0 ==> r == n)
  {
  }

  lemma Round8(n: nat)
    ensures var r := (n + 7) / 8 * 8; n <= r < n + 8 && r % 8 == 0 && (n % 8 == 0 ==> r == n)
  {
  }

  lemma AlignedSum(x: nat, y: nat, a: nat)
    requires IsAlignment(a) && Aligned(x, a) && Aligned(y, a)
    ensures Aligned(x + y, a)
    ensures x <= y ==> Aligned(y - x, a)
  {
    var p, q := x / a, y / a;
    if a == 2 {
      Multiples2(p, q);
    } else if a == 4 {
      Multiples4(p, q);
    } else if a == 8 {
      Multiples8(p, q);
    }
  }

  lemma Multiples2(p: int, q: int)
    ensures (2 * p + 2 * q) % 2 == 0 && (2 * q - 2 * p) % 2 == 0
  {
    var r, s := p + q, q - p;
    assert (2 * r) % 2 == 0 && (2 * s) % 2 == 0;
  }

  lemma Multiples4(p: int, q: int)
    ensures (4 * p + 4 * q) % 4 == 0 && (4 * q - 4 * p) % 4 == 0
  {
    var r, s := p + q, q - p;
    assert (4 * r) % 4 == 0 && (4 * s) % 4 == 0;
  }

  lemma Multiples8(p: int, q: int)
    ensures (8 * p + 8 * q) % 8 == 0 && (8 * q - 8 * p) % 8 == 0
  {
    var r, s := p + q, q - p;
    assert (8 * r) % 8 == 0 && (8 * s) % 8 == 0;
  }

  lemma HeaderAligned(a: nat)
    requires IsAlignment(a)
    ensures Aligned(HEADER_SIZE, a)
  {
  }

  // ---------------------------------------------------------------- headers

  datatype Header = Header(len: nat, freed: bool, dummy: bool, split: bool)

  /** The header as it lies in memory: the flag word has bit 0 free, bit 1 dummy, bit 2 split. */
  function EncodeHeader(h: Header): (r: seq<byte>)
    requires h.len < 0x1_0000_0000
    ensures |r| == HEADER_SIZE
  {
    Encode32(h.len) +
    Encode32((if h.freed then 1 else 0) + (if h.dummy then 2 else 0) + (if h.split then 4 else 0))
  }

  /** The header that any eight bytes denote; stale bytes included. */
  function DecodeHeader(s: seq<byte>): Header
    requires |s| == HEADER_SIZE
  {
    var flags := Decode32(s[4..]);
    Header(Decode32(s[..4]), flags % 2 == 1, flags / 2 % 2 == 1, flags / 4 % 2 == 1)
  }

  lemma DecodeEncodeHeader(h: Header)
    requires h.len < 0x1_0000_0000
    ensures DecodeHeader(EncodeHeader(h)) == h
  {
    var flags := (if h.freed then 1 else 0) + (if h.dummy then 2 else 0) + (if h.split then 4 else 0);
    Decode32Encode32(h.len);
    Decode32Encode32(flags);
    var s := EncodeHeader(h);
    assert s[..4] == Encode32(h.len);
    assert s[4..] == Encode32(flags);
  }

  // ---------------------------------------------------------------- parts and layouts

  /** A header with its data. A dummy fills the store up to its end; a split part is the first half of an item. */
  datatype Part = Part(pos: nat, data: seq<byte>, dummy: bool, split: bool, returned: bool) {
    predicate IsOut() {
      !dummy && !returned
    }
  }

  function HeaderOf(p: Part): Header {
    Header(|p.data|, p.returned, p.dummy, p.split)
  }

  /** The kinds of buffer that hold items. */
  datatype Kind = NoSplit | AllowSplit

  /** What never changes about a buffer. */
  datatype Store = Store(kind: Kind, size: nat, align: nat) {

    predicate Valid() {
      IsAlignment(align) && Aligned(size, align) && 16 <= size < 0x1_0000_0000
    }

    /** `xMaxItemSize` as `xRingbufferCreate` computes it. */
    function Max(): nat
      requires Valid()
    {
      match kind
      case NoSplit => AlignUp(size / 2, align) - HEADER_SIZE
      case AllowSplit => size - 2 * HEADER_SIZE
    }

    /** The bytes that an item of `n` bytes takes with its header. */
    function Total(n: nat): nat
      requires Valid()
    {
      AlignUp(n, align) + HEADER_SIZE
    }

    /** Offset just after `p`, including the tail of the store when no header fits behind `p`. */
    function End(p: Part): nat
      requires Valid()
    {
      var e := p.pos + Total(|p.data|);
      if p.dummy || size < e + HEADER_SIZE then size else e
    }

    predicate PartOk(p: Part)
      requires Valid()
    {
      && Aligned(p.pos, align)
      && p.pos + Total(|p.data|) <= size
      && (p.dummy ==> p.data == [] && !p.split && !p.returned)
    }

    /** `ps` lie one after the other from offset `from` to offset `to`. */
    predicate Chain(ps: seq<Part>, from: nat, to: nat)
      requires Valid()
    {
      && from <= to
      && (forall i :: 0 <= i < |ps| ==> PartOk(ps[i]) && from <= ps[i].pos && End(ps[i]) <= to)
      && (forall i, j :: 0 <= i < j < |ps| ==> End(ps[i]) <= ps[j].pos)
      && (forall i :: 0 < i < |ps| ==> ps[i].pos == End(ps[i - 1]))
      && (if ps == [] then from == to else ps[0].pos == from && End(ps[|ps| - 1]) == to)
    }
  }

  /**
   * `hi` are the parts from the free pointer upwards. Once the write pointer has gone round (`wrapped`)
   * they reach the end of the store, and `lo` are the parts from its head up to the write pointer.
   * The first `taken` of `hi + lo` lie before the read pointer.
   */
  datatype Layout = Layout(
    store: Store, hi: seq<Part>, lo: seq<Part>, wrapped: bool, free: nat, write: nat, taken: nat)
  {
    function Parts(): seq<Part> {
      hi + lo
    }

    predicate Shape() {
      && store.Valid()
      && Aligned(free, store.align) && Aligned(write, store.align)
      && free + HEADER_SIZE <= store.size && write + HEADER_SIZE <= store.size
      && (wrapped ==> write <= free && store.Chain(hi, free, store.size) && store.Chain(lo, 0, write))
      && (!wrapped ==> lo == [] && store.Chain(hi, free, write))
    }

    /**
     * A dummy or a first half stands last before the end of the store, and its data follow at the head. Neither half
     * of an item is empty.
     */
    predicate Linked() {
      && (forall i :: 0 <= i < |hi| && (hi[i].dummy || hi[i].split) ==> i == |hi| - 1 && wrapped && lo != [])
      && (forall i :: 0 <= i < |hi| && hi[i].split && lo != [] ==> hi[i].data != [] && lo[0].data != [])
      && (forall i :: 0 <= i < |lo| ==> !lo[i].dummy && !lo[i].split)
    }

    ghost predicate Counted() {
      Split(Parts(), taken)
    }

    ghost predicate Valid() {
      Shape() && Linked() && Counted()
    }

    /** `rbBUFFER_FULL_FLAG`. */
    predicate Full() {
      wrapped && write == free
    }

    function ReadPos(): nat {
      if taken < |Parts()| then Parts()[taken].pos else write
    }

    /** What has been sent and not yet received. */
    function Queue(): seq<Chunk>
      requires taken <= |Parts()|
    {
      Chunks(Parts()[taken..])
    }

    /** What has been received and not yet returned: address of the data and the data. */
    ghost function Out(): set<(nat, seq<byte>)>
      requires taken <= |Parts()|
    {
      OutOf(Parts()[..taken])
    }
  }

  predicate NoneReturned(ps: seq<Part>) {
    forall i :: 0 <= i < |ps| ==> !ps[i].returned
  }

  /** Only parts before the read pointer can have been returned, and some part there is still out. */
  ghost predicate Split(ps: seq<Part>, taken: nat) {
    && taken <= |ps|
    && NoneReturned(ps[taken..])
    && (taken > 0 ==> !ps[taken - 1].dummy && OutOf(ps[..taken]) != {})
  }

  function Handle(p: Part): (nat, seq<byte>) {
    (p.pos + HEADER_SIZE, p.data)
  }

  ghost function OutOf(ps: seq<Part>): set<(nat, seq<byte>)> {
    set i | 0 <= i < |ps| && ps[i].IsOut() :: Handle(ps[i])
  }

  /** One receivable piece; `more` says that the rest of its item is the next piece. */
  datatype Chunk = Chunk(data: seq<byte>, more: bool)

  function Chunks(ps: seq<Part>): seq<Chunk> {
    if ps == [] then []
    else (if ps[0].dummy then [] else [Chunk(ps[0].data, ps[0].split)]) + Chunks(ps[1..])
  }

  /** The items that a sequence of pieces makes up. */
  function Joined(q: seq<Chunk>): seq<seq<byte>> {
    if q == [] then []
    else if q[0].more && |q| > 1 then [q[0].data + q[1].data] + Joined(q[2..])
    else [q[0].data] + Joined(q[1..])
  }

  /** Where the next part after offset `e` starts. */
  function Wrap(store: Store, e: nat): nat {
    if e == store.size then 0 else e
  }

  /** `l` with the part `p` written at the write pointer. */
  function Push(l: Layout, p: Part): Layout
    requires l.store.Valid()
  {
    var e := l.store.End(p);
    if l.wrapped then
      l.(lo := l.lo + [p], write := e)
    else
      l.(hi := l.hi + [p], write := Wrap(l.store, e), wrapped := e == l.store.size)
  }

  predicate Room(l: Layout, p: Part)
    requires l.store.Valid()
  {
    p.pos == l.write && l.store.PartOk(p) && (l.wrapped ==> l.store.End(p) <= l.free)
  }

  lemma EndFacts(s: Store, p: Part)
    requires s.Valid() && s.PartOk(p)
    ensures p.pos + HEADER_SIZE <= p.pos + s.Total(|p.data|) <= s.End(p) <= s.size
    ensures Aligned(s.End(p), s.align)
    ensures s.End(p) == s.size || s.End(p) + HEADER_SIZE <= s.size
  {
    HeaderAligned(s.align);
    AlignedSum(AlignUp(|p.data|, s.align), HEADER_SIZE, s.align);
    AlignedSum(p.pos, s.Total(|p.data|), s.align);
  }

  lemma ChainAppend(s: Store, ps: seq<Part>, from: nat, p: Part)
    requires s.Valid() && s.Chain(ps, from, p.pos) && s.PartOk(p)
    ensures s.Chain(ps + [p], from, s.End(p))
  {
    EndFacts(s, p);
    var r := ps + [p];
    forall i, j | 0 <= i < j < |r|
      ensures s.End(r[i]) <= r[j].pos
    {
      if j == |ps| {
        assert s.End(ps[i]) <= p.pos;
      }
    }
    forall i | 0 < i < |r|
      ensures r[i].pos == s.End(r[i - 1])
    {
    }
  }

  lemma PushParts(l: Layout, p: Part)
    requires l.store.Valid() && (!l.wrapped ==> l.lo == [])
    ensures Push(l, p).Parts() == l.Parts() + [p]
  {
  }

  lemma PushShape(l: Layout, p: Part)
    requires l.Shape() && Room(l, p)
    ensures Push(l, p).Shape()
  {
    EndFacts(l.store, p);
    if l.wrapped {
      ChainAppend(l.store, l.lo, 0, p);
    } else {
      ChainAppend(l.store, l.hi, l.free, p);
    }
  }
}
