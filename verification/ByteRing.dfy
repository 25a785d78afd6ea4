/** The ring buffer in byte mode: a bounded byte stream read in contiguous stretches, one at a time. */
module ByteRing {
  import opened Bytes

  /** Offset `k` places behind `from` in a store of `size` bytes. */
  function At(size: nat, from: nat, k: nat): nat {
    if from + k < size then from + k else from + k - size
  }

  /** `content` lies in the store from offset `from` on, around its end if need be. */
  predicate Circular(m: seq<byte>, from: nat, content: seq<byte>) {
    && from < |m| && |content| <= |m|
    && forall k {:trigger content[k]} :: 0 <= k < |content| ==> m[At(|m|, from, k)] == content[k]
  }

  /** Bytes written behind the content, without wrapping, extend it. */
  lemma CircularAppend(m: seq<byte>, from: nat, content: seq<byte>, bytes: seq<byte>)
    requires Circular(m, from, content) && |content| + |bytes| <= |m|
    requires At(|m|, from, |content|) + |bytes| <= |m|
    ensures Circular(Patch(m, At(|m|, from, |content|), bytes), from, content + bytes)
  {
    var w := At(|m|, from, |content|);
    var r, all := Patch(m, w, bytes), content + bytes;
    forall k {:trigger all[k]} | 0 <= k < |all|
      ensures r[At(|m|, from, k)] == all[k]
    {
      if k < |content| {
        assert m[At(|m|, from, k)] == content[k];
      } else {
        assert At(|m|, from, k) == w + (k - |content|);
      }
    }
  }

  /** Dropping bytes at the front moves the start. */
  lemma CircularDrop(m: seq<byte>, from: nat, content: seq<byte>, n: nat)
    requires Circular(m, from, content) && n <= |content|
    ensures Circular(m, At(|m|, from, n), content[n..])
  {
    var rest := content[n..];
    forall k {:trigger rest[k]} | 0 <= k < |rest|
      ensures m[At(|m|, At(|m|, from, n), k)] == rest[k]
    {
      assert rest[k] == content[n + k];
      assert At(|m|, At(|m|, from, n), k) == At(|m|, from, n + k);
    }
  }

  /** `prvCheckItemFitsByteBuffer`. */
  predicate Fits(size: nat, write: nat, free: nat, full: bool, n: nat) {
    if write == free then !full
    else if free > write then n <= free - write
    else n <= size - (write - free)
  }

  lemma StreamGrows(received: seq<byte>, content: seq<byte>, held: nat, item: seq<byte>)
    requires held <= |content|
    ensures received + (content + item)[held..] == received + content[held..] + item
  {
    assert (content + item)[held..] == content[held..] + item;
  }

  lemma StreamMoves(received: seq<byte>, content: seq<byte>, n: nat)
    requires n <= |content|
    ensures received + content[0..] == received + content[..n] + content[n..]
  {
    assert content[..n] + content[n..] == content[0..];
  }

  lemma CutJoin(was: seq<byte>, item: seq<byte>, n: nat)
    requires n <= |item|
    ensures was + item[..n] + item[n..] == was + item
  {
  }

  /** The test `pucRead > pucWrite` or full, for `n` bytes from `free` on: they reach the end of the store. */
  lemma StretchIs(size: nat, free: nat, n: nat)
    requires free < size && 0 < n <= size
    ensures var write := At(size, free, n);
      && (free > write || n == size <==> n >= size - free)
      && (n < size - free ==> write - free == n)
  {
  }

  lemma AheadIs(size: nat, free: nat)
    requires free < size
    ensures forall k: nat :: free + k < size ==> At(size, free, k) == free + k
    ensures At(size, free, size - free) == 0
  {
  }

  class ByteBuffer {
    const mem: array<byte>
    var write: nat
    var read: nat
    var free: nat
    var full: bool
    var itemsWaiting: int

    /** All bytes between the free and the write pointer; the first `held` of them have been received. */
    ghost var content: seq<byte>
    ghost var held: nat
    /** Every byte ever sent, and every byte ever received. */
    ghost var sent: seq<byte>
    ghost var received: seq<byte>

    ghost predicate Valid()
      reads this, mem
    {
      && free < mem.Length && |content| <= mem.Length && held <= |content|
      && Circular(mem[..], free, content)
      && read == At(mem.Length, free, held)
      && write == At(mem.Length, free, |content|)
      && (full <==> |content| == mem.Length)
      && itemsWaiting == |content| - held
      && free + held <= mem.Length
      && sent == received + content[held..]
    }

    /** The stretch that was received and not yet returned is still in place. */
    lemma HeldIntact()
      requires Valid()
      ensures free + held <= mem.Length && mem[free..free + held] == content[..held]
    {
      forall k | 0 <= k < held
        ensures mem[free..free + held][k] == content[..held][k]
      {
        assert mem[..][At(mem.Length, free, k)] == content[k];
      }
    }

    /** `xRingbufferCreate`. */
    constructor (size: nat)
      requires size > 0
      ensures Valid() && fresh(mem) && mem.Length == size
      ensures sent == [] && received == [] && held == 0
    {
      mem := new byte[size];
      write, read, free, full, itemsWaiting := 0, 0, 0, false, 0;
      content, held, sent, received := [], 0, [], [];
    }

    /** `prvGetFreeSize`: free, held and waiting bytes always make up the store. */
    method GetFreeSize() returns (size: nat)
      requires Valid()
      ensures size + held + itemsWaiting == mem.Length
    {
      if full {
        size := 0;
      } else {
        var s: int := free - write;
        if s <= 0 {
          s := s + mem.Length;
        }
        size := s;
      }
    }

    /** `prvGetCurMaxSizeByteBuf`: exactly the sizes up to the report fit. */
    method GetCurMaxSize() returns (size: nat)
      requires Valid()
      ensures forall n :: 1 <= n <= mem.Length ==> (Fits(mem.Length, write, free, full, n) <==> n <= size)
      ensures size == mem.Length - |content|
    {
      if full {
        return 0;
      }
      var s: int := free - write;
      if s <= 0 {
        s := s + mem.Length;
      }
      size := s;
    }

    /** One `memcpy` behind the content, up to the end of the store. */
    method PutPiece(bytes: seq<byte>)
      requires Circular(mem[..], free, content) && write == At(mem.Length, free, |content|)
      requires |content| + |bytes| <= mem.Length && write + |bytes| <= mem.Length
      modifies this`write, this`itemsWaiting, this`content, mem
      ensures content == old(content) + bytes && Circular(mem[..], free, content)
      ensures write == old(write) + |bytes| && itemsWaiting == old(itemsWaiting) + |bytes|
    {
      CircularAppend(mem[..], free, content, bytes);
      hide Circular, Patch;
      CopyInto(mem, write, bytes);
      itemsWaiting := itemsWaiting + |bytes|;
      write := write + |bytes|;
      content := content + bytes;
    }

    /** `prvCopyItemByteBuf`. */
    method CopyItem(item: seq<byte>)
      requires Valid() && 1 <= |item| <= mem.Length && Fits(mem.Length, write, free, full, |item|)
      modifies this`write, this`full, this`itemsWaiting, this`content, this`sent, mem
      ensures Valid() && content == old(content) + item && sent == old(sent) + item
    {
      hide Circular;
      StreamGrows(received, content, held, item);
      var rest := item;
      var remLen := mem.Length - write;
      if remLen < |rest| {
        CutJoin(content, item, remLen);
        PutPiece(rest[..remLen]);
        rest := rest[remLen..];
        write := 0;
      }
      PutPiece(rest);
      if write == mem.Length {
        write := 0;
      }
      if write == free {
        full := true;
      }
      sent := sent + item;
    }

    /** One attempt of `xRingbufferSend`. */
    method Send(item: seq<byte>) returns (ok: bool)
      requires Valid()
      modifies this`write, this`full, this`itemsWaiting, this`content, this`sent, mem
      ensures Valid()
      ensures ok <==> |item| <= mem.Length - |old(content)|
      ensures sent == if ok then old(sent) + item else old(sent)
      ensures content == if ok then old(content) + item else old(content)
    {
      if |item| > mem.Length {
        return false;
      }
      if |item| == 0 {
        assert content + item == content && sent + item == sent;
        return true;
      }
      if !Fits(mem.Length, write, free, full, |item|) {
        return false;
      }
      CopyItem(item);
      return true;
    }

    /** `prvCheckItemAvail` in byte mode: nothing while a stretch is held. */
    method CheckItemAvail() returns (avail: bool)
      requires Valid()
      ensures avail <==> held == 0 && |content| > 0
    {
      if read != free {
        return false;
      }
      avail := itemsWaiting > 0 && (read != write || full);
    }

    /** The bytes that lie in one stretch at the read pointer, up to `maxSize` of them, and all of them when it is 0. */
    ghost function Stretch(maxSize: nat): nat
      reads this
      requires free <= mem.Length
    {
      var stretch := if |content| <= mem.Length - free then |content| else mem.Length - free;
      if maxSize == 0 || stretch <= maxSize then stretch else maxSize
    }

    /** How far `prvGetItemByteBuf` moves the read pointer. */
    method MoveRead(maxSize: nat) returns (len: nat)
      requires free < mem.Length && 0 < |content| <= mem.Length
      requires read == free && write == At(mem.Length, free, |content|) && (full <==> |content| == mem.Length)
      modifies this`read
      ensures len == Stretch(maxSize) && 0 < len <= |content| && free + len <= mem.Length
      ensures read == At(mem.Length, free, len)
    {
      hide At;
      StretchIs(mem.Length, free, |content|);
      AheadIs(mem.Length, free);
      if read > write || full {
        if maxSize == 0 || mem.Length - read <= maxSize {
          len := mem.Length - read;
          read := 0;
        } else {
          len := maxSize;
          read := read + maxSize;
        }
      } else if maxSize == 0 || write - read <= maxSize {
        len := write - read;
        read := write;
      } else {
        len := maxSize;
        read := read + maxSize;
      }
    }

    /** `prvGetItemByteBuf`: the oldest bytes, as many as lie in one stretch and `maxSize` allows. */
    method GetItem(maxSize: nat) returns (ptr: nat, len: nat)
      requires Valid() && held == 0 && |content| > 0
      modifies this`read, this`itemsWaiting, this`held, this`received
      ensures Valid() && ptr == free && len == held == Stretch(maxSize) && 0 < len <= |content|
      ensures mem[ptr..ptr + len] == content[..len]
      ensures received == old(received) + mem[ptr..ptr + len]
    {
      hide Circular, At;
      AheadIs(mem.Length, free);
      ptr := read;
      len := MoveRead(maxSize);
      itemsWaiting := itemsWaiting - len;
      held := len;
      StreamMoves(received, content, len);
      received := received + content[..len];
      HeldIntact();
    }

    /** `prvReturnItemByteBuf`. */
    method ReturnItem(ptr: nat)
      requires Valid() && held > 0 && ptr == free
      modifies this`free, this`full, this`content, this`held
      ensures Valid() && held == 0 && content == old(content[held..])
    {
      CircularDrop(mem[..], free, content, held);
      free := read;
      if full {
        full := false;
      }
      content, held := content[held..], 0;
      assert content[0..] == content;
    }
  }
}
