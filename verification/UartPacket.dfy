/**
 * `Packet` of the wireless UART client: a key and a value in a length-prefixed frame with an XOR checksum, and
 * the parser that finds the frame in a byte stream.
 */
module UartPacket {
  import opened Bytes
  import opened UartCodec

  const START0: byte := 0x23
  const START1: byte := 0x24
  const EQUALS: byte := 0x3d
  const PACKET_MIN: nat := 8

  function Pow2(k: nat): nat {
    if k == 0 then 1 else 2 * Pow2(k - 1)
  }

  /** Exclusive or of the lowest `k` bits. */
  function XorBits(a: nat, b: nat, k: nat): (r: nat)
    ensures r < Pow2(k)
  {
    if k == 0 then 0 else 2 * XorBits(a / 2, b / 2, k - 1) + (a + b) % 2
  }

  function Xor(a: byte, b: byte): byte {
    assert Pow2(8) == 256;
    XorBits(a, b, 8)
  }

  /** `calc_checksum`. */
  function Checksum(raw: seq<byte>): byte {
    if raw == [] then 0 else Xor(Checksum(raw[..|raw| - 1]), raw[|raw| - 1])
  }

  lemma ParityCancels(a: nat, b: nat, c: nat)
    requires (a + b) % 2 == (a + c) % 2
    ensures b % 2 == c % 2
  {
  }

  lemma {:induction false} XorBitsCancel(a: nat, b: nat, c: nat, k: nat)
    requires b < Pow2(k) && c < Pow2(k) && XorBits(a, b, k) == XorBits(a, c, k)
    ensures b == c
  {
    if k > 0 {
      var x, y := XorBits(a / 2, b / 2, k - 1), XorBits(a / 2, c / 2, k - 1);
      assert x == y && (a + b) % 2 == (a + c) % 2;
      ParityCancels(a, b, c);
      XorBitsCancel(a / 2, b / 2, c / 2, k - 1);
    }
  }

  lemma {:induction false} XorBitsCommute(a: nat, b: nat, k: nat)
    ensures XorBits(a, b, k) == XorBits(b, a, k)
  {
    if k > 0 {
      XorBitsCommute(a / 2, b / 2, k - 1);
    }
  }

  lemma XorCancels(a: byte, b: byte, c: byte)
    ensures Xor(a, b) == Xor(a, c) ==> b == c
  {
    if Xor(a, b) == Xor(a, c) {
      assert Pow2(8) == 256;
      XorBitsCancel(a, b, c, 8);
    }
  }

  lemma XorCommutes(a: byte, b: byte)
    ensures Xor(a, b) == Xor(b, a)
  {
    XorBitsCommute(a, b, 8);
  }

  /** The bit of `n` with the value `Pow2(i)`. */
  function Bit(n: nat, i: nat): nat {
    if i == 0 then n % 2 else Bit(n / 2, i - 1)
  }

  /** Bit by bit: set exactly where one of the two is. */
  lemma {:induction false} XorBitIs(a: nat, b: nat, k: nat, i: nat)
    requires i < k
    ensures Bit(XorBits(a, b, k), i) == (if Bit(a, i) == Bit(b, i) then 0 else 1)
  {
    var rest := XorBits(a / 2, b / 2, k - 1);
    assert (2 * rest + (a + b) % 2) / 2 == rest;
    if i > 0 {
      XorBitIs(a / 2, b / 2, k - 1, i - 1);
    }
  }

  /** Changing one byte changes the checksum. */
  lemma {:induction false} ChecksumSeesOneByte(raw: seq<byte>, i: nat, c: byte)
    requires i < |raw| && c != raw[i]
    ensures Checksum(raw[i := c]) != Checksum(raw)
  {
    hide Xor;
    var n := |raw| - 1;
    var changed := raw[i := c];
    if i == n {
      assert changed[..n] == raw[..n];
      XorCancels(Checksum(raw[..n]), c, raw[n]);
    } else {
      assert changed[..n] == raw[..n][i := c];
      ChecksumSeesOneByte(raw[..n], i, c);
      XorCommutes(raw[n], Checksum(changed[..n]));
      XorCommutes(raw[n], Checksum(raw[..n]));
      XorCancels(raw[n], Checksum(changed[..n]), Checksum(raw[..n]));
    }
  }

  // ---------------------------------------------------------------- the frame

  function DataOf(key: seq<byte>, val: seq<byte>): seq<byte> {
    if val != [] then key + [EQUALS] + val else key
  }

  /** The frame up to its checksum. */
  function Body(data: seq<byte>): (r: seq<byte>)
    requires |data| < 0x1_0000_0000
    ensures |r| == 7 + |data|
  {
    [START0, START1] + Encode32(|data|) + data + [Checksum(data)]
  }

  lemma {:induction false} XorZero(b: nat, k: nat)
    requires b < Pow2(k)
    ensures XorBits(0, b, k) == b
  {
    if k > 0 {
      XorZero(b / 2, k - 1);
    }
  }

  /** The frame of one byte of data: the start symbol, the size in four bytes, the data and the checksum. */
  lemma FrameBytes(c: byte)
    ensures Body([c]) == [0x23, 0x24, 1, 0, 0, 0, c, c]
  {
    assert Pow2(8) == 256;
    XorZero(c, 8);
    hide XorBits;
    assert [c][..0] == [] && Checksum([]) == 0 && Checksum([c]) == Xor(0, c);
    assert Encode32(1) == [1, 0, 0, 0];
    assert [START0, START1] + [1, 0, 0, 0] + [c] + [c] == [0x23, 0x24, 1, 0, 0, 0, c, c];
  }

  /** The first index of `c`, or the length. */
  function IndexOf(raw: seq<byte>, c: byte): (i: nat)
    ensures i <= |raw| && (i < |raw| ==> raw[i] == c) && forall k :: 0 <= k < i ==> raw[k] != c
  {
    if raw == [] || raw[0] == c then 0 else 1 + IndexOf(raw[1..], c)
  }

  /** Key and value of a frame's data: no key is cut off when the equals sign is missing or comes first. */
  function Split(data: seq<byte>): (seq<byte>, seq<byte>) {
    var i := IndexOf(data, EQUALS);
    if 0 < i < |data| then (data[..i], data[i + 1..]) else (data, [])
  }

  /** Data without an equals sign, or that begin with one, are all key; others are cut at the first one. */
  lemma SplitIs(key: seq<byte>, rest: seq<byte>)
    requires EQUALS !in key
    ensures Split(key) == (key, [])
    ensures Split(key + [EQUALS] + rest) == if key == [] then ([EQUALS] + rest, []) else (key, rest)
  {
    var data := key + [EQUALS] + rest;
    assert forall k :: 0 <= k < |key| ==> data[k] == key[k] && key[k] in key;
    assert data[|key|] == EQUALS;
    assert data[..|key|] == key && data[|key| + 1..] == rest;
    assert key == [] ==> data == [EQUALS] + rest;
  }

  predicate StartsAt(raw: seq<byte>, i: nat) {
    i + 1 < |raw| && raw[i] == START0 && raw[i + 1] == START1
  }

  /** The first start symbol, or the length. */
  function FindStart(raw: seq<byte>): (i: nat)
    ensures i <= |raw| && (i < |raw| ==> StartsAt(raw, i)) && forall k :: 0 <= k < i ==> !StartsAt(raw, k)
  {
    if raw == [] || StartsAt(raw, 0) then 0
    else
      var i := FindStart(raw[1..]);
      assert forall k :: 1 <= k <= i ==> (StartsAt(raw, k) <==> StartsAt(raw[1..], k - 1));
      1 + i
  }

  datatype Found = Found(key: seq<byte>, val: seq<byte>) | Nothing

  /** `parse`, with `utf8` for the byte strings that `decode()` accepts. */
  function Parse(utf8: seq<byte> -> bool, raw: seq<byte>): Found
    decreases |raw|
  {
    if |raw| < PACKET_MIN then Nothing
    else
      var i := FindStart(raw);
      if i == |raw| then Nothing
      else if i > 0 then Parse(utf8, raw[i..])
      else
        var size := Decode32(raw[2..6]);
        if |raw| < 7 + size then Nothing
        else if Checksum(raw[6..6 + size]) == raw[6 + size] then
          var (key, val) := Split(raw[6..6 + size]);
          if utf8(key) then Found(key, val) else Nothing
        else Parse(utf8, raw[2..])
  }

  // ---------------------------------------------------------------- delivery

  /** The start of a stream does not contain the beginning of a start symbol. */
  predicate NoStart(prefix: seq<byte>) {
    forall i :: 0 <= i < |prefix| ==> !StartsAt(prefix, i)
  }

  lemma FirstStart(raw: seq<byte>, i: nat)
    requires StartsAt(raw, i) && forall k :: 0 <= k < i ==> !StartsAt(raw, k)
    ensures FindStart(raw) == i
  {
  }

  /** Noise before a stream that begins like a frame is skipped. */
  lemma NoiseSkipped(utf8: seq<byte> -> bool, prefix: seq<byte>, raw: seq<byte>)
    requires NoStart(prefix) && StartsAt(raw, 0)
    ensures Parse(utf8, prefix + raw) == Parse(utf8, raw)
  {
    var all := prefix + raw;
    if prefix == [] {
      assert all == raw;
    } else {
      forall k | 0 <= k < |prefix|
        ensures !StartsAt(all, k)
      {
        assert !StartsAt(prefix, k);
      }
      assert StartsAt(all, |prefix|);
      FirstStart(all, |prefix|);
      assert all[|prefix|..] == raw;
    }
  }

  /** Reading the fields of a frame back. */
  lemma BodyFields(data: seq<byte>, rest: seq<byte>)
    requires |data| < 0x1_0000_0000
    ensures var raw := Body(data) + rest;
      && StartsAt(raw, 0) && Decode32(raw[2..6]) == |data|
      && raw[6..6 + |data|] == data && raw[6 + |data|] == Checksum(data)
  {
    hide Encode32, Decode32, Checksum;
    Decode32Encode32(|data|);
    Fields(Encode32(|data|), data, Checksum(data), rest);
  }

  lemma Fields(len: seq<byte>, data: seq<byte>, sum: byte, rest: seq<byte>)
    requires |len| == 4
    ensures var raw := [START0, START1] + len + data + [sum] + rest;
      StartsAt(raw, 0) && raw[2..6] == len && raw[6..6 + |data|] == data && raw[6 + |data|] == sum
  {
    var b := [START0, START1] + len + data + [sum];
    FourParts([START0, START1], len, data, [sum]);
    SliceOfPrefix(b, rest, 2, 6);
    SliceOfPrefix(b, rest, 6, 6 + |data|);
  }

  lemma FourParts(a: seq<byte>, b: seq<byte>, c: seq<byte>, d: seq<byte>)
    ensures var all := a + b + c + d;
      all[|a|..|a| + |b|] == b && all[|a| + |b|..|a| + |b| + |c|] == c
  {
  }

  lemma SliceOfPrefix(a: seq<byte>, b: seq<byte>, from: nat, to: nat)
    requires from <= to <= |a|
    ensures (a + b)[from..to] == a[from..to]
  {
  }

  lemma SplitJoined(key: seq<byte>, val: seq<byte>)
    requires key != [] && EQUALS !in key
    ensures Split(DataOf(key, val)) == (key, val)
  {
    var data := DataOf(key, val);
    forall k | 0 <= k < |key|
      ensures data[k] == key[k] && key[k] != EQUALS
    {
      assert key[k] in key;
    }
    if val != [] {
      assert data[|key|] == EQUALS;
      assert data[..|key|] == key && data[|key| + 1..] == val;
    }
  }

  lemma DataNotEmpty(key: seq<byte>, val: seq<byte>)
    requires key != []
    ensures DataOf(key, val) != []
  {
  }

  /** A frame is found behind any noise without a start symbol, whatever follows it. */
  lemma FrameDelivered(utf8: seq<byte> -> bool, key: seq<byte>, val: seq<byte>, prefix: seq<byte>, rest: seq<byte>)
    requires key != [] && EQUALS !in key && utf8(key) && |DataOf(key, val)| < 0x1_0000_0000 && NoStart(prefix)
    ensures Parse(utf8, prefix + (Body(DataOf(key, val)) + rest)) == Found(key, val)
  {
    var data := DataOf(key, val);
    var raw := Body(data) + rest;
    BodyFields(data, rest);
    SplitJoined(key, val);
    hide Body, Decode32, Checksum, Split, DataOf;
    NoiseSkipped(utf8, prefix, raw);
    FirstStart(raw, 0);
    assert |data| > 0 by {
      DataNotEmpty(key, val);
    }
  }

  /** Encoded, framed, parsed and decoded, a value comes out as it went in. */
  lemma ValueDelivered(utf8: seq<byte> -> bool, key: seq<byte>, val: seq<byte>, prefix: seq<byte>, rest: seq<byte>)
    requires key != [] && EQUALS !in key && utf8(key) && |DataOf(key, Encode(val))| < 0x1_0000_0000 && NoStart(prefix)
    ensures var found := Parse(utf8, prefix + (Body(DataOf(key, Encode(val))) + rest));
      found.Found? && found.key == key && Decode(found.val) == Some(val)
  {
    FrameDelivered(utf8, key, Encode(val), prefix, rest);
    DecodeEncode(val);
  }

  /** Before the last byte of the checksum is there, nothing is delivered. */
  lemma PartialFrameWaits(utf8: seq<byte> -> bool, data: seq<byte>, prefix: seq<byte>, n: nat)
    requires |data| < 0x1_0000_0000 && n < 7 + |data| && NoStart(prefix)
    ensures Parse(utf8, prefix + Body(data)[..n]) == Nothing
  {
    var raw := Body(data)[..n];
    if n < 2 {
      forall k | 0 <= k < |prefix| + n
        ensures !StartsAt(prefix + raw, k)
      {
        assert k < |prefix| ==> !StartsAt(prefix, k);
      }
    } else {
      NoiseSkipped(utf8, prefix, raw);
      if n >= PACKET_MIN {
        BodyFields(data, []);
        assert Body(data) + [] == Body(data);
        assert raw[2..6] == Body(data)[2..6];
        FirstStart(raw, 0);
      }
    }
  }

  /** Somewhere in `raw` there is a whole frame with this data. */
  ghost predicate Framed(raw: seq<byte>, data: seq<byte>) {
    |data| < 0x1_0000_0000 && exists i :: FrameAt(raw, i, data)
  }

  ghost predicate FrameAt(raw: seq<byte>, i: int, data: seq<byte>)
    requires |data| < 0x1_0000_0000
  {
    0 <= i <= |raw| && Body(data) <= raw[i..]
  }

  lemma FramedLater(raw: seq<byte>, from: nat, data: seq<byte>)
    requires from <= |raw| && Framed(raw[from..], data)
    ensures Framed(raw, data)
  {
    var i :| FrameAt(raw[from..], i, data);
    assert raw[from..][i..] == raw[from + i..];
    assert FrameAt(raw, from + i, data);
  }

  lemma Encode32Decode32(s: seq<byte>)
    requires |s| == 4
    ensures Decode32(s) < 0x1_0000_0000 && Encode32(Decode32(s)) == s
  {
  }

  /** The parser invents nothing: what it finds is the data of a frame in the stream, checksum included. */
  lemma {:induction false} FoundWasFramed(utf8: seq<byte> -> bool, raw: seq<byte>)
    requires Parse(utf8, raw).Found?
    ensures exists data :: Framed(raw, data) && Split(data) == (Parse(utf8, raw).key, Parse(utf8, raw).val)
    ensures utf8(Parse(utf8, raw).key)
    decreases |raw|
  {
    var i := FindStart(raw);
    if i > 0 {
      FoundWasFramed(utf8, raw[i..]);
      var data :| Framed(raw[i..], data) && Split(data) == (Parse(utf8, raw).key, Parse(utf8, raw).val);
      FramedLater(raw, i, data);
    } else {
      var size := Decode32(raw[2..6]);
      var data := raw[6..6 + size];
      if Checksum(data) == raw[6 + size] {
        Encode32Decode32(raw[2..6]);
        BodyHere(raw, size);
        assert FrameAt(raw, 0, data);
      } else {
        FoundWasFramed(utf8, raw[2..]);
        var later :| Framed(raw[2..], later) && Split(later) == (Parse(utf8, raw).key, Parse(utf8, raw).val);
        FramedLater(raw, 2, later);
      }
    }
  }

  lemma BodyHere(raw: seq<byte>, size: nat)
    requires size < 0x1_0000_0000 && |raw| >= 7 + size && StartsAt(raw, 0)
    requires raw[2..6] == Encode32(size) && Checksum(raw[6..6 + size]) == raw[6 + size]
    ensures Body(raw[6..6 + size]) <= raw
  {
    hide Encode32, Checksum;
    var b := Body(raw[6..6 + size]);
    assert b == raw[..2] + raw[2..6] + raw[6..6 + size] + [raw[6 + size]];
    assert b == raw[..7 + size];
  }

  /** One changed data byte: the frame is not taken, and the search goes on behind its start symbol. */
  lemma CorruptFrameRejected(utf8: seq<byte> -> bool, data: seq<byte>, i: nat, c: byte, rest: seq<byte>)
    requires 0 < |data| < 0x1_0000_0000 && i < |data| && c != data[i]
    ensures var raw := Body(data)[6 + i := c] + rest;
      Parse(utf8, raw) == Parse(utf8, raw[2..])
  {
    hide Encode32, Decode32, Checksum;
    var len, sum, changed := Encode32(|data|), Checksum(data), data[i := c];
    var raw := Body(data)[6 + i := c] + rest;
    assert Body(data)[6 + i := c] == [START0, START1] + len + changed + [sum];
    Fields(len, changed, sum, rest);
    Decode32Encode32(|data|);
    ChecksumSeesOneByte(data, i, c);
    FirstStart(raw, 0);
  }

  // ---------------------------------------------------------------- the class

  class Packet {
    var keyStr: seq<byte>
    var valBytes: seq<byte>
    var dataBytes: seq<byte>
    var dataSize: nat
    var checksum: byte

    ghost predicate Valid()
      reads this
    {
      dataBytes == DataOf(keyStr, valBytes) && dataSize == |dataBytes| && checksum == Checksum(dataBytes)
    }

    constructor (key: seq<byte>, val: seq<byte>)
      ensures Valid() && keyStr == key && valBytes == val
    {
      new;
      SetKeyValue(key, val);
    }

    method SetKeyValue(key: seq<byte>, val: seq<byte>)
      modifies this
      ensures Valid() && keyStr == key && valBytes == val
    {
      keyStr, valBytes := key, val;
      if |val| > 0 {
        dataBytes := key + [EQUALS] + val;
        dataSize := |dataBytes|;
      } else {
        dataBytes := key;
        dataSize := |dataBytes|;
      }
      checksum := CalcChecksum(dataBytes);
    }

    method DoEncode()
      requires Valid()
      modifies this
      ensures Valid() && keyStr == old(keyStr) && valBytes == Encode(old(valBytes))
    {
      if |valBytes| == 0 {
        return;
      }
      var encoded := BytesEncode(valBytes);
      SetKeyValue(keyStr, encoded);
    }

    /** `ok` is false when `bytes.fromhex` raised; the packet is then as it was. */
    method DoDecode() returns (ok: bool)
      requires Valid()
      modifies this
      ensures Valid() && keyStr == old(keyStr)
      ensures ok == old(Decode(valBytes)).Some?
      ensures valBytes == if ok then old(Decode(valBytes)).value else old(valBytes)
    {
      if |valBytes| == 0 {
        return true;
      }
      var decoded := BytesDecode(valBytes);
      if decoded.None? {
        return false;
      }
      SetKeyValue(keyStr, decoded.value);
      return true;
    }

    /** `get_bytes`: the frame and the end symbol. */
    method GetBytes() returns (raw: seq<byte>)
      requires Valid() && dataSize < 0x1_0000_0000
      ensures raw == Body(DataOf(keyStr, valBytes)) + [START1, START0]
    {
      raw := [START0, START1] + Encode32(dataSize);
      raw := raw + dataBytes;
      raw := raw + [checksum];
      raw := raw + [START1, START0];
    }

    static method CalcChecksum(raw: seq<byte>) returns (sum: byte)
      ensures sum == Checksum(raw)
    {
      sum := 0;
      for i := 0 to |raw|
        invariant sum == Checksum(raw[..i])
      {
        assert raw[..i + 1][..i] == raw[..i];
        sum := Xor(sum, raw[i]);
      }
      assert raw[..|raw|] == raw;
    }

    static method ParseBytes(utf8: seq<byte> -> bool, stream: seq<byte>) returns (p: Packet?)
      ensures p == null <==> Parse(utf8, stream) == Nothing
      ensures p != null ==> fresh(p) && p.Valid() && Parse(utf8, stream) == Found(p.keyStr, p.valBytes)
    {
      var raw := stream;
      while |raw| >= PACKET_MIN
        invariant Parse(utf8, raw) == Parse(utf8, stream)
        decreases |raw|
      {
        var startIdx := FindStart(raw);
        if startIdx == |raw| {
          return null;
        }
        if startIdx > 0 {
          raw := raw[startIdx..];
        } else {
          var size := Decode32(raw[2..6]);
          if |raw| < 6 + 1 + size {
            return null;
          }
          var data := raw[6..6 + size];
          var sum := raw[6 + size];
          var check := CalcChecksum(data);
          if check == sum {
            var splitIdx := IndexOf(data, EQUALS);
            var key, val := data, [];
            if 0 < splitIdx < |data| {
              key, val := data[..splitIdx], data[splitIdx + 1..];
            }
            if !utf8(key) {
              return null;
            }
            p := new Packet(key, val);
            return;
          }
          raw := raw[2..];
        }
      }
      return null;
    }
  }

  /** From one side to the other: through noise, and whatever follows the frame. */
  method SendAndReceive(utf8: seq<byte> -> bool, key: seq<byte>, val: seq<byte>, noise: seq<byte>,
      rest: seq<byte>)
    returns (got: Packet?)
    requires key != [] && EQUALS !in key && utf8(key) && |DataOf(key, Encode(val))| < 0x1_0000_0000 && NoStart(noise)
    ensures got != null && got.keyStr == key && got.valBytes == val
  {
    hide Parse, Body, DataOf, Encode, Decode, Checksum, NoStart;
    var sent := new Packet(key, val);
    sent.DoEncode();
    var raw := sent.GetBytes();
    ValueDelivered(utf8, key, val, noise, [START1, START0] + rest);
    Associative(Body(DataOf(key, Encode(val))), [START1, START0], rest);
    got := Packet.ParseBytes(utf8, noise + (raw + rest));
    var ok := got.DoDecode();
  }
}
