/** Bytes, optional values and the few facts about byte strings that the other modules share. */
module Bytes {

  type byte = x: int | 0 <= x < 256

  datatype Option<+T> = None | Some(value: T)

  /** `mem` with `bytes` written over it from offset `at` on, as `memcpy` leaves it. */
  function Patch(mem: seq<byte>, at: nat, bytes: seq<byte>): (r: seq<byte>)
    requires at + |bytes| <= |mem|
    ensures |r| == |mem|
  {
    mem[..at] + bytes + mem[at + |bytes|..]
  }

  /** A write leaves every slice that it does not reach as it was. */
  lemma PatchFrame(mem: seq<byte>, at: nat, bytes: seq<byte>, from: nat, to: nat)
    requires at + |bytes| <= |mem| && from <= to <= |mem|
    requires to <= at || at + |bytes| <= from
    ensures Patch(mem, at, bytes)[from..to] == mem[from..to]
  {
    var r := Patch(mem, at, bytes);
    forall i | from <= i < to
      ensures r[i] == mem[i]
    {
    }
    assert r[from..to] == mem[from..to];
  }

  /** A write can be read back. */
  lemma PatchHit(mem: seq<byte>, at: nat, bytes: seq<byte>)
    requires at + |bytes| <= |mem|
    ensures Patch(mem, at, bytes)[at..at + |bytes|] == bytes
  {
  }

  lemma Associative<T>(a: seq<T>, b: seq<T>, c: seq<T>)
    ensures a + (b + c) == a + b + c
  {
  }

  /** `memcpy` into an array. */
  method CopyInto(mem: array<byte>, at: nat, bytes: seq<byte>)
    requires at + |bytes| <= mem.Length
    modifies mem
    ensures mem[..] == Patch(old(mem[..]), at, bytes)
  {
    forall i | 0 <= i < |bytes| {
      mem[at + i] := bytes[i];
    }
  }

  /** The string that a buffer holds: the bytes before its first zero. */
  function CString(s: seq<byte>): (r: seq<byte>)
    ensures |r| <= |s| && (0 in s ==> |r| < |s|)
  {
    if s == [] || s[0] == 0 then [] else [s[0]] + CString(s[1..])
  }

  /** Little-endian 32-bit words, as both the ESP8266 and the packet format of the client store them. */
  function Encode32(n: nat): (r: seq<byte>)
    requires n < 0x1_0000_0000
    ensures |r| == 4
  {
    var n1 := n / 0x100;
    var n2 := n1 / 0x100;
    [n % 0x100, n1 % 0x100, n2 % 0x100, n2 / 0x100]
  }

  function Decode32(s: seq<byte>): nat
    requires |s| == 4
  {
    var b0: int, b1: int, b2: int, b3: int := s[0], s[1], s[2], s[3];
    b0 + 0x100 * (b1 + 0x100 * (b2 + 0x100 * b3))
  }

  lemma Decode32Encode32(n: nat)
    requires n < 0x1_0000_0000
    ensures Decode32(Encode32(n)) == n
  {
  }
}
