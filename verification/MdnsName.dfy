/**
 * DNS names in an mDNS packet: the reader, the compressing writer, and the round trip between them
 * (section 4.1.4 of RFC 1035). A packet is the sequence of bytes written so far. The writer keeps it in a buffer,
 * and its searches read on into whatever the buffer holds behind the packet.
 */
module MdnsName {
  import opened Bytes

  const MAX_PACKET: nat := 1460
  /** `MDNS_NAME_BUF_LEN` without the terminating zero. */
  const MAX_HOST: nat := 64

  const LOCAL: seq<byte> := [108, 111, 99, 97, 108]
  const IP6: seq<byte> := [105, 112, 54]
  const IN_ADDR: seq<byte> := [105, 110, 45, 97, 100, 100, 114]
  const SUB: seq<byte> := [95, 115, 117, 98]
  const DOT: byte := 46
  const UNDERSCORE: byte := 95

  // ---------------------------------------------------------------- C strings

  function Lower(b: byte): byte {
    if 65 <= b <= 90 then b + 32 else b
  }

  /** `strcasecmp(a, b) == 0`. */
  predicate SameText(a: seq<byte>, b: seq<byte>) {
    |a| == |b| && forall i :: 0 <= i < |a| ==> Lower(a[i]) == Lower(b[i])
  }

  predicate NoZero(s: seq<byte>) {
    forall i :: 0 <= i < |s| ==> s[i] != 0
  }

  lemma {:induction false} CStringWhole(s: seq<byte>)
    requires NoZero(s)
    ensures CString(s) == s
  {
    if s != [] {
      CStringWhole(s[1..]);
    }
  }

  /** `strlcat` into a slot of the name structure. */
  function Strlcat(dst: seq<byte>, src: seq<byte>): seq<byte> {
    var r := dst + src;
    if |r| <= MAX_HOST then r else r[..MAX_HOST]
  }

  // ---------------------------------------------------------------- the reader

  /** `mdns_name_t`: the slots filled so far. */
  datatype Name = Name(parts: seq<seq<byte>>, sub: bool, invalid: bool)

  const FRESH: Name := Name([], false, false)

  /** A second label that is neither a service nor a domain belongs to the first: an instance name with dots. */
  predicate JoinsHost(parts: nat, text: seq<byte>) {
    && parts == 1 && (text == [] || text[0] != UNDERSCORE)
    && !SameText(text, LOCAL) && !SameText(text, IP6) && !SameText(text, IN_ADDR)
  }

  function Enter(n: Name): Name {
    if |n.parts| == 4 then n.(invalid := true) else n
  }

  function AddLabel(n: Name, text: seq<byte>): Name {
    if JoinsHost(|n.parts|, text) then n.(parts := [Strlcat(Strlcat(n.parts[0], [DOT]), text)])
    else if SameText(text, SUB) then n.(sub := true)
    else if !n.invalid then n.(parts := n.parts + [text])
    else n
  }

  /**
   * `_mdns_read_fqdn` from `pos`, in a segment that starts at `segment`. A pointer has to lead below the
   * start of the segment, which is why reading ends. Running off the end of `p` is an error.
   */
  function Read(p: seq<byte>, segment: nat, pos: nat, n: Name): (r: Option<(Name, nat)>)
    decreases segment, |p| - pos
  {
    if pos >= |p| then None
    else if p[pos] == 0 then Some((n, pos + 1))
    else
      var len := p[pos];
      var m := Enter(n);
      if len < 0xC0 then
        if len > 63 || pos + 1 + len > |p| then None
        else Read(p, segment, pos + 1 + len, AddLabel(m, CString(p[pos + 1..pos + 1 + len])))
      else if pos + 1 >= |p| then None
      else
        var address := Target(len, p[pos + 1]);
        if address >= segment then None
        else match Read(p, address, address, m)
          case None => None
          case Some(found) => Some((found.0, pos + 2))
  }

  /** The offset in a pointer: the low 14 bits. */
  function Target(hi: byte, lo: byte): nat
    requires hi >= 0xC0
  {
    (hi - 0xC0) * 256 + lo
  }

  // ---------------------------------------------------------------- the writer

  /** Whether the name read at a candidate position is the one looked for. */
  predicate Matches(n: Name, strings: seq<seq<byte>>) {
    |n.parts| == |strings| && forall i :: 0 <= i < |strings| ==> SameText(strings[i], n.parts[i])
  }

  datatype Search = Found(loc: nat) | Missing | Unreadable

  /** The buffer with the packet `p`: behind it are the bytes that `buf` held there. */
  function Whole(p: seq<byte>, buf: seq<byte>): (w: seq<byte>)
    ensures p <= w && (|p| <= |buf| ==> |w| == |buf|)
  {
    if |p| <= |buf| then p + buf[|p|..] else p
  }

  predicate Candidate(p: seq<byte>, at: nat, text: seq<byte>) {
    var len := |text| % 256;
    at + 1 + len <= |p| && p[at] == len && p[at + 1..at + 1 + len] == text[..len]
  }

  /** The search of `_mdns_append_fqdn`: the first candidate below `index` from `from` on that reads as the name. */
  function Find(w: seq<byte>, index: nat, strings: seq<seq<byte>>, from: nat): (r: Search)
    requires strings != [] && index <= |w|
    ensures r.Found? ==> from <= r.loc < index && Candidate(w, r.loc, strings[0])
    ensures r.Found? ==> Read(w, r.loc, r.loc, FRESH).Some? && Matches(Read(w, r.loc, r.loc, FRESH).value.0, strings)
    decreases index - from
  {
    if from >= index then Missing
    else if Candidate(w, from, strings[0]) then
      match Read(w, from, from, FRESH)
      case None => Unreadable
      case Some(found) => if Matches(found.0, strings) then Found(from) else Find(w, index, strings, from + 1)
    else Find(w, index, strings, from + 1)
  }

  /** The packet, the length the function reports, and whether every nested append succeeded. */
  datatype Appended = Appended(packet: seq<byte>, reported: nat, ok: bool)

  /** `_mdns_append_string`: nothing is written when it does not fit; a length of 255 reports as 0. */
  function AppendString(p: seq<byte>, text: seq<byte>): (r: Appended)
    requires |p| <= MAX_PACKET
    ensures p <= r.packet && |p| <= |r.packet| <= MAX_PACKET && r.reported <= |r.packet| - |p|
    ensures |r.packet| == |p| || r.packet[|p|..] == [|text| % 256] + text[..|text| % 256]
  {
    var len := |text| % 256;
    if |p| + len + 1 >= MAX_PACKET then Appended(p, 0, false)
    else Appended(p + [len] + text[..len], (len + 1) % 256, len != 255)
  }

  /** `offset | MDNS_NAME_REF`, most significant byte first. */
  function Pointer(loc: nat): (r: seq<byte>)
    requires loc < MAX_PACKET
    ensures |r| == 2
  {
    [0xC0 + loc / 256, loc % 256]
  }

  /** `_mdns_append_fqdn`. The 16-bit length never overflows: it is at most what was written. */
  function AppendFqdn(p: seq<byte>, buf: seq<byte>, strings: seq<seq<byte>>): (r: Appended)
    requires |p| <= MAX_PACKET
    ensures |p| <= |r.packet| <= MAX_PACKET && r.reported <= |r.packet| - |p|
    decreases |strings|
  {
    if strings == [] then
      if |p| >= MAX_PACKET then Appended(p, 0, false) else Appended(p + [0], 1, true)
    else match Find(Whole(p, buf), |p|, strings, 0)
      case Unreadable => Appended(p, 0, false)
      case Missing =>
        var written := AppendString(p, strings[0]);
        if !written.ok then written
        else
          var rest := AppendFqdn(written.packet, buf, strings[1..]);
          Appended(rest.packet, written.reported + rest.reported, rest.ok)
      case Found(loc) =>
        if |p| + 1 >= MAX_PACKET then Appended(p, 0, false)
        else Appended(p + Pointer(loc), 2, true)
  }
}
