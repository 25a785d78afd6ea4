/** The outgoing packet as the code keeps it: a fixed buffer and an index, written in place. */
module MdnsPacket {
  import opened Bytes
  import opened MdnsName

  /** One turn of the reader's loop over a label. */
  lemma ReadLabel(p: seq<byte>, segment: nat, pos: nat, n: Name)
    requires pos < |p| && 0 < p[pos] < 0xC0
    ensures Read(p, segment, pos, n) ==
      if p[pos] > 63 || pos + 1 + p[pos] > |p| then None
      else Read(p, segment, pos + 1 + p[pos], AddLabel(Enter(n), CString(p[pos + 1..pos + 1 + p[pos]])))
  {
  }

  /** The turn that follows a pointer. */
  lemma ReadPointer(p: seq<byte>, segment: nat, pos: nat, n: Name)
    requires pos < |p| && 0xC0 <= p[pos]
    ensures Read(p, segment, pos, n) ==
      if pos + 1 >= |p| || Target(p[pos], p[pos + 1]) >= segment then None
      else match Read(p, Target(p[pos], p[pos + 1]), Target(p[pos], p[pos + 1]), Enter(n))
        case None => None
        case Some(found) => Some((found.0, pos + 2))
  {
  }

  lemma ReadEnd(p: seq<byte>, segment: nat, pos: nat, n: Name)
    requires pos < |p| ==> p[pos] == 0
    ensures Read(p, segment, pos, n) == if pos >= |p| then None else Some((n, pos + 1))
  {
  }

  lemma PointerWord(loc: nat)
    requires loc < MAX_PACKET
    ensures Pointer(loc) == [(0xC000 + loc) / 256, (0xC000 + loc) % 256]
  {
  }

  /** A reported length of 0 tells a label that was not appended. */
  lemma TextReported(p: seq<byte>, text: seq<byte>)
    requires |p| <= MAX_PACKET
    ensures AppendString(p, text).ok <==> AppendString(p, text).reported != 0
  {
  }

  class Packet {
    const buf: array<byte>
    var index: nat

    ghost predicate Valid()
      reads this
    {
      buf.Length == MAX_PACKET && index <= MAX_PACKET
    }

    function Written(): seq<byte>
      reads this, buf
      requires index <= buf.Length
    {
      buf[..index]
    }

    constructor ()
      ensures Valid() && fresh(buf) && Written() == []
    {
      buf := new byte[MAX_PACKET](_ => 0);
      index := 0;
    }

    /** `_mdns_append_u8`. */
    method AppendU8(value: byte) returns (n: nat)
      requires Valid()
      modifies this`index, buf
      ensures Valid() && old(index) <= index && buf[index..] == old(buf[..])[index..]
      ensures n == if old(index) < MAX_PACKET then 1 else 0
      ensures Written() == if n == 1 then old(Written()) + [value] else old(Written())
    {
      if index >= MAX_PACKET {
        return 0;
      }
      buf[index] := value;
      index := index + 1;
      return 1;
    }

    /** `_mdns_append_u16`. */
    method AppendU16(value: nat) returns (n: nat)
      requires Valid() && value < 0x1_0000
      modifies this`index, buf
      ensures Valid() && old(index) <= index && buf[index..] == old(buf[..])[index..]
      ensures n == if old(index) + 1 < MAX_PACKET then 2 else 0
      ensures Written() == if n == 2 then old(Written()) + [value / 256, value % 256] else old(Written())
    {
      if index + 1 >= MAX_PACKET {
        return 0;
      }
      ghost var b := buf[..];
      var _ := AppendU8(value / 256);
      ghost var m := buf[..];
      SameBehind(Written(), b, m);
      var _ := AppendU8(value % 256);
      return 2;
    }

    /** `_mdns_append_string`. */
    method AppendText(text: seq<byte>) returns (n: nat)
      requires Valid()
      modifies this`index, buf
      ensures Valid() && old(index) <= index && buf[index..] == old(buf[..])[index..]
      ensures Written() == AppendString(old(Written()), text).packet
      ensures n == AppendString(old(Written()), text).reported
    {
      var len := |text| % 256;
      if index + len + 1 >= MAX_PACKET {
        return 0;
      }
      ghost var was := Written();
      var _ := AppendU8(len);
      forall i | 0 <= i < len {
        buf[index + i] := text[i];
      }
      index := index + len;
      assert Written() == was + [len] + text[..len];
      return (len + 1) % 256;
    }

    /** `_mdns_read_fqdn`, confined to the buffer. */
    method ReadFqdn(start: nat, name: Name) returns (r: Option<(Name, nat)>)
      requires Valid()
      ensures r == Read(buf[..], start, start, name)
      decreases start
    {
      hide AddLabel, SameText, Read, CString, Target;
      ghost var p := buf[..];
      var pos, n := start, name;
      while pos < buf.Length && buf[pos] != 0
        invariant start <= pos
        invariant Read(p, start, start, name) == Read(p, start, pos, n)
        decreases buf.Length - pos
      {
        ghost var before := n;
        if |n.parts| == 4 {
          n := n.(invalid := true);
        }
        var len := buf[pos];
        if len < 0xC0 {
          ReadLabel(p, start, pos, before);
          if len > 63 || pos + 1 + len > buf.Length {
            return None;
          }
          assert p[pos + 1..pos + 1 + len] == buf[pos + 1..pos + 1 + len];
          n := AddLabel(n, CString(buf[pos + 1..pos + 1 + len]));
          pos := pos + 1 + len;
        } else {
          ReadPointer(p, start, pos, before);
          if pos + 1 >= buf.Length {
            return None;
          }
          var address := Target(len, buf[pos + 1]);
          if address >= start {
            return None;
          }
          var found := ReadFqdn(address, n);
          match found {
            case None => return None;
            case Some(f) => return Some((f.0, pos + 2));
          }
        }
      }
      ReadEnd(p, start, pos, n);
      if pos >= buf.Length {
        return None;
      }
      return Some((n, pos + 1));
    }

    /** The loop of `_mdns_append_fqdn` over the candidate positions; a candidate may reach behind the packet. */
    method Search(strings: seq<seq<byte>>) returns (r: Search)
      requires Valid() && strings != []
      ensures r == Find(buf[..], index, strings, 0)
    {
      hide Read, Matches;
      var len := |strings[0]| % 256;
      var loc := 0;
      while loc < index
        invariant loc <= index && Find(buf[..], index, strings, 0) == Find(buf[..], index, strings, loc)
      {
        assert Candidate(buf[..], loc, strings[0]) <==>
          loc + 1 + len <= buf.Length && buf[loc] == len && buf[loc + 1..loc + 1 + len] == strings[0][..len] by {
          assert loc + 1 + len <= buf.Length ==> buf[..][loc + 1..loc + 1 + len] == buf[loc + 1..loc + 1 + len];
        }
        if loc + 1 + len <= buf.Length && buf[loc] == len && buf[loc + 1..loc + 1 + len] == strings[0][..len] {
          var content := ReadFqdn(loc, FRESH);
          match content {
            case None => return Unreadable;
            case Some(c) =>
              if Matches(c.0, strings) {
                return Found(loc);
              }
          }
        }
        loc := loc + 1;
      }
      return Missing;
    }

    /** `_mdns_append_fqdn`. */
    method AppendName(strings: seq<seq<byte>>) returns (n: nat)
      requires Valid()
      modifies this`index, buf
      ensures Valid() && old(index) <= index && buf[index..] == old(buf[..])[index..]
      ensures Written() == AppendFqdn(old(Written()), old(buf[..]), strings).packet
      ensures n == AppendFqdn(old(Written()), old(buf[..]), strings).reported
      decreases |strings|
    {
      hide Find, Candidate, Matches, Read, Pointer, AppendString, Whole;
      if |strings| == 0 {
        n := AppendU8(0);
        return;
      }
      ghost var p, b := Written(), buf[..];
      var found := Search(strings);
      WholeIs(p, b);
      match found {
        case Unreadable => return 0;
        case Missing =>
          var written := AppendText(strings[0]);
          TextReported(p, strings[0]);
          if written == 0 {
            return 0;
          }
          ghost var m := buf[..];
          SameBehind(Written(), b, m);
          var rest := AppendName(strings[1..]);
          AppendSame(AppendString(p, strings[0]).packet, b, m, strings[1..]);
          return written + rest;
        case Found(loc) =>
          PointerWord(loc);
          n := AppendU16(0xC000 + loc);
      }
    }
  }

  lemma WholeIs(p: seq<byte>, b: seq<byte>)
    ensures p <= b ==> Whole(p, b) == b
  {
  }

  lemma SameBehind(p: seq<byte>, b: seq<byte>, m: seq<byte>)
    requires |b| == |m| && |p| <= |m| && m[|p|..] == b[|p|..]
    ensures forall k :: |p| <= k <= |b| ==> m[k..] == b[k..]
  {
    forall k | |p| <= k <= |b|
      ensures m[k..] == b[k..]
    {
      assert m[k..] == m[|p|..][k - |p|..];
      assert b[k..] == b[|p|..][k - |p|..];
    }
  }

  /** What the writer does depends on the buffer only behind the packet. */
  lemma {:induction false} AppendSame(p: seq<byte>, b: seq<byte>, m: seq<byte>, strings: seq<seq<byte>>)
    requires |p| <= MAX_PACKET == |b| == |m| && forall k :: |p| <= k <= |b| ==> m[k..] == b[k..]
    ensures AppendFqdn(p, b, strings) == AppendFqdn(p, m, strings)
    decreases |strings|
  {
    hide Find, AppendString;
    if strings != [] && AppendString(p, strings[0]).ok {
      AppendSame(AppendString(p, strings[0]).packet, b, m, strings[1..]);
    }
  }
}
