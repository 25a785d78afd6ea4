/** Why a compressed name reads back as the name that was written. */
module MdnsNameProof {
  import opened Bytes
  import opened MdnsName

  // ---------------------------------------------------------------- tokens

  /** What a name in a packet consists of, apart from where it lies: its labels and the pointers followed. */
  datatype Token = Label(text: seq<byte>) | Jump

  /** The tokens from `pos` on, and where the name ends. It fails exactly where the reader fails. */
  function Decode(p: seq<byte>, segment: nat, pos: nat): Option<(seq<Token>, nat)>
    decreases segment, |p| - pos
  {
    if pos >= |p| then None
    else if p[pos] == 0 then Some(([], pos + 1))
    else
      var len := p[pos];
      if len < 0xC0 then
        if len > 63 || pos + 1 + len > |p| then None
        else match Decode(p, segment, pos + 1 + len)
          case None => None
          case Some(d) => Some(([Label(CString(p[pos + 1..pos + 1 + len]))] + d.0, d.1))
      else if pos + 1 >= |p| then None
      else
        var address := Target(len, p[pos + 1]);
        if address >= segment then None
        else match Decode(p, address, address)
          case None => None
          case Some(d) => Some(([Jump] + d.0, pos + 2))
  }

  function FeedOne(n: Name, t: Token): Name {
    match t
    case Label(text) => AddLabel(Enter(n), text)
    case Jump => Enter(n)
  }

  function Feed(n: Name, ts: seq<Token>): Name
    decreases |ts|
  {
    if ts == [] then n else Feed(FeedOne(n, ts[0]), ts[1..])
  }

  /** Reading is decoding and then filling the slots. */
  lemma {:induction false} ReadIsDecode(p: seq<byte>, segment: nat, pos: nat, n: Name)
    ensures match Decode(p, segment, pos)
      case None => Read(p, segment, pos, n) == None
      case Some(d) => Read(p, segment, pos, n) == Some((Feed(n, d.0), d.1))
    decreases segment, |p| - pos
  {
    if pos < |p| && p[pos] != 0 {
      var len := p[pos];
      if len < 0xC0 {
        if len <= 63 && pos + 1 + len <= |p| {
          ReadIsDecode(p, segment, pos + 1 + len, AddLabel(Enter(n), CString(p[pos + 1..pos + 1 + len])));
        }
      } else if pos + 1 < |p| {
        var address := Target(len, p[pos + 1]);
        if address < segment {
          ReadIsDecode(p, address, address, Enter(n));
        }
      }
    }
  }

  /** Names once readable read the same in every longer packet. */
  lemma {:induction false} DecodeStable(p: seq<byte>, more: seq<byte>, segment: nat, pos: nat)
    requires Decode(p, segment, pos).Some?
    ensures Decode(p + more, segment, pos) == Decode(p, segment, pos)
    decreases segment, |p| - pos
  {
    var q := p + more;
    assert q[pos] == p[pos];
    if p[pos] != 0 {
      var len := p[pos];
      if len < 0xC0 {
        assert q[pos + 1..pos + 1 + len] == p[pos + 1..pos + 1 + len];
        DecodeStable(p, more, segment, pos + 1 + len);
      } else {
        assert q[pos + 1] == p[pos + 1];
        var address := Target(len, p[pos + 1]);
        DecodeStable(p, more, address, address);
      }
    }
  }

  lemma EarlierNamesKept(p: seq<byte>, more: seq<byte>, start: nat, n: Name)
    requires Read(p, start, start, n).Some?
    ensures Read(p + more, start, start, n) == Read(p, start, start, n)
  {
    ReadIsDecode(p, start, start, n);
    DecodeStable(p, more, start, start);
    ReadIsDecode(p + more, start, start, n);
  }

  /** The written bytes of an open name cannot be read on their own: they hold neither a terminator nor a pointer. */
  lemma {:induction false} OpenUnreadable(p: seq<byte>, segment: nat, pos: nat)
    requires forall i :: pos <= i < |p| ==> 0 < p[i] < 0xC0
    ensures Decode(p, segment, pos) == None
    decreases |p| - pos
  {
    if pos < |p| && p[pos] <= 63 && pos + 1 + p[pos] <= |p| {
      OpenUnreadable(p, segment, pos + 1 + p[pos]);
    }
  }

  // ---------------------------------------------------------------- filling slots

  /** Filling never empties a slot, never shortens the host, and gives up only when all four are full. */
  lemma {:induction false} FeedGrows(n: Name, ts: seq<Token>)
    requires |n.parts| <= 4
    ensures |n.parts| <= |Feed(n, ts).parts| <= 4
    ensures n.parts != [] && |n.parts[0]| <= MAX_HOST ==> |n.parts[0]| <= |Feed(n, ts).parts[0]|
    ensures Feed(n, ts).invalid ==> n.invalid || |Feed(n, ts).parts| == 4
    decreases |ts|
  {
    if ts != [] {
      FeedGrows(FeedOne(n, ts[0]), ts[1..]);
    }
  }

  lemma HostLengthens(host: seq<byte>, text: seq<byte>)
    requires |host| < MAX_HOST
    ensures |host| < |Strlcat(Strlcat(host, [DOT]), text)| <= MAX_HOST
  {
  }

  /** Slots filled after others come out the same, as long as the host takes no further label and four suffice. */
  lemma {:induction false} FeedShift(a: Name, b: Name, pre: seq<seq<byte>>, ts: seq<Token>)
    requires a.parts != [] && |a.parts[0]| < MAX_HOST && b.parts == pre + a.parts
    requires a.invalid ==> |a.parts| == 4
    requires b.invalid ==> |b.parts| == 4
    requires |Feed(a, ts).parts| + |pre| <= 4 && |a.parts| + |pre| <= 4
    requires Feed(a, ts).parts != [] && |Feed(a, ts).parts[0]| == |a.parts[0]|
    ensures Feed(b, ts).parts == pre + Feed(a, ts).parts
    decreases |ts|
  {
    if ts != [] {
      var a1, b1 := FeedOne(a, ts[0]), FeedOne(b, ts[0]);
      FeedGrows(a1, ts[1..]);
      if ts[0].Label? && JoinsHost(|a.parts|, ts[0].text) {
        HostLengthens(a.parts[0], ts[0].text);
        assert false;
      } else {
        assert b1.parts == pre + a1.parts;
        FeedShift(a1, b1, pre, ts[1..]);
      }
    }
  }

  // ---------------------------------------------------------------- the round trip

  /** The cases of the writer, for labels of at most 63 bytes. */
  lemma AppendCases(p: seq<byte>, buf: seq<byte>, strings: seq<seq<byte>>)
    requires |p| <= MAX_PACKET && (strings != [] ==> |strings[0]| <= 63)
    ensures var r := AppendFqdn(p, buf, strings);
      if strings == [] then r == if |p| >= MAX_PACKET then Appended(p, 0, false) else Appended(p + [0], 1, true)
      else match Find(Whole(p, buf), |p|, strings, 0)
        case Unreadable => r == Appended(p, 0, false)
        case Found(loc) =>
          r == if |p| + 1 >= MAX_PACKET then Appended(p, 0, false)
               else Appended(p + Pointer(loc), 2, true)
        case Missing =>
          if |p| + |strings[0]| + 1 >= MAX_PACKET then r == Appended(p, 0, false)
          else
            var p1 := p + [|strings[0]|] + strings[0];
            var rest := AppendFqdn(p1, buf, strings[1..]);
            r == Appended(rest.packet, |strings[0]| + 1 + rest.reported, rest.ok)
  {
    if strings != [] {
      ShortText(p, strings[0]);
    }
    hide Find, Pointer;
  }

  lemma ShortText(p: seq<byte>, text: seq<byte>)
    requires |p| <= MAX_PACKET && |text| <= 63
    ensures AppendString(p, text) ==
      if |p| + |text| + 1 >= MAX_PACKET then Appended(p, 0, false)
      else Appended(p + [|text|] + text, |text| + 1, true)
  {
    assert text[..|text|] == text;
  }

  /** A label as the callers pass it: 1 to 63 ASCII characters, not `_sub`. */
  predicate GoodLabel(s: seq<byte>) {
    1 <= |s| <= 63 && (forall i :: 0 <= i < |s| ==> 0 < s[i] < 128) && !SameText(s, SUB)
  }

  /** The shapes that callers build: a second label is a service name or the domain. */
  predicate Shape(strings: seq<seq<byte>>, before: nat) {
    forall i :: 0 <= i < |strings| ==> GoodLabel(strings[i]) && (before + i == 1 ==> !JoinsHost(1, strings[i]))
  }

  /** `r` is `n` with `strings`, up to ASCII case, in the next slots. */
  ghost predicate Filled(n: Name, strings: seq<seq<byte>>, r: Name) {
    && |r.parts| == |n.parts| + |strings|
    && r.parts[..|n.parts|] == n.parts
    && (forall i :: 0 <= i < |strings| ==> SameText(strings[i], r.parts[|n.parts| + i]))
    && (r.invalid ==> n.invalid || |r.parts| == 4)
  }

  /** A label is stored in the next slot. */
  lemma GoodLabelStored(n: Name, text: seq<byte>)
    requires |n.parts| < 4 && !n.invalid && GoodLabel(text) && (|n.parts| == 1 ==> !JoinsHost(1, text))
    ensures AddLabel(Enter(n), text) == n.(parts := n.parts + [text])
  {
  }

  /** The tokens behind a found candidate start with the label that was looked for. */
  lemma CandidateTokens(p: seq<byte>, loc: nat, text: seq<byte>)
    requires GoodLabel(text) && Candidate(p, loc, text) && Decode(p, loc, loc).Some?
    ensures Decode(p, loc, loc).value.0 != [] && Decode(p, loc, loc).value.0[0] == Label(text)
  {
    hide Decode;
    assert text[..|text|] == text;
    CStringWhole(text);
    FirstToken(p, loc);
  }

  lemma FirstToken(p: seq<byte>, loc: nat)
    requires loc < |p| && 0 < p[loc] <= 63 && loc + 1 + p[loc] <= |p| && Decode(p, loc, loc).Some?
    ensures var ts := Decode(p, loc, loc).value.0;
      ts != [] && ts[0] == Label(CString(p[loc + 1..loc + 1 + p[loc]]))
  {
    hide CString;
  }

  /** What a candidate reads as on its own, it adds to a name that points to it. */
  lemma FoundFills(p: seq<byte>, loc: nat, strings: seq<seq<byte>>, n: Name)
    requires strings != [] && Shape(strings, |n.parts|) && |n.parts| + |strings| <= 4 && !n.invalid
    requires Candidate(p, loc, strings[0])
    requires Read(p, loc, loc, FRESH).Some? && Matches(Read(p, loc, loc, FRESH).value.0, strings)
    ensures Read(p, loc, loc, n).Some? && Filled(n, strings, Read(p, loc, loc, n).value.0)
  {
    ReadIsDecode(p, loc, loc, FRESH);
    ReadIsDecode(p, loc, loc, n);
    CandidateTokens(p, loc, strings[0]);
    var ts := Decode(p, loc, loc).value.0;
    var a, b := FeedOne(FRESH, ts[0]), FeedOne(n, ts[0]);
    GoodLabelStored(FRESH, strings[0]);
    GoodLabelStored(n, strings[0]);
    assert a.parts == [strings[0]] && b.parts == n.parts + [strings[0]];
    var r := Feed(a, ts[1..]);
    assert SameText(strings[0], r.parts[0]);
    FeedShift(a, b, n.parts, ts[1..]);
    FeedGrows(n, ts);
  }

  // ---------------------------------------------------------------- the reported length

  /** The function reports the bytes it has written, whether or not the name was finished. */
  lemma {:induction false} ReportedIsWritten(p: seq<byte>, buf: seq<byte>, strings: seq<seq<byte>>)
    requires |p| <= MAX_PACKET && forall i :: 0 <= i < |strings| ==> GoodLabel(strings[i])
    ensures |p| <= |AppendFqdn(p, buf, strings).packet|
    ensures AppendFqdn(p, buf, strings).reported == |AppendFqdn(p, buf, strings).packet| - |p|
    decreases |strings|
  {
    assert strings != [] ==> |strings[0]| <= 63;
    AppendCases(p, buf, strings);
    hide AppendFqdn, Find, GoodLabel, Pointer, Whole;
    if strings != [] && Find(Whole(p, buf), |p|, strings, 0).Missing? && |p| + |strings[0]| + 1 < MAX_PACKET {
      ReportedIsWritten(p + [|strings[0]|] + strings[0], buf, strings[1..]);
    }
  }

  /** So 0 means that nothing was written, which is less than "0 on error": see `UnfinishedNameReported`. */
  lemma ZeroIffNothingWritten(p: seq<byte>, buf: seq<byte>, strings: seq<seq<byte>>)
    requires |p| <= MAX_PACKET && forall i :: 0 <= i < |strings| ==> GoodLabel(strings[i])
    ensures AppendFqdn(p, buf, strings).reported == 0 <==> AppendFqdn(p, buf, strings).packet == p
    ensures AppendFqdn(p, buf, strings).ok ==> AppendFqdn(p, buf, strings).reported > 0
  {
    ReportedIsWritten(p, buf, strings);
    if AppendFqdn(p, buf, strings).packet != p && |AppendFqdn(p, buf, strings).packet| == |p| {
      SameLengthSamePacket(p, buf, strings);
    }
    if AppendFqdn(p, buf, strings).ok {
      SameLengthSamePacket(p, buf, strings);
    }
  }

  lemma SameLengthSamePacket(p: seq<byte>, buf: seq<byte>, strings: seq<seq<byte>>)
    requires |p| <= MAX_PACKET && forall i :: 0 <= i < |strings| ==> GoodLabel(strings[i])
    ensures var r := AppendFqdn(p, buf, strings);
      |r.packet| == |p| ==> r.packet == p && !r.ok
  {
    AppendCases(p, buf, strings);
    hide AppendFqdn, Find, GoodLabel, Pointer, Whole;
    if strings != [] && Find(Whole(p, buf), |p|, strings, 0).Missing? && |p| + |strings[0]| + 1 < MAX_PACKET {
      ReportedIsWritten(p + [|strings[0]|] + strings[0], buf, strings[1..]);
    }
  }

  lemma {:induction false} NoCandidate(w: seq<byte>, index: nat, strings: seq<seq<byte>>, from: nat)
    requires strings != [] && index <= |w| && forall i :: from <= i < index ==> !Candidate(w, i, strings[0])
    ensures Find(w, index, strings, from) == Missing
    decreases index - from
  {
    if from < index {
      NoCandidate(w, index, strings, from + 1);
    }
  }

  /**
   * A name whose second label no longer fits is left unfinished, and a length of 10 is reported, whatever lies
   * behind the packet.
   */
  lemma UnfinishedNameReported(buf: seq<byte>)
    requires |buf| == MAX_PACKET
    ensures var p: seq<byte> := seq(1449, _ => 0);
      var a: seq<byte> := seq(9, _ => 97);
      var b: seq<byte> := seq(8, _ => 98);
      && GoodLabel(a) && GoodLabel(b)
      && !AppendFqdn(p, buf, [a, b]).ok && AppendFqdn(p, buf, [a, b]).reported == 10
  {
    hide Find, Read, Decode;
    var p: seq<byte> := seq(1449, _ => 0);
    var a: seq<byte> := seq(9, _ => 97);
    var b: seq<byte> := seq(8, _ => 98);
    NoCandidate(Whole(p, buf), |p|, [a, b], 0);
    var p1 := AppendString(p, a).packet;
    assert p1 == p + [9] + a;
    assert [a, b][1..] == [b];
    NoCandidate(Whole(p1, buf), |p1|, [b], 0);
  }
}
