/**
 * Which names read back, told by where the matches lie, and by the labels alone: a name fails by pointing to itself.
 */
module MdnsNameLabels {
  import opened Bytes
  import opened MdnsName
  import opened MdnsNameProof
  import opened MdnsNameRoom

  // ---------------------------------------------------------------- matches below the name

  /** Every match below the name ends in the packet as it is before the call. */
  ghost predicate Inside(p: seq<byte>, buf: seq<byte>, strings: seq<seq<byte>>) {
    forall k: nat, loc: nat :: PointsAt(p, buf, strings, k, loc) && loc < |p| ==> Read(p, loc, loc, FRESH).Some?
  }

  /** A match that ends in the packet is one there, too. */
  lemma MatchInside(p: seq<byte>, w: seq<byte>, index: nat, strings: seq<seq<byte>>, loc: nat)
    requires strings != [] && GoodLabel(strings[0]) && p <= w && index <= |w|
    requires Find(w, index, strings, 0) == Found(loc) && Read(p, loc, loc, FRESH).Some?
    ensures loc < |p| && Candidate(p, loc, strings[0]) && Matches(Read(p, loc, loc, FRESH).value.0, strings)
  {
    hide Read, Matches, Find, SameText;
    assert w == p + w[|p|..];
    EarlierNamesKept(p, w[|p|..], loc, FRESH);
    LabelWithin(p, loc);
    CandidateCut(p, w, loc, strings[0]);
  }

  lemma CandidateCut(p: seq<byte>, w: seq<byte>, loc: nat, text: seq<byte>)
    requires p <= w && 1 <= |text| <= 63 && Candidate(w, loc, text)
    requires loc < |p| && (0 < p[loc] <= 63 ==> loc + 1 + p[loc] <= |p|)
    ensures Candidate(p, loc, text)
  {
    assert w[loc + 1..loc + 1 + |text|] == p[loc + 1..loc + 1 + |text|];
  }

  lemma LabelWithin(p: seq<byte>, loc: nat)
    requires Read(p, loc, loc, FRESH).Some?
    ensures loc < |p| && (0 < p[loc] <= 63 ==> loc + 1 + p[loc] <= |p|)
  {
  }

  /** Such a match leads to the rest of the name. */
  lemma InsideLeads(p: seq<byte>, buf: seq<byte>, strings: seq<seq<byte>>, k: nat, loc: nat)
    requires |p| <= MAX_PACKET && Shape(strings, 0) && |strings| <= 4 && PointsAt(p, buf, strings, k, loc)
    requires Read(p, loc, loc, FRESH).Some?
    ensures Leads(p, strings, k, loc)
  {
    hide Read, Matches, Find, Whole, Stuck, WrittenOut, GoodLabel, JoinsHost, Pointer, Plus;
    var q, rest, n := Plus(p, strings, k), strings[k..], Name(strings[..k], false, false);
    assert Shape(rest, k) && GoodLabel(rest[0]) by {
      assert forall i :: 0 <= i < |rest| ==> rest[i] == strings[k + i];
    }
    MatchInside(p, Whole(q, buf), |q|, rest, loc);
    FoundFills(p, loc, rest, n);
    var more := (q + Pointer(loc))[|p|..];
    assert q + Pointer(loc) == p + more;
    EarlierNamesKept(p, more, loc, n);
    FilledMatches(strings, k, Read(p, loc, loc, n).value.0);
  }

  lemma FilledMatches(strings: seq<seq<byte>>, k: nat, r: Name)
    requires k <= |strings| && Filled(Name(strings[..k], false, false), strings[k..], r)
    ensures Matches(r, strings)
  {
    hide Lower;
    forall i | 0 <= i < |strings|
      ensures SameText(strings[i], r.parts[i])
    {
      if i < k {
        assert r.parts[i] == r.parts[..k][i] == strings[i];
      } else {
        assert SameText(strings[k..][i - k], r.parts[k + (i - k)]);
      }
    }
  }

  /**
   * Where every nested append succeeds, the name reads back exactly when no search finds a match at or behind the
   * place where the name begins.
   */
  lemma RoundTripBelow(p: seq<byte>, buf: seq<byte>, strings: seq<seq<byte>>)
    requires |p| <= MAX_PACKET && Shape(strings, 0) && |strings| <= 4 && Inside(p, buf, strings)
    ensures AppendFqdn(p, buf, strings).ok ==>
      (ReadsAsWritten(p, AppendFqdn(p, buf, strings).packet, strings) <==>
       forall k: nat, loc: nat :: PointsAt(p, buf, strings, k, loc) ==> loc < |p|)
    ensures !AppendFqdn(p, buf, strings).ok ==> !ReadsAsWritten(p, AppendFqdn(p, buf, strings).packet, strings)
  {
    hide AppendFqdn, Stuck, WrittenOut, SearchAt, ReadsAsWritten, GoodLabel, JoinsHost, Plus, Read, Matches, Pointer;
    ShapeShort(strings);
    RoundTripIff(p, buf, strings);
    FinishedIff(p, buf, strings);
    forall k: nat, loc: nat | PointsAt(p, buf, strings, k, loc)
      ensures Leads(p, strings, k, loc) <==> loc < |p|
    {
      if loc < |p| {
        InsideLeads(p, buf, strings, k, loc);
      }
    }
  }

  // ---------------------------------------------------------------- where matches can lie

  /** What the search met before it ended. */
  lemma {:induction false} FindTells(w: seq<byte>, index: nat, strings: seq<seq<byte>>, from: nat)
    requires strings != [] && index <= |w|
    ensures Find(w, index, strings, from).Missing? ==>
      forall c :: from <= c < index && Candidate(w, c, strings[0]) ==>
        Read(w, c, c, FRESH).Some? && !Matches(Read(w, c, c, FRESH).value.0, strings)
    ensures Find(w, index, strings, from).Unreadable? ==>
      exists c :: from <= c < index && Candidate(w, c, strings[0]) && Read(w, c, c, FRESH) == None
    ensures Find(w, index, strings, from).Found? ==>
      forall c :: from <= c < Find(w, index, strings, from).loc && Candidate(w, c, strings[0]) ==>
        Read(w, c, c, FRESH).Some? && !Matches(Read(w, c, c, FRESH).value.0, strings)
    decreases index - from
  {
    hide Read, Matches, Candidate;
    if from < index {
      FindTells(w, index, strings, from + 1);
    }
  }

  /** The bytes of the packet from `c` on do not rule out that the label lies there. */
  predicate MayBegin(p: seq<byte>, c: nat, text: seq<byte>) {
    c < |p| && p[c] == |text| && (c + 1 + |text| <= |p| ==> p[c + 1..c + 1 + |text|] == text)
  }

  /** Wherever a label may lie in the packet a name can be read. */
  ghost predicate Settled(p: seq<byte>, strings: seq<seq<byte>>) {
    forall c, k :: 0 <= k < |strings| && MayBegin(p, c, strings[k]) ==> Read(p, c, c, FRESH).Some?
  }

  predicate NoLengthInside(strings: seq<seq<byte>>) {
    forall i, j, b :: 0 <= i < |strings| && 0 <= j < |strings| && 0 <= b < |strings[i]| ==>
      strings[i][b] != |strings[j]|
  }

  lemma {:induction false} PlusGrows(p: seq<byte>, strings: seq<seq<byte>>, j: nat, k: nat)
    requires j <= k <= |strings| && Short(strings)
    ensures Plus(p, strings, j) <= Plus(p, strings, k)
    ensures |Plus(p, strings, j)| + (k - j) <= |Plus(p, strings, k)|
    decreases k
  {
    if j < k {
      PlusGrows(p, strings, j, k - 1);
      LastLabel(p, Plus(p, strings, k), strings, k);
    }
  }

  /** A length byte in the open name is that of a label written out. */
  lemma {:induction false} LengthByte(p: seq<byte>, strings: seq<seq<byte>>, m: nat, k: nat, c: nat) returns (j: nat)
    requires m < |strings| && k <= |strings| && Short(strings) && NoLengthInside(strings)
    requires |p| <= c < |Plus(p, strings, k)| && Plus(p, strings, k)[c] == |strings[m]|
    ensures j < k && c == |Plus(p, strings, j)|
    decreases k
  {
    hide NoLengthInside;
    j := k - 1;
    var q, text := Plus(p, strings, k - 1), strings[k - 1];
    LastLabel(p, Plus(p, strings, k), strings, k);
    if c < |q| {
      j := LengthByte(p, strings, m, k - 1, c);
    } else if c > |q| {
      assert Plus(p, strings, k)[c] == text[c - |q| - 1];
      ByteIsNoLength(strings, k - 1, m, c - |q| - 1);
    }
  }

  lemma ByteIsNoLength(strings: seq<seq<byte>>, i: nat, j: nat, b: nat)
    requires NoLengthInside(strings) && i < |strings| && j < |strings| && b < |strings[i]|
    ensures strings[i][b] != |strings[j]|
  {
  }

  /** A candidate may begin in the packet as it was, or it is an equal label written out for this name. */
  lemma CandidateLies(p: seq<byte>, buf: seq<byte>, strings: seq<seq<byte>>, k: nat, c: nat) returns (j: nat)
    requires k < |strings| && Short(strings) && NoLengthInside(strings) && c < |Plus(p, strings, k)|
    requires Candidate(Whole(Plus(p, strings, k), buf), c, strings[k])
    ensures c < |p| ==> MayBegin(p, c, strings[k])
    ensures c >= |p| ==> j < k && c == |Plus(p, strings, j)| && strings[j] == strings[k]
  {
    hide NoLengthInside, Plus;
    var q, text := Plus(p, strings, k), strings[k];
    var w := Whole(q, buf);
    assert text[..|text|] == text;
    j := 0;
    if c < |p| {
      assert c + 1 + |text| <= |p| ==> w[c + 1..c + 1 + |text|] == p[c + 1..c + 1 + |text|];
    } else {
      j := LengthByte(p, strings, k, k, c);
      PlusGrows(p, strings, j + 1, k);
      LastLabel(p, w, strings, j + 1);
    }
  }

  /** A name that is in the packet already is written as two bytes, which point to the first place that reads as it. */
  lemma KnownNameIsPointer(p: seq<byte>, buf: seq<byte>, strings: seq<seq<byte>>, c: nat)
    requires |p| <= MAX_PACKET && strings != [] && Short(strings) && c < |p| && Candidate(p, c, strings[0])
    requires Read(p, c, c, FRESH).Some? && Matches(Read(p, c, c, FRESH).value.0, strings)
    requires !Stuck(p, buf, strings, 0)
    ensures exists loc ::
      && 0 <= loc <= c && PointsAt(p, buf, strings, 0, loc)
      && AppendFqdn(p, buf, strings) == Appended(p + Pointer(loc), 2, true)
  {
    hide Read, Matches, Find, AppendFqdn, Pointer;
    var w := Whole(p, buf);
    assert Plus(p, strings, 0) == p && strings[0..] == strings;
    assert w == p + w[|p|..];
    EarlierNamesKept(p, w[|p|..], c, FRESH);
    CandidateStays(p, w, c, strings[0]);
    FindTells(w, |p|, strings, 0);
    assert SearchAt(p, buf, strings, 0) == Find(w, |p|, strings, 0);
    var loc := SearchAt(p, buf, strings, 0).loc;
    PointerLeaves(p, buf, strings, 0, loc);
  }

  lemma CandidateStays(p: seq<byte>, w: seq<byte>, c: nat, text: seq<byte>)
    requires p <= w && Candidate(p, c, text)
    ensures Candidate(w, c, text)
  {
    var len := |text| % 256;
    assert w[c + 1..c + 1 + len] == p[c + 1..c + 1 + len];
  }

  // ---------------------------------------------------------------- conditions on the labels

  /** Labels as callers pass them, none of which would join the first one, wherever a name begins. */
  predicate Plain(strings: seq<seq<byte>>) {
    forall i :: 0 <= i < |strings| ==> GoodLabel(strings[i]) && (i > 0 ==> !JoinsHost(1, strings[i]))
  }

  predicate ZerosBehind(p: seq<byte>, buf: seq<byte>) {
    |p| <= |buf| == MAX_PACKET && forall i :: |p| <= i < MAX_PACKET ==> buf[i] == 0
  }

  /** The labels from `k` on repeat those just before them: up to case, and the first of them exactly. */
  predicate Doubled(strings: seq<seq<byte>>, k: int) {
    && 0 < k < |strings| <= 2 * k
    && strings[k] == strings[k - (|strings| - k)]
    && forall i :: k <= i < |strings| ==> SameText(strings[i], strings[i - (|strings| - k)])
  }

  lemma PlainTail(strings: seq<seq<byte>>, j: nat)
    requires Plain(strings) && j <= |strings|
    ensures Short(strings) && Shape(strings[j..], 0)
  {
    hide JoinsHost, SameText;
    assert forall i :: 0 <= i < |strings| - j ==> strings[j..][i] == strings[j + i];
  }

  /** A zero behind the open name ends it, from any of its labels on. */
  lemma OpenReads(p: seq<byte>, w: seq<byte>, strings: seq<seq<byte>>, j: nat, k: nat)
    requires j <= k <= |strings| <= 4 && Plain(strings) && Short(strings)
    requires Plus(p, strings, k) <= w && |Plus(p, strings, k)| < |w| && w[|Plus(p, strings, k)|] == 0
    ensures var start := |Plus(p, strings, j)|;
      Read(w, start, start, FRESH) == Some((Name(strings[j..k], false, false), |Plus(p, strings, k)| + 1))
  {
    PlainTail(strings, j);
    LabelsRead(p, w, strings, |Plus(p, strings, j)|, j, k);
    hide Plus, Shape, Plain, Short;
  }

  lemma DoubledMatches(strings: seq<seq<byte>>, j: nat, k: nat)
    requires j < k < |strings| && strings[j] == strings[k]
    ensures Matches(Name(strings[j..k], false, false), strings[k..]) <==>
      j == k - (|strings| - k) && Doubled(strings, k)
  {
    hide SameText;
    var n := Name(strings[j..k], false, false);
    if Matches(n, strings[k..]) {
      forall i | k <= i < |strings|
        ensures SameText(strings[i], strings[i - (|strings| - k)])
      {
        assert SameText(strings[k..][i - k], strings[j..k][i - k]);
      }
    }
    if j == k - (|strings| - k) && Doubled(strings, k) {
      forall i | 0 <= i < |strings| - k
        ensures SameText(strings[k..][i], n.parts[i])
      {
        assert strings[k..][i] == strings[k + i];
      }
    }
  }

  /** What the search behind `k` labels finds in the name itself, where zeros lie behind. */
  lemma SearchTells(p: seq<byte>, buf: seq<byte>, strings: seq<seq<byte>>, k: nat)
    requires k < |strings| <= 4 && Plain(strings) && Short(strings) && NoLengthInside(strings)
    requires Settled(p, strings) && ZerosBehind(p, buf) && |Plus(p, strings, k)| < MAX_PACKET
    ensures match SearchAt(p, buf, strings, k)
      case Unreadable => false
      case Found(loc) => if loc < |p| then MayBegin(p, loc, strings[k]) else Doubled(strings, k)
      case Missing => !Doubled(strings, k)
  {
    hide Read, Matches, Find, Plus, Candidate, Whole, NoLengthInside, Plain, JoinsHost, Settled, Doubled, MayBegin;
    var q := Plus(p, strings, k);
    var w := Whole(q, buf);
    ZeroBehind(p, q, buf);
    assert strings[k..][0] == strings[k];
    FindTells(w, |q|, strings[k..], 0);
    forall c: nat | c < |q| && Candidate(w, c, strings[k])
      ensures Read(w, c, c, FRESH).Some?
      ensures c < |p| ==> MayBegin(p, c, strings[k])
      ensures c >= |p| && Matches(Read(w, c, c, FRESH).value.0, strings[k..]) ==> Doubled(strings, k)
    {
      var j := CandidateLies(p, buf, strings, k, c);
      if c < |p| {
        SettledRead(p, w, strings, k, c);
      } else {
        OpenReads(p, w, strings, j, k);
        DoubledMatches(strings, j, k);
      }
    }
    if Doubled(strings, k) {
      var c := DoubledFound(p, w, strings, k);
    }
  }

  lemma ZeroBehind(p: seq<byte>, q: seq<byte>, buf: seq<byte>)
    requires ZerosBehind(p, buf) && p <= q && |q| < MAX_PACKET
    ensures |Whole(q, buf)| > |q| && Whole(q, buf)[|q|] == 0
  {
  }

  lemma SettledRead(p: seq<byte>, w: seq<byte>, strings: seq<seq<byte>>, k: nat, c: nat)
    requires Settled(p, strings) && k < |strings| && MayBegin(p, c, strings[k]) && p <= w
    ensures Read(p, c, c, FRESH).Some? && Read(w, c, c, FRESH).Some?
  {
    hide Read, MayBegin;
    assert w == p + w[|p|..];
    EarlierNamesKept(p, w[|p|..], c, FRESH);
  }

  lemma DoubledFound(p: seq<byte>, w: seq<byte>, strings: seq<seq<byte>>, k: nat) returns (c: nat)
    requires k < |strings| <= 4 && Plain(strings) && Short(strings) && Doubled(strings, k)
    requires Plus(p, strings, k) <= w && |Plus(p, strings, k)| < |w| && w[|Plus(p, strings, k)|] == 0
    ensures c < |Plus(p, strings, k)| && Candidate(w, c, strings[k])
    ensures Read(w, c, c, FRESH).Some? && Matches(Read(w, c, c, FRESH).value.0, strings[k..])
  {
    hide Read, Matches, Plus, JoinsHost, Plain, SameText;
    var j := k - (|strings| - k);
    c := |Plus(p, strings, j)|;
    OpenReads(p, w, strings, j, k);
    DoubledMatches(strings, j, k);
    PlusGrows(p, strings, j + 1, k);
    LastLabel(p, w, strings, j + 1);
    assert strings[k][..|strings[k]|] == strings[k];
  }

  // ---------------------------------------------------------------- what follows for the name

  lemma PointsInside(p: seq<byte>, buf: seq<byte>, strings: seq<seq<byte>>, k: nat, loc: nat)
    requires |p| <= MAX_PACKET && Short(strings) && NoLengthInside(strings) && Settled(p, strings)
    requires PointsAt(p, buf, strings, k, loc)
    ensures loc < |p| ==> MayBegin(p, loc, strings[k]) && Read(p, loc, loc, FRESH).Some?
    ensures loc >= |p| ==> exists j :: 0 <= j < k && strings[j] == strings[k]
  {
    hide Read, NoLengthInside, Settled, MayBegin, Plus, Whole, WrittenOut, Stuck;
    assert strings[k..][0] == strings[k];
    var j := CandidateLies(p, buf, strings, k, loc);
    if loc < |p| {
      SettledRead(p, p, strings, k, loc);
    }
  }

  /** With room for the name the searches behind its labels take place inside the buffer. */
  lemma RoomBehind(p: seq<byte>, strings: seq<seq<byte>>, k: nat)
    requires k <= |strings| && Short(strings) && |p| + NameLength(strings) <= MAX_PACKET
    ensures |Plus(p, strings, k)| < MAX_PACKET && |p| < MAX_PACKET
  {
    PlusWithin(p, strings, k);
    NameNotEmpty(strings[k..]);
    NameNotEmpty(strings);
  }

  lemma PlainFinished(p: seq<byte>, buf: seq<byte>, strings: seq<seq<byte>>)
    requires |strings| <= 4 && Plain(strings) && NoLengthInside(strings) && Short(strings)
    requires Settled(p, strings) && ZerosBehind(p, buf) && |p| + NameLength(strings) <= MAX_PACKET
    ensures AppendFqdn(p, buf, strings).ok && Inside(p, buf, strings)
  {
    hide NoLengthInside, Settled, Plain, Read, MayBegin, Doubled, Stuck, WrittenOut, SearchAt, Plus, NameLength;
    RoomBehind(p, strings, 0);
    forall k: nat | k < |strings|
      ensures !SearchAt(p, buf, strings, k).Unreadable?
    {
      RoomBehind(p, strings, k);
      SearchTells(p, buf, strings, k);
    }
    RoomSuffices(p, buf, strings);
    forall k: nat, loc: nat | PointsAt(p, buf, strings, k, loc)
      ensures loc < |p| ==> Read(p, loc, loc, FRESH).Some?
    {
      PointsInside(p, buf, strings, k, loc);
    }
  }

  /**
   * Where zeros lie behind the packet, a name that does not end in doubled labels reads back; and if none of its
   * labels can lie in the packet already, it reads back exactly then.
   */
  lemma ReadsBackUnlessDoubled(p: seq<byte>, buf: seq<byte>, strings: seq<seq<byte>>)
    requires |strings| <= 4 && Plain(strings) && NoLengthInside(strings) && Short(strings)
    requires Settled(p, strings) && ZerosBehind(p, buf) && |p| + NameLength(strings) <= MAX_PACKET
    ensures AppendFqdn(p, buf, strings).ok
    ensures (forall k :: !Doubled(strings, k)) ==> ReadsAsWritten(p, AppendFqdn(p, buf, strings).packet, strings)
    ensures (forall c, k :: 0 <= k < |strings| ==> !MayBegin(p, c, strings[k])) ==>
      (ReadsAsWritten(p, AppendFqdn(p, buf, strings).packet, strings) <==> forall k :: !Doubled(strings, k))
  {
    hide AppendFqdn, NoLengthInside, Settled, Plain, Read, MayBegin, Doubled, Stuck, SearchAt, Plus, NameLength, Inside,
      ReadsAsWritten, WrittenOut, ZerosBehind;
    RoomBehind(p, strings, 0);
    PlainTail(strings, 0);
    assert strings[0..] == strings;
    PlainFinished(p, buf, strings);
    RoundTripBelow(p, buf, strings);
    forall k: nat | k < |strings|
      ensures match SearchAt(p, buf, strings, k)
        case Unreadable => false
        case Found(loc) => if loc < |p| then MayBegin(p, loc, strings[k]) else Doubled(strings, k)
        case Missing => !Doubled(strings, k)
    {
      RoomBehind(p, strings, k);
      SearchTells(p, buf, strings, k);
    }
    var last, loc := LastStep(p, buf, strings);
    forall k: nat | k < last
      ensures !Doubled(strings, k)
    {
      assert WrittenOut(p, buf, strings, k);
      WrittenMissing(p, buf, strings, k);
    }
    if exists k :: Doubled(strings, k) {
      var k :| Doubled(strings, k);
      DoubledBelow(strings, k);
    }
  }

  lemma WrittenMissing(p: seq<byte>, buf: seq<byte>, strings: seq<seq<byte>>, k: nat)
    requires k < |strings| && Short(strings) && WrittenOut(p, buf, strings, k)
    ensures SearchAt(p, buf, strings, k).Missing?
  {
  }

  lemma DoubledBelow(strings: seq<seq<byte>>, k: int)
    requires Doubled(strings, k)
    ensures 0 < k < |strings|
  {
  }

  /** Whatever lies behind the packet: a name whose labels are all different reads back. */
  lemma DifferentLabelsReadBack(p: seq<byte>, buf: seq<byte>, strings: seq<seq<byte>>)
    requires |strings| <= 4 && Shape(strings, 0) && NoLengthInside(strings) && Short(strings)
    requires forall i, j :: 0 <= i < j < |strings| ==> strings[i] != strings[j]
    requires Settled(p, strings) && |p| + NameLength(strings) <= MAX_PACKET
    ensures ReadsAsWritten(p, AppendFqdn(p, buf, strings).packet, strings)
  {
    hide AppendFqdn, NoLengthInside, Settled, Shape, Read, MayBegin, Stuck, SearchAt, Plus, NameLength,
      ReadsAsWritten, WrittenOut;
    RoomBehind(p, strings, 0);
    forall k: nat | k < |strings|
      ensures !SearchAt(p, buf, strings, k).Unreadable?
    {
      DifferentReadable(p, buf, strings, k);
    }
    RoomSuffices(p, buf, strings);
    forall k: nat, loc: nat | PointsAt(p, buf, strings, k, loc)
      ensures loc < |p| && Read(p, loc, loc, FRESH).Some?
    {
      PointsInside(p, buf, strings, k, loc);
    }
    RoundTripBelow(p, buf, strings);
  }

  lemma DifferentReadable(p: seq<byte>, buf: seq<byte>, strings: seq<seq<byte>>, k: nat)
    requires k < |strings| && Short(strings) && NoLengthInside(strings) && Settled(p, strings)
    requires forall i, j :: 0 <= i < j < |strings| ==> strings[i] != strings[j]
    ensures !SearchAt(p, buf, strings, k).Unreadable?
  {
    hide Read, Matches, Find, Plus, Candidate, Whole, NoLengthInside, Settled, MayBegin;
    var q := Plus(p, strings, k);
    var w := Whole(q, buf);
    assert strings[k..][0] == strings[k];
    FindTells(w, |q|, strings[k..], 0);
    forall c: nat | c < |q| && Candidate(w, c, strings[k])
      ensures Read(w, c, c, FRESH).Some?
    {
      var j := CandidateLies(p, buf, strings, k, c);
      SettledRead(p, w, strings, k, c);
    }
  }

  // ---------------------------------------------------------------- inputs

  /** A name that points to itself is finished, reports its length, and cannot be read. */
  lemma SelfPointerUnreadable(p: seq<byte>, buf: seq<byte>, strings: seq<seq<byte>>, k: nat, loc: nat)
    requires |p| <= MAX_PACKET && Shape(strings, 0) && |strings| <= 4 && PointsAt(p, buf, strings, k, loc)
    requires loc >= |p|
    ensures AppendFqdn(p, buf, strings) ==
      Appended(Plus(p, strings, k) + Pointer(loc), |Plus(p, strings, k)| - |p| + 2, true)
    ensures Read(AppendFqdn(p, buf, strings).packet, |p|, |p|, FRESH) == None
  {
    hide AppendFqdn, SearchAt, Stuck, WrittenOut, Read, GoodLabel, JoinsHost, Pointer;
    PointerLeaves(p, buf, strings, k, loc);
    assert strings[0..] == strings;
    var q := Plus(p, strings, k);
    LabelsRead(p, q + Pointer(loc), strings, |p|, 0, k);
    PointerRead(q, loc, |p|, Name(strings[0..k], false, false));
  }

  const HEADER: seq<byte> := [0, 0, 0, 0, 0, 0, 0, 0, 0, 0, 0, 0]
  const TCP: seq<byte> := [95, 116, 99, 112]

  lemma HeaderSettled(strings: seq<seq<byte>>)
    requires forall i :: 0 <= i < |strings| ==> GoodLabel(strings[i])
    ensures forall c, k :: 0 <= k < |strings| ==> !MayBegin(HEADER, c, strings[k])
    ensures Settled(HEADER, strings)
  {
    hide Read, SameText;
    assert forall c :: 0 <= c < |HEADER| ==> HEADER[c] == 0;
  }

  /**
   * The question of a host called "local", in an empty packet: behind its first label the search finds that label,
   * ended by the zero behind it. The name points to itself.
   */
  lemma LocalLocalPointsToItself(buf: seq<byte>)
    requires ZerosBehind(HEADER, buf)
    ensures AppendFqdn(HEADER, buf, [LOCAL, LOCAL]) == Appended(HEADER + [5] + LOCAL + [0xC0, 12], 8, true)
    ensures Read(HEADER + [5] + LOCAL + [0xC0, 12], 12, 12, FRESH) == None
  {
    hide AppendFqdn, SearchAt, Read, MayBegin, Settled, Doubled, NoLengthInside;
    var strings := [LOCAL, LOCAL];
    LocalLabels();
    HeaderSettled(strings);
    SearchTells(HEADER, buf, strings, 0);
    SearchTells(HEADER, buf, strings, 1);
    var q := Plus(HEADER, strings, 1);
    assert q == HEADER + [5] + LOCAL by {
      assert Plus(HEADER, strings, 0) == HEADER;
    }
    FoundBehind(HEADER, buf, strings, 1);
    assert Reached(HEADER, buf, strings, 1);
    SelfPointerUnreadable(HEADER, buf, strings, 1, 12);
    assert Pointer(12) == [0xC0, 12];
  }

  lemma LocalLabels()
    ensures Plain([LOCAL, LOCAL]) && Short([LOCAL, LOCAL]) && NoLengthInside([LOCAL, LOCAL])
    ensures Doubled([LOCAL, LOCAL], 1) && !Doubled([LOCAL, LOCAL], 0) && Shape([LOCAL, LOCAL], 0)
  {
  }

  /** A match behind the first label only is at that label. */
  lemma FoundBehind(p: seq<byte>, buf: seq<byte>, strings: seq<seq<byte>>, k: nat)
    requires k < |strings| && Short(strings) && NoLengthInside(strings) && SearchAt(p, buf, strings, k).Found?
    ensures var loc := SearchAt(p, buf, strings, k).loc;
      loc < |p| || exists j :: 0 <= j < k && loc == |Plus(p, strings, j)|
  {
    hide Read, NoLengthInside, Plus, Whole, Matches;
    assert strings[k..][0] == strings[k];
    var j := CandidateLies(p, buf, strings, k, SearchAt(p, buf, strings, k).loc);
  }

  /** A repeated label that does not end the name is searched past, and the name reads back. */
  lemma RepeatedServiceReadsBack(buf: seq<byte>)
    requires ZerosBehind(HEADER, buf)
    ensures var strings := [[97], TCP, TCP, LOCAL];
      ReadsAsWritten(HEADER, AppendFqdn(HEADER, buf, strings).packet, strings)
  {
    hide AppendFqdn, Read, MayBegin, Settled, ReadsAsWritten;
    var strings := [[97], TCP, TCP, LOCAL];
    ServiceLabels();
    HeaderSettled(strings);
    ReadsBackUnlessDoubled(HEADER, buf, strings);
  }

  lemma ServiceLabels()
    ensures var strings: seq<seq<byte>> := [[97], TCP, TCP, LOCAL];
      && Plain(strings) && Short(strings) && NoLengthInside(strings) && NameLength(strings) == 19
      && forall k :: !Doubled(strings, k)
  {
    hide Plain, Short, NoLengthInside, NameLength, Doubled;
    PlainService();
    ServiceLength();
    ServiceNotDoubled();
  }

  lemma PlainService()
    ensures var strings: seq<seq<byte>> := [[97], TCP, TCP, LOCAL];
      Plain(strings) && Short(strings) && NoLengthInside(strings)
  {
    assert GoodLabel(TCP) && !JoinsHost(1, TCP) by {
      assert Lower(TCP[1]) != Lower(SUB[1]);
    }
    assert GoodLabel(LOCAL) && !JoinsHost(1, LOCAL);
    assert GoodLabel([97]);
    hide GoodLabel, JoinsHost;
  }

  lemma ServiceLength()
    ensures NameLength([[97], TCP, TCP, LOCAL]) == 19
  {
    var strings: seq<seq<byte>> := [[97], TCP, TCP, LOCAL];
    assert strings[1..] == [TCP, TCP, LOCAL] && strings[1..][1..] == [TCP, LOCAL];
    assert strings[1..][1..][1..] == [LOCAL] && [LOCAL][1..] == [] && NameLength([]) == 1;
    assert NameLength([LOCAL]) == 7 && NameLength([TCP, LOCAL]) == 12 && NameLength([TCP, TCP, LOCAL]) == 17;
  }

  lemma ServiceNotDoubled()
    ensures forall k :: !Doubled([[97], TCP, TCP, LOCAL], k)
  {
    assert |TCP| == 4 && |LOCAL| == 5;
  }

  /**
   * A match below the name need not lead to it: where the packet ends in an unfinished label, a zero behind it
   * ends the match, and the pointer then takes its place.
   */
  lemma MatchEndsBehind(buf: seq<byte>)
    requires ZerosBehind(HEADER + [5] + LOCAL, buf)
    ensures var p := HEADER + [5] + LOCAL;
      && PointsAt(p, buf, [LOCAL], 0, 12) && 12 < |p|
      && AppendFqdn(p, buf, [LOCAL]).ok && Read(AppendFqdn(p, buf, [LOCAL]).packet, |p|, |p|, FRESH) == None
  {
    hide AppendFqdn, Read, CString, SearchAt, Pointer;
    var p := HEADER + [5] + LOCAL;
    UnfinishedFound(p, buf);
    PointerLeaves(p, buf, [LOCAL], 0, 12);
    PointerRead(p, 12, |p|, FRESH);
    assert p[13..18] == LOCAL;
    LabelRead(p + Pointer(12), 12, 12, FRESH, LOCAL);
    assert FRESH.parts + [LOCAL] == [LOCAL];
    PointerRead(p, 12, 12, Name([LOCAL], false, false));
  }

  lemma UnfinishedFound(p: seq<byte>, buf: seq<byte>)
    requires p == HEADER + [5] + LOCAL && ZerosBehind(p, buf)
    ensures PointsAt(p, buf, [LOCAL], 0, 12) && Short([LOCAL]) && Plus(p, [LOCAL], 0) == p
  {
    hide AppendFqdn, Read, CString, Candidate;
    var w := Whole(p, buf);
    ZeroBehind(p, p, buf);
    UnfinishedRead(p, w);
    FindTells(w, 18, [LOCAL], 0);
    assert [LOCAL][0..] == [LOCAL];
  }

  lemma UnfinishedRead(p: seq<byte>, w: seq<byte>)
    requires p == HEADER + [5] + LOCAL && p <= w && 18 < |w| && w[18] == 0
    ensures Read(w, 12, 12, FRESH) == Some((Name([LOCAL], false, false), 19))
    ensures Matches(Name([LOCAL], false, false), [LOCAL])
    ensures Candidate(w, 12, LOCAL) && forall c :: 0 <= c < 18 && Candidate(w, c, LOCAL) ==> c == 12
  {
    hide Read, SameText, GoodLabel;
    OnlyCandidate(p, w);
    assert GoodLabel(LOCAL) && SameText(LOCAL, LOCAL) by {
      LocalLabels();
      assert [LOCAL, LOCAL][0] == LOCAL;
    }
    assert LOCAL[..5] == LOCAL;
    LabelRead(w, 12, 12, FRESH, LOCAL);
    assert FRESH.parts + [LOCAL] == [LOCAL];
    TerminatorRead(w, 12, 18, Name([LOCAL], false, false));
  }

  lemma OnlyCandidate(p: seq<byte>, w: seq<byte>)
    requires p == HEADER + [5] + LOCAL && p <= w
    ensures Candidate(w, 12, LOCAL) && forall c :: 0 <= c < 18 && Candidate(w, c, LOCAL) ==> c == 12
  {
    assert forall c :: 0 <= c < 18 ==> w[c] == p[c];
    assert w[13..18] == p[13..18] == LOCAL == LOCAL[..5];
  }
}
