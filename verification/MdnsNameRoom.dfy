/**
 * When the compressing writer finishes a name, what it reports when it does not, and when the name reads back: exact
 * conditions on the packet, the bytes behind it and the labels before the call.
 */
module MdnsNameRoom {
  import opened Bytes
  import opened MdnsName
  import opened MdnsNameProof

  predicate Short(strings: seq<seq<byte>>) {
    forall i :: 0 <= i < |strings| ==> |strings[i]| <= 63
  }

  /** The packet with the first `k` labels written out behind it. */
  function Plus(p: seq<byte>, strings: seq<seq<byte>>, k: nat): (r: seq<byte>)
    requires k <= |strings| && Short(strings)
    ensures |r| >= |p| + k && p <= r
  {
    if k == 0 then p else Plus(p, strings, k - 1) + [|strings[k - 1]|] + strings[k - 1]
  }

  /** The search for the rest of the name, behind `k` labels. */
  function SearchAt(p: seq<byte>, buf: seq<byte>, strings: seq<seq<byte>>, k: nat): Search
    requires k < |strings| && Short(strings)
  {
    Find(Whole(Plus(p, strings, k), buf), |Plus(p, strings, k)|, strings[k..], 0)
  }

  /** The search for label `j` finds nothing, and there is room to write it out. */
  predicate WrittenOut(p: seq<byte>, buf: seq<byte>, strings: seq<seq<byte>>, j: nat)
    requires j < |strings| && Short(strings)
  {
    SearchAt(p, buf, strings, j).Missing? && |Plus(p, strings, j)| + |strings[j]| + 1 < MAX_PACKET
  }

  /** The writer gets behind the first `k` labels by writing them out. */
  ghost predicate Reached(p: seq<byte>, buf: seq<byte>, strings: seq<seq<byte>>, k: int) {
    && Short(strings) && 0 <= k <= |strings|
    && forall j :: 0 <= j < k ==> WrittenOut(p, buf, strings, j)
  }

  /**
   * Behind `k` labels no room is left for the terminator, the next label or the pointer, or a candidate is
   * unreadable.
   */
  predicate Stuck(p: seq<byte>, buf: seq<byte>, strings: seq<seq<byte>>, k: nat)
    requires k <= |strings| && Short(strings)
  {
    var room := MAX_PACKET - |Plus(p, strings, k)|;
    if k == |strings| then room <= 0
    else match SearchAt(p, buf, strings, k)
      case Unreadable => true
      case Missing => room <= |strings[k]| + 1
      case Found(_) => room <= 1
  }

  /** Appending writes out exactly `k` labels and then fails. */
  ghost predicate FailsAt(p: seq<byte>, buf: seq<byte>, strings: seq<seq<byte>>, k: int) {
    Reached(p, buf, strings, k) && Stuck(p, buf, strings, k)
  }

  /** Appending writes out exactly `k` labels and then a pointer to `loc`. */
  ghost predicate PointsAt(p: seq<byte>, buf: seq<byte>, strings: seq<seq<byte>>, k: int, loc: nat) {
    && Reached(p, buf, strings, k) && k < |strings|
    && SearchAt(p, buf, strings, k) == Found(loc) && !Stuck(p, buf, strings, k)
  }

  // ---------------------------------------------------------------- one label less

  function After(p: seq<byte>, strings: seq<seq<byte>>): seq<byte>
    requires strings != [] && Short(strings)
  {
    p + [|strings[0]|] + strings[0]
  }

  lemma {:induction false} PlusShift(p: seq<byte>, strings: seq<seq<byte>>, k: nat)
    requires k < |strings| && Short(strings)
    ensures Short(strings[1..]) && Plus(p, strings, k + 1) == Plus(After(p, strings), strings[1..], k)
  {
    if k > 0 {
      PlusShift(p, strings, k - 1);
      assert strings[1..][k - 1] == strings[k];
    }
  }

  lemma StepShift(p: seq<byte>, buf: seq<byte>, strings: seq<seq<byte>>, k: nat)
    requires k < |strings| && Short(strings)
    ensures Short(strings[1..])
    ensures Stuck(p, buf, strings, k + 1) <==> Stuck(After(p, strings), buf, strings[1..], k)
    ensures k + 1 < |strings| ==>
      && SearchAt(p, buf, strings, k + 1) == SearchAt(After(p, strings), buf, strings[1..], k)
      && (WrittenOut(p, buf, strings, k + 1) <==> WrittenOut(After(p, strings), buf, strings[1..], k))
  {
    hide Find, After, Plus, Whole;
    PlusShift(p, strings, k);
    assert strings[1..][k..] == strings[k + 1..];
    if k + 1 < |strings| {
      assert strings[1..][k] == strings[k + 1];
    }
  }

  lemma ReachedShift(p: seq<byte>, buf: seq<byte>, strings: seq<seq<byte>>, k: nat)
    requires k < |strings| && Short(strings) && WrittenOut(p, buf, strings, 0)
    ensures Short(strings[1..])
    ensures Reached(p, buf, strings, k + 1) <==> Reached(After(p, strings), buf, strings[1..], k)
  {
    hide WrittenOut, After;
    forall j: nat | j < k
      ensures WrittenOut(p, buf, strings, j + 1) <==> WrittenOut(After(p, strings), buf, strings[1..], j)
    {
      StepShift(p, buf, strings, j);
    }
    if Reached(After(p, strings), buf, strings[1..], k) {
      forall j | 0 <= j < k + 1
        ensures WrittenOut(p, buf, strings, j)
      {
        assert j > 0 ==> WrittenOut(After(p, strings), buf, strings[1..], j - 1);
      }
    }
    if Reached(p, buf, strings, k + 1) {
      forall j | 0 <= j < k
        ensures WrittenOut(After(p, strings), buf, strings[1..], j)
      {
        assert WrittenOut(p, buf, strings, j + 1);
      }
    }
  }

  /** The first step of the writer, in these terms. */
  lemma FirstStep(p: seq<byte>, buf: seq<byte>, strings: seq<seq<byte>>)
    requires |p| <= MAX_PACKET && Short(strings)
    ensures var r := AppendFqdn(p, buf, strings);
      if Stuck(p, buf, strings, 0) then r == Appended(p, 0, false)
      else if strings == [] then r == Appended(p + [0], 1, true)
      else match SearchAt(p, buf, strings, 0)
        case Unreadable => false
        case Found(loc) => loc < |p| && |p| + 1 < MAX_PACKET && r == Appended(p + Pointer(loc), 2, true)
        case Missing =>
          && WrittenOut(p, buf, strings, 0) && |After(p, strings)| <= MAX_PACKET && Short(strings[1..])
          && var rest := AppendFqdn(After(p, strings), buf, strings[1..]);
          r == Appended(rest.packet, |strings[0]| + 1 + rest.reported, rest.ok)
    ensures strings != [] && WrittenOut(p, buf, strings, 0) ==>
      !Stuck(p, buf, strings, 0) && SearchAt(p, buf, strings, 0).Missing?
  {
    assert strings[0..] == strings;
    AppendCases(p, buf, strings);
    hide AppendFqdn, Find, Whole, Pointer;
  }

  // ---------------------------------------------------------------- the exact conditions

  /** A failure leaves exactly the labels written out so far, and reports their length. */
  lemma {:induction false} FailureLeaves(p: seq<byte>, buf: seq<byte>, strings: seq<seq<byte>>, k: nat)
    requires |p| <= MAX_PACKET && FailsAt(p, buf, strings, k)
    ensures AppendFqdn(p, buf, strings) == Appended(Plus(p, strings, k), |Plus(p, strings, k)| - |p|, false)
    decreases k
  {
    hide AppendFqdn, Stuck, WrittenOut, SearchAt, Pointer;
    FirstStep(p, buf, strings);
    if k > 0 {
      ReachedShift(p, buf, strings, k - 1);
      StepShift(p, buf, strings, k - 1);
      FailureLeaves(After(p, strings), buf, strings[1..], k - 1);
      PlusShift(p, strings, k - 1);
    }
  }

  /** A match leaves the labels written out so far and a pointer to it. */
  lemma {:induction false} PointerLeaves(p: seq<byte>, buf: seq<byte>, strings: seq<seq<byte>>, k: nat, loc: nat)
    requires |p| <= MAX_PACKET && PointsAt(p, buf, strings, k, loc)
    ensures loc < |Plus(p, strings, k)| < MAX_PACKET
    ensures AppendFqdn(p, buf, strings) ==
      Appended(Plus(p, strings, k) + Pointer(loc), |Plus(p, strings, k)| - |p| + 2, true)
    decreases k
  {
    hide AppendFqdn, Stuck, WrittenOut, SearchAt, Pointer;
    FirstStep(p, buf, strings);
    if k > 0 {
      ReachedShift(p, buf, strings, k - 1);
      StepShift(p, buf, strings, k - 1);
      PointerLeaves(After(p, strings), buf, strings[1..], k - 1, loc);
      PlusShift(p, strings, k - 1);
    }
  }

  /** Where the writer ends: stuck, at a pointer, or behind the terminator. */
  lemma {:induction false} LastStep(p: seq<byte>, buf: seq<byte>, strings: seq<seq<byte>>) returns (k: nat, loc: nat)
    requires |p| <= MAX_PACKET && Short(strings)
    ensures Reached(p, buf, strings, k)
    ensures !AppendFqdn(p, buf, strings).ok ==> FailsAt(p, buf, strings, k)
    ensures AppendFqdn(p, buf, strings).ok && k < |strings| ==> PointsAt(p, buf, strings, k, loc)
    ensures AppendFqdn(p, buf, strings).ok && k == |strings| ==>
      AppendFqdn(p, buf, strings).packet == Plus(p, strings, k) + [0]
    decreases |strings|
  {
    hide AppendFqdn, Stuck, WrittenOut, After, SearchAt, Pointer;
    FirstStep(p, buf, strings);
    k, loc := 0, 0;
    if strings != [] && !Stuck(p, buf, strings, 0) {
      if SearchAt(p, buf, strings, 0).Found? {
        loc := SearchAt(p, buf, strings, 0).loc;
      } else {
        k, loc := LastStep(After(p, strings), buf, strings[1..]);
        ReachedShift(p, buf, strings, k);
        StepShift(p, buf, strings, k);
        PlusShift(p, strings, k);
        k := k + 1;
      }
    }
  }

  /** The name is finished exactly when the writer does not get stuck, before or behind any label it writes out. */
  lemma FinishedIff(p: seq<byte>, buf: seq<byte>, strings: seq<seq<byte>>)
    requires |p| <= MAX_PACKET && Short(strings)
    ensures AppendFqdn(p, buf, strings).ok <==> forall k :: !FailsAt(p, buf, strings, k)
  {
    hide AppendFqdn, FailsAt;
    if !AppendFqdn(p, buf, strings).ok {
      var k, _ := LastStep(p, buf, strings);
    }
    forall k | FailsAt(p, buf, strings, k)
      ensures !AppendFqdn(p, buf, strings).ok
    {
      FailureFrom(p, buf, strings, k);
    }
  }

  lemma FailureFrom(p: seq<byte>, buf: seq<byte>, strings: seq<seq<byte>>, k: int)
    requires |p| <= MAX_PACKET && FailsAt(p, buf, strings, k)
    ensures !AppendFqdn(p, buf, strings).ok && (AppendFqdn(p, buf, strings).reported > 0 <==> k > 0)
  {
    FailureLeaves(p, buf, strings, k);
    hide AppendFqdn, Stuck, WrittenOut;
  }

  /** An error reports a positive length exactly when the writer gets stuck behind a label it has written out. */
  lemma ErrorReportsLengthIff(p: seq<byte>, buf: seq<byte>, strings: seq<seq<byte>>)
    requires |p| <= MAX_PACKET && Short(strings)
    ensures !AppendFqdn(p, buf, strings).ok && AppendFqdn(p, buf, strings).reported > 0 <==>
      exists k :: k > 0 && FailsAt(p, buf, strings, k)
  {
    hide AppendFqdn, FailsAt;
    if !AppendFqdn(p, buf, strings).ok {
      var k, _ := LastStep(p, buf, strings);
      FailureFrom(p, buf, strings, k);
    }
    forall k | k > 0 && FailsAt(p, buf, strings, k)
      ensures !AppendFqdn(p, buf, strings).ok && AppendFqdn(p, buf, strings).reported > 0
    {
      FailureFrom(p, buf, strings, k);
    }
  }

  /** And 0 is reported exactly when it gets stuck at once: the errors that the description covers. */
  lemma ZeroReportedIff(p: seq<byte>, buf: seq<byte>, strings: seq<seq<byte>>)
    requires |p| <= MAX_PACKET && Short(strings)
    ensures AppendFqdn(p, buf, strings).reported == 0 <==> Stuck(p, buf, strings, 0)
  {
    FirstStep(p, buf, strings);
    FinishedReports(p, buf, strings);
    hide AppendFqdn, Stuck, WrittenOut, SearchAt, Pointer;
    if !Stuck(p, buf, strings, 0) && !AppendFqdn(p, buf, strings).ok {
      var k, _ := LastStep(p, buf, strings);
      FailureFrom(p, buf, strings, k);
    }
  }

  lemma FinishedReports(p: seq<byte>, buf: seq<byte>, strings: seq<seq<byte>>)
    requires |p| <= MAX_PACKET && Short(strings)
    ensures AppendFqdn(p, buf, strings).ok ==> AppendFqdn(p, buf, strings).reported > 0
  {
    AppendCases(p, buf, strings);
    hide Find, Whole;
  }

  // ---------------------------------------------------------------- room for the whole name

  /** The bytes of a name without compression. */
  function NameLength(strings: seq<seq<byte>>): nat {
    if strings == [] then 1 else |strings[0]| + 1 + NameLength(strings[1..])
  }

  /** Every search for the rest of the name, behind the labels written out so far, meets readable candidates only. */
  ghost predicate Readable(p: seq<byte>, buf: seq<byte>, strings: seq<seq<byte>>)
    requires Short(strings)
  {
    forall k: nat :: k < |strings| && Reached(p, buf, strings, k) ==> !SearchAt(p, buf, strings, k).Unreadable?
  }

  lemma {:induction false} PlusWithin(p: seq<byte>, strings: seq<seq<byte>>, k: nat)
    requires k <= |strings| && Short(strings)
    ensures |Plus(p, strings, k)| + NameLength(strings[k..]) == |p| + NameLength(strings)
  {
    if k == 0 {
      assert strings[0..] == strings;
    } else {
      PlusWithin(p, strings, k - 1);
      assert strings[k - 1..][1..] == strings[k..] && strings[k - 1..][0] == strings[k - 1];
    }
  }

  lemma {:induction false} NameNotEmpty(strings: seq<seq<byte>>)
    ensures NameLength(strings) >= 1 && (strings != [] ==> NameLength(strings) >= |strings[0]| + 2)
  {
    if strings != [] {
      NameNotEmpty(strings[1..]);
    }
  }

  /** With room for the whole name and readable candidates the name is finished. */
  lemma RoomSuffices(p: seq<byte>, buf: seq<byte>, strings: seq<seq<byte>>)
    requires Short(strings) && |p| + NameLength(strings) <= MAX_PACKET && Readable(p, buf, strings)
    ensures AppendFqdn(p, buf, strings).ok
  {
    hide AppendFqdn, SearchAt;
    NameNotEmpty(strings);
    FinishedIff(p, buf, strings);
    forall k
      ensures !FailsAt(p, buf, strings, k)
    {
      if FailsAt(p, buf, strings, k) {
        PlusWithin(p, strings, k);
        NameNotEmpty(strings[k..]);
        assert false;
      }
    }
  }

  // ---------------------------------------------------------------- the round trip

  /** The labels written out are open: their bytes hold neither a terminator nor a pointer. */
  lemma {:induction false} PlusOpen(p: seq<byte>, strings: seq<seq<byte>>, k: nat)
    requires k <= |strings| && Short(strings) && forall i :: 0 <= i < |strings| ==> GoodLabel(strings[i])
    ensures forall i :: |p| <= i < |Plus(p, strings, k)| ==> 0 < Plus(p, strings, k)[i] < 0xC0
  {
    if k > 0 {
      PlusOpen(p, strings, k - 1);
      assert GoodLabel(strings[k - 1]);
    }
  }

  /** Reading at the old end of the packet gives the labels up to ASCII case and stops at the new end. */
  ghost predicate ReadsAsWritten(p: seq<byte>, r: seq<byte>, strings: seq<seq<byte>>) {
    && Read(r, |p|, |p|, FRESH).Some?
    && Matches(Read(r, |p|, |p|, FRESH).value.0, strings)
    && Read(r, |p|, |p|, FRESH).value.1 == |r|
  }

  lemma NotRead(p: seq<byte>, r: seq<byte>, strings: seq<seq<byte>>)
    requires Read(r, |p|, |p|, FRESH) == None
    ensures !ReadsAsWritten(p, r, strings)
  {
  }

  /** A name that was not finished cannot be read. */
  lemma UnfinishedUnreadable(p: seq<byte>, buf: seq<byte>, strings: seq<seq<byte>>, k: nat)
    requires |p| <= MAX_PACKET && FailsAt(p, buf, strings, k)
    requires forall i :: 0 <= i < |strings| ==> GoodLabel(strings[i])
    ensures Read(AppendFqdn(p, buf, strings).packet, |p|, |p|, FRESH) == None
  {
    hide AppendFqdn, Stuck, WrittenOut, Plus, GoodLabel, Read, Decode;
    FailureLeaves(p, buf, strings, k);
    PlusOpen(p, strings, k);
    OpenUnreadable(Plus(p, strings, k), |p|, |p|);
    ReadIsDecode(Plus(p, strings, k), |p|, |p|, FRESH);
  }

  lemma ShapeShort(strings: seq<seq<byte>>)
    requires Shape(strings, 0)
    ensures Short(strings) && forall i :: 0 <= i < |strings| ==> GoodLabel(strings[i])
  {
  }

  /** Labels `j` to `k`, written out one after the other, are read into the slots. */
  lemma {:induction false} LabelsRead(p: seq<byte>, r: seq<byte>, strings: seq<seq<byte>>, segment: nat, j: nat, k: nat)
    requires j <= k <= |strings| && k - j <= 4 && Short(strings) && Shape(strings[j..], 0)
    requires Plus(p, strings, k) <= r
    ensures Plus(p, strings, j) <= Plus(p, strings, k)
    ensures Read(r, segment, |Plus(p, strings, j)|, FRESH) ==
      Read(r, segment, |Plus(p, strings, k)|, Name(strings[j..k], false, false))
    decreases k
  {
    hide Read, AddLabel, SameText, GoodLabel, JoinsHost, Plus;
    if j == k {
      assert strings[j..k] == [];
    } else {
      LastLabel(p, r, strings, k);
      assert strings[k - 1] == strings[j..][k - 1 - j];
      LabelsRead(p, r, strings, segment, j, k - 1);
      var n := Name(strings[j..k - 1], false, false);
      LabelRead(r, segment, |Plus(p, strings, k - 1)|, n, strings[k - 1]);
      assert n.parts + [strings[k - 1]] == strings[j..k];
    }
  }

  /** Where label `k - 1` lies. */
  lemma LastLabel(p: seq<byte>, r: seq<byte>, strings: seq<seq<byte>>, k: nat)
    requires 0 < k <= |strings| && Short(strings) && Plus(p, strings, k) <= r
    ensures var pos, text := |Plus(p, strings, k - 1)|, strings[k - 1];
      && Plus(p, strings, k - 1) <= Plus(p, strings, k) && |Plus(p, strings, k)| == pos + 1 + |text|
      && r[pos] == |text| && r[pos + 1..pos + 1 + |text|] == text
  {
    var pos, text := |Plus(p, strings, k - 1)|, strings[k - 1];
    var q := Plus(p, strings, k);
    assert q == Plus(p, strings, k - 1) + [|text|] + text;
    assert r[pos] == q[pos];
    assert r[pos + 1..pos + 1 + |text|] == q[pos + 1..pos + 1 + |text|] == text;
  }

  lemma LabelRead(r: seq<byte>, segment: nat, pos: nat, n: Name, text: seq<byte>)
    requires GoodLabel(text) && |n.parts| < 4 && !n.invalid && (|n.parts| == 1 ==> !JoinsHost(1, text))
    requires pos + 1 + |text| <= |r| && r[pos] == |text| && r[pos + 1..pos + 1 + |text|] == text
    ensures Read(r, segment, pos, n) == Read(r, segment, pos + 1 + |text|, n.(parts := n.parts + [text]))
  {
    GoodLabelStored(n, text);
    CStringWhole(text);
    hide AddLabel, SameText, JoinsHost, CString;
  }

  /** A pointer leads below the name and, once it is written, to the labels that are wanted there. */
  ghost predicate Leads(p: seq<byte>, strings: seq<seq<byte>>, k: nat, loc: nat)
    requires k <= |strings| && Short(strings) && |p| <= MAX_PACKET
  {
    loc < |p| &&
    var r := Plus(p, strings, k) + Pointer(loc);
    var n := Name(strings[..k], false, false);
     Read(r, loc, loc, n).Some? && Matches(Read(r, loc, loc, n).value.0, strings)
  }

  lemma PointerRead(q: seq<byte>, loc: nat, segment: nat, n: Name)
    requires loc < MAX_PACKET && |n.parts| < 4
    ensures var r := q + Pointer(loc);
      Read(r, segment, |q|, n) ==
        if loc >= segment || Read(r, loc, loc, n) == None then None
        else Some((Read(r, loc, loc, n).value.0, |r|))
  {
  }

  /** A name that ends in a pointer reads back exactly when the pointer leads to the rest of it. */
  lemma PointerReadsBack(p: seq<byte>, buf: seq<byte>, strings: seq<seq<byte>>, k: nat, loc: nat)
    requires |p| <= MAX_PACKET && Shape(strings, 0) && |strings| <= 4 && PointsAt(p, buf, strings, k, loc)
    ensures AppendFqdn(p, buf, strings).ok
    ensures ReadsAsWritten(p, AppendFqdn(p, buf, strings).packet, strings) <==> Leads(p, strings, k, loc)
  {
    hide AppendFqdn, SearchAt, Stuck, WrittenOut, Read, Matches, GoodLabel, JoinsHost, Pointer, Reached;
    ShapeShort(strings);
    PointerLeaves(p, buf, strings, k, loc);
    assert strings[0..] == strings && strings[0..k] == strings[..k];
    var q := Plus(p, strings, k);
    LabelsRead(p, q + Pointer(loc), strings, |p|, 0, k);
    PointerRead(q, loc, |p|, Name(strings[..k], false, false));
  }

  lemma TerminatorRead(r: seq<byte>, segment: nat, pos: nat, n: Name)
    requires pos < |r| && r[pos] == 0
    ensures Read(r, segment, pos, n) == Some((n, pos + 1))
  {
  }

  /** A name that ends in the terminator reads back. */
  lemma TerminatedReadsBack(p: seq<byte>, strings: seq<seq<byte>>)
    requires Shape(strings, 0) && |strings| <= 4 && Short(strings)
    ensures ReadsAsWritten(p, Plus(p, strings, |strings|) + [0], strings)
  {
    hide Read, GoodLabel, JoinsHost;
    var q := Plus(p, strings, |strings|);
    assert strings[0..] == strings && strings[0..|strings|] == strings;
    LabelsRead(p, q + [0], strings, |p|, 0, |strings|);
    TerminatorRead(q + [0], |p|, |q|, Name(strings, false, false));
  }

  /**
   * The name reads back exactly when the writer does not get stuck and the pointer it writes, if any, leads to the
   * rest of the name.
   */
  lemma RoundTripIff(p: seq<byte>, buf: seq<byte>, strings: seq<seq<byte>>)
    requires |p| <= MAX_PACKET && Shape(strings, 0) && |strings| <= 4 && Short(strings)
    ensures ReadsAsWritten(p, AppendFqdn(p, buf, strings).packet, strings) <==>
      && (forall k :: !FailsAt(p, buf, strings, k))
      && forall k: nat, loc: nat :: PointsAt(p, buf, strings, k, loc) ==> Leads(p, strings, k, loc)
  {
    hide AppendFqdn, Stuck, WrittenOut, SearchAt, Leads, ReadsAsWritten, GoodLabel, Plus;
    ShapeShort(strings);
    FinishedIff(p, buf, strings);
    var k, loc := LastStep(p, buf, strings);
    if !AppendFqdn(p, buf, strings).ok {
      UnfinishedUnreadable(p, buf, strings, k);
      NotRead(p, AppendFqdn(p, buf, strings).packet, strings);
    } else if k == |strings| {
      TerminatedReadsBack(p, strings);
    }
    forall k: nat, loc: nat | PointsAt(p, buf, strings, k, loc)
      ensures ReadsAsWritten(p, AppendFqdn(p, buf, strings).packet, strings) <==> Leads(p, strings, k, loc)
    {
      PointerReadsBack(p, buf, strings, k, loc);
    }
  }

  /** Whatever becomes of the name, the packet only grows, and every earlier name reads as before. */
  lemma EarlierNamesStay(p: seq<byte>, buf: seq<byte>, strings: seq<seq<byte>>)
    requires |p| <= MAX_PACKET && Short(strings)
    ensures p <= AppendFqdn(p, buf, strings).packet
    ensures forall start, n :: Read(p, start, start, n).Some? ==>
      Read(AppendFqdn(p, buf, strings).packet, start, start, n) == Read(p, start, start, n)
  {
    hide AppendFqdn, Read, FailsAt, PointsAt, Reached;
    Extends(p, buf, strings);
    var r := AppendFqdn(p, buf, strings).packet;
    forall start, n | Read(p, start, start, n).Some?
      ensures Read(r, start, start, n) == Read(p, start, start, n)
    {
      assert r == p + r[|p|..];
      EarlierNamesKept(p, r[|p|..], start, n);
    }
  }

  lemma {:induction false} Extends(p: seq<byte>, buf: seq<byte>, strings: seq<seq<byte>>)
    requires |p| <= MAX_PACKET && Short(strings)
    ensures p <= AppendFqdn(p, buf, strings).packet
    decreases |strings|
  {
    hide AppendFqdn, Stuck, WrittenOut, SearchAt, Pointer;
    FirstStep(p, buf, strings);
    if strings != [] && WrittenOut(p, buf, strings, 0) {
      Extends(After(p, strings), buf, strings[1..]);
    }
  }
}
