/**
 * Where the TXT parser stays inside its array. Counting and parsing walk over the same data; a string without `=`
 * makes the parser skip a byte, and from there on the two walks may part.
 */
module MdnsTxtBounds {
  import opened Bytes
  import opened MdnsTxt

  /** A whole string begins at `i`. */
  predicate StringAt(data: seq<byte>, i: nat) {
    i < |data| && data[i] > 0 && i + 1 + data[i] <= |data|
  }

  function TextAt(data: seq<byte>, i: nat): seq<byte>
    requires StringAt(data, i)
  {
    data[i + 1..i + 1 + data[i]]
  }

  function EndOf(data: seq<byte>, i: nat): nat
    requires StringAt(data, i)
  {
    i + 1 + data[i]
  }

  /** No string begins at `i`: the data are over or terminated there. */
  predicate Quiet(data: seq<byte>, i: nat) {
    i >= |data| || data[i] == 0
  }

  /** The offsets that the counting loop looks at, the one of a string that runs over the end included. */
  function Starts(data: seq<byte>, i: nat): seq<nat>
    decreases |data| - i
  {
    if Quiet(data, i) then []
    else if !StringAt(data, i) then [i]
    else [i] + Starts(data, EndOf(data, i))
  }

  /** The offsets that the parsing loop looks at. */
  function Visits(data: seq<byte>, i: nat): seq<nat>
    decreases |data| - i
  {
    if Quiet(data, i) then []
    else if !StringAt(data, i) then [i]
    else [i] + Visits(data, NextVisit(data, i))
  }

  /** What the parser makes of the string at an offset: an item, unless it has no name. */
  function Made(data: seq<byte>, i: nat): (r: seq<TxtItem>)
    ensures |r| <= 1
  {
    if StringAt(data, i) && NameLen(TextAt(data, i)) >= 0
    then [ItemOf(TextAt(data, i), NameLen(TextAt(data, i)))]
    else []
  }

  function ItemsAt(data: seq<byte>, offsets: seq<nat>): (r: seq<TxtItem>)
    ensures |r| <= |offsets|
  {
    if offsets == [] then [] else Made(data, offsets[0]) + ItemsAt(data, offsets[1..])
  }

  /** A string is passed over as the counting loop does exactly when it holds an `=`. */
  lemma {:induction false} KeyEndWithout(text: seq<byte>, from: nat)
    requires from <= |text|
    ensures KeyEnd(text, from) == |text| <==> forall i :: from <= i < |text| ==> text[i] != EQUALS
    decreases |text| - from
  {
    if from < |text| && text[from] != EQUALS {
      KeyEndWithout(text, from + 1);
    }
  }

  lemma StepsAgreeIff(data: seq<byte>, i: nat)
    requires StringAt(data, i)
    ensures NextVisit(data, i) == (if EQUALS in TextAt(data, i) then EndOf(data, i) else EndOf(data, i) + 1)
  {
    var text := TextAt(data, i);
    KeyEndWithout(text, 0);
    if EQUALS in text {
      var k :| 0 <= k < |text| && text[k] == EQUALS;
    } else {
      forall k | 0 <= k < |text|
        ensures text[k] != EQUALS
      {
        assert text[k] in text;
      }
      assert text[0] != EQUALS;
    }
  }

  // ---------------------------------------------------------------- when the walks agree

  /** A string holds an `=`, or it is the last and nothing that looks like a string begins one byte behind it. */
  predicate KeepsStep(data: seq<byte>, i: nat, last: bool) {
    StringAt(data, i) ==> EQUALS in TextAt(data, i) || (last && Quiet(data, EndOf(data, i) + 1))
  }

  ghost predicate Aligned(data: seq<byte>, starts: seq<nat>) {
    forall k :: 0 <= k < |starts| ==> KeepsStep(data, starts[k], k == |starts| - 1)
  }

  lemma AlignedCons(data: seq<byte>, i: nat, tail: seq<nat>)
    ensures Aligned(data, [i] + tail) <==> KeepsStep(data, i, tail == []) && Aligned(data, tail)
  {
    hide KeepsStep;
    var s := [i] + tail;
    assert s[0] == i;
    assert forall k :: 0 <= k < |tail| ==> tail[k] == s[k + 1];
    if Aligned(data, s) {
      forall k | 0 <= k < |tail|
        ensures KeepsStep(data, tail[k], k == |tail| - 1)
      {
        assert KeepsStep(data, s[k + 1], k + 1 == |s| - 1);
      }
    }
  }

  lemma AlignedHead(data: seq<byte>, i: nat)
    requires StringAt(data, i)
    ensures Aligned(data, Starts(data, i)) <==>
      && (EQUALS in TextAt(data, i)
          || (Starts(data, EndOf(data, i)) == [] && Quiet(data, EndOf(data, i) + 1)))
      && Aligned(data, Starts(data, EndOf(data, i)))
  {
    AlignedCons(data, i, Starts(data, EndOf(data, i)));
    hide Aligned;
  }

  lemma WalkHeads(data: seq<byte>, i: nat)
    ensures Starts(data, i) == [] <==> Quiet(data, i)
    ensures Visits(data, i) == [] <==> Quiet(data, i)
    ensures !Quiet(data, i) ==> Starts(data, i)[0] == i && Visits(data, i)[0] == i
  {
  }

  /**
   * Where every string is whole, the parser looks at the counted strings and nothing else exactly when they are
   * aligned.
   */
  lemma {:induction false} WalksAgreeIff(data: seq<byte>, i: nat)
    requires CountFrom(data, i).Some?
    ensures Visits(data, i) == Starts(data, i) <==> Aligned(data, Starts(data, i))
    decreases |data| - i
  {
    if !Quiet(data, i) {
      var e, v := EndOf(data, i), NextVisit(data, i);
      assert Starts(data, i)[1..] == Starts(data, e) && Visits(data, i)[1..] == Visits(data, v);
      assert Starts(data, i) == [i] + Starts(data, e) && Visits(data, i) == [i] + Visits(data, v);
      hide Aligned;
      StepsAgreeIff(data, i);
      AlignedHead(data, i);
      WalksAgreeIff(data, e);
      WalkHeads(data, e);
      WalkHeads(data, e + 1);
      AlignedNone(data);
      hide Starts, Visits, StringAt, NextVisit;
    }
  }

  lemma AlignedNone(data: seq<byte>)
    ensures Aligned(data, [])
  {
  }

  // ---------------------------------------------------------------- when the array is overrun

  lemma {:induction false} CountIsStarts(data: seq<byte>, i: nat)
    requires CountFrom(data, i).Some?
    ensures CountFrom(data, i) == Some(|Starts(data, i)|)
    decreases |data| - i
  {
    if !Quiet(data, i) {
      CountIsStarts(data, EndOf(data, i));
    }
  }

  lemma ItemsCons(data: seq<byte>, i: nat, rest: seq<nat>)
    ensures ItemsAt(data, [i] + rest) == Made(data, i) + ItemsAt(data, rest)
  {
    assert ([i] + rest)[1..] == rest;
  }

  /** One turn of the loop over a whole string. */
  lemma TurnParses(data: seq<byte>, i: nat, txt: seq<TxtItem>, room: nat)
    requires StringAt(data, i) && |txt| <= room
    ensures if |txt + Made(data, i)| > room then ParseFrom(data, i, txt, room) == Overrun
      else ParseFrom(data, i, txt, room) == ParseFrom(data, NextVisit(data, i), txt + Made(data, i), room)
  {
    if NameLen(TextAt(data, i)) < 0 {
      assert txt + [] == txt;
    }
    hide NameLen, ItemOf;
  }

  /** The loop writes behind the array exactly when it makes more items than there is room for. */
  lemma {:induction false} OverrunFromIff(data: seq<byte>, i: nat, txt: seq<TxtItem>, room: nat)
    requires |txt| <= room
    ensures ParseFrom(data, i, txt, room) == Overrun <==> |txt| + |ItemsAt(data, Visits(data, i))| > room
    decreases |data| - i
  {
    if StringAt(data, i) {
      var v := NextVisit(data, i);
      ItemsCons(data, i, Visits(data, v));
      TurnParses(data, i, txt, room);
      hide Made, NextVisit, ItemsAt, ParseFrom;
      if |txt + Made(data, i)| <= room {
        OverrunFromIff(data, v, txt + Made(data, i), room);
      }
    } else if !Quiet(data, i) {
      ItemsCons(data, i, []);
      assert [i] + [] == [i];
    }
  }

  /** A record is read past the array exactly when the parser makes more items than strings were counted. */
  lemma OverrunIff(data: seq<byte>)
    ensures Parse(data) == Overrun <==>
      Count(data).Some? && Count(data).value > 0 && |ItemsAt(data, Visits(data, 0))| > Count(data).value
  {
    if Count(data).Some? && Count(data).value > 0 {
      OverrunFromIff(data, 0, [], Count(data).value);
    }
    hide ItemsAt, Visits, ParseFrom;
  }

  lemma {:induction false} AgreeingWalkParses(data: seq<byte>, i: nat, txt: seq<TxtItem>, room: nat)
    requires CountFrom(data, i).Some? && Aligned(data, Starts(data, i)) && |txt| + |Starts(data, i)| <= room
    ensures ParseFrom(data, i, txt, room) == Items(txt + ItemsAt(data, Starts(data, i)))
    decreases |data| - i
  {
    if Quiet(data, i) {
      assert txt + [] == txt;
    } else {
      var e, v, next := EndOf(data, i), NextVisit(data, i), txt + Made(data, i);
      assert Starts(data, i) == [i] + Starts(data, e) && CountFrom(data, e).Some?;
      AlignedHead(data, i);
      StepsAgreeIff(data, i);
      TurnParses(data, i, txt, room);
      ItemsCons(data, i, Starts(data, e));
      Associative(txt, Made(data, i), ItemsAt(data, Starts(data, e)));
      hide Made, NextVisit, Aligned;
      if v == e {
        hide ParseFrom, Starts, CountFrom, ItemsAt;
        AgreeingWalkParses(data, e, next, room);
      } else {
        assert Quiet(data, v) && Starts(data, e) == [];
        assert next + [] == next;
      }
    }
  }

  /**
   * Aligned data are parsed inside the array: the result is the counted strings that have a name, in order, taken
   * apart at their first `=`.
   */
  lemma AlignedParses(data: seq<byte>)
    requires |data| != 1 && Count(data).Some? && Aligned(data, Starts(data, 0))
    ensures Parse(data) == Items(ItemsAt(data, Starts(data, 0)))
    ensures |ItemsAt(data, Starts(data, 0))| <= Count(data).value
  {
    CountIsStarts(data, 0);
    AgreeingWalkParses(data, 0, [], Count(data).value);
    var r := ItemsAt(data, Starts(data, 0));
    assert [] + r == r;
    hide Starts, Aligned, ParseFrom;
  }

  // ---------------------------------------------------------------- the other direction

  /** What can follow a key without `=`: a string whose length byte the parser skips, and which looks like two. */
  const BAIT: seq<byte> := [6, 2, 97, 61, 2, 97, 61]

  /**
   * Behind any good entries, any key without `=` that is not the last string leads to an overrun with some
   * continuation.
   */
  lemma BareKeyCanOverrun(items: seq<Item>, key: seq<byte>)
    requires AllGood(items) && 1 <= |key| <= 255 && EQUALS !in key
    ensures var data := Entries(items) + ([|key|] + key + BAIT);
      Count(data) == Some(|items| + 2) && Parse(data) == Overrun
  {
    hide Entries, AllSeen, ParseFrom, CountFrom, Baited, Good, Entry;
    var rest := [|key|] + key + BAIT;
    EntriesFirst(items, rest, |items| + 2);
    BaitLies(Entries(items), key);
    var data := Entries(items) + rest;
    BaitLong(data, |Entries(items)|, key);
    BaitCounts(data, |Entries(items)|, key);
    BaitParses(data, |Entries(items)|, key, AllSeen(items), |items| + 2);
  }

  lemma BaitLong(data: seq<byte>, i: nat, key: seq<byte>)
    requires Baited(data, i, key)
    ensures |data| > 1
  {
  }

  /** A bare key and its bait from offset `i` to the end. */
  predicate Baited(data: seq<byte>, i: nat, key: seq<byte>) {
    && 1 <= |key| <= 255 && i + 1 + |key| + |BAIT| == |data|
    && data[i] == |key| && data[i + 1..i + 1 + |key|] == key && data[i + 1 + |key|..] == BAIT
  }

  lemma BaitLies(pre: seq<byte>, key: seq<byte>)
    requires 1 <= |key| <= 255
    ensures Baited(pre + ([|key|] + key + BAIT), |pre|, key)
  {
    var data := pre + ([|key|] + key + BAIT);
    assert data == pre + [|key|] + key + BAIT;
  }

  lemma BaitCounts(data: seq<byte>, i: nat, key: seq<byte>)
    requires Baited(data, i, key)
    ensures CountFrom(data, i) == Some(2)
  {
    var e := i + 1 + |key|;
    assert data[e] == data[e..][0] == 6;
    assert CountFrom(data, |data|) == Some(0);
    CountTurn(data, i, |key|);
    CountTurn(data, e, 6);
  }

  lemma BaitParses(data: seq<byte>, i: nat, key: seq<byte>, txt: seq<TxtItem>, room: nat)
    requires Baited(data, i, key) && EQUALS !in key && |txt| + 2 == room
    ensures ParseFrom(data, i, txt, room) == Overrun
  {
    var b := i + 1 + |key| + 1;
    BaitMade(data, i, key);
    TurnParses(data, i, txt, room);
    TurnParses(data, b, txt + Made(data, i), room);
    TurnParses(data, b + 3, txt + Made(data, i) + Made(data, b), room);
    hide Made, NextVisit, ParseFrom;
  }

  /** Behind the key the parser takes the bait for two strings. */
  lemma BaitMade(data: seq<byte>, i: nat, key: seq<byte>)
    requires Baited(data, i, key) && EQUALS !in key
    ensures var b := i + 1 + |key| + 1;
      && StringAt(data, i) && NextVisit(data, i) == b && |Made(data, i)| == 1
      && StringAt(data, b) && NextVisit(data, b) == b + 3 && |Made(data, b)| == 1
      && StringAt(data, b + 3) && |Made(data, b + 3)| == 1
  {
    var b := i + 1 + |key| + 1;
    StepsAgreeIff(data, i);
    BareName(key);
    var bait := data[b - 1..];
    assert data[b] == bait[1] && data[b + 1] == bait[2] && data[b + 2] == bait[3];
    assert data[b + 3] == bait[4] && data[b + 4] == bait[5] && data[b + 5] == bait[6];
    assert TextAt(data, b) == [97, 61] && TextAt(data, b + 3) == [97, 61];
    assert TextAt(data, b)[1] == EQUALS;
    StepsAgreeIff(data, b);
    assert NameLen([97, 61]) == 1;
  }

  lemma BareName(key: seq<byte>)
    requires key != [] && EQUALS !in key
    ensures NameLen(key) == |key|
  {
    assert key[0] in key;
    forall k | 0 <= k < |key|
      ensures key[k] != EQUALS
    {
      assert key[k] in key;
    }
    KeyEndWithout(key, 0);
  }

  /** The shortest record that overruns an array for two: `k`, then a string of six bytes. */
  lemma BareKeyOverruns()
    ensures var data: seq<byte> := [1, 107] + BAIT;
      Count(data) == Some(2) && Parse(data) == Overrun
  {
    BareKeyCanOverrun([], [107]);
    assert Entries([]) + ([1] + [107] + BAIT) == [1, 107] + BAIT;
  }

  /** One string, terminated: the parser skips the terminator. */
  lemma TerminatedKeyOverruns()
    ensures var data: seq<byte> := [1, 107, 0, 2, 97, 61];
      Count(data) == Some(1) && Parse(data) == Overrun
  {
    var data: seq<byte> := [1, 107, 0, 2, 97, 61];
    assert CountFrom(data, 2) == Some(0);
    assert data[1..2] == [107] && data[4..6] == [97, 61];
    LoneKey();
    assert NextVisit(data, 0) == 3;
  }

  lemma LoneKey()
    ensures NameLen([107]) == 1
  {
    assert KeyEnd([107], 1) == 1;
  }

  /** Walks that part need not overrun: here the second string is lost with the first. */
  lemma PartingWithoutOverrun()
    ensures var data: seq<byte> := [1, 107, 1, 107];
      Count(data) == Some(2) && !Aligned(data, Starts(data, 0)) && Parse(data) == Items([])
  {
    var data: seq<byte> := [1, 107, 1, 107];
    assert CountFrom(data, 4) == Some(0) && CountFrom(data, 2) == Some(1);
    assert Starts(data, 4) == [] && Starts(data, 2) == [2] && Starts(data, 0) == [0, 2];
    assert data[1..2] == [107];
    LoneKey();
    assert NextVisit(data, 0) == 3;
    WalksPart(data);
  }

  lemma WalksPart(data: seq<byte>)
    requires data == [1, 107, 1, 107] && Starts(data, 0) == [0, 2]
    ensures !Aligned(data, Starts(data, 0))
  {
    assert TextAt(data, 0) == [107];
    assert Starts(data, 0)[0] == 0;
  }
}
