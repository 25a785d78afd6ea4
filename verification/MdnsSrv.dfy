/** Which of two hosts keeps a service name: the comparison of SRV data (section 8.2 of RFC 6762). */
module MdnsSrv {
  import opened Bytes
  import opened MdnsName

  type u16 = x: int | 0 <= x < 0x1_0000

  datatype Srv = Srv(priority: u16, weight: u16, port: u16, host: seq<byte>)

  function Be16(v: u16): seq<byte> {
    [v / 256, v % 256]
  }

  /** The bytes that are compared: the numbers, then host and domain as labels. */
  function Data(s: Srv, domain: seq<byte>): seq<byte> {
    Be16(s.priority) + Be16(s.weight) + Be16(s.port)
      + [|s.host| % 256] + s.host + [|domain| % 256] + domain + [0]
  }

  /** `memcmp` of strings of equal length, as -1, 0 or 1. */
  function Compare(a: seq<byte>, b: seq<byte>): (r: int)
    requires |a| == |b|
    ensures -1 <= r <= 1
  {
    if a == [] then 0
    else if a[0] < b[0] then -1
    else if a[0] > b[0] then 1
    else Compare(a[1..], b[1..])
  }

  predicate Named(s: Srv) {
    s.host != []
  }

  /** Priority, weight and port of `a` are lexicographically below those of `b`. */
  predicate NumbersBelow(a: Srv, b: Srv) {
    || a.priority < b.priority
    || (a.priority == b.priority && a.weight < b.weight)
    || (a.priority == b.priority && a.weight == b.weight && a.port < b.port)
  }

  predicate SameNumbers(a: Srv, b: Srv) {
    a.priority == b.priority && a.weight == b.weight && a.port == b.port
  }

  /** `a` and `b` agree up to position `k`, and there `a` has the smaller byte. */
  predicate SmallerAt(a: seq<byte>, b: seq<byte>, k: nat) {
    k < |a| && k < |b| && a[..k] == b[..k] && a[k] < b[k]
  }

  predicate Smaller(a: seq<byte>, b: seq<byte>) {
    exists k :: 0 <= k < |a| && SmallerAt(a, b, k)
  }

  /** The order of the records: the length of the host name, the numbers, the bytes of the host name. */
  predicate Below(a: Srv, b: Srv) {
    || |a.host| < |b.host|
    || (|a.host| == |b.host| && NumbersBelow(a, b))
    || (|a.host| == |b.host| && !NumbersBelow(b, a) && Smaller(a.host, b.host))
  }

  /** `_mdns_check_srv_collision`: 1 they win, -1 we win, 0 the same; `ours` is in the domain "local". */
  function Verdict(ours: Srv, theirs: Srv, domain: seq<byte>): (r: int)
    ensures -1 <= r <= 1
  {
    var ourLen, theirLen := 14 + |ours.host|, 9 + |theirs.host| + |domain|;
    if |ours.host| == 0 then 0
    else if theirLen > ourLen then 1
    else if theirLen < ourLen then -1
    else -Compare(Data(ours, LOCAL), Data(theirs, domain))
  }

  lemma DataLength(s: Srv, domain: seq<byte>)
    ensures |Data(s, domain)| == 9 + |s.host| + |domain|
  {
  }

  /** The loop of `memcmp`. */
  method MemCompare(a: seq<byte>, b: seq<byte>) returns (r: int)
    requires |a| == |b|
    ensures r == Compare(a, b)
  {
    for i := 0 to |a|
      invariant Compare(a, b) == Compare(a[i..], b[i..])
    {
      assert a[i..][1..] == a[i + 1..] && b[i..][1..] == b[i + 1..];
      if a[i] < b[i] {
        return -1;
      } else if a[i] > b[i] {
        return 1;
      }
    }
    return 0;
  }

  /**
   * `_mdns_check_srv_collision`: the longer data win, and of equally long ones those that are lexicographically
   * greater, so that the numbers decide first: priority, then weight, then port.
   */
  method CheckSrvCollision(ours: Srv, theirs: Srv, domain: seq<byte>) returns (r: int)
    ensures r == Verdict(ours, theirs, domain)
    ensures !Named(ours) ==> r == 0
    ensures Named(ours) && |theirs.host| + |domain| > |ours.host| + |LOCAL| ==> r == 1
    ensures Named(ours) && |theirs.host| + |domain| < |ours.host| + |LOCAL| ==> r == -1
    ensures Named(ours) && |theirs.host| + |domain| == |ours.host| + |LOCAL| ==>
      (NumbersBelow(ours, theirs) ==> r == 1) && (NumbersBelow(theirs, ours) ==> r == -1)
    ensures Named(ours) && |theirs.host| + |domain| == |ours.host| + |LOCAL| && SameNumbers(ours, theirs) ==>
      (|ours.host| < |theirs.host| < 256 ==> r == 1) && (|theirs.host| < |ours.host| < 256 ==> r == -1)
    ensures Named(ours) && domain == LOCAL ==>
      (r == 1 <==> Below(ours, theirs)) && (r == -1 <==> Below(theirs, ours)) && (r == 0 <==> ours == theirs)
  {
    if Named(ours) {
      LengthsDecide(ours, theirs, domain);
      if domain == LOCAL {
        GreaterWins(ours, theirs);
      }
    }
    if |ours.host| == 0 {
      return 0;
    }
    var ourLen := 14 + |ours.host|;
    var theirLen := 9 + |theirs.host| + |domain|;
    if theirLen > ourLen {
      return 1;
    } else if theirLen < ourLen {
      return -1;
    }
    DataLength(ours, LOCAL);
    DataLength(theirs, domain);
    var ret := MemCompare(Data(ours, LOCAL), Data(theirs, domain));
    if ret > 0 {
      return -1;
    } else if ret < 0 {
      return 1;
    }
    return 0;
  }

  // ---------------------------------------------------------------- fairness

  lemma {:induction false} CompareSwaps(a: seq<byte>, b: seq<byte>)
    requires |a| == |b|
    ensures Compare(b, a) == -Compare(a, b)
    ensures Compare(a, b) == 0 <==> a == b
  {
    if a != [] {
      CompareSwaps(a[1..], b[1..]);
      assert a == [a[0]] + a[1..] && b == [b[0]] + b[1..];
    }
  }

  lemma {:induction false} CompareTransitive(a: seq<byte>, b: seq<byte>, c: seq<byte>)
    requires |a| == |b| == |c|
    requires Compare(a, b) > 0 && Compare(b, c) > 0
    ensures Compare(a, c) > 0
  {
    if a != [] && a[0] == b[0] == c[0] {
      CompareTransitive(a[1..], b[1..], c[1..]);
    }
  }

  /** Equal data mean equal records. */
  lemma DataInjective(a: Srv, b: Srv)
    requires |a.host| == |b.host| && Data(a, LOCAL) == Data(b, LOCAL)
    ensures a == b
  {
    var x, y := Data(a, LOCAL), Data(b, LOCAL);
    assert x[..2] == Be16(a.priority) && y[..2] == Be16(b.priority);
    assert x[2..4] == Be16(a.weight) && y[2..4] == Be16(b.weight);
    assert x[4..6] == Be16(a.port) && y[4..6] == Be16(b.port);
    assert x[7..7 + |a.host|] == a.host && y[7..7 + |b.host|] == b.host;
    Be16Injective(a.priority, b.priority);
    Be16Injective(a.weight, b.weight);
    Be16Injective(a.port, b.port);
  }

  lemma Be16Injective(v: u16, w: u16)
    requires Be16(v) == Be16(w)
    ensures v == w
  {
    assert v / 256 == Be16(v)[0] == Be16(w)[0] == w / 256;
    assert v % 256 == Be16(v)[1] == Be16(w)[1] == w % 256;
  }

  /** Both hosts reach opposite verdicts, and "the same" exactly for the same record. */
  lemma VerdictsOppose(a: Srv, b: Srv)
    requires Named(a) && Named(b)
    ensures Verdict(a, b, LOCAL) == -Verdict(b, a, LOCAL)
    ensures Verdict(a, b, LOCAL) == 0 <==> a == b
  {
    DataLength(a, LOCAL);
    DataLength(b, LOCAL);
    if |a.host| == |b.host| {
      CompareSwaps(Data(a, LOCAL), Data(b, LOCAL));
      if Data(a, LOCAL) == Data(b, LOCAL) {
        DataInjective(a, b);
      }
    }
  }

  // ---------------------------------------------------------------- the winner, by the fields

  lemma {:induction false} CompareAppend(a: seq<byte>, u: seq<byte>, b: seq<byte>, v: seq<byte>)
    requires |a| == |b| && |u| == |v|
    ensures Compare(a + u, b + v) == if Compare(a, b) != 0 then Compare(a, b) else Compare(u, v)
  {
    if a == [] {
      assert a + u == u && b + v == v;
    } else {
      assert (a + u)[1..] == a[1..] + u && (b + v)[1..] == b[1..] + v;
      CompareAppend(a[1..], u, b[1..], v);
    }
  }

  /** The number with the greater high byte is greater, and with equal ones the number with the greater low byte. */
  lemma CompareBe16(v: u16, w: u16)
    ensures Compare(Be16(v), Be16(w)) == if v < w then -1 else if v > w then 1 else 0
  {
    CompareByte(v / 256, w / 256);
    CompareByte(v % 256, w % 256);
    CompareAppend([v / 256], [v % 256], [w / 256], [w % 256]);
    hide Compare;
    assert Be16(v) == [v / 256] + [v % 256] && Be16(w) == [w / 256] + [w % 256];
  }

  lemma CompareByte(x: byte, y: byte)
    ensures Compare([x], [y]) == if x < y then -1 else if x > y then 1 else 0
  {
    assert Compare([x][1..], [y][1..]) == 0;
  }

  /** What follows the numbers. */
  function Labels(host: seq<byte>, domain: seq<byte>): seq<byte> {
    [|host| % 256] + host + [|domain| % 256] + domain + [0]
  }

  lemma DataParts(s: Srv, domain: seq<byte>)
    ensures Data(s, domain) == Be16(s.priority) + (Be16(s.weight) + (Be16(s.port) + Labels(s.host, domain)))
  {
  }

  lemma CompareData(a: Srv, b: Srv, domain: seq<byte>)
    requires |a.host| + |LOCAL| == |b.host| + |domain|
    ensures |Data(a, LOCAL)| == |Data(b, domain)|
    ensures Compare(Data(a, LOCAL), Data(b, domain)) ==
      if NumbersBelow(a, b) then -1
      else if NumbersBelow(b, a) then 1
      else Compare(Labels(a.host, LOCAL), Labels(b.host, domain))
  {
    var x, y := Labels(a.host, LOCAL), Labels(b.host, domain);
    DataParts(a, LOCAL);
    DataParts(b, domain);
    CompareBe16(a.priority, b.priority);
    CompareBe16(a.weight, b.weight);
    CompareBe16(a.port, b.port);
    CompareAppend(Be16(a.port), x, Be16(b.port), y);
    CompareAppend(Be16(a.weight), Be16(a.port) + x, Be16(b.weight), Be16(b.port) + y);
    CompareAppend(Be16(a.priority), Be16(a.weight) + (Be16(a.port) + x),
                  Be16(b.priority), Be16(b.weight) + (Be16(b.port) + y));
    hide Compare, Be16, Labels, Data;
  }

  lemma {:induction false} CompareSmaller(a: seq<byte>, b: seq<byte>)
    requires |a| == |b|
    ensures Compare(a, b) == -1 <==> Smaller(a, b)
  {
    if a != [] {
      CompareSmaller(a[1..], b[1..]);
      if Smaller(a[1..], b[1..]) && a[0] == b[0] {
        var k :| 0 <= k < |a[1..]| && SmallerAt(a[1..], b[1..], k);
        assert a[..k + 1] == [a[0]] + a[1..][..k] && b[..k + 1] == [b[0]] + b[1..][..k];
        assert SmallerAt(a, b, k + 1);
      }
      if a[0] < b[0] {
        assert a[..0] == b[..0];
        assert SmallerAt(a, b, 0);
      }
      if Smaller(a, b) && !(a[0] < b[0]) {
        var k :| 0 <= k < |a| && SmallerAt(a, b, k);
        assert a[0] == a[..k][0] == b[..k][0] == b[0];
        assert a[1..][..k - 1] == a[..k][1..] && b[1..][..k - 1] == b[..k][1..];
        assert SmallerAt(a[1..], b[1..], k - 1);
      }
    }
  }

  lemma CompareHosts(a: seq<byte>, b: seq<byte>)
    requires |a| == |b|
    ensures Compare(Labels(a, LOCAL), Labels(b, LOCAL)) == Compare(a, b)
  {
    var head, tail := [|a| % 256], [|LOCAL| % 256] + LOCAL + [0];
    assert Labels(a, LOCAL) == head + (a + tail) && Labels(b, LOCAL) == head + (b + tail);
    CompareAppend(head, a + tail, head, b + tail);
    CompareAppend(a, tail, b, tail);
    CompareSwaps(head, head);
    CompareSwaps(tail, tail);
    hide Compare, Labels;
  }

  lemma CompareLabels(a: seq<byte>, d: seq<byte>, b: seq<byte>, e: seq<byte>)
    requires |a| + |d| == |b| + |e| && |a| < 256 && |b| < 256 && |a| != |b|
    ensures Compare(Labels(a, d), Labels(b, e)) == if |a| < |b| then -1 else 1
  {
    assert Labels(a, d)[0] == |a| && Labels(b, e)[0] == |b|;
  }

  /** Lengths decide first, then the numbers. */
  lemma LengthsDecide(ours: Srv, theirs: Srv, domain: seq<byte>)
    requires Named(ours)
    ensures var r := Verdict(ours, theirs, domain);
      && (|theirs.host| + |domain| > |ours.host| + |LOCAL| ==> r == 1)
      && (|theirs.host| + |domain| < |ours.host| + |LOCAL| ==> r == -1)
      && (|theirs.host| + |domain| == |ours.host| + |LOCAL| ==>
            (NumbersBelow(ours, theirs) ==> r == 1) && (NumbersBelow(theirs, ours) ==> r == -1))
      && (|theirs.host| + |domain| == |ours.host| + |LOCAL| && SameNumbers(ours, theirs) ==>
            (|ours.host| < |theirs.host| < 256 ==> r == 1) && (|theirs.host| < |ours.host| < 256 ==> r == -1))
  {
    if |theirs.host| + |domain| == |ours.host| + |LOCAL| {
      CompareData(ours, theirs, domain);
      if |ours.host| < 256 && |theirs.host| < 256 && |ours.host| != |theirs.host| {
        CompareLabels(ours.host, LOCAL, theirs.host, domain);
      }
    }
    hide Compare, Data;
  }

  /** In the domain "local" the greater record wins, and only equal records are the same. */
  lemma GreaterWins(ours: Srv, theirs: Srv)
    requires Named(ours)
    ensures var r := Verdict(ours, theirs, LOCAL);
      && (r == 1 <==> Below(ours, theirs))
      && (r == -1 <==> Below(theirs, ours))
      && (r == 0 <==> ours == theirs)
  {
    LengthsDecide(ours, theirs, LOCAL);
    if |theirs.host| == |ours.host| {
      CompareData(ours, theirs, LOCAL);
      CompareHosts(ours.host, theirs.host);
      CompareSmaller(ours.host, theirs.host);
      CompareSwaps(ours.host, theirs.host);
      CompareSmaller(theirs.host, ours.host);
    }
    hide Compare, Data, Labels, Smaller;
  }

  /** `w` keeps the name against `s`. */
  predicate Wins(w: Srv, s: Srv) {
    Verdict(w, s, LOCAL) == -1
  }

  lemma WinsTransitive(a: Srv, b: Srv, c: Srv)
    requires Named(a) && Named(b) && Named(c) && Wins(a, b) && Wins(b, c)
    ensures Wins(a, c)
  {
    DataLength(a, LOCAL);
    DataLength(b, LOCAL);
    DataLength(c, LOCAL);
    if |a.host| == |b.host| == |c.host| {
      CompareTransitive(Data(a, LOCAL), Data(b, LOCAL), Data(c, LOCAL));
    }
  }

  ghost predicate Winner(w: Srv, all: set<Srv>) {
    w in all && forall s :: s in all && s != w ==> Wins(w, s) && !Wins(s, w)
  }

  /** Among any contenders with different records exactly one wins against all others. */
  lemma {:induction false} OneWinner(all: set<Srv>) returns (w: Srv)
    requires all != {} && forall s :: s in all ==> Named(s)
    ensures Winner(w, all) && forall v :: Winner(v, all) ==> v == w
    decreases |all|
  {
    hide Verdict;
    var s :| s in all;
    w := s;
    var rest := all - {s};
    if rest != {} {
      var r := OneWinner(rest);
      VerdictsOppose(r, s);
      w := if Wins(r, s) then r else s;
      forall t | t in all && t != w
        ensures Wins(w, t) && !Wins(t, w)
      {
        VerdictsOppose(w, t);
        if t != r && t != s && w == s {
          VerdictsOppose(s, r);
          WinsTransitive(s, r, t);
        }
      }
    } else {
      assert all == {s};
    }
  }
}
