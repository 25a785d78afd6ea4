/**
 * Probing as facts about the log: the states of a PCB, what the log says about its probes since probing last started,
 * and what scheduling and sending packets keeps (section 8.1 of RFC 6762).
 */
module MdnsProbes {
  import opened Bytes
  import opened MdnsQueue

  // `mdns_pcb_state_t`
  const OFF: nat := 0
  const PROBE_1: nat := 3
  const PROBE_3: nat := 5
  const ANNOUNCE_1: nat := 6
  const ANNOUNCE_3: nat := 8
  const RUNNING: nat := 9

  const PROBE_INTERVAL: nat := 250

  /** A pending action: to transmit a packet, or any other work of the service task. */
  datatype Action = Tx(id: nat) | Other

  function TxIds(actions: seq<Action>): seq<nat> {
    if actions == [] then []
    else (if actions[0].Tx? then [actions[0].id] else []) + TxIds(actions[1..])
  }

  lemma {:induction false} TxIdsAppend(actions: seq<Action>, a: Action)
    ensures TxIds(actions + [a]) == TxIds(actions) + if a.Tx? then [a.id] else []
  {
    var last := if a.Tx? then [a.id] else [];
    if actions == [] {
      assert [a][1..] == [] && actions + [a] == [a];
    } else {
      var head := if actions[0].Tx? then [actions[0].id] else [];
      var all := actions + [a];
      assert all[0] == actions[0] && all[1..] == actions[1..] + [a];
      calc {
        TxIds(all);
        head + TxIds(all[1..]);
        { TxIdsAppend(actions[1..], a); }
        head + (TxIds(actions[1..]) + last);
        (head + TxIds(actions[1..])) + last;
      }
    }
  }

  function StateOf(pcbs: map<nat, nat>, c: nat): nat {
    if c in pcbs then pcbs[c] else OFF
  }

  predicate Probing(pcbs: map<nat, nat>, c: nat) {
    PROBE_1 <= StateOf(pcbs, c) <= PROBE_3
  }

  /** Each was due exactly `gap` ms after the one before was sent, and was sent after that. */
  predicate Spaced(sent: seq<Sent>, gap: nat) {
    forall i :: 0 < i < |sent| ==> sent[i - 1].at + gap == sent[i].packet.sendAt < sent[i].at
  }

  /** When the next one is due, if that is known. */
  function DueAfter(sent: seq<Sent>, gap: nat, first: Option<nat>): Option<nat> {
    if sent == [] then first else Some(sent[|sent| - 1].at + gap)
  }

  predicate IsDue(p: Packet, due: Option<nat>) {
    due.Some? ==> p.sendAt == due.value
  }

  /**
   * The history of a PCB since probing last started: from which entry of the log on, which probes were sent, and how
   * often an announcement could not be made.
   */
  datatype Probes = Probes(start: nat, sent: seq<Sent>, failures: nat)

  function ProbesOf(probes: map<nat, Probes>, c: nat): Probes {
    if c in probes then probes[c] else Probes(0, [], 0)
  }

  /** Number of probes that go with a state, and their spacing. */
  predicate ProbesFit(state: nat, p: Probes) {
    && Spaced(p.sent, 250)
    && |p.sent| == state - PROBE_1 + p.failures
    && (state < PROBE_3 ==> p.failures == 0)
  }

  /** At most one packet of the PCB is scheduled: a probe, or none, as told, and due as told. */
  predicate Only(tx: seq<Packet>, c: nat, probe: bool, due: Option<nat>) {
    && (forall i, j :: 0 <= i < |tx| && 0 <= j < |tx| && tx[i].pcb == tx[j].pcb == c ==> i == j)
    && (forall i :: 0 <= i < |tx| && tx[i].pcb == c ==> tx[i].probe == probe && IsDue(tx[i], due))
  }

  /** Of a probing PCB at most one packet is scheduled, and that is its probe, due 250 ms after the last one. */
  predicate OnlyProbe(tx: seq<Packet>, c: nat, p: Probes) {
    Only(tx, c, true, DueAfter(p.sent, 250, None))
  }

  ghost predicate ProbeInv(tx: seq<Packet>, pcbs: map<nat, nat>, probes: map<nat, Probes>) {
    forall c :: Probing(pcbs, c) ==>
      ProbesFit(StateOf(pcbs, c), ProbesOf(probes, c)) && OnlyProbe(tx, c, ProbesOf(probes, c))
  }

  /** The packets of a PCB in the log. */
  function SentOf(log: seq<Sent>, c: nat): seq<Sent> {
    if log == [] then []
    else SentOf(log[..|log| - 1], c) + if log[|log| - 1].packet.pcb == c then [log[|log| - 1]] else []
  }

  /** The history is that of the log: since the start exactly these packets of the PCB went out, and all are probes. */
  ghost predicate HistoryOk(log: seq<Sent>, c: nat, p: Probes) {
    && p.start <= |log|
    && p.sent == SentOf(log[p.start..], c)
    && forall i :: p.start <= i < |log| && log[i].packet.pcb == c ==> log[i].packet.probe
  }

  /** `failed` counts the steps of the service task without memory. */
  ghost predicate HistoryInv(log: seq<Sent>, pcbs: map<nat, nat>, probes: map<nat, Probes>, failed: nat) {
    && (forall c :: Probing(pcbs, c) ==> HistoryOk(log, c, ProbesOf(probes, c)))
    && (forall c :: ProbesOf(probes, c).failures <= failed)
  }

  /** Three probes, and one more for each failed announcement, are in the log since the start, an interval apart. */
  ghost predicate Probed(log: seq<Sent>, c: nat, p: Probes) {
    HistoryOk(log, c, p) && Spaced(p.sent, 250) && |p.sent| == 3 + p.failures
  }

  /** From probing to announcing there is one way. */
  ghost predicate NoShortcut(before: map<nat, nat>, after: map<nat, nat>, probes: map<nat, Probes>, log: seq<Sent>) {
    forall c :: Probing(before, c) && StateOf(after, c) == ANNOUNCE_1 ==> Probed(log, c, ProbesOf(probes, c))
  }

  /** The history after a packet of the PCB was sent in some state. */
  function AfterSend(p: Probes, state: nat, allocOk: bool, s: Sent): Probes {
    if PROBE_1 <= state <= PROBE_3
    then Probes(p.start, p.sent + [s], p.failures + if state == PROBE_3 && !allocOk then 1 else 0)
    else p
  }

  // ---------------------------------------------------------------- how the history grows

  lemma SentSnoc(log: seq<Sent>, s: Sent, c: nat)
    ensures SentOf(log + [s], c) == SentOf(log, c) + if s.packet.pcb == c then [s] else []
  {
    assert (log + [s])[..|log|] == log;
  }

  lemma HistoryGrows(log: seq<Sent>, s: Sent, c: nat, p: Probes)
    requires HistoryOk(log, c, p) && (s.packet.pcb == c ==> s.packet.probe)
    ensures HistoryOk(log + [s], c, p.(sent := p.sent + if s.packet.pcb == c then [s] else []))
  {
    assert (log + [s])[p.start..] == log[p.start..] + [s];
    SentSnoc(log[p.start..], s, c);
  }

  /** PCBs leave probing, and no history changes. */
  lemma HistoryShrinks(log: seq<Sent>, pcbs: map<nat, nat>, after: map<nat, nat>, probes: map<nat, Probes>,
      same: map<nat, Probes>, failed: nat)
    requires HistoryInv(log, pcbs, probes, failed)
    requires forall c :: Probing(after, c) ==> Probing(pcbs, c)
    requires forall c :: ProbesOf(same, c) == ProbesOf(probes, c)
    ensures HistoryInv(log, after, same, failed)
  {
    hide HistoryOk, Probing;
  }

  lemma HistoryRestarts(log: seq<Sent>, pcbs: map<nat, nat>, probes: map<nat, Probes>, c: nat, failed: nat)
    requires HistoryInv(log, pcbs, probes, failed)
    ensures HistoryInv(log, pcbs[c := PROBE_1], probes[c := Probes(|log|, [], 0)], failed)
  {
    assert log[|log|..] == [];
    var pcbs', probes' := pcbs[c := PROBE_1], probes[c := Probes(|log|, [], 0)];
    forall d | Probing(pcbs', d)
      ensures HistoryOk(log, d, ProbesOf(probes', d))
    {
      assert d != c ==> Probing(pcbs, d);
    }
    assert forall d :: ProbesOf(probes', d) == if d == c then Probes(|log|, [], 0) else ProbesOf(probes, d);
  }

  /** A packet of PCB `c` went out; other PCBs keep their histories, and that of `c` grows while it probes. */
  lemma HistorySent(log: seq<Sent>, pcbs: map<nat, nat>, probes: map<nat, Probes>, s: Sent, state: nat, allocOk: bool,
      failed: nat)
    requires HistoryInv(log, pcbs, probes, failed)
    requires Probing(pcbs, s.packet.pcb) ==> s.packet.probe
    requires PROBE_1 <= state <= PROBE_3 ==> Probing(pcbs, s.packet.pcb)
    ensures var c := s.packet.pcb;
      var own := AfterSend(ProbesOf(probes, c), StateOf(pcbs, c), allocOk, s);
      && HistoryInv(log + [s], pcbs[c := state], probes[c := own], if allocOk then failed else failed + 1)
      && (Probing(pcbs, c) ==> HistoryOk(log + [s], c, own))
  {
    var c := s.packet.pcb;
    var own := AfterSend(ProbesOf(probes, c), StateOf(pcbs, c), allocOk, s);
    var pcbs', probes' := pcbs[c := state], probes[c := own];
    if Probing(pcbs, c) {
      HistoryGrows(log, s, c, ProbesOf(probes, c));
    }
    forall d | Probing(pcbs', d)
      ensures HistoryOk(log + [s], d, ProbesOf(probes', d))
    {
      if d != c {
        assert Probing(pcbs, d);
        HistoryGrows(log, s, d, ProbesOf(probes, d));
        assert ProbesOf(probes, d).sent + [] == ProbesOf(probes, d).sent;
      }
    }
    assert forall d :: ProbesOf(probes', d) == if d == c then own else ProbesOf(probes, d);
  }

  // ---------------------------------------------------------------- how the probe invariant moves

  predicate NoneFor(tx: seq<Packet>, c: nat) {
    forall i :: 0 <= i < |tx| ==> tx[i].pcb != c
  }

  /** Dropping packets keeps the rule for every PCB. */
  lemma {:induction false} FilterOnly(tx: seq<Packet>, keep: Packet -> bool, c: nat, probe: bool, due: Option<nat>)
    requires Only(tx, c, probe, due)
    ensures Only(Filter(tx, keep), c, probe, due)
  {
    if tx != [] {
      var tail, rest := tx[1..], Filter(tx[1..], keep);
      assert Only(tail, c, probe, due) by {
        assert forall i :: 0 <= i < |tail| ==> tail[i] == tx[i + 1];
      }
      FilterOnly(tail, keep, c, probe, due);
      FilterMembers(tail, keep);
      var r := [tx[0]] + rest;
      if tx[0].pcb == c {
        forall i | 0 <= i < |rest|
          ensures rest[i].pcb != c
        {
          assert rest[i] in tail;
          var k :| 0 <= k < |tail| && tail[k] == rest[i];
          assert tx[k + 1] == rest[i];
        }
      }
      assert forall i :: 0 < i < |r| ==> r[i] == rest[i - 1];
      assert Filter(tx, keep) == if keep(tx[0]) then r else rest;
      hide Filter;
    }
  }

  lemma FilterNone(tx: seq<Packet>, c: nat)
    ensures NoneFor(Filter(tx, (p: Packet) => p.pcb != c), c)
  {
    var r := Filter(tx, (p: Packet) => p.pcb != c);
    FilterMembers(tx, (p: Packet) => p.pcb != c);
    forall i | 0 <= i < |r|
      ensures r[i].pcb != c
    {
      assert r[i] in r;
    }
  }

  lemma InsertOnly(tx: seq<Packet>, k: nat, q: Packet, c: nat, probe: bool, due: Option<nat>)
    requires Only(tx, c, probe, due) && k <= |tx|
    requires q.pcb == c ==> NoneFor(tx, c) && q.probe == probe && IsDue(q, due)
    ensures Only(tx[..k] + [q] + tx[k..], c, probe, due)
  {
    var r := tx[..k] + [q] + tx[k..];
    assert forall i :: 0 <= i < |r| ==> r[i] == if i < k then tx[i] else if i == k then q else tx[i - 1];
  }

  lemma TailOnly(tx: seq<Packet>, c: nat, probe: bool, due: Option<nat>)
    requires Only(tx, c, probe, due) && tx != []
    ensures Only(tx[1..], c, probe, due)
    ensures tx[0].pcb == c ==> NoneFor(tx[1..], c)
  {
    var r := tx[1..];
    assert forall i :: 0 <= i < |r| ==> r[i] == tx[i + 1];
  }

  lemma MarkOnly(tx: seq<Packet>, k: nat, c: nat, probe: bool, due: Option<nat>)
    requires Only(tx, c, probe, due) && k < |tx|
    ensures Only(tx[k := tx[k].(queued := true)], c, probe, due)
  {
  }

  /** One packet is scheduled, and at most its own PCB changes state. */
  lemma InsertProbeInv(tx: seq<Packet>, k: nat, q: Packet, pcbs: map<nat, nat>, probes: map<nat, Probes>,
      state: nat, own: Probes)
    requires ProbeInv(tx, pcbs, probes) && k <= |tx|
    requires PROBE_1 <= state <= PROBE_3 ==>
      && ProbesFit(state, own) && NoneFor(tx, q.pcb) && q.probe && IsDue(q, DueAfter(own.sent, 250, None))
    ensures ProbeInv(tx[..k] + [q] + tx[k..], pcbs[q.pcb := state], probes[q.pcb := own])
  {
    hide Only, ProbesFit, DueAfter, IsDue;
    var pcbs', probes' := pcbs[q.pcb := state], probes[q.pcb := own];
    forall c | Probing(pcbs', c)
      ensures ProbesFit(StateOf(pcbs', c), ProbesOf(probes', c))
      ensures OnlyProbe(tx[..k] + [q] + tx[k..], c, ProbesOf(probes', c))
    {
      if c == q.pcb {
        NoneOnly(tx, c, true, DueAfter(own.sent, 250, None));
      } else {
        assert Probing(pcbs, c);
      }
      InsertOnly(tx, k, q, c, true, DueAfter(ProbesOf(probes', c).sent, 250, None));
    }
  }

  lemma NoneOnly(tx: seq<Packet>, c: nat, probe: bool, due: Option<nat>)
    requires NoneFor(tx, c)
    ensures Only(tx, c, probe, due)
  {
  }

  /** Packets are dropped, and some PCBs leave probing. */
  lemma FilterProbeInv(tx: seq<Packet>, keep: Packet -> bool, pcbs: map<nat, nat>, after: map<nat, nat>,
      probes: map<nat, Probes>)
    requires ProbeInv(tx, pcbs, probes)
    requires forall c :: Probing(after, c) ==> StateOf(after, c) == StateOf(pcbs, c)
    ensures ProbeInv(Filter(tx, keep), after, probes)
  {
    hide Only, ProbesFit;
    forall c | Probing(after, c)
      ensures OnlyProbe(Filter(tx, keep), c, ProbesOf(probes, c)) && ProbesFit(StateOf(after, c), ProbesOf(probes, c))
    {
      assert Probing(pcbs, c);
      FilterOnly(tx, keep, c, true, DueAfter(ProbesOf(probes, c).sent, 250, None));
    }
  }

  /** Nothing is left of a PCB, which may also leave probing. */
  lemma ClearedProbeInv(tx: seq<Packet>, c: nat, pcbs: map<nat, nat>, state: nat, probes: map<nat, Probes>)
    requires ProbeInv(tx, pcbs, probes) && !(PROBE_1 <= state <= PROBE_3)
    ensures var left := Filter(tx, (p: Packet) => p.pcb != c);
      NoneFor(left, c) && ProbeInv(left, pcbs, probes) && ProbeInv(left, pcbs[c := state], probes)
  {
    FilterProbeInv(tx, (p: Packet) => p.pcb != c, pcbs, pcbs, probes);
    FilterProbeInv(tx, (p: Packet) => p.pcb != c, pcbs, pcbs[c := state], probes);
    FilterNone(tx, c);
    hide ProbeInv, Filter, OnlyProbe;
  }

  lemma TailProbeInv(tx: seq<Packet>, pcbs: map<nat, nat>, probes: map<nat, Probes>)
    requires ProbeInv(tx, pcbs, probes) && tx != []
    ensures ProbeInv(tx[1..], pcbs, probes)
    ensures var c := tx[0].pcb;
      Probing(pcbs, c) ==>
        && NoneFor(tx[1..], c) && tx[0].probe
        && ProbesFit(StateOf(pcbs, c), ProbesOf(probes, c))
        && IsDue(tx[0], DueAfter(ProbesOf(probes, c).sent, 250, None))
  {
    forall c | Probing(pcbs, c)
      ensures OnlyProbe(tx[1..], c, ProbesOf(probes, c)) && ProbesFit(StateOf(pcbs, c), ProbesOf(probes, c))
    {
      TailOnly(tx, c, true, DueAfter(ProbesOf(probes, c).sent, 250, None));
    }
    var c := tx[0].pcb;
    if Probing(pcbs, c) {
      TailOnly(tx, c, true, DueAfter(ProbesOf(probes, c).sent, 250, None));
      assert OnlyProbe(tx, c, ProbesOf(probes, c));
    }
  }

  /** A further probe, due 250 ms after the last one. */
  lemma ProbeCounted(p: Probes, s: Sent, state: nat, allocOk: bool)
    requires ProbesFit(state, p) && PROBE_1 <= state <= PROBE_3
    requires IsDue(s.packet, DueAfter(p.sent, 250, None)) && s.packet.sendAt < s.at
    ensures var own := AfterSend(p, state, allocOk, s);
      && Spaced(own.sent, 250) && own.sent != [] && own.sent[|own.sent| - 1] == s
      && (NextState(state, allocOk) <= PROBE_3 ==> ProbesFit(NextState(state, allocOk), own))
      && (NextState(state, allocOk) == ANNOUNCE_1 ==> |own.sent| == 3 + own.failures)
  {
  }

  /** The PCBs in `done` that were probing or announcing are running afterwards. */
  function Finished(pcbs: map<nat, nat>, done: set<nat>): map<nat, nat> {
    map c | c in pcbs :: if c in done && PROBE_1 <= pcbs[c] < RUNNING then RUNNING else pcbs[c]
  }

  lemma FinishedStates(pcbs: map<nat, nat>, done: set<nat>)
    ensures forall c ::
      StateOf(Finished(pcbs, done), c) == StateOf(pcbs, c) || StateOf(Finished(pcbs, done), c) == RUNNING
  {
  }

  /** A packet of PCB `c` was handled: its state and its history move on, and no other PCB sees a change. */
  ghost predicate PcbMoves(pcbs: map<nat, nat>, probes: map<nat, Probes>, pcbsAfter: map<nat, nat>,
      probesAfter: map<nat, Probes>, s: Sent, allocOk: bool) {
    var c := s.packet.pcb;
    && StateOf(pcbsAfter, c) == NextState(StateOf(pcbs, c), allocOk)
    && ProbesOf(probesAfter, c) == AfterSend(ProbesOf(probes, c), StateOf(pcbs, c), allocOk, s)
    && forall d :: d != c ==>
      StateOf(pcbsAfter, d) == StateOf(pcbs, d) && ProbesOf(probesAfter, d) == ProbesOf(probes, d)
  }

  lemma TxIdsHead(actions: seq<Action>)
    requires actions != []
    ensures actions[0].Tx? ==>
      TxIds(actions) != [] && TxIds(actions)[0] == actions[0].id && TxIds(actions)[1..] == TxIds(actions[1..])
    ensures !actions[0].Tx? ==> TxIds(actions) == TxIds(actions[1..])
  {
  }

  lemma StayingIsNoShortcut(pcbs: map<nat, nat>, probes: map<nat, Probes>, log: seq<Sent>)
    ensures NoShortcut(pcbs, pcbs, probes, log)
  {
  }

  lemma NothingMoves(pcbs: map<nat, nat>, probes: map<nat, Probes>, log: seq<Sent>, s: Sent, allocOk: bool)
    requires StateOf(pcbs, s.packet.pcb) == OFF
    ensures PcbMoves(pcbs, probes, pcbs, probes, s, allocOk) && NoShortcut(pcbs, pcbs, probes, log)
  {
  }

  /** All that `TxHandle` has to know about the packet it sends. */
  lemma SentFacts(log: seq<Sent>, pcbs: map<nat, nat>, probes: map<nat, Probes>, s: Sent, allocOk: bool, failed: nat)
    requires HistoryInv(log, pcbs, probes, failed)
    requires var c := s.packet.pcb;
      Probing(pcbs, c) ==>
        && s.packet.probe && ProbesFit(StateOf(pcbs, c), ProbesOf(probes, c))
        && IsDue(s.packet, DueAfter(ProbesOf(probes, c).sent, 250, None)) && s.packet.sendAt < s.at
    ensures var c := s.packet.pcb;
      var state, after := StateOf(pcbs, c), NextState(StateOf(pcbs, c), allocOk);
      var own := AfterSend(ProbesOf(probes, c), state, allocOk, s);
      var pcbs', probes' := pcbs[c := after], probes[c := own];
      && HistoryInv(log + [s], pcbs', probes', if allocOk then failed else failed + 1)
      && PcbMoves(pcbs, probes, pcbs', probes', s, allocOk)
      && NoShortcut(pcbs, pcbs', probes', log + [s])
      && (PROBE_1 <= after <= PROBE_3 ==> ProbesFit(after, own) && DueAfter(own.sent, 250, None) == Some(s.at + 250))
  {
    hide HistoryInv, HistoryOk, ProbesFit, Spaced, IsDue;
    var c, state := s.packet.pcb, StateOf(pcbs, s.packet.pcb);
    HistorySent(log, pcbs, probes, s, NextState(state, allocOk), allocOk, failed);
    if Probing(pcbs, c) {
      ProbeCounted(ProbesOf(probes, c), s, state, allocOk);
    }
  }

  /** The state that follows a transmission. */
  function NextState(state: nat, allocOk: bool): nat {
    if state == PROBE_3 && !allocOk then state
    else if PROBE_1 <= state <= ANNOUNCE_3 then state + 1
    else state
  }

  /** What is scheduled after a transmission: the same packet again, or the announcement after the last probe. */
  function NextPacket(p: Packet, state: nat, allocOk: bool, id: nat, now: nat): Packet {
    var at := now + if state <= PROBE_3 then PROBE_INTERVAL else 1000;
    if state == PROBE_3 && allocOk then Packet(id, p.pcb, at, false, false) else p.(sendAt := at, queued := false)
  }

  lemma LeaveState(tx: seq<Packet>, pcbs: map<nat, nat>, probes: map<nat, Probes>, same: map<nat, Probes>, c: nat,
      state: nat)
    requires ProbeInv(tx, pcbs, probes) && !(PROBE_1 <= state <= PROBE_3)
    requires forall d :: d != c ==> ProbesOf(same, d) == ProbesOf(probes, d)
    ensures ProbeInv(tx, pcbs[c := state], same)
  {
    hide OnlyProbe, ProbesFit;
    var pcbs' := pcbs[c := state];
    assert forall d :: Probing(pcbs', d) ==> d != c && Probing(pcbs, d) && StateOf(pcbs', d) == StateOf(pcbs, d);
  }
}
