/**
 * Announcing as facts about the log: what it says about the packets of a PCB since announcing last began, and what
 * scheduling and sending packets keeps (section 8.3 of RFC 6762).
 */
module MdnsAnnounce {
  import opened Bytes
  import opened MdnsQueue
  import opened MdnsProbes

  predicate Announcing(pcbs: map<nat, nat>, c: nat) {
    ANNOUNCE_1 <= StateOf(pcbs, c) <= ANNOUNCE_3
  }

  /**
   * How announcing last began: from which entry of the log on, when the first announcement was due, whether a probe
   * came just before, and whether the announcement is the only packet scheduled since.
   */
  datatype Start = Start(at: nat, first: nat, behindProbe: bool, alone: bool)

  function StartOf(starts: map<nat, Start>, c: nat): Start {
    if c in starts then starts[c] else Start(0, 0, false, false)
  }

  /** The packets of the PCB since then. */
  function Since(log: seq<Sent>, c: nat, s: Start): seq<Sent> {
    if s.at <= |log| then SentOf(log[s.at..], c) else []
  }

  /** Behind a probe means: 250 ms after the probe that is the entry before. */
  predicate Began(log: seq<Sent>, c: nat, s: Start) {
    && s.at <= |log|
    && (s.behindProbe ==>
          0 < s.at && var p := log[s.at - 1]; p.packet.pcb == c && p.packet.probe && s.first == p.at + 250)
  }

  /** Announcements only: the first when it was due, each other one due exactly a second after the one before. */
  predicate InStep(sent: seq<Sent>, first: nat) {
    && Spaced(sent, 1000)
    && (sent != [] ==> sent[0].packet.sendAt == first < sent[0].at)
    && forall i :: 0 <= i < |sent| ==> !sent[i].packet.probe
  }

  /** Since announcing began, `n` packets of the PCB were sent, in step if nothing else was scheduled. */
  predicate Announced(log: seq<Sent>, c: nat, s: Start, n: int) {
    && Began(log, c, s) && |Since(log, c, s)| == n
    && (s.alone ==> InStep(Since(log, c, s), s.first))
  }

  /** When the next announcement is due. */
  function NextDue(log: seq<Sent>, c: nat, s: Start): Option<nat> {
    DueAfter(Since(log, c, s), 1000, Some(s.first))
  }

  /** The number of packets is that of the state, and an announcement that is alone is due as it should. */
  ghost predicate AnnounceOk(log: seq<Sent>, tx: seq<Packet>, c: nat, state: nat, s: Start) {
    && Announced(log, c, s, state - ANNOUNCE_1)
    && (s.alone ==> Only(tx, c, false, NextDue(log, c, s)))
  }

  ghost predicate AnnounceInv(log: seq<Sent>, tx: seq<Packet>, pcbs: map<nat, nat>, starts: map<nat, Start>) {
    forall c :: Announcing(pcbs, c) ==> AnnounceOk(log, tx, c, StateOf(pcbs, c), StartOf(starts, c))
  }

  // ---------------------------------------------------------------- changes of the queue

  /** Packets are dropped, and PCBs stay as they are or stop announcing. */
  lemma FilterAnnounceInv(log: seq<Sent>, tx: seq<Packet>, keep: Packet -> bool, pcbs: map<nat, nat>,
      after: map<nat, nat>, starts: map<nat, Start>)
    requires AnnounceInv(log, tx, pcbs, starts)
    requires forall c :: Announcing(after, c) ==> StateOf(after, c) == StateOf(pcbs, c)
    ensures AnnounceInv(log, Filter(tx, keep), after, starts)
  {
    hide Only, Announced, NextDue, Filter;
    forall c | Announcing(after, c)
      ensures AnnounceOk(log, Filter(tx, keep), c, StateOf(after, c), StartOf(starts, c))
    {
      assert Announcing(pcbs, c);
      var s := StartOf(starts, c);
      if s.alone {
        FilterOnly(tx, keep, c, false, NextDue(log, c, s));
      }
    }
  }

  lemma MarkAnnounceInv(log: seq<Sent>, tx: seq<Packet>, k: nat, pcbs: map<nat, nat>, starts: map<nat, Start>)
    requires AnnounceInv(log, tx, pcbs, starts) && k < |tx|
    ensures AnnounceInv(log, tx[k := tx[k].(queued := true)], pcbs, starts)
  {
    hide Only, Announced, NextDue;
    forall c | Announcing(pcbs, c)
      ensures AnnounceOk(log, tx[k := tx[k].(queued := true)], c, StateOf(pcbs, c), StartOf(starts, c))
    {
      var s := StartOf(starts, c);
      if s.alone {
        MarkOnly(tx, k, c, false, NextDue(log, c, s));
      }
    }
  }

  /** The head is taken off the queue; if its PCB announces alone, it was the announcement, due as it should be. */
  lemma TailAnnounceInv(log: seq<Sent>, tx: seq<Packet>, pcbs: map<nat, nat>, starts: map<nat, Start>)
    requires AnnounceInv(log, tx, pcbs, starts) && tx != []
    ensures AnnounceInv(log, tx[1..], pcbs, starts)
    ensures AloneIsNext(log, tx[1..], pcbs, starts, tx[0])
  {
    hide Announced, NextDue;
    forall c | Announcing(pcbs, c)
      ensures AnnounceOk(log, tx[1..], c, StateOf(pcbs, c), StartOf(starts, c))
    {
      var s := StartOf(starts, c);
      if s.alone {
        TailOnly(tx, c, false, NextDue(log, c, s));
      }
    }
    var c := tx[0].pcb;
    if Announcing(pcbs, c) && StartOf(starts, c).alone {
      TailOnly(tx, c, false, NextDue(log, c, StartOf(starts, c)));
    }
  }

  ghost predicate AloneIsNext(log: seq<Sent>, rest: seq<Packet>, pcbs: map<nat, nat>, starts: map<nat, Start>,
      p: Packet) {
    Announcing(pcbs, p.pcb) && StartOf(starts, p.pcb).alone ==>
      NoneFor(rest, p.pcb) && !p.probe && IsDue(p, NextDue(log, p.pcb, StartOf(starts, p.pcb)))
  }

  /** One packet is scheduled; only its own PCB may change. */
  lemma InsertAnnounceInv(log: seq<Sent>, tx: seq<Packet>, k: nat, q: Packet, pcbs: map<nat, nat>,
      starts: map<nat, Start>, state: nat, own: Start)
    requires AnnounceInv(log, tx, pcbs, starts) && k <= |tx|
    requires ANNOUNCE_1 <= state <= ANNOUNCE_3 ==>
      && Announced(log, q.pcb, own, state - ANNOUNCE_1)
      && (own.alone ==> NoneFor(tx, q.pcb) && !q.probe && IsDue(q, NextDue(log, q.pcb, own)))
    ensures AnnounceInv(log, tx[..k] + [q] + tx[k..], pcbs[q.pcb := state], starts[q.pcb := own])
  {
    hide Only, Announced, NextDue, IsDue;
    var after, starts' := pcbs[q.pcb := state], starts[q.pcb := own];
    forall c | Announcing(after, c)
      ensures AnnounceOk(log, tx[..k] + [q] + tx[k..], c, StateOf(after, c), StartOf(starts', c))
    {
      var s := StartOf(starts', c);
      if c != q.pcb {
        assert Announcing(pcbs, c) && s == StartOf(starts, c);
      } else if s.alone {
        NoneOnly(tx, c, false, NextDue(log, c, s));
      }
      if s.alone {
        InsertOnly(tx, k, q, c, false, NextDue(log, c, s));
      }
    }
  }

  /** One PCB changes its state and its start. */
  lemma StateAnnounceInv(log: seq<Sent>, tx: seq<Packet>, pcbs: map<nat, nat>, starts: map<nat, Start>, c: nat,
      state: nat, own: Start)
    requires AnnounceInv(log, tx, pcbs, starts)
    requires ANNOUNCE_1 <= state <= ANNOUNCE_3 ==> AnnounceOk(log, tx, c, state, own)
    ensures AnnounceInv(log, tx, pcbs[c := state], starts[c := own])
  {
    hide AnnounceOk;
    var after, starts' := pcbs[c := state], starts[c := own];
    forall d | Announcing(after, d)
      ensures AnnounceOk(log, tx, d, StateOf(after, d), StartOf(starts', d))
    {
      if d != c {
        assert Announcing(pcbs, d);
      }
    }
  }

  // ---------------------------------------------------------------- how the log grows

  lemma SinceGrows(log: seq<Sent>, s: Sent, c: nat, start: Start)
    requires start.at <= |log|
    ensures Since(log + [s], c, start) == Since(log, c, start) + if s.packet.pcb == c then [s] else []
  {
    assert (log + [s])[start.at..] == log[start.at..] + [s];
    SentSnoc(log[start.at..], s, c);
  }

  lemma BeganGrows(log: seq<Sent>, s: Sent, c: nat, start: Start)
    requires Began(log, c, start)
    ensures Began(log + [s], c, start)
  {
  }

  /** A packet of the PCB goes out. */
  lemma AnnouncedGrows(log: seq<Sent>, s: Sent, start: Start, n: nat)
    requires Announced(log, s.packet.pcb, start, n) && s.packet.sendAt < s.at
    requires start.alone ==> !s.packet.probe && IsDue(s.packet, NextDue(log, s.packet.pcb, start))
    ensures Announced(log + [s], s.packet.pcb, start, n + 1)
    ensures NextDue(log + [s], s.packet.pcb, start) == Some(s.at + 1000)
  {
    SinceGrows(log, s, s.packet.pcb, start);
    BeganGrows(log, s, s.packet.pcb, start);
    hide Since, Began;
  }

  /** A packet of another PCB goes out. */
  lemma OthersAnnounced(log: seq<Sent>, s: Sent, c: nat, start: Start, n: int)
    requires Announced(log, c, start, n) && c != s.packet.pcb
    ensures Announced(log + [s], c, start, n) && NextDue(log + [s], c, start) == NextDue(log, c, start)
  {
    SinceGrows(log, s, c, start);
    BeganGrows(log, s, c, start);
    assert Since(log, c, start) + [] == Since(log, c, start);
    hide Since, Began;
  }

  /** Nothing was sent yet when announcing begins. */
  lemma NothingAnnounced(log: seq<Sent>, c: nat, start: Start)
    requires start.at == |log| && Began(log, c, start)
    ensures Announced(log, c, start, 0) && NextDue(log, c, start) == Some(start.first)
  {
    assert log[|log|..] == [];
  }

  /** A packet goes out, and the PCB it belongs to is not announcing any more or yet. */
  lemma SentAnnounceInv(log: seq<Sent>, tx: seq<Packet>, pcbs: map<nat, nat>, starts: map<nat, Start>, s: Sent,
      state: nat)
    requires AnnounceInv(log, tx, pcbs, starts) && !(ANNOUNCE_1 <= state <= ANNOUNCE_3)
    ensures AnnounceInv(log + [s], tx, pcbs[s.packet.pcb := state], starts)
  {
    hide Announced, NextDue, Only;
    var after := pcbs[s.packet.pcb := state];
    forall c | Announcing(after, c)
      ensures AnnounceOk(log + [s], tx, c, StateOf(after, c), StartOf(starts, c))
    {
      assert c != s.packet.pcb && Announcing(pcbs, c);
      OthersAnnounced(log, s, c, StartOf(starts, c), StateOf(pcbs, c) - ANNOUNCE_1);
    }
  }

  /** How announcing began, after a packet was sent in some state: it begins behind the third probe. */
  function StartAfter(s: Start, state: nat, allocOk: bool, at: nat, now: nat): Start {
    if state == PROBE_3 && allocOk then Start(at, now + 250, true, true) else s
  }

  /** A PCB that stops announcing is running, and has sent three announcements. */
  ghost predicate AnnouncedThrice(before: map<nat, nat>, after: map<nat, nat>, starts: map<nat, Start>,
      log: seq<Sent>) {
    forall c :: Announcing(before, c) && !Announcing(after, c) ==>
      StateOf(after, c) == RUNNING && Announced(log, c, StartOf(starts, c), 3)
  }

  /** Every PCB that starts to announce does so right behind its last probe. */
  ghost predicate AnnouncesBehindProbe(before: map<nat, nat>, after: map<nat, nat>, starts: map<nat, Start>,
      log: seq<Sent>) {
    forall c :: Probing(before, c) && StateOf(after, c) == ANNOUNCE_1 ==>
      StartOf(starts, c).behindProbe && StartOf(starts, c).alone && StartOf(starts, c).at == |log|
  }

  /** All that `TxHandle` has to know about announcements when it sends a packet. */
  lemma SentStarts(log: seq<Sent>, tx: seq<Packet>, pcbs: map<nat, nat>, starts: map<nat, Start>, s: Sent,
      allocOk: bool)
    requires AnnounceInv(log, tx, pcbs, starts) && AloneIsNext(log, tx, pcbs, starts, s.packet)
    requires StateOf(pcbs, s.packet.pcb) != OFF && s.packet.sendAt < s.at
    requires Probing(pcbs, s.packet.pcb) ==> NoneFor(tx, s.packet.pcb) && s.packet.probe
    ensures var c, state := s.packet.pcb, StateOf(pcbs, s.packet.pcb);
      var after, log' := NextState(state, allocOk), log + [s];
      var own := StartAfter(StartOf(starts, c), state, allocOk, |log'|, s.at);
      && AnnounceInv(log', tx, pcbs[c := after], starts[c := own])
      && AnnouncedThrice(pcbs, pcbs[c := after], starts[c := own], log')
      && AnnouncesBehindProbe(pcbs, pcbs[c := after], starts[c := own], log')
      && (ANNOUNCE_1 <= after <= ANNOUNCE_3 ==>
            && Announced(log', c, own, after - ANNOUNCE_1)
            && (own.alone ==>
                  && NoneFor(tx, c) && NextDue(log', c, own) == Some(s.at + if state <= PROBE_3 then 250 else 1000)
                  && (state > PROBE_3 ==> !s.packet.probe)))
  {
    hide Only, NextDue, Announced, IsDue;
    var c, state := s.packet.pcb, StateOf(pcbs, s.packet.pcb);
    var after, log' := NextState(state, allocOk), log + [s];
    var own := StartAfter(StartOf(starts, c), state, allocOk, |log'|, s.at);
    SentAnnounceInv(log, tx, pcbs, starts, s, RUNNING);
    if ANNOUNCE_1 <= state <= ANNOUNCE_3 {
      assert Announcing(pcbs, c);
      AnnouncedGrows(log, s, own, state - ANNOUNCE_1);
    } else if state == PROBE_3 && allocOk {
      NothingAnnounced(log', c, own);
    }
    if own.alone && ANNOUNCE_1 <= after <= ANNOUNCE_3 {
      NoneOnly(tx, c, false, NextDue(log', c, own));
    }
    StateAnnounceInv(log', tx, pcbs[c := RUNNING], starts, c, after, own);
    assert pcbs[c := RUNNING][c := after] == pcbs[c := after];
  }

  ghost predicate SameStarts(before: map<nat, Start>, after: map<nat, Start>) {
    forall c :: StartOf(after, c) == StartOf(before, c)
  }

  /** A packet of PCB `c` was handled, and the log is `at` entries long. */
  ghost predicate StartsMove(pcbs: map<nat, nat>, before: map<nat, Start>, after: map<nat, Start>, c: nat,
      allocOk: bool, at: nat, now: nat) {
    && StartOf(after, c) == StartAfter(StartOf(before, c), StateOf(pcbs, c), allocOk, at, now)
    && forall d :: d != c ==> StartOf(after, d) == StartOf(before, d)
  }

  lemma StartMoves(pcbs: map<nat, nat>, starts: map<nat, Start>, c: nat, allocOk: bool, at: nat, now: nat)
    ensures StartsMove(pcbs, starts, starts[c := StartAfter(StartOf(starts, c), StateOf(pcbs, c), allocOk, at, now)], c,
                       allocOk, at, now)
  {
  }

  lemma StayingStarts(pcbs: map<nat, nat>, starts: map<nat, Start>, log: seq<Sent>)
    ensures AnnouncedThrice(pcbs, pcbs, starts, log) && AnnouncesBehindProbe(pcbs, pcbs, starts, log)
  {
  }

  lemma NoneStarts(pcbs: map<nat, nat>, starts: map<nat, Start>, log: seq<Sent>, c: nat, allocOk: bool, now: nat)
    requires StateOf(pcbs, c) == OFF
    ensures AnnouncedThrice(pcbs, pcbs, starts, log) && AnnouncesBehindProbe(pcbs, pcbs, starts, log)
    ensures StartsMove(pcbs, starts, starts, c, allocOk, |log|, now)
  {
  }

  /** Announcing starts anew with the packet that is scheduled; in ANNOUNCE_1 nothing has been sent yet anyway. */
  function Restarted(log: seq<Sent>, c: nat, s: Start, state: nat): Start {
    if state == ANNOUNCE_1 then s
    else Start(|log|, if NextDue(log, c, s).Some? then NextDue(log, c, s).value else 0, false, s.alone)
  }

  lemma RestartOk(log: seq<Sent>, tx: seq<Packet>, c: nat, s: Start, state: nat)
    requires ANNOUNCE_1 <= state <= ANNOUNCE_3 && AnnounceOk(log, tx, c, state, s)
    ensures AnnounceOk(log, tx, c, ANNOUNCE_1, Restarted(log, c, s, state))
  {
    if state != ANNOUNCE_1 {
      NothingAnnounced(log, c, Restarted(log, c, s, state));
    }
    hide Only, Since;
  }

  lemma NothingScheduled(tx: seq<Packet>, c: nat, due: Option<nat>)
    ensures NoneFor(tx, c) ==> Only(tx, c, false, due)
  {
  }

  /** How announcing begins when `_mdns_announce_pcb` is called in some state. */
  function StartAnnounced(log: seq<Sent>, tx: seq<Packet>, c: nat, state: nat, hostnameSet: bool, s: Start,
      now: nat): Start {
    if ANNOUNCE_1 <= state <= ANNOUNCE_3 && !NoneFor(tx, c) then Restarted(log, c, s, state)
    else if state == RUNNING && hostnameSet then Start(|log|, now, false, NoneFor(tx, c))
    else s
  }

  // ---------------------------------------------------------------- handling a packet

  /** What holds when a packet of the queue is handled. */
  ghost predicate Handling(log: seq<Sent>, tx: seq<Packet>, pcbs: map<nat, nat>, probes: map<nat, Probes>,
      starts: map<nat, Start>, failed: nat, s: Sent) {
    var c := s.packet.pcb;
    && ProbeInv(tx, pcbs, probes) && HistoryInv(log, pcbs, probes, failed) && AnnounceInv(log, tx, pcbs, starts)
    && s.packet.sendAt < s.at && AloneIsNext(log, tx, pcbs, starts, s.packet)
    && (Probing(pcbs, c) ==>
          && NoneFor(tx, c) && s.packet.probe && ProbesFit(StateOf(pcbs, c), ProbesOf(probes, c))
          && IsDue(s.packet, DueAfter(ProbesOf(probes, c).sent, 250, None)))
  }

  /** All that handling it does to the state and the histories. */
  lemma HandleFacts(log: seq<Sent>, tx: seq<Packet>, pcbs: map<nat, nat>, probes: map<nat, Probes>,
      starts: map<nat, Start>, failed: nat, s: Sent, allocOk: bool)
    requires Handling(log, tx, pcbs, probes, starts, failed, s) && StateOf(pcbs, s.packet.pcb) != OFF
    ensures var c, state := s.packet.pcb, StateOf(pcbs, s.packet.pcb);
      var pcbs' := pcbs[c := NextState(state, allocOk)];
      var probes' := probes[c := AfterSend(ProbesOf(probes, c), state, allocOk, s)];
      var starts' := starts[c := StartAfter(StartOf(starts, c), state, allocOk, |log| + 1, s.at)];
      && HistoryInv(log + [s], pcbs', probes', if allocOk then failed else failed + 1)
      && PcbMoves(pcbs, probes, pcbs', probes', s, allocOk) && NoShortcut(pcbs, pcbs', probes', log + [s])
      && AnnouncedThrice(pcbs, pcbs', starts', log + [s]) && AnnouncesBehindProbe(pcbs, pcbs', starts', log + [s])
      && StartsMove(pcbs, starts, starts', c, allocOk, |log| + 1, s.at)
      && (!(PROBE_1 <= state < ANNOUNCE_3) ==>
            ProbeInv(tx, pcbs', probes') && AnnounceInv(log + [s], tx, pcbs', starts'))
  {
    hide ProbeInv, HistoryInv, AnnounceInv, AloneIsNext, ProbesFit, PcbMoves, NoShortcut, AnnouncedThrice, StartsMove,
      AnnouncesBehindProbe, IsDue, DueAfter, NoneFor, Announced, NextDue;
    var c, state := s.packet.pcb, StateOf(pcbs, s.packet.pcb);
    SentFacts(log, pcbs, probes, s, allocOk, failed);
    SentStarts(log, tx, pcbs, starts, s, allocOk);
    StartMoves(pcbs, starts, c, allocOk, |log| + 1, s.at);
    if !(PROBE_1 <= state < ANNOUNCE_3) {
      LeaveState(tx, pcbs, probes, probes[c := AfterSend(ProbesOf(probes, c), state, allocOk, s)], c,
                 NextState(state, allocOk));
    }
  }

  /** And what scheduling the next packet then does to the queue. */
  lemma HandleInserts(log: seq<Sent>, tx: seq<Packet>, pcbs: map<nat, nat>, probes: map<nat, Probes>,
      starts: map<nat, Start>, failed: nat, s: Sent, allocOk: bool, k: nat, q: Packet)
    requires Handling(log, tx, pcbs, probes, starts, failed, s) && PROBE_1 <= StateOf(pcbs, s.packet.pcb) < ANNOUNCE_3
    requires k <= |tx| && q.pcb == s.packet.pcb
    requires var state := StateOf(pcbs, s.packet.pcb);
      && q.sendAt == s.at + (if state <= PROBE_3 then 250 else 1000)
      && q.probe == (s.packet.probe && !(state == PROBE_3 && allocOk))
    ensures var c, state := s.packet.pcb, StateOf(pcbs, s.packet.pcb);
      var pcbs' := pcbs[c := NextState(state, allocOk)];
      var probes' := probes[c := AfterSend(ProbesOf(probes, c), state, allocOk, s)];
      var starts' := starts[c := StartAfter(StartOf(starts, c), state, allocOk, |log| + 1, s.at)];
      && ProbeInv(tx[..k] + [q] + tx[k..], pcbs', probes')
      && AnnounceInv(log + [s], tx[..k] + [q] + tx[k..], pcbs', starts')
  {
    hide ProbeInv, HistoryInv, AnnounceInv, AloneIsNext, ProbesFit, PcbMoves, NoShortcut, AnnouncedThrice,
      AnnouncesBehindProbe, NoneFor, Announced, NextDue;
    var c, state := s.packet.pcb, StateOf(pcbs, s.packet.pcb);
    var after, own := NextState(state, allocOk), AfterSend(ProbesOf(probes, c), state, allocOk, s);
    var start := StartAfter(StartOf(starts, c), state, allocOk, |log| + 1, s.at);
    SentFacts(log, pcbs, probes, s, allocOk, failed);
    SentStarts(log, tx, pcbs, starts, s, allocOk);
    InsertProbeInv(tx, k, q, pcbs, probes, after, own);
    InsertAnnounceInv(log + [s], tx, k, q, pcbs[c := after], starts[c := start], after, start);
    assert pcbs[c := after][c := after] == pcbs[c := after];
    assert starts[c := start][c := start] == starts[c := start];
  }

  lemma HandlingKeeps(log: seq<Sent>, tx: seq<Packet>, pcbs: map<nat, nat>, probes: map<nat, Probes>,
      starts: map<nat, Start>, failed: nat, s: Sent)
    requires Handling(log, tx, pcbs, probes, starts, failed, s)
    ensures ProbeInv(tx, pcbs, probes) && HistoryInv(log, pcbs, probes, failed) && AnnounceInv(log, tx, pcbs, starts)
  {
    hide ProbeInv, HistoryInv, AnnounceInv;
  }

  lemma TailHandling(log: seq<Sent>, tx: seq<Packet>, pcbs: map<nat, nat>, probes: map<nat, Probes>,
      starts: map<nat, Start>, failed: nat, now: nat)
    requires tx != [] && tx[0].sendAt < now
    requires ProbeInv(tx, pcbs, probes) && HistoryInv(log, pcbs, probes, failed) && AnnounceInv(log, tx, pcbs, starts)
    ensures Handling(log, tx[1..], pcbs, probes, starts, failed, Sent(tx[0].(queued := false), now))
    ensures ProbeInv(tx[1..], pcbs, probes) && AnnounceInv(log, tx[1..], pcbs, starts)
  {
    TailProbeInv(tx, pcbs, probes);
    TailAnnounceInv(log, tx, pcbs, starts);
    hide ProbeInv, HistoryInv, AnnounceInv, NextDue, DueAfter, NoneFor;
  }
}
