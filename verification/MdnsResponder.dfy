/**
 * The scheduling part of the mDNS responder: the transmit queue, the action queue between the timer task
 * and the service task, and the probing state of every PCB (sections 8.1 and 8.3 of RFC 6762). Every method
 * is one critical section, so any order of calls is an interleaving of the two tasks.
 */
module MdnsResponder {
  import opened Bytes
  import opened MdnsQueue
  import opened MdnsProbes
  import opened MdnsAnnounce

  class Responder {
    var now: nat
    var tx: seq<Packet>
    var actions: seq<Action>
    var pcbs: map<nat, nat>
    var nextId: nat

    ghost var log: seq<Sent>
    ghost var probes: map<nat, Probes>
    ghost var starts: map<nat, Start>
    /** Steps of the service task for which there was no memory. */
    ghost var failed: nat

    ghost predicate Valid()
      reads this
    {
      && QueueInv(now, tx, TxIds(actions), log) && ProbeInv(tx, pcbs, probes)
      && HistoryInv(log, pcbs, probes, failed) && AnnounceInv(log, tx, pcbs, starts)
    }

    constructor ()
      ensures Valid() && tx == [] && actions == [] && pcbs == map[] && log == [] && failed == 0
    {
      now, tx, actions, pcbs, nextId := 0, [], [], map[], 0;
      log, probes, starts, failed := [], map[], map[], 0;
    }

    /** Time goes on. */
    method Tick(ms: nat)
      requires Valid()
      modifies this`now
      ensures Valid() && now == old(now) + ms
    {
      LaterInv(now, now + ms, tx, TxIds(actions), log);
      now := now + ms;
    }

    /** Any other task posts work. */
    method Post()
      requires Valid()
      modifies this`actions
      ensures Valid() && actions == old(actions) + [Other]
    {
      TxIdsAppend(actions, Other);
      assert TxIds(actions) + [] == TxIds(actions);
      actions := actions + [Other];
    }

    /** `_mdns_schedule_tx_packet`: behind the last packet that is not due later. */
    method Schedule(p: Packet, msAfter: nat) returns (ghost k: nat)
      requires QueueInv(now, tx, TxIds(actions), log)
      modifies this`tx
      ensures QueueInv(now, tx, TxIds(actions), log)
      ensures k <= |old(tx)|
      ensures tx == old(tx)[..k] + [p.(sendAt := now + msAfter, queued := false)] + old(tx)[k..]
      ensures forall i :: 0 <= i < |old(tx)| ==> (i < k <==> old(tx)[i].sendAt <= now + msAfter)
      ensures Inserted(old(tx), tx, p.(sendAt := now + msAfter, queued := false))
    {
      var packet := p.(sendAt := now + msAfter, queued := false);
      var q := 0;
      if |tx| > 0 && tx[0].sendAt <= packet.sendAt {
        q := 1;
        while q < |tx| && tx[q].sendAt <= packet.sendAt
          invariant 1 <= q <= |tx| && forall i :: 0 <= i < q ==> tx[i].sendAt <= packet.sendAt
        {
          q := q + 1;
        }
      }
      InsertInv(now, tx, TxIds(actions), log, q, packet);
      k := q;
      assert InsertedAt(tx, tx[..q] + [packet] + tx[q..], packet, q);
      tx := tx[..q] + [packet] + tx[q..];
    }

    /** `_mdns_clear_pcb_tx_queue_head`. */
    method ClearPcb(c: nat)
      requires QueueInv(now, tx, TxIds(actions), log)
      modifies this`tx
      ensures QueueInv(now, tx, TxIds(actions), log)
      ensures tx == Filter(old(tx), (p: Packet) => p.pcb != c)
    {
      var keep := (p: Packet) => p.pcb != c;
      FilterInv(now, tx, TxIds(actions), log, keep);
      var kept: seq<Packet>, all := [], tx;
      for i := 0 to |all|
        invariant kept == Filter(all[..i], keep)
      {
        assert all[..i + 1] == all[..i] + [all[i]];
        FilterAppend(all[..i], all[i], keep);
        if all[i].pcb != c {
          kept := kept + [all[i]];
        }
      }
      assert all[..|all|] == all;
      tx := kept;
    }

    /** `_mdns_scheduler_run`: the timer task hands over the first packet not yet handed over, if it is due. */
    method SchedulerRun(pushOk: bool)
      requires Valid()
      modifies this`tx, this`actions
      ensures Valid()
      ensures (actions == old(actions) && tx == old(tx)) ||
        exists k :: 0 <= k < |old(tx)| && !old(tx)[k].queued && old(tx)[k].sendAt < now
          && (forall i :: 0 <= i < k ==> old(tx)[i].queued)
          && tx == old(tx)[k := old(tx)[k].(queued := true)] && actions == old(actions) + [Tx(old(tx)[k].id)]
      ensures pushOk && actions == old(actions) ==> forall i :: 0 <= i < |tx| && !tx[i].queued ==> tx[i].sendAt >= now
    {
      var k := 0;
      while k < |tx| && tx[k].queued
        invariant k <= |tx| && forall i :: 0 <= i < k ==> tx[i].queued
      {
        k := k + 1;
      }
      if k == |tx| {
        return;
      }
      if tx[k].sendAt < now && pushOk {
        PushInv(now, tx, TxIds(actions), log, k);
        TxIdsAppend(actions, Tx(tx[k].id));
        MarkAnnounceInv(log, tx, k, pcbs, starts);
        forall c | Probing(pcbs, c)
          ensures OnlyProbe(tx[k := tx[k].(queued := true)], c, ProbesOf(probes, c))
        {
          MarkOnly(tx, k, c, true, DueAfter(ProbesOf(probes, c).sent, 250, None));
        }
        hide QueueInv, OnlyProbe, AnnounceInv;
        actions := actions + [Tx(tx[k].id)];
        tx := tx[k := tx[k].(queued := true)];
      }
    }

    /**
     * `_mdns_init_pcb_probe`: probing starts anew for PCB `c`. `delay` is 120 or 1000 ms and a random part;
     * without memory for the packet the state stays.
     */
    method InitProbe(c: nat, hostnameSet: bool, delay: nat, allocOk: bool)
      requires Valid()
      modifies this`tx, this`pcbs, this`nextId, this`probes, this`starts
      ensures Valid() && NoShortcut(old(pcbs), pcbs, probes, log) && SameStarts(old(starts), starts)
      ensures var left := Filter(old(tx), (p: Packet) => p.pcb != c);
        if hostnameSet && allocOk
        then
          && Inserted(left, tx, Packet(old(nextId), c, now + delay, false, true))
          && probes == old(probes)[c := Probes(|log|, [], 0)]
        else tx == left && probes == old(probes)
      ensures !hostnameSet ==> pcbs == old(pcbs)[c := RUNNING]
      ensures hostnameSet ==> pcbs == if allocOk then old(pcbs)[c := PROBE_1] else old(pcbs)
    {
      hide QueueInv, ProbeInv, Filter, OnlyProbe, Inserted, HistoryInv, Probed, AnnounceInv;
      ClearedProbeInv(tx, c, pcbs, RUNNING, probes);
      FilterAnnounceInv(log, tx, (p: Packet) => p.pcb != c, pcbs, pcbs, starts);
      FilterAnnounceInv(log, tx, (p: Packet) => p.pcb != c, pcbs, pcbs[c := RUNNING], starts);
      ClearPcb(c);
      HistoryShrinks(log, pcbs, pcbs[c := RUNNING], probes, probes, failed);
      if !hostnameSet {
        pcbs := pcbs[c := RUNNING];
        return;
      }
      if !allocOk {
        return;
      }
      StartProbe(c, delay);
    }

    /** The end of `_mdns_init_pcb_probe_new_service`: the first probe is scheduled. */
    method StartProbe(c: nat, delay: nat)
      requires Valid() && NoneFor(tx, c)
      modifies this`tx, this`pcbs, this`nextId, this`probes, this`starts
      ensures Valid() && pcbs == old(pcbs)[c := PROBE_1] && SameStarts(old(starts), starts)
      ensures probes == old(probes)[c := Probes(|log|, [], 0)]
      ensures Inserted(old(tx), tx, Packet(old(nextId), c, now + delay, false, true))
    {
      hide QueueInv, ProbeInv, OnlyProbe, NoneFor, Inserted, HistoryInv, AnnounceInv;
      var packet := Packet(nextId, c, now, false, true);
      nextId := nextId + 1;
      ghost var was := tx;
      ghost var k := Schedule(packet, delay);
      ghost var own := Probes(|log|, [], 0);
      InsertProbeInv(was, k, packet.(sendAt := now + delay, queued := false), pcbs, probes, PROBE_1, own);
      HistoryRestarts(log, pcbs, probes, c, failed);
      InsertAnnounceInv(log, was, k, packet.(sendAt := now + delay, queued := false), pcbs, starts, PROBE_1,
                        StartOf(starts, c));
      starts := starts[c := StartOf(starts, c)];
      pcbs := pcbs[c := PROBE_1];
      probes := probes[c := own];
    }

    /** A packet of another kind is scheduled for a PCB that is not probing, which may change state. */
    method ScheduleOther(c: nat, delay: nat, state: nat, ghost own: Start)
      requires Valid() && !Probing(pcbs, c) && !(PROBE_1 <= state <= PROBE_3)
      requires ANNOUNCE_1 <= state <= ANNOUNCE_3 ==>
        && Announced(log, c, own, state - ANNOUNCE_1)
        && (own.alone ==> NoneFor(tx, c) && NextDue(log, c, own) == Some(now + delay))
      modifies this`tx, this`pcbs, this`nextId, this`probes, this`starts
      ensures Valid() && pcbs == old(pcbs)[c := state] && starts == old(starts)[c := own]
      ensures NoShortcut(old(pcbs), pcbs, probes, log)
      ensures Inserted(old(tx), tx, Packet(old(nextId), c, now + delay, false, false))
      ensures forall d :: ProbesOf(probes, d) == ProbesOf(old(probes), d)
    {
      hide QueueInv, ProbeInv, OnlyProbe, Inserted, HistoryInv, Probed, AnnounceInv, Announced, NextDue;
      var packet := Packet(nextId, c, now, false, false);
      nextId := nextId + 1;
      ghost var was := tx;
      ghost var k := Schedule(packet, delay);
      InsertProbeInv(was, k, packet.(sendAt := now + delay, queued := false), pcbs, probes, state, ProbesOf(probes, c));
      InsertAnnounceInv(log, was, k, packet.(sendAt := now + delay, queued := false), pcbs, starts, state, own);
      starts := starts[c := own];
      HistoryShrinks(log, pcbs, pcbs[c := state], probes, probes[c := ProbesOf(probes, c)], failed);
      pcbs := pcbs[c := state];
      probes := probes[c := ProbesOf(probes, c)];
    }

    /**
     * The end of `mdns_parse_packet` and of `_mdns_create_answer_from_parsed_packet`: unless the PCB is off or still
     * probing, a shared answer is scheduled with a delay. Any other is sent at once, past the queue.
     */
    method Answer(c: nat, shared: bool, delay: nat)
      requires Valid()
      modifies this`tx, this`pcbs, this`nextId, this`probes, this`starts
      ensures Valid() && NoShortcut(old(pcbs), pcbs, probes, log)
      ensures StartOf(starts, c) == var s := StartOf(old(starts), c);
        if shared && Announcing(old(pcbs), c) then s.(alone := false) else s
      ensures forall d :: d != c ==> StartOf(starts, d) == StartOf(old(starts), d)
      ensures shared && StateOf(old(pcbs), c) > PROBE_3 ==>
        Inserted(old(tx), tx, Packet(old(nextId), c, now + delay, false, false))
      ensures !shared || StateOf(old(pcbs), c) <= PROBE_3 ==> tx == old(tx)
      ensures forall d :: StateOf(pcbs, d) == StateOf(old(pcbs), d) && ProbesOf(probes, d) == ProbesOf(old(probes), d)
    {
      if StateOf(pcbs, c) > PROBE_3 && shared {
        ghost var s := StartOf(starts, c);
        ScheduleOther(c, delay, StateOf(pcbs, c), if Announcing(pcbs, c) then s.(alone := false) else s);
      }
    }

    /** `_mdns_announce_pcb`. */
    method Announce(c: nat, hostnameSet: bool, delay: nat, allocOk: bool)
      requires Valid()
      modifies this`tx, this`pcbs, this`nextId, this`probes, this`starts
      ensures Valid() && NoShortcut(old(pcbs), pcbs, probes, log)
      ensures StateOf(old(pcbs), c) == OFF ==> StateOf(pcbs, c) == OFF
      ensures OFF < StateOf(old(pcbs), c) < ANNOUNCE_1 ==>
        StateOf(pcbs, c) == if !hostnameSet then RUNNING else if allocOk then PROBE_1 else StateOf(old(pcbs), c)
      ensures ANNOUNCE_1 <= StateOf(old(pcbs), c) <= ANNOUNCE_3 ==>
        StateOf(pcbs, c) == if NoneFor(old(tx), c) then StateOf(old(pcbs), c) else ANNOUNCE_1
      ensures StateOf(old(pcbs), c) == RUNNING ==> StateOf(pcbs, c) == if hostnameSet then ANNOUNCE_1 else RUNNING
      ensures StateOf(old(pcbs), c) > RUNNING ==> StateOf(pcbs, c) == StateOf(old(pcbs), c)
      ensures StateOf(old(pcbs), c) == RUNNING && hostnameSet && allocOk ==>
        Inserted(old(tx), tx, Packet(old(nextId), c, now, false, false))
      ensures StateOf(old(pcbs), c) == OFF || ANNOUNCE_1 <= StateOf(old(pcbs), c) < RUNNING ==> tx == old(tx)
      ensures forall d :: d != c ==>
        StateOf(pcbs, d) == StateOf(old(pcbs), d) && ProbesOf(probes, d) == ProbesOf(old(probes), d)
      ensures StartOf(starts, c) ==
        StartAnnounced(old(log), old(tx), c, StateOf(old(pcbs), c), hostnameSet, StartOf(old(starts), c), now)
      ensures forall d :: d != c ==> StartOf(starts, d) == StartOf(old(starts), d)
      ensures ProbesOf(probes, c) ==
        if OFF < StateOf(old(pcbs), c) < ANNOUNCE_1 && hostnameSet && allocOk then Probes(|log|, [], 0)
        else ProbesOf(old(probes), c)
    {
      hide Inserted, HistoryInv, Probed, ProbeInv, QueueInv, Filter, Only, Announced, NextDue, InStep;
      var state := StateOf(pcbs, c);
      if OFF < state < ANNOUNCE_1 {
        InitProbe(c, hostnameSet, delay, allocOk);
      } else if ANNOUNCE_1 <= state < RUNNING {
        if exists i :: 0 <= i < |tx| && tx[i].pcb == c {
          HistoryShrinks(log, pcbs, pcbs[c := ANNOUNCE_1], probes, probes, failed);
          LeaveState(tx, pcbs, probes, probes, c, ANNOUNCE_1);
          assert Announcing(pcbs, c);
          ghost var own := Restarted(log, c, StartOf(starts, c), state);
          RestartOk(log, tx, c, StartOf(starts, c), state);
          StateAnnounceInv(log, tx, pcbs, starts, c, ANNOUNCE_1, own);
          starts := starts[c := own];
          pcbs := pcbs[c := ANNOUNCE_1];
        }
      } else if state == RUNNING && hostnameSet {
        ghost var own := Start(|log|, now, false, NoneFor(tx, c));
        NothingAnnounced(log, c, own);
        if allocOk {
          ScheduleOther(c, 0, ANNOUNCE_1, own);
        } else {
          NothingScheduled(tx, c, NextDue(log, c, own));
          StateAnnounceInv(log, tx, pcbs, starts, c, ANNOUNCE_1, own);
          starts := starts[c := own];
          HistoryShrinks(log, pcbs, pcbs[c := ANNOUNCE_1], probes, probes, failed);
          LeaveState(tx, pcbs, probes, probes, c, ANNOUNCE_1);
          pcbs := pcbs[c := ANNOUNCE_1];
        }
      }
    }

    /** `_mdns_disable_pcb`. */
    method Disable(c: nat)
      requires Valid()
      modifies this`tx, this`pcbs
      ensures Valid() && NoShortcut(old(pcbs), pcbs, probes, log)
      ensures StateOf(pcbs, c) == OFF && NoneFor(tx, c)
    {
      hide QueueInv, ProbeInv, Filter, OnlyProbe, HistoryInv, Probed, AnnounceInv;
      ClearedProbeInv(tx, c, pcbs, OFF, probes);
      FilterAnnounceInv(log, tx, (p: Packet) => p.pcb != c, pcbs, pcbs[c := OFF], starts);
      HistoryShrinks(log, pcbs, pcbs[c := OFF], probes, probes, failed);
      ClearPcb(c);
      pcbs := pcbs[c := OFF];
    }

    /** `queueDetach` of every packet that has no content left. */
    method Detach(emptied: set<nat>)
      requires QueueInv(now, tx, TxIds(actions), log)
      modifies this`tx
      ensures QueueInv(now, tx, TxIds(actions), log)
      ensures tx == Filter(old(tx), (p: Packet) => p.id !in emptied)
    {
      var keep := (p: Packet) => p.id !in emptied;
      FilterInv(now, tx, TxIds(actions), log, keep);
      hide QueueInv;
      var kept: seq<Packet>, all := [], tx;
      for i := 0 to |all|
        invariant kept == Filter(all[..i], keep)
      {
        assert all[..i + 1] == all[..i] + [all[i]];
        FilterAppend(all[..i], all[i], keep);
        if all[i].id !in emptied {
          kept := kept + [all[i]];
        }
      }
      assert all[..|all|] == all;
      tx := kept;
    }

    /**
     * `_mdns_remove_scheduled_service_packets`: packets without content are detached, and PCBs that have
     * nothing left to probe or announce go on to running.
     */
    method RemoveService(emptied: set<nat>, done: set<nat>)
      requires Valid()
      modifies this`tx, this`pcbs
      ensures Valid() && NoShortcut(old(pcbs), pcbs, probes, log)
      ensures forall c :: c in done && PROBE_1 <= StateOf(old(pcbs), c) < RUNNING ==> StateOf(pcbs, c) == RUNNING
      ensures forall c :: !(c in done && PROBE_1 <= StateOf(old(pcbs), c) < RUNNING) ==>
        StateOf(pcbs, c) == StateOf(old(pcbs), c)
      ensures pcbs == Finished(old(pcbs), done) && tx == Filter(old(tx), (p: Packet) => p.id !in emptied)
    {
      hide QueueInv, ProbeInv, Filter, HistoryInv, Probed, AnnounceInv;
      FinishedStates(pcbs, done);
      FilterAnnounceInv(log, tx, (p: Packet) => p.id !in emptied, pcbs, Finished(pcbs, done), starts);
      HistoryShrinks(log, pcbs, Finished(pcbs, done), probes, probes, failed);
      FilterProbeInv(tx, (p: Packet) => p.id !in emptied, pcbs, Finished(pcbs, done), probes);
      hide Finished;
      Detach(emptied);
      pcbs := Finished(pcbs, done);
    }

    /** What the states before ANNOUNCE_3 schedule: the packet again, or the announcement behind the last probe. */
    method ScheduleNext(p: Packet, state: nat, allocOk: bool) returns (ghost k: nat)
      requires QueueInv(now, tx, TxIds(actions), log)
      modifies this`tx, this`nextId
      ensures QueueInv(now, tx, TxIds(actions), log)
      ensures var q := NextPacket(p, state, allocOk, old(nextId), now);
        k <= |old(tx)| && tx == old(tx)[..k] + [q] + old(tx)[k..] && Inserted(old(tx), tx, q)
    {
      hide QueueInv, Inserted;
      var again := p;
      if state == PROBE_3 && allocOk {
        again := Packet(nextId, p.pcb, now, false, false);
        nextId := nextId + 1;
      }
      var delay := if state <= PROBE_3 then PROBE_INTERVAL else 1000;
      k := Schedule(again, delay);
    }

    /** `_mdns_tx_handle_packet`: the packet goes out, and the state of its PCB moves on. */
    method TxHandle(p: Packet, allocOk: bool)
      requires QueueInv(now, tx, TxIds(actions), log) && QueueInv(now, tx, TxIds(actions), log + [Sent(p, now)])
      requires Handling(log, tx, pcbs, probes, starts, failed, Sent(p, now)) && !p.queued
      modifies this`tx, this`pcbs, this`nextId, this`log, this`probes, this`starts, this`failed
      ensures Valid() && NoShortcut(old(pcbs), pcbs, probes, log)
      ensures AnnouncedThrice(old(pcbs), pcbs, starts, log) && AnnouncesBehindProbe(old(pcbs), pcbs, starts, log)
      ensures StartsMove(old(pcbs), old(starts), starts, p.pcb, allocOk, |log|, now)
      ensures log == if StateOf(old(pcbs), p.pcb) == OFF then old(log) else old(log) + [Sent(p, now)]
      ensures failed == if allocOk || StateOf(old(pcbs), p.pcb) == OFF then old(failed) else old(failed) + 1
      ensures PcbMoves(old(pcbs), old(probes), pcbs, probes, Sent(p, now), allocOk)
      ensures var state := StateOf(old(pcbs), p.pcb);
        if PROBE_1 <= state < ANNOUNCE_3
        then Inserted(old(tx), tx, NextPacket(p, state, allocOk, old(nextId), now))
        else tx == old(tx)
    {
      hide QueueInv, ProbeInv, OnlyProbe, ProbesFit, Inserted, HistoryInv, NoShortcut, PcbMoves, AnnounceInv,
        AnnouncedThrice, AnnouncesBehindProbe, StartsMove, Handling, AfterSend, StartAfter, NextState;
      var c, state := p.pcb, StateOf(pcbs, p.pcb);
      if state == OFF {
        NothingMoves(pcbs, probes, log, Sent(p, now), allocOk);
        NoneStarts(pcbs, starts, log, p.pcb, allocOk, now);
        HandlingKeeps(log, tx, pcbs, probes, starts, failed, Sent(p, now));
        return;
      }
      var after := NextState(state, allocOk);
      ghost var own := AfterSend(ProbesOf(probes, c), state, allocOk, Sent(p, now));
      ghost var start := StartAfter(StartOf(starts, c), state, allocOk, |log| + 1, now);
      ghost var was, logged := tx, log;
      HandleFacts(log, tx, pcbs, probes, starts, failed, Sent(p, now), allocOk);
      log := log + [Sent(p, now)];
      if PROBE_1 <= state < ANNOUNCE_3 {
        ghost var q := NextPacket(p, state, allocOk, nextId, now);
        ghost var k := ScheduleNext(p, state, allocOk);
        HandleInserts(logged, was, pcbs, probes, starts, failed, Sent(p, now), allocOk, k, q);
      }
      pcbs := pcbs[c := after];
      probes := probes[c := own];
      starts := starts[c := start];
      failed := if allocOk then failed else failed + 1;
    }

    /**
     * One action of the service task. A transmit action is honoured only for the packet at the head. Without memory
     * for an announcement the probe is sent again.
     */
    method ServiceStep(allocOk: bool)
      requires Valid() && actions != []
      modifies this`tx, this`actions, this`pcbs, this`nextId, this`log, this`probes, this`starts, this`failed
      ensures Valid() && NoShortcut(old(pcbs), pcbs, probes, log)
      ensures AnnouncedThrice(old(pcbs), pcbs, starts, log) && AnnouncesBehindProbe(old(pcbs), pcbs, starts, log)
      ensures actions == old(actions)[1..]
      ensures log == old(log) || (exists p :: log == old(log) + [Sent(p, now)] && p.sendAt < now)
      ensures old(failed) <= failed <= old(failed) + (if allocOk then 0 else 1)
      ensures var head := old(actions[0].Tx? && tx != [] && tx[0].id == actions[0].id && tx[0].queued);
        && (head ==> PcbMoves(old(pcbs), old(probes), pcbs, probes, Sent(old(tx[0]).(queued := false), now), allocOk))
        && (head && StateOf(old(pcbs), old(tx[0]).pcb) != OFF ==>
              log == old(log) + [Sent(old(tx[0]).(queued := false), now)])
        && (head ==>
              var state := StateOf(old(pcbs), old(tx[0]).pcb);
              if PROBE_1 <= state < ANNOUNCE_3
              then Inserted(old(tx)[1..], tx,
                            NextPacket(old(tx[0]).(queued := false), state, allocOk, old(nextId), now))
              else tx == old(tx)[1..])
        && (head ==> StartsMove(old(pcbs), old(starts), starts, old(tx[0]).pcb, allocOk, |log|, now))
        && (!head ==> log == old(log) && tx == old(tx))
        && (!head ==> pcbs == old(pcbs) && probes == old(probes) && starts == old(starts))
    {
      hide QueueInv, ProbeInv, ProbesFit, HistoryInv, PcbMoves, NoShortcut, TxIds, NoneFor, Inserted, AnnounceInv,
        AnnouncedThrice, AnnouncesBehindProbe, StartsMove, Handling;
      var action := actions[0];
      ghost var ids := TxIds(actions);
      TxIdsHead(actions);
      StayingIsNoShortcut(pcbs, probes, log);
      StayingStarts(pcbs, starts, log);
      actions := actions[1..];
      if action.Tx? {
        if |tx| > 0 && tx[0].id == action.id && tx[0].queued {
          PopInv(now, tx, ids, log);
          TailHandling(log, tx, pcbs, probes, starts, failed, now);
          var p := tx[0].(queued := false);
          tx := tx[1..];
          TxHandle(p, allocOk);
        } else {
          SkipInv(now, tx, ids, log);
        }
      }
    }

    /**
     * The service task works off what is pending, with or without memory in each step: every packet that was handed
     * over goes out, unless its PCB is off, and none is left behind.
     */
    method ServiceAll(allocOk: nat -> bool)
      requires Valid()
      modifies this`tx, this`actions, this`pcbs, this`nextId, this`log, this`probes, this`starts, this`failed
      ensures Valid() && actions == [] && old(log) <= log
      ensures forall i :: 0 <= i < |tx| ==> !tx[i].queued
      ensures forall p :: p in old(tx) && p.queued && StateOf(old(pcbs), p.pcb) != OFF ==>
        Sent(p.(queued := false), now) in log
    {
      hide QueueInv, ProbeInv, HistoryInv, NoShortcut, Inserted, NextPacket, AnnounceInv, AnnouncedThrice,
        AnnouncesBehindProbe, StartsMove;
      ghost var was, off := tx, pcbs;
      for i := 0 to |actions|
        invariant Valid() && |actions| == old(|actions|) - i && old(log) <= log
        invariant forall c :: StateOf(pcbs, c) == OFF <==> StateOf(off, c) == OFF
        invariant forall p :: p in was && p.queued && StateOf(off, p.pcb) != OFF ==>
          p in tx || Sent(p.(queued := false), now) in log
      {
        ghost var before, head := tx, actions[0].Tx? && tx != [] && tx[0].id == actions[0].id && tx[0].queued;
        ghost var states, id := pcbs, nextId;
        ServiceStep(allocOk(i));
        if head {
          assert before == [before[0]] + before[1..];
          if tx != before[1..] {
            var p := before[0].(queued := false);
            InsertedKeeps(before[1..], tx, NextPacket(p, StateOf(states, p.pcb), allocOk(i), id, now));
          }
        }
      }
      assert TxIds(actions) == [];
      NoneStranded(now, tx, log);
    }
  }

  /** A PCB that starts to announce, with memory whenever it tried to, has sent three probes since the restart. */
  lemma ExactlyThreeProbes(r: Responder, before: map<nat, nat>, c: nat)
    requires r.Valid() && ProbesOf(r.probes, c).failures == 0 && NoShortcut(before, r.pcbs, r.probes, r.log)
    requires Probing(before, c) && StateOf(r.pcbs, c) == ANNOUNCE_1
    ensures var p := ProbesOf(r.probes, c);
      && p.start <= |r.log| && |SentOf(r.log[p.start..], c)| == 3 && Spaced(SentOf(r.log[p.start..], c), 250)
      && forall i :: p.start <= i < |r.log| && r.log[i].packet.pcb == c ==> r.log[i].packet.probe
  {
    assert Probed(r.log, c, ProbesOf(r.probes, c));
    hide QueueInv, ProbeInv;
  }

  /**
   * A PCB that stops announcing has sent exactly three packets since it began. With no shared answer in between they
   * are the announcements, each due exactly a second after the one before was sent; behind a probe the first was due
   * 250 ms after it.
   */
  lemma ExactlyThreeAnnouncements(r: Responder, before: map<nat, nat>, c: nat)
    requires AnnouncedThrice(before, r.pcbs, r.starts, r.log) && Announcing(before, c) && !Announcing(r.pcbs, c)
    ensures StateOf(r.pcbs, c) == RUNNING
    ensures var s := StartOf(r.starts, c);
      && s.at <= |r.log| && |SentOf(r.log[s.at..], c)| == 3
      && var es := SentOf(r.log[s.at..], c);
      && (s.alone ==>
            && es[0].at + 1000 == es[1].packet.sendAt < es[1].at && es[1].at + 1000 == es[2].packet.sendAt < es[2].at
            && !es[0].packet.probe && !es[1].packet.probe && !es[2].packet.probe)
      && (s.alone && s.behindProbe ==>
            && s.at > 0 && r.log[s.at - 1].packet.pcb == c && r.log[s.at - 1].packet.probe
            && r.log[s.at - 1].at + 250 == es[0].packet.sendAt < es[0].at)
  {
    hide SentOf;
  }
}
