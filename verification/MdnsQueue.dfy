/**
 * The transmit queue of the mDNS responder and the pending transmit actions: what the timer task and the
 * service task keep between them, as facts about sequences.
 */
module MdnsQueue {
  import opened Bytes

  /** A scheduled packet. Its identity stands for its address; `probe` says that it asks for names to be free. */
  datatype Packet = Packet(id: nat, pcb: nat, sendAt: nat, queued: bool, probe: bool)

  /** A transmission: when it was due and when it happened. */
  datatype Sent = Sent(packet: Packet, at: nat)

  predicate Sorted(tx: seq<Packet>) {
    forall i, j :: 0 <= i < j < |tx| ==> tx[i].sendAt <= tx[j].sendAt
  }

  /** The packets handed over to the service task come first. */
  predicate QueuedFirst(tx: seq<Packet>) {
    forall i, j :: 0 <= i < j < |tx| && tx[j].queued ==> tx[i].queued
  }

  function QueuedIds(tx: seq<Packet>): seq<nat> {
    if tx == [] || !tx[0].queued then [] else [tx[0].id] + QueuedIds(tx[1..])
  }

  /** `a` can be found in `b`, in order. */
  predicate Embeds(a: seq<nat>, b: seq<nat>) {
    a == [] || (b != [] && if a[0] == b[0] then Embeds(a[1..], b[1..]) else Embeds(a, b[1..]))
  }

  /** Packets go out in the order in which they are due, and only after they are due. */
  predicate LogOk(log: seq<Sent>, now: nat) {
    && (forall i, j :: 0 <= i < j < |log| ==> log[i].packet.sendAt <= log[j].packet.sendAt && log[i].at <= log[j].at)
    && (forall i :: 0 <= i < |log| ==> log[i].packet.sendAt < log[i].at <= now)
  }

  /** What every step of either task keeps; `ids` are the pending transmit actions in order. */
  predicate QueueInv(now: nat, tx: seq<Packet>, ids: seq<nat>, log: seq<Sent>) {
    && Sorted(tx) && QueuedFirst(tx)
    && (forall i :: 0 <= i < |tx| && tx[i].queued ==> tx[i].sendAt < now)
    && Embeds(QueuedIds(tx), ids)
    && LogOk(log, now)
    && (forall i, j :: 0 <= i < |log| && 0 <= j < |tx| ==> log[i].packet.sendAt <= tx[j].sendAt)
  }

  /** `after` is `tx` with one more packet. */
  ghost predicate Inserted(tx: seq<Packet>, after: seq<Packet>, p: Packet) {
    exists k :: InsertedAt(tx, after, p, k)
  }

  predicate InsertedAt(tx: seq<Packet>, after: seq<Packet>, p: Packet, k: int) {
    0 <= k <= |tx| && after == tx[..k] + [p] + tx[k..]
  }

  // ---------------------------------------------------------------- embedding

  lemma {:induction false} EmbedsTail(a: seq<nat>, b: seq<nat>)
    requires a != [] && Embeds(a, b)
    ensures Embeds(a[1..], b)
    decreases |b|, 0
  {
    if a[0] == b[0] {
      EmbedsMore(a[1..], b[1..], b[0]);
      assert [b[0]] + b[1..] == b;
    } else {
      EmbedsTail(a, b[1..]);
      EmbedsMore(a[1..], b[1..], b[0]);
      assert [b[0]] + b[1..] == b;
    }
  }

  lemma {:induction false} EmbedsMore(a: seq<nat>, b: seq<nat>, x: nat)
    requires Embeds(a, b)
    ensures Embeds(a, [x] + b)
    decreases |b|, 1
  {
    assert ([x] + b)[1..] == b;
    if a != [] && a[0] == x {
      EmbedsTail(a, b);
    }
  }

  lemma {:induction false} EmbedsTransitive(a: seq<nat>, b: seq<nat>, c: seq<nat>)
    requires Embeds(a, b) && Embeds(b, c)
    ensures Embeds(a, c)
    decreases |c|
  {
    if a != [] {
      assert b != [] && c != [];
      if b[0] == c[0] {
        if a[0] == b[0] {
          EmbedsTransitive(a[1..], b[1..], c[1..]);
        } else {
          EmbedsTransitive(a, b[1..], c[1..]);
        }
      } else {
        EmbedsTransitive(a, b, c[1..]);
        EmbedsMore(a, c[1..], c[0]);
        assert [c[0]] + c[1..] == c;
      }
    }
  }

  lemma {:induction false} EmbedsAppend(a: seq<nat>, b: seq<nat>, x: nat)
    requires Embeds(a, b)
    ensures Embeds(a, b + [x]) && Embeds(a + [x], b + [x])
    decreases |b|
  {
    if b == [] {
      assert a == [] && a + [x] == [x] && b + [x] == [x] && [x][1..] == [];
    } else {
      assert (b + [x])[1..] == b[1..] + [x];
      if a == [] {
        EmbedsAppend([], b[1..], x);
        assert [] + [x] == [x] && [x][1..] == [];
      } else if a[0] == b[0] {
        EmbedsAppend(a[1..], b[1..], x);
        assert (a + [x])[1..] == a[1..] + [x];
      } else {
        EmbedsAppend(a, b[1..], x);
      }
    }
  }

  // ---------------------------------------------------------------- steps

  /** A packet scheduled from now on goes behind everything that was handed over. */
  lemma {:induction false} InsertQueuedIds(now: nat, tx: seq<Packet>, k: nat, p: Packet)
    requires k <= |tx| && !p.queued && p.sendAt >= now
    requires forall i :: 0 <= i < |tx| && tx[i].queued ==> tx[i].sendAt < now
    requires forall i :: k <= i < |tx| ==> tx[i].sendAt > p.sendAt
    ensures QueuedIds(tx[..k] + [p] + tx[k..]) == QueuedIds(tx)
    decreases k
  {
    var r := tx[..k] + [p] + tx[k..];
    if k > 0 {
      assert r[0] == tx[0] && r[1..] == tx[1..][..k - 1] + [p] + tx[1..][k - 1..];
      InsertQueuedIds(now, tx[1..], k - 1, p);
    } else {
      assert r[0] == p;
    }
  }

  /** Scheduling: the packet goes behind the last one that is not due later. */
  lemma InsertInv(now: nat, tx: seq<Packet>, ids: seq<nat>, log: seq<Sent>, k: nat, p: Packet)
    requires QueueInv(now, tx, ids, log) && k <= |tx| && !p.queued && p.sendAt >= now
    requires forall i :: 0 <= i < k ==> tx[i].sendAt <= p.sendAt
    requires forall i :: k <= i < |tx| ==> tx[i].sendAt > p.sendAt
    ensures QueueInv(now, tx[..k] + [p] + tx[k..], ids, log)
  {
    hide QueuedIds, Embeds, Sorted, QueuedFirst, LogOk;
    InsertQueuedIds(now, tx, k, p);
    InsertOrder(now, tx, k, p);
    InsertMembers(tx, k, p);
    LogBefore(now, log, p);
  }

  lemma InsertMembers(tx: seq<Packet>, k: nat, p: Packet)
    requires k <= |tx|
    ensures var r := tx[..k] + [p] + tx[k..];
      forall i :: 0 <= i < |r| ==> r[i] == if i < k then tx[i] else if i == k then p else tx[i - 1]
  {
  }

  lemma InsertOrder(now: nat, tx: seq<Packet>, k: nat, p: Packet)
    requires Sorted(tx) && QueuedFirst(tx) && k <= |tx| && !p.queued && p.sendAt >= now
    requires forall i :: 0 <= i < |tx| && tx[i].queued ==> tx[i].sendAt < now
    requires forall i :: 0 <= i < k ==> tx[i].sendAt <= p.sendAt
    requires forall i :: k <= i < |tx| ==> tx[i].sendAt > p.sendAt
    ensures Sorted(tx[..k] + [p] + tx[k..]) && QueuedFirst(tx[..k] + [p] + tx[k..])
  {
    InsertMembers(tx, k, p);
  }

  /** What was sent was due before a packet scheduled from now on. */
  lemma LogBefore(now: nat, log: seq<Sent>, p: Packet)
    requires LogOk(log, now) && p.sendAt >= now
    ensures forall i :: 0 <= i < |log| ==> log[i].packet.sendAt <= p.sendAt
  {
  }

  function Filter(tx: seq<Packet>, keep: Packet -> bool): seq<Packet> {
    if tx == [] then [] else (if keep(tx[0]) then [tx[0]] else []) + Filter(tx[1..], keep)
  }

  lemma {:induction false} FilterAppend(a: seq<Packet>, p: Packet, keep: Packet -> bool)
    ensures Filter(a + [p], keep) == Filter(a, keep) + if keep(p) then [p] else []
  {
    if a == [] {
      assert [p][1..] == [];
    } else {
      assert (a + [p])[0] == a[0] && (a + [p])[1..] == a[1..] + [p];
      FilterAppend(a[1..], p, keep);
      Associative(if keep(a[0]) then [a[0]] else [], Filter(a[1..], keep), if keep(p) then [p] else []);
    }
  }

  lemma {:induction false} FilterMembers(tx: seq<Packet>, keep: Packet -> bool)
    ensures forall p :: p in Filter(tx, keep) <==> p in tx && keep(p)
  {
    if tx != [] {
      FilterMembers(tx[1..], keep);
      assert tx == [tx[0]] + tx[1..];
    }
  }

  lemma PrependOrder(p: Packet, rest: seq<Packet>)
    requires Sorted(rest) && QueuedFirst(rest)
    requires forall q :: q in rest ==> p.sendAt <= q.sendAt && (q.queued ==> p.queued)
    ensures Sorted([p] + rest) && QueuedFirst([p] + rest)
  {
    var r := [p] + rest;
    assert forall i :: 0 < i < |r| ==> r[i] == rest[i - 1] && r[i] in rest;
  }

  lemma TailOrder(tx: seq<Packet>)
    requires tx != [] && Sorted(tx) && QueuedFirst(tx)
    ensures Sorted(tx[1..]) && QueuedFirst(tx[1..])
    ensures forall q :: q in tx[1..] ==> tx[0].sendAt <= q.sendAt && (q.queued ==> tx[0].queued)
  {
  }

  lemma {:induction false} FilterOrder(tx: seq<Packet>, keep: Packet -> bool)
    requires Sorted(tx) && QueuedFirst(tx)
    ensures Sorted(Filter(tx, keep)) && QueuedFirst(Filter(tx, keep))
  {
    hide Sorted, QueuedFirst;
    if tx == [] {
      SortedNil();
    } else {
      TailOrder(tx);
      FilterOrder(tx[1..], keep);
      FilterMembers(tx[1..], keep);
      if keep(tx[0]) {
        PrependOrder(tx[0], Filter(tx[1..], keep));
      } else {
        assert Filter(tx, keep) == Filter(tx[1..], keep);
      }
    }
  }

  lemma SortedNil()
    ensures Sorted([]) && QueuedFirst([])
  {
  }

  lemma {:induction false} FilterEmbeds(tx: seq<Packet>, keep: Packet -> bool)
    requires QueuedFirst(tx)
    ensures Embeds(QueuedIds(Filter(tx, keep)), QueuedIds(tx))
  {
    if tx != [] {
      var r, rest := Filter(tx, keep), Filter(tx[1..], keep);
      FilterEmbeds(tx[1..], keep);
      FilterMembers(tx[1..], keep);
      if keep(tx[0]) {
        assert r == [tx[0]] + rest && r[1..] == rest;
      } else {
        assert r == rest;
        if tx[0].queued {
          EmbedsMore(QueuedIds(rest), QueuedIds(tx[1..]), tx[0].id);
        } else if rest != [] {
          assert rest[0] in tx[1..];
        }
      }
    }
  }

  /** Clearing packets leaves stale actions behind, but strands nothing. */
  lemma FilterInv(now: nat, tx: seq<Packet>, ids: seq<nat>, log: seq<Sent>, keep: Packet -> bool)
    requires QueueInv(now, tx, ids, log)
    ensures QueueInv(now, Filter(tx, keep), ids, log)
  {
    FilterMembers(tx, keep);
    FilterOrder(tx, keep);
    FilterEmbeds(tx, keep);
    EmbedsTransitive(QueuedIds(Filter(tx, keep)), QueuedIds(tx), ids);
    hide QueuedIds, Embeds;
    var r := Filter(tx, keep);
    forall j | 0 <= j < |r|
      ensures exists i :: 0 <= i < |tx| && tx[i] == r[j]
    {
      assert r[j] in tx;
    }
  }

  lemma {:induction false} MarkQueuedIds(tx: seq<Packet>, k: nat)
    requires k < |tx| && !tx[k].queued && forall i :: 0 <= i < k ==> tx[i].queued
    requires QueuedFirst(tx)
    ensures QueuedIds(tx[k := tx[k].(queued := true)]) == QueuedIds(tx) + [tx[k].id]
    decreases k
  {
    var r := tx[k := tx[k].(queued := true)];
    if k > 0 {
      assert r[1..] == tx[1..][k - 1 := tx[k].(queued := true)];
      MarkQueuedIds(tx[1..], k - 1);
    } else if |tx| > 1 {
      assert !tx[1].queued && r[1..][0] == tx[1];
    }
  }

  /** The timer task hands over the first packet that is not yet queued, once it is due. */
  lemma PushInv(now: nat, tx: seq<Packet>, ids: seq<nat>, log: seq<Sent>, k: nat)
    requires QueueInv(now, tx, ids, log) && k < |tx| && tx[k].sendAt < now
    requires !tx[k].queued && forall i :: 0 <= i < k ==> tx[i].queued
    ensures QueueInv(now, tx[k := tx[k].(queued := true)], ids + [tx[k].id], log)
  {
    MarkQueuedIds(tx, k);
    EmbedsAppend(QueuedIds(tx), ids, tx[k].id);
    hide QueuedIds, Embeds;
  }

  /** The service task takes the head when the action names it and it was handed over. */
  lemma PopInv(now: nat, tx: seq<Packet>, ids: seq<nat>, log: seq<Sent>)
    requires QueueInv(now, tx, ids, log) && tx != [] && ids != [] && tx[0].queued && tx[0].id == ids[0]
    ensures tx[0].sendAt < now && QueueInv(now, tx[1..], ids[1..], log)
    ensures QueueInv(now, tx[1..], ids[1..], log + [Sent(tx[0].(queued := false), now)])
  {
    var r, l := tx[1..], log + [Sent(tx[0].(queued := false), now)];
    assert forall i :: 0 <= i < |r| ==> r[i] == tx[i + 1];
    assert Embeds(QueuedIds(r), ids[1..]);
    hide QueuedIds, Embeds;
  }

  /** Any other transmit action is skipped, and no packet depended on it. */
  lemma SkipInv(now: nat, tx: seq<Packet>, ids: seq<nat>, log: seq<Sent>)
    requires QueueInv(now, tx, ids, log) && ids != []
    requires tx == [] || !tx[0].queued || tx[0].id != ids[0]
    ensures QueueInv(now, tx, ids[1..], log)
  {
  }

  lemma LaterInv(now: nat, later: nat, tx: seq<Packet>, ids: seq<nat>, log: seq<Sent>)
    requires QueueInv(now, tx, ids, log) && now <= later
    ensures QueueInv(later, tx, ids, log)
  {
    hide QueuedIds, Embeds;
  }

  // ---------------------------------------------------------------- nothing is stranded

  /** Without a pending action no packet is handed over. */
  lemma NoneStranded(now: nat, tx: seq<Packet>, log: seq<Sent>)
    requires QueueInv(now, tx, [], log)
    ensures forall i :: 0 <= i < |tx| ==> !tx[i].queued
  {
    assert QueuedIds(tx) == [];
  }

  lemma InsertedKeeps(tx: seq<Packet>, after: seq<Packet>, p: Packet)
    requires Inserted(tx, after, p)
    ensures forall q :: q in tx ==> q in after
  {
    var k :| InsertedAt(tx, after, p, k);
    assert tx == tx[..k] + tx[k..];
  }
}
