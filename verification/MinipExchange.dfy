/**
What each event does to the two MINIP endpoints, in every run: what is read, sent, resent,
delivered and acknowledged, and which round trips are measured.
*/
module MinipExchange {
  import opened Bytes
  import opened Lists
  import opened Minip
  import opened MinipSystem
  import Rto

  // ---------------------------------------------------------------- reading and sending

  /** Consecutive packets from `from` on, stamped `now`, full except perhaps the last. */
  ghost predicate Segments(pkts: seq<Packet>, from: nat, now: nat) {
    forall i :: 0 <= i < |pkts| ==>
      && pkts[i].sn == from + i && pkts[i].ts == now && 0 < |pkts[i].payload| <= MSS
      && (i < |pkts| - 1 ==> |pkts[i].payload| == MSS)
  }

  lemma SegmentsCons(pkt: Packet, rest: seq<Packet>, now: nat)
    requires pkt.ts == now && 0 < |pkt.payload| <= MSS && (rest != [] ==> |pkt.payload| == MSS)
    requires Segments(rest, pkt.sn + 1, now)
    ensures Segments([pkt] + rest, pkt.sn, now)
  {
    var pkts := [pkt] + rest;
    assert forall i :: 0 < i < |pkts| ==> pkts[i] == rest[i - 1];
  }

  lemma {:induction false} SendDataSegments(s: Sender, buf: seq<Byte>, now: nat)
    ensures Segments(SendData(s, buf, now).1, s.nextSeq, now)
    decreases |buf|
  {
    if buf != [] {
      var n := CopyLen(buf);
      var pkt := Packet(s.nextSeq, now, buf[..n]);
      SendDataSegments(SendOne(s, pkt), buf[n..], now);
      var rest := SendData(SendOne(s, pkt), buf[n..], now).1;
      SegmentsCons(pkt, rest, now);
    }
  }

  /** `pkts` carry the first bytes of `avail`: all of them, or a window of full packets. */
  ghost predicate ReadAndSent(s: Sys, t: Sys, pkts: seq<Packet>, avail: seq<Byte>, now: nat) {
    && t.wire == s.wire + pkts && Segments(pkts, s.snd.nextSeq, now)
    && t.input == s.input + Flatten(Payloads(pkts)) && Flatten(Payloads(pkts)) <= avail
    && (Flatten(Payloads(pkts)) == avail || |Flatten(Payloads(pkts))| == MSS * s.snd.window)
    && |pkts| <= s.snd.window && t.snd == AfterSend(s.snd, pkts) && t.rcv == s.rcv && t.acks == s.acks
  }

  lemma ReadStep(s: Sys, avail: seq<Byte>, now: nat) returns (pkts: seq<Packet>)
    requires s.snd.open && s.snd.sending && s.snd.window > 0
    ensures ReadAndSent(s, OnRead(s, avail, now), pkts, avail, now)
  {
    var buf := avail[..ReadSize(s.snd, avail)];
    SendDataState(s.snd, buf, now);
    SendDataPackets(s.snd, buf, now);
    SendDataSegments(s.snd, buf, now);
    pkts := SendData(s.snd, buf, now).1;
    assert |buf| == |avail| ==> buf == avail;
  }

  lemma NothingRead(s: Sys, avail: seq<Byte>, now: nat)
    requires !(s.snd.open && s.snd.sending && s.snd.window > 0)
    ensures OnRead(s, avail, now) == s
  {
    assert SendData(s.snd, avail[..0], now) == (s.snd, []);
    assert s.wire + [] == s.wire && s.chunks + Payloads([]) == s.chunks && s.input + [] == s.input;
  }

  /** In every run an open sender that may send, with a window left, reads and sends all that
      is available, up to a full window; otherwise it reads nothing. */
  lemma ReadSendsWindow(events: seq<Event>, avail: seq<Byte>, now: nat)
    ensures var s, t := Run(events), Run(events + [Read(avail, now)]);
            if s.snd.open && s.snd.sending && s.snd.window > 0
            then |s.wire| <= |t.wire| && ReadAndSent(s, t, t.wire[|s.wire|..], avail, now)
            else t == s
  {
    RunSnoc(events, Read(avail, now));
    var s := Run(events);
    if s.snd.open && s.snd.sending && s.snd.window > 0 {
      var pkts := ReadStep(s, avail, now);
      assert (s.wire + pkts)[|s.wire|..] == pkts;
    } else {
      NothingRead(s, avail, now);
    }
  }

  // ---------------------------------------------------------------- delivering

  /** What the receiver makes of packet `p`, of which the socket takes `accepted` bytes. */
  ghost predicate Received(s: Sys, t: Sys, p: Packet, accepted: nat) {
    && t.snd == s.snd && t.wire == s.wire && t.input == s.input && accepted <= |p.payload|
    && if p.sn != s.rcv.nextRecv
       then t.rcv == s.rcv && t.output == s.output && t.acks == s.acks + [Ack(s.rcv.nextRecv, p.ts)]
       else if accepted == |p.payload|
       then && t.rcv == Receiver(p.sn + 1, s.rcv.open && p.payload != [])
            && t.output == s.output + p.payload && t.acks == s.acks + [Ack(p.sn + 1, p.ts)]
       else && t.rcv == Receiver(p.sn, false)
            && t.output == s.output + p.payload[..accepted] && t.acks == s.acks + [Ack(p.sn, p.ts)]
  }

  lemma DataStep(s: Sys, p: Packet, accepted: nat)
    requires p in s.wire && accepted <= |p.payload| && (s.rcv.open || accepted == 0)
    ensures Received(s, OnData(s, p, accepted), p, accepted)
  {
    assert s.output + [] == s.output;
  }

  /** In every run each packet that arrives is answered by one ACK with its stamp.  The next one
      expected is written to the socket; if all of it is taken the ACK asks for the one
      after it, if not the receiver closes.  Any other only has the ACK repeated. */
  lemma DataIsAnswered(events: seq<Event>, p: Packet, accepted: nat)
    requires var s := Run(events); p in s.wire && accepted <= |p.payload| && (s.rcv.open || accepted == 0)
    ensures Received(Run(events), Run(events + [DataArrives(p, accepted)]), p, accepted)
  {
    RunSnoc(events, DataArrives(p, accepted));
    DataStep(Run(events), p, accepted);
  }

  // ---------------------------------------------------------------- acknowledging

  /** A sender that may not send is recovering. */
  ghost predicate StoppedIsRecovering(snd: Sender) {
    snd.sending || snd.phase == Recovery
  }

  lemma StepKeepsStopped(s: Sys, ev: Event)
    requires StoppedIsRecovering(s.snd)
    ensures StoppedIsRecovering(Step(s, ev).snd)
  {
    match ev
    case Read(avail, now) =>
      if s.snd.open { SendDataState(s.snd, avail[..ReadSize(s.snd, avail)], now); }
    case _ =>
  }

  lemma {:induction false} EveryRunKeepsStopped(events: seq<Event>)
    ensures StoppedIsRecovering(Run(events).snd)
  {
    if events != [] {
      EveryRunKeepsStopped(events[..|events| - 1]);
      StepKeepsStopped(Run(events[..|events| - 1]), events[|events| - 1]);
    }
  }

  /** A good ACK: exactly the packets below it leave the queue, each giving back its credit,
      the sender may send again, and nothing is resent. */
  ghost predicate Advanced(s: Sys, t: Sys, ack: nat) {
    var n := ack - (s.snd.nextSeq - |s.snd.rtxq|);
    && 0 <= n <= |s.snd.rtxq| && t.snd.rtxq == s.snd.rtxq[n..]
    && (forall i :: 0 <= i < |s.snd.rtxq| ==> (i < n <==> s.snd.rtxq[i].pkt.sn < ack))
    && t.snd.lastAcked == ack - 1 && t.snd.dupAcks == 0 && t.snd.nextSeq == s.snd.nextSeq
    && t.snd.sending && t.snd.phase == Established && t.snd.open == s.snd.open
    && t.wire == s.wire && t.rcv == s.rcv
    && (|t.snd.rtxq| >= 6 ==> t.snd.window == s.snd.window + n)
    && (|t.snd.rtxq| < 6 ==> t.snd.window == if s.snd.window + n < 12 then s.snd.window + n + 1 else 12)
  }

  lemma CwndIs(g: Sender)
    requires g.nextSeq - g.lastAcked == 1 + |g.rtxq| <= 6 && g.window <= 17
    ensures UpdateCwnd(g) == g.(window := if g.window < 12 then g.window + 1 else 12)
  {
  }

  lemma GoodAckIs(s: Sys, a: Ack)
    requires Inv(s) && StoppedIsRecovering(s.snd) && a in s.acks && a.ack > s.snd.lastAcked
    ensures var n := a.ack - Base(s.snd);
            && 0 <= n <= |s.snd.rtxq|
            && GoodAck(s.snd, a.ack) ==
               s.snd.(dupAcks := 0, lastAcked := a.ack - 1, rtxq := s.snd.rtxq[n..], len := s.snd.len - n,
                      sending := true, phase := Established, window := s.snd.window + n)
  {
    GoodAckCredit(s, a);
    GoodAckWindow(s, a);
  }

  /** The sender after a good ACK that takes `n` packets off the queue. */
  function AfterGood(snd: Sender, ack: nat, n: nat): Sender
    requires n <= |snd.rtxq| && 0 < ack
  {
    var w := snd.window + n;
    snd.(dupAcks := 0, lastAcked := ack - 1, rtxq := snd.rtxq[n..], len := snd.len - n,
         sending := true, phase := Established,
         window := if |snd.rtxq| - n >= 6 then w else if w < 12 then w + 1 else 12)
  }

  lemma RecvGoodIs(snd: Sender, a: Ack, now: nat)
    requires a.ack > snd.lastAcked
    ensures var g := GoodAck(Sampled(snd, a, now), a.ack);
            RecvAck(snd, a, now) == (if g.len < 6 then UpdateCwnd(g) else g, [])
  {
  }

  lemma AfterGoodIs(s: Sys, a: Ack)
    requires Inv(s) && StoppedIsRecovering(s.snd) && a in s.acks && a.ack > s.snd.lastAcked
    ensures var g, n := GoodAck(s.snd, a.ack), a.ack - Base(s.snd);
            && 0 <= n <= |s.snd.rtxq|
            && (if g.len < 6 then UpdateCwnd(g) else g) == AfterGood(s.snd, a.ack, n)
  {
    GoodAckIs(s, a);
    GoodAckWindow(s, a);
    var g := GoodAck(s.snd, a.ack);
    if g.len < 6 {
      CwndIs(g);
    }
  }

  lemma EstimateAside(snd: Sender, estimate: Rto.Estimate, ack: nat)
    requires 0 < ack
    ensures GoodAck(snd.(estimate := estimate), ack) == GoodAck(snd, ack).(estimate := estimate)
    ensures UpdateCwnd(snd.(estimate := estimate)) == UpdateCwnd(snd).(estimate := estimate)
  {
  }

  lemma GoodAckStep(s: Sys, a: Ack, now: nat)
    requires Inv(s) && StoppedIsRecovering(s.snd) && a in s.acks && a.ack > s.snd.lastAcked
    ensures var n := a.ack - Base(s.snd);
            && 0 <= n <= |s.snd.rtxq|
            && RecvAck(s.snd, a, now) ==
               (AfterGood(s.snd, a.ack, n).(estimate := Sampled(s.snd, a, now).estimate), [])
  {
    RecvGoodIs(s.snd, a, now);
    AfterGoodIs(s, a);
    var estimate := Sampled(s.snd, a, now).estimate;
    EstimateAside(s.snd, estimate, a.ack);
    EstimateAside(GoodAck(s.snd, a.ack), estimate, a.ack);
  }

  lemma AdvancedBy(s: Sys, t: Sys, estimate: Rto.Estimate, ack: nat, n: nat)
    requires QueueIsRun(s.snd.rtxq, s.snd.nextSeq, s.chunks) && n == ack - Base(s.snd) && n <= |s.snd.rtxq|
    requires 0 < ack && t.snd == AfterGood(s.snd, ack, n).(estimate := estimate) && t.wire == s.wire && t.rcv == s.rcv
    ensures Advanced(s, t, ack)
  {
  }

  lemma GoodAckAdvances(s: Sys, a: Ack, now: nat)
    requires Inv(s) && StoppedIsRecovering(s.snd) && a in s.acks && a.ack > s.snd.lastAcked
    ensures Advanced(s, OnAck(s, a, now), a.ack)
  {
    GoodAckStep(s, a, now);
    assert s.wire + [] == s.wire;
    AdvancedBy(s, OnAck(s, a, now), Sampled(s.snd, a, now).estimate, a.ack, a.ack - Base(s.snd));
  }

  /** What a good ACK does in every run. */
  lemma GoodAckResumes(events: seq<Event>, a: Ack, now: nat)
    requires a in Run(events).acks && a.ack > Run(events).snd.lastAcked
    ensures Advanced(Run(events), Run(events + [AckArrives(a, now)]), a.ack)
  {
    EveryRunKeepsInv(events);
    EveryRunKeepsStopped(events);
    RunSnoc(events, AckArrives(a, now));
    GoodAckAdvances(Run(events), a, now);
  }

  /** An ACK below lastAcked is ignored. */
  lemma OldAckIsIgnored(events: seq<Event>, a: Ack, now: nat)
    requires a in Run(events).acks && a.ack < Run(events).snd.lastAcked
    ensures Run(events + [AckArrives(a, now)]) == Run(events)
  {
    RunSnoc(events, AckArrives(a, now));
    assert Run(events).wire + [] == Run(events).wire;
  }

  // ---------------------------------------------------------------- resending

  /** No packet up to the i-th, of those numbered from `from` on, has used up its retries. */
  ghost predicate RetriesLeft(q: seq<Entry>, from: nat, i: int) {
    forall j :: 0 <= j <= i && j < |q| && q[j].pkt.sn >= from ==> q[j].retries < MAX_RETRY
  }

  /** A packet is sent once more, with a new stamp, if and only if it is numbered from `from`
      on and neither it nor an earlier such packet has used up its retries. */
  ghost predicate ResentAt(s: Sys, t: Sys, from: nat, now: nat, i: nat)
    requires i < |s.snd.rtxq| == |t.snd.rtxq| && |s.wire| <= |t.wire|
  {
    var e, f := s.snd.rtxq[i], t.snd.rtxq[i];
    if e.pkt.sn >= from && RetriesLeft(s.snd.rtxq, from, i)
    then && f == Entry(Packet(e.pkt.sn, now, e.pkt.payload), e.retries + 1) && f.pkt in t.wire[|s.wire|..]
         && Count(t.wire, e.pkt.sn) == Count(s.wire, e.pkt.sn) + 1
    else f == e && Count(t.wire, e.pkt.sn) == Count(s.wire, e.pkt.sn)
  }

  /** That of every packet queued, and nothing but packets queued. */
  ghost predicate AllResentAt(s: Sys, t: Sys, from: nat, now: nat) {
    && |t.snd.rtxq| == |s.snd.rtxq| && |s.wire| <= |t.wire| && t.wire[..|s.wire|] == s.wire
    && SentFrom(t.wire[|s.wire|..], t.snd.rtxq)
    && forall i :: 0 <= i < |s.snd.rtxq| ==> ResentAt(s, t, from, now, i)
  }

  /** A retransmission from `from` on at `now`.  Sending stops until recovery ends, and if a
      packet has used up its retries the connection closes. */
  ghost predicate ResentFrom(s: Sys, t: Sys, from: nat, now: nat) {
    && AllResentAt(s, t, from, now)
    && t.snd.open == (s.snd.open && RetriesLeft(s.snd.rtxq, from, |s.snd.rtxq| - 1))
    && !t.snd.sending && t.snd.phase == Recovery
    && t.snd.lastAcked == s.snd.lastAcked && t.snd.nextSeq == s.snd.nextSeq && t.snd.window == s.snd.window
    && t.rcv == s.rcv
  }

  lemma ReachedIsLeft(q: seq<Entry>, from: nat, i: nat)
    requires i < |q|
    ensures Reached(q, from, i) <==> RetriesLeft(q, from, i)
  {
    if Reached(q, from, i) {
      assert forall j :: 0 <= j <= i ==> !Exhausted(q[j], from);
    }
    if RetriesLeft(q, from, i) {
      assert forall j :: 0 <= j <= i && q[j].pkt.sn >= from ==> q[j].retries < MAX_RETRY;
    }
  }

  lemma NoneExhaustedIsLeft(q: seq<Entry>, from: nat)
    ensures (forall i :: 0 <= i < |q| ==> !Exhausted(q[i], from)) <==> RetriesLeft(q, from, |q| - 1)
  {
  }

  lemma ResentEntry(s: Sys, t: Sys, from: nat, now: nat, i: nat)
    requires Inv(s) && Inv(t) && i < |s.snd.rtxq| == |t.snd.rtxq|
    requires var r := EntriesRtx(s.snd.rtxq, from, now); t.snd.rtxq == r.q && t.wire == s.wire + r.sent
    ensures ResentAt(s, t, from, now, i)
  {
    var r := EntriesRtx(s.snd.rtxq, from, now);
    EntriesRtxExact(s.snd.rtxq, from, now);
    ReachedIsLeft(s.snd.rtxq, from, i);
    assert EntryRtx(s.snd.rtxq, r, from, now, i);
    assert t.wire[|s.wire|..] == r.sent;
    assert Count(s.wire, s.snd.rtxq[i].pkt.sn) == 1 + s.snd.rtxq[i].retries;
    assert Count(t.wire, t.snd.rtxq[i].pkt.sn) == 1 + t.snd.rtxq[i].retries;
  }

  lemma RecoveryRtxResends(s: Sys, dupAcks: nat, from: nat, now: nat)
    requires Inv(s)
    ensures ResentFrom(s, RecoveryRtx(s, dupAcks, from, now), from, now)
    ensures RecoveryRtx(s, dupAcks, from, now).snd.dupAcks == dupAcks
  {
    var t := RecoveryRtx(s, dupAcks, from, now);
    RecoveryRtxKeepsInv(s, dupAcks, from, now);
    EntriesRtxExact(s.snd.rtxq, from, now);
    RtxSentFrom(s.snd.rtxq, from, now);
    NoneExhaustedIsLeft(s.snd.rtxq, from);
    assert t.wire[|s.wire|..] == EntriesRtx(s.snd.rtxq, from, now).sent;
    forall i | 0 <= i < |s.snd.rtxq| ensures ResentAt(s, t, from, now, i) {
      ResentEntry(s, t, from, now, i);
    }
  }

  /** The timer does nothing with an empty queue and otherwise resends from lastAcked + 1 on. */
  ghost predicate TimedOut(s: Sys, t: Sys, now: nat) {
    if s.snd.rtxq == [] then t == s
    else ResentFrom(s, t, s.snd.lastAcked + 1, now) && t.snd.dupAcks == s.snd.dupAcks
  }

  lemma TimerStep(s: Sys, now: nat)
    requires Inv(s)
    ensures TimedOut(s, OnTimer(s, now), now)
  {
    TimerIs(s, now);
    if s.snd.rtxq != [] {
      RecoveryRtxResends(s, s.snd.dupAcks, s.snd.lastAcked + 1, now);
    }
  }

  /** What the timer does in every run. */
  lemma TimerResends(events: seq<Event>, now: nat)
    ensures TimedOut(Run(events), Run(events + [TimerFires(now)]), now)
  {
    EveryRunKeepsInv(events);
    RunSnoc(events, TimerFires(now));
    TimerStep(Run(events), now);
  }

  // ---------------------------------------------------------------- duplicate ACKs

  /** The first duplicate resends from lastAcked on: every packet queued, if and only if none
      has used up its retries.  A later one sends nothing. */
  ghost predicate Duplicate(s: Sys, t: Sys, now: nat) {
    && t.snd.dupAcks == s.snd.dupAcks + 1 && !t.snd.sending && t.snd.phase == Recovery
    && if s.snd.dupAcks == 0
       then && ResentFrom(s, t, s.snd.lastAcked, now)
            && (AllResent(s.snd.rtxq, t.snd.rtxq, t.wire[|s.wire|..], now) <==> NoneExhausted(s.snd.rtxq))
       else && t.wire == s.wire && t.snd.rtxq == s.snd.rtxq && t.snd.open == s.snd.open
            && t.snd.lastAcked == s.snd.lastAcked && t.snd.window == s.snd.window && t.rcv == s.rcv
  }

  /** From the oldest packet on, all are resent exactly if none is exhausted. */
  lemma AllResentIff(s: Sys, t: Sys, from: nat, now: nat)
    requires AllResentAt(s, t, from, now) && forall i :: 0 <= i < |s.snd.rtxq| ==> from <= s.snd.rtxq[i].pkt.sn
    ensures AllResent(s.snd.rtxq, t.snd.rtxq, t.wire[|s.wire|..], now) <==> NoneExhausted(s.snd.rtxq)
  {
    var q := s.snd.rtxq;
    if NoneExhausted(q) {
      forall i | 0 <= i < |q|
        ensures t.snd.rtxq[i] == Entry(q[i].pkt.(ts := now), q[i].retries + 1)
        ensures t.snd.rtxq[i].pkt in t.wire[|s.wire|..]
      {
        assert ResentAt(s, t, from, now, i) && RetriesLeft(q, from, i);
      }
    } else {
      var i :| 0 <= i < |q| && q[i].retries >= MAX_RETRY;
      assert ResentAt(s, t, from, now, i) && !RetriesLeft(q, from, i);
    }
  }

  lemma DuplicateIs(s: Sys, a: Ack, now: nat)
    requires a in s.acks && a.ack == s.snd.lastAcked
    ensures var s1 := s.(snd := Sampled(s.snd, a, now), samples := Samples(s, a, now));
            OnAck(s, a, now) == if s.snd.dupAcks == 0 then RecoveryRtx(s1, 1, a.ack, now)
                                else s1.(snd := Recovering(s1.snd, s1.snd.dupAcks + 1))
  {
    assert s.wire + [] == s.wire;
  }

  /** The estimate has no part in what is resent. */
  lemma ResentAside(s: Sys, s1: Sys, t: Sys, from: nat, now: nat)
    requires s1 == s.(snd := s.snd.(estimate := s1.snd.estimate), samples := s1.samples)
    requires ResentFrom(s1, t, from, now)
    ensures ResentFrom(s, t, from, now)
  {
    forall i | 0 <= i < |s.snd.rtxq| ensures ResentAt(s, t, from, now, i) {
      assert ResentAt(s1, t, from, now, i);
    }
  }

  lemma QueueFromLastAcked(s: Sys)
    requires Inv(s)
    ensures forall i :: 0 <= i < |s.snd.rtxq| ==> s.snd.lastAcked <= s.snd.rtxq[i].pkt.sn
  {
  }

  lemma FirstDuplicate(s: Sys, s1: Sys, now: nat)
    requires Inv(s) && Inv(s1) && s.snd.dupAcks == 0
    requires s1 == s.(snd := s.snd.(estimate := s1.snd.estimate), samples := s1.samples)
    ensures Duplicate(s, RecoveryRtx(s1, 1, s.snd.lastAcked, now), now)
  {
    var t := RecoveryRtx(s1, 1, s.snd.lastAcked, now);
    RecoveryRtxResends(s1, 1, s.snd.lastAcked, now);
    ResentAside(s, s1, t, s.snd.lastAcked, now);
    QueueFromLastAcked(s);
    AllResentIff(s, t, s.snd.lastAcked, now);
  }

  lemma LaterDuplicate(s: Sys, s1: Sys, now: nat)
    requires s.snd.dupAcks != 0
    requires s1 == s.(snd := s.snd.(estimate := s1.snd.estimate), samples := s1.samples)
    ensures Duplicate(s, s1.(snd := Recovering(s1.snd, s1.snd.dupAcks + 1)), now)
  {
  }

  lemma DuplicateStep(s: Sys, a: Ack, now: nat)
    requires Inv(s) && a in s.acks && a.ack == s.snd.lastAcked
    ensures Duplicate(s, OnAck(s, a, now), now)
  {
    DuplicateIs(s, a, now);
    SampleKeepsInv(s, a, now);
    var s1 := s.(snd := Sampled(s.snd, a, now), samples := Samples(s, a, now));
    if s.snd.dupAcks == 0 {
      FirstDuplicate(s, s1, now);
    } else {
      LaterDuplicate(s, s1, now);
    }
  }

  /** What a duplicate ACK does in every run. */
  lemma DuplicateAckResends(events: seq<Event>, a: Ack, now: nat)
    requires a in Run(events).acks && a.ack == Run(events).snd.lastAcked
    ensures Duplicate(Run(events), Run(events + [AckArrives(a, now)]), now)
  {
    EveryRunKeepsInv(events);
    RunSnoc(events, AckArrives(a, now));
    DuplicateStep(Run(events), a, now);
  }

  // ---------------------------------------------------------------- round trips

  /** Every ACK carries the stamp of a packet sent. */
  ghost predicate AcksCarryStamps(s: Sys) {
    forall a :: a in s.acks ==> exists p :: p in s.wire && p.ts == a.ts
  }

  lemma StepGrows(s: Sys, ev: Event)
    ensures s.wire <= Step(s, ev).wire
    ensures !ev.DataArrives? ==> Step(s, ev).acks == s.acks
    ensures !ev.AckArrives? ==> Step(s, ev).samples == s.samples
  {
  }

  lemma StepKeepsStamps(s: Sys, ev: Event)
    requires AcksCarryStamps(s)
    ensures AcksCarryStamps(Step(s, ev))
  {
    var t := Step(s, ev);
    StepGrows(s, ev);
    assert forall p :: p in s.wire ==> p in t.wire;
    forall a | a in t.acks ensures exists p :: p in t.wire && p.ts == a.ts {
      if a in s.acks {
        var p :| p in s.wire && p.ts == a.ts;
        assert p in t.wire;
      } else {
        assert ev.DataArrives? && ev.p in s.wire && a == t.acks[|s.acks|] && a.ts == ev.p.ts;
      }
    }
  }

  /** In every run each ACK carries the stamp of a packet that was sent. */
  lemma {:induction false} AckStampsAreSent(events: seq<Event>)
    ensures AcksCarryStamps(Run(events))
  {
    if events != [] {
      AckStampsAreSent(events[..|events| - 1]);
      StepKeepsStamps(Run(events[..|events| - 1]), events[|events| - 1]);
    }
  }

  lemma ElapsedMod(ts: nat, now: nat)
    ensures (now - ts) % Rto.U32 == 0 <==> now % Rto.U32 == ts % Rto.U32
    ensures (((now - ts) % Rto.U32) + ts) % Rto.U32 == now % Rto.U32
    ensures ts < now < ts + 0x1_0000_0000 ==> (now - ts) % Rto.U32 == now - ts
  {
    var m := (now - ts) % Rto.U32;
    var k := (now - ts) / Rto.U32;
    assert now == ts + m + k * Rto.U32;
  }

  /** Whether an ACK is measured: it is not old, is stamped, and the clocks differ. */
  ghost predicate Measured(s: Sys, a: Ack, now: nat) {
    a.ack >= s.snd.lastAcked && a.ts != 0 && now % 0x1_0000_0000 != a.ts % 0x1_0000_0000
  }

  /** The measured round trip takes the stamp to the present, on a 32-bit clock; less than a
      turn of the clock after the stamp it is the time elapsed. */
  ghost predicate Measures(m: nat, a: Ack, now: nat) {
    && 0 < m < 0x1_0000_0000 && (m + a.ts) % 0x1_0000_0000 == now % 0x1_0000_0000
    && (a.ts < now < a.ts + 0x1_0000_0000 ==> m + a.ts == now)
  }

  ghost predicate SampledBy(s: Sys, samples: seq<nat>, a: Ack, now: nat) {
    if Measured(s, a, now)
    then && |samples| == |s.samples| + 1 && samples[..|s.samples|] == s.samples
         && Measures(samples[|s.samples|], a, now)
    else samples == s.samples
  }

  lemma SampleStep(s: Sys, a: Ack, now: nat)
    ensures SampledBy(s, Samples(s, a, now), a, now)
  {
    ElapsedMod(a.ts, now);
  }

  /** In every run an ACK adds one sample if and only if it is measured, and that is the time
      since its stamp. */
  lemma SampleIsElapsedTime(events: seq<Event>, a: Ack, now: nat)
    requires a in Run(events).acks
    ensures SampledBy(Run(events), Run(events + [AckArrives(a, now)]).samples, a, now)
  {
    RunSnoc(events, AckArrives(a, now));
    SampleStep(Run(events), a, now);
  }

  /** No other event adds a sample. */
  lemma OnlyAcksAreMeasured(events: seq<Event>, ev: Event)
    requires !ev.AckArrives? || ev.a !in Run(events).acks
    ensures Run(events + [ev]).samples == Run(events).samples
  {
    RunSnoc(events, ev);
    StepGrows(Run(events), ev);
  }
}
