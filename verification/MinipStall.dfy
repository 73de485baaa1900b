/**
When a MINIP connection falls silent.  Retransmission is meant to recover from any loss; this
says exactly from which states it cannot: when everything in flight is lost, the sender never
puts another packet on the wire.
*/
module MinipStall {
  import opened Bytes
  import opened Minip
  import opened MinipSystem
  import opened MinipExchange

  /** Nothing arrives any more: only the user, the timer and the two ends act. */
  ghost predicate Quiet(events: seq<Event>) {
    forall i :: 0 <= i < |events| ==> !events[i].DataArrives? && !events[i].AckArrives?
  }

  /** Whatever the user and the timer do, nothing more is sent. */
  ghost predicate Silent(events: seq<Event>) {
    forall more :: Quiet(more) ==> Run(events + more).wire == Run(events).wire
  }

  ghost predicate MaySend(snd: Sender) {
    snd.open && snd.sending && snd.window > 0
  }

  /** The timer would send packet `i` of the queue again: it is above lastAcked and neither it nor
      one between has used up its retries. */
  ghost predicate Resendable(snd: Sender, i: nat) {
    i < |snd.rtxq| && snd.rtxq[i].pkt.sn > snd.lastAcked && RetriesLeft(snd.rtxq, snd.lastAcked + 1, i)
  }

  ghost predicate Stalled(snd: Sender) {
    !MaySend(snd) && forall i: nat :: !Resendable(snd, i)
  }

  // ---------------------------------------------------------------- a stall is for good

  lemma {:induction false} CountedOnce(pkts: seq<Packet>, p: Packet)
    requires p in pkts
    ensures Count(pkts, p.sn) > 0
  {
    if pkts[0] != p {
      CountedOnce(pkts[1..], p);
    }
  }

  /** With nothing to resend the timer sends nothing and changes no packet. */
  lemma StalledTimer(s: Sys, t: Sys, now: nat)
    requires s.snd.rtxq != [] && Stalled(s.snd) && ResentFrom(s, t, s.snd.lastAcked + 1, now)
    ensures t.snd.rtxq == s.snd.rtxq && t.wire == s.wire
  {
    var q, extra := s.snd.rtxq, t.wire[|s.wire|..];
    forall i | 0 <= i < |q| ensures t.snd.rtxq[i] == q[i] && Count(t.wire, q[i].pkt.sn) == Count(s.wire, q[i].pkt.sn) {
      assert ResentAt(s, t, s.snd.lastAcked + 1, now, i) && !Resendable(s.snd, i);
    }
    assert t.wire == s.wire + extra;
    if extra != [] {
      assert extra[0] in extra;
      var i :| 0 <= i < |t.snd.rtxq| && extra[0] == t.snd.rtxq[i].pkt;
      CountedOnce(extra, extra[0]);
      CountConcat(s.wire, extra, q[i].pkt.sn);
      assert false;
    }
  }

  lemma TimerKeepsStall(s: Sys, t: Sys, now: nat)
    requires Stalled(s.snd) && TimedOut(s, t, now)
    ensures Stalled(t.snd) && t.wire == s.wire
  {
    if s.snd.rtxq != [] {
      StalledTimer(s, t, now);
      forall i: nat ensures !Resendable(t.snd, i) {
        assert !Resendable(s.snd, i);
      }
    }
  }

  lemma StillNotResendable(snd: Sender, snd': Sender)
    requires Stalled(snd) && snd' == snd.(open := false)
    ensures Stalled(snd')
  {
    forall i: nat ensures !Resendable(snd', i) {
      assert !Resendable(snd, i);
    }
  }

  lemma StepKeepsStall(s: Sys, ev: Event)
    requires Inv(s) && Stalled(s.snd) && !ev.DataArrives? && !ev.AckArrives?
    ensures var t := Step(s, ev); Stalled(t.snd) && t.wire == s.wire
  {
    match ev
    case Read(avail, now) => NothingRead(s, avail, now);
    case TimerFires(now) =>
      TimerStep(s, now);
      TimerKeepsStall(s, OnTimer(s, now), now);
    case SenderCloses => StillNotResendable(s.snd, s.snd.(open := false));
    case ReceiverCloses =>
  }

  lemma {:induction false} StallStays(events: seq<Event>, more: seq<Event>)
    requires Stalled(Run(events).snd) && Quiet(more)
    ensures Stalled(Run(events + more).snd) && Run(events + more).wire == Run(events).wire
  {
    if more == [] {
      assert events + more == events;
    } else {
      var front, ev := more[..|more| - 1], more[|more| - 1];
      StallStays(events, front);
      assert events + more == (events + front) + [ev];
      RunSnoc(events + front, ev);
      EveryRunKeepsInv(events + front);
      StepKeepsStall(Run(events + front), ev);
    }
  }

  // ---------------------------------------------------------------- otherwise something is sent

  lemma SenderCanSend(events: seq<Event>)
    requires MaySend(Run(events).snd)
    ensures Run(events + [Read([0], 0)]).wire != Run(events).wire
  {
    ReadSendsWindow(events, [0], 0);
    var s, t := Run(events), Run(events + [Read([0], 0)]);
    var pkts := t.wire[|s.wire|..];
    assert pkts == [] ==> Flatten(Payloads(pkts)) == [];
  }

  lemma TimerCanSend(events: seq<Event>, i: nat)
    requires Resendable(Run(events).snd, i)
    ensures Run(events + [TimerFires(0)]).wire != Run(events).wire
  {
    TimerResends(events, 0);
    var s, t := Run(events), Run(events + [TimerFires(0)]);
    assert ResentAt(s, t, s.snd.lastAcked + 1, 0, i);
  }

  /** In every run, once nothing arrives any more, nothing is ever sent again if and only if the
      sender may not send and the timer finds nothing to resend. */
  lemma SilentIffStalled(events: seq<Event>)
    ensures Silent(events) <==> Stalled(Run(events).snd)
  {
    var snd := Run(events).snd;
    if Stalled(snd) {
      forall more | Quiet(more) ensures Run(events + more).wire == Run(events).wire {
        StallStays(events, more);
      }
    } else if MaySend(snd) {
      SenderCanSend(events);
      assert Quiet([Read([0], 0)]);
    } else {
      var i: nat :| Resendable(snd, i);
      TimerCanSend(events, i);
      assert Quiet([TimerFires(0)]);
    }
  }

  lemma FirstAbove(s: Sys, first: nat)
    requires Inv(s) && first == if s.progressed then 0 else 1
    ensures forall i :: 0 <= i < |s.snd.rtxq| ==> (s.snd.rtxq[i].pkt.sn > s.snd.lastAcked <==> i >= first)
  {
    assert forall i :: 0 <= i < |s.snd.rtxq| ==> s.snd.rtxq[i].pkt.sn == Base(s.snd) + i;
  }

  /** The first packet above lastAcked decides. */
  lemma FirstDecides(snd: Sender, first: nat)
    requires forall i :: 0 <= i < |snd.rtxq| ==> (snd.rtxq[i].pkt.sn > snd.lastAcked <==> i >= first)
    ensures (exists i: nat :: Resendable(snd, i)) <==> |snd.rtxq| > first && snd.rtxq[first].retries < MAX_RETRY
  {
    var q := snd.rtxq;
    if |q| > first && q[first].retries < MAX_RETRY {
      assert RetriesLeft(q, snd.lastAcked + 1, first);
      assert Resendable(snd, first);
    } else {
      forall i: nat ensures !Resendable(snd, i) {
        if i < |q| && i >= first {
          assert !RetriesLeft(q, snd.lastAcked + 1, i);
        }
      }
    }
  }

  /** Which states these are.  Once an ACK above lastAcked has arrived: the queue is empty or its
      first packet has used up its retries.  Before: the timer skips the first packet, so there
      is no second one or that has used them up. */
  lemma StalledStates(events: seq<Event>)
    ensures var s := Run(events);
            var first := if s.progressed then 0 else 1;
            Stalled(s.snd) <==> !MaySend(s.snd) && (|s.snd.rtxq| <= first || s.snd.rtxq[first].retries >= MAX_RETRY)
  {
    EveryRunKeepsInv(events);
    var s := Run(events);
    var first := if s.progressed then 0 else 1;
    FirstAbove(s, first);
    FirstDecides(s.snd, first);
  }

  // ---------------------------------------------------------------- two ways to get there

  lemma EntriesBelow(e: Entry, from: nat, now: nat)
    requires e.pkt.sn < from
    ensures EntriesRtx([e], from, now) == Rtx([e], [], true)
  {
    assert [e][1..] == [] && EntriesRtx([], from, now) == Rtx([], [], true);
  }

  lemma FirstRead()
    ensures var s := Run([Read([0], 0)]);
            && s.snd.rtxq == [Entry(Packet(DATA0, 0, [0]), 0)] && s.snd.len == 1 && s.snd.lastAcked == DATA0
            && s.snd.open && !s.progressed && s.output == [] && s.input == [0]
  {
    assert [] + [Read([0], 0)] == [Read([0], 0)];
    RunSnoc([], Read([0], 0));
    ReadOneByte(INIT);
  }

  /** One packet is out and the timer has fired. */
  lemma FirstLost()
    ensures var s := Run([Read([0], 0), TimerFires(3000)]);
            && !s.snd.sending && |s.snd.rtxq| == 1 && !s.progressed
            && s.snd.open && s.output == [] && s.input == [0]
  {
    FirstRead();
    var e1, e2 := Read([0], 0), TimerFires(3000);
    assert [e1] + [e2] == [e1, e2];
    RunSnoc([e1], e2);
    TimerIs(Run([e1]), 3000);
    EntriesBelow(Run([e1]).snd.rtxq[0], DATA0 + 1, 3000);
  }

  /** One packet is sent and lost, and the timer fires: the packet is not sent again, and the
      sender, recovering, reads no more. */
  lemma LostFirstPacket()
    ensures var events := [Read([0], 0), TimerFires(3000)];
            Silent(events) && Run(events).snd.open && Run(events).output == [] && Run(events).input == [0]
  {
    var events := [Read([0], 0), TimerFires(3000)];
    FirstLost();
    StalledStates(events);
    SilentIffStalled(events);
  }

  /** Two packets are delivered, and the ACK of the first arrives behind that of the second. */
  ghost predicate BothAcked(s: Sys) {
    && s.snd.open && s.snd.rtxq == [] && s.snd.nextSeq == DATA0 + 2 && s.snd.lastAcked == DATA0 + 1
    && s.snd.dupAcks == 0 && s.rcv == Receiver(DATA0 + 2, true) && Ack(DATA0 + 1, 0) in s.acks
  }

  lemma TwoDelivered(events: seq<Event>) returns (more: seq<Event>)
    requires Sent(Run(events), 2)
    ensures var s := Run(more);
            && s.snd == Run(events).snd && s.rcv == Receiver(DATA0 + 2, true)
            && Ack(DATA0 + 1, 0) in s.acks && Ack(DATA0 + 2, 0) in s.acks
  {
    var e1 := events + [DataArrives(OneByte(0), 1)];
    DataIsAnswered(events, OneByte(0), 1);
    more := e1 + [DataArrives(OneByte(1), 1)];
    DataIsAnswered(e1, OneByte(1), 1);
  }

  lemma TwoAcked(events: seq<Event>) returns (more: seq<Event>)
    requires Sent(Run(events), 2)
    ensures BothAcked(Run(more))
  {
    var e2 := TwoDelivered(events);
    more := e2 + [AckArrives(Ack(DATA0 + 2, 0), 0)];
    GoodAckResumes(e2, Ack(DATA0 + 2, 0), 0);
    RunSnoc(e2, AckArrives(Ack(DATA0 + 2, 0), 0));
  }

  /** Both ends are open and all is delivered and acknowledged, but nothing more is sent. */
  ghost predicate SilentThoughDone(events: seq<Event>) {
    var s := Run(events);
    && Silent(events) && s.snd.open && s.rcv.open
    && s.snd.rtxq == [] && s.rcv.nextRecv == s.snd.nextSeq
  }

  lemma LateAckStalls(events: seq<Event>)
    requires BothAcked(Run(events))
    ensures SilentThoughDone(events + [AckArrives(Ack(DATA0 + 1, 0), 0)])
  {
    var after := events + [AckArrives(Ack(DATA0 + 1, 0), 0)];
    DuplicateAckResends(events, Ack(DATA0 + 1, 0), 0);
    assert Run(after).snd.rtxq == [];
    StalledStates(after);
    SilentIffStalled(after);
  }

  /** An ACK overtaken by the next one counts as a duplicate and can stop the sender for good. */
  lemma OvertakenAck()
    ensures exists events :: SilentThoughDone(events)
  {
    SentReached(2);
    var s :| Sent(s, 2);
    var events :| Run(events) == s;
    var acked := TwoAcked(events);
    LateAckStalls(acked);
  }
}
