/** The EFCP handlers, updating the state vectors and the queues in place. */
module EfcpConnection {
  import opened Bytes
  import opened EfcpSender
  import opened EfcpReceiver
  import opened Lists

  // ---------------------------------------------------------------- partial scans

  /** Where the scan of the retransmission queue stops decides what the push does. */
  lemma {:induction false} InsertMiddleAt(q: seq<RtxEntry>, e: RtxEntry, i: nat)
    requires i <= |q| && forall k :: 0 <= k < i ==> e.pdu.sn < q[k].pdu.sn
    requires i < |q| ==> q[i].pdu.sn <= e.pdu.sn
    ensures InsertMiddle(q, e) ==
            if i < |q| && q[i].pdu.sn < e.pdu.sn then Pushed(q[..i + 1] + [e] + q[i + 1..], true)
            else Pushed(q, false)
  {
    if i > 0 {
      InsertMiddleAt(q[1..], e, i - 1);
      if i < |q| && q[i].pdu.sn < e.pdu.sn {
        InsertInTail(q, e, i);
      } else {
        HeadAndTail(q);
      }
    } else if q != [] && q[0].pdu.sn < e.pdu.sn {
      assert [q[0], e] + q[1..] == q[..1] + [e] + q[1..];
    }
  }

  /** Where the scan of the resequencing queue stops decides what the push does. */
  lemma {:induction false} SeqqInsertAt(q: seq<QEntry>, e: QEntry, i: nat)
    requires i <= |q| && forall k :: 0 <= k < i ==> e.pdu.sn < q[k].pdu.sn
    requires i < |q| ==> q[i].pdu.sn <= e.pdu.sn
    ensures SeqqInsert(q, e) ==
            if i < |q| && q[i].pdu.sn < e.pdu.sn then q[..i + 1] + [e] + q[i + 1..] else q
  {
    if i > 0 {
      SeqqInsertAt(q[1..], e, i - 1);
      if i < |q| && q[i].pdu.sn < e.pdu.sn {
        InsertInTail(q, e, i);
      } else {
        HeadAndTail(q);
      }
    } else if q != [] && q[0].pdu.sn < e.pdu.sn {
      assert [q[0], e] + q[1..] == q[..1] + [e] + q[1..];
    }
  }

  function Without<T>(q: seq<T>, i: nat): seq<T>
    requires i < |q|
  {
    q[..i] + q[i + 1..]
  }

  function Joined(front: seq<RtxEntry>, resent: seq<Pdu>, dropped: seq<nat>, rest: Scan): Scan {
    Scan(front + rest.q, resent + rest.resent, dropped + rest.dropped)
  }

  lemma JoinedEmpty(rest: Scan)
    ensures Joined([], [], [], rest) == rest
  {
  }

  lemma JoinedEnd(q: seq<RtxEntry>, i: nat, resent: seq<Pdu>, dropped: seq<nat>)
    requires i <= |q|
    ensures Joined(q[..i], resent, dropped, Scan(q[i..], [], [])) == Scan(q, resent, dropped)
  {
    assert q[..i] + q[i..] == q;
  }

  lemma JoinedDrop(front: seq<RtxEntry>, resent: seq<Pdu>, dropped: seq<nat>, sn: nat, rest: Scan)
    ensures Joined(front, resent, dropped, Scan(rest.q, rest.resent, [sn] + rest.dropped))
         == Joined(front, resent, dropped + [sn], rest)
  {
    assert dropped + ([sn] + rest.dropped) == (dropped + [sn]) + rest.dropped;
  }

  lemma JoinedKeep(front: seq<RtxEntry>, resent: seq<Pdu>, dropped: seq<nat>, e: RtxEntry, rest: Scan)
    ensures Joined(front, resent, dropped, Scan([e] + rest.q, [e.pdu] + rest.resent, rest.dropped))
         == Joined(front + [e], resent + [e.pdu], dropped, rest)
  {
    assert front + ([e] + rest.q) == (front + [e]) + rest.q;
    assert resent + ([e.pdu] + rest.resent) == (resent + [e.pdu]) + rest.resent;
  }

  /** One entry of the timer's scan, done in place. */
  lemma ScanStep(q: seq<RtxEntry>, i: nat, resent: seq<Pdu>, dropped: seq<nat>, now: nat, tr: nat, max: nat)
    requires i < |q| && TimeToRtx(q[i], tr) <= now
    ensures var cur, gone, kept := Retry(q[i]), Without(q, i), q[i := Retry(q[i])];
            Joined(q[..i], resent, dropped, RtxScan(q[i..], now, tr, max)) ==
            if cur.retries >= max
            then Joined(gone[..i], resent, dropped + [cur.pdu.sn], RtxScan(gone[i..], now, tr, max))
            else Joined(kept[..i + 1], resent + [cur.pdu], dropped, RtxScan(kept[i + 1..], now, tr, max))
  {
    var cur, rest := Retry(q[i]), RtxScan(q[i + 1..], now, tr, max);
    assert q[i..][0] == q[i] && q[i..][1..] == q[i + 1..];
    if cur.retries >= max {
      JoinedDrop(q[..i], resent, dropped, cur.pdu.sn, rest);
      assert Without(q, i)[..i] == q[..i] && Without(q, i)[i..] == q[i + 1..];
    } else {
      JoinedKeep(q[..i], resent, dropped, cur, rest);
      assert q[i := cur][..i + 1] == q[..i] + [cur] && q[i := cur][i + 1..] == q[i + 1..];
    }
  }

  lemma {:induction false} MaxOfSnoc(sns: seq<nat>, sn: nat)
    ensures MaxOf(sns + [sn]) == Max(MaxOf(sns), sn)
  {
    if sns == [] {
      assert sns + [sn] == [sn];
      assert MaxOf([sn]) == Max(sn, MaxOf([]));
    } else {
      MaxOfSnoc(sns[1..], sn);
      assert (sns + [sn])[1..] == sns[1..] + [sn];
    }
  }

  lemma DeliverOne(s: Sender, sent: seq<Pdu>, now: nat)
    requires s.cwq != [] && s.maxSeqNrSent < s.sndRt
    ensures Prefixed(sent, EfcpSender.CwqDeliver(s, now))
         == Prefixed(sent + [s.cwq[0]],
                     EfcpSender.CwqDeliver(Transmit(s.(cwq := s.cwq[1..]), s.cwq[0], now), now))
  {
    var rest := EfcpSender.CwqDeliver(Transmit(s.(cwq := s.cwq[1..]), s.cwq[0], now), now);
    assert sent + ([s.cwq[0]] + rest.1) == (sent + [s.cwq[0]]) + rest.1;
  }

  function JoinedBack(rest: Scan, back: seq<RtxEntry>, resent: seq<Pdu>, dropped: seq<nat>): Scan {
    Scan(rest.q + back, resent + rest.resent, dropped + rest.dropped)
  }

  lemma JoinedEmptyBack(rest: Scan)
    ensures JoinedBack(rest, [], [], []) == rest
  {
  }

  lemma JoinedBackEnd(q: seq<RtxEntry>, i: nat, resent: seq<Pdu>, dropped: seq<nat>)
    requires i <= |q|
    ensures JoinedBack(Scan(q[..i], [], []), q[i..], resent, dropped) == Scan(q, resent, dropped)
  {
    assert q[..i] + q[i..] == q;
  }

  lemma JoinedBackDrop(rest: Scan, back: seq<RtxEntry>, resent: seq<Pdu>, dropped: seq<nat>, sn: nat)
    ensures JoinedBack(Scan(rest.q, rest.resent, [sn] + rest.dropped), back, resent, dropped)
         == JoinedBack(rest, back, resent, dropped + [sn])
  {
    assert dropped + ([sn] + rest.dropped) == (dropped + [sn]) + rest.dropped;
  }

  lemma JoinedBackKeep(rest: Scan, back: seq<RtxEntry>, resent: seq<Pdu>, dropped: seq<nat>, e: RtxEntry)
    ensures JoinedBack(Scan(rest.q + [e], [e.pdu] + rest.resent, rest.dropped), back, resent, dropped)
         == JoinedBack(rest, [e] + back, resent + [e.pdu], dropped)
  {
    assert (rest.q + [e]) + back == rest.q + ([e] + back);
    assert resent + ([e.pdu] + rest.resent) == (resent + [e.pdu]) + rest.resent;
  }

  /** One entry of the scan from the tail, done in place. */
  lemma NackStep(q: seq<RtxEntry>, i: nat, resent: seq<Pdu>, dropped: seq<nat>, sn: nat, max: nat)
    requires 0 < i <= |q| && sn <= q[i - 1].pdu.sn
    ensures var cur := Retry(q[i - 1]);
            var gone, kept := Without(q, i - 1), q[i - 1 := cur];
            JoinedBack(NackScan(q[..i], sn, max), q[i..], resent, dropped) ==
            if cur.retries >= max
            then JoinedBack(NackScan(gone[..i - 1], sn, max), gone[i - 1..], resent, dropped + [cur.pdu.sn])
            else JoinedBack(NackScan(kept[..i - 1], sn, max), kept[i - 1..], resent + [cur.pdu], dropped)
  {
    var cur, rest := Retry(q[i - 1]), NackScan(q[..i - 1], sn, max);
    assert q[..i][i - 1] == q[i - 1] && q[..i][..i - 1] == q[..i - 1];
    if cur.retries >= max {
      JoinedBackDrop(rest, q[i..], resent, dropped, cur.pdu.sn);
      assert Without(q, i - 1)[..i - 1] == q[..i - 1] && Without(q, i - 1)[i - 1..] == q[i..];
    } else {
      JoinedBackKeep(rest, q[i..], resent, dropped, cur);
      assert q[i - 1 := cur][..i - 1] == q[..i - 1] && q[i - 1 := cur][i - 1..] == [cur] + q[i..];
    }
  }

  // ---------------------------------------------------------------- the connection

  class Dtp {
    const credit: nat
    const dataRtxMax: nat
    const a: nat

    var seqNrToSend: nat
    var maxSeqNrSent: nat
    var sndLftWin: nat
    var sndRtWindEdge: nat
    var lastRcvCtlSeq: nat
    var windowClosed: bool
    var drfFlag: bool
    var cwq: seq<Pdu>
    var rtxq: seq<RtxEntry>
    var len: int
    var dropPdus: nat

    var drfRequired: bool
    var rcvLeftWindowEdge: nat
    var rcvrRtWindEdge: nat
    var lastSndDataAck: nat
    var nextSndCtlSeq: nat
    var seqq: seq<QEntry>
    var toPost: seq<Pdu>

    function Snd(): Sender
      reads this
    {
      Sender(seqNrToSend, maxSeqNrSent, sndLftWin, sndRtWindEdge, lastRcvCtlSeq, windowClosed,
             drfFlag, cwq, rtxq, len, dropPdus)
    }

    function Rcv(): Receiver
      reads this
    {
      Receiver(drfRequired, rcvLeftWindowEdge, rcvrRtWindEdge, lastSndDataAck, nextSndCtlSeq, seqq)
    }

    constructor (seq0: nat, initialCredit: nat, rtxMax: nat, aTimer: nat)
      ensures Snd() == NewSender(seq0, credit) && Rcv() == NewReceiver(credit) && toPost == []
      ensures credit == initialCredit && dataRtxMax == rtxMax && a == aTimer
    {
      credit, dataRtxMax, a := initialCredit, rtxMax, aTimer;
      seqNrToSend, maxSeqNrSent, sndLftWin, sndRtWindEdge := seq0, seq0, 0, seq0 + initialCredit;
      lastRcvCtlSeq, windowClosed, drfFlag := 0, false, true;
      cwq, rtxq, len, dropPdus := [], [], 0, 0;
      drfRequired, rcvLeftWindowEdge, rcvrRtWindEdge := true, 0, initialCredit;
      lastSndDataAck, nextSndCtlSeq, seqq, toPost := 0, 0, [], [];
    }

    // -------------------------------------------------------------- retransmission queue

    method RtxqueuePushNi(e: RtxEntry) returns (ok: bool)
      modifies `rtxq, `len
      ensures Pushed(rtxq, ok) == RtxPush(old(rtxq), e)
      ensures len == old(len) + if ok then 1 else 0
    {
      var csn := e.pdu.sn;
      if rtxq == [] {
        rtxq, len := [e], len + 1;
        return true;
      }
      var psn := rtxq[|rtxq| - 1].pdu.sn;
      if csn == psn {
        return false;
      }
      if csn > psn {
        rtxq, len := rtxq + [e], len + 1;
        return true;
      }
      var i := 0;
      while i < |rtxq|
        invariant 0 <= i <= |rtxq| && rtxq == old(rtxq) && len == old(len)
        invariant forall k :: 0 <= k < i ==> csn < rtxq[k].pdu.sn
      {
        psn := rtxq[i].pdu.sn;
        if csn == psn {
          InsertMiddleAt(rtxq, e, i);
          return false;
        }
        if csn > psn {
          InsertMiddleAt(rtxq, e, i);
          rtxq, len := rtxq[..i + 1] + [e] + rtxq[i + 1..], len + 1;
          return true;
        }
        i := i + 1;
      }
      InsertMiddleAt(rtxq, e, i);
      ok := false;
    }

    method RtxqueueEntriesAck(sn: nat)
      modifies `rtxq, `len
      ensures rtxq == old(rtxq)[AckedPrefix(old(rtxq), sn)..]
      ensures len == old(len) - AckedPrefix(old(rtxq), sn)
    {
      ghost var n := 0;
      while rtxq != [] && rtxq[0].pdu.sn <= sn
        invariant n <= |old(rtxq)| && rtxq == old(rtxq)[n..] && len == old(len) - n
        invariant AckedPrefix(old(rtxq), sn) == n + AckedPrefix(rtxq, sn)
        decreases |rtxq|
      {
        rtxq, len := rtxq[1..], len - 1;
        n := n + 1;
      }
    }

    /** Whether the queue has a time stamp for `sn`. */
    method RtxqueueEntryTimestamp(sn: nat) returns (found: bool)
      ensures found == Found(rtxq, sn)
    {
      var i := 0;
      while i < |rtxq|
        invariant 0 <= i <= |rtxq|
        invariant Found(rtxq, sn) == Found(rtxq[i..], sn)
      {
        assert rtxq[i..][0] == rtxq[i] && rtxq[i..][1..] == rtxq[i + 1..];
        var csn := rtxq[i].pdu.sn;
        if csn > sn {
          return false;
        }
        if csn == sn {
          return true;
        }
        i := i + 1;
      }
      found := false;
    }

    method RtxqueueScan(now: nat, tr: nat) returns (resent: seq<Pdu>, droppedSn: nat)
      modifies `rtxq, `len, `dropPdus
      ensures var scan := RtxScan(old(rtxq), now, tr, dataRtxMax);
              && Scan(rtxq, resent, scan.dropped) == scan && droppedSn == MaxOf(scan.dropped)
              && len == old(len) - |scan.dropped| && dropPdus == old(dropPdus) + |scan.dropped|
    {
      ghost var whole, dropped := RtxScan(rtxq, now, tr, dataRtxMax), [];
      droppedSn, resent := 0, [];
      var i := 0;
      assert rtxq[0..] == rtxq;
      JoinedEmpty(whole);
      while i < |rtxq|
        invariant 0 <= i <= |rtxq| && droppedSn == MaxOf(dropped)
        invariant len == old(len) - |dropped| && dropPdus == old(dropPdus) + |dropped|
        invariant whole == Joined(rtxq[..i], resent, dropped, RtxScan(rtxq[i..], now, tr, dataRtxMax))
        decreases |rtxq| - i
      {
        var cur := rtxq[i];
        if TimeToRtx(cur, tr) > now {
          break;
        }
        ScanStep(rtxq, i, resent, dropped, now, tr, dataRtxMax);
        cur := Retry(cur);
        if cur.retries >= dataRtxMax {
          MaxOfSnoc(dropped, cur.pdu.sn);
          rtxq := Without(rtxq, i);
          len, dropPdus := len - 1, dropPdus + 1;
          dropped := dropped + [cur.pdu.sn];
          if cur.pdu.sn > droppedSn {
            droppedSn := cur.pdu.sn;
          }
        } else {
          rtxq := rtxq[i := cur];
          resent := resent + [cur.pdu];
          i := i + 1;
        }
      }
      assert RtxScan(rtxq[i..], now, tr, dataRtxMax) == Scan(rtxq[i..], [], []);
      JoinedEnd(rtxq, i, resent, dropped);
      assert whole == Scan(rtxq, resent, dropped);
    }

    method RtxqueueRtx(now: nat, tr: nat) returns (resent: seq<Pdu>)
      modifies `rtxq, `len, `dropPdus, `sndLftWin
      ensures (Snd(), resent) == RtxTimer(old(Snd()), now, tr, dataRtxMax)
    {
      var droppedSn;
      resent, droppedSn := RtxqueueScan(now, tr);
      if sndLftWin < droppedSn {
        sndLftWin := droppedSn;
      }
    }

    method RtxqueueEntriesNack(sn: nat) returns (resent: seq<Pdu>)
      modifies `rtxq, `len, `dropPdus
      ensures var scan := NackScan(old(rtxq), sn, dataRtxMax);
              && Scan(rtxq, resent, scan.dropped) == scan
              && len == old(len) - |scan.dropped| && dropPdus == old(dropPdus) + |scan.dropped|
    {
      ghost var dropped: seq<nat> := [];
      resent := [];
      var i := |rtxq|;
      assert rtxq[..i] == rtxq && rtxq[i..] == [];
      JoinedEmptyBack(NackScan(rtxq, sn, dataRtxMax));
      while i > 0
        invariant 0 <= i <= |rtxq|
        invariant len == old(len) - |dropped| && dropPdus == old(dropPdus) + |dropped|
        invariant NackScan(old(rtxq), sn, dataRtxMax)
               == JoinedBack(NackScan(rtxq[..i], sn, dataRtxMax), rtxq[i..], resent, dropped)
      {
        var cur := rtxq[i - 1];
        if cur.pdu.sn < sn {
          assert rtxq[..i][i - 1] == cur;
          break;
        }
        NackStep(rtxq, i, resent, dropped, sn, dataRtxMax);
        cur := Retry(cur);
        i := i - 1;
        if cur.retries >= dataRtxMax {
          rtxq := Without(rtxq, i);
          len, dropPdus := len - 1, dropPdus + 1;
          dropped := dropped + [cur.pdu.sn];
        } else {
          rtxq := rtxq[i := cur];
          resent := resent + [cur.pdu];
        }
      }
      assert NackScan(rtxq[..i], sn, dataRtxMax) == Scan(rtxq[..i], [], []);
      JoinedBackEnd(rtxq, i, resent, dropped);
    }

    // -------------------------------------------------------------- sending

    method CwqSendHead(now: nat) returns (pdu: Pdu)
      requires cwq != []
      modifies `cwq, `rtxq, `len, `maxSeqNrSent, `sndLftWin
      ensures pdu == old(cwq)[0]
      ensures Snd() == Transmit(old(Snd()).(cwq := old(cwq)[1..]), pdu, now)
    {
      pdu := cwq[0];
      cwq := cwq[1..];
      var _ := RtxqueuePushNi(RtxEntry(pdu, now, 0));
      maxSeqNrSent := pdu.sn;
      sndLftWin := maxSeqNrSent;
    }

    method CwqDeliver(now: nat) returns (sent: seq<Pdu>)
      modifies `cwq, `rtxq, `len, `maxSeqNrSent, `sndLftWin, `windowClosed
      ensures (Snd(), sent) == EfcpSender.CwqDeliver(old(Snd()), now)
    {
      sent := [];
      ghost var whole := EfcpSender.CwqDeliver(Snd(), now);
      assert sent + whole.1 == whole.1;
      while cwq != [] && maxSeqNrSent < sndRtWindEdge
        invariant Prefixed(sent, EfcpSender.CwqDeliver(Snd(), now)) == whole
        decreases |cwq|
      {
        DeliverOne(Snd(), sent, now);
        var pdu := CwqSendHead(now);
        sent := sent + [pdu];
      }
      windowClosed := cwq != [];
      assert sent + [] == sent;
    }

    method WindowIsClosed(sn: nat) returns (closed: bool)
      modifies `windowClosed
      ensures closed == (sn > sndRtWindEdge)
      ensures windowClosed == (old(windowClosed) || closed)
    {
      closed := false;
      if sn > sndRtWindEdge {
        windowClosed := true;
        closed := true;
      }
    }

    method DtpWrite(data: seq<Byte>, now: nat) returns (sent: seq<Pdu>)
      modifies `seqNrToSend, `maxSeqNrSent, `sndLftWin, `windowClosed, `cwq, `rtxq, `len
      ensures (Snd(), sent) == Write(old(Snd()), data, now)
    {
      seqNrToSend := seqNrToSend + 1;
      var csn := seqNrToSend;
      var pdu := Pdu(csn, drfFlag || sndLftWin == csn - 1, data);
      sent := [];
      var closed := WindowIsClosed(csn);
      if closed {
        cwq := cwq + [pdu];
        return;
      }
      var ok := RtxqueuePushNi(RtxEntry(pdu, now, 0));
      if !ok {
        return;
      }
      maxSeqNrSent := csn;
      sndLftWin := maxSeqNrSent;
      sent := [pdu];
    }

    method SenderAck(sn: nat)
      modifies `rtxq, `len, `sndLftWin
      ensures Snd() == EfcpSender.SenderAck(old(Snd()), sn)
    {
      RtxqueueEntriesAck(sn);
      sndLftWin := sn + 1;
    }

    method UpdateWindowAndRate(rwe: nat, now: nat) returns (sent: seq<Pdu>)
      modifies `sndRtWindEdge, `cwq, `rtxq, `len, `maxSeqNrSent, `sndLftWin, `windowClosed
      ensures (Snd(), sent) == UpdateWindow(old(Snd()), rwe, now)
    {
      sndRtWindEdge := rwe;
      sent := CwqDeliver(now);
    }

    method RcvAck(c: Ctrl)
      modifies `rtxq, `len, `sndLftWin
      ensures Snd() == if Found(old(rtxq), c.ack) then EfcpSender.SenderAck(old(Snd()), c.ack) else old(Snd())
    {
      var found := RtxqueueEntryTimestamp(c.ack);
      if found {
        SenderAck(c.ack);
      }
    }

    method RcvAckAndFlowCtl(c: Ctrl, now: nat) returns (sent: seq<Pdu>)
      modifies `sndRtWindEdge, `cwq, `rtxq, `len, `maxSeqNrSent, `sndLftWin, `windowClosed
      ensures (Snd(), sent) ==
              if Found(old(rtxq), c.ack) then UpdateWindow(EfcpSender.SenderAck(old(Snd()), c.ack), c.rwe, now)
              else (old(Snd()), [])
    {
      sent := [];
      var found := RtxqueueEntryTimestamp(c.ack);
      if !found {
        return;
      }
      SenderAck(c.ack);
      sent := UpdateWindowAndRate(c.rwe, now);
    }

    method RcvNackCtl(c: Ctrl) returns (sent: seq<Pdu>)
      modifies `rtxq, `len, `dropPdus
      ensures var scan := NackScan(old(rtxq), c.ack, dataRtxMax);
              Snd() == Scanned(old(Snd()), scan) && sent == scan.resent
    {
      sent := RtxqueueEntriesNack(c.ack);
    }

    /** The dispatch on the kind, for a PDU that is not old. */
    method RcvByKind(c: Ctrl, now: nat) returns (sent: seq<Pdu>)
      modifies `sndRtWindEdge, `cwq, `rtxq, `len, `maxSeqNrSent, `sndLftWin, `windowClosed, `dropPdus
      ensures (Snd(), sent) ==
              if (c.kind.AckOnly? || c.kind.AckAndFc?) && !Found(old(rtxq), c.ack) then (old(Snd()), [])
              else Dispatch(old(Snd()), c, now, dataRtxMax)
    {
      sent := [];
      match c.kind
      case AckOnly =>
        RcvAck(c);
      case Nack =>
        sent := RcvNackCtl(c);
      case FcOnly =>
        sent := UpdateWindowAndRate(c.rwe, now);
      case AckAndFc =>
        sent := RcvAckAndFlowCtl(c, now);
      case OtherCtrl =>
    }

    method CommonRcvControl(c: Ctrl, now: nat) returns (sent: seq<Pdu>)
      modifies `lastRcvCtlSeq, `sndRtWindEdge, `cwq, `rtxq, `len, `maxSeqNrSent, `sndLftWin, `windowClosed, `dropPdus
      ensures (Snd(), sent) == RcvControl(old(Snd()), c, now, dataRtxMax)
    {
      sent := [];
      if c.sn <= lastRcvCtlSeq {
        return;
      }
      lastRcvCtlSeq := c.sn;
      sent := RcvByKind(c, now);
    }

    // -------------------------------------------------------------- receiving

    method SeqQueuePushNi(e: QEntry)
      modifies `seqq
      ensures seqq == SeqqPush(old(seqq), e)
    {
      var csn := e.pdu.sn;
      if seqq == [] {
        seqq := [e];
        return;
      }
      var psn := seqq[|seqq| - 1].pdu.sn;
      if csn == psn {
        return;
      }
      if csn > psn {
        seqq := seqq + [e];
        return;
      }
      var i := 0;
      while i < |seqq|
        invariant 0 <= i <= |seqq| && seqq == old(seqq)
        invariant forall k :: 0 <= k < i ==> csn < seqq[k].pdu.sn
      {
        psn := seqq[i].pdu.sn;
        if csn == psn {
          SeqqInsertAt(seqq, e, i);
          return;
        }
        if csn > psn {
          SeqqInsertAt(seqq, e, i);
          seqq := seqq[..i + 1] + [e] + seqq[i + 1..];
          return;
        }
        i := i + 1;
      }
      SeqqInsertAt(seqq, e, i);
    }

    method ToPostPush(p: Pdu)
      modifies `toPost
      ensures toPost == RingPush(old(toPost), p)
    {
      if |toPost| < TO_POST_LENGTH {
        toPost := toPost + [p];
      }
    }

    method PostPending() returns (posted: seq<Pdu>)
      modifies `toPost
      ensures posted == old(toPost) && toPost == []
    {
      posted := [];
      while toPost != []
        invariant posted + toPost == old(toPost)
        decreases |toPost|
      {
        posted := posted + [toPost[0]];
        toPost := toPost[1..];
      }
    }

    /** Receiver flow control, then the acknowledgement of the left edge. */
    method SvUpdate(ghost posted: seq<Pdu>) returns (ctl: seq<Ctrl>)
      modifies `rcvrRtWindEdge, `lastSndDataAck, `nextSndCtlSeq
      ensures Outcome(Rcv(), posted, ctl) == EfcpReceiver.SvUpdate(old(Rcv()), credit, posted)
    {
      ctl := [];
      rcvrRtWindEdge := rcvLeftWindowEdge + credit;
      if lastSndDataAck < rcvLeftWindowEdge {
        lastSndDataAck := rcvLeftWindowEdge;
        nextSndCtlSeq := nextSndCtlSeq + 1;
        ctl := [Ctrl(AckAndFc, nextSndCtlSeq, rcvLeftWindowEdge, rcvrRtWindEdge)];
      }
    }

    method ArePdusReady()
      modifies `seqq, `rcvLeftWindowEdge, `toPost
      ensures Drained(seqq, rcvLeftWindowEdge, toPost) == Drain(old(seqq), old(rcvLeftWindowEdge), old(toPost))
    {
      while seqq != [] && seqq[0].pdu.sn == rcvLeftWindowEdge + 1
        invariant Drain(seqq, rcvLeftWindowEdge, toPost)
               == Drain(old(seqq), old(rcvLeftWindowEdge), old(toPost))
        decreases |seqq|
      {
        var pdu := seqq[0].pdu;
        seqq := seqq[1..];
        rcvLeftWindowEdge := pdu.sn;
        ToPostPush(pdu);
      }
    }

    method DtpReceive(p: Pdu, now: nat) returns (posted: seq<Pdu>, ctl: seq<Ctrl>)
      requires toPost == []
      modifies `drfRequired, `rcvLeftWindowEdge, `rcvrRtWindEdge, `lastSndDataAck, `nextSndCtlSeq, `seqq, `toPost
      ensures Outcome(Rcv(), posted, ctl) == Receive(old(Rcv()), p, a, credit, now)
      ensures toPost == []
    {
      posted, ctl := [], [];
      var lwe := rcvLeftWindowEdge;
      if drfRequired {
        if p.drf {
          drfRequired := false;
          rcvLeftWindowEdge := p.sn;
          seqq := [];
          ctl := SvUpdate([p]);
          posted := [p];
        }
        return;
      }
      if p.sn <= lwe || p.sn > rcvrRtWindEdge {
        return;
      }
      if a == 0 {
        var setLftWinEdge := p.sn - lwe <= 1;
        if setLftWinEdge {
          rcvLeftWindowEdge := p.sn;
        }
        ctl := SvUpdate(if setLftWinEdge then [p] else []);
        if setLftWinEdge {
          posted := [p];
        }
        return;
      }
      if p.sn == lwe + 1 {
        rcvLeftWindowEdge := p.sn;
        ToPostPush(p);
      } else {
        SeqQueuePushNi(QEntry(p, now));
      }
      ArePdusReady();
      ctl := SvUpdate(toPost);
      posted := PostPending();
    }

    method ProcessAExpiration(now: nat) returns (posted: seq<Pdu>, ctl: seq<Ctrl>)
      requires toPost == []
      modifies `rcvLeftWindowEdge, `rcvrRtWindEdge, `lastSndDataAck, `nextSndCtlSeq, `seqq, `toPost
      ensures Outcome(Rcv(), posted, ctl) == ATimer(old(Rcv()), a, credit, now)
      ensures toPost == []
    {
      ctl := [];
      var advanced := false;
      while seqq != []
        invariant AExpire(seqq, rcvLeftWindowEdge, toPost, a, now)
               == AExpire(old(seqq), old(rcvLeftWindowEdge), [], a, now)
        invariant old(rcvLeftWindowEdge) <= rcvLeftWindowEdge && rcvrRtWindEdge == old(rcvrRtWindEdge)
        invariant lastSndDataAck == old(lastSndDataAck) && nextSndCtlSeq == old(nextSndCtlSeq)
        invariant advanced == (rcvLeftWindowEdge != old(rcvLeftWindowEdge))
        decreases |seqq|
      {
        var pos := seqq[0];
        if pos.ts + a <= now {
          seqq := seqq[1..];
        } else if pos.pdu.sn == rcvLeftWindowEdge + 1 {
          rcvLeftWindowEdge := pos.pdu.sn;
          seqq := seqq[1..];
          ToPostPush(pos.pdu);
          advanced := true;
        } else {
          break;
        }
      }
      assert AExpire(seqq, rcvLeftWindowEdge, toPost, a, now) == Drained(seqq, rcvLeftWindowEdge, toPost);
      ghost var ring, d := toPost, AExpire(old(seqq), old(rcvLeftWindowEdge), [], a, now);
      assert d == Drained(seqq, rcvLeftWindowEdge, ring);
      posted := PostPending();
      if advanced {
        ctl := SvUpdate(ring);
      }
    }
  }
}
