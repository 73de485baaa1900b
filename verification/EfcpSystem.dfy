/**
Two EFCP endpoints of one data run and the network between them, which may lose, duplicate
and reorder data and control PDUs.  A run is any sequence of events; an event that is not
enabled changes nothing.
*/
module EfcpSystem {
  import opened Bytes
  import opened EfcpSender
  import opened EfcpSenderRuns
  import opened EfcpReceiver
  import opened EfcpReceiverRuns

  datatype Sys = Sys(s: Side, r: RSide)

  datatype NetEvent =
    | UserWrites(data: seq<Byte>, writtenAt: nat)
    | RtxExpires(rtxAt: nat, tr: nat)
    | DataArrives(p: Pdu, dataAt: nat)
    | CtlArrives(c: Ctrl, ctlAt: nat)
    | AExpires(aAt: nat)

  function NewSys(cfg: Config): Sys {
    Sys(NewSide(cfg), NewRSide(cfg))
  }

  function NetStep(cfg: Config, z: Sys, ev: NetEvent): Sys {
    match ev
    case UserWrites(data, now) => z.(s := OnWrite(z.s, data, now))
    case RtxExpires(now, tr) => z.(s := OnRtx(z.s, now, tr, cfg.max))
    case DataArrives(p, now) => if p in z.s.wire then z.(r := RStep(cfg, z.r, Arrives(p, now))) else z
    case CtlArrives(c, now) => if c in z.r.ctl then z.(s := OnControl(z.s, c, now, cfg.max)) else z
    case AExpires(now) => z.(r := RStep(cfg, z.r, AFires(now)))
  }

  function NetRun(cfg: Config, events: seq<NetEvent>): Sys {
    if events == [] then NewSys(cfg)
    else NetStep(cfg, NetRun(cfg, events[..|events| - 1]), events[|events| - 1])
  }

  // ---------------------------------------------------------------- invariant

  ghost predicate NoForgery(arrived: set<Pdu>, wire: seq<Pdu>) {
    forall p :: p in arrived ==> p in wire
  }

  /** The sender's right edge lies at or below every edge still to come. */
  ghost predicate EdgesAgree(cfg: Config, snd: Sender, rcv: Receiver, ctl: seq<Ctrl>) {
    && snd.maxSeqNrSent <= snd.sndRt
    && (forall c :: c in ctl && c.sn > snd.lastRcvCtl ==> snd.sndRt <= c.rwe)
    && (if rcv.drfRequired then snd.sndRt == cfg.seq0 + cfg.credit
        else snd.sndRt <= rcv.rwe && cfg.seq0 < rcv.lwe)
  }

  ghost predicate AckedBelow(acked: set<nat>, rcv: Receiver) {
    forall n :: n in acked ==> !rcv.drfRequired && n <= rcv.lwe
  }

  ghost predicate SysInv(cfg: Config, z: Sys) {
    && Inv(cfg, z.s) && RInv(cfg, z.r)
    && NoForgery(z.r.arrived, z.s.wire)
    && EdgesAgree(cfg, z.s.snd, z.r.rcv, z.r.ctl)
    && AckedBelow(z.s.acked, z.r.rcv)
  }

  // ---------------------------------------------------------------- the receiver moves

  /** A receiver step never moves an edge back, and what it sends carries the new edges. */
  lemma RStepForward(cfg: Config, y: RSide, ev: REvent)
    requires RInv(cfg, y)
    ensures var y' := RStep(cfg, y, ev);
            && y.rcv.lwe <= y'.rcv.lwe && y.ctl <= y'.ctl && y.posted <= y'.posted
            && (forall c :: c in y'.ctl ==> c in y.ctl || (c.ack == y'.rcv.lwe && c.rwe == y'.rcv.rwe))
            && (y'.rcv.drfRequired ==> y.rcv.drfRequired)
  {
    var y' := RStep(cfg, y, ev);
    match ev
    case Arrives(p, now) =>
      DrainIsOk(y.rcv.seqq, p.sn, RingPush([], p));
      DrainIsOk(SeqqPush(y.rcv.seqq, QEntry(p, now)), y.rcv.lwe, []);
    case AFires(now) =>
      AExpireIsOk(y.rcv.seqq, y.rcv.lwe, [], cfg.a, now);
  }

  lemma FirstAccept(cfg: Config, y: RSide, ev: REvent)
    requires RInv(cfg, y) && y.rcv.drfRequired && !RStep(cfg, y, ev).rcv.drfRequired
    ensures ev.Arrives? && RStep(cfg, y, ev).rcv.lwe == ev.p.sn
  {
  }

  lemma ReceiverMoves(cfg: Config, z: Sys, ev: REvent)
    requires SysInv(cfg, z) && (ev.Arrives? ==> ev.p in z.s.wire)
    ensures SysInv(cfg, z.(r := RStep(cfg, z.r, ev)))
  {
    RStepKeepsRInv(cfg, z.r, ev);
    RStepForward(cfg, z.r, ev);
    var r' := RStep(cfg, z.r, ev);
    if z.r.rcv.drfRequired && !r'.rcv.drfRequired {
      FirstAccept(cfg, z.r, ev);
      assert Genuine(ev.p, cfg.seq0, z.s.sdus);
    }
    assert NoForgery(r'.arrived, z.s.wire);
    assert EdgesAgree(cfg, z.s.snd, r'.rcv, r'.ctl);
  }

  // ---------------------------------------------------------------- the sender moves

  lemma CtlOrdered(ctl: seq<Ctrl>, credit: nat, c: Ctrl, d: Ctrl)
    requires CtlExact(ctl, credit) && c in ctl && d in ctl && c.sn < d.sn
    ensures c.rwe < d.rwe
  {
  }

  /** A control PDU that is old, or acknowledges what is not queued, moves nothing. */
  lemma IdleControl(x: Side, c: Ctrl, now: nat, max: nat)
    requires !Acts(x.snd, c) && c.kind.AckAndFc?
    ensures OnControl(x, c, now, max) ==
            x.(snd := x.snd.(lastRcvCtl := if c.sn <= x.snd.lastRcvCtl then x.snd.lastRcvCtl else c.sn))
  {
    assert x.wire + [] == x.wire && x.firsts + [] == x.firsts;
    assert x.acked + {} == x.acked;
  }

  lemma EdgesAfter(cfg: Config, z: Sys, c: Ctrl, snd: Sender)
    requires EdgesAgree(cfg, z.s.snd, z.r.rcv, z.r.ctl) && EdgesExact(cfg, z.r)
    requires c in z.r.ctl && c.sn > z.s.snd.lastRcvCtl
    requires snd.sndRt == c.rwe && snd.lastRcvCtl == c.sn && snd.maxSeqNrSent <= Max(z.s.snd.maxSeqNrSent, c.rwe)
    ensures EdgesAgree(cfg, snd, z.r.rcv, z.r.ctl) && z.s.snd.sndRt <= snd.sndRt
  {
    forall d | d in z.r.ctl && d.sn > c.sn ensures c.rwe <= d.rwe {
      CtlOrdered(z.r.ctl, cfg.credit, c, d);
    }
  }

  lemma AckedAfter(cfg: Config, z: Sys, c: Ctrl)
    requires Inv(cfg, z.s) && AckedBelow(z.s.acked, z.r.rcv) && EdgesExact(cfg, z.r)
    requires c in z.r.ctl && c.sn > z.s.snd.lastRcvCtl
    ensures AckedBelow(AckPart(z.s, c).acked, z.r.rcv)
  {
    AckPartKeeps(cfg, z.s, c);
    forall n | n in AckPart(z.s, c).acked ensures !z.r.rcv.drfRequired && n <= z.r.rcv.lwe {
      if n !in z.s.acked {
        assert n in AckPart(z.s, c).acked - z.s.acked;
      }
    }
  }

  lemma ControlMoves(cfg: Config, z: Sys, c: Ctrl, now: nat)
    requires SysInv(cfg, z) && c in z.r.ctl
    ensures var s' := OnControl(z.s, c, now, cfg.max);
            && SysInv(cfg, z.(s := s')) && z.s.snd.sndRt <= s'.snd.sndRt
  {
    ControlKeepsInv(cfg, z.s, c, now);
    assert c.kind.AckAndFc?;
    if !Acts(z.s.snd, c) {
      IdleControl(z.s, c, now, cfg.max);
    } else {
      WindowKeepsInv(cfg, z.s, c, now);
      EdgesAfter(cfg, z, c, OnControl(z.s, c, now, cfg.max).snd);
      AckedAfter(cfg, z, c);
    }
  }

  lemma WriteMoves(cfg: Config, z: Sys, data: seq<Byte>, now: nat)
    requires SysInv(cfg, z)
    ensures SysInv(cfg, z.(s := OnWrite(z.s, data, now)))
    ensures OnWrite(z.s, data, now).snd.sndRt == z.s.snd.sndRt
  {
    WriteKeepsInv(cfg, z.s, data, now);
  }

  lemma RtxMoves(cfg: Config, z: Sys, now: nat, tr: nat)
    requires SysInv(cfg, z)
    ensures SysInv(cfg, z.(s := OnRtx(z.s, now, tr, cfg.max)))
    ensures OnRtx(z.s, now, tr, cfg.max).snd.sndRt == z.s.snd.sndRt
  {
    RtxKeepsInv(cfg, z.s, now, tr);
  }

  // ---------------------------------------------------------------- runs

  lemma NetStepKeeps(cfg: Config, z: Sys, ev: NetEvent)
    requires SysInv(cfg, z)
    ensures SysInv(cfg, NetStep(cfg, z, ev))
    ensures z.s.snd.sndRt <= NetStep(cfg, z, ev).s.snd.sndRt
  {
    match ev
    case UserWrites(data, now) => WriteMoves(cfg, z, data, now);
    case RtxExpires(now, tr) => RtxMoves(cfg, z, now, tr);
    case DataArrives(p, now) => if p in z.s.wire { ReceiverMoves(cfg, z, Arrives(p, now)); }
    case CtlArrives(c, now) => if c in z.r.ctl { ControlMoves(cfg, z, c, now); }
    case AExpires(now) => ReceiverMoves(cfg, z, AFires(now));
  }

  lemma {:induction false} EveryNetRunKeeps(cfg: Config, events: seq<NetEvent>)
    ensures SysInv(cfg, NetRun(cfg, events))
  {
    if events != [] {
      EveryNetRunKeeps(cfg, events[..|events| - 1]);
      NetStepKeeps(cfg, NetRun(cfg, events[..|events| - 1]), events[|events| - 1]);
    }
  }

  // ---------------------------------------------------------------- main results

  /** After the first accepted PDU the sender's right edge never exceeds the receiver's, no
      event moves it back, and so no PDU on the wire meets the overrun branch. */
  lemma WindowAgreement(cfg: Config, events: seq<NetEvent>, ev: NetEvent)
    ensures var z := NetRun(cfg, events);
            && (!z.r.rcv.drfRequired ==> z.s.snd.sndRt <= z.r.rcv.rwe)
            && (!z.r.rcv.drfRequired ==> forall p :: p in z.s.wire ==> p.sn <= z.r.rcv.rwe)
            && z.s.snd.sndRt <= NetStep(cfg, z, ev).s.snd.sndRt
  {
    EveryNetRunKeeps(cfg, events);
    NetStepKeeps(cfg, NetRun(cfg, events), ev);
  }

  ghost predicate Posted(posted: seq<Pdu>, n: nat) {
    exists i :: 0 <= i < |posted| && posted[i].sn == n
  }

  /** Every PDU acknowledged has been posted, or comes before the first one accepted. */
  ghost predicate AckSafe(acked: set<nat>, posted: seq<Pdu>) {
    forall n :: n in acked ==> posted != [] && (n < posted[0].sn || Posted(posted, n))
  }

  /** An acknowledgement takes out of the retransmission queue only PDUs the receiver has
      posted, or PDUs before the first one it accepted. */
  lemma AckSafety(cfg: Config, events: seq<NetEvent>)
    requires RingSuffices(cfg)
    ensures var z := NetRun(cfg, events); AckSafe(z.s.acked, z.r.posted)
  {
    EveryNetRunKeeps(cfg, events);
    var z := NetRun(cfg, events);
    forall n | n in z.s.acked
      ensures z.r.posted != [] && (n < z.r.posted[0].sn || Posted(z.r.posted, n))
    {
      var i := n - z.r.posted[0].sn;
      if 0 <= i {
        assert z.r.posted[i].sn == n;
      }
    }
  }

  function Datas(pdus: seq<Pdu>): (r: seq<seq<Byte>>)
    ensures |r| == |pdus| && forall i :: 0 <= i < |r| ==> r[i] == pdus[i].data
  {
    seq(|pdus|, i requires 0 <= i < |pdus| => pdus[i].data)
  }

  /** Index, in the data written, of the first data posted. */
  function FirstIndex(cfg: Config, z: Sys): int {
    if z.r.posted == [] then 0 else z.r.posted[0].sn - cfg.seq0 - 1
  }

  lemma PostedIsGenuine(cfg: Config, z: Sys, i: nat)
    requires SysInv(cfg, z) && i < |z.r.posted|
    ensures Genuine(z.r.posted[i], cfg.seq0, z.s.sdus)
  {
    assert z.r.posted[i] in z.r.posted;
    assert z.r.posted[i] in z.s.wire;
  }

  /** What the receiver has posted is one contiguous run of what the sender's user wrote. */
  ghost predicate Contiguous(cfg: Config, z: Sys) {
    var k := FirstIndex(cfg, z);
    && 0 <= k && k + |z.r.posted| <= |z.s.sdus|
    && Datas(z.r.posted) == z.s.sdus[k..k + |z.r.posted|]
  }

  lemma OrderedIsContiguous(cfg: Config, z: Sys)
    requires Ordered(z.r)
    requires forall i :: 0 <= i < |z.r.posted| ==> Genuine(z.r.posted[i], cfg.seq0, z.s.sdus)
    ensures Contiguous(cfg, z)
  {
    var posted, k := z.r.posted, FirstIndex(cfg, z);
    if posted != [] {
      var last := posted[|posted| - 1];
      assert last.sn == posted[0].sn + |posted| - 1;
      assert forall i :: 0 <= i < |posted| ==> posted[i].sn - cfg.seq0 - 1 == k + i;
    }
  }

  lemma ContiguousDelivery(cfg: Config, events: seq<NetEvent>)
    requires RingSuffices(cfg)
    ensures Contiguous(cfg, NetRun(cfg, events))
  {
    EveryNetRunKeeps(cfg, events);
    var z := NetRun(cfg, events);
    forall i | 0 <= i < |z.r.posted| ensures Genuine(z.r.posted[i], cfg.seq0, z.s.sdus) {
      PostedIsGenuine(cfg, z, i);
    }
    OrderedIsContiguous(cfg, z);
  }

  // ---------------------------------------------------------------- when the ring is too short

  lemma NetSnoc(cfg: Config, events: seq<NetEvent>, ev: NetEvent)
    ensures NetRun(cfg, events + [ev]) == NetStep(cfg, NetRun(cfg, events), ev)
  {
    assert (events + [ev])[..|events|] == events;
  }

  /** PDU 1 is accepted and acknowledged, and `j` PDUs have been sent. */
  ghost predicate Primed(cfg: Config, z: Sys, j: nat) {
    && SysInv(cfg, z) && InBurst(cfg, z.r, 0)
    && z.s.snd.maxSeqNrSent == z.s.snd.seqNrToSend == cfg.seq0 + j
    && z.s.snd.sndRt == cfg.seq0 + 1 + cfg.credit && z.s.snd.lastRcvCtl == 1
    && z.s.dropped == {}
    && forall i :: 1 <= i <= j ==> Probe(cfg, i) in z.s.wire
  }

  ghost predicate Reaches(cfg: Config, z: Sys) {
    exists events :: NetRun(cfg, events) == z
  }

  lemma ReachesNext(cfg: Config, z: Sys, ev: NetEvent)
    requires Reaches(cfg, z)
    ensures Reaches(cfg, NetStep(cfg, z, ev))
  {
    var events :| NetRun(cfg, events) == z;
    NetSnoc(cfg, events, ev);
  }

  lemma FirstWrite(cfg: Config)
    requires cfg.credit >= 1
    ensures var z := NetStep(cfg, NewSys(cfg), UserWrites(PROBE, 0));
            && z.s.wire == [Probe(cfg, 1)] && z.s.snd.rtxq == [RtxEntry(Probe(cfg, 1), 0, 0)]
            && z.s.snd.maxSeqNrSent == z.s.snd.seqNrToSend == cfg.seq0 + 1 && z.s.snd.cwq == []
            && z.r == NewRSide(cfg) && z.s.snd.lastRcvCtl == 0 && z.s.dropped == {}
  {
  }

  function FirstCtl(cfg: Config): Ctrl {
    Ctrl(AckAndFc, 1, cfg.seq0 + 1, cfg.seq0 + 1 + cfg.credit)
  }

  lemma FirstArrival(cfg: Config)
    ensures var y := RStep(cfg, NewRSide(cfg), Arrives(Probe(cfg, 1), 0));
            InBurst(cfg, y, 0) && y.ctl == [FirstCtl(cfg)]
  {
    BurstBegins(cfg);
  }

  lemma FirstAck(cfg: Config, z: Sys)
    requires SysInv(cfg, z) && InBurst(cfg, z.r, 0) && FirstCtl(cfg) in z.r.ctl
    requires z.s.wire == [Probe(cfg, 1)] && z.s.snd.rtxq == [RtxEntry(Probe(cfg, 1), 0, 0)]
    requires z.s.snd.maxSeqNrSent == z.s.snd.seqNrToSend == cfg.seq0 + 1 && z.s.snd.cwq == []
    requires z.s.snd.lastRcvCtl == 0 && z.s.dropped == {}
    ensures Primed(cfg, NetStep(cfg, z, CtlArrives(FirstCtl(cfg), 0)), 1)
  {
    var c := FirstCtl(cfg);
    assert Acts(z.s.snd, c);
    WindowKeepsInv(cfg, z.s, c, 0);
    ControlMoves(cfg, z, c, 0);
    assert OnControl(z.s, c, 0, cfg.max).snd.maxSeqNrSent == cfg.seq0 + 1;
  }

  lemma ReachedKeeps(cfg: Config, z: Sys)
    requires Reaches(cfg, z)
    ensures SysInv(cfg, z)
  {
    var events :| NetRun(cfg, events) == z;
    EveryNetRunKeeps(cfg, events);
  }

  lemma PrimedBegins(cfg: Config)
    requires cfg.credit >= 1
    ensures exists z :: Reaches(cfg, z) && Primed(cfg, z, 1)
  {
    var z0 := NewSys(cfg);
    assert NetRun(cfg, []) == z0;
    var z1 := NetStep(cfg, z0, UserWrites(PROBE, 0));
    FirstWrite(cfg);
    ReachesNext(cfg, z0, UserWrites(PROBE, 0));
    var z2 := NetStep(cfg, z1, DataArrives(Probe(cfg, 1), 0));
    FirstArrival(cfg);
    ReachesNext(cfg, z1, DataArrives(Probe(cfg, 1), 0));
    ReachedKeeps(cfg, z2);
    FirstAck(cfg, z2);
    ReachesNext(cfg, z2, CtlArrives(FirstCtl(cfg), 0));
  }

  /** A write within the window is sent at once. */
  lemma OpenWrite(cfg: Config, x: Side, data: seq<Byte>)
    requires Inv(cfg, x) && x.snd.maxSeqNrSent == x.snd.seqNrToSend < x.snd.sndRt
    ensures var pdu := NextPdu(x.snd, data);
            var y := OnWrite(x, data, 0);
            && y.wire == x.wire + [pdu] && y.dropped == x.dropped
            && y.snd == Transmit(x.snd.(seqNrToSend := pdu.sn), pdu, 0)
  {
    QueuedWasSent(cfg, x);
    PushAtTail(x.snd.rtxq, RtxEntry(NextPdu(x.snd, data), 0, 0), x.snd.maxSeqNrSent);
  }

  lemma ProbesGrow(cfg: Config, wire: seq<Pdu>, j: nat)
    requires forall i :: 1 <= i <= j ==> Probe(cfg, i) in wire
    ensures forall i :: 1 <= i <= j + 1 ==> Probe(cfg, i) in wire + [Probe(cfg, j + 1)]
  {
  }

  lemma PrimedStep(cfg: Config, z: Sys, j: nat)
    requires Primed(cfg, z, j) && j <= cfg.credit
    ensures Primed(cfg, NetStep(cfg, z, UserWrites(PROBE, 0)), j + 1)
  {
    WriteMoves(cfg, z, PROBE, 0);
    OpenWrite(cfg, z.s, PROBE);
    assert NextPdu(z.s.snd, PROBE) == Probe(cfg, j + 1);
    ProbesGrow(cfg, z.s.wire, j);
  }

  ghost predicate ReachesPrimed(cfg: Config, j: nat) {
    exists z :: Reaches(cfg, z) && Primed(cfg, z, j)
  }

  lemma PrimedNext(cfg: Config, j: nat)
    requires ReachesPrimed(cfg, j) && j <= cfg.credit
    ensures ReachesPrimed(cfg, j + 1)
  {
    var z :| Reaches(cfg, z) && Primed(cfg, z, j);
    PrimedStep(cfg, z, j);
    ReachesNext(cfg, z, UserWrites(PROBE, 0));
  }

  lemma {:induction false} PrimedReachable(cfg: Config, j: nat)
    requires 1 <= j <= cfg.credit + 1 && cfg.credit >= 1
    ensures ReachesPrimed(cfg, j)
  {
    if j == 1 {
      PrimedBegins(cfg);
    } else {
      PrimedReachable(cfg, j - 1);
      PrimedNext(cfg, j - 1);
    }
  }

  lemma {:induction false} BurstReachable(cfg: Config, z: Sys, k: nat)
    requires !RingSuffices(cfg) && k <= TO_POST_LENGTH
    requires Reaches(cfg, z) && Primed(cfg, z, TO_POST_LENGTH + 2)
    ensures exists y :: Reaches(cfg, z.(r := y)) && InBurst(cfg, y, k)
  {
    if k > 0 {
      BurstReachable(cfg, z, k - 1);
      var y :| Reaches(cfg, z.(r := y)) && InBurst(cfg, y, k - 1);
      BurstStep(cfg, y, k);
      ReachesNext(cfg, z.(r := y), DataArrives(Probe(cfg, k + 2), 0));
      assert Reaches(cfg, z.(r := RStep(cfg, y, Arrives(Probe(cfg, k + 2), 0))));
    } else {
      assert z.(r := z.r) == z;
    }
  }

  lemma {:induction false} FoundIn(q: seq<RtxEntry>, sn: nat)
    requires Ascending(q) && sn in Sns(q)
    ensures Found(q, sn)
  {
    var i :| 0 <= i < |q| && q[i].pdu.sn == sn;
    if i > 0 {
      assert q[1..][i - 1] == q[i];
      FoundIn(q[1..], sn);
    }
  }

  lemma LostLeaves(cfg: Config, x: Side, c: Ctrl, lost: nat)
    requires Inv(cfg, x) && Acts(x.snd, c) && c.kind.AckAndFc? && c.ack == lost
    requires lost in Sns(x.snd.rtxq)
    ensures lost in OnControl(x, c, 0, cfg.max).acked
  {
    WindowKeepsInv(cfg, x, c, 0);
    AckPartKeeps(cfg, x, c);
    AckedPrefixExact(x.snd.rtxq, lost);
  }

  /** The receiver has acknowledged a PDU its ring has lost. */
  ghost predicate Lost(cfg: Config, y: RSide, c: Ctrl) {
    && c in y.ctl && c.kind.AckAndFc? && c.sn > 1
    && c.ack == cfg.seq0 + 2 + TO_POST_LENGTH
    && !Posted(y.posted, c.ack) && y.posted != [] && y.posted[0].sn <= c.ack
  }

  lemma BurstLoses(cfg: Config, y: RSide)
    requires !RingSuffices(cfg) && InBurst(cfg, y, TO_POST_LENGTH) && RInv(cfg, y)
    ensures exists c :: Lost(cfg, RStep(cfg, y, Arrives(Probe(cfg, 2), 0)), c)
  {
    var y' := RStep(cfg, y, Arrives(Probe(cfg, 2), 0));
    RingLoses(cfg, y);
    RStepForward(cfg, y, Arrives(Probe(cfg, 2), 0));
    RStepKeepsRInv(cfg, y, Arrives(Probe(cfg, 2), 0));
    var c := y'.ctl[|y'.ctl| - 1];
    assert y'.ctl[0] == y.ctl[0];
    assert Lost(cfg, y', c);
  }

  /** Everything is sent, and the ring has just lost the last PDU. */
  ghost predicate AfterLoss(cfg: Config, z: Sys, c: Ctrl) {
    && Reaches(cfg, z) && Lost(cfg, z.r, c)
    && z.s.snd.maxSeqNrSent == z.s.snd.seqNrToSend == c.ack && z.s.snd.lastRcvCtl == 1
    && z.s.dropped == {} && c.ack !in z.s.acked
    && (forall i :: 1 <= i <= TO_POST_LENGTH + 2 ==> Probe(cfg, i) in z.s.wire)
    && z.r.rcv.lwe == c.ack && z.r.rcv.rwe == c.ack + cfg.credit && z.r.rcv.seqq == [] && !z.r.rcv.drfRequired
    && |z.r.posted| == 1 + TO_POST_LENGTH
    && forall i :: 0 <= i < |z.r.posted| ==> z.r.posted[i].sn == cfg.seq0 + 1 + i
  }

  lemma LostInBurst(cfg: Config, z: Sys, y: RSide)
    requires !RingSuffices(cfg) && Primed(cfg, z, TO_POST_LENGTH + 2)
    requires Reaches(cfg, z.(r := y)) && InBurst(cfg, y, TO_POST_LENGTH)
    ensures exists z', c :: AfterLoss(cfg, z', c)
  {
    ReachedKeeps(cfg, z.(r := y));
    BurstLoses(cfg, y);
    RingLoses(cfg, y);
    ReachesNext(cfg, z.(r := y), DataArrives(Probe(cfg, 2), 0));
    var y' := RStep(cfg, y, Arrives(Probe(cfg, 2), 0));
    var c :| Lost(cfg, y', c);
    assert AfterLoss(cfg, z.(r := y'), c);
  }

  lemma LossReachable(cfg: Config)
    requires !RingSuffices(cfg)
    ensures exists z, c :: AfterLoss(cfg, z, c)
  {
    PrimedReachable(cfg, TO_POST_LENGTH + 2);
    var z :| Reaches(cfg, z) && Primed(cfg, z, TO_POST_LENGTH + 2);
    BurstReachable(cfg, z, TO_POST_LENGTH);
    var y :| Reaches(cfg, z.(r := y)) && InBurst(cfg, y, TO_POST_LENGTH);
    LostInBurst(cfg, z, y);
  }

  lemma LostActs(cfg: Config, z: Sys, c: Ctrl)
    requires AfterLoss(cfg, z, c)
    ensures SysInv(cfg, z) && c.ack in Sns(z.s.snd.rtxq) && Acts(z.s.snd, c) && c.rwe == c.ack + cfg.credit
  {
    ReachedKeeps(cfg, z);
    assert InSpan(c.ack, cfg.seq0, z.s.snd.maxSeqNrSent);
    assert InOne(c.ack, Sns(z.s.snd.rtxq), z.s.acked, z.s.dropped);
    FoundIn(z.s.snd.rtxq, c.ack);
  }

  /** The sender takes the acknowledgement of the PDU that was lost. */
  lemma UnsafeRun(cfg: Config)
    requires !RingSuffices(cfg)
    ensures exists z :: Reaches(cfg, z) && !AckSafe(z.s.acked, z.r.posted)
  {
    LossReachable(cfg);
    var z, c :| AfterLoss(cfg, z, c);
    LostActs(cfg, z, c);
    LostLeaves(cfg, z.s, c, c.ack);
    ReachesNext(cfg, z, CtlArrives(c, 0));
    var z' := NetStep(cfg, z, CtlArrives(c, 0));
    assert !AckSafe(z'.s.acked, z'.r.posted);
  }

  /** What an acknowledgement removes has been posted or precedes the first accepted PDU, in
      every run, exactly when A is zero or the credit fits the ring of PDUs to post. */
  lemma AckSafetyIff(cfg: Config)
    ensures (forall z :: Reaches(cfg, z) ==> AckSafe(z.s.acked, z.r.posted)) <==> RingSuffices(cfg)
  {
    if RingSuffices(cfg) {
      forall z | Reaches(cfg, z) ensures AckSafe(z.s.acked, z.r.posted) {
        var events :| NetRun(cfg, events) == z;
        AckSafety(cfg, events);
      }
    } else {
      UnsafeRun(cfg);
    }
  }

  // ---------------------------------------------------------------- a gap in what is posted

  /** The user data after the lost PDU: a complete SDU of one byte. */
  const NEXT: seq<Byte> := [7, 1]

  /** The acknowledgement opens the window for one more PDU. */
  lemma WindowOpens(cfg: Config, z: Sys, c: Ctrl)
    requires AfterLoss(cfg, z, c) && cfg.credit > 0
    ensures var s := OnControl(z.s, c, 0, cfg.max);
            && Inv(cfg, s) && s.sdus == z.s.sdus && s.snd.drfFlag
            && s.snd.maxSeqNrSent == s.snd.seqNrToSend == c.ack < s.snd.sndRt
  {
    LostActs(cfg, z, c);
    WindowKeepsInv(cfg, z.s, c, 0);
  }

  lemma NextOnWire(cfg: Config, x: Side, ack: nat)
    requires Inv(cfg, x) && x.snd.maxSeqNrSent == x.snd.seqNrToSend == ack < x.snd.sndRt
    ensures var y := OnWrite(x, NEXT, 0); Pdu(ack + 1, true, NEXT) in y.wire && y.sdus == x.sdus + [NEXT]
  {
    OpenWrite(cfg, x, NEXT);
    assert NextPdu(x.snd, NEXT) == Pdu(ack + 1, true, NEXT);
  }

  lemma NextIsPosted(cfg: Config, y: RSide, p: Pdu)
    requires cfg.a != 0 && cfg.credit > 0 && y.rcv.seqq == [] && !y.rcv.drfRequired
    requires p.sn == y.rcv.lwe + 1 && y.rcv.rwe == y.rcv.lwe + cfg.credit
    ensures RStep(cfg, y, Arrives(p, 0)).posted == y.posted + [p]
  {
    assert Drain([], p.sn, RingPush([], p)) == Drained([], p.sn, [p]);
  }

  ghost predicate AllProbes(sdus: seq<seq<Byte>>, n: nat) {
    |sdus| == n && forall i :: 0 <= i < n ==> sdus[i] == PROBE
  }

  lemma WrittenIsProbe(cfg: Config, x: Side, n: nat)
    requires Inv(cfg, x) && |x.sdus| == n && forall i :: 1 <= i <= n ==> Probe(cfg, i) in x.wire
    ensures AllProbes(x.sdus, n)
  {
    forall i | 0 <= i < n ensures x.sdus[i] == PROBE {
      var p := Probe(cfg, i + 1);
      assert p in x.wire;
      assert Genuine(p, cfg.seq0, x.sdus);
    }
  }

  /** Everything up to the lost PDU is posted, then the one after it. */
  ghost predicate HasGap(cfg: Config, z: Sys) {
    && Reaches(cfg, z) && |z.r.posted| == TO_POST_LENGTH + 2 && z.r.posted[0].sn == cfg.seq0 + 1
    && z.r.posted[TO_POST_LENGTH + 1].data == NEXT
    && |z.s.sdus| == TO_POST_LENGTH + 3 && z.s.sdus[TO_POST_LENGTH + 2] == NEXT
    && forall i :: 0 <= i < TO_POST_LENGTH + 2 ==> z.s.sdus[i] == PROBE
  }

  lemma GapFrom(cfg: Config, x: Side, y: RSide, ack: nat)
    requires cfg.a != 0 && Inv(cfg, x) && Reaches(cfg, Sys(x, y))
    requires AllProbes(x.sdus, TO_POST_LENGTH + 2) && x.snd.maxSeqNrSent == x.snd.seqNrToSend == ack < x.snd.sndRt
    requires y.rcv.seqq == [] && !y.rcv.drfRequired && y.rcv.lwe == ack && y.rcv.rwe == ack + cfg.credit
    requires |y.posted| == TO_POST_LENGTH + 1 && y.posted[0].sn == cfg.seq0 + 1 && cfg.credit > 0
    ensures exists z :: HasGap(cfg, z)
  {
    var x', p := OnWrite(x, NEXT, 0), Pdu(ack + 1, true, NEXT);
    NextOnWire(cfg, x, ack);
    ReachesNext(cfg, Sys(x, y), UserWrites(NEXT, 0));
    NextIsPosted(cfg, y, p);
    ReachesNext(cfg, Sys(x', y), DataArrives(p, 0));
    assert HasGap(cfg, Sys(x', RStep(cfg, y, Arrives(p, 0))));
  }

  lemma GapAfterLoss(cfg: Config, z: Sys, c: Ctrl)
    requires !RingSuffices(cfg) && AfterLoss(cfg, z, c)
    ensures exists z' :: HasGap(cfg, z')
  {
    ReachedKeeps(cfg, z);
    WrittenIsProbe(cfg, z.s, TO_POST_LENGTH + 2);
    WindowOpens(cfg, z, c);
    ReachesNext(cfg, z, CtlArrives(c, 0));
    GapFrom(cfg, OnControl(z.s, c, 0, cfg.max), z.r, c.ack);
  }

  lemma GapRun(cfg: Config)
    requires !RingSuffices(cfg)
    ensures exists z :: HasGap(cfg, z)
  {
    LossReachable(cfg);
    var z, c :| AfterLoss(cfg, z, c);
    GapAfterLoss(cfg, z, c);
  }

  lemma GapIsNotContiguous(cfg: Config, z: Sys)
    requires HasGap(cfg, z)
    ensures !Contiguous(cfg, z)
  {
    var n := TO_POST_LENGTH + 1;
    assert Datas(z.r.posted)[n] == NEXT && z.s.sdus[0..n + 1][n] == PROBE;
  }

  /** What is posted is one contiguous run of what was written, in every run, exactly when A
      is zero or the credit fits the ring of PDUs to post. */
  lemma ContiguousIff(cfg: Config)
    ensures (forall z :: Reaches(cfg, z) ==> Contiguous(cfg, z)) <==> RingSuffices(cfg)
  {
    if RingSuffices(cfg) {
      forall z | Reaches(cfg, z) ensures Contiguous(cfg, z) {
        var events :| NetRun(cfg, events) == z;
        ContiguousDelivery(cfg, events);
      }
    } else {
      GapRun(cfg);
      var z :| HasGap(cfg, z);
      GapIsNotContiguous(cfg, z);
    }
  }
}
