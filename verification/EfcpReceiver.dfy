/**
The receiving half of an EFCP connection: duplicate and overrun detection, the
resequencing queue, the A-timer, and the ACK and flow-control PDUs it generates.
max_sdu_gap is 0 and retransmission control is on.
*/
module EfcpReceiver {
  import opened EfcpSender

  const TO_POST_LENGTH: nat := 1000

  datatype QEntry = QEntry(pdu: Pdu, ts: nat)

  datatype Receiver = Receiver(
    drfRequired: bool, lwe: nat, rwe: nat, lastSndDataAck: nat, nextSndCtl: nat, seqq: seq<QEntry>)

  datatype Outcome = Outcome(rcv: Receiver, posted: seq<Pdu>, ctl: seq<Ctrl>)

  function NewReceiver(credit: nat): Receiver {
    Receiver(true, 0, credit, 0, 0, [])
  }

  /** Flow-control and acknowledgement policies, run after every accepted PDU. */
  function SvUpdate(r: Receiver, credit: nat, posted: seq<Pdu>): Outcome {
    var t := r.(rwe := r.lwe + credit);
    if t.lastSndDataAck < t.lwe then
      var u := t.(lastSndDataAck := t.lwe, nextSndCtl := t.nextSndCtl + 1);
      Outcome(u, posted, [Ctrl(AckAndFc, u.nextSndCtl, u.lwe, u.rwe)])
    else Outcome(t, posted, [])
  }

  // The scan inserts after the first smaller entry; a PDU below every queued one is lost.
  function SeqqInsert(q: seq<QEntry>, e: QEntry): seq<QEntry> {
    if q == [] || e.pdu.sn == q[0].pdu.sn then q
    else if e.pdu.sn > q[0].pdu.sn then [q[0], e] + q[1..]
    else [q[0]] + SeqqInsert(q[1..], e)
  }

  function SeqqPush(q: seq<QEntry>, e: QEntry): seq<QEntry> {
    if q == [] then [e]
    else
      var last := q[|q| - 1].pdu.sn;
      if e.pdu.sn == last then q
      else if e.pdu.sn > last then q + [e]
      else SeqqInsert(q, e)
  }

  /** The ring of PDUs to post drops what does not fit. */
  function RingPush(ring: seq<Pdu>, p: Pdu): seq<Pdu> {
    if |ring| >= TO_POST_LENGTH then ring else ring + [p]
  }

  datatype Drained = Drained(seqq: seq<QEntry>, lwe: nat, ring: seq<Pdu>)

  function Drain(q: seq<QEntry>, lwe: nat, ring: seq<Pdu>): Drained {
    if q == [] || q[0].pdu.sn != lwe + 1 then Drained(q, lwe, ring)
    else Drain(q[1..], lwe + 1, RingPush(ring, q[0].pdu))
  }

  function Receive(r: Receiver, p: Pdu, a: nat, credit: nat, now: nat): Outcome {
    if r.drfRequired then
      if p.drf then SvUpdate(r.(drfRequired := false, lwe := p.sn, seqq := []), credit, [p])
      else Outcome(r, [], [])
    else if p.sn <= r.lwe || p.sn > r.rwe then Outcome(r, [], [])
    else if a == 0 then
      if p.sn - r.lwe > 1 then SvUpdate(r, credit, []) else SvUpdate(r.(lwe := p.sn), credit, [p])
    else
      var d := if p.sn == r.lwe + 1 then Drain(r.seqq, p.sn, RingPush([], p))
               else Drain(SeqqPush(r.seqq, QEntry(p, now)), r.lwe, []);
      SvUpdate(r.(lwe := d.lwe, seqq := d.seqq), credit, d.ring)
  }

  // The gap is computed on unsigned numbers, so an entry at or below the left edge is far
  // away, not in order.
  function AExpire(q: seq<QEntry>, lwe: nat, ring: seq<Pdu>, a: nat, now: nat): Drained {
    if q == [] then Drained(q, lwe, ring)
    else if q[0].ts + a <= now then AExpire(q[1..], lwe, ring, a, now)
    else if q[0].pdu.sn == lwe + 1 then AExpire(q[1..], lwe + 1, RingPush(ring, q[0].pdu), a, now)
    else Drained(q, lwe, ring)
  }

  function ATimer(r: Receiver, a: nat, credit: nat, now: nat): Outcome {
    var d := AExpire(r.seqq, r.lwe, [], a, now);
    var t := r.(lwe := d.lwe, seqq := d.seqq);
    if d.lwe == r.lwe then Outcome(t, d.ring, []) else SvUpdate(t, credit, d.ring)
  }
}

/** Every run of the receiver against any arrivals and any A-timer schedule. */
module EfcpReceiverRuns {
  import opened Bytes
  import opened EfcpSender
  import opened EfcpReceiver
  import opened EfcpSenderRuns

  /** The receiver with everything that arrived, was posted, and was sent back. */
  datatype RSide = RSide(rcv: Receiver, arrived: set<Pdu>, posted: seq<Pdu>, ctl: seq<Ctrl>)

  datatype REvent =
    | Arrives(p: Pdu, arrivedAt: nat)
    | AFires(firedAt: nat)

  function NewRSide(cfg: Config): RSide {
    RSide(NewReceiver(cfg.credit), {}, [], [])
  }

  function Record(y: RSide, o: Outcome): RSide {
    y.(rcv := o.rcv, posted := y.posted + o.posted, ctl := y.ctl + o.ctl)
  }

  function RStep(cfg: Config, y: RSide, ev: REvent): RSide {
    match ev
    case Arrives(p, now) =>
      Record(y.(arrived := y.arrived + {p}), Receive(y.rcv, p, cfg.a, cfg.credit, now))
    case AFires(now) =>
      Record(y, ATimer(y.rcv, cfg.a, cfg.credit, now))
  }

  function RRun(cfg: Config, events: seq<REvent>): RSide {
    if events == [] then NewRSide(cfg)
    else RStep(cfg, RRun(cfg, events[..|events| - 1]), events[|events| - 1])
  }

  // ---------------------------------------------------------------- invariant

  /** With a non-zero A everything posted goes through the ring. */
  predicate RingSuffices(cfg: Config) {
    cfg.a == 0 || cfg.credit <= TO_POST_LENGTH
  }

  /** PDUs in sequence, from one after `lo` up to `hi`. */
  ghost predicate InSequence(pdus: seq<Pdu>, lo: int, hi: nat) {
    && lo + |pdus| == hi
    && forall i :: 0 <= i < |pdus| ==> pdus[i].sn == lo + 1 + i
  }

  /** What has been posted is one run of consecutive PDUs ending at the left edge. */
  ghost predicate Ordered(y: RSide) {
    if y.rcv.drfRequired then y.posted == []
    else y.posted != [] && InSequence(y.posted, y.posted[0].sn - 1, y.rcv.lwe)
  }

  ghost predicate CtlExact(ctl: seq<Ctrl>, credit: nat) {
    && (forall i :: 0 <= i < |ctl| ==> ctl[i] == Ctrl(AckAndFc, i + 1, ctl[i].ack, ctl[i].ack + credit))
    && (forall i, j :: 0 <= i < j < |ctl| ==> ctl[i].ack < ctl[j].ack)
  }

  ghost predicate EdgesExact(cfg: Config, y: RSide) {
    && y.rcv.nextSndCtl == |y.ctl| && CtlExact(y.ctl, cfg.credit)
    && y.rcv.lastSndDataAck == y.rcv.lwe
    && (y.ctl != [] ==> y.ctl[|y.ctl| - 1].ack == y.rcv.lwe)
    && (forall c :: c in y.ctl ==> c.ack <= y.rcv.lwe)
    && (if y.rcv.drfRequired then y.ctl == [] && y.rcv.lwe == 0 && y.rcv.seqq == []
        else y.rcv.rwe == y.rcv.lwe + cfg.credit)
  }

  ghost predicate Arrived(y: RSide) {
    && (forall e :: e in y.rcv.seqq ==> e.pdu in y.arrived && e.pdu.sn <= y.rcv.rwe)
    && (forall p :: p in y.posted ==> p in y.arrived)
  }

  ghost predicate RInv(cfg: Config, y: RSide) {
    && EdgesExact(cfg, y) && Arrived(y)
    && (cfg.a == 0 ==> y.rcv.seqq == [])
    && (RingSuffices(cfg) ==> Ordered(y))
  }

  // ---------------------------------------------------------------- draining

  ghost predicate DrainOk(q: seq<QEntry>, lwe: nat, ring: seq<Pdu>, d: Drained) {
    && lwe <= d.lwe && (lwe == d.lwe ==> d.ring == ring)
    && (forall e :: e in d.seqq ==> e in q)
    && ring <= d.ring
    && forall p :: p in d.ring[|ring|..] ==> exists e :: e in q && e.pdu == p
  }

  lemma DrainOkStep(q: seq<QEntry>, lwe: nat, ring: seq<Pdu>, p: Pdu, d: Drained)
    requires q != [] && p == q[0].pdu && DrainOk(q[1..], lwe + 1, RingPush(ring, p), d)
    ensures DrainOk(q, lwe, ring, d)
  {
    var ring1 := RingPush(ring, p);
    forall x | x in d.ring[|ring|..] ensures exists e :: e in q && e.pdu == x {
      if x !in d.ring[|ring1|..] {
        var i :| |ring| <= i < |d.ring| && d.ring[i] == x;
        assert i < |ring1| && x == p && q[0] in q;
      } else {
        var e :| e in q[1..] && e.pdu == x;
        assert e in q;
      }
    }
  }

  lemma {:induction false} DrainIsOk(q: seq<QEntry>, lwe: nat, ring: seq<Pdu>)
    ensures DrainOk(q, lwe, ring, Drain(q, lwe, ring))
  {
    if q != [] && q[0].pdu.sn == lwe + 1 {
      DrainIsOk(q[1..], lwe + 1, RingPush(ring, q[0].pdu));
      DrainOkStep(q, lwe, ring, q[0].pdu, Drain(q, lwe, ring));
    }
  }

  lemma {:induction false} AExpireIsOk(q: seq<QEntry>, lwe: nat, ring: seq<Pdu>, a: nat, now: nat)
    ensures DrainOk(q, lwe, ring, AExpire(q, lwe, ring, a, now))
  {
    if q != [] {
      var d := AExpire(q, lwe, ring, a, now);
      if q[0].ts + a <= now {
        AExpireIsOk(q[1..], lwe, ring, a, now);
        forall p | p in d.ring[|ring|..] ensures exists e :: e in q && e.pdu == p {
          var e :| e in q[1..] && e.pdu == p;
          assert e in q;
        }
      } else if q[0].pdu.sn == lwe + 1 {
        AExpireIsOk(q[1..], lwe + 1, RingPush(ring, q[0].pdu), a, now);
        DrainOkStep(q, lwe, ring, q[0].pdu, d);
      }
    }
  }

  /** As long as the ring has room for every number up to `hi`, nothing posted is lost. */
  ghost predicate Room(q: seq<QEntry>, lwe: nat, ring: seq<Pdu>, lo: int, hi: nat) {
    && InSequence(ring, lo, lwe) && lwe <= hi
    && |ring| + (hi - lwe) <= TO_POST_LENGTH
    && forall e :: e in q ==> e.pdu.sn <= hi
  }

  lemma RoomStep(q: seq<QEntry>, lwe: nat, ring: seq<Pdu>, lo: int, hi: nat)
    requires Room(q, lwe, ring, lo, hi) && q != [] && q[0].pdu.sn == lwe + 1
    ensures Room(q[1..], lwe + 1, RingPush(ring, q[0].pdu), lo, hi)
  {
    assert q[0] in q;
    assert RingPush(ring, q[0].pdu) == ring + [q[0].pdu];
  }

  lemma {:induction false} DrainInSequence(q: seq<QEntry>, lwe: nat, ring: seq<Pdu>, lo: int, hi: nat)
    requires Room(q, lwe, ring, lo, hi)
    ensures var d := Drain(q, lwe, ring); InSequence(d.ring, lo, d.lwe)
  {
    if q != [] && q[0].pdu.sn == lwe + 1 {
      RoomStep(q, lwe, ring, lo, hi);
      DrainInSequence(q[1..], lwe + 1, RingPush(ring, q[0].pdu), lo, hi);
    }
  }

  lemma {:induction false} AExpireInSequence(
    q: seq<QEntry>, lwe: nat, ring: seq<Pdu>, a: nat, now: nat, lo: int, hi: nat)
    requires Room(q, lwe, ring, lo, hi)
    ensures var d := AExpire(q, lwe, ring, a, now); InSequence(d.ring, lo, d.lwe)
  {
    if q != [] {
      if q[0].ts + a <= now {
        AExpireInSequence(q[1..], lwe, ring, a, now, lo, hi);
      } else if q[0].pdu.sn == lwe + 1 {
        RoomStep(q, lwe, ring, lo, hi);
        AExpireInSequence(q[1..], lwe + 1, RingPush(ring, q[0].pdu), a, now, lo, hi);
      }
    }
  }

  lemma {:induction false} SeqqInsertKeeps(q: seq<QEntry>, e: QEntry)
    ensures forall x :: x in SeqqInsert(q, e) ==> x in q || x == e
  {
    if q != [] && e.pdu.sn < q[0].pdu.sn {
      SeqqInsertKeeps(q[1..], e);
    }
  }

  // ---------------------------------------------------------------- one handler

  // The state between posting and the policies.
  ghost predicate Advanced(cfg: Config, y: RSide, r: Receiver, posted: seq<Pdu>) {
    && !r.drfRequired && r.nextSndCtl == y.rcv.nextSndCtl && r.lastSndDataAck == y.rcv.lastSndDataAck
    && y.rcv.lwe <= r.lwe && (cfg.a == 0 ==> r.seqq == [])
    && (forall e :: e in r.seqq ==> e.pdu in y.arrived && e.pdu.sn <= r.lwe + cfg.credit)
    && (forall p :: p in posted ==> p in y.arrived)
    && (RingSuffices(cfg) ==>
          if y.rcv.drfRequired then |posted| == 1 && posted[0].sn == r.lwe
          else InSequence(posted, y.rcv.lwe, r.lwe))
  }

  lemma CtlGrows(ctl: seq<Ctrl>, credit: nat, ack: nat)
    requires CtlExact(ctl, credit) && forall c :: c in ctl ==> c.ack < ack
    ensures var c := Ctrl(AckAndFc, |ctl| + 1, ack, ack + credit);
            CtlExact(ctl + [c], credit) && forall d :: d in ctl + [c] ==> d.ack <= ack
  {
    var all := ctl + [Ctrl(AckAndFc, |ctl| + 1, ack, ack + credit)];
    assert forall i :: 0 <= i < |ctl| ==> all[i] == ctl[i] && all[i] in ctl;
  }

  lemma SvUpdateEdges(cfg: Config, y: RSide, r: Receiver, posted: seq<Pdu>)
    requires EdgesExact(cfg, y) && Advanced(cfg, y, r, posted)
    ensures EdgesExact(cfg, Record(y, SvUpdate(r, cfg.credit, posted)))
  {
    if r.lastSndDataAck < r.lwe {
      CtlGrows(y.ctl, cfg.credit, r.lwe);
    } else {
      assert y.ctl + [] == y.ctl;
    }
  }

  lemma OrderedGrows(y: RSide, lwe: nat, posted: seq<Pdu>)
    requires Ordered(y)
    requires if y.rcv.drfRequired then |posted| == 1 && posted[0].sn == lwe
             else InSequence(posted, y.rcv.lwe, lwe)
    ensures var all := y.posted + posted; all != [] && InSequence(all, all[0].sn - 1, lwe)
  {
  }

  lemma SvUpdateKeeps(cfg: Config, y: RSide, r: Receiver, posted: seq<Pdu>)
    requires RInv(cfg, y) && Advanced(cfg, y, r, posted)
    ensures RInv(cfg, Record(y, SvUpdate(r, cfg.credit, posted)))
  {
    SvUpdateEdges(cfg, y, r, posted);
    var y' := Record(y, SvUpdate(r, cfg.credit, posted));
    assert y'.posted == y.posted + posted && y'.rcv.lwe == r.lwe && !y'.rcv.drfRequired;
    if RingSuffices(cfg) {
      OrderedGrows(y, r.lwe, posted);
      assert Ordered(y');
    }
  }

  lemma DrainedArrived(q: seq<QEntry>, lwe: nat, ring: seq<Pdu>, d: Drained, arrived: set<Pdu>, edge: nat)
    requires DrainOk(q, lwe, ring, d)
    requires forall e :: e in q ==> e.pdu in arrived && e.pdu.sn <= edge
    requires forall p :: p in ring ==> p in arrived
    ensures forall e :: e in d.seqq ==> e.pdu in arrived && e.pdu.sn <= edge
    ensures forall p :: p in d.ring ==> p in arrived
  {
    forall p | p in d.ring ensures p in arrived {
      var i :| 0 <= i < |d.ring| && d.ring[i] == p;
      if i >= |ring| {
        assert d.ring[|ring|..][i - |ring|] == p;
        assert p in d.ring[|ring|..];
      } else {
        assert ring[i] == p;
      }
    }
  }

  lemma InOrderAdvances(cfg: Config, y: RSide, p: Pdu)
    requires RInv(cfg, y) && p in y.arrived && !y.rcv.drfRequired
    requires p.sn == y.rcv.lwe + 1 <= y.rcv.rwe && cfg.a != 0
    ensures var d := Drain(y.rcv.seqq, p.sn, RingPush([], p));
            Advanced(cfg, y, y.rcv.(lwe := d.lwe, seqq := d.seqq), d.ring)
  {
    var q, ring := y.rcv.seqq, RingPush([], p);
    assert ring == [p];
    DrainIsOk(q, p.sn, ring);
    var d := Drain(q, p.sn, ring);
    DrainedArrived(q, p.sn, ring, d, y.arrived, y.rcv.rwe);
    if RingSuffices(cfg) {
      DrainInSequence(q, p.sn, ring, y.rcv.lwe, y.rcv.rwe);
    }
  }

  lemma OutOfOrderAdvances(cfg: Config, y: RSide, p: Pdu, now: nat)
    requires RInv(cfg, y) && p in y.arrived && !y.rcv.drfRequired
    requires p.sn <= y.rcv.rwe && cfg.a != 0
    ensures var d := Drain(SeqqPush(y.rcv.seqq, QEntry(p, now)), y.rcv.lwe, []);
            Advanced(cfg, y, y.rcv.(lwe := d.lwe, seqq := d.seqq), d.ring)
  {
    var q := SeqqPush(y.rcv.seqq, QEntry(p, now));
    SeqqInsertKeeps(y.rcv.seqq, QEntry(p, now));
    assert forall e :: e in q ==> e.pdu in y.arrived && e.pdu.sn <= y.rcv.rwe;
    DrainIsOk(q, y.rcv.lwe, []);
    var d := Drain(q, y.rcv.lwe, []);
    DrainedArrived(q, y.rcv.lwe, [], d, y.arrived, y.rcv.rwe);
    if RingSuffices(cfg) {
      DrainInSequence(q, y.rcv.lwe, [], y.rcv.lwe, y.rcv.rwe);
    }
  }

  lemma ArriveKeeps(cfg: Config, y: RSide, p: Pdu, now: nat)
    requires RInv(cfg, y) && p in y.arrived
    ensures RInv(cfg, Record(y, Receive(y.rcv, p, cfg.a, cfg.credit, now)))
  {
    var r := y.rcv;
    if r.drfRequired {
      if p.drf {
        SvUpdateKeeps(cfg, y, r.(drfRequired := false, lwe := p.sn, seqq := []), [p]);
      } else {
        assert Record(y, Outcome(r, [], [])) == y;
      }
    } else if p.sn <= r.lwe || p.sn > r.rwe {
      assert Record(y, Outcome(r, [], [])) == y;
    } else if cfg.a == 0 {
      if p.sn - r.lwe > 1 {
        SvUpdateKeeps(cfg, y, r, []);
      } else {
        SvUpdateKeeps(cfg, y, r.(lwe := p.sn), [p]);
      }
    } else if p.sn == r.lwe + 1 {
      InOrderAdvances(cfg, y, p);
      var d := Drain(r.seqq, p.sn, RingPush([], p));
      SvUpdateKeeps(cfg, y, r.(lwe := d.lwe, seqq := d.seqq), d.ring);
    } else {
      OutOfOrderAdvances(cfg, y, p, now);
      var d := Drain(SeqqPush(r.seqq, QEntry(p, now)), r.lwe, []);
      SvUpdateKeeps(cfg, y, r.(lwe := d.lwe, seqq := d.seqq), d.ring);
    }
  }

  lemma AFiresKeeps(cfg: Config, y: RSide, now: nat)
    requires RInv(cfg, y)
    ensures RInv(cfg, Record(y, ATimer(y.rcv, cfg.a, cfg.credit, now)))
  {
    var q := y.rcv.seqq;
    var d := AExpire(q, y.rcv.lwe, [], cfg.a, now);
    AExpireIsOk(q, y.rcv.lwe, [], cfg.a, now);
    assert d.ring[0..] == d.ring;
    if d.lwe == y.rcv.lwe {
      assert y.posted + [] == y.posted && y.ctl + [] == y.ctl;
    } else {
      if RingSuffices(cfg) {
        AExpireInSequence(q, y.rcv.lwe, [], cfg.a, now, y.rcv.lwe, y.rcv.rwe);
      }
      SvUpdateKeeps(cfg, y, y.rcv.(lwe := d.lwe, seqq := d.seqq), d.ring);
    }
  }

  // ---------------------------------------------------------------- main results

  lemma RStepKeepsRInv(cfg: Config, y: RSide, ev: REvent)
    requires RInv(cfg, y)
    ensures RInv(cfg, RStep(cfg, y, ev))
  {
    match ev
    case Arrives(p, now) => ArriveKeeps(cfg, y.(arrived := y.arrived + {p}), p, now);
    case AFires(now) => AFiresKeeps(cfg, y, now);
  }

  lemma {:induction false} EveryRunKeepsRInv(cfg: Config, events: seq<REvent>)
    ensures RInv(cfg, RRun(cfg, events))
  {
    if events != [] {
      EveryRunKeepsRInv(cfg, events[..|events| - 1]);
      RStepKeepsRInv(cfg, RRun(cfg, events[..|events| - 1]), events[|events| - 1]);
    }
  }

  /** For any arrivals and timer schedule the acknowledgements strictly increase, are
      numbered consecutively, and never exceed the left edge. */
  lemma AcksStrictlyIncrease(cfg: Config, events: seq<REvent>)
    ensures var y := RRun(cfg, events);
            && CtlExact(y.ctl, cfg.credit)
            && (forall c :: c in y.ctl ==> c.ack <= y.rcv.lwe)
            && (!y.rcv.drfRequired ==> y.rcv.rwe == y.rcv.lwe + cfg.credit)
  {
    EveryRunKeepsRInv(cfg, events);
  }

  /** User data of the runs below: the flags byte of a complete, empty SDU. */
  const PROBE: seq<Byte> := [7]

  /** The i-th PDU of the run. */
  function Probe(cfg: Config, i: nat): Pdu {
    Pdu(cfg.seq0 + i, true, PROBE)
  }

  /** PDU 1, then PDUs 3 .. k + 2. */
  function Burst(cfg: Config, k: nat): seq<REvent> {
    if k == 0 then [Arrives(Probe(cfg, 1), 0)] else Burst(cfg, k - 1) + [Arrives(Probe(cfg, k + 2), 0)]
  }

  function Gap(cfg: Config, k: nat): (q: seq<QEntry>)
    ensures |q| == k && forall i :: 0 <= i < k ==> q[i] == QEntry(Probe(cfg, i + 3), 0)
  {
    seq(k, i requires 0 <= i < k => QEntry(Probe(cfg, i + 3), 0))
  }

  lemma RunSnoc(cfg: Config, events: seq<REvent>, ev: REvent)
    ensures RRun(cfg, events + [ev]) == RStep(cfg, RRun(cfg, events), ev)
  {
    assert (events + [ev])[..|events|] == events;
  }

  ghost predicate InBurst(cfg: Config, y: RSide, k: nat) {
    && !y.rcv.drfRequired && y.rcv.seqq == Gap(cfg, k)
    && y.rcv.lwe == cfg.seq0 + 1 && y.rcv.rwe == cfg.seq0 + 1 + cfg.credit
    && y.posted == [Probe(cfg, 1)]
    && y.ctl != [] && y.ctl[0].ack == cfg.seq0 + 1
  }

  lemma BurstBegins(cfg: Config)
    ensures InBurst(cfg, RStep(cfg, NewRSide(cfg), Arrives(Probe(cfg, 1), 0)), 0)
  {
  }

  lemma BurstStep(cfg: Config, y: RSide, k: nat)
    requires cfg.a != 0 && 0 < k < cfg.credit && InBurst(cfg, y, k - 1)
    ensures InBurst(cfg, RStep(cfg, y, Arrives(Probe(cfg, k + 2), 0)), k)
  {
    var q := SeqqPush(y.rcv.seqq, QEntry(Probe(cfg, k + 2), 0));
    assert q == Gap(cfg, k);
    assert Drain(q, cfg.seq0 + 1, []) == Drained(q, cfg.seq0 + 1, []);
    assert y.posted + [] == y.posted;
  }

  lemma {:induction false} BurstState(cfg: Config, k: nat)
    requires cfg.a != 0 && k < cfg.credit
    ensures InBurst(cfg, RRun(cfg, Burst(cfg, k)), k)
  {
    if k == 0 {
      RunSnoc(cfg, [], Arrives(Probe(cfg, 1), 0));
      assert [] + [Arrives(Probe(cfg, 1), 0)] == Burst(cfg, 0);
      BurstBegins(cfg);
    } else {
      BurstState(cfg, k - 1);
      RunSnoc(cfg, Burst(cfg, k - 1), Arrives(Probe(cfg, k + 2), 0));
      BurstStep(cfg, RRun(cfg, Burst(cfg, k - 1)), k);
    }
  }

  /** A ring filled in order from `lo + 1`, which has stopped growing once it is full. */
  ghost predicate Filled(ring: seq<Pdu>, lo: nat, lwe: nat) {
    && |ring| == (if lwe - lo < TO_POST_LENGTH then lwe - lo else TO_POST_LENGTH)
    && forall i :: 0 <= i < |ring| ==> ring[i].sn == lo + 1 + i
  }

  lemma {:induction false} DrainGap(q: seq<QEntry>, lwe: nat, ring: seq<Pdu>, lo: nat)
    requires lo <= lwe && Filled(ring, lo, lwe)
    requires forall i :: 0 <= i < |q| ==> q[i].pdu.sn == lwe + 1 + i
    ensures var d := Drain(q, lwe, ring); d.seqq == [] && d.lwe == lwe + |q| && Filled(d.ring, lo, d.lwe)
  {
    if q != [] {
      DrainGap(q[1..], lwe + 1, RingPush(ring, q[0].pdu), lo);
    }
  }

  /** The arrival of PDU 2 closes the gap, and a full ring loses PDU 1002. */
  lemma RingLoses(cfg: Config, y: RSide)
    requires !RingSuffices(cfg) && InBurst(cfg, y, TO_POST_LENGTH)
    ensures var y' := RStep(cfg, y, Arrives(Probe(cfg, 2), 0));
            && y'.rcv.lwe == cfg.seq0 + 2 + TO_POST_LENGTH && y'.rcv.seqq == [] && !y'.rcv.drfRequired
            && y'.rcv.rwe == y'.rcv.lwe + cfg.credit
            && |y'.posted| == 1 + TO_POST_LENGTH
            && forall i :: 0 <= i < |y'.posted| ==> y'.posted[i].sn == cfg.seq0 + 1 + i
  {
    var ring := RingPush([], Probe(cfg, 2));
    DrainGap(Gap(cfg, TO_POST_LENGTH), cfg.seq0 + 2, ring, cfg.seq0 + 1);
    var d := Drain(Gap(cfg, TO_POST_LENGTH), cfg.seq0 + 2, ring);
    assert RStep(cfg, y, Arrives(Probe(cfg, 2), 0)).posted == [Probe(cfg, 1)] + d.ring;
  }

  /** With credit for more PDUs than the ring holds, a full ring loses a PDU that the left
      edge, and so the acknowledgement, has already passed. */
  lemma RingOverflow(cfg: Config)
    requires !RingSuffices(cfg)
    ensures !Ordered(RRun(cfg, Burst(cfg, TO_POST_LENGTH) + [Arrives(Probe(cfg, 2), 0)]))
  {
    BurstState(cfg, TO_POST_LENGTH);
    RunSnoc(cfg, Burst(cfg, TO_POST_LENGTH), Arrives(Probe(cfg, 2), 0));
    RingLoses(cfg, RRun(cfg, Burst(cfg, TO_POST_LENGTH)));
  }

  /** Each PDU posted is the successor of the one before and the left edge is the last one
      posted, in every run, exactly when A is zero or the credit fits the ring. */
  lemma ReceiverOrderIff(cfg: Config)
    ensures (forall events :: Ordered(RRun(cfg, events))) <==> RingSuffices(cfg)
  {
    if RingSuffices(cfg) {
      forall events ensures Ordered(RRun(cfg, events)) {
        EveryRunKeepsRInv(cfg, events);
      }
    } else {
      RingOverflow(cfg);
    }
  }
}
