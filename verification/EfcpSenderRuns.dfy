/**
Every run of the EFCP sender against an arbitrary environment: any writes, any control
PDUs (forged ones included), any timer schedule.
*/
module EfcpSenderRuns {
  import opened Bytes
  import opened EfcpSender
  import opened Lists

  /** Initial sequence number, initial credit, data_retransmit_max and the A-timer. */
  datatype Config = Config(seq0: nat, credit: nat, max: nat, a: nat)

  /**
  The sender with its history: the user data written, everything transmitted, each first
  transmission with the right edge at that moment, and how PDUs left the retransmission
  queue.
  */
  datatype Side = Side(
    snd: Sender, sdus: seq<seq<Byte>>, wire: seq<Pdu>, firsts: seq<(nat, nat)>,
    acked: set<nat>, dropped: set<nat>)

  datatype Event =
    | Writes(data: seq<Byte>, writtenAt: nat)
    | Control(c: Ctrl, arrivedAt: nat)
    | RtxFires(firedAt: nat, tr: nat)

  function NewSide(cfg: Config): Side {
    Side(NewSender(cfg.seq0, cfg.credit), [], [], [], {}, {})
  }

  function Sns(q: seq<RtxEntry>): set<nat> {
    set i | 0 <= i < |q| :: q[i].pdu.sn
  }

  function Firsts(pdus: seq<Pdu>, edge: nat): (r: seq<(nat, nat)>)
    ensures |r| == |pdus| && forall i :: 0 <= i < |r| ==> r[i] == (pdus[i].sn, edge)
  {
    seq(|pdus|, i requires 0 <= i < |pdus| => (pdus[i].sn, edge))
  }

  function OnWrite(x: Side, data: seq<Byte>, now: nat): Side {
    var (snd, sent) := Write(x.snd, data, now);
    x.(snd := snd, sdus := x.sdus + [data], wire := x.wire + sent,
       firsts := x.firsts + Firsts(sent, snd.sndRt))
  }

  function OnRtx(x: Side, now: nat, tr: nat, max: nat): Side {
    var (snd, sent) := RtxTimer(x.snd, now, tr, max);
    x.(snd := snd, wire := x.wire + sent, dropped := x.dropped + (Sns(x.snd.rtxq) - Sns(snd.rtxq)))
  }

  // A Nack leaves the queue by dropping, every other control PDU by acknowledging, and what
  // a control PDU other than a Nack sends is sent for the first time.
  function OnControl(x: Side, c: Ctrl, now: nat, max: nat): Side {
    var (snd, sent) := RcvControl(x.snd, c, now, max);
    var y := x.(snd := snd, wire := x.wire + sent);
    var gone := Sns(x.snd.rtxq) - Sns(snd.rtxq);
    if c.kind.Nack? then y.(dropped := x.dropped + gone)
    else y.(firsts := x.firsts + Firsts(sent, snd.sndRt), acked := x.acked + gone)
  }

  function Step(cfg: Config, x: Side, ev: Event): Side {
    match ev
    case Writes(data, now) => OnWrite(x, data, now)
    case Control(c, now) => OnControl(x, c, now, cfg.max)
    case RtxFires(now, tr) => OnRtx(x, now, tr, cfg.max)
  }

  function Run(cfg: Config, events: seq<Event>): Side {
    if events == [] then NewSide(cfg)
    else Step(cfg, Run(cfg, events[..|events| - 1]), events[|events| - 1])
  }

  // ---------------------------------------------------------------- invariant

  ghost predicate Genuine(p: Pdu, seq0: nat, sdus: seq<seq<Byte>>) {
    seq0 < p.sn <= seq0 + |sdus| && p.data == sdus[p.sn - seq0 - 1] && p.drf
  }

  /** The closed-window queue holds exactly what is numbered but not yet sent, in order. */
  ghost predicate CwqExact(s: Sender) {
    && s.maxSeqNrSent + |s.cwq| == s.seqNrToSend
    && forall i :: 0 <= i < |s.cwq| ==> s.cwq[i].sn == s.maxSeqNrSent + 1 + i
  }

  ghost predicate CwqClosed(s: Sender) {
    s.cwq != [] ==> s.maxSeqNrSent >= s.sndRt && s.windowClosed
  }

  ghost predicate AllGenuine(x: Side, seq0: nat) {
    && (forall p :: p in x.snd.cwq ==> Genuine(p, seq0, x.sdus))
    && (forall p :: p in x.wire ==> Genuine(p, seq0, x.sdus) && p.sn <= x.snd.maxSeqNrSent)
    && (forall e :: e in x.snd.rtxq ==> Genuine(e.pdu, seq0, x.sdus))
  }

  ghost predicate Ascending(q: seq<RtxEntry>) {
    forall i, j :: 0 <= i < j < |q| ==> q[i].pdu.sn < q[j].pdu.sn
  }

  ghost predicate InSpan(n: nat, lo: nat, hi: nat) {
    lo < n <= hi
  }

  ghost predicate InOne(n: nat, queued: set<nat>, acked: set<nat>, dropped: set<nat>) {
    n in queued || n in acked || n in dropped
  }

  /** Every sequence number sent is exactly one of queued, acknowledged, dropped. */
  ghost predicate Partition(queued: set<nat>, acked: set<nat>, dropped: set<nat>, lo: nat, hi: nat) {
    && queued !! acked !! dropped
    && forall n: nat :: InOne(n, queued, acked, dropped) <==> InSpan(n, lo, hi)
  }

  function Count(pdus: seq<Pdu>, sn: nat): nat {
    CountIf(pdus, (p: Pdu) => p.sn == sn)
  }

  ghost predicate FewTransmissions(wire: seq<Pdu>, q: seq<RtxEntry>, sent: nat, max: nat) {
    && (forall e :: e in q ==> Count(wire, e.pdu.sn) == 1 + e.retries <= Max(1, max))
    && forall sn: nat :: Count(wire, sn) <= if sn > sent then 0 else Max(1, max)
  }

  /** First transmissions are consecutive and each within the right edge of its time. */
  ghost predicate FirstsExact(firsts: seq<(nat, nat)>, lo: nat, hi: nat) {
    && lo + |firsts| == hi
    && forall i :: 0 <= i < |firsts| ==> firsts[i].0 == lo + 1 + i && firsts[i].0 <= firsts[i].1
  }

  ghost predicate Inv(cfg: Config, x: Side) {
    && x.snd.drfFlag && x.snd.seqNrToSend == cfg.seq0 + |x.sdus|
    && CwqExact(x.snd) && CwqClosed(x.snd)
    && AllGenuine(x, cfg.seq0)
    && Ascending(x.snd.rtxq)
    && Partition(Sns(x.snd.rtxq), x.acked, x.dropped, cfg.seq0, x.snd.maxSeqNrSent)
    && x.snd.len == |x.snd.rtxq|
    && FewTransmissions(x.wire, x.snd.rtxq, x.snd.maxSeqNrSent, cfg.max)
    && FirstsExact(x.firsts, cfg.seq0, x.snd.maxSeqNrSent)
  }

  // ---------------------------------------------------------------- first transmissions

  lemma CountConcat(a: seq<Pdu>, b: seq<Pdu>, sn: nat)
    ensures Count(a + b, sn) == Count(a, sn) + Count(b, sn)
  {
    CountIfConcat(a, b, (p: Pdu) => p.sn == sn);
  }

  lemma {:induction false} CountAbsent(pdus: seq<Pdu>, sn: nat)
    requires forall p :: p in pdus ==> p.sn != sn
    ensures Count(pdus, sn) == 0
  {
    if pdus != [] {
      CountAbsent(pdus[1..], sn);
    }
  }

  /** Only the empty and the tail branch of the insertion are taken. */
  lemma PushAtTail(q: seq<RtxEntry>, e: RtxEntry, hi: nat)
    requires Ascending(q) && e.pdu.sn == hi + 1
    requires forall n :: n in Sns(q) ==> n <= hi
    ensures RtxPush(q, e) == Pushed(q + [e], true)
    ensures Ascending(q + [e]) && Sns(q + [e]) == Sns(q) + {e.pdu.sn}
  {
    assert forall i :: 0 <= i < |q| ==> q[i].pdu.sn in Sns(q);
    var q' := q + [e];
    assert q'[|q|] == e;
    forall n | n in Sns(q) + {e.pdu.sn} ensures n in Sns(q') {
      if n in Sns(q) {
        var i :| 0 <= i < |q| && q[i].pdu.sn == n;
        assert q'[i].pdu.sn == n;
      }
    }
  }

  lemma TransmitCounts(wire: seq<Pdu>, q: seq<RtxEntry>, e: RtxEntry, hi: nat, max: nat)
    requires FewTransmissions(wire, q, hi, max)
    requires e.retries == 0 && e.pdu.sn == hi + 1 && forall d :: d in q ==> d.pdu.sn <= hi
    ensures FewTransmissions(wire + [e.pdu], q + [e], hi + 1, max)
  {
    forall sn: nat
      ensures Count(wire + [e.pdu], sn) == Count(wire, sn) + if sn == hi + 1 then 1 else 0
    {
      CountConcat(wire, [e.pdu], sn);
      assert Count([e.pdu][1..], sn) == 0;
    }
  }

  /** The PDU after the last one sent goes out: it may come from the writer or from the
      closed-window queue. */
  function FirstSent(x: Side, pdu: Pdu, now: nat): Side {
    x.(snd := Transmit(x.snd, pdu, now), wire := x.wire + [pdu],
       firsts := x.firsts + [(pdu.sn, x.snd.sndRt)])
  }

  ghost predicate SentInv(cfg: Config, x: Side) {
    && Ascending(x.snd.rtxq)
    && Partition(Sns(x.snd.rtxq), x.acked, x.dropped, cfg.seq0, x.snd.maxSeqNrSent)
    && x.snd.len == |x.snd.rtxq|
    && FewTransmissions(x.wire, x.snd.rtxq, x.snd.maxSeqNrSent, cfg.max)
    && FirstsExact(x.firsts, cfg.seq0, x.snd.maxSeqNrSent)
  }

  lemma InSns(q: seq<RtxEntry>, e: RtxEntry)
    requires e in q
    ensures e.pdu.sn in Sns(q)
  {
    var i :| 0 <= i < |q| && q[i] == e;
    assert q[i].pdu.sn in Sns(q);
  }

  lemma PartitionGrows(queued: set<nat>, acked: set<nat>, dropped: set<nat>, lo: nat, hi: nat)
    requires Partition(queued, acked, dropped, lo, hi) && lo <= hi
    ensures Partition(queued + {hi + 1}, acked, dropped, lo, hi + 1)
  {
    assert !InOne(hi + 1, queued, acked, dropped);
    var queued', hi' := queued + {hi + 1}, hi + 1;
    forall n: nat ensures InOne(n, queued', acked, dropped) <==> InSpan(n, lo, hi') {
      assert InOne(n, queued, acked, dropped) <==> InSpan(n, lo, hi);
    }
  }

  lemma FirstSentKeeps(cfg: Config, x: Side, pdu: Pdu, now: nat)
    requires SentInv(cfg, x) && pdu.sn == x.snd.maxSeqNrSent + 1 <= x.snd.sndRt
    ensures SentInv(cfg, FirstSent(x, pdu, now))
    ensures FirstSent(x, pdu, now).snd.rtxq == x.snd.rtxq + [RtxEntry(pdu, now, 0)]
    ensures RtxPush(x.snd.rtxq, RtxEntry(pdu, now, 0)).ok
  {
    var q, e, hi := x.snd.rtxq, RtxEntry(pdu, now, 0), x.snd.maxSeqNrSent;
    forall n | n in Sns(q) ensures n <= hi {
      assert InOne(n, Sns(q), x.acked, x.dropped);
      assert InSpan(n, cfg.seq0, hi);
    }
    forall d | d in q ensures d.pdu.sn <= hi {
      InSns(q, d);
    }
    PushAtTail(q, e, hi);
    PartitionGrows(Sns(q), x.acked, x.dropped, cfg.seq0, hi);
    TransmitCounts(x.wire, q, e, hi, cfg.max);
  }

  lemma StillGenuine(cfg: Config, x: Side, data: seq<Byte>)
    requires AllGenuine(x, cfg.seq0)
    ensures AllGenuine(x.(sdus := x.sdus + [data]), cfg.seq0)
  {
  }

  lemma GenuineSent(cfg: Config, x: Side, pdu: Pdu, now: nat)
    requires AllGenuine(x, cfg.seq0) && Genuine(pdu, cfg.seq0, x.sdus) && x.snd.maxSeqNrSent <= pdu.sn
    requires FirstSent(x, pdu, now).snd.rtxq == x.snd.rtxq + [RtxEntry(pdu, now, 0)]
    ensures AllGenuine(FirstSent(x, pdu, now), cfg.seq0)
  {
  }

  /** A numbered PDU within the right edge goes out. */
  lemma SentWriteKeepsInv(cfg: Config, x: Side, pdu: Pdu, now: nat)
    requires SentInv(cfg, x) && AllGenuine(x, cfg.seq0) && Genuine(pdu, cfg.seq0, x.sdus)
    requires x.snd.drfFlag && x.snd.seqNrToSend == cfg.seq0 + |x.sdus| == pdu.sn
    requires x.snd.cwq == [] && pdu.sn == x.snd.maxSeqNrSent + 1 <= x.snd.sndRt
    ensures Inv(cfg, FirstSent(x, pdu, now))
  {
    FirstSentKeeps(cfg, x, pdu, now);
    GenuineSent(cfg, x, pdu, now);
  }

  /** Beyond the right edge it waits. */
  lemma HeldWriteKeepsInv(cfg: Config, x: Side, pdu: Pdu)
    requires SentInv(cfg, x) && AllGenuine(x, cfg.seq0) && Genuine(pdu, cfg.seq0, x.sdus)
    requires x.snd.drfFlag && x.snd.seqNrToSend == cfg.seq0 + |x.sdus| == pdu.sn
    requires CwqExact(x.snd.(seqNrToSend := pdu.sn - 1)) && x.snd.sndRt < pdu.sn
    requires x.snd.cwq != [] ==> x.snd.maxSeqNrSent >= x.snd.sndRt
    ensures Inv(cfg, x.(snd := x.snd.(windowClosed := true, cwq := x.snd.cwq + [pdu])))
  {
    assert (x.snd.cwq + [pdu])[|x.snd.cwq|] == pdu;
  }

  /** The sender after numbering the next PDU. */
  function Numbered(x: Side, data: seq<Byte>): Side {
    x.(snd := x.snd.(seqNrToSend := x.snd.seqNrToSend + 1), sdus := x.sdus + [data])
  }

  lemma WriteIs(x: Side, data: seq<Byte>, now: nat)
    requires var pdu := NextPdu(x.snd, data);
             pdu.sn <= x.snd.sndRt ==> RtxPush(x.snd.rtxq, RtxEntry(pdu, now, 0)).ok
    ensures var pdu, x1 := NextPdu(x.snd, data), Numbered(x, data);
            OnWrite(x, data, now) ==
            if pdu.sn <= x.snd.sndRt then FirstSent(x1, pdu, now)
            else x1.(snd := x1.snd.(windowClosed := true, cwq := x1.snd.cwq + [pdu]))
  {
    assert x.wire + [] == x.wire && x.firsts + [] == x.firsts;
  }

  lemma WriteKeepsInv(cfg: Config, x: Side, data: seq<Byte>, now: nat)
    requires Inv(cfg, x)
    ensures Inv(cfg, OnWrite(x, data, now))
  {
    var pdu, x1 := NextPdu(x.snd, data), Numbered(x, data);
    StillGenuine(cfg, x, data);
    assert Genuine(pdu, cfg.seq0, x1.sdus);
    if pdu.sn <= x.snd.sndRt {
      FirstSentKeeps(cfg, x1, pdu, now);
      SentWriteKeepsInv(cfg, x1, pdu, now);
    } else {
      HeldWriteKeepsInv(cfg, x1, pdu);
    }
    WriteIs(x, data, now);
  }

  function Delivered(x: Side, now: nat): Side {
    var (snd, sent) := CwqDeliver(x.snd, now);
    x.(snd := snd, wire := x.wire + sent, firsts := x.firsts + Firsts(sent, x.snd.sndRt))
  }

  lemma DeliverStep(x: Side, now: nat)
    requires x.snd.cwq != [] && x.snd.maxSeqNrSent < x.snd.sndRt
    ensures var x1 := x.(snd := x.snd.(cwq := x.snd.cwq[1..]));
            Delivered(x, now) == Delivered(FirstSent(x1, x.snd.cwq[0], now), now)
  {
    var pdu := x.snd.cwq[0];
    var x1 := FirstSent(x.(snd := x.snd.(cwq := x.snd.cwq[1..])), pdu, now);
    var sent := CwqDeliver(x1.snd, now).1;
    assert (x.wire + [pdu]) + sent == x.wire + ([pdu] + sent);
    var f := Firsts(sent, x.snd.sndRt);
    assert Firsts([pdu] + sent, x.snd.sndRt) == [(pdu.sn, x.snd.sndRt)] + f;
    assert (x.firsts + [(pdu.sn, x.snd.sndRt)]) + f == x.firsts + ([(pdu.sn, x.snd.sndRt)] + f);
  }

  /** Draining touches only the queues and the marks of the last PDU sent, which stays
      within the right edge. */
  lemma {:induction false} DeliverFrame(x: Side, now: nat)
    requires CwqExact(x.snd)
    ensures var y := Delivered(x, now);
            && y.snd == x.snd.(maxSeqNrSent := y.snd.maxSeqNrSent, sndLft := y.snd.sndLft,
                               windowClosed := y.snd.windowClosed, cwq := y.snd.cwq,
                               rtxq := y.snd.rtxq, len := y.snd.len)
            && y == x.(snd := y.snd, wire := y.wire, firsts := y.firsts) && x.wire <= y.wire
            && x.snd.maxSeqNrSent <= y.snd.maxSeqNrSent <= Max(x.snd.maxSeqNrSent, x.snd.sndRt)
    decreases |x.snd.cwq|
  {
    if x.snd.cwq == [] || x.snd.maxSeqNrSent >= x.snd.sndRt {
      assert x.wire + [] == x.wire && x.firsts + [] == x.firsts;
    } else {
      DeliverStep(x, now);
      DeliverFrame(FirstSent(x.(snd := x.snd.(cwq := x.snd.cwq[1..])), x.snd.cwq[0], now), now);
    }
  }

  ghost predicate Extends(q: seq<RtxEntry>, q': seq<RtxEntry>, hi: nat) {
    q <= q' && forall i :: |q| <= i < |q'| ==> q'[i].pdu.sn > hi
  }

  lemma ExtendsMore(q: seq<RtxEntry>, e: RtxEntry, q': seq<RtxEntry>, hi: nat)
    requires e.pdu.sn == hi + 1 && Extends(q + [e], q', hi + 1)
    ensures Extends(q, q', hi)
  {
    assert (q + [e])[|q|] == e;
  }

  /** Draining the closed-window queue, for any right edge. */
  lemma {:induction false} DeliverKeeps(cfg: Config, x: Side, now: nat)
    requires SentInv(cfg, x) && CwqExact(x.snd) && AllGenuine(x, cfg.seq0)
    ensures var y := Delivered(x, now);
            && SentInv(cfg, y) && CwqExact(y.snd) && CwqClosed(y.snd) && AllGenuine(y, cfg.seq0)
            && Extends(x.snd.rtxq, y.snd.rtxq, x.snd.maxSeqNrSent)
    decreases |x.snd.cwq|
  {
    if x.snd.cwq == [] || x.snd.maxSeqNrSent >= x.snd.sndRt {
      assert x.wire + [] == x.wire && x.firsts + [] == x.firsts;
    } else {
      var pdu := x.snd.cwq[0];
      var x1 := x.(snd := x.snd.(cwq := x.snd.cwq[1..]));
      FirstSentKeeps(cfg, x1, pdu, now);
      GenuineSent(cfg, x1, pdu, now);
      DeliverStep(x, now);
      var x2 := FirstSent(x1, pdu, now);
      assert CwqExact(x2.snd);
      DeliverKeeps(cfg, x2, now);
      ExtendsMore(x.snd.rtxq, RtxEntry(pdu, now, 0), Delivered(x, now).snd.rtxq, x.snd.maxSeqNrSent);
    }
  }

  // ---------------------------------------------------------------- leaving the queue

  lemma PartitionMoves(queued: set<nat>, queued': set<nat>, acked: set<nat>, dropped: set<nat>, lo: nat, hi: nat)
    requires Partition(queued, acked, dropped, lo, hi) && queued' <= queued
    ensures Partition(queued', acked + (queued - queued'), dropped, lo, hi)
    ensures Partition(queued', acked, dropped + (queued - queued'), lo, hi)
  {
    var acked', dropped' := acked + (queued - queued'), dropped + (queued - queued');
    forall n: nat
      ensures InOne(n, queued', acked', dropped) <==> InSpan(n, lo, hi)
      ensures InOne(n, queued', acked, dropped') <==> InSpan(n, lo, hi)
    {
      assert InOne(n, queued, acked, dropped) <==> InSpan(n, lo, hi);
    }
  }

  /** An ACK removes exactly the entries numbered at or below it. */
  lemma {:induction false} AckedPrefixExact(q: seq<RtxEntry>, ack: nat)
    requires Ascending(q)
    ensures var n := AckedPrefix(q, ack);
            && (forall i :: 0 <= i < n ==> q[i].pdu.sn <= ack)
            && (forall i :: n <= i < |q| ==> q[i].pdu.sn > ack)
  {
    if q != [] && q[0].pdu.sn <= ack {
      AckedPrefixExact(q[1..], ack);
      assert forall i :: 0 < i < |q| ==> q[i] == q[1..][i - 1];
    }
  }

  lemma SuffixSns(q: seq<RtxEntry>, n: nat)
    requires n <= |q| && Ascending(q)
    ensures Ascending(q[n..]) && Sns(q[n..]) <= Sns(q)
    ensures forall k :: k in Sns(q) - Sns(q[n..]) ==> exists i :: 0 <= i < n && q[i].pdu.sn == k
  {
    assert forall i :: 0 <= i < |q[n..]| ==> q[n..][i] == q[n + i];
    forall k | k in Sns(q) - Sns(q[n..]) ensures exists i :: 0 <= i < n && q[i].pdu.sn == k {
      var i :| 0 <= i < |q| && q[i].pdu.sn == k;
      assert i < n;
    }
  }

  function Acked(x: Side, ack: nat): Side {
    var snd := SenderAck(x.snd, ack);
    x.(snd := snd, acked := x.acked + (Sns(x.snd.rtxq) - Sns(snd.rtxq)))
  }

  lemma AckKeeps(cfg: Config, x: Side, ack: nat)
    requires SentInv(cfg, x)
    ensures SentInv(cfg, Acked(x, ack))
    ensures forall n :: n in Acked(x, ack).acked - x.acked ==> n <= ack
  {
    var q, n := x.snd.rtxq, AckedPrefix(x.snd.rtxq, ack);
    AckedPrefixExact(q, ack);
    SuffixSns(q, n);
    PartitionMoves(Sns(q), Sns(q[n..]), x.acked, x.dropped, cfg.seq0, x.snd.maxSeqNrSent);
  }

  ghost predicate RetryOf(d: RtxEntry, e: RtxEntry, resent: seq<Pdu>, max: nat) {
    && d.pdu == e.pdu && Count(resent, e.pdu.sn) == e.retries - d.retries
    && (e.retries == d.retries || e.retries < max)
  }

  /** What a scan may do: keep or retry an entry, sending once per retry, or drop it. */
  ghost predicate ScanOk(q: seq<RtxEntry>, scan: Scan, max: nat) {
    && Ascending(scan.q) && Sns(scan.q) <= Sns(q)
    && |q| == |scan.q| + |scan.dropped|
    && (forall e :: e in scan.q ==> exists d :: d in q && RetryOf(d, e, scan.resent, max))
    && (forall p :: p in scan.resent ==> p.sn in Sns(scan.q) && exists e :: e in scan.q && e.pdu == p)
  }

  lemma SnsCons(e: RtxEntry, t: seq<RtxEntry>)
    ensures Sns([e] + t) == {e.pdu.sn} + Sns(t)
  {
    var q := [e] + t;
    assert q[0] == e && forall i :: 0 <= i < |t| ==> q[i + 1] == t[i];
    forall n | n in {e.pdu.sn} + Sns(t) ensures n in Sns(q) {
      if n == e.pdu.sn {
        assert q[0].pdu.sn == n;
      } else {
        var i :| 0 <= i < |t| && t[i].pdu.sn == n;
        assert q[i + 1].pdu.sn == n;
      }
    }
  }

  lemma SnsSnoc(t: seq<RtxEntry>, e: RtxEntry)
    ensures Sns(t + [e]) == Sns(t) + {e.pdu.sn}
  {
    var q := t + [e];
    assert q[|t|] == e && forall i :: 0 <= i < |t| ==> q[i] == t[i];
    forall n | n in Sns(t) + {e.pdu.sn} ensures n in Sns(q) {
      if n == e.pdu.sn {
        assert q[|t|].pdu.sn == n;
      } else {
        var i :| 0 <= i < |t| && t[i].pdu.sn == n;
        assert q[i].pdu.sn == n;
      }
    }
  }

  lemma Unscanned(q: seq<RtxEntry>, max: nat)
    requires Ascending(q)
    ensures ScanOk(q, Scan(q, [], []), max)
  {
    forall e | e in q ensures exists d :: d in q && RetryOf(d, e, [], max) {
      assert RetryOf(e, e, [], max);
    }
  }

  // One more entry, taken from either end of the queue, put in front of the result's resent PDUs.
  lemma ScanOne(d0: RtxEntry, t: seq<RtxEntry>, rest: Scan, max: nat, q: seq<RtxEntry>, q': seq<RtxEntry>)
    requires ScanOk(t, rest, max) && d0.pdu.sn !in Sns(t)
    requires |q| == |t| + 1 && Sns(q) == Sns(t) + {d0.pdu.sn} && forall d :: d in t || d == d0 ==> d in q
    requires |q'| == |rest.q| + 1 && Sns(q') == Sns(rest.q) + {d0.pdu.sn} && Ascending(q')
    requires forall e :: e in q' <==> e in rest.q || e == Retry(d0)
    ensures var e0 := Retry(d0);
            if e0.retries >= max then ScanOk(q, Scan(rest.q, rest.resent, [e0.pdu.sn] + rest.dropped), max)
            else ScanOk(q, Scan(q', [e0.pdu] + rest.resent, rest.dropped), max)
  {
    var e0 := Retry(d0);
    var resent := [e0.pdu] + rest.resent;
    CountAbsent(rest.resent, d0.pdu.sn);
    forall e | e in rest.q
      ensures exists d :: d in q && RetryOf(d, e, rest.resent, max)
      ensures exists d :: d in q && RetryOf(d, e, resent, max)
    {
      var d :| d in t && RetryOf(d, e, rest.resent, max);
      InSns(rest.q, e);
      assert resent[1..] == rest.resent;
      assert RetryOf(d, e, resent, max);
    }
    if e0.retries < max {
      assert resent[1..] == rest.resent;
      assert RetryOf(d0, e0, resent, max);
    }
  }

  lemma ScanHead(d0: RtxEntry, t: seq<RtxEntry>, rest: Scan, max: nat)
    requires Ascending([d0] + t) && ScanOk(t, rest, max)
    ensures var e0 := Retry(d0);
            if e0.retries >= max then ScanOk([d0] + t, Scan(rest.q, rest.resent, [e0.pdu.sn] + rest.dropped), max)
            else ScanOk([d0] + t, Scan([e0] + rest.q, [e0.pdu] + rest.resent, rest.dropped), max)
  {
    var q, q' := [d0] + t, [Retry(d0)] + rest.q;
    SnsCons(d0, t);
    SnsCons(Retry(d0), rest.q);
    forall n | n in Sns(t) ensures n > d0.pdu.sn {
      var i :| 0 <= i < |t| && t[i].pdu.sn == n;
      assert q[i + 1] == t[i] && q[0] == d0;
    }
    assert forall i :: 0 < i < |q'| ==> q'[i] == rest.q[i - 1] && q'[i].pdu.sn in Sns(rest.q);
    ScanOne(d0, t, rest, max, q, q');
  }

  lemma {:induction false} RtxScanOk(q: seq<RtxEntry>, now: nat, tr: nat, max: nat)
    requires Ascending(q)
    ensures ScanOk(q, RtxScan(q, now, tr, max), max)
  {
    if q == [] || now < TimeToRtx(q[0], tr) {
      Unscanned(q, max);
    } else {
      SuffixSns(q, 1);
      RtxScanOk(q[1..], now, tr, max);
      assert q == [q[0]] + q[1..];
      ScanHead(q[0], q[1..], RtxScan(q[1..], now, tr, max), max);
    }
  }

  lemma PrefixSns(q: seq<RtxEntry>)
    requires q != [] && Ascending(q)
    ensures var t := q[..|q| - 1]; Ascending(t) && forall n :: n in Sns(t) ==> n < q[|q| - 1].pdu.sn
  {
    var t := q[..|q| - 1];
    assert forall i :: 0 <= i < |t| ==> q[i] == t[i];
  }

  lemma AscendingSnoc(q: seq<RtxEntry>, e: RtxEntry)
    requires Ascending(q) && forall n :: n in Sns(q) ==> n < e.pdu.sn
    ensures Ascending(q + [e])
  {
    assert forall i :: 0 <= i < |q| ==> q[i].pdu.sn in Sns(q);
  }

  lemma {:induction false} NackScanOk(q: seq<RtxEntry>, sn: nat, max: nat)
    requires Ascending(q)
    ensures ScanOk(q, NackScan(q, sn, max), max)
  {
    if q == [] || q[|q| - 1].pdu.sn < sn {
      Unscanned(q, max);
    } else {
      var t, d0 := q[..|q| - 1], q[|q| - 1];
      assert q == t + [d0];
      PrefixSns(q);
      NackScanOk(t, sn, max);
      var rest := NackScan(t, sn, max);
      SnsSnoc(t, d0);
      SnsSnoc(rest.q, Retry(d0));
      AscendingSnoc(rest.q, Retry(d0));
      ScanOne(d0, t, rest, max, q, rest.q + [Retry(d0)]);
    }
  }

  lemma ScanKeepsCounts(wire: seq<Pdu>, q: seq<RtxEntry>, scan: Scan, hi: nat, max: nat)
    requires FewTransmissions(wire, q, hi, max) && ScanOk(q, scan, max)
    requires forall n :: n in Sns(q) ==> n <= hi
    ensures FewTransmissions(wire + scan.resent, scan.q, hi, max)
  {
    forall e | e in scan.q ensures Count(wire + scan.resent, e.pdu.sn) == 1 + e.retries <= Max(1, max) {
      var d :| d in q && RetryOf(d, e, scan.resent, max);
      CountConcat(wire, scan.resent, e.pdu.sn);
    }
    forall sn: nat ensures Count(wire + scan.resent, sn) <= if sn > hi then 0 else Max(1, max) {
      if sn in Sns(scan.q) {
        var i :| 0 <= i < |scan.q| && scan.q[i].pdu.sn == sn;
        assert scan.q[i] in scan.q;
      } else {
        CountConcat(wire, scan.resent, sn);
        CountAbsent(scan.resent, sn);
      }
    }
  }

  lemma ScanKeepsGenuine(x: Side, scan: Scan, seq0: nat, max: nat)
    requires AllGenuine(x, seq0) && ScanOk(x.snd.rtxq, scan, max)
    requires forall n :: n in Sns(x.snd.rtxq) ==> n <= x.snd.maxSeqNrSent
    ensures AllGenuine(x.(snd := Scanned(x.snd, scan), wire := x.wire + scan.resent), seq0)
  {
    forall e | e in scan.q ensures Genuine(e.pdu, seq0, x.sdus) {
      var d :| d in x.snd.rtxq && RetryOf(d, e, scan.resent, max);
    }
    forall p | p in scan.resent ensures Genuine(p, seq0, x.sdus) && p.sn <= x.snd.maxSeqNrSent {
      var e :| e in scan.q && e.pdu == p;
    }
  }

  lemma QueuedWasSent(cfg: Config, x: Side)
    requires SentInv(cfg, x)
    ensures forall n :: n in Sns(x.snd.rtxq) ==> cfg.seq0 < n <= x.snd.maxSeqNrSent
  {
    forall n | n in Sns(x.snd.rtxq) ensures cfg.seq0 < n <= x.snd.maxSeqNrSent {
      assert InOne(n, Sns(x.snd.rtxq), x.acked, x.dropped);
      assert InSpan(n, cfg.seq0, x.snd.maxSeqNrSent);
    }
  }

  lemma ScanKeepsInv(cfg: Config, x: Side, scan: Scan)
    requires Inv(cfg, x) && ScanOk(x.snd.rtxq, scan, cfg.max)
    ensures Inv(cfg, x.(snd := Scanned(x.snd, scan), wire := x.wire + scan.resent,
                        dropped := x.dropped + (Sns(x.snd.rtxq) - Sns(scan.q))))
  {
    QueuedWasSent(cfg, x);
    ScanKeepsCounts(x.wire, x.snd.rtxq, scan, x.snd.maxSeqNrSent, cfg.max);
    ScanKeepsGenuine(x, scan, cfg.seq0, cfg.max);
    PartitionMoves(Sns(x.snd.rtxq), Sns(scan.q), x.acked, x.dropped, cfg.seq0, x.snd.maxSeqNrSent);
  }

  // ---------------------------------------------------------------- control PDUs

  // The part of a control PDU that acknowledges, and the new right edge it brings.
  function AckPart(x: Side, c: Ctrl): Side {
    var t := x.(snd := x.snd.(lastRcvCtl := c.sn));
    if Acts(x.snd, c) && (c.kind.AckOnly? || c.kind.AckAndFc?) then Acked(t, c.ack) else t
  }

  lemma AckPartKeeps(cfg: Config, x: Side, c: Ctrl)
    requires Inv(cfg, x) && c.sn > x.snd.lastRcvCtl
    ensures Inv(cfg, AckPart(x, c))
    ensures AckPart(x, c).snd == x.snd.(lastRcvCtl := c.sn, rtxq := AckPart(x, c).snd.rtxq,
                                        len := AckPart(x, c).snd.len, sndLft := AckPart(x, c).snd.sndLft)
    ensures Sns(AckPart(x, c).snd.rtxq) <= Sns(x.snd.rtxq)
    ensures AckPart(x, c).acked == x.acked + (Sns(x.snd.rtxq) - Sns(AckPart(x, c).snd.rtxq))
    ensures AckPart(x, c).wire == x.wire && AckPart(x, c).sdus == x.sdus
    ensures forall n :: n in AckPart(x, c).acked - x.acked ==> n <= c.ack
  {
    var t := x.(snd := x.snd.(lastRcvCtl := c.sn));
    AckKeeps(cfg, t, c.ack);
    SuffixSns(x.snd.rtxq, AckedPrefix(x.snd.rtxq, c.ack));
    assert AllGenuine(AckPart(x, c), cfg.seq0);
  }

  lemma DeliveredGone(queued: set<nat>, kept: set<nat>, x: Side, y: Side)
    requires kept == Sns(x.snd.rtxq) <= queued
    requires Extends(x.snd.rtxq, y.snd.rtxq, x.snd.maxSeqNrSent)
    requires forall n :: n in queued ==> n <= x.snd.maxSeqNrSent
    ensures queued - Sns(y.snd.rtxq) == queued - kept
  {
    forall n | n in kept ensures n in Sns(y.snd.rtxq) {
      var i :| 0 <= i < |x.snd.rtxq| && x.snd.rtxq[i].pdu.sn == n;
      assert y.snd.rtxq[i].pdu.sn == n;
    }
  }

  lemma WindowKeepsInv(cfg: Config, x: Side, c: Ctrl, now: nat)
    requires Inv(cfg, x) && Acts(x.snd, c) && (c.kind.AckAndFc? || c.kind.FcOnly?)
    ensures Inv(cfg, OnControl(x, c, now, cfg.max))
    ensures var y := OnControl(x, c, now, cfg.max);
            && y.acked == AckPart(x, c).acked && y.sdus == x.sdus
            && x.wire <= y.wire && y.snd.sndRt == c.rwe && y.snd.lastRcvCtl == c.sn
            && y.snd.maxSeqNrSent <= Max(x.snd.maxSeqNrSent, c.rwe)
  {
    AckPartKeeps(cfg, x, c);
    var x1 := AckPart(x, c);
    var x2 := x1.(snd := x1.snd.(sndRt := c.rwe));
    DeliverFrame(x2, now);
    DeliverKeeps(cfg, x2, now);
    QueuedWasSent(cfg, x);
    var y := Delivered(x2, now);
    DeliveredGone(Sns(x.snd.rtxq), Sns(x2.snd.rtxq), x2, y);
    assert OnControl(x, c, now, cfg.max) == y;
  }

  lemma ControlKeepsInv(cfg: Config, x: Side, c: Ctrl, now: nat)
    requires Inv(cfg, x)
    ensures Inv(cfg, OnControl(x, c, now, cfg.max))
  {
    var y := OnControl(x, c, now, cfg.max);
    if c.sn <= x.snd.lastRcvCtl || !Acts(x.snd, c) || c.kind.OtherCtrl? {
      assert x.wire + [] == x.wire && x.firsts + [] == x.firsts;
    } else if c.kind.Nack? {
      var t := x.(snd := x.snd.(lastRcvCtl := c.sn));
      NackScanOk(t.snd.rtxq, c.ack, cfg.max);
      ScanKeepsInv(cfg, t, NackScan(t.snd.rtxq, c.ack, cfg.max));
    } else if c.kind.AckOnly? {
      AckPartKeeps(cfg, x, c);
      assert x.wire + [] == x.wire && x.firsts + [] == x.firsts;
      assert y == AckPart(x, c);
    } else {
      WindowKeepsInv(cfg, x, c, now);
    }
  }

  lemma RtxKeepsInv(cfg: Config, x: Side, now: nat, tr: nat)
    requires Inv(cfg, x)
    ensures Inv(cfg, OnRtx(x, now, tr, cfg.max))
  {
    RtxScanOk(x.snd.rtxq, now, tr, cfg.max);
    ScanKeepsInv(cfg, x, RtxScan(x.snd.rtxq, now, tr, cfg.max));
  }

  // ---------------------------------------------------------------- main results

  lemma StepKeepsInv(cfg: Config, x: Side, ev: Event)
    requires Inv(cfg, x)
    ensures Inv(cfg, Step(cfg, x, ev))
  {
    match ev
    case Writes(data, now) => WriteKeepsInv(cfg, x, data, now);
    case Control(c, now) => ControlKeepsInv(cfg, x, c, now);
    case RtxFires(now, tr) => RtxKeepsInv(cfg, x, now, tr);
  }

  lemma {:induction false} EveryRunKeepsInv(cfg: Config, events: seq<Event>)
    ensures Inv(cfg, Run(cfg, events))
  {
    if events != [] {
      EveryRunKeepsInv(cfg, events[..|events| - 1]);
      StepKeepsInv(cfg, Run(cfg, events[..|events| - 1]), events[|events| - 1]);
    }
  }

  /** In every run the closed-window queue is exactly maxSeqNrSent + 1 .. seqNrToSend, it is
      empty while the window is open, and first transmissions are consecutive and never
      beyond the right edge. */
  lemma ClosedWindow(cfg: Config, events: seq<Event>)
    ensures var x := Run(cfg, events);
            && CwqExact(x.snd)
            && (x.snd.cwq != [] ==> x.snd.maxSeqNrSent >= x.snd.sndRt)
            && FirstsExact(x.firsts, cfg.seq0, x.snd.maxSeqNrSent)
  {
    EveryRunKeepsInv(cfg, events);
  }

  /** In every run the retransmission queue is strictly ascending, every PDU sent is exactly
      one of queued, acknowledged, dropped, none is transmitted more than
      max(1, data_retransmit_max) times, and the next insertion is at the tail. */
  lemma RetransmissionQueue(cfg: Config, events: seq<Event>, e: RtxEntry)
    requires e.pdu.sn == Run(cfg, events).snd.maxSeqNrSent + 1
    ensures var x := Run(cfg, events);
            && Ascending(x.snd.rtxq) && x.snd.len == |x.snd.rtxq|
            && Partition(Sns(x.snd.rtxq), x.acked, x.dropped, cfg.seq0, x.snd.maxSeqNrSent)
            && (forall sn: nat :: Count(x.wire, sn) <= Max(1, cfg.max))
            && RtxPush(x.snd.rtxq, e) == Pushed(x.snd.rtxq + [e], true)
  {
    EveryRunKeepsInv(cfg, events);
    var x := Run(cfg, events);
    QueuedWasSent(cfg, x);
    PushAtTail(x.snd.rtxq, e, x.snd.maxSeqNrSent);
  }
}
