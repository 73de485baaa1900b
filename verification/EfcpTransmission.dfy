/**
What each event makes the EFCP sender transmit, keep, acknowledge and drop, in every run,
whatever control PDUs arrive.
*/
module EfcpTransmission {
  import opened Bytes
  import opened EfcpSender
  import opened EfcpSenderRuns
  import opened Lists

  lemma RunSnoc(cfg: Config, events: seq<Event>, ev: Event)
    ensures Run(cfg, events + [ev]) == Step(cfg, Run(cfg, events), ev)
  {
    assert (events + [ev])[..|events|] == events;
  }

  // ---------------------------------------------------------------- what happens to one entry

  /** Sent once more, and one retry counted. */
  ghost predicate Resent(x: Side, y: Side, e: RtxEntry) {
    && RtxEntry(e.pdu, e.ts, e.retries + 1) in y.snd.rtxq && e.pdu.sn !in y.dropped
    && Count(y.wire, e.pdu.sn) == Count(x.wire, e.pdu.sn) + 1
  }

  /** Given up. */
  ghost predicate GivenUp(x: Side, y: Side, e: RtxEntry) {
    && e.pdu.sn !in Sns(y.snd.rtxq) && e.pdu.sn in y.dropped
    && Count(y.wire, e.pdu.sn) == Count(x.wire, e.pdu.sn)
  }

  ghost predicate Untouched(x: Side, y: Side, e: RtxEntry) {
    && e in y.snd.rtxq && e.pdu.sn !in y.dropped
    && Count(y.wire, e.pdu.sn) == Count(x.wire, e.pdu.sn)
  }

  /** The same, of one scan. */
  ghost predicate ScannedEntry(e: RtxEntry, scan: Scan, max: nat, reached: bool) {
    if !reached then e in scan.q && Count(scan.resent, e.pdu.sn) == 0
    else if e.retries + 1 < max
    then RtxEntry(e.pdu, e.ts, e.retries + 1) in scan.q && Count(scan.resent, e.pdu.sn) == 1
    else e.pdu.sn !in Sns(scan.q) && Count(scan.resent, e.pdu.sn) == 0
  }

  lemma NotResent(q: seq<RtxEntry>, scan: Scan, max: nat, sn: nat)
    requires ScanOk(q, scan, max) && sn !in Sns(q)
    ensures sn !in Sns(scan.q) && Count(scan.resent, sn) == 0
  {
    CountAbsent(scan.resent, sn);
  }

  lemma HeadNotInTail(q: seq<RtxEntry>)
    requires q != [] && Ascending(q)
    ensures Ascending(q[1..]) && forall n :: n in Sns(q[1..]) ==> q[0].pdu.sn < n
  {
    assert forall i :: 0 <= i < |q[1..]| ==> q[1..][i] == q[i + 1];
  }

  lemma CountCons(p: Pdu, pdus: seq<Pdu>, sn: nat)
    ensures Count([p] + pdus, sn) == Count(pdus, sn) + if p.sn == sn then 1 else 0
  {
    assert ([p] + pdus)[1..] == pdus;
  }

  // ---------------------------------------------------------------- the retransmission timer

  /** The time an entry has: the square of its retries backs off, up to a minute. */
  ghost predicate Due(e: RtxEntry, now: nat, tr: nat) {
    now >= e.ts + (1 + e.retries * e.retries) * tr || now >= e.ts + 60000
  }

  ghost predicate AllDue(q: seq<RtxEntry>, i: nat, now: nat, tr: nat)
    requires i < |q|
  {
    forall j :: 0 <= j <= i ==> Due(q[j], now, tr)
  }

  lemma AllDueTail(q: seq<RtxEntry>, i: nat, now: nat, tr: nat)
    requires 0 < i < |q| && Due(q[0], now, tr)
    ensures AllDue(q, i, now, tr) <==> AllDue(q[1..], i - 1, now, tr)
  {
    assert forall j :: 0 < j <= i ==> q[j] == q[1..][j - 1];
    if AllDue(q, i, now, tr) {
      assert forall j :: 0 <= j <= i - 1 ==> q[1..][j] == q[j + 1];
    }
  }

  lemma ScanConsAt(d0: RtxEntry, rest: Scan, e: RtxEntry, max: nat, reached: bool)
    requires ScannedEntry(e, rest, max, reached) && e.pdu.sn != d0.pdu.sn
    ensures ScannedEntry(e, Scan(rest.q, rest.resent, [d0.pdu.sn] + rest.dropped), max, reached)
    ensures ScannedEntry(e, Scan([Retry(d0)] + rest.q, [d0.pdu] + rest.resent, rest.dropped), max, reached)
  {
    SnsCons(Retry(d0), rest.q);
    CountCons(d0.pdu, rest.resent, e.pdu.sn);
  }

  /** The head, when it is due. */
  lemma RtxScanHead(q: seq<RtxEntry>, now: nat, tr: nat, max: nat)
    requires q != [] && Ascending(q) && Due(q[0], now, tr)
    ensures ScannedEntry(q[0], RtxScan(q, now, tr, max), max, true)
  {
    HeadNotInTail(q);
    var rest := RtxScan(q[1..], now, tr, max);
    RtxScanOk(q[1..], now, tr, max);
    NotResent(q[1..], rest, max, q[0].pdu.sn);
    CountCons(q[0].pdu, rest.resent, q[0].pdu.sn);
  }

  lemma {:induction false} RtxScanAt(q: seq<RtxEntry>, i: nat, now: nat, tr: nat, max: nat)
    requires Ascending(q) && i < |q|
    ensures ScannedEntry(q[i], RtxScan(q, now, tr, max), max, AllDue(q, i, now, tr))
  {
    if !Due(q[0], now, tr) {
      assert RtxScan(q, now, tr, max) == Scan(q, [], []);
    } else if i == 0 {
      RtxScanHead(q, now, tr, max);
    } else {
      HeadNotInTail(q);
      RtxScanAt(q[1..], i - 1, now, tr, max);
      AllDueTail(q, i, now, tr);
      ScanConsAt(q[0], RtxScan(q[1..], now, tr, max), q[i], max, AllDue(q, i, now, tr));
    }
  }

  lemma ScannedIs(x: Side, y: Side, scan: Scan, e: RtxEntry, max: nat, reached: bool)
    requires ScannedEntry(e, scan, max, reached) && e in x.snd.rtxq && e.pdu.sn !in x.dropped
    requires y.snd.rtxq == scan.q && y.wire == x.wire + scan.resent
    requires y.dropped == x.dropped + (Sns(x.snd.rtxq) - Sns(scan.q))
    ensures if !reached then Untouched(x, y, e)
            else if e.retries + 1 < max then Resent(x, y, e)
            else GivenUp(x, y, e)
  {
    CountConcat(x.wire, scan.resent, e.pdu.sn);
    InSns(x.snd.rtxq, e);
    if !reached {
      InSns(scan.q, e);
    } else if e.retries + 1 < max {
      InSns(scan.q, RtxEntry(e.pdu, e.ts, e.retries + 1));
    }
  }

  lemma QueuedNotDropped(cfg: Config, x: Side, e: RtxEntry)
    requires Inv(cfg, x) && e in x.snd.rtxq
    ensures e.pdu.sn !in x.dropped
  {
    InSns(x.snd.rtxq, e);
  }

  /** In every run, when the timer fires, an entry is sent once more or given up if and only
      if it and every entry before it have had their time: from its stamp, (1 + k * k) times
      `tr` after k retries, and never more than 60000.  It is given up if and only if this
      retry reaches data_retransmit_max. */
  lemma RetransmittedIffDue(cfg: Config, events: seq<Event>, now: nat, tr: nat, i: nat)
    requires i < |Run(cfg, events).snd.rtxq|
    ensures var x, y := Run(cfg, events), Run(cfg, events + [RtxFires(now, tr)]);
            var e := x.snd.rtxq[i];
            if !AllDue(x.snd.rtxq, i, now, tr) then Untouched(x, y, e)
            else if e.retries + 1 < cfg.max then Resent(x, y, e)
            else GivenUp(x, y, e)
  {
    EveryRunKeepsInv(cfg, events);
    RunSnoc(cfg, events, RtxFires(now, tr));
    var x := Run(cfg, events);
    var q := x.snd.rtxq;
    RtxScanAt(q, i, now, tr, cfg.max);
    QueuedNotDropped(cfg, x, q[i]);
    ScannedIs(x, OnRtx(x, now, tr, cfg.max), RtxScan(q, now, tr, cfg.max), q[i], cfg.max, AllDue(q, i, now, tr));
  }

  // ---------------------------------------------------------------- what is given up

  lemma {:induction false} MaxOfIs(sns: seq<nat>)
    ensures forall n :: n in sns ==> n <= MaxOf(sns)
    ensures sns != [] ==> MaxOf(sns) in sns
  {
    if sns != [] {
      MaxOfIs(sns[1..]);
      assert forall n :: n in sns ==> n == sns[0] || n in sns[1..];
    }
  }

  /** What a scan drops is what it leaves out. */
  ghost predicate DropsExactly(q: seq<RtxEntry>, scan: Scan) {
    forall n :: n in scan.dropped <==> n in Sns(q) && n !in Sns(scan.q)
  }

  lemma DropsHead(d0: RtxEntry, t: seq<RtxEntry>, rest: Scan)
    requires DropsExactly(t, rest) && d0.pdu.sn !in Sns(t) && Sns(rest.q) <= Sns(t)
    ensures DropsExactly([d0] + t, Scan(rest.q, rest.resent, [d0.pdu.sn] + rest.dropped))
    ensures DropsExactly([d0] + t, Scan([Retry(d0)] + rest.q, [d0.pdu] + rest.resent, rest.dropped))
  {
    SnsCons(d0, t);
    SnsCons(Retry(d0), rest.q);
  }

  lemma {:induction false} RtxScanDrops(q: seq<RtxEntry>, now: nat, tr: nat, max: nat)
    requires Ascending(q)
    ensures DropsExactly(q, RtxScan(q, now, tr, max))
  {
    if q != [] && Due(q[0], now, tr) {
      HeadNotInTail(q);
      RtxScanDrops(q[1..], now, tr, max);
      RtxScanOk(q[1..], now, tr, max);
      HeadAndTail(q);
      DropsHead(q[0], q[1..], RtxScan(q[1..], now, tr, max));
    }
  }

  /** The left edge moves up to the largest number given up, and nowhere else. */
  ghost predicate EdgeFollows(x: Side, y: Side) {
    && x.snd.sndLft <= y.snd.sndLft
    && (forall n :: n in y.dropped - x.dropped ==> n <= y.snd.sndLft)
    && (y.snd.sndLft == x.snd.sndLft || y.snd.sndLft in y.dropped - x.dropped)
  }

  lemma EdgeAfter(x: Side, y: Side, scan: Scan)
    requires DropsExactly(x.snd.rtxq, scan) && x.dropped !! Sns(x.snd.rtxq)
    requires y.dropped == x.dropped + (Sns(x.snd.rtxq) - Sns(scan.q))
    requires y.snd.sndLft == Max(x.snd.sndLft, MaxOf(scan.dropped))
    ensures EdgeFollows(x, y)
  {
    MaxOfIs(scan.dropped);
  }

  lemma EdgeStep(cfg: Config, x: Side, now: nat, tr: nat)
    requires Inv(cfg, x)
    ensures EdgeFollows(x, OnRtx(x, now, tr, cfg.max))
  {
    RtxScanDrops(x.snd.rtxq, now, tr, cfg.max);
    EdgeAfter(x, OnRtx(x, now, tr, cfg.max), RtxScan(x.snd.rtxq, now, tr, cfg.max));
  }

  /** In every run the timer moves the left edge up to the largest number it gives up. */
  lemma LeftEdgeFollowsDrops(cfg: Config, events: seq<Event>, now: nat, tr: nat)
    ensures EdgeFollows(Run(cfg, events), Run(cfg, events + [RtxFires(now, tr)]))
  {
    EveryRunKeepsInv(cfg, events);
    RunSnoc(cfg, events, RtxFires(now, tr));
    EdgeStep(cfg, Run(cfg, events), now, tr);
  }

  lemma {:induction false} SnsSize(q: seq<RtxEntry>)
    requires Ascending(q)
    ensures |Sns(q)| == |q|
  {
    if q != [] {
      HeadNotInTail(q);
      SnsSize(q[1..]);
      HeadAndTail(q);
      SnsCons(q[0], q[1..]);
    }
  }

  lemma ScanDropsSize(q: seq<RtxEntry>, scan: Scan, max: nat)
    requires Ascending(q) && ScanOk(q, scan, max)
    ensures |Sns(q) - Sns(scan.q)| == |scan.dropped|
  {
    SnsSize(q);
    SnsSize(scan.q);
    assert Sns(q) == (Sns(q) - Sns(scan.q)) + Sns(scan.q);
  }

  // ---------------------------------------------------------------- negative acknowledgements

  lemma ScanSnocAt(d0: RtxEntry, rest: Scan, e: RtxEntry, max: nat, reached: bool)
    requires ScannedEntry(e, rest, max, reached) && e.pdu.sn != d0.pdu.sn
    ensures ScannedEntry(e, Scan(rest.q, rest.resent, [d0.pdu.sn] + rest.dropped), max, reached)
    ensures ScannedEntry(e, Scan(rest.q + [Retry(d0)], [d0.pdu] + rest.resent, rest.dropped), max, reached)
  {
    SnsSnoc(rest.q, Retry(d0));
    CountCons(d0.pdu, rest.resent, e.pdu.sn);
  }

  /** The last entry, when it is numbered at or above `sn`. */
  lemma NackScanLast(q: seq<RtxEntry>, sn: nat, max: nat)
    requires q != [] && Ascending(q) && q[|q| - 1].pdu.sn >= sn
    ensures ScannedEntry(q[|q| - 1], NackScan(q, sn, max), max, true)
  {
    var t, d0 := q[..|q| - 1], q[|q| - 1];
    PrefixSns(q);
    var rest := NackScan(t, sn, max);
    NackScanOk(t, sn, max);
    NotResent(t, rest, max, d0.pdu.sn);
    CountCons(d0.pdu, rest.resent, d0.pdu.sn);
    if d0.retries + 1 < max {
      assert (rest.q + [Retry(d0)])[|rest.q|] == Retry(d0);
    }
  }

  lemma {:induction false} NackScanAt(q: seq<RtxEntry>, i: nat, sn: nat, max: nat)
    requires Ascending(q) && i < |q|
    ensures ScannedEntry(q[i], NackScan(q, sn, max), max, q[i].pdu.sn >= sn)
  {
    var t, d0 := q[..|q| - 1], q[|q| - 1];
    if d0.pdu.sn < sn {
      assert NackScan(q, sn, max) == Scan(q, [], []);
    } else if i == |q| - 1 {
      NackScanLast(q, sn, max);
    } else {
      PrefixSns(q);
      NackScanAt(t, i, sn, max);
      ScanSnocAt(d0, NackScan(t, sn, max), q[i], max, q[i].pdu.sn >= sn);
    }
  }

  function AfterNack(x: Side, c: Ctrl, scan: Scan): Side {
    x.(snd := Scanned(x.snd.(lastRcvCtl := c.sn), scan), wire := x.wire + scan.resent,
       dropped := x.dropped + (Sns(x.snd.rtxq) - Sns(scan.q)))
  }

  lemma NackIs(x: Side, c: Ctrl, now: nat, max: nat)
    requires c.kind.Nack? && c.sn > x.snd.lastRcvCtl
    ensures OnControl(x, c, now, max) == AfterNack(x, c, NackScan(x.snd.rtxq, c.ack, max))
  {
  }

  /** In every run a new negative acknowledgement sends once more, or gives up, exactly the
      entries numbered at or above it; it is given up if and only if this retry reaches
      data_retransmit_max. */
  lemma NackedIffAtOrAbove(cfg: Config, events: seq<Event>, c: Ctrl, now: nat, i: nat)
    requires c.kind.Nack? && c.sn > Run(cfg, events).snd.lastRcvCtl
    requires i < |Run(cfg, events).snd.rtxq|
    ensures var x, y := Run(cfg, events), Run(cfg, events + [Control(c, now)]);
            var e := x.snd.rtxq[i];
            if e.pdu.sn < c.ack then Untouched(x, y, e)
            else if e.retries + 1 < cfg.max then Resent(x, y, e)
            else GivenUp(x, y, e)
  {
    EveryRunKeepsInv(cfg, events);
    RunSnoc(cfg, events, Control(c, now));
    var x := Run(cfg, events);
    var q := x.snd.rtxq;
    NackIs(x, c, now, cfg.max);
    NackScanAt(q, i, c.ack, cfg.max);
    QueuedNotDropped(cfg, x, q[i]);
    var scan := NackScan(q, c.ack, cfg.max);
    ScannedIs(x, AfterNack(x, c, scan), scan, q[i], cfg.max, q[i].pdu.sn >= c.ack);
  }

  // ---------------------------------------------------------------- acknowledgements

  /** The lookup finds exactly what is queued. */
  lemma {:induction false} FoundIffQueued(q: seq<RtxEntry>, sn: nat)
    requires Ascending(q)
    ensures Found(q, sn) <==> sn in Sns(q)
  {
    if q != [] {
      HeadNotInTail(q);
      FoundIffQueued(q[1..], sn);
      HeadAndTail(q);
      SnsCons(q[0], q[1..]);
    }
  }

  predicate IsAck(c: Ctrl) {
    c.kind.AckOnly? || c.kind.AckAndFc?
  }

  /** Whether a control PDU is to be acted on, from the queue's numbers. */
  ghost predicate Effective(x: Side, c: Ctrl) {
    c.sn > x.snd.lastRcvCtl && !c.kind.OtherCtrl? && (IsAck(c) ==> c.ack in Sns(x.snd.rtxq))
  }

  lemma OldIs(x: Side, c: Ctrl, now: nat, max: nat)
    requires c.sn <= x.snd.lastRcvCtl
    ensures OnControl(x, c, now, max) == x
  {
    assert x.wire + [] == x.wire && x.firsts + [] == x.firsts;
    assert Sns(x.snd.rtxq) - Sns(x.snd.rtxq) == {};
  }

  lemma IgnoredIs(x: Side, c: Ctrl, now: nat, max: nat)
    requires c.sn > x.snd.lastRcvCtl && (c.kind.OtherCtrl? || (IsAck(c) && !Found(x.snd.rtxq, c.ack)))
    ensures OnControl(x, c, now, max) == x.(snd := x.snd.(lastRcvCtl := c.sn))
  {
    assert x.wire + [] == x.wire && x.firsts + [] == x.firsts;
    assert Sns(x.snd.rtxq) - Sns(x.snd.rtxq) == {};
  }

  /** In every run an old control PDU changes nothing.  A new one of a kind not handled, or
      that acknowledges a number not queued, only has its own number remembered. */
  lemma IgnoredControl(cfg: Config, events: seq<Event>, c: Ctrl, now: nat)
    requires !Effective(Run(cfg, events), c)
    ensures var x := Run(cfg, events);
            Run(cfg, events + [Control(c, now)]) ==
            if c.sn <= x.snd.lastRcvCtl then x else x.(snd := x.snd.(lastRcvCtl := c.sn))
  {
    EveryRunKeepsInv(cfg, events);
    RunSnoc(cfg, events, Control(c, now));
    var x := Run(cfg, events);
    FoundIffQueued(x.snd.rtxq, c.ack);
    if c.sn <= x.snd.lastRcvCtl {
      OldIs(x, c, now, cfg.max);
    } else {
      IgnoredIs(x, c, now, cfg.max);
    }
  }

  /** The entries numbered above `ack`, which are a back of the queue. */
  ghost predicate AboveAck(q: seq<RtxEntry>, n: nat, ack: nat) {
    && n <= |q|
    && (forall i :: 0 <= i < n ==> q[i].pdu.sn <= ack)
    && forall i :: n <= i < |q| ==> q[i].pdu.sn > ack
  }

  /** How many entries a control PDU takes off the front of the queue. */
  ghost predicate AckTakes(q: seq<RtxEntry>, c: Ctrl, n: nat) {
    if IsAck(c) then AboveAck(q, n, c.ack) else n == 0
  }

  lemma AckLeaves(q: seq<RtxEntry>, n: nat, ack: nat)
    requires Ascending(q) && AboveAck(q, n, ack)
    ensures forall sn :: sn in Sns(q) - Sns(q[n..]) <==> sn in Sns(q) && sn <= ack
  {
    SuffixSns(q, n);
    assert forall i :: 0 <= i < |q[n..]| ==> q[n..][i] == q[n + i];
  }

  /** The acknowledging part of a control PDU: `n` entries leave the front of the queue. */
  ghost predicate AckedFront(x: Side, y: Side, c: Ctrl, n: nat) {
    && n <= |x.snd.rtxq| && AckTakes(x.snd.rtxq, c, n)
    && y.snd == x.snd.(lastRcvCtl := c.sn, rtxq := x.snd.rtxq[n..], len := y.snd.len,
                       sndLft := if IsAck(c) then c.ack + 1 else x.snd.sndLft)
    && y == x.(snd := y.snd, acked := x.acked + (Sns(x.snd.rtxq) - Sns(x.snd.rtxq[n..])))
  }

  lemma AckedFrontIs(x: Side, c: Ctrl)
    requires Ascending(x.snd.rtxq) && Acts(x.snd, c) && IsAck(c)
    ensures AckedFront(x, AckPart(x, c), c, AckedPrefix(x.snd.rtxq, c.ack))
  {
    AckedPrefixExact(x.snd.rtxq, c.ack);
  }

  lemma NothingAcked(x: Side, c: Ctrl)
    requires !IsAck(c)
    ensures AckedFront(x, AckPart(x, c), c, 0)
  {
    assert x.snd.rtxq[0..] == x.snd.rtxq && Sns(x.snd.rtxq) - Sns(x.snd.rtxq) == {};
  }

  lemma AckPartIs(cfg: Config, x: Side, c: Ctrl) returns (n: nat)
    requires Inv(cfg, x) && Acts(x.snd, c)
    ensures AckedFront(x, AckPart(x, c), c, n)
  {
    if IsAck(c) {
      AckedFrontIs(x, c);
      n := AckedPrefix(x.snd.rtxq, c.ack);
    } else {
      NothingAcked(x, c);
      n := 0;
    }
  }

  // ---------------------------------------------------------------- the closed-window queue

  /** How much of the closed-window queue the right edge lets out. */
  function LetOut(s: Sender): (k: nat)
    ensures k <= |s.cwq|
    ensures k == |s.cwq| || s.maxSeqNrSent + k >= s.sndRt
    ensures k == 0 || s.maxSeqNrSent + k <= s.sndRt
  {
    if s.maxSeqNrSent >= s.sndRt then 0
    else if |s.cwq| <= s.sndRt - s.maxSeqNrSent then |s.cwq|
    else s.sndRt - s.maxSeqNrSent
  }

  function Stamped(pdus: seq<Pdu>, now: nat): (q: seq<RtxEntry>)
    ensures |q| == |pdus| && forall i :: 0 <= i < |q| ==> q[i] == RtxEntry(pdus[i], now, 0)
  {
    seq(|pdus|, i requires 0 <= i < |pdus| => RtxEntry(pdus[i], now, 0))
  }

  /** `k` PDUs have moved from the closed-window queue to the wire. */
  ghost predicate SentFromQueue(x: Side, y: Side, k: nat, now: nat) {
    && k <= |x.snd.cwq| && y.snd.cwq == x.snd.cwq[k..] && y.snd.windowClosed == (y.snd.cwq != [])
    && y.wire == x.wire + x.snd.cwq[..k]
    && y.snd.rtxq == x.snd.rtxq + Stamped(x.snd.cwq[..k], now)
    && y.snd.maxSeqNrSent == x.snd.maxSeqNrSent + k
    && y.snd.sndLft == if k == 0 then x.snd.sndLft else y.snd.maxSeqNrSent
  }

  lemma SentOneMore(x: Side, x1: Side, y: Side, k: nat, now: nat)
    requires x.snd.cwq != [] && SentFromQueue(x1, y, k, now)
    requires x1.snd.cwq == x.snd.cwq[1..] && x1.wire == x.wire + [x.snd.cwq[0]]
    requires x1.snd.rtxq == x.snd.rtxq + [RtxEntry(x.snd.cwq[0], now, 0)]
    requires x1.snd.maxSeqNrSent == x1.snd.sndLft == x.snd.maxSeqNrSent + 1
    ensures SentFromQueue(x, y, k + 1, now)
  {
    var q, pdu := x.snd.cwq, x.snd.cwq[0];
    assert q[1..][k..] == q[k + 1..];
    assert q[..k + 1] == [pdu] + q[1..][..k];
    ConcatAssociates(x.wire, [pdu], q[1..][..k]);
    assert Stamped(q[..k + 1], now) == [RtxEntry(pdu, now, 0)] + Stamped(q[1..][..k], now);
    ConcatAssociates(x.snd.rtxq, [RtxEntry(pdu, now, 0)], Stamped(q[1..][..k], now));
  }

  lemma NoneLetOut(x: Side, now: nat)
    requires x.snd.cwq == [] || x.snd.maxSeqNrSent >= x.snd.sndRt
    ensures LetOut(x.snd) == 0 && SentFromQueue(x, Delivered(x, now), 0, now)
  {
    assert x.wire + [] == x.wire && x.snd.rtxq + [] == x.snd.rtxq;
  }

  /** The head of the closed-window queue goes out. */
  function HeadSent(x: Side, now: nat): Side
    requires x.snd.cwq != []
  {
    FirstSent(x.(snd := x.snd.(cwq := x.snd.cwq[1..])), x.snd.cwq[0], now)
  }

  lemma HeadSentIs(cfg: Config, x: Side, now: nat)
    requires SentInv(cfg, x) && CwqExact(x.snd) && x.snd.cwq != [] && x.snd.maxSeqNrSent < x.snd.sndRt
    ensures var x1, pdu := HeadSent(x, now), x.snd.cwq[0];
            && SentInv(cfg, x1) && CwqExact(x1.snd) && LetOut(x.snd) == LetOut(x1.snd) + 1
            && x1.snd.cwq == x.snd.cwq[1..] && x1.wire == x.wire + [pdu]
            && x1.snd.rtxq == x.snd.rtxq + [RtxEntry(pdu, now, 0)]
            && x1.snd.maxSeqNrSent == x1.snd.sndLft == x.snd.maxSeqNrSent + 1
  {
    FirstSentKeeps(cfg, x.(snd := x.snd.(cwq := x.snd.cwq[1..])), x.snd.cwq[0], now);
  }

  /** Draining sends exactly what the right edge lets out. */
  lemma {:induction false} DeliverExact(cfg: Config, x: Side, now: nat)
    requires SentInv(cfg, x) && CwqExact(x.snd)
    ensures SentFromQueue(x, Delivered(x, now), LetOut(x.snd), now)
    decreases |x.snd.cwq|
  {
    if x.snd.cwq == [] || x.snd.maxSeqNrSent >= x.snd.sndRt {
      NoneLetOut(x, now);
    } else {
      var x1 := HeadSent(x, now);
      HeadSentIs(cfg, x, now);
      DeliverStep(x, now);
      DeliverExact(cfg, x1, now);
      SentOneMore(x, x1, Delivered(x1, now), LetOut(x1.snd), now);
    }
  }

  // ---------------------------------------------------------------- control PDUs

  predicate MovesWindow(c: Ctrl) {
    c.kind.AckAndFc? || c.kind.FcOnly?
  }

  /**
  The effect of a control PDU that is not a Nack: `n` entries leave the front of the
  retransmission queue acknowledged, and `k` PDUs go from the closed-window queue to the wire
  and to the back of the retransmission queue.  What a PDU without a window edge lets out is
  nothing; one with an edge lets out everything up to it.  The left edge follows the last of
  the two.
  */
  ghost predicate Acted(x: Side, y: Side, c: Ctrl, n: nat, k: nat, now: nat) {
    && n <= |x.snd.rtxq| && k <= |x.snd.cwq| && AckTakes(x.snd.rtxq, c, n)
    && y.snd.rtxq == x.snd.rtxq[n..] + Stamped(x.snd.cwq[..k], now)
    && (forall sn :: sn in y.acked <==> sn in x.acked || (IsAck(c) && sn in Sns(x.snd.rtxq) && sn <= c.ack))
    && y.dropped == x.dropped && y.sdus == x.sdus && y.snd.lastRcvCtl == c.sn
    && y.wire == x.wire + x.snd.cwq[..k] && y.snd.cwq == x.snd.cwq[k..]
    && y.snd.maxSeqNrSent == x.snd.maxSeqNrSent + k
    && y.snd.sndLft == (if k > 0 then y.snd.maxSeqNrSent else if IsAck(c) then c.ack + 1 else x.snd.sndLft)
    && if MovesWindow(c)
       then y.snd.sndRt == c.rwe && (k == |x.snd.cwq| || y.snd.maxSeqNrSent >= c.rwe)
            && (k == 0 || y.snd.maxSeqNrSent <= c.rwe)
       else y.snd.sndRt == x.snd.sndRt && k == 0
  }

  lemma AckOnlyIs(x: Side, c: Ctrl, now: nat, max: nat)
    requires Acts(x.snd, c) && c.kind.AckOnly?
    ensures OnControl(x, c, now, max) == AckPart(x, c)
  {
    assert x.wire + [] == x.wire && x.firsts + [] == x.firsts;
  }

  function Reopened(x: Side, c: Ctrl): Side {
    var x1 := AckPart(x, c);
    x1.(snd := x1.snd.(sndRt := c.rwe))
  }

  lemma ReopenedKeeps(cfg: Config, x: Side, c: Ctrl)
    requires Inv(cfg, x) && Acts(x.snd, c)
    ensures SentInv(cfg, Reopened(x, c)) && CwqExact(Reopened(x, c).snd) && AllGenuine(Reopened(x, c), cfg.seq0)
  {
    AckPartKeeps(cfg, x, c);
  }

  lemma WindowIs(cfg: Config, x: Side, c: Ctrl, now: nat)
    requires Inv(cfg, x) && Acts(x.snd, c) && MovesWindow(c)
    ensures OnControl(x, c, now, cfg.max) == Delivered(Reopened(x, c), now)
  {
    AckPartKeeps(cfg, x, c);
    var x2 := Reopened(x, c);
    DeliverFrame(x2, now);
    DeliverKeeps(cfg, x2, now);
    QueuedWasSent(cfg, x);
    DeliveredGone(Sns(x.snd.rtxq), Sns(x2.snd.rtxq), x2, Delivered(x2, now));
  }

  lemma AckedAre(cfg: Config, x: Side, c: Ctrl, n: nat)
    requires Inv(cfg, x) && n <= |x.snd.rtxq| && AckTakes(x.snd.rtxq, c, n)
    ensures forall sn :: sn in x.acked + (Sns(x.snd.rtxq) - Sns(x.snd.rtxq[n..])) <==>
                         sn in x.acked || (IsAck(c) && sn in Sns(x.snd.rtxq) && sn <= c.ack)
  {
    if IsAck(c) {
      AckLeaves(x.snd.rtxq, n, c.ack);
    } else {
      assert x.snd.rtxq[0..] == x.snd.rtxq;
    }
  }

  lemma AckOnlyActs(cfg: Config, x: Side, y: Side, c: Ctrl, n: nat, now: nat)
    requires Inv(cfg, x) && c.kind.AckOnly? && AckedFront(x, y, c, n)
    ensures Acted(x, y, c, n, 0, now)
  {
    AckedAre(cfg, x, c, n);
    assert x.snd.rtxq[n..] + Stamped([], now) == x.snd.rtxq[n..];
    assert x.wire + [] == x.wire;
  }

  /** The sender between the acknowledgement and the drain. */
  ghost predicate ReopenedFrom(x: Side, x2: Side, c: Ctrl, n: nat) {
    && n <= |x.snd.rtxq| && AckTakes(x.snd.rtxq, c, n)
    && x2.snd == x.snd.(lastRcvCtl := c.sn, rtxq := x.snd.rtxq[n..], len := x2.snd.len,
                        sndLft := if IsAck(c) then c.ack + 1 else x.snd.sndLft, sndRt := c.rwe)
    && x2 == x.(snd := x2.snd, acked := x.acked + (Sns(x.snd.rtxq) - Sns(x.snd.rtxq[n..])))
  }

  lemma DeliveryActs(cfg: Config, x: Side, x2: Side, y: Side, c: Ctrl, n: nat, now: nat)
    requires Inv(cfg, x) && MovesWindow(c) && ReopenedFrom(x, x2, c, n)
    requires SentFromQueue(x2, y, LetOut(x2.snd), now)
    requires y == x2.(snd := y.snd, wire := y.wire, firsts := y.firsts)
    requires y.snd.sndRt == c.rwe && y.snd.lastRcvCtl == c.sn
    ensures Acted(x, y, c, n, LetOut(x2.snd), now)
  {
    AckedAre(cfg, x, c, n);
  }

  lemma WindowActs(cfg: Config, x: Side, x2: Side, c: Ctrl, n: nat, now: nat)
    requires Inv(cfg, x) && MovesWindow(c) && ReopenedFrom(x, x2, c, n)
    requires SentInv(cfg, x2) && CwqExact(x2.snd)
    ensures Acted(x, Delivered(x2, now), c, n, LetOut(x2.snd), now)
  {
    DeliverFrame(x2, now);
    DeliverExact(cfg, x2, now);
    DeliveryActs(cfg, x, x2, Delivered(x2, now), c, n, now);
  }

  /** What an effective control PDU other than a Nack makes of the sender. */
  function AfterControl(x: Side, c: Ctrl, now: nat): Side {
    if MovesWindow(c) then Delivered(Reopened(x, c), now) else AckPart(x, c)
  }

  lemma ControlIs(cfg: Config, x: Side, c: Ctrl, now: nat)
    requires Inv(cfg, x) && Effective(x, c) && !c.kind.Nack?
    ensures Acts(x.snd, c) && OnControl(x, c, now, cfg.max) == AfterControl(x, c, now)
  {
    FoundIffQueued(x.snd.rtxq, c.ack);
    if MovesWindow(c) {
      WindowIs(cfg, x, c, now);
    } else {
      AckOnlyIs(x, c, now, cfg.max);
    }
  }

  /** Acted, with the two numbers read off the queues. */
  ghost predicate ActedOn(x: Side, y: Side, c: Ctrl, now: nat) {
    var k := y.snd.maxSeqNrSent - x.snd.maxSeqNrSent;
    var n := |x.snd.rtxq| + k - |y.snd.rtxq|;
    k >= 0 && n >= 0 && Acted(x, y, c, n, k, now)
  }

  lemma ActedSizes(x: Side, y: Side, c: Ctrl, n: nat, k: nat, now: nat)
    requires Acted(x, y, c, n, k, now)
    ensures ActedOn(x, y, c, now)
  {
  }

  lemma WindowStep(cfg: Config, x: Side, c: Ctrl, now: nat)
    requires Inv(cfg, x) && Acts(x.snd, c) && MovesWindow(c)
    ensures ActedOn(x, Delivered(Reopened(x, c), now), c, now)
  {
    var x2 := Reopened(x, c);
    ReopenedKeeps(cfg, x, c);
    var n := AckPartIs(cfg, x, c);
    assert ReopenedFrom(x, x2, c, n);
    WindowActs(cfg, x, x2, c, n, now);
    ActedSizes(x, Delivered(x2, now), c, n, LetOut(x2.snd), now);
  }

  lemma ControlStep(cfg: Config, x: Side, c: Ctrl, now: nat)
    requires Inv(cfg, x) && Effective(x, c) && !c.kind.Nack?
    ensures ActedOn(x, OnControl(x, c, now, cfg.max), c, now)
  {
    ControlIs(cfg, x, c, now);
    if MovesWindow(c) {
      WindowStep(cfg, x, c, now);
    } else {
      var n := AckPartIs(cfg, x, c);
      AckOnlyActs(cfg, x, AckPart(x, c), c, n, now);
      ActedSizes(x, AckPart(x, c), c, n, 0, now);
    }
  }

  /** In every run an effective control PDU removes exactly the entries it acknowledges, sets
      the right edge it carries and sends exactly what that edge lets out, in order. */
  lemma EffectiveControl(cfg: Config, events: seq<Event>, c: Ctrl, now: nat)
    requires Effective(Run(cfg, events), c) && !c.kind.Nack?
    ensures ActedOn(Run(cfg, events), Run(cfg, events + [Control(c, now)]), c, now)
  {
    EveryRunKeepsInv(cfg, events);
    RunSnoc(cfg, events, Control(c, now));
    ControlStep(cfg, Run(cfg, events), c, now);
  }

  // ---------------------------------------------------------------- writing

  /** The PDU goes out, and a copy stamped `now` to the back of the retransmission queue. */
  ghost predicate WentOut(x: Side, y: Side, pdu: Pdu, now: nat) {
    && y.wire == x.wire + [pdu] && y.snd.rtxq == x.snd.rtxq + [RtxEntry(pdu, now, 0)]
    && x.snd.cwq == y.snd.cwq == []
  }

  /** The PDU waits at the back of the closed-window queue. */
  ghost predicate Waits(x: Side, y: Side, pdu: Pdu) {
    && y.wire == x.wire && y.snd.rtxq == x.snd.rtxq && y.snd.cwq == x.snd.cwq + [pdu]
  }

  /** A write takes the next number, and goes out at once if and only if that is within the
      right edge. */
  ghost predicate Written(cfg: Config, x: Side, y: Side, data: seq<Byte>, now: nat) {
    var pdu := Pdu(cfg.seq0 + |x.sdus| + 1, true, data);
    && y.sdus == x.sdus + [data] && y.snd.sndRt == x.snd.sndRt
    && if pdu.sn <= x.snd.sndRt then WentOut(x, y, pdu, now) else Waits(x, y, pdu)
  }

  lemma WriteStep(cfg: Config, x: Side, data: seq<Byte>, now: nat)
    requires Inv(cfg, x)
    ensures Written(cfg, x, OnWrite(x, data, now), data, now)
  {
    var pdu := NextPdu(x.snd, data);
    if pdu.sn <= x.snd.sndRt {
      FirstSentKeeps(cfg, Numbered(x, data), pdu, now);
    }
    WriteIs(x, data, now);
    assert pdu == Pdu(cfg.seq0 + |x.sdus| + 1, true, data);
  }

  /** What a write does in every run. */
  lemma WriteGoesOutIff(cfg: Config, events: seq<Event>, data: seq<Byte>, now: nat)
    ensures Written(cfg, Run(cfg, events), Run(cfg, events + [Writes(data, now)]), data, now)
  {
    EveryRunKeepsInv(cfg, events);
    RunSnoc(cfg, events, Writes(data, now));
    WriteStep(cfg, Run(cfg, events), data, now);
  }

  // ---------------------------------------------------------------- pushing on any queue

  /** Where the scan puts an entry below the last one: behind the first smaller one, unless it
      meets the same number before it. */
  ghost predicate GoesBehind(q: seq<RtxEntry>, sn: nat, i: nat) {
    i < |q| && q[i].pdu.sn < sn && forall j :: 0 <= j < i ==> q[j].pdu.sn > sn
  }

  /** Place `k` of the queue is where an entry numbered `sn` goes. */
  ghost predicate Place(q: seq<RtxEntry>, sn: nat, k: nat) {
    if q == [] || sn > q[|q| - 1].pdu.sn then k == |q|
    else sn != q[|q| - 1].pdu.sn && k > 0 && GoesBehind(q, sn, k - 1)
  }

  lemma {:induction false} InsertsBehind(q: seq<RtxEntry>, e: RtxEntry, i: nat)
    requires GoesBehind(q, e.pdu.sn, i)
    ensures InsertMiddle(q, e) == Pushed(q[..i + 1] + [e] + q[i + 1..], true)
  {
    if i == 0 {
      assert [q[0], e] + q[1..] == q[..1] + [e] + q[1..];
    } else {
      assert forall j :: 0 <= j < i ==> q[1..][j] == q[j + 1];
      InsertsBehind(q[1..], e, i - 1);
      InsertInTail(q, e, i);
    }
  }

  lemma BehindInTail(q: seq<RtxEntry>, sn: nat, i: nat)
    requires q != [] && q[0].pdu.sn > sn
    ensures GoesBehind(q[1..], sn, i) <==> GoesBehind(q, sn, i + 1)
  {
    assert forall j :: 0 < j < |q| ==> q[j] == q[1..][j - 1];
    if GoesBehind(q, sn, i + 1) {
      assert forall j :: 0 <= j < i ==> q[1..][j] == q[j + 1];
    }
  }

  lemma {:induction false} InsertsNothing(q: seq<RtxEntry>, e: RtxEntry)
    requires forall i: nat :: !GoesBehind(q, e.pdu.sn, i)
    ensures InsertMiddle(q, e) == Pushed(q, false)
  {
    if q != [] && e.pdu.sn < q[0].pdu.sn {
      forall i: nat ensures !GoesBehind(q[1..], e.pdu.sn, i) {
        BehindInTail(q, e.pdu.sn, i);
      }
      InsertsNothing(q[1..], e);
    } else if q != [] && e.pdu.sn > q[0].pdu.sn {
      assert GoesBehind(q, e.pdu.sn, 0);
    }
  }

  /** On any queue, ordered or not, an entry is pushed into its place if it has one; otherwise
      the push fails and leaves the queue alone. */
  lemma PushPlaces(q: seq<RtxEntry>, e: RtxEntry)
    ensures forall k: nat :: Place(q, e.pdu.sn, k) ==>
              k <= |q| && RtxPush(q, e) == Pushed(q[..k] + [e] + q[k..], true)
    ensures (forall k: nat :: !Place(q, e.pdu.sn, k)) ==> RtxPush(q, e) == Pushed(q, false)
  {
    var sn := e.pdu.sn;
    forall k: nat | Place(q, sn, k) ensures k <= |q| && RtxPush(q, e) == Pushed(q[..k] + [e] + q[k..], true) {
      if q == [] || sn > q[|q| - 1].pdu.sn {
        assert q[..k] + [e] + q[k..] == q + [e];
      } else {
        InsertsBehind(q, e, k - 1);
      }
    }
    if forall k: nat :: !Place(q, sn, k) {
      assert !Place(q, sn, |q|);
      if sn != q[|q| - 1].pdu.sn {
        forall i: nat ensures !GoesBehind(q, sn, i) {
          assert !Place(q, sn, i + 1);
        }
        InsertsNothing(q, e);
      }
    }
  }

  // ---------------------------------------------------------------- the drop counter

  lemma ScanCounts(cfg: Config, x: Side, y: Side, scan: Scan)
    requires Inv(cfg, x) && ScanOk(x.snd.rtxq, scan, cfg.max) && x.snd.dropPdus == |x.dropped|
    requires y.snd.dropPdus == x.snd.dropPdus + |scan.dropped|
    requires y.dropped == x.dropped + (Sns(x.snd.rtxq) - Sns(scan.q))
    ensures y.snd.dropPdus == |y.dropped|
  {
    ScanDropsSize(x.snd.rtxq, scan, cfg.max);
    assert x.dropped !! Sns(x.snd.rtxq) - Sns(scan.q);
  }

  lemma NackCounts(cfg: Config, x: Side, c: Ctrl, now: nat)
    requires Inv(cfg, x) && x.snd.dropPdus == |x.dropped| && c.kind.Nack? && c.sn > x.snd.lastRcvCtl
    ensures var y := OnControl(x, c, now, cfg.max); y.snd.dropPdus == |y.dropped|
  {
    NackIs(x, c, now, cfg.max);
    NackScanOk(x.snd.rtxq, c.ack, cfg.max);
    var scan := NackScan(x.snd.rtxq, c.ack, cfg.max);
    ScanCounts(cfg, x, AfterNack(x, c, scan), scan);
  }

  lemma AckDropsNothing(cfg: Config, x: Side, c: Ctrl, now: nat)
    requires Inv(cfg, x) && Acts(x.snd, c)
    ensures var y := AfterControl(x, c, now); y.snd.dropPdus == x.snd.dropPdus && y.dropped == x.dropped
  {
    var _ := AckPartIs(cfg, x, c);
    if MovesWindow(c) {
      ReopenedKeeps(cfg, x, c);
      DeliverFrame(Reopened(x, c), now);
    }
  }

  lemma ControlCounts(cfg: Config, x: Side, c: Ctrl, now: nat)
    requires Inv(cfg, x) && x.snd.dropPdus == |x.dropped|
    ensures var y := OnControl(x, c, now, cfg.max); y.snd.dropPdus == |y.dropped|
  {
    if c.sn <= x.snd.lastRcvCtl {
      OldIs(x, c, now, cfg.max);
    } else if !Effective(x, c) {
      FoundIffQueued(x.snd.rtxq, c.ack);
      IgnoredIs(x, c, now, cfg.max);
    } else if c.kind.Nack? {
      NackCounts(cfg, x, c, now);
    } else {
      ControlIs(cfg, x, c, now);
      AckDropsNothing(cfg, x, c, now);
    }
  }

  lemma WriteCounts(x: Side, data: seq<Byte>, now: nat)
    ensures var y := OnWrite(x, data, now); y.snd.dropPdus == x.snd.dropPdus && y.dropped == x.dropped
  {
  }

  lemma RtxCounts(cfg: Config, x: Side, now: nat, tr: nat)
    requires Inv(cfg, x) && x.snd.dropPdus == |x.dropped|
    ensures var y := OnRtx(x, now, tr, cfg.max); y.snd.dropPdus == |y.dropped|
  {
    RtxScanOk(x.snd.rtxq, now, tr, cfg.max);
    ScanCounts(cfg, x, OnRtx(x, now, tr, cfg.max), RtxScan(x.snd.rtxq, now, tr, cfg.max));
  }

  lemma StepCounts(cfg: Config, x: Side, ev: Event)
    requires Inv(cfg, x) && x.snd.dropPdus == |x.dropped|
    ensures var y := Step(cfg, x, ev); y.snd.dropPdus == |y.dropped|
  {
    match ev
    case Writes(data, now) => WriteCounts(x, data, now);
    case Control(c, now) => ControlCounts(cfg, x, c, now);
    case RtxFires(now, tr) => RtxCounts(cfg, x, now, tr);
  }

  /** In every run drop_pdus counts the PDUs given up. */
  lemma {:induction false} DropsCounted(cfg: Config, events: seq<Event>)
    ensures var x := Run(cfg, events); x.snd.dropPdus == |x.dropped|
  {
    if events != [] {
      DropsCounted(cfg, events[..|events| - 1]);
      EveryRunKeepsInv(cfg, events[..|events| - 1]);
      StepCounts(cfg, Run(cfg, events[..|events| - 1]), events[|events| - 1]);
    }
  }
}
