/**
What each event does to the EFCP receiver, in every run: which PDUs it posts, which it
holds, which it drops, and what it sends back.
*/
module EfcpDelivery {
  import opened EfcpSender
  import opened EfcpReceiver
  import opened EfcpSenderRuns
  import opened EfcpReceiverRuns
  import opened Lists

  /** At most the first `k`. */
  function First(pdus: seq<Pdu>, k: nat): seq<Pdu> {
    if |pdus| <= k then pdus else pdus[..k]
  }

  function Pdus(q: seq<QEntry>): (r: seq<Pdu>)
    ensures |r| == |q| && forall i :: 0 <= i < |q| ==> r[i] == q[i].pdu
  {
    seq(|q|, i requires 0 <= i < |q| => q[i].pdu)
  }

  predicate Expired(e: QEntry, a: nat, now: nat) {
    e.ts + a <= now
  }

  /** The PDUs of the entries that have not expired. */
  function Fresh(q: seq<QEntry>, a: nat, now: nat): seq<Pdu> {
    if q == [] then []
    else (if Expired(q[0], a, now) then [] else [q[0].pdu]) + Fresh(q[1..], a, now)
  }

  /** No held PDU is the next one to deliver. */
  ghost predicate NothingReady(q: seq<QEntry>, lwe: nat) {
    q == [] || q[0].pdu.sn != lwe + 1
  }

  // ---------------------------------------------------------------- the two loops

  /** `ring` and then `more`, as far as they fit. */
  function Fitting(ring: seq<Pdu>, more: seq<Pdu>): seq<Pdu> {
    First(ring + more, TO_POST_LENGTH)
  }

  lemma RingPushes(ring: seq<Pdu>, p: Pdu, rest: seq<Pdu>)
    requires |ring| <= TO_POST_LENGTH
    ensures |RingPush(ring, p)| <= TO_POST_LENGTH
    ensures Fitting(RingPush(ring, p), rest) == Fitting(ring, [p] + rest)
  {
    if |ring| < TO_POST_LENGTH {
      assert RingPush(ring, p) + rest == ring + ([p] + rest);
    } else {
      assert (ring + rest)[..|ring|] == ring && (ring + ([p] + rest))[..|ring|] == ring;
      assert Fitting(ring, rest) == ring;
    }
  }

  lemma RingEmpty(ring: seq<Pdu>)
    requires |ring| <= TO_POST_LENGTH
    ensures Fitting(ring, []) == ring
  {
    assert ring + [] == ring;
  }

  lemma PdusCons(q: seq<QEntry>, n: nat)
    requires 0 < n <= |q|
    ensures Pdus(q[..n]) == [q[0].pdu] + Pdus(q[1..][..n - 1])
  {
  }

  /** The drain takes the longest front in order and leaves nothing deliverable. */
  lemma {:induction false} DrainTakes(q: seq<QEntry>, lwe: nat, ring: seq<Pdu>)
    ensures var d := Drain(q, lwe, ring);
            var n := d.lwe - lwe;
            && 0 <= n <= |q| && d.seqq == q[n..] && NothingReady(d.seqq, d.lwe)
            && forall i :: 0 <= i < n ==> q[i].pdu.sn == lwe + 1 + i
  {
    if q != [] && q[0].pdu.sn == lwe + 1 {
      DrainTakes(q[1..], lwe + 1, RingPush(ring, q[0].pdu));
      var n := Drain(q, lwe, ring).lwe - lwe;
      assert q[1..][n - 1..] == q[n..];
      assert forall i :: 0 < i < n ==> q[i] == q[1..][i - 1];
    }
  }

  lemma {:induction false} DrainPosts(q: seq<QEntry>, lwe: nat, ring: seq<Pdu>)
    requires |ring| <= TO_POST_LENGTH
    ensures var d := Drain(q, lwe, ring);
            lwe <= d.lwe <= lwe + |q| && d.ring == Fitting(ring, Pdus(q[..d.lwe - lwe]))
  {
    if q != [] && q[0].pdu.sn == lwe + 1 {
      RingPushes(ring, q[0].pdu, []);
      DrainPosts(q[1..], lwe + 1, RingPush(ring, q[0].pdu));
      var n := Drain(q, lwe, ring).lwe - lwe;
      PdusCons(q, n);
      RingPushes(ring, q[0].pdu, Pdus(q[1..][..n - 1]));
    } else {
      RingEmpty(ring);
    }
  }

  lemma FreshCons(q: seq<QEntry>, n: nat, a: nat, now: nat)
    requires 0 < n <= |q|
    ensures Fresh(q[..n], a, now) ==
            (if Expired(q[0], a, now) then [] else [q[0].pdu]) + Fresh(q[1..][..n - 1], a, now)
  {
    assert q[..n][1..] == q[1..][..n - 1];
  }

  /** The A-timer walks over expired entries and in-order ones, and stops at the first entry
      that is neither. */
  ghost predicate Walked(q: seq<QEntry>, lwe: nat, d: Drained, a: nat, now: nat) {
    var n := |q| - |d.seqq|;
    && n >= 0 && d.seqq == q[n..] && NothingReady(d.seqq, d.lwe)
    && (d.seqq != [] ==> !Expired(d.seqq[0], a, now))
    && InSequence(Fresh(q[..n], a, now), lwe, d.lwe)
  }

  lemma WalkedMore(q: seq<QEntry>, lwe: nat, d: Drained, a: nat, now: nat)
    requires q != [] && Walked(q[1..], if Expired(q[0], a, now) then lwe else lwe + 1, d, a, now)
    requires Expired(q[0], a, now) || q[0].pdu.sn == lwe + 1
    ensures Walked(q, lwe, d, a, now)
  {
    var n := |q| - |d.seqq|;
    FreshCons(q, n, a, now);
    assert q[1..][n - 1..] == q[n..];
  }

  lemma {:induction false} AExpireWalks(q: seq<QEntry>, lwe: nat, ring: seq<Pdu>, a: nat, now: nat)
    ensures Walked(q, lwe, AExpire(q, lwe, ring, a, now), a, now)
  {
    if q != [] {
      if Expired(q[0], a, now) {
        AExpireWalks(q[1..], lwe, ring, a, now);
        WalkedMore(q, lwe, AExpire(q, lwe, ring, a, now), a, now);
      } else if q[0].pdu.sn == lwe + 1 {
        AExpireWalks(q[1..], lwe + 1, RingPush(ring, q[0].pdu), a, now);
        WalkedMore(q, lwe, AExpire(q, lwe, ring, a, now), a, now);
      }
    }
  }

  lemma PostedMore(q: seq<QEntry>, n: nat, ring: seq<Pdu>, a: nat, now: nat)
    requires 0 < n <= |q| && |ring| <= TO_POST_LENGTH
    ensures var ring1 := if Expired(q[0], a, now) then ring else RingPush(ring, q[0].pdu);
            && |ring1| <= TO_POST_LENGTH
            && Fitting(ring1, Fresh(q[1..][..n - 1], a, now)) == Fitting(ring, Fresh(q[..n], a, now))
  {
    FreshCons(q, n, a, now);
    if Expired(q[0], a, now) {
      assert [] + Fresh(q[1..][..n - 1], a, now) == Fresh(q[1..][..n - 1], a, now);
    } else {
      RingPushes(ring, q[0].pdu, Fresh(q[1..][..n - 1], a, now));
    }
  }

  lemma AExpireStep(q: seq<QEntry>, lwe: nat, ring: seq<Pdu>, a: nat, now: nat)
    requires q != [] && (Expired(q[0], a, now) || q[0].pdu.sn == lwe + 1)
    ensures AExpire(q, lwe, ring, a, now) ==
            if Expired(q[0], a, now) then AExpire(q[1..], lwe, ring, a, now)
            else AExpire(q[1..], lwe + 1, RingPush(ring, q[0].pdu), a, now)
  {
  }

  lemma {:induction false} AExpirePosts(q: seq<QEntry>, lwe: nat, ring: seq<Pdu>, a: nat, now: nat)
    requires |ring| <= TO_POST_LENGTH
    ensures var d := AExpire(q, lwe, ring, a, now);
            |d.seqq| <= |q| && d.ring == Fitting(ring, Fresh(q[..|q| - |d.seqq|], a, now))
  {
    if q == [] || (!Expired(q[0], a, now) && q[0].pdu.sn != lwe + 1) {
      RingEmpty(ring);
    } else {
      var ring1 := if Expired(q[0], a, now) then ring else RingPush(ring, q[0].pdu);
      var lwe1 := if Expired(q[0], a, now) then lwe else lwe + 1;
      AExpireStep(q, lwe, ring, a, now);
      AExpirePosts(q[1..], lwe1, ring1, a, now);
      PostedMore(q, |q| - |AExpire(q[1..], lwe1, ring1, a, now).seqq|, ring, a, now);
    }
  }

  // ---------------------------------------------------------------- nothing deliverable waits

  /** Where the drain of an arrival within the window ends. */
  function ArrivalDrain(r: Receiver, p: Pdu, now: nat): Drained {
    if p.sn == r.lwe + 1 then Drain(r.seqq, p.sn, RingPush([], p))
    else Drain(SeqqPush(r.seqq, QEntry(p, now)), r.lwe, [])
  }

  lemma ArrivalQueue(r: Receiver, p: Pdu, a: nat, credit: nat, now: nat)
    requires a != 0
    ensures var z, d := Receive(r, p, a, credit, now).rcv, ArrivalDrain(r, p, now);
            || (z.seqq == r.seqq && z.lwe == r.lwe)
            || z.seqq == []
            || (z.seqq == d.seqq && z.lwe == d.lwe)
  {
  }

  lemma ArrivalDrainLeaves(r: Receiver, p: Pdu, now: nat)
    ensures var d := ArrivalDrain(r, p, now); NothingReady(d.seqq, d.lwe)
  {
    if p.sn == r.lwe + 1 {
      DrainTakes(r.seqq, p.sn, RingPush([], p));
    } else {
      DrainTakes(SeqqPush(r.seqq, QEntry(p, now)), r.lwe, []);
    }
  }

  lemma ArrivalLeavesNothingReady(r: Receiver, p: Pdu, a: nat, credit: nat, now: nat)
    requires a != 0 && NothingReady(r.seqq, r.lwe)
    ensures var z := Receive(r, p, a, credit, now).rcv; NothingReady(z.seqq, z.lwe)
  {
    ArrivalQueue(r, p, a, credit, now);
    ArrivalDrainLeaves(r, p, now);
  }

  lemma StepLeavesNothingReady(cfg: Config, y: RSide, ev: REvent)
    requires cfg.a != 0 && NothingReady(y.rcv.seqq, y.rcv.lwe)
    ensures var z := RStep(cfg, y, ev); NothingReady(z.rcv.seqq, z.rcv.lwe)
  {
    match ev
    case Arrives(p, now) => ArrivalLeavesNothingReady(y.rcv, p, cfg.a, cfg.credit, now);
    case AFires(now) => AExpireWalks(y.rcv.seqq, y.rcv.lwe, [], cfg.a, now);
  }

  /** In every run no PDU is held that could be delivered: the head of the resequencing
      queue is never the successor of the left edge. */
  lemma {:induction false} NothingDeliverableWaits(cfg: Config, events: seq<REvent>)
    ensures var r := RRun(cfg, events).rcv; NothingReady(r.seqq, r.lwe)
  {
    if cfg.a == 0 {
      EveryRunKeepsRInv(cfg, events);
    } else if events != [] {
      NothingDeliverableWaits(cfg, events[..|events| - 1]);
      StepLeavesNothingReady(cfg, RRun(cfg, events[..|events| - 1]), events[|events| - 1]);
    }
  }

  // ---------------------------------------------------------------- arrivals

  /** What SvUpdate sends when the left edge has moved to `lwe`. */
  function AckOf(y: RSide, lwe: nat, credit: nat): Ctrl {
    Ctrl(AckAndFc, |y.ctl| + 1, lwe, lwe + credit)
  }

  /** The first PDU accepted must carry the data run flag; it is posted, and acknowledged
      unless its number is 0. */
  lemma FirstArrival(cfg: Config, events: seq<REvent>, p: Pdu, now: nat)
    requires RRun(cfg, events).rcv.drfRequired
    ensures var y, z := RRun(cfg, events), RRun(cfg, events + [Arrives(p, now)]);
            && z.rcv.drfRequired == !p.drf
            && (!p.drf ==> z.rcv == y.rcv && z.posted == y.posted && z.ctl == y.ctl == [])
            && (p.drf ==> && z.rcv.lwe == p.sn && z.rcv.rwe == p.sn + cfg.credit && z.rcv.seqq == []
                          && z.posted == y.posted + [p]
                          && z.ctl == if p.sn == 0 then [] else [AckOf(y, p.sn, cfg.credit)])
  {
    EveryRunKeepsRInv(cfg, events);
    RunSnoc(cfg, events, Arrives(p, now));
    var y := RRun(cfg, events);
    assert y.posted + [] == y.posted && y.ctl == [];
  }

  /** A duplicate or a PDU beyond the right edge changes nothing and is not answered. */
  lemma OutsideWindowIsDropped(cfg: Config, events: seq<REvent>, p: Pdu, now: nat)
    requires var r := RRun(cfg, events).rcv; !r.drfRequired && !(r.lwe < p.sn <= r.rwe)
    ensures var y := RRun(cfg, events);
            RRun(cfg, events + [Arrives(p, now)]) == y.(arrived := y.arrived + {p})
  {
    RunSnoc(cfg, events, Arrives(p, now));
    var y := RRun(cfg, events);
    assert y.posted + [] == y.posted && y.ctl + [] == y.ctl;
  }

  /**
  The next PDU in order is posted.  Behind it come the `n` PDUs held that now are in order,
  as far as the ring takes them, the left edge moves over all of them, and one control PDU
  acknowledges it.
  */
  ghost predicate PostedInOrder(cfg: Config, y: RSide, z: RSide, p: Pdu, n: nat) {
    && n <= |y.rcv.seqq| && (forall i :: 0 <= i < n ==> y.rcv.seqq[i].pdu.sn == p.sn + 1 + i)
    && z.rcv.lwe == p.sn + n && z.rcv.seqq == y.rcv.seqq[n..] && NothingReady(z.rcv.seqq, z.rcv.lwe)
    && z.posted == y.posted + First([p] + Pdus(y.rcv.seqq[..n]), TO_POST_LENGTH)
    && z.ctl == y.ctl + [AckOf(y, z.rcv.lwe, cfg.credit)] && z.rcv.rwe == z.rcv.lwe + cfg.credit
  }

  /** The receiver after posting, when the left edge has moved. */
  function AfterPost(cfg: Config, y: RSide, d: Drained): RSide {
    RSide(Receiver(y.rcv.drfRequired, d.lwe, d.lwe + cfg.credit, d.lwe, |y.ctl| + 1, d.seqq),
          y.arrived, y.posted + d.ring, y.ctl + [AckOf(y, d.lwe, cfg.credit)])
  }

  lemma PostIs(cfg: Config, y: RSide, d: Drained)
    requires EdgesExact(cfg, y) && y.rcv.lwe < d.lwe
    ensures Record(y, SvUpdate(y.rcv.(lwe := d.lwe, seqq := d.seqq), cfg.credit, d.ring)) == AfterPost(cfg, y, d)
  {
  }

  /** Where the delivery of `p`, in order, ends. */
  function DeliveryOf(q: seq<QEntry>, p: Pdu, a: nat): Drained {
    if a == 0 then Drained(q, p.sn, [p]) else Drain(q, p.sn, [p])
  }

  lemma InOrderIs(cfg: Config, y: RSide, p: Pdu, now: nat)
    requires EdgesExact(cfg, y) && !y.rcv.drfRequired && p.sn == y.rcv.lwe + 1 <= y.rcv.rwe
    ensures RStep(cfg, y, Arrives(p, now)) ==
            AfterPost(cfg, y.(arrived := y.arrived + {p}), DeliveryOf(y.rcv.seqq, p, cfg.a))
  {
    var d := DeliveryOf(y.rcv.seqq, p, cfg.a);
    DrainTakes(y.rcv.seqq, p.sn, [p]);
    assert RingPush([], p) == [p];
    PostIs(cfg, y.(arrived := y.arrived + {p}), d);
  }

  ghost predicate DeliveredFrom(q: seq<QEntry>, p: Pdu, d: Drained, n: nat) {
    && n <= |q| && (forall i :: 0 <= i < n ==> q[i].pdu.sn == p.sn + 1 + i)
    && d.lwe == p.sn + n && d.seqq == q[n..] && NothingReady(d.seqq, d.lwe)
    && d.ring == First([p] + Pdus(q[..n]), TO_POST_LENGTH)
  }

  lemma DeliveryIs(q: seq<QEntry>, p: Pdu, a: nat)
    requires a == 0 ==> q == []
    ensures var d := DeliveryOf(q, p, a); d.lwe >= p.sn && DeliveredFrom(q, p, d, d.lwe - p.sn)
  {
    if a == 0 {
      assert [p] + Pdus(q[..0]) == [p];
    } else {
      DrainTakes(q, p.sn, [p]);
      DrainPosts(q, p.sn, [p]);
    }
  }

  lemma DeliveryPosts(cfg: Config, y: RSide, x: RSide, p: Pdu, d: Drained, n: nat)
    requires DeliveredFrom(y.rcv.seqq, p, d, n) && x == y.(arrived := x.arrived)
    ensures PostedInOrder(cfg, y, AfterPost(cfg, x, d), p, n)
  {
  }

  lemma PostsFirst(cfg: Config, y: RSide, z: RSide, p: Pdu, n: nat)
    requires PostedInOrder(cfg, y, z, p, n)
    ensures |y.posted| < |z.posted| && z.posted[..|y.posted|] == y.posted && z.posted[|y.posted|] == p
    ensures y.rcv.seqq == [] ==> z.rcv.lwe == p.sn && z.posted == y.posted + [p]
  {
    var more := First([p] + Pdus(y.rcv.seqq[..n]), TO_POST_LENGTH);
    assert more[0] == p;
  }

  /** The next PDU posted is `p`; with A zero it is the only one. */
  ghost predicate PostedNext(cfg: Config, y: RSide, z: RSide, p: Pdu) {
    && |y.posted| < |z.posted| && z.posted[..|y.posted|] == y.posted && z.posted[|y.posted|] == p
    && z.rcv.lwe >= p.sn && (cfg.a == 0 ==> z.rcv.lwe == p.sn && z.posted == y.posted + [p])
    && PostedInOrder(cfg, y, z, p, z.rcv.lwe - p.sn)
  }

  lemma DeliveryPostsNext(cfg: Config, y: RSide, x: RSide, p: Pdu, d: Drained, n: nat)
    requires DeliveredFrom(y.rcv.seqq, p, d, n) && x == y.(arrived := x.arrived)
    requires cfg.a == 0 ==> y.rcv.seqq == []
    ensures PostedNext(cfg, y, AfterPost(cfg, x, d), p)
  {
    DeliveryPosts(cfg, y, x, p, d, n);
    PostsFirst(cfg, y, AfterPost(cfg, x, d), p, n);
  }

  lemma InOrderStep(cfg: Config, y: RSide, p: Pdu, now: nat)
    requires RInv(cfg, y) && !y.rcv.drfRequired && p.sn == y.rcv.lwe + 1 <= y.rcv.rwe
    ensures PostedNext(cfg, y, RStep(cfg, y, Arrives(p, now)), p)
  {
    var d := DeliveryOf(y.rcv.seqq, p, cfg.a);
    InOrderIs(cfg, y, p, now);
    DeliveryIs(y.rcv.seqq, p, cfg.a);
    DeliveryPostsNext(cfg, y, y.(arrived := y.arrived + {p}), p, d, d.lwe - p.sn);
  }

  /** In every run the next PDU in order is posted at once, whatever A is, and acknowledged
      by exactly one control PDU. */
  lemma InOrderIsPosted(cfg: Config, events: seq<REvent>, p: Pdu, now: nat)
    requires var r := RRun(cfg, events).rcv; !r.drfRequired && p.sn == r.lwe + 1 <= r.rwe
    ensures PostedNext(cfg, RRun(cfg, events), RRun(cfg, events + [Arrives(p, now)]), p)
  {
    EveryRunKeepsRInv(cfg, events);
    RunSnoc(cfg, events, Arrives(p, now));
    InOrderStep(cfg, RRun(cfg, events), p, now);
  }

  /** With A zero a PDU after a gap is dropped without an answer. */
  lemma GapIsDropped(cfg: Config, events: seq<REvent>, p: Pdu, now: nat)
    requires cfg.a == 0
    requires var r := RRun(cfg, events).rcv; !r.drfRequired && r.lwe + 1 < p.sn
    ensures var y := RRun(cfg, events);
            RRun(cfg, events + [Arrives(p, now)]) == y.(arrived := y.arrived + {p})
  {
    EveryRunKeepsRInv(cfg, events);
    RunSnoc(cfg, events, Arrives(p, now));
    var y := RRun(cfg, events);
    assert y.posted + [] == y.posted && y.ctl + [] == y.ctl;
  }

  /** Where the scan puts a PDU below the last one held: behind the first smaller one, unless
      it meets the same number before it. */
  ghost predicate GoesBehind(q: seq<QEntry>, sn: nat, i: nat) {
    i < |q| && q[i].pdu.sn < sn && forall j :: 0 <= j < i ==> q[j].pdu.sn > sn
  }

  lemma {:induction false} InsertsBehind(q: seq<QEntry>, e: QEntry, i: nat)
    requires GoesBehind(q, e.pdu.sn, i)
    ensures SeqqInsert(q, e) == q[..i + 1] + [e] + q[i + 1..]
  {
    if i == 0 {
      assert [q[0], e] + q[1..] == q[..1] + [e] + q[1..];
    } else {
      assert forall j :: 0 <= j < i ==> q[1..][j] == q[j + 1];
      InsertsBehind(q[1..], e, i - 1);
      InsertInTail(q, e, i);
    }
  }

  lemma BehindInTail(q: seq<QEntry>, sn: nat, i: nat)
    requires q != [] && q[0].pdu.sn > sn
    ensures GoesBehind(q[1..], sn, i) <==> GoesBehind(q, sn, i + 1)
  {
    assert forall j :: 0 < j < |q| ==> q[j] == q[1..][j - 1];
    if GoesBehind(q, sn, i + 1) {
      assert forall j :: 0 <= j < i ==> q[1..][j] == q[j + 1];
    }
  }

  lemma {:induction false} InsertsNothing(q: seq<QEntry>, e: QEntry)
    requires forall i: nat :: !GoesBehind(q, e.pdu.sn, i)
    ensures SeqqInsert(q, e) == q
  {
    if q != [] && e.pdu.sn < q[0].pdu.sn {
      forall i: nat ensures !GoesBehind(q[1..], e.pdu.sn, i) {
        BehindInTail(q, e.pdu.sn, i);
      }
      InsertsNothing(q[1..], e);
    } else if q != [] && e.pdu.sn > q[0].pdu.sn {
      assert GoesBehind(q, e.pdu.sn, 0);
    }
  }

  /** Place `k` of the queue is where a PDU numbered `sn` goes. */
  ghost predicate Place(q: seq<QEntry>, sn: nat, k: nat) {
    if q == [] || sn > q[|q| - 1].pdu.sn then k == |q|
    else sn != q[|q| - 1].pdu.sn && k > 0 && GoesBehind(q, sn, k - 1)
  }

  lemma PushPlaces(q: seq<QEntry>, e: QEntry, k: nat)
    requires Place(q, e.pdu.sn, k)
    ensures k <= |q| && SeqqPush(q, e) == q[..k] + [e] + q[k..]
  {
    if q == [] || e.pdu.sn > q[|q| - 1].pdu.sn {
      assert q[..k] + [e] + q[k..] == q + [e];
    } else {
      InsertsBehind(q, e, k - 1);
    }
  }

  lemma PushNowhere(q: seq<QEntry>, e: QEntry)
    requires forall k: nat :: !Place(q, e.pdu.sn, k)
    ensures SeqqPush(q, e) == q
  {
    assert !Place(q, e.pdu.sn, |q|);
    if e.pdu.sn != q[|q| - 1].pdu.sn {
      forall i: nat ensures !GoesBehind(q, e.pdu.sn, i) {
        assert !Place(q, e.pdu.sn, i + 1);
      }
      InsertsNothing(q, e);
    }
  }

  lemma PushReadiesNothing(q: seq<QEntry>, e: QEntry, lwe: nat)
    requires NothingReady(q, lwe) && e.pdu.sn != lwe + 1
    ensures NothingReady(SeqqPush(q, e), lwe)
  {
  }

  lemma OutOfOrderStep(cfg: Config, y: RSide, p: Pdu, now: nat)
    requires cfg.a != 0 && RInv(cfg, y) && NothingReady(y.rcv.seqq, y.rcv.lwe)
    requires !y.rcv.drfRequired && y.rcv.lwe + 1 < p.sn <= y.rcv.rwe
    ensures RStep(cfg, y, Arrives(p, now)) ==
            y.(arrived := y.arrived + {p}, rcv := y.rcv.(seqq := SeqqPush(y.rcv.seqq, QEntry(p, now))))
  {
    var q := SeqqPush(y.rcv.seqq, QEntry(p, now));
    PushReadiesNothing(y.rcv.seqq, QEntry(p, now), y.rcv.lwe);
    assert Drain(q, y.rcv.lwe, []) == Drained(q, y.rcv.lwe, []);
    assert y.posted + [] == y.posted && y.ctl + [] == y.ctl;
  }

  /** With A not zero a PDU after a gap is not posted and not answered.  It is stamped and put
      into its place of the queue, if it has one; otherwise nothing changes. */
  lemma OutOfOrderIsHeld(cfg: Config, events: seq<REvent>, p: Pdu, now: nat)
    requires cfg.a != 0
    requires var r := RRun(cfg, events).rcv; !r.drfRequired && r.lwe + 1 < p.sn <= r.rwe
    ensures var y, z := RRun(cfg, events), RRun(cfg, events + [Arrives(p, now)]);
            var q := y.rcv.seqq;
            && z == y.(arrived := y.arrived + {p}, rcv := y.rcv.(seqq := z.rcv.seqq))
            && (forall k: nat :: Place(q, p.sn, k) ==>
                  k <= |q| && z.rcv.seqq == q[..k] + [QEntry(p, now)] + q[k..])
            && ((forall k: nat :: !Place(q, p.sn, k)) ==> z.rcv.seqq == q)
  {
    EveryRunKeepsRInv(cfg, events);
    NothingDeliverableWaits(cfg, events);
    RunSnoc(cfg, events, Arrives(p, now));
    var y := RRun(cfg, events);
    var q := y.rcv.seqq;
    OutOfOrderStep(cfg, y, p, now);
    forall k: nat | Place(q, p.sn, k)
      ensures k <= |q| && SeqqPush(q, QEntry(p, now)) == q[..k] + [QEntry(p, now)] + q[k..]
    {
      PushPlaces(q, QEntry(p, now), k);
    }
    if forall k: nat :: !Place(q, p.sn, k) {
      PushNowhere(q, QEntry(p, now));
    }
  }

  // ---------------------------------------------------------------- the A-timer

  /**
  The timer takes a front off the queue: the expired entries are dropped, the others are
  exactly the successors of the left edge, in order, and are posted as far as the ring takes
  them.  It stops at the first entry that neither has expired nor is in order.  One control
  PDU acknowledges the new left edge, if it has moved.
  */
  ghost predicate TimerPosted(cfg: Config, y: RSide, z: RSide, now: nat) {
    var n := |y.rcv.seqq| - |z.rcv.seqq|;
    && n >= 0 && z.rcv.seqq == y.rcv.seqq[n..]
    && (z.rcv.seqq != [] ==> now < z.rcv.seqq[0].ts + cfg.a && z.rcv.seqq[0].pdu.sn != z.rcv.lwe + 1)
    && InSequence(Fresh(y.rcv.seqq[..n], cfg.a, now), y.rcv.lwe, z.rcv.lwe)
    && z.posted == y.posted + First(Fresh(y.rcv.seqq[..n], cfg.a, now), TO_POST_LENGTH)
    && z.ctl == y.ctl + if z.rcv.lwe == y.rcv.lwe then [] else [AckOf(y, z.rcv.lwe, cfg.credit)]
  }

  lemma ATimerIs(cfg: Config, y: RSide, now: nat)
    requires EdgesExact(cfg, y)
    ensures var d := AExpire(y.rcv.seqq, y.rcv.lwe, [], cfg.a, now);
            RStep(cfg, y, AFires(now)) ==
            if d.lwe == y.rcv.lwe then y.(rcv := y.rcv.(seqq := d.seqq), posted := y.posted + d.ring)
            else AfterPost(cfg, y, d)
  {
    var d := AExpire(y.rcv.seqq, y.rcv.lwe, [], cfg.a, now);
    AExpireWalks(y.rcv.seqq, y.rcv.lwe, [], cfg.a, now);
    if d.lwe == y.rcv.lwe {
      assert y.ctl + [] == y.ctl;
    } else {
      PostIs(cfg, y, d);
    }
  }

  lemma ATimerDelivers(q: seq<QEntry>, lwe: nat, a: nat, now: nat)
    ensures var d := AExpire(q, lwe, [], a, now);
            Walked(q, lwe, d, a, now) && d.ring == First(Fresh(q[..|q| - |d.seqq|], a, now), TO_POST_LENGTH)
  {
    AExpireWalks(q, lwe, [], a, now);
    AExpirePosts(q, lwe, [], a, now);
    var more := Fresh(q[..|q| - |AExpire(q, lwe, [], a, now).seqq|], a, now);
    assert [] + more == more;
  }

  lemma TimerPosts(cfg: Config, y: RSide, d: Drained, now: nat)
    requires Walked(y.rcv.seqq, y.rcv.lwe, d, cfg.a, now)
    requires d.ring == First(Fresh(y.rcv.seqq[..|y.rcv.seqq| - |d.seqq|], cfg.a, now), TO_POST_LENGTH)
    ensures var z := if d.lwe == y.rcv.lwe then y.(rcv := y.rcv.(seqq := d.seqq), posted := y.posted + d.ring)
                     else AfterPost(cfg, y, d);
            TimerPosted(cfg, y, z, now)
  {
    assert y.ctl + [] == y.ctl;
  }

  lemma ATimerStep(cfg: Config, y: RSide, now: nat)
    requires EdgesExact(cfg, y)
    ensures TimerPosted(cfg, y, RStep(cfg, y, AFires(now)), now)
  {
    ATimerIs(cfg, y, now);
    ATimerDelivers(y.rcv.seqq, y.rcv.lwe, cfg.a, now);
    TimerPosts(cfg, y, AExpire(y.rcv.seqq, y.rcv.lwe, [], cfg.a, now), now);
  }

  /** What the A-timer does in every run. */
  lemma ATimerPosts(cfg: Config, events: seq<REvent>, now: nat)
    ensures TimerPosted(cfg, RRun(cfg, events), RRun(cfg, events + [AFires(now)]), now)
  {
    EveryRunKeepsRInv(cfg, events);
    RunSnoc(cfg, events, AFires(now));
    ATimerStep(cfg, RRun(cfg, events), now);
  }

  lemma {:induction false} FreshBehindExpired(q: seq<QEntry>, i: nat, a: nat, now: nat)
    requires i <= |q| && forall j :: 0 <= j < i ==> Expired(q[j], a, now)
    ensures Fresh(q[..i], a, now) == []
    ensures forall n :: i < n <= |q| && !Expired(q[i], a, now) ==>
              Fresh(q[..n], a, now) != [] && Fresh(q[..n], a, now)[0] == q[i].pdu
  {
    if i > 0 {
      assert forall j :: 0 <= j < i - 1 ==> q[1..][j] == q[j + 1];
      FreshBehindExpired(q[1..], i - 1, a, now);
      FreshCons(q, i, a, now);
    }
    forall n | i < n <= |q| && !Expired(q[i], a, now)
      ensures Fresh(q[..n], a, now) != [] && Fresh(q[..n], a, now)[0] == q[i].pdu
    {
      FreshCons(q, n, a, now);
      assert i > 0 ==> q[1..][i - 1] == q[i];
    }
  }

  /** The first entry that has not expired. */
  ghost predicate IsFirstFresh(q: seq<QEntry>, i: nat, a: nat, now: nat) {
    i < |q| && !Expired(q[i], a, now) && forall j :: 0 <= j < i ==> Expired(q[j], a, now)
  }

  ghost predicate FirstDecides(cfg: Config, y: RSide, z: RSide, e: QEntry) {
    if e.pdu.sn == y.rcv.lwe + 1
    then && |y.posted| < |z.posted| && z.posted[..|y.posted|] == y.posted
         && z.posted[|y.posted|] == e.pdu && z.rcv.lwe >= e.pdu.sn
         && z.ctl == y.ctl + [AckOf(y, z.rcv.lwe, cfg.credit)]
    else && z.posted == y.posted && z.ctl == y.ctl && z.rcv.lwe == y.rcv.lwe
         && z.rcv.seqq != [] && z.rcv.seqq[0] == e
  }

  lemma WalkReachesFresh(cfg: Config, y: RSide, z: RSide, now: nat, i: nat)
    requires TimerPosted(cfg, y, z, now) && IsFirstFresh(y.rcv.seqq, i, cfg.a, now)
    ensures |y.rcv.seqq| - |z.rcv.seqq| >= i
    ensures |y.rcv.seqq| - |z.rcv.seqq| > i <==> y.rcv.seqq[i].pdu.sn == y.rcv.lwe + 1
  {
    var q := y.rcv.seqq;
    FreshBehindExpired(q, i, cfg.a, now);
    var n := |q| - |z.rcv.seqq|;
    assert z.rcv.seqq != [] ==> z.rcv.seqq[0] == q[n];
  }

  lemma FirstFreshDecides(cfg: Config, y: RSide, z: RSide, now: nat, i: nat)
    requires TimerPosted(cfg, y, z, now) && IsFirstFresh(y.rcv.seqq, i, cfg.a, now)
    ensures FirstDecides(cfg, y, z, y.rcv.seqq[i])
  {
    var q := y.rcv.seqq;
    WalkReachesFresh(cfg, y, z, now, i);
    FreshBehindExpired(q, i, cfg.a, now);
  }

  /** In every run the first entry that has not expired decides what the A-timer does: if it
      is in order it is the first PDU posted and the new left edge, at or above it, is
      acknowledged; otherwise nothing is posted or sent and it becomes the head. */
  lemma FirstUnexpired(cfg: Config, events: seq<REvent>, now: nat, i: nat)
    requires IsFirstFresh(RRun(cfg, events).rcv.seqq, i, cfg.a, now)
    ensures var y, z := RRun(cfg, events), RRun(cfg, events + [AFires(now)]);
            FirstDecides(cfg, y, z, y.rcv.seqq[i])
  {
    ATimerPosts(cfg, events, now);
    FirstFreshDecides(cfg, RRun(cfg, events), RRun(cfg, events + [AFires(now)]), now, i);
  }
}
