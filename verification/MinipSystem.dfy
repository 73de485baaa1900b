/**
Two MINIP endpoints and the network between them.  A run is any sequence of events; the
network may lose, duplicate and reorder, so a packet that was ever sent may arrive at any
later time, any number of times.  An event that is not enabled changes nothing.
*/
module MinipSystem {
  import opened Bytes
  import opened Lists
  import opened Minip
  import Rto

  /**
  `wire` and `acks` hold everything ever sent, `input` the bytes read from the sender's TCP
  socket, `output` the bytes written to the receiver's.  The last three fields are history:
  the payloads in sending order, whether an ACK above lastAcked has arrived, and the
  round-trip samples taken.
  */
  datatype Sys = Sys(
    snd: Sender, rcv: Receiver, wire: seq<Packet>, acks: seq<Ack>,
    input: seq<Byte>, output: seq<Byte>,
    chunks: seq<seq<Byte>>, progressed: bool, samples: seq<nat>)

  const INIT := Sys(NEW_SENDER, NEW_RECEIVER, [], [], [], [], [], false, [])

  datatype Event =
    | Read(avail: seq<Byte>, now: nat)
    | DataArrives(p: Packet, accepted: nat)
    | AckArrives(a: Ack, ackedAt: nat)
    | TimerFires(firedAt: nat)
    | SenderCloses
    | ReceiverCloses

  function Payloads(pkts: seq<Packet>): (r: seq<seq<Byte>>)
    ensures |r| == |pkts| && forall i :: 0 <= i < |pkts| ==> r[i] == pkts[i].payload
  {
    seq(|pkts|, i requires 0 <= i < |pkts| => pkts[i].payload)
  }

  function OnRead(s: Sys, avail: seq<Byte>, now: nat): Sys {
    if !s.snd.open then s
    else
      var (snd, pkts) := Forward(s.snd, avail, now);
      s.(snd := snd, wire := s.wire + pkts, chunks := s.chunks + Payloads(pkts),
         input := s.input + avail[..ReadSize(s.snd, avail)])
  }

  // A shut-down socket takes no bytes.
  function OnData(s: Sys, p: Packet, accepted: nat): Sys {
    if p !in s.wire || accepted > |p.payload| || (!s.rcv.open && accepted != 0) then s
    else
      var (rcv, out) := RecvData(s.rcv, p, accepted);
      s.(rcv := rcv, output := s.output + out, acks := s.acks + [Ack(rcv.nextRecv, p.ts)])
  }

  function Samples(s: Sys, a: Ack, now: nat): seq<nat> {
    if IsSample(s.snd, a, now) then s.samples + [RoundTrip(a, now)] else s.samples
  }

  function OnAck(s: Sys, a: Ack, now: nat): Sys {
    if a !in s.acks then s
    else
      var (snd, pkts) := RecvAck(s.snd, a, now);
      s.(snd := snd, wire := s.wire + pkts,
         progressed := s.progressed || a.ack > s.snd.lastAcked,
         samples := Samples(s, a, now))
  }

  function OnTimer(s: Sys, now: nat): Sys {
    var (snd, pkts) := Timeout(s.snd, now);
    s.(snd := snd, wire := s.wire + pkts)
  }

  function Step(s: Sys, ev: Event): Sys {
    match ev
    case Read(avail, now) => OnRead(s, avail, now)
    case DataArrives(p, accepted) => OnData(s, p, accepted)
    case AckArrives(a, now) => OnAck(s, a, now)
    case TimerFires(now) => OnTimer(s, now)
    case SenderCloses => s.(snd := s.snd.(open := false))
    case ReceiverCloses => s.(rcv := s.rcv.(open := false))
  }

  function Run(events: seq<Event>): Sys {
    if events == [] then INIT
    else Step(Run(events[..|events| - 1]), events[|events| - 1])
  }

  // ---------------------------------------------------------------- invariant

  const DATA0: nat := FIRST_SEQ + 1

  /** The queue holds the consecutive packets up to nextSeq - 1, with their payloads. */
  ghost predicate QueueIsRun(q: seq<Entry>, nextSeq: nat, chunks: seq<seq<Byte>>) {
    && |q| <= |chunks| == nextSeq - DATA0
    && forall i :: 0 <= i < |q| ==>
         && q[i].pkt.sn == nextSeq - |q| + i
         && q[i].pkt.payload == chunks[q[i].pkt.sn - DATA0]
         && q[i].retries <= MAX_RETRY
  }

  ghost function Base(snd: Sender): int {
    snd.nextSeq - |snd.rtxq|
  }

  ghost predicate QueueMatchesAcks(snd: Sender, nextRecv: nat, progressed: bool) {
    && Base(snd) <= nextRecv <= snd.nextSeq
    && if progressed then Base(snd) == snd.lastAcked + 1 else Base(snd) == DATA0 == snd.lastAcked
  }

  ghost predicate AcksAreGenuine(acks: seq<Ack>, nextRecv: nat) {
    forall a :: a in acks ==> DATA0 <= a.ack <= nextRecv
  }

  ghost predicate WireIsGenuine(wire: seq<Packet>, chunks: seq<seq<Byte>>) {
    forall p :: p in wire ==>
      DATA0 <= p.sn < DATA0 + |chunks| && p.payload == chunks[p.sn - DATA0]
  }

  ghost predicate OutputIsPrefix(output: seq<Byte>, rcv: Receiver, chunks: seq<seq<Byte>>) {
    && DATA0 <= rcv.nextRecv <= DATA0 + |chunks|
    && Flatten(chunks[..rcv.nextRecv - DATA0]) <= output <= Flatten(chunks)
    && (rcv.open ==> output == Flatten(chunks[..rcv.nextRecv - DATA0]))
  }

  ghost predicate WindowBound(snd: Sender) {
    snd.window <= WINDOW_SIZE && snd.window + |snd.rtxq| <= 17
  }

  function Count(pkts: seq<Packet>, sn: nat): nat {
    CountIf(pkts, (p: Packet) => p.sn == sn)
  }

  ghost predicate FewTransmissions(wire: seq<Packet>, q: seq<Entry>, nextSeq: nat) {
    && (forall i :: 0 <= i < |q| ==> Count(wire, q[i].pkt.sn) == 1 + q[i].retries)
    && forall sn: nat :: Count(wire, sn) <= if sn >= nextSeq then 0 else 1 + MAX_RETRY
  }

  ghost predicate Inv(s: Sys) {
    && QueueIsRun(s.snd.rtxq, s.snd.nextSeq, s.chunks)
    && s.snd.len == |s.snd.rtxq|
    && QueueMatchesAcks(s.snd, s.rcv.nextRecv, s.progressed)
    && AcksAreGenuine(s.acks, s.rcv.nextRecv)
    && WireIsGenuine(s.wire, s.chunks)
    && OutputIsPrefix(s.output, s.rcv, s.chunks)
    && Flatten(s.chunks) == s.input
    && WindowBound(s.snd)
    && FewTransmissions(s.wire, s.snd.rtxq, s.snd.nextSeq)
    && s.snd.estimate == Rto.History(s.samples)
  }

  // ---------------------------------------------------------------- sending

  lemma CountConcat(a: seq<Packet>, b: seq<Packet>, sn: nat)
    ensures Count(a + b, sn) == Count(a, sn) + Count(b, sn)
  {
    CountIfConcat(a, b, (p: Packet) => p.sn == sn);
  }

  ghost function Entries(pkts: seq<Packet>): (q: seq<Entry>)
    ensures |q| == |pkts| && forall i :: 0 <= i < |pkts| ==> q[i] == Entry(pkts[i], 0)
  {
    seq(|pkts|, i requires 0 <= i < |pkts| => Entry(pkts[i], 0))
  }

  /** Segmentation: one queue entry, one number and one credit per packet. */
  lemma {:induction false} SendDataState(s: Sender, buf: seq<Byte>, now: nat)
    ensures var (s', pkts) := SendData(s, buf, now);
            && s' == s.(nextSeq := s.nextSeq + |pkts|, len := s.len + |pkts|,
                        rtxq := s.rtxq + Entries(pkts),
                        window := if s.window > |pkts| then s.window - |pkts| else 0)
            && (|buf| <= MSS * s.window ==> |pkts| <= s.window)
    decreases |buf|
  {
    if buf != [] {
      var n := CopyLen(buf);
      var pkt := Packet(s.nextSeq, now, buf[..n]);
      var s1 := SendOne(s, pkt);
      SendDataState(s1, buf[n..], now);
      var rest := SendData(s1, buf[n..], now).1;
      assert s.rtxq + Entries([pkt] + rest) == s1.rtxq + Entries(rest);
      if |buf| <= MSS * s.window {
        assert |buf[n..]| <= MSS * s1.window;
      }
    } else {
      assert s.rtxq + Entries([]) == s.rtxq;
    }
  }

  lemma PayloadsCons(pkt: Packet, rest: seq<Packet>)
    ensures Flatten(Payloads([pkt] + rest)) == pkt.payload + Flatten(Payloads(rest))
  {
    assert Payloads([pkt] + rest)[1..] == Payloads(rest);
  }

  /** Every byte goes out once, in order, in non-empty packets numbered from nextSeq. */
  lemma {:induction false} SendDataPackets(s: Sender, buf: seq<Byte>, now: nat)
    ensures var pkts := SendData(s, buf, now).1;
            && Flatten(Payloads(pkts)) == buf
            && forall i :: 0 <= i < |pkts| ==> pkts[i].sn == s.nextSeq + i && 0 < |pkts[i].payload| <= MSS
    decreases |buf|
  {
    if buf != [] {
      var n := CopyLen(buf);
      var pkt := Packet(s.nextSeq, now, buf[..n]);
      SendDataPackets(SendOne(s, pkt), buf[n..], now);
      var rest := SendData(SendOne(s, pkt), buf[n..], now).1;
      PayloadsCons(pkt, rest);
      assert buf[..n] + buf[n..] == buf;
    }
  }

  lemma {:induction false} CountOfRun(pkts: seq<Packet>, from: nat, sn: nat)
    requires forall i :: 0 <= i < |pkts| ==> pkts[i].sn == from + i
    ensures Count(pkts, sn) == if from <= sn < from + |pkts| then 1 else 0
  {
    if pkts != [] {
      CountOfRun(pkts[1..], from + 1, sn);
    }
  }

  lemma SendKeepsCounts(s: Sender, pkts: seq<Packet>, wire: seq<Packet>)
    requires forall i :: 0 <= i < |s.rtxq| ==> s.rtxq[i].pkt.sn < s.nextSeq
    requires forall i :: 0 <= i < |pkts| ==> pkts[i].sn == s.nextSeq + i
    requires FewTransmissions(wire, s.rtxq, s.nextSeq)
    ensures FewTransmissions(wire + pkts, s.rtxq + Entries(pkts), s.nextSeq + |pkts|)
  {
    forall sn: nat
      ensures Count(wire + pkts, sn) == Count(wire, sn) + if s.nextSeq <= sn < s.nextSeq + |pkts| then 1 else 0
    {
      CountConcat(wire, pkts, sn);
      CountOfRun(pkts, s.nextSeq, sn);
    }
  }

  lemma FlattenPrefix(chunks: seq<seq<Byte>>, n: nat)
    requires n <= |chunks|
    ensures Flatten(chunks[..n]) <= Flatten(chunks)
  {
    assert chunks == chunks[..n] + chunks[n..];
    FlattenConcat(chunks[..n], chunks[n..]);
  }

  lemma SendKeepsQueue(q: seq<Entry>, nextSeq: nat, chunks: seq<seq<Byte>>, pkts: seq<Packet>)
    requires QueueIsRun(q, nextSeq, chunks)
    requires forall i :: 0 <= i < |pkts| ==> pkts[i].sn == nextSeq + i
    ensures QueueIsRun(q + Entries(pkts), nextSeq + |pkts|, chunks + Payloads(pkts))
  {
    var q', chunks' := q + Entries(pkts), chunks + Payloads(pkts);
    forall i | 0 <= i < |q'|
      ensures q'[i].pkt.sn == nextSeq - |q| + i && q'[i].retries <= MAX_RETRY
      ensures q'[i].pkt.payload == chunks'[q'[i].pkt.sn - DATA0]
    {
      if i < |q| {
        assert q'[i] == q[i];
      } else {
        assert q'[i] == Entry(pkts[i - |q|], 0);
      }
    }
  }

  lemma SendKeepsWire(wire: seq<Packet>, chunks: seq<seq<Byte>>, pkts: seq<Packet>)
    requires WireIsGenuine(wire, chunks)
    requires forall i :: 0 <= i < |pkts| ==> pkts[i].sn == DATA0 + |chunks| + i
    ensures WireIsGenuine(wire + pkts, chunks + Payloads(pkts))
  {
  }

  lemma SendKeepsOutput(output: seq<Byte>, rcv: Receiver, chunks: seq<seq<Byte>>, more: seq<seq<Byte>>)
    requires OutputIsPrefix(output, rcv, chunks)
    ensures OutputIsPrefix(output, rcv, chunks + more)
  {
    FlattenConcat(chunks, more);
    var n := rcv.nextRecv - DATA0;
    assert (chunks + more)[..n] == chunks[..n];
  }

  /** The sender after sending `pkts`. */
  ghost function AfterSend(snd: Sender, pkts: seq<Packet>): Sender
    requires |pkts| <= snd.window
  {
    snd.(nextSeq := snd.nextSeq + |pkts|, len := snd.len + |pkts|, rtxq := snd.rtxq + Entries(pkts),
         window := snd.window - |pkts|)
  }

  lemma SendKeepsInv(s: Sys, pkts: seq<Packet>)
    requires Inv(s) && |pkts| <= s.snd.window
    requires forall i :: 0 <= i < |pkts| ==> pkts[i].sn == s.snd.nextSeq + i
    ensures Inv(s.(snd := AfterSend(s.snd, pkts), wire := s.wire + pkts, chunks := s.chunks + Payloads(pkts),
                   input := s.input + Flatten(Payloads(pkts))))
  {
    SendKeepsCounts(s.snd, pkts, s.wire);
    SendKeepsQueue(s.snd.rtxq, s.snd.nextSeq, s.chunks, pkts);
    SendKeepsOutput(s.output, s.rcv, s.chunks, Payloads(pkts));
    FlattenConcat(s.chunks, Payloads(pkts));
    SendKeepsWire(s.wire, s.chunks, pkts);
  }

  lemma ReadKeepsInv(s: Sys, avail: seq<Byte>, now: nat)
    requires Inv(s) && s.snd.open
    ensures Inv(OnRead(s, avail, now))
  {
    var buf := avail[..ReadSize(s.snd, avail)];
    SendDataState(s.snd, buf, now);
    SendDataPackets(s.snd, buf, now);
    var (snd, pkts) := SendData(s.snd, buf, now);
    SendKeepsInv(s, pkts);
    assert snd == AfterSend(s.snd, pkts);
  }

  // ---------------------------------------------------------------- retransmitting

  ghost predicate SamePackets(q: seq<Entry>, q': seq<Entry>) {
    && |q| == |q'|
    && forall i :: 0 <= i < |q| ==>
         q'[i].pkt.sn == q[i].pkt.sn && q'[i].pkt.payload == q[i].pkt.payload && q'[i].retries <= MAX_RETRY
  }

  ghost predicate SentFrom(sent: seq<Packet>, q: seq<Entry>) {
    forall p :: p in sent ==> exists i :: 0 <= i < |q| && p == q[i].pkt
  }

  lemma {:induction false} RtxSentFrom(q: seq<Entry>, from: nat, now: nat)
    ensures var r := EntriesRtx(q, from, now); |r.q| == |q| && SentFrom(r.sent, r.q)
  {
    if q != [] && (q[0].pkt.sn < from || q[0].retries < MAX_RETRY) {
      var r, t := EntriesRtx(q, from, now), EntriesRtx(q[1..], from, now);
      RtxSentFrom(q[1..], from, now);
      assert r.q[1..] == t.q;
      forall p | p in r.sent ensures exists i :: 0 <= i < |r.q| && p == r.q[i].pkt {
        if p in t.sent {
          var i :| 0 <= i < |t.q| && p == t.q[i].pkt;
          assert r.q[i + 1] == t.q[i];
        } else {
          assert p == r.q[0].pkt;
        }
      }
    }
  }

  /** Retransmission changes timestamps and retry counts, nothing else. */
  lemma RtxPackets(q: seq<Entry>, from: nat, now: nat)
    requires forall i :: 0 <= i < |q| ==> q[i].retries <= MAX_RETRY
    ensures var r := EntriesRtx(q, from, now); SamePackets(q, r.q) && SentFrom(r.sent, r.q)
  {
    var r := EntriesRtx(q, from, now);
    RtxSentFrom(q, from, now);
    EntriesRtxExact(q, from, now);
    forall i | 0 <= i < |q|
      ensures r.q[i].pkt.sn == q[i].pkt.sn && r.q[i].pkt.payload == q[i].pkt.payload && r.q[i].retries <= MAX_RETRY
    {
      assert EntryRtx(q, r, from, now, i);
      assert Reached(q, from, i) ==> !Exhausted(q[i], from);
    }
  }

  /** Each retry counted is one packet sent. */
  lemma {:induction false} RtxCounts(q: seq<Entry>, from: nat, now: nat, base: nat, sn: nat)
    requires forall i :: 0 <= i < |q| ==> q[i].pkt.sn == base + i && q[i].retries <= MAX_RETRY
    ensures var r := EntriesRtx(q, from, now);
            && |r.q| == |q|
            && Count(r.sent, sn) == if base <= sn < base + |q| then r.q[sn - base].retries - q[sn - base].retries else 0
  {
    if q != [] && (q[0].pkt.sn < from || q[0].retries < MAX_RETRY) {
      var r, t := EntriesRtx(q, from, now), EntriesRtx(q[1..], from, now);
      assert forall i :: 0 < i < |q| ==> q[i] == q[1..][i - 1];
      RtxCounts(q[1..], from, now, base + 1, sn);
      if q[0].pkt.sn >= from {
        assert r.sent[1..] == t.sent;
      }
      if base < sn < base + |q| {
        assert r.q[sn - base] == t.q[sn - base - 1];
      }
    }
  }

  lemma RtxCountOne(wire: seq<Packet>, q: seq<Entry>, from: nat, now: nat, base: nat, sn: nat)
    requires forall i :: 0 <= i < |q| ==> q[i].pkt.sn == base + i && q[i].retries <= MAX_RETRY
    requires FewTransmissions(wire, q, base + |q|)
    ensures var r := EntriesRtx(q, from, now);
            && SamePackets(q, r.q)
            && Count(wire + r.sent, sn) <= (if sn >= base + |q| then 0 else 1 + MAX_RETRY)
            && (base <= sn < base + |q| ==> Count(wire + r.sent, sn) == 1 + r.q[sn - base].retries)
  {
    RtxPackets(q, from, now);
    CountConcat(wire, EntriesRtx(q, from, now).sent, sn);
    RtxCounts(q, from, now, base, sn);
    if base <= sn < base + |q| {
      assert q[sn - base].pkt.sn == sn;
    }
  }

  lemma RtxKeepsCounts(wire: seq<Packet>, q: seq<Entry>, from: nat, now: nat, base: nat)
    requires forall i :: 0 <= i < |q| ==> q[i].pkt.sn == base + i && q[i].retries <= MAX_RETRY
    requires FewTransmissions(wire, q, base + |q|)
    ensures var r := EntriesRtx(q, from, now);
            FewTransmissions(wire + r.sent, r.q, base + |q|)
  {
    var r := EntriesRtx(q, from, now);
    RtxPackets(q, from, now);
    forall sn: nat ensures Count(wire + r.sent, sn) <= if sn >= base + |q| then 0 else 1 + MAX_RETRY {
      RtxCountOne(wire, q, from, now, base, sn);
    }
    forall i | 0 <= i < |q| ensures Count(wire + r.sent, r.q[i].pkt.sn) == 1 + r.q[i].retries {
      RtxCountOne(wire, q, from, now, base, base + i);
      assert q[i].pkt.sn == base + i;
    }
  }

  lemma RtxKeepsQueue(q: seq<Entry>, q': seq<Entry>, nextSeq: nat, chunks: seq<seq<Byte>>)
    requires QueueIsRun(q, nextSeq, chunks) && SamePackets(q, q')
    ensures QueueIsRun(q', nextSeq, chunks)
  {
  }

  lemma RtxKeepsWire(wire: seq<Packet>, q: seq<Entry>, sent: seq<Packet>, nextSeq: nat, chunks: seq<seq<Byte>>)
    requires QueueIsRun(q, nextSeq, chunks) && WireIsGenuine(wire, chunks)
    requires SentFrom(sent, q)
    ensures WireIsGenuine(wire + sent, chunks)
  {
  }

  lemma RetransmitKeepsInv(s: Sys, from: nat, now: nat)
    requires Inv(s)
    ensures var (snd, pkts) := Retransmit(s.snd, from, now);
            Inv(s.(snd := snd, wire := s.wire + pkts))
  {
    var r := EntriesRtx(s.snd.rtxq, from, now);
    RtxPackets(s.snd.rtxq, from, now);
    RtxKeepsCounts(s.wire, s.snd.rtxq, from, now, Base(s.snd));
    RtxKeepsQueue(s.snd.rtxq, r.q, s.snd.nextSeq, s.chunks);
    RtxKeepsWire(s.wire, r.q, r.sent, s.snd.nextSeq, s.chunks);
  }

  // ---------------------------------------------------------------- acknowledging

  lemma {:induction false} AckedPrefixOfRun(q: seq<Entry>, ack: nat, base: nat)
    requires forall i :: 0 <= i < |q| ==> q[i].pkt.sn == base + i
    ensures AckedPrefix(q, ack) == if ack <= base then 0 else if ack - base <= |q| then ack - base else |q|
  {
    if q != [] {
      assert forall i :: 0 < i < |q| ==> q[i] == q[1..][i - 1];
      AckedPrefixOfRun(q[1..], ack, base + 1);
    }
  }

  lemma GoodAckCredit(s: Sys, a: Ack)
    requires Inv(s) && a in s.acks && a.ack > s.snd.lastAcked
    ensures AckedPrefix(s.snd.rtxq, a.ack) == a.ack - Base(s.snd)
  {
    AckedPrefixOfRun(s.snd.rtxq, a.ack, Base(s.snd));
  }

  lemma WindowAfterAck(window: nat, credit: nat, left: nat)
    requires window + credit + left <= 17
    ensures (window + credit) % 256 == window + credit
  {
  }

  lemma CwndAfter(g: Sender, n: nat)
    requires g.nextSeq - g.lastAcked == 1 + n && n <= 5 && g.window + n <= 17
    ensures Flight(g) == 1 + n && 1 <= UpdateCwnd(g).window <= WINDOW_SIZE
  {
  }

  lemma GoodAckWindow(s: Sys, a: Ack)
    requires Inv(s) && a in s.acks && a.ack > s.snd.lastAcked
    ensures var g := GoodAck(s.snd, a.ack);
            && g.window + |g.rtxq| == s.snd.window + |s.snd.rtxq| <= 17
            && g.len == |g.rtxq| && g.nextSeq - g.lastAcked == 1 + |g.rtxq|
  {
    GoodAckCredit(s, a);
    WindowAfterAck(s.snd.window, AckedPrefix(s.snd.rtxq, a.ack), |GoodAck(s.snd, a.ack).rtxq|);
  }

  /** On any good ACK that reconsiders the window at most six packets are in flight, so the
      window is never decreased, and the 8-bit window does not wrap. */
  lemma GoodAckFlight(s: Sys, a: Ack)
    requires Inv(s) && a in s.acks && a.ack > s.snd.lastAcked
    ensures var g := GoodAck(s.snd, a.ack);
            && g.window + |g.rtxq| == s.snd.window + |s.snd.rtxq| <= 17
            && (g.len < WINDOW_SIZE / 2 ==> Flight(g) == 1 + |g.rtxq| <= 6
                                            && 1 <= UpdateCwnd(g).window <= WINDOW_SIZE)
  {
    GoodAckWindow(s, a);
    var g := GoodAck(s.snd, a.ack);
    if g.len < WINDOW_SIZE / 2 {
      CwndAfter(g, |g.rtxq|);
    }
  }

  lemma DropFront(q: seq<Entry>, n: nat, nextSeq: nat, chunks: seq<seq<Byte>>, wire: seq<Packet>)
    requires n <= |q| && QueueIsRun(q, nextSeq, chunks) && FewTransmissions(wire, q, nextSeq)
    ensures QueueIsRun(q[n..], nextSeq, chunks) && FewTransmissions(wire, q[n..], nextSeq)
  {
    assert forall i :: 0 <= i < |q[n..]| ==> q[n..][i] == q[n + i];
  }

  lemma GoodAckKeepsInv(s: Sys, a: Ack)
    requires Inv(s) && a in s.acks && a.ack > s.snd.lastAcked
    ensures var g := GoodAck(s.snd, a.ack);
            Inv(s.(snd := if g.len < WINDOW_SIZE / 2 then UpdateCwnd(g) else g, progressed := true))
  {
    GoodAckCredit(s, a);
    GoodAckFlight(s, a);
    DropFront(s.snd.rtxq, AckedPrefix(s.snd.rtxq, a.ack), s.snd.nextSeq, s.chunks, s.wire);
  }

  lemma EstimateKeepsInv(s: Sys, estimate: Rto.Estimate, samples: seq<nat>)
    requires Inv(s) && estimate == Rto.History(samples)
    ensures Inv(s.(snd := s.snd.(estimate := estimate), samples := samples))
  {
  }

  lemma SampleKeepsInv(s: Sys, a: Ack, now: nat)
    requires Inv(s)
    ensures Inv(s.(snd := Sampled(s.snd, a, now), samples := Samples(s, a, now)))
  {
    if IsSample(s.snd, a, now) {
      Rto.HistorySnoc(s.samples, RoundTrip(a, now));
      EstimateKeepsInv(s, Rto.Update(s.snd.estimate, RoundTrip(a, now)), Samples(s, a, now));
    }
  }

  lemma RecoveryKeepsInv(s: Sys, dupAcks: nat)
    requires Inv(s)
    ensures Inv(s.(snd := s.snd.(dupAcks := dupAcks, phase := Recovery, sending := false)))
  {
  }

  function Recovering(snd: Sender, dupAcks: nat): Sender {
    snd.(dupAcks := dupAcks, phase := Recovery, sending := false)
  }

  lemma RecoveryRtxKeepsInv(s: Sys, dupAcks: nat, from: nat, now: nat)
    requires Inv(s)
    ensures var (snd, pkts) := Retransmit(Recovering(s.snd, dupAcks), from, now);
            Inv(s.(snd := snd, wire := s.wire + pkts))
  {
    RecoveryKeepsInv(s, dupAcks);
    RetransmitKeepsInv(s.(snd := Recovering(s.snd, dupAcks)), from, now);
  }

  lemma DupAckKeepsInv(s: Sys, ack: nat, now: nat)
    requires Inv(s)
    ensures var d := Recovering(s.snd, s.snd.dupAcks + 1);
            var (snd, pkts) := if d.dupAcks != 1 then (d, []) else Retransmit(d, ack, now);
            Inv(s.(snd := snd, wire := s.wire + pkts))
  {
    if s.snd.dupAcks == 0 {
      RecoveryRtxKeepsInv(s, 1, ack, now);
    } else {
      assert s.wire + [] == s.wire;
      RecoveryKeepsInv(s, s.snd.dupAcks + 1);
    }
  }

  lemma AckKeepsInv(s: Sys, a: Ack, now: nat)
    requires Inv(s) && a in s.acks
    ensures Inv(OnAck(s, a, now))
  {
    assert s.wire + [] == s.wire;
    SampleKeepsInv(s, a, now);
    var s1 := s.(snd := Sampled(s.snd, a, now), samples := Samples(s, a, now));
    if a.ack > s.snd.lastAcked {
      GoodAckKeepsInv(s1, a);
    } else if a.ack == s.snd.lastAcked {
      DupAckKeepsInv(s1, a.ack, now);
    } else {
      assert OnAck(s, a, now) == s;
    }
  }

  /** A retransmission during recovery, as a step of the system. */
  function RecoveryRtx(s: Sys, dupAcks: nat, from: nat, now: nat): Sys {
    var (snd, pkts) := Retransmit(Recovering(s.snd, dupAcks), from, now);
    s.(snd := snd, wire := s.wire + pkts)
  }

  lemma TimerIs(s: Sys, now: nat)
    ensures OnTimer(s, now) ==
            if s.snd.len == 0 then s else RecoveryRtx(s, s.snd.dupAcks, s.snd.lastAcked + 1, now)
  {
    if s.snd.len == 0 {
      assert s.wire + [] == s.wire;
    } else {
      assert s.snd.(sending := false, phase := Recovery) == Recovering(s.snd, s.snd.dupAcks);
    }
  }

  lemma TimerKeepsInv(s: Sys, now: nat)
    requires Inv(s)
    ensures Inv(OnTimer(s, now))
  {
    TimerIs(s, now);
    if s.snd.len != 0 {
      RecoveryRtxKeepsInv(s, s.snd.dupAcks, s.snd.lastAcked + 1, now);
    }
  }

  // ---------------------------------------------------------------- delivering

  lemma TakeOneMore(chunks: seq<seq<Byte>>, n: nat)
    requires n < |chunks|
    ensures Flatten(chunks[..n + 1]) == Flatten(chunks[..n]) + chunks[n]
  {
    assert chunks[..n + 1] == chunks[..n] + [chunks[n]];
    FlattenConcat(chunks[..n], [chunks[n]]);
    FlattenSingle(chunks[n]);
  }

  lemma OutputAfter(output: seq<Byte>, rcv: Receiver, chunks: seq<seq<Byte>>, p: Packet, accepted: nat)
    requires OutputIsPrefix(output, rcv, chunks) && p.sn == rcv.nextRecv < DATA0 + |chunks|
    requires p.payload == chunks[p.sn - DATA0] && accepted <= |p.payload| && (rcv.open || accepted == 0)
    ensures var (rcv', out) := RecvData(rcv, p, accepted); OutputIsPrefix(output + out, rcv', chunks)
  {
    var n := p.sn - DATA0;
    TakeOneMore(chunks, n);
    FlattenPrefix(chunks, n + 1);
    assert p.payload[..accepted] + p.payload[accepted..] == p.payload;
    if !rcv.open {
      assert output + [] == output;
    }
  }

  lemma ReceiverKeepsInv(s: Sys, rcv: Receiver, output: seq<Byte>, ack: Ack)
    requires Inv(s) && s.rcv.nextRecv <= rcv.nextRecv == ack.ack && OutputIsPrefix(output, rcv, s.chunks)
    ensures Inv(s.(rcv := rcv, output := output, acks := s.acks + [ack]))
  {
  }

  lemma DataKeepsInv(s: Sys, p: Packet, accepted: nat)
    requires Inv(s) && p in s.wire && accepted <= |p.payload| && (s.rcv.open || accepted == 0)
    ensures Inv(OnData(s, p, accepted))
  {
    var (rcv, out) := RecvData(s.rcv, p, accepted);
    if p.sn == s.rcv.nextRecv {
      OutputAfter(s.output, s.rcv, s.chunks, p, accepted);
    } else {
      assert s.output + [] == s.output;
    }
    ReceiverKeepsInv(s, rcv, s.output + out, Ack(rcv.nextRecv, p.ts));
  }

  // ---------------------------------------------------------------- runs

  lemma StepKeepsInv(s: Sys, ev: Event)
    requires Inv(s)
    ensures Inv(Step(s, ev))
  {
    match ev
    case Read(avail, now) =>
      if s.snd.open { ReadKeepsInv(s, avail, now); }
    case DataArrives(p, accepted) =>
      if p in s.wire && accepted <= |p.payload| && (s.rcv.open || accepted == 0) {
        DataKeepsInv(s, p, accepted);
      }
    case AckArrives(a, now) =>
      if a in s.acks { AckKeepsInv(s, a, now); }
    case TimerFires(now) => TimerKeepsInv(s, now);
    case SenderCloses =>
    case ReceiverCloses =>
  }

  lemma {:induction false} EveryRunKeepsInv(events: seq<Event>)
    ensures Inv(Run(events))
  {
    if events != [] {
      EveryRunKeepsInv(events[..|events| - 1]);
      StepKeepsInv(Run(events[..|events| - 1]), events[|events| - 1]);
    }
  }

  // ---------------------------------------------------------------- main results

  /** Whatever the network does, the receiver's socket has been given a prefix of what the
      sender's socket delivered: nothing skipped, nothing repeated. */
  lemma StreamSafety(events: seq<Event>)
    ensures Run(events).output <= Run(events).input
  {
    EveryRunKeepsInv(events);
  }

  ghost predicate Queued(q: seq<Entry>, sn: nat) {
    exists i :: 0 <= i < |q| && q[i].pkt.sn == sn
  }

  /** The queue is a consecutive run ending at nextSeq - 1 that still holds every packet the
      receiver has not accepted; after the first ACK above lastAcked it is exactly
      lastAcked + 1 .. nextSeq - 1. */
  lemma QueueExactness(events: seq<Event>)
    ensures var s := Run(events);
            && s.snd.len == |s.snd.rtxq|
            && QueueIsRun(s.snd.rtxq, s.snd.nextSeq, s.chunks)
            && (forall sn: nat :: Queued(s.snd.rtxq, sn) <==> s.snd.nextSeq - s.snd.len <= sn < s.snd.nextSeq)
            && (forall sn: nat :: s.rcv.nextRecv <= sn < s.snd.nextSeq ==> Queued(s.snd.rtxq, sn))
            && (s.progressed ==> s.snd.nextSeq - s.snd.len == s.snd.lastAcked + 1)
  {
    EveryRunKeepsInv(events);
    var s := Run(events);
    forall sn: nat ensures Queued(s.snd.rtxq, sn) <==> Base(s.snd) <= sn < s.snd.nextSeq {
      if Base(s.snd) <= sn < s.snd.nextSeq {
        assert s.snd.rtxq[sn - Base(s.snd)].pkt.sn == sn;
      }
    }
  }

  /** The window stays within WINDOW_SIZE, at most 17 packets are outstanding, and a good
      ACK never reaches the branch that shrinks the window. */
  lemma WindowNeverWraps(events: seq<Event>, a: Ack)
    ensures var s := Run(events);
            && s.snd.window <= WINDOW_SIZE && s.snd.window + |s.snd.rtxq| <= 17
            && (a in s.acks && a.ack > s.snd.lastAcked ==>
                  var g := GoodAck(s.snd, a.ack);
                  && g.window + |g.rtxq| == s.snd.window + |s.snd.rtxq|
                  && (g.len < WINDOW_SIZE / 2 ==> Flight(g) <= WINDOW_SIZE))
  {
    EveryRunKeepsInv(events);
    var s := Run(events);
    if a in s.acks && a.ack > s.snd.lastAcked {
      GoodAckFlight(s, a);
    }
  }

  // ---------------------------------------------------------------- the bound is reached

  lemma RunSnoc(events: seq<Event>, ev: Event)
    ensures Run(events + [ev]) == Step(Run(events), ev)
  {
    assert (events + [ev])[..|events|] == events;
  }

  ghost predicate Reaches(s: Sys) {
    exists events :: Run(events) == s
  }

  lemma ReachesNext(s: Sys, ev: Event)
    requires Reaches(s)
    ensures Reaches(Step(s, ev)) && Inv(Step(s, ev))
  {
    var events :| Run(events) == s;
    RunSnoc(events, ev);
    EveryRunKeepsInv(events + [ev]);
  }

  /** The i-th packet of the run below: one byte. */
  function OneByte(i: nat): Packet {
    Packet(DATA0 + i, 0, [0])
  }

  /** `k` packets of one byte are sent, nothing has arrived. */
  ghost predicate SentOnly(s: Sys, k: nat) {
    && s.rcv == NEW_RECEIVER && s.snd.open && s.snd.sending && !s.progressed
    && s.snd.nextSeq == DATA0 + k && s.snd.window == WINDOW_SIZE - k
    && forall i :: 0 <= i < k ==> OneByte(i) in s.wire
  }

  ghost predicate Sent(s: Sys, k: nat) {
    Reaches(s) && Inv(s) && SentOnly(s, k)
  }

  lemma SendOneByte(snd: Sender, buf: seq<Byte>)
    requires buf == [0]
    ensures var pkt := Packet(snd.nextSeq, 0, buf); SendData(snd, buf, 0) == (SendOne(snd, pkt), [pkt])
  {
    var n := CopyLen(buf);
    assert buf[..n] == buf && buf[n..] == [];
    var pkt := Packet(snd.nextSeq, 0, buf);
    assert SendData(SendOne(snd, pkt), buf[n..], 0) == (SendOne(snd, pkt), []);
    assert [pkt] + [] == [pkt];
  }

  lemma ReadOneByte(s: Sys)
    requires s.snd.open && CanSend(s.snd)
    ensures var t, pkt := Step(s, Read([0], 0)), Packet(s.snd.nextSeq, 0, [0]);
            t.snd == SendOne(s.snd, pkt) && t.wire == s.wire + [pkt] && t.rcv == s.rcv && t.progressed == s.progressed
  {
    var buf: seq<Byte> := [0];
    assert buf[..ReadSize(s.snd, buf)] == buf;
    SendOneByte(s.snd, buf);
  }

  lemma SentOneMore(s: Sys, k: nat)
    requires SentOnly(s, k) && k < WINDOW_SIZE
    ensures SentOnly(Step(s, Read([0], 0)), k + 1)
  {
    ReadOneByte(s);
  }

  lemma SentStep(s: Sys, k: nat)
    requires Sent(s, k) && k < WINDOW_SIZE
    ensures Sent(Step(s, Read([0], 0)), k + 1)
  {
    ReachesNext(s, Read([0], 0));
    SentOneMore(s, k);
  }

  ghost predicate CanSendFirst(k: nat) {
    exists s :: Sent(s, k)
  }

  lemma NothingSent()
    ensures CanSendFirst(0)
  {
    assert Run([]) == INIT;
    EveryRunKeepsInv([]);
    assert Sent(INIT, 0);
  }

  lemma SentNext(k: nat)
    requires CanSendFirst(k) && k < WINDOW_SIZE
    ensures CanSendFirst(k + 1)
  {
    var s :| Sent(s, k);
    SentStep(s, k);
  }

  lemma {:induction false} SentReached(k: nat)
    requires k <= WINDOW_SIZE
    ensures CanSendFirst(k)
  {
    if k == 0 {
      NothingSent();
    } else {
      SentReached(k - 1);
      SentNext(k - 1);
    }
  }

  /** All twelve are sent and `k` accepted. */
  ghost predicate Accepted(s: Sys, k: nat) {
    && Reaches(s) && Inv(s) && s.rcv == Receiver(DATA0 + k, true) && (k > 0 ==> Ack(DATA0 + k, 0) in s.acks)
    && s.snd.nextSeq == DATA0 + WINDOW_SIZE && s.snd.window == 0 && !s.progressed
    && forall i :: 0 <= i < WINDOW_SIZE ==> OneByte(i) in s.wire
  }

  lemma AcceptStep(s: Sys, k: nat)
    requires Accepted(s, k) && k < WINDOW_SIZE
    ensures Accepted(Step(s, DataArrives(OneByte(k), 1)), k + 1)
  {
    ReachesNext(s, DataArrives(OneByte(k), 1));
  }

  ghost predicate CanAccept(k: nat) {
    exists s :: Accepted(s, k)
  }

  lemma NothingAccepted()
    ensures CanAccept(0)
  {
    SentReached(WINDOW_SIZE);
    var s :| Sent(s, WINDOW_SIZE);
    assert Accepted(s, 0);
  }

  lemma AcceptedNext(k: nat)
    requires CanAccept(k) && k < WINDOW_SIZE
    ensures CanAccept(k + 1)
  {
    var s :| Accepted(s, k);
    AcceptStep(s, k);
  }

  lemma {:induction false} AcceptedReached(k: nat)
    requires k <= WINDOW_SIZE
    ensures CanAccept(k)
  {
    if k == 0 {
      NothingAccepted();
    } else {
      AcceptedReached(k - 1);
      AcceptedNext(k - 1);
    }
  }

  const SEVENTH := Ack(DATA0 + 7, 0)

  /** Seven are acknowledged, five queued, and the same ACK may arrive again. */
  ghost predicate Opened(s: Sys, window: nat) {
    && Reaches(s) && Inv(s) && SEVENTH in s.acks && s.progressed
    && s.snd.nextSeq == DATA0 + WINDOW_SIZE && s.snd.lastAcked == DATA0 + 6 && s.snd.window == window
  }

  lemma CwndGrows(g: Sender)
    requires Flight(g) <= WINDOW_SIZE && g.window < WINDOW_SIZE
    ensures UpdateCwnd(g) == g.(window := g.window + 1)
  {
  }

  /** The seventh ACK acknowledges what is left of the first seven and opens the window. */
  lemma SeventhAck(s: Sys, window: nat)
    requires Reaches(s) && Inv(s) && SEVENTH in s.acks && s.snd.nextSeq == DATA0 + WINDOW_SIZE
    requires s.snd.lastAcked < SEVENTH.ack && s.snd.window + |s.snd.rtxq| == window + 5 && window < WINDOW_SIZE
    ensures Opened(Step(s, AckArrives(SEVENTH, 0)), window + 1)
  {
    ReachesNext(s, AckArrives(SEVENTH, 0));
    GoodAckWindow(s, SEVENTH);
    var g := GoodAck(s.snd, SEVENTH.ack);
    CwndAfter(g, 5);
    CwndGrows(g);
    assert Sampled(s.snd, SEVENTH, 0) == s.snd;
  }

  ghost predicate CanOpen(window: nat) {
    exists s :: Opened(s, window)
  }

  lemma FirstOpened()
    ensures CanOpen(8)
  {
    AcceptedReached(7);
    var s :| Accepted(s, 7);
    SeventhAck(s, 7);
  }

  lemma OpenedNext(window: nat)
    requires CanOpen(window) && window < WINDOW_SIZE
    ensures CanOpen(window + 1)
  {
    var s :| Opened(s, window);
    SeventhAck(s, window);
  }

  lemma {:induction false} OpenedReached(window: nat)
    requires 8 <= window <= WINDOW_SIZE
    ensures CanOpen(window)
  {
    if window == 8 {
      FirstOpened();
    } else {
      OpenedReached(window - 1);
      OpenedNext(window - 1);
    }
  }

  /** Both bounds are tight: twelve packets, an ACK for seven of them, and four more copies of
      that ACK leave a full window beside five packets outstanding. */
  lemma WindowBoundReached()
    ensures exists events :: var snd := Run(events).snd; snd.window == WINDOW_SIZE && |snd.rtxq| == 5
  {
    OpenedReached(WINDOW_SIZE);
    var s :| Opened(s, WINDOW_SIZE);
    var events :| Run(events) == s;
    assert |s.snd.rtxq| == 5;
  }

  // ---------------------------------------------------------------- more about every run

  /** No packet is put on the wire more than 1 + MAX_RETRY times. */
  lemma TransmissionBound(events: seq<Event>, sn: nat)
    ensures Count(Run(events).wire, sn) <= 1 + MAX_RETRY
  {
    EveryRunKeepsInv(events);
  }

  lemma {:induction false} SamplesPositive(events: seq<Event>)
    ensures Rto.Positive(Run(events).samples)
  {
    if events != [] {
      SamplesPositive(events[..|events| - 1]);
    }
  }

  /** In every run the timer value is 3000 ms before the first sample, and afterwards stays
      within 8 ms of the exact SRTT + 4 * RTTVAR, with both error bounds, if and only if every
      sample taken fits. */
  lemma TimeoutIsAccurate(events: seq<Event>)
    ensures var s := Run(events);
            && s.snd.estimate == Rto.History(s.samples)
            && (s.samples == [] ==> s.snd.estimate.rto == 3000)
            && (Rto.RtoAccurateThroughout(s.samples) <==> Rto.FitsThroughout(s.samples))
  {
    EveryRunKeepsInv(events);
    SamplesPositive(events);
    Rto.RtoThroughoutIff(Run(events).samples);
  }

  ghost predicate AllResent(q: seq<Entry>, q': seq<Entry>, pkts: seq<Packet>, now: nat) {
    && |q'| == |q|
    && forall i :: 0 <= i < |q| ==>
         q'[i] == Entry(q[i].pkt.(ts := now), q[i].retries + 1) && q'[i].pkt in pkts
  }

  ghost predicate NoneExhausted(q: seq<Entry>) {
    forall i :: 0 <= i < |q| ==> q[i].retries < MAX_RETRY
  }

  /** A retransmission resends every entry exactly if it starts at or before the first and no
      entry has used up its retries. */
  lemma RtxCoversAllIff(q: seq<Entry>, from: nat, now: nat)
    requires q != [] && forall i :: 0 <= i < |q| ==> q[0].pkt.sn <= q[i].pkt.sn
    ensures var r := EntriesRtx(q, from, now);
            AllResent(q, r.q, r.sent, now) <==> from <= q[0].pkt.sn && NoneExhausted(q)
  {
    EntriesRtxExact(q, from, now);
    var r := EntriesRtx(q, from, now);
    if from > q[0].pkt.sn {
      assert EntryRtx(q, r, from, now, 0);
    } else if NoneExhausted(q) {
      forall i | 0 <= i < |q|
        ensures r.q[i] == Entry(q[i].pkt.(ts := now), q[i].retries + 1) && r.q[i].pkt in r.sent
      {
        assert EntryRtx(q, r, from, now, i) && Reached(q, from, i);
      }
    } else {
      var i :| 0 <= i < |q| && q[i].retries >= MAX_RETRY;
      assert Exhausted(q[i], from) && EntryRtx(q, r, from, now, i);
    }
  }

  lemma TimeoutCovers(snd: Sender, chunks: seq<seq<Byte>>, now: nat)
    requires QueueIsRun(snd.rtxq, snd.nextSeq, chunks) && snd.len == |snd.rtxq| != 0
    ensures var (snd', pkts) := Timeout(snd, now);
            AllResent(snd.rtxq, snd'.rtxq, pkts, now) <==> snd.lastAcked + 1 <= Base(snd) && NoneExhausted(snd.rtxq)
  {
    assert snd.rtxq[0].pkt.sn == Base(snd);
    RtxCoversAllIff(snd.rtxq, snd.lastAcked + 1, now);
  }

  /** The timer resends everything outstanding exactly when nothing is, or an ACK above
      lastAcked has been seen and no packet has used up its retries: before such an ACK it
      starts one past the oldest packet. */
  lemma TimeoutCoversAllIff(events: seq<Event>, now: nat)
    ensures var s := Run(events);
            var (snd, pkts) := Timeout(s.snd, now);
            AllResent(s.snd.rtxq, snd.rtxq, pkts, now) <==>
            s.snd.rtxq == [] || (s.progressed && NoneExhausted(s.snd.rtxq))
  {
    EveryRunKeepsInv(events);
    var s := Run(events);
    if s.snd.rtxq != [] {
      TimeoutCovers(s.snd, s.chunks, now);
    }
  }
}
