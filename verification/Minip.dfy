/**
One MINIP endpoint: a go-back-N sender with a retransmission queue and a receiver
that accepts only the next expected packet.  The functions are the specification of
the handlers; class Connection holds the handlers themselves, which update the
connection in place.
*/
module Minip {
  import opened Bytes
  import Rto

  const FIRST_SEQ: nat := 9
  const WINDOW_SIZE: nat := 12
  const MAX_RETRY: nat := 3
  const MSS: nat := 1481

  datatype Packet = Packet(sn: nat, ts: nat, payload: seq<Byte>)

  datatype Ack = Ack(ack: nat, ts: nat)

  datatype Entry = Entry(pkt: Packet, retries: nat)

  datatype Phase = Established | Recovery

  datatype Sender = Sender(
    nextSeq: nat, lastAcked: nat, window: nat, sending: bool, phase: Phase, dupAcks: nat,
    estimate: Rto.Estimate, rtxq: seq<Entry>, len: int, open: bool)

  datatype Receiver = Receiver(nextRecv: nat, open: bool)

  /** The established state: the handshake has used sequence number FIRST_SEQ. */
  const NEW_SENDER := Sender(FIRST_SEQ + 1, FIRST_SEQ + 1, WINDOW_SIZE, true, Established, 0,
                             Rto.INITIAL, [], 0, true)

  const NEW_RECEIVER := Receiver(FIRST_SEQ + 1, true)

  /** Length of the acknowledged front of the queue. */
  function AckedPrefix(q: seq<Entry>, ack: nat): (n: nat)
    ensures n <= |q|
  {
    if q == [] || q[0].pkt.sn >= ack then 0 else 1 + AckedPrefix(q[1..], ack)
  }

  datatype Rtx = Rtx(q: seq<Entry>, sent: seq<Packet>, ok: bool)

  /** Retransmission of every queued packet from `from` on, until one is out of retries. */
  function EntriesRtx(q: seq<Entry>, from: nat, now: nat): Rtx {
    if q == [] then Rtx([], [], true)
    else if q[0].pkt.sn < from then
      var rest := EntriesRtx(q[1..], from, now);
      Rtx([q[0]] + rest.q, rest.sent, rest.ok)
    else if q[0].retries < MAX_RETRY then
      var e := Entry(q[0].pkt.(ts := now), q[0].retries + 1);
      var rest := EntriesRtx(q[1..], from, now);
      Rtx([e] + rest.q, [e.pkt] + rest.sent, rest.ok)
    else
      Rtx(q, [], false)
  }

  /** One packet queued and sent. */
  function SendOne(s: Sender, pkt: Packet): Sender {
    s.(rtxq := s.rtxq + [Entry(pkt, 0)], len := s.len + 1, nextSeq := s.nextSeq + 1,
       window := if s.window > 0 then s.window - 1 else 0)
  }

  function CopyLen(buf: seq<Byte>): (n: nat)
    ensures n <= |buf| && (n == 0 ==> buf == [])
  {
    if |buf| < MSS then |buf| else MSS
  }

  /** Segmentation of `buf` into packets of at most MSS bytes. */
  function SendData(s: Sender, buf: seq<Byte>, now: nat): (r: (Sender, seq<Packet>))
    decreases |buf|
  {
    if buf == [] then (s, [])
    else
      var pkt := Packet(s.nextSeq, now, buf[..CopyLen(buf)]);
      var rest := SendData(SendOne(s, pkt), buf[CopyLen(buf)..], now);
      (rest.0, [pkt] + rest.1)
  }

  predicate CanSend(s: Sender) {
    s.sending && s.window != 0
  }

  function ReadSize(s: Sender, avail: seq<Byte>): (n: nat)
    ensures n <= |avail|
  {
    if !CanSend(s) then 0
    else if |avail| < MSS * s.window then |avail| else MSS * s.window
  }

  function Forward(s: Sender, avail: seq<Byte>, now: nat): (Sender, seq<Packet>) {
    SendData(s, avail[..ReadSize(s, avail)], now)
  }

  function Flight(s: Sender): nat {
    (s.nextSeq - s.lastAcked) % Rto.U32
  }

  function UpdateCwnd(s: Sender): Sender {
    var w := if WINDOW_SIZE >= Flight(s) then (s.window + 1) % 256
             else if s.window > 0 then s.window - 1 else 0;
    s.(window := if w > WINDOW_SIZE then WINDOW_SIZE else w)
  }

  function RoundTrip(a: Ack, now: nat): nat {
    (now - a.ts) % Rto.U32
  }

  predicate IsSample(s: Sender, a: Ack, now: nat) {
    a.ack >= s.lastAcked && a.ts != 0 && RoundTrip(a, now) != 0
  }

  function Sampled(s: Sender, a: Ack, now: nat): Sender {
    if IsSample(s, a, now) then s.(estimate := Rto.Update(s.estimate, RoundTrip(a, now))) else s
  }

  /** An acknowledgement above lastAcked, before the window is reconsidered. */
  function GoodAck(s: Sender, ack: nat): Sender
    requires 0 < ack
  {
    var credit := AckedPrefix(s.rtxq, ack);
    s.(dupAcks := 0, lastAcked := ack - 1, rtxq := s.rtxq[credit..], len := s.len - credit,
       sending := s.sending || s.phase == Recovery, phase := Established,
       window := (s.window + credit) % 256)
  }

  function Retransmit(s: Sender, from: nat, now: nat): (Sender, seq<Packet>) {
    var r := EntriesRtx(s.rtxq, from, now);
    (s.(rtxq := r.q, open := s.open && r.ok), r.sent)
  }

  function RecvAck(s: Sender, a: Ack, now: nat): (Sender, seq<Packet>) {
    if a.ack < s.lastAcked then (s, [])
    else
      var t := Sampled(s, a, now);
      if a.ack > t.lastAcked then
        var g := GoodAck(t, a.ack);
        (if g.len < WINDOW_SIZE / 2 then UpdateCwnd(g) else g, [])
      else
        var d := t.(dupAcks := t.dupAcks + 1, phase := Recovery, sending := false);
        if d.dupAcks != 1 then (d, []) else Retransmit(d, a.ack, now)
  }

  function Timeout(s: Sender, now: nat): (Sender, seq<Packet>) {
    if s.len == 0 then (s, [])
    else Retransmit(s.(sending := false, phase := Recovery), s.lastAcked + 1, now)
  }

  /** `accepted` is how much of the payload the TCP socket took before the write returned. */
  function RecvData(r: Receiver, p: Packet, accepted: nat): (Receiver, seq<Byte>)
    requires accepted <= |p.payload|
  {
    if p.sn != r.nextRecv then (r, [])
    else if accepted == |p.payload| then
      (Receiver(r.nextRecv + 1, r.open && p.payload != []), p.payload)
    else (r.(open := false), p.payload[..accepted])
  }

  ghost predicate Exhausted(e: Entry, from: nat) {
    e.pkt.sn >= from && e.retries >= MAX_RETRY
  }

  ghost predicate Reached(q: seq<Entry>, from: nat, i: nat)
    requires i < |q|
  {
    forall j :: 0 <= j <= i ==> !Exhausted(q[j], from)
  }

  lemma ReachedTail(q: seq<Entry>, from: nat, i: nat)
    requires 0 < i < |q| && !Exhausted(q[0], from)
    ensures Reached(q, from, i) <==> Reached(q[1..], from, i - 1)
  {
    assert forall j :: 0 < j <= i ==> q[j] == q[1..][j - 1];
    if Reached(q, from, i) {
      assert forall j :: 0 <= j <= i - 1 ==> q[1..][j] == q[j + 1];
    }
  }

  /** What retransmission does to the entry at `i`. */
  ghost predicate EntryRtx(q: seq<Entry>, r: Rtx, from: nat, now: nat, i: nat)
    requires i < |q| == |r.q|
  {
    if q[i].pkt.sn >= from && Reached(q, from, i)
    then r.q[i] == Entry(q[i].pkt.(ts := now), q[i].retries + 1) && r.q[i].pkt in r.sent
    else r.q[i] == q[i]
  }

  /** What retransmission does to each entry, on any queue. */
  lemma {:induction false} EntriesRtxExact(q: seq<Entry>, from: nat, now: nat)
    ensures var r := EntriesRtx(q, from, now);
            && |r.q| == |q|
            && (r.ok <==> forall i :: 0 <= i < |q| ==> !Exhausted(q[i], from))
            && forall i :: 0 <= i < |q| ==> EntryRtx(q, r, from, now, i)
  {
    if q != [] && !Exhausted(q[0], from) {
      var r, t := EntriesRtx(q, from, now), EntriesRtx(q[1..], from, now);
      EntriesRtxExact(q[1..], from, now);
      assert forall p :: p in t.sent ==> p in r.sent;
      forall i | 0 < i < |q| ensures EntryRtx(q, r, from, now, i) {
        ReachedTail(q, from, i);
        assert EntryRtx(q[1..], t, from, now, i - 1);
      }
      assert forall i :: 0 < i < |q| ==> q[i] == q[1..][i - 1];
    }
  }
}
