/**
The sending half of an EFCP connection (DTP with DTCP) under window flow control and
retransmission control: sequencing, the closed-window queue, the retransmission queue
and the handlers for incoming control PDUs.
*/
module EfcpSender {
  import opened Bytes

  datatype Pdu = Pdu(sn: nat, drf: bool, data: seq<Byte>)

  datatype CtrlKind = AckOnly | AckAndFc | FcOnly | Nack | OtherCtrl

  datatype Ctrl = Ctrl(kind: CtrlKind, sn: nat, ack: nat, rwe: nat)

  datatype RtxEntry = RtxEntry(pdu: Pdu, ts: nat, retries: nat)

  datatype Sender = Sender(
    seqNrToSend: nat, maxSeqNrSent: nat, sndLft: nat, sndRt: nat, lastRcvCtl: nat,
    windowClosed: bool, drfFlag: bool, cwq: seq<Pdu>, rtxq: seq<RtxEntry>, len: int, dropPdus: nat)

  function NewSender(seq0: nat, credit: nat): Sender {
    Sender(seq0, seq0, 0, seq0 + credit, 0, false, true, [], [], 0, 0)
  }

  // Jiffies; 60 seconds at 1000 Hz.
  const MAX_RTX_WAIT: nat := 60000

  // ---------------------------------------------------------------- retransmission queue

  datatype Pushed = Pushed(q: seq<RtxEntry>, ok: bool)

  /** The scan for a place in the middle of the queue. */
  function InsertMiddle(q: seq<RtxEntry>, e: RtxEntry): (r: Pushed)
    ensures !r.ok ==> r.q == q
  {
    if q == [] || e.pdu.sn == q[0].pdu.sn then Pushed(q, false)
    else if e.pdu.sn > q[0].pdu.sn then Pushed([q[0], e] + q[1..], true)
    else var rest := InsertMiddle(q[1..], e); Pushed([q[0]] + rest.q, rest.ok)
  }

  function RtxPush(q: seq<RtxEntry>, e: RtxEntry): Pushed {
    if q == [] then Pushed([e], true)
    else
      var last := q[|q| - 1].pdu.sn;
      if e.pdu.sn == last then Pushed(q, false)
      else if e.pdu.sn > last then Pushed(q + [e], true)
      else InsertMiddle(q, e)
  }

  /** Length of the front that an ACK of `sn` removes. */
  function AckedPrefix(q: seq<RtxEntry>, sn: nat): (n: nat)
    ensures n <= |q|
  {
    if q == [] || q[0].pdu.sn > sn then 0 else 1 + AckedPrefix(q[1..], sn)
  }

  /** Whether the round-trip estimator finds the PDU; an ACK it does not find is not processed. */
  predicate Found(q: seq<RtxEntry>, sn: nat) {
    q != [] && q[0].pdu.sn <= sn && (q[0].pdu.sn == sn || Found(q[1..], sn))
  }

  function TimeToRtx(e: RtxEntry, tr: nat): nat {
    var wait := (1 + e.retries * e.retries) * tr;
    e.ts + if wait > MAX_RTX_WAIT then MAX_RTX_WAIT else wait
  }

  datatype Scan = Scan(q: seq<RtxEntry>, resent: seq<Pdu>, dropped: seq<nat>)

  function Retry(e: RtxEntry): RtxEntry {
    e.(retries := e.retries + 1)
  }

  /** The retransmission timer: from the head, until one entry still has time. */
  function RtxScan(q: seq<RtxEntry>, now: nat, tr: nat, max: nat): Scan {
    if q == [] || now < TimeToRtx(q[0], tr) then Scan(q, [], [])
    else
      var e, rest := Retry(q[0]), RtxScan(q[1..], now, tr, max);
      if e.retries >= max then Scan(rest.q, rest.resent, [e.pdu.sn] + rest.dropped)
      else Scan([e] + rest.q, [e.pdu] + rest.resent, rest.dropped)
  }

  /** A negative acknowledgement: from the tail, down to `sn`. */
  function NackScan(q: seq<RtxEntry>, sn: nat, max: nat): Scan {
    if q == [] || q[|q| - 1].pdu.sn < sn then Scan(q, [], [])
    else
      var e, rest := Retry(q[|q| - 1]), NackScan(q[..|q| - 1], sn, max);
      if e.retries >= max then Scan(rest.q, rest.resent, [e.pdu.sn] + rest.dropped)
      else Scan(rest.q + [e], [e.pdu] + rest.resent, rest.dropped)
  }

  // ---------------------------------------------------------------- handlers

  function NextPdu(s: Sender, data: seq<Byte>): Pdu {
    Pdu(s.seqNrToSend + 1, s.drfFlag || s.sndLft == s.seqNrToSend, data)
  }

  /** First transmission of `pdu`, already numbered. */
  function Transmit(s: Sender, pdu: Pdu, now: nat): Sender {
    var pushed := RtxPush(s.rtxq, RtxEntry(pdu, now, 0));
    s.(rtxq := pushed.q, len := if pushed.ok then s.len + 1 else s.len,
       maxSeqNrSent := pdu.sn, sndLft := pdu.sn)
  }

  function Write(s: Sender, data: seq<Byte>, now: nat): (Sender, seq<Pdu>) {
    var pdu := NextPdu(s, data);
    var t := s.(seqNrToSend := pdu.sn);
    if pdu.sn > t.sndRt then (t.(windowClosed := true, cwq := t.cwq + [pdu]), [])
    else if !RtxPush(t.rtxq, RtxEntry(pdu, now, 0)).ok then (t, [])
    else (Transmit(t, pdu, now), [pdu])
  }

  function CwqDeliver(s: Sender, now: nat): (Sender, seq<Pdu>)
    decreases |s.cwq|
  {
    if s.cwq == [] || s.maxSeqNrSent >= s.sndRt then (s.(windowClosed := s.cwq != []), [])
    else
      var pdu := s.cwq[0];
      var rest := CwqDeliver(Transmit(s.(cwq := s.cwq[1..]), pdu, now), now);
      (rest.0, [pdu] + rest.1)
  }

  function SenderAck(s: Sender, ack: nat): Sender {
    var n := AckedPrefix(s.rtxq, ack);
    s.(rtxq := s.rtxq[n..], len := s.len - n, sndLft := ack + 1)
  }

  function UpdateWindow(s: Sender, rwe: nat, now: nat): (Sender, seq<Pdu>) {
    CwqDeliver(s.(sndRt := rwe), now)
  }

  function Scanned(s: Sender, scan: Scan): Sender {
    s.(rtxq := scan.q, len := s.len - |scan.dropped|, dropPdus := s.dropPdus + |scan.dropped|)
  }

  function Max(a: nat, b: nat): nat {
    if a < b then b else a
  }

  function MaxOf(sns: seq<nat>): nat {
    if sns == [] then 0 else Max(sns[0], MaxOf(sns[1..]))
  }

  function RtxTimer(s: Sender, now: nat, tr: nat, max: nat): (Sender, seq<Pdu>) {
    var scan := RtxScan(s.rtxq, now, tr, max);
    (Scanned(s, scan).(sndLft := Max(s.sndLft, MaxOf(scan.dropped))), scan.resent)
  }

  /** The control PDUs an ACK is allowed to act on. */
  predicate Acts(s: Sender, c: Ctrl) {
    c.sn > s.lastRcvCtl && (c.kind.AckOnly? || c.kind.AckAndFc? ==> Found(s.rtxq, c.ack))
  }

  /** What a control PDU that acts does, by its kind. */
  function Dispatch(s: Sender, c: Ctrl, now: nat, max: nat): (Sender, seq<Pdu>) {
    match c.kind
    case AckOnly => (SenderAck(s, c.ack), [])
    case AckAndFc => UpdateWindow(SenderAck(s, c.ack), c.rwe, now)
    case FcOnly => UpdateWindow(s, c.rwe, now)
    case Nack => var scan := NackScan(s.rtxq, c.ack, max); (Scanned(s, scan), scan.resent)
    case OtherCtrl => (s, [])
  }

  function RcvControl(s: Sender, c: Ctrl, now: nat, max: nat): (Sender, seq<Pdu>) {
    if c.sn <= s.lastRcvCtl then (s, [])
    else
      var t := s.(lastRcvCtl := c.sn);
      if Acts(s, c) then Dispatch(t, c, now, max) else (t, [])
  }
}
