/** The MINIP handlers, updating the connection in place. */
module MinipConnection {
  import opened Bytes
  import opened Lists
  import opened Minip
  import Rto

  const EAGAIN: int := 11
  const EPIPE: int := 32

  /** A queue processed up to some point, and the outcome for the rest of it. */
  ghost function Join(front: seq<Entry>, sent: seq<Packet>, rest: Rtx): Rtx {
    Rtx(front + rest.q, sent + rest.sent, rest.ok)
  }

  lemma JoinStep(front: seq<Entry>, sent: seq<Packet>, q: seq<Entry>, from: nat, now: nat)
    requires q != []
    ensures var whole := Join(front, sent, EntriesRtx(q, from, now));
            var tail := EntriesRtx(q[1..], from, now);
            if q[0].pkt.sn < from then whole == Join(front + [q[0]], sent, tail)
            else if q[0].retries < MAX_RETRY then
              var pkt := q[0].pkt.(ts := now);
              whole == Join(front + [Entry(pkt, q[0].retries + 1)], sent + [pkt], tail)
            else whole == Rtx(front + q, sent, false)
  {
    assert forall e: Entry, t: seq<Entry> :: front + ([e] + t) == (front + [e]) + t;
    assert forall p: Packet, t: seq<Packet> :: sent + ([p] + t) == (sent + [p]) + t;
    assert sent + [] == sent;
  }

  lemma PrefixAssociates(pkts: seq<Packet>, p: Packet, r: (Sender, seq<Packet>))
    ensures Prefixed(pkts, Prefixed([p], r)) == Prefixed(pkts + [p], r)
  {
    assert pkts + ([p] + r.1) == (pkts + [p]) + r.1;
  }

  predicate Fatal(rc: int) {
    rc < 0 && rc != -EAGAIN
  }

  function Zeros(replies: seq<int>): nat {
    if replies == [] then 0
    else Zeros(replies[..|replies| - 1]) + if replies[|replies| - 1] == 0 then 1 else 0
  }

  /**
  All-or-error write.  Each call of the socket's send takes one answer from `replies`; a
  positive answer is the number of bytes taken, capped by what is left.  `done` is false
  when the socket still blocks after the last answer, `used` counts the answers taken.
  */
  method SockWrite(buf: seq<Byte>, replies: seq<int>)
    returns (done: bool, res: int, written: seq<Byte>, used: nat)
    ensures written <= buf && used <= |replies|
    ensures done && res >= 0 ==> written == buf && res == |buf| && Zeros(replies[..used]) <= 1
    ensures done && res < 0 ==> |written| < |buf| && 0 < used
    ensures done && res < 0 ==> if Fatal(replies[used - 1]) then res == replies[used - 1]
                                else Zeros(replies[..used]) == 2 && res == -EPIPE
    ensures !done ==> |written| < |buf| && used == |replies| && Zeros(replies) <= 1
    ensures forall i :: 0 <= i < used - 1 ==> !Fatal(replies[i])
    ensures replies != [] && Fatal(replies[0]) ==> written == []
    ensures !done || res >= 0 ==> forall i :: 0 <= i < used ==> !Fatal(replies[i])
  {
    var left: nat, sent: nat, count: nat := |buf|, 0, 0;
    used := 0;
    while left != 0 && used < |replies|
      invariant sent + left == |buf| && used <= |replies|
      invariant count == Zeros(replies[..used]) && count <= 1
      invariant forall i :: 0 <= i < used ==> !Fatal(replies[i])
      invariant used == 0 ==> sent == 0
      decreases |replies| - used
    {
      var rc := if replies[used] > left then left else replies[used];
      used := used + 1;
      assert replies[..used][..used - 1] == replies[..used - 1];
      if rc == 0 {
        count := count + 1;
        if count < 2 {
          continue;
        }
        return true, -EPIPE, buf[..sent], used;
      }
      if rc > 0 {
        sent := sent + rc;
        left := left - rc;
      } else if rc != -EAGAIN {
        return true, rc, buf[..sent], used;
      }
    }
    assert replies[..|replies|] == replies;
    return left == 0, sent, buf[..sent], used;
  }

  class Connection {
    var nextSeq: nat
    var lastAcked: nat
    var window: nat
    var sending: bool
    var phase: Phase
    var dupAcks: nat
    var srtt: nat
    var rttvar: nat
    var rto: nat
    var rtxq: seq<Entry>
    var len: int
    var nextRecv: nat
    var lflag: bool

    function Snd(): Sender
      reads this
    {
      Sender(nextSeq, lastAcked, window, sending, phase, dupAcks,
             Rto.Estimate(srtt, rttvar, rto), rtxq, len, lflag)
    }

    function Rcv(): Receiver
      reads this
    {
      Receiver(nextRecv, lflag)
    }

    /** The established state: both handshake packets have been counted. */
    constructor ()
      ensures Snd() == NEW_SENDER && Rcv() == NEW_RECEIVER
    {
      nextSeq, lastAcked, nextRecv := FIRST_SEQ + 1, FIRST_SEQ + 1, FIRST_SEQ + 1;
      window, sending, phase, dupAcks := WINDOW_SIZE, true, Established, 0;
      srtt, rttvar, rto := 0, 0, 3000;
      rtxq, len, lflag := [], 0, true;
    }

    method RtxqueuePush(pkt: Packet)
      modifies `rtxq, `len
      ensures rtxq == old(rtxq) + [Entry(pkt, 0)] && len == old(len) + 1
    {
      rtxq := rtxq + [Entry(pkt, 0)];
      len := len + 1;
    }

    method RtxqueueEntriesAck(ack: nat) returns (credit: nat)
      modifies `rtxq, `len
      ensures credit == AckedPrefix(old(rtxq), ack)
      ensures rtxq == old(rtxq)[credit..] && len == old(len) - credit
    {
      credit := 0;
      while rtxq != [] && rtxq[0].pkt.sn < ack
        invariant credit <= |old(rtxq)|
        invariant rtxq == old(rtxq)[credit..] && len == old(len) - credit
        invariant AckedPrefix(old(rtxq), ack) == credit + AckedPrefix(rtxq, ack)
        decreases |rtxq|
      {
        rtxq := rtxq[1..];
        len := len - 1;
        credit := credit + 1;
      }
    }

    method RtxqueueEntriesRtx(from: nat, now: nat) returns (sent: seq<Packet>, ok: bool)
      modifies `rtxq
      ensures Rtx(rtxq, sent, ok) == EntriesRtx(old(rtxq), from, now)
    {
      ghost var q := rtxq;
      sent := [];
      var i := 0;
      while i < |rtxq|
        invariant 0 <= i <= |rtxq| == |q| && rtxq[i..] == q[i..]
        invariant EntriesRtx(q, from, now) == Join(rtxq[..i], sent, EntriesRtx(q[i..], from, now))
      {
        JoinStep(rtxq[..i], sent, q[i..], from, now);
        assert q[i..][0] == rtxq[i] && q[i..][1..] == q[i + 1..];
        var cur := rtxq[i];
        if cur.pkt.sn >= from {
          if cur.retries < MAX_RETRY {
            var pkt := cur.pkt.(ts := now);
            rtxq := rtxq[i := Entry(pkt, cur.retries + 1)];
            sent := sent + [pkt];
          } else {
            assert rtxq[..i] + rtxq[i..] == rtxq;
            ok := false;
            return;
          }
        }
        i := i + 1;
        assert rtxq[..i] == rtxq[..i - 1] + [rtxq[i - 1]];
      }
      ok := true;
      assert rtxq[..i] + [] == rtxq && sent + [] == sent;
    }

    method UpdateCwnd()
      modifies `window
      ensures Snd() == Minip.UpdateCwnd(old(Snd()))
    {
      var flight := (nextSeq - lastAcked) % Rto.U32;
      if WINDOW_SIZE >= flight {
        window := (window + 1) % 256;
      } else if window > 0 {
        window := window - 1;
      }
      if window > WINDOW_SIZE {
        window := WINDOW_SIZE;
      }
    }

    method UpdateRto(newRtt: nat)
      modifies `srtt, `rttvar, `rto
      ensures Snd() == old(Snd()).(estimate := Rto.Update(old(Snd()).estimate, newRtt))
    {
      var m: int := newRtt;
      if srtt != 0 {
        m := m - srtt / 8;
        srtt := (srtt + m) % Rto.U32;
        if m < 0 {
          m := -m;
        }
        m := m - rttvar / 4;
        rttvar := (rttvar + m) % Rto.U32;
      } else {
        srtt := m * 8 % Rto.U32;
        rttvar := m * 2 % Rto.U32;
      }
      rto := (srtt / 8 + rttvar) % Rto.U32;
    }

    method SkbSend(buf: seq<Byte>, now: nat) returns (pkt: Packet)
      modifies `rtxq, `len
      ensures pkt == Packet(nextSeq, now, buf)
      ensures rtxq == old(rtxq) + [Entry(pkt, 0)] && len == old(len) + 1
    {
      pkt := Packet(nextSeq, now, buf);
      RtxqueuePush(pkt);
    }

    method ConnSndData(buf: seq<Byte>, now: nat) returns (pkts: seq<Packet>)
      modifies `rtxq, `len, `nextSeq, `window
      ensures (Snd(), pkts) == SendData(old(Snd()), buf, now)
    {
      var left: nat, sent: nat := |buf|, 0;
      pkts := [];
      ghost var whole := SendData(Snd(), buf, now);
      assert buf[sent..] == buf && pkts + whole.1 == whole.1;
      while left != 0
        invariant sent + left == |buf|
        invariant whole == Prefixed(pkts, SendData(Snd(), buf[sent..], now))
      {
        ghost var before, tail := pkts, buf[sent..];
        var copylen := if left < MSS then left else MSS;
        assert tail[..copylen] == buf[sent..sent + copylen] && tail[copylen..] == buf[sent + copylen..];
        var pkt := SkbSend(buf[sent..sent + copylen], now);
        pkts := pkts + [pkt];
        left := left - copylen;
        sent := sent + copylen;
        nextSeq := nextSeq + 1;
        if window > 0 {
          window := window - 1;
        }
        PrefixAssociates(before, pkt, SendData(Snd(), buf[sent..], now));
      }
      assert pkts + [] == pkts;
    }

    method RtxqFullRtx(from: nat, now: nat) returns (sent: seq<Packet>)
      modifies `rtxq, `lflag
      ensures (Snd(), sent) == Retransmit(old(Snd()), from, now)
    {
      var ok;
      sent, ok := RtxqueueEntriesRtx(from, now);
      if !ok {
        lflag := false;
      }
    }

    method SenderTimeout(now: nat) returns (sent: seq<Packet>)
      modifies `sending, `phase, `rtxq, `lflag
      ensures (Snd(), sent) == Timeout(old(Snd()), now)
    {
      sent := [];
      if len != 0 {
        sending := false;
        phase := Recovery;
        sent := RtxqFullRtx(lastAcked + 1, now);
      }
    }

    method AckNewData(ack: nat)
      requires ack > lastAcked
      modifies `dupAcks, `lastAcked, `rtxq, `len, `sending, `phase, `window
      ensures Snd() == GoodAck(old(Snd()), ack)
    {
      dupAcks := 0;
      lastAcked := ack - 1;
      var credit := RtxqueueEntriesAck(ack);
      if phase == Recovery {
        sending := true;
        phase := Established;
      }
      AddCredit(credit);
    }

    method AddCredit(credit: nat)
      modifies `window
      ensures window == (old(window) + credit) % 256
    {
      window := (window + credit) % 256;
    }

    method RecvAck(a: Ack, now: nat) returns (sent: seq<Packet>)
      modifies this
      ensures (Snd(), sent) == Minip.RecvAck(old(Snd()), a, now)
      ensures nextRecv == old(nextRecv)
    {
      sent := [];
      if a.ack < lastAcked {
        return;
      }
      var rtt := (now - a.ts) % Rto.U32;
      if a.ts != 0 && rtt != 0 {
        UpdateRto(rtt);
      }
      assert Snd() == Sampled(old(Snd()), a, now);
      if a.ack > lastAcked {
        AckNewData(a.ack);
        if len < WINDOW_SIZE / 2 {
          UpdateCwnd();
        }
        return;
      }
      if lastAcked == a.ack {
        dupAcks := dupAcks + 1;
        phase := Recovery;
        sending := false;
        if dupAcks != 1 {
          return;
        }
        sent := RtxqFullRtx(a.ack, now);
      }
    }

    method I2MinipFwd(avail: seq<Byte>, now: nat) returns (rc: int, sent: seq<Packet>)
      modifies `rtxq, `len, `nextSeq, `window
      ensures (Snd(), sent) == Forward(old(Snd()), avail, now)
      ensures rc == if ReadSize(old(Snd()), avail) == 0 then -EAGAIN else ReadSize(old(Snd()), avail)
    {
      sent := [];
      if !sending || window == 0 {
        return -EAGAIN, sent;
      }
      var howMuch := MSS * window;
      var read := if |avail| < howMuch then |avail| else howMuch;
      if read == 0 {
        return -EAGAIN, sent;
      }
      sent := ConnSndData(avail[..read], now);
      rc := read;
    }

    /** `replies` are the socket's answers; a shut-down socket fails on the first one. */
    method Minip2iFwd(p: Packet, replies: seq<int>) returns (done: bool, written: seq<Byte>, reply: Ack)
      requires !lflag ==> replies != [] && Fatal(replies[0])
      modifies `nextRecv, `lflag
      ensures written <= p.payload && (!old(lflag) ==> written == [])
      ensures done ==> (Rcv(), written) == RecvData(old(Rcv()), p, |written|)
      ensures done ==> reply == Ack(nextRecv, p.ts)
      ensures !done ==> Rcv() == old(Rcv())
    {
      done, written, reply := true, [], Ack(nextRecv, p.ts);
      if p.sn == nextRecv {
        var res, used;
        done, res, written, used := SockWrite(p.payload, replies);
        if !done {
          return;
        }
        if res < 0 {
          assert written == p.payload[..|written|];
          lflag := false;
        } else {
          nextRecv := nextRecv + 1;
          if res == 0 {
            lflag := false;
          }
        }
        reply := Ack(nextRecv, p.ts);
      }
    }
  }
}
