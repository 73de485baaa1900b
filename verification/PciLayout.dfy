/**
The byte positions of every header field, written out from the configured widths.  Getters and
setters share the table, so only these say where a field really is.
*/
module PciLayout {
  import opened Bytes
  import opened Pci

  /** Version, type and flags take a byte each. */
  function BaseSize(w: Widths): nat {
    3 + 2 * w.addr + w.qos + 2 * w.cep + w.len
  }

  /** The getter and the setter of field `f` in a header of type `t` use `width` bytes at `at`. */
  ghost predicate Is(w: Widths, t: Byte, f: Field, at: nat, width: nat) {
    && GetSlot(w, t, f).At? && RangeOf(w, GetSlot(w, t, f)) == Range(at, width)
    && SetSlot(w, t, f).At? && RangeOf(w, SetSlot(w, t, f)).at == at
  }

  lemma BaseRoom(w: Widths)
    ensures Room(w, 0, 0) == 0 && Room(w, 0, 1) == 1 && Room(w, 0, 2) == 1 + w.addr
    ensures Room(w, 0, 3) == 1 + 2 * w.addr && Room(w, 0, 4) == 1 + 2 * w.addr + w.qos
    ensures Room(w, 0, 5) == 1 + 2 * w.addr + w.qos + w.cep
    ensures Room(w, 0, 6) == 1 + 2 * w.addr + w.qos + 2 * w.cep
    ensures Room(w, 0, 7) == 2 + 2 * w.addr + w.qos + 2 * w.cep
    ensures Room(w, 0, 8) == 3 + 2 * w.addr + w.qos + 2 * w.cep
    ensures Room(w, 0, 9) == BaseSize(w)
  {
  }

  /** The fields every header begins with. */
  lemma BasePositions(w: Widths, t: Byte)
    ensures Is(w, t, Version, 0, 1)
    ensures Is(w, t, Destination, 1, w.addr) && Is(w, t, Source, 1 + w.addr, w.addr)
    ensures Is(w, t, QosId, 1 + 2 * w.addr, w.qos)
    ensures var at := 1 + 2 * w.addr + w.qos;
            Is(w, t, CepDestination, at, w.cep) && Is(w, t, CepSource, at + w.cep, w.cep)
    ensures var at := 1 + 2 * w.addr + w.qos + 2 * w.cep;
            Is(w, t, Type, at, 1) && Is(w, t, Flags, at + 1, 1) && Is(w, t, Length, at + 2, w.len)
  {
    BaseRoom(w);
  }

  /** Data and management PDUs: the sequence number. */
  lemma DataPositions(w: Widths, t: Byte)
    requires IsData(t)
    ensures Is(w, t, SequenceNumber, BaseSize(w), w.sn) && CalculateSize(w, t) == BaseSize(w) + w.sn
  {
    BaseRoom(w);
  }

  lemma FlowRoom(w: Widths)
    ensures Room(w, 12, 12) == 0 && Room(w, 12, 13) == w.sn && Room(w, 12, 14) == 2 * w.sn
    ensures Room(w, 12, 15) == 3 * w.sn && Room(w, 12, 16) == 3 * w.sn + w.rate
    ensures Room(w, 12, 17) == 3 * w.sn + w.rate + w.frame
  {
  }

  /** Flow control: the new right edge, the sender's own edges, left first, and its rate. */
  lemma FlowPositions(w: Widths)
    ensures var at := BaseSize(w) + w.ctrl;
            && Is(w, FC, NewRtWindEdge, at, w.sn)
            && Is(w, FC, MyLeftWindEdge, at + w.sn, w.sn) && Is(w, FC, MyRtWindEdge, at + 2 * w.sn, w.sn)
            && Is(w, FC, SndrRate, at + 3 * w.sn, w.rate) && Is(w, FC, TimeFrame, at + 3 * w.sn + w.rate, w.frame)
            && CalculateSize(w, FC) == at + 3 * w.sn + w.rate + w.frame
  {
    BaseRoom(w);
    FlowRoom(w);
  }

  /** Every control PDU: its own sequence number, and with an ACK the number acknowledged. */
  lemma ControlPositions(w: Widths, t: Byte)
    requires HasLayout(t) && !IsData(t)
    ensures Is(w, t, SequenceNumber, BaseSize(w), w.ctrl)
    ensures t == ACK || t == ACK_AND_FC ==> Is(w, t, AckSeqNum, BaseSize(w) + w.ctrl, w.sn)
    ensures t == ACK ==> CalculateSize(w, t) == BaseSize(w) + w.ctrl + w.sn
  {
    BaseRoom(w);
    assert Room(w, 26, 26) == 0 && Room(w, 26, 27) == w.sn;
  }

  lemma AckFlowRoom(w: Widths)
    ensures Room(w, 28, 29) == w.sn && Room(w, 28, 30) == w.sn + w.ctrl
    ensures Room(w, 28, 31) == 2 * w.sn + w.ctrl && Room(w, 28, 32) == 3 * w.sn + w.ctrl
    ensures Room(w, 28, 33) == 4 * w.sn + w.ctrl && Room(w, 28, 34) == 5 * w.sn + w.ctrl
    ensures Room(w, 28, 35) == 5 * w.sn + w.ctrl + w.rate
    ensures Room(w, 28, 36) == 5 * w.sn + w.ctrl + w.rate + w.frame
  {
  }

  /** ACK with flow control: the number acknowledged, the last control number received, the new
      edges, the sender's own edges, left first in both.  The accessors of the control number
      take the width of a sequence number. */
  lemma AckFlowEdges(w: Widths)
    ensures var at := BaseSize(w) + w.ctrl + w.sn;
            && Is(w, ACK_AND_FC, LastSeqNumRcvd, at, w.sn)
            && Is(w, ACK_AND_FC, NewLeftWindEdge, at + w.ctrl, w.sn)
            && Is(w, ACK_AND_FC, NewRtWindEdge, at + w.ctrl + w.sn, w.sn)
            && Is(w, ACK_AND_FC, MyLeftWindEdge, at + w.ctrl + 2 * w.sn, w.sn)
            && Is(w, ACK_AND_FC, MyRtWindEdge, at + w.ctrl + 3 * w.sn, w.sn)
  {
    BaseRoom(w);
    AckFlowRoom(w);
  }

  /** The rate behind them, and the end of the header. */
  lemma AckFlowRate(w: Widths)
    ensures var at := BaseSize(w) + 2 * w.ctrl + 5 * w.sn;
            && Is(w, ACK_AND_FC, SndrRate, at, w.rate) && Is(w, ACK_AND_FC, TimeFrame, at + w.rate, w.frame)
            && CalculateSize(w, ACK_AND_FC) == at + w.rate + w.frame
  {
    BaseRoom(w);
    AckFlowRoom(w);
  }

  lemma ControlAckRoom(w: Widths)
    ensures Room(w, 18, 18) == 0 && Room(w, 18, 19) == w.ctrl && Room(w, 18, 20) == w.ctrl + w.sn
    ensures Room(w, 18, 21) == w.ctrl + 2 * w.sn && Room(w, 18, 22) == w.ctrl + 3 * w.sn
    ensures Room(w, 18, 23) == w.ctrl + 4 * w.sn && Room(w, 18, 24) == w.ctrl + 4 * w.sn + w.rate
    ensures Room(w, 18, 25) == w.ctrl + 4 * w.sn + w.rate + w.frame
  {
  }

  /** Control ACK and rendezvous: the same without the number acknowledged. */
  lemma ControlAckEdges(w: Widths, t: Byte)
    requires t == CACK || t == RENDEZVOUS
    ensures var at := BaseSize(w) + w.ctrl;
            && Is(w, t, LastSeqNumRcvd, at, w.sn)
            && Is(w, t, NewLeftWindEdge, at + w.ctrl, w.sn) && Is(w, t, NewRtWindEdge, at + w.ctrl + w.sn, w.sn)
            && Is(w, t, MyLeftWindEdge, at + w.ctrl + 2 * w.sn, w.sn)
            && Is(w, t, MyRtWindEdge, at + w.ctrl + 3 * w.sn, w.sn)
  {
    BaseRoom(w);
    ControlAckRoom(w);
  }

  /** The accessors of the time frame leave rendezvous PDUs out. */
  lemma ControlAckRate(w: Widths, t: Byte)
    requires t == CACK || t == RENDEZVOUS
    ensures var at := BaseSize(w) + 2 * w.ctrl + 4 * w.sn;
            && Is(w, t, SndrRate, at, w.rate) && (t == CACK ==> Is(w, t, TimeFrame, at + w.rate, w.frame))
            && CalculateSize(w, t) == at + w.rate + w.frame
  {
    BaseRoom(w);
    ControlAckRoom(w);
    RendezvousIsControlAck(w);
  }

  /** The fields a type does not have. */
  lemma AbsentFields(w: Widths, t: Byte, f: Field)
    requires HasLayout(t)
    ensures GetSlot(w, t, f).Absent? <==>
            match f
            case AckSeqNum => t != ACK && t != ACK_AND_FC
            case NewLeftWindEdge => IsData(t) || t == ACK || t == FC
            case LastSeqNumRcvd => IsData(t) || t == ACK || t == FC
            case NewRtWindEdge => IsData(t) || t == ACK
            case MyLeftWindEdge => IsData(t) || t == ACK
            case MyRtWindEdge => IsData(t) || t == ACK
            case SndrRate => IsData(t) || t == ACK
            case TimeFrame => IsData(t) || t == ACK || t == RENDEZVOUS
            case _ => false
  {
  }
}
