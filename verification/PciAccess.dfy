/**
The header accessors as callers use them: each one first reads the PDU type from the header
it works on and then takes the branch for that type.
*/
module PciAccess {
  import opened Bytes
  import opened Numbers
  import opened Pci

  function TypeRange(w: Widths): Range {
    Range(Offset(w, 6), 1)
  }

  /** The type byte of the header; a header without one has no type that is known. */
  function StoredType(w: Widths, h: seq<Byte>): Byte {
    if Fits(h, TypeRange(w)) then h[Offset(w, 6)] else 0
  }

  function Get(w: Widths, h: seq<Byte>, f: Field): int {
    GetAs(w, h, StoredType(w, h), f)
  }

  function Set(w: Widths, h: seq<Byte>, f: Field, v: nat): (h': seq<Byte>)
    ensures |h'| == |h|
  {
    SetAs(w, h, StoredType(w, h), f, v)
  }

  function SetAll(w: Widths, h: seq<Byte>, writes: seq<Assign>): (h': seq<Byte>)
    ensures |h'| == |h|
  {
    if writes == [] then h
    else
      var n := |writes| - 1;
      Set(w, SetAll(w, h, writes[..n]), writes[n].field, writes[n].value)
  }

  /** A header of type `t`. */
  ghost predicate Header(w: Widths, t: Byte, h: seq<Byte>) {
    Holds(w, t, h) && StoredType(w, h) == t
  }

  /** The setter has a place for the value, which fits its width. */
  ghost predicate Storable(w: Widths, t: Byte, f: Field, v: nat) {
    SetSlot(w, t, f).At? ==> v < Limit(SetSlot(w, t, f).width)
  }

  /** What one setter means for the field `g`: its own field reads the value, another is unchanged. */
  ghost predicate ExactAt(w: Widths, h: seq<Byte>, f: Field, v: nat, g: Field) {
    Get(w, Set(w, h, f, v), g) == if g == f && GetSlot(w, StoredType(w, h), f).At? then v else Get(w, h, g)
  }

  ghost predicate SetterIsExact(w: Widths, h: seq<Byte>, f: Field, v: nat) {
    forall g :: ExactAt(w, h, f, v, g)
  }

  // ---------------------------------------------------------------- the stored type

  lemma TypeReads(w: Widths, t: Byte, h: seq<Byte>)
    requires Fits(h, TypeRange(w))
    ensures GetAs(w, h, t, Type) == StoredType(w, h)
  {
    var at := Offset(w, 6);
    assert h[at..at + 1] == [h[at]];
    assert Decode([h[at]]) == h[at] + 256 * Decode([]);
  }

  lemma TypeFits(w: Widths, t: Byte, h: seq<Byte>)
    requires Holds(w, t, h)
    ensures Fits(h, TypeRange(w))
  {
    FieldsInOrder(w, t, 6, 6);
  }

  lemma OneByte()
    ensures Limit(1) == 256
  {
    assert Limit(1) == 256 * Limit(0);
  }

  /** What a setter of branch `t` leaves as the type. */
  lemma TypeAfter(w: Widths, t: Byte, h: seq<Byte>, f: Field, v: nat)
    requires Uniform(w, t) && Holds(w, t, h) && (GetSlot(w, t, f).At? ==> v < Limit(GetSlot(w, t, f).width))
    ensures StoredType(w, SetAs(w, h, t, f, v)) == if f.Type? then v else StoredType(w, h)
  {
    SetThenGetAs(w, t, h, f, v, Type);
    TypeFits(w, t, h);
    TypeReads(w, t, h);
    TypeReads(w, t, SetAs(w, h, t, f, v));
  }

  /** The type whose branches the accessors take; every type without control fields counts
      as a data type. */
  function Kind(t: Byte): Byte {
    if t == ACK || t == FC || t == ACK_AND_FC || t == CACK || t == RENDEZVOUS then t else DT
  }

  /** The accessors work on the same bytes for both types. */
  predicate Alike(w: Widths, t: Byte, u: Byte) {
    Kind(t) == Kind(u) && (IsData(t) == IsData(u) || w.sn == w.ctrl)
  }

  lemma AlikeSlots(w: Widths, t: Byte, u: Byte, f: Field)
    requires Alike(w, t, u)
    ensures var s, q := GetSlot(w, t, f), GetSlot(w, u, f);
            s.At? == q.At? && (s.At? ==> RangeOf(w, s) == RangeOf(w, q))
    ensures SetSlot(w, t, f) == SetSlot(w, u, f)
  {
    assert Offset(w, DT_MGMT_SN) == Offset(w, CTRL_SN);
  }

  lemma AlikeAccess(w: Widths, t: Byte, u: Byte, h: seq<Byte>, f: Field, v: nat)
    requires Alike(w, t, u)
    ensures GetAs(w, h, t, f) == GetAs(w, h, u, f) && SetAs(w, h, t, f, v) == SetAs(w, h, u, f, v)
  {
    AlikeSlots(w, t, u, f);
  }

  // ---------------------------------------------------------------- one setter

  lemma StorableIs(w: Widths, t: Byte, f: Field, v: nat)
    requires Uniform(w, t) && HasLayout(t)
    ensures Storable(w, t, f, v) <==> (GetSlot(w, t, f).At? ==> v < Limit(GetSlot(w, t, f).width))
  {
    if GetSlot(w, t, f).At? {
      SlotInLayout(w, t, f);
    }
  }

  /** A setter makes its own field read the value and changes no other, unless it changes the
      type to one that is not alike. */
  lemma SetThenGet(w: Widths, t: Byte, h: seq<Byte>, f: Field, v: nat, g: Field)
    requires Uniform(w, t) && Header(w, t, h) && Storable(w, t, f, v)
    requires f.Type? ==> v < 256 && Alike(w, t, v)
    ensures Get(w, Set(w, h, f, v), g) == if g == f && GetSlot(w, t, f).At? then v else Get(w, h, g)
  {
    var h' := SetAs(w, h, t, f, v);
    StorableIs(w, t, f, v);
    TypeAfter(w, t, h, f, v);
    SetThenGetAs(w, t, h, f, v, g);
    AlikeAccess(w, t, StoredType(w, h'), h', g, 0);
  }

  // ---------------------------------------------------------------- changing the type

  predicate ControlAckPair(t: Byte, u: Byte) {
    (t == CACK && u == RENDEZVOUS) || (t == RENDEZVOUS && u == CACK)
  }

  /** The bytes the accessors of type `v` look at are there. */
  ghost predicate Roomy(w: Widths, h: seq<Byte>, v: Byte) {
    HasLayout(v) ==> Holds(w, v, h)
  }

  lemma TypeSlot(w: Widths, t: Byte)
    ensures GetSlot(w, t, Type) == SetSlot(w, t, Type) == At(6, 1)
  {
  }

  lemma SetTypeIs(w: Widths, t: Byte, h: seq<Byte>, v: Byte)
    requires Fits(h, TypeRange(w))
    ensures SetAs(w, h, t, Type, v) == Store(h, TypeRange(w), v)
  {
    TypeSlot(w, t);
  }

  lemma StoredByte(h: seq<Byte>, at: nat, v: Byte)
    requires at < |h|
    ensures Store(h, Range(at, 1), v)[at] == v
  {
    assert Encode(v, 1) == [v];
  }

  lemma TypeSet(w: Widths, t: Byte, h: seq<Byte>, v: Byte)
    requires Holds(w, t, h)
    ensures StoredType(w, SetAs(w, h, t, Type, v)) == v
  {
    TypeFits(w, t, h);
    SetTypeIs(w, t, h, v);
    StoredByte(h, Offset(w, 6), v);
  }

  lemma GetAfterType(w: Widths, t: Byte, h: seq<Byte>, v: Byte, g: Field)
    requires Header(w, t, h)
    ensures Get(w, Set(w, h, Type, v), g) == GetAs(w, SetAs(w, h, t, Type, v), v, g)
  {
    TypeSet(w, t, h, v);
  }

  /** A type write changes no branch's reading of another field. */
  lemma TypeWriteReads(w: Widths, u: Byte, h: seq<Byte>, t: Byte, v: Byte, g: Field)
    requires Uniform(w, u) && Holds(w, u, h) && !g.Type?
    ensures GetAs(w, SetAs(w, h, t, Type, v), u, g) == GetAs(w, h, u, g)
  {
    TypeFits(w, u, h);
    SetTypeIs(w, t, h, v);
    SetTypeIs(w, u, h, v);
    TypeSlot(w, u);
    OneByte();
    SetThenGetAs(w, u, h, Type, v, g);
  }

  /** A field one of the two types has and the other has not. */
  function Telltale(w: Widths, t: Byte, v: Byte): Field {
    if GetSlot(w, t, AckSeqNum).At? != GetSlot(w, v, AckSeqNum).At? then AckSeqNum
    else if GetSlot(w, t, NewRtWindEdge).At? != GetSlot(w, v, NewRtWindEdge).At? then NewRtWindEdge
    else NewLeftWindEdge
  }

  lemma TelltaleTells(w: Widths, t: Byte, v: Byte)
    requires Kind(t) != Kind(v) && !ControlAckPair(t, v)
    ensures var g := Telltale(w, t, v);
            && Missing(g) == NO_SEQ_NUM && g != Type
            && (if GetSlot(w, t, g).At? then HasLayout(t) && GetSlot(w, v, g).Absent?
                else HasLayout(v) && GetSlot(w, v, g).At?)
  {
  }

  /** A header of type `t`, long enough for type `v` too, with every other byte 0. */
  function Zeroed(w: Widths, t: Byte, v: Byte): (h: seq<Byte>)
    requires HasLayout(t)
    ensures |h| == CalculateSize(w, t) + if HasLayout(v) then CalculateSize(w, v) else 0
    ensures forall i :: 0 <= i < |h| ==> h[i] == if i == Offset(w, 6) then t else 0
  {
    var n := CalculateSize(w, t) + if HasLayout(v) then CalculateSize(w, v) else 0;
    seq(n, i => if i == Offset(w, 6) then t else 0)
  }

  lemma ZeroedIsHeader(w: Widths, t: Byte, v: Byte)
    requires HasLayout(t)
    ensures Header(w, t, Zeroed(w, t, v)) && Roomy(w, Zeroed(w, t, v), v)
  {
    TypeFits(w, t, Zeroed(w, t, v));
  }

  lemma {:induction false} DecodeZeros(s: seq<Byte>)
    requires forall i :: 0 <= i < |s| ==> s[i] == 0
    ensures Decode(s) == 0
  {
    if s != [] {
      DecodeZeros(s[1..]);
    }
  }

  ghost predicate ZeroBesides(h: seq<Byte>, at: nat) {
    forall i :: 0 <= i < |h| && i != at ==> h[i] == 0
  }

  lemma ZerosLoad(h: seq<Byte>, at: nat, r: Range)
    requires Fits(h, r) && Disjoint(r, Range(at, 1)) && ZeroBesides(h, at)
    ensures Load(h, r) == 0
  {
    DecodeZeros(h[r.at..r.at + r.width]);
  }

  lemma ApartFromType(w: Widths, u: Byte, g: Field)
    requires Uniform(w, u) && HasLayout(u) && GetSlot(w, u, g).At? && g != Type
    ensures Disjoint(RangeOf(w, GetSlot(w, u, g)), TypeRange(w))
  {
    TypeSlot(w, u);
    FieldsDisjoint(w, u, g, Type);
  }

  lemma ZerosRead(w: Widths, h: seq<Byte>, u: Byte, g: Field)
    requires Uniform(w, u) && Holds(w, u, h) && GetSlot(w, u, g).At? && g != Type && ZeroBesides(h, Offset(w, 6))
    ensures GetAs(w, h, u, g) == 0
  {
    var r := RangeOf(w, GetSlot(w, u, g));
    AccessIsExact(w, u, h, g, 0);
    ApartFromType(w, u, g);
    ZerosLoad(h, Offset(w, 6), r);
  }

  lemma ZeroedReads(w: Widths, t: Byte, v: Byte, u: Byte, g: Field)
    requires Uniform(w, u) && HasLayout(t) && Holds(w, u, Zeroed(w, t, v)) && GetSlot(w, u, g).At? && g != Type
    ensures GetAs(w, Zeroed(w, t, v), u, g) == 0
  {
    assert ZeroBesides(Zeroed(w, t, v), Offset(w, 6));
    ZerosRead(w, Zeroed(w, t, v), u, g);
  }

  /** A field the old type has and the new one has not stops reading. */
  lemma HidesField(w: Widths, t: Byte, v: Byte, g: Field)
    requires Ok(w) && w.sn == w.ctrl && HasLayout(t) && g != Type && Missing(g) == NO_SEQ_NUM
    requires GetSlot(w, t, g).At? && GetSlot(w, v, g).Absent?
    ensures !ExactAt(w, Zeroed(w, t, v), Type, v, g)
  {
    var h := Zeroed(w, t, v);
    ZeroedIsHeader(w, t, v);
    GetAfterType(w, t, h, v, g);
    ZeroedReads(w, t, v, t, g);
    AbsentSlots(w, v, SetAs(w, h, t, Type, v), g, 0);
  }

  /** A field the new type has and the old one has not starts reading. */
  lemma ShowsField(w: Widths, t: Byte, v: Byte, g: Field)
    requires Ok(w) && w.sn == w.ctrl && HasLayout(t) && HasLayout(v) && g != Type && Missing(g) == NO_SEQ_NUM
    requires GetSlot(w, t, g).Absent? && GetSlot(w, v, g).At?
    ensures !ExactAt(w, Zeroed(w, t, v), Type, v, g)
  {
    var h := Zeroed(w, t, v);
    ZeroedIsHeader(w, t, v);
    GetAfterType(w, t, h, v, g);
    ZeroedReads(w, t, v, v, g);
    TypeWriteReads(w, v, h, t, v, g);
    AbsentSlots(w, t, h, g, 0);
  }

  lemma UnlikeTypesDiffer(w: Widths, t: Byte, v: Byte)
    requires Ok(w) && w.sn == w.ctrl && HasLayout(t) && Kind(t) != Kind(v) && !ControlAckPair(t, v)
    ensures !SetterIsExact(w, Zeroed(w, t, v), Type, v)
  {
    var g := Telltale(w, t, v);
    TelltaleTells(w, t, v);
    if GetSlot(w, t, g).At? {
      HidesField(w, t, v, g);
    } else {
      ShowsField(w, t, v, g);
    }
  }

  /** Between the control ACK and the rendezvous type only the time frame differs. */
  lemma PairSlots(w: Widths, f: Field)
    ensures !f.TimeFrame? ==> GetSlot(w, CACK, f) == GetSlot(w, RENDEZVOUS, f)
    ensures GetSlot(w, RENDEZVOUS, TimeFrame).Absent? && GetSlot(w, CACK, TimeFrame).At?
  {
  }

  lemma PairHolds(w: Widths, t: Byte, h: seq<Byte>)
    requires (t == CACK || t == RENDEZVOUS) && Holds(w, t, h)
    ensures Holds(w, CACK, h) && Holds(w, RENDEZVOUS, h)
  {
    RendezvousIsControlAck(w);
  }

  lemma PairTimeFrame(w: Widths, t: Byte, h: seq<Byte>, v: Byte)
    requires Ok(w) && w.sn == w.ctrl && Header(w, t, h) && ControlAckPair(t, v)
    ensures Get(w, Set(w, h, Type, v), TimeFrame) == if v == CACK then GetAs(w, h, CACK, TimeFrame) else 0
  {
    GetAfterType(w, t, h, v, TimeFrame);
    if v == CACK {
      PairHolds(w, t, h);
      TypeWriteReads(w, CACK, h, t, v, TimeFrame);
    } else {
      PairSlots(w, TimeFrame);
      AbsentSlots(w, RENDEZVOUS, SetAs(w, h, t, Type, v), TimeFrame, 0);
    }
  }

  lemma TimeFrameBefore(w: Widths, t: Byte, h: seq<Byte>)
    requires Header(w, t, h) && (t == CACK || t == RENDEZVOUS)
    ensures Get(w, h, TimeFrame) == if t == CACK then GetAs(w, h, CACK, TimeFrame) else 0
  {
    PairSlots(w, TimeFrame);
    AbsentSlots(w, RENDEZVOUS, h, TimeFrame, 0);
  }

  /** The header of type `t` with all bytes 0 but the time frame, which is 1. */
  function OneFrame(w: Widths, t: Byte, v: Byte): (h: seq<Byte>)
    requires HasLayout(t)
  {
    SetAs(w, Zeroed(w, t, v), CACK, TimeFrame, 1)
  }

  lemma FrameHoldsOne(w: Widths)
    requires Ok(w)
    ensures GetSlot(w, CACK, TimeFrame).At? && 1 < Limit(GetSlot(w, CACK, TimeFrame).width)
  {
    LimitGrows(0, w.frame);
  }

  lemma OneFrameReads(w: Widths, z: seq<Byte>)
    requires Ok(w) && w.sn == w.ctrl && Holds(w, CACK, z)
    ensures var h := SetAs(w, z, CACK, TimeFrame, 1);
            GetAs(w, h, CACK, TimeFrame) == 1 && StoredType(w, h) == StoredType(w, z)
  {
    FrameHoldsOne(w);
    SetThenGetAs(w, CACK, z, TimeFrame, 1, TimeFrame);
    TypeAfter(w, CACK, z, TimeFrame, 1);
  }

  lemma OneFrameIs(w: Widths, t: Byte, v: Byte)
    requires Ok(w) && w.sn == w.ctrl && ControlAckPair(t, v)
    ensures var h := OneFrame(w, t, v); Header(w, t, h) && Roomy(w, h, v) && GetAs(w, h, CACK, TimeFrame) == 1
  {
    ZeroedIsHeader(w, t, v);
    PairHolds(w, t, Zeroed(w, t, v));
    OneFrameReads(w, Zeroed(w, t, v));
  }

  lemma PairDiffers(w: Widths, t: Byte, v: Byte)
    requires Ok(w) && w.sn == w.ctrl && ControlAckPair(t, v)
    ensures !SetterIsExact(w, OneFrame(w, t, v), Type, v)
  {
    var h := OneFrame(w, t, v);
    OneFrameIs(w, t, v);
    PairTimeFrame(w, t, h, v);
    TimeFrameBefore(w, t, h);
    assert !ExactAt(w, h, Type, v, TimeFrame);
  }

  lemma AlikeExact(w: Widths, t: Byte, h: seq<Byte>, f: Field, v: nat)
    requires Uniform(w, t) && Header(w, t, h) && Storable(w, t, f, v)
    requires f.Type? ==> v < 256 && Alike(w, t, v)
    ensures SetterIsExact(w, h, f, v)
  {
    forall g ensures ExactAt(w, h, f, v, g) {
      SetThenGet(w, t, h, f, v, g);
    }
  }

  /** Whether the setter is exact on every header of type `t`. */
  ghost predicate ExactOnAll(w: Widths, t: Byte, f: Field, v: nat) {
    forall h :: Header(w, t, h) && (f.Type? && v < 256 ==> Roomy(w, h, v)) ==> SetterIsExact(w, h, f, v)
  }

  lemma UnlikeFails(w: Widths, t: Byte, v: Byte)
    requires Ok(w) && w.sn == w.ctrl && HasLayout(t) && Kind(t) != Kind(v)
    ensures !ExactOnAll(w, t, Type, v)
  {
    if ControlAckPair(t, v) {
      OneFrameIs(w, t, v);
      PairDiffers(w, t, v);
    } else {
      ZeroedIsHeader(w, t, v);
      UnlikeTypesDiffer(w, t, v);
    }
  }

  /** With equal widths a setter is exact on every header of a type if and only if it is not
      the type setter, or the new type takes the same branches. */
  lemma SetterExactIff(w: Widths, t: Byte, f: Field, v: nat)
    requires Ok(w) && w.sn == w.ctrl && HasLayout(t) && Storable(w, t, f, v) && (f.Type? ==> v < 256)
    ensures ExactOnAll(w, t, f, v) <==> (f.Type? ==> Kind(t) == Kind(v))
  {
    if f.Type? && Kind(t) != Kind(v) {
      UnlikeFails(w, t, v);
    } else {
      forall h | Header(w, t, h) ensures SetterIsExact(w, h, f, v) {
        AlikeExact(w, t, h, f, v);
      }
    }
  }

  /** Turning an ACK header into a data header makes its acknowledgement unreadable. */
  lemma TypeWriteHidesAck(w: Widths, h: seq<Byte>)
    requires w == Widths(4, 2, 4, 4, 4, 4, 4, 4) && Header(w, ACK, h)
    ensures Get(w, h, AckSeqNum) == Load(h, Range(Offset(w, ACK_ACKED_SN), 4))
    ensures Get(w, Set(w, h, Type, DT), AckSeqNum) == NO_SEQ_NUM
  {
    AccessIsExact(w, ACK, h, AckSeqNum, 0);
    GetAfterType(w, ACK, h, DT, AckSeqNum);
    AbsentSlots(w, DT, SetAs(w, h, ACK, Type, DT), AckSeqNum, 0);
  }

  // ---------------------------------------------------------------- the widths

  /** A call whose value fits and which, if it writes the type, keeps the branches. */
  ghost predicate Allowed(w: Widths, t: Byte, h: seq<Byte>, f: Field, v: nat) {
    Header(w, t, h) && Storable(w, t, f, v) && (f.Type? ==> v < 256 && Kind(v) == Kind(t))
  }

  ghost predicate SettersAreExact(w: Widths) {
    forall t, h, f, v :: Allowed(w, t, h, f, v) ==> SetterIsExact(w, h, f, v)
  }

  lemma AckOffsets(w: Widths)
    ensures Offset(w, DT_MGMT_SN) == Offset(w, CTRL_SN)
    ensures CalculateSize(w, ACK) == Offset(w, CTRL_SN) + w.ctrl + w.sn
  {
    SpecificWithin(w, ACK, ACK_ACKED_SN);
  }

  lemma AckSlots(w: Widths)
    ensures GetSlot(w, ACK, SequenceNumber) == At(CTRL_SN, w.ctrl)
    ensures SetSlot(w, ACK, SequenceNumber) == At(DT_MGMT_SN, w.sn)
  {
  }

  lemma AckHeader(w: Widths, h: seq<Byte>, v: nat)
    requires Ok(w) && |h| == CalculateSize(w, ACK)
    ensures var at := Offset(w, CTRL_SN);
            && at + w.ctrl + w.sn == |h|
            && GetAs(w, h, ACK, SequenceNumber) == Load(h, Range(at, w.ctrl))
            && SetAs(w, h, ACK, SequenceNumber, v) == Store(h, Range(at, w.sn), v)
  {
    AckOffsets(w);
    AckSlots(w);
    var at := Offset(w, CTRL_SN);
    AccessAt(w, h, ACK, SequenceNumber, v, Range(at, w.ctrl), Range(at, w.sn));
  }

  lemma StoredDiffers(h: seq<Byte>, at: nat, sn: nat, ctrl: nat, v: nat)
    requires sn != ctrl && IsWidth(sn) && IsWidth(ctrl) && at + sn + ctrl <= |h|
    requires sn < ctrl ==> h[at + sn] == 255
    requires v == if sn < ctrl then 0 else Limit(ctrl)
    ensures Load(Store(h, Range(at, sn), v), Range(at, ctrl)) != v
  {
    var h' := Store(h, Range(at, sn), v);
    var s := h'[at..at + ctrl];
    if sn < ctrl {
      assert s[sn] == h[at + sn];
      DecodeFilled(s, sn);
      LimitPositive(sn);
    } else {
      DecodeBelow(s);
    }
  }

  /** An ACK header with every other byte 255. */
  function Filled(w: Widths, n: nat): (h: seq<Byte>)
    ensures |h| == n && forall i :: 0 <= i < n ==> h[i] == if i == Offset(w, 6) then ACK else 255
  {
    seq(n, i => if i == Offset(w, 6) then ACK else 255)
  }

  lemma TypeBeforeSn(w: Widths)
    ensures Offset(w, 6) < Offset(w, CTRL_SN)
  {
    FieldsInOrder(w, ACK, 6, CTRL_SN);
  }

  lemma AckTypeStays(w: Widths, h: seq<Byte>, v: nat)
    requires Ok(w) && |h| == CalculateSize(w, ACK) == Offset(w, CTRL_SN) + w.ctrl + w.sn
    ensures StoredType(w, Store(h, Range(Offset(w, CTRL_SN), w.sn), v)) == StoredType(w, h)
  {
    TypeBeforeSn(w);
  }

  /** Without equal widths the sequence number of an ACK PDU does not read back. */
  lemma AckDoesNotReadBack(w: Widths, h: seq<Byte>, v: nat)
    requires Ok(w) && w.sn != w.ctrl && |h| == CalculateSize(w, ACK) && StoredType(w, h) == ACK
    requires w.sn < w.ctrl ==> Offset(w, CTRL_SN) + w.sn < |h| && h[Offset(w, CTRL_SN) + w.sn] == 255
    requires v == if w.sn < w.ctrl then 0 else Limit(w.ctrl)
    ensures Get(w, Set(w, h, SequenceNumber, v), SequenceNumber) != v
  {
    var at := Offset(w, CTRL_SN);
    AckHeader(w, h, v);
    StoredDiffers(h, at, w.sn, w.ctrl, v);
    AckTypeStays(w, h, v);
    AckHeader(w, Store(h, Range(at, w.sn), v), v);
  }

  lemma FilledIsAck(w: Widths, h: seq<Byte>)
    requires |h| == CalculateSize(w, ACK) && h == Filled(w, |h|)
    ensures Header(w, ACK, h) && |h| == Offset(w, CTRL_SN) + w.ctrl + w.sn
    ensures forall i :: Offset(w, CTRL_SN) <= i < |h| ==> h[i] == 255
  {
    TypeBeforeSn(w);
    AckOffsets(w);
  }

  lemma LimitsOk(w: Widths)
    ensures w.ctrl < w.sn ==> Limit(w.ctrl) < Limit(w.sn)
    ensures Limit(w.sn) >= 1 && Limit(w.ctrl) >= 1
  {
    LimitPositive(w.sn);
    LimitPositive(w.ctrl);
    if w.ctrl < w.sn {
      LimitGrows(w.ctrl, w.sn);
    }
  }

  lemma UnequalWidthsFail(w: Widths)
    requires Ok(w) && w.sn != w.ctrl
    ensures !SettersAreExact(w)
  {
    var size: nat := CalculateSize(w, ACK);
    var h, v := Filled(w, size), if w.sn < w.ctrl then 0 else Limit(w.ctrl);
    FilledIsAck(w, h);
    AckDoesNotReadBack(w, h, v);
    LimitsOk(w);
    AckSlots(w);
    assert Allowed(w, ACK, h, SequenceNumber, v);
    assert !ExactAt(w, h, SequenceNumber, v, SequenceNumber);
  }

  /** Every setter that does not change the branch is exact, on every header of every type, if
      and only if sequence numbers and control sequence numbers have the same width. */
  lemma SettersExactIff(w: Widths)
    requires Ok(w)
    ensures SettersAreExact(w) <==> w.sn == w.ctrl
  {
    if w.sn == w.ctrl {
      forall t, h, f, v | Allowed(w, t, h, f, v) ensures SetterIsExact(w, h, f, v)
      {
        AlikeExact(w, t, h, f, v);
      }
    } else {
      UnequalWidthsFail(w);
    }
  }

  // ---------------------------------------------------------------- sequences of setters

  /** The value fits its field, and a type write stays with types alike. */
  ghost predicate Keeps(w: Widths, t: Byte, a: Assign) {
    WritableOne(w, t, a) && (a.field.Type? ==> a.value < 256 && Alike(w, t, a.value))
  }

  ghost predicate KeepAll(w: Widths, t: Byte, writes: seq<Assign>) {
    forall i :: 0 <= i < |writes| ==> Keeps(w, t, writes[i])
  }

  ghost predicate SameDispatch(w: Widths, t: Byte, h: seq<Byte>, writes: seq<Assign>) {
    SetAll(w, h, writes) == SetAllAs(w, h, t, writes) && Alike(w, t, StoredType(w, SetAll(w, h, writes)))
  }

  lemma DispatchStep(w: Widths, t: Byte, x: seq<Byte>, a: Assign)
    requires Uniform(w, t) && Holds(w, t, x) && Alike(w, t, StoredType(w, x)) && Keeps(w, t, a)
    ensures Set(w, x, a.field, a.value) == SetAs(w, x, t, a.field, a.value)
    ensures Alike(w, t, StoredType(w, Set(w, x, a.field, a.value)))
  {
    AlikeAccess(w, t, StoredType(w, x), x, a.field, a.value);
    TypeAfter(w, t, x, a.field, a.value);
  }

  lemma DispatchSnoc(w: Widths, t: Byte, h: seq<Byte>, writes: seq<Assign>, n: nat)
    requires n + 1 == |writes| && SameDispatch(w, t, h, writes[..n])
    requires Uniform(w, t) && Holds(w, t, h) && Keeps(w, t, writes[n])
    ensures SameDispatch(w, t, h, writes)
  {
    DispatchStep(w, t, SetAll(w, h, writes[..n]), writes[n]);
  }

  lemma DispatchNone(w: Widths, t: Byte, h: seq<Byte>)
    requires StoredType(w, h) == t
    ensures SameDispatch(w, t, h, [])
  {
  }

  lemma KeepPrefix(w: Widths, t: Byte, writes: seq<Assign>, n: nat)
    requires n < |writes| && KeepAll(w, t, writes)
    ensures KeepAll(w, t, writes[..n]) && Keeps(w, t, writes[n])
  {
  }

  lemma {:induction false} DispatchStays(w: Widths, t: Byte, h: seq<Byte>, writes: seq<Assign>)
    requires Uniform(w, t) && Header(w, t, h) && KeepAll(w, t, writes)
    ensures SameDispatch(w, t, h, writes)
  {
    if writes == [] {
      DispatchNone(w, t, h);
    } else {
      var n := |writes| - 1;
      KeepPrefix(w, t, writes, n);
      DispatchStays(w, t, h, writes[..n]);
      DispatchSnoc(w, t, h, writes, n);
    }
  }

  /** Any sequence of setters that keeps the branch, then any getter: the last value written
      to that field. */
  lemma LastWriteWins(w: Widths, t: Byte, h: seq<Byte>, writes: seq<Assign>, f: Field)
    requires Uniform(w, t) && Header(w, t, h) && KeepAll(w, t, writes)
    ensures Get(w, SetAll(w, h, writes), f) == LastValue(writes, f, Get(w, h, f))
  {
    DispatchStays(w, t, h, writes);
    var h' := SetAll(w, h, writes);
    AlikeAccess(w, t, StoredType(w, h'), h', f, 0);
    LastWriteWinsAs(w, t, h, writes, f);
  }

  /** Setters a caller may use on headers of type `t`: their values fit. */
  ghost predicate Usable(w: Widths, t: Byte, calls: set<Assign>) {
    forall a :: a in calls ==> WritableOne(w, t, a) && (a.field.Type? ==> a.value < 256)
  }

  ghost predicate DrawnFrom(writes: seq<Assign>, calls: set<Assign>) {
    forall i :: 0 <= i < |writes| ==> writes[i] in calls
  }

  /** After `writes` every getter returns the last value written to its field. */
  ghost predicate ReadBack(w: Widths, h: seq<Byte>, writes: seq<Assign>) {
    forall f :: Get(w, SetAll(w, h, writes), f) == LastValue(writes, f, Get(w, h, f))
  }

  /** Whatever sequence of these calls is made on whatever header of type `t`. */
  ghost predicate AlwaysReadBack(w: Widths, t: Byte, calls: set<Assign>) {
    forall h, writes :: Header(w, t, h) && DrawnFrom(writes, calls) ==> ReadBack(w, h, writes)
  }

  ghost predicate TypesAlike(t: Byte, calls: set<Assign>) {
    forall a :: a in calls && a.field.Type? ==> a.value < 256 && Kind(a.value) == Kind(t)
  }

  lemma AlikeReadBack(w: Widths, t: Byte, calls: set<Assign>, h: seq<Byte>, writes: seq<Assign>)
    requires Ok(w) && w.sn == w.ctrl && Usable(w, t, calls) && TypesAlike(t, calls)
    requires Header(w, t, h) && DrawnFrom(writes, calls)
    ensures ReadBack(w, h, writes)
  {
    forall i | 0 <= i < |writes| ensures Keeps(w, t, writes[i]) {
      assert writes[i] in calls;
    }
    forall f ensures Get(w, SetAll(w, h, writes), f) == LastValue(writes, f, Get(w, h, f)) {
      LastWriteWins(w, t, h, writes, f);
    }
  }

  lemma OneWrite(w: Widths, h: seq<Byte>, a: Assign, f: Field, otherwise: int)
    ensures SetAll(w, h, [a]) == Set(w, h, a.field, a.value)
    ensures LastValue([a], f, otherwise) == if f == a.field then a.value else otherwise
  {
    assert [a][..0] == [];
  }

  lemma ReadBackIsExact(w: Widths, t: Byte, h: seq<Byte>, v: Byte)
    requires Header(w, t, h) && ReadBack(w, h, [Assign(Type, v)])
    ensures SetterIsExact(w, h, Type, v)
  {
    TypeSlot(w, t);
    forall g ensures ExactAt(w, h, Type, v, g) {
      OneWrite(w, h, Assign(Type, v), g, Get(w, h, g));
    }
  }

  lemma UnlikeCallFails(w: Widths, t: Byte, calls: set<Assign>, v: Byte)
    requires Ok(w) && w.sn == w.ctrl && HasLayout(t) && Assign(Type, v) in calls && Kind(v) != Kind(t)
    ensures !AlwaysReadBack(w, t, calls)
  {
    UnlikeFails(w, t, v);
    var h :| Header(w, t, h) && !SetterIsExact(w, h, Type, v);
    assert DrawnFrom([Assign(Type, v)], calls);
    if ReadBack(w, h, [Assign(Type, v)]) {
      ReadBackIsExact(w, t, h, v);
    }
  }

  /** Every sequence drawn from a set of setters reads back, on every header of a type, if and
      only if each type write in the set takes the same branches. */
  lemma SequencesReadBackIff(w: Widths, t: Byte, calls: set<Assign>)
    requires Ok(w) && w.sn == w.ctrl && HasLayout(t) && Usable(w, t, calls)
    ensures AlwaysReadBack(w, t, calls) <==> TypesAlike(t, calls)
  {
    if TypesAlike(t, calls) {
      forall h, writes | Header(w, t, h) && DrawnFrom(writes, calls) ensures ReadBack(w, h, writes) {
        AlikeReadBack(w, t, calls, h, writes);
      }
    } else {
      var a :| a in calls && a.field.Type? && !(a.value < 256 && Kind(a.value) == Kind(t));
      assert a == Assign(Type, a.value);
      UnlikeCallFails(w, t, calls, a.value);
    }
  }

  // ---------------------------------------------------------------- formatting a header

  datatype Fields = Fields(
    srcCep: nat, dstCep: nat, srcAddr: nat, dstAddr: nat, sn: nat, qosId: nat, flags: nat, length: nat)

  const VERSION: nat := 1

  /** The setters a format call runs, in its order. */
  function FormatWrites(p: Fields, t: Byte): seq<Assign> {
    [Assign(Version, VERSION), Assign(Type, t), Assign(CepDestination, p.dstCep), Assign(CepSource, p.srcCep),
     Assign(Destination, p.dstAddr), Assign(Source, p.srcAddr), Assign(SequenceNumber, p.sn),
     Assign(QosId, p.qosId), Assign(Flags, p.flags), Assign(Length, p.length)]
  }

  function Format(w: Widths, h: seq<Byte>, p: Fields, t: Byte): (h': seq<Byte>)
    ensures |h'| == |h|
  {
    SetAll(w, h, FormatWrites(p, t))
  }

  ghost predicate Representable(w: Widths, p: Fields) {
    && p.srcCep < Limit(w.cep) && p.dstCep < Limit(w.cep) && p.srcAddr < Limit(w.addr) && p.dstAddr < Limit(w.addr)
    && p.sn < Limit(w.sn) && p.qosId < Limit(w.qos) && p.flags < Limit(1) && p.length < Limit(w.len)
  }

  ghost predicate Reads(w: Widths, h: seq<Byte>, t: Byte, p: Fields) {
    && Get(w, h, Version) == VERSION && Get(w, h, Type) == t
    && Get(w, h, CepSource) == p.srcCep && Get(w, h, CepDestination) == p.dstCep
    && Get(w, h, Source) == p.srcAddr && Get(w, h, Destination) == p.dstAddr
    && Get(w, h, SequenceNumber) == p.sn && Get(w, h, QosId) == p.qosId
    && Get(w, h, Flags) == p.flags && Get(w, h, Length) == p.length
  }

  lemma FormatSlots(w: Widths, t: Byte)
    requires IsData(t) || w.sn == w.ctrl
    ensures GetSlot(w, t, Version) == At(0, 1) && GetSlot(w, t, Type) == At(6, 1) && GetSlot(w, t, Flags) == At(7, 1)
    ensures GetSlot(w, t, CepDestination) == At(4, w.cep) && GetSlot(w, t, CepSource) == At(5, w.cep)
    ensures GetSlot(w, t, Destination) == At(1, w.addr) && GetSlot(w, t, Source) == At(2, w.addr)
    ensures GetSlot(w, t, SequenceNumber).At? && GetSlot(w, t, SequenceNumber).width == w.sn
    ensures GetSlot(w, t, QosId) == At(3, w.qos) && GetSlot(w, t, Length) == At(8, w.len)
  {
  }

  lemma FormatWritable(w: Widths, p: Fields, t: Byte)
    requires Ok(w) && Representable(w, p) && HasLayout(t) && (IsData(t) || w.sn == w.ctrl)
    ensures Writable(w, t, FormatWrites(p, t))
  {
    assert Limit(1) == 256 * Limit(0) == 256;
    FormatSlots(w, t);
    var writes := FormatWrites(p, t);
    assert WritableOne(w, t, writes[0]) && WritableOne(w, t, writes[1]) && WritableOne(w, t, writes[2]);
    assert WritableOne(w, t, writes[3]) && WritableOne(w, t, writes[4]) && WritableOne(w, t, writes[5]);
    assert WritableOne(w, t, writes[6]) && WritableOne(w, t, writes[7]) && WritableOne(w, t, writes[8]);
    assert WritableOne(w, t, writes[9]);
  }

  lemma {:induction false} LastAt(writes: seq<Assign>, i: nat, otherwise: int)
    requires i < |writes| && forall j :: i < j < |writes| ==> writes[j].field != writes[i].field
    ensures LastValue(writes, writes[i].field, otherwise) == writes[i].value
  {
    if i < |writes| - 1 {
      LastAt(writes[..|writes| - 1], i, otherwise);
    }
  }

  ghost predicate DistinctFields(writes: seq<Assign>) {
    forall i, j :: 0 <= i < j < |writes| ==> writes[i].field != writes[j].field
  }

  lemma FormatDistinct(p: Fields, t: Byte)
    ensures DistinctFields(FormatWrites(p, t))
  {
  }

  ghost predicate ReadsAll(w: Widths, h: seq<Byte>, t: Byte, writes: seq<Assign>) {
    forall i :: 0 <= i < |writes| ==> GetAs(w, h, t, writes[i].field) == writes[i].value
  }

  /** Setters of different fields all read back. */
  lemma DistinctReads(w: Widths, t: Byte, h: seq<Byte>, writes: seq<Assign>)
    requires Uniform(w, t) && Holds(w, t, h) && Writable(w, t, writes) && DistinctFields(writes)
    ensures ReadsAll(w, SetAllAs(w, h, t, writes), t, writes)
  {
    forall i | 0 <= i < |writes|
      ensures GetAs(w, SetAllAs(w, h, t, writes), t, writes[i].field) == writes[i].value
    {
      LastWriteWinsAs(w, t, h, writes, writes[i].field);
      LastAt(writes, i, GetAs(w, h, t, writes[i].field));
    }
  }

  lemma ReadsEach(w: Widths, h: seq<Byte>, t: Byte, p: Fields)
    requires ReadsAll(w, h, t, FormatWrites(p, t)) && StoredType(w, h) == t
    ensures Reads(w, h, t, p)
  {
    var writes := FormatWrites(p, t);
    assert writes[0] == Assign(Version, VERSION) && writes[1] == Assign(Type, t);
    assert writes[2] == Assign(CepDestination, p.dstCep) && writes[3] == Assign(CepSource, p.srcCep);
    assert writes[4] == Assign(Destination, p.dstAddr) && writes[5] == Assign(Source, p.srcAddr);
    assert writes[6] == Assign(SequenceNumber, p.sn) && writes[7] == Assign(QosId, p.qosId);
    assert writes[8] == Assign(Flags, p.flags) && writes[9] == Assign(Length, p.length);
  }

  /** The setters that do not look at the type. */
  predicate IgnoresType(f: Field) {
    f.SequenceNumber? || BaseSlot(Widths(1, 1, 1, 1, 1, 1, 1, 1), f).At?
  }

  lemma {:induction false} BaseSetters(w: Widths, t: Byte, h: seq<Byte>, writes: seq<Assign>)
    requires forall i :: 0 <= i < |writes| ==> IgnoresType(writes[i].field)
    ensures SetAll(w, h, writes) == SetAllAs(w, h, t, writes)
  {
    if writes != [] {
      var n := |writes| - 1;
      BaseSetters(w, t, h, writes[..n]);
      assert SetSlot(w, t, writes[n].field) == SetSlot(w, StoredType(w, SetAll(w, h, writes[..n])), writes[n].field);
    }
  }

  lemma FormatIsAs(w: Widths, h: seq<Byte>, p: Fields, t: Byte)
    ensures Format(w, h, p, t) == SetAllAs(w, h, t, FormatWrites(p, t))
  {
    BaseSetters(w, t, h, FormatWrites(p, t));
  }

  /** Formatting room for a header, whatever was in it, gives a header of the type that reads
      back every field it was given. */
  lemma FormatReads(w: Widths, h: seq<Byte>, p: Fields, t: Byte)
    requires Uniform(w, t) && Holds(w, t, h) && Representable(w, p)
    ensures Header(w, t, Format(w, h, p, t)) && Reads(w, Format(w, h, p, t), t, p)
  {
    var h', writes := Format(w, h, p, t), FormatWrites(p, t);
    FormatIsAs(w, h, p, t);
    FormatWritable(w, p, t);
    FormatDistinct(p, t);
    DistinctReads(w, t, h, writes);
    assert writes[1] == Assign(Type, t);
    TypeFits(w, t, h);
    TypeReads(w, t, h');
    ReadsEach(w, h', t, p);
  }
}
