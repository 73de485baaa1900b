/**
The protocol control information header: a table of field offsets computed from the
configured field widths, and typed getters and setters that read and write through it.
Numbers are stored as on a little-endian host.
*/
module Pci {
  import opened Bytes
  import opened Numbers

  /** Configured widths in bytes; `sn` of a sequence number, `ctrl` of a control sequence number. */
  datatype Widths = Widths(addr: nat, qos: nat, cep: nat, len: nat, sn: nat, ctrl: nat, rate: nat, frame: nat)

  predicate IsWidth(n: nat) {
    n == 1 || n == 2 || n == 4
  }

  predicate Ok(w: Widths) {
    && IsWidth(w.addr) && IsWidth(w.qos) && IsWidth(w.cep) && IsWidth(w.len)
    && IsWidth(w.sn) && IsWidth(w.ctrl) && IsWidth(w.rate) && IsWidth(w.frame)
  }

  const FIELD_INDEX_MAX: nat := 45

  const BASE_LEN: nat := 8
  const DT_MGMT_SN: nat := 9
  const DT_MGMT_SIZE: nat := 10
  const CTRL_SN: nat := 11
  const FC_NEW_RWE: nat := 12
  const FC_SIZE: nat := 17
  const CACK_LAST_CSN: nat := 18
  const CACK_SIZE: nat := 25
  const ACK_ACKED_SN: nat := 26
  const ACK_SIZE: nat := 27
  const ACK_FC_ACKED_SN: nat := 28
  const ACK_FC_LAST_CSN: nat := 29
  const ACK_FC_SIZE: nat := 36
  const RVOUS_LAST_CSN: nat := 37
  const RVOUS_SIZE: nat := 44

  predicate IsSize(i: nat) {
    i == DT_MGMT_SIZE || i == FC_SIZE || i == CACK_SIZE || i == ACK_SIZE || i == ACK_FC_SIZE || i == RVOUS_SIZE
  }

  /** The room a field takes; the size markers take none. */
  function Slot(w: Widths, i: nat): nat {
    if i == 0 || i == 6 || i == 7 then 1
    else if i == 1 || i == 2 then w.addr
    else if i == 3 then w.qos
    else if i == 4 || i == 5 then w.cep
    else if i == BASE_LEN then w.len
    else if i == CTRL_SN || i == CACK_LAST_CSN || i == ACK_FC_LAST_CSN || i == RVOUS_LAST_CSN then w.ctrl
    else if i == 15 || i == 23 || i == 34 || i == 42 then w.rate
    else if i == 16 || i == 24 || i == 35 || i == 43 then w.frame
    else if IsSize(i) then 0
    else w.sn
  }

  /** Room of the fields a .. b - 1. */
  function Room(w: Widths, a: nat, b: nat): nat {
    if a >= b then 0 else Room(w, a, b - 1) + Slot(w, b - 1)
  }

  /** The first field of the group a field belongs to. */
  function Group(i: nat): nat {
    if i <= BASE_LEN then 0
    else if i <= DT_MGMT_SIZE then DT_MGMT_SN
    else if i == CTRL_SN then CTRL_SN
    else if i <= FC_SIZE then FC_NEW_RWE
    else if i <= CACK_SIZE then CACK_LAST_CSN
    else if i <= ACK_SIZE then ACK_ACKED_SN
    else if i <= ACK_FC_SIZE then ACK_FC_ACKED_SN
    else RVOUS_LAST_CSN
  }

  /** Groups overlay one another: after the base fields, or after the control sequence number. */
  function GroupStart(w: Widths, g: nat): nat {
    if g == 0 then 0
    else Room(w, 0, BASE_LEN + 1) + if g == DT_MGMT_SN || g == CTRL_SN then 0 else w.ctrl
  }

  function Offset(w: Widths, i: nat): nat {
    GroupStart(w, Group(i)) + Room(w, Group(i), i)
  }

  method OffsetTableCreate(w: Widths) returns (table: array<nat>)
    ensures table.Length == FIELD_INDEX_MAX
    ensures forall i :: 0 <= i < FIELD_INDEX_MAX ==> table[i] == Offset(w, i)
  {
    table := new nat[FIELD_INDEX_MAX];
    var offset: nat, baseOffset: nat := 0, 0;
    for i := 0 to FIELD_INDEX_MAX
      invariant i < FIELD_INDEX_MAX ==> offset == Offset(w, i)
      invariant i > BASE_LEN ==> baseOffset == Room(w, 0, BASE_LEN + 1) + if i > CTRL_SN then w.ctrl else 0
      invariant forall j :: 0 <= j < i ==> table[j] == Offset(w, j)
    {
      table[i] := offset;
      if IsSize(i) {
        offset := baseOffset;
      } else {
        offset := offset + Slot(w, i);
        if i == BASE_LEN {
          baseOffset := offset;
        } else if i == CTRL_SN {
          baseOffset := baseOffset + w.ctrl;
        }
      }
    }
  }

  // ---------------------------------------------------------------- PDU types

  const DT: Byte := 0x80
  const CACK: Byte := 0xC0
  const ACK: Byte := 0xC1
  const FC: Byte := 0xC4
  const ACK_AND_FC: Byte := 0xC5
  const RENDEZVOUS: Byte := 0xCF
  const MGMT: Byte := 0x40

  predicate IsData(t: Byte) {
    t == DT || t == MGMT
  }

  predicate HasLayout(t: Byte) {
    IsData(t) || t == FC || t == ACK || t == ACK_AND_FC || t == CACK || t == RENDEZVOUS
  }

  // Also the types the source accepts on receipt without a layout for them.
  predicate TypeIsOk(t: Byte) {
    HasLayout(t) || t in {0xC9, 0xC2, 0xCD, 0xCE}
  }

  function SizeIndex(t: Byte): nat
    requires HasLayout(t)
  {
    if IsData(t) then DT_MGMT_SIZE
    else if t == FC then FC_SIZE
    else if t == ACK then ACK_SIZE
    else if t == ACK_AND_FC then ACK_FC_SIZE
    else if t == CACK then CACK_SIZE
    else RVOUS_SIZE
  }

  /** -1 for a type without a layout. */
  function CalculateSize(w: Widths, t: Byte): int {
    if HasLayout(t) then Offset(w, SizeIndex(t)) else -1
  }

  /** The specific fields of a type: first and one past the last. */
  function Specific(t: Byte): (nat, nat)
    requires HasLayout(t)
  {
    if IsData(t) then (DT_MGMT_SN, DT_MGMT_SIZE)
    else if t == FC then (FC_NEW_RWE, FC_SIZE)
    else if t == ACK then (ACK_ACKED_SN, ACK_SIZE)
    else if t == ACK_AND_FC then (ACK_FC_ACKED_SN, ACK_FC_SIZE)
    else (CACK_LAST_CSN, CACK_SIZE)
  }

  /** Where a field comes in the header of its type, counting from the front. */
  function Rank(t: Byte, i: nat): nat {
    if i <= BASE_LEN then i else if i == CTRL_SN then 9 else 10 + i
  }

  predicate Belongs(t: Byte, i: nat)
    requires HasLayout(t)
  {
    i <= BASE_LEN || (i == CTRL_SN && !IsData(t)) || Specific(t).0 <= i < Specific(t).1
  }

  lemma {:induction false} RoomSplits(w: Widths, a: nat, b: nat, c: nat)
    requires a <= b <= c
    ensures Room(w, a, c) == Room(w, a, b) + Room(w, b, c)
  {
    if b < c {
      RoomSplits(w, a, b, c - 1);
    }
  }

  lemma BaseFieldsFirst(w: Widths, i: nat)
    requires i <= BASE_LEN
    ensures Offset(w, i) + Slot(w, i) == Room(w, 0, i + 1) <= Room(w, 0, BASE_LEN + 1)
  {
    RoomSplits(w, 0, i + 1, BASE_LEN + 1);
  }

  lemma {:induction false} RoomShift(w: Widths, n: nat)
    requires n <= CACK_SIZE - CACK_LAST_CSN
    ensures Room(w, CACK_LAST_CSN, CACK_LAST_CSN + n) == Room(w, RVOUS_LAST_CSN, RVOUS_LAST_CSN + n)
  {
    if n > 0 {
      RoomShift(w, n - 1);
    }
  }

  lemma RendezvousIsControlAck(w: Widths)
    ensures Offset(w, RVOUS_SIZE) == Offset(w, CACK_SIZE)
  {
    RoomShift(w, CACK_SIZE - CACK_LAST_CSN);
  }

  /** The size of a type's header is the end of its last field. */
  lemma SpecificWithin(w: Widths, t: Byte, i: nat)
    requires HasLayout(t) && Specific(t).0 <= i < Specific(t).1
    ensures Offset(w, i) == GroupStart(w, Specific(t).0) + Room(w, Specific(t).0, i)
    ensures Offset(w, i) + Slot(w, i) <= CalculateSize(w, t)
    ensures i == Specific(t).1 - 1 ==> Offset(w, i) + Slot(w, i) == CalculateSize(w, t)
  {
    var (a, b) := Specific(t);
    RoomSplits(w, a, i + 1, b);
    if t == RENDEZVOUS {
      RendezvousIsControlAck(w);
    }
  }

  lemma BaseInside(w: Widths, t: Byte, i: nat)
    requires HasLayout(t) && (i <= BASE_LEN || (i == CTRL_SN && !IsData(t)))
    ensures Offset(w, i) + Slot(w, i) <= Offset(w, Specific(t).0) <= CalculateSize(w, t)
  {
    SpecificWithin(w, t, Specific(t).0);
    if i <= BASE_LEN {
      BaseFieldsFirst(w, i);
    }
  }

  lemma BaseInOrder(w: Widths, i: nat, j: nat)
    requires i < j <= BASE_LEN || (i <= BASE_LEN && j == CTRL_SN)
    ensures Offset(w, i) + Slot(w, i) <= Offset(w, j)
  {
    BaseFieldsFirst(w, i);
    if j <= BASE_LEN {
      RoomSplits(w, 0, i + 1, j);
    }
  }

  lemma SpecificInOrder(w: Widths, t: Byte, i: nat, j: nat)
    requires HasLayout(t) && Specific(t).0 <= i < j < Specific(t).1
    ensures Offset(w, i) + Slot(w, i) <= Offset(w, j)
  {
    SpecificWithin(w, t, i);
    SpecificWithin(w, t, j);
    RoomSplits(w, Specific(t).0, i + 1, j);
  }

  lemma SpecificFrom(w: Widths, t: Byte, j: nat)
    requires HasLayout(t) && Specific(t).0 <= j < Specific(t).1
    ensures Offset(w, Specific(t).0) <= Offset(w, j)
  {
    SpecificWithin(w, t, j);
    SpecificWithin(w, t, Specific(t).0);
  }

  /** The fields of a type are laid out one after another, in rank order, inside its size. */
  lemma FieldsInOrder(w: Widths, t: Byte, i: nat, j: nat)
    requires HasLayout(t) && Belongs(t, i) && Belongs(t, j)
    ensures Rank(t, i) < Rank(t, j) ==> Offset(w, i) + Slot(w, i) <= Offset(w, j)
    ensures Offset(w, i) + Slot(w, i) <= CalculateSize(w, t)
  {
    var (a, b) := Specific(t);
    if a <= i < b {
      SpecificWithin(w, t, i);
      if i < j < b {
        SpecificInOrder(w, t, i, j);
      }
    } else {
      BaseInside(w, t, i);
      if a <= j < b {
        SpecificFrom(w, t, j);
      } else if i < j {
        BaseInOrder(w, i, j);
      }
    }
  }

  // ---------------------------------------------------------------- numbers in the header

  /** A byte range of the header. */
  datatype Range = Range(at: nat, width: nat)

  function Load(h: seq<Byte>, r: Range): nat
    requires r.at + r.width <= |h|
  {
    Decode(h[r.at..r.at + r.width])
  }

  // The source's switch has no case for other widths: nothing is stored.
  function Store(h: seq<Byte>, r: Range, v: nat): (h': seq<Byte>)
    requires r.at + r.width <= |h|
    ensures |h'| == |h|
  {
    if IsWidth(r.width) then h[..r.at] + Encode(v, r.width) + h[r.at + r.width..] else h
  }

  predicate Disjoint(r: Range, q: Range) {
    r.at + r.width <= q.at || q.at + q.width <= r.at
  }

  lemma LoadStored(h: seq<Byte>, r: Range, v: nat)
    requires r.at + r.width <= |h| && IsWidth(r.width) && v < Limit(r.width)
    ensures Load(Store(h, r, v), r) == v
  {
    assert Store(h, r, v)[r.at..r.at + r.width] == Encode(v, r.width);
    EncodeDecode(v, r.width);
  }

  lemma LoadOther(h: seq<Byte>, r: Range, v: nat, q: Range)
    requires r.at + r.width <= |h| && q.at + q.width <= |h| && Disjoint(r, q)
    ensures Load(Store(h, r, v), q) == Load(h, q)
  {
    var h' := Store(h, r, v);
    forall i | q.at <= i < q.at + q.width ensures h'[i] == h[i] {
    }
    assert h'[q.at..q.at + q.width] == h[q.at..q.at + q.width];
  }

  method StoreInPlace(h: array<Byte>, at: nat, width: nat, v: nat)
    requires at + width <= h.Length
    modifies h
    ensures h[..] == Store(old(h[..]), Range(at, width), v)
  {
    if width == 1 {
      h[at] := v % 256;
      assert Encode(v, 1) == [v % 256];
    } else if width == 2 {
      h[at], h[at + 1] := v % 256, v / 256 % 256;
      assert Encode(v, 2) == [v % 256, v / 256 % 256];
    } else if width == 4 {
      var v1 := v / 256;
      var v2 := v1 / 256;
      h[at], h[at + 1], h[at + 2], h[at + 3] := v % 256, v1 % 256, v2 % 256, v2 / 256 % 256;
      assert Encode(v2, 2) == [v2 % 256, v2 / 256 % 256];
      assert Encode(v, 4) == [v % 256, v1 % 256] + Encode(v2, 2);
    }
  }

  // ---------------------------------------------------------------- typed access

  datatype Field =
    | Version | Destination | Source | QosId | CepDestination | CepSource | Type | Flags | Length
    | SequenceNumber | AckSeqNum | NewRtWindEdge | NewLeftWindEdge | MyRtWindEdge | MyLeftWindEdge
    | LastSeqNumRcvd | SndrRate | TimeFrame

  datatype Slotted = Absent | At(index: nat, width: nat)

  function BaseSlot(w: Widths, f: Field): Slotted {
    match f
    case Version => At(0, 1)
    case Destination => At(1, w.addr)
    case Source => At(2, w.addr)
    case QosId => At(3, w.qos)
    case CepDestination => At(4, w.cep)
    case CepSource => At(5, w.cep)
    case Type => At(6, 1)
    case Flags => At(7, 1)
    case Length => At(8, w.len)
    case _ => Absent
  }

  /** Index by type for FC, then CACK and RENDEZVOUS, then ACK_AND_FC. */
  function Triple(t: Byte, fc: nat, cack: nat, ackFc: nat, width: nat): Slotted {
    if t == FC && fc != 0 then At(fc, width)
    else if t == CACK || t == RENDEZVOUS then At(cack, width)
    else if t == ACK_AND_FC then At(ackFc, width)
    else Absent
  }

  function ControlSlot(w: Widths, t: Byte, f: Field): Slotted {
    match f
    case AckSeqNum =>
      if t == ACK then At(ACK_ACKED_SN, w.sn) else if t == ACK_AND_FC then At(ACK_FC_ACKED_SN, w.sn) else Absent
    case NewRtWindEdge => Triple(t, 12, 20, 31, w.sn)
    case NewLeftWindEdge => Triple(t, 0, 19, 30, w.sn)
    case MyRtWindEdge => Triple(t, 14, 22, 33, w.sn)
    case MyLeftWindEdge => Triple(t, 13, 21, 32, w.sn)
    case LastSeqNumRcvd => Triple(t, 0, 18, 29, w.sn)
    case SndrRate => Triple(t, 15, 23, 34, w.rate)
    case TimeFrame => if t == RENDEZVOUS then Absent else Triple(t, 16, 24, 35, w.frame)
    case _ => Absent
  }

  function GetSlot(w: Widths, t: Byte, f: Field): Slotted {
    if f.SequenceNumber? then if IsData(t) then At(DT_MGMT_SN, w.sn) else At(CTRL_SN, w.ctrl)
    else if BaseSlot(w, f).At? then BaseSlot(w, f)
    else ControlSlot(w, t, f)
  }

  // The setter of the sequence number does not look at the type.
  function SetSlot(w: Widths, t: Byte, f: Field): Slotted {
    if f.SequenceNumber? then At(DT_MGMT_SN, w.sn) else GetSlot(w, t, f)
  }

  function RangeOf(w: Widths, s: Slotted): Range
    requires s.At?
  {
    Range(Offset(w, s.index), s.width)
  }

  predicate Fits(h: seq<Byte>, r: Range) {
    r.at + r.width <= |h|
  }

  /** -1 as a sequence number, which is unsigned. */
  const NO_SEQ_NUM: nat := 0xFFFF_FFFF

  /** What the getters return for a field the type does not have. */
  function Missing(f: Field): int {
    if f.SndrRate? || f.TimeFrame? then 0 else NO_SEQ_NUM
  }

  /** The getter's branch for type `t`; -1 for a width the source cannot read. */
  function GetAs(w: Widths, h: seq<Byte>, t: Byte, f: Field): int {
    var s := GetSlot(w, t, f);
    if s.Absent? then Missing(f)
    else if !IsWidth(s.width) || !Fits(h, RangeOf(w, s)) then -1
    else Load(h, RangeOf(w, s))
  }

  /** The setter's branch for type `t`. */
  function SetAs(w: Widths, h: seq<Byte>, t: Byte, f: Field, v: nat): (h': seq<Byte>)
    ensures |h'| == |h|
  {
    var s := SetSlot(w, t, f);
    if s.Absent? || !Fits(h, RangeOf(w, s)) then h else Store(h, RangeOf(w, s), v)
  }

  // ---------------------------------------------------------------- layout of the typed fields

  /** Control PDUs need the two kinds of sequence number to have one width. */
  predicate Uniform(w: Widths, t: Byte) {
    Ok(w) && (IsData(t) || w.sn == w.ctrl)
  }

  lemma BaseShape(w: Widths, t: Byte, f: Field)
    requires Ok(w) && HasLayout(t) && BaseSlot(w, f).At?
    ensures var s := BaseSlot(w, f); Belongs(t, s.index) && s.width == Slot(w, s.index) && IsWidth(s.width)
  {
  }

  lemma ControlShape(w: Widths, t: Byte, f: Field)
    requires Ok(w) && w.sn == w.ctrl && HasLayout(t) && ControlSlot(w, t, f).At?
    ensures var s := ControlSlot(w, t, f); Belongs(t, s.index) && s.width == Slot(w, s.index) && IsWidth(s.width)
  {
  }

  lemma DataHasNoControl(w: Widths, t: Byte, f: Field)
    requires IsData(t)
    ensures ControlSlot(w, t, f).Absent?
  {
  }

  lemma SlotShape(w: Widths, t: Byte, f: Field)
    requires Uniform(w, t) && HasLayout(t) && GetSlot(w, t, f).At?
    ensures var s := GetSlot(w, t, f);
            Belongs(t, s.index) && s.width == Slot(w, s.index) && IsWidth(s.width)
  {
    if !f.SequenceNumber? {
      if BaseSlot(w, f).At? {
        BaseShape(w, t, f);
      } else if IsData(t) {
        DataHasNoControl(w, t, f);
      } else {
        ControlShape(w, t, f);
      }
    }
  }

  /** Getters and setters use the bytes the layout gives each field. */
  lemma SlotInLayout(w: Widths, t: Byte, f: Field)
    requires Uniform(w, t) && HasLayout(t) && GetSlot(w, t, f).At?
    ensures var s := GetSlot(w, t, f);
            && Belongs(t, s.index) && s.width == Slot(w, s.index) && IsWidth(s.width)
            && SetSlot(w, t, f).At? && RangeOf(w, SetSlot(w, t, f)) == RangeOf(w, s)
  {
    SlotShape(w, t, f);
    if f.SequenceNumber? && !IsData(t) {
      assert Offset(w, DT_MGMT_SN) == Offset(w, CTRL_SN);
    }
  }

  lemma SlotsDistinct(w: Widths, t: Byte, f: Field, g: Field)
    requires HasLayout(t) && GetSlot(w, t, f).At? && GetSlot(w, t, g).At? && f != g
    ensures GetSlot(w, t, f).index != GetSlot(w, t, g).index
  {
  }

  /** The fields of each type are pairwise disjoint and inside the size of the type. */
  lemma FieldsDisjoint(w: Widths, t: Byte, f: Field, g: Field)
    requires Uniform(w, t) && HasLayout(t) && GetSlot(w, t, f).At? && GetSlot(w, t, g).At?
    ensures var r, q := RangeOf(w, GetSlot(w, t, f)), RangeOf(w, GetSlot(w, t, g));
            (f != g ==> Disjoint(r, q)) && r.at + r.width <= CalculateSize(w, t)
  {
    SlotInLayout(w, t, f);
    SlotInLayout(w, t, g);
    var i, j := GetSlot(w, t, f).index, GetSlot(w, t, g).index;
    FieldsInOrder(w, t, i, j);
    FieldsInOrder(w, t, j, i);
    if f != g {
      SlotsDistinct(w, t, f, g);
    }
  }

  // ---------------------------------------------------------------- round trips at one type

  /** Room for the header of type `t`. */
  ghost predicate Holds(w: Widths, t: Byte, h: seq<Byte>) {
    HasLayout(t) && CalculateSize(w, t) <= |h|
  }

  lemma AccessAt(w: Widths, h: seq<Byte>, t: Byte, f: Field, v: nat, get: Range, set_: Range)
    requires GetSlot(w, t, f).At? && RangeOf(w, GetSlot(w, t, f)) == get && Fits(h, get) && IsWidth(get.width)
    requires SetSlot(w, t, f).At? && RangeOf(w, SetSlot(w, t, f)) == set_ && Fits(h, set_)
    ensures GetAs(w, h, t, f) == Load(h, get) && SetAs(w, h, t, f, v) == Store(h, set_, v)
  {
  }

  lemma FieldFits(w: Widths, t: Byte, h: seq<Byte>, f: Field)
    requires Uniform(w, t) && Holds(w, t, h) && GetSlot(w, t, f).At?
    ensures Fits(h, RangeOf(w, GetSlot(w, t, f)))
  {
    FieldsDisjoint(w, t, f, f);
  }

  lemma AccessIsExact(w: Widths, t: Byte, h: seq<Byte>, f: Field, v: nat)
    requires Uniform(w, t) && Holds(w, t, h) && GetSlot(w, t, f).At?
    ensures var r := RangeOf(w, GetSlot(w, t, f));
            && Fits(h, r) && IsWidth(r.width)
            && GetAs(w, h, t, f) == Load(h, r) && SetAs(w, h, t, f, v) == Store(h, r, v)
  {
    var r := RangeOf(w, GetSlot(w, t, f));
    SlotInLayout(w, t, f);
    FieldFits(w, t, h, f);
    AccessAt(w, h, t, f, v, r, r);
  }

  lemma SetSame(w: Widths, t: Byte, h: seq<Byte>, f: Field, v: nat)
    requires Uniform(w, t) && Holds(w, t, h) && GetSlot(w, t, f).At? && v < Limit(GetSlot(w, t, f).width)
    ensures GetAs(w, SetAs(w, h, t, f, v), t, f) == v
  {
    AccessIsExact(w, t, h, f, v);
    AccessIsExact(w, t, SetAs(w, h, t, f, v), f, v);
    LoadStored(h, RangeOf(w, GetSlot(w, t, f)), v);
  }

  lemma SetOther(w: Widths, t: Byte, h: seq<Byte>, f: Field, v: nat, g: Field)
    requires Uniform(w, t) && Holds(w, t, h) && GetSlot(w, t, f).At? && GetSlot(w, t, g).At? && f != g
    ensures GetAs(w, SetAs(w, h, t, f, v), t, g) == GetAs(w, h, t, g)
  {
    AccessIsExact(w, t, h, f, v);
    AccessIsExact(w, t, h, g, v);
    AccessIsExact(w, t, SetAs(w, h, t, f, v), g, v);
    FieldsDisjoint(w, t, f, g);
    LoadOther(h, RangeOf(w, GetSlot(w, t, f)), v, RangeOf(w, GetSlot(w, t, g)));
  }

  lemma AbsentSlots(w: Widths, t: Byte, h: seq<Byte>, f: Field, v: nat)
    requires GetSlot(w, t, f).Absent?
    ensures SetAs(w, h, t, f, v) == h && GetAs(w, h, t, f) == Missing(f)
  {
  }

  lemma SetThenGetAs(w: Widths, t: Byte, h: seq<Byte>, f: Field, v: nat, g: Field)
    requires Uniform(w, t) && Holds(w, t, h)
    requires GetSlot(w, t, f).At? ==> v < Limit(GetSlot(w, t, f).width)
    ensures GetAs(w, SetAs(w, h, t, f, v), t, g) ==
            if g == f && GetSlot(w, t, f).At? then v else GetAs(w, h, t, g)
  {
    var h' := SetAs(w, h, t, f, v);
    if GetSlot(w, t, f).Absent? {
      AbsentSlots(w, t, h, f, v);
    } else if g == f {
      SetSame(w, t, h, f, v);
    } else if GetSlot(w, t, g).At? {
      SetOther(w, t, h, f, v, g);
    } else {
      AbsentSlots(w, t, h, g, v);
      AbsentSlots(w, t, h', g, v);
    }
  }

  datatype Assign = Assign(field: Field, value: nat)

  function SetAllAs(w: Widths, h: seq<Byte>, t: Byte, writes: seq<Assign>): (h': seq<Byte>)
    ensures |h'| == |h|
  {
    if writes == [] then h
    else
      var n := |writes| - 1;
      SetAs(w, SetAllAs(w, h, t, writes[..n]), t, writes[n].field, writes[n].value)
  }

  /** The last value written to `f`, or `otherwise`. */
  function LastValue(writes: seq<Assign>, f: Field, otherwise: int): int {
    if writes == [] then otherwise
    else if writes[|writes| - 1].field == f then writes[|writes| - 1].value
    else LastValue(writes[..|writes| - 1], f, otherwise)
  }

  ghost predicate WritableOne(w: Widths, t: Byte, a: Assign) {
    var s := GetSlot(w, t, a.field); s.At? && a.value < Limit(s.width)
  }

  ghost predicate Writable(w: Widths, t: Byte, writes: seq<Assign>) {
    forall i :: 0 <= i < |writes| ==> WritableOne(w, t, writes[i])
  }

  lemma {:induction false} LastWriteWinsAs(w: Widths, t: Byte, h: seq<Byte>, writes: seq<Assign>, f: Field)
    requires Uniform(w, t) && Holds(w, t, h) && Writable(w, t, writes)
    ensures GetAs(w, SetAllAs(w, h, t, writes), t, f) == LastValue(writes, f, GetAs(w, h, t, f))
  {
    if writes != [] {
      var n := |writes| - 1;
      LastWriteWinsAs(w, t, h, writes[..n], f);
      assert WritableOne(w, t, writes[n]);
      SetThenGetAs(w, t, SetAllAs(w, h, t, writes[..n]), writes[n].field, writes[n].value, f);
    }
  }
}
