/** Data units: a buffer whose data grows a header in front when sent and loses it when received. */
module Du {
  import opened Bytes
  import opened Pci
  import opened PciAccess

  /** Header and payload of a received PDU. */
  datatype Decapped = Refused | Decapped(header: seq<Byte>, payload: seq<Byte>)

  ghost predicate HoldsBase(w: Widths, d: seq<Byte>) {
    Room(w, 0, BASE_LEN + 1) <= |d|
  }

  function Trimmed(d: seq<Byte>, n: int): seq<Byte> {
    if 0 <= n < |d| then d[..n] else d
  }

  // Pulling more than there is leaves the data as it was.
  function Pulled(d: seq<Byte>, n: nat): seq<Byte> {
    if n <= |d| then d[n..] else d
  }

  function Decapsulate(w: Widths, d: seq<Byte>): Decapped {
    var t := StoredType(w, d);
    if !TypeIsOk(t) then Refused
    else
      var size := CalculateSize(w, t);
      if size <= 0 then Refused
      else Decapped(Trimmed(d, size), Pulled(Trimmed(d, Get(w, d, Length)), size))
  }

  // ---------------------------------------------------------------- what formatting touches

  lemma StoreKeepsTail(d: seq<Byte>, r: Range, v: nat, size: nat)
    requires Fits(d, r) && r.at + r.width <= size <= |d|
    ensures Store(d, r, v)[size..] == d[size..]
  {
  }

  lemma SetKeepsPayload(w: Widths, t: Byte, d: seq<Byte>, f: Field, v: nat)
    requires Uniform(w, t) && Holds(w, t, d)
    ensures var d' := SetAs(w, d, t, f, v); |d'| == |d| && d'[CalculateSize(w, t)..] == d[CalculateSize(w, t)..]
  {
    if GetSlot(w, t, f).At? {
      AccessIsExact(w, t, d, f, v);
      FieldsDisjoint(w, t, f, f);
      StoreKeepsTail(d, RangeOf(w, GetSlot(w, t, f)), v, CalculateSize(w, t));
    } else {
      AbsentSlots(w, t, d, f, v);
    }
  }

  lemma {:induction false} SettersKeepPayload(w: Widths, t: Byte, d: seq<Byte>, writes: seq<Assign>)
    requires Uniform(w, t) && Holds(w, t, d)
    ensures SetAllAs(w, d, t, writes)[CalculateSize(w, t)..] == d[CalculateSize(w, t)..]
  {
    if writes != [] {
      var n := |writes| - 1;
      SettersKeepPayload(w, t, d, writes[..n]);
      SetKeepsPayload(w, t, SetAllAs(w, d, t, writes[..n]), writes[n].field, writes[n].value);
    }
  }

  /** Formatting never reaches beyond the header. */
  lemma FormatKeepsPayload(w: Widths, t: Byte, d: seq<Byte>, p: Fields)
    requires Uniform(w, t) && Holds(w, t, d)
    ensures Format(w, d, p, t)[CalculateSize(w, t)..] == d[CalculateSize(w, t)..]
  {
    FormatIsAs(w, d, p, t);
    SettersKeepPayload(w, t, d, FormatWrites(p, t));
  }

  lemma LoadPadded(d: seq<Byte>, pad: seq<Byte>, r: Range)
    requires Fits(d, r)
    ensures Load(d + pad, r) == Load(d, r)
  {
    assert (d + pad)[r.at..r.at + r.width] == d[r.at..r.at + r.width];
  }

  lemma PaddingKeepsType(w: Widths, t: Byte, d: seq<Byte>, pad: seq<Byte>)
    requires Header(w, t, d)
    ensures StoredType(w, d + pad) == t
  {
    TypeFits(w, t, d);
  }

  lemma PaddingAs(w: Widths, t: Byte, d: seq<Byte>, pad: seq<Byte>, f: Field)
    requires Uniform(w, t) && Holds(w, t, d) && GetSlot(w, t, f).At?
    ensures GetAs(w, d + pad, t, f) == GetAs(w, d, t, f)
  {
    AccessIsExact(w, t, d, f, 0);
    AccessIsExact(w, t, d + pad, f, 0);
    LoadPadded(d, pad, RangeOf(w, GetSlot(w, t, f)));
  }

  /** Bytes appended behind a PDU do not change what its header reads. */
  lemma PaddingKeepsField(w: Widths, t: Byte, d: seq<Byte>, pad: seq<Byte>, f: Field)
    requires Uniform(w, t) && Header(w, t, d) && GetSlot(w, t, f).At?
    ensures StoredType(w, d + pad) == t && Get(w, d + pad, f) == Get(w, d, f)
  {
    PaddingKeepsType(w, t, d, pad);
    PaddingAs(w, t, d, pad, f);
  }

  lemma SizePositive(w: Widths, t: Byte)
    requires HasLayout(t)
    ensures CalculateSize(w, t) > 0
  {
    BaseFieldsFirst(w, 0);
    FieldsInOrder(w, t, 0, 0);
  }

  lemma DecapsulateIs(w: Widths, d: seq<Byte>, t: Byte, size: nat, length: int)
    requires StoredType(w, d) == t && HasLayout(t) && CalculateSize(w, t) == size > 0 && Get(w, d, Length) == length
    ensures Decapsulate(w, d) == Decapped(Trimmed(d, size), Pulled(Trimmed(d, length), size))
  {
  }

  lemma PaddedSlices(pdu: seq<Byte>, pad: seq<Byte>, size: nat)
    requires size <= |pdu|
    ensures Trimmed(pdu + pad, |pdu|) == pdu && Pulled(pdu, size) == pdu[size..]
    ensures Trimmed(pdu + pad, size) == pdu[..size]
  {
    if pad == [] {
      assert pdu + pad == pdu;
    }
  }

  lemma FormattedRead(w: Widths, t: Byte, d: seq<Byte>, p: Fields, pad: seq<Byte>)
    requires Uniform(w, t) && Holds(w, t, d) && Representable(w, p)
    ensures var pdu := Format(w, d, p, t);
            Reads(w, pdu, t, p) && StoredType(w, pdu + pad) == t && Get(w, pdu + pad, Length) == p.length
  {
    FormatReads(w, d, p, t);
    FormatSlots(w, t);
    PaddingKeepsField(w, t, Format(w, d, p, t), pad, Length);
  }

  /** Encapsulate, format with the total length, let a lower layer append any padding, and
      decapsulate: the payload and the header come back, and the header reads every field. */
  lemma EncapDecap(w: Widths, t: Byte, room: seq<Byte>, payload: seq<Byte>, p: Fields, pad: seq<Byte>)
    requires Uniform(w, t) && HasLayout(t) && |room| == CalculateSize(w, t)
    requires Representable(w, p) && p.length == |payload| + CalculateSize(w, t)
    ensures var pdu := Format(w, room + payload, p, t);
            && Decapsulate(w, pdu + pad) == Decapped(pdu[..|room|], payload)
            && Reads(w, pdu, t, p)
  {
    var pdu := Format(w, room + payload, p, t);
    FormattedRead(w, t, room + payload, p, pad);
    FormatKeepsPayload(w, t, room + payload, p);
    assert (room + payload)[|room|..] == payload;
    SizePositive(w, t);
    DecapsulateIs(w, pdu + pad, t, |room|, p.length);
    PaddedSlices(pdu, pad, |room|);
  }

  lemma SizePositiveIff(w: Widths, t: Byte)
    ensures CalculateSize(w, t) > 0 <==> HasLayout(t)
  {
    if HasLayout(t) {
      SizePositive(w, t);
    }
  }

  /** Without a layout for its type a PDU is refused, even if its type is a known one. */
  lemma DecapRefuses(w: Widths, d: seq<Byte>)
    ensures Decapsulate(w, d).Refused? <==> !HasLayout(StoredType(w, d))
  {
    SizePositiveIff(w, StoredType(w, d));
  }

  // ---------------------------------------------------------------- the buffer in place

  lemma SetIsStore(w: Widths, d: seq<Byte>, t: Byte, f: Field, v: nat)
    requires SetSlot(w, t, f).At? && Fits(d, RangeOf(w, SetSlot(w, t, f)))
    ensures SetAs(w, d, t, f, v) == Store(d, RangeOf(w, SetSlot(w, t, f)), v)
  {
  }

  lemma StoreSlice(b: seq<Byte>, lo: nat, hi: nat, at: nat, width: nat, v: nat)
    requires lo <= hi <= |b| && at + width <= hi - lo
    ensures Store(b, Range(lo + at, width), v)[lo..hi] == Store(b[lo..hi], Range(at, width), v)
  {
    var x, y := Store(b, Range(lo + at, width), v)[lo..hi], Store(b[lo..hi], Range(at, width), v);
    forall i | 0 <= i < hi - lo ensures x[i] == y[i] {
      assert b[lo..hi][i] == b[lo + i];
    }
  }

  lemma LengthIsThere(w: Widths, d: seq<Byte>)
    requires Ok(w) && HoldsBase(w, d)
    ensures Fits(d, TypeRange(w)) && Get(w, d, Length) >= 0
  {
    BaseFieldsFirst(w, 6);
    BaseFieldsFirst(w, BASE_LEN);
  }

  lemma SetAllStep(w: Widths, d: seq<Byte>, writes: seq<Assign>, k: nat)
    requires k < |writes|
    ensures SetAll(w, d, writes[..0]) == d
    ensures SetAll(w, d, writes[..k + 1]) == Set(w, SetAll(w, d, writes[..k]), writes[k].field, writes[k].value)
  {
    assert writes[..k + 1][..k] == writes[..k];
  }

  class DataUnit {
    const w: Widths
    const buffer: array<Byte>
    var data: nat
    var tail: nat
    var pciH: nat
    var pciLen: nat

    ghost predicate Valid()
      reads this
    {
      data <= tail <= buffer.Length
    }

    function Data(): seq<Byte>
      requires Valid()
      reads this, buffer
    {
      buffer[data..tail]
    }

    constructor (widths: Widths, skb: array<Byte>, headroom: nat, length: nat)
      requires headroom + length <= skb.Length
      ensures Valid() && w == widths && buffer == skb && data == headroom && tail == headroom + length
    {
      w, buffer, data, tail, pciH, pciLen := widths, skb, headroom, headroom + length, 0, 0;
    }

    /** Pushes room for the header; the source's buffer has enough headroom. */
    method Encap(t: Byte) returns (ok: bool)
      requires Valid() && CalculateSize(w, t) <= data
      modifies this
      ensures Valid() && tail == old(tail) && ok == HasLayout(t)
      ensures ok ==> |Data()| == |old(Data())| + pciLen && Data()[pciLen..] == old(Data())
      ensures ok ==> pciLen == CalculateSize(w, t) && pciH == data
      ensures !ok ==> data == old(data)
    {
      var size := CalculateSize(w, t);
      if size > 0 {
        data := data - size;
        pciH := data;
        pciLen := size;
        ok := true;
      } else {
        if HasLayout(t) {
          SizePositive(w, t);
        }
        ok := false;
      }
    }

    method PciType() returns (t: Byte)
      requires Valid() && pciH == data && Fits(Data(), TypeRange(w))
      ensures t == StoredType(w, Data())
    {
      t := buffer[pciH + Offset(w, 6)];
    }

    method PciSet(f: Field, v: nat)
      requires Valid() && pciH == data && Fits(Data(), TypeRange(w))
      modifies buffer
      ensures Data() == Set(w, old(Data()), f, v)
    {
      var t := PciType();
      var s := SetSlot(w, t, f);
      if s.At? && Offset(w, s.index) + s.width <= tail - data {
        SetIsStore(w, Data(), t, f, v);
        SetAt(Offset(w, s.index), s.width, v);
      }
    }

    /** A store through the header pointer. */
    method SetAt(offset: nat, width: nat, v: nat)
      requires Valid() && pciH == data && offset + width <= tail - data
      modifies buffer
      ensures Data() == Store(old(Data()), Range(offset, width), v)
    {
      StoreSlice(buffer[..], data, tail, offset, width, v);
      StoreInPlace(buffer, pciH + offset, width, v);
      assert Data() == buffer[..][data..tail];
    }

    method PciFormat(t: Byte, p: Fields)
      requires Valid() && pciH == data && Fits(Data(), TypeRange(w))
      modifies buffer
      ensures Data() == Format(w, old(Data()), p, t)
    {
      ghost var d, writes := Data(), FormatWrites(p, t);
      FormatStart(t, p, d, writes);
      FormatEnd(p, d, writes);
      assert writes[..10] == writes;
    }

    method FormatStart(t: Byte, p: Fields, ghost d: seq<Byte>, ghost writes: seq<Assign>)
      requires Valid() && pciH == data && Fits(d, TypeRange(w)) && Data() == d
      requires |writes| == 10 && writes[0] == Assign(Version, VERSION) && writes[1] == Assign(Type, t)
      requires writes[2] == Assign(CepDestination, p.dstCep) && writes[3] == Assign(CepSource, p.srcCep)
      requires writes[4] == Assign(Destination, p.dstAddr)
      modifies buffer
      ensures Data() == SetAll(w, d, writes[..5])
    {
      assert writes[..0] == [];
      PciWrite(d, writes, 0, Version, VERSION);
      PciWrite(d, writes, 1, Type, t);
      PciWrite(d, writes, 2, CepDestination, p.dstCep);
      PciWrite(d, writes, 3, CepSource, p.srcCep);
      PciWrite(d, writes, 4, Destination, p.dstAddr);
    }

    method FormatEnd(p: Fields, ghost d: seq<Byte>, ghost writes: seq<Assign>)
      requires Valid() && pciH == data && Fits(d, TypeRange(w))
      requires |writes| == 10 && Data() == SetAll(w, d, writes[..5])
      requires writes[5] == Assign(Source, p.srcAddr) && writes[6] == Assign(SequenceNumber, p.sn)
      requires writes[7] == Assign(QosId, p.qosId) && writes[8] == Assign(Flags, p.flags)
      requires writes[9] == Assign(Length, p.length)
      modifies buffer
      ensures Data() == SetAll(w, d, writes[..10])
    {
      PciWrite(d, writes, 5, Source, p.srcAddr);
      PciWrite(d, writes, 6, SequenceNumber, p.sn);
      PciWrite(d, writes, 7, QosId, p.qosId);
      PciWrite(d, writes, 8, Flags, p.flags);
      PciWrite(d, writes, 9, Length, p.length);
    }

    /** The setter at place `k` of a sequence begun on `d`. */
    method PciWrite(ghost d: seq<Byte>, ghost writes: seq<Assign>, ghost k: nat, f: Field, v: nat)
      requires Valid() && pciH == data && Fits(d, TypeRange(w))
      requires k < |writes| && writes[k] == Assign(f, v) && Data() == SetAll(w, d, writes[..k])
      modifies buffer
      ensures Data() == SetAll(w, d, writes[..k + 1])
    {
      PciSet(f, v);
      SetAllStep(w, d, writes, k);
    }

    method TailShrink(bytes: nat)
      requires Valid() && bytes <= tail - data
      modifies `tail
      ensures Valid() && Data() == old(Data())[..|old(Data())| - bytes]
    {
      ghost var d := Data();
      assert d == buffer[data..tail];
      tail := tail - bytes;
      assert buffer[data..tail] == buffer[data..tail + bytes][..tail - data];
    }

    /** Takes the header off and trims what lower layers appended. */
    method Decap() returns (ok: bool)
      requires Valid() && Ok(w) && HoldsBase(w, Data())
      modifies this
      ensures Valid() && pciH == old(data)
      ensures var r := Decapsulate(w, old(Data()));
              && ok == r.Decapped?
              && Data() == (if ok then r.payload else old(Data()))
              && (ok ==> pciLen == CalculateSize(w, StoredType(w, old(Data()))))
    {
      pciH := data;
      ghost var d := Data();
      LengthIsThere(w, d);
      var t := PciType();
      DecapRefuses(w, d);
      SizePositiveIff(w, t);
      if !TypeIsOk(t) {
        return false;
      }
      var size := CalculateSize(w, t);
      if size <= 0 {
        return false;
      }
      TakeHeader(t, size);
      ok := true;
    }

    method TakeHeader(t: Byte, size: nat)
      requires Valid() && Ok(w) && HoldsBase(w, Data()) && HasLayout(t)
      requires t == StoredType(w, Data()) && size == CalculateSize(w, t) > 0
      modifies `data, `tail, `pciLen
      ensures Valid() && pciLen == size
      ensures Decapsulate(w, old(Data())).Decapped? && Data() == Decapsulate(w, old(Data())).payload
    {
      LengthIsThere(w, Data());
      var length := Get(w, Data(), Length);
      DecapsulateIs(w, Data(), t, size, length);
      TrimAndPull(size, length);
      pciLen := size;
    }

    method TrimAndPull(size: nat, length: nat)
      requires Valid()
      modifies `data, `tail
      ensures Valid() && Data() == Pulled(Trimmed(old(Data()), length), size)
    {
      if tail - data > length {
        TailShrink(tail - data - length);
      }
      assert Data() == Trimmed(old(Data()), length);
      ghost var d := Data();
      if size <= tail - data {
        data := data + size;
        assert Data() == d[size..];
      }
    }
  }
}
