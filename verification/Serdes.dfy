/**
Serialised control messages: numbers of fixed width, strings and lists with a 16-bit
length in front, and records of these.  A shape says how a record is written; a value is
what is written.  The null string is written like the empty one.
*/
module Serdes {
  import opened Bytes
  import opened Lists
  import opened Numbers

  datatype Shape = Number(width: nat) | Text | Pair(first: Shape, second: Shape) | List(item: Shape)

  datatype Value =
    | Num(n: nat)
    | Null
    | Str(s: seq<Byte>)
    | Both(one: Value, two: Value)
    | Items(items: seq<Value>)

  datatype Read = Read(value: Value, rest: seq<Byte>)

  const U16: nat := 65536

  ghost predicate HasShape(shape: Shape, v: Value)
    decreases shape
  {
    match shape
    case Number(_) => v.Num?
    case Text => v.Null? || v.Str?
    case Pair(a, b) => v.Both? && HasShape(a, v.one) && HasShape(b, v.two)
    case List(item) => v.Items? && forall i :: 0 <= i < |v.items| ==> HasShape(item, v.items[i])
  }

  /** What a 16-bit length and the number widths can hold. */
  ghost predicate InBounds(shape: Shape, v: Value)
    requires HasShape(shape, v)
    decreases shape
  {
    match shape
    case Number(width) => v.n < Limit(width)
    case Text => v.Str? ==> |v.s| < U16
    case Pair(a, b) => InBounds(a, v.one) && InBounds(b, v.two)
    case List(item) => |v.items| < U16 && forall i :: 0 <= i < |v.items| ==> InBounds(item, v.items[i])
  }

  /** A null string reads back as the empty one. */
  function Canonical(v: Value): Value
    decreases v
  {
    match v
    case Num(_) => v
    case Null => Str([])
    case Str(_) => v
    case Both(one, two) => Both(Canonical(one), Canonical(two))
    case Items(items) => Items(CanonicalAll(items))
  }

  function CanonicalAll(vs: seq<Value>): (r: seq<Value>)
    ensures |r| == |vs|
    decreases vs
  {
    if vs == [] then [] else [Canonical(vs[0])] + CanonicalAll(vs[1..])
  }

  // ---------------------------------------------------------------- writing

  /** The bytes of a string, cut at the largest 16-bit length. */
  function Stored(v: Value): (s: seq<Byte>)
    requires v.Null? || v.Str?
    ensures |s| < U16
  {
    if v.Null? then [] else if |v.s| < U16 then v.s else v.s[..U16 - 1]
  }

  ghost function Serialize(shape: Shape, v: Value): seq<Byte>
    requires HasShape(shape, v)
    decreases shape, 0
  {
    match shape
    case Number(width) => Encode(v.n, width)
    case Text => Encode(|Stored(v)|, 2) + Stored(v)
    case Pair(a, b) => Serialize(a, v.one) + Serialize(b, v.two)
    case List(item) => Encode(|v.items|, 2) + SerializeAll(item, v.items)
  }

  ghost function SerializeAll(item: Shape, vs: seq<Value>): seq<Byte>
    requires forall i :: 0 <= i < |vs| ==> HasShape(item, vs[i])
    decreases item, 1 + |vs|
  {
    if vs == [] then [] else Serialize(item, vs[0]) + SerializeAll(item, vs[1..])
  }

  ghost function SerLen(shape: Shape, v: Value): nat
    requires HasShape(shape, v)
    decreases shape, 0
  {
    match shape
    case Number(width) => width
    case Text => 2 + |Stored(v)|
    case Pair(a, b) => SerLen(a, v.one) + SerLen(b, v.two)
    case List(item) => 2 + SerLenAll(item, v.items)
  }

  ghost function SerLenAll(item: Shape, vs: seq<Value>): nat
    requires forall i :: 0 <= i < |vs| ==> HasShape(item, vs[i])
    decreases item, 1 + |vs|
  {
    if vs == [] then 0 else SerLen(item, vs[0]) + SerLenAll(item, vs[1..])
  }

  // ---------------------------------------------------------------- reading

  function DeserializeText(b: seq<Byte>): Option<Read> {
    if |b| < 2 then None
    else
      var n := Decode(b[..2]);
      if |b| - 2 < n then None else Some(Read(Str(b[2..2 + n]), b[2 + n..]))
  }

  // The source trusts its buffer; where that ends the model gives None.
  function Deserialize(shape: Shape, b: seq<Byte>): Option<Read>
    decreases shape, 0
  {
    match shape
    case Number(width) => if |b| < width then None else Some(Read(Num(Decode(b[..width])), b[width..]))
    case Text => DeserializeText(b)
    case Pair(a, c) =>
      var first := Deserialize(a, b);
      if first.None? then None
      else
        var second := Deserialize(c, first.value.rest);
        if second.None? then None
        else Some(Read(Both(first.value.value, second.value.value), second.value.rest))
    case List(item) =>
      if |b| < 2 then None
      else
        var all := DeserializeAll(item, Decode(b[..2]), b[2..]);
        if all.None? then None else Some(Read(Items(all.value.0), all.value.1))
  }

  function DeserializeAll(item: Shape, n: nat, b: seq<Byte>): Option<(seq<Value>, seq<Byte>)>
    decreases item, 1 + n
  {
    if n == 0 then Some(([], b))
    else
      var first := Deserialize(item, b);
      if first.None? then None
      else
        var others := DeserializeAll(item, n - 1, first.value.rest);
        if others.None? then None else Some(([first.value.value] + others.value.0, others.value.1))
  }

  // ---------------------------------------------------------------- serlen

  /** serlen is exactly what serialising writes, whatever the value. */
  lemma {:induction false} SerLenExact(shape: Shape, v: Value)
    requires HasShape(shape, v)
    ensures |Serialize(shape, v)| == SerLen(shape, v)
    decreases shape, 0
  {
    match shape
    case Number(_) =>
    case Text =>
    case Pair(a, b) => SerLenExact(a, v.one); SerLenExact(b, v.two);
    case List(item) => SerLenAllExact(item, v.items);
  }

  lemma {:induction false} SerLenAllExact(item: Shape, vs: seq<Value>)
    requires forall i :: 0 <= i < |vs| ==> HasShape(item, vs[i])
    ensures |SerializeAll(item, vs)| == SerLenAll(item, vs)
    decreases item, 1 + |vs|
  {
    if vs != [] {
      SerLenExact(item, vs[0]);
      SerLenAllExact(item, vs[1..]);
    }
  }

  // ---------------------------------------------------------------- round trip

  lemma PrefixedNumber(n: nat, width: nat, rest: seq<Byte>)
    requires n < Limit(width)
    ensures var b := Encode(n, width) + rest;
            Decode(b[..width]) == n && b[width..] == rest
  {
    EncodeDecode(n, width);
    assert (Encode(n, width) + rest)[..width] == Encode(n, width);
  }

  lemma Limit2()
    ensures Limit(2) == U16
  {
    assert Limit(1) == 256 * Limit(0);
  }

  lemma TextRoundTrip(v: Value, rest: seq<Byte>)
    requires (v.Null? || v.Str?) && InBounds(Text, v)
    ensures DeserializeText(Serialize(Text, v) + rest) == Some(Read(Canonical(v), rest))
  {
    var s := Stored(v);
    Limit2();
    PrefixedNumber(|s|, 2, s + rest);
    ConcatAssociates(Encode(|s|, 2), s, rest);
    var b := Encode(|s|, 2) + (s + rest);
    assert b[2..2 + |s|] == s && b[2 + |s|..] == rest;
  }

  lemma PairRoundTrip(a: Shape, b: Shape, v: Value, rest: seq<Byte>)
    requires HasShape(Pair(a, b), v)
    requires Deserialize(a, Serialize(a, v.one) + (Serialize(b, v.two) + rest))
          == Some(Read(Canonical(v.one), Serialize(b, v.two) + rest))
    requires Deserialize(b, Serialize(b, v.two) + rest) == Some(Read(Canonical(v.two), rest))
    ensures Deserialize(Pair(a, b), Serialize(Pair(a, b), v) + rest) == Some(Read(Canonical(v), rest))
  {
    ConcatAssociates(Serialize(a, v.one), Serialize(b, v.two), rest);
  }

  lemma ListRoundTrip(item: Shape, v: Value, rest: seq<Byte>)
    requires HasShape(List(item), v) && |v.items| < U16
    requires DeserializeAll(item, |v.items|, SerializeAll(item, v.items) + rest)
          == Some((CanonicalAll(v.items), rest))
    ensures Deserialize(List(item), Serialize(List(item), v) + rest) == Some(Read(Canonical(v), rest))
  {
    var tail := SerializeAll(item, v.items) + rest;
    Limit2();
    PrefixedNumber(|v.items|, 2, tail);
    ConcatAssociates(Encode(|v.items|, 2), SerializeAll(item, v.items), rest);
  }

  lemma {:induction false} RoundTrip(shape: Shape, v: Value, rest: seq<Byte>)
    requires HasShape(shape, v) && InBounds(shape, v)
    ensures Deserialize(shape, Serialize(shape, v) + rest) == Some(Read(Canonical(v), rest))
    decreases shape, 0
  {
    match shape
    case Number(width) => PrefixedNumber(v.n, width, rest);
    case Text => TextRoundTrip(v, rest);
    case Pair(a, b) =>
      RoundTrip(a, v.one, Serialize(b, v.two) + rest);
      RoundTrip(b, v.two, rest);
      PairRoundTrip(a, b, v, rest);
    case List(item) =>
      RoundTripAll(item, v.items, rest);
      ListRoundTrip(item, v, rest);
  }

  lemma {:induction false} RoundTripAll(item: Shape, vs: seq<Value>, rest: seq<Byte>)
    requires forall i :: 0 <= i < |vs| ==> HasShape(item, vs[i]) && InBounds(item, vs[i])
    ensures DeserializeAll(item, |vs|, SerializeAll(item, vs) + rest) == Some((CanonicalAll(vs), rest))
    decreases item, 1 + |vs|
  {
    if vs == [] {
      assert SerializeAll(item, vs) + rest == rest;
    } else {
      var tail := SerializeAll(item, vs[1..]) + rest;
      ConcatAssociates(Serialize(item, vs[0]), SerializeAll(item, vs[1..]), rest);
      RoundTrip(item, vs[0], tail);
      RoundTripAll(item, vs[1..], rest);
    }
  }

  // ---------------------------------------------------------------- only what fits is ever read

  /** Whatever the bytes, what is read is in bounds. */
  lemma {:induction false} ReadInBounds(shape: Shape, b: seq<Byte>)
    requires Deserialize(shape, b).Some?
    ensures var v := Deserialize(shape, b).value.value; HasShape(shape, v) && InBounds(shape, v)
    decreases shape, 0
  {
    match shape
    case Number(width) => DecodeBelow(b[..width]);
    case Text => DecodeBelow(b[..2]); Limit2();
    case Pair(a, c) =>
      ReadInBounds(a, b);
      ReadInBounds(c, Deserialize(a, b).value.rest);
    case List(item) =>
      DecodeBelow(b[..2]);
      Limit2();
      ReadAllInBounds(item, Decode(b[..2]), b[2..]);
  }

  lemma {:induction false} ReadAllInBounds(item: Shape, n: nat, b: seq<Byte>)
    requires DeserializeAll(item, n, b).Some?
    ensures var vs := DeserializeAll(item, n, b).value.0;
            |vs| == n && forall i :: 0 <= i < |vs| ==> HasShape(item, vs[i]) && InBounds(item, vs[i])
    decreases item, 1 + n
  {
    if n > 0 {
      ReadInBounds(item, b);
      ReadAllInBounds(item, n - 1, Deserialize(item, b).value.rest);
    }
  }

  lemma {:induction false} CanonicalAt(vs: seq<Value>, i: nat)
    requires i < |vs|
    ensures CanonicalAll(vs)[i] == Canonical(vs[i])
  {
    if i > 0 {
      CanonicalAt(vs[1..], i - 1);
    }
  }

  lemma {:induction false} CanonicalBounds(shape: Shape, v: Value)
    requires HasShape(shape, v)
    ensures HasShape(shape, Canonical(v)) && (InBounds(shape, Canonical(v)) <==> InBounds(shape, v))
    decreases shape, 0
  {
    match shape
    case Number(_) =>
    case Text =>
    case Pair(a, b) => CanonicalBounds(a, v.one); CanonicalBounds(b, v.two);
    case List(item) =>
      forall i | 0 <= i < |v.items|
        ensures HasShape(item, CanonicalAll(v.items)[i])
        ensures InBounds(item, CanonicalAll(v.items)[i]) <==> InBounds(item, v.items[i])
      {
        CanonicalAt(v.items, i);
        CanonicalBounds(item, v.items[i]);
      }
  }

  /** Reading what was written gives the value back, with the cursor at whatever follows,
      exactly when every string is at most 65535 bytes, every list shorter than 65536 and
      every number fits its width. */
  lemma RoundTripIff(shape: Shape, v: Value, rest: seq<Byte>)
    requires HasShape(shape, v)
    ensures Deserialize(shape, Serialize(shape, v) + rest) == Some(Read(Canonical(v), rest)) <==> InBounds(shape, v)
  {
    if InBounds(shape, v) {
      RoundTrip(shape, v, rest);
    } else if Deserialize(shape, Serialize(shape, v) + rest) == Some(Read(Canonical(v), rest)) {
      ReadInBounds(shape, Serialize(shape, v) + rest);
      CanonicalBounds(shape, v);
    }
  }

  // ---------------------------------------------------------------- the messages

  const NAME := Pair(Text, Pair(Text, Pair(Text, Text)))

  /** Name, version, parameters. */
  const POLICY_PARM := Pair(Text, Text)
  const POLICY := Pair(Text, Pair(Text, List(POLICY_PARM)))

  /** Instance, name, class, displayable value. */
  const RIB_OBJECT_DATA := Pair(Number(8), Pair(Text, Pair(Text, Text)))
  const QUERY_RIB_RESP := List(RIB_OBJECT_DATA)

  /** Address, QoS id, cost, alternatives. */
  const PORT_ID_ALTLIST := List(Number(4))
  const MOD_PFF_ENTRY := Pair(Number(4), Pair(Number(2), Pair(Number(4), List(PORT_ID_ALTLIST))))
  const PFF_ENTRY_LIST := List(MOD_PFF_ENTRY)

  /** Addresses, round-trip time, enrolment attempts; enrolled; ports and last-heard time; names. */
  const NEIGHBOR_PORTS := Pair(Number(4), Pair(Number(4), Number(4)))
  const NEIGHBOR_COUNTS := Pair(Number(4), Pair(Number(4), Pair(Number(1), NEIGHBOR_PORTS)))
  const NEIGHBOR_NUMBERS := Pair(Number(4), Pair(Number(4), NEIGHBOR_COUNTS))
  const IPCP_NEIGHBOR := Pair(NEIGHBOR_NUMBERS, Pair(NAME, Pair(NAME, List(NAME))))
  const IPCP_NEIGH_LIST := List(IPCP_NEIGHBOR)

  /** Signal strength and address; DIF name, policies, base stations; process id, names, DIFs. */
  const BS_INFO_ENTRY := Pair(Number(4), Text)
  const MEDIA_DIF_INFO := Pair(Text, Pair(Text, List(BS_INFO_ENTRY)))
  const MEDIA_REPORT := Pair(Number(2), Pair(Text, Pair(Text, List(Pair(Text, MEDIA_DIF_INFO)))))

  /** Each message round-trips and moves the cursor by its serlen. */
  lemma MessagesRoundTrip(shape: Shape, v: Value, rest: seq<Byte>)
    requires shape in {POLICY, PFF_ENTRY_LIST, QUERY_RIB_RESP, IPCP_NEIGH_LIST, MEDIA_REPORT}
    requires HasShape(shape, v) && InBounds(shape, v)
    ensures var b := Serialize(shape, v) + rest;
            && |b| - |rest| == SerLen(shape, v)
            && Deserialize(shape, b) == Some(Read(Canonical(v), rest))
  {
    SerLenExact(shape, v);
    RoundTrip(shape, v, rest);
  }
}
