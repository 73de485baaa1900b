/** The policy serialiser and deserialiser, moving a cursor over a buffer. */
module SerdesCursor {
  import opened Bytes
  import opened Lists
  import opened Numbers
  import opened Serdes

  /** What a loop has read so far, before what it has still to read. */
  function Appended(done: seq<Value>, others: Option<(seq<Value>, seq<Byte>)>): Option<(seq<Value>, seq<Byte>)> {
    if others.None? then None else Some((done + others.value.0, others.value.1))
  }

  lemma AppendedNext(done: seq<Value>, n: nat, b: seq<Byte>)
    requires n > 0 && DeserializeAll(POLICY_PARM, n, b).Some?
    ensures var first := Deserialize(POLICY_PARM, b);
            && first.Some?
            && Appended(done, DeserializeAll(POLICY_PARM, n, b))
            == Appended(done + [first.value.value], DeserializeAll(POLICY_PARM, n - 1, first.value.rest))
  {
    var first := Deserialize(POLICY_PARM, b);
    var others := DeserializeAll(POLICY_PARM, n - 1, first.value.rest);
    assert done + ([first.value.value] + others.value.0) == (done + [first.value.value]) + others.value.0;
  }

  lemma PolicyBytes(v: Value, before: seq<Byte>, strings: seq<Byte>)
    requires HasShape(POLICY, v) && strings == Serialize(Text, v.one) + Serialize(Text, v.two.one)
    ensures (before + strings) + Serialize(List(POLICY_PARM), v.two.two) == before + Serialize(POLICY, v)
  {
    var name, version := Serialize(Text, v.one), Serialize(Text, v.two.one);
    var parms := Serialize(List(POLICY_PARM), v.two.two);
    ConcatAssociates(before, strings, parms);
    ConcatAssociates(name, version, parms);
  }

  /** A 16-bit counter and the count itself are written alike. */
  lemma EncodeWraps(n: nat)
    ensures Encode(n % U16, 2) == Encode(n, 2)
  {
    var m := n % U16;
    assert n == U16 * (n / U16) + m;
    assert n / 256 == 256 * (n / U16) + m / 256;
    assert m % 256 == n % 256 && m / 256 % 256 == n / 256 % 256;
    assert Encode(m, 2) == [m % 256] + Encode(m / 256, 1) && Encode(n, 2) == [n % 256] + Encode(n / 256, 1);
    assert Encode(m / 256, 1) == [m / 256 % 256] + [] && Encode(n / 256, 1) == [n / 256 % 256] + [];
  }

  lemma {:induction false} SerializeAllConcat(item: Shape, a: seq<Value>, b: seq<Value>)
    requires forall i :: 0 <= i < |a| ==> HasShape(item, a[i])
    requires forall i :: 0 <= i < |b| ==> HasShape(item, b[i])
    ensures SerializeAll(item, a + b) == SerializeAll(item, a) + SerializeAll(item, b)
  {
    if a == [] {
      assert a + b == b;
    } else {
      assert (a + b)[1..] == a[1..] + b;
      SerializeAllConcat(item, a[1..], b);
    }
  }

  lemma SerLenNext(item: Shape, vs: seq<Value>, i: nat)
    requires i < |vs| && forall k :: 0 <= k < |vs| ==> HasShape(item, vs[k])
    ensures SerLenAll(item, vs[i..]) == SerLen(item, vs[i]) + SerLenAll(item, vs[i + 1..])
  {
    assert vs[i..][0] == vs[i] && vs[i..][1..] == vs[i + 1..];
  }

  lemma SerializeOne(item: Shape, v: Value)
    requires HasShape(item, v)
    ensures SerializeAll(item, [v]) == Serialize(item, v)
  {
    assert [v][1..] == [] && SerializeAll(item, []) == [];
    assert Serialize(item, v) + [] == Serialize(item, v);
  }

  lemma SerializeAllSnoc(item: Shape, vs: seq<Value>, i: nat, before: seq<Byte>)
    requires i < |vs| && forall k :: 0 <= k < |vs| ==> HasShape(item, vs[k])
    ensures before + SerializeAll(item, vs[..i + 1])
         == (before + SerializeAll(item, vs[..i])) + Serialize(item, vs[i])
  {
    assert vs[..i + 1] == vs[..i] + [vs[i]];
    SerializeAllConcat(item, vs[..i], [vs[i]]);
    SerializeOne(item, vs[i]);
    ConcatAssociates(before, SerializeAll(item, vs[..i]), Serialize(item, vs[i]));
  }

  class Cursor {
    const buffer: array<Byte>
    var at: nat

    ghost predicate Valid()
      reads this
    {
      at <= buffer.Length
    }

    constructor (bytes: array<Byte>)
      ensures Valid() && buffer == bytes && at == 0
    {
      buffer, at := bytes, 0;
    }

    // -------------------------------------------------------------- writing

    /** Stores `s` at the cursor and moves past it; nothing else changes. */
    method Put(s: seq<Byte>)
      requires Valid() && at + |s| <= buffer.Length
      modifies buffer, `at
      ensures Valid() && at == old(at) + |s|
      ensures buffer[..at] == old(buffer[..at]) + s && buffer[at..] == old(buffer[..])[at..]
    {
      forall i | 0 <= i < |s| {
        buffer[at + i] := s[i];
      }
      at := at + |s|;
    }

    method SerializeString(v: Value)
      requires Valid() && HasShape(Text, v) && at + SerLen(Text, v) <= buffer.Length
      modifies buffer, `at
      ensures Valid() && at == old(at) + SerLen(Text, v)
      ensures buffer[..at] == old(buffer[..at]) + Serialize(Text, v) && buffer[at..] == old(buffer[..])[at..]
    {
      var slen := if v.Null? then 0 else if |v.s| > 65535 then 65535 else |v.s|;
      ghost var before := buffer[..at];
      Put(Encode(slen, 2));
      Put(if v.Null? then [] else v.s[..slen]);
      assert (if v.Null? then [] else v.s[..slen]) == Stored(v);
      assert buffer[..at] == before + (Encode(slen, 2) + Stored(v));
    }

    method SerializePolicyParm(v: Value)
      requires Valid() && HasShape(POLICY_PARM, v) && at + SerLen(POLICY_PARM, v) <= buffer.Length
      modifies buffer, `at
      ensures Valid() && at == old(at) + SerLen(POLICY_PARM, v)
      ensures buffer[..at] == old(buffer[..at]) + Serialize(POLICY_PARM, v) && buffer[at..] == old(buffer[..])[at..]
    {
      SerializeStrings(v.one, v.two);
    }

    /** The caller has allocated as much as serlen says. */
    method SerializePolicy(v: Value)
      requires Valid() && HasShape(POLICY, v) && at + SerLen(POLICY, v) <= buffer.Length
      modifies buffer, `at
      ensures Valid() && at == old(at) + SerLen(POLICY, v)
      ensures buffer[..at] == old(buffer[..at]) + Serialize(POLICY, v) && buffer[at..] == old(buffer[..])[at..]
    {
      ghost var before, whole := buffer[..at], buffer[..];
      SerializeStrings(v.one, v.two.one);
      ghost var named, from := buffer[..], at;
      SerializeParms(v.two.two);
      TailStays(whole, named, buffer[..], from, at);
      PolicyBytes(v, before, Serialize(Text, v.one) + Serialize(Text, v.two.one));
    }

    /** Two strings, one after the other. */
    method SerializeStrings(one: Value, two: Value)
      requires Valid() && HasShape(Text, one) && HasShape(Text, two)
      requires at + SerLen(Text, one) + SerLen(Text, two) <= buffer.Length
      modifies buffer, `at
      ensures Valid() && at == old(at) + SerLen(Text, one) + SerLen(Text, two)
      ensures buffer[..at] == old(buffer[..at]) + (Serialize(Text, one) + Serialize(Text, two))
      ensures buffer[at..] == old(buffer[..])[at..]
    {
      ghost var before, whole := buffer[..at], buffer[..];
      SerializeString(one);
      ghost var first, from := buffer[..], at;
      SerializeString(two);
      TailStays(whole, first, buffer[..], from, at);
      ConcatAssociates(before, Serialize(Text, one), Serialize(Text, two));
    }

    method SerializeParms(v: Value)
      requires Valid() && HasShape(List(POLICY_PARM), v) && at + SerLen(List(POLICY_PARM), v) <= buffer.Length
      modifies buffer, `at
      ensures Valid() && at == old(at) + SerLen(List(POLICY_PARM), v)
      ensures buffer[..at] == old(buffer[..at]) + Serialize(List(POLICY_PARM), v)
      ensures buffer[at..] == old(buffer[..])[at..]
    {
      var numParms := CountParms(v.items);
      EncodeWraps(|v.items|);
      ghost var before, whole := buffer[..at], buffer[..];
      Put(Encode(numParms, 2));
      ghost var counted, from := buffer[..], at;
      WriteParms(v.items);
      TailStays(whole, counted, buffer[..], from, at);
      ConcatAssociates(before, Encode(|v.items|, 2), SerializeAll(POLICY_PARM, v.items));
    }

    /** The counter is 16 bits wide. */
    method CountParms(parms: seq<Value>) returns (numParms: nat)
      ensures numParms == |parms| % U16
    {
      numParms := 0;
      for i := 0 to |parms|
        invariant numParms == i % U16
      {
        numParms := (numParms + 1) % U16;
      }
    }

    method WriteParm(parms: seq<Value>, i: nat, ghost before: seq<Byte>)
      requires Valid() && i < |parms| && forall k :: 0 <= k < |parms| ==> HasShape(POLICY_PARM, parms[k])
      requires at + SerLen(POLICY_PARM, parms[i]) <= buffer.Length
      requires buffer[..at] == before + SerializeAll(POLICY_PARM, parms[..i])
      modifies buffer, `at
      ensures Valid() && at == old(at) + SerLen(POLICY_PARM, parms[i])
      ensures buffer[..at] == before + SerializeAll(POLICY_PARM, parms[..i + 1])
      ensures buffer[at..] == old(buffer[..])[at..]
    {
      SerializeAllSnoc(POLICY_PARM, parms, i, before);
      SerializePolicyParm(parms[i]);
    }

    method WriteParms(parms: seq<Value>)
      requires Valid() && forall k :: 0 <= k < |parms| ==> HasShape(POLICY_PARM, parms[k])
      requires at + SerLenAll(POLICY_PARM, parms) <= buffer.Length
      modifies buffer, `at
      ensures Valid() && at == old(at) + SerLenAll(POLICY_PARM, parms)
      ensures buffer[..at] == old(buffer[..at]) + SerializeAll(POLICY_PARM, parms)
      ensures buffer[at..] == old(buffer[..])[at..]
    {
      ghost var before, end := buffer[..at], at + SerLenAll(POLICY_PARM, parms);
      assert parms[0..] == parms;
      for i := 0 to |parms|
        invariant Valid() && at + SerLenAll(POLICY_PARM, parms[i..]) == end
        invariant buffer[..at] == before + SerializeAll(POLICY_PARM, parms[..i])
        invariant buffer[at..] == old(buffer[..])[at..]
      {
        ghost var written, from := buffer[..], at;
        SerLenNext(POLICY_PARM, parms, i);
        WriteParm(parms, i, before);
        TailStays(old(buffer[..]), written, buffer[..], from, at);
      }
      assert parms[..|parms|] == parms;
    }

    // -------------------------------------------------------------- reading

    method DeserializeNumber(width: nat) returns (n: nat)
      requires Valid() && width <= buffer.Length - at
      modifies `at
      ensures Valid() && n == Decode(old(buffer[at..])[..width]) && buffer[at..] == old(buffer[at..])[width..]
    {
      n := Decode(buffer[at..at + width]);
      assert buffer[at..][..width] == buffer[at..at + width];
      at := at + width;
    }

    method DeserializeString() returns (v: Value)
      requires Valid() && DeserializeText(buffer[at..]).Some?
      modifies `at
      ensures Valid() && Some(Read(v, buffer[at..])) == DeserializeText(old(buffer[at..]))
    {
      ghost var b := buffer[at..];
      var slen := DeserializeNumber(2);
      assert buffer[at..] == b[2..];
      v := Str(buffer[at..at + slen]);
      assert v.s == buffer[at..][..slen] == b[2..2 + slen];
      at := at + slen;
      assert buffer[at..] == b[2..][slen..] == b[2 + slen..];
    }

    method DeserializePolicyParm() returns (v: Value)
      requires Valid() && Deserialize(POLICY_PARM, buffer[at..]).Some?
      modifies `at
      ensures Valid() && Some(Read(v, buffer[at..])) == Deserialize(POLICY_PARM, old(buffer[at..]))
    {
      var name := DeserializeString();
      var value := DeserializeString();
      v := Both(name, value);
    }

    method DeserializePolicy() returns (v: Value)
      requires Valid() && Deserialize(POLICY, buffer[at..]).Some?
      modifies `at
      ensures Valid() && Some(Read(v, buffer[at..])) == Deserialize(POLICY, old(buffer[at..]))
    {
      var name := DeserializeString();
      assert Deserialize(Pair(Text, List(POLICY_PARM)), buffer[at..]).Some?;
      var version := DeserializeString();
      var parms := DeserializeParms();
      v := Both(name, Both(version, Items(parms)));
    }

    method DeserializeParms() returns (parms: seq<Value>)
      requires Valid() && Deserialize(List(POLICY_PARM), buffer[at..]).Some?
      modifies `at
      ensures Valid()
      ensures Some(Read(Items(parms), buffer[at..])) == Deserialize(List(POLICY_PARM), old(buffer[at..]))
    {
      var numAttrs := DeserializeNumber(2);
      parms := ReadParms(numAttrs);
    }

    method ReadParms(n: nat) returns (parms: seq<Value>)
      requires Valid() && DeserializeAll(POLICY_PARM, n, buffer[at..]).Some?
      modifies `at
      ensures Valid() && Some((parms, buffer[at..])) == DeserializeAll(POLICY_PARM, n, old(buffer[at..]))
    {
      ghost var all := DeserializeAll(POLICY_PARM, n, buffer[at..]);
      parms := [];
      assert [] + all.value.0 == all.value.0;
      for i := 0 to n
        invariant Valid()
        invariant Appended(parms, DeserializeAll(POLICY_PARM, n - i, buffer[at..])) == all
      {
        AppendedNext(parms, n - i, buffer[at..]);
        var parm := DeserializePolicyParm();
        parms := parms + [parm];
      }
      assert parms + [] == parms;
    }
  }
}
