/** Octets, and the concatenation of a list of octet strings. */
module Bytes {

  type Byte = x: int | 0 <= x < 256

  function Flatten(chunks: seq<seq<Byte>>): seq<Byte> {
    if chunks == [] then [] else chunks[0] + Flatten(chunks[1..])
  }

  lemma {:induction false} FlattenConcat(a: seq<seq<Byte>>, b: seq<seq<Byte>>)
    ensures Flatten(a + b) == Flatten(a) + Flatten(b)
  {
    if a == [] {
      assert a + b == b;
    } else {
      assert (a + b)[1..] == a[1..] + b;
      FlattenConcat(a[1..], b);
    }
  }

  lemma FlattenSingle(c: seq<Byte>)
    ensures Flatten([c]) == c
  {
    assert Flatten([c]) == c + Flatten([]);
  }
}
