/** Numbers as bytes, least significant first. */
module Numbers {
  import opened Bytes

  function Encode(v: nat, n: nat): (r: seq<Byte>)
    ensures |r| == n
  {
    if n == 0 then [] else [v % 256] + Encode(v / 256, n - 1)
  }

  function Decode(s: seq<Byte>): nat {
    if s == [] then 0 else s[0] + 256 * Decode(s[1..])
  }

  function Limit(n: nat): nat {
    if n == 0 then 1 else 256 * Limit(n - 1)
  }

  lemma {:induction false} EncodeDecode(v: nat, n: nat)
    requires v < Limit(n)
    ensures Decode(Encode(v, n)) == v
  {
    if n > 0 {
      EncodeDecode(v / 256, n - 1);
      assert Encode(v, n)[1..] == Encode(v / 256, n - 1);
    }
  }

  lemma {:induction false} DecodeBelow(s: seq<Byte>)
    ensures Decode(s) < Limit(|s|)
  {
    if s != [] {
      DecodeBelow(s[1..]);
    }
  }

  lemma LimitGrows(n: nat, m: nat)
    requires n < m
    ensures Limit(n) * 256 <= Limit(m)
  {
    if n + 1 < m {
      LimitGrows(n, m - 1);
    }
  }

  lemma {:induction false} LimitPositive(n: nat)
    ensures Limit(n) >= 1
  {
    if n > 0 {
      LimitPositive(n - 1);
    }
  }

  lemma {:induction false} DecodeFilled(s: seq<Byte>, k: nat)
    requires k < |s| && s[k] == 255
    ensures Decode(s) >= Limit(k)
  {
    if k > 0 {
      DecodeFilled(s[1..], k - 1);
    }
  }
}
