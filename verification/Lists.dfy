/** Small things about lists that several models use. */
module Lists {

  datatype Option<T> = None | Some(value: T)

  function CountIf<T>(s: seq<T>, p: T -> bool): nat {
    if s == [] then 0 else CountIf(s[1..], p) + if p(s[0]) then 1 else 0
  }

  lemma {:induction false} CountIfConcat<T>(a: seq<T>, b: seq<T>, p: T -> bool)
    ensures CountIf(a + b, p) == CountIf(a, p) + CountIf(b, p)
  {
    if a == [] {
      assert a + b == b;
    } else {
      assert (a + b)[1..] == a[1..] + b;
      CountIfConcat(a[1..], b, p);
    }
  }

  /** A result whose list has `sent` in front. */
  function Prefixed<S, T>(sent: seq<T>, rest: (S, seq<T>)): (S, seq<T>) {
    (rest.0, sent + rest.1)
  }

  lemma ConcatAssociates<T>(a: seq<T>, b: seq<T>, c: seq<T>)
    ensures (a + b) + c == a + (b + c)
  {
  }

  /** Inserting behind place `i` of the tail is inserting behind place `i + 1` of the whole. */
  lemma InsertInTail<T>(q: seq<T>, e: T, i: nat)
    requires 0 < i < |q|
    ensures [q[0]] + (q[1..][..i] + [e] + q[1..][i..]) == q[..i + 1] + [e] + q[i + 1..]
  {
    assert q[1..][..i] == q[1..i + 1] && q[1..][i..] == q[i + 1..];
    assert [q[0]] + q[1..i + 1] == q[..i + 1];
    ConcatAssociates([q[0]], q[1..i + 1] + [e], q[i + 1..]);
    ConcatAssociates([q[0]], q[1..i + 1], [e]);
  }

  lemma HeadAndTail<T>(q: seq<T>)
    requires q != []
    ensures [q[0]] + q[1..] == q
  {
  }

  /** Three versions of a buffer, the second changed up to `i` and the third up to `j`. */
  lemma TailStays<T>(a: seq<T>, b: seq<T>, c: seq<T>, i: nat, j: nat)
    requires |a| == |b| == |c| && i <= j <= |a| && b[i..] == a[i..] && c[j..] == b[j..]
    ensures c[j..] == a[j..]
  {
    assert a[i..][j - i..] == a[j..] && b[i..][j - i..] == b[j..];
  }
}
