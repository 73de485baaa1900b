/**
Delimiting: an SDU is cut into user data fields (UDFs), each one flags byte and a piece
of the SDU, and put together again by a reassembler that keeps the pieces seen so far.
*/
module Delim {
  import opened Bytes

  type Sdu = seq<Byte>
  type Udf = s: seq<Byte> | |s| >= 1 witness [0]

  const FULL: Byte := 7
  const FIRST: Byte := 5
  const MID: Byte := 4
  const LAST: Byte := 6

  // ---------------------------------------------------------------- fragmentation

  /** Pieces of `max` bytes, the last one possibly shorter. */
  function Pieces(sdu: Sdu, max: nat): (r: seq<seq<Byte>>)
    requires max > 0
    ensures r != []
  {
    if |sdu| <= max then [sdu] else [sdu[..max]] + Pieces(sdu[max..], max)
  }

  function Flags(i: nat, n: nat): Byte {
    if n == 1 then FULL else if i == 0 then FIRST else if i == n - 1 then LAST else MID
  }

  function Fragments(sdu: Sdu, max: nat): (r: seq<Udf>)
    requires max > 0
    ensures var pieces := Pieces(sdu, max);
            |r| == |pieces| && forall i :: 0 <= i < |r| ==> r[i] == [Flags(i, |r|)] + pieces[i]
  {
    var pieces := Pieces(sdu, max);
    seq(|pieces|, i requires 0 <= i < |pieces| => [Flags(i, |pieces|)] + pieces[i])
  }

  /** The pieces are the SDU: every byte once, in order, and none longer than `max`. */
  lemma {:induction false} PiecesCover(sdu: Sdu, max: nat)
    requires max > 0
    ensures var pieces := Pieces(sdu, max);
            && Flatten(pieces) == sdu
            && (forall i :: 0 <= i < |pieces| ==> |pieces[i]| <= max)
            && (|sdu| > 0 ==> forall i :: 0 <= i < |pieces| ==> |pieces[i]| > 0)
  {
    if |sdu| <= max {
      FlattenSingle(sdu);
    } else {
      PiecesCover(sdu[max..], max);
      assert sdu[..max] + sdu[max..] == sdu;
    }
  }

  lemma OnePiece(sdu: Sdu, max: nat)
    requires max > 0
    ensures |Pieces(sdu, max)| == 1 <==> |sdu| <= max
  {
  }

  /** What the loops still have to cut off. */
  ghost function Remaining(rest: seq<Byte>, max: nat): seq<seq<Byte>>
    requires max > 0
  {
    if rest == [] then [] else Pieces(rest, max)
  }

  lemma RemainingStep(done: seq<seq<Byte>>, rest: seq<Byte>, max: nat)
    requires max > 0 && rest != []
    ensures var length := if |rest| > max then max else |rest|;
            && done + Remaining(rest, max) == (done + [rest[..length]]) + Remaining(rest[length..], max)
            && |Remaining(rest, max)| == 1 + |Remaining(rest[length..], max)|
            && (|Remaining(rest, max)| == 1 <==> |rest| <= max)
  {
    OnePiece(rest, max);
    if |rest| <= max {
      assert rest[..|rest|] == rest && rest[|rest|..] == [];
    }
  }

  method CopyFragment(sdu: Sdu, offset: nat, length: nat, flags: Byte) returns (udf: Udf)
    requires offset + length <= |sdu|
    ensures udf == [flags] + sdu[offset..offset + length]
  {
    udf := [flags] + sdu[offset..offset + length];
  }

  /** The fragments cut so far carry the flags of their place among `n`. */
  ghost predicate Tagged(udfs: seq<Udf>, done: seq<seq<Byte>>, n: nat) {
    |udfs| == |done| && forall i :: 0 <= i < |udfs| ==> udfs[i] == [Flags(i, n)] + done[i]
  }

  lemma TaggedSnoc(udfs: seq<Udf>, done: seq<seq<Byte>>, n: nat, udf: Udf, piece: seq<Byte>)
    requires Tagged(udfs, done, n) && udf == [Flags(|udfs|, n)] + piece
    ensures Tagged(udfs + [udf], done + [piece], n)
  {
  }

  /** The fragments cut so far, up to `offset`, whose payloads are `done`. */
  ghost predicate CutUpto(sdu: Sdu, max: nat, udfs: seq<Udf>, done: seq<seq<Byte>>, offset: nat)
    requires max > 0
  {
    && offset <= |sdu|
    && Pieces(sdu, max) == done + Remaining(sdu[offset..], max)
    && Tagged(udfs, done, |Pieces(sdu, max)|)
  }

  /** The flags of the next of several fragments. */
  function NextFlags(first: bool, last: bool): Byte {
    if first then FIRST else if last then LAST else MID
  }

  lemma FlagsAre(i: nat, n: nat)
    requires i < n && n > 1
    ensures Flags(i, n) == NextFlags(i == 0, i == n - 1)
  {
  }

  lemma SlicesOfRest(sdu: Sdu, offset: nat, length: nat)
    requires offset + length <= |sdu|
    ensures sdu[offset..][..length] == sdu[offset..offset + length]
    ensures sdu[offset..][length..] == sdu[offset + length..]
  {
  }

  lemma CutNothing(sdu: Sdu, max: nat)
    requires 0 < max < |sdu|
    ensures CutUpto(sdu, max, [], [], 0) && |Pieces(sdu, max)| > 1
  {
    OnePiece(sdu, max);
    assert sdu[0..] == sdu && [] + Pieces(sdu, max) == Pieces(sdu, max);
  }

  lemma CutStep(sdu: Sdu, max: nat, udfs: seq<Udf>, done: seq<seq<Byte>>, offset: nat, length: nat, udf: Udf)
    requires 0 < max < |sdu| && CutUpto(sdu, max, udfs, done, offset) && offset < |sdu|
    requires length == if |sdu| - offset > max then max else |sdu| - offset
    requires udf == [NextFlags(udfs == [], |sdu| - offset <= max)] + sdu[offset..offset + length]
    ensures CutUpto(sdu, max, udfs + [udf], done + [sdu[offset..offset + length]], offset + length)
  {
    var n := |Pieces(sdu, max)|;
    CutNothing(sdu, max);
    RemainingStep(done, sdu[offset..], max);
    SlicesOfRest(sdu, offset, length);
    FlagsAre(|udfs|, n);
    TaggedSnoc(udfs, done, n, udf, sdu[offset..offset + length]);
  }

  lemma CutAll(sdu: Sdu, max: nat, udfs: seq<Udf>, done: seq<seq<Byte>>)
    requires max > 0 && CutUpto(sdu, max, udfs, done, |sdu|)
    ensures udfs == Fragments(sdu, max)
  {
    assert sdu[|sdu|..] == [] && done + [] == done;
  }

  method Fragment(sdu: Sdu, max: nat) returns (udfs: seq<Udf>)
    requires max > 0
    ensures udfs == Fragments(sdu, max)
  {
    var pending := |sdu|;
    if pending <= max {
      return [[FULL] + sdu];
    }
    ghost var done := [];
    CutNothing(sdu, max);
    var firstFrag, offset, length := true, 0, 0;
    udfs := [];
    while pending > 0
      invariant pending == |sdu| - offset && firstFrag == (udfs == [])
      invariant 0 <= offset && CutUpto(sdu, max, udfs, done, offset)
      decreases pending
    {
      var flags: Byte;
      if firstFrag {
        flags := FIRST;
        firstFrag := false;
      } else if pending <= max {
        flags := LAST;
      } else {
        flags := MID;
      }
      if pending > max {
        length := max;
      } else {
        length := pending;
      }
      var udf := CopyFragment(sdu, offset, length, flags);
      CutStep(sdu, max, udfs, done, offset, length, udf);
      udfs := udfs + [udf];
      done := done + [sdu[offset..offset + length]];
      offset := offset + length;
      pending := pending - length;
    }
    CutAll(sdu, max, udfs, done);
  }

  method NumUdfs(sdu: Sdu, max: nat) returns (n: nat)
    requires max > 0
    ensures n == if sdu == [] then 0 else |Fragments(sdu, max)|
  {
    var dulen := |sdu|;
    n := 0;
    ghost var rest := sdu;
    while dulen > 0
      invariant |rest| == if dulen > 0 then dulen else 0
      invariant |Remaining(sdu, max)| == n + |Remaining(rest, max)|
    {
      RemainingStep([], rest, max);
      rest := rest[if |rest| > max then max else |rest|..];
      n := n + 1;
      dulen := dulen - max;
    }
  }

  // ---------------------------------------------------------------- reassembly

  /** The reassembler: the payload collected so far, if a first fragment has been seen. */
  datatype State = Idle | Collecting(payload: seq<Byte>)

  datatype Result = Result(state: State, out: seq<Sdu>, ok: bool)

  predicate Bit(flags: Byte, mask: nat)
    requires mask > 0
  {
    flags / mask % 2 == 1
  }

  function Process(s: State, udf: Udf): Result {
    var flags, payload := udf[0], udf[1..];
    if Bit(flags, 8) || !Bit(flags, 4) then Result(s, [], false)
    else if Bit(flags, 2) && Bit(flags, 1) then Result(s, [payload], true)
    else if Bit(flags, 1) then Result(Collecting(payload), [], true)
    else if s.Idle? then Result(Idle, [], !Bit(flags, 2))
    else if Bit(flags, 2) then Result(Idle, [s.payload + payload], true)
    else Result(Collecting(s.payload + payload), [], true)
  }

  lemma HighBit(flags: Byte)
    ensures Bit(flags, 8) <==> flags % 16 >= 8
  {
    var q := flags / 8;
    assert flags == 16 * (q / 2) + (8 * (q % 2) + flags % 8);
  }

  lemma LengthBit(flags: Byte)
    ensures Bit(flags, 4) <==> flags % 8 >= 4
  {
    var q := flags / 4;
    assert flags == 8 * (q / 2) + (4 * (q % 2) + flags % 4);
  }

  lemma LastBit(flags: Byte)
    ensures Bit(flags, 2) <==> flags % 4 >= 2
  {
    var q := flags / 2;
    assert flags == 4 * (q / 2) + (2 * (q % 2) + flags % 2);
  }

  lemma NibbleParts(flags: Byte)
    ensures var k := flags % 16; flags % 8 == k % 8 && flags % 4 == k % 4 && flags % 2 == k % 2
  {
    var k, n := flags % 16, flags / 16;
    assert flags == 8 * (2 * n) + k && flags == 4 * (4 * n) + k && flags == 2 * (8 * n) + k;
  }

  lemma BitsOfNibble(flags: Byte)
    ensures var k := flags % 16;
            && (Bit(flags, 8) <==> k >= 8) && (Bit(flags, 4) <==> k % 8 >= 4)
            && (Bit(flags, 2) <==> k % 4 >= 2) && (Bit(flags, 1) <==> k % 2 == 1)
  {
    HighBit(flags);
    LengthBit(flags);
    LastBit(flags);
    NibbleParts(flags);
  }

  /** The low four flag bits decide: 7 is a whole SDU, 5 a first fragment, 4 a middle one and 6 a
      last one.  Everything else is refused and changes nothing. */
  lemma FlagsDecide(s: State, udf: Udf)
    ensures var r, kind, payload := Process(s, udf), udf[0] % 16, udf[1..];
            if kind == 7 then r == Result(s, [payload], true)
            else if kind == 5 then r == Result(Collecting(payload), [], true)
            else if kind == 4 then r == Result(if s.Idle? then Idle else Collecting(s.payload + payload), [], true)
            else if kind == 6 then r == Result(Idle, if s.Idle? then [] else [s.payload + payload], !s.Idle?)
            else r == Result(s, [], false)
  {
    BitsOfNibble(udf[0]);
  }

  datatype Fed = Fed(state: State, out: seq<Sdu>)

  function Feed(s: State, udfs: seq<Udf>): Fed
    decreases |udfs|
  {
    if udfs == [] then Fed(s, [])
    else
      var r := Process(s, udfs[0]);
      var rest := Feed(r.state, udfs[1..]);
      Fed(rest.state, r.out + rest.out)
  }

  lemma FlattenNext(all: seq<seq<Byte>>, k: nat)
    requires k < |all|
    ensures Flatten(all[..k + 1]) == Flatten(all[..k]) + all[k]
    ensures |Flatten(all[..k + 1])| <= |Flatten(all)|
  {
    assert all[..k + 1] == all[..k] + [all[k]];
    FlattenConcat(all[..k], [all[k]]);
    FlattenSingle(all[k]);
    assert all == all[..k + 1] + all[k + 1..];
    FlattenConcat(all[..k + 1], all[k + 1..]);
  }

  /** Copies the payload of `udf` to `offset`. */
  method Copy(buffer: array<Byte>, offset: nat, udf: Udf)
    requires offset + |udf| - 1 <= buffer.Length
    modifies buffer
    ensures buffer[..offset] == old(buffer[..offset])
    ensures buffer[offset..offset + |udf| - 1] == udf[1..]
  {
    forall i | 0 <= i < |udf| - 1 {
      buffer[offset + i] := udf[1 + i];
    }
  }

  ghost function Payloads(udfs: seq<Udf>): (r: seq<seq<Byte>>)
    ensures |r| == |udfs| && forall i :: 0 <= i < |r| ==> r[i] == udfs[i][1..]
  {
    seq(|udfs|, i requires 0 <= i < |udfs| => udfs[i][1..])
  }

  lemma PayloadsSnoc(udfs: seq<Udf>, udf: Udf)
    ensures Flatten(Payloads(udfs + [udf])) == Flatten(Payloads(udfs)) + udf[1..]
  {
    assert Payloads(udfs + [udf]) == Payloads(udfs) + [udf[1..]];
    FlattenConcat(Payloads(udfs), [udf[1..]]);
    FlattenSingle(udf[1..]);
  }

  class Reassembler {
    var pendingDus: seq<Udf>
    var reassemblyInProcess: bool
    var totalLength: nat

    ghost predicate Valid()
      reads this
    {
      && totalLength == |Flatten(Payloads(pendingDus))|
      && (!reassemblyInProcess ==> pendingDus == [])
    }

    ghost function Abs(): State
      reads this
    {
      if reassemblyInProcess then Collecting(Flatten(Payloads(pendingDus))) else Idle
    }

    constructor ()
      ensures Valid() && Abs() == Idle
    {
      pendingDus, reassemblyInProcess, totalLength := [], false, 0;
    }

    method Reset()
      modifies this
      ensures Valid() && Abs() == Idle
    {
      pendingDus, reassemblyInProcess, totalLength := [], false, 0;
    }

    method AppendPendingDu(udf: Udf)
      requires Valid() && reassemblyInProcess
      modifies `pendingDus, `totalLength
      ensures Valid() && pendingDus == old(pendingDus) + [udf]
      ensures Abs() == Collecting(old(Abs()).payload + udf[1..])
    {
      totalLength := totalLength + |udf| - 1;
      PayloadsSnoc(pendingDus, udf);
      pendingDus := pendingDus + [udf];
    }

    method ProcessFirstFragment(udf: Udf)
      requires Valid()
      modifies this
      ensures Valid() && Abs() == Collecting(udf[1..])
    {
      if reassemblyInProcess {
        Reset();
      }
      reassemblyInProcess := true;
      AppendPendingDu(udf);
    }

    method ProcessMidFragment(udf: Udf) returns (ok: bool)
      requires Valid()
      modifies this
      ensures Valid() && ok == old(reassemblyInProcess)
      ensures Abs() == if ok then Collecting(old(Abs()).payload + udf[1..]) else Idle
    {
      if !reassemblyInProcess {
        Reset();
        return false;
      }
      AppendPendingDu(udf);
      ok := true;
    }

    /** Copies the pending payloads one after another into a new buffer. */
    method Gather() returns (fragSdu: array<Byte>)
      requires Valid()
      ensures fragSdu[..] == Flatten(Payloads(pendingDus))
    {
      fragSdu := new Byte[totalLength];
      ghost var all := Payloads(pendingDus);
      var offset, k := 0, 0;
      while k < |pendingDus|
        invariant 0 <= k <= |pendingDus| && 0 <= offset <= fragSdu.Length
        invariant fragSdu[..offset] == Flatten(all[..k])
      {
        FlattenNext(all, k);
        var udf := pendingDus[k];
        Copy(fragSdu, offset, udf);
        assert fragSdu[..offset + |udf| - 1] == fragSdu[..offset] + udf[1..];
        offset := offset + |udf| - 1;
        k := k + 1;
      }
      assert all[..k] == all && fragSdu[..offset] == fragSdu[..];
    }

    method ProcessLastFragment(udf: Udf) returns (out: seq<Sdu>, ok: bool)
      requires Valid()
      modifies this
      ensures Valid() && Abs() == Idle && ok == old(reassemblyInProcess)
      ensures out == if ok then [old(Abs()).payload + udf[1..]] else []
    {
      out := [];
      ok := ProcessMidFragment(udf);
      if !ok {
        return;
      }
      var fragSdu := Gather();
      out := [fragSdu[..]];
      Reset();
    }

    method ProcessUdf(udf: Udf) returns (out: seq<Sdu>, ok: bool)
      requires Valid()
      modifies this
      ensures Valid() && Result(Abs(), out, ok) == Process(old(Abs()), udf)
    {
      var flags := udf[0];
      out, ok := [], true;
      if Bit(flags, 8) {
        return [], false;
      }
      if Bit(flags, 4) {
        if Bit(flags, 2) && Bit(flags, 1) {
          out := [udf[1..]];
        } else if Bit(flags, 1) {
          ProcessFirstFragment(udf);
        } else if Bit(flags, 2) {
          out, ok := ProcessLastFragment(udf);
        } else {
          var _ := ProcessMidFragment(udf);
        }
      } else {
        return [], false;
      }
    }
  }

  // ---------------------------------------------------------------- streams and runs

  function Stream(sdus: seq<Sdu>, max: nat): seq<Udf>
    requires max > 0
  {
    if sdus == [] then [] else Fragments(sdus[0], max) + Stream(sdus[1..], max)
  }

  /** The SDUs all of whose fragments lie at positions i .. j - 1 of the stream. */
  function Inside(sdus: seq<Sdu>, max: nat, i: int, j: int): seq<Sdu>
    requires max > 0
  {
    if sdus == [] then []
    else
      var n := |Fragments(sdus[0], max)|;
      (if i <= 0 && n <= j then [sdus[0]] else []) + Inside(sdus[1..], max, i - n, j - n)
  }

  lemma {:induction false} FeedConcat(s: State, a: seq<Udf>, b: seq<Udf>)
    ensures var first := Feed(s, a);
            var second := Feed(first.state, b);
            Feed(s, a + b) == Fed(second.state, first.out + second.out)
    decreases |a|
  {
    if a == [] {
      assert a + b == b;
    } else {
      var r := Process(s, a[0]);
      assert (a + b)[0] == a[0] && (a + b)[1..] == a[1..] + b;
      FeedConcat(r.state, a[1..], b);
      var first, whole := Feed(r.state, a[1..]), Feed(r.state, a[1..] + b);
      assert r.out + (first.out + Feed(first.state, b).out) == (r.out + first.out) + Feed(first.state, b).out;
      assert Feed(s, a + b) == Fed(whole.state, r.out + whole.out);
    }
  }

  lemma FeedOne(s: State, udf: Udf)
    ensures Feed(s, [udf]) == Fed(Process(s, udf).state, Process(s, udf).out)
  {
    assert [udf][1..] == [];
  }

  lemma ProcessMid(payload: seq<Byte>, piece: seq<Byte>)
    ensures Process(Collecting(payload), [MID] + piece) == Result(Collecting(payload + piece), [], true)
  {
    assert ([MID] + piece)[1..] == piece;
  }

  lemma FeedSnoc(s: State, udfs: seq<Udf>, udf: Udf)
    ensures var first := Feed(s, udfs);
            var r := Process(first.state, udf);
            Feed(s, udfs + [udf]) == Fed(r.state, first.out + r.out)
  {
    FeedConcat(s, udfs, [udf]);
    FeedOne(Feed(s, udfs).state, udf);
  }

  lemma FrontFirst(s: State, sdu: Sdu, max: nat)
    requires max > 0 && |Fragments(sdu, max)| > 1
    ensures Process(s, Fragments(sdu, max)[0]) == Result(Collecting(Flatten(Pieces(sdu, max)[..1])), [], true)
  {
    var pieces := Pieces(sdu, max);
    assert Fragments(sdu, max)[0] == [FIRST] + pieces[0] && ([FIRST] + pieces[0])[1..] == pieces[0];
    assert pieces[..1] == [pieces[0]];
    FlattenSingle(pieces[0]);
  }

  lemma FrontNext(sdu: Sdu, max: nat, m: nat)
    requires max > 0 && 0 < m < |Fragments(sdu, max)| - 1
    ensures var pieces := Pieces(sdu, max);
            Process(Collecting(Flatten(pieces[..m])), Fragments(sdu, max)[m])
            == Result(Collecting(Flatten(pieces[..m + 1])), [], true)
  {
    var pieces := Pieces(sdu, max);
    FlattenNext(pieces, m);
    assert Fragments(sdu, max)[m] == [MID] + pieces[m];
    ProcessMid(Flatten(pieces[..m]), pieces[m]);
  }

  /** The first `m` fragments of an SDU with more than `m` of them: collected, not emitted. */
  lemma {:induction false} FeedFront(s: State, sdu: Sdu, max: nat, m: nat)
    requires max > 0 && 0 < m < |Fragments(sdu, max)|
    ensures Feed(s, Fragments(sdu, max)[..m]) == Fed(Collecting(Flatten(Pieces(sdu, max)[..m])), [])
  {
    var udfs := Fragments(sdu, max);
    assert udfs[..m] == udfs[..m - 1] + [udfs[m - 1]];
    FeedSnoc(s, udfs[..m - 1], udfs[m - 1]);
    if m > 1 {
      FeedFront(s, sdu, max, m - 1);
      FrontNext(sdu, max, m - 1);
    } else {
      assert udfs[..0] == [];
      FrontFirst(s, sdu, max);
    }
  }

  lemma ProcessLast(payload: seq<Byte>, piece: seq<Byte>)
    ensures Process(Collecting(payload), [LAST] + piece) == Result(Idle, [payload + piece], true)
  {
    assert ([LAST] + piece)[1..] == piece;
  }

  lemma LastOfMany(sdu: Sdu, max: nat)
    requires max > 0 && |Fragments(sdu, max)| > 1
    ensures var udfs, pieces := Fragments(sdu, max), Pieces(sdu, max);
            var n := |udfs| - 1;
            Process(Collecting(Flatten(pieces[..n])), udfs[n]) == Result(Idle, [sdu], true)
  {
    var pieces := Pieces(sdu, max);
    var n := |pieces| - 1;
    PiecesCover(sdu, max);
    FlattenNext(pieces, n);
    assert pieces[..n + 1] == pieces;
    ProcessLast(Flatten(pieces[..n]), pieces[n]);
    assert Fragments(sdu, max)[n] == [LAST] + pieces[n];
  }

  /** From any state, all the fragments of one SDU emit exactly that SDU. */
  lemma WholeSdu(s: State, sdu: Sdu, max: nat)
    requires max > 0
    ensures Feed(s, Fragments(sdu, max)) == Fed(if |sdu| <= max then s else Idle, [sdu])
  {
    var udfs := Fragments(sdu, max);
    OnePiece(sdu, max);
    if |sdu| <= max {
      assert udfs == [[FULL] + sdu];
      FeedOne(s, [FULL] + sdu);
    } else {
      var n := |udfs| - 1;
      FeedFront(s, sdu, max, n);
      assert udfs == udfs[..n] + [udfs[n]];
      FeedConcat(s, udfs[..n], [udfs[n]]);
      LastOfMany(sdu, max);
      FeedOne(Feed(s, udfs[..n]).state, udfs[n]);
    }
  }

  /** Fragments of an SDU after its first one, met while idle, leave no trace. */
  lemma {:induction false} FeedTail(sdu: Sdu, max: nat, i: nat, m: nat)
    requires max > 0 && 0 < i <= m <= |Fragments(sdu, max)|
    ensures Feed(Idle, Fragments(sdu, max)[i..m]) == Fed(Idle, [])
    decreases m - i
  {
    var udfs := Fragments(sdu, max);
    if i < m {
      assert udfs[i..m][0] == udfs[i] && udfs[i..m][1..] == udfs[i + 1..m];
      assert udfs[i][0] == Flags(i, |udfs|);
      assert Process(Idle, udfs[i]).state == Idle && Process(Idle, udfs[i]).out == [];
      FeedTail(sdu, max, i + 1, m);
    }
  }

  /** Part of one SDU's fragments, met while idle. */
  lemma FeedPart(sdu: Sdu, max: nat, i: nat, m: nat)
    requires max > 0 && i <= m <= |Fragments(sdu, max)|
    ensures var udfs := Fragments(sdu, max);
            var fed := Feed(Idle, udfs[i..m]);
            && fed.out == (if i == 0 && m == |udfs| then [sdu] else [])
            && (m == |udfs| ==> fed.state == Idle)
  {
    var udfs := Fragments(sdu, max);
    if i > 0 {
      FeedTail(sdu, max, i, m);
    } else if m == |udfs| {
      assert udfs[0..m] == udfs;
      WholeSdu(Idle, sdu, max);
    } else if m > 0 {
      assert udfs[0..m] == udfs[..m];
      FeedFront(Idle, sdu, max, m);
    }
  }

  lemma {:induction false} InsideNothing(sdus: seq<Sdu>, max: nat, i: int, j: int)
    requires max > 0 && j <= 0
    ensures Inside(sdus, max, i, j) == []
  {
    if sdus != [] {
      InsideNothing(sdus[1..], max, i - |Fragments(sdus[0], max)|, j - |Fragments(sdus[0], max)|);
    }
  }

  // Before the stream begins or at its beginning: the same SDUs.
  lemma {:induction false} InsideFrom(sdus: seq<Sdu>, max: nat, i: int, j: int)
    requires max > 0 && i <= 0
    ensures Inside(sdus, max, i, j) == Inside(sdus, max, 0, j)
  {
    if sdus != [] {
      var n := |Fragments(sdus[0], max)|;
      InsideFrom(sdus[1..], max, i - n, j - n);
      InsideFrom(sdus[1..], max, 0 - n, j - n);
    }
  }

  lemma InsideFirst(sdus: seq<Sdu>, max: nat, j: int)
    requires max > 0 && sdus != []
    ensures var n := |Fragments(sdus[0], max)|;
            Inside(sdus, max, 0, j) == if n <= j then [sdus[0]] + Inside(sdus[1..], max, 0, j - n) else []
  {
    var n := |Fragments(sdus[0], max)|;
    if n <= j {
      InsideFrom(sdus[1..], max, 0 - n, j - n);
    } else {
      InsideNothing(sdus[1..], max, 0 - n, j - n);
    }
  }

  lemma ConsIsPrefix(sdus: seq<Sdu>, front: seq<Sdu>)
    requires sdus != [] && front <= sdus[1..]
    ensures [sdus[0]] + front <= sdus && (front == sdus[1..] ==> [sdus[0]] + front == sdus)
  {
  }

  /** A run from the beginning of the stream holds a prefix of the SDUs; the whole stream,
      all of them. */
  lemma {:induction false} InsideIsPrefix(sdus: seq<Sdu>, max: nat, j: int)
    requires max > 0
    ensures Inside(sdus, max, 0, j) <= sdus
    ensures j >= |Stream(sdus, max)| ==> Inside(sdus, max, 0, j) == sdus
  {
    if sdus != [] {
      var n := |Fragments(sdus[0], max)|;
      InsideFirst(sdus, max, j);
      InsideIsPrefix(sdus[1..], max, j - n);
      ConsIsPrefix(sdus, Inside(sdus[1..], max, 0, j - n));
    }
  }

  lemma SliceAfter(a: seq<Udf>, b: seq<Udf>, i: nat, j: nat)
    requires |a| <= i <= j <= |a| + |b|
    ensures (a + b)[i..j] == b[i - |a|..j - |a|]
  {
  }

  lemma SliceWithin(a: seq<Udf>, b: seq<Udf>, i: nat, j: nat)
    requires i <= j <= |a|
    ensures (a + b)[i..j] == a[i..j]
  {
  }

  lemma SliceAcross(a: seq<Udf>, b: seq<Udf>, i: nat, j: nat)
    requires i < |a| < j <= |a| + |b|
    ensures (a + b)[i..j] == a[i..|a|] + b[0..j - |a|]
  {
  }

  lemma InsideAfter(sdus: seq<Sdu>, max: nat, i: nat, j: nat, n: nat)
    requires max > 0 && sdus != [] && n == |Fragments(sdus[0], max)| <= i
    ensures Inside(sdus, max, i, j) == Inside(sdus[1..], max, i - n, j - n)
  {
    var rest := Inside(sdus[1..], max, i - n, j - n);
    assert Inside(sdus, max, i, j) == [] + rest;
  }

  lemma InsideWithin(sdus: seq<Sdu>, max: nat, i: nat, j: nat, n: nat)
    requires max > 0 && sdus != [] && n == |Fragments(sdus[0], max)| && j <= n
    ensures Inside(sdus, max, i, j) == if i == 0 && j == n then [sdus[0]] else []
  {
    InsideNothing(sdus[1..], max, i - n, j - n);
  }

  lemma InsideAcross(sdus: seq<Sdu>, max: nat, i: nat, j: nat, n: nat)
    requires max > 0 && sdus != [] && n == |Fragments(sdus[0], max)| && i < n < j
    ensures Inside(sdus, max, i, j) == (if i == 0 then [sdus[0]] else []) + Inside(sdus[1..], max, 0, j - n)
  {
    InsideFrom(sdus[1..], max, i - n, j - n);
  }

  lemma FeedTailThen(sdu: Sdu, max: nat, i: nat, b: seq<Udf>)
    requires max > 0 && i < |Fragments(sdu, max)|
    ensures var udfs := Fragments(sdu, max);
            Feed(Idle, udfs[i..|udfs|] + b).out == (if i == 0 then [sdu] else []) + Feed(Idle, b).out
  {
    var udfs := Fragments(sdu, max);
    FeedPart(sdu, max, i, |udfs|);
    FeedConcat(Idle, udfs[i..|udfs|], b);
  }

  /** What a run of the stream makes an idle reassembler emit. */
  ghost function Emitted(sdus: seq<Sdu>, max: nat, i: nat, j: nat): seq<Sdu>
    requires max > 0 && i <= j <= |Stream(sdus, max)|
  {
    Feed(Idle, Stream(sdus, max)[i..j]).out
  }

  lemma StreamAfter(sdus: seq<Sdu>, max: nat, i: nat, j: nat, n: nat)
    requires max > 0 && sdus != [] && n == |Fragments(sdus[0], max)| <= i <= j <= |Stream(sdus, max)|
    ensures Stream(sdus, max)[i..j] == Stream(sdus[1..], max)[i - n..j - n]
  {
    SliceAfter(Fragments(sdus[0], max), Stream(sdus[1..], max), i, j);
  }

  lemma StreamWithin(sdus: seq<Sdu>, max: nat, i: nat, j: nat)
    requires max > 0 && sdus != [] && i <= j <= |Fragments(sdus[0], max)|
    ensures j <= |Stream(sdus, max)| && Stream(sdus, max)[i..j] == Fragments(sdus[0], max)[i..j]
  {
    SliceWithin(Fragments(sdus[0], max), Stream(sdus[1..], max), i, j);
  }

  lemma StreamAcross(sdus: seq<Sdu>, max: nat, i: nat, j: nat, n: nat)
    requires max > 0 && sdus != [] && n == |Fragments(sdus[0], max)| && i < n < j <= |Stream(sdus, max)|
    ensures Stream(sdus, max)[i..j] == Fragments(sdus[0], max)[i..n] + Stream(sdus[1..], max)[0..j - n]
  {
    SliceAcross(Fragments(sdus[0], max), Stream(sdus[1..], max), i, j);
  }

  lemma EmittedAfter(sdus: seq<Sdu>, max: nat, i: nat, j: nat, n: nat)
    requires max > 0 && sdus != [] && n == |Fragments(sdus[0], max)| <= i <= j <= |Stream(sdus, max)|
    ensures Emitted(sdus, max, i, j) == Emitted(sdus[1..], max, i - n, j - n)
  {
    StreamAfter(sdus, max, i, j, n);
  }

  lemma EmittedWithin(sdus: seq<Sdu>, max: nat, i: nat, j: nat, n: nat)
    requires max > 0 && sdus != [] && n == |Fragments(sdus[0], max)| && i <= j <= n
    ensures j <= |Stream(sdus, max)|
    ensures Emitted(sdus, max, i, j) == if i == 0 && j == n then [sdus[0]] else []
  {
    StreamWithin(sdus, max, i, j);
    FeedPart(sdus[0], max, i, j);
  }

  lemma EmittedAcross(sdus: seq<Sdu>, max: nat, i: nat, j: nat, n: nat)
    requires max > 0 && sdus != [] && n == |Fragments(sdus[0], max)| && i < n < j <= |Stream(sdus, max)|
    ensures Emitted(sdus, max, i, j) == (if i == 0 then [sdus[0]] else []) + Emitted(sdus[1..], max, 0, j - n)
  {
    StreamAcross(sdus, max, i, j, n);
    FeedTailThen(sdus[0], max, i, Stream(sdus[1..], max)[0..j - n]);
  }

  lemma EmitsAfter(sdus: seq<Sdu>, max: nat, i: nat, j: nat, n: nat)
    requires max > 0 && sdus != [] && n == |Fragments(sdus[0], max)| <= i <= j <= |Stream(sdus, max)|
    requires Emitted(sdus[1..], max, i - n, j - n) == Inside(sdus[1..], max, i - n, j - n)
    ensures Emitted(sdus, max, i, j) == Inside(sdus, max, i, j)
  {
    EmittedAfter(sdus, max, i, j, n);
    InsideAfter(sdus, max, i, j, n);
  }

  lemma EmitsWithin(sdus: seq<Sdu>, max: nat, i: nat, j: nat, n: nat)
    requires max > 0 && sdus != [] && n == |Fragments(sdus[0], max)| && i <= j <= n
    ensures j <= |Stream(sdus, max)| && Emitted(sdus, max, i, j) == Inside(sdus, max, i, j)
  {
    EmittedWithin(sdus, max, i, j, n);
    InsideWithin(sdus, max, i, j, n);
  }

  lemma EmitsAcross(sdus: seq<Sdu>, max: nat, i: nat, j: nat, n: nat)
    requires max > 0 && sdus != [] && n == |Fragments(sdus[0], max)| && i < n < j <= |Stream(sdus, max)|
    requires Emitted(sdus[1..], max, 0, j - n) == Inside(sdus[1..], max, 0, j - n)
    ensures Emitted(sdus, max, i, j) == Inside(sdus, max, i, j)
  {
    EmittedAcross(sdus, max, i, j, n);
    InsideAcross(sdus, max, i, j, n);
  }

  lemma {:induction false} EveryRunEmits(sdus: seq<Sdu>, max: nat, i: nat, j: nat)
    requires max > 0 && i <= j <= |Stream(sdus, max)|
    ensures Emitted(sdus, max, i, j) == Inside(sdus, max, i, j)
  {
    if sdus != [] {
      var n := |Fragments(sdus[0], max)|;
      if i >= n {
        EveryRunEmits(sdus[1..], max, i - n, j - n);
        EmitsAfter(sdus, max, i, j, n);
      } else if j <= n {
        EmitsWithin(sdus, max, i, j, n);
      } else {
        EveryRunEmits(sdus[1..], max, 0, j - n);
        EmitsAcross(sdus, max, i, j, n);
      }
    }
  }

  /** Any contiguous run of the fragment stream of any SDUs makes an idle reassembler emit
      exactly the SDUs that lie wholly in the run, in order and byte for byte. */
  lemma ReassemblyOfRun(sdus: seq<Sdu>, max: nat, i: nat, j: nat)
    requires max > 0 && i <= j <= |Stream(sdus, max)|
    ensures Feed(Idle, Stream(sdus, max)[i..j]).out == Inside(sdus, max, i, j)
  {
    EveryRunEmits(sdus, max, i, j);
  }

  lemma {:induction false} FeedBack(sdu: Sdu, max: nat, k: nat, payload: seq<Byte>)
    requires max > 0 && 0 < k < |Fragments(sdu, max)|
    ensures Feed(Collecting(payload), Fragments(sdu, max)[k..])
         == Fed(Idle, [payload + Flatten(Pieces(sdu, max)[k..])])
    decreases |Fragments(sdu, max)| - k
  {
    var udfs, pieces := Fragments(sdu, max), Pieces(sdu, max);
    assert udfs[k..][0] == udfs[k] && udfs[k..][1..] == udfs[k + 1..];
    assert pieces[k..][0] == pieces[k] && pieces[k..][1..] == pieces[k + 1..];
    if k + 1 < |udfs| {
      assert udfs[k] == [MID] + pieces[k];
      ProcessMid(payload, pieces[k]);
      FeedBack(sdu, max, k + 1, payload + pieces[k]);
      assert (payload + pieces[k]) + Flatten(pieces[k + 1..]) == payload + (pieces[k] + Flatten(pieces[k + 1..]));
    } else {
      assert udfs[k] == [LAST] + pieces[k] && pieces[k..] == [pieces[k]];
      ProcessLast(payload, pieces[k]);
      FlattenSingle(pieces[k]);
    }
  }

  /** Contiguity is needed: without one middle fragment the reassembler still emits an SDU,
      with the piece missing. */
  lemma LostMiddle(s: State, sdu: Sdu, max: nat, k: nat)
    requires max > 0 && 0 < k < |Fragments(sdu, max)| - 1
    ensures var udfs, pieces := Fragments(sdu, max), Pieces(sdu, max);
            Feed(s, udfs[..k] + udfs[k + 1..]).out == [Flatten(pieces[..k]) + Flatten(pieces[k + 1..])]
  {
    var udfs := Fragments(sdu, max);
    FeedFront(s, sdu, max, k);
    FeedConcat(s, udfs[..k], udfs[k + 1..]);
    FeedBack(sdu, max, k + 1, Flatten(Pieces(sdu, max)[..k]));
  }
}
