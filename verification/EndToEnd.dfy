/**
SDUs through a whole EFCP connection: delimiting over the two-party data transfer.  The
writer's SDUs are fragmented and each fragment is written to DTP; each PDU the receiver
posts is fed to its reassembler.
*/
module EndToEnd {
  import opened Bytes
  import opened EfcpSender
  import opened EfcpSenderRuns
  import opened EfcpReceiverRuns
  import opened EfcpSystem
  import opened EfcpConnection
  import opened Delim
  import opened Lists

  /** DTP writes of one UDF after another. */
  function WriteAll(s: Sender, udfs: seq<Udf>, now: nat): (Sender, seq<Pdu>)
    decreases |udfs|
  {
    if udfs == [] then (s, [])
    else
      var first := Write(s, udfs[0], now);
      var rest := WriteAll(first.0, udfs[1..], now);
      (rest.0, first.1 + rest.1)
  }

  /** One SDU: every fragment is written, in order. */
  method EfcpWrite(dtp: Dtp, sdu: Sdu, max: nat, now: nat) returns (sent: seq<Pdu>)
    requires max > 0
    modifies dtp
    ensures (dtp.Snd(), sent) == WriteAll(old(dtp.Snd()), Fragments(sdu, max), now)
  {
    var udfs := Fragment(sdu, max);
    sent := [];
    ghost var whole := WriteAll(dtp.Snd(), udfs, now);
    assert udfs[0..] == udfs && sent + whole.1 == whole.1;
    for i := 0 to |udfs|
      invariant whole == Prefixed(sent, WriteAll(dtp.Snd(), udfs[i..], now))
    {
      assert udfs[i..][0] == udfs[i] && udfs[i..][1..] == udfs[i + 1..];
      ghost var before := sent;
      var pdus := dtp.DtpWrite(udfs[i], now);
      sent := sent + pdus;
      ghost var rest := WriteAll(dtp.Snd(), udfs[i + 1..], now);
      assert before + (pdus + rest.1) == sent + rest.1;
    }
    assert sent + [] == sent;
  }

  /** A run whose writer has so far written a prefix of the fragment stream of `users`. */
  ghost predicate Carries(z: Sys, users: seq<Sdu>, max: nat)
    requires max > 0
  {
    z.s.sdus <= Stream(users, max)
  }

  /** Fed with `datas`, the reassembler emits the SDUs lying wholly at stream positions
      k .. k + |datas| - 1. */
  ghost predicate Emits(datas: seq<seq<Byte>>, users: seq<Sdu>, max: nat, k: nat)
    requires max > 0
  {
    (forall i :: 0 <= i < |datas| ==> |datas[i]| >= 1) &&
    Feed(Idle, datas).out == Inside(users, max, k, k + |datas|)
  }

  lemma RunArrives(written: seq<seq<Byte>>, datas: seq<seq<Byte>>, users: seq<Sdu>, max: nat, k: nat)
    requires max > 0 && written <= Stream(users, max)
    requires k + |datas| <= |written| && datas == written[k..k + |datas|]
    ensures Emits(datas, users, max, k)
  {
    var stream, j := Stream(users, max), k + |datas|;
    assert datas == stream[k..j];
    ReassemblyOfRun(users, max, k, j);
    forall i | 0 <= i < |datas| ensures |datas[i]| >= 1 {
      assert datas[i] == stream[k + i];
    }
  }

  /** Whatever the network does, the user at the far end gets exactly the SDUs whose
      fragments all lie between the first PDU accepted and the last one posted: whole, in
      order, byte for byte, once. */
  lemma SdusArrive(cfg: Config, events: seq<NetEvent>, users: seq<Sdu>, max: nat)
    requires RingSuffices(cfg) && max > 0 && Carries(NetRun(cfg, events), users, max)
    ensures var z := NetRun(cfg, events);
            FirstIndex(cfg, z) >= 0 && Emits(Datas(z.r.posted), users, max, FirstIndex(cfg, z))
  {
    ContiguousDelivery(cfg, events);
    var z := NetRun(cfg, events);
    RunArrives(z.s.sdus, Datas(z.r.posted), users, max, FirstIndex(cfg, z));
  }

  /** When the first PDU accepted is the first one sent, the far user has a prefix of the
      SDUs written; when everything has been posted, all of them. */
  lemma SdusArriveInOrder(cfg: Config, events: seq<NetEvent>, users: seq<Sdu>, max: nat)
    requires RingSuffices(cfg) && max > 0 && Carries(NetRun(cfg, events), users, max)
    requires FirstIndex(cfg, NetRun(cfg, events)) == 0
    ensures var z := NetRun(cfg, events);
            var udfs := Datas(z.r.posted);
            && (forall i :: 0 <= i < |udfs| ==> |udfs[i]| >= 1)
            && Feed(Idle, udfs).out <= users
            && (|udfs| == |Stream(users, max)| ==> Feed(Idle, udfs).out == users)
  {
    SdusArrive(cfg, events, users, max);
    InsideIsPrefix(users, max, |NetRun(cfg, events).r.posted|);
  }

  // ---------------------------------------------------------------- when the ring is too short

  /** Every UDF holds a complete SDU. */
  ghost predicate AllFull(udfs: seq<Udf>) {
    forall i :: 0 <= i < |udfs| ==> udfs[i][0] == FULL
  }

  lemma {:induction false} FeedFulls(s: State, udfs: seq<Udf>)
    requires AllFull(udfs)
    ensures var out := Feed(s, udfs).out; |out| == |udfs| && forall i :: 0 <= i < |udfs| ==> out[i] == udfs[i][1..]
    decreases |udfs|
  {
    if udfs != [] {
      assert Process(s, udfs[0]) == Result(s, [udfs[0][1..]], true);
      FeedFulls(s, udfs[1..]);
    }
  }

  /** The SDUs held by UDFs that are all complete. */
  function Held(udfs: seq<Udf>): (r: seq<Sdu>)
    ensures |r| == |udfs| && forall i :: 0 <= i < |r| ==> r[i] == udfs[i][1..]
  {
    seq(|udfs|, i requires 0 <= i < |udfs| => udfs[i][1..])
  }

  lemma {:induction false} StreamOfHeld(udfs: seq<Udf>, max: nat)
    requires max > 0 && AllFull(udfs) && forall i :: 0 <= i < |udfs| ==> |udfs[i]| <= max + 1
    ensures Stream(Held(udfs), max) == udfs
    decreases |udfs|
  {
    if udfs != [] {
      assert Held(udfs)[1..] == Held(udfs[1..]);
      StreamOfHeld(udfs[1..], max);
      assert Fragments(udfs[0][1..], max) == [[FULL] + udfs[0][1..]];
      assert [FULL] + udfs[0][1..] == udfs[0];
      assert udfs == [udfs[0]] + udfs[1..];
    }
  }

  /** In a run with a gap the far user gets an SDU too early. */
  lemma GapEmitsTooEarly(datas: seq<seq<Byte>>, users: seq<Sdu>, max: nat, n: nat)
    requires max > 0 && n < |datas| && n < |users| && forall i :: 0 <= i < |datas| ==> |datas[i]| >= 1
    requires AllFull(datas) && datas[n][1..] != users[n]
    ensures !Emits(datas, users, max, 0)
  {
    FeedFulls(Idle, datas);
    InsideIsPrefix(users, max, |datas|);
    assert Feed(Idle, datas).out[n] == datas[n][1..];
  }

  lemma GenuineIsFull(p: Pdu, seq0: nat, sdus: seq<seq<Byte>>)
    requires Genuine(p, seq0, sdus) && forall i :: 0 <= i < |sdus| ==> sdus[i] == PROBE || sdus[i] == NEXT
    ensures |p.data| >= 1 && p.data[0] == FULL
  {
  }

  lemma GapData(cfg: Config, z: Sys)
    requires HasGap(cfg, z)
    ensures forall i :: 0 <= i < |z.s.sdus| ==> z.s.sdus[i] == PROBE || z.s.sdus[i] == NEXT
  {
  }

  lemma PostedIsFull(cfg: Config, z: Sys, i: nat)
    requires HasGap(cfg, z) && i < |z.r.posted|
    ensures var data := z.r.posted[i].data; |data| >= 1 && data[0] == FULL
  {
    ReachedKeeps(cfg, z);
    PostedIsGenuine(cfg, z, i);
    GapData(cfg, z);
    GenuineIsFull(z.r.posted[i], cfg.seq0, z.s.sdus);
  }

  lemma GapDefeats(cfg: Config, z: Sys, max: nat)
    requires max > 0 && HasGap(cfg, z)
    ensures FirstIndex(cfg, z) == 0
    ensures exists users :: Carries(z, users, max) && !Emits(Datas(z.r.posted), users, max, 0)
  {
    var datas, n := Datas(z.r.posted), |z.r.posted| - 1;
    forall i | 0 <= i < |datas| ensures |datas[i]| >= 1 && datas[i][0] == FULL {
      PostedIsFull(cfg, z, i);
    }
    GapData(cfg, z);
    var users := Held(z.s.sdus);
    StreamOfHeld(z.s.sdus, max);
    assert users[n] == PROBE[1..] && datas[n][1..] == NEXT[1..] && |NEXT[1..]| == 1;
    GapEmitsTooEarly(datas, users, max, n);
  }

  /** The far user gets exactly the SDUs wholly in what was posted, in every run, exactly when
      A is zero or the credit fits the ring of PDUs to post. */
  lemma SdusArriveIff(cfg: Config, max: nat)
    requires max > 0
    ensures (forall z, users :: Reaches(cfg, z) && Carries(z, users, max) ==>
               FirstIndex(cfg, z) >= 0 && Emits(Datas(z.r.posted), users, max, FirstIndex(cfg, z)))
            <==> RingSuffices(cfg)
  {
    if RingSuffices(cfg) {
      forall z, users | Reaches(cfg, z) && Carries(z, users, max)
        ensures FirstIndex(cfg, z) >= 0 && Emits(Datas(z.r.posted), users, max, FirstIndex(cfg, z))
      {
        var events :| NetRun(cfg, events) == z;
        SdusArrive(cfg, events, users, max);
      }
    } else {
      GapRun(cfg);
      var z :| HasGap(cfg, z);
      GapDefeats(cfg, z, max);
    }
  }
}
