/** The connection-endpoint id manager: next-fit allocation from 1 .. MAX_CEP_ID. */
module Cidm {

  const MAX_CEP_ID: nat := 65535

  predicate InRange(id: int) {
    1 <= id <= MAX_CEP_ID
  }

  /** How far the cursor travels from `last` to reach `id`, going round past MAX_CEP_ID. */
  function Distance(last: nat, id: nat): int {
    if id > last then id - last else id + MAX_CEP_ID - last
  }

  ghost predicate Distinct(live: seq<nat>) {
    && (forall i :: 0 <= i < |live| ==> InRange(live[i]))
    && (forall i, j :: 0 <= i < j < |live| ==> live[i] != live[j])
  }

  /** `id` is free, and no free id comes sooner after `last`. */
  ghost predicate Nearest(live: seq<nat>, last: nat, id: nat) {
    && InRange(id) && id !in live
    && forall j :: InRange(j) && j !in live ==> Distance(last, id) <= Distance(last, j)
  }

  /** There is at most one such id. */
  lemma NearestUnique(live: seq<nat>, last: nat, id: nat, other: nat)
    requires last <= MAX_CEP_ID && Nearest(live, last, id) && Nearest(live, last, other)
    ensures id == other
  {
    assert Distance(last, id) == Distance(last, other);
  }

  // ---------------------------------------------------------------- counting ids

  ghost function Upto(n: nat): (s: set<nat>)
    ensures forall i :: i in s <==> 1 <= i <= n
    ensures |s| == n
  {
    if n == 0 then {} else Upto(n - 1) + {n}
  }

  ghost function Elements(live: seq<nat>): (s: set<nat>)
    ensures forall i :: i in s <==> i in live
    ensures |s| <= |live|
    ensures (forall i, j :: 0 <= i < j < |live| ==> live[i] != live[j]) ==> |s| == |live|
  {
    if live == [] then {}
    else
      var rest := Elements(live[1..]);
      assert forall i :: i in live <==> i == live[0] || i in live[1..];
      assert (forall i, j :: 0 <= i < j < |live| ==> live[i] != live[j]) ==> live[0] !in live[1..];
      {live[0]} + rest
  }

  lemma SubsetSmaller(a: set<nat>, b: set<nat>)
    requires a <= b
    ensures |a| <= |b| && (|a| == |b| ==> a == b)
  {
    assert b == a + (b - a);
  }

  lemma Pigeonhole(live: seq<nat>, max: nat)
    requires forall i :: 0 <= i < |live| ==> 1 <= live[i] <= max
    requires forall i, j :: 0 <= i < j < |live| ==> live[i] != live[j]
    ensures (exists id :: 1 <= id <= max && id !in live) <==> |live| < max
  {
    var all, used := Upto(max), Elements(live);
    forall id | id in used ensures id in all {
      var i :| 0 <= i < |live| && live[i] == id;
    }
    SubsetSmaller(used, all);
    if |live| < max {
      assert all - used != {};
      var id :| id in all - used;
      assert 1 <= id <= max && id !in live;
    }
  }

  /** The probe loop has something to find exactly while fewer than MAX_CEP_ID ids are live. */
  lemma FreeIdIff(live: seq<nat>)
    requires Distinct(live)
    ensures (exists id :: InRange(id) && id !in live) <==> |live| < MAX_CEP_ID
  {
    Pigeonhole(live, MAX_CEP_ID);
  }

  // ---------------------------------------------------------------- the allocator

  /** The list with its first `id`, if any, taken out. */
  ghost function Without(live: seq<nat>, id: int): seq<nat> {
    if live == [] then [] else if live[0] == id then live[1..] else [live[0]] + Without(live[1..], id)
  }

  lemma {:induction false} WithoutAt(live: seq<nat>, id: int, i: nat)
    requires i < |live| && live[i] == id && forall k :: 0 <= k < i ==> live[k] != id
    ensures Without(live, id) == live[..i] + live[i + 1..]
  {
    if i > 0 {
      WithoutAt(live[1..], id, i - 1);
      assert [live[0]] + (live[1..][..i - 1] + live[1..][i..]) == live[..i] + live[i + 1..];
    }
  }

  lemma {:induction false} WithoutAbsent(live: seq<nat>, id: int)
    requires forall k :: 0 <= k < |live| ==> live[k] != id
    ensures Without(live, id) == live
  {
    if live != [] {
      WithoutAbsent(live[1..], id);
    }
  }

  /** Releasing takes out that id and no other. */
  lemma {:induction false} WithoutKeeps(live: seq<nat>, id: int)
    requires Distinct(live)
    ensures Distinct(Without(live, id))
    ensures forall j :: j in Without(live, id) <==> j in live && j != id
  {
    if live != [] {
      var rest := live[1..];
      assert forall i :: 0 <= i < |rest| ==> rest[i] == live[i + 1];
      WithoutKeeps(rest, id);
      assert forall j :: j in live <==> j == live[0] || j in rest;
      var less := Without(live, id);
      if live[0] != id {
        var t := Without(rest, id);
        assert less == [live[0]] + t;
        assert forall i :: 0 < i < |less| ==> less[i] == t[i - 1] && t[i - 1] in t;
      }
    }
  }

  class Manager {
    var allocatedCepIds: seq<nat>
    var lastAllocated: nat

    ghost predicate Valid()
      reads this
    {
      Distinct(allocatedCepIds) && lastAllocated <= MAX_CEP_ID
    }

    constructor ()
      ensures Valid() && allocatedCepIds == [] && lastAllocated == 0
    {
      allocatedCepIds, lastAllocated := [], 0;
    }

    method Allocated(id: int) returns (r: bool)
      ensures r == (id in allocatedCepIds)
    {
      for i := 0 to |allocatedCepIds|
        invariant forall k :: 0 <= k < i ==> allocatedCepIds[k] != id
      {
        if allocatedCepIds[i] == id {
          return true;
        }
      }
      r := false;
    }

    /** The source's loop does not end when every id is live. */
    method Allocate() returns (id: nat)
      requires Valid() && |allocatedCepIds| < MAX_CEP_ID
      modifies this
      ensures Valid() && Nearest(old(allocatedCepIds), old(lastAllocated), id)
      ensures allocatedCepIds == [id] + old(allocatedCepIds) && lastAllocated == id
    {
      FreeIdIff(allocatedCepIds);
      ghost var free :| InRange(free) && free !in allocatedCepIds;
      if lastAllocated == MAX_CEP_ID {
        id := 1;
      } else {
        id := lastAllocated + 1;
      }
      while true
        invariant InRange(id) && allocatedCepIds == old(allocatedCepIds) && lastAllocated == old(lastAllocated)
        invariant forall j :: InRange(j) && j !in allocatedCepIds ==>
                    Distance(lastAllocated, id) <= Distance(lastAllocated, j)
        decreases MAX_CEP_ID - Distance(lastAllocated, id)
      {
        var used := Allocated(id);
        if !used {
          break;
        }
        assert Distance(lastAllocated, id) != Distance(lastAllocated, free);
        if id == MAX_CEP_ID {
          id := 1;
        } else {
          id := id + 1;
        }
      }
      allocatedCepIds := [id] + allocatedCepIds;
      lastAllocated := id;
    }

    method Release(id: int) returns (r: int)
      requires Valid()
      modifies `allocatedCepIds
      ensures Valid() && r == if id < 0 then -1 else 0
      ensures allocatedCepIds == if id < 0 then old(allocatedCepIds) else Without(old(allocatedCepIds), id)
    {
      if id < 0 {
        return -1;
      }
      for i := 0 to |allocatedCepIds|
        invariant allocatedCepIds == old(allocatedCepIds)
        invariant forall k :: 0 <= k < i ==> allocatedCepIds[k] != id
      {
        if allocatedCepIds[i] == id {
          WithoutAt(allocatedCepIds, id, i);
          allocatedCepIds := allocatedCepIds[..i] + allocatedCepIds[i + 1..];
          WithoutKeeps(old(allocatedCepIds), id);
          return 0;
        }
      }
      WithoutAbsent(allocatedCepIds, id);
      r := 0;
    }
  }

  // ---------------------------------------------------------------- runs

  /** The manager with its history: each id issued, with how far the cursor had travelled. */
  datatype Ids = Ids(live: seq<nat>, last: nat, issued: seq<(nat, nat)>, travelled: nat)

  datatype Event = Allocates(id: nat) | Releases(released: int)

  const NEW_IDS := Ids([], 0, [], 0)

  /** An allocation names the id it returned; any other id changes nothing. */
  ghost function Step(s: Ids, ev: Event): Ids {
    match ev
    case Allocates(id) =>
      if !Nearest(s.live, s.last, id) || Distance(s.last, id) < 0 then s
      else
        var travelled: nat := s.travelled + Distance(s.last, id);
        Ids([id] + s.live, id, s.issued + [(id, travelled)], travelled)
    case Releases(id) => if id < 0 then s else s.(live := Without(s.live, id))
  }

  ghost function Run(events: seq<Event>): Ids {
    if events == [] then NEW_IDS else Step(Run(events[..|events| - 1]), events[|events| - 1])
  }

  /** Where the cursor stands after travelling `t`. */
  ghost predicate Stands(id: nat, t: nat) {
    if t == 0 then id == 0 else InRange(id) && (t - id) % MAX_CEP_ID == 0
  }

  ghost predicate Inv(s: Ids) {
    && Distinct(s.live) && Stands(s.last, s.travelled)
    && (forall i :: 0 <= i < |s.issued| ==> 0 < s.issued[i].1 <= s.travelled && Stands(s.issued[i].0, s.issued[i].1))
    && (forall i, j :: 0 <= i < j < |s.issued| ==> s.issued[i].1 < s.issued[j].1)
  }

  lemma Multiple(a: int, b: int)
    requires a % MAX_CEP_ID == 0 && (b == a || b == a + MAX_CEP_ID)
    ensures b % MAX_CEP_ID == 0
  {
  }

  lemma CursorMoves(last: nat, travelled: nat, id: nat)
    requires Stands(last, travelled) && InRange(id)
    ensures 1 <= Distance(last, id) <= MAX_CEP_ID && Stands(id, travelled + Distance(last, id))
  {
    var t := travelled + Distance(last, id);
    if travelled > 0 {
      Multiple(travelled - last, t - id);
    }
  }

  lemma AllocationKeepsInv(s: Ids, id: nat)
    requires Inv(s) && Nearest(s.live, s.last, id)
    ensures Inv(Step(s, Allocates(id)))
  {
    CursorMoves(s.last, s.travelled, id);
  }

  lemma {:induction false} EveryRunKeepsInv(events: seq<Event>)
    ensures Inv(Run(events))
  {
    if events != [] {
      var s, ev := Run(events[..|events| - 1]), events[|events| - 1];
      EveryRunKeepsInv(events[..|events| - 1]);
      match ev
      case Allocates(id) => if Nearest(s.live, s.last, id) { AllocationKeepsInv(s, id); }
      case Releases(id) => WithoutKeeps(s.live, id);
    }
  }

  /** In every run the live ids are distinct and in range. */
  lemma LiveIdsDistinct(events: seq<Event>)
    ensures Distinct(Run(events).live)
  {
    EveryRunKeepsInv(events);
  }

  lemma SamePlace(id: nat, t: nat, u: nat)
    requires (t - id) % MAX_CEP_ID == 0 && (u - id) % MAX_CEP_ID == 0 && t < u
    ensures u - t >= MAX_CEP_ID
  {
    var a, b := (t - id) / MAX_CEP_ID, (u - id) / MAX_CEP_ID;
    assert t - id == a * MAX_CEP_ID && u - id == b * MAX_CEP_ID;
    assert (b - a) * MAX_CEP_ID == u - t > 0;
  }

  /** Between two issues of the same id the cursor has gone all the way round. */
  lemma NoEarlyReissue(events: seq<Event>, i: nat, j: nat)
    requires var issued := Run(events).issued; i < j < |issued| && issued[i].0 == issued[j].0
    ensures var issued := Run(events).issued; issued[j].1 - issued[i].1 >= MAX_CEP_ID
  {
    EveryRunKeepsInv(events);
    var issued := Run(events).issued;
    SamePlace(issued[i].0, issued[i].1, issued[j].1);
  }
}
