/**
The kernel flow allocator: flows mapped to port-ids, used by readers, writers and posters,
and reclaimed once deallocated and out of use.  Every function is one region under the
instance lock; a reader or writer that leaves the lock keeps a reference to its flow.
*/
module Kfa {
  import opened Lists

  datatype Phase = Pending | Allocated | Deallocated | Disabled

  /** `bound` says whether the SDU fifo exists, `ready` how many SDUs it holds. */
  datatype Flow = Flow(
    port: nat, phase: Phase, readers: nat, writers: nat, posters: nat, bound: bool, ready: nat)

  /** `flows` are the flows not yet freed, by identity; `destroyed` is history. */
  datatype State = State(
    ports: set<nat>, pmap: map<nat, nat>, flows: map<nat, Flow>, next: nat, work: seq<nat>,
    destroyed: seq<nat>)

  /** What a reader or writer holds on to outside the lock. */
  datatype Ref = Ref(fid: nat, port: nat)

  const NEW_STATE := State({}, map[], map[], 0, [], [])

  predicate InUse(f: Flow) {
    f.readers != 0 || f.writers != 0 || f.posters != 0
  }

  // The source answers false for a fifo that does not exist yet.
  predicate IsEmpty(f: Flow) {
    f.bound && f.ready == 0
  }

  predicate Mapped(k: State, port: nat) {
    port in k.pmap && k.pmap[port] in k.flows
  }

  function At(k: State, port: nat): Flow
    requires Mapped(k, port)
  {
    k.flows[k.pmap[port]]
  }

  function Put(k: State, fid: nat, f: Flow): State {
    k.(flows := k.flows[fid := f])
  }

  function Destroy(k: State, fid: nat, port: nat): State {
    k.(flows := k.flows - {fid}, pmap := k.pmap - {port}, ports := k.ports - {port},
       destroyed := k.destroyed + [fid])
  }

  /** Store the flow, or free it when it is deallocated and nobody uses it. */
  function Settle(k: State, r: Ref, f: Flow): State {
    if f.phase.Deallocated? && !InUse(f) then Destroy(k, r.fid, r.port) else Put(k, r.fid, f)
  }

  // ---------------------------------------------------------------- ports and flows

  function PortReserve(k: State, port: nat): State {
    k.(ports := k.ports + {port})
  }

  function PortRelease(k: State, port: nat): State {
    if Mapped(k, port) then k else k.(ports := k.ports - {port})
  }

  function Create(k: State, port: nat): State {
    k.(flows := k.flows[k.next := Flow(port, Pending, 0, 0, 0, false, 0)],
       pmap := k.pmap[port := k.next], next := k.next + 1)
  }

  function Bind(k: State, port: nat): State {
    if !Mapped(k, port) then k
    else Put(k, k.pmap[port], At(k, port).(phase := Allocated, bound := true, ready := 0))
  }

  function Deallocate(k: State, port: nat): State {
    if !Mapped(k, port) then k
    else
      var f := At(k, port).(phase := Deallocated);
      var t := Settle(k, Ref(k.pmap[port], port), f);
      if InUse(f) then t.(work := k.work + [port]) else t
  }

  function Worker(k: State): State {
    if k.work == [] then k
    else
      var port, t := k.work[0], k.(work := k.work[1..]);
      if Mapped(k, port) && At(k, port).phase.Deallocated? && !InUse(At(k, port))
      then Destroy(t, k.pmap[port], port)
      else t
  }

  function SetWritable(k: State, port: nat, writable: bool): State {
    if !Mapped(k, port) || At(k, port).phase.Deallocated? then k
    else if !writable then Put(k, k.pmap[port], At(k, port).(phase := Disabled))
    else if At(k, port).phase.Disabled? then Put(k, k.pmap[port], At(k, port).(phase := Allocated))
    else k
  }

  // ---------------------------------------------------------------- users

  /** Some(ref) when the writer leaves the lock to hand the SDU to the IPC process. */
  function WriteBegin(k: State, port: nat, tooLong: bool): (State, Option<Ref>) {
    if !Mapped(k, port) || At(k, port).phase.Deallocated? || tooLong then (k, None)
    else
      var f := At(k, port);
      if f.phase.Pending? || f.phase.Disabled? then (k, None)
      else (Put(k, k.pmap[port], f.(writers := f.writers + 1)), Some(Ref(k.pmap[port], port)))
  }

  /** The writer comes back with the flow it held. */
  function WriteEnd(k: State, r: Ref): State {
    if r.fid !in k.flows || k.flows[r.fid].writers == 0 then k
    else Settle(k, r, k.flows[r.fid].(writers := k.flows[r.fid].writers - 1))
  }

  function Take(f: Flow, fits: bool): Flow {
    if fits && f.ready > 0 then f.(ready := f.ready - 1) else f
  }

  predicate Waits(f: Flow) {
    f.phase.Pending? || IsEmpty(f)
  }

  /** Some(ref) when the reader goes to sleep. */
  function ReadBegin(k: State, port: nat, blocking: bool, fits: bool): (State, Option<Ref>) {
    if !Mapped(k, port) || At(k, port).phase.Deallocated? then (k, None)
    else
      var f := At(k, port);
      if !Waits(f) then (Put(k, k.pmap[port], Take(f, fits)), None)
      else if blocking then (Put(k, k.pmap[port], f.(readers := f.readers + 1)), Some(Ref(k.pmap[port], port)))
      else (k, None)
  }

  datatype Woken = Woken(k: State, done: bool, found: bool)

  /** The reader wakes, looks its port up again, and finishes or goes back to sleep. */
  function ReadWake(k: State, r: Ref, gaveUp: bool, fits: bool): Woken {
    if !Mapped(k, r.port) then Woken(k, true, false)
    else
      var f := At(k, r.port);
      if !gaveUp && !f.phase.Deallocated? && Waits(f) then Woken(k, false, true)
      else if f.readers == 0 then Woken(k, true, true)
      else
        var taken := if gaveUp then f else Take(f, fits);
        Woken(Settle(k, Ref(k.pmap[r.port], r.port), taken.(readers := f.readers - 1)), true, true)
  }

  function Post(k: State, port: nat): State {
    if !Mapped(k, port) || At(k, port).phase.Deallocated? || !At(k, port).bound then k
    else Put(k, k.pmap[port], At(k, port).(ready := At(k, port).ready + 1))
  }

  // ---------------------------------------------------------------- the allocator in place

  class Instance {
    var ports: set<nat>
    var pmap: map<nat, nat>
    var flows: map<nat, Flow>
    var next: nat
    var work: seq<nat>
    ghost var destroyed: seq<nat>

    ghost function K(): State
      reads this
    {
      State(ports, pmap, flows, next, work, destroyed)
    }

    constructor ()
      ensures K() == NEW_STATE
    {
      ports, pmap, flows, next, work, destroyed := {}, map[], map[], 0, [], [];
    }

    method FindFlow(port: nat) returns (fid: Option<nat>)
      ensures fid == if Mapped(K(), port) then Some(pmap[port]) else None
    {
      fid := if port in pmap && pmap[port] in flows then Some(pmap[port]) else None;
    }

    method FlowDestroy(fid: nat, port: nat)
      modifies `flows, `pmap, `ports, `destroyed
      ensures K() == Destroy(old(K()), fid, port)
    {
      destroyed := destroyed + [fid];
      pmap := pmap - {port};
      ports := ports - {port};
      flows := flows - {fid};
    }

    method PortIdRelease(port: nat)
      modifies `ports
      ensures K() == PortRelease(old(K()), port)
    {
      var fid := FindFlow(port);
      if fid.Some? {
        return;
      }
      ports := ports - {port};
    }

    method FlowCreate(port: nat)
      modifies `flows, `pmap, `next
      ensures K() == Create(old(K()), port)
    {
      flows := flows[next := Flow(port, Pending, 0, 0, 0, false, 0)];
      pmap := pmap[port := next];
      next := next + 1;
    }

    method FlowIpcpBind(port: nat) returns (ok: bool)
      modifies `flows
      ensures K() == Bind(old(K()), port) && ok == Mapped(old(K()), port)
    {
      var fid := FindFlow(port);
      if fid.None? {
        return false;
      }
      var flow := flows[fid.value];
      flows := flows[fid.value := flow.(phase := Allocated, bound := true, ready := 0)];
      ok := true;
    }

    method FlowDeallocate(port: nat) returns (ok: bool)
      modifies this
      ensures K() == Deallocate(old(K()), port) && ok == Mapped(old(K()), port)
    {
      var fid := FindFlow(port);
      if fid.None? {
        return false;
      }
      var flow := flows[fid.value].(phase := Deallocated);
      if flow.readers == 0 && flow.writers == 0 && flow.posters == 0 {
        FlowDestroy(fid.value, port);
      } else {
        flows := flows[fid.value := flow];
        work := work + [port];
      }
      ok := true;
    }

    method FlowDeallocateWorker()
      modifies this
      ensures K() == Worker(old(K()))
    {
      if work == [] {
        return;
      }
      var port := work[0];
      work := work[1..];
      var fid := FindFlow(port);
      if fid.None? {
        return;
      }
      var flow := flows[fid.value];
      if flow.phase != Deallocated {
        return;
      }
      if flow.readers == 0 && flow.writers == 0 && flow.posters == 0 {
        FlowDestroy(fid.value, port);
      }
    }

    method DisableWrite(port: nat)
      modifies `flows
      ensures K() == SetWritable(old(K()), port, false)
    {
      var fid := FindFlow(port);
      if fid.Some? && flows[fid.value].phase != Deallocated {
        flows := flows[fid.value := flows[fid.value].(phase := Disabled)];
      }
    }

    method EnableWrite(port: nat)
      modifies `flows
      ensures K() == SetWritable(old(K()), port, true)
    {
      var fid := FindFlow(port);
      if fid.Some? && flows[fid.value].phase == Disabled {
        flows := flows[fid.value := flows[fid.value].(phase := Allocated)];
      }
    }

    method DuWriteBegin(port: nat, length: nat, maxSduSize: nat) returns (ref: Option<Ref>)
      modifies `flows
      ensures (K(), ref) == WriteBegin(old(K()), port, length > maxSduSize)
    {
      var fid := FindFlow(port);
      if fid.None? || flows[fid.value].phase == Deallocated || length > maxSduSize {
        return None;
      }
      var flow := flows[fid.value];
      flow := flow.(writers := flow.writers + 1);
      if flow.phase == Pending || flow.phase == Disabled {
        // Back to what it was; not deallocated, so not destroyed.
        flow := flow.(writers := flow.writers - 1);
        flows := flows[fid.value := flow];
        assert flows == old(flows);
        return None;
      }
      flows := flows[fid.value := flow];
      ref := Some(Ref(fid.value, port));
    }

    method DuWriteEnd(r: Ref)
      requires r.fid in flows && flows[r.fid].writers > 0
      modifies this
      ensures K() == WriteEnd(old(K()), r)
    {
      var flow := flows[r.fid];
      flow := flow.(writers := flow.writers - 1);
      if flow.writers == 0 && flow.readers == 0 && flow.posters == 0 && flow.phase == Deallocated {
        FlowDestroy(r.fid, r.port);
      } else {
        flows := flows[r.fid := flow];
      }
    }

    method DuReadBegin(port: nat, blocking: bool, fits: bool) returns (ref: Option<Ref>)
      modifies `flows
      ensures (K(), ref) == ReadBegin(old(K()), port, blocking, fits)
    {
      var fid := FindFlow(port);
      if fid.None? || flows[fid.value].phase == Deallocated {
        return None;
      }
      var flow := flows[fid.value];
      flow := flow.(readers := flow.readers + 1);
      if flow.phase == Pending || (flow.bound && flow.ready == 0) {
        if blocking {
          flows := flows[fid.value := flow];
          return Some(Ref(fid.value, port));
        }
      } else if fits && flow.ready > 0 {
        flow := flow.(ready := flow.ready - 1);
      }
      flow := flow.(readers := flow.readers - 1);
      flows := flows[fid.value := flow];
      assert Waits(old(flows)[fid.value]) ==> flows == old(flows);
      ref := None;
    }

    /** `done` when the reader returns, `found` when its port still has a flow. */
    method DuReadWake(r: Ref, gaveUp: bool, fits: bool) returns (done: bool, found: bool)
      requires Mapped(K(), r.port) ==> At(K(), r.port).readers > 0
      modifies this
      ensures Woken(K(), done, found) == ReadWake(old(K()), r, gaveUp, fits)
    {
      var fid := FindFlow(r.port);
      if fid.None? {
        return true, false;
      }
      var flow := flows[fid.value];
      if !gaveUp && flow.phase != Deallocated && (flow.phase == Pending || (flow.bound && flow.ready == 0)) {
        return false, true;
      }
      if !gaveUp && fits && flow.ready > 0 {
        flow := flow.(ready := flow.ready - 1);
      }
      flow := flow.(readers := flow.readers - 1);
      if flow.readers == 0 && flow.writers == 0 && flow.posters == 0 && flow.phase == Deallocated {
        FlowDestroy(fid.value, r.port);
      } else {
        flows := flows[fid.value := flow];
      }
      return true, true;
    }

    method DuPost(port: nat) returns (ok: bool)
      modifies this
      ensures K() == Post(old(K()), port)
      ensures ok == (Mapped(old(K()), port) && !At(old(K()), port).phase.Deallocated? && At(old(K()), port).bound)
    {
      var fid := FindFlow(port);
      if fid.None? || flows[fid.value].phase == Deallocated {
        return false;
      }
      var flow := flows[fid.value];
      ok := flow.bound;
      if ok {
        flow := flow.(ready := flow.ready + 1);
      }
      flow := flow.(posters := flow.posters + 1);
      flow := flow.(posters := flow.posters - 1);
      // The source would destroy a deallocated flow here; this one is not.
      flows := flows[fid.value := flow];
      assert !ok ==> flows == old(flows);
    }
  }
}

/** Every interleaving of the allocator's operations. */
module KfaRuns {
  import opened Kfa
  import opened Lists

  datatype Kind = Reader | Writer

  datatype Task = Task(ref: Ref, kind: Kind)

  datatype Sys = Sys(k: State, tasks: seq<Task>)

  datatype Event =
    | Reserves(reserved: nat)
    | Releases(released: nat)
    | Creates(created: nat)
    | Binds(bound: nat)
    | Deallocates(deallocated: nat)
    | WorkerRuns
    | SetsWritable(gated: nat, writable: bool)
    | BeginsWrite(writing: nat, tooLong: bool)
    | EndsWrite(writer: nat)
    | BeginsRead(reading: nat, blocking: bool, fits: bool)
    | WakesReader(reader: nat, gaveUp: bool, taken: bool)
    | Posts(posted: nat)

  function Begun(s: Sys, o: (State, Option<Ref>), kind: Kind): Sys {
    Sys(o.0, if o.1.Some? then s.tasks + [Task(o.1.value, kind)] else s.tasks)
  }

  function Finished(tasks: seq<Task>, i: nat): seq<Task>
    requires i < |tasks|
  {
    tasks[..i] + tasks[i + 1..]
  }

  // A port is reserved when it is free, and a flow is created on a reserved port that has
  // none: what the callers of the two operations do.
  function Step(s: Sys, ev: Event): Sys {
    match ev
    case Reserves(port) => if port in s.k.ports then s else s.(k := PortReserve(s.k, port))
    case Releases(port) => s.(k := PortRelease(s.k, port))
    case Creates(port) => if port !in s.k.ports || port in s.k.pmap then s else s.(k := Create(s.k, port))
    case Binds(port) => s.(k := Bind(s.k, port))
    case Deallocates(port) => s.(k := Deallocate(s.k, port))
    case WorkerRuns => s.(k := Worker(s.k))
    case SetsWritable(port, writable) => s.(k := SetWritable(s.k, port, writable))
    case BeginsWrite(port, tooLong) => Begun(s, WriteBegin(s.k, port, tooLong), Writer)
    case EndsWrite(i) =>
      if i >= |s.tasks| || s.tasks[i].kind != Writer then s
      else Sys(WriteEnd(s.k, s.tasks[i].ref), Finished(s.tasks, i))
    case BeginsRead(port, blocking, fits) => Begun(s, ReadBegin(s.k, port, blocking, fits), Reader)
    case WakesReader(i, gaveUp, fits) =>
      if i >= |s.tasks| || s.tasks[i].kind != Reader then s
      else
        var w := ReadWake(s.k, s.tasks[i].ref, gaveUp, fits);
        Sys(w.k, if w.done then Finished(s.tasks, i) else s.tasks)
    case Posts(port) => s.(k := Post(s.k, port))
  }

  function Run(events: seq<Event>): Sys {
    if events == [] then Sys(NEW_STATE, [])
    else Step(Run(events[..|events| - 1]), events[|events| - 1])
  }

  // ---------------------------------------------------------------- invariant

  function Count(tasks: seq<Task>, fid: nat, kind: Kind): nat {
    CountIf(tasks, (t: Task) => t.ref.fid == fid && t.kind == kind)
  }

  /** Ports and flows are mapped one to one, on reserved ports. */
  ghost predicate MapExact(k: State) {
    && (forall port :: port in k.pmap ==>
          port in k.ports && k.pmap[port] in k.flows && k.flows[k.pmap[port]].port == port)
    && (forall fid :: fid in k.flows ==> k.flows[fid].port in k.pmap && k.pmap[k.flows[fid].port] == fid)
  }

  /** The counters count the users outside the lock, and posts finish under it. */
  ghost predicate Counted(k: State, tasks: seq<Task>) {
    && (forall fid :: fid in k.flows ==>
          && k.flows[fid].readers == Count(tasks, fid, Reader)
          && k.flows[fid].writers == Count(tasks, fid, Writer)
          && k.flows[fid].posters == 0)
    && (forall t :: t in tasks ==> t.ref.fid in k.flows && k.flows[t.ref.fid].port == t.ref.port)
  }

  /** No flow is left behind: deallocated ones are still in use. */
  ghost predicate Reclaimed(k: State) {
    forall fid :: fid in k.flows && k.flows[fid].phase.Deallocated? ==> InUse(k.flows[fid])
  }

  ghost predicate DestroyedOnce(k: State) {
    && (forall fid :: fid in k.flows ==> fid < k.next && fid !in k.destroyed)
    && (forall i :: 0 <= i < |k.destroyed| ==> k.destroyed[i] < k.next)
    && (forall i, j :: 0 <= i < j < |k.destroyed| ==> k.destroyed[i] != k.destroyed[j])
  }

  ghost predicate Inv(s: Sys) {
    MapExact(s.k) && Counted(s.k, s.tasks) && Reclaimed(s.k) && DestroyedOnce(s.k)
  }

  // ---------------------------------------------------------------- counting tasks

  lemma CountConcat(a: seq<Task>, b: seq<Task>, fid: nat, kind: Kind)
    ensures Count(a + b, fid, kind) == Count(a, fid, kind) + Count(b, fid, kind)
  {
    CountIfConcat(a, b, (t: Task) => t.ref.fid == fid && t.kind == kind);
  }

  lemma CountOne(t: Task, fid: nat, kind: Kind)
    ensures Count([t], fid, kind) == if t.ref.fid == fid && t.kind == kind then 1 else 0
  {
    assert [t][1..] == [] && Count([], fid, kind) == 0;
  }

  lemma CountFinished(tasks: seq<Task>, i: nat, fid: nat, kind: Kind)
    requires i < |tasks|
    ensures Count(tasks, fid, kind) ==
            Count(Finished(tasks, i), fid, kind) + Count([tasks[i]], fid, kind)
  {
    assert tasks == tasks[..i] + ([tasks[i]] + tasks[i + 1..]);
    CountConcat(tasks[..i], [tasks[i]] + tasks[i + 1..], fid, kind);
    CountConcat([tasks[i]], tasks[i + 1..], fid, kind);
    CountConcat(tasks[..i], tasks[i + 1..], fid, kind);
  }

  lemma {:induction false} CountNone(tasks: seq<Task>, fid: nat, kind: Kind)
    requires Count(tasks, fid, kind) == 0
    ensures forall t :: t in tasks && t.kind == kind ==> t.ref.fid != fid
  {
    if tasks != [] {
      CountNone(tasks[1..], fid, kind);
      assert forall t :: t in tasks <==> t == tasks[0] || t in tasks[1..];
    }
  }

  /** A flow nobody counts has no task. */
  lemma Unused(tasks: seq<Task>, fid: nat)
    requires Count(tasks, fid, Reader) == 0 && Count(tasks, fid, Writer) == 0
    ensures forall t :: t in tasks ==> t.ref.fid != fid
  {
    CountNone(tasks, fid, Reader);
    CountNone(tasks, fid, Writer);
    assert forall t: Task :: t.kind == Reader || t.kind == Writer;
  }

  // ---------------------------------------------------------------- settling a flow

  /** Counters that match everywhere except at `fid`, where they are those of `f`. */
  ghost predicate CountedAs(k: State, tasks: seq<Task>, fid: nat, f: Flow) {
    Counted(Put(k, fid, f), tasks)
  }

  lemma PutKeepsInv(k: State, tasks: seq<Task>, fid: nat, f: Flow)
    requires MapExact(k) && DestroyedOnce(k) && Reclaimed(k) && fid in k.flows
    requires f.port == k.flows[fid].port && CountedAs(k, tasks, fid, f)
    requires f.phase.Deallocated? ==> InUse(f)
    ensures Inv(Sys(Put(k, fid, f), tasks))
  {
  }

  lemma DestroyKeepsInv(k: State, tasks: seq<Task>, fid: nat, f: Flow)
    requires MapExact(k) && DestroyedOnce(k) && Reclaimed(k) && fid in k.flows
    requires f.port == k.flows[fid].port && CountedAs(k, tasks, fid, f) && !InUse(f)
    ensures Inv(Sys(Destroy(k, fid, f.port), tasks))
  {
    Unused(tasks, fid) by {
      assert Put(k, fid, f).flows[fid] == f;
    }
    var d := Destroy(k, fid, f.port);
    assert forall g :: g in d.flows ==> d.flows[g] == Put(k, fid, f).flows[g];
  }

  lemma SettleKeepsInv(k: State, tasks: seq<Task>, r: Ref, f: Flow)
    requires MapExact(k) && DestroyedOnce(k) && Reclaimed(k) && r.fid in k.flows
    requires r.port == f.port == k.flows[r.fid].port && CountedAs(k, tasks, r.fid, f)
    ensures Inv(Sys(Settle(k, r, f), tasks))
  {
    if f.phase.Deallocated? && !InUse(f) {
      DestroyKeepsInv(k, tasks, r.fid, f);
    } else {
      PutKeepsInv(k, tasks, r.fid, f);
    }
  }

  lemma SameCounts(k: State, tasks: seq<Task>, fid: nat, f: Flow)
    requires Counted(k, tasks) && fid in k.flows
    requires var g := k.flows[fid];
             f.port == g.port && f.readers == g.readers && f.writers == g.writers && f.posters == g.posters
    ensures CountedAs(k, tasks, fid, f)
  {
  }

  lemma OneMore(k: State, tasks: seq<Task>, t: Task, f: Flow)
    requires Counted(k, tasks) && t.ref.fid in k.flows
    requires var g := k.flows[t.ref.fid];
             && f.port == g.port == t.ref.port && f.posters == g.posters
             && f.readers == g.readers + (if t.kind == Reader then 1 else 0)
             && f.writers == g.writers + (if t.kind == Writer then 1 else 0)
    ensures CountedAs(k, tasks + [t], t.ref.fid, f)
  {
    forall fid, kind ensures Count(tasks + [t], fid, kind) == Count(tasks, fid, kind) + Count([t], fid, kind) {
      CountConcat(tasks, [t], fid, kind);
    }
    forall fid, kind
      ensures Count([t], fid, kind) == if t.ref.fid == fid && t.kind == kind then 1 else 0
    {
      CountOne(t, fid, kind);
    }
  }

  lemma OneLess(k: State, tasks: seq<Task>, i: nat, f: Flow)
    requires Counted(k, tasks) && i < |tasks|
    requires var t := tasks[i];
             var g := k.flows[t.ref.fid];
             && f.port == g.port && f.posters == g.posters
             && f.readers == g.readers - (if t.kind == Reader then 1 else 0)
             && f.writers == g.writers - (if t.kind == Writer then 1 else 0)
    ensures CountedAs(k, Finished(tasks, i), tasks[i].ref.fid, f)
  {
    var t, rest := tasks[i], Finished(tasks, i);
    forall fid, kind
      ensures Count(tasks, fid, kind) == Count(rest, fid, kind) + Count([t], fid, kind)
    {
      CountFinished(tasks, i, fid, kind);
    }
    forall fid, kind
      ensures Count([t], fid, kind) == if t.ref.fid == fid && t.kind == kind then 1 else 0
    {
      CountOne(t, fid, kind);
    }
    assert forall u :: u in rest ==> u in tasks;
  }

  /** The flow of a reader or writer is alive, mapped at its port, and counts it. */
  lemma TaskHolds(s: Sys, i: nat)
    requires Inv(s) && i < |s.tasks|
    ensures var t := s.tasks[i];
            && Mapped(s.k, t.ref.port) && s.k.pmap[t.ref.port] == t.ref.fid
            && (if t.kind == Reader then At(s.k, t.ref.port).readers > 0 else At(s.k, t.ref.port).writers > 0)
  {
    var t := s.tasks[i];
    assert t in s.tasks;
    if Count(s.tasks, t.ref.fid, t.kind) == 0 {
      CountNone(s.tasks, t.ref.fid, t.kind);
    }
  }

  // ---------------------------------------------------------------- steps

  lemma UpdateKeepsInv(s: Sys, port: nat, f: Flow)
    requires Inv(s) && Mapped(s.k, port)
    requires var g := At(s.k, port);
             f.port == g.port && f.readers == g.readers && f.writers == g.writers && f.posters == g.posters
    requires f.phase.Deallocated? ==> InUse(f)
    ensures Inv(s.(k := Put(s.k, s.k.pmap[port], f)))
  {
    SameCounts(s.k, s.tasks, s.k.pmap[port], f);
    PutKeepsInv(s.k, s.tasks, s.k.pmap[port], f);
  }

  lemma WorkKeepsInv(s: Sys, work: seq<nat>)
    requires Inv(s)
    ensures Inv(s.(k := s.k.(work := work)))
  {
  }

  lemma DeallocateKeepsInv(s: Sys, port: nat)
    requires Inv(s)
    ensures Inv(s.(k := Deallocate(s.k, port)))
  {
    if Mapped(s.k, port) {
      var f, r := At(s.k, port).(phase := Deallocated), Ref(s.k.pmap[port], port);
      SameCounts(s.k, s.tasks, r.fid, f);
      SettleKeepsInv(s.k, s.tasks, r, f);
      if InUse(f) {
        WorkKeepsInv(s.(k := Settle(s.k, r, f)), s.k.work + [port]);
      }
    }
  }

  /** The worker never finds a deallocated flow out of use. */
  lemma WorkerOnlyDequeues(s: Sys)
    requires Inv(s)
    ensures Worker(s.k) == s.k.(work := Worker(s.k).work)
  {
    if s.k.work != [] && Mapped(s.k, s.k.work[0]) {
      var f := At(s.k, s.k.work[0]);
      assert f.phase.Deallocated? ==> InUse(f);
    }
  }

  lemma {:induction false} CountAbsent(tasks: seq<Task>, fid: nat, kind: Kind)
    requires forall t :: t in tasks ==> t.ref.fid != fid
    ensures Count(tasks, fid, kind) == 0
  {
    if tasks != [] {
      assert forall t :: t in tasks[1..] ==> t in tasks;
      assert tasks[0] in tasks;
      CountAbsent(tasks[1..], fid, kind);
    }
  }

  lemma CreateKeepsInv(s: Sys, port: nat)
    requires Inv(s) && port in s.k.ports && port !in s.k.pmap
    ensures Inv(s.(k := Create(s.k, port)))
  {
    var fid := s.k.next;
    assert forall t :: t in s.tasks ==> t.ref.fid != fid;
    CountAbsent(s.tasks, fid, Reader);
    CountAbsent(s.tasks, fid, Writer);
  }

  lemma BeginKeepsInv(s: Sys, port: nat, kind: Kind, f: Flow)
    requires Inv(s) && Mapped(s.k, port) && f.phase != Deallocated
    requires var g := At(s.k, port);
             && f.port == g.port && f.posters == g.posters
             && f.readers == g.readers + (if kind == Reader then 1 else 0)
             && f.writers == g.writers + (if kind == Writer then 1 else 0)
    ensures var fid := s.k.pmap[port];
            Inv(Sys(Put(s.k, fid, f), s.tasks + [Task(Ref(fid, port), kind)]))
  {
    var t := Task(Ref(s.k.pmap[port], port), kind);
    OneMore(s.k, s.tasks, t, f);
    PutKeepsInv(s.k, s.tasks + [t], t.ref.fid, f);
  }

  lemma EndKeepsInv(s: Sys, i: nat, f: Flow)
    requires Inv(s) && i < |s.tasks|
    requires var t := s.tasks[i];
             var g := s.k.flows[t.ref.fid];
             && f.port == g.port && f.posters == g.posters
             && f.readers == g.readers - (if t.kind == Reader then 1 else 0)
             && f.writers == g.writers - (if t.kind == Writer then 1 else 0)
    ensures Inv(Sys(Settle(s.k, s.tasks[i].ref, f), Finished(s.tasks, i)))
  {
    TaskHolds(s, i);
    OneLess(s.k, s.tasks, i, f);
    SettleKeepsInv(s.k, Finished(s.tasks, i), s.tasks[i].ref, f);
  }

  lemma WriteKeepsInv(s: Sys, port: nat, tooLong: bool)
    requires Inv(s)
    ensures Inv(Begun(s, WriteBegin(s.k, port, tooLong), Writer))
  {
    if WriteBegin(s.k, port, tooLong).1.Some? {
      var f := At(s.k, port);
      BeginKeepsInv(s, port, Writer, f.(writers := f.writers + 1));
    }
  }

  lemma TakeKeepsInv(s: Sys, port: nat, fits: bool)
    requires Inv(s) && Mapped(s.k, port) && !At(s.k, port).phase.Deallocated?
    ensures Inv(s.(k := Put(s.k, s.k.pmap[port], Take(At(s.k, port), fits))))
  {
    UpdateKeepsInv(s, port, Take(At(s.k, port), fits));
  }

  lemma SleepKeepsInv(s: Sys, port: nat)
    requires Inv(s) && Mapped(s.k, port) && !At(s.k, port).phase.Deallocated?
    ensures var f, fid := At(s.k, port), s.k.pmap[port];
            Inv(Sys(Put(s.k, fid, f.(readers := f.readers + 1)), s.tasks + [Task(Ref(fid, port), Reader)]))
  {
    BeginKeepsInv(s, port, Reader, At(s.k, port).(readers := At(s.k, port).readers + 1));
  }

  /** The three outcomes of beginning to read a flow that is not deallocated. */
  lemma ReadOutcomes(s: Sys, port: nat, blocking: bool, fits: bool)
    requires Mapped(s.k, port) && !At(s.k, port).phase.Deallocated?
    ensures var f, fid := At(s.k, port), s.k.pmap[port];
            Begun(s, ReadBegin(s.k, port, blocking, fits), Reader) ==
            if !Waits(f) then s.(k := Put(s.k, fid, Take(f, fits)))
            else if blocking
            then Sys(Put(s.k, fid, f.(readers := f.readers + 1)), s.tasks + [Task(Ref(fid, port), Reader)])
            else s
  {
  }

  lemma ReadKeepsInv(s: Sys, port: nat, blocking: bool, fits: bool)
    requires Inv(s)
    ensures Inv(Begun(s, ReadBegin(s.k, port, blocking, fits), Reader))
  {
    if Mapped(s.k, port) && !At(s.k, port).phase.Deallocated? {
      ReadOutcomes(s, port, blocking, fits);
      TakeKeepsInv(s, port, fits);
      SleepKeepsInv(s, port);
    } else {
      assert Begun(s, ReadBegin(s.k, port, blocking, fits), Reader) == s;
    }
  }

  /** The two outcomes of waking while the flow is alive and counts the reader. */
  lemma WakeOutcomes(s: Sys, i: nat, gaveUp: bool, fits: bool)
    requires i < |s.tasks| && s.tasks[i].kind == Reader
    requires var r := s.tasks[i].ref; Mapped(s.k, r.port) && s.k.pmap[r.port] == r.fid && At(s.k, r.port).readers > 0
    ensures var r := s.tasks[i].ref;
            var f := At(s.k, r.port);
            var taken := if gaveUp then f else Take(f, fits);
            Step(s, WakesReader(i, gaveUp, fits)) ==
            if !gaveUp && !f.phase.Deallocated? && Waits(f) then s
            else Sys(Settle(s.k, r, taken.(readers := f.readers - 1)), Finished(s.tasks, i))
  {
  }

  lemma WakeKeepsInv(s: Sys, i: nat, gaveUp: bool, fits: bool)
    requires Inv(s) && i < |s.tasks| && s.tasks[i].kind == Reader
    ensures Inv(Step(s, WakesReader(i, gaveUp, fits)))
  {
    TaskHolds(s, i);
    var f := At(s.k, s.tasks[i].ref.port);
    var taken := if gaveUp then f else Take(f, fits);
    EndKeepsInv(s, i, taken.(readers := f.readers - 1));
    WakeOutcomes(s, i, gaveUp, fits);
  }

  lemma EndWriteOutcome(s: Sys, i: nat)
    requires i < |s.tasks| && s.tasks[i].kind == Writer
    requires var r := s.tasks[i].ref; r.fid in s.k.flows && s.k.flows[r.fid].writers > 0
    ensures var r := s.tasks[i].ref;
            var f := s.k.flows[r.fid];
            Step(s, EndsWrite(i)) == Sys(Settle(s.k, r, f.(writers := f.writers - 1)), Finished(s.tasks, i))
  {
  }

  lemma EndWriteKeepsInv(s: Sys, i: nat)
    requires Inv(s) && i < |s.tasks| && s.tasks[i].kind == Writer
    ensures Inv(Step(s, EndsWrite(i)))
  {
    TaskHolds(s, i);
    var f := s.k.flows[s.tasks[i].ref.fid];
    EndKeepsInv(s, i, f.(writers := f.writers - 1));
    EndWriteOutcome(s, i);
  }

  lemma BindKeepsInv(s: Sys, port: nat)
    requires Inv(s)
    ensures Inv(s.(k := Bind(s.k, port)))
  {
    if Mapped(s.k, port) {
      UpdateKeepsInv(s, port, At(s.k, port).(phase := Allocated, bound := true, ready := 0));
    }
  }

  lemma PostKeepsInv(s: Sys, port: nat)
    requires Inv(s)
    ensures Inv(s.(k := Post(s.k, port)))
  {
    if Mapped(s.k, port) {
      UpdateKeepsInv(s, port, At(s.k, port).(ready := At(s.k, port).ready + 1));
    }
  }

  lemma GateKeepsInv(s: Sys, port: nat, writable: bool)
    requires Inv(s)
    ensures Inv(s.(k := SetWritable(s.k, port, writable)))
  {
    if Mapped(s.k, port) {
      UpdateKeepsInv(s, port, At(s.k, port).(phase := if writable then Allocated else Disabled));
    }
  }

  lemma PortsKeepInv(s: Sys, ports: set<nat>)
    requires Inv(s) && s.k.pmap.Keys <= ports
    ensures Inv(s.(k := s.k.(ports := ports)))
  {
  }

  lemma WritesKeepInv(s: Sys, ev: Event)
    requires Inv(s) && (ev.BeginsWrite? || ev.EndsWrite?)
    ensures Inv(Step(s, ev))
  {
    match ev
    case BeginsWrite(port, tooLong) => WriteKeepsInv(s, port, tooLong);
    case EndsWrite(i) => if i < |s.tasks| && s.tasks[i].kind == Writer { EndWriteKeepsInv(s, i); }
  }

  lemma ReadsKeepInv(s: Sys, ev: Event)
    requires Inv(s) && (ev.BeginsRead? || ev.WakesReader?)
    ensures Inv(Step(s, ev))
  {
    match ev
    case BeginsRead(port, blocking, fits) => ReadKeepsInv(s, port, blocking, fits);
    case WakesReader(i, gaveUp, fits) =>
      if i < |s.tasks| && s.tasks[i].kind == Reader { WakeKeepsInv(s, i, gaveUp, fits); }
  }

  lemma PortKeepsInv(s: Sys, ev: Event)
    requires Inv(s) && (ev.Reserves? || ev.Releases? || ev.Creates? || ev.WorkerRuns?)
    ensures Inv(Step(s, ev))
  {
    match ev
    case Reserves(port) => PortsKeepInv(s, s.k.ports + {port});
    case Releases(port) => if !Mapped(s.k, port) { PortsKeepInv(s, s.k.ports - {port}); }
    case Creates(port) => if port in s.k.ports && port !in s.k.pmap { CreateKeepsInv(s, port); }
    case WorkerRuns => WorkerOnlyDequeues(s); WorkKeepsInv(s, Worker(s.k).work);
  }

  lemma StepKeepsInv(s: Sys, ev: Event)
    requires Inv(s)
    ensures Inv(Step(s, ev))
  {
    match ev
    case Binds(port) => BindKeepsInv(s, port);
    case Deallocates(port) => DeallocateKeepsInv(s, port);
    case SetsWritable(port, writable) => GateKeepsInv(s, port, writable);
    case Posts(port) => PostKeepsInv(s, port);
    case BeginsWrite(_, _) => WritesKeepInv(s, ev);
    case EndsWrite(_) => WritesKeepInv(s, ev);
    case BeginsRead(_, _, _) => ReadsKeepInv(s, ev);
    case WakesReader(_, _, _) => ReadsKeepInv(s, ev);
    case _ => PortKeepsInv(s, ev);
  }

  lemma {:induction false} EveryRunKeepsInv(events: seq<Event>)
    ensures Inv(Run(events))
  {
    if events != [] {
      EveryRunKeepsInv(events[..|events| - 1]);
      StepKeepsInv(Run(events[..|events| - 1]), events[|events| - 1]);
    }
  }

  // ---------------------------------------------------------------- main results

  /** No flow is destroyed twice, and none that was destroyed is in use: every reader and
      writer outside the lock holds a live flow, mapped at its port. */
  lemma DestroyedAtMostOnceAndUnused(events: seq<Event>)
    ensures var s := Run(events);
            && (forall i, j :: 0 <= i < j < |s.k.destroyed| ==> s.k.destroyed[i] != s.k.destroyed[j])
            && (forall t :: t in s.tasks ==>
                  t.ref.fid !in s.k.destroyed && Mapped(s.k, t.ref.port) && s.k.pmap[t.ref.port] == t.ref.fid)
  {
    EveryRunKeepsInv(events);
  }

  /** A mapped deallocated flow has a user outside the lock; so the worker only wakes
      sleepers, and once everybody has left no deallocated flow remains. */
  lemma DeallocatedFlowsAreReclaimed(events: seq<Event>)
    ensures var s := Run(events);
            && (forall port :: port in s.k.pmap && Mapped(s.k, port) && At(s.k, port).phase.Deallocated? ==>
                  exists t :: t in s.tasks && t.ref == Ref(s.k.pmap[port], port))
            && Worker(s.k) == s.k.(work := Worker(s.k).work)
  {
    EveryRunKeepsInv(events);
    var s := Run(events);
    WorkerOnlyDequeues(s);
    forall port | port in s.k.pmap && Mapped(s.k, port) && At(s.k, port).phase.Deallocated?
      ensures exists t :: t in s.tasks && t.ref == Ref(s.k.pmap[port], port)
    {
      if forall t :: t in s.tasks ==> t.ref.fid != s.k.pmap[port] {
        CountAbsent(s.tasks, s.k.pmap[port], Reader);
        CountAbsent(s.tasks, s.k.pmap[port], Writer);
      }
    }
  }

  /** A port that carries a flow stays reserved, whoever releases it. */
  lemma MappedPortsStayReserved(events: seq<Event>, port: nat)
    ensures var s := Run(events);
            && s.k.pmap.Keys <= s.k.ports
            && (port in s.k.pmap ==> port in PortRelease(s.k, port).ports)
  {
    EveryRunKeepsInv(events);
  }

  /** A reader that wakes always finds the flow it went to sleep on. */
  lemma ReaderFindsItsFlow(events: seq<Event>, i: nat, gaveUp: bool, fits: bool)
    requires i < |Run(events).tasks| && Run(events).tasks[i].kind == Reader
    ensures var s := Run(events);
            var w := ReadWake(s.k, s.tasks[i].ref, gaveUp, fits);
            w.found && s.k.pmap[s.tasks[i].ref.port] == s.tasks[i].ref.fid
  {
    EveryRunKeepsInv(events);
    TaskHolds(Run(events), i);
  }
}
