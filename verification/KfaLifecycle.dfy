/**
What becomes of a flow, in every interleaving: how it is created, opened, used, and taken
down, told by the readers and writers on it and not by its counters.
*/
module KfaLifecycle {
  import opened Kfa
  import opened KfaRuns
  import opened Lists

  lemma RunSnoc(events: seq<Event>, ev: Event)
    ensures Run(events + [ev]) == Step(Run(events), ev)
  {
    assert (events + [ev])[..|events|] == events;
  }

  /** Some reader or writer is outside the lock with flow `fid`. */
  ghost predicate HasTask(tasks: seq<Task>, fid: nat) {
    exists i :: 0 <= i < |tasks| && tasks[i].ref.fid == fid
  }

  lemma InUseIff(s: Sys, fid: nat)
    requires Inv(s) && fid in s.k.flows
    ensures InUse(s.k.flows[fid]) <==> HasTask(s.tasks, fid)
  {
    if HasTask(s.tasks, fid) {
      var i :| 0 <= i < |s.tasks| && s.tasks[i].ref.fid == fid;
      TaskHolds(s, i);
    } else {
      forall t | t in s.tasks ensures t.ref.fid != fid {
        var i :| 0 <= i < |s.tasks| && s.tasks[i] == t;
      }
      CountAbsent(s.tasks, fid, Reader);
      CountAbsent(s.tasks, fid, Writer);
    }
  }

  lemma GoneHasNoTask(s: Sys, fid: nat)
    requires Inv(s) && fid !in s.k.flows
    ensures !HasTask(s.tasks, fid)
  {
    forall i | 0 <= i < |s.tasks| ensures s.tasks[i].ref.fid != fid {
      assert s.tasks[i] in s.tasks;
    }
  }

  // ---------------------------------------------------------------- taking down

  /** The flow is gone, its port free, and nothing else changed. */
  ghost predicate Destroyed(s: Sys, t: Sys, port: nat, fid: nat) {
    && t.k.pmap == s.k.pmap - {port} && t.k.ports == s.k.ports - {port} && t.k.flows == s.k.flows - {fid}
    && t.k.destroyed == s.k.destroyed + [fid] && t.k.next == s.k.next
  }

  /** Only flow `fid` changed, to `f`. */
  ghost predicate Became(s: Sys, t: Sys, fid: nat, f: Flow) {
    && t.k.pmap == s.k.pmap && t.k.ports == s.k.ports && t.k.flows == s.k.flows[fid := f]
    && t.k.destroyed == s.k.destroyed && t.k.next == s.k.next
  }

  /** Deallocating a port destroys its flow at once if nobody uses it, and otherwise marks it
      and leaves it to its users. */
  ghost predicate TakenDown(s: Sys, t: Sys, port: nat) {
    if port !in s.k.pmap then t == s
    else
      var fid := s.k.pmap[port];
      && t.tasks == s.tasks && fid in s.k.flows
      && if HasTask(s.tasks, fid)
         then Became(s, t, fid, s.k.flows[fid].(phase := Deallocated)) && t.k.work == s.k.work + [port]
         else Destroyed(s, t, port, fid) && t.k.work == s.k.work
  }

  lemma DeallocateStep(s: Sys, port: nat)
    requires Inv(s)
    ensures TakenDown(s, Step(s, Deallocates(port)), port)
  {
    if port in s.k.pmap {
      InUseIff(s, s.k.pmap[port]);
    }
  }

  /** What deallocation does in every run. */
  lemma DeallocateTakesDown(events: seq<Event>, port: nat)
    ensures TakenDown(Run(events), Run(events + [Deallocates(port)]), port)
  {
    EveryRunKeepsInv(events);
    RunSnoc(events, Deallocates(port));
    DeallocateStep(Run(events), port);
  }

  /** Port `port` carries a flow that is deallocated. */
  ghost predicate Closing(s: Sys, port: nat, fid: nat) {
    port in s.k.pmap && s.k.pmap[port] == fid && fid in s.k.flows && s.k.flows[fid].phase.Deallocated?
  }

  /** Events that begin a use of `port`, or gate it. */
  ghost predicate Uses(ev: Event, port: nat) {
    || (ev.BeginsRead? && ev.reading == port) || (ev.BeginsWrite? && ev.writing == port)
    || (ev.Posts? && ev.posted == port) || (ev.SetsWritable? && ev.gated == port)
  }

  lemma FrozenStep(s: Sys, port: nat, fid: nat, ev: Event)
    requires Closing(s, port, fid) && Uses(ev, port)
    ensures Step(s, ev) == s
  {
  }

  /** In every run a deallocated flow takes no new reader, writer, SDU or gate. */
  lemma ClosingIsFrozen(events: seq<Event>, port: nat, fid: nat, ev: Event)
    requires Closing(Run(events), port, fid) && Uses(ev, port)
    ensures Run(events + [ev]) == Run(events)
  {
    RunSnoc(events, ev);
    FrozenStep(Run(events), port, fid, ev);
  }

  /** Events with which task `i` ends: a writer that comes back, a reader that wakes. */
  ghost predicate Ends(s: Sys, ev: Event, i: nat)
    requires i < |s.tasks|
  {
    if s.tasks[i].kind == Writer then ev == EndsWrite(i) else ev.WakesReader? && ev.reader == i
  }

  /** Without task `i`, the flow is destroyed if that was the last task on it, and otherwise
      stays deallocated. */
  ghost predicate LeftBy(s: Sys, t: Sys, i: nat)
    requires i < |s.tasks|
  {
    var r := s.tasks[i].ref;
    && t.tasks == s.tasks[..i] + s.tasks[i + 1..] && t.k.work == s.k.work
    && if HasTask(t.tasks, r.fid) then Closing(t, r.port, r.fid) && t.k.destroyed == s.k.destroyed
       else Destroyed(s, t, r.port, r.fid)
  }

  lemma SettledIs(s: Sys, i: nat, f: Flow)
    requires Inv(s) && i < |s.tasks| && Closing(s, s.tasks[i].ref.port, s.tasks[i].ref.fid) && f.phase.Deallocated?
    requires var t := s.tasks[i];
             var g := s.k.flows[t.ref.fid];
             && f.port == g.port && f.posters == g.posters
             && f.readers == g.readers - (if t.kind == Reader then 1 else 0)
             && f.writers == g.writers - (if t.kind == Writer then 1 else 0)
    ensures LeftBy(s, Sys(Settle(s.k, s.tasks[i].ref, f), Finished(s.tasks, i)), i)
  {
    var r := s.tasks[i].ref;
    var t := Sys(Settle(s.k, r, f), Finished(s.tasks, i));
    EndKeepsInv(s, i, f);
    if InUse(f) {
      InUseIff(t, r.fid);
    } else {
      GoneHasNoTask(t, r.fid);
    }
  }

  lemma EndStep(s: Sys, ev: Event, i: nat)
    requires Inv(s) && i < |s.tasks| && Closing(s, s.tasks[i].ref.port, s.tasks[i].ref.fid) && Ends(s, ev, i)
    ensures LeftBy(s, Step(s, ev), i)
  {
    TaskHolds(s, i);
    var f := s.k.flows[s.tasks[i].ref.fid];
    if s.tasks[i].kind == Writer {
      EndWriteOutcome(s, i);
      SettledIs(s, i, f.(writers := f.writers - 1));
    } else {
      WakeOutcomes(s, i, ev.gaveUp, ev.taken);
      var taken := if ev.gaveUp then f else Take(f, ev.taken);
      SettledIs(s, i, taken.(readers := f.readers - 1));
    }
  }

  /** In every run the step with which the last task of a deallocated flow ends destroys the
      flow and frees its port; any earlier one leaves it deallocated. */
  lemma LastTaskDestroys(events: seq<Event>, ev: Event, i: nat)
    requires var s := Run(events);
             i < |s.tasks| && Closing(s, s.tasks[i].ref.port, s.tasks[i].ref.fid) && Ends(s, ev, i)
    ensures LeftBy(Run(events), Run(events + [ev]), i)
  {
    EveryRunKeepsInv(events);
    RunSnoc(events, ev);
    EndStep(Run(events), ev, i);
  }

  // ---------------------------------------------------------------- from closing to gone

  /** The flow is closing, or has been destroyed. */
  ghost predicate Going(s: Sys, port: nat, fid: nat) {
    fid in s.k.destroyed || Closing(s, port, fid)
  }

  /** A destruction is never taken back. */
  lemma StepKeepsDestroyed(s: Sys, ev: Event)
    ensures s.k.destroyed <= Step(s, ev).k.destroyed
  {
  }

  /** The end of a task on another flow. */
  lemma OtherTask(s: Sys, ev: Event, i: nat, port: nat, fid: nat)
    requires Inv(s) && Closing(s, port, fid) && i < |s.tasks| && Ends(s, ev, i) && s.tasks[i].ref.fid != fid
    ensures Closing(Step(s, ev), port, fid)
  {
    TaskHolds(s, i);
    if s.tasks[i].kind == Writer {
      EndWriteOutcome(s, i);
    } else {
      WakeOutcomes(s, i, ev.gaveUp, ev.taken);
    }
  }

  lemma TaskEvent(s: Sys, ev: Event, port: nat, fid: nat)
    requires Inv(s) && Closing(s, port, fid) && (ev.EndsWrite? || ev.WakesReader?)
    ensures Going(Step(s, ev), port, fid)
  {
    var i := if ev.EndsWrite? then ev.writer else ev.reader;
    if i < |s.tasks| && Ends(s, ev, i) {
      TaskHolds(s, i);
      if s.tasks[i].ref.fid == fid {
        EndStep(s, ev, i);
        var t := Step(s, ev);
        if !HasTask(t.tasks, fid) {
          assert t.k.destroyed[|s.k.destroyed|] == fid;
        }
      } else {
        OtherTask(s, ev, i, port, fid);
      }
    } else {
      assert Step(s, ev) == s;
    }
  }

  lemma ReadEvent(s: Sys, port: nat, fid: nat, other: nat, blocking: bool, fits: bool)
    requires MapExact(s.k) && Closing(s, port, fid) && other != port
    ensures Closing(Step(s, BeginsRead(other, blocking, fits)), port, fid)
  {
    if Mapped(s.k, other) && !At(s.k, other).phase.Deallocated? {
      ReadOutcomes(s, other, blocking, fits);
    }
  }

  lemma OtherUse(s: Sys, ev: Event, port: nat, fid: nat)
    requires MapExact(s.k) && Closing(s, port, fid) && !Uses(ev, port)
    requires ev.BeginsWrite? || ev.Posts? || ev.SetsWritable?
    ensures Closing(Step(s, ev), port, fid)
  {
  }

  lemma UseEvent(s: Sys, ev: Event, port: nat, fid: nat)
    requires Inv(s) && Closing(s, port, fid)
    requires ev.BeginsWrite? || ev.BeginsRead? || ev.Posts? || ev.SetsWritable?
    ensures Closing(Step(s, ev), port, fid)
  {
    if Uses(ev, port) {
      FrozenStep(s, port, fid, ev);
    } else if ev.BeginsRead? {
      ReadEvent(s, port, fid, ev.reading, ev.blocking, ev.fits);
    } else {
      OtherUse(s, ev, port, fid);
    }
  }

  lemma PortEvent(s: Sys, ev: Event, port: nat, fid: nat)
    requires Inv(s) && Closing(s, port, fid) && ev != Binds(port)
    requires ev.Reserves? || ev.Releases? || ev.Creates? || ev.Binds?
    ensures Closing(Step(s, ev), port, fid)
  {
  }

  lemma StepKeepsGoing(s: Sys, ev: Event, port: nat, fid: nat)
    requires Inv(s) && Going(s, port, fid) && ev != Binds(port)
    ensures Going(Step(s, ev), port, fid)
  {
    if fid in s.k.destroyed {
      StepKeepsDestroyed(s, ev);
    } else {
      match ev
      case EndsWrite(_) => TaskEvent(s, ev, port, fid);
      case WakesReader(_, _, _) => TaskEvent(s, ev, port, fid);
      case Deallocates(other) => DeallocateStep(s, other);
      case WorkerRuns => WorkerOnlyDequeues(s);
      case _ =>
        if ev.BeginsWrite? || ev.BeginsRead? || ev.Posts? || ev.SetsWritable? {
          UseEvent(s, ev, port, fid);
        } else {
          PortEvent(s, ev, port, fid);
        }
    }
  }

  /** A deallocated flow stays deallocated until it is destroyed, whatever happens, unless its
      port is bound again. */
  lemma {:induction false} ClosingStays(events: seq<Event>, more: seq<Event>, port: nat, fid: nat)
    requires Closing(Run(events), port, fid) && Binds(port) !in more
    ensures Going(Run(events + more), port, fid)
  {
    if more == [] {
      assert events + more == events;
    } else {
      var front, ev := more[..|more| - 1], more[|more| - 1];
      ClosingStays(events, front, port, fid);
      assert events + more == (events + front) + [ev];
      RunSnoc(events + front, ev);
      EveryRunKeepsInv(events + front);
      StepKeepsGoing(Run(events + front), ev, port, fid);
    }
  }

  // ---------------------------------------------------------------- opening

  /** A new flow, with the next identity, on a reserved port that has none. */
  ghost predicate Opened(s: Sys, t: Sys, port: nat) {
    if port !in s.k.ports || port in s.k.pmap then t == s
    else && t.k.pmap == s.k.pmap[port := s.k.next] && s.k.next !in s.k.flows && s.k.next !in s.k.destroyed
         && t.k.flows == s.k.flows[s.k.next := Flow(port, Pending, 0, 0, 0, false, 0)]
         && t.k.next == s.k.next + 1 && t.k.ports == s.k.ports && t.tasks == s.tasks
         && t.k.work == s.k.work && t.k.destroyed == s.k.destroyed
  }

  /** In every run a flow is created pending, unbound and unused, under an identity no flow,
      living or destroyed, ever had. */
  lemma CreateOpens(events: seq<Event>, port: nat)
    ensures Opened(Run(events), Run(events + [Creates(port)]), port)
  {
    EveryRunKeepsInv(events);
    RunSnoc(events, Creates(port));
  }

  /** Only flow `fid` changed, to `f`, and `tasks` are outside the lock. */
  ghost predicate BecameWith(s: Sys, t: Sys, fid: nat, f: Flow, tasks: seq<Task>) {
    Became(s, t, fid, f) && t.tasks == tasks && t.k.work == s.k.work
  }

  /** In every run a port is reserved until it is released without a flow. */
  lemma ReserveAndRelease(events: seq<Event>, port: nat)
    ensures var s, t := Run(events), Run(events + [Reserves(port)]); t == s.(k := s.k.(ports := s.k.ports + {port}))
    ensures var s, t := Run(events), Run(events + [Releases(port)]);
            t == if port in s.k.pmap then s else s.(k := s.k.(ports := s.k.ports - {port}))
  {
    EveryRunKeepsInv(events);
    RunSnoc(events, Reserves(port));
    RunSnoc(events, Releases(port));
    var s := Run(events);
    assert port in s.k.ports ==> s.k.ports + {port} == s.k.ports;
  }

  /** A flow is bound to its IPC process whatever its phase: it is then allocated, with an empty
      fifo. */
  ghost predicate Bound(s: Sys, t: Sys, port: nat) {
    if port !in s.k.pmap then t == s
    else
      var fid := s.k.pmap[port];
      && fid in s.k.flows
      && BecameWith(s, t, fid, s.k.flows[fid].(phase := Allocated, bound := true, ready := 0), s.tasks)
  }

  lemma BindOpens(events: seq<Event>, port: nat)
    ensures Bound(Run(events), Run(events + [Binds(port)]), port)
  {
    EveryRunKeepsInv(events);
    RunSnoc(events, Binds(port));
  }

  /** So binding the port of a deallocated flow revives it. */
  lemma BindRevives(events: seq<Event>, port: nat, fid: nat)
    requires Closing(Run(events), port, fid)
    ensures !Going(Run(events + [Binds(port)]), port, fid)
  {
    EveryRunKeepsInv(events);
    BindOpens(events, port);
  }

  /** Writing is disabled in any phase but the last, and enabled again only from there. */
  ghost predicate Gated(s: Sys, t: Sys, port: nat, writable: bool) {
    if port !in s.k.pmap || s.k.pmap[port] !in s.k.flows then t == s
    else
      var fid := s.k.pmap[port];
      var f := s.k.flows[fid];
      if f.phase == Deallocated || (writable && f.phase != Disabled) then t == s
      else BecameWith(s, t, fid, f.(phase := if writable then Allocated else Disabled), s.tasks)
  }

  lemma GateStep(s: Sys, port: nat, writable: bool)
    ensures Gated(s, Step(s, SetsWritable(port, writable)), port, writable)
  {
  }

  /** What gating does in every run. */
  lemma GateOpensAndCloses(events: seq<Event>, port: nat, writable: bool)
    ensures Gated(Run(events), Run(events + [SetsWritable(port, writable)]), port, writable)
  {
    RunSnoc(events, SetsWritable(port, writable));
    GateStep(Run(events), port, writable);
  }

  // ---------------------------------------------------------------- writing

  /** A write begins if and only if the flow is allocated and the SDU is not too long; the
      writer then leaves the lock. */
  ghost predicate WriteBegun(s: Sys, t: Sys, port: nat, tooLong: bool) {
    if port !in s.k.pmap || s.k.pmap[port] !in s.k.flows then t == s
    else
      var fid := s.k.pmap[port];
      var f := s.k.flows[fid];
      if f.phase != Allocated || tooLong then t == s
      else BecameWith(s, t, fid, f.(writers := f.writers + 1), s.tasks + [Task(Ref(fid, port), Writer)])
  }

  lemma WriteStep(s: Sys, port: nat, tooLong: bool)
    ensures WriteBegun(s, Step(s, BeginsWrite(port, tooLong)), port, tooLong)
  {
  }

  /** When a write begins, in every run. */
  lemma WriteBeginsIff(events: seq<Event>, port: nat, tooLong: bool)
    ensures WriteBegun(Run(events), Run(events + [BeginsWrite(port, tooLong)]), port, tooLong)
  {
    RunSnoc(events, BeginsWrite(port, tooLong));
    WriteStep(Run(events), port, tooLong);
  }

  /** In every run a writer that comes back leaves, and its flow, unless deallocated, only loses
      it from the count. */
  lemma WriterLeaves(events: seq<Event>, i: nat)
    requires i < |Run(events).tasks| && Run(events).tasks[i].kind == Writer
    ensures var s, t := Run(events), Run(events + [EndsWrite(i)]);
            var fid, left := s.tasks[i].ref.fid, s.tasks[..i] + s.tasks[i + 1..];
            && fid in s.k.flows && s.k.flows[fid].writers > 0 && t.tasks == left
            && (s.k.flows[fid].phase != Deallocated ==>
                  BecameWith(s, t, fid, s.k.flows[fid].(writers := s.k.flows[fid].writers - 1), left))
  {
    EveryRunKeepsInv(events);
    RunSnoc(events, EndsWrite(i));
    TaskHolds(Run(events), i);
    EndWriteOutcome(Run(events), i);
  }

  // ---------------------------------------------------------------- reading

  /** There is nothing to read yet. */
  ghost predicate NotReady(f: Flow) {
    f.phase == Pending || (f.bound && f.ready == 0)
  }

  /** A reader goes to sleep if and only if it may block and there is nothing to read yet on a
      flow that is not deallocated. */
  ghost predicate ReadBegun(s: Sys, t: Sys, port: nat, blocking: bool) {
    if port !in s.k.pmap || s.k.pmap[port] !in s.k.flows then t == s
    else
      var fid := s.k.pmap[port];
      var f := s.k.flows[fid];
      if f.phase == Deallocated || (NotReady(f) && !blocking) then t == s
      else if NotReady(f)
      then BecameWith(s, t, fid, f.(readers := f.readers + 1), s.tasks + [Task(Ref(fid, port), Reader)])
      else t.tasks == s.tasks && fid in t.k.flows
           && BecameWith(s, t, fid, f.(ready := t.k.flows[fid].ready), s.tasks)
  }

  lemma ReadStep(s: Sys, port: nat, blocking: bool, fits: bool)
    ensures ReadBegun(s, Step(s, BeginsRead(port, blocking, fits)), port, blocking)
  {
    if Mapped(s.k, port) && !At(s.k, port).phase.Deallocated? {
      ReadOutcomes(s, port, blocking, fits);
    }
  }

  /** When a reader sleeps, in every run. */
  lemma ReaderSleepsIff(events: seq<Event>, port: nat, blocking: bool, fits: bool)
    ensures ReadBegun(Run(events), Run(events + [BeginsRead(port, blocking, fits)]), port, blocking)
  {
    RunSnoc(events, BeginsRead(port, blocking, fits));
    ReadStep(Run(events), port, blocking, fits);
  }

  /** A reader that wakes leaves if and only if it gives up, its flow is deallocated, or there
      is something to read. */
  ghost predicate Woke(s: Sys, t: Sys, i: nat, gaveUp: bool)
    requires i < |s.tasks|
  {
    var fid := s.tasks[i].ref.fid;
    && fid in s.k.flows
    && if !gaveUp && s.k.flows[fid].phase != Deallocated && NotReady(s.k.flows[fid]) then t == s
       else t.tasks == s.tasks[..i] + s.tasks[i + 1..]
  }

  lemma WakeStep(s: Sys, i: nat, gaveUp: bool, fits: bool)
    requires Inv(s) && i < |s.tasks| && s.tasks[i].kind == Reader
    ensures Woke(s, Step(s, WakesReader(i, gaveUp, fits)), i, gaveUp)
  {
    TaskHolds(s, i);
    WakeOutcomes(s, i, gaveUp, fits);
  }

  /** When a sleeping reader leaves, in every run. */
  lemma ReaderLeavesIff(events: seq<Event>, i: nat, gaveUp: bool, fits: bool)
    requires i < |Run(events).tasks| && Run(events).tasks[i].kind == Reader
    ensures Woke(Run(events), Run(events + [WakesReader(i, gaveUp, fits)]), i, gaveUp)
  {
    EveryRunKeepsInv(events);
    RunSnoc(events, WakesReader(i, gaveUp, fits));
    WakeStep(Run(events), i, gaveUp, fits);
  }

  // ---------------------------------------------------------------- the SDU fifo

  /** An SDU is taken by a reader of flow `fid`, either on arrival or on waking. */
  ghost predicate Takes(s: Sys, ev: Event, fid: nat)
    requires fid in s.k.flows
  {
    var f := s.k.flows[fid];
    && f.ready > 0
    && ( || (ev.BeginsRead? && ev.reading == f.port && ev.fits && f.phase != Pending && f.phase != Deallocated)
         || (ev.WakesReader? && ev.reader < |s.tasks| && s.tasks[ev.reader] == Task(Ref(fid, f.port), Reader)
             && !ev.gaveUp && ev.taken && f.phase != Pending))
  }

  ghost predicate Enters(s: Sys, ev: Event, fid: nat)
    requires fid in s.k.flows
  {
    var f := s.k.flows[fid];
    ev == Posts(f.port) && f.bound && f.phase != Deallocated
  }

  /** The fifo changes by exactly the SDUs posted and taken. */
  ghost predicate FifoChanged(s: Sys, t: Sys, ev: Event, fid: nat)
    requires fid in s.k.flows && fid in t.k.flows
  {
    t.k.flows[fid].ready ==
    if ev == Binds(s.k.flows[fid].port) then 0
    else s.k.flows[fid].ready + (if Enters(s, ev, fid) then 1 else 0) - (if Takes(s, ev, fid) then 1 else 0)
  }

  lemma WakeFifo(s: Sys, ev: Event, fid: nat)
    requires Inv(s) && ev.WakesReader? && fid in s.k.flows && fid in Step(s, ev).k.flows
    ensures FifoChanged(s, Step(s, ev), ev, fid)
  {
    if ev.reader < |s.tasks| && s.tasks[ev.reader].kind == Reader {
      TaskHolds(s, ev.reader);
      WakeOutcomes(s, ev.reader, ev.gaveUp, ev.taken);
    }
  }

  lemma UseFifo(s: Sys, ev: Event, fid: nat)
    requires fid in s.k.flows && fid in Step(s, ev).k.flows && MapExact(s.k)
    requires ev.BeginsWrite? || ev.EndsWrite? || ev.BeginsRead? || ev.Posts?
    ensures FifoChanged(s, Step(s, ev), ev, fid)
  {
  }

  lemma PortFifo(s: Sys, ev: Event, fid: nat)
    requires fid in s.k.flows && fid in Step(s, ev).k.flows && MapExact(s.k) && DestroyedOnce(s.k)
    requires ev.Reserves? || ev.Releases? || ev.Creates? || ev.Binds? || ev.Deallocates? || ev.SetsWritable?
    ensures FifoChanged(s, Step(s, ev), ev, fid)
  {
  }

  lemma StepFifo(s: Sys, ev: Event, fid: nat)
    requires Inv(s) && fid in s.k.flows && fid in Step(s, ev).k.flows
    ensures FifoChanged(s, Step(s, ev), ev, fid)
  {
    if ev.WakesReader? {
      WakeFifo(s, ev, fid);
    } else if ev.WorkerRuns? {
      WorkerOnlyDequeues(s);
    } else if ev.BeginsWrite? || ev.EndsWrite? || ev.BeginsRead? || ev.Posts? {
      UseFifo(s, ev, fid);
    } else {
      PortFifo(s, ev, fid);
    }
  }

  /** In every run the fifo of a flow grows by one exactly when an SDU is posted to it bound
      and not deallocated, shrinks by one exactly when a reader takes one, is emptied by a
      bind, and no other event changes it. */
  lemma FifoConserved(events: seq<Event>, ev: Event, fid: nat)
    requires fid in Run(events).k.flows && fid in Run(events + [ev]).k.flows
    ensures FifoChanged(Run(events), Run(events + [ev]), ev, fid)
  {
    EveryRunKeepsInv(events);
    RunSnoc(events, ev);
    StepFifo(Run(events), ev, fid);
  }
}
