/**
 * Safety of the timer manager in every state that callers, callbacks and the
 * worker can reach together.
 */
module TimerSafety {
  import opened Basics
  import opened TimerSteps

  // ---- One slot changed ----------------------------------------------------

  /** `u` differs from `s` in the timer of slot `i`, the queue, the worker and the clock alone. */
  ghost predicate OneSlot(s: State, u: State, i: nat)
  {
    && i < |s.slots| == |u.slots| && u.free == s.free && u.stop == s.stop && s.now <= u.now
    && s.slots[i].timer.Some? && u.slots[i].timer.Some? && u.slots[i].births == s.slots[i].births
    && forall j | 0 <= j < |s.slots| && j != i :: u.slots[j] == s.slots[j]
  }

  /** What the queue and the worker say of slot `j`'s present timer is as it was. */
  ghost predicate SameOf(s: State, u: State, j: nat)
    requires j < |s.slots|
  {
    var me := Ticket(j, s.slots[j].births);
    (me in u.fifo <==> me in s.fifo) && (Held(u.worker) == Some(me) <==> Held(s.worker) == Some(me))
  }

  lemma OneSlotKeepsInv(s: State, u: State, i: nat)
    requires Inv(s) && OneSlot(s, u, i) && FifoInv(u) && WorkerInv(u)
    requires TimerInv(u, i, u.slots[i].timer.value)
    requires forall j: nat | j < |s.slots| && j != i && s.slots[j].timer.Some? :: SameOf(s, u, j)
    ensures Inv(u)
  {
    hide ScheduleInv, FifoInv, WorkerInv;
    forall j: nat | j < |u.slots| && u.slots[j].timer.Some? ensures TimerInv(u, j, u.slots[j].timer.value) {
      if j != i {
        assert SameOf(s, u, j);
        assert TimerInv(s, j, s.slots[j].timer.value);
      }
    }
  }

  // ---- Callers' steps ------------------------------------------------------

  lemma AllocatedKeepsInv(s: State, next: int, period: Option<nat>)
    requires Inv(s)
    ensures FreeInRange(s) && Inv(Allocated(s, NewTimer(next, period)))
    ensures |s.slots| <= |Allocated(s, NewTimer(next, period)).slots|
  {
    FreeIsInRange(s);
    var i := NextSlot(s);
    var u := Allocated(s, NewTimer(next, period));
    AllocatedKeepsFree(s, NewTimer(next, period));
    assert FifoInv(u);
    forall j: nat | j < |u.slots| && u.slots[j].timer.Some? ensures TimerInv(u, j, u.slots[j].timer.value) {
      if j == i {
        assert Ticket(i, u.slots[i].births) !in u.fifo;
        assert ScheduleInv(NewTimer(next, period));
      } else {
        assert TimerInv(s, j, s.slots[j].timer.value);
      }
    }
  }

  lemma FreeIsInRange(s: State)
    requires FreeInv(s)
    ensures FreeInRange(s)
  {
    forall k | 0 <= k < |s.free| ensures s.free[k] < |s.slots| {
      assert s.free[k] in s.free;
    }
  }

  lemma AllocatedKeepsFree(s: State, t: Timer)
    requires FreeInv(s) && FreeInRange(s)
    ensures FreeInv(Allocated(s, t))
  {
    var i := NextSlot(s);
    var u := Allocated(s, t);
    if s.free != [] {
      LastRemoved(s.free);
    }
  }

  lemma LastRemoved(free: seq<nat>)
    requires free != [] && forall i, j | 0 <= i < j < |free| :: free[i] != free[j]
    ensures forall x :: x in free[..|free| - 1] <==> x in free && x != free[|free| - 1]
  {
    var n := |free| - 1;
    assert free == free[..n] + [free[n]];
  }

  lemma DeallocatedKeepsInv(s: State, id: nat)
    requires Inv(s)
    ensures Inv(Deallocated(s, id)) && |Deallocated(s, id).slots| == |s.slots|
  {
    var u := Deallocated(s, id);
    if Names(s, id) {
      var i := id % WRAP;
      hide Names;
      assert i !in s.free;
      forall j: nat | j < |u.slots| && u.slots[j].timer.Some? ensures TimerInv(u, j, u.slots[j].timer.value) {
        assert TimerInv(s, j, s.slots[j].timer.value);
      }
    }
  }

  lemma WithEnabledKeepsInv(s: State, id: nat, on: bool)
    requires Inv(s)
    ensures Inv(WithEnabled(s, id, on))
  {
    if Names(s, id) {
      var i := id % WRAP;
      hide Names;
      var t := s.slots[i].timer.value;
      assert TimerInv(s, i, t);
      OneSlotKeepsInv(s, SetTimer(s, i, t.(enabled := on)), i);
    }
  }

  /** The clock, and a worker that holds no callback, do not matter to the timers. */
  lemma QuietChangeKeepsInv(s: State, u: State)
    requires Inv(s) && u == s.(stop := u.stop, worker := u.worker, now := u.now) && s.now <= u.now
    requires WorkerInv(u) && Held(u.worker) == Held(s.worker)
    ensures Inv(u)
  {
    hide ScheduleInv;
    forall j: nat | j < |u.slots| && u.slots[j].timer.Some? ensures TimerInv(u, j, u.slots[j].timer.value) {
      assert TimerInv(s, j, s.slots[j].timer.value);
    }
  }

  // ---- The worker's steps --------------------------------------------------

  lemma MarkedKeepsInv(s: State, i: nat, seen: int)
    requires Inv(s) && i < |s.slots| && seen <= s.now && Held(s.worker).None?
    ensures Inv(Marked(s, i, seen)) && SameBirths(s, Marked(s, i, seen))
    ensures Marked(s, i, seen) == s.(slots := Marked(s, i, seen).slots, fifo := Marked(s, i, seen).fifo)
  {
    if Due(s.slots[i], seen) {
      var t := s.slots[i].timer.value;
      var u := Marked(s, i, seen);
      assert TimerInv(s, i, t);
      var k := Ticket(i, s.slots[i].births);
      assert k !in s.fifo && u.fifo == s.fifo + [k];
      assert FifoInv(u);
      OneSlotKeepsInv(s, u, i);
    }
  }

  lemma {:induction false} ScannedKeepsInv(s: State, n: nat, seen: int)
    requires Inv(s) && n <= |s.slots| && seen <= s.now && Held(s.worker).None?
    ensures var t := Scanned(s, n, seen);
            Inv(t) && t.now == s.now && t.worker == s.worker && t.free == s.free && t.stop == s.stop && SameBirths(s, t)
  {
    hide Inv, Marked;
    if n > 0 {
      ScannedKeepsInv(s, n - 1, seen);
      MarkedKeepsInv(Scanned(s, n - 1, seen), n - 1, seen);
    }
  }

  ghost predicate SameBirths(s: State, t: State)
  {
    |t.slots| == |s.slots| && forall i | 0 <= i < |s.slots| :: t.slots[i].births == s.slots[i].births
  }

  /** Below 2^32 allocations equal generations mean the same timer. */
  lemma GenerationsTell(s: State, k: Ticket)
    requires Unwrapped(s) && k.idx < |s.slots| && k.birth <= s.slots[k.idx].births
    ensures Generation(s.slots[k.idx].births) == Generation(k.birth) <==> s.slots[k.idx].births == k.birth
  {
  }

  lemma FireKeepsInv(s: State, k: Ticket, catchUp: nat)
    requires Inv(s) && Held(s.worker).None? && catchUp < MAX_CATCHUP
    requires k.idx < |s.slots| && s.slots[k.idx].timer.Some? && k.birth == s.slots[k.idx].births
    requires k !in s.fifo && s.slots[k.idx].timer.value.next <= s.now
    ensures Inv(Fire(s, k, catchUp)) && SameBirths(s, Fire(s, k, catchUp))
  {
    var t := s.slots[k.idx].timer.value;
    assert TimerInv(s, k.idx, t);
    var u := Fire(s, k, catchUp);
    var f := u.slots[k.idx].timer.value;
    FiredSchedule(t, s.now);
    OneSlotKeepsInv(s, u, k.idx);
  }

  lemma FiredSchedule(t: Timer, now: int)
    requires ScheduleInv(t) && t.hasCallback && t.next <= now
    ensures ScheduleInv(t.(inFifo := false, hasCallback := false, charges := t.charges + [Charge(t.next, now)]))
  {
    hide Deadline;
  }

  /** The state with the oldest ticket taken off, its own timer no longer queued. */
  lemma PoppedKeepsInv(s: State)
    requires Inv(s) && Unwrapped(s) && s.fifo != [] && s.worker == Asleep(None)
    ensures Inv(Popped(s)) && SameBirths(s, Popped(s)) && !Popped(s).worker.Ready?
  {
    var k := s.fifo[0];
    assert k in s.fifo;
    GenerationsTell(s, k);
    var u := s.(fifo := s.fifo[1..]);
    RestOfQueue(s);
    if !Live(s, k) {
      DeadTicketDropped(s);
    } else {
      hide ScheduleInv;
      var t := s.slots[k.idx].timer.value;
      assert TimerInv(s, k.idx, t);
      var v := SetTimer(u, k.idx, t.(inFifo := false));
      OneSlotKeepsInv(s, v, k.idx);
      if t.enabled {
        FireKeepsInv(v, k, 0);
        assert Fire(u, k, 0) == Fire(v, k, 0);
      }
    }
  }

  /** Dropping a ticket whose timer is gone leaves every timer's ticket in place. */
  lemma DeadTicketDropped(s: State)
    requires Inv(s) && s.fifo != [] && !Live(s, s.fifo[0])
    ensures Inv(s.(fifo := s.fifo[1..]))
  {
    hide ScheduleInv;
    var u := s.(fifo := s.fifo[1..]);
    RestOfQueue(s);
    forall j: nat | j < |u.slots| && u.slots[j].timer.Some? ensures TimerInv(u, j, u.slots[j].timer.value) {
      assert TimerInv(s, j, s.slots[j].timer.value);
    }
  }

  lemma RestOfQueue(s: State)
    requires FifoInv(s) && s.fifo != []
    ensures FifoInv(s.(fifo := s.fifo[1..])) && s.fifo[0] !in s.fifo[1..]
    ensures forall k | k != s.fifo[0] :: k in s.fifo[1..] <==> k in s.fifo
  {
    assert s.fifo == [s.fifo[0]] + s.fifo[1..];
  }

  lemma LookKeepsInv(s: State, seen: int)
    requires Inv(s) && Possible(s, Look(seen)) && Unwrapped(s)
    ensures Inv(AfterLook(s, seen)) && SameBirths(s, AfterLook(s, seen)) && !AfterLook(s, seen).worker.Ready?
  {
    hide Scanned, Popped, TimersInv, FreeInv, FifoInv;
    if s.stop {
      QuietChangeKeepsInv(s, AfterLook(s, seen));
    } else {
      var a := s.(worker := Asleep(None));
      QuietChangeKeepsInv(s, a);
      ScannedKeepsInv(a, |s.slots|, seen);
      var u := Scanned(a, |s.slots|, seen);
      if u.fifo != [] {
        PoppedKeepsInv(u);
      }
      var v := if u.fifo == [] then u else Popped(u);
      if v.worker.Asleep? {
        QuietChangeKeepsInv(v, v.(worker := Asleep(Wakeup(v.slots))));
      }
    }
  }

  /** A returned callback put back: the worker holds nothing and the deadline is the one just answered. */
  ghost predicate Back(s: State, k: Ticket)
  {
    && FreeInv(s) && FifoInv(s) && s.worker == Ready
    && k.idx < |s.slots| && k.birth == s.slots[k.idx].births && s.slots[k.idx].timer.Some? && k !in s.fifo
    && forall j: nat | j < |s.slots| && j != k.idx && s.slots[j].timer.Some? :: TimerInv(s, j, s.slots[j].timer.value)
  }

  lemma BackWith(s: State, k: Ticket, t: Timer)
    requires Back(s, k) && ScheduleInv(t) && t.hasCallback && !t.inFifo
    ensures Inv(SetTimer(s, k.idx, t)) && SameBirths(s, SetTimer(s, k.idx, t))
  {
    hide ScheduleInv;
    var u := SetTimer(s, k.idx, t);
    forall j: nat | j < |u.slots| && u.slots[j].timer.Some? ensures TimerInv(u, j, u.slots[j].timer.value) {
      if j != k.idx {
        assert TimerInv(s, j, s.slots[j].timer.value);
      }
    }
  }

  lemma ReturnedIsBack(s: State)
    requires Inv(s) && Unwrapped(s) && s.worker.Calling? && Live(s, s.worker.ticket)
    ensures var k := s.worker.ticket; var t := s.slots[k.idx].timer.value;
            && Back(SetTimer(s, k.idx, t.(hasCallback := true)).(worker := Ready), k)
            && ScheduleInv(t) && !t.hasCallback && !t.inFifo
  {
    hide ScheduleInv;
    var k := s.worker.ticket;
    GenerationsTell(s, k);
    var t := s.slots[k.idx].timer.value;
    assert TimerInv(s, k.idx, t);
    var u := SetTimer(s, k.idx, t.(hasCallback := true)).(worker := Ready);
    forall j: nat | j < |u.slots| && j != k.idx && u.slots[j].timer.Some? ensures TimerInv(u, j, u.slots[j].timer.value) {
      assert TimerInv(s, j, s.slots[j].timer.value);
    }
  }

  /** The deadline moves by one period past the one just answered. */
  lemma MovedSchedule(t: Timer)
    requires ScheduleInv(t) && !t.hasCallback && t.period.Some?
    ensures ScheduleInv(t.(hasCallback := true, next := t.next + t.period.value))
  {
    var n := |t.charges|;
    assert Deadline(t.start, t.period, n) == Deadline(t.start, t.period, n - 1) + t.period.value by {
      assert n * t.period.value == (n - 1) * t.period.value + t.period.value;
    }
  }

  lemma FreshSchedule(t: Timer, start: int, period: Option<nat>)
    ensures ScheduleInv(t.(hasCallback := true, next := start, period := period, start := start, charges := []))
  {
  }

  /** Deallocating by the ticket's own id frees its slot. */
  lemma OwnIdFrees(s: State, k: Ticket)
    requires Back(s, k) && Unwrapped(s)
    ensures var u := Deallocated(s, PackId(Generation(k.birth), k.idx));
            Inv(u) && SameBirths(s, u) && u.slots[k.idx].timer.None? && k.idx in u.free && u.worker == Ready
  {
    var id := PackId(Generation(k.birth), k.idx);
    IdUnpacks(Generation(k.birth), k.idx);
    assert Names(s, id);
    var u := Deallocated(s, id);
    hide Names, PackId;
    assert k.idx !in s.free;
    assert u.free == s.free + [k.idx];
    forall j: nat | j < |u.slots| && u.slots[j].timer.Some? ensures TimerInv(u, j, u.slots[j].timer.value) {
      assert TimerInv(s, j, s.slots[j].timer.value);
    }
  }

  /** An id gives back the generation and the slot it was packed from. */
  lemma IdUnpacks(generation: nat, idx: nat)
    requires idx < WRAP
    ensures PackId(generation, idx) / WRAP == generation && PackId(generation, idx) % WRAP == idx
  {
  }

  lemma ReturnKeepsInv(s: State, result: Outcome)
    requires Inv(s) && Unwrapped(s) && s.worker.Calling?
    ensures Inv(AfterReturn(s, result)) && SameBirths(s, AfterReturn(s, result))
  {
    var k := s.worker.ticket;
    if s.stop {
      QuietChangeKeepsInv(s, AfterReturn(s, result));
    } else if !Live(s, k) {
      LostCallKeepsInv(s);
    } else {
      ReturnedIsBack(s);
      GenerationsTell(s, k);
      LiveReturnKeepsInv(s, result);
    }
  }

  /** A callback whose timer is gone is dropped; a later timer in the slot is not touched. */
  lemma LostCallKeepsInv(s: State)
    requires Inv(s) && Unwrapped(s) && s.worker.Calling? && !Live(s, s.worker.ticket)
    ensures Inv(s.(worker := Ready))
  {
    var u := s.(worker := Ready);
    GenerationsTell(s, s.worker.ticket);
    forall j: nat | j < |u.slots| && u.slots[j].timer.Some? ensures TimerInv(u, j, u.slots[j].timer.value) {
      assert TimerInv(s, j, s.slots[j].timer.value);
    }
  }

  lemma LiveReturnKeepsInv(s: State, result: Outcome)
    requires Inv(s) && Unwrapped(s) && s.worker.Calling? && !s.stop && Live(s, s.worker.ticket)
    requires s.worker.ticket.birth == s.slots[s.worker.ticket.idx].births
    requires var k := s.worker.ticket; var t := s.slots[k.idx].timer.value;
             && Back(SetTimer(s, k.idx, t.(hasCallback := true)).(worker := Ready), k)
             && ScheduleInv(t) && !t.hasCallback && !t.inFifo
    ensures Inv(AfterReturn(s, result)) && SameBirths(s, AfterReturn(s, result))
  {
    hide ScheduleInv, Deallocated, Inv;
    var k := s.worker.ticket;
    var t0 := s.slots[k.idx].timer.value;
    var t := t0.(hasCallback := true);
    var back := SetTimer(s, k.idx, t).(worker := Ready);
    match result {
      case Continue =>
        if t.period.None? {
          OwnIdFrees(back, k);
        } else {
          var moved := t.(next := t.next + t.period.value);
          MovedSchedule(t0);
          BackWith(back, k, moved);
          var u := SetTimer(back, k.idx, moved);
          if s.worker.catchUp + 1 < MAX_CATCHUP && t.enabled && moved.next <= s.now {
            FireKeepsInv(u, k, s.worker.catchUp + 1);
          }
        }
      case Disabled =>
        FreshSchedule(t.(enabled := false), t.next, t.period);
        BackWith(back, k, t.(enabled := false, start := t.next, charges := []));
      case Delete => OwnIdFrees(back, k);
      case RescheduleOneShot(delay) =>
        FreshSchedule(t, s.now + delay, None);
        BackWith(back, k, t.(next := s.now + delay, period := None, start := s.now + delay, charges := []));
      case RescheduleRecurring(every) =>
        FreshSchedule(t, t.next + every, Some(every));
        BackWith(back, k, t.(next := t.next + every, period := Some(every), start := t.next + every, charges := []));
    }
  }

  lemma StepKeepsInv(s: State, step: Step)
    requires Inv(s) && Possible(s, step) && Unwrapped(s)
    ensures Inv(Apply(s, step))
  {
    hide Inv, Unwrapped, Allocated, Deallocated, WithEnabled, AfterLook, AfterReturn;
    match step {
      case Tick(_) => SetClockKeepsInv(s, step);
      case Stop => SetClockKeepsInv(s, step);
      case AddOneShot(delay) => AllocatedKeepsInv(s, s.now + delay, None);
      case AddRecurring(at, every) => AllocatedKeepsInv(s, at, Some(every));
      case Remove(id) => DeallocatedKeepsInv(s, id);
      case Enable(id) => WithEnabledKeepsInv(s, id, true);
      case Disable(id) => WithEnabledKeepsInv(s, id, false);
      case Look(seen) => LookKeepsInv(s, seen);
      case Return(result) => ReturnKeepsInv(s, result);
    }
  }

  lemma SetClockKeepsInv(s: State, step: Step)
    requires Inv(s) && Possible(s, step) && (step.Tick? || step.Stop?)
    ensures Inv(Apply(s, step))
  {
    QuietChangeKeepsInv(s, Apply(s, step));
  }

  // ---- Whole runs ----------------------------------------------------------

  /** No slot of `s` has been allocated more often than the same slot of `t`. */
  ghost predicate BirthsGrow(s: State, t: State)
  {
    |s.slots| <= |t.slots| && forall i | 0 <= i < |s.slots| :: s.slots[i].births <= t.slots[i].births
  }

  lemma {:induction false} ScanGrows(s: State, n: nat, seen: int)
    requires n <= |s.slots|
    ensures BirthsGrow(s, Scanned(s, n, seen))
  {
    if n > 0 {
      ScanGrows(s, n - 1, seen);
    }
  }

  lemma LookGrows(s: State, seen: int)
    ensures BirthsGrow(s, AfterLook(s, seen))
  {
    var a := s.(worker := Asleep(None));
    ScanGrows(a, |s.slots|, seen);
    var u := Scanned(a, |s.slots|, seen);
    hide Scanned;
    assert u.fifo != [] ==> BirthsGrow(u, Popped(u));
  }

  lemma ReturnGrows(s: State, result: Outcome)
    requires s.worker.Calling?
    ensures BirthsGrow(s, AfterReturn(s, result))
  {
  }

  lemma StepGrows(s: State, step: Step)
    requires Possible(s, step)
    ensures BirthsGrow(s, Apply(s, step))
  {
    match step {
      case Look(seen) => LookGrows(s, seen);
      case Return(result) => ReturnGrows(s, result);
      case _ =>
    }
  }

  lemma {:induction false} UnwrappedBefore(s: State, steps: seq<Step>, t: State)
    requires Runs(s, steps, t) && Unwrapped(t)
    ensures Unwrapped(s)
    decreases |steps|
  {
    if steps != [] {
      var m := Apply(s, steps[0]);
      UnwrappedBefore(m, steps[1..], t);
      StepGrows(s, steps[0]);
      hide Apply;
    }
  }

  lemma {:induction false} ReachableInv(s: State, steps: seq<Step>, t: State)
    requires Inv(s) && Runs(s, steps, t) && Unwrapped(t)
    ensures Inv(t)
    decreases |steps|
  {
    hide Inv, Unwrapped;
    if steps != [] {
      UnwrappedBefore(s, steps, t);
      StepKeepsInv(s, steps[0]);
      ReachableInv(Apply(s, steps[0]), steps[1..], t);
    }
  }

  /** The manager reached `t` from its start, with no generation yet wrapped. */
  ghost predicate Reachable(now: int, steps: seq<Step>, t: State)
  {
    Runs(Init(now), steps, t) && Unwrapped(t)
  }

  lemma ReachableFromInit(now: int, steps: seq<Step>, t: State)
    requires Reachable(now, steps, t)
    ensures Inv(t)
  {
    assert Inv(Init(now));
    ReachableInv(Init(now), steps, t);
  }

  // ---- What every run guarantees -------------------------------------------

  /** How many queue entries are ticket `k`. */
  function Tickets(fifo: seq<Ticket>, k: Ticket): nat
  {
    multiset(fifo)[k]
  }

  lemma {:induction false} DistinctCount(fifo: seq<Ticket>, k: Ticket)
    requires forall i, j | 0 <= i < j < |fifo| :: fifo[i] != fifo[j]
    ensures Tickets(fifo, k) == if k in fifo then 1 else 0
  {
    if fifo != [] {
      var n := |fifo| - 1;
      var init := fifo[..n];
      assert fifo == init + [fifo[n]];
      DistinctCount(init, k);
      if k == fifo[n] {
        assert k !in init;
      }
    }
  }

  /**
   * The arena and the queue agree in every reachable state: the free list is
   * exactly the empty slots, each once; a live timer is marked queued exactly
   * when one queue entry is its own, and never has two; and its callback is
   * there exactly when the worker is not holding it.
   */
  lemma ArenaIsConsistent(now: int, steps: seq<Step>, t: State, i: nat)
    requires Reachable(now, steps, t) && i < |t.slots|
    ensures i in t.free <==> t.slots[i].timer.None?
    ensures forall j, k | 0 <= j < k < |t.free| :: t.free[j] != t.free[k]
    ensures t.slots[i].timer.Some? ==>
              var x, me := t.slots[i].timer.value, Ticket(i, t.slots[i].births);
              && Tickets(t.fifo, me) == (if x.inFifo then 1 else 0)
              && (x.hasCallback <==> Held(t.worker) != Some(me))
              && (x.inFifo ==> x.next <= t.now && x.hasCallback)
  {
    ReachableFromInit(now, steps, t);
    if t.slots[i].timer.Some? {
      assert TimerInv(t, i, t.slots[i].timer.value);
      DistinctCount(t.fifo, Ticket(i, t.slots[i].births));
    }
  }

  /**
   * An id issued at a slot's `birth`-th allocation acts on the slot's present
   * timer exactly when their generations agree: never on a later timer until
   * the 32-bit generation has come round a whole number of times.
   */
  lemma StaleIdsAreInert(s: State, idx: nat, birth: nat, on: bool)
    requires idx < |s.slots| && idx < WRAP && birth <= s.slots[idx].births
    ensures var id := PackId(Generation(birth), idx);
            && (Names(s, id) <==> s.slots[idx].timer.Some? && (s.slots[idx].births - birth) % 0x1_0000_0000 == 0)
            && (birth < s.slots[idx].births < birth + 0x1_0000_0000 ==> Deallocated(s, id) == s && WithEnabled(s, id, on) == s)
  {
    IdUnpacks(Generation(birth), idx);
    var b := s.slots[idx].births;
    assert b - birth == WRAP * (b / WRAP - birth / WRAP) + (b % WRAP - birth % WRAP);
  }

  /**
   * A recurring timer's firings since its last return other than `Continue`
   * answer the deadlines start, start + period, start + 2 period and so on,
   * none before its time, and its next deadline is the next of them: being
   * late never moves a deadline.
   */
  lemma DeadlinesDoNotDrift(now: int, steps: seq<Step>, t: State, i: nat)
    requires Reachable(now, steps, t) && i < |t.slots|
    requires t.slots[i].timer.Some? && t.slots[i].timer.value.period.Some?
    ensures var x := t.slots[i].timer.value; var p := x.period.value;
            && (forall j | 0 <= j < |x.charges| ::
                  x.charges[j].deadline == x.start + j * p && x.start + j * p <= x.charges[j].at)
            && x.next == x.start + (if x.hasCallback then |x.charges| else |x.charges| - 1) * p
  {
    ReachableFromInit(now, steps, t);
    assert TimerInv(t, i, t.slots[i].timer.value);
  }

  // ---- Calls ---------------------------------------------------------------

  /** The firings on record for the timer of slot `i`. */
  function ChargesOf(s: State, i: nat): seq<Charge>
  {
    if i < |s.slots| && s.slots[i].timer.Some? then s.slots[i].timer.value.charges else []
  }

  /** The step hands a callback to the worker. */
  predicate Begins(s: State, step: Step)
  {
    Possible(s, step) && (step.Look? || step.Return?) && Apply(s, step).worker.Calling?
  }

  ghost predicate SameCharges(s: State, t: State)
  {
    forall i: nat :: ChargesOf(t, i) == ChargesOf(s, i)
  }

  /** Slot `k` has one more firing on record, made at time `now`; no other has. */
  ghost predicate OneCharge(s: State, t: State, k: nat, now: int)
  {
    && (exists due :: ChargesOf(t, k) == ChargesOf(s, k) + [Charge(due, now)])
    && forall i: nat | i != k :: ChargesOf(t, i) == ChargesOf(s, i)
  }

  lemma {:induction false} ScanKeepsCharges(s: State, n: nat, seen: int)
    requires n <= |s.slots|
    ensures SameCharges(s, Scanned(s, n, seen)) && Scanned(s, n, seen).now == s.now
  {
    if n > 0 {
      ScanKeepsCharges(s, n - 1, seen);
      assert SameCharges(Scanned(s, n - 1, seen), Scanned(s, n, seen));
    }
  }

  lemma FireCharges(s: State, k: Ticket, catchUp: nat)
    requires k.idx < |s.slots| && s.slots[k.idx].timer.Some?
    ensures OneCharge(s, Fire(s, k, catchUp), k.idx, s.now)
  {
    var t := s.slots[k.idx].timer.value;
    assert ChargesOf(Fire(s, k, catchUp), k.idx) == ChargesOf(s, k.idx) + [Charge(t.next, s.now)];
  }

  lemma PopCharges(s: State)
    requires s.fifo != [] && s.worker.Asleep?
    ensures if Popped(s).worker.Calling?
            then Popped(s).worker.catchUp == 0 && OneCharge(s, Popped(s), Popped(s).worker.ticket.idx, s.now)
            else SameCharges(s, Popped(s))
  {
    var k := s.fifo[0];
    var u := s.(fifo := s.fifo[1..]);
    assert SameCharges(s, u);
    if Live(s, k) {
      FireCharges(u, k, 0);
    }
  }

  /** A look that begins a call begins its dispatch, with one firing put on record. */
  lemma LookCharges(s: State, seen: int)
    requires Possible(s, Look(seen))
    ensures var t := AfterLook(s, seen);
            if t.worker.Calling? then t.worker.catchUp == 0 && OneCharge(s, t, t.worker.ticket.idx, s.now)
            else SameCharges(s, t)
  {
    if !s.stop {
      var a := s.(worker := Asleep(None));
      ScanKeepsCharges(a, |s.slots|, seen);
      ScanKeepsWorker(a, |s.slots|, seen);
      var u := Scanned(a, |s.slots|, seen);
      hide Scanned, Popped;
      assert SameCharges(s, u);
      if u.fifo != [] {
        PopCharges(u);
      }
    }
  }

  lemma {:induction false} ScanKeepsWorker(s: State, n: nat, seen: int)
    requires n <= |s.slots|
    ensures Scanned(s, n, seen).worker == s.worker
  {
    if n > 0 {
      ScanKeepsWorker(s, n - 1, seen);
    }
  }

  /** A return either calls the same timer again, one catch-up later, or ends the dispatch. */
  lemma ReturnCharges(s: State, result: Outcome)
    requires s.worker.Calling?
    ensures var t := AfterReturn(s, result);
            if t.worker.Calling?
            then t.worker == Calling(s.worker.ticket, s.worker.catchUp + 1) && OneCharge(s, t, s.worker.ticket.idx, s.now)
            else forall i: nat :: ChargesOf(t, i) == ChargesOf(s, i) || ChargesOf(t, i) == []
  {
    var k := s.worker.ticket;
    if result.Continue? && !s.stop && Live(s, k) && s.slots[k.idx].timer.value.period.Some? {
      var t := s.slots[k.idx].timer.value;
      var u := SetTimer(s, k.idx, t.(hasCallback := true, next := t.next + t.period.value)).(worker := Ready);
      assert SameCharges(s, u);
      FireCharges(u, k, s.worker.catchUp + 1);
    }
  }

  /**
   * The record is of calls: a step that hands a callback to the worker puts
   * exactly one firing on record, at the present time, for the timer called; no
   * other step puts any there.
   */
  lemma EveryChargeIsACall(s: State, step: Step)
    requires Possible(s, step)
    ensures if Begins(s, step) then OneCharge(s, Apply(s, step), Apply(s, step).worker.ticket.idx, s.now)
            else forall i: nat :: ChargesOf(Apply(s, step), i) == ChargesOf(s, i) || ChargesOf(Apply(s, step), i) == []
  {
    match step {
      case Look(seen) => LookCharges(s, seen);
      case Return(result) => ReturnCharges(s, result);
      case _ =>
    }
  }

  // ---- Dispatches ----------------------------------------------------------

  function Returns(steps: seq<Step>): nat
  {
    if steps == [] then 0 else (if steps[0].Return? then 1 else 0) + Returns(steps[1..])
  }

  /** The callbacks a run hands to the worker. */
  function Calls(s: State, steps: seq<Step>): nat
    decreases |steps|
  {
    if steps == [] || !Possible(s, steps[0]) then 0
    else (if Begins(s, steps[0]) then 1 else 0) + Calls(Apply(s, steps[0]), steps[1..])
  }

  predicate NoLook(steps: seq<Step>)
  {
    forall i | 0 <= i < |steps| :: !steps[i].Look?
  }

  /** Until the worker looks again its calls and their returns are numbered by the catch-ups left. */
  lemma {:induction false} CallsLeft(s: State, steps: seq<Step>, t: State)
    requires Inv(s) && Runs(s, steps, t) && Unwrapped(t) && NoLook(steps)
    ensures Returns(steps) <= if s.worker.Calling? then MAX_CATCHUP - s.worker.catchUp else 0
    ensures Calls(s, steps) <= if s.worker.Calling? then MAX_CATCHUP - 1 - s.worker.catchUp else 0
    decreases |steps|
  {
    if steps != [] {
      UnwrappedBefore(s, steps, t);
      StepKeepsInv(s, steps[0]);
      assert !steps[0].Look?;
      CallsLeft(Apply(s, steps[0]), steps[1..], t);
      if steps[0].Return? {
        ReturnCharges(s, steps[0].result);
        hide AfterReturn;
      }
      hide FreeInv, FifoInv, TimersInv;
    }
  }

  /**
   * One dispatch, from the look that begins it to the last step before the next
   * look, whatever the callers do meanwhile: at most eight calls, and no more
   * returns.
   */
  lemma DispatchIsBounded(now: int, before: seq<Step>, s: State, seen: int, steps: seq<Step>, t: State)
    requires Runs(Init(now), before, s) && Runs(s, [Look(seen)] + steps, t) && Unwrapped(t) && NoLook(steps)
    ensures Calls(s, [Look(seen)] + steps) <= 8
    ensures Returns(steps) <= 8
  {
    var run := [Look(seen)] + steps;
    assert run[1..] == steps;
    UnwrappedBefore(s, run, t);
    assert Inv(Init(now));
    ReachableInv(Init(now), before, s);
    StepKeepsInv(s, Look(seen));
    LookCharges(s, seen);
    hide Inv, Unwrapped, AfterLook;
    CallsLeft(Apply(s, Look(seen)), steps, t);
  }

  /** A one-shot timer whose callback returns `Continue` has fired once, on time, and its slot is freed. */
  lemma OneShotFiresOnce(now: int, steps: seq<Step>, t: State)
    requires Reachable(now, steps, t) && t.worker.Calling? && !t.stop && Live(t, t.worker.ticket)
    requires t.slots[t.worker.ticket.idx].timer.value.period.None?
    ensures var i := t.worker.ticket.idx; var u := AfterReturn(t, Continue); var x := t.slots[i].timer.value;
            && |x.charges| == 1 && x.charges[0].deadline == x.start <= x.charges[0].at
            && u.slots[i].timer.None? && i in u.free && u.worker == Ready
  {
    ReachableFromInit(now, steps, t);
    ReturnedIsBack(t);
    var k := t.worker.ticket;
    var x := t.slots[k.idx].timer.value;
    var back := SetTimer(t, k.idx, x.(hasCallback := true)).(worker := Ready);
    OwnIdFrees(back, k);
    OneShotCharge(x);
  }

  lemma OneShotCharge(x: Timer)
    requires ScheduleInv(x) && x.period.None? && !x.hasCallback
    ensures |x.charges| == 1 && x.charges[0].deadline == x.start <= x.charges[0].at
  {
    assert x.charges[0].deadline == Deadline(x.start, x.period, 0);
  }

  /**
   * What a callback asks for happens to its own timer: a disabled one stays,
   * switched off; a deleted one is freed; a one-shot is due after the delay
   * from now; a recurring one is due one new period after the deadline it has
   * just answered.  Whatever it asks, every other slot is as it was.
   */
  lemma OutcomesDoAsAsked(now: int, steps: seq<Step>, t: State, result: Outcome)
    requires Reachable(now, steps, t) && t.worker.Calling? && !t.stop && Live(t, t.worker.ticket)
    ensures t.slots[t.worker.ticket.idx].timer.value.charges != []
    ensures var i := t.worker.ticket.idx; var u := AfterReturn(t, result);
            var x := t.slots[i].timer.value;
            var answered := x.charges[|x.charges| - 1].deadline;
            && i < |u.slots| == |t.slots| && (forall j | 0 <= j < |t.slots| && j != i :: u.slots[j] == t.slots[j])
            && u.fifo == t.fifo
            && (result.Delete? ==> u.slots[i].timer.None? && u.free == t.free + [i])
            && (!result.Delete? && !result.Continue? ==>
                  && u.slots[i].timer.Some? && u.free == t.free
                  && var y := u.slots[i].timer.value;
                     && y.hasCallback && y.enabled == (x.enabled && !result.Disabled?)
                     && (result.Disabled? ==> y.next == answered && y.period == x.period)
                     && (result.RescheduleOneShot? ==> y.next == t.now + result.delay && y.period == None)
                     && (result.RescheduleRecurring? ==> y.next == answered + result.every && y.period == Some(result.every)))
  {
    ReachableFromInit(now, steps, t);
    ReturnedIsBack(t);
    var k := t.worker.ticket;
    var x := t.slots[k.idx].timer.value;
    LastChargeIsNext(x);
    hide Inv, Reachable, ScheduleInv;
    IdUnpacks(Generation(k.birth), k.idx);
  }

  lemma LastChargeIsNext(x: Timer)
    requires ScheduleInv(x) && !x.hasCallback
    ensures x.charges != [] && x.charges[|x.charges| - 1].deadline == x.next
  {
  }

  /** A queued ticket whose timer has been replaced is dropped, and the newcomer is neither called nor changed. */
  lemma StaleTicketIsDropped(now: int, steps: seq<Step>, t: State)
    requires Reachable(now, steps, t) && t.fifo != []
    requires t.fifo[0].idx < |t.slots| ==> t.slots[t.fifo[0].idx].births != t.fifo[0].birth
    ensures Popped(t) == t.(fifo := t.fifo[1..])
  {
    ReachableFromInit(now, steps, t);
    assert t.fifo[0] in t.fifo;
    GenerationsTell(t, t.fifo[0]);
  }

  /** While a callback runs unlocked, removing its timer and reusing the slot shields the newcomer. */
  lemma NewcomerIsUntouched(now: int, steps: seq<Step>, t: State, result: Outcome)
    requires Reachable(now, steps, t) && t.worker.Calling? && !t.stop
    requires t.worker.ticket.idx < |t.slots| && t.slots[t.worker.ticket.idx].births != t.worker.ticket.birth
    ensures AfterReturn(t, result) == t.(worker := Ready)
  {
    ReachableFromInit(now, steps, t);
    GenerationsTell(t, t.worker.ticket);
  }
}
