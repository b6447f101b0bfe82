/**
 * What each operation does to the timers, said of their fields: who is queued
 * when, what callers' requests change and leave alone, when a callback runs
 * again, and that a disabled timer is not called.
 */
module TimerLaws {
  import opened Basics
  import opened TimerSteps
  import opened TimerSafety
  import opened TimerSleep

  // ---- Expiry --------------------------------------------------------------

  /** An enabled timer, one-shot or recurring, not yet queued, whose deadline is `seen` or before. */
  predicate Expired(slot: Slot, seen: int)
  {
    Pending(slot) && slot.timer.value.next <= seen
  }

  /** The entries `u` has queued behind those of `s` are those of the first `n` slots' expired timers, in slot order. */
  ghost predicate QueuedInOrder(s: State, u: State, n: nat, seen: int)
  {
    && s.fifo <= u.fifo
    && (forall j | |s.fifo| <= j < |u.fifo| ::
          && u.fifo[j].idx < n && u.fifo[j].idx < |s.slots| && Expired(s.slots[u.fifo[j].idx], seen)
          && u.fifo[j].birth == s.slots[u.fifo[j].idx].births)
    && (forall j, k | |s.fifo| <= j < k < |u.fifo| :: u.fifo[j].idx < u.fifo[k].idx)
    && forall i: nat | i < n && i < |s.slots| && Expired(s.slots[i], seen) :: Ticket(i, s.slots[i].births) in u.fifo
  }

  /** Only the queued mark of the first `n` slots' expired timers has changed. */
  ghost predicate MarkedOnly(s: State, u: State, n: nat, seen: int)
  {
    && |u.slots| == |s.slots|
    && u == s.(slots := u.slots, fifo := u.fifo)
    && forall i: nat | i < |s.slots| ::
         if i < n && Expired(s.slots[i], seen)
         then u.slots[i] == s.slots[i].(timer := Some(s.slots[i].timer.value.(inFifo := true)))
         else u.slots[i] == s.slots[i]
  }

  lemma {:induction false} ScanMarksOnly(s: State, n: nat, seen: int)
    requires n <= |s.slots|
    ensures MarkedOnly(s, Scanned(s, n, seen), n, seen)
  {
    if n > 0 {
      ScanMarksOnly(s, n - 1, seen);
      var before := Scanned(s, n - 1, seen);
      assert before.slots[n - 1] == s.slots[n - 1];
      assert Scanned(s, n, seen) == Marked(before, n - 1, seen);
      hide Scanned;
    }
  }

  /** The scan queues exactly the newly expired, in slot order, behind what was queued. */
  lemma {:induction false} ScanQueuesTheExpired(s: State, n: nat, seen: int)
    requires n <= |s.slots|
    ensures QueuedInOrder(s, Scanned(s, n, seen), n, seen)
  {
    if n > 0 {
      ScanQueuesTheExpired(s, n - 1, seen);
      ScanMarksOnly(s, n - 1, seen);
      var before, u := Scanned(s, n - 1, seen), Scanned(s, n, seen);
      assert before.slots[n - 1] == s.slots[n - 1];
      assert u == Marked(before, n - 1, seen);
      hide Scanned, MarkedOnly;
      OneMoreInOrder(s, before, u, n, seen);
    }
  }

  lemma OneMoreInOrder(s: State, before: State, u: State, n: nat, seen: int)
    requires 0 < n <= |s.slots| == |before.slots| && before.slots[n - 1] == s.slots[n - 1]
    requires QueuedInOrder(s, before, n - 1, seen) && u == Marked(before, n - 1, seen)
    ensures QueuedInOrder(s, u, n, seen)
  {
    var k := Ticket(n - 1, s.slots[n - 1].births);
    assert u.fifo == if Expired(s.slots[n - 1], seen) then before.fifo + [k] else before.fifo;
    hide Marked;
    forall i: nat | i < n && Expired(s.slots[i], seen) ensures Ticket(i, s.slots[i].births) in u.fifo {
      if i < n - 1 {
        assert Ticket(i, s.slots[i].births) in before.fifo;
      }
    }
  }

  /**
   * Every look finds every expired timer: afterwards it waits in the queue or is
   * being called, be it one-shot or recurring.
   */
  lemma ExpiredIsQueuedOrCalled(s: State, seen: int, i: nat)
    requires Inv(s) && Unwrapped(s) && Possible(s, Look(seen)) && !s.stop
    requires i < |s.slots| && Expired(s.slots[i], seen)
    ensures var k, t := Ticket(i, s.slots[i].births), Apply(s, Look(seen));
            k in t.fifo || t.worker == Calling(k, 0)
  {
    var a := s.(worker := Asleep(None));
    ScanQueuesTheExpired(a, |s.slots|, seen);
    ScanMarksOnly(a, |s.slots|, seen);
    LookTakesTheFront(s, seen);
    FrontIsWhat(s, seen);
    var u := QueueSeen(s, seen);
    var k := Ticket(i, s.slots[i].births);
    assert k in u.fifo;
    if u.fifo[0] == k {
      FrontIsCalled(s, seen);
      assert Callable(u, k);
    } else {
      hide QueueSeen, AfterLook;
      assert k in u.fifo[1..];
    }
  }

  lemma FrontIsWhat(s: State, seen: int)
    ensures QueueSeen(s, seen) == Scanned(s.(worker := Asleep(None)), |s.slots|, seen)
  {
  }

  /** And nothing else: a ticket that a look adds to the queue, or calls unqueued, is an expired timer's. */
  lemma OnlyExpiredAreQueued(s: State, seen: int, k: Ticket)
    requires Inv(s) && Unwrapped(s) && Possible(s, Look(seen)) && !s.stop && k !in s.fifo
    requires k in Apply(s, Look(seen)).fifo || Apply(s, Look(seen)).worker == Calling(k, 0)
    ensures k.idx < |s.slots| && k.birth == s.slots[k.idx].births && Expired(s.slots[k.idx], seen)
  {
    var a := s.(worker := Asleep(None));
    ScanQueuesTheExpired(a, |s.slots|, seen);
    LookTakesTheFront(s, seen);
    FrontIsWhat(s, seen);
    CalledIsTheFront(s, seen);
    var u := QueueSeen(s, seen);
    hide QueueSeen, AfterLook;
    assert k in u.fifo;
    assert forall j | 0 <= j < |s.fifo| :: u.fifo[j] == s.fifo[j] && u.fifo[j] in s.fifo;
    var j :| 0 <= j < |u.fifo| && u.fifo[j] == k;
  }

  lemma CalledIsTheFront(s: State, seen: int)
    requires !s.stop
    ensures AfterLook(s, seen).worker.Calling? ==>
              QueueSeen(s, seen).fifo != [] && AfterLook(s, seen).worker.ticket == QueueSeen(s, seen).fifo[0]
  {
    LookPops(s, seen);
    ScanKeepsWorker(s.(worker := Asleep(None)), |s.slots|, seen);
    FrontIsWhat(s, seen);
    var u := QueueSeen(s, seen);
    hide QueueSeen, Scanned;
  }

  // ---- Callers' requests ---------------------------------------------------

  /** The timer an id names: low half the slot, high half the generation. */
  predicate IsNamed(s: State, id: nat)
  {
    var i := id % 0x1_0000_0000;
    i < |s.slots| && s.slots[i].births % 0x1_0000_0000 == id / 0x1_0000_0000 && s.slots[i].timer.Some?
  }

  /** `t` is `s` with `timer` in slot `i` and nothing else changed. */
  ghost predicate OnlyTimer(s: State, t: State, i: nat, timer: Option<Timer>)
  {
    && i < |s.slots| && t == s.(slots := t.slots) && |t.slots| == |s.slots|
    && t.slots[i] == Slot(s.slots[i].births, timer)
    && forall j | 0 <= j < |s.slots| && j != i :: t.slots[j] == s.slots[j]
  }

  /** Disabling switches the named timer off, enabling on; nothing else changes, and a stale id changes nothing. */
  lemma SwitchesDoAsAsked(s: State, id: nat)
    requires FreeInRange(s)
    ensures var off, on := Apply(s, Disable(id)), Apply(s, Enable(id)); var i := id % 0x1_0000_0000;
            if IsNamed(s, id)
            then && OnlyTimer(s, off, i, Some(s.slots[i].timer.value.(enabled := false)))
                 && OnlyTimer(s, on, i, Some(s.slots[i].timer.value.(enabled := true)))
            else off == s && on == s
  {
  }

  /** Removing empties the named slot and puts it at the end of the free list. */
  lemma RemoveDoesAsAsked(s: State, id: nat)
    requires FreeInRange(s)
    ensures var t := Apply(s, Remove(id)); var i := id % 0x1_0000_0000;
            if IsNamed(s, id) then t.free == s.free + [i] && OnlyTimer(s, t.(free := s.free), i, None) else t == s
  {
  }

  /** `t` is `s` with a new timer in slot `i`: due at `next`, enabled, not queued, its callback in place. */
  ghost predicate Added(s: State, t: State, i: nat, next: int, period: Option<nat>)
  {
    && i < |t.slots| && t.slots[i].timer.Some?
    && t.slots[i].births == (if i < |s.slots| then s.slots[i].births else 0) + 1
    && (var x := t.slots[i].timer.value;
        && x.next == next && x.period == period && x.enabled && !x.inFifo && x.hasCallback
        && x.start == next && x.charges == [])
    && |s.slots| <= |t.slots| && (forall j | 0 <= j < |s.slots| && j != i :: t.slots[j] == s.slots[j])
    && t == s.(slots := t.slots, free := t.free)
  }

  /**
   * A new one-shot is due after its delay and has no period; a new recurring
   * timer is first due when asked and has its period.  Either takes the slot
   * freed last, or else a slot of its own, and leaves all others alone.
   */
  lemma NewTimersAreAsAsked(s: State, delay: nat, at: int, every: nat)
    requires FreeInRange(s)
    ensures var once, again := Apply(s, AddOneShot(delay)), Apply(s, AddRecurring(at, every));
            if s.free == []
            then && |once.slots| == |again.slots| == |s.slots| + 1 && once.free == again.free == []
                 && Added(s, once, |s.slots|, s.now + delay, None) && Added(s, again, |s.slots|, at, Some(every))
            else var n := |s.free| - 1;
                 && |once.slots| == |again.slots| == |s.slots| && once.free == again.free == s.free[..n]
                 && Added(s, once, s.free[n], s.now + delay, None) && Added(s, again, s.free[n], at, Some(every))
  {
  }

  /** The clock moves only when it is told, and then to the time told. */
  lemma ClockMovesAsTold(s: State, t: int)
    requires Possible(s, Tick(t))
    ensures Apply(s, Tick(t)) == s.(now := t)
  {
  }

  /** Once told to stop the worker halts at its next locked section, calls nothing and changes nothing else. */
  lemma StopHaltsTheWorker(s: State, seen: int, result: Outcome)
    requires FreeInRange(s)
    ensures Apply(s, Stop) == s.(stop := true)
    ensures s.stop && Possible(s, Look(seen)) ==> Apply(s, Look(seen)) == s.(worker := Halted(None))
    ensures s.stop && s.worker.Calling? ==> Apply(s, Return(result)) == s.(worker := Halted(Some(s.worker.ticket)))
  {
  }

  // ---- Catching up ---------------------------------------------------------

  /**
   * A recurring timer's callback that continues moves the deadline on by one
   * period, and is called again at once exactly if that deadline too has
   * passed, the timer is enabled and this dispatch has made fewer than eight
   * calls; otherwise it is put back.
   */
  lemma CatchesUpExactly(now: int, steps: seq<Step>, t: State)
    requires Reachable(now, steps, t) && t.worker.Calling? && !t.stop && Live(t, t.worker.ticket)
    requires t.slots[t.worker.ticket.idx].timer.value.period.Some?
    ensures Possible(t, Return(Continue))
    ensures var k, u := t.worker.ticket, Apply(t, Return(Continue));
            var x := t.slots[k.idx].timer.value; var next := x.next + x.period.value;
            var again := t.worker.catchUp + 1 < 8 && x.enabled && next <= t.now;
            && u.worker == (if again then Calling(k, t.worker.catchUp + 1) else Ready)
            && OnlyTimer(t, u.(worker := t.worker), k.idx,
                         Some(x.(next := next, hasCallback := !again, inFifo := u.slots[k.idx].timer.value.inFifo,
                                 charges := if again then x.charges + [Charge(next, t.now)] else x.charges)))
            && !u.slots[k.idx].timer.value.inFifo
  {
    ReachableFromInit(now, steps, t);
    FreeIsInRange(t);
    GenerationsTell(t, t.worker.ticket);
    assert TimerInv(t, t.worker.ticket.idx, t.slots[t.worker.ticket.idx].timer.value);
    hide Inv, Reachable, ScheduleInv;
  }

  // ---- A disabled timer is not called --------------------------------------

  /** The `birth`-th timer of slot `i` is switched off, or no longer there. */
  predicate Silent(s: State, i: nat, birth: nat)
  {
    && i < |s.slots| && birth <= s.slots[i].births
    && (s.slots[i].births == birth && s.slots[i].timer.Some? ==> !s.slots[i].timer.value.enabled)
  }

  /** The step hands the callback of the `birth`-th timer of slot `i` to the worker. */
  predicate Hands(s: State, step: Step, i: nat, birth: nat)
  {
    Begins(s, step) && Apply(s, step).worker.ticket == Ticket(i, birth)
  }

  lemma ScanKeepsSilent(s: State, n: nat, seen: int, i: nat, birth: nat)
    requires n <= |s.slots| && Silent(s, i, birth)
    ensures Silent(Scanned(s, n, seen), i, birth)
  {
    ScanMarksOnly(s, n, seen);
    hide Scanned;
  }

  lemma LookKeepsSilent(s: State, seen: int, i: nat, birth: nat)
    requires Unwrapped(s) && Possible(s, Look(seen)) && Silent(s, i, birth)
    ensures Silent(AfterLook(s, seen), i, birth)
    ensures AfterLook(s, seen).worker.Calling? ==> AfterLook(s, seen).worker.ticket != Ticket(i, birth)
  {
    if !s.stop {
      var a := s.(worker := Asleep(None));
      ScanKeepsSilent(a, |s.slots|, seen, i, birth);
      ScanMarksOnly(a, |s.slots|, seen);
      ScanKeepsWorker(a, |s.slots|, seen);
      LookPops(s, seen);
      FrontIsWhat(s, seen);
      var u := QueueSeen(s, seen);
      hide QueueSeen, Scanned, AfterLook;
      assert Unwrapped(u) by {
        forall j | 0 <= j < |u.slots| ensures u.slots[j].births < WRAP {
          assert u.slots[j].births == s.slots[j].births;
        }
      }
      if u.fifo != [] {
        PopKeepsSilent(u, i, birth);
      }
    }
  }

  lemma PopKeepsSilent(u: State, i: nat, birth: nat)
    requires Unwrapped(u) && u.fifo != [] && u.worker == Asleep(None) && Silent(u, i, birth)
    ensures Silent(Popped(u), i, birth)
    ensures Popped(u).worker.Calling? ==> Popped(u).worker.ticket != Ticket(i, birth)
  {
    if u.fifo[0] == Ticket(i, birth) {
      GenerationsTell(u, u.fifo[0]);
    }
  }

  lemma ReturnKeepsSilent(s: State, result: Outcome, i: nat, birth: nat)
    requires Unwrapped(s) && s.worker.Calling? && Silent(s, i, birth)
    ensures Silent(AfterReturn(s, result), i, birth)
    ensures AfterReturn(s, result).worker.Calling? ==> AfterReturn(s, result).worker.ticket != Ticket(i, birth)
  {
    var k := s.worker.ticket;
    if k == Ticket(i, birth) {
      GenerationsTell(s, k);
    }
  }

  lemma StepKeepsSilent(s: State, step: Step, i: nat, birth: nat)
    requires Unwrapped(s) && Possible(s, step) && Silent(s, i, birth) && i < 0x1_0000_0000
    requires step != Enable(birth % 0x1_0000_0000 * 0x1_0000_0000 + i)
    ensures Silent(Apply(s, step), i, birth) && !Hands(s, step, i, birth)
  {
    match step {
      case Look(seen) => LookKeepsSilent(s, seen, i, birth);
      case Return(result) => ReturnKeepsSilent(s, result, i, birth);
      case Enable(id) => SwitchesDoAsAsked(s, id);
      case Disable(id) => SwitchesDoAsAsked(s, id);
      case Remove(id) => RemoveDoesAsAsked(s, id);
      case _ =>
    }
  }

  /** Which of a run's steps hand that callback to the worker. */
  predicate HandsSomewhere(s: State, steps: seq<Step>, i: nat, birth: nat)
    decreases |steps|
  {
    steps != [] && Possible(s, steps[0])
    && (Hands(s, steps[0], i, birth) || HandsSomewhere(Apply(s, steps[0]), steps[1..], i, birth))
  }

  lemma {:induction false} SilentThroughout(s: State, steps: seq<Step>, t: State, i: nat, birth: nat)
    requires Runs(s, steps, t) && Unwrapped(t) && Silent(s, i, birth) && i < 0x1_0000_0000
    requires Enable(birth % 0x1_0000_0000 * 0x1_0000_0000 + i) !in steps
    ensures Silent(t, i, birth) && !HandsSomewhere(s, steps, i, birth)
    decreases |steps|
  {
    if steps != [] {
      UnwrappedBefore(s, steps, t);
      StepKeepsSilent(s, steps[0], i, birth);
      hide Unwrapped, Silent, Hands, Apply;
      SilentThroughout(Apply(s, steps[0]), steps[1..], t, i, birth);
    }
  }

  lemma IdIsItsParts(id: nat, birth: nat)
    requires birth % 0x1_0000_0000 == id / 0x1_0000_0000
    ensures birth % 0x1_0000_0000 * 0x1_0000_0000 + id % 0x1_0000_0000 == id && id % 0x1_0000_0000 < 0x1_0000_0000
  {
  }

  lemma DisabledIsSilent(s: State, id: nat)
    requires IsNamed(s, id) && Possible(s, Disable(id))
    ensures var i := id % 0x1_0000_0000; var birth := s.slots[i].births;
            Silent(Apply(s, Disable(id)), i, birth) && !Hands(s, Disable(id), i, birth)
  {
    SwitchesDoAsAsked(s, id);
    hide Apply, IsNamed;
  }

  /**
   * From the moment a timer is disabled until its id is enabled again its
   * callback is handed to the worker by no step: not from a ticket already
   * queued, not as a catch-up of a call in progress, and not after its slot
   * has gone to another timer.
   */
  lemma DisabledIsNotCalled(s: State, id: nat, steps: seq<Step>, t: State)
    requires IsNamed(s, id) && Runs(s, [Disable(id)] + steps, t) && Unwrapped(t) && Enable(id) !in steps
    ensures !HandsSomewhere(s, [Disable(id)] + steps, id % 0x1_0000_0000, s.slots[id % 0x1_0000_0000].births)
  {
    hide Apply, Silent, Unwrapped, Hands;
    FirstStepPossible(s, Disable(id), steps, t);
    DisabledIsSilent(s, id);
    IdIsItsParts(id, s.slots[id % 0x1_0000_0000].births);
    OneStepThenSilent(s, Disable(id), steps, t, id % 0x1_0000_0000, s.slots[id % 0x1_0000_0000].births);
  }

  lemma FirstStepPossible(s: State, step: Step, steps: seq<Step>, t: State)
    requires Runs(s, [step] + steps, t)
    ensures Possible(s, step)
  {
  }

  lemma OneStepThenSilent(s: State, step: Step, steps: seq<Step>, t: State, i: nat, birth: nat)
    requires Possible(s, step) && Runs(s, [step] + steps, t) && Unwrapped(t) && i < 0x1_0000_0000
    requires Silent(Apply(s, step), i, birth) && !Hands(s, step, i, birth)
    requires Enable(birth % 0x1_0000_0000 * 0x1_0000_0000 + i) !in steps
    ensures !HandsSomewhere(s, [step] + steps, i, birth)
  {
    hide Apply, Silent, Unwrapped, Hands, Possible;
    assert ([step] + steps)[1..] == steps;
    SilentThroughout(Apply(s, step), steps, t, i, birth);
  }
}
