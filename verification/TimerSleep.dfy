/**
 * When the timer worker goes to sleep, and what it sleeps through.
 *
 * The wake-up time leaves out queued timers, on the ground that the worker only
 * sleeps with an empty queue.  It also sleeps after taking a ticket whose timer
 * has meanwhile been removed or disabled, and then leaves the rest queued.
 */
module TimerSleep {
  import opened Basics
  import opened TimerSteps
  import opened TimerSafety

  /** An enabled timer that is not queued: one the wake-up time counts. */
  predicate Pending(slot: Slot)
  {
    slot.timer.Some? && slot.timer.value.enabled && !slot.timer.value.inFifo
  }

  /** An enabled timer that has expired and waits in the queue. */
  predicate Waiting(slot: Slot)
  {
    slot.timer.Some? && slot.timer.value.enabled && slot.timer.value.inFifo
  }

  /** The wake-up time is the earliest deadline of the pending timers. */
  lemma {:induction false} WakeupIsEarliest(slots: seq<Slot>)
    ensures Wakeup(slots).None? <==> forall i | 0 <= i < |slots| :: !Pending(slots[i])
    ensures forall i | 0 <= i < |slots| && Pending(slots[i]) ::
              Wakeup(slots).Some? && Wakeup(slots).value <= slots[i].timer.value.next
    ensures Wakeup(slots).Some? ==>
              exists i :: 0 <= i < |slots| && Pending(slots[i]) && slots[i].timer.value.next == Wakeup(slots).value
  {
    if slots != [] {
      var n := |slots| - 1;
      var init := slots[..n];
      WakeupIsEarliest(init);
      assert forall i | 0 <= i < n :: init[i] == slots[i];
      if Wakeup(slots).Some? {
        if Wakeup(slots) == Wakeup(init) {
          var i :| 0 <= i < |init| && Pending(init[i]) && init[i].timer.value.next == Wakeup(init).value;
          assert Pending(slots[i]) && slots[i].timer.value.next == Wakeup(slots).value;
        } else {
          assert Pending(slots[n]);
        }
      }
    }
  }

  /** The ticket would be called if it were at the front. */
  predicate Callable(s: State, k: Ticket)
  {
    Live(s, k) && s.slots[k.idx].timer.value.enabled
  }

  /** The queue as the worker finds it, newly expired timers added. */
  function QueueSeen(s: State, seen: int): State
  {
    Scanned(s.(worker := Asleep(None)), |s.slots|, seen)
  }

  /**
   * The worker sleeps exactly when the queue it finds is empty or headed by a
   * ticket it cannot call, and then some enabled, expired timer is left waiting
   * exactly when one behind that head could have been called.
   */
  lemma SleepsExactly(s: State, seen: int)
    requires Inv(s) && Unwrapped(s) && Possible(s, Look(seen)) && !s.stop
    ensures var u, t := QueueSeen(s, seen), AfterLook(s, seen);
            && (t.worker.Asleep? <==> u.fifo == [] || !Callable(u, u.fifo[0]))
            && (t.worker.Asleep? ==>
                  ((exists i :: 0 <= i < |t.slots| && Waiting(t.slots[i]))
                   <==> exists j :: 1 <= j < |u.fifo| && Callable(u, u.fifo[j])))
  {
    var a := s.(worker := Asleep(None));
    QuietChangeKeepsInv(s, a);
    ScannedKeepsInv(a, |s.slots|, seen);
    LookKeepsInv(s, seen);
    var u, t := QueueSeen(s, seen), AfterLook(s, seen);
    hide QueueSeen, Scanned;
    LookPops(s, seen);
    if u.fifo != [] {
      HeadCallable(u);
    }
    if t.worker.Asleep? {
      WaitingAreQueued(t);
      if u.fifo == [] {
        assert t.fifo == [];
      } else {
        CallableBehind(u, t);
      }
    }
  }

  lemma LookPops(s: State, seen: int)
    requires !s.stop
    ensures var u, t := QueueSeen(s, seen), AfterLook(s, seen);
            var v := if u.fifo == [] then u else Popped(u);
            t == if v.worker.Asleep? then v.(worker := Asleep(Wakeup(v.slots))) else v
  {
  }

  /** The same timers are there, each enabled as before. */
  ghost predicate SameSwitches(u: State, t: State)
  {
    && SameBirths(u, t)
    && forall i | 0 <= i < |u.slots| ::
         && (u.slots[i].timer.Some? <==> t.slots[i].timer.Some?)
         && (u.slots[i].timer.Some? ==> u.slots[i].timer.value.enabled == t.slots[i].timer.value.enabled)
  }

  lemma HeadCallable(u: State)
    requires Inv(u) && Unwrapped(u) && u.fifo != [] && u.worker == Asleep(None)
    ensures Popped(u).worker.Asleep? <==> !Callable(u, u.fifo[0])
    ensures Popped(u).fifo == u.fifo[1..]
    ensures Popped(u).worker.Asleep? ==> SameSwitches(u, Popped(u))
  {
    var k := u.fifo[0];
    assert k in u.fifo;
    GenerationsTell(u, k);
    if Live(u, k) {
      assert TimerInv(u, k.idx, u.slots[k.idx].timer.value);
    }
  }

  /** In a consistent state the waiting timers are those with a callable ticket. */
  lemma WaitingAreQueued(t: State)
    requires Inv(t) && Unwrapped(t)
    ensures (exists i :: 0 <= i < |t.slots| && Waiting(t.slots[i]))
       <==> exists j :: 0 <= j < |t.fifo| && Callable(t, t.fifo[j])
  {
    if i :| 0 <= i < |t.slots| && Waiting(t.slots[i]) {
      assert TimerInv(t, i, t.slots[i].timer.value);
      var me := Ticket(i, t.slots[i].births);
      var j :| 0 <= j < |t.fifo| && t.fifo[j] == me;
      assert Callable(t, t.fifo[j]);
    }
    if j :| 0 <= j < |t.fifo| && Callable(t, t.fifo[j]) {
      var k := t.fifo[j];
      assert k in t.fifo;
      GenerationsTell(t, k);
      assert TimerInv(t, k.idx, t.slots[k.idx].timer.value);
      assert Waiting(t.slots[k.idx]);
    }
  }

  lemma CallableBehind(u: State, t: State)
    requires u.fifo != [] && t.fifo == u.fifo[1..] && SameSwitches(u, t)
    ensures (exists j :: 0 <= j < |t.fifo| && Callable(t, t.fifo[j]))
       <==> exists j :: 1 <= j < |u.fifo| && Callable(u, u.fifo[j])
  {
    forall k ensures Callable(t, k) <==> Callable(u, k) {
    }
    if j :| 0 <= j < |t.fifo| && Callable(t, t.fifo[j]) {
      assert t.fifo[j] == u.fifo[j + 1];
      assert Callable(u, u.fifo[j + 1]);
    }
    if j :| 1 <= j < |u.fifo| && Callable(u, u.fifo[j]) {
      assert u.fifo[j] == t.fifo[j - 1];
      assert Callable(t, t.fifo[j - 1]);
    }
  }

  // ---- Fairness of the queue -----------------------------------------------

  function Looks(steps: seq<Step>): nat
  {
    if steps == [] then 0 else (if steps[0].Look? then 1 else 0) + Looks(steps[1..])
  }

  lemma {:induction false} ScanQueuesBehind(s: State, n: nat, seen: int)
    requires n <= |s.slots|
    ensures s.fifo <= Scanned(s, n, seen).fifo
  {
    if n > 0 {
      ScanQueuesBehind(s, n - 1, seen);
    }
  }

  /** A look takes the ticket at the front and queues the newly expired behind the rest. */
  lemma LookTakesTheFront(s: State, seen: int)
    requires !s.stop
    ensures var u := QueueSeen(s, seen);
            && s.fifo <= u.fifo && AfterLook(s, seen).fifo == (if u.fifo == [] then [] else u.fifo[1..])
            && !AfterLook(s, seen).stop
  {
    var a := s.(worker := Asleep(None));
    ScanQueuesBehind(a, |s.slots|, seen);
    ScanKeepsStop(a, |s.slots|, seen);
    LookPops(s, seen);
    hide Scanned;
  }

  lemma {:induction false} ScanKeepsStop(s: State, n: nat, seen: int)
    requires n <= |s.slots|
    ensures Scanned(s, n, seen).stop == s.stop
  {
    if n > 0 {
      ScanKeepsStop(s, n - 1, seen);
    }
  }

  /** No caller and no callback touches the queue. */
  lemma OthersKeepTheQueue(s: State, step: Step)
    requires Possible(s, step) && !step.Look?
    ensures Apply(s, step).fifo == s.fifo && (s.stop ==> Apply(s, step).stop)
  {
  }

  lemma StopStays(s: State, step: Step)
    requires Possible(s, step) && s.stop
    ensures Apply(s, step).stop
  {
    if !step.Look? {
      OthersKeepTheQueue(s, step);
    }
  }

  lemma {:induction false} NotStoppedBefore(s: State, steps: seq<Step>, t: State)
    requires Runs(s, steps, t) && !t.stop
    ensures !s.stop
    decreases |steps|
  {
    if steps != [] {
      NotStoppedBefore(Apply(s, steps[0]), steps[1..], t);
      if s.stop {
        StopStays(s, steps[0]);
      }
    }
  }

  /** Whatever callers and callbacks do, each look moves every waiting ticket up by one place. */
  lemma {:induction false} TicketsMoveUp(s: State, steps: seq<Step>, t: State, j: nat)
    requires Runs(s, steps, t) && !t.stop && j < |s.fifo| && Looks(steps) <= j
    ensures j - Looks(steps) < |t.fifo| && t.fifo[j - Looks(steps)] == s.fifo[j]
    decreases |steps|
  {
    if steps != [] {
      var m := Apply(s, steps[0]);
      NotStoppedBefore(s, steps, t);
      if steps[0].Look? {
        LookTakesTheFront(s, steps[0].seen);
        hide Apply, QueueSeen;
        TicketsMoveUp(m, steps[1..], t, j - 1);
      } else {
        OthersKeepTheQueue(s, steps[0]);
        hide Apply;
        TicketsMoveUp(m, steps[1..], t, j);
      }
    }
  }

  /**
   * The queue is fair: a ticket with `j` before it is the one the `j + 1`-th
   * look takes, and that look calls its timer exactly if it is then there and
   * enabled.
   */
  lemma TicketIsTakenInTurn(now: int, before: seq<Step>, s: State, steps: seq<Step>, t: State, j: nat, seen: int)
    requires Runs(Init(now), before, s) && Runs(s, steps, t) && Unwrapped(t) && !t.stop
    requires j < |s.fifo| && Looks(steps) == j && Possible(t, Look(seen))
    ensures var u := QueueSeen(t, seen);
            && u.fifo != [] && u.fifo[0] == s.fifo[j] && AfterLook(t, seen).fifo == u.fifo[1..]
            && (AfterLook(t, seen).worker == Calling(s.fifo[j], 0) <==> Callable(u, s.fifo[j]))
  {
    hide Inv, Unwrapped, Runs, QueueSeen, AfterLook, Callable, Looks;
    TicketsMoveUp(s, steps, t, j);
    LookTakesTheFront(t, seen);
    InitIsConsistent(now);
    UnwrappedBefore(s, steps, t);
    ReachableInv(Init(now), before, s);
    ReachableInv(s, steps, t);
    FrontIsCalled(t, seen);
  }

  lemma InitIsConsistent(now: int)
    ensures Inv(Init(now))
  {
  }

  lemma FrontIsCalled(t: State, seen: int)
    requires Inv(t) && Unwrapped(t) && Possible(t, Look(seen)) && !t.stop && QueueSeen(t, seen).fifo != []
    ensures var u := QueueSeen(t, seen);
            AfterLook(t, seen).worker == Calling(u.fifo[0], 0) <==> Callable(u, u.fifo[0])
  {
    var a := t.(worker := Asleep(None));
    QuietChangeKeepsInv(t, a);
    ScannedKeepsInv(a, |t.slots|, seen);
    LookPops(t, seen);
    var u := QueueSeen(t, seen);
    hide QueueSeen, Scanned;
    var k := u.fifo[0];
    assert k in u.fifo;
    GenerationsTell(u, k);
    if Live(u, k) {
      assert TimerInv(u, k.idx, u.slots[k.idx].timer.value);
    }
  }

  // ---- A worker that sleeps through an expired timer -----------------------

  /** A one-shot timer due at time 0: as added, as queued, and while being called. */
  function Added(): Timer { NewTimer(0, None) }
  function Queued(): Timer { Added().(inFifo := true) }
  function Called(): Timer { Added().(hasCallback := false, charges := [Charge(0, 0)]) }

  /** Three one-shots expire together; the second is removed while the first one's callback runs. */
  function OversleepingRun(): seq<Step>
  {
    [AddOneShot(0), AddOneShot(0), AddOneShot(0), Look(0), Remove(PackId(1, 1)), Return(Continue), Look(0)]
  }

  function ThreeAdded(): State
  {
    State([Slot(1, Some(Added())), Slot(1, Some(Added())), Slot(1, Some(Added()))], [], [], false, Ready, 0)
  }

  function FirstCalled(): State
  {
    State([Slot(1, Some(Called())), Slot(1, Some(Queued())), Slot(1, Some(Queued()))], [],
          [Ticket(1, 1), Ticket(2, 1)], false, Calling(Ticket(0, 1), 0), 0)
  }

  function SecondRemoved(): State
  {
    FirstCalled().(slots := [Slot(1, Some(Called())), Slot(1, None), Slot(1, Some(Queued()))], free := [1])
  }

  function FirstReturned(): State
  {
    State([Slot(1, None), Slot(1, None), Slot(1, Some(Queued()))], [1, 0],
          [Ticket(1, 1), Ticket(2, 1)], false, Ready, 0)
  }

  function Oversleeping(): State
  {
    FirstReturned().(fifo := [Ticket(2, 1)], worker := Asleep(None))
  }

  lemma ThreeAddedRuns()
    ensures Runs(Init(0), [AddOneShot(0), AddOneShot(0), AddOneShot(0)], ThreeAdded())
  {
    var a := State([Slot(1, Some(Added()))], [], [], false, Ready, 0);
    var b := State([Slot(1, Some(Added())), Slot(1, Some(Added()))], [], [], false, Ready, 0);
    assert Apply(Init(0), AddOneShot(0)) == a;
    assert Apply(a, AddOneShot(0)) == b;
    assert Apply(b, AddOneShot(0)) == ThreeAdded();
    hide Apply;
    assert [AddOneShot(0), AddOneShot(0), AddOneShot(0)][1..] == [AddOneShot(0), AddOneShot(0)];
    assert [AddOneShot(0), AddOneShot(0)][1..] == [AddOneShot(0)];
    assert [AddOneShot(0)][1..] == [];
  }

  lemma ScanOfThree()
    ensures Scanned(ThreeAdded().(worker := Asleep(None)), 3, 0)
         == State([Slot(1, Some(Queued())), Slot(1, Some(Queued())), Slot(1, Some(Queued()))], [],
                  [Ticket(0, 1), Ticket(1, 1), Ticket(2, 1)], false, Asleep(None), 0)
  {
    var a := ThreeAdded().(worker := Asleep(None));
    var s1 := a.(slots := [Slot(1, Some(Queued())), Slot(1, Some(Added())), Slot(1, Some(Added()))], fifo := [Ticket(0, 1)]);
    var s2 := a.(slots := [Slot(1, Some(Queued())), Slot(1, Some(Queued())), Slot(1, Some(Added()))],
                 fifo := [Ticket(0, 1), Ticket(1, 1)]);
    assert Scanned(a, 0, 0) == a;
    assert Scanned(a, 1, 0) == s1;
    assert Marked(s1, 1, 0) == s2;
    assert Scanned(a, 2, 0) == s2;
  }

  lemma FirstCalledRuns()
    ensures Possible(ThreeAdded(), Look(0)) && Apply(ThreeAdded(), Look(0)) == FirstCalled()
  {
    ScanOfThree();
    var u := Scanned(ThreeAdded().(worker := Asleep(None)), 3, 0);
    assert u.fifo[1..] == [Ticket(1, 1), Ticket(2, 1)];
    assert [] + [Charge(0, 0)] == [Charge(0, 0)];
    assert Popped(u) == FirstCalled();
  }

  lemma LastLook()
    ensures Possible(FirstReturned(), Look(0)) && Apply(FirstReturned(), Look(0)) == Oversleeping()
  {
    var a := FirstReturned().(worker := Asleep(None));
    assert Scanned(a, 0, 0) == a;
    assert Scanned(a, 1, 0) == a;
    assert Scanned(a, 2, 0) == a;
    assert Scanned(a, 3, 0) == a;
    assert a.fifo[1..] == [Ticket(2, 1)];
    assert Popped(a) == Oversleeping();
    WakeupIsEarliest(Oversleeping().slots);
  }

  /**
   * A reachable state in which the worker sleeps with no wake-up time while an
   * enabled timer, expired since time 0, waits in the queue.
   */
  lemma WorkerCanOversleep()
    ensures Reachable(0, OversleepingRun(), Oversleeping())
    ensures Oversleeping().worker == Asleep(None)
    ensures Waiting(Oversleeping().slots[2]) && Oversleeping().slots[2].timer.value.next <= Oversleeping().now
  {
    ThreeAddedRuns();
    FirstCalledRuns();
    SecondRemovedRuns();
    FirstReturnedRuns();
    LastLook();
    hide Apply, Possible, ThreeAdded, FirstCalled, SecondRemoved, FirstReturned, Runs;
    RunsNone(Oversleeping());
    RunsCons(FirstReturned(), Look(0), [], Oversleeping());
    RunsCons(SecondRemoved(), Return(Continue), [Look(0)] + [], Oversleeping());
    var tail := [Return(Continue)] + ([Look(0)] + []);
    RunsCons(FirstCalled(), Remove(PackId(1, 1)), tail, Oversleeping());
    RunsCons(ThreeAdded(), Look(0), [Remove(PackId(1, 1))] + tail, Oversleeping());
    var adds := [AddOneShot(0), AddOneShot(0), AddOneShot(0)];
    RunsCompose(Init(0), adds, ThreeAdded(), [Look(0)] + ([Remove(PackId(1, 1))] + tail), Oversleeping());
    assert adds + ([Look(0)] + ([Remove(PackId(1, 1))] + tail)) == OversleepingRun();
    SmallIsUnwrapped();
  }

  lemma SmallIsUnwrapped()
    ensures Unwrapped(Oversleeping()) && Oversleeping().worker == Asleep(None)
    ensures Waiting(Oversleeping().slots[2]) && Oversleeping().slots[2].timer.value.next <= Oversleeping().now
  {
  }

  lemma SecondRemovedRuns()
    ensures Possible(FirstCalled(), Remove(PackId(1, 1))) && Apply(FirstCalled(), Remove(PackId(1, 1))) == SecondRemoved()
  {
    IdUnpacks(1, 1);
    assert [] + [1] == [1];
  }

  lemma FirstReturnedRuns()
    ensures Possible(SecondRemoved(), Return(Continue)) && Apply(SecondRemoved(), Return(Continue)) == FirstReturned()
  {
    IdUnpacks(1, 0);
    assert [1] + [0] == [1, 0];
  }

  lemma RunsNone(s: State)
    ensures Runs(s, [], s)
  {
  }

  lemma RunsCons(s: State, step: Step, rest: seq<Step>, t: State)
    requires Possible(s, step) && Runs(Apply(s, step), rest, t)
    ensures Runs(s, [step] + rest, t)
  {
    assert ([step] + rest)[1..] == rest;
  }

  lemma {:induction false} RunsCompose(s: State, xs: seq<Step>, m: State, ys: seq<Step>, t: State)
    requires Runs(s, xs, m) && Runs(m, ys, t)
    ensures Runs(s, xs + ys, t)
    decreases |xs|
  {
    if xs == [] {
      assert xs + ys == ys;
    } else {
      RunsCompose(Apply(s, xs[0]), xs[1..], m, ys, t);
      assert (xs + ys)[1..] == xs[1..] + ys;
    }
  }
}
