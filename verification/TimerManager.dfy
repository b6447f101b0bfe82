/**
 * The timer manager's own operations, over what it stores: 32-bit generations,
 * entries, the queue of (slot, generation) pairs and the worker's locals.
 * `abs` is the step system's state, with the allocation counts and the firing
 * history the code does not keep; each operation is proved to be the step of
 * the step system that bears its name.
 */
module TimerManager {
  import opened Basics
  import opened TimerSteps

  datatype Entry = Entry(next: int, period: Option<nat>, enabled: bool, inFifo: bool, hasCallback: bool)

  datatype Cell = Cell(generation: nat, timer: Option<Entry>)

  datatype Pair = Pair(idx: nat, generation: nat)

  /** What the worker thread is at, with the locals of its loop. */
  datatype Thread = Running | Sleeping(until: Option<int>) | Dispatching(of: Pair, catchUp: nat) | Ended

  // ---- What is stored of a state -------------------------------------------

  function EntryOf(t: Timer): Entry
  {
    Entry(t.next, t.period, t.enabled, t.inFifo, t.hasCallback)
  }

  function CellOf(s: Slot): Cell
  {
    Cell(Generation(s.births), if s.timer.Some? then Some(EntryOf(s.timer.value)) else None)
  }

  function PairOf(k: Ticket): Pair
  {
    Pair(k.idx, Generation(k.birth))
  }

  function ThreadOf(w: Worker): Thread
  {
    match w
    case Ready => Running
    case Asleep(until) => Sleeping(until)
    case Calling(k, catchUp) => Dispatching(PairOf(k), catchUp)
    case Halted(_) => Ended
  }

  lemma NextGeneration(births: nat)
    ensures Generation(births + 1) == (Generation(births) + 1) % WRAP
  {
  }

  class TimerManager {
    var slots: seq<Cell>
    var freeIndices: seq<nat>
    var fifo: seq<Pair>
    var stop: bool
    var thread: Thread
    var now: int
    ghost var abs: State

    ghost predicate SlotsStored()
      reads this
    {
      |slots| == |abs.slots| && forall i | 0 <= i < |slots| :: slots[i] == CellOf(abs.slots[i])
    }

    ghost predicate FifoStored()
      reads this
    {
      |fifo| == |abs.fifo| && forall j | 0 <= j < |fifo| :: fifo[j] == PairOf(abs.fifo[j])
    }

    ghost predicate Valid()
      reads this
    {
      && SlotsStored() && FifoStored()
      && freeIndices == abs.free && stop == abs.stop && thread == ThreadOf(abs.worker) && now == abs.now
    }

    constructor (now: int)
      ensures Valid() && abs == Init(now)
    {
      slots, freeIndices, fifo, stop, thread := [], [], [], false, Running;
      this.now := now;
      abs := Init(now);
    }

    /** Put a new timer in the last freed slot, or a new one, under a new generation. */
    method Allocate(next: int, period: Option<nat>) returns (id: nat)
      requires Valid() && FreeInRange(abs)
      modifies this`slots, this`freeIndices, this`abs
      ensures Valid() && abs == Allocated(old(abs), NewTimer(next, period))
      ensures var i := NextSlot(old(abs)); i < |abs.slots| && id == PackId(Generation(abs.slots[i].births), i)
    {
      var i;
      if freeIndices != [] {
        i := freeIndices[|freeIndices| - 1];
        freeIndices := freeIndices[..|freeIndices| - 1];
      } else {
        i := |slots|;
        slots := slots + [Cell(0, None)];
      }
      slots := slots[i := slots[i].(generation := (slots[i].generation + 1) % WRAP)];
      var generation := slots[i].generation;
      slots := slots[i := slots[i].(timer := Some(Entry(next, period, true, false, true)))];
      id := PackId(generation, i);
      NextGeneration(if i < |abs.slots| then abs.slots[i].births else 0);
      abs := Allocated(abs, NewTimer(next, period));
    }

    method Deallocate(id: nat) returns (found: bool)
      requires Valid()
      modifies this`slots, this`freeIndices, this`abs
      ensures Valid() && abs == Deallocated(old(abs), id) && found == Names(old(abs), id)
    {
      var generation, i := id / WRAP, id % WRAP;
      found := i < |slots| && slots[i].generation == generation && slots[i].timer.Some?;
      if found {
        slots := slots[i := slots[i].(timer := None)];
        freeIndices := freeIndices + [i];
      }
      abs := Deallocated(abs, id);
    }

    method AddOneShot(delay: nat) returns (id: nat)
      requires Valid() && FreeInRange(abs)
      modifies this`slots, this`freeIndices, this`abs
      ensures Valid() && abs == Apply(old(abs), TimerSteps.AddOneShot(delay))
      ensures var i := NextSlot(old(abs)); i < |abs.slots| && id == PackId(Generation(abs.slots[i].births), i)
      ensures var i := NextSlot(old(abs)); i < |slots| && slots[i].timer == Some(Entry(now + delay, None, true, false, true))
    {
      id := Allocate(now + delay, None);
    }

    method AddRecurring(at: int, every: nat) returns (id: nat)
      requires Valid() && FreeInRange(abs)
      modifies this`slots, this`freeIndices, this`abs
      ensures Valid() && abs == Apply(old(abs), TimerSteps.AddRecurring(at, every))
      ensures var i := NextSlot(old(abs)); i < |abs.slots| && id == PackId(Generation(abs.slots[i].births), i)
      ensures var i := NextSlot(old(abs)); i < |slots| && slots[i].timer == Some(Entry(at, Some(every), true, false, true))
    {
      id := Allocate(at, Some(every));
    }

    /** Switch a timer on or off. */
    method SetEnabled(id: nat, on: bool) returns (found: bool)
      requires Valid()
      modifies this`slots, this`abs
      ensures Valid() && abs == WithEnabled(old(abs), id, on) && found == Names(old(abs), id)
    {
      var generation, i := id / WRAP, id % WRAP;
      found := i < |slots| && slots[i].generation == generation && slots[i].timer.Some?;
      if found {
        slots := slots[i := slots[i].(timer := Some(slots[i].timer.value.(enabled := on)))];
      }
      abs := WithEnabled(abs, id, on);
    }

    /** Queue every newly expired timer, in slot order. */
    method ScanExpired(seen: int)
      requires Valid()
      modifies this`slots, this`fifo, this`abs
      ensures Valid() && abs == Scanned(old(abs), |old(abs).slots|, seen)
    {
      var i := 0;
      while i < |slots|
        invariant 0 <= i <= |slots| == |old(abs).slots| && Valid()
        invariant abs == Scanned(old(abs), i, seen)
      {
        var slot := slots[i];
        if slot.timer.Some? {
          var t := slot.timer.value;
          if t.enabled && !t.inFifo && t.next <= seen {
            slots := slots[i := slot.(timer := Some(t.(inFifo := true)))];
            fifo := fifo + [Pair(i, slot.generation)];
          }
        }
        abs := Marked(abs, i, seen);
        i := i + 1;
      }
    }

    /** The earliest expiry among the enabled timers that are not queued. */
    method NextWakeup() returns (w: Option<int>)
      requires Valid()
      ensures w == Wakeup(abs.slots)
    {
      w := None;
      var i := 0;
      while i < |slots|
        invariant 0 <= i <= |slots| && w == Wakeup(abs.slots[..i])
      {
        var slot := slots[i];
        assert abs.slots[..i + 1][..i] == abs.slots[..i];
        if slot.timer.Some? && slot.timer.value.enabled && !slot.timer.value.inFifo {
          var next := slot.timer.value.next;
          if w.Some? {
            if next < w.value {
              w := Some(next);
            }
          } else {
            w := Some(next);
          }
        }
        i := i + 1;
      }
      assert abs.slots[..|slots|] == abs.slots;
    }

    /** Store `t` in slot `i`. */
    method Store(i: nat, t: Entry, ghost timer: Timer)
      requires Valid() && i < |slots| && t == EntryOf(timer)
      modifies this`slots, this`abs
      ensures Valid() && abs == SetTimer(old(abs), i, timer)
    {
      slots := slots[i := slots[i].(timer := Some(t))];
      abs := SetTimer(abs, i, timer);
    }

    /** Take the callback of the timer `of` names and begin the call. */
    method BeginCall(of: Pair, catchUp: nat, ghost k: Ticket)
      requires Valid() && of == PairOf(k) && of.idx < |slots| && slots[of.idx].timer.Some?
      modifies this`slots, this`thread, this`abs
      ensures Valid() && abs == Fire(old(abs), k, catchUp)
    {
      var t := slots[of.idx].timer.value;
      ghost var timer := abs.slots[k.idx].timer.value;
      Store(of.idx, t.(inFifo := false, hasCallback := false),
            timer.(inFifo := false, hasCallback := false, charges := timer.charges + [Charge(timer.next, now)]));
      thread := Dispatching(of, catchUp);
      abs := abs.(worker := Calling(k, catchUp));
    }

    /** Take the oldest ticket and, if its timer is there and enabled, begin its call. */
    method PopOldest()
      requires Valid() && fifo != []
      modifies this`slots, this`fifo, this`thread, this`abs
      ensures Valid() && abs == Popped(old(abs))
    {
      var of := fifo[0];
      ghost var k := abs.fifo[0];
      fifo := fifo[1..];
      abs := abs.(fifo := abs.fifo[1..]);
      if of.idx < |slots| && slots[of.idx].generation == of.generation && slots[of.idx].timer.Some? {
        var t := slots[of.idx].timer.value;
        if t.enabled && t.hasCallback {
          BeginCall(of, 0, k);
        } else {
          Store(of.idx, t.(inFifo := false), abs.slots[k.idx].timer.value.(inFifo := false));
          thread := if t.enabled then Running else Sleeping(None);
          abs := abs.(worker := if t.enabled then Ready else Asleep(None));
        }
      }
    }

    /** One turn of the worker, up to releasing the lock, with the time it read before. */
    method TakeLook(seen: int)
      requires Valid()
      modifies this
      ensures Valid() && abs == AfterLook(old(abs), seen)
    {
      if stop {
        thread := Ended;
        abs := abs.(worker := Halted(None));
        return;
      }
      thread := Sleeping(None);
      abs := abs.(worker := Asleep(None));
      ScanExpired(seen);
      if fifo != [] {
        PopOldest();
      }
      if thread.Sleeping? {
        var w := NextWakeup();
        thread := Sleeping(w);
        abs := abs.(worker := Asleep(w));
      }
    }

    /** A callback returned: put it back and do as it asked, or fire again to catch up. */
    method FinishCall(result: Outcome)
      requires Valid() && thread.Dispatching?
      modifies this
      ensures Valid() && abs == AfterReturn(old(abs), result)
    {
      var of, catchUp := thread.of, thread.catchUp;
      ghost var k := abs.worker.ticket;
      if stop {
        thread := Ended;
        abs := abs.(worker := Halted(Some(k)));
        return;
      }
      thread := Running;
      abs := abs.(worker := Ready);
      if of.idx >= |slots| || slots[of.idx].generation != of.generation || slots[of.idx].timer.None? {
        return;
      }
      var t := slots[of.idx].timer.value.(hasCallback := true);
      ghost var timer := abs.slots[k.idx].timer.value.(hasCallback := true);
      Store(of.idx, t, timer);
      DoAsAsked(result, of, t, catchUp, k, old(abs));
    }

    /** The callback is back in its timer `t`; do what it returned. */
    method DoAsAsked(result: Outcome, of: Pair, t: Entry, catchUp: nat, ghost k: Ticket, ghost from: State)
      requires Valid() && of == PairOf(k) && from.worker == Calling(k, catchUp) && !from.stop && Live(from, k)
      requires var timer := from.slots[k.idx].timer.value.(hasCallback := true);
               t == EntryOf(timer) && abs == SetTimer(from, k.idx, timer).(worker := Ready)
      modifies this
      ensures Valid() && abs == AfterReturn(from, result)
    {
      hide Fire, Deallocated, PackId, Generation;
      ghost var timer := abs.slots[k.idx].timer.value;
      match result {
        case Continue =>
          if t.period.Some? {
            var next := t.next + t.period.value;
            Store(of.idx, t.(next := next), timer.(next := next));
            if catchUp + 1 < MAX_CATCHUP && t.enabled && next <= now {
              BeginCall(of, catchUp + 1, k);
            }
          } else {
            var _ := Deallocate(PackId(of.generation, of.idx));
          }
        case Disabled =>
          Store(of.idx, t.(enabled := false), timer.(enabled := false, start := timer.next, charges := []));
        case Delete =>
          var _ := Deallocate(PackId(of.generation, of.idx));
        case RescheduleOneShot(delay) =>
          Store(of.idx, t.(next := now + delay, period := None),
                timer.(next := now + delay, period := None, start := now + delay, charges := []));
        case RescheduleRecurring(every) =>
          var next := t.next + every;
          Store(of.idx, t.(period := Some(every), next := next),
                timer.(next := next, period := Some(every), start := next, charges := []));
      }
    }
  }
}
