/**
 * The timer manager as a step system.  Every step is one section the code runs
 * under its lock; while a callback runs the lock is free and any caller's step
 * may come in between.
 *
 * A slot's `births` counts its allocations; the code keeps that count modulo
 * 2^32 as the slot's generation, and compares only generations.  A timer's
 * `start` and `charges`, and `births` beyond its residue, are history.
 */
module TimerSteps {
  import opened Basics

  /** Generations are 32-bit. */
  const WRAP: nat := 0x1_0000_0000
  const MAX_CATCHUP: nat := 8

  /** One firing: the deadline it answers and when it happened. */
  datatype Charge = Charge(deadline: int, at: int)

  /**
   * `charges` are the firings since the last return that was not `Continue`,
   * `start` the deadline the timer then had.
   */
  datatype Timer = Timer(
    next: int, period: Option<nat>, enabled: bool, inFifo: bool, hasCallback: bool,
    start: int, charges: seq<Charge>)

  datatype Slot = Slot(births: nat, timer: Option<Timer>)

  /** An expired timer waiting to be called: its slot and which of the slot's timers it was. */
  datatype Ticket = Ticket(idx: nat, birth: nat)

  datatype Worker =
    | Ready
    | Asleep(until: Option<int>)
    | Calling(ticket: Ticket, catchUp: nat)
    | Halted(lost: Option<Ticket>)

  datatype State = State(
    slots: seq<Slot>, free: seq<nat>, fifo: seq<Ticket>, stop: bool, worker: Worker, now: int)

  datatype Outcome =
    | Continue | Disabled | Delete | RescheduleOneShot(delay: nat) | RescheduleRecurring(every: nat)

  datatype Step =
    | Tick(t: int)
    | AddOneShot(delay: nat) | AddRecurring(at: int, every: nat)
    | Remove(id: nat) | Enable(id: nat) | Disable(id: nat)
    | Stop
    | Look(seen: int)
    | Return(result: Outcome)

  // ---- Ids -----------------------------------------------------------------

  function Generation(births: nat): nat
  {
    births % WRAP
  }

  function PackId(generation: nat, idx: nat): nat
  {
    generation * WRAP + idx
  }

  /** The slot of an id holds the timer the id names, as far as generations tell. */
  predicate Names(s: State, id: nat)
  {
    var idx := id % WRAP;
    idx < |s.slots| && Generation(s.slots[idx].births) == id / WRAP && s.slots[idx].timer.Some?
  }

  // ---- Slots ---------------------------------------------------------------

  function SetTimer(s: State, i: nat, t: Timer): State
    requires i < |s.slots|
  {
    s.(slots := s.slots[i := s.slots[i].(timer := Some(t))])
  }

  /** The slot the next allocation takes: the last freed, or a new one. */
  function NextSlot(s: State): nat
  {
    if s.free != [] then s.free[|s.free| - 1] else |s.slots|
  }

  predicate FreeInRange(s: State)
  {
    forall k | 0 <= k < |s.free| :: s.free[k] < |s.slots|
  }

  function Allocated(s: State, t: Timer): State
    requires FreeInRange(s)
  {
    var i := NextSlot(s);
    var slots := if s.free != [] then s.slots else s.slots + [Slot(0, None)];
    s.(slots := slots[i := Slot(slots[i].births + 1, Some(t))],
       free := if s.free != [] then s.free[..|s.free| - 1] else [])
  }

  function NewTimer(next: int, period: Option<nat>): Timer
  {
    Timer(next, period, true, false, true, next, [])
  }

  function Deallocated(s: State, id: nat): State
  {
    if Names(s, id) then
      var i := id % WRAP;
      s.(slots := s.slots[i := s.slots[i].(timer := None)], free := s.free + [i])
    else s
  }

  function WithEnabled(s: State, id: nat, on: bool): State
  {
    if Names(s, id) then SetTimer(s, id % WRAP, s.slots[id % WRAP].timer.value.(enabled := on)) else s
  }

  // ---- The worker ----------------------------------------------------------

  predicate Due(slot: Slot, seen: int)
  {
    slot.timer.Some? && slot.timer.value.enabled && !slot.timer.value.inFifo && slot.timer.value.next <= seen
  }

  /** Queue the timer of slot `i` if it has newly expired. */
  function Marked(s: State, i: nat, seen: int): State
    requires i < |s.slots|
  {
    if Due(s.slots[i], seen) then
      SetTimer(s, i, s.slots[i].timer.value.(inFifo := true)).(fifo := s.fifo + [Ticket(i, s.slots[i].births)])
    else s
  }

  /** The scan over the first `n` slots. */
  function Scanned(s: State, n: nat, seen: int): (t: State)
    requires n <= |s.slots|
    ensures |t.slots| == |s.slots|
  {
    if n == 0 then s else Marked(Scanned(s, n - 1, seen), n - 1, seen)
  }

  /** The ticket's timer is still there, as far as generations tell. */
  predicate Live(s: State, k: Ticket)
  {
    k.idx < |s.slots| && Generation(s.slots[k.idx].births) == Generation(k.birth) && s.slots[k.idx].timer.Some?
  }

  /**
   * Take the oldest ticket off the queue; call its timer if it is there and
   * enabled.  A worker left asleep had nothing to call.
   */
  function Popped(s: State): State
    requires s.fifo != []
  {
    var k := s.fifo[0];
    var u := s.(fifo := s.fifo[1..]);
    if !Live(s, k) then u
    else
      var t := s.slots[k.idx].timer.value;
      if t.enabled && t.hasCallback then Fire(u, k, 0)
      else
        SetTimer(u, k.idx, t.(inFifo := false)).(worker := if t.enabled then Ready else Asleep(None))
  }

  /** Take the callback of `k`'s timer and call it. */
  function Fire(s: State, k: Ticket, catchUp: nat): State
    requires k.idx < |s.slots| && s.slots[k.idx].timer.Some?
  {
    var t := s.slots[k.idx].timer.value;
    SetTimer(s, k.idx, t.(inFifo := false, hasCallback := false, charges := t.charges + [Charge(t.next, s.now)]))
    .(worker := Calling(k, catchUp))
  }

  function Earlier(a: Option<int>, slot: Slot): Option<int>
  {
    if slot.timer.Some? && slot.timer.value.enabled && !slot.timer.value.inFifo
       && (a.None? || slot.timer.value.next < a.value)
    then Some(slot.timer.value.next) else a
  }

  /** The earliest expiry among the enabled timers of `slots` that are not queued. */
  function Wakeup(slots: seq<Slot>): Option<int>
  {
    if slots == [] then None else Earlier(Wakeup(slots[..|slots| - 1]), slots[|slots| - 1])
  }

  function AfterLook(s: State, seen: int): State
  {
    if s.stop then s.(worker := Halted(None))
    else
      var u := Scanned(s.(worker := Asleep(None)), |s.slots|, seen);
      var v := if u.fifo == [] then u else Popped(u);
      if v.worker.Asleep? then v.(worker := Asleep(Wakeup(v.slots))) else v
  }

  /** A callback has returned `result`. */
  function AfterReturn(s: State, result: Outcome): State
    requires s.worker.Calling?
  {
    var k := s.worker.ticket;
    if s.stop then s.(worker := Halted(Some(k)))
    else if k.idx >= |s.slots| || Generation(s.slots[k.idx].births) != Generation(k.birth)
            || s.slots[k.idx].timer.None? then s.(worker := Ready)
    else
      var t := s.slots[k.idx].timer.value.(hasCallback := true);
      var back := SetTimer(s, k.idx, t).(worker := Ready);
      match result
      case Continue =>
        if t.period.None? then Deallocated(back, PackId(Generation(k.birth), k.idx))
        else
          var moved := t.(next := t.next + t.period.value);
          var u := SetTimer(back, k.idx, moved);
          if s.worker.catchUp + 1 < MAX_CATCHUP && t.enabled && moved.next <= s.now
          then Fire(u, k, s.worker.catchUp + 1) else u
      case Disabled => SetTimer(back, k.idx, t.(enabled := false, start := t.next, charges := []))
      case Delete => Deallocated(back, PackId(Generation(k.birth), k.idx))
      case RescheduleOneShot(delay) =>
        SetTimer(back, k.idx, t.(next := s.now + delay, period := None, start := s.now + delay, charges := []))
      case RescheduleRecurring(every) =>
        SetTimer(back, k.idx, t.(next := t.next + every, period := Some(every), start := t.next + every, charges := []))
  }

  // ---- Runs ----------------------------------------------------------------

  predicate Possible(s: State, step: Step)
  {
    && FreeInRange(s)
    && match step
       case Tick(t) => s.now <= t
       case Look(seen) => (s.worker.Ready? || s.worker.Asleep?) && seen <= s.now
       case Return(_) => s.worker.Calling?
       case _ => true
  }

  function Apply(s: State, step: Step): State
    requires Possible(s, step)
  {
    match step
    case Tick(t) => s.(now := t)
    case AddOneShot(delay) => Allocated(s, NewTimer(s.now + delay, None))
    case AddRecurring(at, every) => Allocated(s, NewTimer(at, Some(every)))
    case Remove(id) => Deallocated(s, id)
    case Enable(id) => WithEnabled(s, id, true)
    case Disable(id) => WithEnabled(s, id, false)
    case Stop => s.(stop := true)
    case Look(seen) => AfterLook(s, seen)
    case Return(result) => AfterReturn(s, result)
  }

  function Init(now: int): State
  {
    State([], [], [], false, Ready, now)
  }

  predicate Runs(s: State, steps: seq<Step>, t: State)
    decreases |steps|
  {
    if steps == [] then s == t
    else Possible(s, steps[0]) && Runs(Apply(s, steps[0]), steps[1..], t)
  }

  // ---- Invariant -----------------------------------------------------------

  /** No slot has been allocated 2^32 times, and slot numbers fit an id. */
  ghost predicate Unwrapped(s: State)
  {
    |s.slots| <= WRAP && forall i | 0 <= i < |s.slots| :: s.slots[i].births < WRAP
  }

  /** The free list is duplicate-free and is the set of empty slots. */
  ghost predicate FreeInv(s: State)
  {
    && (forall i, j | 0 <= i < j < |s.free| :: s.free[i] != s.free[j])
    && forall i :: i in s.free <==> 0 <= i < |s.slots| && s.slots[i].timer.None?
  }

  /** Tickets name timers that were born, each at most once. */
  ghost predicate FifoInv(s: State)
  {
    && (forall j, k | 0 <= j < k < |s.fifo| :: s.fifo[j] != s.fifo[k])
    && forall k | k in s.fifo :: k.idx < |s.slots| && k.birth <= s.slots[k.idx].births
  }

  /** The ticket whose callback the worker holds, if any. */
  function Held(w: Worker): Option<Ticket>
  {
    match w
    case Calling(k, _) => Some(k)
    case Halted(lost) => lost
    case _ => None
  }

  ghost predicate WorkerInv(s: State)
  {
    && (s.worker.Halted? ==> s.stop)
    && (s.worker.Calling? ==> s.worker.catchUp < MAX_CATCHUP)
    && match Held(s.worker)
       case None => true
       case Some(k) => k.idx < |s.slots| && k.birth <= s.slots[k.idx].births
  }

  /** The deadline after `n` periods. */
  function Deadline(start: int, period: Option<nat>, n: nat): int
  {
    start + n * (if period.Some? then period.value else 0)
  }

  /** The timer's firings answer consecutive deadlines, none before its time. */
  ghost predicate ScheduleInv(t: Timer)
  {
    && (forall j | 0 <= j < |t.charges| ::
          t.charges[j].deadline == Deadline(t.start, t.period, j) && t.charges[j].deadline <= t.charges[j].at)
    && (t.hasCallback ==> t.next == Deadline(t.start, t.period, |t.charges|))
    && (!t.hasCallback ==> t.charges != [] && t.next == Deadline(t.start, t.period, |t.charges| - 1))
    && (t.period.None? ==> |t.charges| == if t.hasCallback then 0 else 1)
  }

  /** What holds of the timer in slot `i`. */
  ghost predicate TimerInv(s: State, i: nat, t: Timer)
    requires i < |s.slots|
  {
    var me := Ticket(i, s.slots[i].births);
    && (t.inFifo <==> me in s.fifo)
    && (t.inFifo ==> t.next <= s.now && t.hasCallback)
    && (t.hasCallback <==> Held(s.worker) != Some(me))
    && ScheduleInv(t)
  }

  ghost predicate TimersInv(s: State)
  {
    forall i: nat | i < |s.slots| && s.slots[i].timer.Some? :: TimerInv(s, i, s.slots[i].timer.value)
  }

  ghost predicate Inv(s: State)
  {
    FreeInv(s) && FifoInv(s) && WorkerInv(s) && TimersInv(s)
  }
}
