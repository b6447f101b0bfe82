/**
 * Progress of the graphics FIFO: a producer refused for lack of room is never
 * stuck.  While the tail stands still every useful consumer step lowers a
 * measure linear in the backlogs, some useful step exists until every head is
 * published at the tail, and a push that then retries is accepted.
 */
module GFifoProgress {
  import opened Basics
  import opened RingIndex
  import opened GFifoSteps
  import opened GFifoSafety

  /** Entries head `x` has yet to retire. */
  function Backlog(s: State, x: Head): nat
  {
    if x.local <= s.tail then s.tail - x.local else 0
  }

  /** A bound on the useful steps head `x` has left while the tail stands still. */
  function Weight(s: State, x: Head): int
  {
    var k := 8 * Backlog(s, x);
    match x.ctl
    case AtRest => if x.local < x.shadowTail then k - 1 else k
    case Peeked(_) => k - 2
    case Draining(_, _, _, seen, got) => k - 3 - |got| + (if seen < s.tail then 1 else 0)
    case Drained(_) => k - 4
    case Publishing => k + 1
  }

  /** The drain in progress was promised no more words than are published. */
  predicate Promised(s: State, x: Head)
  {
    x.ctl.Draining? ==> x.local + 1 + x.ctl.n <= s.tail
  }

  predicate AllPromised(s: State)
  {
    forall h | 0 <= h < |s.heads| :: Promised(s, s.heads[h])
  }

  /** A step by which a consumer gets ahead: it finds, reads, retires or publishes an entry. */
  predicate Useful(s: State, step: Step)
  {
    && Enabled(s, step)
    && match step
       case PeekTail(h) => s.heads[h].local < s.tail
       case PeekSlot(_) => true
       case Consume(_) => true
       case Publish(_) => true
       case DrainBegin(h, n) => s.heads[h].local + 1 + n <= s.tail
       case DrainReload(h) => s.heads[h].ctl.seen < s.tail
       case DrainRead(_) => true
       case DrainDone(_) => true
       case _ => false
  }

  lemma WeightBounds(s: State, x: Head)
    requires HeadInv(s, x) && Promised(s, x)
    ensures 0 <= Weight(s, x) <= 8 * Backlog(s, x) + 1
    ensures Weight(s, x) == 0 ==> x.published == s.tail && x.ctl.AtRest?
    ensures x.ctl.AtRest? && x.local == s.tail ==> Weight(s, x) == 0
  {
  }

  /** A useful step belongs to one head, lowers its weight and never adds to its backlog. */
  lemma UsefulStepLowersWeight(s: State, step: Step)
    requires Inv(s) && Useful(s, step) && AllPromised(s)
    ensures step.h < |s.heads|
    ensures var t := Apply(s, step);
            && t == s.(heads := s.heads[step.h := t.heads[step.h]])
            && Weight(t, t.heads[step.h]) < Weight(s, s.heads[step.h])
            && Backlog(t, t.heads[step.h]) <= Backlog(s, s.heads[step.h]) - (if step.Consume? then 1 else 0)
            && Promised(t, t.heads[step.h])
  {
    hide ProducerInv, ObserverInv, SlotsInv, BatchesInv, PromisedBatch;
    var x := s.heads[step.h];
    assert HeadInv(s, x);
    if x.ctl.Draining? {
      DrainStepLowersWeight(s, step);
    } else {
      PlainStepLowersWeight(s, step);
    }
  }

  /** What a useful step does to its head. */
  ghost predicate Lowers(s: State, step: Step, t: State)
    requires step.PeekTail? || step.PeekSlot? || step.Consume? || step.Publish? || step.Flush?
             || step.DrainBegin? || step.DrainReload? || step.DrainRead? || step.DrainDone? || step.AskHeadAt?
  {
    && step.h < |s.heads| == |t.heads| && t == s.(heads := s.heads[step.h := t.heads[step.h]])
    && Weight(t, t.heads[step.h]) < Weight(s, s.heads[step.h])
    && Backlog(t, t.heads[step.h]) <= Backlog(s, s.heads[step.h]) - (if step.Consume? then 1 else 0)
    && Promised(t, t.heads[step.h])
  }

  lemma DrainStepLowersWeight(s: State, step: Step)
    requires Inv(s) && Useful(s, step) && AllPromised(s) && s.heads[step.h].ctl.Draining?
    ensures Lowers(s, step, Apply(s, step))
  {
    hide ProducerInv, ObserverInv, SlotsInv, BatchesInv, PromisedBatch;
    var x := s.heads[step.h];
    assert HeadInv(s, x) && Promised(s, x);
    SameResidue(x.ctl.at, x.ctl.seen, s.depth);
  }

  lemma PlainStepLowersWeight(s: State, step: Step)
    requires Inv(s) && Useful(s, step) && AllPromised(s) && !s.heads[step.h].ctl.Draining?
    ensures Lowers(s, step, Apply(s, step))
  {
    hide ProducerInv, ObserverInv, SlotsInv, BatchesInv, PromisedBatch;
    var x := s.heads[step.h];
    assert HeadInv(s, x);
    if x.ctl.AtRest? {
      SameResidue(x.local, x.shadowTail, s.depth);
    }
  }

  /** Until a head is published at the tail its own consumer has a useful step to take. */
  lemma UsefulStepExists(s: State, h: nat) returns (step: Step)
    requires Inv(s) && AllPromised(s) && h < |s.heads|
    requires s.heads[h].published != s.tail
    ensures Useful(s, step) && step.h == h
  {
    hide ProducerInv, ObserverInv, SlotsInv, BatchesInv, PromisedBatch;
    var x := s.heads[h];
    assert HeadInv(s, x);
    match x.ctl {
      case AtRest =>
        SameResidue(x.local, x.shadowTail, s.depth);
        step := if x.local == x.shadowTail then PeekTail(h) else PeekSlot(h);
      case Peeked(_) => step := Consume(h);
      case Drained(_) => step := Consume(h);
      case Publishing => step := Publish(h);
      case Draining(_, n, at, seen, got) =>
        SameResidue(at, seen, s.depth);
        step := if |got| == n then DrainDone(h) else if at == seen then DrainReload(h) else DrainRead(h);
    }
  }

  // ---- Promises ------------------------------------------------------------

  /** A run that drains only at the token of a batch, and then its whole payload. */
  ghost predicate Honest(s: State, steps: seq<Step>)
    decreases |steps|
  {
    steps == [] || (&& Enabled(s, steps[0])
                    && (steps[0].DrainBegin? ==> PromisedBatch(s, s.heads[steps[0].h].local, steps[0].n))
                    && Honest(Apply(s, steps[0]), steps[1..]))
  }

  /** Every drain in progress is of a published batch. */
  ghost predicate DrainsBatches(s: State)
  {
    forall h | 0 <= h < |s.heads| && s.heads[h].ctl.Draining? :: PromisedBatch(s, s.heads[h].local, s.heads[h].ctl.n)
  }

  lemma BatchesOnlyGrow(s: State, step: Step, start: nat, n: nat)
    requires Enabled(s, step) && PromisedBatch(s, start, n)
    ensures PromisedBatch(Apply(s, step), start, n)
  {
    var b :| b in s.batches && b.0 == start && |b.1| == n + 1;
    assert b in Apply(s, step).batches;
  }

  /** A head found draining after a step was draining the same before it, or has just begun. */
  lemma DrainingBefore(s: State, step: Step, h: nat)
    requires Enabled(s, step) && h < |Apply(s, step).heads| && Apply(s, step).heads[h].ctl.Draining?
    ensures h < |s.heads| && Apply(s, step).heads[h].local == s.heads[h].local
    ensures step == DrainBegin(h, Apply(s, step).heads[h].ctl.n)
            || (s.heads[h].ctl.Draining? && s.heads[h].ctl.n == Apply(s, step).heads[h].ctl.n)
  {
  }

  lemma {:induction false} HonestRunDrainsBatches(s: State, steps: seq<Step>, t: State)
    requires DrainsBatches(s) && Runs(s, steps, t) && Honest(s, steps)
    ensures DrainsBatches(t)
    decreases |steps|
  {
    if steps != [] {
      var m := Apply(s, steps[0]);
      forall h | 0 <= h < |m.heads| && m.heads[h].ctl.Draining?
        ensures PromisedBatch(m, m.heads[h].local, m.heads[h].ctl.n)
      {
        DrainingBefore(s, steps[0], h);
        BatchesOnlyGrow(s, steps[0], m.heads[h].local, m.heads[h].ctl.n);
      }
      HonestRunDrainsBatches(m, steps[1..], t);
    }
  }

  /** If consumers drain only at batch tokens, no drain is ever promised a word that is not there. */
  lemma HonestRunsKeepPromises(depth: nat, n: nat, zero: Entry, steps: seq<Step>, t: State)
    requires Reachable(depth, n, zero, steps, t) && Honest(Init(depth, n, zero), steps)
    ensures AllPromised(t)
  {
    ReachableFromInit(depth, n, zero, steps, t);
    HonestRunDrainsBatches(Init(depth, n, zero), steps, t);
    forall h | 0 <= h < |t.heads| ensures Promised(t, t.heads[h]) {
      assert HeadInv(t, t.heads[h]);
    }
  }

  // ---- Whole runs ----------------------------------------------------------

  /** The weight of the first `k` heads. */
  function TotalWeight(s: State, k: nat): int
    requires k <= |s.heads|
  {
    if k == 0 then 0 else TotalWeight(s, k - 1) + Weight(s, s.heads[k - 1])
  }

  function TotalBacklog(s: State, k: nat): nat
    requires k <= |s.heads|
  {
    if k == 0 then 0 else TotalBacklog(s, k - 1) + Backlog(s, s.heads[k - 1])
  }

  lemma {:induction false} TotalsBounded(s: State, k: nat)
    requires HeadsInv(s) && AllPromised(s) && k <= |s.heads|
    ensures 0 <= TotalWeight(s, k) <= 8 * TotalBacklog(s, k) + k
  {
    if k > 0 {
      TotalsBounded(s, k - 1);
      assert HeadInv(s, s.heads[k - 1]);
      WeightBounds(s, s.heads[k - 1]);
    }
  }

  lemma {:induction false} OneHeadMoved(s: State, t: State, h: nat, k: nat)
    requires h < |s.heads| && k <= |s.heads|
    requires |t.heads| == |s.heads| && t == s.(heads := s.heads[h := t.heads[h]])
    ensures TotalWeight(t, k) - TotalWeight(s, k)
         == if h < k then Weight(t, t.heads[h]) - Weight(s, s.heads[h]) else 0
    ensures TotalBacklog(t, k) - TotalBacklog(s, k)
         == if h < k then Backlog(t, t.heads[h]) - Backlog(s, s.heads[h]) else 0
  {
    if k > 0 {
      OneHeadMoved(s, t, h, k - 1);
    }
  }

  lemma UsefulStepLowersTotal(s: State, step: Step)
    requires Inv(s) && Useful(s, step) && AllPromised(s)
    ensures var t := Apply(s, step);
            && Inv(t) && AllPromised(t) && |t.heads| == |s.heads| && t.tail == s.tail && t.log == s.log
            && TotalWeight(t, |t.heads|) < TotalWeight(s, |s.heads|)
            && TotalBacklog(t, |t.heads|) <= TotalBacklog(s, |s.heads|) - (if step.Consume? then 1 else 0)
  {
    UsefulStepLowersWeight(s, step);
    StepKeepsInv(s, step);
    var t := Apply(s, step);
    OneHeadMoved(s, t, step.h, |s.heads|);
    forall h | 0 <= h < |t.heads| ensures Promised(t, t.heads[h]) {
      assert Promised(s, s.heads[h]);
    }
  }

  predicate AllPublished(s: State)
  {
    forall h | 0 <= h < |s.heads| :: s.heads[h].published == s.tail
  }

  /** A run of useful consumer steps only. */
  predicate UsefulRun(s: State, steps: seq<Step>, t: State)
    decreases |steps|
  {
    if steps == [] then s == t
    else Useful(s, steps[0]) && UsefulRun(Apply(s, steps[0]), steps[1..], t)
  }

  /** How many entries a run retires. */
  function Consumes(steps: seq<Step>): nat
  {
    if steps == [] then 0 else (if steps[0].Consume? then 1 else 0) + Consumes(steps[1..])
  }

  /**
   * No schedule of useful steps is longer than eight per unread entry plus one
   * per head, and none retires more entries than the heads were behind.
   */
  lemma {:induction false} EveryUsefulRunIsShort(s: State, steps: seq<Step>, t: State)
    requires Inv(s) && AllPromised(s) && UsefulRun(s, steps, t)
    ensures Inv(t) && AllPromised(t) && t.tail == s.tail && t.log == s.log && |t.heads| == |s.heads|
    ensures |steps| <= TotalWeight(s, |s.heads|) <= 8 * TotalBacklog(s, |s.heads|) + |s.heads|
    ensures Consumes(steps) <= TotalBacklog(s, |s.heads|)
    decreases |steps|
  {
    TotalsBounded(s, |s.heads|);
    if steps != [] {
      UsefulStepLowersTotal(s, steps[0]);
      EveryUsefulRunIsShort(Apply(s, steps[0]), steps[1..], t);
    }
  }

  // ---- Runs that others share ----------------------------------------------

  /** A step that neither moves the tail nor begins a drain past it. */
  predicate TailStands(s: State, step: Step)
  {
    Enabled(s, step) && !step.StoreTail? && !step.Reset? && (step.DrainBegin? ==> Useful(s, step))
  }

  predicate TailStandsThrough(s: State, steps: seq<Step>)
    decreases |steps|
  {
    steps == [] || (TailStands(s, steps[0]) && TailStandsThrough(Apply(s, steps[0]), steps[1..]))
  }

  /** How many steps of a run are useful to their consumers. */
  function UsefulSteps(s: State, steps: seq<Step>): nat
    decreases |steps|
  {
    if steps == [] || !Enabled(s, steps[0]) then 0
    else (if Useful(s, steps[0]) then 1 else 0) + UsefulSteps(Apply(s, steps[0]), steps[1..])
  }

  /** No head has more or less to do in `t` than in `s`. */
  ghost predicate SameWork(s: State, t: State)
  {
    && t.tail == s.tail && t.log == s.log && |t.heads| == |s.heads|
    && forall h | 0 <= h < |s.heads| ::
         && Weight(t, t.heads[h]) == Weight(s, s.heads[h]) && Backlog(t, t.heads[h]) == Backlog(s, s.heads[h])
         && (Promised(s, s.heads[h]) ==> Promised(t, t.heads[h]))
  }

  lemma SameHeadsSameWork(s: State, t: State)
    requires t.tail == s.tail && t.log == s.log && t.heads == s.heads
    ensures SameWork(s, t)
  {
  }

  lemma OneHeadSameWork(s: State, t: State, h: nat)
    requires h < |s.heads| == |t.heads| && t == s.(heads := s.heads[h := t.heads[h]])
    requires Weight(t, t.heads[h]) == Weight(s, s.heads[h]) && Backlog(t, t.heads[h]) == Backlog(s, s.heads[h])
    requires Promised(s, s.heads[h]) ==> Promised(t, t.heads[h])
    ensures SameWork(s, t)
  {
  }

  /** A step of some consumer's own. */
  predicate OfAHead(step: Step)
  {
    step.PeekTail? || step.PeekSlot? || step.Consume? || step.Publish? || step.Flush?
    || step.DrainBegin? || step.DrainReload? || step.DrainRead? || step.DrainDone?
  }

  lemma OutsideStepKeepsWork(s: State, step: Step)
    requires TailStands(s, step) && !OfAHead(step)
    ensures SameWork(s, Apply(s, step))
  {
    var t := Apply(s, step);
    assert t.tail == s.tail && t.log == s.log && t.heads == s.heads;
    hide Apply, Enabled, TailStands, SameWork;
    SameHeadsSameWork(s, t);
  }

  lemma IdleStepKeepsWork(s: State, step: Step)
    requires Inv(s) && TailStands(s, step) && !Useful(s, step) && OfAHead(step)
    ensures SameWork(s, Apply(s, step)) && !step.Consume?
  {
    hide ProducerInv, ObserverInv, SlotsInv, BatchesInv, PromisedBatch, SameWork;
    assert HeadInv(s, s.heads[step.h]);
    OneHeadSameWork(s, Apply(s, step), step.h);
  }

  /** Producers, observers and a consumer with nothing new to find leave every head's work as it was. */
  lemma OtherStepKeepsWork(s: State, step: Step)
    requires Inv(s) && TailStands(s, step) && !Useful(s, step)
    ensures SameWork(s, Apply(s, step)) && !step.Consume?
  {
    hide Apply, Inv, SameWork, Useful;
    if OfAHead(step) {
      IdleStepKeepsWork(s, step);
    } else {
      OutsideStepKeepsWork(s, step);
    }
  }

  lemma {:induction false} SameWorkSameTotals(s: State, t: State, k: nat)
    requires SameWork(s, t) && k <= |s.heads|
    ensures TotalWeight(t, k) == TotalWeight(s, k) && TotalBacklog(t, k) == TotalBacklog(s, k)
  {
    hide Weight, Backlog;
    if k > 0 {
      SameWorkSameTotals(s, t, k - 1);
    }
  }

  lemma SameWorkKeepsPromises(s: State, t: State)
    requires SameWork(s, t) && AllPromised(s)
    ensures AllPromised(t)
  {
    forall h | 0 <= h < |t.heads| ensures Promised(t, t.heads[h]) {
      assert Promised(s, s.heads[h]);
    }
  }

  /**
   * While the tail stands still, whatever else goes on (producers taking the
   * lock, scanning and being refused, observers asking, consumers polling), no
   * run holds more useful consumer steps than eight per unread entry plus one
   * per head, nor retires more entries than the heads were behind.
   */
  lemma {:induction false} EveryRunIsShort(s: State, steps: seq<Step>, t: State)
    requires Inv(s) && AllPromised(s) && Runs(s, steps, t) && TailStandsThrough(s, steps)
    ensures Inv(t) && AllPromised(t) && t.tail == s.tail && t.log == s.log
    ensures UsefulSteps(s, steps) <= TotalWeight(s, |s.heads|) <= 8 * TotalBacklog(s, |s.heads|) + |s.heads|
    ensures Consumes(steps) <= TotalBacklog(s, |s.heads|)
    decreases |steps|
  {
    TotalsBounded(s, |s.heads|);
    if steps != [] {
      var m := Apply(s, steps[0]);
      if Useful(s, steps[0]) {
        UsefulStepLowersTotal(s, steps[0]);
      } else {
        StepKeepsInv(s, steps[0]);
        OtherStepKeepsWork(s, steps[0]);
        SameWorkSameTotals(s, m, |s.heads|);
        SameWorkKeepsPromises(s, m);
      }
      hide Apply, Enabled, Useful, Inv, AllPromised, SameWork;
      EveryRunIsShort(m, steps[1..], t);
    }
  }

  /** From any state the consumers alone can bring every head to the tail, published. */
  lemma {:induction false} ConsumersReachTheTail(s: State) returns (steps: seq<Step>, t: State)
    requires Inv(s) && AllPromised(s)
    ensures UsefulRun(s, steps, t) && AllPublished(t) && Inv(t)
    ensures t.tail == s.tail && t.log == s.log && t.prod == s.prod && t.depth == s.depth
    ensures |steps| <= 8 * TotalBacklog(s, |s.heads|) + |s.heads|
    decreases TotalWeight(s, |s.heads|)
  {
    TotalsBounded(s, |s.heads|);
    if AllPublished(s) {
      steps, t := [], s;
    } else {
      var h :| 0 <= h < |s.heads| && s.heads[h].published != s.tail;
      var step := UsefulStepExists(s, h);
      UsefulStepLowersTotal(s, step);
      UsefulStepLowersWeight(s, step);
      var s' := Apply(s, step);
      TotalsBounded(s', |s'.heads|);
      var rest;
      rest, t := ConsumersReachTheTail(s');
      steps := [step] + rest;
      assert steps[1..] == rest;
      EveryUsefulRunIsShort(s, steps, t);
    }
  }

  // ---- A push carried through ----------------------------------------------

  /** Every head is published at `p` or later, and `n` more entries fit behind `p`. */
  ghost predicate RoomBehind(s: State, p: nat, n: nat)
  {
    p <= s.tail && s.tail + n <= p + s.depth - 1 && forall h | 0 <= h < |s.heads| :: p <= s.heads[h].published
  }

  /** A scan that finds room everywhere ends in writing. */
  lemma {:induction false} ScanIsAccepted(s: State, p: nat) returns (steps: seq<Step>, t: State)
    requires Inv(s) && s.prod.Scanning? && RoomBehind(s, p, |s.prod.es|)
    requires s.prod.k > 0 ==> p <= s.prod.slow
    ensures Runs(s, steps, t) && Inv(t)
    ensures t == s.(shadowHead := t.shadowHead, prod := Writing(s.prod.kind, s.prod.es, 0))
    ensures |steps| == |s.heads| - s.prod.k + 1
    decreases |s.heads| - s.prod.k
  {
    if s.prod.k == |s.heads| {
      RefusesExactlyWhenFull(s.prod.kind, s.tail, s.prod.slow, |s.prod.es|, s.depth);
      RunsOne(s, Decide);
      DecideKeepsInv(s);
      steps, t := [Decide], Apply(s, Decide);
    } else {
      ScanHeadKeepsInv(s);
      var rest;
      rest, t := ScanIsAccepted(Apply(s, ScanHead), p);
      steps := [ScanHead] + rest;
      RunsCons(s, ScanHead, rest, t);
    }
  }

  /** A producer under the lock with room behind every head gets to its first slot write. */
  lemma LockedIsAccepted(s: State, p: nat) returns (steps: seq<Step>, t: State)
    requires Inv(s) && s.prod.Locked? && RoomBehind(s, p, |s.prod.es|)
    ensures Runs(s, steps, t) && Inv(t)
    ensures t == s.(shadowHead := t.shadowHead, prod := Writing(s.prod.kind, s.prod.es, 0))
    ensures |steps| <= |s.heads| + 2
  {
    var s1 := Apply(s, LoadTail);
    LoadTailKeepsInv(s);
    if s1.prod.Writing? {
      RunsOne(s, LoadTail);
      steps, t := [LoadTail], s1;
    } else {
      var rest;
      rest, t := ScanIsAccepted(s1, p);
      RunsCons(s, LoadTail, rest, t);
      steps := [LoadTail] + rest;
    }
  }

  /**
   * With every head published at the tail, a producer that takes the lock for
   * anything smaller than the ring gets through: its own next steps lead to
   * the first slot write, never to a refusal.
   */
  lemma RetryIsAccepted(s: State) returns (steps: seq<Step>, t: State)
    requires Inv(s) && AllPublished(s) && s.prod.Locked? && |s.prod.es| < s.depth
    ensures Runs(s, steps, t) && t.prod == Writing(s.prod.kind, s.prod.es, 0) && t.log == s.log
    ensures |steps| <= |s.heads| + 2
  {
    steps, t := LockedIsAccepted(s, s.tail);
  }

  /** `t` is `s` with the unit `es` published and the lock free. */
  ghost predicate PublishedUnit(s: State, es: seq<Entry>, t: State)
  {
    && t == s.(buf := t.buf, shadowHead := t.shadowHead, tail := s.tail + |es|, log := s.log + es,
               prod := Free, batches := t.batches)
    && s.batches <= t.batches
  }

  /** A producer that has begun to write publishes its whole unit and unlocks. */
  lemma {:induction false} WritingEnds(s: State) returns (steps: seq<Step>, t: State)
    requires Inv(s) && s.prod.Writing?
    ensures Runs(s, steps, t) && Inv(t) && PublishedUnit(s, s.prod.es, t)
    ensures s.prod.kind.Batch? ==> (s.tail, s.prod.es) in t.batches
    ensures |steps| <= |s.prod.es| - s.prod.i + 2
    decreases |s.prod.es| - s.prod.i
  {
    hide HeadsInv, SlotsInv, ObserverInv, BatchesInv, Runs;
    if s.prod.i == |s.prod.es| {
      StoreTailKeepsInv(s);
      var m := Apply(s, StoreTail);
      LockKeepsInv(m, Unlock);
      t := Apply(m, Unlock);
      RunsOne(m, Unlock);
      RunsCons(s, StoreTail, [Unlock], t);
      steps := [StoreTail] + [Unlock];
    } else {
      WriteSlotKeepsInv(s);
      var rest;
      rest, t := WritingEnds(Apply(s, WriteSlot));
      RunsCons(s, WriteSlot, rest, t);
      steps := [WriteSlot] + rest;
    }
  }

  /** A push with room behind every head, from taking the lock to releasing it. */
  lemma PushGoesThrough(s: State, kind: Kind, es: seq<Entry>, p: nat) returns (steps: seq<Step>, t: State)
    requires Inv(s) && s.prod.Free? && WellSized(kind, |es|, s.depth) && RoomBehind(s, p, |es|)
    ensures Runs(s, steps, t) && Inv(t) && PublishedUnit(s, es, t)
    ensures kind.Batch? ==> (s.tail, es) in t.batches
    ensures |steps| <= |s.heads| + |es| + 5
  {
    hide HeadsInv, SlotsInv, ObserverInv, BatchesInv, ProducerInv, Runs;
    LockKeepsInv(s, Lock(kind, es));
    var s1 := Apply(s, Lock(kind, es));
    var admit, s2 := LockedIsAccepted(s1, p);
    var write;
    write, t := WritingEnds(s2);
    RunsCompose(s1, admit, s2, write, t);
    RunsCons(s, Lock(kind, es), admit + write, t);
    steps := [Lock(kind, es)] + (admit + write);
  }

  /** What the lock holder has still to publish. */
  function Pending(s: State): seq<Entry>
  {
    if s.prod.Locked? || s.prod.Scanning? || s.prod.Writing? then s.prod.es else []
  }

  /** `t` is `s` with the lock free and the holder's unit published whole or not at all. */
  ghost predicate HolderDone(s: State, t: State)
  {
    t.prod.Free? && t.heads == s.heads && t.depth == s.depth && (t.log == s.log || t.log == s.log + Pending(s))
  }

  lemma {:induction false} ScanEnds(s: State) returns (steps: seq<Step>, t: State)
    requires Inv(s) && s.prod.Scanning?
    ensures Runs(s, steps, t) && Inv(t) && HolderDone(s, t)
    ensures |steps| <= |s.heads| - s.prod.k + |s.prod.es| + 3
    decreases |s.heads| - s.prod.k
  {
    hide HeadsInv, SlotsInv, ObserverInv, BatchesInv, Runs;
    var step := if s.prod.k == |s.heads| then Decide else ScanHead;
    StepKeepsInv(s, step);
    var m := Apply(s, step);
    var rest;
    if step.ScanHead? {
      rest, t := ScanEnds(m);
    } else if m.prod.Writing? {
      rest, t := WritingEnds(m);
    } else {
      rest, t := [], m;
      assert Runs(m, [], m) by { RunsNone(m); }
    }
    RunsCons(s, step, rest, t);
    steps := [step] + rest;
  }

  lemma RunsNone(s: State)
    ensures Runs(s, [], s)
  {
  }

  /** Whoever holds the lock can finish alone, refused or not. */
  lemma HolderFinishes(s: State) returns (steps: seq<Step>, t: State)
    requires Inv(s)
    ensures Runs(s, steps, t) && Inv(t) && HolderDone(s, t)
    ensures |steps| <= |s.heads| + |Pending(s)| + 4
  {
    hide HeadsInv, SlotsInv, ObserverInv, BatchesInv, Runs;
    match s.prod {
      case Free =>
        RunsNone(s);
        steps, t := [], s;
      case Stored =>
        LockKeepsInv(s, Unlock);
        RunsOne(s, Unlock);
        steps, t := [Unlock], Apply(s, Unlock);
      case Writing(_, _, _) => steps, t := WritingEnds(s);
      case Scanning(_, _, _, _) => steps, t := ScanEnds(s);
      case Locked(_, _) =>
        LoadTailKeepsInv(s);
        var m := Apply(s, LoadTail);
        var rest;
        if m.prod.Writing? {
          rest, t := WritingEnds(m);
        } else {
          rest, t := ScanEnds(m);
        }
        RunsCons(s, LoadTail, rest, t);
        steps := [LoadTail] + rest;
    }
  }

  lemma {:induction false} UsefulRunRuns(s: State, steps: seq<Step>, t: State)
    requires UsefulRun(s, steps, t)
    ensures Runs(s, steps, t)
    decreases |steps|
  {
    if steps != [] {
      UsefulRunRuns(Apply(s, steps[0]), steps[1..], t);
    }
  }

  /** A unit published meanwhile adds its length to each head's backlog. */
  lemma {:induction false} BacklogGrows(s: State, t: State, n: nat, k: nat)
    requires t.heads == s.heads && s.tail <= t.tail <= s.tail + n && k <= |s.heads|
    requires forall h | 0 <= h < |s.heads| :: s.heads[h].local <= s.tail
    ensures TotalBacklog(t, k) <= TotalBacklog(s, k) + k * n
  {
    if k > 0 {
      BacklogGrows(s, t, n, k - 1);
      assert k * n == (k - 1) * n + n;
    }
  }

  /** A bound on the steps that carry `n` more entries through from `s`. */
  function StepsNeeded(s: State, n: nat): int
  {
    8 * (TotalBacklog(s, |s.heads|) + |s.heads| * |Pending(s)|) + 3 * |s.heads| + |Pending(s)| + n + 9
  }

  /** The holder and then the consumers finish: the lock is free and every head is at the tail. */
  lemma EveryoneFinishes(s: State) returns (steps: seq<Step>, t: State)
    requires Inv(s) && AllPromised(s)
    ensures Runs(s, steps, t) && Inv(t) && t.prod.Free? && AllPublished(t) && t.depth == s.depth
    ensures |t.heads| == |s.heads| && (t.log == s.log || t.log == s.log + Pending(s))
    ensures |steps| <= 8 * (TotalBacklog(s, |s.heads|) + |s.heads| * |Pending(s)|) + 2 * |s.heads| + |Pending(s)| + 4
  {
    var hold, s1 := HolderFinishes(s);
    assert AllPromised(s1) by {
      forall h | 0 <= h < |s1.heads| ensures Promised(s1, s1.heads[h]) {
        assert Promised(s, s.heads[h]);
      }
    }
    forall h | 0 <= h < |s.heads| ensures s.heads[h].local <= s.tail {
      assert HeadInv(s, s.heads[h]);
    }
    BacklogGrows(s, s1, |Pending(s)|, |s.heads|);
    hide HeadsInv, ProducerInv, SlotsInv, ObserverInv, BatchesInv, Runs, AllPromised;
    var drain;
    drain, t := ConsumersReachTheTail(s1);
    UsefulRunRuns(s1, drain, t);
    EveryUsefulRunIsShort(s1, drain, t);
    RunsCompose(s, hold, s1, drain, t);
    steps := hold + drain;
  }

  /**
   * A refused producer is never stuck: whoever holds the lock, some schedule
   * linear in the backlogs and the units carries a retry of any unit smaller
   * than the ring all the way to publication, and nothing but the holder's own
   * unit is published before it.
   */
  lemma RefusedPushGetsThrough(s: State, kind: Kind, es: seq<Entry>) returns (steps: seq<Step>, t: State)
    requires Inv(s) && AllPromised(s)
    requires WellSized(kind, |es|, s.depth) && |es| < s.depth
    ensures Runs(s, steps, t) && Inv(t) && t.prod.Free?
    ensures t.log == s.log + es || t.log == s.log + Pending(s) + es
    ensures |steps| <= StepsNeeded(s, |es|)
  {
    hide HeadsInv, ProducerInv, SlotsInv, ObserverInv, BatchesInv, Runs;
    var clear, m := EveryoneFinishes(s);
    var push;
    push, t := PushGoesThrough(m, kind, es, m.tail);
    RunsCompose(s, clear, m, push, t);
    steps := clear + push;
  }

  // ---- `is_empty` ----------------------------------------------------------

  /** An undisturbed `is_empty` over heads that are all published at the tail says true. */
  lemma {:induction false} EmptyIsSaid(s: State) returns (steps: seq<Step>, t: State)
    requires Inv(s) && AllPublished(s) && s.obs.TailSampled? && s.obs.t == s.tail
    ensures Runs(s, steps, t) && t == s.(obs := SaidEmpty(s.tail))
    decreases |s.heads| - s.obs.k
  {
    var m := Apply(s, AskHead);
    AskKeepsInv(s, AskHead);
    if m.obs.SaidEmpty? {
      RunsOne(s, AskHead);
      steps, t := [AskHead], m;
    } else {
      var rest;
      rest, t := EmptyIsSaid(m);
      RunsCons(s, AskHead, rest, t);
      steps := [AskHead] + rest;
    }
  }

  /** And one head behind the tail makes it say false, whatever the others. */
  lemma BehindIsNotEmpty(s: State, h: nat)
    requires Inv(s) && s.obs.TailSampled? && s.obs.t == s.tail && s.obs.k == h && s.heads[h].published != s.tail
    ensures Apply(s, AskHead).obs == Quiet
  {
    assert HeadInv(s, s.heads[h]);
    SameResidue(s.heads[h].published, s.tail, s.depth);
  }

  // ---- `is_empty_at` -------------------------------------------------------

  /**
   * `is_empty_at` loads the head before the tail, and says true exactly when the
   * tail then stands a whole number of laps past the head it sampled.  Under a
   * lap the answer is right: head `h` has consumed everything and is published
   * there.  In general it is right exactly when the head register reads, after
   * the tail was loaded, as it read before; so a caller could confirm it with
   * one more load, and a consumer may ask about its own head.
   */
  lemma EmptyAtAnswersExactly(s: State)
    requires Inv(s) && s.obs.HeadSampled?
    ensures var x, v, t := s.heads[s.obs.h], s.obs.v, Apply(s, AskTailAfter);
            && (t.obs.SaidEmptyAt? <==> Back(s.tail, v, s.depth) == 0)
            && (t.obs.SaidEmptyAt? && s.tail - v < s.depth ==> x.published == x.local == s.tail)
            && (t.obs.SaidEmptyAt? ==> (x.published == s.tail <==> Same(s, x.published, v)))
            && (t.obs.SaidEmptyAt? && !x.ctl.Publishing? ==> (x.local == s.tail <==> Same(s, x.published, v)))
            && (x.published == v ==> (t.obs.SaidEmptyAt? <==> x.published == s.tail))
  {
    hide ProducerInv, SlotsInv, BatchesInv;
    var x, v := s.heads[s.obs.h], s.obs.v;
    assert HeadInv(s, x);
    SameResidue(x.published, s.tail, s.depth);
    if s.tail - v < s.depth {
      SameResidue(v, s.tail, s.depth);
    }
    ZeroBack(s.tail, v, s.depth);
  }

  lemma ZeroBack(a: int, b: int, d: nat)
    requires d > 0
    ensures Back(a, b, d) == 0 <==> a % d == b % d
  {
    var r := a % d - b % d;
    assert 0 - d < r < d;
    if r >= 0 {
      Residue(r, 0, r, d);
    } else {
      Residue(r, -1, r + d, d);
    }
  }

  /** One push through an empty cache test, by a producer alone. */
  function Push1(e: Entry): seq<Step>
  {
    [Lock(One, [e]), LoadTail, WriteSlot, StoreTail, Unlock]
  }

  /** One entry read, retired and published. */
  function Read1(): seq<Step>
  {
    [PeekTail(0), PeekSlot(0), Consume(0), Publish(0)]
  }

  /** One push that finds the cache full and rescans the heads. */
  function Rescan1(e: Entry): seq<Step>
  {
    [Lock(One, [e]), LoadTail, ScanHead, Decide, WriteSlot, StoreTail]
  }

  /** A head sampled, then a whole lap of a ring of two slots and one head, its last entry unread. */
  function Lap(e: Entry): seq<Step>
  {
    [AskHeadAt(0)] + (Push1(e) + (Read1() + Rescan1(e)))
  }

  function AfterLap(e: Entry): State
  {
    State(2, [e, e], 2, 1, [Head(1, 1, 1, AtRest, [e])], Stored, HeadSampled(0, 0), [e, e], 0, {})
  }

  lemma LapRuns(e: Entry)
    ensures Runs(Init(2, 1, e), Lap(e), AfterLap(e))
  {
    var s0 := Init(2, 1, e);
    var x := Head(0, 0, 0, AtRest, []);
    assert s0 == State(2, [e, e], 0, 0, [x], Free, Quiet, [], 0, {});
    var s1 := s0.(obs := HeadSampled(0, 0));
    var s2 := s1.(tail := 1, log := [e]);
    var s3 := s2.(heads := [Head(1, 1, 1, AtRest, [e])]);
    Rescan1Runs(e, s3, AfterLap(e));
    Read1Runs(e, s2, s3);
    RunsCompose(s2, Read1(), s3, Rescan1(e), AfterLap(e));
    Push1Runs(e, s1, s2);
    RunsCompose(s1, Push1(e), s2, Read1() + Rescan1(e), AfterLap(e));
    RunsOne(s0, AskHeadAt(0));
    RunsCompose(s0, [AskHeadAt(0)], s1, Push1(e) + (Read1() + Rescan1(e)), AfterLap(e));
  }

  /** A reachable state in which `is_empty_at` has said true with an entry still unread. */
  lemma EmptyAtCanBeFooled(e: Entry) returns (t: State)
    ensures Reachable(2, 1, e, Lap(e) + [AskTailAfter], t)
    ensures t.obs.SaidEmptyAt? && |t.heads| == 1 && t.heads[0].local < t.tail == t.obs.t
    ensures t.tail - t.obs.v == t.depth
  {
    LapRuns(e);
    t := AfterLap(e).(obs := SaidEmptyAt(0, 0, 2));
    RunsSnoc(Init(2, 1, e), Lap(e), AfterLap(e), AskTailAfter);
  }

  /** The same lap, with the last entry read before the tail is loaded: now true is right. */
  lemma EmptyAtCanBeRightAfterALap(e: Entry) returns (t: State)
    ensures Reachable(2, 1, e, Lap(e) + Read1() + [AskTailAfter], t)
    ensures t.obs.SaidEmptyAt? && |t.heads| == 1 && t.heads[0].published == t.heads[0].local == t.tail == t.obs.t
    ensures t.tail - t.obs.v == t.depth
  {
    LapRuns(e);
    var m := AfterLap(e).(heads := [Head(2, 2, 2, AtRest, [e, e])]);
    LastReadRuns(e, AfterLap(e), m);
    RunsCompose(Init(2, 1, e), Lap(e), AfterLap(e), Read1(), m);
    t := m.(obs := SaidEmptyAt(0, 0, 2));
    RunsSnoc(Init(2, 1, e), Lap(e) + Read1(), m, AskTailAfter);
  }

  lemma LastReadRuns(e: Entry, s: State, t: State)
    requires s == AfterLap(e) && t == s.(heads := [Head(2, 2, 2, AtRest, [e, e])])
    ensures Runs(s, Read1(), t)
  {
    hide Runs;
    var a := s.(heads := [Head(1, 1, 2, AtRest, [e])]);
    var b := s.(heads := [Head(1, 1, 2, Peeked(e), [e])]);
    var c := s.(heads := [Head(1, 2, 2, Publishing, [e, e])]);
    assert Apply(c, Publish(0)) == t;
    RunsOne(c, Publish(0));
    assert b.heads[0].taken + [e] == [e, e];
    assert Apply(b, Consume(0)) == c;
    RunsCons(b, Consume(0), [Publish(0)], t);
    assert [Consume(0)] + [Publish(0)] == [Consume(0), Publish(0)];
    assert Apply(a, PeekSlot(0)) == b;
    RunsCons(a, PeekSlot(0), [Consume(0), Publish(0)], t);
    assert [PeekSlot(0)] + [Consume(0), Publish(0)] == [PeekSlot(0), Consume(0), Publish(0)];
    assert Apply(s, PeekTail(0)) == a;
    RunsCons(s, PeekTail(0), [PeekSlot(0), Consume(0), Publish(0)], t);
    assert [PeekTail(0)] + [PeekSlot(0), Consume(0), Publish(0)] == [PeekTail(0), PeekSlot(0), Consume(0), Publish(0)];
  }

  lemma Push1Runs(e: Entry, s: State, t: State)
    requires s == State(2, [e, e], 0, 0, [Head(0, 0, 0, AtRest, [])], Free, HeadSampled(0, 0), [], 0, {})
    requires t == s.(tail := 1, log := [e])
    ensures Runs(s, Push1(e), t)
  {
    hide Runs;
    var a := s.(prod := Locked(One, [e]));
    var b := s.(prod := Writing(One, [e], 0));
    var c := s.(prod := Writing(One, [e], 1));
    var d := t.(prod := Stored);
    assert Apply(c, StoreTail) == d;
    RunsOne(d, Unlock);
    RunsCons(c, StoreTail, [Unlock], t);
    assert [StoreTail] + [Unlock] == [StoreTail, Unlock];
    assert Apply(b, WriteSlot) == c;
    RunsCons(b, WriteSlot, [StoreTail, Unlock], t);
    assert [WriteSlot] + [StoreTail, Unlock] == [WriteSlot, StoreTail, Unlock];
    assert Apply(a, LoadTail) == b;
    RunsCons(a, LoadTail, [WriteSlot, StoreTail, Unlock], t);
    assert [LoadTail] + [WriteSlot, StoreTail, Unlock] == [LoadTail, WriteSlot, StoreTail, Unlock];
    assert Apply(s, Lock(One, [e])) == a;
    RunsCons(s, Lock(One, [e]), [LoadTail, WriteSlot, StoreTail, Unlock], t);
    assert [Lock(One, [e])] + [LoadTail, WriteSlot, StoreTail, Unlock] == [Lock(One, [e]), LoadTail, WriteSlot, StoreTail, Unlock];
  }

  lemma Read1Runs(e: Entry, s: State, t: State)
    requires s == State(2, [e, e], 1, 0, [Head(0, 0, 0, AtRest, [])], Free, HeadSampled(0, 0), [e], 0, {})
    requires t == s.(heads := [Head(1, 1, 1, AtRest, [e])])
    ensures Runs(s, Read1(), t)
  {
    hide Runs;
    var a := s.(heads := [Head(0, 0, 1, AtRest, [])]);
    var b := s.(heads := [Head(0, 0, 1, Peeked(e), [])]);
    var c := s.(heads := [Head(0, 1, 1, Publishing, [e])]);
    assert Apply(c, Publish(0)) == t;
    RunsOne(c, Publish(0));
    assert b.heads[0].taken + [e] == [e];
    assert Apply(b, Consume(0)) == c;
    RunsCons(b, Consume(0), [Publish(0)], t);
    assert [Consume(0)] + [Publish(0)] == [Consume(0), Publish(0)];
    assert Apply(a, PeekSlot(0)) == b;
    RunsCons(a, PeekSlot(0), [Consume(0), Publish(0)], t);
    assert [PeekSlot(0)] + [Consume(0), Publish(0)] == [PeekSlot(0), Consume(0), Publish(0)];
    assert Apply(s, PeekTail(0)) == a;
    RunsCons(s, PeekTail(0), [PeekSlot(0), Consume(0), Publish(0)], t);
    assert [PeekTail(0)] + [PeekSlot(0), Consume(0), Publish(0)] == [PeekTail(0), PeekSlot(0), Consume(0), Publish(0)];
  }

  lemma Rescan1Runs(e: Entry, s: State, t: State)
    requires s == State(2, [e, e], 1, 0, [Head(1, 1, 1, AtRest, [e])], Free, HeadSampled(0, 0), [e], 0, {})
    requires t == s.(tail := 2, shadowHead := 1, prod := Stored, log := [e, e])
    ensures Runs(s, Rescan1(e), t)
  {
    var c := s.(prod := Scanning(One, [e], 1, 1));
    RescanFinds(e, s, c);
    RescanPushes(e, s, c, t);
    hide Runs;
    RunsCompose(s, [Lock(One, [e]), LoadTail, ScanHead], c, [Decide, WriteSlot, StoreTail], t);
    assert [Lock(One, [e]), LoadTail, ScanHead] + [Decide, WriteSlot, StoreTail] == Rescan1(e);
  }

  lemma RescanFinds(e: Entry, s: State, c: State)
    requires s == State(2, [e, e], 1, 0, [Head(1, 1, 1, AtRest, [e])], Free, HeadSampled(0, 0), [e], 0, {})
    requires c == s.(prod := Scanning(One, [e], 1, 1))
    ensures Runs(s, [Lock(One, [e]), LoadTail, ScanHead], c)
  {
    hide Runs;
    var a := s.(prod := Locked(One, [e]));
    var b := s.(prod := Scanning(One, [e], 0, 0));
    assert Apply(b, ScanHead) == c;
    RunsOne(b, ScanHead);
    assert Apply(a, LoadTail) == b;
    RunsCons(a, LoadTail, [ScanHead], c);
    assert [LoadTail] + [ScanHead] == [LoadTail, ScanHead];
    assert Apply(s, Lock(One, [e])) == a;
    RunsCons(s, Lock(One, [e]), [LoadTail, ScanHead], c);
    assert [Lock(One, [e])] + [LoadTail, ScanHead] == [Lock(One, [e]), LoadTail, ScanHead];
  }

  lemma RescanPushes(e: Entry, s: State, c: State, t: State)
    requires s == State(2, [e, e], 1, 0, [Head(1, 1, 1, AtRest, [e])], Free, HeadSampled(0, 0), [e], 0, {})
    requires c == s.(prod := Scanning(One, [e], 1, 1))
    requires t == s.(tail := 2, shadowHead := 1, prod := Stored, log := [e, e])
    ensures Runs(c, [Decide, WriteSlot, StoreTail], t)
  {
    hide Runs;
    var d := s.(shadowHead := 1, prod := Writing(One, [e], 0));
    var f := s.(shadowHead := 1, prod := Writing(One, [e], 1));
    assert Apply(f, StoreTail) == t;
    RunsOne(f, StoreTail);
    assert Apply(d, WriteSlot) == f;
    RunsCons(d, WriteSlot, [StoreTail], t);
    assert [WriteSlot] + [StoreTail] == [WriteSlot, StoreTail];
    assert Apply(c, Decide) == d;
    RunsCons(c, Decide, [WriteSlot, StoreTail], t);
    assert [Decide] + [WriteSlot, StoreTail] == [Decide, WriteSlot, StoreTail];
  }
}
