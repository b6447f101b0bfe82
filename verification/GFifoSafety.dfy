/**
 * Safety of the graphics FIFO over every interleaving: the invariant is kept by
 * each step, and what it gives the consumers, the producers and the observer.
 */
module GFifoSafety {
  import opened RingIndex
  import opened GFifoSteps

  // ---- The invariant is inductive ------------------------------------------

  /** A head's part of the invariant depends on the log and the shared counters only. */
  lemma SameLogSameHeadInv(s: State, t: State, x: Head)
    requires t.log == s.log && t.tail == s.tail && t.shadowHead == s.shadowHead
    requires t.origin == s.origin && t.batches == s.batches
    ensures HeadInv(s, x) <==> HeadInv(t, x)
  {
  }

  lemma SetProducerKeepsInv(s: State, p: Producer)
    requires Inv(s) && ProducerInv(s.(prod := p))
    ensures Inv(s.(prod := p))
  {
    hide ProducerInv, HeadInv;
    var t := s.(prod := p);
    forall k | 0 <= k < |t.heads| ensures HeadInv(t, t.heads[k]) {
      assert HeadInv(s, s.heads[k]);
      SameLogSameHeadInv(s, t, t.heads[k]);
    }
    assert forall y: nat :: Slot(t, y) == Slot(s, y);
  }

  lemma ScanHeadKeepsInv(s: State)
    requires Inv(s) && Enabled(s, ScanHead)
    ensures Inv(AfterScanHead(s))
  {
    hide ObserverInv, BatchesInv, SlotsInv;
    var p := s.prod;
    var v := s.heads[p.k].published;
    assert HeadInv(s, s.heads[p.k]);
    Distance(s.tail, v, s.depth);
    if p.k > 0 {
      Distance(s.tail, p.slow, s.depth);
    }
    SetProducerKeepsInv(s, AfterScanHead(s).prod);
  }

  lemma DecideKeepsInv(s: State)
    requires Inv(s) && Enabled(s, Decide)
    ensures Inv(AfterDecide(s))
  {
    var p := s.prod;
    RefusesExactlyWhenFull(p.kind, s.tail, p.slow, |p.es|, s.depth);
    var t := AfterDecide(s);
    forall h | 0 <= h < |t.heads| ensures HeadInv(t, t.heads[h]) {
      assert HeadInv(s, s.heads[h]);
      assert p.slow <= s.heads[h].published;
    }
    assert forall x | t.shadowHead <= x < t.tail :: Slot(t, x) == Slot(s, x);
  }

  lemma LoadTailKeepsInv(s: State)
    requires Inv(s) && Enabled(s, LoadTail)
    ensures Inv(AfterLoadTail(s))
  {
    var p := s.prod;
    RefusesExactlyWhenFull(p.kind, s.tail, s.shadowHead, |p.es|, s.depth);
    SetProducerKeepsInv(s, AfterLoadTail(s).prod);
  }

  /**
   * The slot a producer is about to write is one every head has passed: it
   * differs from the slot of every entry still ahead of any head.
   */
  lemma WritesOnlyPassedSlots(s: State, x: nat)
    requires Inv(s) && Enabled(s, WriteSlot)
    requires s.shadowHead <= x < s.tail + |s.prod.es| && x != s.tail + s.prod.i
    ensures x % s.depth != (s.tail + s.prod.i) % s.depth
  {
    SameResidue(x, s.tail + s.prod.i, s.depth);
  }

  lemma WriteSlotKeepsInv(s: State)
    requires Inv(s) && Enabled(s, WriteSlot)
    ensures Inv(AfterWriteSlot(s))
  {
    var t := AfterWriteSlot(s);
    forall x | s.shadowHead <= x < s.tail + |s.prod.es| && x != s.tail + s.prod.i
      ensures Slot(t, x) == Slot(s, x)
    {
      WritesOnlyPassedSlots(s, x);
    }
    assert forall h | 0 <= h < |t.heads| :: HeadInv(s, t.heads[h]) ==> HeadInv(t, t.heads[h]);
  }

  lemma StoreTailKeepsHead(s: State, x: Head)
    requires Inv(s) && Enabled(s, StoreTail) && HeadInv(s, x)
    ensures HeadInv(AfterStoreTail(s), x)
  {
    hide ProducerInv, ObserverInv, SlotsInv, HeadsInv;
    var t := AfterStoreTail(s);
    assert t.log[t.origin..x.local] == s.log[s.origin..x.local];
    if x.ctl.Draining? {
      assert t.log[x.local + 1..x.ctl.at] == s.log[x.local + 1..x.ctl.at];
      if PromisedBatch(t, x.local, x.ctl.n) {
        var b :| b in t.batches && b.0 == x.local && |b.1| == x.ctl.n + 1;
        assert b in s.batches;
      }
    }
  }

  lemma StoreTailKeepsBatches(s: State)
    requires Inv(s) && Enabled(s, StoreTail)
    ensures BatchesInv(AfterStoreTail(s))
  {
    hide ObserverInv, SlotsInv, HeadsInv;
    var t := AfterStoreTail(s);
    forall b | b in t.batches ensures BatchAt(t.log, b) {
      if b in s.batches {
        assert BatchAt(s.log, b);
        assert t.log[b.0..b.0 + |b.1|] == s.log[b.0..b.0 + |b.1|];
      }
    }
  }

  lemma StoreTailKeepsSlots(s: State)
    requires Inv(s) && Enabled(s, StoreTail)
    ensures SlotsInv(AfterStoreTail(s))
  {
    hide ObserverInv, HeadsInv, BatchesInv;
    var t := AfterStoreTail(s);
    forall x | t.shadowHead <= x < t.tail ensures Slot(t, x) == t.log[x] {
      if x < s.tail {
        assert Slot(s, x) == s.log[x];
      } else {
        assert Slot(s, s.tail + (x - s.tail)) == s.prod.es[x - s.tail];
      }
    }
  }

  lemma StoreTailKeepsInv(s: State)
    requires Inv(s) && Enabled(s, StoreTail)
    ensures Inv(AfterStoreTail(s))
  {
    hide HeadInv, SlotsInv, BatchesInv;
    var t := AfterStoreTail(s);
    StoreTailKeepsSlots(s);
    StoreTailKeepsBatches(s);
    forall h | 0 <= h < |t.heads| ensures HeadInv(t, t.heads[h]) {
      assert HeadInv(s, s.heads[h]);
      StoreTailKeepsHead(s, s.heads[h]);
    }
  }

  /** Moving one head keeps the whole invariant when that head's part is kept. */
  lemma SetHeadKeepsInv(s: State, h: nat, x: Head)
    requires Inv(s) && h < |s.heads|
    requires HeadInv(s, x) && s.heads[h].published <= x.published
    ensures Inv(SetHead(s, h, x))
  {
    hide HeadInv;
    var t := SetHead(s, h, x);
    assert HeadsInv(t) by {
      forall k | 0 <= k < |t.heads| ensures HeadInv(t, t.heads[k]) {
        assert HeadInv(s, t.heads[k]);
        SameLogSameHeadInv(s, t, t.heads[k]);
      }
    }
    assert ObserverInv(t);
    assert SlotsInv(t) by {
      assert forall y: nat :: Slot(t, y) == Slot(s, y);
    }
    assert ProducerInv(t) by {
      assert forall y: nat :: Slot(t, y) == Slot(s, y);
    }
  }

  lemma PeekKeepsInv(s: State, step: Step)
    requires Inv(s) && Enabled(s, step) && (step.PeekTail? || step.PeekSlot?)
    ensures Inv(Apply(s, step))
  {
    var x := s.heads[step.h];
    assert HeadInv(s, x);
    SameResidue(x.local, x.shadowTail, s.depth);
    if step.PeekTail? {
      SetHeadKeepsInv(s, step.h, x.(shadowTail := s.tail));
    } else {
      assert Slot(s, x.local) == s.log[x.local];
      SetHeadKeepsInv(s, step.h, x.(ctl := Peeked(Slot(s, x.local))));
    }
  }

  lemma ConsumeKeepsInv(s: State, h: nat)
    requires Inv(s) && Enabled(s, Consume(h))
    ensures Inv(AfterConsume(s, h))
  {
    var x := s.heads[h];
    assert HeadInv(s, x);
    SameResidue(x.local + 1, s.tail, s.depth);
    assert s.log[s.origin..x.local + 1] == s.log[s.origin..x.local] + [s.log[x.local]];
    SetHeadKeepsInv(s, h, AfterConsume(s, h).heads[h]);
  }

  lemma PublishKeepsInv(s: State, step: Step)
    requires Inv(s) && Enabled(s, step) && (step.Publish? || step.Flush?)
    ensures Inv(Apply(s, step))
  {
    var x := s.heads[step.h];
    assert HeadInv(s, x);
    SetHeadKeepsInv(s, step.h, Apply(s, step).heads[step.h]);
  }

  lemma DrainBeginKeepsInv(s: State, h: nat, n: nat)
    requires Inv(s) && Enabled(s, DrainBegin(h, n))
    ensures Inv(Apply(s, DrainBegin(h, n)))
  {
    hide ProducerInv, ObserverInv, SlotsInv;
    var x := s.heads[h];
    assert HeadInv(s, x);
    if PromisedBatch(s, x.local, n) {
      var b :| b in s.batches && b.0 == x.local && |b.1| == n + 1;
      assert BatchAt(s.log, b);
    }
    SetHeadKeepsInv(s, h, x.(ctl := Draining(x.ctl.e, n, x.local + 1, s.tail, [])));
  }

  lemma DrainReloadKeepsInv(s: State, h: nat)
    requires Inv(s) && Enabled(s, DrainReload(h))
    ensures Inv(Apply(s, DrainReload(h)))
  {
    hide ProducerInv, ObserverInv, SlotsInv, BatchesInv, PromisedBatch;
    var x := s.heads[h];
    assert HeadInv(s, x);
    SetHeadKeepsInv(s, h, x.(ctl := x.ctl.(seen := s.tail)));
  }

  lemma DrainReadKeepsInv(s: State, h: nat)
    requires Inv(s) && Enabled(s, DrainRead(h))
    ensures Inv(Apply(s, DrainRead(h)))
  {
    hide ProducerInv, ObserverInv, BatchesInv, PromisedBatch;
    var x := s.heads[h];
    var c := x.ctl;
    assert HeadInv(s, x);
    assert c.at < c.seen by {
      SameResidue(c.at, c.seen, s.depth);
    }
    assert Slot(s, c.at) == s.log[c.at];
    hide SlotsInv, Slot, Same;
    assert s.log[x.local + 1..c.at + 1] == s.log[x.local + 1..c.at] + [s.log[c.at]];
    SetHeadKeepsInv(s, h, x.(ctl := c.(got := c.got + [Slot(s, c.at)], at := c.at + 1)));
  }

  lemma DrainDoneKeepsInv(s: State, h: nat)
    requires Inv(s) && Enabled(s, DrainDone(h))
    ensures Inv(AfterDrainDone(s, h))
  {
    hide ProducerInv, ObserverInv, BatchesInv, SlotsInv, PromisedBatch;
    var x := s.heads[h];
    assert HeadInv(s, x);
    var read := [x.ctl.token] + x.ctl.got;
    assert read == s.log[x.local..x.ctl.at];
    assert s.log[s.origin..x.ctl.at - 1] == s.log[s.origin..x.local] + read[..x.ctl.n];
    assert read[x.ctl.n] == s.log[x.ctl.at - 1];
    SetHeadKeepsInv(s, h, AfterDrainDone(s, h).heads[h]);
  }

  lemma SetObserverKeepsInv(s: State, o: Observer)
    requires Inv(s) && ObserverInv(s.(obs := o))
    ensures Inv(s.(obs := o))
  {
    hide HeadInv;
    var t := s.(obs := o);
    assert HeadsInv(t) by {
      forall k | 0 <= k < |t.heads| ensures HeadInv(t, t.heads[k]) {
        assert HeadInv(s, s.heads[k]);
        SameLogSameHeadInv(s, t, t.heads[k]);
      }
    }
    assert SlotsInv(t) && ProducerInv(t) by {
      assert forall y: nat :: Slot(t, y) == Slot(s, y);
    }
  }

  lemma AskKeepsInv(s: State, step: Step)
    requires Inv(s) && Enabled(s, step)
    requires step.AskTail? || step.AskHead? || step.AskHeadAt? || step.AskTailAfter? || step.Forget?
    ensures Inv(Apply(s, step))
  {
    if step.AskHead? {
      AskHeadKeepsObserver(s);
    } else if step.AskTail? {
      assert HeadInv(s, s.heads[0]);
    }
    SetObserverKeepsInv(s, Apply(s, step).obs);
  }

  /**
   * A published head sits less than a lap behind the tail, so one that reads
   * equal to the sampled tail has reached it.
   */
  lemma AskHeadKeepsObserver(s: State)
    requires Inv(s) && Enabled(s, AskHead)
    ensures ObserverInv(AfterAskHead(s))
  {
    var v := s.heads[s.obs.k].published;
    assert HeadInv(s, s.heads[s.obs.k]);
    if v < s.obs.t {
      SameResidue(v, s.obs.t, s.depth);
    }
  }

  lemma LockKeepsInv(s: State, step: Step)
    requires Inv(s) && Enabled(s, step) && (step.Lock? || step.Unlock?)
    ensures Inv(Apply(s, step))
  {
    SetProducerKeepsInv(s, Apply(s, step).prod);
  }

  lemma ResetKeepsInv(s: State, n: nat)
    requires Inv(s) && Enabled(s, Reset(n))
    ensures Inv(AfterReset(s, n))
  {
  }

  lemma StepKeepsInv(s: State, step: Step)
    requires Inv(s) && Enabled(s, step)
    ensures Inv(Apply(s, step))
  {
    hide HeadInv, ProducerInv, ObserverInv, SlotsInv, BatchesInv;
    match step
    case Lock(_, _) => LockKeepsInv(s, step);
    case Unlock => LockKeepsInv(s, step);
    case LoadTail => LoadTailKeepsInv(s);
    case ScanHead => ScanHeadKeepsInv(s);
    case Decide => DecideKeepsInv(s);
    case WriteSlot => WriteSlotKeepsInv(s);
    case StoreTail => StoreTailKeepsInv(s);
    case PeekTail(_) => PeekKeepsInv(s, step);
    case PeekSlot(_) => PeekKeepsInv(s, step);
    case Consume(h) => ConsumeKeepsInv(s, h);
    case Publish(_) => PublishKeepsInv(s, step);
    case Flush(_) => PublishKeepsInv(s, step);
    case DrainBegin(h, n) => DrainBeginKeepsInv(s, h, n);
    case DrainReload(h) => DrainReloadKeepsInv(s, h);
    case DrainRead(h) => DrainReadKeepsInv(s, h);
    case DrainDone(h) => DrainDoneKeepsInv(s, h);
    case Reset(n) => ResetKeepsInv(s, n);
    case AskTail => AskKeepsInv(s, step);
    case AskHead => AskKeepsInv(s, step);
    case AskHeadAt(_) => AskKeepsInv(s, step);
    case AskTailAfter => AskKeepsInv(s, step);
    case Forget => AskKeepsInv(s, step);
  }

  /** Every state any interleaving can reach satisfies the invariant. */
  lemma {:induction false} ReachableInv(s: State, steps: seq<Step>, t: State)
    requires Inv(s) && Runs(s, steps, t)
    ensures Inv(t)
    decreases |steps|
  {
    if steps != [] {
      StepKeepsInv(s, steps[0]);
      ReachableInv(Apply(s, steps[0]), steps[1..], t);
    }
  }

  // ---- What every interleaving guarantees ----------------------------------

  /** The ring reached `t` from its zeroed start by some interleaving. */
  ghost predicate Reachable(depth: nat, n: nat, zero: Entry, steps: seq<Step>, t: State)
  {
    depth > 0 && n > 0 && Runs(Init(depth, n, zero), steps, t)
  }

  lemma ReachableFromInit(depth: nat, n: nat, zero: Entry, steps: seq<Step>, t: State)
    requires Reachable(depth, n, zero, steps, t)
    ensures Inv(t)
  {
    var s := Init(depth, n, zero);
    assert Inv(s);
    ReachableInv(s, steps, t);
  }

  /**
   * Broadcast delivery: what a head has read out of the slots is exactly the
   * push order since the last reset up to where it stands.  No entry is lost,
   * repeated or reordered, and of two heads one has read a prefix of the other.
   */
  lemma EveryHeadReadsThePushOrder(depth: nat, n: nat, zero: Entry, steps: seq<Step>, t: State, h: nat, k: nat)
    requires Reachable(depth, n, zero, steps, t) && h < |t.heads| && k < |t.heads|
    ensures t.origin <= t.heads[h].local <= |t.log|
    ensures t.heads[h].taken == t.log[t.origin..t.heads[h].local]
    ensures t.heads[h].local <= t.heads[k].local ==> t.heads[h].taken <= t.heads[k].taken
  {
    ReachableFromInit(depth, n, zero, steps, t);
    assert HeadInv(t, t.heads[h]) && HeadInv(t, t.heads[k]);
  }

  /** The push order only grows: what was published once stays where it is. */
  lemma {:induction false} PushOrderOnlyGrows(s: State, steps: seq<Step>, t: State)
    requires Runs(s, steps, t)
    ensures s.log <= t.log
    decreases |steps|
  {
    if steps != [] {
      PushOrderOnlyGrows(Apply(s, steps[0]), steps[1..], t);
    }
  }

  /**
   * However stale the cached head and however late the heads are published, a
   * producer's slot write never lands on an entry some head has yet to pass.
   */
  lemma NoUnreadEntryIsOverwritten(depth: nat, n: nat, zero: Entry, steps: seq<Step>, t: State, h: nat, x: nat)
    requires Reachable(depth, n, zero, steps, t) && Enabled(t, WriteSlot)
    requires h < |t.heads| && t.heads[h].published <= x < t.tail
    ensures x < |t.log| && Slot(Apply(t, WriteSlot), x) == Slot(t, x) == t.log[x]
    ensures t.tail + |t.prod.es| - t.heads[h].published < depth
  {
    ReachableFromInit(depth, n, zero, steps, t);
    DepthIsConstant(Init(depth, n, zero), steps, t);
    assert HeadInv(t, t.heads[h]);
    WritesOnlyPassedSlots(t, x);
  }

  lemma {:induction false} DepthIsConstant(s: State, steps: seq<Step>, t: State)
    requires Runs(s, steps, t)
    ensures t.depth == s.depth
    decreases |steps|
  {
    if steps != [] {
      DepthIsConstant(Apply(s, steps[0]), steps[1..], t);
    }
  }

  /**
   * `is_empty` answering true: although it read the tail and the heads one by
   * one, every head has consumed every entry published when it read the tail.
   */
  lemma EmptyMeansConsumed(depth: nat, n: nat, zero: Entry, steps: seq<Step>, t: State, h: nat)
    requires Reachable(depth, n, zero, steps, t) && t.obs.SaidEmpty? && h < |t.heads|
    ensures t.origin <= t.obs.t <= t.heads[h].published <= t.heads[h].local <= |t.log|
    ensures t.log[t.origin..t.obs.t] <= t.heads[h].taken
  {
    ReachableFromInit(depth, n, zero, steps, t);
    assert HeadInv(t, t.heads[h]);
  }

  /** A head that has consumed everything is published at the tail, with no flush. */
  lemma CaughtUpHeadIsPublished(depth: nat, n: nat, zero: Entry, steps: seq<Step>, t: State, h: nat)
    requires Reachable(depth, n, zero, steps, t) && h < |t.heads|
    requires t.heads[h].ctl.AtRest? && t.heads[h].local == t.tail
    ensures t.heads[h].published == t.tail
  {
    ReachableFromInit(depth, n, zero, steps, t);
    assert HeadInv(t, t.heads[h]);
  }

  // ---- Multi-entry pushes --------------------------------------------------

  /** The entries the lock holder has still to publish. */
  predicate Pushing(s: State, es: seq<Entry>)
  {
    (s.prod.Locked? || s.prod.Scanning? || s.prod.Writing?) && s.prod.es == es
  }

  predicate NoLockIn(steps: seq<Step>)
  {
    forall i | 0 <= i < |steps| :: !steps[i].Lock?
  }

  /**
   * All or nothing: from the moment a push holds the lock until some producer
   * takes it again, the published order is either untouched or longer by the
   * whole unit, and it is untouched whenever the push was refused.
   */
  lemma {:induction false} PushIsAllOrNothing(s: State, steps: seq<Step>, t: State, es: seq<Entry>)
    requires Pushing(s, es) && Runs(s, steps, t) && NoLockIn(steps)
    ensures || (t.log == s.log && t.tail == s.tail && (Pushing(t, es) || t.prod.Free?))
            || (t.log == s.log + es && t.tail == s.tail + |es| && (t.prod.Stored? || t.prod.Free?))
    decreases |steps|
  {
    if steps != [] {
      assert !steps[0].Lock?;
      var s' := Apply(s, steps[0]);
      if Pushing(s', es) {
        PushIsAllOrNothing(s', steps[1..], t, es);
      } else {
        NothingPublishedWithoutALock(s', steps[1..], t);
      }
    }
  }

  lemma {:induction false} NothingPublishedWithoutALock(s: State, steps: seq<Step>, t: State)
    requires (s.prod.Free? || s.prod.Stored?) && Runs(s, steps, t) && NoLockIn(steps)
    ensures t.log == s.log && t.tail == s.tail && (t.prod.Free? || t.prod.Stored?)
    ensures s.prod.Free? ==> t.prod.Free?
    decreases |steps|
  {
    if steps != [] {
      assert !steps[0].Lock?;
      NothingPublishedWithoutALock(Apply(s, steps[0]), steps[1..], t);
    }
  }

  /** A consumer draining a pushed batch never finds its payload missing. */
  lemma BatchDrainNeverWaits(s: State, h: nat, es: seq<Entry>)
    requires Inv(s) && h < |s.heads| && s.heads[h].ctl.Draining?
    requires (s.heads[h].local, es) in s.batches && s.heads[h].ctl.n == |es| - 1
    ensures !Enabled(s, DrainReload(h))
    ensures s.heads[h].ctl.got == es[1..1 + |s.heads[h].ctl.got|]
  {
    var x := s.heads[h];
    assert HeadInv(s, x);
    SameResidue(x.ctl.at, x.ctl.seen, s.depth);
    assert BatchAt(s.log, (x.local, es));
    DrainReadsTheBatch(s, x, es);
  }

  lemma DrainReadsTheBatch(s: State, x: Head, es: seq<Entry>)
    requires HeadInv(s, x) && x.ctl.Draining?
    requires (x.local, es) in s.batches && BatchAt(s.log, (x.local, es)) && x.ctl.n == |es| - 1
    ensures x.local + |es| <= x.ctl.seen
    ensures x.ctl.got == es[1..1 + |x.ctl.got|]
  {
    assert PromisedBatch(s, x.local, x.ctl.n);
    assert es == s.log[x.local..x.local + |es|];
    assert es[1..1 + |x.ctl.got|] == s.log[x.local + 1..x.ctl.at];
  }

  /**
   * Finishing a batch drain and consuming delivers the token and exactly its
   * payload, in order, and leaves the head on the entry after the batch.
   */
  lemma DrainThenConsumeTakesTheBatch(s: State, h: nat, es: seq<Entry>)
    requires Inv(s) && Enabled(s, DrainDone(h))
    requires (s.heads[h].local, es) in s.batches && s.heads[h].ctl.n == |es| - 1
    ensures s.heads[h].ctl.got == es[1..]
    ensures Enabled(Apply(s, DrainDone(h)), Consume(h))
    ensures var t := Apply(Apply(s, DrainDone(h)), Consume(h));
            t.heads[h].local == s.heads[h].local + |es| && t.heads[h].taken == s.heads[h].taken + es
  {
    hide ProducerInv, ObserverInv, SlotsInv, HeadInv, BatchesInv;
    var x := s.heads[h];
    BatchDrainNeverWaits(s, h, es);
    DrainedIsTheBatch(s, h, es);
    var read := [x.ctl.token] + x.ctl.got;
    assert read[..x.ctl.n] + [read[x.ctl.n]] == es;
    assert x.taken + read[..x.ctl.n] + [read[x.ctl.n]] == x.taken + es;
  }

  lemma DrainedIsTheBatch(s: State, h: nat, es: seq<Entry>)
    requires Inv(s) && Enabled(s, DrainDone(h))
    requires (s.heads[h].local, es) in s.batches && s.heads[h].ctl.n == |es| - 1
    requires s.heads[h].ctl.got == es[1..1 + |s.heads[h].ctl.got|]
    ensures [s.heads[h].ctl.token] + s.heads[h].ctl.got == es && s.heads[h].ctl.at == s.heads[h].local + |es|
  {
    hide ProducerInv, ObserverInv, SlotsInv;
    assert HeadInv(s, s.heads[h]);
    assert BatchAt(s.log, (s.heads[h].local, es));
  }

  // ---- Composing runs ------------------------------------------------------

  lemma RunsOne(s: State, step: Step)
    requires Enabled(s, step)
    ensures Runs(s, [step], Apply(s, step))
  {
    assert [step][1..] == [];
  }

  lemma RunsCons(s: State, step: Step, rest: seq<Step>, t: State)
    requires Enabled(s, step) && Runs(Apply(s, step), rest, t)
    ensures Runs(s, [step] + rest, t)
  {
    assert ([step] + rest)[1..] == rest;
  }

  lemma {:induction false} RunsCompose(s: State, xs: seq<Step>, m: State, ys: seq<Step>, t: State)
    requires Runs(s, xs, m) && Runs(m, ys, t)
    ensures Runs(s, xs + ys, t)
    decreases |xs|
  {
    if xs == [] {
      assert xs + ys == ys;
    } else {
      RunsCompose(Apply(s, xs[0]), xs[1..], m, ys, t);
      assert (xs + ys)[1..] == xs[1..] + ys;
    }
  }

  lemma RunsSnoc(s: State, xs: seq<Step>, m: State, step: Step)
    requires Runs(s, xs, m) && Enabled(m, step)
    ensures Runs(s, xs + [step], Apply(m, step))
  {
    RunsOne(m, step);
    RunsCompose(s, xs, m, [step], Apply(m, step));
  }

  /** Some interleaving leads from `s` to `t`. */
  ghost predicate Evolves(s: State, t: State)
  {
    exists steps :: Runs(s, steps, t)
  }

  /** Some interleaving reaches `s` from a zeroed ring. */
  ghost predicate Lawful(s: State)
  {
    exists depth, n, zero, steps :: Reachable(depth, n, zero, steps, s)
  }

  lemma LawfulInv(s: State)
    requires Lawful(s)
    ensures Inv(s)
  {
    var depth, n, zero, steps :| Reachable(depth, n, zero, steps, s);
    ReachableFromInit(depth, n, zero, steps, s);
  }

  lemma EvolvesKeepsLawful(s: State, t: State)
    requires Lawful(s) && Evolves(s, t)
    ensures Lawful(t)
  {
    var depth, n, zero, xs :| Reachable(depth, n, zero, xs, s);
    var ys :| Runs(s, ys, t);
    RunsCompose(Init(depth, n, zero), xs, s, ys, t);
    assert Reachable(depth, n, zero, xs + ys, t);
  }

  lemma EvolvesBy(s: State, m: State, step: Step)
    requires Evolves(s, m) && Enabled(m, step)
    ensures Evolves(s, Apply(m, step))
  {
    var xs :| Runs(s, xs, m);
    RunsSnoc(s, xs, m, step);
  }

  lemma EvolvesNot(s: State)
    ensures Evolves(s, s)
  {
    assert Runs(s, [], s);
  }
}
