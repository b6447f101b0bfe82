/**
 * How far the published head lags behind the consumer.  A plain consumer
 * publishes at every stop, a slot whose index is a multiple of 64, and so lags
 * by at most 63.  A batch drain can jump over stops: what then keeps the bound,
 * exactly, and how far the lag grows when it fails.
 */
module GFifoLag {
  import opened Basics
  import opened RingIndex
  import opened GFifoSteps
  import opened GFifoSafety
  import opened GFifoProgress

  // ---- Stops ---------------------------------------------------------------

  /** The last stop at or below counter `x`, on a ring of `d` slots. */
  function LastStop(x: nat, d: nat): int
    requires d > 0
  {
    x - x % d % 64
  }

  predicate IsStop(x: nat, d: nat)
    requires d > 0
  {
    x % d % 64 == 0
  }

  lemma LastStopIsBelow(x: nat, d: nat)
    requires d > 0
    ensures LastStop(x, d) <= x
  {
  }

  /** Between a stop and the next the last stop stays. */
  lemma SameLastStop(x: nat, y: nat, d: nat)
    requires d > 0 && LastStop(y, d) <= x <= y
    ensures LastStop(x, d) == LastStop(y, d)
  {
    var r := y % d - (y - x);
    Residue(x, y / d, r, d);
    assert r % 64 == y % d % 64 - (y - x);
  }

  lemma StopAfter(x: nat, d: nat)
    requires d > 0 && !IsStop(x + 1, d)
    ensures LastStop(x + 1, d) == LastStop(x, d)
  {
    SameLastStop(x, x + 1, d);
  }

  // ---- When the bound survives ---------------------------------------------

  /** No stop lies between where head `x` is published and where its consumer stands. */
  predicate NoStopBetween(x: Head, d: nat)
    requires d > 0
  {
    x.published <= x.local && LastStop(x.local, d) <= x.published
  }

  /**
   * The head keeps up: between operations no stop lies in its lag.  With `plain`
   * it has drained nothing, and then even a head about to be published has
   * passed no stop but the one it stands on.
   */
  ghost predicate KeptUp(x: Head, d: nat, plain: bool)
    requires d > 0
  {
    match x.ctl
    case Publishing => plain ==> x.published < x.local && LastStop(x.local - 1, d) <= x.published
    case Drained(_) => !plain
    case _ => NoStopBetween(x, d)
  }

  /** The consume that ends a drain lands on a stop or on the tail, or has jumped no stop. */
  predicate CleanEnd(s: State, h: nat)
    requires s.depth > 0 && h < |s.heads|
  {
    var end := s.heads[h].local + 1;
    IsStop(end, s.depth) || Same(s, end, s.tail) || LastStop(end, s.depth) <= s.heads[h].published
  }

  /** Head `h` drains nothing, or ends every drain clean. */
  predicate Careful(s: State, step: Step, h: nat, plain: bool)
  {
    if plain then step != DrainDone(h)
    else step == Consume(h) && s.depth > 0 && h < |s.heads| && s.heads[h].ctl.Drained? ==> CleanEnd(s, h)
  }

  predicate CarefulRun(s: State, steps: seq<Step>, h: nat, plain: bool)
    decreases |steps|
  {
    steps == [] || (Enabled(s, steps[0]) && Careful(s, steps[0], h, plain)
                    && CarefulRun(Apply(s, steps[0]), steps[1..], h, plain))
  }

  lemma ConsumeKeepsUp(s: State, h: nat, plain: bool)
    requires Inv(s) && Enabled(s, Consume(h)) && Careful(s, Consume(h), h, plain) && KeptUp(s.heads[h], s.depth, plain)
    ensures KeptUp(AfterConsume(s, h).heads[h], s.depth, plain)
  {
    hide ProducerInv, ObserverInv, SlotsInv, BatchesInv, LastStop;
    var x := s.heads[h];
    assert HeadInv(s, x);
    if x.ctl.Peeked? && !IsStop(x.local + 1, s.depth) {
      StopAfter(x.local, s.depth);
    }
  }

  lemma OtherStepKeepsUp(s: State, step: Step, h: nat, plain: bool)
    requires Enabled(s, step) && Careful(s, step, h, plain) && step != Consume(h) && !step.Reset?
    requires h < |s.heads| ==> KeptUp(s.heads[h], s.depth, plain)
    ensures var t := Apply(s, step); t.depth == s.depth && (h < |t.heads| ==> KeptUp(t.heads[h], t.depth, plain))
  {
    if h < |s.heads| {
      LastStopIsBelow(s.heads[h].local, s.depth);
    }
    hide LastStop;
  }

  lemma StepKeepsUp(s: State, step: Step, h: nat, plain: bool)
    requires Inv(s) && Enabled(s, step) && Careful(s, step, h, plain)
    requires h < |s.heads| ==> KeptUp(s.heads[h], s.depth, plain)
    ensures var t := Apply(s, step); t.depth == s.depth && (h < |t.heads| ==> KeptUp(t.heads[h], t.depth, plain))
  {
    if step == Consume(h) {
      ConsumeKeepsUp(s, h, plain);
    } else if step.Reset? {
      LastStopIsBelow(s.tail, s.depth);
      hide LastStop, Inv;
    } else {
      OtherStepKeepsUp(s, step, h, plain);
    }
  }

  lemma {:induction false} RunKeepsUp(s: State, steps: seq<Step>, t: State, h: nat, plain: bool)
    requires Inv(s) && Runs(s, steps, t) && CarefulRun(s, steps, h, plain)
    requires h < |s.heads| ==> KeptUp(s.heads[h], s.depth, plain)
    ensures t.depth == s.depth && (h < |t.heads| ==> KeptUp(t.heads[h], t.depth, plain))
    decreases |steps|
  {
    if steps != [] {
      StepKeepsInv(s, steps[0]);
      StepKeepsUp(s, steps[0], h, plain);
      hide Apply, Enabled, KeptUp, Inv, Careful;
      RunKeepsUp(Apply(s, steps[0]), steps[1..], t, h, plain);
    }
  }

  /**
   * In every interleaving in which head `h` ends each of its drains clean it
   * lags its consumer by at most 63 entries, whenever it is not between a drain
   * and its consume or about to be published.
   */
  lemma CarefulHeadLagsUnder64(depth: nat, n: nat, zero: Entry, steps: seq<Step>, t: State, h: nat)
    requires Reachable(depth, n, zero, steps, t) && h < |t.heads|
    requires CarefulRun(Init(depth, n, zero), steps, h, false)
    ensures !t.heads[h].ctl.Drained? && !t.heads[h].ctl.Publishing? ==> t.heads[h].local - t.heads[h].published <= 63
  {
    assert Inv(Init(depth, n, zero));
    RunKeepsUp(Init(depth, n, zero), steps, t, h, false);
  }

  lemma {:induction false} PlainIsCareful(s: State, steps: seq<Step>, t: State, h: nat)
    requires Runs(s, steps, t) && forall i | 0 <= i < |steps| :: steps[i] != DrainDone(h)
    ensures CarefulRun(s, steps, h, true)
    decreases |steps|
  {
    if steps != [] {
      PlainIsCareful(Apply(s, steps[0]), steps[1..], t, h);
    }
  }

  /** A head that drains no batches lags its consumer by at most 63 entries, between consumes. */
  lemma PlainHeadLagsUnder64(depth: nat, n: nat, zero: Entry, steps: seq<Step>, t: State, h: nat)
    requires Reachable(depth, n, zero, steps, t) && h < |t.heads|
    requires forall i | 0 <= i < |steps| :: steps[i] != DrainDone(h)
    ensures t.heads[h].local - t.heads[h].published <= if t.heads[h].ctl.Publishing? then 64 else 63
  {
    var s := Init(depth, n, zero);
    assert Inv(s);
    PlainIsCareful(s, steps, t, h);
    RunKeepsUp(s, steps, t, h, true);
  }

  /**
   * A drain of `n` words and its consume add `n + 1` to the lag, unless they end
   * on a stop or at the tail, where the head is published.
   */
  lemma DrainAddsToTheLag(s: State, h: nat)
    requires Inv(s) && Enabled(s, DrainDone(h))
    ensures var x := s.heads[h]; var end := x.local + x.ctl.n + 1;
            var u := Apply(s, DrainDone(h));
            && Enabled(u, Consume(h))
            && var v := Apply(u, Consume(h));
               && v.heads[h].local == end
               && (v.heads[h].ctl.Publishing? <==> IsStop(end, s.depth) || end == s.tail)
               && v.heads[h].local - v.heads[h].published == (x.local - x.published) + x.ctl.n + 1
  {
    hide ProducerInv, ObserverInv, SlotsInv, BatchesInv;
    var x := s.heads[h];
    assert HeadInv(s, x);
    SameResidue(x.local + x.ctl.n + 1, s.tail, s.depth);
  }

  /**
   * Whether a head that kept up still does after a drain shows before the drain:
   * exactly when the batch ends on a stop, ends at the tail, or holds no stop
   * past its token.
   */
  lemma DrainKeepsUpExactly(s: State, h: nat)
    requires Inv(s) && Enabled(s, DrainDone(h)) && NoStopBetween(s.heads[h], s.depth)
    ensures var x := s.heads[h]; var end := x.local + x.ctl.n + 1; var u := Apply(s, DrainDone(h));
            && Enabled(u, Consume(h))
            && var y := Apply(u, Consume(h)).heads[h];
               && (y.ctl.Publishing? || NoStopBetween(y, s.depth)
                   <==> IsStop(end, s.depth) || end == s.tail || LastStop(end, s.depth) <= x.local)
               && (CleanEnd(u, h) <==> y.ctl.Publishing? || NoStopBetween(y, s.depth))
  {
    DrainAddsToTheLag(s, h);
    hide ProducerInv, ObserverInv, SlotsInv, BatchesInv, HeadsInv;
    var x := s.heads[h];
    var end := x.local + x.ctl.n + 1;
    if LastStop(end, s.depth) <= x.local {
      SameLastStop(x.local, end, s.depth);
    }
    hide LastStop, IsStop;
  }

  /** Whether the bound itself survives a drain: it ends on a stop or at the tail, or there is room left. */
  lemma DrainKeepsBoundExactly(s: State, h: nat)
    requires Inv(s) && Enabled(s, DrainDone(h))
    ensures var x := s.heads[h]; var end := x.local + x.ctl.n + 1; var u := Apply(s, DrainDone(h));
            && Enabled(u, Consume(h))
            && var y := Apply(u, Consume(h)).heads[h];
               (y.ctl.Publishing? || y.local - y.published <= 63
                <==> IsStop(end, s.depth) || end == s.tail || (x.local - x.published) + x.ctl.n + 1 <= 63)
  {
    DrainAddsToTheLag(s, h);
  }

  /** A head with no stop in its lag keeps within the bound for as long as it drains nothing. */
  lemma KeptUpHeadLagsUnder64(s: State, steps: seq<Step>, t: State, h: nat)
    requires Inv(s) && Runs(s, steps, t) && h < |s.heads| && h < |t.heads|
    requires s.heads[h].ctl.AtRest? && NoStopBetween(s.heads[h], s.depth)
    requires forall i | 0 <= i < |steps| :: steps[i] != DrainDone(h)
    ensures t.heads[h].local - t.heads[h].published <= if t.heads[h].ctl.Publishing? then 64 else 63
  {
    PlainIsCareful(s, steps, t, h);
    RunKeepsUp(s, steps, t, h, true);
  }

  // ---- How far the lag grows -----------------------------------------------

  /** A head at rest never lags by more than the ring's depth less two. */
  lemma LagIsUnderTheRing(depth: nat, n: nat, zero: Entry, steps: seq<Step>, t: State, h: nat)
    requires Reachable(depth, n, zero, steps, t) && h < |t.heads| && t.heads[h].ctl.AtRest?
    ensures t.heads[h].local - t.heads[h].published <= if depth <= 2 then 0 else depth - 2
  {
    ReachableFromInit(depth, n, zero, steps, t);
    DepthIsConstant(Init(depth, n, zero), steps, t);
    assert HeadInv(t, t.heads[h]);
  }

  function Sum(units: seq<nat>): nat
  {
    if units == [] then 0 else Sum(units[..|units| - 1]) + units[|units| - 1]
  }

  /** No unit of the list, laid out from counter 0, ends on a multiple of 64. */
  predicate Jumps(units: seq<nat>)
  {
    units == [] || (Jumps(units[..|units| - 1]) && units[|units| - 1] > 0 && Sum(units) % 64 != 0)
  }

  /** One unit of `m` entries as it is pushed: a plain entry, or a token and `m - 1` words. */
  function UnitKind(m: nat): Kind
  {
    if m == 1 then One else Batch
  }

  function Copies(e: Entry, m: nat): (es: seq<Entry>)
    ensures |es| == m
  {
    seq(m, _ => e)
  }

  /** The state a lone producer and one idle head leave behind. */
  ghost predicate Filled(s: State, d: nat, tail: nat)
  {
    && Inv(s) && s.depth == d && s.tail == tail && s.prod.Free? && s.obs.Quiet?
    && s.heads == [Head(0, 0, 0, AtRest, [])]
  }

  /** The units of more than one entry lie in the ring as published batches. */
  ghost predicate LaidOut(s: State, units: seq<nat>)
  {
    units == [] || (LaidOut(s, units[..|units| - 1])
                    && (units[|units| - 1] > 1 ==> PromisedBatch(s, Sum(units[..|units| - 1]), units[|units| - 1] - 1)))
  }

  lemma {:induction false} StaysLaidOut(s: State, t: State, units: seq<nat>)
    requires LaidOut(s, units) && s.batches <= t.batches
    ensures LaidOut(t, units)
  {
    if units != [] {
      StaysLaidOut(s, t, units[..|units| - 1]);
    }
  }

  lemma {:induction false} PushAll(d: nat, e: Entry, units: seq<nat>) returns (steps: seq<Step>, t: State)
    requires Jumps(units) && d > 0 && Sum(units) <= d - 1
    ensures Reachable(d, 1, e, steps, t) && Filled(t, d, Sum(units)) && LaidOut(t, units)
  {
    if units == [] {
      steps, t := [], Init(d, 1, e);
    } else {
      var m := units[|units| - 1];
      var before, s := PushAll(d, e, units[..|units| - 1]);
      var push;
      push, t := PushGoesThrough(s, UnitKind(m), Copies(e, m), 0);
      RunsCompose(Init(d, 1, e), before, s, push, t);
      StaysLaidOut(s, t, units[..|units| - 1]);
      if m > 1 {
        assert (s.tail, Copies(e, m)) in t.batches;
      }
      steps := before + push;
    }
  }

  /** The two states differ in head `h` alone, which is published where it was. */
  ghost predicate OnlyLocal(s: State, t: State, h: nat)
  {
    && h < |s.heads| == |t.heads| && t == s.(heads := s.heads[h := t.heads[h]])
    && t.heads[h].published == s.heads[h].published
  }

  /** `t` is `s` with head `h` moved on by `m` entries, at rest and not published. */
  ghost predicate Retired(s: State, h: nat, m: nat, t: State)
  {
    Inv(t) && OnlyLocal(s, t, h) && t.heads[h].ctl.AtRest? && t.heads[h].local == s.heads[h].local + m
  }

  ghost predicate NoDrainBegins(steps: seq<Step>)
  {
    forall i | 0 <= i < |steps| :: !steps[i].DrainBegin?
  }

  lemma {:induction false} HonestWithout(s: State, steps: seq<Step>, t: State)
    requires Runs(s, steps, t) && NoDrainBegins(steps)
    ensures Honest(s, steps)
    decreases |steps|
  {
    if steps != [] {
      HonestWithout(Apply(s, steps[0]), steps[1..], t);
    }
  }

  lemma {:induction false} HonestCompose(s: State, xs: seq<Step>, m: State, ys: seq<Step>)
    requires Runs(s, xs, m) && Honest(s, xs) && Honest(m, ys)
    ensures Honest(s, xs + ys)
    decreases |xs|
  {
    if xs == [] {
      assert xs + ys == ys;
    } else {
      HonestCompose(Apply(s, xs[0]), xs[1..], m, ys);
      assert (xs + ys)[1..] == xs[1..] + ys;
    }
  }

  lemma {:induction false} DrainAll(s: State, h: nat) returns (steps: seq<Step>, t: State)
    requires Inv(s) && h < |s.heads| && s.heads[h].ctl.Draining?
    requires s.heads[h].local + 1 + s.heads[h].ctl.n <= s.heads[h].ctl.seen
    ensures Runs(s, steps, t) && NoDrainBegins(steps) && Inv(t) && OnlyLocal(s, t, h)
    ensures t.heads[h].ctl.Drained? && t.heads[h].local == s.heads[h].local + s.heads[h].ctl.n
    decreases s.heads[h].ctl.n - |s.heads[h].ctl.got|
  {
    hide ProducerInv, ObserverInv, SlotsInv, BatchesInv, PromisedBatch, Runs;
    var x := s.heads[h];
    assert HeadInv(s, x);
    var step := if |x.ctl.got| == x.ctl.n then DrainDone(h) else DrainRead(h);
    SameResidue(x.ctl.at, x.ctl.seen, s.depth);
    StepKeepsInv(s, step);
    if step.DrainDone? {
      RunsOne(s, step);
      steps, t := [step], Apply(s, step);
    } else {
      var rest;
      rest, t := DrainAll(Apply(s, step), h);
      RunsCons(s, step, rest, t);
      steps := [step] + rest;
    }
  }

  /** Steps of head `h`'s consumer taking plain entries one by one. */
  ghost predicate PlainSteps(steps: seq<Step>, h: nat)
  {
    forall i | 0 <= i < |steps| :: steps[i] == PeekTail(h) || steps[i] == PeekSlot(h) || steps[i] == Consume(h)
  }

  lemma PeekNext(s: State, h: nat) returns (steps: seq<Step>, t: State)
    requires Inv(s) && h < |s.heads| && s.heads[h].ctl.AtRest? && s.heads[h].local < s.tail
    ensures Runs(s, steps, t) && PlainSteps(steps, h) && Inv(t)
    ensures OnlyLocal(s, t, h) && t.heads[h].ctl.Peeked? && t.heads[h].local == s.heads[h].local
  {
    hide ProducerInv, ObserverInv, SlotsInv, BatchesInv, PromisedBatch, Runs;
    var x := s.heads[h];
    assert HeadInv(s, x);
    SameResidue(x.local, x.shadowTail, s.depth);
    if x.local < x.shadowTail {
      PeekKeepsInv(s, PeekSlot(h));
      RunsOne(s, PeekSlot(h));
      steps, t := [PeekSlot(h)], Apply(s, PeekSlot(h));
    } else {
      PeekKeepsInv(s, PeekTail(h));
      var m := Apply(s, PeekTail(h));
      SameResidue(x.local, s.tail, s.depth);
      PeekKeepsInv(m, PeekSlot(h));
      t := Apply(m, PeekSlot(h));
      RunsOne(m, PeekSlot(h));
      RunsCons(s, PeekTail(h), [PeekSlot(h)], t);
      steps := [PeekTail(h)] + [PeekSlot(h)];
    }
  }

  /** From a peeked token, `m - 1` words drained, or none for a plain entry. */
  lemma ReadUnit(s: State, h: nat, m: nat) returns (steps: seq<Step>, t: State)
    requires Inv(s) && h < |s.heads| && s.heads[h].ctl.Peeked? && m > 0 && s.heads[h].local + m <= s.tail
    requires m > 1 ==> PromisedBatch(s, s.heads[h].local, m - 1)
    ensures Runs(s, steps, t) && Honest(s, steps) && (m == 1 ==> steps == []) && Inv(t) && OnlyLocal(s, t, h)
    ensures t.heads[h].ctl.Peeked? || t.heads[h].ctl.Drained?
    ensures t.heads[h].local == s.heads[h].local + m - 1
  {
    hide ProducerInv, ObserverInv, SlotsInv, BatchesInv, PromisedBatch, Runs;
    if m == 1 {
      RunsNone(s);
      steps, t := [], s;
    } else {
      DrainBeginKeepsInv(s, h, m - 1);
      var u := Apply(s, DrainBegin(h, m - 1));
      var rest;
      rest, t := DrainAll(u, h);
      RunsCons(s, DrainBegin(h, m - 1), rest, t);
      HonestWithout(u, rest, t);
      assert ([DrainBegin(h, m - 1)] + rest)[1..] == rest;
      steps := [DrainBegin(h, m - 1)] + rest;
    }
  }

  /** A consume that ends neither on a stop nor at the tail publishes nothing. */
  lemma ConsumeQuietly(s: State, h: nat) returns (t: State)
    requires Inv(s) && Enabled(s, Consume(h))
    requires s.heads[h].local + 1 < s.tail && !IsStop(s.heads[h].local + 1, s.depth)
    ensures Runs(s, [Consume(h)], t) && Retired(s, h, 1, t)
  {
    hide ProducerInv, ObserverInv, SlotsInv, BatchesInv, PromisedBatch;
    ConsumeKeepsInv(s, h);
    assert HeadInv(s, s.heads[h]);
    SameResidue(s.heads[h].local + 1, s.tail, s.depth);
    t := Apply(s, Consume(h));
    RunsOne(s, Consume(h));
  }

  /** A unit that ends neither on a stop nor at the tail is retired without publishing the head. */
  lemma RetireUnit(s: State, h: nat, m: nat) returns (steps: seq<Step>, t: State)
    requires Inv(s) && h < |s.heads| && s.heads[h].ctl.AtRest? && m > 0
    requires s.heads[h].local + m < s.tail && !IsStop(s.heads[h].local + m, s.depth)
    requires m > 1 ==> PromisedBatch(s, s.heads[h].local, m - 1)
    ensures Runs(s, steps, t) && Honest(s, steps) && Retired(s, h, m, t)
    ensures m == 1 ==> PlainSteps(steps, h)
  {
    hide HeadsInv, ProducerInv, ObserverInv, SlotsInv, BatchesInv, Runs, Honest, IsStop;
    var peek, a := PeekNext(s, h);
    HonestWithout(s, peek, a);
    var read, b := ReadUnit(a, h, m);
    hide PromisedBatch;
    RunsCompose(s, peek, a, read, b);
    HonestCompose(s, peek, a, read);
    t := ConsumeQuietly(b, h);
    RunsCompose(s, peek + read, b, [Consume(h)], t);
    HonestWithout(b, [Consume(h)], t);
    HonestCompose(s, peek + read, b, [Consume(h)]);
    steps := peek + read + [Consume(h)];
  }

  /** On a ring of a multiple of 64 slots the index and the counter agree modulo 64. */
  lemma IndexMod64(x: nat, d: nat)
    requires d > 0 && d % 64 == 0
    ensures x % d % 64 == x % 64
  {
    var k := d / 64;
    assert x == 64 * (k * (x / d)) + x % d by {
      assert d * (x / d) == 64 * k * (x / d) == 64 * (k * (x / d));
    }
    LapResidue(x % d, k * (x / d), 64);
  }

  /** Up to 63 past the last stop there is no other. */
  lemma NoStopAhead(x: nat, d: nat)
    requires d > 0 && d % 64 == 0
    ensures x <= LastStop(x, d) + 63
    ensures forall y: nat | x < y <= LastStop(x, d) + 63 :: !IsStop(y, d)
  {
    IndexMod64(x, d);
    forall y: nat | x < y <= LastStop(x, d) + 63 ensures !IsStop(y, d) {
      IndexMod64(y, d);
      assert y % 64 == x % 64 + (y - x);
    }
  }

  lemma {:induction false} RetirePlain(s: State, h: nat, m: nat) returns (steps: seq<Step>, t: State)
    requires Inv(s) && h < |s.heads| && s.heads[h].ctl.AtRest? && s.heads[h].local + m < s.tail
    requires forall x: nat | s.heads[h].local < x <= s.heads[h].local + m :: !IsStop(x, s.depth)
    ensures Runs(s, steps, t) && PlainSteps(steps, h) && Retired(s, h, m, t)
    decreases m
  {
    hide ProducerInv, ObserverInv, SlotsInv, BatchesInv, HeadsInv, Runs, IsStop;
    if m == 0 {
      RunsNone(s);
      steps, t := [], s;
    } else {
      var one, u := RetireUnit(s, h, 1);
      var rest;
      rest, t := RetirePlain(u, h, m - 1);
      RunsCompose(s, one, u, rest, t);
      steps := one + rest;
    }
  }

  /**
   * A stop left inside the lag breaks the bound as soon as enough entries wait:
   * plain consumes alone then bring the lag past 63, with no drain.
   */
  lemma JumpedStopBreaksTheBound(s: State, h: nat) returns (steps: seq<Step>, t: State)
    requires Inv(s) && s.depth % 64 == 0 && h < |s.heads| && s.heads[h].ctl.AtRest?
    requires !NoStopBetween(s.heads[h], s.depth) && LastStop(s.heads[h].local, s.depth) + 63 < s.tail
    ensures Runs(s, steps, t) && PlainSteps(steps, h) && OnlyLocal(s, t, h) && t.heads[h].ctl.AtRest?
    ensures t.heads[h].local - t.heads[h].published > 63
  {
    hide ProducerInv, ObserverInv, SlotsInv, BatchesInv, Runs;
    var x := s.heads[h];
    assert HeadInv(s, x);
    var m := LastStop(x.local, s.depth) + 63 - x.local;
    NoStopAhead(x.local, s.depth);
    hide LastStop, IsStop;
    steps, t := RetirePlain(s, h, m);
  }

  lemma {:induction false} RetireAll(s: State, d: nat, units: seq<nat>) returns (steps: seq<Step>, t: State)
    requires Filled(s, d, s.tail) && Jumps(units) && LaidOut(s, units) && Sum(units) < s.tail <= d
    ensures Runs(s, steps, t) && Honest(s, steps) && Retired(s, 0, Sum(units), t)
  {
    hide Runs, Honest, HeadsInv, ProducerInv, ObserverInv, SlotsInv, BatchesInv;
    if units == [] {
      HonestWithout(s, [], s) by { RunsNone(s); }
      RunsNone(s);
      steps, t := [], s;
    } else {
      var m := units[|units| - 1];
      var before, u := RetireAll(s, d, units[..|units| - 1]);
      Residue(Sum(units), 0, Sum(units), d);
      var last;
      last, t := RetireUnit(u, 0, m);
      RunsCompose(s, before, u, last, t);
      HonestCompose(s, before, u, last);
      steps := before + last;
    }
  }

  /**
   * Over any plain entries and batches none of which ends on a multiple of 64
   * a consumer at rest is left lagging by all of them.  On a ring with room for
   * two more, from a reachable state where nothing has been read, an honest run
   * leaves the head published at 0 and its consumer at their total.
   */
  lemma JumpedStopsAddUp(d: nat, e: Entry, units: seq<nat>)
      returns (fill: seq<Step>, s: State, read: seq<Step>, t: State)
    requires Jumps(units) && units != [] && Sum(units) <= d - 2
    ensures Reachable(d, 1, e, fill, s) && LaidOut(s, units) && s.heads == [Head(0, 0, 0, AtRest, [])]
    ensures Honest(s, read) && Reachable(d, 1, e, fill + read, t) && |t.heads| == 1
    ensures t.heads[0].ctl.AtRest? && t.heads[0].published == 0 && t.heads[0].local == Sum(units)
  {
    var push, a := PushAll(d, e, units);
    var more;
    more, s := PushGoesThrough(a, One, [e], 0);
    RunsCompose(Init(d, 1, e), push, a, more, s);
    StaysLaidOut(a, s, units);
    fill := push + more;
    read, t := RetireAll(s, d, units);
    RunsCompose(Init(d, 1, e), fill, s, read, t);
  }

  /** Plain entries, and one-word batches just where a plain entry would end on a multiple of 64. */
  function OneWordBatches(total: nat): (units: seq<nat>)
    requires total % 64 != 0
    ensures units != [] && Sum(units) == total && Jumps(units)
    ensures forall i | 0 <= i < |units| :: units[i] == 1 || units[i] == 2
  {
    if total == 1 then
      assert [1][..0] == [];
      [1]
    else
      var last := if (total - 1) % 64 == 0 then 2 else 1;
      var units := OneWordBatches(total - last);
      assert (units + [last])[..|units|] == units;
      units + [last]
  }

  /**
   * So a false `is_empty` has no bound but the ring: one-word batches alone
   * bring the lag to any number that is not a multiple of 64, up to the most
   * that `LagIsUnderTheRing` allows.
   */
  lemma LagReachesTheRing(d: nat, e: Entry, lag: nat) returns (steps: seq<Step>, t: State)
    requires lag % 64 != 0 && lag <= d - 2
    ensures Reachable(d, 1, e, steps, t) && |t.heads| == 1 && t.heads[0].ctl.AtRest?
    ensures t.heads[0].local - t.heads[0].published == lag
  {
    var fill, s, read;
    fill, s, read, t := JumpedStopsAddUp(d, e, OneWordBatches(lag));
    steps := fill + read;
  }

  lemma JumpsSnoc(units: seq<nat>, m: nat)
    requires Jumps(units) && m > 0 && (Sum(units) + m) % 64 != 0
    ensures Jumps(units + [m]) && Sum(units + [m]) == Sum(units) + m
  {
    assert (units + [m])[..|units|] == units;
  }

  /** Nor does the batch length matter: behind 62 or 63 plain entries any batch brings the lag past 63. */
  lemma AnyBatchExceeds63(d: nat, e: Entry, words: nat) returns (steps: seq<Step>, t: State)
    requires words > 0 && words + 66 <= d
    ensures Reachable(d, 1, e, steps, t) && |t.heads| == 1 && t.heads[0].ctl.AtRest?
    ensures t.heads[0].local - t.heads[0].published == words + (if words % 64 == 0 then 63 else 64)
  {
    hide Jumps, Sum, Reachable;
    var n := if words % 64 == 0 then 62 else 63;
    assert (n + words + 1) % 64 != 0;
    var plain := OneWordBatches(n);
    hide OneWordBatches;
    JumpsSnoc(plain, words + 1);
    var fill, s, read;
    fill, s, read, t := JumpedStopsAddUp(d, e, plain + [words + 1]);
    steps := fill + read;
  }
}
