/**
 * The graphics FIFO as a step system: a broadcast ring with any number of
 * producers serialised by a lock, one consumer thread per head, and an outside
 * observer.  Each step makes at most one access to memory another thread can
 * touch, so a sequence of steps is an interleaving of the threads.
 *
 * Indices are unbounded counters; every guard looks only at their residues
 * modulo the depth, which is all the ring stores.  `log`, `origin`, `batches`
 * and each head's `taken` are history: no guard reads them.
 */
module GFifoSteps {
  import opened RingIndex

  datatype Entry = Entry(addr: nat, val: nat)

  /** Where a consumer thread stands. */
  datatype Ctl =
    | AtRest
    | Peeked(e: Entry)
    | Draining(token: Entry, n: nat, at: nat, seen: nat, got: seq<Entry>)
    | Drained(e: Entry)
    | Publishing

  datatype Head = Head(published: nat, local: nat, shadowTail: nat, ctl: Ctl, taken: seq<Entry>)

  /** The lock holder; the lock is free exactly in `Free`. */
  datatype Producer =
    | Free
    | Locked(kind: Kind, es: seq<Entry>)
    | Scanning(kind: Kind, es: seq<Entry>, k: nat, slow: nat)
    | Writing(kind: Kind, es: seq<Entry>, i: nat)
    | Stored

  /** A thread asking `is_empty` (tail first) or `is_empty_at` (head first). */
  datatype Observer =
    | Quiet
    | TailSampled(t: nat, k: nat)
    | SaidEmpty(t: nat)
    | HeadSampled(h: nat, v: nat)
    | SaidEmptyAt(h: nat, v: nat, t: nat)

  datatype State = State(
    depth: nat, buf: seq<Entry>, tail: nat, shadowHead: nat, heads: seq<Head>,
    prod: Producer, obs: Observer,
    log: seq<Entry>, origin: nat, batches: set<(nat, seq<Entry>)>)

  datatype Step =
    | Lock(kind: Kind, es: seq<Entry>) | LoadTail | ScanHead | Decide | WriteSlot | StoreTail | Unlock
    | PeekTail(h: nat) | PeekSlot(h: nat) | Consume(h: nat) | Publish(h: nat) | Flush(h: nat)
    | DrainBegin(h: nat, n: nat) | DrainReload(h: nat) | DrainRead(h: nat) | DrainDone(h: nat)
    | AskTail | AskHead | AskHeadAt(h: nat) | AskTailAfter | Forget
    | Reset(n: nat)

  // ---- Steps ---------------------------------------------------------------

  function Slot(s: State, x: nat): (e: Entry)
    requires 0 < s.depth == |s.buf|
  {
    s.buf[x % s.depth]
  }

  predicate Same(s: State, a: nat, b: nat)
    requires s.depth > 0
  {
    a % s.depth == b % s.depth
  }

  predicate Enabled(s: State, step: Step)
  {
    && 0 < s.depth == |s.buf|
    && match step
       case Lock(kind, es) => s.prod.Free? && WellSized(kind, |es|, s.depth)
       case LoadTail => s.prod.Locked?
       case ScanHead => s.prod.Scanning? && s.prod.k < |s.heads|
       case Decide => s.prod.Scanning? && s.prod.k == |s.heads|
       case WriteSlot => s.prod.Writing? && s.prod.i < |s.prod.es|
       case StoreTail => s.prod.Writing? && s.prod.i == |s.prod.es|
       case Unlock => s.prod.Stored?
       case PeekTail(h) =>
         h < |s.heads| && s.heads[h].ctl.AtRest? && Same(s, s.heads[h].local, s.heads[h].shadowTail)
       case PeekSlot(h) =>
         h < |s.heads| && s.heads[h].ctl.AtRest? && !Same(s, s.heads[h].local, s.heads[h].shadowTail)
       case Consume(h) => h < |s.heads| && (s.heads[h].ctl.Peeked? || s.heads[h].ctl.Drained?)
       case Publish(h) => h < |s.heads| && s.heads[h].ctl.Publishing?
       case Flush(h) => h < |s.heads| && !s.heads[h].ctl.Draining? && !s.heads[h].ctl.Publishing?
       case DrainBegin(h, _) => h < |s.heads| && s.heads[h].ctl.Peeked?
       case DrainReload(h) =>
         h < |s.heads| && s.heads[h].ctl.Draining? && |s.heads[h].ctl.got| < s.heads[h].ctl.n
         && Same(s, s.heads[h].ctl.at, s.heads[h].ctl.seen)
       case DrainRead(h) =>
         h < |s.heads| && s.heads[h].ctl.Draining? && |s.heads[h].ctl.got| < s.heads[h].ctl.n
         && !Same(s, s.heads[h].ctl.at, s.heads[h].ctl.seen)
       case DrainDone(h) =>
         h < |s.heads| && s.heads[h].ctl.Draining? && |s.heads[h].ctl.got| == s.heads[h].ctl.n
         && s.heads[h].ctl.at > 0
       case AskTail => s.obs.Quiet?
       case AskHead => s.obs.TailSampled? && s.obs.k < |s.heads|
       case AskHeadAt(h) => s.obs.Quiet? && h < |s.heads|
       case AskTailAfter => s.obs.HeadSampled?
       case Forget => s.obs.SaidEmpty? || s.obs.SaidEmptyAt?
       case Reset(n) =>
         n >= 1 && s.prod.Free? && s.obs.Quiet? && forall h | 0 <= h < |s.heads| :: s.heads[h].ctl.AtRest?
  }

  /** The cached-head test; `push_batch` never trusts the cache. */
  function AfterLoadTail(s: State): State
    requires Enabled(s, LoadTail)
  {
    var p := s.prod;
    if p.kind.Batch? || Refuses(p.kind, s.tail, s.shadowHead, |p.es|, s.depth) then
      s.(prod := Scanning(p.kind, p.es, 0, 0))
    else
      s.(prod := Writing(p.kind, p.es, 0))
  }

  /** One load of `slowest_head`, keeping the head furthest behind the tail. */
  function AfterScanHead(s: State): State
    requires Enabled(s, ScanHead)
  {
    var p := s.prod;
    var v := s.heads[p.k].published;
    var slow := if p.k == 0 || Back(s.tail, v, s.depth) > Back(s.tail, p.slow, s.depth) then v else p.slow;
    s.(prod := Scanning(p.kind, p.es, p.k + 1, slow))
  }

  /** The refreshed test: refuse and drop the lock, or go on to write. */
  function AfterDecide(s: State): State
    requires Enabled(s, Decide)
  {
    var p := s.prod;
    s.(shadowHead := p.slow,
       prod := if Refuses(p.kind, s.tail, p.slow, |p.es|, s.depth) then Free else Writing(p.kind, p.es, 0))
  }

  function AfterWriteSlot(s: State): State
    requires Enabled(s, WriteSlot)
  {
    var p := s.prod;
    s.(buf := s.buf[(s.tail + p.i) % s.depth := p.es[p.i]], prod := Writing(p.kind, p.es, p.i + 1))
  }

  function AfterStoreTail(s: State): State
    requires Enabled(s, StoreTail)
  {
    var p := s.prod;
    s.(tail := s.tail + |p.es|, log := s.log + p.es, prod := Stored,
       batches := if p.kind.Batch? then s.batches + {(s.tail, p.es)} else s.batches)
  }

  function SetHead(s: State, h: nat, x: Head): State
    requires h < |s.heads|
  {
    s.(heads := s.heads[h := x])
  }

  /** Publish every 64 entries, or at once when this consume met the tail. */
  function AfterConsume(s: State, h: nat): State
    requires Enabled(s, Consume(h))
  {
    var x := s.heads[h];
    var next := x.local + 1;
    var publish := (next % s.depth) % 64 == 0 || Same(s, next, s.tail);
    SetHead(s, h, x.(local := next, taken := x.taken + [x.ctl.e], ctl := if publish then Publishing else AtRest))
  }

  /** Rewind by one, so that the caller's consume retires the last payload entry. */
  function AfterDrainDone(s: State, h: nat): State
    requires Enabled(s, DrainDone(h))
  {
    var x := s.heads[h];
    var read := [x.ctl.token] + x.ctl.got;
    SetHead(s, h, x.(shadowTail := x.ctl.seen, local := x.ctl.at - 1,
                     taken := x.taken + read[..x.ctl.n], ctl := Drained(read[x.ctl.n])))
  }

  function AfterAskHead(s: State): State
    requires Enabled(s, AskHead)
  {
    if !Same(s, s.heads[s.obs.k].published, s.obs.t) then s.(obs := Quiet)
    else if s.obs.k + 1 == |s.heads| then s.(obs := SaidEmpty(s.obs.t))
    else s.(obs := TailSampled(s.obs.t, s.obs.k + 1))
  }

  function AfterReset(s: State, n: nat): State
    requires Enabled(s, Reset(n))
  {
    s.(heads := seq(n, _ => Head(s.tail, s.tail, s.tail, AtRest, [])), shadowHead := s.tail, origin := s.tail)
  }

  function Apply(s: State, step: Step): State
    requires Enabled(s, step)
  {
    match step
    case Lock(kind, es) => s.(prod := Locked(kind, es))
    case LoadTail => AfterLoadTail(s)
    case ScanHead => AfterScanHead(s)
    case Decide => AfterDecide(s)
    case WriteSlot => AfterWriteSlot(s)
    case StoreTail => AfterStoreTail(s)
    case Unlock => s.(prod := Free)
    case PeekTail(h) => SetHead(s, h, s.heads[h].(shadowTail := s.tail))
    case PeekSlot(h) => SetHead(s, h, s.heads[h].(ctl := Peeked(Slot(s, s.heads[h].local))))
    case Consume(h) => AfterConsume(s, h)
    case Publish(h) => SetHead(s, h, s.heads[h].(published := s.heads[h].local, ctl := AtRest))
    case Flush(h) => SetHead(s, h, s.heads[h].(published := s.heads[h].local))
    case DrainBegin(h, n) =>
      SetHead(s, h, s.heads[h].(ctl := Draining(s.heads[h].ctl.e, n, s.heads[h].local + 1, s.tail, [])))
    case DrainReload(h) => SetHead(s, h, s.heads[h].(ctl := s.heads[h].ctl.(seen := s.tail)))
    case DrainRead(h) =>
      var c := s.heads[h].ctl;
      SetHead(s, h, s.heads[h].(ctl := c.(got := c.got + [Slot(s, c.at)], at := c.at + 1)))
    case DrainDone(h) => AfterDrainDone(s, h)
    case AskTail => s.(obs := TailSampled(s.tail, 0))
    case AskHead => AfterAskHead(s)
    case AskHeadAt(h) => s.(obs := HeadSampled(h, s.heads[h].published))
    case AskTailAfter =>
      s.(obs := if Same(s, s.obs.v, s.tail) then SaidEmptyAt(s.obs.h, s.obs.v, s.tail) else Quiet)
    case Forget => s.(obs := Quiet)
    case Reset(n) => AfterReset(s, n)
  }

  /** A freshly zeroed ring with `n` heads in use. */
  function Init(depth: nat, n: nat, zero: Entry): (s: State)
    requires depth > 0 && n > 0
  {
    State(depth, seq(depth, _ => zero), 0, 0, seq(n, _ => Head(0, 0, 0, AtRest, [])), Free, Quiet, [], 0, {})
  }

  /** `steps` is an interleaving that leads from `s` to `t`. */
  predicate Runs(s: State, steps: seq<Step>, t: State)
    decreases |steps|
  {
    if steps == [] then s == t
    else Enabled(s, steps[0]) && Runs(Apply(s, steps[0]), steps[1..], t)
  }

  // ---- Invariant -----------------------------------------------------------

  /** What holds of one head: the counter order, its place in the log, its program point. */
  ghost predicate HeadInv(s: State, x: Head)
  {
    && s.origin <= s.shadowHead <= x.published <= x.local <= x.shadowTail <= s.tail == |s.log|
    && x.taken == s.log[s.origin..x.local]
    && match x.ctl
       case AtRest => x.published == x.local || x.local < s.tail
       case Peeked(e) => x.local < x.shadowTail && e == s.log[x.local]
       case Drained(e) => x.local < x.shadowTail && e == s.log[x.local]
       case Publishing => true
       case Draining(token, n, at, seen, got) =>
         && x.local < x.shadowTail && token == s.log[x.local]
         && at == x.local + 1 + |got| <= seen <= s.tail
         && |got| <= n && got == s.log[x.local + 1..at]
         && (PromisedBatch(s, x.local, n) ==> x.local + 1 + n <= seen)
  }

  /** Entry `start` is the token of a published batch of `n` payload words. */
  ghost predicate PromisedBatch(s: State, start: nat, n: nat)
  {
    exists b :: b in s.batches && b.0 == start && |b.1| == n + 1
  }

  ghost predicate HeadsInv(s: State)
  {
    forall h | 0 <= h < |s.heads| :: HeadInv(s, s.heads[h])
  }

  ghost predicate ProducerInv(s: State)
    requires 0 < s.depth == |s.buf|
  {
    match s.prod
    case Free => true
    case Stored => true
    case Locked(kind, es) => WellSized(kind, |es|, s.depth)
    case Scanning(kind, es, k, slow) =>
      && WellSized(kind, |es|, s.depth) && k <= |s.heads|
      && (k > 0 ==> s.shadowHead <= slow <= s.tail)
      && forall j | 0 <= j < k :: slow <= s.heads[j].published
    case Writing(kind, es, i) =>
      && WellSized(kind, |es|, s.depth) && i <= |es|
      && s.tail + |es| <= s.shadowHead + s.depth - 1
      && forall j | 0 <= j < i :: Slot(s, s.tail + j) == es[j]
  }

  /** Every entry some head may still read is intact in its slot. */
  ghost predicate SlotsInv(s: State)
    requires 0 < s.depth == |s.buf| && s.tail == |s.log|
  {
    forall x | s.shadowHead <= x < s.tail :: Slot(s, x) == s.log[x]
  }

  ghost predicate ObserverInv(s: State)
  {
    match s.obs
    case Quiet => true
    case TailSampled(t, k) =>
      && s.origin <= t <= s.tail && k < |s.heads|
      && forall j | 0 <= j < k :: t <= s.heads[j].published
    case SaidEmpty(t) => s.origin <= t <= s.tail && forall j | 0 <= j < |s.heads| :: t <= s.heads[j].published
    case HeadSampled(h, v) => h < |s.heads| && v <= s.heads[h].published
    case SaidEmptyAt(h, v, t) => h < |s.heads| && v <= s.heads[h].published && t <= s.tail
  }

  /** Batch `b` (start, token and payload) lies whole in the published order. */
  ghost predicate BatchAt(log: seq<Entry>, b: (nat, seq<Entry>))
  {
    0 < |b.1| && b.0 + |b.1| <= |log| && log[b.0..b.0 + |b.1|] == b.1
  }

  ghost predicate BatchesInv(s: State)
  {
    forall b | b in s.batches :: BatchAt(s.log, b)
  }

  ghost predicate Inv(s: State)
  {
    && 0 < s.depth == |s.buf| && |s.heads| > 0
    && s.tail == |s.log| && s.shadowHead <= s.tail <= s.shadowHead + s.depth - 1
    && HeadsInv(s) && ProducerInv(s) && SlotsInv(s) && ObserverInv(s) && BatchesInv(s)
  }
}
