/**
 * The graphics FIFO's own methods, over the stored residues, the slot array and
 * the lock.  `abs` is the step system's state: each method performs, in order,
 * steps of that system, so an uninterrupted call is one of its interleavings
 * and everything proved about interleavings holds of it.
 */
module GFifoQueue {
  import opened Basics
  import opened RingIndex
  import opened GFifoSteps
  import opened GFifoSafety

  /** Every head leaves room for `n` more entries. */
  ghost predicate Room(s: State, n: nat)
  {
    forall h | 0 <= h < |s.heads| :: s.tail + n <= s.heads[h].published + s.depth - 1
  }

  /** `slow` is the published head furthest behind among the first `k`. */
  ghost predicate Slowest(s: State, k: nat, slow: nat)
  {
    && k <= |s.heads|
    && (forall j | 0 <= j < k :: slow <= s.heads[j].published)
    && exists j :: 0 <= j < k && slow == s.heads[j].published
  }

  lemma EvolvedInv(from: State, s: State)
    requires Lawful(from) && Evolves(from, s)
    ensures Inv(s)
  {
    EvolvesKeepsLawful(from, s);
    LawfulInv(s);
  }

  const GFIFO_PAYLOAD: nat := 0xFFFF_0003

  /** A batch as it lies in the ring: the token, then one payload entry per word. */
  function BatchEntries(token: nat, count: nat, vals: seq<nat>): (es: seq<Entry>)
    ensures |es| == |vals| + 1 && es[0] == Entry(token, count)
    ensures forall i | 0 <= i < |vals| :: es[i + 1] == Entry(GFIFO_PAYLOAD, vals[i])
  {
    [Entry(token, count)] + seq(|vals|, i requires 0 <= i < |vals| => Entry(GFIFO_PAYLOAD, vals[i]))
  }

  /** The two states differ in head `h` alone. */
  ghost predicate OnlyHead(s: State, t: State, h: nat)
  {
    h < |s.heads| == |t.heads| && t == s.(heads := s.heads[h := t.heads[h]])
  }

  /** What a consumer may rely on about its own head. */
  lemma HeadFacts(from: State, s: State, h: nat)
    requires Lawful(from) && Evolves(from, s) && h < |s.heads|
    ensures var x := s.heads[h];
            && x.local <= x.shadowTail <= s.tail == |s.log| && 0 < s.depth == |s.buf|
            && (Same(s, x.local, x.shadowTail) <==> x.local == x.shadowTail)
            && (Same(s, x.local, s.tail) <==> x.local == s.tail)
            && (x.local < s.tail ==> Slot(s, x.local) == s.log[x.local])
            && (x.ctl.Peeked? || x.ctl.Drained? ==> x.local < x.shadowTail && x.ctl.e == s.log[x.local])
            && (x.ctl.AtRest? && x.local == s.tail ==> x.published == s.tail)
  {
    EvolvedInv(from, s);
    var x := s.heads[h];
    assert HeadInv(s, x);
    SameResidue(x.local, x.shadowTail, s.depth);
    SameResidue(x.local, s.tail, s.depth);
  }

  /** A published head under a lap behind the tail reads equal to it only when it is. */
  lemma PublishedFacts(s: State, h: nat)
    requires Lawful(s) && h < |s.heads|
    ensures s.depth > 0 && (Same(s, s.heads[h].published, s.tail) <==> s.heads[h].published == s.tail)
  {
    LawfulInv(s);
    assert HeadInv(s, s.heads[h]);
    SameResidue(s.heads[h].published, s.tail, s.depth);
  }

  /** Head `h` has begun a drain of `n` words and read `k` of them. */
  ghost function DrainedSoFar(s: State, h: nat, n: nat, k: nat): State
    requires h < |s.heads| && s.heads[h].ctl.Peeked?
    requires s.heads[h].local + 1 + k <= |s.log|
  {
    var x := s.heads[h];
    SetHead(s, h, x.(ctl := Draining(x.ctl.e, n, x.local + 1 + k, s.tail, s.log[x.local + 1..x.local + 1 + k])))
  }

  /** Head `h` has drained `n` words and stands on the last of them. */
  ghost function DrainFinished(s: State, h: nat, n: nat): State
    requires h < |s.heads| && s.heads[h].local + n < |s.log|
  {
    var x := s.heads[h];
    SetHead(s, h, x.(shadowTail := s.tail, local := x.local + n, ctl := Drained(s.log[x.local + n]),
                     taken := x.taken + s.log[x.local..x.local + n]))
  }

  lemma DrainFacts(from: State, s: State, h: nat)
    requires Lawful(from) && Evolves(from, s) && h < |s.heads| && s.heads[h].ctl.Draining?
    ensures var c := s.heads[h].ctl;
            && 0 < s.depth == |s.buf| && c.at <= c.seen <= |s.log|
            && (Same(s, c.at, c.seen) <==> c.at == c.seen)
            && (c.at < c.seen ==> Slot(s, c.at) == s.log[c.at])
  {
    EvolvedInv(from, s);
    assert HeadInv(s, s.heads[h]);
    SameResidue(s.heads[h].ctl.at, s.heads[h].ctl.seen, s.depth);
  }

  lemma DrainGrows(s: State, h: nat, n: nat, k: nat)
    requires h < |s.heads| && s.heads[h].ctl.Peeked? && s.heads[h].local + 1 + k < |s.log|
    requires 0 < s.depth == |s.buf| && Slot(s, s.heads[h].local + 1 + k) == s.log[s.heads[h].local + 1 + k]
    requires k < n && Enabled(DrainedSoFar(s, h, n, k), DrainRead(h))
    ensures Apply(DrainedSoFar(s, h, n, k), DrainRead(h)) == DrainedSoFar(s, h, n, k + 1)
  {
    hide Enabled;
    var at := s.heads[h].local + 1;
    assert Slot(DrainedSoFar(s, h, n, k), at + k) == Slot(s, at + k);
    assert s.log[at..at + k] + [s.log[at + k]] == s.log[at..at + k + 1];
  }

  lemma DrainEnds(s: State, h: nat, n: nat)
    requires h < |s.heads| && s.heads[h].ctl.Peeked? && s.heads[h].local + 1 + n <= |s.log|
    requires s.heads[h].ctl.e == s.log[s.heads[h].local]
    requires Enabled(DrainedSoFar(s, h, n, n), DrainDone(h))
    ensures Apply(DrainedSoFar(s, h, n, n), DrainDone(h)) == DrainFinished(s, h, n)
  {
    var x := s.heads[h];
    var read := [x.ctl.e] + s.log[x.local + 1..x.local + 1 + n];
    assert read == s.log[x.local..x.local + 1 + n];
    assert read[..n] == s.log[x.local..x.local + n];
  }

  /** A drain that has read everything published can only load the tail again. */
  lemma DrainWaits(s: State, h: nat, n: nat)
    requires h < |s.heads| && s.heads[h].ctl.Peeked? && s.heads[h].local + 1 <= s.tail == |s.log| < s.heads[h].local + 1 + n
    requires 0 < s.depth == |s.buf|
    ensures var t := DrainedSoFar(s, h, n, s.tail - s.heads[h].local - 1);
            Enabled(t, DrainReload(h)) && Apply(t, DrainReload(h)) == t
  {
  }

  lemma TwiceReduced(x: nat, d: nat)
    requires d > 0
    ensures x % d % d == x % d
  {
    Residue(x % d, 0, x % d, d);
  }

  lemma HasAHead(from: State, s: State)
    requires Lawful(from) && Evolves(from, s)
    ensures |s.heads| > 0
  {
    EvolvedInv(from, s);
  }

  /** The masked comparison of `slowest_head` picks the smaller counter. */
  lemma ScanComparesDistances(from: State, s: State)
    requires Lawful(from) && Evolves(from, s) && Enabled(s, ScanHead) && s.prod.k > 0
    ensures Back(s.tail, s.heads[s.prod.k].published, s.depth) > Back(s.tail, s.prod.slow, s.depth)
       <==> s.heads[s.prod.k].published < s.prod.slow
  {
    EvolvedInv(from, s);
    assert HeadInv(s, s.heads[s.prod.k]);
    Distance(s.tail, s.heads[s.prod.k].published, s.depth);
    Distance(s.tail, s.prod.slow, s.depth);
  }

  /** A push the cached head admits has room behind every published head. */
  lemma CacheNeverOverstates(from: State, s: State)
    requires Lawful(from) && Evolves(from, s) && s.prod.Locked? && s.depth > 0
    ensures Refuses(s.prod.kind, s.tail, s.shadowHead, |s.prod.es|, s.depth) || Room(s, |s.prod.es|)
  {
    EvolvedInv(from, s);
    RefusesExactlyWhenFull(s.prod.kind, s.tail, s.shadowHead, |s.prod.es|, s.depth);
    forall h | 0 <= h < |s.heads| ensures s.shadowHead <= s.heads[h].published {
      assert HeadInv(s, s.heads[h]);
    }
  }

  /** A push the rescanned heads refuse has no room, and conversely. */
  lemma ScanIsExact(from: State, s: State)
    requires Lawful(from) && Evolves(from, s) && s.prod.Scanning? && s.depth > 0
    requires s.prod.k == |s.heads| && Slowest(s, |s.heads|, s.prod.slow)
    ensures Refuses(s.prod.kind, s.tail, s.prod.slow, |s.prod.es|, s.depth) <==> !Room(s, |s.prod.es|)
  {
    EvolvedInv(from, s);
    RefusesExactlyWhenFull(s.prod.kind, s.tail, s.prod.slow, |s.prod.es|, s.depth);
  }

  class GFifo {
    const depth: nat
    const buf: array<Entry>
    var lock: bool
    var head: seq<nat>
    var tail: nat
    var shadowHead: nat
    var shadowTail: seq<nat>
    var localHead: seq<nat>
    var active: nat
    ghost var abs: State

    /** The head registers hold the residues of the counters. */
    ghost predicate HeadsStored()
      reads this
    {
      && depth > 0 && |head| == |shadowTail| == |localHead| && active == |abs.heads| <= |head|
      && (forall h | 0 <= h < active :: head[h] == abs.heads[h].published % depth)
      && (forall h | 0 <= h < active :: shadowTail[h] == abs.heads[h].shadowTail % depth)
      && (forall h | 0 <= h < active :: localHead[h] == abs.heads[h].local % depth)
    }

    /** So do the shared registers, and the slots hold the entries. */
    ghost predicate RingStored()
      reads this, buf
    {
      && 0 < depth == abs.depth == buf.Length && buf[..] == abs.buf
      && tail == abs.tail % depth && shadowHead == abs.shadowHead % depth
    }

    ghost predicate Valid()
      reads this, buf
    {
      Lawful(abs) && RingStored() && HeadsStored() && (lock <==> !abs.prod.Free?)
    }

    /** A zeroed ring with all its heads in use. */
    constructor (depth: nat, heads: nat)
      requires depth > 0 && heads > 0
      ensures Valid() && fresh(buf) && !lock && active == heads == |head|
      ensures abs == Init(depth, heads, Entry(0, 0))
    {
      this.depth := depth;
      buf := new Entry[depth](_ => Entry(0, 0));
      lock, tail, shadowHead, active := false, 0, 0, heads;
      head, shadowTail, localHead := seq(heads, _ => 0), seq(heads, _ => 0), seq(heads, _ => 0);
      abs := Init(depth, heads, Entry(0, 0));
      new;
      assert buf[..] == abs.buf;
      EvolvesNot(abs);
      assert Reachable(depth, heads, Entry(0, 0), [], abs);
    }

    /** Do one step of the step system. */
    ghost method Take(from: State, step: Step)
      requires Evolves(from, abs) && Enabled(abs, step)
      modifies this`abs
      ensures abs == Apply(old(abs), step) && Evolves(from, abs)
    {
      EvolvesBy(from, abs, step);
      abs := Apply(abs, step);
    }

    /** One load of the scan over the heads. */
    ghost method TakeScan(from: State)
      requires Lawful(from) && Evolves(from, abs) && 0 < abs.depth == |abs.buf|
      requires abs.prod.Scanning? && abs.prod.k < |abs.heads|
      modifies this`abs
      ensures Evolves(from, abs)
      ensures var p, v := old(abs.prod), old(abs.heads[abs.prod.k].published);
              var closer := p.k == 0 || Back(old(abs.tail), v, old(abs.depth)) > Back(old(abs.tail), p.slow, old(abs.depth));
              && abs == old(abs).(prod := p.(k := p.k + 1, slow := if closer then v else p.slow))
              && (p.k > 0 ==> (closer <==> v < p.slow))
    {
      if abs.prod.k > 0 {
        ScanComparesDistances(from, abs);
      }
      Take(from, ScanHead);
    }

    /** The published head furthest behind the tail. */
    method SlowestHead(ghost from: State) returns (slow: nat)
      requires Lawful(from) && Evolves(from, abs) && RingStored() && HeadsStored()
      requires abs.prod.Scanning? && abs.prod.k == 0
      modifies this`abs
      ensures Evolves(from, abs)
      ensures abs.prod.Scanning? && abs == old(abs).(prod := abs.prod)
      ensures abs.prod == old(abs.prod).(k := |abs.heads|, slow := abs.prod.slow)
      ensures Slowest(abs, |abs.heads|, abs.prod.slow) && slow == abs.prod.slow % depth
    {
      hide Evolves, Lawful, Runs, Apply, Enabled;
      HasAHead(from, abs);
      slow := head[0];
      TakeScan(from);
      assert abs.prod.slow == abs.heads[0].published;
      var k := 1;
      while k < active
        invariant 1 <= k <= active && Evolves(from, abs)
        invariant abs.prod.Scanning? && abs == old(abs).(prod := abs.prod)
        invariant abs.prod == old(abs.prod).(k := k, slow := abs.prod.slow)
        invariant Slowest(abs, k, abs.prod.slow) && slow == abs.prod.slow % depth
      {
        var v := head[k];
        if (tail - v) % depth > (tail - slow) % depth {
          slow := v;
        }
        TakeScan(from);
        k := k + 1;
      }
    }

    ghost method TakeLock(from: State, kind: Kind, es: seq<Entry>)
      requires Evolves(from, abs) && 0 < abs.depth == |abs.buf| && abs.prod.Free? && WellSized(kind, |es|, abs.depth)
      modifies this`abs
      ensures Evolves(from, abs) && abs == old(abs).(prod := Locked(kind, es))
    {
      Take(from, Lock(kind, es));
    }

    /** The cached-head test; a push it admits has room behind every head. */
    ghost method TakeLoadTail(from: State)
      requires Lawful(from) && Evolves(from, abs) && 0 < abs.depth == |abs.buf| && abs.prod.Locked?
      modifies this`abs
      ensures var p := old(abs.prod);
              var scan := p.kind.Batch? || Refuses(p.kind, old(abs.tail), old(abs.shadowHead), |p.es|, old(abs.depth));
              && abs == old(abs).(prod := if scan then Scanning(p.kind, p.es, 0, 0) else Writing(p.kind, p.es, 0))
              && (scan || Room(old(abs), |p.es|))
      ensures Evolves(from, abs)
    {
      CacheNeverOverstates(from, abs);
      Take(from, LoadTail);
    }

    /** The refreshed test, which is exact. */
    ghost method TakeDecide(from: State)
      requires Lawful(from) && Evolves(from, abs) && 0 < abs.depth == |abs.buf| && abs.prod.Scanning?
      requires abs.prod.k == |abs.heads| && Slowest(abs, |abs.heads|, abs.prod.slow)
      modifies this`abs
      ensures var p := old(abs.prod);
              var full := Refuses(p.kind, old(abs.tail), p.slow, |p.es|, old(abs.depth));
              && abs == old(abs).(shadowHead := p.slow, prod := if full then Free else Writing(p.kind, p.es, 0))
              && (full <==> !Room(old(abs), |p.es|))
      ensures Evolves(from, abs)
    {
      ScanIsExact(from, abs);
      Take(from, Decide);
    }

    ghost method TakeWriteSlot(from: State)
      requires Evolves(from, abs) && 0 < abs.depth == |abs.buf|
      requires abs.prod.Writing? && abs.prod.i < |abs.prod.es|
      modifies this`abs
      ensures var p := old(abs.prod); var at := (old(abs.tail) + p.i) % old(abs.depth);
              at < |old(abs.buf)| && abs == old(abs).(buf := old(abs.buf)[at := p.es[p.i]], prod := p.(i := p.i + 1))
      ensures Evolves(from, abs)
    {
      Take(from, WriteSlot);
    }

    ghost method TakeStoreTail(from: State)
      requires Lawful(from) && Evolves(from, abs) && 0 < abs.depth == |abs.buf|
      requires abs.prod.Writing? && abs.prod.i == |abs.prod.es|
      modifies this`abs
      ensures var p := old(abs.prod);
              && abs == old(abs).(tail := old(abs.tail) + |p.es|, log := old(abs.log) + p.es, prod := Free, batches := abs.batches)
              && (p.kind.Batch? ==> (old(abs.tail), p.es) in abs.batches)
      ensures Evolves(from, abs) && Lawful(abs)
    {
      Take(from, StoreTail);
      Take(from, Unlock);
      EvolvesKeepsLawful(from, abs);
    }

    /**
     * The room test every push makes under the lock: the cached head first
     * (except for a batch), then the heads themselves; a refusal drops the lock.
     */
    method Admit(ghost from: State, kind: Kind, n: nat) returns (ok: bool)
      requires Lawful(from) && Evolves(from, abs) && RingStored() && HeadsStored() && lock
      requires abs.prod.Locked? && abs == from.(prod := Locked(kind, abs.prod.es)) && |abs.prod.es| == n
      modifies this`abs, this`shadowHead, this`lock
      ensures Evolves(from, abs) && RingStored() && HeadsStored() && lock == ok
      ensures abs == from.(shadowHead := abs.shadowHead, prod := if ok then Writing(kind, old(abs.prod.es), 0) else Free)
      ensures ok <==> Room(from, n)
    {
      hide Evolves, Lawful, Runs, Apply, Enabled;
      TakeLoadTail(from);
      ok := true;
      TwiceReduced(abs.tail, depth);
      TwiceReduced(abs.shadowHead, depth);
      if kind.Batch? || Refuses(kind, tail, shadowHead, n, depth) {
        var slow := SlowestHead(from);
        TwiceReduced(abs.prod.slow, depth);
        shadowHead := slow;
        TakeDecide(from);
        if Refuses(kind, tail, shadowHead, n, depth) {
          lock := false;
          ok := false;
        }
      }
    }

    /** Publish the `n` slots written behind the tail and release the lock. */
    method PublishTail(ghost from: State, n: nat)
      requires Lawful(from) && Evolves(from, abs) && RingStored() && HeadsStored()
      requires abs.prod.Writing? && abs.prod.i == |abs.prod.es| == n
      modifies this`abs, this`tail, this`lock
      ensures Valid() && !lock && Evolves(from, abs)
      ensures abs == old(abs).(tail := old(abs.tail) + n, log := old(abs.log) + old(abs.prod.es), prod := Free, batches := abs.batches)
      ensures old(abs.prod.kind).Batch? ==> (old(abs.tail), old(abs.prod.es)) in abs.batches
    {
      hide Evolves, Lawful, Runs, Apply, Enabled;
      StepResidue(abs.tail, n, depth);
      tail := (tail + n) % depth;
      TakeStoreTail(from);
      lock := false;
    }

    /** Push one entry, or report back-pressure. */
    method TryPush(e: Entry) returns (ok: bool)
      requires Valid()
      modifies this, buf
      ensures Valid() && Evolves(old(abs), abs) && abs.heads == old(abs.heads)
      ensures old(lock) ==> !ok && abs == old(abs)
      ensures !old(lock) ==> !lock && (ok <==> Room(old(abs), 1))
      ensures abs.log == old(abs.log) + if ok then [e] else []
    {
      hide Evolves, Lawful, Runs, Room, Apply, Enabled;
      ghost var from := abs;
      EvolvesNot(from);
      if lock {
        return false;
      }
      lock := true;
      TakeLock(from, One, [e]);
      ok := Admit(from, One, 1);
      if ok {
        buf[tail] := e;
        TakeWriteSlot(from);
        PublishTail(from, 1);
      } else {
        EvolvesKeepsLawful(from, abs);
      }
    }

    /** Push two entries as one unit. */
    method TryPush2(e0: Entry, e1: Entry) returns (ok: bool)
      requires Valid()
      modifies this, buf
      ensures Valid() && Evolves(old(abs), abs) && abs.heads == old(abs.heads)
      ensures old(lock) ==> !ok && abs == old(abs)
      ensures !old(lock) ==> !lock && (ok <==> Room(old(abs), 2))
      ensures abs.log == old(abs.log) + if ok then [e0, e1] else []
    {
      hide Evolves, Lawful, Runs, Room, Apply, Enabled;
      ghost var from := abs;
      EvolvesNot(from);
      if lock {
        return false;
      }
      lock := true;
      TakeLock(from, Two, [e0, e1]);
      ok := Admit(from, Two, 2);
      if ok {
        buf[tail] := e0;
        TakeWriteSlot(from);
        StepResidue(abs.tail, 1, depth);
        buf[(tail + 1) % depth] := e1;
        TakeWriteSlot(from);
        PublishTail(from, 2);
      } else {
        EvolvesKeepsLawful(from, abs);
      }
    }

    /** Push `es` as one unit: all of it, or none. */
    method TryPushSlice(es: seq<Entry>) returns (ok: bool)
      requires Valid()
      modifies this, buf
      ensures Valid() && Evolves(old(abs), abs) && abs.heads == old(abs.heads)
      ensures es == [] || old(lock) ==> abs == old(abs) && ok == (es == [])
      ensures es != [] && !old(lock) ==> !lock && (ok <==> Room(old(abs), |es|))
      ensures abs.log == old(abs.log) + if ok then es else []
    {
      hide Evolves, Lawful, Runs, Room, Apply, Enabled;
      ghost var from := abs;
      EvolvesNot(from);
      if es == [] || lock {
        return es == [];
      }
      lock := true;
      TakeLock(from, Slice, es);
      ok := Admit(from, Slice, |es|);
      if ok {
        WriteSlots(from, es);
        PublishTail(from, |es|);
      } else {
        EvolvesKeepsLawful(from, abs);
      }
    }

    /** The index after `idx`, which stands for counter `x`. */
    method NextIndex(idx: nat, ghost x: nat) returns (next: nat)
      requires depth > 0 && idx == x % depth
      ensures next == (x + 1) % depth < depth
    {
      StepResidue(x, 1, depth);
      next := (idx + 1) % depth;
    }

    /** Fill the slots from the tail on, wrapping at the end of the ring. */
    method WriteSlots(ghost from: State, es: seq<Entry>)
      requires Evolves(from, abs) && RingStored() && HeadsStored()
      requires abs.prod.Writing? && abs.prod.i == 0 && abs.prod.es == es
      modifies this`abs, buf
      ensures Evolves(from, abs) && RingStored() && HeadsStored()
      ensures abs == old(abs).(buf := abs.buf, prod := old(abs.prod).(i := |es|))
    {
      hide Evolves, Runs, Apply, Enabled;
      var i := 0;
      while i < |es|
        invariant 0 <= i <= |es|
        invariant Evolves(from, abs) && RingStored() && HeadsStored()
        invariant abs == old(abs).(buf := abs.buf, prod := old(abs.prod).(i := i))
      {
        StepResidue(abs.tail, i, depth);
        buf[(tail + i) % depth] := es[i];
        TakeWriteSlot(from);
        i := i + 1;
      }
    }

    /**
     * One attempt of `push_batch`, which repeats it until it succeeds: a token
     * and its payload words, as one unit.
     */
    method PushBatch(token: nat, count: nat, vals: seq<nat>) returns (ok: bool)
      requires Valid() && |vals| + 1 < depth
      modifies this, buf
      ensures Valid() && Evolves(old(abs), abs) && abs.heads == old(abs.heads)
      ensures old(lock) ==> !ok && abs == old(abs)
      ensures !old(lock) ==> !lock && (ok <==> Room(old(abs), |vals| + 1))
      ensures abs.log == old(abs.log) + if ok then BatchEntries(token, count, vals) else []
      ensures ok ==> (old(abs.tail), BatchEntries(token, count, vals)) in abs.batches
      ensures ok ==>
                && |abs.log| == |old(abs.log)| + 1 + |vals| && abs.log[|old(abs.log)|] == Entry(token, count)
                && forall i | 0 <= i < |vals| :: abs.log[|old(abs.log)| + 1 + i] == Entry(0xFFFF_0003, vals[i])
    {
      hide Evolves, Lawful, Runs, Room, Apply, Enabled;
      ghost var from := abs;
      EvolvesNot(from);
      if lock {
        return false;
      }
      lock := true;
      ghost var es := BatchEntries(token, count, vals);
      TakeLock(from, Batch, es);
      ok := Admit(from, Batch, |vals| + 1);
      if ok {
        buf[tail] := Entry(token, count);
        TakeWriteSlot(from);
        WritePayload(from, es, vals);
        PublishTail(from, |vals| + 1);
      } else {
        EvolvesKeepsLawful(from, abs);
      }
    }

    method WritePayload(ghost from: State, ghost es: seq<Entry>, vals: seq<nat>)
      requires Evolves(from, abs) && RingStored() && HeadsStored() && |es| == |vals| + 1
      requires forall i | 0 <= i < |vals| :: es[i + 1] == Entry(GFIFO_PAYLOAD, vals[i])
      requires abs.prod == Writing(Batch, es, 1)
      modifies this`abs, buf
      ensures Evolves(from, abs) && RingStored() && HeadsStored()
      ensures abs == old(abs).(buf := abs.buf, prod := Writing(Batch, es, |es|))
    {
      hide Evolves, Runs, Apply, Enabled;
      var idx := tail;
      var i := 0;
      while i < |vals|
        invariant 0 <= i <= |vals| && idx == (abs.tail + i) % depth
        invariant Evolves(from, abs) && RingStored() && HeadsStored()
        invariant abs == old(abs).(buf := abs.buf, prod := Writing(Batch, es, i + 1))
      {
        idx := NextIndex(idx, abs.tail + i);
        buf[idx] := Entry(GFIFO_PAYLOAD, vals[i]);
        TakeWriteSlot(from);
        i := i + 1;
      }
    }

    /** The next entry for head `h`, left in place. */
    method PeekAt(h: nat) returns (r: Option<Entry>)
      requires Valid() && h < active && (abs.heads[h].ctl.AtRest? || abs.heads[h].ctl.Peeked?)
      modifies this`abs, this`shadowTail
      ensures Valid() && Evolves(old(abs), abs) && OnlyHead(old(abs), abs, h)
      ensures abs.heads[h].local == old(abs.heads[h].local) <= |abs.log| && abs.heads[h].taken == old(abs.heads[h].taken)
      ensures r.None? <==> abs.heads[h].local == |abs.log|
      ensures r.Some? ==> r.value == abs.log[abs.heads[h].local] && abs.heads[h].ctl == Peeked(r.value)
    {
      hide Evolves, Lawful, Runs;
      ghost var from := abs;
      EvolvesNot(from);
      HeadFacts(from, abs, h);
      var at := localHead[h];
      var cached := shadowTail[h];
      if at == cached {
        cached := tail;
        shadowTail := shadowTail[h := cached];
        Take(from, PeekTail(h));
        HeadFacts(from, abs, h);
        EvolvesKeepsLawful(from, abs);
        if at == cached {
          return None;
        }
      }
      r := Some(buf[at]);
      if abs.heads[h].ctl.AtRest? {
        Take(from, PeekSlot(h));
        HeadFacts(from, abs, h);
        EvolvesKeepsLawful(from, abs);
      }
    }

    /** Advance the head and, when the code does, publish it. */
    ghost method TakeConsume(from: State, h: nat)
      requires Evolves(from, abs) && 0 < abs.depth == |abs.buf|
      requires h < |abs.heads| && (abs.heads[h].ctl.Peeked? || abs.heads[h].ctl.Drained?)
      modifies this`abs
      ensures Evolves(from, abs)
      ensures var x := old(abs.heads[h]);
              var publish := (x.local + 1) % old(abs.depth) % 64 == 0 || Same(old(abs), x.local + 1, old(abs.tail));
              abs == SetHead(old(abs), h,
                             x.(local := x.local + 1, taken := x.taken + [x.ctl.e], ctl := AtRest,
                                published := if publish then x.local + 1 else x.published))
    {
      Take(from, Consume(h));
      if abs.heads[h].ctl.Publishing? {
        Take(from, Publish(h));
      }
    }

    /** Retire the entry last peeked (or the last payload word drained). */
    method ConsumeAt(h: nat)
      requires Valid() && h < active && (abs.heads[h].ctl.Peeked? || abs.heads[h].ctl.Drained?)
      modifies this`abs, this`localHead, this`head
      ensures Valid() && Evolves(old(abs), abs) && OnlyHead(old(abs), abs, h)
      ensures abs.heads[h].local == old(abs.heads[h].local) + 1 && abs.heads[h].ctl.AtRest?
      ensures abs.heads[h].taken == old(abs.heads[h].taken) + [old(abs.heads[h].ctl.e)]
      ensures abs.heads[h].local == abs.tail ==> abs.heads[h].published == abs.tail
    {
      hide Evolves, Lawful, Runs, Apply, Enabled;
      ghost var from := abs;
      EvolvesNot(from);
      HeadFacts(from, abs, h);
      var next := (localHead[h] + 1) % depth;
      StepResidue(abs.heads[h].local, 1, depth);
      localHead := localHead[h := next];
      if next % 64 == 0 || next == tail {
        head := head[h := next];
      }
      TakeConsume(from, h);
      EvolvesKeepsLawful(from, abs);
      HeadFacts(from, abs, h);
    }

    /** Publish head `h` as it stands, at rest or between a peek or drain and its consume. */
    method FlushHeadAt(h: nat)
      requires Valid() && h < active && !abs.heads[h].ctl.Draining? && !abs.heads[h].ctl.Publishing?
      modifies this`abs, this`head
      ensures Valid() && Evolves(old(abs), abs) && OnlyHead(old(abs), abs, h)
      ensures abs.heads[h] == old(abs.heads[h]).(published := abs.heads[h].local)
    {
      hide Evolves, Lawful, Runs;
      ghost var from := abs;
      EvolvesNot(from);
      head := head[h := localHead[h]];
      Take(from, Flush(h));
      EvolvesKeepsLawful(from, abs);
    }

    /**
     * Copy out the `n` words behind the token head `h` has peeked, leaving the
     * head on the last of them for the caller's consume.  If not all of them
     * are published the call has copied those that are and waits for the tail
     * to move, its registers untouched: `done` says which.
     */
    method DrainPayloadAt(h: nat, n: nat, dst: array<nat>) returns (done: bool, taken: nat)
      requires Valid() && h < active && abs.heads[h].ctl.Peeked? && n <= dst.Length
      modifies this`abs, this`shadowTail, this`localHead, dst
      ensures Valid() && Evolves(old(abs), abs) && OnlyHead(old(abs), abs, h)
      ensures var x := old(abs.heads[h]);
              && (done <==> x.local + 1 + n <= abs.tail) && abs.tail == |abs.log|
              && taken == (if done then n else abs.tail - x.local - 1)
              && (forall i | 0 <= i < taken :: dst[i] == abs.log[x.local + 1 + i].val)
              && (forall i | taken <= i < dst.Length :: dst[i] == old(dst[i]))
      ensures done ==>
                var x := old(abs.heads[h]);
                && abs.heads[h].ctl == Drained(abs.log[x.local + n]) && abs.heads[h].local == x.local + n
                && abs.heads[h].taken == x.taken + abs.log[x.local..x.local + n]
      ensures !done ==>
                && Enabled(abs, DrainReload(h)) && Apply(abs, DrainReload(h)) == abs
                && abs.heads[h] == old(abs.heads[h]).(ctl := abs.heads[h].ctl)
                && shadowTail == old(shadowTail) && localHead == old(localHead)
    {
      hide Evolves, Lawful, Runs, Apply, Enabled;
      ghost var from := abs;
      EvolvesNot(from);
      HeadFacts(from, abs, h);
      TakeDrainBegin(from, h, n);
      var at, seen;
      taken, at, seen := DrainWords(from, h, n, dst);
      done := taken == n;
      if done {
        DrainRewinds(from, h, n, at, seen);
      } else {
        DrainWaits(from, h, n);
        EvolvesKeepsLawful(from, abs);
      }
    }

    /** Rewind by one, so that the caller's consume advances past the final word. */
    method DrainRewinds(ghost from: State, h: nat, n: nat, at: nat, seen: nat)
      requires Lawful(from) && Evolves(from, abs) && RingStored() && HeadsStored() && (lock <==> !from.prod.Free?)
      requires h < active == |from.heads| && from.heads[h].ctl.Peeked?
      requires from.heads[h].local + n < |from.log| && from.heads[h].ctl.e == from.log[from.heads[h].local]
      requires abs == DrainedSoFar(from, h, n, n)
      requires at == (from.heads[h].local + 1 + n) % depth && seen == tail
      modifies this`abs, this`shadowTail, this`localHead
      ensures Valid() && Evolves(from, abs) && abs == DrainFinished(from, h, n)
    {
      hide Evolves, Lawful, Runs, Apply, Enabled;
      StoreRewound(h, at, seen, from.heads[h].local + n);
      TakeDrainDone(from, h, n);
      EvolvesKeepsLawful(from, abs);
    }

    method StoreRewound(h: nat, at: nat, seen: nat, ghost local: nat)
      requires HeadsStored() && h < active && at == (local + 1) % depth && seen == tail
      modifies this`shadowTail, this`localHead
      ensures |head| == |shadowTail| == |localHead|
      ensures shadowTail == old(shadowTail)[h := tail] && localHead == old(localHead)[h := local % depth]
    {
      RewindResidue(local, depth);
      shadowTail := shadowTail[h := seen];
      localHead := localHead[h := (at - 1) % depth];
    }

    ghost method TakeDrainBegin(from: State, h: nat, n: nat)
      requires Lawful(from) && Evolves(from, abs) && abs == from && h < |abs.heads| && abs.heads[h].ctl.Peeked?
      requires abs.heads[h].local + 1 <= |abs.log|
      modifies this`abs
      ensures abs == DrainedSoFar(from, h, n, 0) && Evolves(from, abs)
    {
      HeadFacts(from, abs, h);
      Take(from, DrainBegin(h, n));
      assert abs.heads[h].ctl.got == abs.log[abs.heads[h].local + 1..abs.heads[h].local + 1];
    }

    ghost method TakeDrainRead(from: State, h: nat, n: nat, k: nat)
      requires Lawful(from) && Evolves(from, abs) && h < |from.heads| && from.heads[h].ctl.Peeked?
      requires k < n && from.heads[h].local + 1 + k < from.tail == |from.log|
      requires abs == DrainedSoFar(from, h, n, k)
      modifies this`abs
      ensures abs == DrainedSoFar(from, h, n, k + 1) && Evolves(from, abs)
      ensures 0 < from.depth == |from.buf| && Slot(from, from.heads[h].local + 1 + k) == from.log[from.heads[h].local + 1 + k]
      ensures !Same(from, from.heads[h].local + 1 + k, from.tail)
    {
      DrainFacts(from, abs, h);
      Take(from, DrainRead(h));
      DrainGrows(from, h, n, k);
    }

    ghost method TakeDrainDone(from: State, h: nat, n: nat)
      requires Lawful(from) && Evolves(from, abs) && h < |from.heads| && from.heads[h].ctl.Peeked?
      requires from.heads[h].local + 1 + n <= |from.log| && abs == DrainedSoFar(from, h, n, n)
      requires from.heads[h].ctl.e == from.log[from.heads[h].local]
      modifies this`abs
      ensures abs == DrainFinished(from, h, n) && Evolves(from, abs)
    {
      DrainFacts(from, abs, h);
      DrainEnds(from, h, n);
      Take(from, DrainDone(h));
    }

    /**
     * The copy loop: the ring is read from behind the token, wrapping at its
     * end, until all words are taken or the tail just loaded is reached.
     */
    method DrainWords(ghost from: State, h: nat, n: nat, dst: array<nat>) returns (taken: nat, at: nat, seen: nat)
      requires Lawful(from) && Evolves(from, abs) && RingStored() && HeadsStored()
      requires h < active == |from.heads| && from.heads[h].ctl.Peeked? && n <= dst.Length
      requires from.heads[h].local + 1 <= from.tail == |from.log| && abs == DrainedSoFar(from, h, n, 0)
      modifies this`abs, dst
      ensures taken == if from.heads[h].local + 1 + n <= from.tail then n else from.tail - from.heads[h].local - 1
      ensures Evolves(from, abs) && RingStored() && HeadsStored() && abs == DrainedSoFar(from, h, n, taken)
      ensures at == (from.heads[h].local + 1 + taken) % depth && seen == tail
      ensures forall i | 0 <= i < taken :: dst[i] == from.log[from.heads[h].local + 1 + i].val
      ensures forall i | taken <= i < dst.Length :: dst[i] == old(dst[i])
    {
      hide Evolves, Lawful, Runs, Apply, Enabled;
      ghost var first := from.heads[h].local + 1;
      at := NextIndex(localHead[h], from.heads[h].local);
      seen := tail;
      taken := 0;
      while taken < n
        invariant 0 <= taken <= n && first + taken <= from.tail
        invariant Evolves(from, abs) && RingStored() && HeadsStored() && seen == tail
        invariant at == (first + taken) % depth && abs == DrainedSoFar(from, h, n, taken)
        invariant forall i | 0 <= i < taken :: dst[i] == from.log[first + i].val
        invariant forall i | taken <= i < dst.Length :: dst[i] == old(dst[i])
      {
        DrainFacts(from, abs, h);
        if at == seen {
          seen := tail;
          if at == seen {
            break;
          }
        }
        dst[taken] := buf[at].val;
        TakeDrainRead(from, h, n, taken);
        at := NextIndex(at, first + taken);
        taken := taken + 1;
      }
    }

    /** Whether every active head has been published at the tail. */
    method IsEmpty() returns (b: bool)
      requires Valid()
      ensures b <==> forall h | 0 <= h < active :: abs.heads[h].published == abs.tail
    {
      hide Lawful;
      var h := 0;
      while h < active
        invariant 0 <= h <= active
        invariant forall k | 0 <= k < h :: abs.heads[k].published == abs.tail
      {
        PublishedFacts(abs, h);
        if head[h] != tail {
          return false;
        }
        h := h + 1;
      }
      return true;
    }

    /**
     * Put `n` heads in use and discard everything pending (`set_heads`, then
     * `reset`), with no producer, consumer or observer at work.
     */
    method ResetHeads(n: nat)
      requires Valid() && 1 <= n <= |head| && !lock && abs.obs.Quiet?
      requires forall h | 0 <= h < active :: abs.heads[h].ctl.AtRest?
      modifies this
      ensures Valid() && Evolves(old(abs), abs) && active == n && !lock
      ensures abs.log == old(abs.log) && abs.origin == abs.tail == old(abs.tail)
      ensures forall h | 0 <= h < n :: abs.heads[h] == Head(abs.tail, abs.tail, abs.tail, AtRest, [])
    {
      hide Evolves, Lawful, Runs;
      ghost var from := abs;
      EvolvesNot(from);
      active := n;
      var h := 0;
      while h < |head|
        invariant 0 <= h <= |head| == |localHead| == |shadowTail| == |old(head)|
        invariant abs == from && RingStored() && !lock && active == n
        invariant forall k | 0 <= k < h :: head[k] == tail && localHead[k] == tail && shadowTail[k] == tail
      {
        head := head[h := tail];
        localHead := localHead[h := tail];
        shadowTail := shadowTail[h := tail];
        h := h + 1;
      }
      shadowHead := tail;
      Take(from, Reset(n));
      EvolvesKeepsLawful(from, abs);
    }
  }
}
