/**
 * Index arithmetic of the graphics FIFO.
 *
 * The ring stores indices already reduced modulo its depth.  Here every index
 * is an unbounded counter and the code sees only its residue; these lemmas say
 * when a comparison of residues decides a comparison of counters.
 */
module RingIndex {
  import opened Basics

  /** `a.wrapping_sub(b) & MASK` on the stored residues of two counters. */
  function Back(a: int, b: int, d: nat): (r: nat)
    requires d > 0
  {
    (a % d - b % d) % d
  }

  /** Two counters less than a lap apart share a slot only when they are equal. */
  lemma SameResidue(a: int, b: int, d: nat)
    requires d > 0 && 0 - d < b - a < d
    ensures a % d == b % d <==> a == b
  {
    if a % d == b % d {
      assert b - a == d * (b / d - a / d);
      MultipleInside(b / d - a / d, d);
    }
  }

  /** Stepping the stored index is stepping the counter. */
  lemma StepResidue(x: int, n: int, d: nat)
    requires d > 0
    ensures (x % d + n) % d == (x + n) % d
  {
    assert x + n == (x % d + n) + d * (x / d);
    LapResidue(x % d + n, x / d, d);
  }

  /** Stepping the stored index back by one is stepping the counter back. */
  lemma RewindResidue(x: int, d: nat)
    requires d > 0
    ensures ((x + 1) % d - 1) % d == x % d
  {
    StepResidue(x + 1, -1, d);
  }

  /** The masked difference of two counters under a lap apart is their distance. */
  lemma Distance(a: int, b: int, d: nat)
    requires d > 0 && 0 <= a - b < d
    ensures Back(a, b, d) == a - b
  {
    assert a % d - b % d == (a - b) + d * (b / d - a / d);
    LapResidue(a - b, b / d - a / d, d);
    Residue(a - b, 0, a - b, d);
  }

  // ---- Room ----------------------------------------------------------------

  /** Which push the lock holder is making. */
  datatype Kind = One | Two | Slice | Batch

  predicate WellSized(kind: Kind, n: nat, d: nat)
  {
    match kind
    case One => n == 1
    case Two => n == 2
    case Slice => n >= 1
    case Batch => 1 <= n < d
  }

  /** The test each push makes on the stored tail and head: true means it refuses. */
  predicate Refuses(kind: Kind, tail: nat, head: nat, n: nat, d: nat)
    requires d > 0
  {
    match kind
    case One => (tail % d + 1) % d == head % d
    case Two => (tail % d + 1) % d == head % d || (tail % d + 2) % d == head % d
    case Slice => (head % d - tail % d - 1) % d < n
    case Batch => (d - 1) - Back(tail, head, d) < n
  }

  /**
   * All four tests on residues decide the same question: do `n` more entries
   * leave the one empty slot that tells a full ring from an empty one?
   */
  lemma RefusesExactlyWhenFull(kind: Kind, tail: nat, head: nat, n: nat, d: nat)
    requires d > 0 && WellSized(kind, n, d)
    requires head <= tail <= head + d - 1
    ensures Refuses(kind, tail, head, n, d) <==> tail + n > head + d - 1
  {
    Distance(tail, head, d);
    match kind {
      case One =>
        OneStep(tail, head, d);
      case Two =>
        OneStep(tail, head, d);
        StepResidue(tail, 2, d);
        if tail + 2 - head < d {
          SameResidue(head, tail + 2, d);
        } else {
          LapResidue(head, 1, d);
        }
      case Slice =>
        var room := head + d - 1 - tail;
        assert head % d - tail % d - 1 == room + d * (tail / d - head / d - 1) by {
          assert head == d * (head / d) + head % d;
          assert tail == d * (tail / d) + tail % d;
        }
        LapResidue(room, tail / d - head / d - 1, d);
        Residue(room, 0, room, d);
      case Batch =>
    }
  }

  lemma OneStep(tail: nat, head: nat, d: nat)
    requires d > 0 && head <= tail <= head + d - 1
    ensures (tail % d + 1) % d == head % d <==> tail + 1 > head + d - 1
  {
    StepResidue(tail, 1, d);
    if tail + 1 - head < d {
      SameResidue(head, tail + 1, d);
    } else {
      LapResidue(head, 1, d);
    }
  }
}
