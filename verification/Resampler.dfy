/**
 * The audio resampler's exact rational accumulator: how many output pairs each
 * input pair completes, and where between the inputs each of them falls.
 * Sample values (floating-point interpolation) are not modelled.
 */
module Resampler {
  import Basics

  /** One output pair: made while input pair `frame` was pushed, at `num / outRate` past it. */
  datatype Output = Output(frame: nat, num: nat)

  function CeilDiv(a: nat, b: nat): nat
    requires b > 0
  {
    (a + b - 1) / b
  }

  /** `k` steps of `rate`. */
  function Steps(k: nat, rate: nat): nat
  {
    k * rate
  }

  /** A quotient is determined by any remainder in range. */
  lemma QuotientIs(x: int, q: int, r: int, d: nat)
    requires d > 0 && x == q * d + r && 0 <= r < d
    ensures x / d == q && x % d == r
  {
    assert d * (q - x / d) == x % d - r;
    Basics.MultipleInside(q - x / d, d);
  }

  /** An accumulator inside one input step pins the output count to the ceiling. */
  lemma CountIsCeiling(emitted: nat, inputs: nat, acc: nat, inRate: nat, outRate: nat)
    requires inRate > 0 && acc < inRate && Steps(emitted, inRate) == Steps(inputs, outRate) + acc
    ensures emitted == CeilDiv(Steps(inputs, outRate), inRate)
  {
    var n := Steps(inputs, outRate);
    QuotientIs(n + inRate - 1, emitted, inRate - 1 - acc, inRate);
  }

  /** Output `o` is the `k`-th: `k` input steps lie exactly `num / outRate` past its frame. */
  ghost predicate IsKth(k: nat, o: Output, inRate: nat, outRate: nat)
  {
    o.num < outRate && Steps(k, inRate) == Steps(o.frame, outRate) + o.num
  }

  /** The output at exactly `k * inRate / outRate` input pairs. */
  function KthOutput(k: nat, inRate: nat, outRate: nat): Output
    requires outRate > 0
  {
    Output(Steps(k, inRate) / outRate, Steps(k, inRate) % outRate)
  }

  /** Output `k` falls at exactly `k * inRate / outRate` input pairs. */
  lemma PositionIsExact(k: nat, o: Output, inRate: nat, outRate: nat)
    requires IsKth(k, o, inRate, outRate)
    ensures o == KthOutput(k, inRate, outRate)
  {
    QuotientIs(Steps(k, inRate), o.frame, o.num, outRate);
  }

  lemma MakeKth(k: nat, frame: nat, num: nat, inRate: nat, outRate: nat)
    requires num < outRate && Steps(k, inRate) == Steps(frame, outRate) + num
    ensures IsKth(k, Output(frame, num), inRate, outRate)
  {
  }

  lemma NextStep(k: nat, rate: nat)
    ensures Steps(k + 1, rate) == Steps(k, rate) + rate
  {
  }

  /** At equal rates outputs and inputs keep in step. */
  lemma InStep(k: nat, n: nat, rate: nat)
    requires rate > 0 && Steps(k, rate) == Steps(n, rate)
    ensures k == n
  {
    QuotientIs(k * rate, k, 0, rate);
    QuotientIs(n * rate, n, 0, rate);
  }

  class Resampler {
    const inRate: nat
    const outRate: nat
    var acc: nat
    /** Input pairs pushed, and the output pairs they made, since the start. */
    ghost var inputs: nat
    ghost var outputs: seq<Output>

    ghost predicate Placed()
      reads this
    {
      forall k | 0 <= k < |outputs| :: IsKth(k, outputs[k], inRate, outRate)
    }

    ghost predicate Valid()
      reads this
    {
      && inRate > 0 && acc < inRate && Placed()
      && Steps(|outputs|, inRate) == Steps(inputs, outRate) + acc
      && (inRate == outRate ==> acc == 0)
    }

    constructor (inRate: nat, outRate: nat)
      requires inRate > 0
      ensures Valid() && this.inRate == inRate && this.outRate == outRate
      ensures inputs == 0 && outputs == []
    {
      this.inRate, this.outRate, acc := inRate, outRate, 0;
      inputs, outputs := 0, [];
    }

    /** Push one input pair; `n` output pairs come out. */
    method Push() returns (n: nat)
      requires Valid()
      modifies this
      ensures Valid() && inputs == old(inputs) + 1
      ensures old(outputs) <= outputs && |outputs| == |old(outputs)| + n
      ensures forall k | |old(outputs)| <= k < |outputs| :: outputs[k].frame == old(inputs)
    {
      hide Steps;
      if inRate == outRate {
        InStep(|outputs|, inputs, inRate);
        MakeKth(|outputs|, inputs, 0, inRate, outRate);
        outputs := outputs + [Output(inputs, 0)];
        NextStep(inputs, inRate);
        inputs := inputs + 1;
        return 1;
      }
      n := 0;
      while acc < outRate
        invariant inRate > 0 && acc < inRate + outRate && Placed() && inputs == old(inputs)
        invariant Steps(|outputs|, inRate) == Steps(inputs, outRate) + acc
        invariant old(outputs) <= outputs && |outputs| == |old(outputs)| + n
        invariant forall k | |old(outputs)| <= k < |outputs| :: outputs[k].frame == inputs
        decreases outRate - acc
      {
        MakeKth(|outputs|, inputs, acc, inRate, outRate);
        NextStep(|outputs|, inRate);
        outputs := outputs + [Output(inputs, acc)];
        acc := acc + inRate;
        n := n + 1;
      }
      acc := acc - outRate;
      NextStep(inputs, outRate);
      inputs := inputs + 1;
    }

    /**
     * However many pairs are pushed, the count never drifts from the exact
     * ratio and every output falls at its exact rational position.
     */
    method PushMany(count: nat)
      requires Valid() && inputs == 0
      modifies this
      ensures Valid() && inputs == count
      ensures |outputs| == CeilDiv(Steps(count, outRate), inRate)
      ensures outRate > 0 ==> forall k | 0 <= k < |outputs| :: outputs[k] == KthOutput(k, inRate, outRate)
    {
      hide Steps, CeilDiv, KthOutput, IsKth;
      var i := 0;
      while i < count
        invariant 0 <= i <= count && Valid() && inputs == i
      {
        var _ := Push();
        i := i + 1;
      }
      CountIsCeiling(|outputs|, inputs, acc, inRate, outRate);
      if outRate > 0 {
        forall k | 0 <= k < |outputs|
          ensures outputs[k] == KthOutput(k, inRate, outRate)
        {
          PositionIsExact(k, outputs[k], inRate, outRate);
        }
      }
    }
  }
}
