/**
 * `interpolate`, which stretches a series to a plot width by repeating
 * each point.  Only the repetition is modelled, so the element type is a
 * parameter.
 */
module Plot {
  import opened Arith

  /**
   * Swift's `Int` division, which truncates toward zero: the remainder
   * `a - q * b` is smaller than the divisor and takes the sign of the
   * dividend.
   */
  function TruncDiv(a: int, b: int): (q: int)
    requires b > 0
    ensures a >= 0 ==> 0 <= a - q * b < b
    ensures a < 0 ==> -b < a - q * b <= 0
  {
    if a >= 0 then a / b else -((-a) / b)
  }

  /** The repetition count `width / data.count`. */
  function StepSize(width: int, count: nat): int
    requires count > 0
  {
    TruncDiv(width, count)
  }

  /** Every position `k` of the `i`-th block of `step` positions has `k / step == i`. */
  lemma BlockIndex(i: nat, step: nat, k: int)
    requires i * step <= k < i * step + step
    ensures k / step == i
  {
    DivUnique(k, i, step, k - i * step);
  }

  /** Position `k` of `s` holds point `k / step` of `data`. */
  ghost predicate Stretches<T>(s: seq<T>, data: seq<T>, step: int)
  {
    forall k :: 0 <= k < |s| ==> 0 < step && k / step < |data| && s[k] == data[k / step]
  }

  /** Appending the `i`-th block keeps every position pointing at its point. */
  lemma BlockAppended<T>(data: seq<T>, step: nat, i: nat, s: seq<T>)
    requires i < |data| && |s| == i * step
    requires Stretches(s, data, step)
    ensures |s + seq(step, _ => data[i])| == (i + 1) * step
    ensures Stretches(s + seq(step, _ => data[i]), data, step)
  {
    var block := seq(step, _ => data[i]);
    var t := s + block;
    assert (i + 1) * step == i * step + step;
    forall k | |s| <= k < |t|
      ensures 0 < step && k / step < |data| && t[k] == data[k / step]
    {
      BlockIndex(i, step, k);
      assert t[k] == block[k - |s|];
    }
  }

  /**
   * `interpolate`: each point repeated `width / data.count` times, in
   * order.  An empty series divides by zero, and a negative repetition
   * count is refused by `Array(repeating:count:)`; both trap (`ok` false).
   */
  method Interpolate<T>(width: int, data: seq<T>) returns (stretched: seq<T>, ok: bool)
    ensures ok <==> |data| > 0 && StepSize(width, |data|) >= 0
    ensures ok ==> |stretched| == |data| * StepSize(width, |data|) && Stretches(stretched, data, StepSize(width, |data|))
  {
    stretched := [];
    if |data| == 0 {
      return [], false;
    }
    var step := TruncDiv(width, |data|);
    if step < 0 {
      return [], false;
    }
    var i := 0;
    while i < |data|
      invariant 0 <= i <= |data|
      invariant |stretched| == i * step
      invariant Stretches(stretched, data, step)
    {
      BlockAppended(data, step, i, stretched);
      stretched := stretched + seq(step, _ => data[i]);
      i := i + 1;
    }
    ok := true;
  }

  /**
   * For a non-negative width the stretched series never exceeds the width
   * and falls short of it by less than one repetition per point.
   */
  lemma StretchedFitsWidth(width: nat, count: nat)
    requires count > 0
    ensures count * StepSize(width, count) <= width < count * StepSize(width, count) + count
  {
  }
}
