/** `parzen_kernel_cupy` and the kernel weight table of the realized-kernel engine. */
module Parzen {
  import opened Numbers

  /** Branch used for `|x| < 0.5`. */
  function Inner(a: real): real
  {
    1.0 - 6.0 * a * a * (1.0 - a)
  }

  /** Branch used for `0.5 <= |x| < 1`. */
  function Outer(a: real): real
  {
    2.0 * (1.0 - a) * (1.0 - a) * (1.0 - a)
  }

  function Kernel(x: real): real
  {
    var a := Abs(x);
    if a >= 1.0 then 0.0
    else if a >= 0.5 then Outer(a)
    else Inner(a)
  }

  lemma KernelSymmetric(x: real)
    ensures Kernel(-x) == Kernel(x)
  {
  }

  lemma KernelAtZero()
    ensures Kernel(0.0) == 1.0
  {
  }

  lemma KernelVanishes(x: real)
    requires Abs(x) >= 1.0
    ensures Kernel(x) == 0.0
  {
  }

  /** The two polynomial branches meet at 0.5 (value 0.25), and the outer one
      meets the zero branch at 1, so the kernel is continuous. */
  lemma KernelContinuous()
    ensures Inner(0.5) == Outer(0.5) == 0.25
    ensures Outer(1.0) == 0.0
  {
  }

  lemma InnerRange(a: real)
    requires 0.0 <= a <= 0.5
    ensures 0.25 <= Inner(a) <= 1.0
  {
    // 1 - Inner(a) = 6 a^2 (1 - a)
    NonNegMul(a, a);
    NonNegMul(a * a, 1.0 - a);
    assert 1.0 - Inner(a) == 6.0 * (a * a * (1.0 - a));
    // Inner(a) - 1/4 = 6 (1/2 - a) ((1/2 - a) (1/2 + a) + a/2)
    NonNegMul(0.5 - a, 0.5 + a);
    var q := (0.5 - a) * (0.5 + a) + 0.5 * a;
    NonNegMul(0.5 - a, q);
    assert Inner(a) - 0.25 == 6.0 * ((0.5 - a) * q);
  }

  lemma OuterRange(a: real)
    requires 0.5 <= a <= 1.0
    ensures 0.0 <= Outer(a) <= 0.25
  {
    var x := 1.0 - a;
    NonNegMul(x, x);
    NonNegMul(x * x, x);
    assert Outer(a) == 2.0 * (x * x * x);
    // 1/8 - x^3 = (1/2 - x) (1/4 + x/2 + x^2)
    var q := 0.25 + 0.5 * x + x * x;
    NonNegMul(0.5 - x, q);
    assert 0.25 - Outer(a) == 2.0 * ((0.5 - x) * q);
  }

  lemma InnerDecreasing(a: real, b: real)
    requires 0.0 <= a <= b <= 0.5
    ensures Inner(b) <= Inner(a)
  {
    // Inner(a) - Inner(b) = 6 (b - a) h with h = a + b - a^2 - a b - b^2,
    // and h = a (1 - a - b) + b (1 - b) is non-negative since a + b <= 1.
    NonNegMul(a, 1.0 - a - b);
    NonNegMul(b, 1.0 - b);
    var h := a * (1.0 - a - b) + b * (1.0 - b);
    NonNegMul(b - a, h);
    assert Inner(a) - Inner(b) == 6.0 * ((b - a) * h);
  }

  lemma OuterDecreasing(a: real, b: real)
    requires 0.5 <= a <= b <= 1.0
    ensures Outer(b) <= Outer(a)
  {
    // with x = 1 - b <= y = 1 - a: Outer(a) - Outer(b) = 2 (y - x) (y^2 + x y + x^2)
    var x, y := 1.0 - b, 1.0 - a;
    NonNegMul(y, y);
    NonNegMul(x, y);
    NonNegMul(x, x);
    var q := y * y + x * y + x * x;
    NonNegMul(y - x, q);
    assert Outer(a) - Outer(b) == 2.0 * ((y - x) * q);
  }

  /** Every kernel weight lies in [0, 1]. */
  lemma KernelRange(x: real)
    ensures 0.0 <= Kernel(x) <= 1.0
  {
    var a := Abs(x);
    if a < 0.5 {
      InnerRange(a);
    } else if a < 1.0 {
      OuterRange(a);
    }
  }

  /** The kernel never increases with the distance from 0, so longer lags
      never get larger weights. */
  lemma KernelNonIncreasing(x: real, y: real)
    requires Abs(x) <= Abs(y)
    ensures Kernel(y) <= Kernel(x)
  {
    var a, b := Abs(x), Abs(y);
    KernelRange(x);
    if b < 1.0 {
      if a >= 0.5 {
        OuterDecreasing(a, b);
      } else if b >= 0.5 {
        InnerRange(a);
        OuterRange(b);
      } else {
        InnerDecreasing(a, b);
      }
    }
  }

  /** `[parzen_kernel_cupy(k / H) for k in range(1, H + 1)]`: weight `k - 1` belongs to lag `k`. */
  function KernelWeights(H: nat): (w: seq<real>)
    ensures |w| == H
  {
    seq(H, k requires 0 <= k < H => Kernel((k + 1) as real / H as real))
  }

  /** Every weight lies in [0, 1], the weights do not increase with the lag,
      and the weight of the last lag `H` is `Kernel(1) = 0`, so lag `H` never
      contributes to the estimate. */
  lemma KernelWeightsRange(H: nat)
    ensures forall k :: 0 <= k < H ==> 0.0 <= KernelWeights(H)[k] <= 1.0
    ensures forall k :: 0 < k < H ==> KernelWeights(H)[k] <= KernelWeights(H)[k - 1]
    ensures H > 0 ==> KernelWeights(H)[H - 1] == 0.0
  {
    var w := KernelWeights(H);
    forall k | 0 <= k < H
      ensures 0.0 <= w[k] <= 1.0
    {
      KernelRange((k + 1) as real / H as real);
    }
    forall k | 0 < k < H
      ensures w[k] <= w[k - 1]
    {
      var x, y := k as real / H as real, (k + 1) as real / H as real;
      assert 0.0 <= x <= y by {
        assert y - x == 1.0 / H as real;
      }
      KernelNonIncreasing(x, y);
    }
  }
}
