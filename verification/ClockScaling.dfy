/** kern/kvm-clock.cc, KvmSystemTime::ProcessorNano: scaling time-stamp counts to nanoseconds.

    mulq and shrd are the machine's 64-by-64-bit multiplication and double-width shift. */
module ClockScaling {
  import opened Arithmetic

  const TWO32: nat := 0x1_0000_0000
  const TWO64: nat := 0x1_0000_0000_0000_0000

  /** mulq: the low and the high half of a 128-bit product. */
  function Mulq(a: nat, b: nat): (nat, nat) {
    (a * b % TWO64, a * b / TWO64)
  }

  /** shrd $32: the 64 bits that end 32 bits up in the double word hi:lo. */
  function Shrd32(lo: nat, hi: nat): nat {
    (hi * TWO32 + lo / TWO32) % TWO64
  }

  function Times(a: nat, b: nat): nat {
    a * b
  }

  function Over(a: nat, b: nat): nat
    requires b > 0
  {
    a / b
  }

  /** The count moved by tsc_shift places, before a 64-bit register cuts it. */
  function Moved(time: nat, shift: int): nat
    requires -64 < shift < 64
  {
    if shift >= 0 then Times(time, Pow2(shift)) else Over(time, Pow2(-shift))
  }

  /** The count after the shift, in a 64-bit register; shifting by 64 or more places is undefined. */
  function Shifted(time: nat, shift: int): (r: nat)
    requires -64 < shift < 64
    ensures r < TWO64
  {
    Moved(time, shift) % TWO64
  }

  function Floor(x: nat, mul: nat): nat {
    x * mul / TWO32
  }

  function ProcessorNano(time: nat, shift: int, mul: nat): nat
    requires -64 < shift < 64
  {
    var (lo, hi) := Mulq(Shifted(time, shift), mul);
    Shrd32(lo, hi)
  }

  lemma ProductFits(x: nat, mul: nat)
    requires x < TWO64 && mul < TWO32
    ensures x * mul < TWO64 * TWO32
  {
    MulLe(x, TWO64, mul);
    MulLe(mul, TWO32, TWO64);
    assert TWO64 * mul == mul * TWO64;
    if mul > 0 {
      assert x * mul + mul == (x + 1) * mul;
      MulLe(x + 1, TWO64, mul);
    }
  }

  /** The shift, without its own definition: to the left a multiplication by 2^shift, to the right the quotient by
      2^-shift. */
  lemma MovedIs(time: nat, shift: int)
    requires -64 < shift < 64
    ensures shift >= 0 ==> Moved(time, shift) == time * Pow2(shift)
    ensures shift <= 0 ==> Moved(time, shift) * Pow2(-shift) <= time < Moved(time, shift) * Pow2(-shift) + Pow2(-shift)
  {
    if shift > 0 {
    } else if shift == 0 {
      assert Pow2(0) == 1;
    } else {
      DivParts(time, Pow2(-shift));
    }
  }

  /** mulq and shrd compute the middle of the product: the floor of the product over 2^32, which fits. */
  lemma MulShift(x: nat, mul: nat)
    requires x < TWO64 && mul < TWO32
    ensures var (lo, hi) := Mulq(x, mul); Shrd32(lo, hi) == x * mul / TWO32
    ensures x * mul / TWO32 < TWO64
  {
    ProductFits(x, mul);
    Middle(x * mul);
  }

  lemma Middle(p: nat)
    requires p < TWO64 * TWO32
    ensures Shrd32(p % TWO64, p / TWO64) == p / TWO32 < TWO64
  {
    var hi, lo := p / TWO64, p % TWO64;
    assert p == hi * TWO64 + lo;
    assert p / TWO32 == hi * TWO32 + lo / TWO32;
  }

  /** The value is always the floor for the register's contents, and fits in 64 bits. */
  lemma NanoIsFloor(time: nat, shift: int, mul: nat)
    requires -64 < shift < 64 && mul < TWO32
    ensures ProcessorNano(time, shift, mul) == Floor(Shifted(time, shift), mul) < TWO64
  {
    hide Shifted;
    MulShift(Shifted(time, shift), mul);
  }

  lemma SplitFloor(q: nat, x: nat, mul: nat)
    ensures Floor(q * TWO64 + x, mul) == q * mul * TWO32 + Floor(x, mul)
  {
    assert (q * TWO64 + x) * mul == (q * mul * TWO32) * TWO32 + x * mul by {
      assert (q * TWO64 + x) * mul == q * TWO64 * mul + x * mul;
      assert q * TWO64 * mul == q * mul * TWO64;
    }
    DivAdd(q * mul * TWO32, x * mul);
  }

  lemma DivAdd(k: nat, y: nat)
    ensures (k * TWO32 + y) / TWO32 == k + y / TWO32
  {
  }

  /** The scaling is exact exactly when the left shift loses nothing, or everything is scaled to nothing. */
  lemma NanoExactIff(time: nat, shift: int, mul: nat)
    requires -64 < shift < 64 && mul < TWO32
    ensures ProcessorNano(time, shift, mul) == Floor(Moved(time, shift), mul) <==>
            Moved(time, shift) < TWO64 || mul == 0
  {
    hide Moved, ProcessorNano;
    NanoIsFloor(time, shift, mul);
    var x := Moved(time, shift);
    SplitFloor(x / TWO64, x % TWO64, mul);
    assert x == x / TWO64 * TWO64 + x % TWO64;
    if x >= TWO64 && mul > 0 {
      MulLe(1, x / TWO64, mul);
    }
  }

  lemma FloorMono(x: nat, y: nat, mul: nat)
    requires x <= y
    ensures Floor(x, mul) <= Floor(y, mul)
  {
    MulLe(x, y, mul);
  }

  lemma FloorAdd(x: nat, y: nat, mul: nat)
    ensures Floor(x, mul) + Floor(y, mul) <= Floor(x + y, mul) <= Floor(x, mul) + Floor(y, mul) + 1
  {
    assert (x + y) * mul == x * mul + y * mul;
  }

  lemma FloorSucc(x: nat, mul: nat)
    requires mul < TWO32
    ensures Floor(x + 1, mul) <= Floor(x, mul) + 1
  {
    assert (x + 1) * mul == x * mul + mul;
  }

  lemma DivParts(a: nat, n: nat)
    requires n > 0
    ensures a == a / n * n + a % n && 0 <= a % n < n && 0 <= a / n
  {
  }

  lemma Distribute(x: nat, y: nat, n: nat)
    ensures (x + y) * n == x * n + y * n
  {
  }

  lemma DivMono(a: nat, b: nat, n: nat)
    requires a <= b && n > 0
    ensures a / n <= b / n
  {
    var p, q, r, t := a / n, b / n, a % n, b % n;
    DivParts(a, n);
    DivParts(b, n);
    Distribute(q, 1, n);
    if p > q {
      MulLe(q + 1, p, n);
    }
  }

  lemma DivSum(a: nat, b: nat, n: nat)
    requires n > 0
    ensures a / n + b / n <= (a + b) / n <= a / n + b / n + 1
  {
    var p, q, r, t := a / n, b / n, a % n, b % n;
    DivParts(a, n);
    DivParts(b, n);
    Distribute(p, q, n);
    Quotient(a + b, p + q, r + t, n);
  }

  lemma Quotient(z: nat, q: nat, r: nat, n: nat)
    requires n > 0 && z == q * n + r && r < 2 * n
    ensures q <= z / n <= q + 1
  {
    var d := z / n;
    DivParts(z, n);
    Distribute(d, 1, n);
    Distribute(q, 2, n);
    if d < q {
      MulLe(d + 1, q, n);
    } else if d > q + 1 {
      MulLe(q + 2, d, n);
    }
  }

  lemma MovedAdd(a: nat, b: nat, shift: int)
    requires -64 < shift < 64
    ensures Moved(a, shift) + Moved(b, shift) <= Moved(a + b, shift) <= Moved(a, shift) + Moved(b, shift) + 1
  {
    if shift >= 0 {
      var n := Pow2(shift);
      assert (a + b) * n == a * n + b * n;
    } else {
      DivSum(a, b, Pow2(-shift));
    }
  }

  lemma MovedMono(a: nat, b: nat, shift: int)
    requires -64 < shift < 64 && a <= b
    ensures Moved(a, shift) <= Moved(b, shift)
  {
    if shift >= 0 {
      MulLe(a, b, Pow2(shift));
    } else {
      DivMono(a, b, Pow2(-shift));
    }
  }

  /** While the shift loses nothing, later counts never give earlier times. */
  lemma NanoMonotone(a: nat, b: nat, shift: int, mul: nat)
    requires -64 < shift < 64 && mul < TWO32 && a <= b && Moved(b, shift) < TWO64
    ensures ProcessorNano(a, shift, mul) <= ProcessorNano(b, shift, mul) < TWO64
  {
    hide Moved, ProcessorNano;
    MovedMono(a, b, shift);
    NanoIsFloor(a, shift, mul);
    NanoIsFloor(b, shift, mul);
    FloorMono(Moved(a, shift), Moved(b, shift), mul);
  }

  /** Scaling a span in two parts loses at most two nanoseconds. */
  lemma NanoAdditive(a: nat, b: nat, shift: int, mul: nat)
    requires -64 < shift < 64 && mul < TWO32 && Moved(a + b, shift) < TWO64
    ensures ProcessorNano(a, shift, mul) + ProcessorNano(b, shift, mul) <= ProcessorNano(a + b, shift, mul)
    ensures ProcessorNano(a + b, shift, mul) <= ProcessorNano(a, shift, mul) + ProcessorNano(b, shift, mul) + 2
  {
    hide Moved, ProcessorNano, Floor;
    MovedMono(a, a + b, shift);
    MovedMono(b, a + b, shift);
    MovedAdd(a, b, shift);
    NanoIsFloor(a, shift, mul);
    NanoIsFloor(b, shift, mul);
    NanoIsFloor(a + b, shift, mul);
    var x, y := Moved(a, shift), Moved(b, shift);
    FloorAdd(x, y, mul);
    FloorMono(x + y, Moved(a + b, shift), mul);
    FloorMono(Moved(a + b, shift), x + y + 1, mul);
    FloorSucc(x + y, mul);
  }

  /** The bound is reached: the right shift and the multiplication each drop a fraction. */
  lemma NanoLosesTwo()
    ensures ProcessorNano(3, -1, TWO32 - 1) == 0 && ProcessorNano(6, -1, TWO32 - 1) == 2
  {
    assert Pow2(1) == 2;
  }

  /** Up to count bound, later counts never give earlier times. */
  ghost predicate MonotoneUpTo(bound: nat, shift: int, mul: nat)
    requires -64 < shift < 64
  {
    forall a: nat, b: nat :: a <= b <= bound ==> ProcessorNano(a, shift, mul) <= ProcessorNano(b, shift, mul)
  }

  /** The first count that the shift overflows gives zero, and the one before it does not. */
  lemma NanoWraps(shift: nat, mul: nat)
    requires 0 < shift < 64 && 0 < mul < TWO32
    ensures ProcessorNano(Pow2(64 - shift), shift, mul) == 0 < ProcessorNano(Pow2(64 - shift) - 1, shift, mul)
  {
    hide ProcessorNano, Pow2;
    var m, n := Pow2(64 - shift), Pow2(shift);
    Whole(shift);
    assert (m - 1) * n == TWO64 - n;
    NanoIsFloor(m, shift, mul);
    NanoIsFloor(m - 1, shift, mul);
    FloorPositive(TWO64 - n, mul);
  }

  lemma Whole(shift: nat)
    requires 0 < shift < 64
    ensures Pow2(64 - shift) * Pow2(shift) == TWO64 && Pow2(shift) <= TWO64 / 2
  {
    hide Pow2;
    Pow2Add(64 - shift, shift);
    Pow2Mono(shift, 63);
    Powers();
  }

  lemma Powers()
    ensures Pow2(63) == TWO64 / 2 && Pow2(64) == TWO64
  {
    assert Pow2(5) == 32 && Pow2(10) == 1024 && Pow2(11) == 2048;
    Pow2Add(10, 10);
    Pow2Add(11, 20);
    Pow2Add(1, 31);
    Pow2Add(31, 32);
    Pow2Add(32, 32);
  }

  lemma FloorPositive(x: nat, mul: nat)
    requires TWO64 / 2 <= x && mul > 0
    ensures Floor(x, mul) > 0
  {
    MulLe(1, mul, x);
    assert x * mul >= x;
  }

  /** The clock is monotone up to a count if and only if the shift does not overflow there, or the multiplier
      is 0. */
  lemma NanoMonotoneIff(bound: nat, shift: int, mul: nat)
    requires bound < TWO64 && -64 < shift < 64 && mul < TWO32
    ensures MonotoneUpTo(bound, shift, mul) <==> Moved(bound, shift) < TWO64 || mul == 0
  {
    hide ProcessorNano, Moved, Pow2;
    if mul == 0 {
      forall a: nat ensures ProcessorNano(a, shift, mul) == 0 {
        NanoIsFloor(a, shift, mul);
      }
    } else if Moved(bound, shift) < TWO64 {
      forall a: nat, b: nat | a <= b <= bound ensures ProcessorNano(a, shift, mul) <= ProcessorNano(b, shift, mul) {
        MovedMono(b, bound, shift);
        NanoMonotone(a, b, shift, mul);
      }
    } else {
      OverflowAt(bound, shift);
      NanoWraps(shift, mul);
    }
  }

  lemma OverflowAt(bound: nat, shift: int)
    requires bound < TWO64 && -64 < shift < 64 && Moved(bound, shift) >= TWO64
    ensures 0 < shift && Pow2(64 - shift) <= bound
  {
    hide Pow2;
    if shift <= 0 {
      NoOverflow(bound, shift);
    } else {
      Whole(shift);
      if bound < Pow2(64 - shift) {
        assert (bound + 1) * Pow2(shift) == bound * Pow2(shift) + Pow2(shift);
        MulLe(bound + 1, Pow2(64 - shift), Pow2(shift));
      }
    }
  }

  lemma NoOverflow(bound: nat, shift: int)
    requires -64 < shift <= 0
    ensures Moved(bound, shift) <= bound
  {
    if shift == 0 {
      assert Pow2(0) == 1;
    } else {
      var n := Pow2(-shift);
      DivParts(bound, n);
      MulLe(1, n, bound / n);
      assert n * (bound / n) == bound / n * n;
    }
  }
}
