/**
  The backoff delay calculator shared by the three retry implementations.

  The Rust and C executors keep an unsigned 32-bit multiplier `power`,
  starting at 1 and advanced with a plain left shift after each failed call.
  The shift discards the top bit, so the multiplier reaches 0 at the 33rd
  sleep and stays there. The Go executor computes 2^i directly instead.
 */
module Backoff {

  const TWO_TO_THE_31: nat := 0x8000_0000
  const TWO_TO_THE_32: nat := 0x1_0000_0000

  /** An unsigned 32-bit machine integer. */
  type u32 = x: int | 0 <= x < 0x1_0000_0000

  function Pow2(n: nat): (r: nat)
    ensures 1 <= r
  {
    if n == 0 then 1 else 2 * Pow2(n - 1)
  }

  /** `x << 1` on an unsigned 32-bit value: the bit shifted out is lost. */
  function Shl1(x: u32): (r: u32)
  {
    if x < TWO_TO_THE_31 then 2 * x else 2 * x - TWO_TO_THE_32
  }

  /** The multiplier in effect at the i-th sleep (0-based) of one retry call. */
  function Power(i: nat): (r: u32)
  {
    if i == 0 then 1 else Shl1(Power(i - 1))
  }

  /** The plain shift is multiplication by two modulo 2^32. */
  lemma Shl1IsDoublingMod(x: u32)
    ensures Shl1(x) == (2 * x) % TWO_TO_THE_32
  {
  }

  lemma {:induction false} Pow2Add(n: nat, m: nat)
    ensures Pow2(n + m) == Pow2(n) * Pow2(m)
  {
    if m > 0 {
      Pow2Add(n, m - 1);
      assert Pow2(n + m) == 2 * Pow2(n + (m - 1));
    }
  }

  lemma Pow2Landmarks()
    ensures Pow2(31) == TWO_TO_THE_31
    ensures Pow2(32) == TWO_TO_THE_32
  {
    assert Pow2(4) == 16;
    Pow2Add(4, 4);
    Pow2Add(8, 8);
    Pow2Add(16, 16);
    assert Pow2(32) == 2 * Pow2(31);
  }

  lemma Pow2Bounds(n: nat)
    ensures 1 <= Pow2(n)
    ensures n < 32 ==> Pow2(n) <= TWO_TO_THE_31
    ensures 32 <= n ==> Pow2(n) % TWO_TO_THE_32 == 0
  {
    Pow2Landmarks();
    if n < 32 {
      Pow2Monotone(n, 31);
    } else {
      Pow2HighMultiple(n);
    }
  }

  lemma {:induction false} Pow2Monotone(a: nat, b: nat)
    requires a <= b
    ensures Pow2(a) <= Pow2(b)
    decreases b
  {
    if a < b {
      Pow2Monotone(a, b - 1);
    }
  }

  lemma {:induction false} Pow2HighMultiple(n: nat)
    requires 32 <= n
    ensures Pow2(n) % TWO_TO_THE_32 == 0
  {
    if n == 32 {
      Pow2Landmarks();
    } else {
      Pow2HighMultiple(n - 1);
      DoublingKeepsMultiple(Pow2(n - 1));
    }
  }

  lemma DoublingKeepsMultiple(x: nat)
    requires x % TWO_TO_THE_32 == 0
    ensures (2 * x) % TWO_TO_THE_32 == 0
  {
  }

  /**
    The multiplier is 2^i for the first 32 sleeps and 0 from the 33rd on:
    the doubling is exact until the set bit is shifted out of the top.
   */
  lemma {:induction false} PowerClosedForm(i: nat)
    ensures Power(i) == if i < 32 then Pow2(i) else 0
    ensures Power(i) == Pow2(i) % TWO_TO_THE_32
  {
    Pow2Bounds(i);
    if i == 0 {
    } else {
      PowerClosedForm(i - 1);
      if i < 32 {
        Pow2Bounds(i - 1);
        assert Pow2(i - 1) < TWO_TO_THE_31;
      } else if i == 32 {
        Pow2Landmarks();
      }
    }
  }

  /** How each implementation turns the time unit and the sleep index into a duration. */
  datatype Policy =
    | RustShift      // `time_unit.mul(power)`: a Duration times the u32 multiplier
    | CUnsignedWrap  // `power * time_unit` in `unsigned int`, wrapping modulo 2^32
    | GoPow          // `2^i * d`, exact while it fits an int64 Duration

  /**
    The duration of the i-th sleep (0-based) under a policy. Its properties
    are stated by `DelayAgreement` and by each executor's sleep schedule.
   */
  function Delay(policy: Policy, unit: int, i: nat): (r: int)
  {
    match policy
    case RustShift => unit * Power(i)
    case CUnsignedWrap => (Power(i) * unit) % TWO_TO_THE_32
    case GoPow => Pow2(i) * unit
  }

  /**
    The three policies agree with the intended 2^i * unit for the first 32
    sleeps (C only while the product fits 32 bits); from the 33rd on the Rust
    and C delays are 0.
   */
  lemma {:induction false} DelayAgreement(unit: int, i: nat)
    ensures i < 32 ==> Delay(RustShift, unit, i) == Delay(GoPow, unit, i)
    ensures i < 32 && 0 <= unit && Pow2(i) * unit < TWO_TO_THE_32 ==>
              Delay(CUnsignedWrap, unit, i) == Delay(GoPow, unit, i)
    ensures 32 <= i ==> Delay(RustShift, unit, i) == 0 && Delay(CUnsignedWrap, unit, i) == 0
  {
    PowerClosedForm(i);
  }
}
