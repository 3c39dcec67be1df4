/** The bounded integer generators `RandNumInRange` and `GetRandInt`.

    Each takes the one raw draw that `rand.Intn` consumes. Integers are
    mathematical; `RandNumInRangeInt64` spells out what Go's 64-bit `int`
    does to the range computation. */
module Numbers {
  import opened Errors
  import opened Random

  const MinInt64: int := -0x8000_0000_0000_0000
  const MaxInt64: int := 0x7FFF_FFFF_FFFF_FFFF

  /** `math.Pow10(n)` for the exponents where the float result is an exact integer. */
  function Pow10(n: nat): (p: nat)
    ensures p >= 1
  {
    if n == 0 then 1 else 10 * Pow10(n - 1)
  }

  /** Number of decimal digits of `v` (zero has one digit). */
  function DecimalDigits(v: nat): (d: nat)
    ensures d >= 1
  {
    if v < 10 then 1 else 1 + DecimalDigits(v / 10)
  }

  /** `RandNumInRange` (utils.go:53-59): an error when the range is empty,
      otherwise a value of the closed range. */
  function RandNumInRange(min: int, max: int, draw: nat): (r: Result<int>)
    ensures r.Err? <==> min > max
    ensures r.Err? ==> r.error == InvalidRange
    ensures r.Ok? ==> min <= r.value <= max
  {
    if min > max then Err(InvalidRange)
    else Ok(Intn(max - min + 1, draw) + min)
  }

  /** No value of the range is out of reach: `v` is produced by the draw `v - min`. */
  lemma RandNumInRangeReaches(min: int, max: int, v: int)
    requires min <= v <= max
    ensures RandNumInRange(min, max, v - min) == Ok(v)
  {
    var n := max - min + 1;
    assert (v - min) % n == v - min;
  }

  /** A one-value range always yields that value. */
  lemma RandNumInRangeSingleton(v: int, draw: nat)
    ensures RandNumInRange(v, v, draw) == Ok(v)
  {
  }

  /** `GetRandInt` (utils.go:89-97): an error for a non-positive length,
      otherwise a number with exactly `length` decimal digits. Exponents above
      18 leave Go's `int`, so the model stops there. */
  function GetRandInt(length: int, draw: nat): (r: Result<int>)
    requires length <= 18
    ensures r.Err? <==> length <= 0
    ensures r.Err? ==> r.error == NonPositiveLength
    ensures r.Ok? ==> Pow10(length - 1) <= r.value <= Pow10(length) - 1
    ensures r.Ok? ==> r.value >= 0 && DecimalDigits(r.value) == length
    ensures r.Ok? ==> r.value <= MaxInt64
  {
    if length <= 0 then Err(NonPositiveLength)
    else
      var min := Pow10(length - 1);
      var max := Pow10(length) - 1;
      var v := Intn(max - min + 1, draw) + min;
      DigitsBounds(v, length);
      Pow10Monotone(length, 18);
      Pow10At18();
      Ok(v)
  }

  /** `GetRandInt` is `RandNumInRange` over the `length`-digit numbers. */
  lemma GetRandIntIsRange(length: int, draw: nat)
    requires 1 <= length <= 18
    ensures GetRandInt(length, draw) == RandNumInRange(Pow10(length - 1), Pow10(length) - 1, draw)
  {
  }

  lemma Pow10At18()
    ensures Pow10(18) == 1_000_000_000_000_000_000
  {
    assert Pow10(1) == 10;
    assert Pow10(3) == 1000;
    Pow10Add(3, 3);
    Pow10Add(6, 6);
    Pow10Add(12, 6);
  }

  lemma {:induction false} Pow10Add(a: nat, b: nat)
    ensures Pow10(a + b) == Pow10(a) * Pow10(b)
    decreases b
  {
    if b > 0 {
      Pow10Add(a, b - 1);
    }
  }

  lemma {:induction false} Pow10Monotone(a: nat, b: nat)
    requires a <= b
    ensures Pow10(a) <= Pow10(b)
    decreases b
  {
    if a < b {
      Pow10Monotone(a, b - 1);
    }
  }

  /** A positive number has exactly `n` digits when it lies in `[10^(n-1), 10^n)`, and only then. */
  lemma {:induction false} DigitsBounds(v: nat, n: nat)
    requires v >= 1 && n >= 1
    ensures DecimalDigits(v) == n <==> Pow10(n - 1) <= v < Pow10(n)
    decreases n
  {
    if v < 10 {
      if n >= 2 {
        Pow10Monotone(1, n - 1);
      }
    } else if n == 1 {
      assert DecimalDigits(v) == 1 + DecimalDigits(v / 10);
    } else {
      DigitsBounds(v / 10, n - 1);
    }
  }

  /** Go's 64-bit two's-complement wrap-around. */
  function Wrap64(x: int): (w: int)
    ensures MinInt64 <= w <= MaxInt64
    ensures MinInt64 <= x <= MaxInt64 ==> w == x
  {
    var m := x % 0x1_0000_0000_0000_0000;
    if m > MaxInt64 then m - 0x1_0000_0000_0000_0000 else m
  }

  /** What a call of the Go function can end in: a value, an error, or a panic. */
  datatype Outcome = Value(v: int) | Failed(error: Error) | Panic

  /** `RandNumInRange` as written for 64-bit `int`: `max-min+1` wraps, and
      `rand.Intn` panics on a non-positive bound. */
  function RandNumInRangeInt64(min: int, max: int, draw: nat): (o: Outcome)
    requires MinInt64 <= min <= MaxInt64 && MinInt64 <= max <= MaxInt64
    ensures min > max <==> o == Failed(InvalidRange)
    ensures max - min + 1 <= MaxInt64 ==> o.Value? || o.Failed?
    ensures o.Value? ==> min <= o.v <= max
  {
    if min > max then Failed(InvalidRange)
    else
      var n := Wrap64(Wrap64(max - min) + 1);
      if n <= 0 then Panic
      else Value(Wrap64(Intn(n, draw) + min))
  }

  /** The full non-negative range `[0, MaxInt64]` makes the Go code panic. */
  lemma RangeOverflowPanics(draw: nat)
    ensures RandNumInRangeInt64(0, MaxInt64, draw) == Panic
  {
    assert Wrap64(MaxInt64 + 1) == MinInt64;
  }

  /** Whenever the range size fits in `int`, the Go code agrees with the model. */
  lemma RandNumInRangeInt64Agrees(min: int, max: int, draw: nat)
    requires MinInt64 <= min <= max <= MaxInt64
    requires max - min + 1 <= MaxInt64
    ensures RandNumInRangeInt64(min, max, draw) == Value(RandNumInRange(min, max, draw).value)
  {
  }
}
