/** Bytes, big-endian integers and Go's bitwise `|` and `&`, as
    `encoding/binary` and the UUID layouts use them.

    A byte is a number below 256 and the bitwise operators are defined bit by
    bit on natural numbers, so every fact about them is plain arithmetic. */
module Bytes {

  /** Go's `byte` (`uint8`). */
  type Byte = b: nat | b < 256

  /** `2^k`. */
  function Pow2(k: nat): (p: nat)
    ensures p >= 1
  {
    if k == 0 then 1 else 2 * Pow2(k - 1)
  }

  lemma Pow2Values()
    ensures Pow2(1) == 2 && Pow2(4) == 0x10 && Pow2(6) == 0x40 && Pow2(7) == 0x80
    ensures Pow2(8) == 0x100 && Pow2(12) == 0x1000 && Pow2(15) == 0x8000 && Pow2(16) == 0x1_0000
  {
    assert Pow2(2) == 4;
    assert Pow2(3) == 8;
    assert Pow2(5) == 0x20;
    assert Pow2(9) == 0x200;
    assert Pow2(10) == 0x400;
    assert Pow2(11) == 0x800;
    assert Pow2(13) == 0x2000;
    assert Pow2(14) == 0x4000;
  }

  // ------------------------------------------------------------ bitwise operators

  /** Go's `a | b` on unsigned values: bit `i` of the result is set when it is
      set in `a` or in `b`. */
  function Or(a: nat, b: nat): nat
    decreases a
  {
    if a == 0 then b
    else if b == 0 then a
    else 2 * Or(a / 2, b / 2) + (if a % 2 == 1 || b % 2 == 1 then 1 else 0)
  }

  /** Go's `a & b` on unsigned values: bit `i` of the result is set when it is
      set in both. */
  function And(a: nat, b: nat): nat
    decreases a
  {
    if a == 0 || b == 0 then 0
    else 2 * And(a / 2, b / 2) + (if a % 2 == 1 && b % 2 == 1 then 1 else 0)
  }

  /** The lowest bit of `a | b`, and the bits above it. */
  lemma OrHalf(a: nat, b: nat)
    ensures Or(a, b) / 2 == Or(a / 2, b / 2)
    ensures Or(a, b) % 2 == if a % 2 == 1 || b % 2 == 1 then 1 else 0
  {
    if a == 0 {
      assert a / 2 == 0;
    } else if b == 0 {
      assert b / 2 == 0;
    }
  }

  /** Building `a | b` from its lowest bit and the bits above it. */
  lemma OrCons(a: nat, a0: nat, b: nat, b0: nat)
    requires a0 < 2 && b0 < 2
    ensures Or(2 * a + a0, 2 * b + b0) == 2 * Or(a, b) + (if a0 == 1 || b0 == 1 then 1 else 0)
  {
    var x := 2 * a + a0;
    var y := 2 * b + b0;
    assert x / 2 == a && x % 2 == a0;
    assert y / 2 == b && y % 2 == b0;
    OrHalf(x, y);
  }

  /** A larger factor gives a product larger by at least one more copy of `d`. */
  lemma MulStep(d: nat, a: nat, b: nat)
    requires a < b
    ensures d * a + d <= d * b
  {
    var c := b - a - 1;
    assert d * b == d * a + d + d * c;
  }

  /** Quotient and remainder are unique. */
  lemma DivUnique(x: nat, d: nat, q: nat, r: nat)
    requires d > 0 && r < d && x == d * q + r
    ensures x / d == q && x % d == r
  {
    var q', r' := x / d, x % d;
    assert x == d * q' + r';
    if q' < q {
      MulStep(d, q', q);
    } else if q' > q {
      MulStep(d, q, q');
    }
  }

  /** Dividing a natural number by a positive one gives a natural number. */
  lemma DivNat(x: nat, d: nat)
    requires d > 0
    ensures 0 <= x / d
  {
  }

  /** Dividing by `2p` is halving and then dividing by `p`; the remainder by
      `2p` is twice the remainder of the half, plus the low bit. */
  lemma DivHalf(x: nat, p: nat)
    requires p > 0
    ensures x / (2 * p) == (x / 2) / p
    ensures x % (2 * p) == 2 * ((x / 2) % p) + x % 2
  {
    var h := x / 2;
    var q, r := h / p, h % p;
    assert h == p * q + r;
    assert x == (2 * p) * q + (2 * r + x % 2);
    DivUnique(x, 2 * p, q, 2 * r + x % 2);
  }

  /** Shifting right by `k` bits commutes with `or`. */
  lemma {:induction false} OrDiv(a: nat, b: nat, k: nat)
    ensures 0 <= a / Pow2(k) && 0 <= b / Pow2(k)
    ensures Or(a, b) / Pow2(k) == Or(a / Pow2(k), b / Pow2(k))
    decreases k
  {
    DivNat(a, Pow2(k));
    DivNat(b, Pow2(k));
    if k > 0 {
      var p := Pow2(k - 1);
      assert Pow2(k) == 2 * p;
      OrDiv(a / 2, b / 2, k - 1);
      OrHalf(a, b);
      DivHalf(Or(a, b), p);
      DivHalf(a, p);
      DivHalf(b, p);
    }
  }

  /** Keeping the low `k` bits commutes with `or`. */
  lemma {:induction false} OrMod(a: nat, b: nat, k: nat)
    ensures Or(a, b) % Pow2(k) == Or(a % Pow2(k), b % Pow2(k))
    decreases k
  {
    if k > 0 {
      var p := Pow2(k - 1);
      assert Pow2(k) == 2 * p;
      OrMod(a / 2, b / 2, k - 1);
      OrHalf(a, b);
      DivHalf(Or(a, b), p);
      DivHalf(a, p);
      DivHalf(b, p);
      OrCons((a / 2) % p, a % 2, (b / 2) % p, b % 2);
    }
  }

  /** `or` of two `k`-bit values is a `k`-bit value. */
  lemma {:induction false} OrBound(a: nat, b: nat, k: nat)
    requires a < Pow2(k) && b < Pow2(k)
    ensures Or(a, b) < Pow2(k)
    decreases k
  {
    if k > 0 && a != 0 && b != 0 {
      OrBound(a / 2, b / 2, k - 1);
    }
  }

  /** `a & (2^k - 1)` keeps the low `k` bits. */
  lemma {:induction false} AndLow(a: nat, k: nat)
    ensures And(a, Pow2(k) - 1) == a % Pow2(k)
    decreases k
  {
    if k == 0 {
      assert Pow2(k) == 1;
    } else if a == 0 {
      DivUnique(0, Pow2(k), 0, 0);
    } else {
      var p := Pow2(k - 1);
      var m := 2 * p - 1;
      assert Pow2(k) == 2 * p;
      assert m / 2 == p - 1 && m % 2 == 1;
      AndLow(a / 2, k - 1);
      AndHalf(a, m);
      DivHalf(a, p);
    }
  }

  /** The lowest bit of `a & b`, and the bits above it. */
  lemma AndHalf(a: nat, b: nat)
    ensures And(a, b) == 2 * And(a / 2, b / 2) + (if a % 2 == 1 && b % 2 == 1 then 1 else 0)
  {
    if a == 0 {
      assert a / 2 == 0;
    } else if b == 0 {
      assert b / 2 == 0;
    }
  }

  lemma OrZero(a: nat)
    ensures Or(a, 0) == a && Or(0, a) == a
  {
  }

  /** Or-ing in the lowest bit gives 1 exactly when nothing above it is set. */
  lemma OrOne(a: nat)
    ensures Or(a, 1) % 2 == 1
    ensures Or(a, 1) / 2 == a / 2
    ensures Or(a, 1) == 1 <==> a <= 1
  {
    if a != 0 {
      assert Or(a, 1) == 2 * Or(a / 2, 0) + 1;
      OrZero(a / 2);
    }
  }

  /** `(a & (2^k - 1)) | (v << k)`: the low `k` bits of `a` below the value `v`. */
  lemma OrAbove(a: nat, v: nat, k: nat)
    requires a < Pow2(k)
    ensures Or(a, v * Pow2(k)) == v * Pow2(k) + a
  {
    var p := Pow2(k);
    var c := v * p;
    Split(c, p, v, 0);
    Split(a, p, 0, a);
    var r := Or(a, c);
    OrDiv(a, c, k);
    OrMod(a, c, k);
    OrZero(v);
    OrZero(a);
    Recompose(r, p, v, a);
  }

  lemma Split(x: nat, p: nat, q: nat, r: nat)
    requires p > 0 && r < p && x == q * p + r
    ensures x / p == q && x % p == r
  {
    DivUnique(x, p, q, r);
  }

  lemma Recompose(x: nat, p: nat, q: nat, r: nat)
    requires p > 0 && x / p == q && x % p == r
    ensures x == q * p + r
  {
  }

  // ------------------------------------------------------------ big-endian integers

  /** `256^n`. */
  function Pow256(n: nat): (p: nat)
    ensures p >= 1
  {
    if n == 0 then 1 else 256 * Pow256(n - 1)
  }

  /** The `n`-byte big-endian form of `v` (`binary.BigEndian.PutUint16` and `PutUint32`). */
  function ToBigEndian(v: nat, n: nat): (b: seq<Byte>)
    requires v < Pow256(n)
    ensures |b| == n
  {
    if n == 0 then [] else ToBigEndian(v / 256, n - 1) + [v % 256]
  }

  /** The number a big-endian byte sequence stands for. */
  function FromBigEndian(b: seq<Byte>): (v: nat)
    ensures v < Pow256(|b|)
  {
    if b == [] then 0 else FromBigEndian(b[..|b| - 1]) * 256 + b[|b| - 1]
  }

  lemma {:induction false} FromToBigEndian(v: nat, n: nat)
    requires v < Pow256(n)
    ensures FromBigEndian(ToBigEndian(v, n)) == v
  {
    if n > 0 {
      var b := ToBigEndian(v, n);
      FromToBigEndian(v / 256, n - 1);
      assert b[..|b| - 1] == ToBigEndian(v / 256, n - 1);
      assert b[|b| - 1] == v % 256;
    }
  }

  lemma {:induction false} ToFromBigEndian(b: seq<Byte>)
    ensures ToBigEndian(FromBigEndian(b), |b|) == b
  {
    if b != [] {
      var v := FromBigEndian(b);
      var init := b[..|b| - 1];
      ToFromBigEndian(init);
      DivUnique(v, 256, FromBigEndian(init), b[|b| - 1]);
      assert b == init + [b[|b| - 1]];
    }
  }

  /** A two-byte big-endian number is its high byte followed by its low byte. */
  lemma TwoBytes(v: nat)
    requires v < 0x1_0000
    ensures ToBigEndian(v, 2) == [v / 256, v % 256]
  {
    assert ToBigEndian(v / 256, 1) == ToBigEndian(0, 0) + [v / 256];
  }
}
