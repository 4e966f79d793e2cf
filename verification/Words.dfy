/** Fixed-width arithmetic used by the hash table: 32-bit counters as bounded naturals,
    their bitwise operations on binary digits, and `kroundup32`. */
module Words {

  const U32_LIMIT: nat := 0x1_0000_0000

  type U32 = n: nat | n < U32_LIMIT

  function Pow2(p: nat): (r: nat)
    ensures 0 < r
  {
    if p == 0 then 1 else 2 * Pow2(p - 1)
  }

  ghost predicate IsPow2(m: nat) {
    exists p: nat :: m == Pow2(p)
  }

  /** C's `a & b` on unsigned operands, digit by digit. */
  function BitAnd(a: nat, b: nat): nat {
    if a == 0 || b == 0 then 0
    else 2 * BitAnd(a / 2, b / 2) + (if a % 2 == 1 && b % 2 == 1 then 1 else 0)
  }

  /** C's `a | b` on unsigned operands, digit by digit. */
  function BitOr(a: nat, b: nat): nat {
    if a == 0 then b
    else if b == 0 then a
    else 2 * BitOr(a / 2, b / 2) + (if a % 2 == 1 || b % 2 == 1 then 1 else 0)
  }

  /** C's `a >> w`. */
  function ShiftRight(a: nat, w: nat): nat
    decreases a, w
  {
    if w == 0 then a else ShiftRight(a / 2, w - 1)
  }

  /** Binary digit k of a number. */
  function Digit(n: nat, k: nat): nat
    decreases k
  {
    if k == 0 then n % 2 else Digit(n / 2, k - 1)
  }

  lemma {:induction false} DigitOfZero(k: nat)
    ensures Digit(0, k) == 0
  {
    if k > 0 { DigitOfZero(k - 1); }
  }

  /** The operations are the ones on binary digits. */
  lemma {:induction false} DigitsOfWords(a: nat, b: nat, k: nat)
    ensures Digit(BitOr(a, b), k) == (if Digit(a, k) == 1 || Digit(b, k) == 1 then 1 else 0)
    ensures Digit(BitAnd(a, b), k) == (if Digit(a, k) == 1 && Digit(b, k) == 1 then 1 else 0)
    decreases k
  {
    if a == 0 || b == 0 {
      DigitOfZero(k);
      DigitIsBit(a, k);
      DigitIsBit(b, k);
    } else if k > 0 {
      DigitsOfWords(a / 2, b / 2, k - 1);
    }
  }

  lemma {:induction false} DigitIsBit(n: nat, k: nat)
    ensures Digit(n, k) < 2
  {
    if k > 0 { DigitIsBit(n / 2, k - 1); }
  }

  lemma {:induction false} DigitsOfShift(a: nat, w: nat, k: nat)
    ensures Digit(ShiftRight(a, w), k) == Digit(a, k + w)
    decreases w
  {
    if w > 0 { DigitsOfShift(a / 2, w - 1, k); }
  }

  /** The macro `kroundup32`: decrement, smear the top digit downwards, increment, all modulo 2^32. */
  function KRoundUp32(x: U32): U32 {
    var a := (x + U32_LIMIT - 1) % U32_LIMIT;
    (Smear(a) + 1) % U32_LIMIT
  }

  function Smear(a: nat): nat {
    var b := SmearBy(a, 1);
    var c := SmearBy(b, 2);
    var d := SmearBy(c, 4);
    var e := SmearBy(d, 8);
    SmearBy(e, 16)
  }

  function SmearBy(a: nat, w: nat): nat {
    BitOr(a, ShiftRight(a, w))
  }

  lemma {:induction false} Pow2Monotone(p: nat, q: nat)
    requires p <= q
    ensures Pow2(p) <= Pow2(q)
    ensures p < q ==> 2 * Pow2(p) <= Pow2(q)
    decreases q - p
  {
    if p < q { Pow2Monotone(p + 1, q); }
  }

  lemma Pow2Literals()
    ensures Pow2(2) == 4 && Pow2(31) == 0x8000_0000 && Pow2(32) == U32_LIMIT
  {
    assert Pow2(4) == 16;
    assert Pow2(8) == 256;
    assert Pow2(12) == 0x1000;
    assert Pow2(16) == 0x1_0000;
    assert Pow2(20) == 0x10_0000;
    assert Pow2(24) == 0x100_0000;
    assert Pow2(28) == 0x1000_0000;
  }

  /** Masking with `m - 1` is reduction modulo `m` because `m` is a power of two. */
  lemma {:induction false} MaskIsMod(x: nat, p: nat)
    ensures BitAnd(x, Pow2(p) - 1) == x % Pow2(p)
    decreases p
  {
    hide BitAnd;
    if p > 0 {
      var h := Pow2(p - 1);
      ModDouble(x, h);
      AndOdd(x, h);
      MaskIsMod(x / 2, p - 1);
    } else {
      AndZero(x);
    }
  }

  lemma AndZero(x: nat)
    ensures BitAnd(x, 0) == 0 && x % 1 == 0
  {}

  lemma AndOdd(x: nat, h: nat)
    requires h > 0
    ensures BitAnd(x, 2 * h - 1) == 2 * BitAnd(x / 2, h - 1) + x % 2
  {
    assert (2 * h - 1) / 2 == h - 1 && (2 * h - 1) % 2 == 1;
  }

  lemma ModDouble(x: nat, h: nat)
    requires h > 0
    ensures x % (2 * h) == 2 * ((x / 2) % h) + x % 2
  {
    var q, r := (x / 2) / h, (x / 2) % h;
    assert x / 2 == h * q + r;
    ModUnique(x, 2 * h, q, 2 * r + x % 2);
  }

  /** Division with remainder is unique. */
  lemma ModUnique(x: int, d: int, q: int, r: int)
    requires 0 <= r < d
    requires x == d * q + r
    ensures x % d == r
  {
    var e := q - x / d;
    assert d * e == x % d - r by { assert d * e == d * q - d * (x / d); }
    if e >= 1 {
      MulMonotone(d, 1, e);
    } else if e <= -1 {
      MulMonotone(d, e, -1);
    }
  }

  lemma {:induction false} Pow2Split(p: nat, q: nat)
    ensures Pow2(p + q) == Pow2(p) * Pow2(q)
    decreases q
  {
    if q > 0 {
      Pow2Split(p, q - 1);
      assert Pow2(p) * (2 * Pow2(q - 1)) == 2 * (Pow2(p) * Pow2(q - 1));
    }
  }

  /** Wrapping at 32 bits does not change the remainder modulo a smaller power of two. */
  lemma {:induction false} WrapKeepsMod(x: nat, p: nat)
    requires p <= 32
    ensures x % U32_LIMIT % Pow2(p) == x % Pow2(p)
  {
    Pow2Literals();
    Pow2Split(p, 32 - p);
    ModOfMod(x, Pow2(p), Pow2(32 - p));
  }

  lemma {:induction false} ModOfMod(x: nat, m: nat, k: nat)
    requires m > 0 && k > 0
    ensures m * k > 0 && x % (m * k) % m == x % m
  {
    MulMonotone(m, 1, k);
    var d := m * k;
    var q, y := x / d, x % d;
    var a, r := y / m, y % m;
    assert d * q + m * a == m * (k * q + a) by { Regroup(m, k, q, a); }
    ModUnique(x, m, k * q + a, r);
  }

  lemma Regroup(m: int, k: int, q: int, a: int)
    ensures m * k * q + m * a == m * (k * q + a)
  {}

  lemma MulMonotone(d: int, a: int, b: int)
    requires 0 <= d && a <= b
    ensures d * a <= d * b
  {}

  // ---------- smearing ----------

  function Ones(w: nat): nat {
    if w == 0 then 0 else 2 * Ones(w - 1) + 1
  }

  lemma {:induction false} OnesPow2(w: nat)
    ensures Ones(w) == Pow2(w) - 1
  {
    if w > 0 { OnesPow2(w - 1); }
  }

  lemma {:induction false} ShiftZero(w: nat)
    ensures ShiftRight(0, w) == 0
  {
    if w > 0 { ShiftZero(w - 1); }
  }

  lemma {:induction false} ShiftShift(a: nat, p: nat, q: nat)
    ensures ShiftRight(ShiftRight(a, p), q) == ShiftRight(a, p + q)
    decreases p
  {
    if p > 0 { ShiftShift(a / 2, p - 1, q); }
  }

  lemma {:induction false} ShiftOr(a: nat, b: nat, k: nat)
    ensures ShiftRight(BitOr(a, b), k) == BitOr(ShiftRight(a, k), ShiftRight(b, k))
    decreases k
  {
    if k > 0 {
      assert BitOr(a, b) / 2 == BitOr(a / 2, b / 2);
      ShiftOr(a / 2, b / 2, k - 1);
    }
  }

  lemma {:induction false} OnesShift(w: nat, k: nat)
    requires k <= w
    ensures ShiftRight(Ones(w), k) == Ones(w - k)
    decreases k
  {
    if k > 0 { OnesShift(w - 1, k - 1); }
  }

  /** Or-ing `v` ones below a word that is otherwise `w` ones gives `w + v` ones. */
  lemma {:induction false} OrOnes(z: nat, w: nat, v: nat)
    requires ShiftRight(z, v) == Ones(w) && w > 0
    ensures BitOr(z, Ones(v)) == Ones(w + v)
    decreases v
  {
    if v > 0 {
      if z == 0 { ShiftZero(v); }
      OrOnes(z / 2, w, v - 1);
    } else {
      assert BitOr(z, 0) == z;
    }
  }

  /** The word `y` has `q` digits of which the top `w` are ones. */
  ghost predicate TopOnes(y: nat, q: nat, w: nat) {
    w <= q && ShiftRight(y, q - w) == Ones(w)
  }

  function Min(a: nat, b: nat): nat { if a <= b then a else b }

  lemma SmearStep(y: nat, q: nat, w: nat, s: nat)
    requires 0 < w <= s && TopOnes(y, q, w) && w == Min(s, q)
    ensures TopOnes(SmearBy(y, s), q, Min(2 * s, q))
  {
    if s > q {
      assert w == q && y == Ones(q);
      OnesShift(q, q);
      ShiftShift(y, q, s - q);
      ShiftZero(s - q);
      assert BitOr(y, 0) == y;
    } else {
      var u := Min(2 * s, q);
      var k, v := q - u, u - s;
      ShiftOr(y, ShiftRight(y, s), k);
      ShiftShift(y, s, k);
      ShiftShift(y, q - s, s + k - (q - s));
      OnesShift(s, s - v);
      ShiftShift(y, k, v);
      OrOnes(ShiftRight(y, k), s, v);
    }
  }

  lemma SmearFills(a: nat, q: nat)
    requires 0 < q <= 32 && TopOnes(a, q, 1)
    ensures Smear(a) == Ones(q)
  {
    SmearStep(a, q, 1, 1);
    var b := SmearBy(a, 1);
    SmearStep(b, q, Min(2, q), 2);
    var c := SmearBy(b, 2);
    SmearStep(c, q, Min(4, q), 4);
    var d := SmearBy(c, 4);
    SmearStep(d, q, Min(8, q), 8);
    var e := SmearBy(d, 8);
    SmearStep(e, q, Min(16, q), 16);
  }

  /** The length of a positive word in binary digits. */
  lemma {:induction false} Digits(a: nat) returns (q: nat)
    requires a > 0
    ensures q > 0 && Pow2(q - 1) <= a < Pow2(q) && TopOnes(a, q, 1)
    decreases a
  {
    if a == 1 { q := 1; assert Ones(1) == 1; }
    else {
      var r := Digits(a / 2);
      q := r + 1;
    }
  }

  lemma SmearToPow2(a: nat) returns (q: nat)
    requires 0 < a < U32_LIMIT
    ensures 0 < q <= 32 && Pow2(q - 1) <= a < Pow2(q) && Smear(a) == Pow2(q) - 1
  {
    q := Digits(a);
    Pow2Literals();
    if q > 32 { Pow2Monotone(32, q - 1); }
    SmearFills(a, q);
    OnesPow2(q);
  }

  lemma KRoundUp32ToPow2(x: U32) returns (q: nat)
    requires 1 < x <= 0x8000_0000
    ensures q > 0 && Pow2(q - 1) < x <= Pow2(q) && KRoundUp32(x) == Pow2(q)
  {
    hide Smear;
    var a := (x + U32_LIMIT - 1) % U32_LIMIT;
    assert a == x - 1;
    q := SmearToPow2(a);
    assert Pow2(q) <= 0x8000_0000 by {
      Pow2Literals();
      if q > 31 { Pow2Monotone(31, q - 1); } else { Pow2Monotone(q, 31); }
    }
  }

  lemma SmearZero()
    ensures Smear(0) == 0
  {}

  /** `kroundup32` gives the least power of two at or above its argument, for every argument from 1 to 2^31. */
  lemma KRoundUp32Least(x: U32)
    requires 1 <= x <= 0x8000_0000
    ensures IsPow2(KRoundUp32(x)) && x <= KRoundUp32(x)
    ensures forall s: nat :: x <= Pow2(s) ==> KRoundUp32(x) <= Pow2(s)
  {
    if x == 1 {
      SmearZero();
      assert Pow2(0) == 1;
    } else {
      var q := KRoundUp32ToPow2(x);
      forall s: nat | x <= Pow2(s) ensures Pow2(q) <= Pow2(s) {
        if s < q { Pow2Monotone(s, q - 1); } else { Pow2Monotone(q, s); }
      }
    }
  }

  /** For every other argument it wraps to zero. */
  lemma KRoundUp32Wraps(x: U32)
    requires x == 0 || x > 0x8000_0000
    ensures KRoundUp32(x) == 0
  {
    var a := (x + U32_LIMIT - 1) % U32_LIMIT;
    var q := SmearToPow2(a);
    assert Pow2(q) == U32_LIMIT by {
      Pow2Literals();
      if q < 32 { Pow2Monotone(q, 31); }
    }
  }
}
