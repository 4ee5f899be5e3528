/** The 64 bit division the compiler calls on a machine without one: shift and
    subtract on words of 64 bits, and the signed forms around it. */
module Divide {
  import opened Bytes

  type u64 = n: nat | n < TWO_64
  type i64 = n: int | -0x8000_0000_0000_0000 <= n < 0x8000_0000_0000_0000

  const MIN64: i64 := -0x8000_0000_0000_0000

  // ----- words -----

  /** `x << 1`, the top bit lost. */
  function Shl1(x: u64): u64 {
    x * 2 % TWO_64
  }

  /** `(x >> i) & 1`. */
  function BitAt(x: nat, i: nat): nat {
    x / Pow2(i) % 2
  }

  /** `x | (1 << i)`. */
  function SetBit(x: nat, i: nat): nat {
    if BitAt(x, i) == 1 then x else x + Pow2(i)
  }

  function AsU64(a: i64): u64 {
    if a < 0 then a + TWO_64 else a
  }

  function AsI64(u: u64): i64 {
    if u < 0x8000_0000_0000_0000 then u else u - TWO_64
  }

  /** `-a` in two's complement: the least number is its own negation. */
  function Neg(a: i64): i64 {
    AsI64((TWO_64 - AsU64(a)) % TWO_64)
  }

  lemma NegIs(a: i64)
    ensures Neg(a) == if a == MIN64 then MIN64 else -a
  {}

  // ----- products -----

  lemma MulMono(a: nat, b: nat, c: nat)
    requires a <= b
    ensures c * a <= c * b && a * c <= b * c
  {
    assert c * b == c * a + c * (b - a);
  }

  lemma MulNeg(x: int, y: int)
    ensures (-x) * y == -(x * y) && x * (-y) == -(x * y) && (-x) * (-y) == x * y
  {}

  lemma AbsMul(x: int, y: int)
    ensures Abs(x * y) == Abs(x) * Abs(y)
    ensures x != 0 && y != 0 ==> x * y != 0 && ((x * y < 0) == ((x < 0) != (y < 0)))
  {
    MulNeg(x, y);
    var m, n := Abs(x), Abs(y);
    assert m * n >= 0;
    if m > 0 && n > 0 {
      MulMono(1, n, m);
    }
  }

  // ----- unsigned -----

  lemma Pow2Byte(n: nat)
    ensures Pow2(n + 8) == 256 * Pow2(n)
  {
    assert Pow2(n + 4) == 2 * Pow2(n + 3) == 4 * Pow2(n + 2) == 8 * Pow2(n + 1) == 16 * Pow2(n);
    assert Pow2(n + 8) == 2 * Pow2(n + 7) == 4 * Pow2(n + 6) == 8 * Pow2(n + 5) == 16 * Pow2(n + 4);
  }

  lemma Pow2Of64()
    ensures Pow2(64) == TWO_64
  {
    assert Pow2(0) == 1;
    hide Pow2;
    Pow2Byte(0);
    Pow2Byte(8);
    Pow2Byte(16);
    Pow2Byte(24);
    Pow2Byte(32);
    Pow2Byte(40);
    Pow2Byte(48);
    Pow2Byte(56);
  }

  /** Shifting right one bit less: the bit that comes back in is the lowest. */
  lemma ShiftStep(n: nat, i: nat)
    requires i > 0
    ensures n / Pow2(i - 1) == 2 * (n / Pow2(i)) + BitAt(n, i - 1)
  {
    var p := Pow2(i - 1);
    var m := n / p;
    assert n == p * m + n % p;
    var h, b := m / 2, m % 2;
    assert m == 2 * h + b;
    assert n == (2 * p) * h + (p * b + n % p) by {
      assert p * m == p * (2 * h + b) == (2 * p) * h + p * b;
    }
    assert p * b + n % p < 2 * p by {
      if b == 1 { assert p * b == p; } else { assert p * b == 0; }
    }
    ModUnique(n, 2 * p, h, p * b + n % p);
  }

  lemma HalfAtMost(n: nat, p: nat)
    requires p >= 2
    ensures 2 * (n / p) <= n
  {
    var m := n / p;
    assert n == p * m + n % p;
    MulMono(2, p, m);
  }

  lemma Pow2Even(i: nat)
    requires i > 0
    ensures Pow2(i) >= 2
  {}

  /** What has been shifted in so far still fits when shifted once more. */
  lemma ShiftFits(n: u64, i: nat)
    requires 0 < i <= 64
    ensures 2 * (n / Pow2(i)) < TWO_64
  {
    hide Pow2;
    Pow2Even(i);
    HalfAtMost(n, Pow2(i));
  }

  /** A multiple of 2^(i+1) has bit `i` clear. */
  lemma BitClear(q: nat, i: nat)
    ensures BitAt(q * Pow2(i + 1), i) == 0
  {
    var p := Pow2(i);
    assert q * Pow2(i + 1) == p * (2 * q) + 0;
    ModUnique(q * Pow2(i + 1), p, 2 * q, 0);
  }

  /** Shifted left with the next bit put in, when nothing is lost by that. */
  lemma ShiftInFits(r: u64, b: nat)
    requires b < 2 && 2 * r + b < TWO_64
    ensures (if b == 1 then SetBit(Shl1(r), 0) else Shl1(r)) == 2 * r + b
  {
    assert Pow2(0) == 1;
    assert Shl1(r) == 2 * r;
  }

  /** One turn: the quotient and remainder of `m`, and those of `2 * m + bit`. */
  lemma Turn(m: nat, bit: nat, d: nat, k: nat, r: nat)
    requires m == k * d + r && r < d && bit < 2
    ensures r <= m
    ensures var s := 2 * r + bit;
      if s >= d then 2 * m + bit == (2 * k + 1) * d + (s - d) && s - d < d
      else 2 * m + bit == 2 * k * d + s
  {
    assert 2 * (k * d) == 2 * k * d;
    assert (2 * k + 1) * d == 2 * k * d + d;
    assert k * d >= 0;
  }

  /** The quotient's new bit goes where there was none. */
  lemma NewBit(k: nat, i: nat)
    ensures k * Pow2(i + 1) == 2 * k * Pow2(i)
    ensures SetBit(k * Pow2(i + 1), i) == (2 * k + 1) * Pow2(i)
  {
    BitClear(k, i);
    assert k * (2 * Pow2(i)) == 2 * k * Pow2(i);
    assert (2 * k + 1) * Pow2(i) == 2 * k * Pow2(i) + Pow2(i);
  }

  /** With the bits from `i` up shifted in: what they leave on division by `d` is
      `r`, and `q` holds the quotient's bits so far in their places. */
  ghost predicate Partway(n: nat, d: nat, i: nat, k: nat, q: nat, r: nat) {
    n / Pow2(i) == k * d + r && r < d && q == k * Pow2(i)
  }

  lemma Start(n: u64, d: nat)
    requires d > 0
    ensures Partway(n, d, 64, 0, 0, 0)
  {
    Pow2Of64();
  }

  lemma Finish(n: nat, d: nat, k: nat, q: nat, r: nat)
    requires Partway(n, d, 0, k, q, r)
    ensures n == q * d + r && r < d
  {
    assert Pow2(0) == 1;
    assert k * Pow2(0) == k;
  }

  /** One turn of the loop. `r` never exceeds the bits shifted in, so shifting it
      once more loses nothing. */
  lemma TurnKeeps(n: u64, d: nat, i: nat, k: nat, q: nat, r: nat)
    requires i < 64 && d > 0 && Partway(n, d, i + 1, k, q, r)
    ensures BitAt(n, i) < 2 && r <= n / Pow2(i + 1) && 2 * r + BitAt(n, i) < TWO_64
    ensures var s := 2 * r + BitAt(n, i);
      if s >= d then SetBit(q, i) < TWO_64 && Partway(n, d, i, 2 * k + 1, SetBit(q, i), s - d)
      else Partway(n, d, i, 2 * k, q, s)
  {
    hide Pow2, SetBit;
    ShiftStep(n, i + 1);
    ShiftFits(n, i + 1);
    Turn(n / Pow2(i + 1), BitAt(n, i), d, k, r);
    NewBit(k, i);
    var s := 2 * r + BitAt(n, i);
    if s >= d {
      QuotientBound(n, Pow2(i), 2 * k + 1, d, s - d);
    }
  }

  /** `udivmod64`. */
  method UDivMod(n: u64, d: u64) returns (q: u64, r: u64)
    ensures d == 0 ==> q == 0 && r == 0
    ensures d != 0 ==> n == q * d + r && r < d
  {
    hide Pow2, BitAt, SetBit, Partway, Shl1;
    if d == 0 {
      return 0, 0;
    }
    Start(n, d);
    q, r := 0, 0;
    ghost var k: nat := 0;
    var i := 63;
    while i >= 0
      invariant -1 <= i <= 63
      invariant Partway(n, d, i + 1, k, q, r)
    {
      TurnKeeps(n, d, i, k, q, r);
      var bit := BitAt(n, i);
      ShiftInFits(r, bit);
      r := if bit == 1 then SetBit(Shl1(r), 0) else Shl1(r);
      if r >= d {
        r := r - d;
        q := SetBit(q, i);
        k := 2 * k + 1;
      } else {
        k := 2 * k;
      }
      i := i - 1;
    }
    Finish(n, d, k, q, r);
  }

  lemma QuotientBound(n: nat, p: nat, q: nat, d: nat, r: nat)
    requires p > 0 && d > 0 && n / p == q * d + r
    ensures q * p <= n
  {
    assert n == p * (n / p) + n % p;
    MulMono(1, d, q);
    MulMono(q, n / p, p);
  }

  /** There is only one such quotient and remainder. */
  lemma QuotientUnique(n: nat, d: nat, q: nat, r: nat)
    requires d != 0 && n == q * d + r && r < d
    ensures q == n / d && r == n % d
  {
    ModUnique(n, d, q, r);
  }

  method UDiv(a: u64, b: u64) returns (q: u64)
    ensures q == if b == 0 then 0 else a / b
  {
    var r;
    q, r := UDivMod(a, b);
    if b != 0 {
      QuotientUnique(a, b, q, r);
    }
  }

  method UMod(a: u64, b: u64) returns (r: u64)
    ensures r == if b == 0 then 0 else a % b
  {
    var q;
    q, r := UDivMod(a, b);
    if b != 0 {
      QuotientUnique(a, b, q, r);
    }
  }

  // ----- signed -----

  function Abs(a: int): nat {
    if a < 0 then -a else a
  }

  /** C's division: the quotient cut toward zero, the remainder with the sign of
      what was divided. */
  function TruncDiv(a: int, b: int): int
    requires b != 0
  {
    var q := Abs(a) / Abs(b);
    if (a < 0) == (b < 0) then q else -q
  }

  function TruncMod(a: int, b: int): int
    requires b != 0
  {
    var r := Abs(a) % Abs(b);
    if a < 0 then -r else r
  }

  ghost predicate IsTruncated(a: int, b: int, q: int, r: int) {
    a == q * b + r && Abs(r) < Abs(b) && (r == 0 || (r < 0) == (a < 0))
  }

  /** The truncated quotient and remainder are the one pair that fits. */
  lemma TruncatedExactly(a: int, b: int, q: int, r: int)
    requires b != 0
    ensures IsTruncated(a, b, q, r) <==> q == TruncDiv(a, b) && r == TruncMod(a, b)
  {
    hide TruncDiv, TruncMod, IsTruncated;
    TruncatedFits(a, b);
    if IsTruncated(a, b, q, r) {
      TruncatedOnly(a, b, q, r);
    }
  }

  lemma TruncatedFits(a: int, b: int)
    requires b != 0
    ensures IsTruncated(a, b, TruncDiv(a, b), TruncMod(a, b))
  {
    hide TruncDiv, TruncMod, IsTruncated;
    var k, r := DivMod(Abs(a), Abs(b));
    SignsOn(a, b, k, r);
    TruncIs(a, b, k, r);
  }

  lemma DivMod(x: nat, y: nat) returns (k: int, r: int)
    requires y > 0
    ensures x == y * k + r && k >= 0 && 0 <= r < y
  {
    k, r := x / y, x % y;
  }

  lemma TruncIs(a: int, b: int, k: int, r: int)
    requires b != 0 && k >= 0 && r >= 0 && Abs(a) == Abs(b) * k + r && r < Abs(b)
    ensures TruncDiv(a, b) == if (a < 0) == (b < 0) then k else -k
    ensures TruncMod(a, b) == if a < 0 then -r else r
  {
    ModUnique(Abs(a), Abs(b), k, r);
  }

  /** Putting the signs on an unsigned division gives the truncated one. */
  lemma SignsOn(a: int, b: int, k: int, r: int)
    requires b != 0 && k >= 0 && r >= 0 && Abs(a) == Abs(b) * k + r && r < Abs(b)
    ensures IsTruncated(a, b, if (a < 0) == (b < 0) then k else -k, if a < 0 then -r else r)
  {
    SignedTimes(k, b);
  }

  lemma SignedTimes(k: int, b: int)
    ensures k * b == if b < 0 then -(Abs(b) * k) else Abs(b) * k
    ensures (-k) * b == if b < 0 then Abs(b) * k else -(Abs(b) * k)
  {
    MulNeg(k, b);
    assert k * Abs(b) == Abs(b) * k;
  }

  lemma TruncatedOnly(a: int, b: int, q: int, r: int)
    requires b != 0 && IsTruncated(a, b, q, r)
    ensures q == TruncDiv(a, b) && r == TruncMod(a, b)
  {
    SameSigns(a, b, q, r);
    ModUnique(Abs(a), Abs(b), Abs(q), Abs(r));
  }

  /** Taking the signs off a truncated division leaves the unsigned one. */
  lemma SameSigns(a: int, b: int, q: int, r: int)
    requires b != 0 && IsTruncated(a, b, q, r)
    ensures Abs(a) == Abs(b) * Abs(q) + Abs(r)
    ensures q == 0 || (q < 0) == ((a < 0) != (b < 0))
  {
    AbsMul(q, b);
    if q != 0 {
      MulMono(1, Abs(q), Abs(b));
    }
    SignsOff(a, b, q, r, q * b);
  }

  lemma SignsOff(a: int, b: int, q: int, r: int, p: int)
    requires a == p + r && Abs(r) < Abs(b) && (r == 0 || (r < 0) == (a < 0))
    requires q == 0 ==> p == 0
    requires q != 0 ==> Abs(p) >= Abs(b) && ((p < 0) == ((q < 0) != (b < 0)))
    ensures Abs(a) == Abs(p) + Abs(r)
    ensures q == 0 || (q < 0) == ((a < 0) != (b < 0))
  {
    if q != 0 {
      BigPart(a, p, r, Abs(b));
    }
  }

  /** A sum takes its sign, and adds up without signs, when the smaller part has
      the sum's sign or is nothing. */
  lemma BigPart(a: int, p: int, r: int, y: nat)
    requires a == p + r && Abs(p) >= y > Abs(r) && (r == 0 || (r < 0) == (a < 0))
    ensures (a < 0) == (p < 0) && Abs(a) == Abs(p) + Abs(r)
  {}

  /** `__divdi3`: the truncated quotient, but for the one that does not fit. */
  method Div(a: i64, b: i64) returns (q: i64)
    ensures q == if b == 0 then 0 else if a == MIN64 && b == -1 then MIN64 else TruncDiv(a, b)
  {
    var neg := false;
    var ua, ub := AsU64(a), AsU64(b);
    NegIs(a);
    NegIs(b);
    if a < 0 {
      ua := AsU64(Neg(a));
      neg := !neg;
    }
    if b < 0 {
      ub := AsU64(Neg(b));
      neg := !neg;
    }
    var u := UDiv(ua, ub);
    if b != 0 {
      QuotientSmall(ua, ub);
    }
    NegIs(AsI64(u));
    q := if neg then Neg(AsI64(u)) else AsI64(u);
  }

  lemma QuotientSmall(x: nat, y: nat)
    requires y > 0
    ensures x / y <= x && (y >= 2 ==> x / y <= x / 2) && (y == 1 ==> x / y == x)
  {
    var k := x / y;
    assert x == y * k + x % y;
    MulMono(1, y, k);
    if y >= 2 {
      MulMono(2, y, k);
    }
    if y == 1 {
      assert x % 1 == 0;
    }
  }

  /** `__moddi3`: the truncated remainder, always. */
  method Mod(a: i64, b: i64) returns (r: i64)
    ensures r == if b == 0 then 0 else TruncMod(a, b)
  {
    var neg := a < 0;
    NegIs(a);
    NegIs(b);
    var ua, ub := AsU64(if a < 0 then Neg(a) else a), AsU64(if b < 0 then Neg(b) else b);
    var u := UMod(ua, ub);
    assert ua == Abs(a) && ub == Abs(b);
    NegIs(AsI64(u));
    r := if neg then Neg(AsI64(u)) else AsI64(u);
  }

  /** The two agree modulo 2^64 on every pair, and as numbers on every pair but
      the least number over -1. */
  lemma DivModAgree(a: i64, b: i64, q: i64, r: i64)
    requires b != 0
    requires q == if a == MIN64 && b == -1 then MIN64 else TruncDiv(a, b)
    requires r == TruncMod(a, b)
    ensures (q * b + r - a) % TWO_64 == 0
    ensures q * b + r == a <==> !(a == MIN64 && b == -1)
    ensures Abs(r) < Abs(b) && (r == 0 || (r < 0) == (a < 0))
  {
    TruncatedExactly(a, b, TruncDiv(a, b), r);
  }
}
