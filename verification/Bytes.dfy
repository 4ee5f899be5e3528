/** Machine bytes, and the fixed-width fields every format here is built from.
    A `u32` or a `u64` is a `nat` whose width is written out where it matters. */
module Bytes {

  type byte = bv8

  const TWO_32: nat := 0x1_0000_0000
  const TWO_48: nat := 0x1_0000_0000_0000
  const TWO_64: nat := 0x1_0000_0000_0000_0000

  type u32 = n: nat | n < TWO_32

  /** A count kept in 32 bits. */
  function Wrap32(n: nat): u32 {
    n % TWO_32
  }

  /** A count kept in 64 bits. */
  function Wrap64(n: nat): nat {
    n % TWO_64
  }

  lemma Tick(n: nat)
    ensures Wrap32(Wrap32(n) + 1) == Wrap32(n + 1)
  {}

  datatype Option<+T> = None | Some(value: T)

  /** The low `k` bits of `n`. */
  function LowBits(n: nat, k: nat): byte {
    if k == 0 then 0 else (LowBits(n / 2, k - 1) << 1) | (if n % 2 == 1 then 1 else 0)
  }

  /** The C cast `(u8)n`. */
  function Lo(n: nat): byte {
    LowBits(n, 8)
  }

  function Pow2(k: nat): (p: nat)
    ensures p > 0
  {
    if k == 0 then 1 else 2 * Pow2(k - 1)
  }

  lemma ShiftIn(b: byte, bit: nat)
    requires b as nat < 128 && bit < 2
    ensures ((b << 1) | (if bit == 1 then 1 else 0)) as nat == 2 * (b as nat) + bit
  {
    assert b < 128;
  }

  lemma HalfMod(n: nat, p: nat)
    requires p > 0
    ensures n % (2 * p) == 2 * (n / 2 % p) + n % 2
  {
    var h := n / 2;
    var q, r := h / p, h % p;
    assert h == p * q + r;
    assert n == (2 * p) * q + (2 * r + n % 2);
    ModUnique(n, 2 * p, q, 2 * r + n % 2);
  }

  lemma ModUnique(n: nat, d: nat, q: nat, r: nat)
    requires r < d && n == d * q + r
    ensures n / d == q && n % d == r
  {
    var q', r' := n / d, n % d;
    assert n == d * q' + r';
    MulStep(d, q, q');
    MulStep(d, q', q);
  }

  lemma MulStep(d: nat, a: nat, b: nat)
    ensures a < b ==> d * a + d <= d * b
  {
    if a < b {
      var c := b - a - 1;
      assert d * b == d * (a + 1 + c) == d * a + d + d * c;
    }
  }

  lemma {:induction false} LowBitsValue(n: nat, k: nat)
    requires k <= 8
    ensures LowBits(n, k) as nat == n % Pow2(k)
    decreases k
  {
    if k > 0 {
      LowBitsValue(n / 2, k - 1);
      HalfMod(n, Pow2(k - 1));
      Pow2Bound(k - 1);
      LowBitsStep(n, k);
    }
  }

  lemma LowBitsStep(n: nat, k: nat)
    requires k > 0 && LowBits(n / 2, k - 1) as nat < 128
    ensures LowBits(n, k) as nat == 2 * (LowBits(n / 2, k - 1) as nat) + n % 2
  {
    var b := LowBits(n / 2, k - 1);
    ShiftIn(b, n % 2);
    assert LowBits(n, k) == (b << 1) | (if n % 2 == 1 then 1 else 0);
  }

  lemma Pow2Bound(k: nat)
    requires k <= 7
    ensures Pow2(k) <= 128
  {
    assert Pow2(1) == 2 && Pow2(2) == 4 && Pow2(3) == 8 && Pow2(4) == 16;
    assert Pow2(5) == 32 && Pow2(6) == 64 && Pow2(7) == 128;
  }

  lemma LoValue(n: nat)
    ensures Lo(n) as nat == n % 256
  {
    LowBitsValue(n, 8);
    assert Pow2(8) == 2 * Pow2(7) == 4 * Pow2(6) == 8 * Pow2(5) == 16 * Pow2(4);
    assert Pow2(4) == 16;
  }

  /** A byte is known by its value. */
  lemma SameByte(a: byte, b: byte)
    ensures a == b <==> a as nat == b as nat
  {
    assert (a as nat) as byte == a && (b as nat) as byte == b;
  }

  lemma LoOf(b: byte, n: nat)
    requires n % 256 == b as nat
    ensures Lo(n) == b
  {
    hide Lo;
    LoValue(n);
    SameByte(Lo(n), b);
  }

  /** Casting to a byte keeps exactly the value modulo 256. */
  lemma LoInjective(m: nat, n: nat)
    ensures Lo(m) == Lo(n) <==> m % 256 == n % 256
  {
    hide Lo;
    LoValue(m);
    LoValue(n);
    SameByte(Lo(m), Lo(n));
  }

  function Zeros(n: nat): (z: seq<byte>)
    ensures |z| == n && forall i :: 0 <= i < n ==> z[i] == 0
  {
    seq(n, _ => 0)
  }

  // ----- fields of several bytes -----

  /** `n >> (8 * k)`. */
  function Shr8(n: nat, k: nat): nat
    decreases k
  {
    if k == 0 then n else Shr8(n / 256, k - 1)
  }

  function Pow256(k: nat): (p: nat)
    ensures p > 0
  {
    if k == 0 then 1 else 256 * Pow256(k - 1)
  }

  lemma Pow256Values()
    ensures Pow256(2) == 0x1_0000 && Pow256(4) == TWO_32 && Pow256(6) == TWO_48
  {
    assert Pow256(4) == 256 * Pow256(3) && Pow256(3) == 256 * Pow256(2);
    assert Pow256(6) == 256 * Pow256(5) && Pow256(5) == 256 * Pow256(4);
  }

  /** The low `k` bytes of `n`, the lowest first. */
  function LeBytes(n: nat, k: nat): (b: seq<byte>)
    ensures |b| == k
    decreases k
  {
    if k == 0 then [] else [Lo(n)] + LeBytes(n / 256, k - 1)
  }

  /** The number whose bytes these are, the lowest first. */
  function FromLe(b: seq<byte>): nat
    decreases |b|
  {
    if b == [] then 0 else b[0] as nat + 256 * FromLe(b[1..])
  }

  lemma {:induction false} LeBytesAt(n: nat, k: nat, i: nat)
    requires i < k
    ensures LeBytes(n, k)[i] == Lo(Shr8(n, i))
    decreases k
  {
    hide Lo;
    if i > 0 {
      LeBytesAt(n / 256, k - 1, i - 1);
    }
  }

  lemma ByteOff(n: nat, p: nat)
    requires p > 0
    ensures n % (256 * p) == n % 256 + 256 * (n / 256 % p)
  {
    var h := n / 256;
    var q, r := h / p, h % p;
    assert h == p * q + r;
    assert n == (256 * p) * q + (256 * r + n % 256);
    ModUnique(n, 256 * p, q, 256 * r + n % 256);
  }

  /** Written and read back, a number is itself in so many bytes. */
  lemma {:induction false} FromLeBytes(n: nat, k: nat)
    ensures FromLe(LeBytes(n, k)) == n % Pow256(k)
    decreases k
  {
    hide Lo;
    if k > 0 {
      FromLeBytes(n / 256, k - 1);
      ByteOff(n, Pow256(k - 1));
      LoValue(n);
      assert LeBytes(n, k)[1..] == LeBytes(n / 256, k - 1);
    }
  }

  /** Read and written back, bytes are themselves. */
  lemma {:induction false} LeBytesFrom(b: seq<byte>)
    ensures FromLe(b) < Pow256(|b|) && LeBytes(FromLe(b), |b|) == b
    decreases |b|
  {
    hide Lo;
    if b != [] {
      LeBytesFrom(b[1..]);
      ByteBound(b[0]);
      var n := FromLe(b);
      assert n % 256 == b[0] as nat && n / 256 == FromLe(b[1..]);
      LoOf(b[0], n);
      assert b == [b[0]] + b[1..];
    }
  }

  /** So the bytes say exactly the number in that many bytes. */
  lemma LeBytesExact(m: nat, n: nat, k: nat)
    ensures LeBytes(m, k) == LeBytes(n, k) <==> m % Pow256(k) == n % Pow256(k)
  {
    FromLeBytes(m, k);
    FromLeBytes(n, k);
    LeBytesFrom(LeBytes(m, k));
    LeBytesFrom(LeBytes(n, k));
  }

  /** Two bytes, the high one first: the low 16 bits of `n`. */
  function Be16(n: nat): (b: seq<byte>)
    ensures |b| == 2
  {
    [Lo(n / 256), Lo(n)]
  }

  lemma Be16Injective(m: nat, n: nat)
    ensures Be16(m) == Be16(n) <==> m % 0x1_0000 == n % 0x1_0000
  {
    hide Lo;
    Pow256Values();
    LeBytesExact(m, n, 2);
    TwoBytes(m);
    TwoBytes(n);
    var a, b := Be16(m), Be16(n);
    assert a == b <==> a[0] == b[0] && a[1] == b[1];
  }

  lemma TwoBytes(n: nat)
    ensures LeBytes(n, 2) == [Lo(n), Lo(n / 256)]
  {
    hide Lo;
    assert LeBytes(n / 256, 1) == [Lo(n / 256)] + LeBytes(n / 256 / 256, 0);
  }

  /** Four bytes, the low one first: a u32 as x86 stores it. */
  function Le32(n: nat): (b: seq<byte>)
    ensures |b| == 4
  {
    LeBytes(n, 4)
  }

  function Get32(b: seq<byte>): (n: nat)
    requires |b| == 4
  {
    FromLe(b)
  }

  /** A stored u32 reads back as its value modulo 2^32. */
  lemma Get32Le32(n: nat)
    ensures Get32(Le32(n)) == n % TWO_32
  {
    hide Pow256;
    Pow256Values();
    FromLeBytes(n, 4);
  }

  lemma Get32Bound(b: seq<byte>)
    requires |b| == 4
    ensures Get32(b) < TWO_32
  {
    hide Pow256;
    Pow256Values();
    LeBytesFrom(b);
  }

  lemma Get32Is(b: seq<byte>)
    requires |b| == 4
    ensures Get32(b) == b[0] as nat + 256 * (b[1] as nat) + 0x1_0000 * (b[2] as nat) + 0x100_0000 * (b[3] as nat)
  {
    var c, e, f := b[1..], b[2..], b[3..];
    assert c[1..] == e && e[1..] == f && f[1..] == [];
    assert c[0] == b[1] && e[0] == b[2] && f[0] == b[3];
    assert FromLe(f) == b[3] as nat && FromLe(e) == b[2] as nat + 256 * FromLe(f);
    assert FromLe(c) == b[1] as nat + 256 * FromLe(e);
  }

  /** The u32 whose lowest byte is byte `i`. */
  function Field(r: seq<byte>, i: nat): nat
    requires i + 4 <= |r|
  {
    r[i] as nat + 256 * (r[i + 1] as nat) + 0x1_0000 * (r[i + 2] as nat) + 0x100_0000 * (r[i + 3] as nat)
  }

  lemma FieldIs(r: seq<byte>, i: nat)
    requires i + 4 <= |r|
    ensures Get32(r[i..i + 4]) == Field(r, i)
  {
    hide Get32;
    var b := r[i..i + 4];
    Get32Is(b);
    assert b[0] == r[i] && b[1] == r[i + 1] && b[2] == r[i + 2] && b[3] == r[i + 3];
  }

  lemma Le32Is(n: nat)
    ensures var b := Le32(n);
      && b[0] as nat == n % 256 && b[1] as nat == n / 256 % 256
      && b[2] as nat == n / 256 / 256 % 256 && b[3] as nat == n / 256 / 256 / 256 % 256
  {
    hide Lo;
    LoValue(n);
    LoValue(n / 256);
    LoValue(n / 256 / 256);
    LoValue(n / 256 / 256 / 256);
    var m := n / 256 / 256;
    assert LeBytes(m, 2) == [Lo(m)] + LeBytes(m / 256, 1);
    assert LeBytes(n, 4) == [Lo(n)] + LeBytes(n / 256, 3) && LeBytes(n / 256, 3) == [Lo(n / 256)] + LeBytes(m, 2);
    assert LeBytes(m / 256, 1) == [Lo(m / 256)] + LeBytes(m / 256 / 256, 0);
  }

  /** Four bytes say a number exactly when they are its bytes. */
  lemma Get32Exactly(b: seq<byte>, c: seq<byte>)
    requires |b| == |c| == 4
    ensures Get32(b) == Get32(c) <==> b == c
  {
    LeBytesFrom(b);
    LeBytesFrom(c);
  }

  lemma ByteBound(b: byte)
    ensures 0 <= b as nat < 256
  {}

  lemma XorByte(x: byte, b1: byte, y: byte, b2: byte)
    requires x ^ b1 == y ^ b2
    ensures b1 == b2 <==> x == y
  {}

  lemma SliceOfSlice(d: seq<byte>, a: nat, b: nat, lo: nat, hi: nat)
    requires lo <= hi && a + hi <= b <= |d|
    ensures d[a..b][lo..hi] == d[a + lo..a + hi]
  {
    var x, y := d[a..b][lo..hi], d[a + lo..a + hi];
    assert |x| == |y|;
    forall k | 0 <= k < |x|
      ensures x[k] == y[k]
    {
      assert x[k] == d[a..b][lo + k] == d[a + lo + k];
    }
  }
}
