/** The black box's record: the checksum over its text, where its fields lie,
    and what reading one back accepts. */
module Record {
  import opened Bytes

  const BB_BYTES := 16384
  const HEAD := 48
  const BB_TEXT_MAX := BB_BYTES - HEAD
  const BB_MAGIC := 0x5842594E

  // ----- FNV-1a -----

  const FNV_BASIS: u32 := 2166136261
  const FNV_PRIME := 16777619
  const FNV_INVERSE := 899433627

  function ReplaceLow(h: u32, v: nat): (r: u32)
    requires v < 256
    ensures r / 256 == h / 256 && r % 256 == v
  {
    h / 256 * 256 + v
  }

  /** `h ^ b`: only the low byte of the sum is touched. */
  function XorLow(h: u32, b: byte): u32 {
    ByteBound(Lo(h) ^ b);
    ReplaceLow(h, (Lo(h) ^ b) as nat)
  }

  /** `h * 16777619` in 32 bits. */
  function TimesPrime(h: u32): u32 {
    h * FNV_PRIME % TWO_32
  }

  function FnvStep(h: u32, b: byte): u32 {
    TimesPrime(XorLow(h, b))
  }

  function Fnv(h: u32, s: seq<byte>): u32
    decreases |s|
  {
    if s == [] then h else FnvStep(Fnv(h, s[..|s| - 1]), s[|s| - 1])
  }

  function Checksum(s: seq<byte>): u32 {
    Fnv(FNV_BASIS, s)
  }

  /** Multiplying by the prime is undone by multiplying by its inverse. */
  lemma PrimeInverse(x: u32)
    ensures TimesPrime(x) * FNV_INVERSE % TWO_32 == x
  {
    var q := x * FNV_PRIME / TWO_32;
    var n := TimesPrime(x) * FNV_INVERSE;
    assert TimesPrime(x) == x * FNV_PRIME - q * TWO_32;
    assert FNV_PRIME * FNV_INVERSE == 3513497 * TWO_32 + 1;
    var m := x * 3513497 - q * FNV_INVERSE;
    assert n == TWO_32 * m + x;
    assert m >= 0;
    ModUnique(n, TWO_32, m, x);
  }

  lemma XorLowInjective(h1: u32, h2: u32, b1: byte, b2: byte)
    requires XorLow(h1, b1) == XorLow(h2, b2)
    ensures b1 == b2 <==> h1 == h2
  {
    hide Lo, ReplaceLow;
    ByteBound(Lo(h1) ^ b1);
    ByteBound(Lo(h2) ^ b2);
    var x, y := Lo(h1), Lo(h2);
    SameByte(x ^ b1, y ^ b2);
    LoInjective(h1, h2);
    XorByte(x, b1, y, b2);
  }

  /** A step loses nothing: not the sum so far, and not the byte. */
  lemma FnvStepInjective(h1: u32, h2: u32, b1: byte, b2: byte)
    requires FnvStep(h1, b1) == FnvStep(h2, b2)
    ensures b1 == b2 <==> h1 == h2
  {
    hide TimesPrime, XorLow;
    PrimeInverse(XorLow(h1, b1));
    PrimeInverse(XorLow(h2, b2));
    XorLowInjective(h1, h2, b1, b2);
  }

  /** Sums that differ stay different over the same bytes. */
  lemma {:induction false} FnvKeepsDifference(h1: u32, h2: u32, s: seq<byte>)
    requires h1 != h2
    ensures Fnv(h1, s) != Fnv(h2, s)
    decreases |s|
  {
    if s != [] {
      var n := |s| - 1;
      FnvKeepsDifference(h1, h2, s[..n]);
      if Fnv(h1, s) == Fnv(h2, s) {
        FnvStepInjective(Fnv(h1, s[..n]), Fnv(h2, s[..n]), s[n], s[n]);
      }
    }
  }

  lemma {:induction false} FnvConcat(h: u32, a: seq<byte>, b: seq<byte>)
    ensures Fnv(h, a + b) == Fnv(Fnv(h, a), b)
    decreases |b|
  {
    if b == [] {
      assert a + b == a;
    } else {
      var n := |b| - 1;
      assert (a + b)[..|a + b| - 1] == a + b[..n];
      FnvConcat(h, a, b[..n]);
    }
  }

  /** Changing one byte, anywhere in a text of any length, changes the sum. */
  lemma OneByteChangesSum(s: seq<byte>, i: nat, b: byte)
    requires i < |s| && b != s[i]
    ensures Checksum(s[i := b]) != Checksum(s)
  {
    var h := Checksum(s[..i]);
    var t := s[i + 1..];
    assert s == s[..i] + [s[i]] + t && s[i := b] == s[..i] + [b] + t;
    FnvConcat(FNV_BASIS, s[..i] + [s[i]], t);
    FnvConcat(FNV_BASIS, s[..i] + [b], t);
    FnvConcat(FNV_BASIS, s[..i], [s[i]]);
    FnvConcat(FNV_BASIS, s[..i], [b]);
    assert [b][..0] == [] && [s[i]][..0] == [];
    assert Fnv(h, [b]) == FnvStep(h, b) && Fnv(h, [s[i]]) == FnvStep(h, s[i]);
    if FnvStep(h, b) == FnvStep(h, s[i]) {
      FnvStepInjective(h, h, b, s[i]);
    }
    FnvKeepsDifference(FnvStep(h, b), FnvStep(h, s[i]), t);
  }

  // ----- the layout -----

  /** The kernel's version, in its 32 byte field. */
  const BUILD: seq<byte> := [0x30, 0x2E, 0x31, 0x37, 0x33, 0x2E, 0x30] + Zeros(25)

  function Head(boot: nat, text: seq<byte>): (h: seq<byte>)
    ensures |h| == HEAD
  {
    Le32(BB_MAGIC) + Le32(boot) + Le32(|text|) + Le32(Checksum(text)) + BUILD
  }

  function Magic(r: seq<byte>): nat
    requires |r| >= HEAD
  {
    Get32(r[0..4])
  }

  function Boot(r: seq<byte>): nat
    requires |r| >= HEAD
  {
    Get32(r[4..8])
  }

  function Len(r: seq<byte>): nat
    requires |r| >= HEAD
  {
    Get32(r[8..12])
  }

  function Sum(r: seq<byte>): nat
    requires |r| >= HEAD
  {
    Get32(r[12..16])
  }

  /** What `bb_recover` takes from the 16 KiB it read: the text of a record
      whose magic, length and checksum are right, else nothing. */
  function Parse(r: seq<byte>): Option<seq<byte>>
    requires |r| == BB_BYTES
  {
    if Magic(r) != BB_MAGIC then None
    else if Len(r) > BB_TEXT_MAX then None
    else
      var text := r[HEAD..HEAD + Len(r)];
      if Checksum(text) == Sum(r) then Some(text) else None
  }

  /** The fields of a head, wherever a record begins with it. */
  lemma HeadFields(boot: nat, text: seq<byte>, r: seq<byte>)
    requires |text| < TWO_32 && |r| >= HEAD && r[..HEAD] == Head(boot, text)
    ensures Magic(r) == BB_MAGIC && Boot(r) == boot % TWO_32
    ensures Len(r) == |text| && Sum(r) == Checksum(text)
  {
    hide Lo, Fnv, Le32, Get32;
    var h, sum := Head(boot, text), Checksum(text);
    assert h[0..4] == Le32(BB_MAGIC) && h[4..8] == Le32(boot);
    assert h[8..12] == Le32(|text|) && h[12..16] == Le32(sum);
    assert r[0..4] == h[0..4] && r[4..8] == h[4..8] && r[8..12] == h[8..12] && r[12..16] == h[12..16];
    Get32Le32(BB_MAGIC);
    Get32Le32(boot);
    Get32Le32(|text|);
    Get32Le32(sum);
    Small(sum);
    Small(|text|);
    Small(BB_MAGIC);
  }

  lemma Small(n: nat)
    requires n < TWO_32
    ensures n % TWO_32 == n
  {}

  /** A head followed by its text is read back as that text, whatever follows. */
  lemma ParseRecord(boot: nat, text: seq<byte>, r: seq<byte>)
    requires |r| == BB_BYTES && |text| <= BB_TEXT_MAX
    requires r[..HEAD] == Head(boot, text) && r[HEAD..HEAD + |text|] == text
    ensures Parse(r) == Some(text)
  {
    hide Head, Fnv, Get32;
    HeadFields(boot, text, r);
  }

  /** No record is accepted that differs from an accepted one in one byte of
      its text. */
  lemma OneByteRejected(r: seq<byte>, i: nat, b: byte)
    requires |r| == BB_BYTES && Parse(r).Some? && HEAD <= i < HEAD + |Parse(r).value| && b != r[i]
    ensures Parse(r[i := b]) == None
  {
    hide Fnv, Get32;
    var r', text := r[i := b], Parse(r).value;
    assert r'[0..4] == r[0..4] && r'[8..12] == r[8..12] && r'[12..16] == r[12..16];
    assert r'[HEAD..HEAD + |text|] == text[i - HEAD := b];
    OneByteChangesSum(text, i - HEAD, b);
  }

  lemma FnvEmpty(h: u32)
    ensures Fnv(h, []) == h
  {}

  lemma FnvSnoc(h: u32, s: seq<byte>, b: byte)
    ensures Fnv(h, s + [b]) == FnvStep(Fnv(h, s), b)
  {
    assert (s + [b])[..|s|] == s;
  }

  /** `checksum`, over `n` bytes of an array. */
  method SumOf(a: array<byte>, from: nat, n: nat) returns (h: u32)
    requires from + n <= a.Length
    ensures h == Checksum(a[from..from + n])
  {
    hide Fnv, TimesPrime, XorLow;
    h := FNV_BASIS;
    assert a[from..from + 0] == [];
    FnvEmpty(h);
    for i := 0 to n
      invariant h == Fnv(FNV_BASIS, a[from..from + i])
    {
      FnvSnoc(FNV_BASIS, a[from..from + i], a[from + i]);
      assert a[from..from + i] + [a[from + i]] == a[from..from + i + 1];
      h := XorLow(h, a[from + i]);
      h := TimesPrime(h);
    }
  }
}
