/** A disk is its bytes; sector `n` is the 512 from `512 * n`. */
module SectorBytes {
  import opened Bytes

  const SECTOR := 512

  predicate Has(d: seq<byte>, lba: nat, count: nat) {
    SECTOR * (lba + count) <= |d|
  }

  function Sectors(d: seq<byte>, lba: nat, count: nat): (s: seq<byte>)
    requires Has(d, lba, count)
    ensures |s| == SECTOR * count
  {
    d[SECTOR * lba..SECTOR * (lba + count)]
  }

  predicate AllZero(s: seq<byte>) {
    forall i :: 0 <= i < |s| ==> s[i] == 0
  }

  lemma SectorsJoin(d: seq<byte>, lba: nat, m: nat, n: nat)
    requires Has(d, lba, m + n)
    ensures Sectors(d, lba, m + n) == Sectors(d, lba, m) + Sectors(d, lba + m, n)
  {}

  lemma ZeroConcat(a: seq<byte>, b: seq<byte>)
    ensures AllZero(a + b) <==> AllZero(a) && AllZero(b)
  {
    if AllZero(a + b) {
      assert forall i :: 0 <= i < |a| ==> a[i] == (a + b)[i];
      assert forall i :: 0 <= i < |b| ==> b[i] == (a + b)[|a| + i];
    }
  }

  /** `d` with `s` at byte `at`. */
  function Splice(d: seq<byte>, at: nat, s: seq<byte>): (r: seq<byte>)
    requires at + |s| <= |d|
    ensures |r| == |d|
  {
    d[..at] + s + d[at + |s|..]
  }

  lemma SpliceSame(d: seq<byte>, at: nat, s: seq<byte>, lo: nat, hi: nat)
    requires at + |s| <= |d| && lo <= hi <= |d| && (hi <= at || at + |s| <= lo)
    ensures Splice(d, at, s)[lo..hi] == d[lo..hi]
  {}

  lemma SpliceInside(d: seq<byte>, at: nat, s: seq<byte>, lo: nat, hi: nat)
    requires at + |s| <= |d| && at <= lo <= hi <= at + |s|
    ensures Splice(d, at, s)[lo..hi] == s[lo - at..hi - at]
  {}

  /** Two pieces one after the other are one piece. */
  lemma SpliceTwice(d: seq<byte>, at: nat, a: seq<byte>, b: seq<byte>)
    requires at + |a| + |b| <= |d|
    ensures Splice(Splice(d, at, a), at + |a|, b) == Splice(d, at, a + b)
  {
    var m, n := Splice(d, at, a), |a| + |b|;
    assert m[..at + |a|] == d[..at] + a;
    assert m[at + n..] == d[at + n..];
  }
}
