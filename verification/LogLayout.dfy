/** The black box's record and the volumes it may be written to, byte by byte: what
    has to be on the disk for a flush to write, and what it then writes. */
module LogLayout {
  import opened Bytes
  import opened Record
  import opened LogText
  import opened LogDisk
  import opened SectorBytes
  import opened BlackBoxRuns

  // ----- the record -----

  /** The magic as x86 stores it. */
  const MAGIC_BYTES: seq<byte> := [0x4E, 0x59, 0x42, 0x58]

  lemma MagicIs(b: seq<byte>)
    requires |b| == 4
    ensures Get32(b) == BB_MAGIC <==> b == MAGIC_BYTES
  {
    hide Get32;
    var m := MAGIC_BYTES;
    assert m[0] as nat == 0x4E && m[1] as nat == 0x59 && m[2] as nat == 0x42 && m[3] as nat == 0x58;
    Get32Is(m);
    Get32Exactly(b, m);
  }

  /** Magic, boot number, length and checksum, four bytes each, the low one first. */
  lemma HeadIs(boot: nat, text: seq<byte>)
    ensures var h, n, sum := Head(boot, text), |text|, Checksum(text);
      && |h| == 48 && h[0..4] == MAGIC_BYTES
      && h[4] as nat == boot % 256 && h[5] as nat == boot / 256 % 256
      && h[6] as nat == boot / 256 / 256 % 256 && h[7] as nat == boot / 256 / 256 / 256 % 256
      && h[8] as nat == n % 256 && h[9] as nat == n / 256 % 256
      && h[10] as nat == n / 256 / 256 % 256 && h[11] as nat == n / 256 / 256 / 256 % 256
      && h[12] as nat == sum % 256 && h[13] as nat == sum / 256 % 256
      && h[14] as nat == sum / 256 / 256 % 256 && h[15] as nat == sum / 256 / 256 / 256 % 256
  {
    hide Le32, Get32, Fnv;
    var h := Head(boot, text);
    Le32Is(boot);
    Le32Is(|text|);
    Le32Is(Checksum(text));
    Get32Le32(BB_MAGIC);
    Small(BB_MAGIC);
    MagicIs(Le32(BB_MAGIC));
    assert h[0..4] == Le32(BB_MAGIC);
  }

  /** What is accepted of 16 KiB: exactly a record with the magic, a length that fits,
      and the checksum of the text it holds. */
  lemma ParseExactly(r: seq<byte>, t: seq<byte>)
    requires |r| == 16384
    ensures Parse(r) == Some(t) <==>
      && r[0..4] == MAGIC_BYTES && |t| == Field(r, 8) <= 16336
      && r[48..48 + |t|] == t && Checksum(t) == Field(r, 12)
  {
    hide Get32, Fnv, Field;
    MagicIs(r[0..4]);
    FieldIs(r, 8);
    FieldIs(r, 12);
  }

  // ----- the checksum -----

  /** FNV-1a of nothing and of "a", as its authors list them. */
  lemma KnownSums()
    ensures Checksum([]) == 0x811C_9DC5 && Checksum([0x61]) == 0xE40C_292C
  {
    var b: byte := 0x61;
    FnvEmpty(FNV_BASIS);
    FnvSnoc(FNV_BASIS, [], b);
    assert [] + [b] == [b];
    hide Lo, Fnv;
    LoOf(0xC5, FNV_BASIS);
    assert (0xC5 as byte) ^ b == 0xA4;
    assert XorLow(FNV_BASIS, b) == 0x811C_9DA4;
  }

  // ----- volumes -----

  /** Byte `i` of the boot sector of the volume at `base`. */
  function BootByte(d: seq<byte>, base: nat, i: nat): byte
    requires 512 * (base + 1) <= |d| && i < 512
  {
    d[512 * base + i]
  }

  /** Neither a root directory of fixed size nor a table size in 16 bits. */
  predicate Wide(d: seq<byte>, base: nat)
    requires 512 * (base + 1) <= |d|
  {
    BootByte(d, base, 17) == BootByte(d, base, 18) == 0 && BootByte(d, base, 22) == BootByte(d, base, 23) == 0
  }

  /** Signature, "ZELR    ", and the serial at its width's place. */
  predicate HasMarks(d: seq<byte>, base: nat) {
    && 512 * (base + 1) <= |d|
    && BootByte(d, base, 510) == 0x55 && BootByte(d, base, 511) == 0xAA
    && d[512 * base + 3..512 * base + 11] == [0x5A, 0x45, 0x4C, 0x52, 0x20, 0x20, 0x20, 0x20]
    && (var at := 512 * base + if Wide(d, base) then 67 else 39; d[at..at + 4] == [0x00, 0x52, 0x4C, 0x5A])
  }

  /** Those, and a reserved area that reaches past 32 sectors from the log's first. */
  predicate IsOurVolume(d: seq<byte>, base: nat) {
    && HasMarks(d, base)
    && BootByte(d, base, 14) as nat + 256 * (BootByte(d, base, 15) as nat) >= (if Wide(d, base) then 40 else 33)
  }

  /** The first byte of the log. */
  function LogStart(d: seq<byte>, base: nat): nat
    requires 512 * (base + 1) <= |d|
  {
    512 * (base + if Wide(d, base) then 8 else 1)
  }

  /** A log's first four bytes, or 16384 zeros. */
  predicate IsFreeRegion(d: seq<byte>, at: nat) {
    && at + 512 <= |d|
    && (d[at..at + 4] == MAGIC_BYTES || (at + 16384 <= |d| && forall i :: at <= i < at + 16384 ==> d[i] == 0))
  }

  lemma OursExactly(d: seq<byte>, base: nat)
    ensures IsOurVolume(d, base) <==> LogAt(d, base).Some?
    ensures LogAt(d, base).Some? ==> SECTOR * LogAt(d, base).value == LogStart(d, base)
  {
    MarksExactly(d, base);
    hide HasMarks, BootIsOurs;
    if 512 * (base + 1) > |d| {
      MarkedIsThere(d, base);
    }
  }

  lemma MarkedIsThere(d: seq<byte>, base: nat)
    ensures HasMarks(d, base) ==> 512 * (base + 1) <= |d|
  {}

  lemma MarksExactly(d: seq<byte>, base: nat)
    ensures HasMarks(d, base) <==> Has(d, base, 1) && BootIsOurs(Sectors(d, base, 1))
  {
    hide Get32;
    if 512 * (base + 1) <= |d| {
      var b, o := Sectors(d, base, 1), 512 * base;
      SliceOfSlice(d, o, o + 512, 3, 11);
      SliceOfSlice(d, o, o + 512, 39, 43);
      SliceOfSlice(d, o, o + 512, 67, 71);
      VolumeId();
      Get32Exactly(b[39..43], SERIAL_BYTES);
      Get32Exactly(b[67..71], SERIAL_BYTES);
    }
  }

  lemma FreeExactly(d: seq<byte>, lba: nat)
    ensures IsFree(d, lba) <==> IsFreeRegion(d, SECTOR * lba)
  {
    hide Get32;
    var at := SECTOR * lba;
    if Has(d, lba, 1) {
      SliceOfSlice(d, at, at + SECTOR, 0, 4);
      MagicIs(d[at..at + 4]);
    }
    if Has(d, lba, BB_SECTORS) {
      ZeroExactly(d, at, at + 16384);
    }
  }

  lemma ZeroExactly(d: seq<byte>, lo: nat, hi: nat)
    requires lo <= hi <= |d|
    ensures AllZero(d[lo..hi]) <==> forall i :: lo <= i < hi ==> d[i] == 0
  {
    if AllZero(d[lo..hi]) {
      forall i | lo <= i < hi
        ensures d[i] == 0
      {
        assert d[i] == d[lo..hi][i - lo];
      }
    }
  }

  /** What may be written to, by what is on the disk alone. */
  lemma WritableExactly(d: seq<byte>, base: nat)
    ensures Writable(d, base) <==> IsOurVolume(d, base) && IsFreeRegion(d, LogStart(d, base))
  {
    hide LogAt, IsFree, IsOurVolume, IsFreeRegion;
    OursExactly(d, base);
    if LogAt(d, base).Some? {
      FreeExactly(d, LogAt(d, base).value);
    }
    OurVolumeIsThere(d, base);
  }

  lemma OurVolumeIsThere(d: seq<byte>, base: nat)
    ensures IsOurVolume(d, base) ==> 512 * (base + 1) <= |d|
  {}

  /** Data that is no log of ours: over any run, whatever is appended, flushed,
      recovered or rebooted, where the log's first four bytes are not the magic and
      one of its 16384 bytes is not zero, nothing on the disk ever changes. */
  lemma ForeignDataStays(s: Sys, es: seq<Event>, base: nat, i: nat)
    requires ValidRam(s.ram) && ValidEvents(es) && OnVolume(es, base)
    requires 512 * (base + 1) <= |s.disk|
    requires var at := LogStart(s.disk, base);
      && (at + 4 <= |s.disk| ==> s.disk[at..at + 4] != [0x4E, 0x59, 0x42, 0x58])
      && at <= i < at + 16384 && i < |s.disk| && s.disk[i] != 0
    ensures Run(s, es).disk == s.disk
  {
    hide Run, Writable;
    WritableExactly(s.disk, base);
    RunStaysInOneLog(s, es, base);
  }

  /** Nor on a volume that lacks any one of the marks. */
  lemma ForeignVolumeStays(s: Sys, es: seq<Event>, base: nat)
    requires ValidRam(s.ram) && ValidEvents(es) && OnVolume(es, base)
    requires 512 * (base + 1) <= |s.disk| ==>
      || BootByte(s.disk, base, 510) != 0x55 || BootByte(s.disk, base, 511) != 0xAA
      || s.disk[512 * base + 3..512 * base + 11] != [0x5A, 0x45, 0x4C, 0x52, 0x20, 0x20, 0x20, 0x20]
      || (var at := 512 * base + if Wide(s.disk, base) then 67 else 39;
          s.disk[at..at + 4] != [0x00, 0x52, 0x4C, 0x5A])
      || BootByte(s.disk, base, 14) as nat + 256 * (BootByte(s.disk, base, 15) as nat)
           < (if Wide(s.disk, base) then 40 else 33)
    ensures Run(s, es).disk == s.disk
  {
    hide Run, Writable;
    WritableExactly(s.disk, base);
    RunStaysInOneLog(s, es, base);
  }

  /** And on one that has them all, nothing but those 16384 bytes. */
  lemma RunStaysInRegion(s: Sys, es: seq<Event>, base: nat, i: nat)
    requires ValidRam(s.ram) && ValidEvents(es) && OnVolume(es, base) && i < |s.disk|
    ensures Run(s, es).disk[i] != s.disk[i] ==>
      IsOurVolume(s.disk, base) && LogStart(s.disk, base) <= i < LogStart(s.disk, base) + 16384
  {
    hide Run, Writable, IsOurVolume, LogAt;
    OursExactly(s.disk, base);
    RunStaysInOneLog(s, es, base);
  }

  /** One flush writes the record's sectors and no more of the region. */
  lemma FlushWritesNeeded(r: Ram, d: seq<byte>, a: Attempt, i: nat)
    requires ValidRam(r) && ValidAttempt(a) && i < |d| && FlushStep(r, d, a).disk[i] != d[i]
    ensures IsOurVolume(d, a.base) && IsFreeRegion(d, LogStart(d, a.base))
    ensures var at := LogStart(d, a.base); at <= i && i / 512 * 512 < at + 48 + |r.text|
  {
    hide FlushStep, LogAt, IsFree, IsOurVolume, IsFreeRegion;
    FlushChanges(r, d, a, i);
    OursExactly(d, a.base);
    WritableExactly(d, a.base);
    LastSector(LogAt(d, a.base).value, SecsFor(r.text), HEAD + |r.text|, i);
  }

  lemma FlushChanges(r: Ram, d: seq<byte>, a: Attempt, i: nat)
    requires ValidRam(r) && ValidAttempt(a) && i < |d| && FlushStep(r, d, a).disk[i] != d[i]
    ensures Writable(d, a.base)
    ensures SECTOR * LogAt(d, a.base).value <= i < SECTOR * (LogAt(d, a.base).value + SecsFor(r.text))
  {
    hide LogAt, IsFree, RecordBytes, BootFor;
  }

  lemma LastSector(lba: nat, secs: nat, n: nat, i: nat)
    requires secs == (n + 511) / 512
    ensures i < 512 * (lba + secs) ==> i / 512 * 512 < 512 * lba + n
  {
    if i < 512 * (lba + secs) {
      assert i / 512 < lba + secs;
      assert 512 * secs < n + 512;
    }
  }

  // ----- recovery -----

  /** What recovery leaves: the text of a whole record read from a volume of ours, and
      its own line logged; or nothing recovered and nothing logged. */
  lemma RecoverExactly(r: Ram, d: seq<byte>, base: nat, readsOk: bool, line: seq<byte>, t: seq<byte>)
    ensures var r' := RecoverStep(r, d, base, readsOk, line);
      && (r'.saved == Some(t) <==>
            && readsOk && IsOurVolume(d, base)
            && (var at := LogStart(d, base); at + 16384 <= |d| && Parse(d[at..at + 16384]) == Some(t)))
      && r'.text == (if r'.saved.Some? then LogText.Append(r.text, line) else r.text)
      && r'.boot == r.boot && r'.counted == r.counted
  {
    hide LogAt, Parse, IsOurVolume, LogText.Append;
    OursExactly(d, base);
    OurVolumeIsThere(d, base);
  }
}
