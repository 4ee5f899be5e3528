/** The disk under the black box: which volumes it may write to, where on them
    its 32 sectors lie, and when those are free to be written. */
module LogDisk {
  import opened Bytes
  import opened Record
  import opened SectorBytes

  const BB_SECTORS := 32
  const ZELR_OEM: seq<byte> := [0x5A, 0x45, 0x4C, 0x52, 0x20, 0x20, 0x20, 0x20]
  const ZELR_VOLUME_ID := 0x5A4C5200

  // ----- a boot sector -----

  predicate IsFat32(boot: seq<byte>)
    requires |boot| == SECTOR
  {
    boot[17] == 0 && boot[18] == 0 && boot[22] == 0 && boot[23] == 0
  }

  /** The boot signature, the name and the serial only `fat_format` writes. */
  predicate BootIsOurs(boot: seq<byte>)
    requires |boot| == SECTOR
  {
    var at := if IsFat32(boot) then 67 else 39;
    boot[510] == 0x55 && boot[511] == 0xAA && boot[3..11] == ZELR_OEM
    && Get32(boot[at..at + 4]) == ZELR_VOLUME_ID
  }

  function BootLogLba(boot: seq<byte>): nat
    requires |boot| == SECTOR
  {
    if IsFat32(boot) then 8 else 1
  }

  function BootReserved(boot: seq<byte>): nat
    requires |boot| == SECTOR
  {
    boot[14] as nat + boot[15] as nat * 256
  }

  // ----- the log's region -----

  /** Where the log of the volume at `base` starts, when that volume is one of
      ours with room reserved for it. */
  function LogAt(d: seq<byte>, base: nat): Option<nat> {
    if !Has(d, base, 1) then None
    else
      var boot := Sectors(d, base, 1);
      if BootIsOurs(boot) && BootReserved(boot) >= BootLogLba(boot) + BB_SECTORS
      then Some(base + BootLogLba(boot))
      else None
  }

  /** A log already, or blank from end to end. */
  predicate IsFree(d: seq<byte>, lba: nat) {
    Has(d, lba, 1)
    && (Magic(Sectors(d, lba, 1)) == BB_MAGIC || (Has(d, lba, BB_SECTORS) && AllZero(Sectors(d, lba, BB_SECTORS))))
  }

  predicate Writable(d: seq<byte>, base: nat) {
    LogAt(d, base).Some? && IsFree(d, LogAt(d, base).value)
  }

  lemma LogIsThere(d: seq<byte>, base: nat)
    requires Writable(d, base)
    ensures LogAt(d, base).Some? && Has(d, LogAt(d, base).value, 1)
  {
    hide LogAt;
  }

  /** Byte `i` is in the log's region of the volume at `base`. */
  predicate InLog(d: seq<byte>, base: nat, i: nat) {
    LogAt(d, base).Some? && SECTOR * LogAt(d, base).value <= i < SECTOR * (LogAt(d, base).value + BB_SECTORS)
  }

  /** The region lies past the boot sector and inside the volume's reserved area. */
  lemma LogInsideReserved(d: seq<byte>, base: nat, i: nat)
    requires InLog(d, base, i)
    ensures Has(d, base, 1)
    ensures SECTOR * (base + 1) <= i < SECTOR * (base + BootReserved(Sectors(d, base, 1)))
  {}

  const SERIAL_BYTES: seq<byte> := [0x00, 0x52, 0x4C, 0x5A]

  /** The volume at `base` as `fat_format` leaves it: the fields of its boot sector
      that the log asks about, those of the width it chose, and past what that
      width keeps in the reserved area, the rest of it cleared. */
  predicate Formatted(d: seq<byte>, base: nat, fat32: bool) {
    var first := if fat32 then 8 else 1;
    && Has(d, base, first + BB_SECTORS)
    && (var b := Sectors(d, base, 1);
      && b[3..11] == ZELR_OEM
      && b[14] as nat == first + BB_SECTORS && b[15] == 0
      && b[510] == 0x55 && b[511] == 0xAA
      && (if fat32 then b[17] == b[18] == b[22] == b[23] == 0 && b[67..71] == SERIAL_BYTES
          else b[17] == 0 && b[18] == 2 && b[39..43] == SERIAL_BYTES))
    && AllZero(Sectors(d, base + first, BB_SECTORS))
  }

  /** Such a volume is one the log may be written to, and the log's region ends
      where its reserved area does. */
  lemma FormattedIsWritable(d: seq<byte>, base: nat, fat32: bool)
    requires Formatted(d, base, fat32)
    ensures Writable(d, base)
    ensures LogAt(d, base).value + BB_SECTORS == base + BootReserved(Sectors(d, base, 1))
  {
    VolumeId();
  }

  /** A small FAT16 volume with nothing on it but what the log asks about. */
  function SmallVolume(): (d: seq<byte>)
    ensures |d| == SECTOR * (1 + BB_SECTORS)
  {
    Zeros(3) + ZELR_OEM + Zeros(3) + [33, 0] + Zeros(1) + [0, 2] + Zeros(20) + SERIAL_BYTES
    + Zeros(467) + [0x55, 0xAA] + Zeros(SECTOR * BB_SECTORS)
  }

  lemma SmallVolumeIsWritable()
    ensures Writable(SmallVolume(), 0) && LogAt(SmallVolume(), 0) == Some(1)
  {
    var d := SmallVolume();
    var b := Sectors(d, 0, 1);
    assert b[3..11] == ZELR_OEM && b[39..43] == SERIAL_BYTES;
    assert b[14] as nat == 33;
    FormattedIsWritable(d, 0, false);
  }

  lemma VolumeId()
    ensures Get32(SERIAL_BYTES) == ZELR_VOLUME_ID
  {
    var b := SERIAL_BYTES;
    assert b[1..] == [0x52, 0x4C, 0x5A] && b[1..][1..] == [0x4C, 0x5A] && b[1..][1..][1..] == [0x5A];
    assert b[1..][1..][1..][1..] == [];
    assert FromLe(b[1..][1..][1..]) == 0x5A;
    assert FromLe(b[1..][1..]) == 0x4C + 256 * 0x5A;
    assert FromLe(b[1..]) == 0x52 + 256 * (0x4C + 256 * 0x5A);
  }

  /** The boot sector alone says where the log is. */
  lemma LogAtStays(d: seq<byte>, d': seq<byte>, base: nat)
    requires |d| == |d'|
    requires Has(d, base, 1) ==> Sectors(d, base, 1) == Sectors(d', base, 1)
    ensures LogAt(d, base) == LogAt(d', base)
  {}

  // ----- writing -----

  /** How a write to the disk went: all of it done, or refused part way with
      anything at all left in the sectors asked for. */
  datatype Outcome = Written | Torn(after: seq<byte>)

  predicate Possible(o: Outcome) {
    o.Torn? ==> |o.after| == BB_BYTES
  }

  predicate Done(d: seq<byte>, lba: nat, data: seq<byte>, o: Outcome) {
    o.Written? && SECTOR * lba + |data| <= |d|
  }

  /** The bytes that may end up in place of the sectors asked for. */
  function Landed(d: seq<byte>, lba: nat, data: seq<byte>, o: Outcome): (s: seq<byte>)
    requires SECTOR * lba <= |d| && |data| <= BB_BYTES && Possible(o)
    ensures |s| <= |data| && SECTOR * lba + |s| <= |d|
  {
    var room := |d| - SECTOR * lba;
    var n := if |data| <= room then |data| else room;
    match o
    case Written => if Done(d, lba, data, o) then data else []
    case Torn(after) => after[..n]
  }

  function WriteStep(d: seq<byte>, lba: nat, data: seq<byte>, o: Outcome): (r: seq<byte>)
    requires SECTOR * lba <= |d| && |data| <= BB_BYTES && Possible(o)
    ensures |r| == |d|
  {
    Splice(d, SECTOR * lba, Landed(d, lba, data, o))
  }
}
