/** Which volume is used, and what may be formatted. The mounter is an oracle:
    whether it takes a volume at a sector is given, and the same each time. */
module DiskFs {
  import opened Bytes
  import opened Record
  import opened LogDisk
  import opened SectorBytes
  import opened LogLayout
  import BlackBox

  const BLANK_SCAN_SECTORS := 256

  datatype Part = Part(start: nat, looksLikeFat: bool, efiSystem: bool)

  /** What is done to a disk that could cost somebody something, and for a format
      whether it went through. */
  datatype Act = Mount(base: nat) | Sweep(base: nat) | Format(done: bool)

  // ----- what a volume is -----

  /** Made by this kernel: the name and the serial. */
  predicate IsZelr(d: seq<byte>, base: nat) {
    Has(d, base, 1) && BootIsOurs(Sectors(d, base, 1))
  }

  /** Made by this system, the kernel or its tools: the name. */
  predicate MadeHere(d: seq<byte>, base: nat) {
    Has(d, base, 1) && Sectors(d, base, 1)[3..11] == ZELR_OEM
  }

  /** A volume of this kernel's is always one of this system's, so it is swept. */
  lemma ZelrIsMadeHere(d: seq<byte>, base: nat)
    requires IsZelr(d, base)
    ensures MadeHere(d, base)
  {}

  lemma ZelrExactly(d: seq<byte>, base: nat)
    ensures IsZelr(d, base) <==> HasMarks(d, base)
  {
    MarksExactly(d, base);
  }

  /** "ZELR    " at byte 3 of the volume at `base`. */
  predicate HasName(d: seq<byte>, base: nat) {
    && 512 * (base + 1) <= |d|
    && d[512 * base + 3..512 * base + 11] == [0x5A, 0x45, 0x4C, 0x52, 0x20, 0x20, 0x20, 0x20]
  }

  lemma MadeHereExactly(d: seq<byte>, base: nat)
    ensures MadeHere(d, base) <==> HasName(d, base)
  {
    if Has(d, base, 1) {
      SliceOfSlice(d, 512 * base, 512 * base + 512, 3, 11);
    }
  }

  // ----- the choice -----

  /** A partition that may be handed to the mounter. */
  predicate Candidate(p: Part) {
    p.looksLikeFat && !p.efiSystem
  }

  predicate Eligible(accepts: nat -> bool, p: Part) {
    Candidate(p) && accepts(p.start)
  }

  predicate Ours(accepts: nat -> bool, d: seq<byte>, p: Part) {
    Eligible(accepts, p) && IsZelr(d, p.start)
  }

  /** The first mountable volume this kernel made, if there is one; else the first
      mountable one. The EFI System Partition is neither. */
  ghost predicate IsBest(accepts: nat -> bool, d: seq<byte>, parts: seq<Part>, i: nat) {
    && i < |parts| && Eligible(accepts, parts[i])
    && if exists j :: 0 <= j < |parts| && Ours(accepts, d, parts[j])
       then Ours(accepts, d, parts[i]) && forall j :: 0 <= j < i ==> !Ours(accepts, d, parts[j])
       else forall j :: 0 <= j < i ==> !Eligible(accepts, parts[j])
  }

  /** There is a best choice exactly when there is anything to choose, and never
      more than one. */
  lemma BestExactly(accepts: nat -> bool, d: seq<byte>, parts: seq<Part>)
    ensures (exists i :: IsBest(accepts, d, parts, i)) <==> exists j :: 0 <= j < |parts| && Eligible(accepts, parts[j])
    ensures forall i, j :: IsBest(accepts, d, parts, i) && IsBest(accepts, d, parts, j) ==> i == j
  {
    hide IsZelr;
    if exists j :: 0 <= j < |parts| && Ours(accepts, d, parts[j]) {
      var i := FirstSuch(parts, p => Ours(accepts, d, p));
      assert IsBest(accepts, d, parts, i);
    } else if exists j :: 0 <= j < |parts| && Eligible(accepts, parts[j]) {
      var i := FirstSuch(parts, p => Eligible(accepts, p));
      assert IsBest(accepts, d, parts, i);
    }
  }

  lemma FirstSuch(parts: seq<Part>, such: Part -> bool) returns (i: nat)
    requires exists j :: 0 <= j < |parts| && such(parts[j])
    ensures i < |parts| && such(parts[i]) && forall j :: 0 <= j < i ==> !such(parts[j])
  {
    var some :| 0 <= some < |parts| && such(parts[some]);
    i := 0;
    while !such(parts[i])
      invariant i <= some && forall j :: 0 <= j < i ==> !such(parts[j])
      decreases some - i
    {
      i := i + 1;
    }
  }

  /** Only candidates are handed to the mounter. */
  ghost predicate MountsOnlyFrom(acts: seq<Act>, parts: seq<Part>) {
    forall k :: 0 <= k < |acts| && acts[k].Mount? ==>
      exists i :: 0 <= i < |parts| && parts[i].start == acts[k].base && Candidate(parts[i])
  }

  /** With nothing to mount: every candidate was tried, and trying one takes what was
      mounted away. */
  ghost function LeftMounted(parts: seq<Part>, was: Option<nat>): Option<nat> {
    if exists j :: 0 <= j < |parts| && Candidate(parts[j]) then None else was
  }

  /** What `diskfs_mount` does with a table that is not empty, by the fields of its
      entries and the bytes on the disk: `news` is done, and of what `had` been mounted
      `now` is left. All reads went well when it is `calm`. */
  ghost predicate ByFields(scanned: seq<Part>, accepts: nat -> bool, d: seq<byte>, calm: bool, entries: nat,
                           news: seq<Act>, had: Option<nat>, now: Option<nat>, r: int, best: nat)
  {
    && (forall k :: 0 <= k < |news| && news[k].Mount? ==>
          exists i :: 0 <= i < |scanned| && scanned[i].start == news[k].base
                      && scanned[i].looksLikeFat && !scanned[i].efiSystem)
    && (forall k :: 0 <= k < |news| ==> !news[k].Format?)
    && (forall k :: 0 <= k < |news| && news[k].Sweep? ==> HasName(d, news[k].base))
    && if exists j :: 0 <= j < |scanned| && scanned[j].looksLikeFat && !scanned[j].efiSystem && accepts(scanned[j].start) then
         && r == entries && best < |scanned| && now == Some(scanned[best].start)
         && scanned[best].looksLikeFat && !scanned[best].efiSystem && accepts(scanned[best].start)
         && (calm && HasName(d, scanned[best].start) ==> Sweep(scanned[best].start) in news)
         && (calm ==> forall j :: (0 <= j < |scanned| && j != best
                   && scanned[j].looksLikeFat && !scanned[j].efiSystem && accepts(scanned[j].start)) ==>
               if HasMarks(d, scanned[best].start) == HasMarks(d, scanned[j].start) then best < j
               else HasMarks(d, scanned[best].start))
       else
         && r == -2 && (forall k :: 0 <= k < |news| ==> news[k].Mount?)
         && now == (if exists j :: 0 <= j < |scanned| && scanned[j].looksLikeFat && !scanned[j].efiSystem then None else had)
  }

  lemma ChosenByFields(scanned: seq<Part>, accepts: nat -> bool, d: seq<byte>, calm: bool, entries: nat,
                       news: seq<Act>, had: Option<nat>, now: Option<nat>, r: int, best: nat)
    requires MountsOnlyFrom(news, scanned) && NoFormat(news)
    requires if exists j :: 0 <= j < |scanned| && Eligible(accepts, scanned[j]) then
        && r == entries && best < |scanned| && Eligible(accepts, scanned[best]) && now == Some(scanned[best].start)
        && (calm ==> IsBest(accepts, d, scanned, best))
        && (forall b :: Sweep(b) in news ==> b == scanned[best].start && MadeHere(d, b))
        && (calm && MadeHere(d, scanned[best].start) ==> Sweep(scanned[best].start) in news)
      else
        r == -2 && now == LeftMounted(scanned, had) && forall b :: Sweep(b) !in news
    ensures ByFields(scanned, accepts, d, calm, entries, news, had, now, r, best)
  {
    hide IsZelr, MadeHere, HasMarks, HasName;
    forall k | 0 <= k < |news| && news[k].Sweep?
      ensures HasName(d, news[k].base) && Sweep(news[k].base) in news
    {
      assert news[k] == Sweep(news[k].base);
      MadeHereExactly(d, news[k].base);
    }
    if best < |scanned| {
      MadeHereExactly(d, scanned[best].start);
    }
    if calm && exists j :: 0 <= j < |scanned| && Eligible(accepts, scanned[j]) {
      forall j | 0 <= j < |scanned|
        ensures IsZelr(d, scanned[j].start) == HasMarks(d, scanned[j].start)
      {
        ZelrExactly(d, scanned[j].start);
      }
      BestIsFirst(accepts, d, scanned, best);
    }
  }

  lemma BestIsFirst(accepts: nat -> bool, d: seq<byte>, scanned: seq<Part>, best: nat)
    requires IsBest(accepts, d, scanned, best)
    ensures forall j :: 0 <= j < |scanned| && j != best && Eligible(accepts, scanned[j]) ==>
      if IsZelr(d, scanned[best].start) == IsZelr(d, scanned[j].start) then best < j else IsZelr(d, scanned[best].start)
  {
    hide IsZelr, Eligible;
    forall j | 0 <= j < |scanned| && j != best && Eligible(accepts, scanned[j])
      ensures if IsZelr(d, scanned[best].start) == IsZelr(d, scanned[j].start) then best < j
              else IsZelr(d, scanned[best].start)
    {
      assert IsZelr(d, scanned[j].start) ==> Ours(accepts, d, scanned[j]);
    }
  }

  /** A table whose FAT partitions are all EFI System Partitions: the answer is -2,
      nothing is done to the disk, and what was mounted stays. */
  lemma OnlyEfi(scanned: seq<Part>, accepts: nat -> bool, d: seq<byte>, calm: bool, entries: nat,
                news: seq<Act>, had: Option<nat>, now: Option<nat>, r: int, best: nat)
    requires ByFields(scanned, accepts, d, calm, entries, news, had, now, r, best)
    requires forall i :: 0 <= i < |scanned| && scanned[i].looksLikeFat ==> scanned[i].efiSystem
    ensures r == -2 && now == had && forall a :: a !in news
  {}

  // ----- blank -----

  predicate ZeroSector(d: seq<byte>, lba: nat) {
    Has(d, lba, 1) && AllZero(Sectors(d, lba, 1))
  }

  /** The sectors scanned, the first 256 and on a longer disk the last one, are there
      and hold zeros. */
  ghost predicate LooksBlank(d: seq<byte>, total: nat) {
    && (forall s :: 0 <= s < total && s < BLANK_SCAN_SECTORS ==> ZeroSector(d, s))
    && (total > BLANK_SCAN_SECTORS ==> ZeroSector(d, total - 1))
  }

  /** The same by its bytes: 128 KiB of zeros, or the whole of a smaller disk, and in a
      larger one zeros in the last sector. */
  predicate BlankBytes(d: seq<byte>, total: nat) {
    && (var n := if total < 256 then total else 256; 512 * n <= |d| && forall i :: 0 <= i < 512 * n ==> d[i] == 0)
    && (total > 256 ==> 512 * total <= |d| && forall i :: 512 * (total - 1) <= i < 512 * total ==> d[i] == 0)
  }

  lemma BlankExactly(d: seq<byte>, total: nat)
    ensures LooksBlank(d, total) <==> BlankBytes(d, total)
  {
    hide ZeroSector;
    var n := if total < 256 then total else 256;
    if LooksBlank(d, total) {
      if n > 0 {
        ZeroSectorIs(d, n - 1);
      }
      forall i | 0 <= i < 512 * n
        ensures i < |d| && d[i] == 0
      {
        ZeroSectorIs(d, i / 512);
      }
    }
    if BlankBytes(d, total) {
      forall s | 0 <= s < n
        ensures ZeroSector(d, s)
      {
        ZeroSectorIs(d, s);
      }
    }
    if total > 256 {
      ZeroSectorIs(d, total - 1);
    }
  }

  lemma ZeroSectorIs(d: seq<byte>, lba: nat)
    ensures ZeroSector(d, lba) <==> 512 * (lba + 1) <= |d| && forall i :: 512 * lba <= i < 512 * (lba + 1) ==> d[i] == 0
  {
    if Has(d, lba, 1) {
      ZeroExactly(d, 512 * lba, 512 * (lba + 1));
    }
  }

  class Files {
    const disk: BlackBox.Disk
    const present: bool
    /** Whether the mounter takes the volume at a sector. */
    const accepts: nat -> bool
    /** How many entries the root it mounts has. */
    const entries: nat
    /** The table of the last scan, and where the mounted volume starts. */
    var parts: seq<Part>
    var mounted: Option<nat>
    ghost var acts: seq<Act>

    /** An unpartitioned disk has its volume at sector 0 or has none. */
    predicate Valid()
      reads this
    {
      parts == [] ==> mounted == None || mounted == Some(0)
    }

    constructor (d: BlackBox.Disk, there: bool, takes: nat -> bool, count: nat)
      ensures Valid() && disk == d && present == there && accepts == takes && entries == count && acts == []
    {
      disk, present, accepts, entries := d, there, takes, count;
      parts, mounted, acts := [], None, [];
    }

    /** `fat_mount_at`: what was mounted is gone either way. */
    method MountAt(base: nat) returns (ok: bool)
      modifies this`mounted, this`acts
      ensures ok == accepts(base) && mounted == (if ok then Some(base) else None)
      ensures acts == old(acts) + [Mount(base)]
    {
      ok := accepts(base);
      mounted := if ok then Some(base) else None;
      acts := acts + [Mount(base)];
    }

    /** `fat_is_zelr_volume`, of a boot sector read again: a read that is missed says
        no. */
    method IsOurs(base: nat) returns (ours: bool)
      modifies disk`misses
      ensures disk.misses >= old(disk.misses)
      ensures ours <==> disk.misses == old(disk.misses) && IsZelr(disk.bytes, base)
    {
      var sec := new byte[SECTOR];
      ours := disk.Read(base, 1, sec);
      if ours {
        assert sec[..] == Sectors(disk.bytes, base, 1);
        ours := BootIsOurs(sec[..]);
      }
    }

    /** `fat_made_here`, likewise. */
    method IsMadeHere(base: nat) returns (made: bool)
      modifies disk`misses
      ensures disk.misses >= old(disk.misses)
      ensures made <==> disk.misses == old(disk.misses) && MadeHere(disk.bytes, base)
    {
      var sec := new byte[SECTOR];
      made := disk.Read(base, 1, sec);
      if made {
        assert sec[..] == Sectors(disk.bytes, base, 1);
        made := sec[3..11] == ZELR_OEM;
      }
    }

    /** `finish_mount`: the sweep of lost clusters only where this system made the
        volume. */
    method Finish() returns (r: int)
      requires mounted.Some?
      modifies this`acts, disk`misses
      ensures r == entries && disk.misses >= old(disk.misses)
      ensures acts == old(acts) + if disk.misses == old(disk.misses) && MadeHere(disk.bytes, mounted.value)
                                  then [Sweep(mounted.value)] else []
    {
      var made := IsMadeHere(mounted.value);
      if made {
        acts := acts + [Sweep(mounted.value)];
      }
      r := entries;
    }

    /** One pass over the partitions, the first for volumes of ours alone. It stops
        with one mounted, or after trying them all. */
    method Pass(oursOnly: bool) returns (found: bool, i: nat)
      modifies this`mounted, this`acts, disk`misses
      ensures disk.misses >= old(disk.misses)
      ensures old(acts) <= acts && MountsOnlyFrom(acts[|old(acts)|..], parts)
      ensures forall k :: |old(acts)| <= k < |acts| ==> acts[k].Mount?
      ensures found ==>
        && i < |parts| && Eligible(accepts, parts[i]) && (oursOnly ==> IsZelr(disk.bytes, parts[i].start))
        && mounted == Some(parts[i].start)
      ensures var n := if found then i else |parts|;
        if oursOnly then
          disk.misses == old(disk.misses) ==> forall j :: 0 <= j < n ==> !Ours(accepts, disk.bytes, parts[j])
        else
          forall j :: 0 <= j < n ==> !Eligible(accepts, parts[j])
      ensures !found && (forall j :: 0 <= j < |parts| ==> !Eligible(accepts, parts[j]))
        ==> mounted == LeftMounted(parts, old(mounted))
    {
      hide IsZelr;
      i := 0;
      while i < |parts|
        invariant i <= |parts| && old(acts) <= acts && MountsOnlyFrom(acts[|old(acts)|..], parts)
        invariant disk.misses >= old(disk.misses)
        invariant forall k :: |old(acts)| <= k < |acts| ==> acts[k].Mount?
        invariant if oursOnly then
            disk.misses == old(disk.misses) ==> forall j :: 0 <= j < i ==> !Ours(accepts, disk.bytes, parts[j])
          else
            forall j :: 0 <= j < i ==> !Eligible(accepts, parts[j])
        invariant (forall j :: 0 <= j < i ==> !Eligible(accepts, parts[j])) ==>
          mounted == LeftMounted(parts[..i], old(mounted))
      {
        var p := parts[i];
        assert parts[..i + 1] == parts[..i] + [p];
        LeftMountedNext(parts[..i], p, old(mounted));
        if p.looksLikeFat && !p.efiSystem {
          ghost var was := acts[|old(acts)|..];
          var ok := MountAt(p.start);
          assert acts[|old(acts)|..] == was + [Mount(p.start)];
          if ok {
            var ours := IsOurs(p.start);
            if !oursOnly || ours {
              return true, i;
            }
          }
        }
        i := i + 1;
      }
      assert parts[..i] == parts;
      return false, i;
    }

    /** The two passes. Something is mounted exactly when something can be: a volume
        of ours or else the first that can be, and the best choice unless a boot
        sector that had been read could not be read again. */
    method MountBest() returns (found: bool, i: nat)
      modifies this`mounted, this`acts, disk`misses
      ensures disk.misses >= old(disk.misses)
      ensures old(acts) <= acts && MountsOnlyFrom(acts[|old(acts)|..], parts)
      ensures forall k :: |old(acts)| <= k < |acts| ==> acts[k].Mount?
      ensures found <==> exists j :: 0 <= j < |parts| && Eligible(accepts, parts[j])
      ensures found ==>
        && i < |parts| && Eligible(accepts, parts[i]) && mounted == Some(parts[i].start)
        && (IsZelr(disk.bytes, parts[i].start) || forall j :: 0 <= j < i ==> !Eligible(accepts, parts[j]))
        && (disk.misses == old(disk.misses) ==> IsBest(accepts, disk.bytes, parts, i))
      ensures !found ==> mounted == LeftMounted(parts, old(mounted))
      ensures var news := acts[|old(acts)|..];
        forall k :: 0 <= k < |news| && news[k].Mount? ==>
          exists j :: 0 <= j < |parts| && parts[j].start == news[k].base && parts[j].looksLikeFat && !parts[j].efiSystem
      ensures found <==> exists j :: 0 <= j < |parts| && parts[j].looksLikeFat && !parts[j].efiSystem && accepts(parts[j].start)
      ensures found ==> i < |parts| && parts[i].looksLikeFat && !parts[i].efiSystem && accepts(parts[i].start)
    {
      hide IsZelr;
      found, i := Pass(true);
      if !found {
        ghost var first := acts[|old(acts)|..];
        ghost var n := |acts|;
        found, i := Pass(false);
        assert acts[|old(acts)|..] == first + acts[n..];
      }
    }

    /** `diskfs_mount`, of the table `scanned`. `best` is the partition chosen. */
    method MountDisk(scanned: seq<Part>) returns (r: int, ghost best: nat)
      requires Valid()
      modifies this, disk`misses
      ensures Valid() && disk.misses >= old(disk.misses)
      ensures !present ==> r == -1 && acts == old(acts) && parts == old(parts) && mounted == old(mounted)
      ensures present ==> parts == scanned && old(acts) <= acts
      ensures present && scanned == [] ==>
        && r == (if accepts(0) then entries else -2)
        && mounted == (if accepts(0) then Some(0) else None)
        && acts[|old(acts)|..] == [Mount(0)] +
             if accepts(0) && disk.misses == old(disk.misses) && MadeHere(disk.bytes, 0) then [Sweep(0)] else []
      ensures present && scanned != [] ==>
        var news := acts[|old(acts)|..];
        && MountsOnlyFrom(news, scanned) && NoFormat(news)
        && if exists j :: 0 <= j < |scanned| && Eligible(accepts, scanned[j]) then
             && r == entries && best < |scanned| && Eligible(accepts, scanned[best])
             && (disk.misses == old(disk.misses) ==> IsBest(accepts, disk.bytes, scanned, best))
             && (IsZelr(disk.bytes, scanned[best].start) || forall j :: 0 <= j < best ==> !Eligible(accepts, scanned[j]))
             && var base := scanned[best].start;
                mounted == Some(base)
                && (forall b :: Sweep(b) in news ==> b == base && MadeHere(disk.bytes, base))
                && (disk.misses == old(disk.misses) && MadeHere(disk.bytes, base) ==> Sweep(base) in news)
           else
             r == -2 && mounted == LeftMounted(scanned, old(mounted)) && forall b :: Sweep(b) !in news
      ensures present && scanned != [] ==> 
        ByFields(scanned, accepts, disk.bytes, disk.misses == old(disk.misses), entries,
                 acts[|old(acts)|..], old(mounted), mounted, r, best)
    {
      hide IsZelr, Eligible, IsBest, LeftMounted, MadeHere, ByFields;
      best := 0;
      if !present {
        return -1, 0;
      }
      ghost var n, had, misses := |acts|, mounted, disk.misses;
      parts := scanned;
      if parts == [] {
        var ok := MountAt(0);
        if !ok {
          return -2, 0;
        }
        r := Finish();
        return;
      }
      var found, i := MountBest();
      if !found {
        ChosenByFields(scanned, accepts, disk.bytes, disk.misses == misses, entries, acts[n..], had, mounted, -2, 0);
        return -2, 0;
      }
      best := i;
      ghost var mounts := acts[n..];
      r := Finish();
      assert acts[n..] == mounts + acts[n + |mounts|..];
      AfterMounts(mounts, acts[n + |mounts|..], parts);
      ChosenByFields(scanned, accepts, disk.bytes, disk.misses == misses, entries, acts[n..], had, mounted, r, best);
    }

    /** `disk_is_blank`, sector by sector: a disk that cannot be read is not. */
    method DiskIsBlank(total: nat) returns (blank: bool)
      modifies disk`misses
      ensures disk.misses >= old(disk.misses)
      ensures blank <==> disk.misses == old(disk.misses) && LooksBlank(disk.bytes, total)
    {
      var sec := new byte[SECTOR];
      var scan := if total < BLANK_SCAN_SECTORS then total else BLANK_SCAN_SECTORS;
      var s := 0;
      while s < scan
        modifies sec, disk`misses
        invariant s <= scan && disk.misses == old(disk.misses)
        invariant forall k :: 0 <= k < s ==> ZeroSector(disk.bytes, k)
      {
        var zero := SectorIsZero(s, sec);
        if !zero {
          return false;
        }
        s := s + 1;
      }
      if total > scan {
        blank := SectorIsZero(total - 1, sec);
        return;
      }
      return true;
    }

    method SectorIsZero(lba: nat, sec: array<byte>) returns (zero: bool)
      requires sec.Length == SECTOR
      modifies sec, disk`misses
      ensures disk.misses >= old(disk.misses)
      ensures zero <==> disk.misses == old(disk.misses) && ZeroSector(disk.bytes, lba)
    {
      zero := disk.Read(lba, 1, sec);
      if zero {
        assert sec[..] == Sectors(disk.bytes, lba, 1);
        zero := BlackBox.IsBlank(sec);
      }
    }

    /** `fat_format`: it may fail at any point, and what it leaves of the disk is not
        said here. It ends by mounting what it made. */
    method FatFormat() returns (ok: bool)
      modifies this`mounted, this`acts, disk`bytes
      ensures acts == old(acts) + [Format(ok)]
      ensures if ok then mounted == Some(0) else mounted == old(mounted) || mounted == None
    {
      ok := *;
      var left: seq<byte> := *;
      disk.bytes := left;
      var gone: bool := *;
      mounted := if ok then Some(0) else if gone then None else mounted;
      acts := acts + [Format(ok)];
    }

    /** The disk is one `diskfs_format` may go ahead with: not partitioned, and blank,
        or mounted from end to end as ours to empty. */
    ghost predicate MayFormat(total: nat)
      reads this, disk
    {
      present && parts == [] && (mounted == Some(0) || LooksBlank(disk.bytes, total))
    }

    /** `diskfs_format`: a format is begun exactly when the disk may be formatted and
        no read that asks was missed; otherwise nothing on the disk changes. */
    method FormatDisk(total: nat) returns (formatted: bool)
      requires Valid()
      modifies this`mounted, this`acts, disk
      ensures Valid()
      ensures if old(MayFormat(total)) && disk.misses == old(disk.misses)
        then acts == old(acts) + [Format(formatted)] && (formatted ==> mounted == Some(0))
        else !formatted && acts == old(acts) && mounted == old(mounted) && disk.bytes == old(disk.bytes)
      ensures old(mounted.Some?) || !present || parts != [] ==> disk.misses == old(disk.misses)
      ensures acts != old(acts) <==>
        && present && |parts| == 0
        && (old(mounted.Some?) || (disk.misses == old(disk.misses) && BlankBytes(old(disk.bytes), total)))
      ensures acts == old(acts) ==> !formatted && disk.bytes == old(disk.bytes) && mounted == old(mounted)
    {
      hide BlankBytes, LooksBlank;
      BlankExactly(disk.bytes, total);
      if !present || |parts| > 0 {
        return false;
      }
      if mounted.None? {
        var blank := DiskIsBlank(total);
        if !blank {
          return false;
        }
      }
      formatted := FatFormat();
    }
  }

  predicate NoFormat(acts: seq<Act>) {
    forall k :: 0 <= k < |acts| ==> !acts[k].Format?
  }

  lemma LeftMountedNext(parts: seq<Part>, p: Part, was: Option<nat>)
    ensures LeftMounted(parts + [p], was) == if Candidate(p) then None else LeftMounted(parts, was)
  {
    hide Candidate;
    assert (parts + [p])[|parts|] == p;
    if j :| 0 <= j < |parts| && Candidate(parts[j]) {
      assert (parts + [p])[j] == parts[j];
    }
  }

  /** A sweep after some mounts adds no mount. */
  lemma AfterMounts(mounts: seq<Act>, rest: seq<Act>, parts: seq<Part>)
    requires MountsOnlyFrom(mounts, parts) && (forall k :: 0 <= k < |mounts| ==> mounts[k].Mount?)
    requires forall k :: 0 <= k < |rest| ==> rest[k].Sweep?
    ensures MountsOnlyFrom(mounts + rest, parts) && NoFormat(mounts + rest)
    ensures forall b :: Sweep(b) in mounts + rest <==> Sweep(b) in rest
  {}

  /** A disk that looks blank carries no boot signature and no volume of ours, at
      any sector scanned. */
  lemma BlankIsNobodys(d: seq<byte>, total: nat, base: nat)
    requires LooksBlank(d, total) && base < total && (base < BLANK_SCAN_SECTORS || base == total - 1)
    ensures Has(d, base, 1) && Sectors(d, base, 1)[510] == 0 && !IsZelr(d, base) && !MadeHere(d, base)
  {
    assert ZeroSector(d, base);
    var s := Sectors(d, base, 1);
    assert s[3..11][0] == s[3] && ZELR_OEM[0] != 0;
  }

  // ----- a stick -----

  const FAT_TYPES: seq<byte> := [0x01, 0x04, 0x06, 0x0B, 0x0C, 0x0E]

  function MbrType(sec: seq<byte>, i: nat): byte
    requires |sec| == SECTOR && i < 4
  {
    sec[446 + i * 16 + 4]
  }

  function MbrStart(sec: seq<byte>, i: nat): nat
    requires |sec| == SECTOR && i < 4
  {
    Get32(sec[446 + i * 16 + 8..446 + i * 16 + 12])
  }

  predicate HasTable(sec: seq<byte>)
    requires |sec| == SECTOR
  {
    sec[510] == 0x55 && sec[511] == 0xAA
  }

  /** An entry worth trying; the EFI System Partition, type 0xEF, is none. */
  predicate Tried(sec: seq<byte>, i: nat)
    requires |sec| == SECTOR
  {
    i < 4 && MbrStart(sec, i) != 0 && MbrType(sec, i) in FAT_TYPES
  }

  /** By the bytes: the signature, and 16 bytes an entry from 446, the type in byte 4 and
      the first sector in bytes 8 to 11, the low one first. */
  lemma EntryExactly(sec: seq<byte>, i: nat)
    requires |sec| == SECTOR && i < 4
    ensures HasTable(sec) <==> sec[510] == 0x55 && sec[511] == 0xAA
    ensures MbrStart(sec, i) == Field(sec, 446 + 16 * i + 8)
    ensures Tried(sec, i) <==>
      && Field(sec, 446 + 16 * i + 8) != 0
      && var t := sec[446 + 16 * i + 4];
         t == 0x01 || t == 0x04 || t == 0x06 || t == 0x0B || t == 0x0C || t == 0x0E
  {
    hide Get32, Field;
    FieldIs(sec, 446 + 16 * i + 8);
  }

  lemma NeverTheEfiPartition(sec: seq<byte>, i: nat)
    requires |sec| == SECTOR && Tried(sec, i)
    ensures MbrType(sec, i) != 0xEF
  {
    var t := MbrType(sec, i);
    assert t == 0x01 || t == 0x04 || t == 0x06 || t == 0x0B || t == 0x0C || t == 0x0E;
  }

  class Stick {
    const disk: BlackBox.Disk
    const present: bool
    const accepts: nat -> bool
    var mounted: Option<nat>

    constructor (d: BlackBox.Disk, there: bool, takes: nat -> bool)
      ensures disk == d && present == there && accepts == takes && mounted == None
    {
      disk, present, accepts, mounted := d, there, takes, None;
    }

    method MountAt(base: nat) returns (ok: bool)
      modifies this`mounted
      ensures ok == accepts(base) && mounted == if ok then Some(base) else None
    {
      ok := accepts(base);
      mounted := if ok then Some(base) else None;
    }

    /** `diskfs_mount_removable`: the first entry of its table the mounter takes;
        failing those, the whole device. */
    method MountRemovable() returns (ok: bool)
      modifies this`mounted, disk`misses
      ensures !present ==> !ok && mounted == old(mounted) && disk.misses == old(disk.misses)
      ensures present ==> ok == mounted.Some?
      ensures present ==>
        var table := disk.misses == old(disk.misses) && Has(disk.bytes, 0, 1) && HasTable(Sectors(disk.bytes, 0, 1));
        if table && exists i :: 0 <= i < 4 && Takes(i) then
          exists i :: 0 <= i < 4 && Takes(i) && mounted == Some(MbrStart(Sectors(disk.bytes, 0, 1), i))
                      && forall j :: 0 <= j < i ==> !Takes(j)
        else
          mounted == if accepts(0) then Some(0) else None
    {
      if !present {
        return false;
      }
      var sec := new byte[SECTOR];
      ok := disk.Read(0, 1, sec);
      if ok && sec[510] == 0x55 && sec[511] == 0xAA {
        var s := sec[..];
        assert s == Sectors(disk.bytes, 0, 1);
        for i := 0 to 4
          invariant disk.misses == old(disk.misses) && forall j :: 0 <= j < i ==> !Takes(j)
        {
          if MbrStart(s, i) != 0 && MbrType(s, i) in FAT_TYPES {
            ok := MountAt(MbrStart(s, i));
            if ok {
              assert Takes(i);
              return;
            }
          }
        }
      }
      ok := MountAt(0);
    }

    /** Entry `i` of the stick's table is one to try, and the mounter takes it. */
    ghost predicate Takes(i: nat)
      reads disk
    {
      Has(disk.bytes, 0, 1)
      && var s := Sectors(disk.bytes, 0, 1); Tried(s, i) && accepts(MbrStart(s, i))
    }
  }
}
