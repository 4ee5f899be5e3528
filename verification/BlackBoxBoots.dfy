/** How boots are counted: the number in the record on the disk goes up by one
    for each boot whose log reached it, however often it was written. */
module BlackBoxBoots {
  import opened Bytes
  import opened Record
  import opened LogText
  import opened LogDisk
  import opened SectorBytes
  import opened BlackBoxRuns

  /** The boot number on the disk; 0 where there is no record. */
  function DiskBoot(d: seq<byte>, base: nat): nat {
    var at := LogAt(d, base);
    if at.Some? && Has(d, at.value, 1) then DiskBootAt(d, at.value) else 0
  }

  predicate Attempts(d: seq<byte>, a: Attempt) {
    a.readsOk && Writable(d, a.base)
  }

  function WouldWrite(s: Sys, a: Attempt): seq<byte>
    requires ValidRam(s.ram) && ValidAttempt(a) && Attempts(s.disk, a)
  {
    RecordBytes(BootFor(s.ram, s.disk, a), s.ram.text, a.slack)
  }

  /** The record's first sector, where the boot number is, reached the disk. */
  predicate Lands(s: Sys, a: Attempt)
    requires ValidRam(s.ram) && ValidAttempt(a)
  {
    Attempts(s.disk, a) &&
    var lba := LogAt(s.disk, a.base).value;
    Sectors(FlushStep(s.ram, s.disk, a).disk, lba, 1) == WouldWrite(s, a)[..SECTOR]
  }

  /** A write leaves the first sector whole, either the old one or the new one.
      An all-or-nothing write does. */
  predicate FirstSectorAtomic(s: Sys, a: Attempt)
    requires ValidRam(s.ram) && ValidAttempt(a)
  {
    Attempts(s.disk, a) ==>
      Lands(s, a) ||
      var lba := LogAt(s.disk, a.base).value;
      Sectors(FlushStep(s.ram, s.disk, a).disk, lba, 1) == Sectors(s.disk, lba, 1)
  }

  /** One boot's events, all about the volume at `base`, the count's read never
      failing and no first sector torn. */
  ghost predicate OneBoot(s: Sys, es: seq<Event>, base: nat)
    requires ValidRam(s.ram)
    decreases |es|
  {
    es != [] ==>
      var n := |es| - 1;
      var e := es[n];
      && !e.Reboot?
      && OneBoot(s, es[..n], base)
      && (e.Flush? ==>
            && ValidAttempt(e.attempt) && e.attempt.base == base && e.attempt.countReadOk
            && ValidEvents(es[..n]) && FirstSectorAtomic(Run(s, es[..n]), e.attempt))
  }

  lemma {:induction false} OneBootValid(s: Sys, es: seq<Event>, base: nat)
    requires ValidRam(s.ram) && OneBoot(s, es, base)
    ensures ValidEvents(es)
    decreases |es|
  {
    if es != [] {
      OneBootValid(s, es[..|es| - 1], base);
      forall k | 0 <= k < |es| && es[k].Flush?
        ensures ValidAttempt(es[k].attempt)
      {
        if k < |es| - 1 {
          assert es[k] == es[..|es| - 1][k];
        }
      }
    }
  }

  /** Some flush of the boot reached the disk. */
  ghost predicate Reached(s: Sys, es: seq<Event>)
    requires ValidRam(s.ram) && ValidEvents(es)
    decreases |es|
  {
    es != [] &&
    var n := |es| - 1;
    Reached(s, es[..n]) || (es[n].Flush? && Lands(Run(s, es[..n]), es[n].attempt))
  }

  // ----- one flush -----

  /** A first sector that landed says the boot number the flush worked out. */
  lemma LandedBoot(s: Sys, a: Attempt)
    requires ValidRam(s.ram) && ValidAttempt(a) && Lands(s, a)
    ensures DiskBoot(FlushStep(s.ram, s.disk, a).disk, a.base) == BootFor(s.ram, s.disk, a) % TWO_32
    ensures LogAt(FlushStep(s.ram, s.disk, a).disk, a.base) == LogAt(s.disk, a.base)
  {
    hide FlushStep, RecordBytes, BootFor, Head, LogAt, Get32;
    FlushKeepsLog(s, a);
    var data, boot := WouldWrite(s, a), BootFor(s.ram, s.disk, a);
    var first := data[..SECTOR];
    assert first[..HEAD] == data[..HEAD] == Head(boot, s.ram.text);
    HeadFields(boot, s.ram.text, first);
    SectorBoot(FlushStep(s.ram, s.disk, a).disk, a.base, first);
  }

  /** The first sector of the region says the boot number. */
  lemma SectorBoot(d: seq<byte>, base: nat, first: seq<byte>)
    requires LogAt(d, base).Some? && Has(d, LogAt(d, base).value, 1)
    requires first == Sectors(d, LogAt(d, base).value, 1)
    ensures DiskBoot(d, base) == if Magic(first) == BB_MAGIC then Boot(first) else 0
  {}

  lemma FlushKeepsLog(s: Sys, a: Attempt)
    requires ValidRam(s.ram) && ValidAttempt(a)
    ensures LogAt(FlushStep(s.ram, s.disk, a).disk, a.base) == LogAt(s.disk, a.base)
  {
    hide FlushStep, LogAt, IsFree;
    var d' := FlushStep(s.ram, s.disk, a).disk;
    forall i | 0 <= i < |d'| && d'[i] != s.disk[i]
      ensures InLog(s.disk, a.base, i)
    {
      FlushConfined(s.ram, s.disk, a, i);
    }
    ChangedOnlyLog(s.disk, d', a.base);
  }

  /** What a flush does to the count, whatever it does to the rest. */
  lemma FlushCounts(s: Sys, a: Attempt, n0: nat)
    requires ValidRam(s.ram) && ValidAttempt(a) && a.countReadOk && FirstSectorAtomic(s, a)
    requires n0 < TWO_32
    requires s.ram.counted ==> s.ram.boot == (n0 + 1) % TWO_32
    requires !s.ram.counted ==> DiskBoot(s.disk, a.base) == n0
    ensures var f := FlushStep(s.ram, s.disk, a);
      && (f.ram.counted ==> f.ram.boot == (n0 + 1) % TWO_32)
      && DiskBoot(f.disk, a.base) == (if Lands(s, a) then (n0 + 1) % TWO_32 else DiskBoot(s.disk, a.base))
      && (Lands(s, a) ==> f.ram.counted) && (s.ram.counted ==> f.ram.counted)
  {
    hide FlushStep, DiskBoot, BootFor, Lands, FirstSectorAtomic, Writable;
    FlushBoot(s, a);
    BootIs(s, a);
    Mod32Twice(n0 + 1);
    if Lands(s, a) {
      LandedBoot(s, a);
      assert Attempts(s.disk, a) by {
        LandsAttempts(s, a);
      }
    } else {
      NotLanded(s, a);
    }
  }

  lemma Mod32Twice(n: nat)
    ensures n % TWO_32 % TWO_32 == n % TWO_32
  {}

  lemma LandsAttempts(s: Sys, a: Attempt)
    requires ValidRam(s.ram) && ValidAttempt(a) && Lands(s, a)
    ensures Attempts(s.disk, a)
  {}

  lemma NotLanded(s: Sys, a: Attempt)
    requires ValidRam(s.ram) && ValidAttempt(a) && FirstSectorAtomic(s, a) && !Lands(s, a)
    ensures DiskBoot(FlushStep(s.ram, s.disk, a).disk, a.base) == DiskBoot(s.disk, a.base)
  {
    hide FlushStep, DiskBoot, LogAt, BootFor, Lands;
    if Attempts(s.disk, a) {
      FlushKeepsLog(s, a);
      SameFirstSector(s.disk, FlushStep(s.ram, s.disk, a).disk, a.base);
    } else {
      FlushBoot(s, a);
    }
  }

  lemma SameFirstSector(d: seq<byte>, d': seq<byte>, base: nat)
    requires |d| == |d'| && LogAt(d, base) == LogAt(d', base) && LogAt(d, base).Some?
    requires Has(d, LogAt(d, base).value, 1)
    requires Sectors(d, LogAt(d, base).value, 1) == Sectors(d', LogAt(d, base).value, 1)
    ensures DiskBoot(d, base) == DiskBoot(d', base)
  {
    hide LogAt;
  }

  lemma BootIs(s: Sys, a: Attempt)
    requires ValidRam(s.ram) && ValidAttempt(a)
    ensures Attempts(s.disk, a) && !s.ram.counted && a.countReadOk ==>
      BootFor(s.ram, s.disk, a) == (DiskBoot(s.disk, a.base) + 1) % TWO_32
    ensures Attempts(s.disk, a) && s.ram.counted ==> BootFor(s.ram, s.disk, a) == s.ram.boot
  {
    hide LogAt, DiskBootAt;
  }

  lemma FlushBoot(s: Sys, a: Attempt)
    requires ValidRam(s.ram) && ValidAttempt(a)
    ensures var f := FlushStep(s.ram, s.disk, a);
      if Attempts(s.disk, a) then f.ram.counted && f.ram.boot == BootFor(s.ram, s.disk, a)
      else f.ram == s.ram && f.disk == s.disk
  {
    hide LogAt, IsFree, RecordBytes, BootFor;
  }

  // ----- one boot, and any number of them -----

  /** Through one boot, the number on the disk is the one it began with until a
      flush reaches it, and one more from then on. */
  lemma {:induction false} BootCountsOnce(s: Sys, es: seq<Event>, base: nat)
    requires ValidRam(s.ram) && !s.ram.counted && OneBoot(s, es, base) && ValidEvents(es)
    requires DiskBoot(s.disk, base) < TWO_32
    ensures var t, n0 := Run(s, es), DiskBoot(s.disk, base);
      && DiskBoot(t.disk, base) == (if Reached(s, es) then (n0 + 1) % TWO_32 else n0)
      && (t.ram.counted ==> t.ram.boot == (n0 + 1) % TWO_32)
      && (!t.ram.counted ==> !Reached(s, es))
    decreases |es|
  {
    hide FlushStep, DiskBoot, RecoverStep, Lands, FirstSectorAtomic;
    if es != [] {
      var n := |es| - 1;
      var p := es[..n];
      OneBootValid(s, p, base);
      BootCountsOnce(s, p, base);
      var m := Run(s, p);
      if es[n].Flush? {
        FlushCounts(m, es[n].attempt, DiskBoot(s.disk, base));
      } else if es[n].Recover? {
        RecoverKeepsCount(m, es[n].base, es[n].readsOk, es[n].line);
      }
    }
  }

  lemma RecoverKeepsCount(s: Sys, base: nat, readsOk: bool, line: seq<byte>)
    ensures var r := RecoverStep(s.ram, s.disk, base, readsOk, line);
      r.boot == s.ram.boot && r.counted == s.ram.counted
  {
    hide LogAt, Parse, Sectors;
  }

  datatype Life = Life(banner: seq<byte>, events: seq<Event>)

  function PoweredOn(d: seq<byte>, banner: seq<byte>): (s: Sys)
    ensures ValidRam(s.ram) && !s.ram.counted && s.disk == d
  {
    AppendFits([], banner);
    Sys(Started(banner), d)
  }

  ghost predicate ValidLives(d: seq<byte>, lives: seq<Life>, base: nat)
    decreases |lives|, 0
  {
    lives != [] ==>
      var n := |lives| - 1;
      && ValidLives(d, lives[..n], base)
      && var s := PoweredOn(AfterLives(d, lives[..n], base), lives[n].banner);
         OneBoot(s, lives[n].events, base)
  }

  /** The disk after a machine has been through these boots, in order. */
  ghost function AfterLives(d: seq<byte>, lives: seq<Life>, base: nat): seq<byte>
    requires ValidLives(d, lives, base)
    decreases |lives|, 1
  {
    if lives == [] then d
    else
      var n := |lives| - 1;
      var s := PoweredOn(AfterLives(d, lives[..n], base), lives[n].banner);
      OneBootValid(s, lives[n].events, base);
      Run(s, lives[n].events).disk
  }

  /** How many of the boots had a flush reach the disk. */
  ghost function LivesReached(d: seq<byte>, lives: seq<Life>, base: nat): nat
    requires ValidLives(d, lives, base)
    decreases |lives|
  {
    if lives == [] then 0
    else
      var n := |lives| - 1;
      var s := PoweredOn(AfterLives(d, lives[..n], base), lives[n].banner);
      OneBootValid(s, lives[n].events, base);
      LivesReached(d, lives[..n], base) + (if Reached(s, lives[n].events) then 1 else 0)
  }

  lemma DiskBootBound(d: seq<byte>, base: nat)
    ensures DiskBoot(d, base) < TWO_32
  {
    hide LogAt, Get32;
    if LogAt(d, base).Some? && Has(d, LogAt(d, base).value, 1) {
      Get32Bound(Sectors(d, LogAt(d, base).value, 1)[4..8]);
    }
  }

  /** Over any sequence of boots the number on the disk rises by exactly one for
      each boot in which some flush reached the disk, in 32 bits. */
  lemma {:induction false} BootsAreCounted(d: seq<byte>, lives: seq<Life>, base: nat)
    requires ValidLives(d, lives, base)
    ensures DiskBoot(AfterLives(d, lives, base), base)
         == (DiskBoot(d, base) + LivesReached(d, lives, base)) % TWO_32
    decreases |lives|
  {
    hide DiskBoot, Run, OneBoot;
    DiskBootBound(d, base);
    if lives != [] {
      var n := |lives| - 1;
      BootsAreCounted(d, lives[..n], base);
      var m := AfterLives(d, lives[..n], base);
      var s := PoweredOn(m, lives[n].banner);
      DiskBootBound(m, base);
      OneBootValid(s, lives[n].events, base);
      BootCountsOnce(s, lives[n].events, base);
      Tick(DiskBoot(d, base) + LivesReached(d, lives[..n], base));
    }
  }

  /** A write that is all done or not done at all keeps the first sector whole, and
      a flush that reports success has reached the disk. */
  lemma AllOrNothing(s: Sys, a: Attempt)
    requires ValidRam(s.ram) && ValidAttempt(a)
    ensures var f := FlushStep(s.ram, s.disk, a);
      && (f.ok ==> Lands(s, a))
      && (f.ok || f.disk == s.disk ==> FirstSectorAtomic(s, a))
  {
    hide LogAt, RecordBytes, BootFor, Splice;
    var f := FlushStep(s.ram, s.disk, a);
    if f.ok {
      FlushDid(s.ram, s.disk, a);
      var data, at := WouldWrite(s, a), SECTOR * LogAt(s.disk, a.base).value;
      SpliceInside(s.disk, at, data, at, at + SECTOR);
    }
  }

  /** The reads matter: the first flush of a boot that reaches the disk adds one
      exactly when the count's own read succeeded or there was nothing to count
      on from; otherwise the count starts again at 1. */
  lemma CountNeedsItsRead(s: Sys, a: Attempt)
    requires ValidRam(s.ram) && ValidAttempt(a) && !s.ram.counted && Lands(s, a)
    ensures var n0, n := DiskBoot(s.disk, a.base), DiskBoot(FlushStep(s.ram, s.disk, a).disk, a.base);
      n == (n0 + 1) % TWO_32 <==> a.countReadOk || n0 == 0
  {
    hide FlushStep, DiskBoot, LogAt, DiskBootAt, Lands, RecordBytes;
    LandsAttempts(s, a);
    LandedBoot(s, a);
    BootIs(s, a);
    DiskBootBound(s.disk, a.base);
    Mod32Twice(DiskBoot(s.disk, a.base) + 1);
    OnlyFromZero(DiskBoot(s.disk, a.base));
  }

  /** Such a boot: the record on a volume of ours says 1, the first flush of the
      next boot reaches the disk without having read it, and it says 1 again. */
  lemma CountLost() returns (s: Sys, a: Attempt)
    ensures ValidRam(s.ram) && !s.ram.counted && ValidAttempt(a) && !a.countReadOk && Lands(s, a)
    ensures DiskBoot(s.disk, a.base) == 1 && DiskBoot(FlushStep(s.ram, s.disk, a).disk, a.base) == 1
  {
    hide FlushStep, DiskBoot, LogAt, IsFree, DiskBootAt, Lands, RecordBytes, SmallVolume;
    a := Attempt(0, true, false, Zeros(SECTOR), Written);
    s := PoweredOn(SmallVolume(), []);
    SmallVolumeIsWritable();
    StartsAtOne(s, a);
    var d := FlushStep(s.ram, s.disk, a).disk;
    CountedIsWritable(d, 0);
    s := PoweredOn(d, []);
    StartsAtOne(s, a);
  }

  /** A boot that counts from nothing is boot 1. */
  lemma StartsAtOne(s: Sys, a: Attempt)
    requires ValidRam(s.ram) && !s.ram.counted && ValidAttempt(a) && a.readsOk && !a.countReadOk && a.outcome == Written
    requires Writable(s.disk, a.base) && Has(s.disk, LogAt(s.disk, a.base).value, BB_SECTORS)
    ensures Lands(s, a) && DiskBoot(FlushStep(s.ram, s.disk, a).disk, a.base) == 1
    ensures LogAt(FlushStep(s.ram, s.disk, a).disk, a.base) == LogAt(s.disk, a.base)
  {
    hide FlushStep, DiskBoot, LogAt, IsFree, DiskBootAt, Lands, RecordBytes;
    SecsBound(s.ram.text);
    FlushOkExactly(s.ram, s.disk, a);
    AllOrNothing(s, a);
    LandedBoot(s, a);
  }

  /** Where there is a number there is a record, which may be written over. */
  lemma CountedIsWritable(d: seq<byte>, base: nat)
    requires DiskBoot(d, base) != 0
    ensures Writable(d, base)
  {
    hide LogAt;
  }

  lemma OnlyFromZero(n: nat)
    requires n < TWO_32
    ensures (n + 1) % TWO_32 == 1 <==> n == 0
  {}
}
