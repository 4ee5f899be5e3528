/** The black box as the kernel keeps it: one static image of the record, refilled
    in place, and a disk whose reads and writes may fail. Every operation is
    proved to be a step of the state machine in BlackBoxRuns. */
module BlackBox {
  import opened Bytes
  import opened Record
  import opened LogText
  import opened LogDisk
  import opened SectorBytes
  import opened BlackBoxRuns

  /** A C string's bytes, up to its terminator. */
  type CString = s: seq<byte> | 0 !in s witness []

  /** The boot disk. A command past the end of the disk always fails; any other may,
      for reasons nothing here can see. Those are kept count of: the reads missed,
      and how each write went. */
  class Disk {
    var bytes: seq<byte>
    ghost var misses: nat
    ghost var outcomes: seq<Outcome>

    method Read(lba: nat, count: nat, buf: array<byte>) returns (ok: bool)
      requires SECTOR * count <= buf.Length
      modifies buf, this`misses
      ensures ok <==> Has(bytes, lba, count) && misses == old(misses)
      ensures !ok && Has(bytes, lba, count) ==> misses == old(misses) + 1
      ensures !Has(bytes, lba, count) ==> misses == old(misses)
      ensures ok ==> buf[..SECTOR * count] == Sectors(bytes, lba, count)
    {
      if SECTOR * (lba + count) > |bytes| {
        return false;
      }
      var works: bool := *;
      if !works {
        misses := misses + 1;
        return false;
      }
      forall k | 0 <= k < SECTOR * count {
        buf[k] := bytes[SECTOR * lba + k];
      }
      return true;
    }

    method Write(lba: nat, count: nat, buf: array<byte>) returns (ok: bool)
      requires SECTOR * count <= buf.Length && SECTOR * count <= BB_BYTES && SECTOR * lba <= |bytes|
      modifies this`bytes, this`outcomes
      ensures |outcomes| == |old(outcomes)| + 1 && outcomes[..|old(outcomes)|] == old(outcomes)
      ensures var o := outcomes[|old(outcomes)|];
        && Possible(o) && bytes == WriteStep(old(bytes), lba, buf[..SECTOR * count], o)
        && (ok <==> Done(old(bytes), lba, buf[..SECTOR * count], o))
    {
      var works: bool := *;
      if works && SECTOR * (lba + count) <= |bytes| {
        bytes := bytes[..SECTOR * lba] + buf[..SECTOR * count] + bytes[SECTOR * (lba + count)..];
        outcomes := outcomes + [Written];
        return true;
      }
      // Refused part way: some leading sectors may have reached the disk.
      var part: nat :| part <= SECTOR * count && SECTOR * lba + part <= |bytes|;
      ghost var was := bytes;
      var at := SECTOR * lba;
      bytes := bytes[..at] + buf[..part] + bytes[at + part..];
      ghost var room := |was| - at;
      ghost var n := if SECTOR * count <= room then SECTOR * count else room;
      ghost var after := bytes[at..at + n] + Zeros(BB_BYTES - n);
      assert after[..n] == bytes[at..at + n];
      assert Splice(was, at, bytes[at..at + n]) == bytes;
      outcomes := outcomes + [Torn(after)];
      return false;
    }
  }

  class BlackBox {
    const disk: Disk
    const image: array<byte>
    const saved: array<byte>
    const scratch: array<byte>
    var len: nat
    var bootNumber: nat
    var counted: bool
    var logLba: nat
    var savedLen: nat
    var savedValid: bool

    /** The buffers have their sizes and are three, and the text leaves room for
        its terminator. */
    ghost predicate Shaped()
      reads this
    {
      && image.Length == BB_BYTES && saved.Length == BB_BYTES && scratch.Length == SECTOR
      && image != saved && image != scratch && saved != scratch
      && len <= FULL && (savedValid ==> savedLen <= BB_TEXT_MAX)
    }

    ghost predicate Valid()
      reads this, image
    {
      Shaped() && image[HEAD + len] == 0
    }

    ghost function Text(): seq<byte>
      reads this, image
      requires Shaped()
    {
      image[HEAD..HEAD + len]
    }

    ghost function Saved(): Option<seq<byte>>
      reads this, saved
      requires Shaped()
    {
      if savedValid then Some(saved[HEAD..HEAD + savedLen]) else None
    }

    /** What the state machine knows of this memory. */
    ghost function Mem(): Ram
      reads this, image, saved
      requires Shaped()
    {
      Ram(Text(), bootNumber, counted, Saved())
    }

    /** Power on, and `bb_init`. */
    constructor (d: Disk, banner: CString)
      ensures Valid() && fresh(image) && fresh(saved) && fresh(scratch) && disk == d
      ensures Mem() == Started(banner)
    {
      disk := d;
      image := new byte[BB_BYTES](_ => 0);
      saved := new byte[BB_BYTES](_ => 0);
      scratch := new byte[SECTOR](_ => 0);
      len, bootNumber, counted, logLba := 0, 0, false, 1;
      savedLen, savedValid := 0, false;
      new;
      assert Text() == [];
      AppendText(banner);
    }

    /** The start of the first whole line of the newest half. */
    method NextLine() returns (from: nat)
      requires Shaped() && len >= KEEP
      ensures from <= len && from == AfterLine(Text(), len - KEEP)
    {
      ghost var t := Text();
      from := len - KEEP;
      while from < len && image[HEAD + from] != NL
        invariant len - KEEP <= from <= len
        invariant AfterLine(t, from) == AfterLine(t, len - KEEP)
      {
        assert t[from] == image[HEAD + from];
        from := from + 1;
      }
      if from < len {
        assert t[from] == image[HEAD + from];
        from := from + 1;
      }
    }

    /** `drop_oldest_half`. */
    method DropHalf()
      requires Shaped() && len >= KEEP
      modifies this`len, image
      ensures Shaped() && Text() == DropOldestHalf(old(Text()))
    {
      hide AfterLine;
      ghost var t := Text();
      var from := NextLine();
      SliceOfSlice(image[..], HEAD, HEAD + len, from, len);
      assert image[HEAD + from..HEAD + len] == t[from..];
      MoveDown(from, len - from);
      len := len - from;
    }

    /** `memmove` to the start of the text. */
    method MoveDown(from: nat, n: nat)
      requires Shaped() && HEAD + from + n <= BB_BYTES
      modifies image
      ensures image[HEAD..HEAD + n] == old(image[HEAD + from..HEAD + from + n])
    {
      forall j | HEAD <= j < HEAD + n {
        image[j] := image[j + from];
      }
    }

    method PutByte(c: byte)
      requires Shaped()
      modifies this`len, image
      ensures Shaped() && Text() == AppendByte(old(Text()), c)
    {
      ghost var was := Text();
      MakeRoom();
      ghost var t := Text();
      image[HEAD + len] := c;
      len := len + 1;
      assert Text()[..len - 1] == t && Text()[len - 1] == c;
      AppendByteIs(was, t, c);
    }

    /** Room for one byte and the terminator. */
    method MakeRoom()
      requires Shaped()
      modifies this`len, image
      ensures Shaped() && len + 1 < BB_TEXT_MAX
      ensures Text() == if old(len) + 1 >= BB_TEXT_MAX then DropOldestHalf(old(Text())) else old(Text())
    {
      hide DropOldestHalf;
      if len + 1 >= BB_TEXT_MAX {
        DropExactly(Text());
        DropHalf();
      }
    }

    /** `append`: the text grows by the string, its front dropped when it must
        be, and stays terminated inside the buffer. */
    method AppendText(s: CString)
      requires Shaped()
      modifies this`len, image
      ensures Valid() && Text() == LogText.Append(old(Text()), s)
    {
      hide AppendByte;
      ghost var t := Text();
      for i := 0 to |s|
        invariant Shaped() && Text() == LogText.Append(t, s[..i])
      {
        PutByte(s[i]);
        assert s[..i + 1][..i] == s[..i];
      }
      assert s[..|s|] == s;
      image[HEAD + len] := 0;
    }

    /** `bb_init` again: the log and the count start over. */
    method Init(banner: CString)
      requires Shaped()
      modifies this`len, this`bootNumber, this`counted, image
      ensures Valid() && Mem() == Started(banner).(saved := old(Saved()))
    {
      forall k | 0 <= k < BB_BYTES {
        image[k] := 0;
      }
      len, bootNumber, counted := 0, 0, false;
      assert Text() == [];
      AppendText(banner);
      assert saved[..] == old(saved[..]);
    }

    // ----- the disk, carefully -----

    /** `volume_is_ours`: and if so `logLba` is where its log starts. */
    method VolumeIsOurs(base: nat) returns (ours: bool)
      requires Shaped()
      modifies this`logLba, scratch, disk`misses
      ensures ours <==> disk.misses == old(disk.misses) && LogAt(disk.bytes, base).Some?
      ensures ours ==> LogAt(disk.bytes, base) == Some(base + logLba)
      ensures old(disk.misses) <= disk.misses <= old(disk.misses) + 1
    {
      var ok := disk.Read(base, 1, scratch);
      if !ok {
        return false;
      }
      ghost var boot := Sectors(disk.bytes, base, 1);
      assert scratch[..] == boot;
      if !BootIsOurs(scratch[..]) {
        return false;
      }
      var at := BootLogLba(scratch[..]);
      if BootReserved(scratch[..]) < at + BB_SECTORS {
        return false;
      }
      logLba := at;
      return true;
    }

    /** `region_is_free`: a log already, or every sector of it read and blank. */
    method RegionIsFree(base: nat) returns (free: bool)
      requires Shaped()
      modifies disk`misses
      ensures free <==> disk.misses == old(disk.misses) && IsFree(disk.bytes, base + logLba)
      ensures free ==> Has(disk.bytes, base + logLba, 1)
      ensures old(disk.misses) <= disk.misses <= old(disk.misses) + 1
    {
      var sec := new byte[SECTOR];
      var lba := base + logLba;
      var ok := disk.Read(lba, 1, sec);
      if !ok {
        return false;
      }
      assert sec[..] == Sectors(disk.bytes, lba, 1);
      assert sec[0..4] == Sectors(disk.bytes, lba, 1)[0..4];
      if Get32(sec[0..4]) == BB_MAGIC {
        return true;
      }
      var s := 0;
      while s < BB_SECTORS
        modifies sec, disk`misses
        invariant s <= BB_SECTORS && Has(disk.bytes, lba, 1) && Has(disk.bytes, lba, s)
        invariant s == 0 ==> sec[..] == Sectors(disk.bytes, lba, 1)
        invariant AllZero(Sectors(disk.bytes, lba, s)) && disk.misses == old(disk.misses)
      {
        if s != 0 {
          ok := disk.Read(lba + s, 1, sec);
          if !ok {
            return false;
          }
        }
        var blank := IsBlank(sec);
        BlankSoFar(disk.bytes, lba, s, sec[..]);
        if !blank {
          return false;
        }
        s := s + 1;
      }
      return true;
    }

    /** Both, as `bb_flush` asks them: no more is read once one read has missed. */
    method MayWrite(base: nat) returns (may: bool)
      requires Shaped()
      modifies this`logLba, scratch, disk`misses
      ensures may <==> disk.misses == old(disk.misses) && Writable(disk.bytes, base)
      ensures may ==> LogAt(disk.bytes, base) == Some(base + logLba)
      ensures old(disk.misses) <= disk.misses <= old(disk.misses) + 1
    {
      hide LogAt, IsFree;
      may := VolumeIsOurs(base);
      if may {
        may := RegionIsFree(base);
      }
    }

    /** `bb_flush`: the attempt it made is the state machine's step, whatever the
        disk did. The attempt is not its own to choose: a missed read is one of the
        checks' when nothing was written after it, else the count's, and the one
        write there is went as the disk says. */
    method Flush(base: nat) returns (ok: bool, ghost a: Attempt)
      requires Valid() && bootNumber < TWO_32
      modifies this`bootNumber, this`counted, this`logLba, image, scratch, disk
      ensures Valid() && bootNumber < TWO_32
      ensures ValidAttempt(a) && a.base == base
      ensures var f := FlushStep(old(Mem()), old(disk.bytes), a);
        Mem() == f.ram && disk.bytes == f.disk && ok == f.ok
      ensures disk.misses == old(disk.misses) + Missed(a.readsOk) + Missed(a.countReadOk)
      ensures !a.countReadOk ==> a.readsOk && Writable(old(disk.bytes), base) && !old(counted)
      ensures disk.outcomes == old(disk.outcomes)
                             + if a.readsOk && Writable(old(disk.bytes), base) then [a.outcome] else []
    {
      hide LogAt, IsFree, Writable, Head, DiskBootAt, RecordBytes, WriteStep, Done;
      ghost var r, d, misses := Mem(), disk.bytes, disk.misses;
      ok := MayWrite(base);
      a := Attempt(base, disk.misses == misses, true, Zeros(SECTOR), Written);
      if !ok {
        return;
      }
      var lba := base + logLba;
      LogIsThere(d, base);
      CountBoot(lba);
      a := a.(countReadOk := disk.misses == misses);
      assert bootNumber == BootFor(r, d, a);
      ghost var slack, outcomes := Zeros(SECTOR), disk.outcomes;
      ok, slack := WriteRecord(lba);
      a := a.(slack := slack, outcome := disk.outcomes[|outcomes|]);
      assert disk.outcomes == outcomes + [a.outcome];
    }

    /** This boot's number, worked out once a boot. */
    method CountBoot(lba: nat)
      requires Shaped() && Has(disk.bytes, lba, 1) && bootNumber < TWO_32
      modifies this`bootNumber, this`counted, scratch, disk`misses
      ensures counted && bootNumber < TWO_32
      ensures old(disk.misses) <= disk.misses <= old(disk.misses) + 1
      ensures if old(counted) then bootNumber == old(bootNumber) && disk.misses == old(disk.misses)
        else bootNumber == ((if disk.misses == old(disk.misses) then DiskBootAt(disk.bytes, lba) else 0) + 1) % TWO_32
    {
      if !counted {
        var n := PreviousBoot(lba);
        bootNumber := (n + 1) % TWO_32;
        counted := true;
      }
    }

    /** The boot number in the record on the disk, or 0. */
    method PreviousBoot(lba: nat) returns (n: nat)
      requires Shaped() && Has(disk.bytes, lba, 1)
      modifies scratch, disk`misses
      ensures n < TWO_32 && n == if disk.misses == old(disk.misses) then DiskBootAt(disk.bytes, lba) else 0
      ensures old(disk.misses) <= disk.misses <= old(disk.misses) + 1
    {
      var ok := disk.Read(lba, 1, scratch);
      n := 0;
      if ok {
        ghost var s := Sectors(disk.bytes, lba, 1);
        assert scratch[..] == s && scratch[0..4] == s[0..4] && scratch[4..8] == s[4..8];
        if Get32(scratch[0..4]) == BB_MAGIC {
          Get32Bound(scratch[4..8]);
          n := Get32(scratch[4..8]);
        }
      }
    }

    /** The head filled in, and as many sectors written as the text needs. */
    method WriteRecord(lba: nat) returns (ok: bool, ghost slack: seq<byte>)
      requires Valid() && SECTOR * lba <= |disk.bytes|
      modifies image, disk`bytes, disk`outcomes
      ensures Valid() && Text() == old(Text()) && |slack| == SECTOR
      ensures |disk.outcomes| == |old(disk.outcomes)| + 1 && disk.outcomes[..|old(disk.outcomes)|] == old(disk.outcomes)
      ensures var o, data := disk.outcomes[|old(disk.outcomes)|], RecordBytes(bootNumber, Text(), slack);
        && Possible(o) && disk.bytes == WriteStep(old(disk.bytes), lba, data, o)
        && ok == Done(old(disk.bytes), lba, data, o)
    {
      hide Head, WriteStep, Done, RecordBytes, Fnv;
      ghost var t := Text();
      var sum := SumOf(image, HEAD, len);
      FillHead(sum);
      var used := HEAD + len;
      var secs := (used + 511) / 512;
      if secs > BB_SECTORS {
        secs := BB_SECTORS;
      }
      SecsBound(t);
      slack := image[used..SECTOR * secs] + Zeros(SECTOR - (SECTOR * secs - used));
      RecordIs(bootNumber, t, slack, image[..SECTOR * secs]);
      ok := disk.Write(lba, secs, image);
    }

    method FillHead(sum: nat)
      requires Valid() && sum == Checksum(Text())
      modifies image
      ensures Valid() && Text() == old(Text()) && image[..HEAD] == Head(bootNumber, Text())
      ensures image[HEAD..] == old(image[HEAD..])
    {
      hide Fnv, Lo;
      var h := Le32(BB_MAGIC) + Le32(bootNumber) + Le32(len) + Le32(sum) + BUILD;
      forall k | 0 <= k < HEAD {
        image[k] := h[k];
      }
      assert image[HEAD..] == old(image[HEAD..]);
      assert Text() == image[HEAD..][..len];
      assert old(Text()) == old(image[HEAD..])[..len];
    }

    /** `bb_recover`: the last boot's text, if a whole record of it is there. */
    method Recover(base: nat, line: CString)
      requires Valid()
      modifies this`savedLen, this`savedValid, this`logLba, this`len, image, saved, scratch, disk`misses
      ensures Valid()
      ensures Mem() == RecoverStep(old(Mem()), disk.bytes, base, disk.misses == old(disk.misses), line)
      ensures old(disk.misses) <= disk.misses <= old(disk.misses) + 1
    {
      hide LogAt, Fnv, Get32;
      savedValid, savedLen := false, 0;
      ghost var r := Mem();
      var ours := VolumeIsOurs(base);
      if !ours {
        return;
      }
      var lba := base + logLba;
      var ok := disk.Read(lba, BB_SECTORS, saved);
      if !ok {
        return;
      }
      assert saved[..] == Sectors(disk.bytes, lba, BB_SECTORS);
      Accept();
      if savedValid {
        AppendText(line);
      }
    }

    /** What was read is taken for a record if it is a whole one. */
    method Accept()
      requires Shaped() && !savedValid
      modifies this`savedLen, this`savedValid
      ensures Shaped() && Saved() == Parse(saved[..])
    {
      hide Fnv, Get32;
      ghost var s := saved[..];
      assert saved[0..4] == s[0..4] && saved[8..12] == s[8..12] && saved[12..16] == s[12..16];
      if Get32(saved[0..4]) != BB_MAGIC {
        return;
      }
      var n := Get32(saved[8..12]);
      if n > BB_TEXT_MAX {
        return;
      }
      var sum := SumOf(saved, HEAD, n);
      assert saved[HEAD..HEAD + n] == s[HEAD..HEAD + n];
      if sum != Get32(saved[12..16]) {
        return;
      }
      savedLen, savedValid := n, true;
    }

    /** `bb_prev`: the first bytes of what was recovered, as many as fit before a
        terminator. */
    method Prev(out: array<byte>, cap: nat) returns (n: nat)
      requires Shaped() && cap <= out.Length && out != saved
      modifies out
      ensures match Saved()
        case None => n == 0 && out[..] == old(out[..])
        case Some(t) =>
          if cap == 0 then n == 0 && out[..] == old(out[..])
          else
            && n == (if |t| < cap - 1 then |t| else cap - 1)
            && out[..n] == t[..n] && out[n] == 0 && out[n + 1..] == old(out[n + 1..])
    {
      if cap == 0 || !savedValid {
        return 0;
      }
      n := if savedLen < cap - 1 then savedLen else cap - 1;
      forall k | 0 <= k < n {
        out[k] := saved[HEAD + k];
      }
      out[n] := 0;
    }
  }

  /** What `bb_prev` leaves of a recovered text in a buffer of `cap` bytes. */
  ghost predicate Given(t: seq<byte>, cap: nat, n: nat, was: seq<byte>, now: seq<byte>)
    requires 0 < cap <= |was| && |now| == |was|
  {
    && n == (if |t| < cap - 1 then |t| else cap - 1)
    && now[..n] == t[..n] && now[n] == 0 && now[n + 1..] == was[n + 1..]
  }

  /** Power on, recovery before anything is written, and what was recovered. */
  method RebootRecover(d: Disk, base: nat, banner: CString, line: CString, out: array<byte>, cap: nat) returns (n: nat)
    requires 0 < cap <= out.Length
    modifies d`misses, out
    ensures d.misses >= old(d.misses)
    ensures match RecoverStep(Started(banner), d.bytes, base, d.misses == old(d.misses), line).saved
      case None => n == 0 && out[..] == old(out[..])
      case Some(t) => Given(t, cap, n, old(out[..]), out[..])
  {
    hide LogAt, RecoverStep;
    var next := new BlackBox(d, banner);
    next.Recover(base, line);
    n := next.Prev(out, cap);
  }

  /** A boot that flushes, and the next one, which recovers before it has written
      anything and is asked for what was recovered. While no read is missed: the
      flush reports success exactly when the volume may be written to, has the
      sectors, and the write is taken; and then what comes back is the text as it
      was, as much of it as fits. */
  method FlushRebootRecover(b: BlackBox, base: nat, banner: CString, line: CString, out: array<byte>, cap: nat)
    returns (flushed: bool, n: nat)
    requires b.Valid() && b.bootNumber < TWO_32 && 0 < cap <= out.Length
    requires out != b.image && out != b.scratch
    modifies b`bootNumber, b`counted, b`logLba, b.image, b.scratch, b.disk, out
    ensures b.disk.misses == old(b.disk.misses) ==>
      && (flushed <==> FlushGoesThrough(old(b.disk.bytes), base, old(b.Text()))
                       && b.disk.outcomes == old(b.disk.outcomes) + [Written])
      && (flushed && HasRegion(old(b.disk.bytes), base) ==> Given(old(b.Text()), cap, n, old(out[..]), out[..]))
  {
    hide LogAt, Writable, FlushStep, RecoverStep, Given, LogText.Append;
    ghost var r, d, a := b.Mem(), b.disk.bytes, Attempt(0, false, false, [], Written);
    ghost var outcomes := b.disk.outcomes;
    flushed, a := b.Flush(base);
    FlushOkExactly(r, d, a);
    assert (outcomes + [a.outcome])[|outcomes|] == a.outcome;
    assert (outcomes + [Written])[|outcomes|] == Written;
    n := RebootRecover(b.disk, base, banner, line, out, cap);
    if flushed && HasRegion(d, base) {
      FlushThenRecover(r, d, a, Started(banner), line);
    }
  }

  /** The volume may be written to, and the disk has the sectors the text takes. */
  ghost predicate FlushGoesThrough(d: seq<byte>, base: nat, t: seq<byte>) {
    Writable(d, base) && Has(d, LogAt(d, base).value, SecsFor(t))
  }

  ghost predicate HasRegion(d: seq<byte>, base: nat) {
    LogAt(d, base).Some? && Has(d, LogAt(d, base).value, BB_SECTORS)
  }

  function Missed(ok: bool): nat {
    if ok then 0 else 1
  }

  method IsBlank(sec: array<byte>) returns (blank: bool)
    ensures blank <==> AllZero(sec[..])
  {
    for i := 0 to sec.Length
      invariant forall k :: 0 <= k < i ==> sec[k] == 0
    {
      if sec[i] != 0 {
        assert sec[..][i] != 0;
        return false;
      }
    }
    return true;
  }

  lemma AppendByteIs(was: seq<byte>, t: seq<byte>, c: byte)
    requires t == if |was| + 1 >= BB_TEXT_MAX then DropOldestHalf(was) else was
    ensures AppendByte(was, c) == t + [c]
  {}

  /** Blank up to sector `s`, and then at sector `s` too or not. */
  lemma BlankSoFar(d: seq<byte>, lba: nat, s: nat, sec: seq<byte>)
    requires s < BB_SECTORS && Has(d, lba, s + 1) && sec == Sectors(d, lba + s, 1) && AllZero(Sectors(d, lba, s))
    ensures AllZero(sec) ==> AllZero(Sectors(d, lba, s + 1))
    ensures !AllZero(sec) && Has(d, lba, BB_SECTORS) ==> !AllZero(Sectors(d, lba, BB_SECTORS))
  {
    hide AllZero, Sectors;
    SectorsJoin(d, lba, s, 1);
    ZeroConcat(Sectors(d, lba, s), sec);
    if Has(d, lba, BB_SECTORS) {
      SectorsJoin(d, lba, s + 1, BB_SECTORS - s - 1);
      ZeroConcat(Sectors(d, lba, s + 1), Sectors(d, lba + s + 1, BB_SECTORS - s - 1));
    }
  }

  /** The image's leading sectors are the record's bytes. */
  lemma RecordIs(boot: nat, text: seq<byte>, slack: seq<byte>, image: seq<byte>)
    requires |text| <= FULL && |slack| == SECTOR && |image| == SECTOR * SecsFor(text)
    requires HEAD + |text| <= |image| <= HEAD + |text| + SECTOR
    requires image[..HEAD] == Head(boot, text) && image[HEAD..HEAD + |text|] == text
    requires image[HEAD + |text|..] == slack[..|image| - HEAD - |text|]
    ensures image == RecordBytes(boot, text, slack)
  {
    hide Head;
    var n := HEAD + |text|;
    assert image == image[..HEAD] + image[HEAD..n] + image[n..];
  }
}
