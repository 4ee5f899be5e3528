/** The block layer: which disk, and a request cut into runs its driver takes.
    A driver is trusted for commands of 1 to `maxRun` sectors only; what is
    proved of a request of any length rests on that and nothing more. */
module BlockDev {
  import opened Bytes
  import opened SectorBytes

  const BLK_MAX := 4
  const BLK_NONE := 0xFFFF_FFFF

  datatype Command = Command(lba: nat, count: nat)

  /** A command a driver was given, and its answer. */
  datatype Answer = Answer(write: bool, command: Command, ok: bool)

  // ----- cutting a request -----

  /** The commands a request of `count` sectors becomes. */
  function Commands(lba: nat, count: nat, run: nat): seq<Command>
    requires run > 0
    decreases count
  {
    if count == 0 then []
    else
      var n := if count < run then count else run;
      [Command(lba, n)] + Commands(lba + n, count - n, run)
  }

  lemma CeilStep(count: nat, run: nat)
    requires run > 0 && count >= run
    ensures (count + run - 1) / run == 1 + (count - run + run - 1) / run
  {
    var m := count - 1;
    assert m == run * (m / run) + m % run;
    ModUnique(m + run, run, m / run + 1, m % run);
  }

  /** As few as there can be, none of them longer than the driver takes, one
      after the other, covering the request exactly. */
  lemma {:induction false} CommandsCover(lba: nat, count: nat, run: nat)
    requires run > 0
    ensures var cs := Commands(lba, count, run);
      && |cs| == (count + run - 1) / run && |cs| <= count
      && (forall k :: 0 <= k < |cs| ==> 1 <= cs[k].count <= run)
      && (forall k :: 0 <= k < |cs| - 1 ==> cs[k].count == run && cs[k].lba + cs[k].count == cs[k + 1].lba)
      && (count > 0 ==> cs[0].lba == lba && cs[|cs| - 1].lba + cs[|cs| - 1].count == lba + count)
    decreases count
  {
    hide Commands;
    if count == 0 {
      NoCommands(lba, run);
      ModUnique(run - 1, run, 0, run - 1);
    } else if count < run {
      OneCommand(lba, count, run);
    } else {
      CommandsCover(lba + run, count - run, run);
      CeilStep(count, run);
      if count == run {
        NoCommands(lba + run, run);
      }
      CommandsStep(lba, count, run, run);
      Precede(Command(lba, run), Commands(lba + run, count - run, run), Commands(lba, count, run), run);
    }
  }

  lemma OneCommand(lba: nat, count: nat, run: nat)
    requires 0 < count < run
    ensures Commands(lba, count, run) == [Command(lba, count)] && (count + run - 1) / run == 1
  {
    assert Commands(lba + count, 0, run) == [];
    ModUnique(count + run - 1, run, 1, count - 1);
  }

  /** A full command before commands that are one after the other. */
  lemma Precede(c: Command, rest: seq<Command>, cs: seq<Command>, run: nat)
    requires c.count == run > 0 && cs == [c] + rest && (rest != [] ==> rest[0].lba == c.lba + run)
    requires forall k :: 0 <= k < |rest| ==> 1 <= rest[k].count <= run
    requires forall k :: 0 <= k < |rest| - 1 ==> rest[k].count == run && rest[k].lba + rest[k].count == rest[k + 1].lba
    ensures forall k :: 0 <= k < |cs| ==> 1 <= cs[k].count <= run
    ensures forall k :: 0 <= k < |cs| - 1 ==> cs[k].count == run && cs[k].lba + cs[k].count == cs[k + 1].lba
  {
    forall k | 0 <= k < |cs| - 1
      ensures cs[k].count == run && cs[k].lba + cs[k].count == cs[k + 1].lba
    {
      assert k > 0 ==> cs[k] == rest[k - 1];
      assert cs[k + 1] == rest[k];
    }
  }

  /** The sectors asked for by the first `k` of these. */
  function Reach(cs: seq<Command>, k: nat): nat
    requires k <= |cs|
  {
    if k == 0 then 0 else Reach(cs, k - 1) + cs[k - 1].count
  }

  /** Nothing asks for as many sectors in fewer commands a driver takes. */
  lemma FewestCommands(cs: seq<Command>, lba: nat, run: nat)
    requires run > 0 && forall k :: 0 <= k < |cs| ==> cs[k].count <= run
    ensures |Commands(lba, Reach(cs, |cs|), run)| <= |cs|
  {
    hide Commands;
    ReachWithin(cs, |cs|, run);
    CommandsCover(lba, Reach(cs, |cs|), run);
    CeilWithin(Reach(cs, |cs|), run, |cs|);
  }

  lemma {:induction false} ReachWithin(cs: seq<Command>, k: nat, run: nat)
    requires k <= |cs| && forall i :: 0 <= i < |cs| ==> cs[i].count <= run
    ensures Reach(cs, k) <= k * run
  {
    if k > 0 {
      ReachWithin(cs, k - 1, run);
      assert k * run == (k - 1) * run + run;
    }
  }

  lemma CeilWithin(count: nat, run: nat, n: nat)
    requires run > 0 && count <= n * run
    ensures (count + run - 1) / run <= n
  {
    var q := (count + run - 1) / run;
    assert count + run - 1 == run * q + (count + run - 1) % run;
    if q > n {
      MulStep(run, n, q);
    }
  }

  /** The first `issued` of these, all answered well but, when the request failed,
      the last. */
  function Answered(write: bool, cs: seq<Command>, issued: nat, ok: bool): (r: seq<Answer>)
    requires issued <= |cs|
  {
    seq(issued, k requires 0 <= k < issued => Answer(write, cs[k], ok || k < issued - 1))
  }

  lemma AnsweredNext(write: bool, cs: seq<Command>, k: nat, ok: bool)
    requires k < |cs|
    ensures Answered(write, cs, k + 1, ok) == Answered(write, cs, k, true) + [Answer(write, cs[k], ok)]
  {}

  /** Nothing has changed outside those bytes. */
  ghost predicate Untouched(was: seq<byte>, now: seq<byte>, lo: nat, hi: nat) {
    |now| == |was| && forall i :: 0 <= i < |was| && !(lo <= i < hi) ==> now[i] == was[i]
  }

  // ----- drivers -----

  /** One disk behind its driver. */
  class Driver {
    var bytes: seq<byte>
    const canRead: bool
    const canWrite: bool
    /** The most sectors it takes in one command, if it says. */
    const maxRun: Option<nat>
    /** Every command it was ever given, and what it answered. */
    ghost var log: seq<Answer>

    /** Its size in sectors is a u32. */
    ghost predicate Sound()
      reads this
    {
      |bytes| <= SECTOR * (TWO_32 - 1)
    }

    ghost predicate Takes(count: nat) {
      count > 0 && (maxRun.Some? ==> count <= maxRun.value)
    }

    constructor (content: seq<byte>, readable: bool, writable: bool, most: Option<nat>)
      ensures bytes == content && canRead == readable && canWrite == writable && maxRun == most && log == []
    {
      bytes, canRead, canWrite, maxRun, log := content, readable, writable, most, [];
    }

    method Read(lba: nat, count: nat, buf: array<byte>, p: nat) returns (ok: bool)
      requires Takes(count) && p + SECTOR * count <= buf.Length
      modifies buf, this`log
      ensures log == old(log) + [Answer(false, Command(lba, count), ok)]
      ensures ok ==> Has(bytes, lba, count) && buf[p..p + SECTOR * count] == Sectors(bytes, lba, count)
      ensures forall i :: 0 <= i < buf.Length && !(p <= i < p + SECTOR * count) ==> buf[i] == old(buf[i])
    {
      ok := *;
      ok := ok && SECTOR * (lba + count) <= |bytes|;
      log := log + [Answer(false, Command(lba, count), ok)];
      if !ok {
        return;
      }
      forall k | 0 <= k < SECTOR * count {
        buf[p + k] := bytes[SECTOR * lba + k];
      }
    }

    /** A command that fails may still have changed the sectors it was about. */
    method Write(lba: nat, count: nat, buf: array<byte>, p: nat) returns (ok: bool)
      requires Takes(count) && p + SECTOR * count <= buf.Length
      modifies this
      ensures log == old(log) + [Answer(true, Command(lba, count), ok)]
      ensures ok ==> Has(old(bytes), lba, count) && bytes == Splice(old(bytes), SECTOR * lba, buf[p..p + SECTOR * count])
      ensures Untouched(old(bytes), bytes, SECTOR * lba, SECTOR * (lba + count))
    {
      ok := *;
      ok := ok && SECTOR * (lba + count) <= |bytes|;
      log := log + [Answer(true, Command(lba, count), ok)];
      if SECTOR * (lba + count) > |bytes| {
        return;
      }
      var part: nat :| part <= SECTOR * count && (ok ==> part == SECTOR * count);
      ghost var was := bytes;
      bytes := bytes[..SECTOR * lba] + buf[p..p + part] + bytes[SECTOR * lba + part..];
    }
  }

  /** The device will be asked, and how many sectors at a time. */
  function RunFor(d: Driver?, able: bool, count: nat): nat {
    if d == null || !able || count == 0 then 0
    else match d.maxRun case Some(n) => n case None => count
  }

  // ----- the layer -----

  class Layer {
    const devices: array<Driver?>
    var ioReads: nat
    var ioWrites: nat
    var sectorsRead: nat
    var sectorsWritten: nat
    /** Commands since boot, not cut to 32 bits. */
    ghost var writesEver: nat
    ghost var readsEver: nat

    ghost predicate Valid()
      reads this
    {
      devices.Length == BLK_MAX && ioWrites == Wrap32(writesEver) && ioReads == Wrap32(readsEver)
      && sectorsRead < TWO_64 && sectorsWritten < TWO_64
    }

    constructor ()
      ensures Valid() && fresh(devices) && devices[..] == [null, null, null, null]
      ensures ioReads == 0 && ioWrites == 0 && sectorsRead == 0 && sectorsWritten == 0
    {
      devices := new Driver?[BLK_MAX](_ => null);
      ioReads, ioWrites, sectorsRead, sectorsWritten := 0, 0, 0, 0;
      writesEver, readsEver := 0, 0;
      new;
    }

    /** `blk_register`: the lowest free number, or none. */
    method Register(dev: Driver?) returns (id: nat)
      requires Valid()
      modifies devices
      ensures id == BLK_NONE || (id < BLK_MAX && dev != null && old(devices[id]) == null)
      ensures id == BLK_NONE ==> dev == null || forall i :: 0 <= i < BLK_MAX ==> devices[i] != null
      ensures devices[..] == if id == BLK_NONE then old(devices[..]) else old(devices[..])[id := dev]
      ensures id != BLK_NONE ==> forall i :: 0 <= i < id ==> devices[i] != null
    {
      if dev == null {
        return BLK_NONE;
      }
      for i := 0 to BLK_MAX
        invariant devices[..] == old(devices[..])
        invariant forall k :: 0 <= k < i ==> devices[k] != null
      {
        if devices[i] == null {
          devices[i] := dev;
          return i;
        }
      }
      return BLK_NONE;
    }

    /** `blk_unregister` takes back exactly what was handed out. */
    method Unregister(id: nat)
      requires Valid()
      modifies devices
      ensures devices[..] == if id < BLK_MAX then old(devices[..])[id := null] else old(devices[..])
    {
      if id < BLK_MAX {
        devices[id] := null;
      }
    }

    /** `blk_count`: the highest number in use, plus one. */
    method Count() returns (n: nat)
      requires Valid()
      ensures n <= BLK_MAX && (n > 0 ==> devices[n - 1] != null)
      ensures forall i :: n <= i < BLK_MAX ==> devices[i] == null
    {
      n := 0;
      for i := 0 to BLK_MAX
        invariant n <= i && (n > 0 ==> devices[n - 1] != null)
        invariant forall k :: n <= k < i ==> devices[k] == null
      {
        if devices[i] != null {
          n := i + 1;
        }
      }
    }

    function DevAt(id: nat): Driver?
      reads this, devices
      requires Valid()
    {
      if id < BLK_MAX then devices[id] else null
    }

    /** The one disk a request can touch. */
    ghost function DevSet(id: nat): set<Driver>
      reads this, devices
      requires Valid()
    {
      if DevAt(id) == null then {} else {DevAt(id)}
    }

    /** One command, counted before it is given. */
    method GiveRead(d: Driver, at: nat, n: nat, buf: array<byte>, p: nat) returns (ok: bool)
      requires Valid() && d.Takes(n) && p + SECTOR * n <= buf.Length
      modifies this`ioReads, this`sectorsRead, this`readsEver, buf, d`log
      ensures Valid() && readsEver == old(readsEver) + 1 && d.log == old(d.log) + [Answer(false, Command(at, n), ok)]
      ensures sectorsRead == Wrap64(old(sectorsRead) + n)
      ensures ok ==> Has(d.bytes, at, n) && buf[p..p + SECTOR * n] == Sectors(d.bytes, at, n)
      ensures forall i :: 0 <= i < buf.Length && !(p <= i < p + SECTOR * n) ==> buf[i] == old(buf[i])
    {
      hide Wrap32;
      Tick(readsEver);
      ioReads := Wrap32(ioReads + 1);
      readsEver := readsEver + 1;
      sectorsRead := Wrap64(sectorsRead + n);
      ok := d.Read(at, n, buf, p);
    }

    method GiveWrite(d: Driver, at: nat, n: nat, buf: array<byte>, p: nat) returns (ok: bool)
      requires Valid() && d.Takes(n) && p + SECTOR * n <= buf.Length
      modifies this`ioWrites, this`sectorsWritten, this`writesEver, d
      ensures Valid() && writesEver == old(writesEver) + 1 && d.log == old(d.log) + [Answer(true, Command(at, n), ok)]
      ensures sectorsWritten == Wrap64(old(sectorsWritten) + n)
      ensures ok ==> Has(old(d.bytes), at, n) && d.bytes == Splice(old(d.bytes), SECTOR * at, buf[p..p + SECTOR * n])
      ensures Untouched(old(d.bytes), d.bytes, SECTOR * at, SECTOR * (at + n))
    {
      hide Wrap32, Splice;
      Tick(writesEver);
      ioWrites := Wrap32(ioWrites + 1);
      writesEver := writesEver + 1;
      sectorsWritten := Wrap64(sectorsWritten + n);
      ok := d.Write(at, n, buf, p);
    }

    /** The loop of `blk_read_on`. The 32 bit sector number never wraps: a command
        past the end of the disk has failed before it would. */
    method ReadRuns(d: Driver, lba: nat, count: nat, run: nat, buf: array<byte>) returns (ok: bool, ghost issued: nat)
      requires Valid() && d.Sound() && SECTOR * count <= buf.Length && lba < TWO_32
      requires run > 0 && count > 0 && (d.maxRun.Some? ==> run == d.maxRun.value)
      modifies this`ioReads, this`sectorsRead, this`readsEver, buf, d`log
      ensures Valid() && readsEver == old(readsEver) + issued
      ensures ReadBy(d.bytes, old(buf[..]), buf[..], lba, count, run, issued, ok)
      ensures sectorsRead == Wrap64(old(sectorsRead) + Reach(Commands(lba, count, run), issued))
      ensures d.log == old(d.log) + Answered(false, Commands(lba, count, run), issued, ok)
    {
      hide Commands, Wrap32, Sectors, Wrap64, Answered, ReadSoFar, ReadBy, Reach;
      issued := 0;
      ghost var cs, was := Commands(lba, count, run), buf[..];
      var at, p, left := lba, 0, count;
      NothingYet(cs, sectorsRead);
      NoneRead(d.bytes, was, lba);
      while left > 0
        invariant Valid() && 0 <= left <= count && p == SECTOR * (count - left)
        invariant issued <= |cs| && cs[issued..] == Commands(lba + (count - left), left, run)
        invariant left > 0 ==> at == lba + (count - left)
        invariant Reach(cs, issued) == count - left && (left < count ==> issued > 0)
        invariant sectorsRead == Wrap64(old(sectorsRead) + (count - left))
        invariant d.log == old(d.log) + Answered(false, cs, issued, true)
        invariant readsEver == old(readsEver) + issued
        invariant ReadSoFar(d.bytes, was, buf[..], lba, count - left)
        decreases left
      {
        var n := if left < run then left else run;
        ghost var mid := buf[..];
        CommandsStep(lba + (count - left), left, run, n);
        NextCommand(cs, issued, Command(at, n), Commands(at + n, left - n, run));
        AnsweredNext(false, cs, issued, true);
        AnsweredNext(false, cs, issued, false);
        Wrap64Adds(old(sectorsRead), count - left, n);
        ok := GiveRead(d, at, n, buf, p);
        issued := issued + 1;
        ReadNext(d.bytes, was, mid, buf[..], lba, count - left, n, ok);
        if !ok {
          ReadEnds(d.bytes, was, buf[..], lba, count, run, issued, false);
          return;
        }
        Fits32(at + n);
        at := Wrap32(at + n);
        p := p + SECTOR * n;
        left := left - n;
      }
      NoCommands(lba + count, run);
      ReadEnds(d.bytes, was, buf[..], lba, count, run, issued, true);
      return true, issued;
    }

    /** `blk_read_on`. Success is one whole transfer, whatever it was cut into, and
        it is success unless a command failed; then the commands before it were
        done, and the buffer past it is as it was. */
    method ReadOn(id: nat, lba: nat, count: nat, buf: array<byte>) returns (ok: bool, ghost issued: nat)
      requires Valid() && SECTOR * count <= buf.Length && lba < TWO_32
      requires DevAt(id) != null ==> DevAt(id).Sound()
      modifies this`ioReads, this`sectorsRead, this`readsEver, buf, DevSet(id)`log
      ensures Valid() && readsEver == old(readsEver) + issued
      ensures var d := DevAt(id);
        var run := RunFor(d, d != null && d.canRead, count);
        if run == 0 then
          !ok && issued == 0 && buf[..] == old(buf[..]) && sectorsRead == old(sectorsRead) && (d != null ==> d.log == old(d.log))
        else
          && ReadBy(d.bytes, old(buf[..]), buf[..], lba, count, run, issued, ok)
          && d.log == old(d.log) + Answered(false, Commands(lba, count, run), issued, ok)
          && sectorsRead == Wrap64(old(sectorsRead) + Reach(Commands(lba, count, run), issued))
      ensures var d := if id < 4 then devices[id] else null;
        if d == null || !d.canRead || count == 0 || d.maxRun == Some(0) then
          !ok && issued == 0 && buf[..] == old(buf[..]) && (d != null ==> d.log == old(d.log))
        else
          var news := d.log[|old(d.log)|..];
          && old(d.log) <= d.log && |news| == issued && Asked(news, false, lba, count, Most(d.maxRun, count), ok)
          && var f := news[|news| - 1].command;
             && sectorsRead == (old(sectorsRead) + (f.lba + f.count - lba)) % 0x1_0000_0000_0000_0000
             && InBuffer(d.bytes, old(buf[..]), buf[..], lba, count, f, ok)
    {
      hide Commands, Wrap32, Sectors, Answered, ReadBy, Reach, Asked, InBuffer;
      var d := DevAt(id);
      if d == null || !d.canRead || count == 0 {
        return false, 0;
      }
      var run := match d.maxRun case Some(n) => n case None => count;
      if run == 0 {
        return false, 0;
      }
      ghost var was, log := buf[..], d.log;
      ok, issued := ReadRuns(d, lba, count, run, buf);
      ReadByBytes(d.bytes, was, buf[..], lba, count, run, issued, ok);
      AskedIs(false, lba, count, run, issued, ok);
      assert d.log[|log|..] == Answered(false, Commands(lba, count, run), issued, ok);
    }

    /** The loop of `blk_write_on`. */
    method WriteRuns(d: Driver, lba: nat, count: nat, run: nat, buf: array<byte>) returns (ok: bool, ghost issued: nat)
      requires Valid() && d.Sound() && SECTOR * count <= buf.Length && lba < TWO_32
      requires run > 0 && count > 0 && (d.maxRun.Some? ==> run == d.maxRun.value)
      modifies this`ioWrites, this`sectorsWritten, this`writesEver, d
      ensures Valid() && writesEver == old(writesEver) + issued
      ensures WrittenBy(old(d.bytes), d.bytes, lba, count, run, buf[..SECTOR * count], issued, ok)
      ensures sectorsWritten == Wrap64(old(sectorsWritten) + Reach(Commands(lba, count, run), issued))
      ensures d.log == old(d.log) + Answered(true, Commands(lba, count, run), issued, ok)
    {
      hide Commands, Wrap32, Wrap64, Splice, WrittenBy, WrittenSoFar, Untouched, Answered, Reach;
      issued := 0;
      ghost var cs, was := Commands(lba, count, run), d.bytes;
      ghost var data := buf[..SECTOR * count];
      var at, p, left := lba, 0, count;
      NothingYet(cs, sectorsWritten);
      NoneDone(was, lba, count, data);
      while left > 0
        invariant Valid() && 0 <= left <= count && p == SECTOR * (count - left)
        invariant issued <= |cs| && cs[issued..] == Commands(lba + (count - left), left, run)
        invariant Reach(cs, issued) == count - left && (left < count ==> issued > 0)
        invariant left > 0 ==> at == lba + (count - left)
        invariant sectorsWritten == Wrap64(old(sectorsWritten) + (count - left))
        invariant d.log == old(d.log) + Answered(true, cs, issued, true)
        invariant WrittenSoFar(was, d.bytes, lba, count - left, count, data)
        invariant writesEver == old(writesEver) + issued
        decreases left
      {
        var n := if left < run then left else run;
        CommandsStep(lba + (count - left), left, run, n);
        NextCommand(cs, issued, Command(at, n), Commands(at + n, left - n, run));
        AnsweredNext(true, cs, issued, true);
        AnsweredNext(true, cs, issued, false);
        Wrap64Adds(old(sectorsWritten), count - left, n);
        ghost var mid := d.bytes;
        ok := GiveWrite(d, at, n, buf, p);
        issued := issued + 1;
        if !ok {
          FailedAfter(was, mid, d.bytes, lba, count - left, n, count, data);
          WriteFails(was, d.bytes, lba, count, run, data, issued);
          return;
        }
        BufferPiece(buf, SECTOR * count, p, p + SECTOR * n);
        WriteNext(was, mid, d.bytes, lba, count - left, n, count, data);
        Fits32(at + n);
        at := Wrap32(at + n);
        p := p + SECTOR * n;
        left := left - n;
      }
      NoCommands(lba + count, run);
      AllDone(was, d.bytes, lba, count, run, data);
      return true, issued;
    }

    /** `blk_write_on`. The device ends up as if the request had been one, or, when
        a command failed, with exactly the commands before it done and no sector
        changed outside that one. Each command is counted before it is given. */
    method WriteOn(id: nat, lba: nat, count: nat, buf: array<byte>) returns (ok: bool, ghost issued: nat)
      requires Valid() && SECTOR * count <= buf.Length && lba < TWO_32
      requires DevAt(id) != null ==> DevAt(id).Sound()
      modifies this`ioWrites, this`sectorsWritten, this`writesEver, DevSet(id)
      ensures Valid() && writesEver == old(writesEver) + issued
      ensures var d := DevAt(id);
        var run := RunFor(d, d != null && d.canWrite, count);
        if run == 0 then
          !ok && issued == 0 && sectorsWritten == old(sectorsWritten)
          && (d != null ==> d.bytes == old(d.bytes) && d.log == old(d.log))
        else
          && WrittenBy(old(d.bytes), d.bytes, lba, count, run, buf[..SECTOR * count], issued, ok)
          && d.log == old(d.log) + Answered(true, Commands(lba, count, run), issued, ok)
          && sectorsWritten == Wrap64(old(sectorsWritten) + Reach(Commands(lba, count, run), issued))
      ensures var d := if id < 4 then devices[id] else null;
        if d == null || !d.canWrite || count == 0 || d.maxRun == Some(0) then
          !ok && issued == 0 && (d != null ==> d.bytes == old(d.bytes) && d.log == old(d.log))
        else
          var news := d.log[|old(d.log)|..];
          && old(d.log) <= d.log && |news| == issued && Asked(news, true, lba, count, Most(d.maxRun, count), ok)
          && var f := news[|news| - 1].command;
             && sectorsWritten == (old(sectorsWritten) + (f.lba + f.count - lba)) % 0x1_0000_0000_0000_0000
             && OnDisk(old(d.bytes), d.bytes, lba, count, f, buf[..SECTOR * count], ok)
    {
      hide Commands, Wrap32, Splice, WrittenBy, Answered, Reach, Asked, OnDisk;
      var d := DevAt(id);
      if d == null || !d.canWrite || count == 0 {
        return false, 0;
      }
      var run := match d.maxRun case Some(n) => n case None => count;
      if run == 0 {
        return false, 0;
      }
      ghost var was, log := d.bytes, d.log;
      ok, issued := WriteRuns(d, lba, count, run, buf);
      WrittenByBytes(was, d.bytes, lba, count, run, buf[..SECTOR * count], issued, ok);
      AskedIs(true, lba, count, run, issued, ok);
      assert d.log[|log|..] == Answered(true, Commands(lba, count, run), issued, ok);
    }
  }

  /** The most sectors a command may ask for. */
  function Most(stated: Option<nat>, count: nat): nat {
    match stated case Some(n) => n case None => count
  }

  /** What a driver was asked and answered for one request: commands end to end from
      `lba`, each but the last as long as may be, ceil(count / most) of them when all
      went well; and when one did not it was the last. */
  ghost predicate Asked(news: seq<Answer>, write: bool, lba: nat, count: nat, most: nat, ok: bool) {
    && news != [] && most > 0
    && news[0].command == Command(lba, if count < most then count else most)
    && (forall k :: 0 <= k < |news| ==> news[k].write == write && 1 <= news[k].command.count <= most
                                        && (news[k].ok <==> ok || k < |news| - 1))
    && (forall k :: 0 <= k < |news| - 1 ==> news[k].command.count == most
                                            && news[k + 1].command.lba == news[k].command.lba + most)
    && (var last := news[|news| - 1].command;
        lba <= last.lba && last.lba + last.count <= lba + count && (ok ==> last.lba + last.count == lba + count))
    && (ok ==> |news| == (count + most - 1) / most)
  }

  lemma {:induction false} ReachIs(lba: nat, count: nat, run: nat, k: nat)
    requires run > 0 && k <= |Commands(lba, count, run)|
    ensures var cs := Commands(lba, count, run);
      && (k < |cs| ==> cs[k].lba == lba + Reach(cs, k))
      && (k > 0 ==> cs[k - 1].lba + cs[k - 1].count == lba + Reach(cs, k))
    decreases k
  {
    hide Commands;
    CommandsCover(lba, count, run);
    if k > 0 {
      ReachIs(lba, count, run, k - 1);
    }
  }

  lemma {:induction false} EndsWithin(lba: nat, count: nat, run: nat, k: nat)
    requires run > 0 && k < |Commands(lba, count, run)|
    ensures var cs := Commands(lba, count, run);
      lba <= cs[k].lba && cs[k].lba + cs[k].count <= lba + count
    decreases |Commands(lba, count, run)| - k
  {
    hide Commands, Reach;
    CommandsCover(lba, count, run);
    ReachIs(lba, count, run, k);
    var cs := Commands(lba, count, run);
    if k < |cs| - 1 {
      EndsWithin(lba, count, run, k + 1);
    }
  }

  lemma FirstCommand(lba: nat, count: nat, run: nat)
    requires run > 0 && count > 0
    ensures |Commands(lba, count, run)| > 0
    ensures Commands(lba, count, run)[0] == Command(lba, if count < run then count else run)
  {}

  lemma AskedIs(write: bool, lba: nat, count: nat, run: nat, issued: nat, ok: bool)
    requires run > 0 && count > 0 && 1 <= issued <= |Commands(lba, count, run)|
    requires ok ==> issued == |Commands(lba, count, run)|
    ensures Asked(Answered(write, Commands(lba, count, run), issued, ok), write, lba, count, run, ok)
    ensures var news := Answered(write, Commands(lba, count, run), issued, ok);
      |news| == issued && news[issued - 1].command == Commands(lba, count, run)[issued - 1]
  {
    hide Commands;
    CommandsCover(lba, count, run);
    FirstCommand(lba, count, run);
    EndsWithin(lba, count, run, issued - 1);
  }

  /** What of a read is in the buffer, byte by byte, `last` being the last command. */
  ghost predicate InBuffer(d: seq<byte>, was: seq<byte>, now: seq<byte>, lba: nat, count: nat, last: Command, ok: bool) {
    && |now| == |was| && 512 * count <= |now| && lba <= last.lba && last.lba + last.count <= lba + count
    && (var n := if ok then count else last.lba - lba;
        n > 0 ==> 512 * (lba + n) <= |d| && forall i :: 0 <= i < 512 * n ==> now[i] == d[512 * lba + i])
    && forall i :: 512 * (last.lba + last.count - lba) <= i < |now| ==> now[i] == was[i]
  }

  /** What of a write is on the disk, byte by byte; the sectors of a command that failed
      may hold anything. */
  ghost predicate OnDisk(was: seq<byte>, now: seq<byte>, lba: nat, count: nat, last: Command, data: seq<byte>, ok: bool) {
    && |now| == |was| && |data| == 512 * count && lba <= last.lba && last.lba + last.count <= lba + count
    && (ok ==> 512 * (lba + count) <= |was|)
    && forall i :: 0 <= i < |was| && (ok || !(512 * last.lba <= i < 512 * (last.lba + last.count))) ==>
         now[i] == if 512 * lba <= i < 512 * (if ok then lba + count else last.lba) then data[i - 512 * lba] else was[i]
  }

  lemma LastCommand(lba: nat, count: nat, run: nat, issued: nat)
    requires run > 0 && count > 0 && 1 <= issued <= |Commands(lba, count, run)|
    ensures var cs := Commands(lba, count, run);
      var last := cs[issued - 1];
      && last.lba == lba + Reach(cs, issued - 1) && last.lba + last.count == lba + Reach(cs, issued) <= lba + count
      && (issued == |cs| ==> last.lba + last.count == lba + count)
  {
    hide Commands, Reach;
    CommandsCover(lba, count, run);
    EndsWithin(lba, count, run, issued - 1);
    ReachIs(lba, count, run, issued - 1);
    ReachIs(lba, count, run, issued);
  }

  lemma ReadByBytes(d: seq<byte>, was: seq<byte>, now: seq<byte>, lba: nat, count: nat, run: nat, issued: nat, ok: bool)
    requires run > 0 && count > 0 && 512 * count <= |was| && ReadBy(d, was, now, lba, count, run, issued, ok)
    ensures 1 <= issued <= |Commands(lba, count, run)| && (ok ==> issued == |Commands(lba, count, run)|)
    ensures InBuffer(d, was, now, lba, count, Commands(lba, count, run)[issued - 1], ok)
    ensures Commands(lba, count, run)[issued - 1].lba + Commands(lba, count, run)[issued - 1].count
         == lba + Reach(Commands(lba, count, run), issued)
  {
    hide Commands, ReadSoFar, Reach;
    LastCommand(lba, count, run, issued);
    var last := Commands(lba, count, run)[issued - 1];
    BufferHolds(d, was, now, lba, count, last, ok);
  }

  lemma BufferHolds(d: seq<byte>, was: seq<byte>, now: seq<byte>, lba: nat, count: nat, last: Command, ok: bool)
    requires 512 * count <= |was| && lba <= last.lba && last.lba + last.count <= lba + count
    requires if ok then last.lba + last.count == lba + count && ReadSoFar(d, was, now, lba, count)
             else ReadSoFar(d, was, now, lba, last.lba - lba, last.count)
    ensures InBuffer(d, was, now, lba, count, last, ok)
  {
    hide ReadSoFar;
    if ok {
      SoFarByBytes(d, was, now, lba, count, 0);
    } else {
      SoFarByBytes(d, was, now, lba, last.lba - lba, last.count);
    }
  }

  lemma SoFarByBytes(d: seq<byte>, was: seq<byte>, now: seq<byte>, lba: nat, done: nat, torn: nat)
    requires ReadSoFar(d, was, now, lba, done, torn)
    ensures |now| == |was| && 512 * (done + torn) <= |was| && (done > 0 ==> 512 * (lba + done) <= |d|)
    ensures forall i :: 0 <= i < 512 * done ==> now[i] == d[512 * lba + i]
    ensures forall i :: 512 * (done + torn) <= i < |now| ==> now[i] == was[i]
  {
    if done > 0 {
      forall i | 0 <= i < 512 * done
        ensures now[i] == d[512 * lba + i]
      {
        assert now[i] == now[..SECTOR * done][i] == Sectors(d, lba, done)[i];
      }
    }
  }

  lemma WrittenByBytes(was: seq<byte>, now: seq<byte>, lba: nat, count: nat, run: nat, data: seq<byte>, issued: nat, ok: bool)
    requires run > 0 && count > 0 && |data| == 512 * count && WrittenBy(was, now, lba, count, run, data, issued, ok)
    ensures 1 <= issued <= |Commands(lba, count, run)| && (ok ==> issued == |Commands(lba, count, run)|)
    ensures OnDisk(was, now, lba, count, Commands(lba, count, run)[issued - 1], data, ok)
    ensures Commands(lba, count, run)[issued - 1].lba + Commands(lba, count, run)[issued - 1].count
         == lba + Reach(Commands(lba, count, run), issued)
  {
    hide Commands, Reach, Splice, LeadingDone;
    LastCommand(lba, count, run, issued);
    DiskHolds(was, now, lba, count, Commands(lba, count, run)[issued - 1], data, ok);
  }

  lemma DiskHolds(was: seq<byte>, now: seq<byte>, lba: nat, count: nat, last: Command, data: seq<byte>, ok: bool)
    requires |data| == 512 * count && lba <= last.lba && last.lba + last.count <= lba + count
    requires if ok then SECTOR * lba + |data| <= |was| && now == Splice(was, SECTOR * lba, data)
             else LeadingDone(was, now, lba, last, data)
    ensures OnDisk(was, now, lba, count, last, data, ok)
  {}

  /** The buffer, having been `was`, holds the first `done` sectors and is else as it
      was; that much, or when `torn` that and `torn` sectors of anything. */
  ghost predicate ReadSoFar(d: seq<byte>, was: seq<byte>, now: seq<byte>, lba: nat, done: nat, torn: nat := 0) {
    && SECTOR * (done + torn) <= |was| && Untouched(was, now, 0, SECTOR * (done + torn))
    && (done > 0 ==> Has(d, lba, done) && now[..SECTOR * done] == Sectors(d, lba, done))
  }

  /** How a read of `count` sectors went: all of them are in the buffer, or those
      asked for before the command that failed, and past that command it is as it
      was. */
  ghost predicate ReadBy(d: seq<byte>, was: seq<byte>, now: seq<byte>,
                         lba: nat, count: nat, run: nat, issued: nat, ok: bool)
    requires run > 0
  {
    var cs := Commands(lba, count, run);
    && 1 <= issued <= |cs|
    && if ok then issued == |cs| && ReadSoFar(d, was, now, lba, count)
       else ReadSoFar(d, was, now, lba, Reach(cs, issued - 1), cs[issued - 1].count)
  }

  lemma NoneRead(d: seq<byte>, was: seq<byte>, lba: nat)
    ensures ReadSoFar(d, was, was, lba, 0)
  {}

  lemma ReadNext(d: seq<byte>, was: seq<byte>, mid: seq<byte>, now: seq<byte>, lba: nat, done: nat, n: nat, ok: bool)
    requires ReadSoFar(d, was, mid, lba, done) && SECTOR * (done + n) <= |was| && n > 0
    requires Untouched(mid, now, SECTOR * done, SECTOR * (done + n))
    requires ok ==> Has(d, lba + done, n) && now[SECTOR * done..SECTOR * (done + n)] == Sectors(d, lba + done, n)
    ensures if ok then ReadSoFar(d, was, now, lba, done + n) else ReadSoFar(d, was, now, lba, done, n)
  {
    assert now[..SECTOR * done] == mid[..SECTOR * done];
    if ok {
      assert now[..SECTOR * (done + n)] == now[..SECTOR * done] + now[SECTOR * done..SECTOR * (done + n)];
    }
  }

  lemma ReadEnds(d: seq<byte>, was: seq<byte>, now: seq<byte>, lba: nat, count: nat, run: nat, issued: nat, ok: bool)
    requires run > 0 && 1 <= issued <= |Commands(lba, count, run)|
    requires var cs := Commands(lba, count, run);
      if ok then issued == |cs| && ReadSoFar(d, was, now, lba, count)
      else ReadSoFar(d, was, now, lba, Reach(cs, issued - 1), cs[issued - 1].count)
    ensures ReadBy(d, was, now, lba, count, run, issued, ok)
  {
    hide ReadSoFar, Commands, Reach;
  }

  /** How a write of `data` went. */
  ghost predicate WrittenBy(was: seq<byte>, now: seq<byte>, lba: nat, count: nat, run: nat, data: seq<byte>,
                            issued: nat, ok: bool)
    requires run > 0
  {
    var cs := Commands(lba, count, run);
    && 1 <= issued <= |cs|
    && if ok then
         issued == |cs| && SECTOR * lba + |data| <= |was| && now == Splice(was, SECTOR * lba, data)
       else
         LeadingDone(was, now, lba, cs[issued - 1], data)
  }

  lemma NothingYet(cs: seq<Command>, sectors: nat)
    requires sectors < TWO_64
    ensures cs[0..] == cs && Reach(cs, 0) == 0 && Wrap64(sectors) == sectors
    ensures forall write :: Answered(write, cs, 0, true) == []
  {}

  lemma Wrap64Adds(sectors: nat, done: nat, n: nat)
    ensures Wrap64(Wrap64(sectors + done) + n) == Wrap64(sectors + (done + n))
  {}

  // ----- runs of the layer -----

  /** What is asked of the layer. */
  datatype Ask =
    | Read(id: nat, lba: nat, count: nat, buf: array<byte>)
    | Write(id: nat, lba: nat, count: nat, buf: array<byte>)
    | Register(dev: Driver?)
    | Unregister(id: nat)

  /** The devices by number, and what every disk that is or will be one holds. */
  datatype State = State(devs: seq<Driver?>, disks: map<Driver, seq<byte>>)

  ghost function Now(l: Layer, drivers: set<Driver>): State
    reads l, l.devices, drivers
  {
    State(l.devices[..], map d | d in drivers :: d.bytes)
  }

  /** What was asked takes `s` to `t` with `issued` write commands. */
  ghost predicate Step(s: State, a: Ask, t: State, issued: nat) {
    match a
    case Read(_, _, _, _) => t == s && issued == 0
    case Register(dev) => t.disks == s.disks && issued == 0 && IsRegistered(s.devs, dev, t.devs)
    case Unregister(id) => t == s.(devs := if id < |s.devs| then s.devs[id := null] else s.devs) && issued == 0
    case Write(id, lba, count, _) =>
      var d := if id < |s.devs| then s.devs[id] else null;
      var run := RunFor(d, d != null && d.canWrite, count);
      if run == 0 then t == s && issued == 0
      else
        && d in s.disks && d in t.disks && t == s.(disks := s.disks[d := t.disks[d]])
        && Wrote(s.disks[d], t.disks[d], lba, count, run, issued)
  }

  /** Some sectors were written, well or not. */
  ghost predicate Wrote(was: seq<byte>, now: seq<byte>, lba: nat, count: nat, run: nat, issued: nat)
    requires run > 0
  {
    exists data, ok :: |data| == SECTOR * count && WrittenBy(was, now, lba, count, run, data, issued, ok)
  }

  /** The device has the lowest free number, if there is a device and a number. */
  ghost predicate IsRegistered(was: seq<Driver?>, dev: Driver?, now: seq<Driver?>) {
    if dev == null || null !in was then now == was
    else exists id :: 0 <= id < |was| && was[id] == null && null !in was[..id] && now == was[id := dev]
  }

  ghost predicate IsRun(ss: seq<State>, asks: seq<Ask>, issued: seq<nat>) {
    |ss| == |asks| + 1 && |issued| == |asks|
    && forall k :: 0 <= k < |asks| ==> Step(ss[k], asks[k], ss[k + 1], issued[k])
  }

  function Sum(ns: seq<nat>): nat
    decreases |ns|
  {
    if ns == [] then 0 else Sum(ns[..|ns| - 1]) + ns[|ns| - 1]
  }

  /** Any requests, one after the other, to devices that come and go: a run. */
  method Serve(l: Layer, asks: seq<Ask>, drivers: set<Driver>, bufs: set<array<byte>>)
    returns (ghost ss: seq<State>, ghost issued: seq<nat>)
    requires Ready(l, drivers)
    requires forall k :: 0 <= k < |asks| ==> Askable(asks[k], drivers, bufs)
    modifies l, l.devices, drivers, bufs
    ensures Ready(l, drivers) && IsRun(ss, asks, issued)
    ensures ss[0] == old(Now(l, drivers)) && ss[|asks|] == Now(l, drivers)
    ensures l.writesEver == old(l.writesEver) + Sum(issued)
    ensures Sum(issued) < TWO_32 && (exists d :: d in drivers && d.bytes != old(d.bytes)) ==> l.ioWrites != old(l.ioWrites)
  {
    hide IsRun, Step, Sum, Wrap32, Askable;
    ss, issued := [Now(l, drivers)], [];
    ghost var ever := l.writesEver;
    RunStarts(Now(l, drivers));
    assert asks[..0] == [];
    for k := 0 to |asks|
      invariant Ready(l, drivers)
      invariant IsRun(ss, asks[..k], issued) && |ss| == k + 1
      invariant ss[0] == old(Now(l, drivers)) && ss[k] == Now(l, drivers)
      invariant l.writesEver == ever + Sum(issued)
    {
      ghost var n := One(l, asks[k], drivers, bufs);
      RunGrows(ss, asks[..k], issued, asks[k], Now(l, drivers), n);
      assert asks[..k] + [asks[k]] == asks[..k + 1];
      ss, issued := ss + [Now(l, drivers)], issued + [n];
    }
    assert asks[..|asks|] == asks;
    GenerationMoves(ss, asks, issued, ever);
    if d :| d in drivers && d.bytes != old(d.bytes) {
      assert ss[|asks|].disks[d] != ss[0].disks[d];
    }
  }

  predicate Askable(a: Ask, drivers: set<Driver>, bufs: set<array<byte>>) {
    match a
    case Read(_, lba, count, buf) => buf in bufs && lba < TWO_32 && SECTOR * count <= buf.Length
    case Write(_, lba, count, buf) => buf in bufs && lba < TWO_32 && SECTOR * count <= buf.Length
    case Register(dev) => dev == null || dev in drivers
    case Unregister(_) => true
  }

  ghost predicate Ready(l: Layer, drivers: set<Driver>)
    reads l, l.devices, drivers
  {
    && l.Valid() && (forall d :: d in l.devices[..] && d != null ==> d in drivers)
    && forall d :: d in drivers ==> d.Sound()
  }

  /** One request, and the step it is. */
  method One(l: Layer, a: Ask, drivers: set<Driver>, bufs: set<array<byte>>) returns (ghost issued: nat)
    requires Ready(l, drivers) && Askable(a, drivers, bufs)
    modifies l, l.devices, drivers, bufs
    ensures Ready(l, drivers) && l.writesEver == old(l.writesEver) + issued
    ensures Step(old(Now(l, drivers)), a, Now(l, drivers), issued)
  {
    hide Commands, Wrap32, WrittenBy, ReadBy, Answered, Reach, IsRegistered;
    ghost var was := Now(l, drivers);
    issued := 0;
    match a {
      case Read(id, lba, count, buf) =>
        assert l.DevAt(id) != null ==> l.DevAt(id) in l.devices[..];
        var ok;
        ghost var n;
        ok, n := l.ReadOn(id, lba, count, buf);
        assert Now(l, drivers) == old(Now(l, drivers));
      case Write(id, lba, count, buf) =>
        issued := OneWrite(l, id, lba, count, buf, drivers);
      case Register(dev) =>
        var id := l.Register(dev);
        assert Now(l, drivers).disks == was.disks;
        RegisterIsStep(was, dev, id, l.devices[..]);
      case Unregister(id) =>
        l.Unregister(id);
        assert Now(l, drivers).disks == old(Now(l, drivers)).disks;
    }
  }

  method OneWrite(l: Layer, id: nat, lba: nat, count: nat, buf: array<byte>, drivers: set<Driver>)
    returns (ghost issued: nat)
    requires Ready(l, drivers) && lba < TWO_32 && SECTOR * count <= buf.Length
    modifies l, l.devices, drivers
    ensures Ready(l, drivers) && l.writesEver == old(l.writesEver) + issued
    ensures Step(old(Now(l, drivers)), Ask.Write(id, lba, count, buf), Now(l, drivers), issued)
  {
    hide Commands, Wrap32, WrittenBy, Answered, Reach;
    var d := l.DevAt(id);
    assert d != null ==> d in l.devices[..];
    ghost var was := Now(l, drivers);
    var ok;
    ok, issued := l.WriteOn(id, lba, count, buf);
    ghost var now := Now(l, drivers);
    assert now.devs == was.devs;
    var run := RunFor(d, d != null && d.canWrite, count);
    if run == 0 {
      assert now.disks == was.disks;
    } else {
      WrittenSameSize(was.disks[d], now.disks[d], lba, count, run, buf[..SECTOR * count], issued, ok);
      assert now == was.(disks := was.disks[d := now.disks[d]]);
      WriteIsStep(was, id, lba, count, buf, now.disks[d], buf[..SECTOR * count], issued, ok);
    }
  }

  lemma WriteIsStep(s: State, id: nat, lba: nat, count: nat, buf: array<byte>, after: seq<byte>,
                    data: seq<byte>, issued: nat, ok: bool)
    requires id < |s.devs| && s.devs[id] in s.disks && |data| == SECTOR * count
    requires var d := s.devs[id];
      var run := RunFor(d, d != null && d.canWrite, count);
      run > 0 && WrittenBy(s.disks[d], after, lba, count, run, data, issued, ok)
    ensures Step(s, Ask.Write(id, lba, count, buf), s.(disks := s.disks[s.devs[id] := after]), issued)
  {
    hide WrittenBy;
    var d, t := s.devs[id], s.(disks := s.disks[s.devs[id] := after]);
    var run := RunFor(d, d != null && d.canWrite, count);
    assert WrittenBy(s.disks[d], t.disks[d], lba, count, run, data, issued, ok);
    assert t == s.(disks := s.disks[d := t.disks[d]]);
  }

  lemma RegisterIsStep(s: State, dev: Driver?, id: nat, devs: seq<Driver?>)
    requires |s.devs| == BLK_MAX && (id == BLK_NONE || (id < BLK_MAX && dev != null && s.devs[id] == null))
    requires id == BLK_NONE ==> dev == null || forall i :: 0 <= i < BLK_MAX ==> s.devs[i] != null
    requires devs == if id == BLK_NONE then s.devs else s.devs[id := dev]
    requires id != BLK_NONE ==> forall i :: 0 <= i < id ==> devs[i] != null
    ensures Step(s, Ask.Register(dev), s.(devs := devs), 0)
  {
    if id != BLK_NONE {
      assert s.devs[id] in s.devs;
      forall i | 0 <= i < id
        ensures s.devs[i] != null
      {
        assert devs[i] == s.devs[i];
      }
      assert null !in s.devs[..id];
    }
  }

  lemma WrittenSameSize(was: seq<byte>, now: seq<byte>, lba: nat, count: nat, run: nat, data: seq<byte>, issued: nat, ok: bool)
    requires run > 0 && WrittenBy(was, now, lba, count, run, data, issued, ok)
    ensures |now| == |was| && issued > 0
  {
    hide Commands;
  }

  lemma RunStarts(s: State)
    ensures IsRun([s], [], []) && Sum([]) == 0
  {}

  lemma RunGrows(ss: seq<State>, asks: seq<Ask>, issued: seq<nat>, a: Ask, t: State, n: nat)
    requires IsRun(ss, asks, issued) && Step(ss[|asks|], a, t, n)
    ensures IsRun(ss + [t], asks + [a], issued + [n]) && |ss| == |asks| + 1 && Sum(issued + [n]) == Sum(issued) + n
  {
    hide Step;
    assert (issued + [n])[..|issued|] == issued;
  }

  lemma BufferPiece(buf: array<byte>, n: nat, p: nat, q: nat)
    requires p <= q <= n <= buf.Length
    ensures buf[..n][p..q] == buf[p..q]
  {}

  lemma Fits32(n: nat)
    ensures n < TWO_32 ==> Wrap32(n) == n
  {}

  lemma NoCommands(lba: nat, run: nat)
    requires run > 0
    ensures Commands(lba, 0, run) == []
  {}

  lemma CommandsStep(lba: nat, left: nat, run: nat, n: nat)
    requires run > 0 && left > 0 && n == if left < run then left else run
    ensures Commands(lba, left, run) == [Command(lba, n)] + Commands(lba + n, left - n, run)
  {}

  lemma NextCommand(cs: seq<Command>, k: nat, c: Command, rest: seq<Command>)
    requires k <= |cs| && cs[k..] == [c] + rest
    ensures k < |cs| && cs[k] == c && cs[k + 1..] == rest && Reach(cs, k + 1) == Reach(cs, k) + c.count
  {
    assert cs[k] == cs[k..][0];
    assert cs[k + 1..] == cs[k..][1..];
  }

  /** The sectors done so far, and `data` the whole of what is to be written. */
  function DoneSoFar(was: seq<byte>, lba: nat, done: nat, data: seq<byte>): (r: seq<byte>)
    requires SECTOR * done <= |data| && (done > 0 ==> Has(was, lba, done))
    ensures |r| == |was|
  {
    if done > 0 then Splice(was, SECTOR * lba, data[..SECTOR * done]) else was
  }

  ghost predicate WrittenSoFar(was: seq<byte>, now: seq<byte>, lba: nat, done: nat, count: nat, data: seq<byte>) {
    && done <= count && |data| == SECTOR * count && (done > 0 ==> Has(was, lba, done))
    && now == DoneSoFar(was, lba, done, data)
  }

  lemma NoneDone(was: seq<byte>, lba: nat, count: nat, data: seq<byte>)
    requires |data| == SECTOR * count
    ensures WrittenSoFar(was, was, lba, 0, count, data)
  {}

  lemma AllDone(was: seq<byte>, now: seq<byte>, lba: nat, count: nat, run: nat, data: seq<byte>)
    requires run > 0 && count > 0 && WrittenSoFar(was, now, lba, count, count, data)
    ensures WrittenBy(was, now, lba, count, run, data, |Commands(lba, count, run)|, true)
  {
    hide Commands;
    CommandsCover(lba, count, run);
    assert data[..SECTOR * count] == data;
  }

  lemma WriteFails(was: seq<byte>, now: seq<byte>, lba: nat, count: nat, run: nat, data: seq<byte>, issued: nat)
    requires run > 0 && 1 <= issued <= |Commands(lba, count, run)|
    requires LeadingDone(was, now, lba, Commands(lba, count, run)[issued - 1], data)
    ensures WrittenBy(was, now, lba, count, run, data, issued, false)
  {
    hide Commands, LeadingDone;
  }

  lemma WriteNext(was: seq<byte>, mid: seq<byte>, now: seq<byte>, lba: nat, done: nat, n: nat, count: nat, data: seq<byte>)
    requires n > 0 && WrittenSoFar(was, mid, lba, done, count, data) && done + n <= count && Has(mid, lba + done, n)
    requires now == Splice(mid, SECTOR * (lba + done), data[SECTOR * done..SECTOR * (done + n)])
    ensures WrittenSoFar(was, now, lba, done + n, count, data) && |now| == |was|
  {
    hide Splice;
    var piece := data[SECTOR * done..SECTOR * (done + n)];
    assert data[..SECTOR * (done + n)] == data[..SECTOR * done] + piece;
    if done > 0 {
      SpliceTwice(was, SECTOR * lba, data[..SECTOR * done], piece);
    } else {
      assert data[..SECTOR * n] == piece;
    }
  }

  lemma FailedAfter(was: seq<byte>, mid: seq<byte>, now: seq<byte>, lba: nat, done: nat, n: nat, count: nat, data: seq<byte>)
    requires WrittenSoFar(was, mid, lba, done, count, data) && done + n <= count
    requires Untouched(mid, now, SECTOR * (lba + done), SECTOR * (lba + done + n))
    ensures LeadingDone(was, now, lba, Command(lba + done, n), data)
  {
    forall i | 0 <= i < |was| && !(SECTOR * (lba + done) <= i < SECTOR * (lba + done + n))
      ensures now[i] == if SECTOR * lba <= i < SECTOR * (lba + done) then data[i - SECTOR * lba] else was[i]
    {
      assert now[i] == mid[i];
    }
  }

  /** Everything before the command that failed is in place, and nothing outside
      it and those has changed. */
  ghost predicate LeadingDone(was: seq<byte>, now: seq<byte>, lba: nat, failed: Command, data: seq<byte>) {
    |now| == |was| && failed.lba >= lba &&
    var done := SECTOR * (failed.lba - lba);
    && done <= |data| && (failed.lba > lba ==> Has(was, lba, failed.lba - lba))
    && forall i :: 0 <= i < |was| && !(SECTOR * failed.lba <= i < SECTOR * (failed.lba + failed.count)) ==>
         now[i] == if SECTOR * lba <= i < SECTOR * failed.lba then data[i - SECTOR * lba] else was[i]
  }

  // ----- the count of writes as a generation -----

  /** No command issued, no disk changed. */
  lemma {:induction false} QuietRun(ss: seq<State>, asks: seq<Ask>, issued: seq<nat>)
    requires IsRun(ss, asks, issued) && Sum(issued) == 0
    ensures ss[|asks|].disks == ss[0].disks
    decreases |asks|
  {
    hide WrittenBy, IsRegistered;
    if asks != [] {
      var n := |asks| - 1;
      assert Step(ss[n], asks[n], ss[n + 1], issued[n]);
      if ss[n + 1].disks != ss[n].disks {
        ChangeIssues(ss[n], asks[n], ss[n + 1], issued[n]);
      }
      QuietRun(ss[..n + 1], asks[..n], issued[..n]);
    }
  }

  lemma ChangeIssues(s: State, a: Ask, t: State, issued: nat)
    requires Step(s, a, t, issued) && t.disks != s.disks
    ensures issued > 0
  {
    hide Commands, WrittenBy, IsRegistered;
    match a
    case Write(id, lba, count, _) =>
      var d := s.devs[id];
      var run := RunFor(d, d.canWrite, count);
      var data, ok :| |data| == SECTOR * count && WrittenBy(s.disks[d], t.disks[d], lba, count, run, data, issued, ok);
      WrittenSameSize(s.disks[d], t.disks[d], lba, count, run, data, issued, ok);
    case _ =>
  }

  lemma WrapExactly(w: nat, k: nat)
    ensures Wrap32(w + k) == Wrap32(w) <==> k % TWO_32 == 0
  {}

  /** The count has moved unless a whole multiple of 2^32 commands were issued, so
      over fewer than that many a disk that differs is always noticed: what a
      cache keyed on the count relies on. */
  lemma GenerationMoves(ss: seq<State>, asks: seq<Ask>, issued: seq<nat>, writesEver: nat)
    requires IsRun(ss, asks, issued)
    ensures Wrap32(writesEver + Sum(issued)) != Wrap32(writesEver) <==> Sum(issued) % TWO_32 != 0
    ensures ss[|asks|].disks != ss[0].disks && Sum(issued) < TWO_32
        ==> Wrap32(writesEver + Sum(issued)) != Wrap32(writesEver)
  {
    hide Wrap32, IsRun;
    WrapExactly(writesEver, Sum(issued));
    if Sum(issued) == 0 {
      QuietRun(ss, asks, issued);
    }
  }

  /** At 2^32 commands it is not: two requests of 2^31 sectors to a disk whose driver
      takes one at a time, and the count stands where it stood. */
  lemma GenerationStandsStill(d: Driver, buf: array<byte>, writesEver: nat)
    returns (ss: seq<State>, asks: seq<Ask>, issued: seq<nat>)
    requires d.canWrite && d.maxRun == Some(1)
    ensures IsRun(ss, asks, issued) && Sum(issued) == TWO_32 && ss[|asks|].disks != ss[0].disks
    ensures Wrap32(writesEver + Sum(issued)) == Wrap32(writesEver)
  {
    var n: nat := 0x8000_0000;
    var old': seq<byte>, new': seq<byte> := Zeros(SECTOR * n), seq(SECTOR * n, _ => 1);
    assert old'[0] == 0 && new'[0] == 1;
    ss, asks, issued := WrittenTwice(d, buf, n, old', new');
    assert ss[0].disks[d][0] == 0 && ss[|asks|].disks[d][0] == 1;
    WrapExactly(writesEver, TWO_32);
  }

  /** A whole disk written twice, a sector at a time. */
  lemma WrittenTwice(d: Driver, buf: array<byte>, n: nat, was: seq<byte>, data: seq<byte>)
    returns (ss: seq<State>, asks: seq<Ask>, issued: seq<nat>)
    requires d.canWrite && d.maxRun == Some(1) && n > 0 && |was| == |data| == SECTOR * n
    ensures IsRun(ss, asks, issued) && Sum(issued) == n + n
    ensures ss[|asks|].disks == map[d := data] && ss[0].disks == map[d := was]
  {
    hide WrittenBy, Step;
    var s, t := State([d], map[d := was]), State([d], map[d := data]);
    ss, asks, issued := [s, t, t], [Write(0, 0, n, buf), Write(0, 0, n, buf)], [n, n];
    WholeDisk(was, data, n);
    WholeDisk(data, data, n);
    WriteIsStep(s, 0, 0, n, buf, data, data, n, true);
    WriteIsStep(t, 0, 0, n, buf, data, data, n, true);
    assert t == s.(disks := s.disks[d := data]) && t == t.(disks := t.disks[d := data]);
    StepsTwice(ss, asks, issued);
    SumOfTwo(n);
  }

  /** A disk written from end to end, a sector at a time. */
  lemma WholeDisk(was: seq<byte>, data: seq<byte>, n: nat)
    requires n > 0 && |was| == |data| == SECTOR * n
    ensures WrittenBy(was, data, 0, n, 1, data, n, true)
  {
    hide Commands;
    CommandsCover(0, n, 1);
    assert Splice(was, 0, data) == data;
  }

  lemma StepsTwice(ss: seq<State>, asks: seq<Ask>, issued: seq<nat>)
    requires |ss| == 3 && |asks| == |issued| == 2
    requires Step(ss[0], asks[0], ss[1], issued[0]) && Step(ss[1], asks[1], ss[2], issued[1])
    ensures IsRun(ss, asks, issued)
  {
    hide Step;
  }

  lemma SumOfTwo(n: nat)
    ensures Sum([n, n]) == n + n
  {
    var ns := [n, n];
    assert ns[..1] == [n] && [n][..0] == [];
    assert Sum([n]) == n;
  }

  /** One request never wraps the count all the way round: it has fewer sectors
      than that, and no more commands than sectors. */
  lemma OneRequestMoves(lba: nat, count: nat, run: nat, issued: nat, writesEver: nat)
    requires run > 0 && count < TWO_32 && 1 <= issued <= |Commands(lba, count, run)|
    ensures Wrap32(writesEver + issued) != Wrap32(writesEver)
  {
    hide Wrap32, Commands;
    CommandsCover(lba, count, run);
    WrapExactly(writesEver, issued);
  }
}
