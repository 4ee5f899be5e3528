/** The black box as a state machine over the machine's memory and its disk, and
    what holds of every run: what recovering gives back, what is ever written
    to, and how boots are counted. */
module BlackBoxRuns {
  import opened Bytes
  import opened Record
  import opened LogText
  import opened LogDisk
  import opened SectorBytes

  /** What `blackbox.c` keeps in memory. */
  datatype Ram = Ram(text: seq<byte>, boot: nat, counted: bool, saved: Option<seq<byte>>)

  /** One call of `bb_flush`: the volume it is about, whether the reads its
      checks make succeed, whether the count's read does, the bytes behind the
      text in the last sector, and how the write went. */
  datatype Attempt = Attempt(base: nat, readsOk: bool, countReadOk: bool, slack: seq<byte>, outcome: Outcome)

  datatype Flushed = Flushed(ram: Ram, disk: seq<byte>, ok: bool)

  predicate ValidRam(r: Ram) {
    |r.text| <= FULL
  }

  predicate ValidAttempt(a: Attempt) {
    |a.slack| == SECTOR && Possible(a.outcome)
  }

  /** The sectors a record of this text takes. */
  function SecsFor(text: seq<byte>): nat {
    (HEAD + |text| + 511) / 512
  }

  function RecordBytes(boot: nat, text: seq<byte>, slack: seq<byte>): (r: seq<byte>)
    requires |text| <= FULL && |slack| == SECTOR
    ensures |r| == SECTOR * SecsFor(text) && SECTOR <= |r| <= BB_BYTES
    ensures r[..HEAD] == Head(boot, text) && r[HEAD..HEAD + |text|] == text
  {
    hide Head;
    SecsBound(text);
    var r := Head(boot, text) + text + slack[..SECTOR * SecsFor(text) - HEAD - |text|];
    assert r[HEAD..HEAD + |text|] == text;
    r
  }

  lemma SecsBound(text: seq<byte>)
    requires |text| <= FULL
    ensures 1 <= SecsFor(text) <= BB_SECTORS
    ensures HEAD + |text| <= SECTOR * SecsFor(text) <= HEAD + |text| + SECTOR
  {}

  function DiskBootAt(d: seq<byte>, lba: nat): nat
    requires Has(d, lba, 1)
  {
    var s := Sectors(d, lba, 1);
    if Magic(s) == BB_MAGIC then Boot(s) else 0
  }

  /** The number of this boot, as a flush about to write works it out. */
  function BootFor(r: Ram, d: seq<byte>, a: Attempt): nat
    requires Writable(d, a.base)
  {
    if r.counted then r.boot
    else ((if a.countReadOk then DiskBootAt(d, LogAt(d, a.base).value) else 0) + 1) % TWO_32
  }

  function FlushStep(r: Ram, d: seq<byte>, a: Attempt): (f: Flushed)
    requires ValidRam(r) && ValidAttempt(a)
    ensures |f.disk| == |d| && ValidRam(f.ram)
  {
    if !a.readsOk || !Writable(d, a.base) then Flushed(r, d, false)
    else
      var lba, boot := LogAt(d, a.base).value, BootFor(r, d, a);
      var data := RecordBytes(boot, r.text, a.slack);
      Flushed(r.(boot := boot, counted := true), WriteStep(d, lba, data, a.outcome), Done(d, lba, data, a.outcome))
  }

  /** `bb_recover`, whose own line of log is whatever was formatted. */
  function RecoverStep(r: Ram, d: seq<byte>, base: nat, readsOk: bool, line: seq<byte>): Ram {
    if readsOk && LogAt(d, base).Some? && Has(d, LogAt(d, base).value, BB_SECTORS) then
      match Parse(Sectors(d, LogAt(d, base).value, BB_SECTORS))
      case None => r.(saved := None)
      case Some(t) => r.(saved := Some(t), text := LogText.Append(r.text, line))
    else
      r.(saved := None)
  }

  // ----- a record written is a record recovered -----

  /** A flush succeeds exactly when its checks' reads do, the volume is one of ours
      with a free region, and the write of as many sectors as the text needs goes
      through on a disk that has them. */
  lemma FlushOkExactly(r: Ram, d: seq<byte>, a: Attempt)
    requires ValidRam(r) && ValidAttempt(a)
    ensures FlushStep(r, d, a).ok <==>
      a.readsOk && Writable(d, a.base) && a.outcome.Written? && Has(d, LogAt(d, a.base).value, SecsFor(r.text))
  {
    hide LogAt, IsFree, BootFor, Splice, Head;
  }

  /** What a flush that reports success did. */
  lemma FlushDid(r: Ram, d: seq<byte>, a: Attempt)
    requires ValidRam(r) && ValidAttempt(a) && FlushStep(r, d, a).ok
    ensures Writable(d, a.base)
    ensures var at, data := SECTOR * LogAt(d, a.base).value, RecordBytes(BootFor(r, d, a), r.text, a.slack);
      at + |data| <= |d| && FlushStep(r, d, a).disk == Splice(d, at, data)
  {
    hide LogAt, IsFree, BootFor, RecordBytes, Splice;
  }

  /** A flush that reports success wrote a record from which the text comes back
      exactly: after any reboot, whatever older and longer record lay there. */
  lemma FlushThenRecover(r: Ram, d: seq<byte>, a: Attempt, r': Ram, line: seq<byte>)
    requires ValidRam(r) && ValidAttempt(a) && FlushStep(r, d, a).ok
    requires LogAt(d, a.base).Some? && Has(d, LogAt(d, a.base).value, BB_SECTORS)
    ensures RecoverStep(r', FlushStep(r, d, a).disk, a.base, true, line).saved == Some(r.text)
  {
    hide LogAt, IsFree, BootFor, RecordBytes, Splice, FlushStep, Head, Parse, Sectors;
    FlushDid(r, d, a);
    RecordOnDisk(r, d, a);
    var lba, d' := LogAt(d, a.base).value, FlushStep(r, d, a).disk;
    ParseRecord(BootFor(r, d, a), r.text, Sectors(d', lba, BB_SECTORS));
  }

  lemma RecordOnDisk(r: Ram, d: seq<byte>, a: Attempt)
    requires ValidRam(r) && ValidAttempt(a) && FlushStep(r, d, a).ok && Writable(d, a.base)
    requires Has(d, LogAt(d, a.base).value, BB_SECTORS)
    ensures var d', lba := FlushStep(r, d, a).disk, LogAt(d, a.base).value;
      && |d'| == |d| && LogAt(d', a.base) == Some(lba)
      && var s := Sectors(d', lba, BB_SECTORS);
         s[..HEAD] == Head(BootFor(r, d, a), r.text) && s[HEAD..HEAD + |r.text|] == r.text
  {
    hide FlushStep, BootFor, RecordBytes, Head;
    FlushDid(r, d, a);
    var data := RecordBytes(BootFor(r, d, a), r.text, a.slack);
    SecsBound(r.text);
    SplicedRecord(d, a.base, data, |r.text|);
  }

  /** A record spliced in at the log is read back from there, and the log is
      still there. */
  lemma SplicedRecord(d: seq<byte>, base: nat, data: seq<byte>, n: nat)
    requires LogAt(d, base).Some? && Has(d, LogAt(d, base).value, BB_SECTORS)
    requires HEAD + n <= |data| <= BB_BYTES
    ensures var lba := LogAt(d, base).value;
      var d' := Splice(d, SECTOR * lba, data);
      && LogAt(d', base) == Some(lba)
      && var s := Sectors(d', lba, BB_SECTORS);
         s[..HEAD] == data[..HEAD] && s[HEAD..HEAD + n] == data[HEAD..HEAD + n]
  {
    hide BootIsOurs, Splice;
    var lba := LogAt(d, base).value;
    var d', at := Splice(d, SECTOR * lba, data), SECTOR * lba;
    SpliceSame(d, at, data, SECTOR * base, SECTOR * (base + 1));
    LogAtStays(d, d', base);
    SpliceInside(d, at, data, at, at + HEAD);
    SpliceInside(d, at, data, at + HEAD, at + HEAD + n);
    SliceOfSlice(d', at, at + BB_BYTES, 0, HEAD);
    SliceOfSlice(d', at, at + BB_BYTES, HEAD, HEAD + n);
  }

  /** One byte of the text changed on the disk since, and nothing is recovered. */
  lemma TornTextRefused(r: Ram, d: seq<byte>, a: Attempt, i: nat, b: byte, r': Ram, line: seq<byte>)
    requires ValidRam(r) && ValidAttempt(a) && FlushStep(r, d, a).ok
    requires LogAt(d, a.base).Some? && Has(d, LogAt(d, a.base).value, BB_SECTORS) && i < |r.text| && b != r.text[i]
    ensures var at := SECTOR * LogAt(d, a.base).value + HEAD + i;
      RecoverStep(r', FlushStep(r, d, a).disk[at := b], a.base, true, line).saved == None
  {
    hide LogAt, IsFree, BootFor, RecordBytes, Splice, FlushStep, Head, Parse;
    FlushDid(r, d, a);
    RecordOnDisk(r, d, a);
    var d', lba := FlushStep(r, d, a).disk, LogAt(d, a.base).value;
    var s := Sectors(d', lba, BB_SECTORS);
    ParseRecord(BootFor(r, d, a), r.text, s);
    assert s[HEAD + i] == s[HEAD..HEAD + |r.text|][i];
    OneByteRejected(s, HEAD + i, b);
    PokeLog(d', a.base, HEAD + i, b);
  }

  /** A byte changed in the log's region leaves the log where it is. */
  lemma PokeLog(d: seq<byte>, base: nat, i: nat, b: byte)
    requires LogAt(d, base).Some? && Has(d, LogAt(d, base).value, BB_SECTORS) && i < BB_BYTES
    ensures var lba := LogAt(d, base).value;
      var e := d[SECTOR * lba + i := b];
      LogAt(e, base) == Some(lba) && Sectors(e, lba, BB_SECTORS) == Sectors(d, lba, BB_SECTORS)[i := b]
  {
    hide BootIsOurs;
    var lba := LogAt(d, base).value;
    var e := d[SECTOR * lba + i := b];
    LogAtStays(d, e, base);
  }

  // ----- whole runs -----

  datatype Event =
    | Log(s: seq<byte>)
    | Flush(attempt: Attempt)
    | Recover(base: nat, readsOk: bool, line: seq<byte>)
    | Reboot(banner: seq<byte>)

  datatype Sys = Sys(ram: Ram, disk: seq<byte>)

  /** Memory as `bb_init` leaves it. */
  function Started(banner: seq<byte>): Ram {
    Ram(LogText.Append([], banner), 0, false, None)
  }

  ghost predicate ValidEvents(es: seq<Event>) {
    forall k :: 0 <= k < |es| && es[k].Flush? ==> ValidAttempt(es[k].attempt)
  }

  lemma {:induction false} AppendFits(t: seq<byte>, s: seq<byte>)
    requires |t| <= FULL
    ensures |LogText.Append(t, s)| <= FULL
    decreases |s|
  {
    if s != [] {
      var n := |s| - 1;
      AppendFits(t, s[..n]);
      var u := LogText.Append(t, s[..n]);
      if |u| + 1 >= BB_TEXT_MAX {
        DropExactly(u);
      }
    }
  }

  function Step(s: Sys, e: Event): (s': Sys)
    requires ValidRam(s.ram) && (e.Flush? ==> ValidAttempt(e.attempt))
    ensures ValidRam(s'.ram) && |s'.disk| == |s.disk|
  {
    match e
    case Log(text) =>
      AppendFits(s.ram.text, text);
      s.(ram := s.ram.(text := LogText.Append(s.ram.text, text)))
    case Flush(a) =>
      var f := FlushStep(s.ram, s.disk, a);
      Sys(f.ram, f.disk)
    case Recover(base, readsOk, line) =>
      AppendFits(s.ram.text, line);
      s.(ram := RecoverStep(s.ram, s.disk, base, readsOk, line))
    case Reboot(banner) =>
      AppendFits([], banner);
      Sys(Started(banner), s.disk)
  }

  ghost function Run(s: Sys, es: seq<Event>): (s': Sys)
    requires ValidRam(s.ram) && ValidEvents(es)
    ensures ValidRam(s'.ram) && |s'.disk| == |s.disk|
    decreases |es|
  {
    if es == [] then s else Step(Run(s, es[..|es| - 1]), es[|es| - 1])
  }

  // ----- what is ever written to -----

  /** A flush changes nothing but the log's region, and that only when the volume
      is one of ours and the region was free. */
  lemma FlushConfined(r: Ram, d: seq<byte>, a: Attempt, i: nat)
    requires ValidRam(r) && ValidAttempt(a) && i < |d|
    ensures FlushStep(r, d, a).disk[i] != d[i] ==> Writable(d, a.base) && InLog(d, a.base, i)
  {
    hide LogAt, IsFree, RecordBytes, BootFor;
  }

  /** Over any run, on any number of volumes: a byte that has changed was, at some
      flush, in the log's region of a volume of ours, and that region was free. */
  lemma {:induction false} RunChangesOnlyLogs(s: Sys, es: seq<Event>, i: nat)
    requires ValidRam(s.ram) && ValidEvents(es) && i < |s.disk|
    ensures Run(s, es).disk[i] != s.disk[i] ==>
      exists k :: 0 <= k < |es| && es[k].Flush? && Writable(Run(s, es[..k]).disk, es[k].attempt.base)
             && InLog(Run(s, es[..k]).disk, es[k].attempt.base, i)
    decreases |es|
  {
    hide FlushStep, Writable, InLog, RecoverStep;
    if es != [] {
      var n := |es| - 1;
      var p := es[..n];
      RunChangesOnlyLogs(s, p, i);
      if es[n].Flush? {
        FlushConfined(Run(s, p).ram, Run(s, p).disk, es[n].attempt, i);
      }
      if Run(s, p).disk[i] != s.disk[i] {
        var k :| 0 <= k < |p| && p[k].Flush? && Writable(Run(s, p[..k]).disk, p[k].attempt.base)
             && InLog(Run(s, p[..k]).disk, p[k].attempt.base, i);
        assert es[..k] == p[..k] && es[k] == p[k];
      }
    }
  }

  ghost predicate OnVolume(es: seq<Event>, base: nat) {
    forall k :: 0 <= k < |es| && es[k].Flush? ==> es[k].attempt.base == base
  }

  /** On one volume: its boot sector and everything outside the region the boot
      sector names stay as they were through any run, and a region that is
      neither a log nor blank to begin with is never changed at all. */
  lemma {:induction false} RunStaysInOneLog(s: Sys, es: seq<Event>, base: nat)
    requires ValidRam(s.ram) && ValidEvents(es) && OnVolume(es, base)
    ensures var d := Run(s, es).disk;
      && LogAt(d, base) == LogAt(s.disk, base)
      && (forall i :: 0 <= i < |d| && d[i] != s.disk[i] ==> InLog(s.disk, base, i))
      && (!Writable(s.disk, base) ==> d == s.disk)
    decreases |es|
  {
    hide FlushStep, RecoverStep, LogAt, IsFree;
    if es != [] {
      var n := |es| - 1;
      var p := es[..n];
      RunStaysInOneLog(s, p, base);
      var m, d := Run(s, p), Run(s, es).disk;
      forall i | 0 <= i < |d| && d[i] != m.disk[i]
        ensures InLog(m.disk, base, i) && Writable(m.disk, base)
      {
        assert es[n].Flush?;
        FlushConfined(m.ram, m.disk, es[n].attempt, i);
      }
      ChangedOnlyLog(m.disk, d, base);
    }
  }

  /** Changes confined to the log do not move it. */
  lemma ChangedOnlyLog(d: seq<byte>, d': seq<byte>, base: nat)
    requires |d| == |d'|
    requires forall i :: 0 <= i < |d| && d'[i] != d[i] ==> InLog(d, base, i)
    ensures LogAt(d', base) == LogAt(d, base)
    ensures LogAt(d, base) == None ==> d' == d
  {
    hide BootIsOurs;
    if Has(d, base, 1) {
      forall i | SECTOR * base <= i < SECTOR * (base + 1)
        ensures d'[i] == d[i]
      {
        if d'[i] != d[i] {
          LogInsideReserved(d, base, i);
        }
      }
      assert Sectors(d, base, 1) == Sectors(d', base, 1);
    }
    LogAtStays(d, d', base);
  }

  // ----- what the log holds -----

  /** Everything appended since the last power on, in order. */
  ghost function History(s: Sys, banner: seq<byte>, es: seq<Event>): seq<byte>
    requires ValidRam(s.ram) && ValidEvents(es)
    decreases |es|
  {
    if es == [] then banner
    else
      var n := |es| - 1;
      var h := History(s, banner, es[..n]);
      match es[n]
      case Log(text) => h + text
      case Flush(_) => h
      case Recover(base, readsOk, line) =>
        var m := Run(s, es[..n]);
        if RecoverStep(m.ram, m.disk, base, readsOk, line).saved.Some? then h + line else h
      case Reboot(again) => again
  }

  /** Flushes and recoveries, good and bad, never lose or reorder what is logged:
      at every moment the text is what appending its history from empty gives. */
  lemma {:induction false} RunLogIs(banner: seq<byte>, d: seq<byte>, es: seq<Event>)
    requires ValidEvents(es) && ValidRam(Started(banner))
    ensures var s := Sys(Started(banner), d); Run(s, es).ram.text == LogText.Append([], History(s, banner, es))
    decreases |es|
  {
    hide LogText.Append, Parse, LogAt, WriteStep, RecordBytes, IsFree, BootFor;
    var s := Sys(Started(banner), d);
    if es != [] {
      var n := |es| - 1;
      RunLogIs(banner, d, es[..n]);
      var h := History(s, banner, es[..n]);
      match es[n]
      case Log(text) => AppendConcat([], h, text);
      case Flush(_) =>
      case Recover(_, _, line) => AppendConcat([], h, line);
      case Reboot(_) =>
    }
  }

  /** So after any run the log is the end of its history; and while no line of it
      exceeds `most` bytes it starts at the start of a line and holds at least the
      last `BB_TEXT_MAX / 2 - most - 1` bytes, or all there are. */
  lemma LogAfterRun(banner: seq<byte>, d: seq<byte>, es: seq<Event>, most: nat)
    requires ValidEvents(es) && ValidRam(Started(banner))
    ensures var s := Sys(Started(banner), d);
      var h, t := History(s, banner, es), Run(s, es).ram.text;
      && |t| < 16336 && |t| <= |h| && t == h[|h| - |t|..]
      && (|h| < 16336 ==> t == h)
      && (most < 16336 / 2 && LinesWithin(h, most) ==>
            AtLineStart(h, |h| - |t|) && (|t| == |h| || |t| >= 16336 / 2 - most - 1))
  {
    hide Run, LogText.Append, LinesWithin;
    var h := History(Sys(Started(banner), d), banner, es);
    RunLogIs(banner, d, es);
    LogIsSuffix(h);
    if |h| < BB_TEXT_MAX {
      NothingLostYet(h);
    }
    if most < KEEP && LinesWithin(h, most) {
      LogKeepsTheEnd(h, most);
    }
  }
}
