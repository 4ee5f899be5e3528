/** The tables as the kernel reads them: one pass over the bytes, filling static
    tables of fixed size and their counts. */
module Acpi {
  import opened Bytes
  import opened AcpiSpec

  const HEADER := 36
  const SIG_APIC: seq<byte> := [0x41, 0x50, 0x49, 0x43]
  const SIG_MCFG: seq<byte> := [0x4D, 0x43, 0x46, 0x47]

  /** `checksum_ok`. */
  method ChecksumOk(p: seq<byte>) returns (ok: bool)
    ensures ok <==> ByteSum(p) == 0
  {
    var sum := 0;
    assert p[..0] == [];
    for i := 0 to |p|
      invariant sum == ByteSum(p[..i])
    {
      assert p[..i + 1][..i] == p[..i];
      sum := (sum + p[i] as nat) % 256;
    }
    assert p[..|p|] == p;
    ok := sum == 0;
  }

  class Info {
    var lapicBase: nat
    var has8259: bool
    var ncpus: nat
    var nioapic: nat
    var noverride: nat
    var nmcfg: nat
    const cpus: array<Cpu>
    const ioapics: array<IoApic>
    const overrides: array<Override>
    const mcfg: array<McfgRun>

    ghost predicate Valid()
      reads this
    {
      && cpus.Length == MAX_CPUS && ioapics.Length == MAX_IOAPIC && overrides.Length == MAX_OVERRIDE
      && mcfg.Length == MAX_MCFG
      && ncpus <= MAX_CPUS && nioapic <= MAX_IOAPIC && noverride <= MAX_OVERRIDE && nmcfg <= MAX_MCFG
    }

    /** What the tables say, up to their counts. */
    ghost function Said(): Madt
      reads this, cpus, ioapics, overrides
      requires Valid()
    {
      Madt(lapicBase, has8259, cpus[..ncpus], ioapics[..nioapic], overrides[..noverride])
    }

    ghost function Buses(): seq<McfgRun>
      reads this, mcfg
      requires Valid()
    {
      mcfg[..nmcfg]
    }

    /** `memset`, and the architectural default. */
    constructor ()
      ensures Valid() && fresh(cpus) && fresh(ioapics) && fresh(overrides) && fresh(mcfg)
      ensures Said() == Madt(0xFEE0_0000, false, [], [], []) && Buses() == []
    {
      lapicBase, has8259 := 0xFEE0_0000, false;
      ncpus, nioapic, noverride, nmcfg := 0, 0, 0, 0;
      cpus := new Cpu[MAX_CPUS](_ => Cpu(0, false));
      ioapics := new IoApic[MAX_IOAPIC](_ => IoApic(0, 0, 0));
      overrides := new Override[MAX_OVERRIDE](_ => Override(0, 0, false, false));
      mcfg := new McfgRun[MAX_MCFG](_ => McfgRun(0, 0, 0, 0));
    }

    method ReadProcessor(e: Entry)
      requires Valid() && e.kind == MADT_LAPIC && |e.body| >= 6
      modifies this`ncpus, cpus
      ensures Valid() && cpus[..ncpus] == Keep(MAX_CPUS, old(cpus[..ncpus]), CpuOf(e))
    {
      ghost var was := cpus[..ncpus];
      if ncpus < MAX_CPUS {
        cpus[ncpus] := Cpu(e.body[1], Get32(e.body[2..6]) % 4 != 0);
        ncpus := ncpus + 1;
        assert cpus[..ncpus] == was + CpuOf(e);
      } else {
        assert (was + CpuOf(e))[..MAX_CPUS] == was;
      }
    }

    /** The slot is filled before its address is looked at; an IOAPIC at zero is
        left uncounted, and the next one takes the slot. */
    method ReadIoApic(e: Entry)
      requires Valid() && e.kind == MADT_IOAPIC && |e.body| >= 10
      modifies this`nioapic, ioapics
      ensures Valid() && ioapics[..nioapic] == Keep(MAX_IOAPIC, old(ioapics[..nioapic]), IoApicOf(e))
    {
      ghost var was := ioapics[..nioapic];
      if nioapic < MAX_IOAPIC {
        ioapics[nioapic] := IoApic(e.body[0], Get32(e.body[2..6]), Get32(e.body[6..10]));
        if ioapics[nioapic].address != 0 {
          nioapic := nioapic + 1;
        }
        assert ioapics[..nioapic] == was + IoApicOf(e);
      } else {
        assert (was + IoApicOf(e))[..MAX_IOAPIC] == was;
      }
    }

    method ReadOverride(e: Entry)
      requires Valid() && e.kind == MADT_OVERRIDE && |e.body| >= 8
      modifies this`noverride, overrides
      ensures Valid() && overrides[..noverride] == Keep(MAX_OVERRIDE, old(overrides[..noverride]), OverrideOf(e))
    {
      ghost var was := overrides[..noverride];
      if noverride < MAX_OVERRIDE {
        overrides[noverride] :=
          Override(e.body[1], Get32(e.body[2..6]), e.body[6] & 3 == 3, (e.body[6] >> 2) & 3 == 3);
        noverride := noverride + 1;
        assert overrides[..noverride] == was + OverrideOf(e);
      } else {
        assert (was + OverrideOf(e))[..MAX_OVERRIDE] == was;
      }
    }

    /** One entry of the MADT. */
    method ReadEntry(e: Entry)
      requires Valid()
      modifies this, cpus, ioapics, overrides
      ensures Valid() && Said() == Apply(old(Said()), e)
      ensures nmcfg == old(nmcfg)
    {
      hide CpuOf, IoApicOf, OverrideOf;
      ghost var m := Said();
      OthersSayNothing(m, e);
      if e.kind == MADT_LAPIC && |e.body| + 2 >= 8 {
        ReadProcessor(e);
      } else if e.kind == MADT_IOAPIC && |e.body| + 2 >= 12 {
        ReadIoApic(e);
      } else if e.kind == MADT_OVERRIDE && |e.body| + 2 >= 10 {
        ReadOverride(e);
      } else if e.kind == MADT_LAPIC_OVERRIDE && |e.body| + 2 >= 12 {
        lapicBase := Get32(e.body[2..6]);
      }
    }

    /** `read_madt`. On arbitrary bytes it ends, reads only the table, and leaves
        what the longest well-formed run of entries says. */
    method ReadMadt(t: seq<byte>)
      requires Valid() && |t| >= MADT_HEADER && Get32(t[4..8]) == |t|
      modifies this, cpus, ioapics, overrides
      ensures Valid()
      ensures Said() == MadtOf(old(Said()), t)
      ensures nmcfg == old(nmcfg)
    {
      hide Apply, ApplyAll, Parse, Get32;
      lapicBase := Get32(t[36..40]);
      has8259 := t[40] & 1 != 0;
      ghost var goal := ApplyAll(Said(), Parse(t[MADT_HEADER..]));
      var p, end := MADT_HEADER, Get32(t[4..8]);
      while p + 2 <= end
        invariant Valid() && p <= end == |t| && nmcfg == old(nmcfg)
        invariant ApplyAll(Said(), Parse(t[p..])) == goal
        decreases end - p
      {
        var entryLen := t[p + 1] as nat;
        ParseAt(t, p);
        if entryLen < 2 {
          break;
        }
        if p + entryLen > end {
          break;
        }
        var e := Entry(t[p], t[p + 2..p + entryLen]);
        ApplyOne(Said(), e, Parse(t[p + entryLen..]));
        ReadEntry(e);
        p := p + entryLen;
      }
      ParseAt(t, p);
      ApplyNone(Said());
    }

    /** `read_mcfg`: the first four usable runs, counting those already there. */
    method ReadMcfg(t: seq<byte>)
      requires Valid() && |t| >= HEADER && Get32(t[4..8]) == |t|
      modifies this`nmcfg, mcfg
      ensures Valid()
      ensures Buses() == McfgOf(old(Buses()), t)
    {
      var len := Get32(t[4..8]);
      if len < MCFG_HEADER {
        return;
      }
      hide RunOf;
      ghost var goal := Keep(MAX_MCFG, Buses(), Runs(t[MCFG_HEADER..]));
      var p := MCFG_HEADER;
      while p + MCFG_ENTRY <= len && nmcfg < MAX_MCFG
        invariant Valid() && p <= len == |t|
        invariant Keep(MAX_MCFG, Buses(), Runs(t[p..])) == goal
      {
        var e := t[p..p + MCFG_ENTRY];
        assert t[p..][..MCFG_ENTRY] == e && t[p..][MCFG_ENTRY..] == t[p + MCFG_ENTRY..];
        KeepTwice(MAX_MCFG, Buses(), RunOf(e), Runs(t[p + MCFG_ENTRY..]));
        ReadRun(e);
        p := p + MCFG_ENTRY;
      }
      KeepFull(Buses(), Runs(t[p..]));
    }

    method ReadRun(e: seq<byte>)
      requires Valid() && nmcfg < MAX_MCFG && |e| == MCFG_ENTRY
      modifies this`nmcfg, mcfg
      ensures Valid() && Buses() == Keep(MAX_MCFG, old(Buses()), RunOf(e))
    {
      ghost var was := Buses();
      var base := Get64(e[0..8]);
      if base != 0 && e[10] <= e[11] {
        mcfg[nmcfg] := McfgRun(base, e[8] as nat + e[9] as nat * 256, e[10] as nat, e[11] as nat);
        nmcfg := nmcfg + 1;
      }
      assert Buses() == was + RunOf(e);
    }

    /** `read_table`, of whatever bytes were mapped at its address: only a table
        whose length is possible and mapped, and whose bytes sum to zero, is
        believed. */
    method ReadTable(mapped: seq<byte>)
      requires Valid()
      modifies this, cpus, ioapics, overrides, mcfg
      ensures Valid()
      ensures !Believed(mapped) ==> Said() == old(Said()) && Buses() == old(Buses())
      ensures Believed(mapped) ==>
        var t := mapped[..Get32(mapped[4..8])];
        if t[..4] == [0x41, 0x50, 0x49, 0x43] && |t| >= 44 then
          Buses() == old(Buses()) && Said() == MadtOf(old(Said()), t)
        else if t[..4] == [0x4D, 0x43, 0x46, 0x47] then
          Said() == old(Said()) && Buses() == McfgOf(old(Buses()), t)
        else
          Said() == old(Said()) && Buses() == old(Buses())
    {
      hide Get32, MadtOf, McfgOf, ByteSum;
      if |mapped| < HEADER {
        return;
      }
      var length := Get32(mapped[4..8]);
      if length < HEADER || length > 0x10000 || length > |mapped| {
        return;
      }
      var t := mapped[..length];
      var ok := ChecksumOk(t);
      if !ok {
        return;
      }
      assert t[4..8] == mapped[4..8];
      if t[..4] == SIG_APIC && length >= MADT_HEADER {
        ReadMadt(t);
      } else if t[..4] == SIG_MCFG {
        ReadMcfg(t);
      }
    }
  }

  predicate Believed(mapped: seq<byte>) {
    |mapped| >= HEADER
    && var length := Get32(mapped[4..8]);
       HEADER <= length <= 0x10000 && length <= |mapped| && ByteSum(mapped[..length]) == 0
  }

  /** By the bytes: a length of 36 to 65536 that is there, and a sum of zero in one byte. */
  lemma BelievedExactly(mapped: seq<byte>)
    ensures Believed(mapped) <==>
      && |mapped| >= 36
      && var length := Field(mapped, 4);
         36 <= length <= 65536 && length <= |mapped| && PlainSum(mapped[..length]) % 256 == 0
  {
    hide Get32, Field;
    if |mapped| >= 36 {
      FieldIs(mapped, 4);
      var length := Field(mapped, 4);
      if length <= |mapped| {
        ByteSumIs(mapped[..length]);
      }
    }
  }

  /** Parsing from one place of a table: nothing more, or an entry and the rest. */
  lemma ParseAt(t: seq<byte>, p: nat)
    requires p <= |t|
    ensures if p + 2 > |t| || t[p + 1] as nat < 2 || p + t[p + 1] as nat > |t| then Parse(t[p..]) == []
            else Parse(t[p..]) == [Entry(t[p], t[p + 2..p + t[p + 1] as nat])] + Parse(t[p + t[p + 1] as nat..])
  {
    var s := t[p..];
    if p + 2 <= |t| {
      assert s[0] == t[p] && s[1] == t[p + 1];
      var n := t[p + 1] as nat;
      if 2 <= n && p + n <= |t| {
        assert s[2..n] == t[p + 2..p + n] && s[n..] == t[p + n..];
      }
    }
  }

  lemma ApplyOne(m: Madt, e: Entry, es: seq<Entry>)
    ensures ApplyAll(m, [e] + es) == ApplyAll(Apply(m, e), es)
  {
    assert ([e] + es)[1..] == es;
  }

  lemma ApplyNone(m: Madt)
    ensures ApplyAll(m, []) == m
  {}

  lemma KeepFull(s: seq<McfgRun>, more: seq<McfgRun>)
    requires |s| <= MAX_MCFG && (more == [] || |s| == MAX_MCFG)
    ensures Keep(MAX_MCFG, s, more) == s
  {
    if more == [] {
      assert s + more == s;
    }
  }

  /** An entry adds to no table but its own kind's. */
  lemma OthersSayNothing(m: Madt, e: Entry)
    requires InRoom(m)
    ensures !(e.kind == MADT_LAPIC && |e.body| >= 6) ==> Keep(MAX_CPUS, m.cpus, CpuOf(e)) == m.cpus
    ensures !(e.kind == MADT_IOAPIC && |e.body| >= 10) ==> Keep(MAX_IOAPIC, m.ioapics, IoApicOf(e)) == m.ioapics
    ensures !(e.kind == MADT_OVERRIDE && |e.body| >= 8) ==> Keep(MAX_OVERRIDE, m.overrides, OverrideOf(e)) == m.overrides
  {
    assert m.cpus + [] == m.cpus && m.ioapics + [] == m.ioapics && m.overrides + [] == m.overrides;
  }

  /** A table with one byte changed is no longer believed, unless it is a byte of the
      length, which says how much is summed. */
  lemma OneByteDisbelieved(mapped: seq<byte>, i: nat, b: byte)
    requires Believed(mapped) && i < Get32(mapped[4..8]) && !(4 <= i < 8) && b != mapped[i]
    ensures !Believed(mapped[i := b])
  {
    hide ByteSum, Get32;
    var length := Get32(mapped[4..8]);
    assert mapped[i := b][4..8] == mapped[4..8];
    assert mapped[i := b][..length] == mapped[..length][i := b];
    SumFixesEachByte(mapped[..length], i, b);
  }
}
