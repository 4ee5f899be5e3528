/** What the MADT and the MCFG say (ACPI Specification sections 5.2.12 and
    5.2.6): a stream of entries, each carrying its own length, and what of it
    is kept in tables of fixed size. */
module AcpiSpec {
  import opened Bytes

  const MAX_CPUS := 16
  const MAX_IOAPIC := 4
  const MAX_OVERRIDE := 16
  const MAX_MCFG := 4

  const MADT_LAPIC: byte := 0
  const MADT_IOAPIC: byte := 1
  const MADT_OVERRIDE: byte := 2
  const MADT_LAPIC_OVERRIDE: byte := 5

  // ----- entries -----

  /** An entry: its type, and what follows its type and length. */
  datatype Entry = Entry(kind: byte, body: seq<byte>)

  predicate Encodable(e: Entry) {
    |e.body| <= 253
  }

  function EncodeOne(e: Entry): seq<byte>
    requires Encodable(e)
  {
    [e.kind, Lo(|e.body| + 2)] + e.body
  }

  ghost predicate AllEncodable(es: seq<Entry>) {
    forall i :: 0 <= i < |es| ==> Encodable(es[i])
  }

  function Encode(es: seq<Entry>): seq<byte>
    requires AllEncodable(es)
    decreases |es|
  {
    if es == [] then [] else EncodeOne(es[0]) + Encode(es[1..])
  }

  /** The bytes begin with an entry that ends inside them. */
  predicate StartsEntry(s: seq<byte>) {
    |s| >= 2 && 2 <= s[1] as nat <= |s|
  }

  /** The entries up to the first malformed one. */
  function Parse(s: seq<byte>): (es: seq<Entry>)
    ensures AllEncodable(es)
    decreases |s|
  {
    if !StartsEntry(s) then []
    else
      ByteBound(s[1]);
      [Entry(s[0], s[2..s[1] as nat])] + Parse(s[s[1] as nat..])
  }

  lemma ParseOne(e: Entry, rest: seq<byte>)
    requires Encodable(e)
    ensures Parse(EncodeOne(e) + rest) == [e] + Parse(rest)
  {
    hide Lo;
    LoValue(|e.body| + 2);
    var s := EncodeOne(e) + rest;
    assert s[1] as nat == |e.body| + 2;
    assert s[2..|e.body| + 2] == e.body && s[|e.body| + 2..] == rest;
  }

  /** What is encoded is parsed back, whatever bytes follow it. */
  lemma {:induction false} ParseEncode(es: seq<Entry>, rest: seq<byte>)
    requires AllEncodable(es)
    ensures Parse(Encode(es) + rest) == es + Parse(rest)
    decreases |es|
  {
    hide Parse, EncodeOne;
    if es == [] {
      assert Encode(es) + rest == rest;
    } else {
      ParseEncode(es[1..], rest);
      assert Encode(es) + rest == EncodeOne(es[0]) + (Encode(es[1..]) + rest);
      ParseOne(es[0], Encode(es[1..]) + rest);
      assert es == [es[0]] + es[1..];
    }
  }

  /** What is parsed is the front of the bytes, and what is left of them begins
      no entry. */
  lemma {:induction false} EncodeParse(s: seq<byte>)
    ensures var e := Encode(Parse(s)); e <= s && !StartsEntry(s[|e|..])
    decreases |s|
  {
    if StartsEntry(s) {
      ByteBound(s[1]);
      var n := s[1] as nat;
      EncodeParse(s[n..]);
      EntryWritesBack(s, n);
      var e, more := Entry(s[0], s[2..n]), Parse(s[n..]);
      EncodeCons(e, more);
      Front(s, n, Encode(more));
    }
  }

  lemma EncodeCons(e: Entry, es: seq<Entry>)
    requires Encodable(e) && AllEncodable(es)
    ensures AllEncodable([e] + es) && Encode([e] + es) == EncodeOne(e) + Encode(es)
  {
    assert ([e] + es)[1..] == es;
  }

  lemma Front(s: seq<byte>, n: nat, more: seq<byte>)
    requires n <= |s| && more <= s[n..]
    ensures var e := s[..n] + more; e <= s && s[|e|..] == s[n..][|more|..]
  {
    assert s == s[..n] + s[n..];
  }

  lemma EntryWritesBack(s: seq<byte>, n: nat)
    requires StartsEntry(s) && n == s[1] as nat && n < 256
    ensures EncodeOne(Entry(s[0], s[2..n])) == s[..n]
  {
    hide Lo;
    ByteBound(s[1]);
    LoOf(s[1], n);
    assert |s[2..n]| + 2 == n;
    assert s[..n] == [s[0], s[1]] + s[2..n];
  }

  /** So it is the longest prefix that is entries and nothing else. */
  lemma ParseIsLongest(s: seq<byte>, es: seq<Entry>)
    requires AllEncodable(es) && Encode(es) <= s
    ensures es <= Parse(s)
  {
    ParseEncode(es, s[|Encode(es)|..]);
    assert s == Encode(es) + s[|Encode(es)|..];
  }

  // ----- what the entries say -----

  datatype Cpu = Cpu(apicId: byte, usable: bool)
  datatype IoApic = IoApic(id: byte, address: nat, gsiBase: nat)
  datatype Override = Override(source: byte, gsi: nat, activeLow: bool, levelTriggered: bool)

  datatype Madt = Madt(lapicBase: nat, has8259: bool, cpus: seq<Cpu>, ioapics: seq<IoApic>, overrides: seq<Override>)

  function CpuOf(e: Entry): seq<Cpu> {
    if e.kind == MADT_LAPIC && |e.body| >= 6
    then [Cpu(e.body[1], Get32(e.body[2..6]) % 4 != 0)] else []
  }

  /** An IOAPIC at address zero is none. */
  function IoApicOf(e: Entry): seq<IoApic> {
    if e.kind == MADT_IOAPIC && |e.body| >= 10 && Get32(e.body[2..6]) != 0
    then [IoApic(e.body[0], Get32(e.body[2..6]), Get32(e.body[6..10]))] else []
  }

  function OverrideOf(e: Entry): seq<Override> {
    if e.kind == MADT_OVERRIDE && |e.body| >= 8
    then [Override(e.body[1], Get32(e.body[2..6]), e.body[6] & 3 == 3, (e.body[6] >> 2) & 3 == 3)] else []
  }

  function AddressOf(e: Entry): Option<nat> {
    if e.kind == MADT_LAPIC_OVERRIDE && |e.body| >= 10 then Some(Get32(e.body[2..6])) else None
  }

  function Collect<T>(f: Entry -> seq<T>, es: seq<Entry>): seq<T>
    decreases |es|
  {
    if es == [] then [] else f(es[0]) + Collect(f, es[1..])
  }

  function LastAddress(base: nat, es: seq<Entry>): nat
    decreases |es|
  {
    if es == [] then base
    else LastAddress(match AddressOf(es[0]) case Some(a) => a case None => base, es[1..])
  }

  function First<T>(n: nat, s: seq<T>): (r: seq<T>)
    ensures r <= s && |r| == if |s| < n then |s| else n
  {
    if |s| <= n then s else s[..n]
  }

  /** One more, where there is room. */
  function Keep<T>(n: nat, s: seq<T>, more: seq<T>): seq<T> {
    First(n, s + more)
  }

  function Apply(m: Madt, e: Entry): Madt {
    Madt(match AddressOf(e) case Some(a) => a case None => m.lapicBase, m.has8259,
         Keep(MAX_CPUS, m.cpus, CpuOf(e)), Keep(MAX_IOAPIC, m.ioapics, IoApicOf(e)),
         Keep(MAX_OVERRIDE, m.overrides, OverrideOf(e)))
  }

  function ApplyAll(m: Madt, es: seq<Entry>): Madt
    decreases |es|
  {
    if es == [] then m else ApplyAll(Apply(m, es[0]), es[1..])
  }

  predicate InRoom(m: Madt) {
    |m.cpus| <= MAX_CPUS && |m.ioapics| <= MAX_IOAPIC && |m.overrides| <= MAX_OVERRIDE
  }

  lemma KeepTwice<T>(n: nat, s: seq<T>, a: seq<T>, b: seq<T>)
    ensures Keep(n, Keep(n, s, a), b) == Keep(n, s, a + b)
  {
    assert s + (a + b) == (s + a) + b;
  }

  /** Entry by entry with full tables passed over is the first so many of all
      there are, and the last address. */
  lemma {:induction false} ApplyAllIs(m: Madt, es: seq<Entry>)
    requires InRoom(m)
    ensures ApplyAll(m, es) ==
      Madt(LastAddress(m.lapicBase, es), m.has8259,
           First(MAX_CPUS, m.cpus + Collect(CpuOf, es)),
           First(MAX_IOAPIC, m.ioapics + Collect(IoApicOf, es)),
           First(MAX_OVERRIDE, m.overrides + Collect(OverrideOf, es)))
    decreases |es|
  {
    if es == [] {
      assert m.cpus + [] == m.cpus && m.ioapics + [] == m.ioapics && m.overrides + [] == m.overrides;
    } else {
      ApplyAllIs(Apply(m, es[0]), es[1..]);
      KeepTwice(MAX_CPUS, m.cpus, CpuOf(es[0]), Collect(CpuOf, es[1..]));
      KeepTwice(MAX_IOAPIC, m.ioapics, IoApicOf(es[0]), Collect(IoApicOf, es[1..]));
      KeepTwice(MAX_OVERRIDE, m.overrides, OverrideOf(es[0]), Collect(OverrideOf, es[1..]));
    }
  }

  // ----- a printed table reads back -----

  /** What firmware has to say, with whatever comes behind it in an entry that is longer
      than its kind needs; and any entry of another kind, or too short for its own. */
  datatype Item =
    | Processor(acpiId: byte, apicId: byte, flags: u32, more: seq<byte>)
    | Controller(id: byte, reserved: byte, address: u32, gsiBase: u32, more: seq<byte>)
    | Rerouted(bus: byte, source: byte, gsi: u32, flagsLow: byte, flagsHigh: byte, more: seq<byte>)
    | AddressIs(reserved0: byte, reserved1: byte, low: u32, high: u32, more: seq<byte>)
    | Unknown(kind: byte, body: seq<byte>)

  predicate Printable(i: Item) {
    match i
    case Processor(_, _, _, more) => |more| <= 247
    case Controller(_, _, _, _, more) => |more| <= 243
    case Rerouted(_, _, _, _, _, more) => |more| <= 245
    case AddressIs(_, _, _, _, more) => |more| <= 243
    case Unknown(kind, body) =>
      && |body| <= 253
      && !(kind == 0 && |body| >= 6) && !(kind == 1 && |body| >= 10)
      && !(kind == 2 && |body| >= 8) && !(kind == 5 && |body| >= 10)
  }

  function Print(i: Item): (e: Entry)
    requires Printable(i)
    ensures Encodable(e)
  {
    match i
    case Processor(acpiId, apicId, flags, more) => Entry(0, [acpiId, apicId] + Le32(flags) + more)
    case Controller(id, reserved, address, gsi, more) => Entry(1, [id, reserved] + Le32(address) + Le32(gsi) + more)
    case Rerouted(bus, source, gsi, low, high, more) => Entry(2, [bus, source] + Le32(gsi) + [low, high] + more)
    case AddressIs(r0, r1, low, high, more) => Entry(5, [r0, r1] + Le32(low) + Le32(high) + more)
    case Unknown(kind, body) => Entry(kind, body)
  }

  /** Every entry there can be says one of these. */
  lemma EveryEntryIsPrinted(e: Entry) returns (i: Item)
    requires Encodable(e)
    ensures Printable(i) && Print(i) == e
  {
    hide Le32, Get32;
    var b := e.body;
    if e.kind == 0 && |b| >= 6 {
      StoredBack(b[2..6]);
      i := Processor(b[0], b[1], Get32(b[2..6]), b[6..]);
      assert b == [b[0], b[1]] + b[2..6] + b[6..];
    } else if e.kind == 1 && |b| >= 10 {
      StoredBack(b[2..6]);
      StoredBack(b[6..10]);
      i := Controller(b[0], b[1], Get32(b[2..6]), Get32(b[6..10]), b[10..]);
      assert b == [b[0], b[1]] + b[2..6] + b[6..10] + b[10..];
    } else if e.kind == 2 && |b| >= 8 {
      StoredBack(b[2..6]);
      i := Rerouted(b[0], b[1], Get32(b[2..6]), b[6], b[7], b[8..]);
      assert b == [b[0], b[1]] + b[2..6] + [b[6], b[7]] + b[8..];
    } else if e.kind == 5 && |b| >= 10 {
      StoredBack(b[2..6]);
      StoredBack(b[6..10]);
      i := AddressIs(b[0], b[1], Get32(b[2..6]), Get32(b[6..10]), b[10..]);
      assert b == [b[0], b[1]] + b[2..6] + b[6..10] + b[10..];
    } else {
      i := Unknown(e.kind, b);
    }
  }

  lemma StoredBack(b: seq<byte>)
    requires |b| == 4
    ensures Get32(b) < TWO_32 && Le32(Get32(b)) == b
  {
    Get32Bound(b);
    LeBytesFrom(b);
  }

  ghost predicate AllPrintable(items: seq<Item>) {
    forall i :: 0 <= i < |items| ==> Printable(items[i])
  }

  function PrintAll(items: seq<Item>): (es: seq<Entry>)
    requires AllPrintable(items)
    ensures AllEncodable(es)
    decreases |items|
  {
    if items == [] then [] else [Print(items[0])] + PrintAll(items[1..])
  }

  function ProcessorOf(i: Item): seq<Cpu> {
    match i
    case Processor(_, apicId, flags, _) => [Cpu(apicId, flags % 4 != 0)]
    case _ => []
  }

  function ControllerOf(i: Item): seq<IoApic> {
    match i
    case Controller(id, _, address, gsi, _) => if address == 0 then [] else [IoApic(id, address, gsi)]
    case _ => []
  }

  /** Polarity in bits 0 and 1, trigger mode in bits 2 and 3. */
  function ReroutingOf(i: Item): seq<Override> {
    match i
    case Rerouted(_, source, gsi, low, _, _) => [Override(source, gsi, low % 4 == 3, low / 4 % 4 == 3)]
    case _ => []
  }

  function Gather<T>(f: Item -> seq<T>, items: seq<Item>): seq<T>
    decreases |items|
  {
    if items == [] then [] else f(items[0]) + Gather(f, items[1..])
  }

  /** The last address given, its low half; else the header's. */
  function BaseAddress(base: nat, items: seq<Item>): nat
    decreases |items|
  {
    if items == [] then base
    else BaseAddress(match items[0] case AddressIs(_, _, low, _, _) => low case _ => base, items[1..])
  }

  lemma FlagBits(f: byte)
    ensures (f & 3 == 3 <==> f % 4 == 3) && ((f >> 2) & 3 == 3 <==> f / 4 % 4 == 3)
  {}

  lemma Small32(n: u32)
    ensures Get32(Le32(n)) == n
  {
    hide Get32, Le32;
    Get32Le32(n);
  }

  /** One printed item says what the item does. */
  lemma PrintSays(i: Item)
    requires Printable(i)
    ensures CpuOf(Print(i)) == ProcessorOf(i) && IoApicOf(Print(i)) == ControllerOf(i)
    ensures OverrideOf(Print(i)) == ReroutingOf(i)
    ensures AddressOf(Print(i)) == if i.AddressIs? then Some(i.low as nat) else None
  {
    hide Get32, Le32;
    var b := Print(i).body;
    match i
    case Processor(_, _, flags, _) =>
      assert b[2..6] == Le32(flags);
      Small32(flags);
    case Controller(_, _, address, gsi, _) =>
      assert b[2..6] == Le32(address) && b[6..10] == Le32(gsi);
      Small32(address);
      Small32(gsi);
    case Rerouted(_, _, gsi, low, _, _) =>
      assert b[2..6] == Le32(gsi);
      Small32(gsi);
      FlagBits(low);
    case AddressIs(_, _, low, _, _) =>
      assert b[2..6] == Le32(low);
      Small32(low);
    case Unknown(_, _) =>
  }

  lemma {:induction false} PrintAllSays(base: nat, items: seq<Item>)
    requires AllPrintable(items)
    ensures Collect(CpuOf, PrintAll(items)) == Gather(ProcessorOf, items)
    ensures Collect(IoApicOf, PrintAll(items)) == Gather(ControllerOf, items)
    ensures Collect(OverrideOf, PrintAll(items)) == Gather(ReroutingOf, items)
    ensures LastAddress(base, PrintAll(items)) == BaseAddress(base, items)
    decreases |items|
  {
    hide Print, CpuOf, IoApicOf, OverrideOf, AddressOf, ProcessorOf, ControllerOf, ReroutingOf;
    if items != [] {
      var i := items[0];
      PrintSays(i);
      PrintAllSays(match i case AddressIs(_, _, low, _, _) => low case _ => base, items[1..]);
      assert PrintAll(items)[1..] == PrintAll(items[1..]);
    }
  }

  /** Reading the bytes of a printed table, whatever malformed bytes follow, gives
      the first 16 processors, the first 4 IOAPICs with an address, the first 16
      overrides and the last address. */
  lemma PrintedTableReads(m: Madt, items: seq<Item>, rest: seq<byte>)
    requires InRoom(m) && AllPrintable(items) && !StartsEntry(rest)
    ensures ApplyAll(m, Parse(Encode(PrintAll(items)) + rest)) ==
      Madt(BaseAddress(m.lapicBase, items), m.has8259,
           First(16, m.cpus + Gather(ProcessorOf, items)),
           First(4, m.ioapics + Gather(ControllerOf, items)),
           First(16, m.overrides + Gather(ReroutingOf, items)))
  {
    ParseEncode(PrintAll(items), rest);
    assert PrintAll(items) + [] == PrintAll(items);
    ApplyAllIs(m, PrintAll(items));
    PrintAllSays(m.lapicBase, items);
  }

  // ----- the whole MADT -----

  const MADT_HEADER := 44

  /** What the bytes of a MADT add to what is known. */
  function MadtOf(m: Madt, t: seq<byte>): Madt
    requires |t| >= MADT_HEADER
  {
    ApplyAll(m.(lapicBase := Get32(t[36..40]), has8259 := t[40] & 1 != 0), Parse(t[MADT_HEADER..]))
  }

  /** A whole table: its 36 byte header, the address, the flags, the entries and
      anything malformed. */
  lemma WholeMadtReads(m: Madt, header: seq<byte>, address: u32, flags: seq<byte>, items: seq<Item>, rest: seq<byte>)
    requires |header| == 36 && |flags| == 4 && InRoom(m) && AllPrintable(items) && !StartsEntry(rest)
    ensures var t := header + Le32(address) + flags + Encode(PrintAll(items)) + rest;
      |t| >= 44 && MadtOf(m, t) ==
        Madt(BaseAddress(address, items), flags[0] % 2 == 1,
             First(16, m.cpus + Gather(ProcessorOf, items)),
             First(4, m.ioapics + Gather(ControllerOf, items)),
             First(16, m.overrides + Gather(ReroutingOf, items)))
  {
    hide Le32, Get32, Encode, Parse, ApplyAll, PrintAll, Gather, BaseAddress, First;
    var t := header + Le32(address) + flags + Encode(PrintAll(items)) + rest;
    assert t[36..40] == Le32(address) && t[40] == flags[0];
    assert t[44..] == Encode(PrintAll(items)) + rest;
    Small32(address);
    LowestBit(flags[0]);
    PrintedTableReads(m.(lapicBase := address, has8259 := flags[0] % 2 == 1), items, rest);
  }

  lemma LowestBit(b: byte)
    ensures b & 1 != 0 <==> b % 2 == 1
  {}

  // ----- checksums -----

  /** Addition in one byte. */
  function Add8(x: nat, y: nat): (n: nat)
    ensures n < 256
  {
    (x + y) % 256
  }

  /** The sum of the bytes, in one byte. */
  function ByteSum(s: seq<byte>): (n: nat)
    ensures n < 256
    decreases |s|
  {
    if s == [] then 0 else Add8(ByteSum(s[..|s| - 1]), s[|s| - 1] as nat)
  }

  function PlainSum(s: seq<byte>): nat
    decreases |s|
  {
    if s == [] then 0 else PlainSum(s[..|s| - 1]) + s[|s| - 1] as nat
  }

  lemma {:induction false} ByteSumIs(s: seq<byte>)
    ensures ByteSum(s) == PlainSum(s) % 256
    decreases |s|
  {
    if s != [] {
      ByteSumIs(s[..|s| - 1]);
      AddCut(PlainSum(s[..|s| - 1]), s[|s| - 1] as nat);
    }
  }

  lemma {:induction false} ByteSumConcat(a: seq<byte>, b: seq<byte>)
    ensures ByteSum(a + b) == Add8(ByteSum(a), ByteSum(b))
    decreases |b|
  {
    hide Add8;
    if b == [] {
      assert a + b == a;
      AddNothing(ByteSum(a));
    } else {
      var n := |b| - 1;
      assert (a + b)[..|a + b| - 1] == a + b[..n];
      ByteSumConcat(a, b[..n]);
      ModShuffle(ByteSum(a), ByteSum(b[..n]), b[n] as nat);
    }
  }

  lemma ModShuffle(x: nat, y: nat, z: nat)
    ensures Add8(Add8(x, y), z) == Add8(x, Add8(y, z))
  {
    AddCut(x + y, z);
    AddCut(y + z, x);
  }

  lemma AddCut(x: nat, z: nat)
    ensures (x % 256 + z) % 256 == (x + z) % 256
  {
    var r := x % 256 + z;
    assert x + z == 256 * (x / 256 + r / 256) + r % 256;
    ModUnique(x + z, 256, x / 256 + r / 256, r % 256);
  }

  lemma AddNothing(x: nat)
    requires x < 256
    ensures Add8(x, 0) == x && Add8(0, x) == x
  {}

  /** Of the 256 values any one byte of a table can take, exactly one keeps the
      table's sum. */
  lemma SumFixesEachByte(s: seq<byte>, i: nat, b: byte)
    requires i < |s|
    ensures ByteSum(s[i := b]) == ByteSum(s) <==> b == s[i]
  {
    hide ByteSum, Add8;
    var l, r := s[..i], s[i + 1..];
    assert s == l + [s[i]] + r && s[i := b] == l + [b] + r;
    ByteSumConcat(l + [s[i]], r);
    ByteSumConcat(l + [b], r);
    ByteSumConcat(l, [b]);
    ByteSumConcat(l, [s[i]]);
    SumOfOne(b);
    SumOfOne(s[i]);
    SameByte(b, s[i]);
    ByteBound(b);
    ByteBound(s[i]);
    SumCancels(ByteSum(l), ByteSum(r), b as nat, s[i] as nat);
  }

  lemma SumOfOne(b: byte)
    ensures ByteSum([b]) == b as nat
  {
    assert [b][..0] == [];
    ByteBound(b);
    AddNothing(b as nat);
  }

  lemma SumCancels(x: nat, y: nat, a: nat, b: nat)
    requires a < 256 && b < 256
    ensures Add8(Add8(x, a), y) == Add8(Add8(x, b), y) <==> a == b
  {
    AddInjective(a, b, x);
    AddInjective(Add8(x, a), Add8(x, b), y);
  }

  lemma AddInjective(a: nat, b: nat, x: nat)
    requires a < 256 && b < 256
    ensures Add8(a, x) == Add8(b, x) <==> a == b
    ensures Add8(x, a) == Add8(x, b) <==> a == b
  {
    var p, q := (a + x) / 256, (b + x) / 256;
    assert a + x == 256 * p + (a + x) % 256;
    assert b + x == 256 * q + (b + x) % 256;
  }

  // ----- the MCFG -----

  const MCFG_ENTRY := 16

  datatype McfgRun = McfgRun(base: nat, segment: nat, startBus: nat, endBus: nat)

  function Get64(b: seq<byte>): nat
    requires |b| == 8
  {
    Get32(b[0..4]) + Get32(b[4..8]) * TWO_32
  }

  /** One run of buses, if it is the right way round and lands somewhere. */
  function RunOf(e: seq<byte>): seq<McfgRun>
    requires |e| == MCFG_ENTRY
  {
    if Get64(e[0..8]) != 0 && e[10] <= e[11]
    then [McfgRun(Get64(e[0..8]), e[8] as nat + e[9] as nat * 256, e[10] as nat, e[11] as nat)] else []
  }

  /** The usable runs of a stream of whole entries. */
  function Runs(s: seq<byte>): seq<McfgRun>
    decreases |s|
  {
    if |s| < MCFG_ENTRY then [] else RunOf(s[..MCFG_ENTRY]) + Runs(s[MCFG_ENTRY..])
  }

  // ----- a printed MCFG reads back -----

  /** A run of buses as the table has it: the address in two halves, the segment's two
      bytes, the first and last bus. */
  datatype Bus = Bus(low: u32, high: u32, segmentLow: byte, segmentHigh: byte, start: byte, end: byte, reserved: seq<byte>)

  ghost predicate AllWhole(buses: seq<Bus>) {
    forall i :: 0 <= i < |buses| ==> |buses[i].reserved| == 4
  }

  function PrintBus(b: Bus): (s: seq<byte>)
    requires |b.reserved| == 4
    ensures |s| == 16
  {
    Le32(b.low) + Le32(b.high) + [b.segmentLow, b.segmentHigh, b.start, b.end] + b.reserved
  }

  function PrintBuses(buses: seq<Bus>): seq<byte>
    requires AllWhole(buses)
    decreases |buses|
  {
    if buses == [] then [] else PrintBus(buses[0]) + PrintBuses(buses[1..])
  }

  /** A run that lands somewhere and is the right way round. */
  function Usable(b: Bus): seq<McfgRun> {
    if (b.low != 0 || b.high != 0) && b.start <= b.end
    then [McfgRun(b.low + 0x1_0000_0000 * b.high, b.segmentLow as nat + 256 * (b.segmentHigh as nat),
                  b.start as nat, b.end as nat)]
    else []
  }

  function AllUsable(buses: seq<Bus>): seq<McfgRun>
    decreases |buses|
  {
    if buses == [] then [] else Usable(buses[0]) + AllUsable(buses[1..])
  }

  lemma PrintBusSays(b: Bus)
    requires |b.reserved| == 4
    ensures RunOf(PrintBus(b)) == Usable(b)
  {
    hide Le32, Get32;
    var e := PrintBus(b);
    assert e[0..8][0..4] == Le32(b.low) && e[0..8][4..8] == Le32(b.high);
    assert e[8] == b.segmentLow && e[9] == b.segmentHigh && e[10] == b.start && e[11] == b.end;
    Small32(b.low);
    Small32(b.high);
  }

  /** Entries printed are read as the usable ones, in order, whatever part of an entry
      follows. */
  lemma {:induction false} PrintedRunsRead(buses: seq<Bus>, tail: seq<byte>)
    requires AllWhole(buses) && |tail| < 16
    ensures Runs(PrintBuses(buses) + tail) == AllUsable(buses)
    decreases |buses|
  {
    hide PrintBus, Runs, Usable;
    if buses == [] {
      assert PrintBuses(buses) + tail == tail;
      NoRuns(tail);
    } else {
      var e, more := PrintBus(buses[0]), PrintBuses(buses[1..]);
      PrintedRunsRead(buses[1..], tail);
      PrintBusSays(buses[0]);
      assert PrintBuses(buses) + tail == e + (more + tail);
      RunsCons(e, more + tail);
    }
  }

  lemma NoRuns(tail: seq<byte>)
    requires |tail| < 16
    ensures Runs(tail) == []
  {}

  lemma RunsCons(e: seq<byte>, rest: seq<byte>)
    requires |e| == 16
    ensures Runs(e + rest) == RunOf(e) + Runs(rest)
  {
    hide RunOf;
    assert (e + rest)[..16] == e && (e + rest)[16..] == rest;
  }

  const MCFG_HEADER := 44

  /** What the bytes of an MCFG add to the runs known. */
  function McfgOf(known: seq<McfgRun>, t: seq<byte>): seq<McfgRun> {
    if |t| < MCFG_HEADER then known else Keep(MAX_MCFG, known, Runs(t[MCFG_HEADER..]))
  }

  /** A whole table: its 36 byte header, eight bytes, the entries, and part of one. */
  lemma WholeMcfgReads(known: seq<McfgRun>, header: seq<byte>, reserved: seq<byte>, buses: seq<Bus>, tail: seq<byte>)
    requires |header| == 36 && |reserved| == 8 && AllWhole(buses) && |tail| < 16
    ensures McfgOf(known, header + reserved + PrintBuses(buses) + tail) == First(4, known + AllUsable(buses))
  {
    hide PrintBuses, AllUsable, Runs;
    var t := header + reserved + PrintBuses(buses) + tail;
    assert t[44..] == PrintBuses(buses) + tail;
    PrintedRunsRead(buses, tail);
  }
}
