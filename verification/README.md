# zelr kernel: verified models

Dafny models of six parts of the zelr kernel, and proofs about them. Code that
works step by step is modelled as methods over arrays and class fields, proved
against pure functions; the properties are lemmas about those functions and about
whole runs of the state machines they make.

| Dafny files | kernel source | what it is |
|---|---|---|
| `CcmSpec`, `CcmLayout`, `Ccm` | `kernel/ccmp.c` | CCM with M = 8 and L = 2 (RFC 3610) over any block function |
| `CcmpSpec`, `CcmpLayout`, `CcmpFrames`, `Ccmp` | `kernel/ccmp.c` | the 802.11 frame around it (IEEE Std 802.11-2016, 12.5.3.3) |
| `Record`, `LogText`, `LogDisk`, `LogLayout`, `BlackBoxRuns`, `BlackBoxBoots`, `BlackBox` | `kernel/blackbox.c`, with what it asks of `kernel/fat.c` | the log that survives a reboot |
| `Divide` | `kernel/divide.c` | 64 bit division by shift and subtract |
| `AcpiSpec`, `Acpi` | `kernel/acpi.c` | the MADT and the MCFG (ACPI Specification 5.2.12 and 5.2.6) |
| `BlockDev` | `kernel/blockdev.c` | requests cut into runs a driver takes |
| `DiskFs` | `kernel/diskfs.c` | which volume is mounted, swept or formatted |
| `Bytes`, `SectorBytes` | | bytes, stored integers, sectors |

A `u32` or `u64` is a natural number whose width is written out wherever it can
matter; a byte is a bit vector. Memory that may overlap (a frame and its body, a
ciphertext and its plaintext) is one array with addresses into it.

Every format is also stated byte by byte, by arithmetic on its bytes and apart from
the functions the methods are proved against: in `CcmLayout`, `CcmpLayout` and
`LogLayout`, and in `AcpiSpec` and `DiskFs` beside the parsers.

## What is proved

- **CCM.** The in-place block loops compute the CBC-MAC over the formatted input.
  The formatting is injective and prefix-free for exactly those sizes the two byte
  lengths can say: AADs to 65536 bytes, messages to 65535. Decryption accepts a
  pair exactly when some message encrypts to it, and gives that one message, in
  place too.
- **CCMP frames.** Opening a frame gives (body, packet number) exactly when the
  frame is the encryption of that body under that number, changed only where a
  frame may change on its way. Equal AAD and nonce are exactly equal authenticated
  header parts and an equal 48 bit packet number. Over a run under one key no
  counter block repeats while packet numbers differ in their low 48 bits, and for
  frames alike in what is authenticated only then.
- **The black box.** Over any run the log is the end of everything appended, and
  with bounded lines starts at a line and keeps a known amount; what a successful
  flush wrote is what the next boot recovers; one changed byte of text is always
  refused; nothing outside the log's region of a volume of ours is ever written;
  the boot number rises by one for each boot that reached the disk. The methods are
  these steps on a disk that keeps count of the reads it missed and of how each
  write went, so a failure is the disk's and never a method's own choice.
- **Division.** `udivmod64` is division for every dividend and non-zero divisor,
  with no bit lost on the way; the signed forms truncate toward zero except for
  the least number over -1.
- **ACPI.** Parsing a printed table gives back what was printed, up to the sizes of
  the tables; any bytes at all parse as their longest well-formed run of entries.
- **Block layer.** A split request is one transfer in the fewest commands and fails
  only when a command does; then exactly the leading ones are done. Over any run of
  requests to devices that come and go, a disk that differs has moved the count of
  writes, up to 2^32 commands.
- **Volumes.** The choice is the first mountable volume of ours, else the first
  mountable one; the EFI System Partition is never mounted, only volumes made here
  are swept, and a partitioned disk is never formatted.

## Where the code and its own words differ

- `kernel/blackbox.c:62` says the log never resumes mid-sentence. It does when the
  newest half holds no line end: `LogText.DropExactly` gives the exact condition,
  `LogText.EndlessLineIsLost` an input.
- `include/blockdev.h:54-57` calls the 32 bit count of writes a generation that moves
  whenever a sector may have. It stands still after an exact multiple of 2^32
  commands (`BlockDev.GenerationMoves`), as in `BlockDev.GenerationStandsStill`.
- `kernel/blackbox.c:277-280` says the boot count survives a reboot. If the count's own
  read fails after the checks' reads succeeded, it starts again at 1:
  `BlackBoxBoots.CountNeedsItsRead` gives the condition, `BlackBoxBoots.CountLost` an
  input.

## Model

| member | source | states |
|---|---|---|
| `CcmSpec.FormattingPrefixFree` | kernel/ccmp.c:14-43 | one input's MAC blocks being a prefix of, or equal to, another's forces equal nonce, AAD and message |
| `CcmSpec.PrefixFreeExactly` | kernel/ccmp.c:17-28 | that holds up to given sizes if and only if they are at most 65536 for the AAD and below 65536 for the message |
| `CcmSpec.ZeroAadExtends` | kernel/ccmp.c:27-28 | an AAD of 65537 zeros extends the blocks of one zero byte |
| `CcmSpec.ZeroMessageExtends` | kernel/ccmp.c:19-20 | a message of 65536 zeros extends the blocks of the empty one |
| `CcmSpec.OneBlockChangesMac` | kernel/ccmp.c:31-41 | for a cipher that keeps blocks apart, another block anywhere in the chain gives another MAC |
| `CcmSpec.OneByteChangesMac` | kernel/ccmp.c:14-43 | for such a cipher, a message with one byte changed has another MAC, whatever its length |
| `CcmSpec.CryptFootprint` | kernel/ccmp.c:55-62 | the text depends on the cipher only at counter blocks 1 to ceil(length/16), never at block 0 |
| `CcmLayout.MicFootprint` | kernel/ccmp.c:64-82 | two ciphers that give one MAC give one MIC exactly when they agree on the first eight bytes of the block 01, nonce, 00 00, whatever they do on other counter blocks |
| `CcmLayout.MicByteAt` | kernel/ccmp.c:68-70 | each MIC byte is the MAC's under that byte of counter block 0 |
| `CcmLayout.TextByte` | kernel/ccmp.c:55-62 | byte k of the text is under byte k mod 16 of the block 01, nonce, k/16 + 1 |
| `CcmLayout.FirstBlockIs` | kernel/ccmp.c:17-20 | the flags by RFC 3610's arithmetic, the nonce, the length high byte first |
| `CcmLayout.CounterBlockIs` | kernel/ccmp.c:46-53 | L - 1, the nonce, the count high byte first |
| `CcmLayout.ChunkAt` | kernel/ccmp.c:29-40 | byte j of block k is byte 16k + j of the text, or zero past its end |
| `CcmLayout.AadChunksAre` | kernel/ccmp.c:22-36 | an AAD that is not empty comes behind its length in two bytes |
| `CcmLayout.CbcMacGrows` | kernel/ccmp.c:21-41 | the MAC of one block is that block enciphered, and another block is mixed in byte by byte and enciphered |
| `CcmSpec.DecryptExact` | kernel/ccmp.c:73-84 | a pair is the encryption of at most one message, and of one exactly when the tag of its deciphered text is its MIC |
| `CcmSpec.DecryptEncrypt` | kernel/ccmp.c:64-84 | opening what was sealed gives the message back |
| `CcmSpec.CounterBlockExact` | kernel/ccmp.c:46-53 | counter blocks are equal exactly for one nonce and counts equal modulo 65536 |
| `CcmSpec.CounterBlockIsNoMacBlock` | kernel/ccmp.c:17-48 | no counter block is ever the first MAC block |
| `Ccm.Fill` | kernel/ccmp.c:25-30 | the inner AAD loop moves bytes without losing any and leaves a padded block |
| `Ccm.MacAad` | kernel/ccmp.c:22-36 | the AAD loops, filling from offset 2, are the CBC chain over the chunks of length and AAD |
| `Ccm.MacMessage` | kernel/ccmp.c:37-41 | the message loop is the CBC chain over its zero padded chunks |
| `Ccm.Mac` | kernel/ccmp.c:14-43 | the whole is the CBC-MAC over the formatted blocks, for every AAD and message length |
| `Ccm.Counter` | kernel/ccmp.c:46-53 | the key stream block of a nonce and a count |
| `Ccm.CryptInto` | kernel/ccmp.c:55-62 | counter mode, also onto an output at or before the input, and nothing else in memory changed |
| `Ccm.EncryptInto` | kernel/ccmp.c:64-71 | the output and the MIC are the encryption of what the input was |
| `Ccm.DecryptInto` | kernel/ccmp.c:73-84 | true exactly when some message encrypts to the input and MIC, and then the output is that message; in place too |
| `Ccmp.HdrLenExact` | kernel/ccmp.c:88-97 | the answer is n exactly when the frame begins with a header of the length its kind has: 24 bytes, 6 more for data to and from the DS, 2 more for QoS data |
| `CcmpSpec.AadParts` | kernel/ccmp.c:105-129 | where each part of the AAD lies, and that it is at most 30 bytes |
| `CcmpSpec.ProperReads` | kernel/ccmp.c:107-125 | for a header of the length it says, every byte read is inside it and the QoS control is read exactly for QoS frames |
| `CcmpSpec.AadExact` | kernel/ccmp.c:105-125 | equal AADs are exactly equal authenticated header parts |
| `CcmpSpec.AadNonceExact` | kernel/ccmp.c:105-130 | equal AAD and nonce are exactly equal authenticated parts and packet numbers equal in 48 bits |
| `CcmpSpec.HeaderBound` | kernel/ccmp.c:88-130 | they force equal length, type, DS bits, QoS bit, addresses, fragment number, priority and packet number |
| `CcmpSpec.PnBytesExact` | kernel/ccmp.c:128 | the nonce carries the packet number's low 48 bits, no more and no less |
| `CcmpSpec.PnRoundTrip` | kernel/ccmp.c:137-155 | the number read from a CCMP header is the one written, in 48 bits |
| `CcmpLayout.AadIs` | kernel/ccmp.c:105-125 | every byte of the AAD by arithmetic on the header's bytes |
| `CcmpLayout.NonceIs` | kernel/ccmp.c:126-129 | every byte of the nonce: the priority plus 16 for management, the sender, the packet number high byte first |
| `CcmpLayout.ProperPriority` | kernel/ccmp.c:119-124 | for a header of its kind's length the priority is the QoS control's low four bits exactly in QoS data |
| `CcmpLayout.NonceExact` | kernel/ccmp.c:126-129 | equal nonces alone are exactly equal priority, management or not, sender and packet number in 48 bits |
| `CcmpLayout.CcmpHeaderIs` | kernel/ccmp.c:136-144 | every byte of the CCMP header, with the key's number |
| `CcmpLayout.FrameIs` | kernel/ccmp.c:132-149 | the header with Protected set, those eight bytes, the text and the MIC, sealed under the header as it is sent |
| `CcmpFrames.PnWritesBack` | kernel/ccmp.c:137-155 | and the number read from any header is written back as those bytes |
| `CcmpFrames.FrameSurvives` | kernel/ccmp.c:99-162 | a frame gives back its body and packet number after every change that may happen to it on its way |
| `CcmpFrames.OpenedWasSent` | kernel/ccmp.c:151-162 | a frame that opens is an encryption of what it gave, changed no more than that |
| `CcmpFrames.OpenExactly` | kernel/ccmp.c:132-162 | the two together: opening answers (body, number) if and only if such a frame was sent |
| `CcmpFrames.FrameRoundTrip` | kernel/ccmp.c:132-162 | every frame sent is one that opens, to the body and packet number it was made from |
| `CcmpFrames.CountersNeverRepeat` | kernel/ccmp.c:45-62 | over any run with distinct packet numbers all counter blocks are distinct, within and across frames |
| `CcmpFrames.CountersDistinctExactly` | kernel/ccmp.c:126-129 | for one sender's frames of one kind it takes exactly packet numbers distinct in 48 bits |
| `CcmpFrames.CountersAreNoMacStart` | kernel/ccmp.c:17-53 | no counter block of any frame starts any frame's MAC |
| `Ccmp.AadNonce` | kernel/ccmp.c:105-130 | filling the two buffers gives the AAD and the nonce, inside 32 and 13 bytes |
| `Ccmp.Encrypt` | kernel/ccmp.c:132-149 | the frame in memory is the encrypted frame, the body in place or elsewhere, nothing else changed; its length is answered in 32 bits |
| `Ccmp.Decrypt` | kernel/ccmp.c:151-162 | a length, body and packet number exactly when the frame opens, else -1; a frame not marked as CCMP's changes nothing |
| `Record.PrimeInverse` | kernel/blackbox.c:50 | multiplying by the FNV prime is undone by multiplying by 899433627 in 32 bits |
| `Record.OneByteChangesSum` | kernel/blackbox.c:48-52 | changing exactly one byte of a text of any length changes its checksum |
| `Record.SumOf` | kernel/blackbox.c:48-52 | the loop computes that checksum |
| `LogLayout.KnownSums` | kernel/blackbox.c:48-52 | the checksums of nothing and of "a" are FNV-1a's |
| `Record.ParseRecord` | kernel/blackbox.c:316-331 | a head followed by its text is recovered as that text, whatever follows |
| `Record.OneByteRejected` | kernel/blackbox.c:323-328 | a record with one byte of its text changed is not accepted |
| `LogLayout.HeadIs` | kernel/blackbox.c:292-297 | every byte of a record's magic, boot number, length and checksum |
| `LogLayout.ParseExactly` | kernel/blackbox.c:319-331 | exactly what record is accepted, by its bytes |
| `LogText.AppendConcat` | kernel/blackbox.c:71-79 | appending piece by piece is appending the whole |
| `LogText.DropExactly` | kernel/blackbox.c:59-69 | dropping keeps a suffix, starting after a line exactly when the newest half has a line end, empty exactly when it has none before its last byte |
| `LogText.DropKeepsAfter` | kernel/blackbox.c:59-69 | everything after any line end of the newest half is kept |
| `LogText.NothingLostYet` | kernel/blackbox.c:71-79 | nothing is dropped before the buffer is full |
| `LogText.LogIsSuffix` | kernel/blackbox.c:59-79 | the log is a suffix of everything ever appended and leaves room for its terminator |
| `LogText.LogKeepsTheEnd` | kernel/blackbox.c:59-79 | with lines of at most `most` bytes it starts at a line and holds the last BB_TEXT_MAX/2 - most - 1 bytes or all |
| `LogText.EndlessLineIsLost` | kernel/blackbox.c:63-67 | one endless line loses all but its last byte |
| `LogDisk.LogInsideReserved` | kernel/blackbox.c:234-243 | the log's region lies past the boot sector and inside the reserved area |
| `LogDisk.FormattedIsWritable` | kernel/fat.c:788-898 | a volume as the format leaves it, of either width, is one the log may be written to, in a region that ends with the reserved area |
| `LogLayout.WritableExactly` | kernel/blackbox.c:234-267 | exactly which disks may be written to: signature, name, serial and reserved count of either width, and the magic or 16384 zeros, by their bytes |
| `LogLayout.ForeignDataStays` | kernel/blackbox.c:245-267 | over any run, a region without the magic and with any byte of its 16384 not zero keeps the whole disk unchanged |
| `LogLayout.ForeignVolumeStays` | kernel/blackbox.c:234-243 | over any run, a volume that lacks any one of the marks stays unchanged |
| `LogLayout.RunStaysInRegion` | kernel/blackbox.c:234-306 | over any run, a changed byte is one of those 16384 of a volume with all the marks |
| `LogLayout.FlushWritesNeeded` | kernel/blackbox.c:299-303 | a flush changes only sectors the head and the text reach |
| `LogLayout.RecoverExactly` | kernel/blackbox.c:316-333 | what is recovered and logged, and when: a whole record read from a volume of ours, else nothing |
| `BlackBoxRuns.FlushThenRecover` | kernel/blackbox.c:273-331 | a successful flush, any reboot, and recovery give exactly the flushed text |
| `BlackBoxRuns.TornTextRefused` | kernel/blackbox.c:327-328 | one byte of that text changed on the disk, and nothing is recovered |
| `BlackBoxRuns.FlushConfined` | kernel/blackbox.c:234-306 | a flush changes only the log's region, of a volume of ours, when free |
| `BlackBoxRuns.FlushOkExactly` | kernel/blackbox.c:273-306 | a flush succeeds exactly when the reads do, the volume is ours and free, and the disk has and takes the sectors |
| `BlackBoxRuns.RunChangesOnlyLogs` | kernel/blackbox.c:234-306 | over any run, on any volumes, every changed byte was in such a region at some flush |
| `BlackBoxRuns.RunStaysInOneLog` | kernel/blackbox.c:245-306 | on one volume nothing outside the region changes, and a region neither blank nor a log is never changed |
| `BlackBoxRuns.RunLogIs` | kernel/blackbox.c:71-121 | at every moment of any run the text is what appending its history gives |
| `BlackBoxRuns.LogAfterRun` | kernel/blackbox.c:59-121 | so after any run it is the end of that history, with the bounds above |
| `BlackBoxBoots.LandedBoot` | kernel/blackbox.c:281-303 | a first sector that reached the disk says the boot number the flush worked out |
| `BlackBoxBoots.AllOrNothing` | kernel/blackbox.c:303-305 | a successful flush has reached the disk, and an all-or-nothing write keeps the first sector whole |
| `BlackBoxBoots.BootCountsOnce` | kernel/blackbox.c:277-290 | through one boot the number on the disk is the old one until a flush reaches it and one more from then on |
| `BlackBoxBoots.BootsAreCounted` | kernel/blackbox.c:94-306 | over any sequence of boots it rises by one, in 32 bits, for each boot in which a flush reached the disk |
| `BlackBoxBoots.CountNeedsItsRead` | kernel/blackbox.c:281-290 | the first flush to land adds one exactly when the count's read succeeded or there was nothing to count from |
| `BlackBoxBoots.CountLost` | kernel/blackbox.c:281-290 | a flush that lands without having read a record that says boot 1 says boot 1 again |
| `BlackBox.BlackBox.constructor` | kernel/blackbox.c:94-103 | memory starts as the state machine's |
| `BlackBox.BlackBox.Init` | kernel/blackbox.c:94-103 | starting over keeps only what was recovered |
| `BlackBox.BlackBox.DropHalf` | kernel/blackbox.c:59-69 | the memmove leaves the kept suffix |
| `BlackBox.BlackBox.AppendText` | kernel/blackbox.c:71-79 | the text becomes the appended one, terminated inside the buffer |
| `BlackBox.BlackBox.VolumeIsOurs` | kernel/blackbox.c:234-243 | true exactly when no read was missed and the boot sector names a log, and then where it is |
| `BlackBox.BlackBox.RegionIsFree` | kernel/blackbox.c:253-267 | true exactly when no read was missed and the region is a log or blank from end to end |
| `BlackBox.BlackBox.MayWrite` | kernel/blackbox.c:273-275 | a flush goes on exactly when no read was missed and the volume may be written to |
| `BlackBox.BlackBox.CountBoot` | kernel/blackbox.c:281-290 | once a boot, the number is one more than the record's, or 1 when its read was missed or there is none |
| `BlackBox.BlackBox.Flush` | kernel/blackbox.c:273-306 | whatever the disk did, memory, disk and answer are the state machine's step, for the reads the disk missed and the outcome it recorded |
| `BlackBox.FlushRebootRecover` | kernel/blackbox.c:273-341 | while no read is missed a flush succeeds exactly when the volume may be written to and the write is taken, and the next boot is given the text back, cut to the buffer |
| `BlackBox.BlackBox.Recover` | kernel/blackbox.c:316-333 | memory is the state machine's step, with the reads having succeeded exactly when the disk missed none |
| `BlackBox.BlackBox.Prev` | kernel/blackbox.c:335-341 | the first min(length, cap - 1) bytes recovered, terminated, the rest of the buffer untouched |
| `Divide.TurnKeeps` | kernel/divide.c:8-11 | a turn keeps quotient and remainder of the bits shifted in, and the shift loses nothing |
| `Divide.UDivMod` | kernel/divide.c:5-35 | n = q * d + r with r < d for every u64 n and non-zero d; zeros for d = 0 |
| `Divide.UDiv` | kernel/divide.c:16 | the quotient |
| `Divide.UMod` | kernel/divide.c:17 | the remainder |
| `Divide.Div` | kernel/divide.c:19-26 | the truncated quotient for every pair but the least number over -1, which wraps |
| `Divide.Mod` | kernel/divide.c:28-33 | the truncated remainder for every pair |
| `Divide.TruncatedExactly` | kernel/divide.c:19-33 | truncated quotient and remainder are the one pair with a = q * b + r, a smaller remainder, and a's sign on it |
| `Divide.DivModAgree` | kernel/divide.c:19-33 | the two helpers agree modulo 2^64 always, and as numbers exactly off the wrapping pair |
| `AcpiSpec.ParseEncode` | kernel/acpi.c:147-193 | entries encoded parse back, whatever bytes follow |
| `AcpiSpec.EncodeParse` | kernel/acpi.c:150-153 | what is parsed is the front of the bytes, and no entry begins what is left |
| `AcpiSpec.ParseIsLongest` | kernel/acpi.c:150-153 | any well-formed prefix is a prefix of what is parsed |
| `AcpiSpec.ApplyAllIs` | kernel/acpi.c:155-190 | reading with full tables passed over keeps the first so many of all there are, and the last address |
| `AcpiSpec.PrintedTableReads` | kernel/acpi.c:139-194 | printed entries, with anything malformed behind them, read as the first 16 processors, 4 IOAPICs with an address, 16 overrides and the last address |
| `AcpiSpec.EveryEntryIsPrinted` | kernel/acpi.c:155-190 | every entry there can be, longer or shorter than its kind, is one of those printed |
| `AcpiSpec.WholeMadtReads` | kernel/acpi.c:139-194 | so a whole table's bytes, header, address and flags included, read as that |
| `AcpiSpec.PrintedRunsRead` | kernel/acpi.c:203-217 | printed runs of buses read back as the usable ones, field by field |
| `AcpiSpec.WholeMcfgReads` | kernel/acpi.c:196-218 | and a whole table as the first four with those known |
| `AcpiSpec.ByteSumIs` | kernel/acpi.c:87-91 | the sum in one byte is the plain sum modulo 256 |
| `Acpi.BelievedExactly` | kernel/acpi.c:224-229 | exactly which bytes are believed: a length of 36 to 65536 that is there, and a sum of zero |
| `AcpiSpec.SumFixesEachByte` | kernel/acpi.c:87-91 | a table's sum stays the same exactly for one value of each byte |
| `Acpi.ChecksumOk` | kernel/acpi.c:87-91 | true exactly when the bytes sum to zero |
| `Acpi.Info.ReadMadt` | kernel/acpi.c:139-194 | on any bytes it ends, reads only the table, and leaves what its entries say added to what was there |
| `Acpi.Info.ReadMcfg` | kernel/acpi.c:196-218 | the first four usable runs of buses are kept |
| `Acpi.Info.ReadTable` | kernel/acpi.c:224-237 | a table that is not believed changes nothing, one that is goes by its signature |
| `Acpi.OneByteDisbelieved` | kernel/acpi.c:227-229 | a believed table with one byte changed, not one of the length's four, is not believed |
| `BlockDev.CommandsCover` | kernel/blockdev.c:91-99 | ceil(count / run) commands of 1 to run sectors, end to end, covering the request |
| `BlockDev.FewestCommands` | kernel/blockdev.c:91-99 | no fewer commands within a driver's length ask for as many sectors |
| `BlockDev.Layer.ReadOn` | kernel/blockdev.c:83-101 | refused unasked exactly for no device, no read, no sectors or a run of none; else commands end to end from the first sector until one fails, ceil(count / run) of them on success; the buffer holds the sectors of all or of the leading ones and past the failed one is untouched; the sectors counted are those asked for |
| `BlockDev.Layer.WriteOn` | kernel/blockdev.c:103-123 | likewise for a write: one whole write, or exactly the leading commands done and nothing outside the failed one changed |
| `BlockDev.Serve` | kernel/blockdev.c:83-123 | any requests to devices that come and go are a run of the layer's steps; if fewer than 2^32 commands were issued and a disk differs, `io.writes` has moved |
| `BlockDev.GenerationMoves` | include/blockdev.h:54-57 | over any such run the count moves unless a multiple of 2^32 commands were issued, so below that every change is noticed |
| `BlockDev.GenerationStandsStill` | include/blockdev.h:54-57 | a run of exactly 2^32 commands after which a disk differs and the count does not |
| `BlockDev.OneRequestMoves` | kernel/blockdev.c:112-116 | a request that issues anything moves the count |
| `BlockDev.Layer.Register` | kernel/blockdev.c:25-34 | the lowest free number, or none when there is no device or no room |
| `BlockDev.Layer.Unregister` | kernel/blockdev.c:36-38 | only that number is freed |
| `BlockDev.Layer.Count` | kernel/blockdev.c:40-45 | the highest number in use plus one |
| `DiskFs.ZelrIsMadeHere` | kernel/fat.c:590-627 | a volume this kernel made is one this system made |
| `DiskFs.BestExactly` | kernel/diskfs.c:217-242 | there is a best choice exactly when some partition can be mounted, and only one |
| `DiskFs.Files.MountBest` | kernel/diskfs.c:220-242 | something is mounted exactly when some FAT partition not the EFI System Partition can be: one of ours or the first, and the first of ours if there is one unless a read was missed; only such partitions are handed over |
| `DiskFs.Files.MountDisk` | kernel/diskfs.c:165-245 | by the entries' fields and the disk's bytes: the answers, what is mounted after each, that no EFI System Partition is handed over, the choice, and that only a volume made here is swept |
| `DiskFs.OnlyEfi` | kernel/diskfs.c:217-244 | a table whose FAT partitions are all EFI System Partitions: -2, nothing done, what was mounted stays |
| `DiskFs.ZelrExactly` | kernel/fat.c:610-627 | a volume this kernel made, by its bytes |
| `DiskFs.Files.DiskIsBlank` | kernel/diskfs.c:119-132 | true exactly when no read was missed and the first 256 sectors and the last are zero |
| `DiskFs.Files.FormatDisk` | kernel/diskfs.c:140-163 | a format is begun exactly on an unpartitioned disk that is mounted from end to end, or blank with no read missed, and its answer is given; otherwise nothing on the disk changes |
| `DiskFs.BlankIsNobodys` | kernel/diskfs.c:101-117 | a disk that looks blank has no boot signature and no volume of ours where it was looked at |
| `DiskFs.BlankExactly` | kernel/diskfs.c:119-132 | a disk looks blank exactly when its first 131072 bytes, or all of a smaller one, and its last 512 are zero |
| `DiskFs.EntryExactly` | kernel/diskfs.c:60-68 | which entries of a stick's table are tried, by their bytes |
| `DiskFs.NeverTheEfiPartition` | kernel/diskfs.c:44-54 | no entry tried on a stick is an EFI System Partition |
| `DiskFs.Stick.MountRemovable` | kernel/diskfs.c:56-82 | the first entry of the stick's table the mounter takes, else the whole device; without the table exactly when its read was missed or it has none |

## Left out

- AES: the block cipher is any total function on 16 byte blocks. Only `OneBlockChangesMac` and `OneByteChangesMac` ask more of it, that it keeps different blocks apart.
- The timing of the MIC comparison, and the replay check kept by the callers of `ccmp_decrypt`.
- Messages of more than 2^32 - 16 bytes, where the C loop's 32 bit counter would wrap and not end.
- The screen, the fault dump, serial mirroring and number formatting of the black box: formatted text is any bytes; `wrapped` is set and never read.
- BlackBox.BlackBox.Flush: sector numbers are not cut to 32 bits, because a volume whose reserved area ends past sector 2^32 cannot be mounted; `blk_flush` after the write has an answer nobody reads.
- BlackBox.BlackBox.Flush: the 32 sector record is written as one request whose failure may leave anything in its sectors; how the block layer cuts it up is in `BlockDev`.
- DiskFs.Files.MountDisk: whether the mounter takes a volume is given as a function of its first sector's number, the same each time; reading the FAT geometry is not modelled, nor is the boot sector repair before the sweep.
- DiskFs.Files.FormatDisk: what a format leaves on the disk is not said, only whether it was begun and what it answered; a failed one may or may not have taken away what was mounted.
- Ccmp.Decrypt: header lengths past 2^32 - 17, where the C sum `hdr_len + 16` would wrap; every caller passes at most 32.
- Scanning for partitions, and the checks that refuse a damaged table.
- Finding the RSDP, choosing RSDT or XSDT, mapping physical memory, and the FADT.
- BlockDev.Layer.WriteOn: a driver is trusted for commands of 1 to its stated length only, and not to touch sectors outside a command; its registers and DMA are not modelled.
- The block layer's probing for the boot disk, its flush, and the model and driver names.
- `diskfs_flush` and unmounting, which pass a call on.
