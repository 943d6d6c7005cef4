# LinkStation flash driver and kernel loader, in Dafny

This project models two parts of the U-Boot port for the Buffalo
LinkStation/KuroBox boards:

- The CFI flash driver for AMD/Fujitsu-standard parts (`board/linkstation/flash.c`):
  - probing the chip's Common Flash Interface (CFI) query table at x8, then at x16;
  - setting up the command set, resolving the boot-block location and reordering the erase regions;
  - computing the timeout budgets and laying out the sector table;
  - choosing a write routine for the part;
  - the DQ7/DQ5 status poller, sector erase, and the three write routines with their read-back verify.
- The `bootls` kernel loader (`board/linkstation/bootls.c`, `board/linkstation/firminfo.h`):
  - the firmware header and its "FLASH" magic;
  - the image checksum;
  - the layout of the command line and board information below the stack;
  - placement of the initial ramdisk, the boot records, and the kernel arguments.

The chip is a value, not hardware. It is described by what it presents on the
bus:
- a query table and an autoselect table, both indexed by address;
- read-array data indexed by address and by the ordinal of the read, so status
  bits can change from one poll to the next.

What the driver does to the chip is a trace of byte writes (`Bus.Port`).
Unsigned 32-bit arithmetic is written out with `CInt.Wrap32`.
`CInt.Shl1` is the C `1 << n` as an `int` on a PowerPC: the shift count is
taken modulo 64, and a shift past bit 31 leaves the low 32 bits zero.

Modules, in dependency order:
- `CInt`: C integer helpers.
- `Bus`: the register port and `cfi_cmd`.
- `Poll`: `flash_amdstd_state`.
- `Cfi`: the identity block and `cfi_probe_chip`.
- `Setup`: `cfi_amdstd_setup`.
- `Init`: `flash_init`.
- `Erase`: `flash_amdstd_erase`.
- `Cycles`: the shape the three write loops share (steps of writes, each
  followed by a poll, ending at the first failed poll), with a reference
  description of every step.
- `Program`: vrfy, write, wubyp, wbuff and `write_buff`.
- `Checksum`: `checksum_check`.
- `FirmInfo`: `struct firminfo`.
- `Boot`: `do_boot_lskernel`.

## Model

| member | source | states |
|---|---|---|
| Bus.CmdOffset | board/linkstation/flash.c:147-158 | a command goes to cmd_addr times the bus width, except that an offset of 0x554 is bumped to 0x555; the offset used is never 0x554 |
| Poll.Passes | board/linkstation/flash.c:646-664 | the `do … while` loop makes at least one pass, one pass for a budget of 0, exactly `timeout` passes for a budget from 1 to 2^32-1, and 2^32 + `timeout` passes for a negative `int` budget, which the comparison reads as unsigned |
| Poll.StateIsSucceeds | board/linkstation/flash.c:646-666 | the poll reports success if and only if some pass within the budget reads DQ7 equal to the target's, or reads DQ5 and then re-reads a matching DQ7, with every earlier pass showing neither; the poll writes nothing and reads at least once |
| Poll.LoopIsSucceeds | board/linkstation/flash.c:653-665 | the same if-and-only-if for any number of allowed passes |
| Poll.LoopShape | board/linkstation/flash.c:653-665 | the poll issues no writes and makes between one read and one read per pass plus one |
| Poll.FirstReadMatches | board/linkstation/flash.c:654-656 | a first read whose DQ7 matches ends the poll successfully after exactly one read |
| Poll.Dq5DecidesOnReRead | board/linkstation/flash.c:657-662 | DQ5 on a non-matching read makes exactly one more read decide the outcome, whatever time is left |
| Poll.QuietTimesOut | board/linkstation/flash.c:664-665 | when no pass matches or shows DQ5, the poll fails only after using every pass the budget allows |
| Cfi.Decode | board/linkstation/flash.c:314-333 | decoding the bytes read from 10h gives a well-formed identity whose fields fit their C widths, with NumEraseRegions region words |
| Cfi.DecodeRegions | board/linkstation/flash.c:331-333 | region word i is the little-endian 32-bit word at offset 29 + 4i of the block |
| Cfi.HeaderRoundTrip | board/linkstation/flash.c:91-114 | every field of the encoded block sits at its offset in `struct cfi_ident`, with the 16-bit fields little-endian |
| Cfi.DecodeEncode | board/linkstation/flash.c:91-114 | encoding an identity in the wire layout and decoding it gives the same identity back |
| Cfi.EncodeDecode | board/linkstation/flash.c:314-323 | decoding the bytes read and encoding the result reproduces those bytes: the header plus four bytes per region |
| Cfi.CountFromWire | board/linkstation/flash.c:332-333 | the sector count field (low 16 bits of the byte-swapped region word) is the little-endian value of the word's first two bytes |
| Cfi.SectorTotalFromWire | board/linkstation/flash.c:330-337 | the sector total of the decoded regions equals the total read straight from the query table |
| Cfi.ReadIdent | board/linkstation/flash.c:314-315 | byte i of the block read is the query byte at offset 10h + i, scaled by the bus width |
| Cfi.ProbeReadOverruns | board/linkstation/flash.c:314-315 | for every accepted region count n, the loop as written copies 45 + 4n bytes into the 45-byte structure, 4n bytes too many; the corrected bound stays inside the structure |
| Cfi.OverReadDecodesSame | board/linkstation/flash.c:314-323 | the extra bytes of the as-written loop change nothing decoded from the structure |
| Cfi.ProbeChip | board/linkstation/flash.c:273-350 | on every path the probe sends reset, query entry and reset. It succeeds if and only if the table shows "QRY", 1 to 4 erase regions and at most the board's sector maximum. Each refusal is reported under its own condition. On success the identity is well-formed and is exactly the block the chip presents from 10h |
| Setup.BootLocation | board/linkstation/flash.c:484-498 | below extended-table version 1.1, top boot holds if and only if bit 7 of device id 0 is set, and bottom boot otherwise; from 1.1 on, the table's own field is used |
| Setup.Reverse | board/linkstation/flash.c:500-510 | the reversed list has the same length and element i is element n-1-i of the input |
| Setup.SwapRegions | board/linkstation/flash.c:500-510 | the in-place swap loop over the first half produces the reversed list |
| Setup.OrderRegions | board/linkstation/flash.c:500-510 | erase regions are reversed exactly when the part is top boot and has more than one region, and are left unchanged otherwise |
| Setup.SectorTotalReverse | board/linkstation/flash.c:500-510 | reordering the regions does not change the number of sectors |
| Setup.RawTimeExact | board/linkstation/flash.c:531-532 | without overflow, the `int` product of the two shifted timeouts is 2^(typ+max) |
| Setup.BudgetBounds | board/linkstation/flash.c:531-546 | for exponents summing to at most 30, every write budget is at least 2 ms. It is exactly 2 below 1000 µs, and otherwise the whole milliseconds plus one. The erase time stays the raw product |
| Setup.BudgetOverflow | board/linkstation/flash.c:531-534 | exponents summing to 31 overflow the product to INT_MIN, and the budget comes out negative |
| Setup.SectorTable | board/linkstation/flash.c:550-562 | one start per sector of the regions, the first at the flash base, and each next start the previous one plus its sector size, modulo 2^32 |
| Setup.StartsAscend | board/linkstation/flash.c:550-562 | when the table stays below 2^32 and no sector is empty, each start is the base plus the sizes before it, and the starts strictly ascend |
| Setup.DeviceIds | board/linkstation/flash.c:473-477 | device id 0 is read at offset 1. Ids 1 and 2 are read at 0Eh and 0Fh only after the 7Eh continuation byte, and otherwise keep the 0 of the initial memset |
| Setup.AutoselectUsesUnlockOffsets | board/linkstation/flash.c:469-471 | at x8 and x16, the autoselect cycles land on the unlock offsets set at flash.c:515-525 for the byte-wide program and erase cycles |
| Setup.Lookup | board/linkstation/flash.c:564-626 | a found entry is in the table and matches the manufacturer and ids; when nothing is found, no entry of the table matches |
| Setup.SwitchIsTableLookup | board/linkstation/flash.c:564-626 | the nested vendor/device switch makes the same choice of flash id, write routine and part name as a lookup in the table of known parts |
| Setup.StmKnown | board/linkstation/flash.c:582-604 | an ST part with a known first id byte is found at its row and gets that row's id, the unlock-bypass writer and its name |
| Setup.StmUnknown | board/linkstation/flash.c:605-607 | any other ST part is in no row and is marked unknown with no writer |
| Setup.Select | board/linkstation/flash.c:628-635 | when the type bits say unknown, the name is cleared and the writer is buffer program if and only if the chip reports a write buffer; otherwise the switch's choice stands |
| Setup.AmdStdSetup | board/linkstation/flash.c:456-640 | setup issues the seven setup commands and reorders the regions by boot location. It fails only for a width other than x8 and x16. Otherwise it records: the unlock offsets; the three budgets; the ids; the selected writer; a size equal to the C value of `1 << DevSize`; and a sector table over the reordered regions from the flash base |
| Init.ProbeDependsOnChip | board/linkstation/flash.c:195-199 | the probe's verdict depends only on the chip, not on the commands issued before it |
| Init.SetupEither | board/linkstation/flash.c:205-221 | the primary command set is used when it is AMD standard, the alternate one when that gave nothing; with neither, nothing is set up and the size is 0 |
| Init.FourMiBSizes | board/linkstation/flash.c:223-228 | the C value of `1 << DevSize` (flash.c:548) is 4 MiB if and only if DevSize is 22 modulo 64 |
| Init.FlashInit | board/linkstation/flash.c:180-238 | the size returned is 0 or 4 MiB. When neither width answers, it is 0 and only the commands of the two probes were sent. Otherwise it is 4 MiB if and only if a command set is AMD standard and the device reports 4 MiB, at the first width that answered |
| Erase.ProtectedCount | board/linkstation/flash.c:727-730 | the count is at most the range size, and equals it if and only if every sector in the range is protected |
| Erase.LastUnprotected | board/linkstation/flash.c:751-755 | the sector found is unprotected, in range, and has only protected sectors above it; none is found if and only if all are protected |
| Erase.CountProtected | board/linkstation/flash.c:727-739 | the loop computes the protected count, which equals the range size exactly when no sector is left to erase |
| Erase.EraseCommandsSound | board/linkstation/flash.c:751-755 | there is one 30h command per unprotected sector, and each goes to the start of an unprotected sector of the range |
| Erase.EraseTargetsUnprotected | board/linkstation/flash.c:751-755 | with distinct sector starts, a sector of the range gets an erase command if and only if it is unprotected |
| Erase.SendSectorErases | board/linkstation/flash.c:746-755 | the loop appends the erase commands in ascending order and ends with the start of the last unprotected sector |
| Erase.PollState | board/linkstation/flash.c:763 | the poll as a call, with its if-and-only-if success condition |
| Erase.EraseSectors | board/linkstation/flash.c:703-770 | erase returns 1 with no bus cycle for unsupported flash, a bad range or all sectors protected. Otherwise it sends the setup and the erase commands and polls the last unprotected sector for FFh with the erase time times the sector count. It returns 0 if and only if that poll succeeds, and 1 after a reset otherwise |
| Program.Verify | board/linkstation/flash.c:671-698 | verify returns 0 or 1 and only adds writes and reads; a 1 always ends with a reset |
| Program.VerifyHolds | board/linkstation/flash.c:671-698 | on a chip that holds the data, verify reads each byte once, writes nothing and returns 0 |
| Program.VerifyRetryFails | board/linkstation/flash.c:681-692 | a mismatching byte is read once more for the message and gets exactly one program cycle and one poll; if that poll fails, verify stops with a reset and 1 |
| Program.VerifyMatch | board/linkstation/flash.c:680-681 | a byte that reads back right costs one read, and verify goes on with the next byte |
| Program.VerifyRetrySucceeds | board/linkstation/flash.c:681-695 | a mismatching byte whose reprogram poll succeeds does not fail verify: it goes on with the next byte from the port that poll leaves |
| Cycles.RunOk | board/linkstation/flash.c:876-887 | a loop of steps, each some writes and then a poll, reports success if and only if every step's poll succeeds, each step starting from the port the steps before it leave |
| Cycles.RunDone | board/linkstation/flash.c:876-887 | when every poll succeeds, the loop leaves the port the last step's poll leaves |
| Cycles.RunFails | board/linkstation/flash.c:880-885 | when step k is the first whose poll fails, the loop stops right after that poll, adds its tail of writes and reports failure |
| Cycles.SomeFirstFail | board/linkstation/flash.c:876-887 | when not every poll succeeds, some step is the first to fail |
| Cycles.BeforeTrace | board/linkstation/flash.c:876-887 | before step k the trace is the earlier steps' writes in order, and the chip is unchanged |
| Cycles.FailTrace | board/linkstation/flash.c:880-885 | when step k is the first to fail, the trace is the writes of steps 0 to k followed by the tail |
| Program.ByteProgram | board/linkstation/flash.c:865-891 | byte program returns 0 or 1 and only adds to the trace; a 1 ends with a reset |
| Program.ByteLoopHolds | board/linkstation/flash.c:876-887 | on a chip that holds the data, the loop sends one unlock-and-program cycle per byte at consecutive addresses and makes one poll read per byte |
| Program.ByteLoopRuns | board/linkstation/flash.c:876-887 | the byte loop is the step loop over one step per byte (its program cycle, then a poll of its address for it) with the reset as the failure tail, and returns 0 exactly when every poll succeeds |
| Program.ByteProgramOutcome | board/linkstation/flash.c:865-891 | byte program returns 0 if and only if every byte's poll succeeds and the verify after the closing reset returns 0; when every poll succeeds the result is that verify's |
| Program.ByteLoopTimeout | board/linkstation/flash.c:876-887 | when byte k's poll is the first to time out, the loop returns 1 and its writes are the program cycles of bytes 0 to k, and a reset |
| Program.ByteProgramTimeout | board/linkstation/flash.c:876-887 | when byte k's poll is the first to time out, byte program returns 1 and its writes are the opening reset, the program cycles of bytes 0 to k, and a reset |
| Program.ByteProgramHolds | board/linkstation/flash.c:865-891 | on a chip that holds the data, byte program succeeds; its writes are a reset, one program cycle per byte and a reset, and it reads each byte twice |
| Program.BypassProgram | board/linkstation/flash.c:829-860 | unlock-bypass program returns 0 or 1 and only adds to the trace; a 1 ends with a reset |
| Program.BypassLoopHolds | board/linkstation/flash.c:843-854 | on a chip that holds the data, the loop sends A0h and the data byte for each byte at consecutive addresses, with one poll read each |
| Program.BypassLoopRuns | board/linkstation/flash.c:843-854 | the bypass loop is the step loop over one step per byte (A0h and the byte at its address, then a poll) with the bypass exit as the failure tail, and returns 0 exactly when every poll succeeds |
| Program.BypassProgramOutcome | board/linkstation/flash.c:829-860 | unlock-bypass program returns 0 if and only if every byte's poll succeeds and the verify after the bypass exit returns 0; when every poll succeeds the result is that verify's |
| Program.BypassLoopTimeout | board/linkstation/flash.c:843-854 | when byte k's poll is the first to time out, the loop returns 1 and its writes are the two writes of bytes 0 to k, and the bypass exit (90h, 00h, F0h) |
| Program.BypassProgramTimeout | board/linkstation/flash.c:841-854 | when byte k's poll is the first to time out, unlock-bypass program returns 1 and its writes are the unlock and bypass entry, the two writes of bytes 0 to k, and the bypass exit (90h, 00h, F0h) |
| Program.BypassProgramHolds | board/linkstation/flash.c:829-860 | on a chip that holds the data, bypass program succeeds with one unlock and bypass entry, two writes per byte, and the bypass exit |
| Program.FirstChunk | board/linkstation/flash.c:787-796 | the first chunk is never empty and never longer than the data |
| Program.FirstChunkInPage | board/linkstation/flash.c:787-796 | the first chunk lies inside one write-buffer page, and when shorter than the data it ends on a buffer boundary, also at the top of the 32-bit space |
| Program.Chunks | board/linkstation/flash.c:798-821 | the loop's chunks are non-empty and inside the data, the first of the chosen length; there are none exactly for empty data |
| Program.ChunksTile | board/linkstation/flash.c:798-821 | each chunk starts where the previous one ended and the last ends at the end of the data; the chunks after the first are whole buffers except perhaps the last |
| Program.ChunksInPages | board/linkstation/flash.c:787-821 | every chunk lies inside one write-buffer page and every chunk after the first starts on a buffer boundary |
| Program.SectorIndex | board/linkstation/flash.c:799-802 | the search stops at the last sector whose start is at or below the address |
| Program.OwningSector | board/linkstation/flash.c:799-802 | the sector chosen starts at or below the address, and no start at or below the address is higher |
| Program.DataWritesAt | board/linkstation/flash.c:808-809 | data byte k is written at the chunk address plus k |
| Program.ChunkPoll | board/linkstation/flash.c:804-816 | a chunk's cycle only adds to the trace; on a chip that holds the data, polling the chunk's last byte succeeds after one read |
| Program.BufferProgram | board/linkstation/flash.c:775-824 | buffer program returns 0 or 1 and only adds to the trace; a 1 ends with a reset |
| Program.BufLoopHolds | board/linkstation/flash.c:798-821 | on a chip that holds the data, the loop sends one write-buffer cycle per chunk, in order, each to its owning sector, with one poll read per chunk |
| Program.ChunkPollIsStep | board/linkstation/flash.c:804-816 | a chunk's cycle and poll are one step: its write-buffer cycle, then a poll of its last byte for the last data byte with the buffer-program budget |
| Program.BufLoopRuns | board/linkstation/flash.c:798-821 | the chunk loop is the step loop over one step per chunk with the reset as the failure tail, and returns 0 exactly when every poll succeeds |
| Program.BufferProgramOutcome | board/linkstation/flash.c:775-824 | buffer program returns 0 if and only if every chunk's poll succeeds and the verify after the loop returns 0; when every poll succeeds the result is that verify's |
| Program.BufLoopTimeout | board/linkstation/flash.c:798-821 | when chunk k's poll is the first to time out, the chunk loop returns 1 and its writes are the write-buffer cycles of chunks 0 to k, and a reset |
| Program.BufferProgramTimeout | board/linkstation/flash.c:775-824 | when chunk k's poll is the first to time out, buffer program returns 1 with what the chunk loop leaves, without reaching the verify |
| Program.BufferProgramHolds | board/linkstation/flash.c:775-824 | on a chip that holds the data, buffer program succeeds with exactly those cycles, one poll read per chunk and one verify read per byte |
| Program.WriteBuff | board/linkstation/flash.c:268-271 | the call goes to the routine setup bound (byte program, unlock-bypass program or buffer program); it returns 0 or 1 and only adds to the trace; a 1 ends with a reset |
| Program.WriteBuffHolds | board/linkstation/flash.c:268-271 | whichever routine setup bound, writing data the chip then holds succeeds, and every byte is read back at least once |
| Checksum.PackedIsTail | board/linkstation/bootls.c:79-83 | shifting in four bytes, with zeros past the end, gives the remaining bytes in the top of a big-endian word |
| Checksum.WholeWords | board/linkstation/bootls.c:73-77 | the word loop stops with fewer than four bytes left, and its sum plus the padded rest is the reference checksum |
| Checksum.Remainder | board/linkstation/bootls.c:78-83 | the tail loop yields the padded value of the last partial word |
| Checksum.ChecksumCheck | board/linkstation/bootls.c:68-86 | the checksum of the first size bytes is the reference: big-endian words summed modulo 2^32, with a last partial word padded with zeros |
| Checksum.PadSumAppend | board/linkstation/bootls.c:73-77 | after whole words, the padded sum of the rest adds on |
| Checksum.AppendWord | board/linkstation/bootls.c:68-86 | appending a word to whole-word data adds its big-endian value to the checksum modulo 2^32 |
| Checksum.FixupPasses | board/linkstation/bootls.c:132-140 | every whole-word image can be made to pass the check by appending the fix-up word |
| FirmInfo.Decode | board/linkstation/firminfo.h:5-26 | the 108-byte header decodes into fields that fit their C types |
| FirmInfo.DecodeEncode | board/linkstation/firminfo.h:5-26 | encoding a header and decoding it, whatever follows, gives the header back |
| FirmInfo.EncodeDecode | board/linkstation/firminfo.h:5-26 | decoding the first 108 bytes and encoding the result reproduces them |
| FirmInfo.MagicCheck | board/linkstation/bootls.c:116-120 | the loop accepts if and only if the first five sub-version bytes are "FLASH" |
| Boot.SubAlign | board/linkstation/bootls.c:168 | the result is a multiple of the alignment; without wrap it is the highest such value that leaves n bytes below x |
| Boot.StackTop | board/linkstation/bootls.c:160-165 | the stack pointer less the margin is 16-byte aligned |
| Boot.Place | board/linkstation/bootls.c:160-176 | the limit, the command line and the board information are 16-byte aligned, and the limit is at most both the boot map size and the stack pointer less 2 KiB |
| Boot.LimitHighest | board/linkstation/bootls.c:162-165 | the limit is the highest 16-byte aligned address below both bounds |
| Boot.AreasInOrder | board/linkstation/bootls.c:168-176 | when nothing wraps, the board information ends at or below the command line and the argument area at or below the limit; a command line shorter than the area fits with its NUL |
| Boot.LimitBelowStackTop | board/linkstation/bootls.c:160-165 | the reserved area lies below the stack top |
| Boot.CommandLine | board/linkstation/bootls.c:169-170 | the command line is `bootargs` when set and "root=/dev/hda1" otherwise |
| Boot.KernelBoard | board/linkstation/bootls.c:177-182 | the kernel's board information is the monitor's copy; with `clocks_in_mhz` set, both clocks are in whole MHz, rounded down, and nothing else changes |
| Boot.RelocTarget | board/linkstation/bootls.c:204-208 | the copy target is page-aligned and, without wrap, the copy ends at or below the stack top |
| Boot.Ramdisk | board/linkstation/bootls.c:186-219 | there is no ramdisk exactly when its size is 0. A ramdisk in the flash window is copied whole to the target. The end is always start plus size, modulo 2^32 |
| Boot.RamdiskNoWrap | board/linkstation/bootls.c:209-210 | a copy that does not wrap ends size bytes after its target |
| Boot.InitrdAsWrittenOverlapsLowStack | board/linkstation/bootls.c:160-213 | with the stack top at 4 MiB, below an 8 MiB boot map, the limit is the stack top, and a 4 KiB ramdisk copied as written covers the board information and the command line |
| Boot.InitrdAsWrittenOverlaps | board/linkstation/bootls.c:204-213 | with the stack at 8 MiB + 2 KiB, an 8 MiB boot map and a 4 KiB ramdisk in flash, the copy as written covers the board information and the command line |
| Boot.CopyTarget | board/linkstation/bootls.c:194-208 | the corrected target is page-aligned and, when nothing wraps, the copy ends below the stack top and misses the reserved area |
| Boot.PlaceInitrdAgrees | board/linkstation/bootls.c:186-219 | the corrected placement equals the written one whenever the written target is at or above the limit |
| Boot.PlaceInitrdClear | board/linkstation/bootls.c:194-213 | when nothing wraps, a copied ramdisk lies below the stack top and clear of the command line and board information |
| Boot.BiRecords | board/linkstation/bootls.c:226-232 | two records, BI_FIRST then BI_LAST, each 8 bytes, the second right after the first |
| Boot.RecordsPastKernel | board/linkstation/bootls.c:226-227 | for any kernel within the 4 MiB unpack limit, the records start on a 1 MiB boundary at least 1 MiB - 1 past the kernel and before the following boundary |
| Boot.Launch | board/linkstation/bootls.c:160-301 | the jump carries the board-information pointer 0xFF000001, the ramdisk bounds, the command line's start and end, the kernel's board information and the boot records; the ramdisk is placed as the code places it: none exactly when its size is 0, and a copied one page-aligned and, without wrap, ending at or below the stack top, with no check against the reserved area |
| Boot.LaunchOverlaps | board/linkstation/bootls.c:160-213 | with the input of the ramdisk finding, the ramdisk the loader hands the kernel covers the board information and the command line it hands it |
| Boot.BootKernel | board/linkstation/bootls.c:116-301 | the loader refuses a header without the magic. With verification on, it refuses a non-zero checksum and reports it. It resets when the unpack fails, and otherwise jumps with the arguments Boot.Launch lays out; each outcome is stated as an if-and-only-if |
| Boot.BootLs | board/linkstation/bootls.c:88-301 | the step-by-step method (magic loop, checksum loop, then the rest) produces the outcome described by BootKernel |

## Left out

- `board/linkstation/hwctl.c` is not part of this model.
- The printing code is out of scope: flash_print_info, print_cfi_ident, vendorname, the debug and printf messages, and the product-information banner. They have no effect on the flash or on the boot, except the one extra read in verify, which is modelled.
- `flash_protect` is not modelled. `flash_init` calls it with a 4 MiB part, and it marks sectors in a table that erase takes as its `protect` parameter.
- Timers are out of scope: `get_timer` and `udelay`. The poll's time budget is a number of passes, one timer tick per pass.
- Interrupt enabling and disabling are out of scope.
- Poll.Passes: a pass is assumed to take one tick, so the real number of passes within the budget is not modelled.
- gunzip is not modelled. Its outcome is the parameter `unzipped` of Boot.BootKernel: the unpacked size, or None on failure. The failure path is `do_reset`, modelled as the outcome `Reset`.
- The copies themselves are not modelled: the memmove of the ramdisk, the strcpy of the command line and the copy of the board information. The model records where each goes.
- The LED and power-controller signalling before the jump (bootls.c:234-289) is not modelled.
- The monitor's stack pointer is a parameter, read once. The source reads it again at bootls.c:204, at the same call depth.
- Board configuration constants are parameters: the flash base, CFG_MAX_FLASH_SECT, the vendor and device ids, the FLASH_* type codes, CFG_BOOTMAPSZ, CFG_BARGSIZE and sizeof(bd_t).
- Only the two clock fields of the board information are named; the other fields are carried as opaque words.
- Environment values are assumed free of NUL characters.
- Write and erase addresses are unbounded naturals; the write loops do not wrap at 2^32.
- Query-table and autoselect reads are assumed stable: the same address always gives the same byte.
- Program.BufferProgram requires a write-buffer size that is not 0 in 32 bits (MaxBufWriteSize modulo 64 below 32). With a size of 0 the chunk length is 0 (flash.c:789-796). Each pass of the loop at flash.c:798-821 then sends the unlock, 25h, FFh (the length less one, as a byte), no data and 29h. It polls the address before the buffer for the byte before the data. The loop repeats without progress while those polls succeed, and returns 1 after a reset at the first timeout (flash.c:812-815). This path is not modelled.
- Program.BufferProgram requires a start address at or above the first sector. Otherwise the source reads `start[-1]`.
- Program.WriteBuff: `write_buff` passes its `ulong` count to the routine's `int sz` (flash.c:129, 268-271). The model takes the length of the data as the count and does not model that conversion. For a count of 2^31 or more, sz is negative. The byte and bypass loops (flash.c:843, 876) and the verify loop (flash.c:680) then do nothing and return 0. Buffer program's `size = sz` (flash.c:785) turns it back into the count modulo 2^32, and its closing verify checks nothing.
- Program.WriteBuff requires that setup bound a write routine. The source calls through a null pointer when it did not.
- Erase.EraseSectors requires at least one sector in the table.
- Checksum.ChecksumCheck and Boot.BootKernel require the image size in the header to lie within the memory given. The source reads whatever follows.
- Boot.AreasInOrder: a `bootargs` at least as long as CFG_BARGSIZE overflows the argument area in the source. The lemma states the fit only for shorter command lines.
- Cfi.ProbeReadOverruns: the 4n bytes the probe copies past `cfi_idents` land in whatever static the linker puts after it, possibly the pointer `cfi` declared next (flash.c:166-168), which flash_init dereferences at flash.c:206. That effect depends on the link layout and is not modelled.

## Findings

| source | as written | input that shows it | evidently intended | confidence | as-written member | corrected member |
|---|---|---|---|---|---|---|
| board/linkstation/flash.c:314 | copies `sizeof(struct cfi_ident) + num_erase_regions * 4` bytes, but the structure already includes its four region words | any accepted chip, e.g. one with 1 erase region: 49 bytes are copied into the 45-byte structure | copy the 29-byte header plus 4 bytes per region | not executed | Cfi.AsWrittenReadLength, Cfi.ProbeReadOverruns | Cfi.IdentReadLength, used by Cfi.ProbeChip |
| board/linkstation/bootls.c:204-210 | the ramdisk is copied to just below the stack, with no check against the command line and board information placed there | stack pointer 0x800800, CFG_BOOTMAPSZ 0x800000, CFG_BARGSIZE 0x100, sizeof(bd_t) 0x40, a 4 KiB ramdisk at offset 1 MiB of an image at 0xFFC00000: the copy covers 0x7FF000-0x800000, which holds the command line at 0x7FFF00 | the comment at bootls.c:199-202 promises a place that does not overwrite the command line and board information | not executed | Boot.InitrdAsWritten, Boot.InitrdAsWrittenOverlaps, Boot.InitrdAsWrittenOverlapsLowStack, Boot.LaunchOverlaps | Boot.CopyTarget, Boot.PlaceInitrd, Boot.PlaceInitrdClear |

The loader model (Boot.Launch, Boot.BootKernel, Boot.BootLs) keeps the ramdisk placement as written, so that it describes what the code does. The corrected placement is stated beside it. Boot.PlaceInitrdAgrees shows the two agree whenever the written target is at or above the reserved area. The written copy [T, T + size), with T the stack top less the size rounded down to a page, overlaps the reserved area [kbd, limit) whenever T lies below the limit while T + size lies above kbd. Once the limit is clamped to CFG_BOOTMAPSZ, that takes a stack top less than about the ramdisk size above CFG_BOOTMAPSZ. When the stack top is at or below CFG_BOOTMAPSZ, the limit is the stack top itself and the copy ends within a page of it. Boot.InitrdAsWrittenOverlapsLowStack shows that case with the stack top at 4 MiB.
