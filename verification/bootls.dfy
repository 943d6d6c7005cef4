/** `do_boot_lskernel` (bootls.c:88-301): check the header, unpack the
    kernel, then lay out the command line and the board information below
    the stack, place the initial ramdisk, write the two boot records past the
    kernel and jump to it. */
module Boot {
  import opened CInt
  import opened Checksum
  import opened FirmInfo

  /** Bytes kept free under the stack pointer, "just to be sure". */
  const STACK_MARGIN: nat := 2048
  const MIB: nat := 0x10_0000
  const PAGE: nat := 4096
  const BI_FIRST: U32 := 0x1010
  const BI_LAST: U32 := 0x1011
  /** sizeof(struct bi_record): the tag and size words. */
  const BI_RECORD_SIZE: U32 := 8
  /** The board-information pointer handed to the kernel in r3. */
  const KERNEL_BD: U32 := 0xFF00_0001
  /** The output limit given to gunzip. */
  const UNZIP_LIMIT: nat := 0x40_0000
  const DEFAULT_BOOTARGS: seq<char> := "root=/dev/hda1"
  /** A ramdisk strictly inside this window is in flash and is copied to RAM. */
  const FLASH_LO: U32 := 0xFFC0_0000
  const FLASH_HI: U32 := 0xFFEF_FFFF

  /** The board's configuration: CFG_BOOTMAPSZ, CFG_BARGSIZE and
      sizeof(bd_t). */
  datatype Config = Config(bootMapSz: U32, bargSize: U32, bdSize: U32)

  /** The environment: variable name to value. */
  type Env = map<seq<char>, seq<char>>

  /** The board information: the two clock fields the loader converts, the
      rest of the structure as words it copies unchanged. */
  datatype BoardInfo = BoardInfo(intFreq: U32, busFreq: U32, others: seq<U32>)

  /** Top of the reserved area, start of the command line, start of the
      board-information copy. */
  datatype Layout = Layout(limit: U32, cmdline: U32, kbd: U32)

  /** A copy of len bytes from src to dst. */
  datatype Move = Move(src: U32, dst: U32, len: U32)

  /** The ramdisk bounds passed to the kernel and the copy made, if any. */
  datatype Initrd = Initrd(start: U32, end: U32, moved: Option<Move>)

  datatype BiRecord = BiRecord(addr: U32, tag: U32, size: U32)

  /** The five kernel arguments r3..r7. */
  datatype KernelArgs = KernelArgs(bd: U32, initrdStart: U32, initrdEnd: U32, cmdStart: U32, cmdEnd: U32)

  datatype Outcome =
    | NotLinkstation
    | ChecksumFailed(sum: U32)
    | Reset
    | Jump(args: KernelArgs, layout: Layout, cmdline: seq<char>, board: BoardInfo,
           initrd: Initrd, records: seq<BiRecord>)

  /** `(x - n) & ~(m - 1)` in 32-bit arithmetic: n below x, rounded down
      to a multiple of m; without wrap it is the highest multiple of m that
      leaves n bytes free below x. */
  function SubAlign(x: U32, n: nat, m: nat): (r: U32)
    requires m >= 1
    ensures r % m == 0
    ensures n <= x ==> r <= x - n < r + m
  {
    if n <= x then Wrap32Id(x - n); AlignDown(Wrap32(x - n), m)
    else AlignDown(Wrap32(x - n), m)
  }

  /** The stack pointer less the margin, 16-byte aligned. */
  function StackTop(sp: U32): (r: U32)
    ensures r % 16 == 0
  {
    SubAlign(sp, STACK_MARGIN, 16)
  }

  /** The layout of bootls.c:160-176: the limit is the stack top clamped to
      the boot map size; the argument area and the board information sit
      below it, each 16-byte aligned. */
  function Place(cfg: Config, sp: U32): (l: Layout)
    ensures l.limit % 16 == 0 && l.cmdline % 16 == 0 && l.kbd % 16 == 0
    ensures l.limit <= cfg.bootMapSz && l.limit <= Wrap32(sp - STACK_MARGIN)
  {
    var top := Wrap32(sp - STACK_MARGIN);
    var limit := AlignDown(if top > cfg.bootMapSz then cfg.bootMapSz else top, 16);
    var cmdline := SubAlign(limit, cfg.bargSize, 16);
    Layout(limit, cmdline, SubAlign(cmdline, cfg.bdSize, 16))
  }

  /** The limit is the highest 16-byte aligned address at most the boot map
      size and at most the stack pointer less the margin. */
  lemma LimitHighest(cfg: Config, sp: U32, a: nat)
    requires a % 16 == 0 && a <= cfg.bootMapSz && a <= Wrap32(sp - STACK_MARGIN)
    ensures a <= Place(cfg, sp).limit
  {
    var top := Wrap32(sp - STACK_MARGIN);
    AlignDownMax(if top > cfg.bootMapSz then cfg.bootMapSz else top, 16, a);
  }

  /** When nothing wraps, the board information ends at or below the command
      line, the argument area ends at or below the limit, and a command line
      shorter than the area fits in it with its terminating NUL (so its end
      address, below the 32-bit limit, does not wrap either). */
  lemma AreasInOrder(cfg: Config, sp: U32, args: seq<char>)
    requires var l := Place(cfg, sp); cfg.bargSize <= l.limit && cfg.bdSize <= l.cmdline
    ensures var l := Place(cfg, sp);
      && l.kbd + cfg.bdSize <= l.cmdline && l.cmdline + cfg.bargSize <= l.limit
      && (|args| < cfg.bargSize ==> l.cmdline + |args| + 1 <= l.limit)
  {
    var l := Place(cfg, sp);
    AreasBelow(l.limit, cfg.bargSize, cfg.bdSize, |args|);
  }

  /** The layout's two areas below a limit, stated on the arithmetic alone. */
  lemma AreasBelow(limit: U32, bargSize: nat, bdSize: nat, len: nat)
    requires bargSize <= limit && bdSize <= SubAlign(limit, bargSize, 16)
    ensures var cmdline := SubAlign(limit, bargSize, 16);
      && SubAlign(cmdline, bdSize, 16) + bdSize <= cmdline && cmdline + bargSize <= limit
      && (len < bargSize ==> cmdline + len + 1 <= limit)
  {
  }

  /** The kernel command line: `bootargs` when set, else the default. */
  function CommandLine(env: Env): (s: seq<char>)
    ensures "bootargs" !in env ==> s == DEFAULT_BOOTARGS
    ensures "bootargs" in env ==> s == env["bootargs"]
  {
    if "bootargs" in env then env["bootargs"] else DEFAULT_BOOTARGS
  }

  /** The board information given to the kernel: a copy of the monitor's,
      with both clocks in whole MHz when `clocks_in_mhz` is set. */
  function KernelBoard(bd: BoardInfo, env: Env): (r: BoardInfo)
    ensures r.others == bd.others
    ensures "clocks_in_mhz" !in env ==> r == bd
    ensures "clocks_in_mhz" in env ==>
      && r.intFreq * 1_000_000 <= bd.intFreq < (r.intFreq + 1) * 1_000_000
      && r.busFreq * 1_000_000 <= bd.busFreq < (r.busFreq + 1) * 1_000_000
  {
    if "clocks_in_mhz" in env then bd.(intFreq := bd.intFreq / 1_000_000, busFreq := bd.busFreq / 1_000_000)
    else bd
  }

  /** The ramdisk as it lies in the image is inside the flash window. */
  predicate InFlashWindow(start: U32, end: U32)
  {
    start > FLASH_LO && end < FLASH_HI
  }

  /** The copy target of bootls.c:204-208: the stack top less the ramdisk
      size, rounded down to a page. */
  function RelocTarget(sp: U32, size: U32): (r: U32)
    ensures r % PAGE == 0
    ensures size <= StackTop(sp) ==> r + size <= StackTop(sp)
  {
    SubAlign(StackTop(sp), size, PAGE)
  }

  /** The ramdisk handling of bootls.c:186-219 around a given copy target:
      none when the size is 0; a ramdisk in the flash window is copied to
      dst; any other is passed where it lies in the image. */
  function Ramdisk(loadAddr: U32, offset: U32, size: U32, dst: U32): (r: Initrd)
    ensures size == 0 <==> r == Initrd(0, 0, None)
    ensures r.moved.Some? ==> r.start == dst && r.moved.value.dst == dst && r.moved.value.len == size
    ensures size != 0 ==> r.end == Wrap32(r.start + size)
  {
    if size == 0 then Initrd(0, 0, None)
    else
      var start := Wrap32(loadAddr + offset);
      var end := Wrap32(start + size);
      if InFlashWindow(start, end) then Initrd(dst, Wrap32(dst + size), Some(Move(start, dst, size)))
      else Initrd(start, end, None)
  }

  /** The placement as written: a ramdisk in flash is copied to just below
      the stack, whatever lies there. */
  function InitrdAsWritten(loadAddr: U32, offset: U32, size: U32, sp: U32): Initrd
  {
    Ramdisk(loadAddr, offset, size, RelocTarget(sp, size))
  }

  /** The copy target with the check the comment at bootls.c:197-203
      promises: below the stack when that stays above the reserved area,
      else just below the board information. When nothing wraps, the copy
      ends below the stack top and misses the reserved area [kbd, limit). */
  function CopyTarget(sp: U32, size: U32, l: Layout): (r: U32)
    ensures r % PAGE == 0
    ensures size <= StackTop(sp) && size <= l.kbd <= l.limit <= StackTop(sp) ==>
      r + size <= StackTop(sp) && (r + size <= l.kbd || l.limit <= r)
  {
    var nsp := RelocTarget(sp, size);
    if nsp >= l.limit then nsp else SubAlign(l.kbd, size, PAGE)
  }

  /** The corrected placement. */
  function PlaceInitrd(loadAddr: U32, offset: U32, size: U32, sp: U32, l: Layout): Initrd
  {
    Ramdisk(loadAddr, offset, size, CopyTarget(sp, size, l))
  }

  /** The corrected placement differs from the written one only where the
      written one would land below the limit. */
  lemma PlaceInitrdAgrees(cfg: Config, loadAddr: U32, offset: U32, size: U32, sp: U32)
    ensures var l := Place(cfg, sp);
      RelocTarget(sp, size) >= l.limit ==>
        PlaceInitrd(loadAddr, offset, size, sp, l) == InitrdAsWritten(loadAddr, offset, size, sp)
  {
  }

  /** When nothing wraps, a copied ramdisk lies wholly below the stack top
      and clear of the reserved area [kbd, limit) holding the board
      information and the command line. */
  lemma PlaceInitrdClear(cfg: Config, loadAddr: U32, offset: U32, size: U32, sp: U32)
    requires var l := Place(cfg, sp); cfg.bargSize <= l.limit && cfg.bdSize <= l.cmdline
    requires var l := Place(cfg, sp); size <= StackTop(sp) && size <= l.kbd
    ensures var l := Place(cfg, sp); var r := PlaceInitrd(loadAddr, offset, size, sp, l);
      r.moved.Some? ==>
        && r.end == r.start + size
        && r.start + size <= StackTop(sp)
        && (r.start + size <= l.kbd || l.limit <= r.start)
  {
    var l := Place(cfg, sp);
    LimitBelowStackTop(cfg, sp);
    assert l.kbd <= l.cmdline <= l.limit;
    var dst := CopyTarget(sp, size, l);
    RamdiskNoWrap(loadAddr, offset, size, dst);
  }

  /** A copy that does not wrap ends size bytes after its target. */
  lemma RamdiskNoWrap(loadAddr: U32, offset: U32, size: U32, dst: U32)
    requires dst + size < TWO32
    ensures var r := Ramdisk(loadAddr, offset, size, dst);
      r.moved.Some? ==> r.start == dst && r.end == dst + size
  {
    Wrap32Id(dst + size);
  }

  /** The reserved area lies below the stack top. */
  lemma LimitBelowStackTop(cfg: Config, sp: U32)
    ensures Place(cfg, sp).limit <= StackTop(sp)
  {
    var l := Place(cfg, sp);
    AlignDownMax(Wrap32(sp - STACK_MARGIN), 16, l.limit);
  }

  /** The written placement can overwrite the command line: with the stack
      at 8 MiB + 2 KiB, an 8 MiB boot map, a 256-byte argument area and a
      4 KiB ramdisk in flash, the copy covers [0x7FF000, 0x800000), which
      holds the command line at 0x7FFF00 and the board information below
      it. */
  lemma InitrdAsWrittenOverlaps()
    ensures var l := Place(Config(0x80_0000, 0x100, 0x40), 0x80_0800);
      var r := InitrdAsWritten(0xFFC0_0000, 0x10_0000, 0x1000, 0x80_0800);
      r.moved.Some? && r.start <= l.kbd < l.cmdline < r.end
  {
    ExampleLayout();
    ExampleAsWritten();
  }

  /** The same input through the whole launch: the ramdisk the kernel is
      handed covers the board information and the command line it is
      handed. */
  lemma LaunchOverlaps(h: Info, env: Env, bd: BoardInfo, z: nat)
    requires h.initrdOffset == 0x10_0000 && h.initrdSize == 0x1000
    ensures var o := Launch(h, 0xFFC0_0000, Config(0x80_0000, 0x100, 0x40), env, bd, 0x80_0800, z);
      o.initrd.moved.Some? && o.args.initrdStart <= o.layout.kbd < o.args.cmdStart < o.args.initrdEnd
  {
    InitrdAsWrittenOverlaps();
  }

  /** The overlap does not need the stack top near the boot map size: with
      the stack top at 4 MiB, below an 8 MiB boot map, the limit is the
      stack top itself, and a 4 KiB ramdisk copied to [0x3FF000, 0x400000)
      covers the board information at 0x3FFEC0 and the command line at
      0x3FFF00. */
  lemma InitrdAsWrittenOverlapsLowStack()
    ensures var l := Place(Config(0x80_0000, 0x100, 0x40), 0x40_0800);
      var r := InitrdAsWritten(0xFFC0_0000, 0x10_0000, 0x1000, 0x40_0800);
      r.moved.Some? && r.start <= l.kbd < l.cmdline < r.end
  {
    LowStackLayout();
    LowStackAsWritten();
  }

  lemma LowStackLayout()
    ensures Place(Config(0x80_0000, 0x100, 0x40), 0x40_0800) == Layout(0x40_0000, 0x3F_FF00, 0x3F_FEC0)
  {
    assert Wrap32(0x40_0800 - STACK_MARGIN) == 0x40_0000;
    assert AlignDown(0x40_0000, 16) == 0x40_0000;
    assert SubAlign(0x40_0000, 0x100, 16) == 0x3F_FF00 by {
      assert Wrap32(0x40_0000 - 0x100) == 0x3F_FF00;
      assert AlignDown(0x3F_FF00, 16) == 0x3F_FF00;
    }
    assert SubAlign(0x3F_FF00, 0x40, 16) == 0x3F_FEC0 by {
      assert Wrap32(0x3F_FF00 - 0x40) == 0x3F_FEC0;
      assert AlignDown(0x3F_FEC0, 16) == 0x3F_FEC0;
    }
  }

  lemma LowStackAsWritten()
    ensures InitrdAsWritten(0xFFC0_0000, 0x10_0000, 0x1000, 0x40_0800)
      == Initrd(0x3F_F000, 0x40_0000, Some(Move(0xFFD0_0000, 0x3F_F000, 0x1000)))
  {
    assert StackTop(0x40_0800) == 0x40_0000 by {
      assert Wrap32(0x40_0800 - STACK_MARGIN) == 0x40_0000;
      assert AlignDown(0x40_0000, 16) == 0x40_0000;
    }
    assert RelocTarget(0x40_0800, 0x1000) == 0x3F_F000 by {
      assert Wrap32(0x40_0000 - 0x1000) == 0x3F_F000;
      assert AlignDown(0x3F_F000, PAGE) == 0x3F_F000;
    }
    assert Wrap32(0xFFC0_0000 + 0x10_0000) == 0xFFD0_0000;
    assert Wrap32(0xFFD0_0000 + 0x1000) == 0xFFD0_1000;
    assert Wrap32(0x3F_F000 + 0x1000) == 0x40_0000;
  }

  lemma ExampleLayout()
    ensures Place(Config(0x80_0000, 0x100, 0x40), 0x80_0800) == Layout(0x80_0000, 0x7F_FF00, 0x7F_FEC0)
  {
    assert Wrap32(0x80_0800 - STACK_MARGIN) == 0x80_0000;
    assert AlignDown(0x80_0000, 16) == 0x80_0000;
    assert SubAlign(0x80_0000, 0x100, 16) == 0x7F_FF00 by {
      assert Wrap32(0x80_0000 - 0x100) == 0x7F_FF00;
      assert AlignDown(0x7F_FF00, 16) == 0x7F_FF00;
    }
    assert SubAlign(0x7F_FF00, 0x40, 16) == 0x7F_FEC0 by {
      assert Wrap32(0x7F_FF00 - 0x40) == 0x7F_FEC0;
      assert AlignDown(0x7F_FEC0, 16) == 0x7F_FEC0;
    }
  }

  lemma ExampleAsWritten()
    ensures InitrdAsWritten(0xFFC0_0000, 0x10_0000, 0x1000, 0x80_0800)
      == Initrd(0x7F_F000, 0x80_0000, Some(Move(0xFFD0_0000, 0x7F_F000, 0x1000)))
  {
    assert StackTop(0x80_0800) == 0x80_0000 by {
      assert Wrap32(0x80_0800 - STACK_MARGIN) == 0x80_0000;
      assert AlignDown(0x80_0000, 16) == 0x80_0000;
    }
    assert RelocTarget(0x80_0800, 0x1000) == 0x7F_F000 by {
      assert Wrap32(0x80_0000 - 0x1000) == 0x7F_F000;
      assert AlignDown(0x7F_F000, PAGE) == 0x7F_F000;
    }
    assert Wrap32(0xFFC0_0000 + 0x10_0000) == 0xFFD0_0000;
    assert Wrap32(0xFFD0_0000 + 0x1000) == 0xFFD0_1000;
    assert Wrap32(0x7F_F000 + 0x1000) == 0x80_0000;
  }

  /** The address of the first boot record: the unpacked kernel size plus
      1 MiB - 1, then rounded up to 1 MiB by a macro that adds 1 MiB - 1
      again. */
  function RecordBase(z: nat): U32
  {
    AlignDown(Wrap32(Wrap32(z + MIB - 1) + MIB - 1), MIB)
  }

  /** The BI_FIRST and BI_LAST records of bootls.c:226-232, back to back. */
  function BiRecords(z: nat): (r: seq<BiRecord>)
    ensures |r| == 2 && r[0].tag == BI_FIRST && r[1].tag == BI_LAST
    ensures r[0].size == BI_RECORD_SIZE && r[1].size == BI_RECORD_SIZE
    ensures r[1].addr == Wrap32(r[0].addr + r[0].size)
  {
    var rec := RecordBase(z);
    [BiRecord(rec, BI_FIRST, BI_RECORD_SIZE), BiRecord(Wrap32(rec + BI_RECORD_SIZE), BI_LAST, BI_RECORD_SIZE)]
  }

  /** For any kernel gunzip can produce, the records start on a 1 MiB
      boundary at least 1 MiB - 1 past the end of the kernel unpacked at 0,
      and no further than the next boundary after that. */
  lemma RecordsPastKernel(z: nat)
    requires z <= UNZIP_LIMIT
    ensures var r := BiRecords(z);
      && r[0].addr % MIB == 0
      && z + MIB - 1 <= r[0].addr < z + 2 * MIB - 1
      && r[1].addr == r[0].addr + BI_RECORD_SIZE
  {
    var x := z + 2 * MIB - 2;
    assert Wrap32(z + MIB - 1) == z + MIB - 1;
    assert Wrap32(z + MIB - 1 + MIB - 1) == x;
    var rec := AlignDown(x, MIB);
    assert Wrap32(rec + BI_RECORD_SIZE) == rec + BI_RECORD_SIZE;
  }

  /** The header passes its checks: the magic, and a zero checksum over
      the image when verification is asked for. */
  predicate HeaderPasses(mem: seq<Byte>, verify: bool)
    requires |mem| >= HEADER_SIZE && (verify ==> Decode(mem).size <= |mem|)
  {
    HasMagic(Decode(mem)) && (verify ==> Reference(mem[..Decode(mem).size]) == 0)
  }

  /** Everything after a successful unpack of z bytes: the layout below
      the stack, the command line and board information placed there, the
      ramdisk placed as the code does it (just below the stack, with no
      check against the reserved area), the boot records written, and the
      kernel arguments pointing at them. */
  function Launch(h: Info, loadAddr: U32, cfg: Config, env: Env, bd: BoardInfo, sp: U32, z: nat): (o: Outcome)
    ensures o.Jump? && o.layout == Place(cfg, sp) && o.cmdline == CommandLine(env)
    ensures o.board == KernelBoard(bd, env) && o.records == BiRecords(z)
    ensures o.args.bd == KERNEL_BD
    ensures o.args.cmdStart == o.layout.cmdline && o.args.cmdEnd == Wrap32(o.args.cmdStart + |o.cmdline|)
    ensures o.args.initrdStart == o.initrd.start && o.args.initrdEnd == o.initrd.end
    ensures h.initrdSize == 0 <==> o.initrd == Initrd(0, 0, None)
    ensures o.initrd.moved.Some? ==>
      o.initrd.start % PAGE == 0 && o.initrd.moved.value.len == h.initrdSize
      && (h.initrdSize <= StackTop(sp) ==> o.initrd.start + h.initrdSize <= StackTop(sp))
  {
    var l := Place(cfg, sp);
    var args := CommandLine(env);
    var rd := InitrdAsWritten(loadAddr, h.initrdOffset, h.initrdSize, sp);
    Jump(KernelArgs(KERNEL_BD, rd.start, rd.end, l.cmdline, Wrap32(l.cmdline + |args|)),
         l, args, KernelBoard(bd, env), rd, BiRecords(z))
  }

  /** The whole of `do_boot_lskernel` for an image mem at loadAddr, the
      monitor's stack pointer sp and the unpacked kernel size (None when
      gunzip fails). */
  function BootKernel(mem: seq<Byte>, loadAddr: U32, verify: bool, cfg: Config, env: Env,
                      bd: BoardInfo, sp: U32, unzipped: Option<nat>): (o: Outcome)
    requires |mem| >= HEADER_SIZE && (verify ==> Decode(mem).size <= |mem|)
    ensures o.NotLinkstation? <==> !HasMagic(Decode(mem))
    ensures o.ChecksumFailed? <==> HasMagic(Decode(mem)) && verify && Reference(mem[..Decode(mem).size]) != 0
    ensures o.ChecksumFailed? ==> o.sum == Reference(mem[..Decode(mem).size])
    ensures o.Reset? <==> HeaderPasses(mem, verify) && unzipped.None?
    ensures o.Jump? <==> HeaderPasses(mem, verify) && unzipped.Some?
    ensures o.Jump? ==> o == Launch(Decode(mem), loadAddr, cfg, env, bd, sp, unzipped.value)
  {
    var h := Decode(mem);
    if !HasMagic(h) then NotLinkstation
    else if verify && Reference(mem[..h.size]) != 0 then ChecksumFailed(Reference(mem[..h.size]))
    else if unzipped.None? then Reset
    else Launch(h, loadAddr, cfg, env, bd, sp, unzipped.value)
  }

  /** `do_boot_lskernel` run step by step: the magic loop, then the
      checksum, then the rest. */
  method BootLs(mem: seq<Byte>, loadAddr: U32, verify: bool, cfg: Config, env: Env,
                bd: BoardInfo, sp: U32, unzipped: Option<nat>) returns (o: Outcome)
    requires |mem| >= HEADER_SIZE && (verify ==> Decode(mem).size <= |mem|)
    ensures o == BootKernel(mem, loadAddr, verify, cfg, env, bd, sp, unzipped)
  {
    var h := Decode(mem);
    var magic := MagicCheck(h.subver);
    if !magic {
      return NotLinkstation;
    }
    if verify {
      var sum := ChecksumCheck(mem, h.size);
      if sum != 0 {
        return ChecksumFailed(sum);
      }
    }
    if unzipped.None? {
      return Reset;
    }
    o := Launch(h, loadAddr, cfg, env, bd, sp, unzipped.value);
  }
}
