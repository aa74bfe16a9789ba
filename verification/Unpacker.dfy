/** The program: load the packed executable, run it until it enters what it unpacked, find the block, write it out. */
module Unpacker {
  import opened Words
  import opened Memory
  import opened Interpreter
  import opened Runs
  import opened Elf
  import opened Ranges
  import opened Emulator

  /** `Ended`: the process exits without output. `Undetermined`: it does what the host leaves undefined, or indexes
      outside its arrays. `StillRunning`: the observed steps do not reach the end of the run. */
  datatype Output = Dumped(file: seq<u8>) | Ended | Undetermined | StillRunning

  /** What the program does with an input file, an alignment, and a run observed for |js| steps. */
  function Unpacked(file: seq<u8>, align: u32, js: seq<Junk>): Output
  {
    match LoadElf(ZeroBytes(), file)
    case NotElf => Ended
    case OutOfBounds => Undetermined
    case Loaded(bytes, entry) =>
      match Run(Boot(bytes, entry), js)
      case Exited => Ended
      case Lost => Undetermined
      case Running(_) => StillRunning
      case Bounced(s) =>
        match Dump(s.mem, s.bounce, align)
        case None => Undetermined
        case Some(out) => Dumped(out)
  }

  // ----- The program in its own form -----

  /** The loop over the program headers. */
  method LoadProgram(m: TaggedMemory, file: seq<u8>) returns (ok: bool)
    requires m.Valid() && |file| >= HEADER_SIZE
    modifies m.memory
    ensures ok <==> LoadSegments(old(m.View().bytes), file, 0).Some?
    ensures ok ==> m.View() == Mem(LoadSegments(old(m.View().bytes), file, 0).value, old(m.View().tags))
  {
    hide Field32, Field16, Overwrite;
    ghost var start := m.View().bytes;
    var phnum := Field16(file, 44);
    var i := 0;
    while i < phnum
      invariant 0 <= i <= phnum
      invariant LoadSegments(m.View().bytes, file, i) == LoadSegments(start, file, 0)
      invariant m.View().tags == old(m.View().tags)
    {
      ghost var before := m.View().bytes;
      var p := PhAt(file, i);
      if p + 4 > |file| {
        return false;
      }
      if Field32(file, p) == PT_LOAD {
        if p + 20 > |file| {
          return false;
        }
        var offset, vaddr, filesz := Field32(file, p + 4), Field32(file, p + 8), Field32(file, p + 16);
        if filesz != 0 {
          if offset + filesz > |file| || vaddr + filesz > MEMSIZE {
            return false;
          }
          m.LoadSection(vaddr, file[offset..offset + filesz]);
        }
      }
      assert LoadSegment(before, file, p) == Some(m.View().bytes);
      i := i + 1;
    }
    ok := true;
  }

  /** Down from the entry point while the byte below is tagged written. */
  method FindLow(m: TaggedMemory, b: u32) returns (r: Option<u32>)
    requires m.Valid()
    ensures r == ScanDown(m.View().tags, b)
  {
    var lo: u32 := b;
    while true
      invariant ScanDown(m.View().tags, lo) == ScanDown(m.View().tags, b)
      decreases lo
    {
      if lo == 0 || lo > MEMSIZE {
        return None;
      }
      var w := m.HasWrite(lo - 1);
      if !w {
        return Some(lo);
      }
      lo := lo - 1;
    }
  }

  /** From there up over zero bytes. */
  method SkipZerosUp(m: TaggedMemory, a: u32) returns (r: Option<u32>)
    requires m.Valid()
    ensures r == SkipUp(m.View().bytes, a)
  {
    var lo: u32 := a;
    while true
      invariant SkipUp(m.View().bytes, lo) == SkipUp(m.View().bytes, a)
      decreases MEMSIZE - lo
    {
      if lo >= MEMSIZE {
        return None;
      }
      var z := m.IsZero(lo);
      if !z {
        return Some(lo);
      }
      lo := lo + 1;
    }
  }

  /** Up from the entry point while the byte above is tagged written. */
  method FindHigh(m: TaggedMemory, b: u32) returns (r: Option<u32>)
    requires m.Valid()
    ensures r == ScanUp(m.View().tags, b)
  {
    var hi: u32 := b;
    while true
      invariant ScanUp(m.View().tags, hi) == ScanUp(m.View().tags, b)
      decreases MEMSIZE - hi
    {
      if hi + 1 >= MEMSIZE {
        return None;
      }
      var w := m.HasWrite(hi + 1);
      if !w {
        return Some(hi);
      }
      hi := hi + 1;
    }
  }

  /** From there down while the byte below is zero. */
  method SkipZerosDown(m: TaggedMemory, a: u32) returns (r: Option<u32>)
    requires m.Valid()
    ensures r == SkipDown(m.View().bytes, a)
  {
    var hi: u32 := a;
    while true
      invariant SkipDown(m.View().bytes, hi) == SkipDown(m.View().bytes, a)
      decreases hi
    {
      if hi == 0 || hi > MEMSIZE {
        return None;
      }
      var z := m.IsZero(hi - 1);
      if !z {
        return Some(hi);
      }
      hi := hi - 1;
    }
  }

  /** The end of `main`, from "Looking for data around" on. */
  method WriteDump(m: TaggedMemory, b: u32, align: u32) returns (r: Option<seq<u8>>)
    requires m.Valid()
    ensures r == Dump(m.View(), b, align)
  {
    hide ScanDown, ScanUp, SkipUp, SkipDown, EmitElf, Bitwise, U32;
    var low := FindLow(m, b);
    if low.None? {
      return None;
    }
    var lo := SkipZerosUp(m, low.value);
    if lo.None? {
      return None;
    }
    var loBase: u32 := lo.value;
    if And32(loBase, U32(align - 1)) != 0 {
      loBase := U32(loBase + align);
      loBase := And32(loBase, U32(TWO32 - align));
      loBase := U32(loBase - align);
    }
    var high := FindHigh(m, b);
    if high.None? {
      return None;
    }
    var hi := SkipZerosDown(m, high.value);
    if hi.None? || loBase > hi.value {
      return None;
    }
    var bytes := m.DumpSection(loBase, hi.value - loBase);
    r := Some(EmitElf(b, loBase, bytes));
  }

  /** `main`, without options. */
  method Unpack(file: seq<u8>, align: u32, js: seq<Junk>) returns (r: Output)
    ensures r == Unpacked(file, align, js)
  {
    hide Run, Dump, LoadSegments, Field32, Field16;
    var m := new TaggedMemory();
    if |file| < 4 {
      return Undetermined;
    }
    if Field32(file, 0) != ELF_MAGIC {
      return Ended;
    }
    if |file| < HEADER_SIZE {
      return Undetermined;
    }
    var ok := LoadProgram(m, file);
    if !ok {
      return Undetermined;
    }
    var cpu := new Cpu(m, Field32(file, 24));
    ghost var s0 := Boot(m.View().bytes, Field32(file, 24));
    assert cpu.View() == s0;
    r := RunAndDump(cpu, align, js, s0);
  }

  /** The loop that executes steps until there is a `bounce_pc`, and what follows. */
  method RunAndDump(cpu: Cpu, align: u32, js: seq<Junk>, ghost s0: State) returns (r: Output)
    requires cpu.Valid() && cpu.View() == s0
    modifies cpu, cpu.mem.memory, cpu.mem.tags
    ensures r == match Run(s0, js)
                 case Exited => Ended
                 case Lost => Undetermined
                 case Running(_) => StillRunning
                 case Bounced(s) =>
                   match Dump(s.mem, s.bounce, align)
                   case None => Undetermined
                   case Some(out) => Dumped(out)
  {
    hide ExecI, Dump;
    var i := 0;
    while cpu.bouncePC == 0
      invariant 0 <= i <= |js|
      invariant Run(cpu.View(), js[i..]) == Run(s0, js)
      decreases |js| - i
    {
      if i == |js| {
        return StillRunning;
      }
      var st := cpu.Execute(js[i]);
      if st == Gone {
        return Ended;
      }
      if st == Status.Lost {
        return Undetermined;
      }
      assert js[i..][1..] == js[i + 1..];
      i := i + 1;
    }
    var out := WriteDump(cpu.mem, cpu.bouncePC, align);
    r := match out case None => Undetermined case Some(f) => Dumped(f);
  }

  // ----- End to end -----

  /** Everything that holds of an output file. The run of the loaded program stopped in one of its two ways, in the
      last step, from u. The file is an executable for the same machine; loaded again, it puts the range that the scans
      found in that memory where it was, and starts at the entry point. If the alignment is a power of two, the range is
      a lawful one, all bytes of whose block but perhaps the entry point's the program wrote itself, and the file gives
      the block back. */
  ghost predicate Explains(out: seq<u8>, align: u32, image: Bytes, u: State, j: Junk, s: State, r: Range)
  {
    && ExecI(u, j) == Ok(s)
    && u.bounce == 0
    && Stops(u, j, s)
    && Faithful(s.mem, image)
    && r.lo <= r.hi <= MEMSIZE
    && LoadElf(ZeroBytes(), out) == Loaded(Overwrite(ZeroBytes(), r.lo, s.mem.bytes[r.lo..r.hi]), s.bounce)
    && IsExecutable(out, s.bounce, r.lo, s.mem.bytes[r.lo..r.hi])
    && (IsPow2(align) ==>
          && LawfulRange(s.mem, s.bounce, align, r)
          && ReloadAgrees(s.mem.bytes, s.bounce, r, LoadElf(ZeroBytes(), out)))
  }

  lemma UnpackEndToEnd(file: seq<u8>, align: u32, js: seq<Junk>)
      returns (image: Bytes, i: nat, u: State, s: State, r: Range)
    ensures Unpacked(file, align, js).Dumped? ==>
              && LoadElf(ZeroBytes(), file).Loaded? && LoadElf(ZeroBytes(), file).bytes == image
              && var s0 := Boot(image, LoadElf(ZeroBytes(), file).entry);
                 && Run(s0, js) == Bounced(s)
                 && i < |js| && Run(s0, js[..i]) == Running(u)
                 && FindRange(s.mem, s.bounce, align) == Some(r)
                 && Explains(Unpacked(file, align, js).file, align, image, u, js[i], s, r)
  {
    hide Run, LoadElf, FindRange, Pow2, Faithful, TagsGrow, LawfulRange, ReloadAgrees, EmitElf, HasData, Stops, ExecI,
         Overwrite, IsPow2, IsExecutable;
    image, i, u, s, r := ZeroBytes(), 0, Boot(ZeroBytes(), 0), Boot(ZeroBytes(), 0), Range(0, 0, 0, 0);
    if Unpacked(file, align, js).Dumped? {
      var program := LoadElf(ZeroBytes(), file);
      image := program.bytes;
      var s0 := Boot(image, program.entry);
      s := Run(s0, js).s;
      r := FindRange(s.mem, s.bounce, align).value;
      BootIsTracked(image, program.entry);
      RunKeeps(s0, js, image);
      i, u := StopReason(s0, js);
      RunningHasNoBounce(s0, js[..i]);
      DumpLoads(s.mem, s.bounce, align);
      if IsPow2(align) {
        DumpIsLawful(s.mem, s.bounce, align);
      }
    }
  }

  lemma DumpIsLawful(m: Mem, b: u32, align: u32)
    requires IsPow2(align) && Dump(m, b, align).Some?
    ensures var r := FindRange(m, b, align).value;
            LawfulRange(m, b, align, r) && ReloadAgrees(m.bytes, b, r, LoadElf(ZeroBytes(), Dump(m, b, align).value))
  {
    hide LoadElf, FindRange, Pow2, LawfulRange, ReloadAgrees, EmitElf, HasData;
    var k: nat :| k < 32 && align == Pow2(k);
    RangeLaw(m, b, k);
    DumpReloads(m, b, k);
  }
}
