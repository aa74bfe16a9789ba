/** A pure 32-bit machine, and the proof that the emulator, whose registers have 128 bits, behaves as that machine for
    as long as a program keeps to its instructions: 32-bit arithmetic, logic and shifts, MULT, MADD and DIV with moves
    from and to HI and LO, the loads up to a word, all stores, jumps, branches and system calls but EndOfHeap. */
module Sim32 {
  import opened Words
  import opened Memory
  import opened Registers
  import opened Interpreter
  import opened Runs
  import opened Division
  import Alu
  import Mmi
  import LeadingBits
  import Unaligned

  // ----- The 32-bit machine -----

  type WordFile = s: seq<u32> | |s| == 32 witness seq(32, _ => 0)

  datatype Regs32 = Regs32(gpr: WordFile, hi: u32, lo: u32)

  datatype State32 = State32(regs: Regs32, mem: Mem, pc: u32, cycle: u32, branchPC: u32, bounce: u32)

  datatype Effect32 = Write32(dest: Index, val: u32, hi: u32, lo: u32) | Exit32 | Trap32 | Unsupported32

  datatype Action32 = Next32(s: State32) | Take32(s: State32, tar: u32) | Stop32 | Undef32 | Outside

  /** `Beyond`: the program left the 32-bit instructions. */
  datatype Outcome32 = Ok32(s: State32) | Halted32 | Undefined32 | Beyond

  function SetWord(g: WordFile, n: Index, v: u32): WordFile
  {
    if n == 0 then g else g[n := v]
  }

  function Apply32(r: Regs32, e: Effect32): Regs32
    requires e.Write32?
  {
    Regs32(SetWord(r.gpr, e.dest, e.val), e.hi, e.lo)
  }

  function To(r: Regs32, dest: Index, v: u32): Effect32 { Write32(dest, v, r.hi, r.lo) }
  function Bool(b: bool): u32 { if b then 1 else 0 }

  function Immediate32(r: Regs32, code: u32): Effect32
  {
    var s := r.gpr[Rs(code)];
    var rt, imm, immU := Rt(code), Imm(code), ImmU(code);
    match Op(code)
    case 0x08 => To(r, rt, U32(s + imm))
    case 0x09 => To(r, rt, U32(s + imm))
    case 0x0a => To(r, rt, Bool(S32(s) < imm))
    case 0x0b => To(r, rt, Bool(s < U32(imm)))
    case 0x0c => To(r, rt, And32(s, immU))
    case 0x0d => To(r, rt, Or32(s, immU))
    case 0x0e => To(r, rt, Xor32(s, immU))
    case 0x0f => To(r, rt, Shl32(code, 16))
    case _ => Unsupported32
  }

  function Product32(r: Regs32, rd: Index, x: int): Effect32
  {
    Write32(rd, U32(x), U32(x / TWO32), U32(x))
  }

  function Divide32(r: Regs32, n: u32, d: u32): Effect32
  {
    if d == 0 then Write32(0, 0, r.hi, r.lo)
    else if DivTraps(n, d) then Trap32
    else Write32(0, 0, U32(TruncRem(S32(n), S32(d))), U32(TruncDiv(S32(n), S32(d))))
  }

  /** SPECIAL without jumps, DIVU and the double word operations. */
  function Special32(r: Regs32, code: u32): Effect32
  {
    var s, t := r.gpr[Rs(code)], r.gpr[Rt(code)];
    var rd, sa := Rd(code), Sa(code);
    match Funct(code)
    case 0x00 => To(r, rd, Shl32(t, sa))
    case 0x02 => To(r, rd, Shr32(t, sa))
    case 0x03 => To(r, rd, Sra32(t, sa))
    case 0x04 => To(r, rd, Shl32(t, s % 32))
    case 0x06 => To(r, rd, Shr32(t, s % 32))
    case 0x07 => To(r, rd, Sra32(t, s % 32))
    case 0x0a => To(r, if t == 0 then rd else 0, s)
    case 0x0b => To(r, if t != 0 then rd else 0, s)
    case 0x10 => To(r, rd, r.hi)
    case 0x11 => Write32(0, 0, s, r.lo)
    case 0x12 => To(r, rd, r.lo)
    case 0x13 => Write32(0, 0, r.hi, s)
    case 0x18 => Product32(r, rd, S32(s) * S32(t))
    case 0x19 => Product32(r, rd, s as int * t)
    case 0x1a => Divide32(r, s, t)
    case 0x20 => To(r, rd, U32(s as int + t))
    case 0x21 => To(r, rd, U32(s as int + t))
    case 0x22 => To(r, rd, U32(s as int - t))
    case 0x23 => To(r, rd, U32(s as int - t))
    case 0x24 => To(r, rd, And32(s, t))
    case 0x25 => To(r, rd, Or32(s, t))
    case 0x26 => To(r, rd, Xor32(s, t))
    case 0x27 => To(r, rd, Not32(Or32(s, t)))
    case 0x2a => To(r, rd, Bool(S32(s) < S32(t)))
    case 0x2b => To(r, rd, Bool(s < t))
    case _ => Unsupported32
  }

  /** Of the multimedia instructions, MADD and MADDU. */
  function Multimedia32(r: Regs32, code: u32): Effect32
  {
    var s, t := r.gpr[Rs(code)], r.gpr[Rt(code)];
    var acc := r.lo as int + TWO32 * r.hi;
    match Funct(code)
    case 0x00 => Product32(r, Rd(code), acc + S32(s) * S32(t))
    case 0x01 => Product32(r, Rd(code), acc + s as int * t)
    case _ => Unsupported32
  }

  function Link32(s: State32, n: Index): State32
  {
    s.(regs := s.regs.(gpr := SetWord(s.regs.gpr, n, U32(s.pc + 4))))
  }

  function Branch32(s: State32, code: u32, cond: bool, likely: bool): Action32
  {
    if cond then
      var field := code % 0x1_0000;
      Take32(s, U32(s.pc + 4 * if field >= 0x8000 then field - 0x1_0000 else field))
    else if likely then Next32(s.(pc := U32(s.pc + 4)))
    else Next32(s)
  }

  predicate Compares32(r: Regs32, code: u32)
  {
    var s, t := r.gpr[Rs(code)], r.gpr[Rt(code)];
    match Op(code) % 4
    case 0 => s == t
    case 1 => s != t
    case 2 => S32(s) <= 0
    case _ => S32(s) > 0
  }

  function Regimm32(s: State32, code: u32): Action32
  {
    var rt := Rt(code);
    if rt % 16 < 4 then
      var s := if rt >= 16 then Link32(s, 31) else s;
      var v := S32(s.regs.gpr[Rs(code)]);
      Branch32(s, code, if rt % 2 == 0 then v < 0 else v >= 0, rt / 2 % 2 == 1)
    else Stop32
  }

  function Call32(r: Regs32): u8
  {
    var v := S32(r.gpr[3]);
    if v < 0 then U8(-v) else U8(v)
  }

  function Syscall32(s: State32): Action32
  {
    match Call32(s.regs)
    case 0x3c => Next32(s)
    case 0x3d => Next32(s)
    case 0x3e => Outside
    case 0x64 => Next32(s)
    case 0x07 => Next32(s.(bounce := s.regs.gpr[4]))
    case _ => Stop32
  }

  function RegisterAction32(s: State32, e: Effect32): Action32
  {
    match e
    case Write32(_, _, _, _) => Next32(s.(regs := Apply32(s.regs, e)))
    case Exit32 => Stop32
    case Trap32 => Undef32
    case Unsupported32 => Outside
  }

  function SpecialAction32(s: State32, code: u32): Action32
  {
    match Funct(code)
    case 0x08 => Take32(s, s.regs.gpr[Rs(code)])
    case 0x09 => Take32(if Rd(code) != 0 then Link32(s, Rd(code)) else s, s.regs.gpr[Rs(code)])
    case 0x0c => Syscall32(s)
    case 0x0d => Stop32
    case _ => RegisterAction32(s, Special32(s.regs, code))
  }

  function Ea32(r: Regs32, code: u32): u32 { U32(r.gpr[Rs(code)] + Imm(code)) }

  predicate IsLoad32(op: nat) { op == LB || op == LBU || op == LH || op == LHU || op == LW }

  function Loaded32(op: nat, bs: seq<u8>): u32
    requires IsLoad32(op) && |bs| == Width(op)
  {
    if op == LB then if bs[0] < 0x80 then bs[0] else 0xffff_ff00 + bs[0] as int
    else if op == LBU then bs[0]
    else if op == LH then bs[0] as int + 0x100 * (bs[1] as int) + if bs[1] < 0x80 then 0 else 0xffff_0000
    else if op == LHU then bs[0] as int + 0x100 * (bs[1] as int)
    else bs[0] as int + 0x100 * (bs[1] as int) + 0x1_0000 * (bs[2] as int) + 0x100_0000 * (bs[3] as int)
  }

  function LoadOp32(s: State32, code: u32): Action32
  {
    var op := Op(code);
    if !IsLoad32(op) then Outside
    else
      match Load(s.mem, Ea32(s.regs, code), Width(op))
      case None => Stop32
      case Some((bs, m)) =>
        Next32(s.(mem := m, regs := s.regs.(gpr := SetWord(s.regs.gpr, Rt(code), Loaded32(op, bs)))))
  }

  function Wrote32(s: State32, m: Option<Mem>): Action32
  {
    match m
    case None => Stop32
    case Some(m') => Next32(s.(mem := m'))
  }

  /** A double word store writes the word sign-extended. */
  function Stored32(op: nat, v: u32, j: Junk): (r: seq<u8>)
    requires IsStore(op) && !IsPartial(op)
    ensures |r| == Width(op)
  {
    if op == SQ then j
    else if op == SD then Enc(Sx(v), 8)
    else Enc(v, Width(op))
  }

  function StoreOp32(s: State32, code: u32, j: Junk): Action32
  {
    var op, v, a := Op(code), s.regs.gpr[Rt(code)], Ea32(s.regs, code);
    if !IsStore(op) then Outside
    else if IsPartial(op) then
      match Load(s.mem, Start(op, a), Width(op))
      case None => Stop32
      case Some((bs, m)) => Wrote32(s, Store(m, Start(op, a), Mixed(op, a, bs, Reg(Sx(v), 0))))
    else Wrote32(s, Store(s.mem, Start(op, a), Stored32(op, v, j)))
  }

  /** The 256 MB that an address lies in. */
  function Region32(pc: u32): (p: u32)
    ensures p <= 0xf000_0000
  {
    pc - pc % 0x1000_0000
  }

  function Dispatch32(s: State32, code: u32, j: Junk): (a: Action32)
    ensures a.Take32? ==> a.s.pc == s.pc
  {
    var op := Op(code);
    if op == 0x00 then SpecialAction32(s, code)
    else if op == 0x01 then Regimm32(s, code)
    else if op == 0x02 then Take32(s, Region32(s.pc) + 4 * (code % 0x400_0000))
    else if op == 0x03 then Take32(Link32(s, 31), Region32(s.pc) + 4 * (code % 0x400_0000))
    else if IsCompare(op) then Branch32(s, code, Compares32(s.regs, code), op >= 0x14)
    else if IsImmediate(op) then RegisterAction32(s, Immediate32(s.regs, code))
    else if op == 0x10 then if code == 0x42000038 || code == 0x42000039 then Next32(s)
                            else if code == 0x40106000 then Outside else Stop32
    else if op == 0x1c then RegisterAction32(s, Multimedia32(s.regs, code))
    else if IsLoad(op) then LoadOp32(s, code)
    else if IsStore(op) then StoreOp32(s, code, j)
    else Stop32
  }

  function Fetch32(s: State32): (r: Option<(State32, u32)>)
    ensures r.Some? ==> Left(r.value.0.pc) + 4 == Left(s.pc)
  {
    match Load(s.mem, s.pc, 4)
    case None => None
    case Some((bs, m)) => Some((s.(pc := U32(s.pc + 4), cycle := U32(s.cycle + 1), mem := m), Num32(bs)))
  }

  function ExecI32(s: State32, j: Junk): Outcome32
    decreases Left(s.pc), 0
  {
    match Fetch32(s)
    case None => Halted32
    case Some((s1, code)) =>
      match Dispatch32(s1, code, j)
      case Next32(s2) => Ok32(s2)
      case Take32(s2, tar) => DoBranch32(s2, tar, j)
      case Stop32 => Halted32
      case Undef32 => Undefined32
      case Outside => Beyond
  }

  function DoBranch32(s: State32, tar: u32, j: Junk): Outcome32
    decreases Left(s.pc), 1
  {
    match ExecI32(s.(branchPC := tar), j)
    case Ok32(s1) => Arrive32(s1)
    case o => o
  }

  function Arrive32(s: State32): Outcome32
  {
    if s.branchPC >= MEMSIZE then Undefined32
    else if s.mem.tags[s.branchPC].written then Ok32(s.(pc := s.branchPC, bounce := s.branchPC))
    else Ok32(s.(pc := s.branchPC))
  }

  // ----- The relation between the two machines -----

  predicate Extended(r: Reg) { r.d0 == Sx(Low(r)) }

  /** The low double word of every register, and of HI and LO, is a sign-extended word. */
  predicate Form(r: Regs)
  {
    (forall i :: 0 <= i < 32 ==> Extended(r.gpr[i])) && Extended(r.hi) && Extended(r.lo)
  }

  function AbsFile(g: GprFile): WordFile { seq(32, i requires 0 <= i < 32 => Low(g[i])) }
  function AbsRegs(r: Regs): Regs32 { Regs32(AbsFile(r.gpr), Low(r.hi), Low(r.lo)) }
  function Abs(s: State): State32 { State32(AbsRegs(s.regs), s.mem, s.pc, s.cycle, s.branchPC, s.bounce) }

  /** An effect of the emulator does what an effect of the 32-bit machine does, and keeps the form. */
  predicate Matches(r: Regs, e: Effect, e32: Effect32)
  {
    match e32
    case Unsupported32 => true
    case Exit32 => e == Exit
    case Trap32 => e == Trap
    case Write32(_, _, _, _) => e.Write? && Form(Apply(r, e)) && AbsRegs(Apply(r, e)) == Apply32(AbsRegs(r), e32)
  }

  predicate MatchesAction(a: Action, a32: Action32)
  {
    match a32
    case Outside => true
    case Stop32 => a == Stop
    case Undef32 => a == Undef
    case Next32(t) => a.Next? && Form(a.s.regs) && Abs(a.s) == t
    case Take32(t, tar) => a.Take? && Form(a.s.regs) && Abs(a.s) == t && a.tar == tar
  }

  predicate MatchesOutcome(o: Outcome, o32: Outcome32)
  {
    match o32
    case Beyond => true
    case Halted32 => o == Halted
    case Undefined32 => o == Undefined
    case Ok32(t) => o.Ok? && Form(o.s.regs) && Abs(o.s) == t
  }

  // ----- Sign extension commutes with the operations -----

  lemma SxFacts(a: u32, b: u32)
    ensures Sx(a) % TWO32 == a
    ensures S64(Sx(a)) == S32(a)
    ensures Sx(a) == Sx(b) <==> a == b
    ensures Sx(a) < Sx(b) <==> a < b
    ensures Sx(a) == 0 <==> a == 0
    ensures U64(S32(a)) == Sx(a)
  {
  }

  lemma BitwiseSx(op: BitOp, a: u32, b: u32)
    ensures Bitwise(op, a, b) < TWO32
    ensures Bitwise(op, Sx(a), Sx(b)) == Sx(Bitwise(op, a, b))
  {
    hide Bitwise, Pow2;
    Pow2Values();
    var p := 0x8000_0000;
    assert Pow2(31) == p by { Pow2Add(24, 7); SmallPow2(); }
    var ta, tb := a / p, b / p;
    BitwiseSplit(op, 31, a % p, ta, b % p, tb);
    BitwiseBit(op, ta, tb);
    var ha, hb := if ta == 1 then TWO32 - 1 else 0, if tb == 1 then TWO32 - 1 else 0;
    BitwiseSplit(op, 32, a, ha, b, hb);
    BitwiseOnes(32, ha);
    BitwiseOnes(32, hb);
    BitwiseZero(ha);
    BitwiseZero(hb);
    assert Bitwise(op, ha, hb) == if Bit(op, ta, tb) == 1 then TWO32 - 1 else 0;
  }

  lemma BitwiseBit(op: BitOp, x: nat, y: nat)
    requires x <= 1 && y <= 1
    ensures Bitwise(op, x, y) == Bit(op, x, y)
  {
    BitwiseStep(op, x, y);
    BitwiseZero(0);
  }

  // ----- Simulation, handler group by handler group -----

  lemma AbsSet(g: GprFile, n: Index, v: Reg)
    ensures AbsFile(SetGpr(g, n, v)) == SetWord(AbsFile(g), n, Low(v))
  {
  }

  lemma FormSet(r: Regs, n: Index, v: Reg)
    requires Form(r) && Extended(v)
    ensures Form(r.(gpr := SetGpr(r.gpr, n, v)))
  {
  }

  /** Writing sign-extended words matches writing words. */
  lemma WriteMatches(r: Regs, dest: Index, d: u64, hi: u64, lo: u64, v: u32, h: u32, l: u32)
    requires Form(r)
    requires dest != 0 ==> d == Sx(v)
    requires hi == Sx(h) && lo == Sx(l)
    ensures Matches(r, Write(dest, r.gpr[dest].(d0 := d), r.hi.(d0 := hi), r.lo.(d0 := lo)), Write32(dest, v, h, l))
  {
    SxFacts(v, v);
    SxFacts(h, h);
    SxFacts(l, l);
    var e := Write(dest, r.gpr[dest].(d0 := d), r.hi.(d0 := hi), r.lo.(d0 := lo));
    AbsSet(r.gpr, dest, e.val);
    if dest != 0 {
      FormSet(r, dest, e.val);
    }
  }

  lemma WordOf(r: Regs, n: Index)
    requires Form(r)
    ensures r.gpr[n].d0 == Sx(AbsRegs(r).gpr[n]) && Low(r.gpr[n]) == AbsRegs(r).gpr[n]
    ensures r.hi.d0 == Sx(AbsRegs(r).hi) && r.lo.d0 == Sx(AbsRegs(r).lo)
  {
  }

  lemma SimImmediate(r: Regs, code: u32)
    requires Form(r)
    ensures Matches(r, Alu.Immediate(r, code), Immediate32(AbsRegs(r), code))
  {
    hide Matches, Bitwise, Form, AbsRegs, Low, Rs, Rt, Imm, ImmU, Op, Shl32, To, ToD0, U32, U64, S32, S64, Sx;
    var rt, a, imm := Rt(code), AbsRegs(r).gpr[Rs(code)], Imm(code);
    WordOf(r, Rs(code));
    WordOf(r, rt);
    SxFacts(a, U32(imm));
    ImmediateFacts(code, a);
    FlagSx(S32(a) < imm);
    FlagSx(a < U32(imm));
    match Op(code)
    case 0x08 => D0Matches(r, rt, U32(a + imm));
    case 0x09 => D0Matches(r, rt, U32(a + imm));
    case 0x0a => D0Matches(r, rt, Bool(S32(a) < imm));
    case 0x0b => D0Matches(r, rt, Bool(a < U32(imm)));
    case 0x0c => BitwiseSx(And, a, ImmU(code)); D0Matches(r, rt, And32(a, ImmU(code)));
    case 0x0d => BitwiseSx(Or, a, ImmU(code)); D0Matches(r, rt, Or32(a, ImmU(code)));
    case 0x0e => BitwiseSx(Xor, a, ImmU(code)); D0Matches(r, rt, Xor32(a, ImmU(code)));
    case 0x0f => D0Matches(r, rt, Shl32(code, 16));
    case _ => AnythingGoes(r, Alu.Immediate(r, code));
  }

  /** Writing the sign-extended word v to one register. */
  lemma D0Matches(r: Regs, dest: Index, v: u32)
    requires Form(r)
    ensures Matches(r, ToD0(r, dest, Sx(v)), To(AbsRegs(r), dest, v))
  {
    WordOf(r, 0);
    WriteMatches(r, dest, Sx(v), r.hi.d0, r.lo.d0, v, AbsRegs(r).hi, AbsRegs(r).lo);
  }

  lemma FlagSx(b: bool)
    ensures Flag(b) == Sx(Bool(b))
  {
  }

  lemma ImmediateFacts(code: u32, a: u32)
    ensures -0x8000 <= Imm(code) < 0x8000
    ensures U32(S32(a) + Imm(code)) == U32(a + Imm(code))
    ensures Sx(ImmU(code)) == ImmU(code)
    ensures U64(Imm(code)) == Sx(U32(Imm(code)))
    ensures S32(U32(Imm(code))) == Imm(code)
  {
  }

  lemma AnythingGoes(r: Regs, e: Effect)
    ensures Matches(r, e, Unsupported32)
  {
  }

  /** A product or a sum of products, split over HI and LO. */
  lemma ProductMatches(r: Regs, rd: Index, x: int)
    requires Form(r)
    ensures Matches(r, Alu.Multiply(r, rd, x), Product32(AbsRegs(r), rd, x))
  {
    WriteMatches(r, rd, LoPart(x), HiPart(x), LoPart(x), U32(x), U32(x / TWO32), U32(x));
  }

  lemma DivideMatches(r: Regs, n: u32, d: u32)
    requires Form(r)
    ensures Matches(r, Alu.Divide(r, n, d), Divide32(AbsRegs(r), n, d))
  {
    hide Matches, Form, AbsRegs, TruncDiv, TruncRem, DivTraps, Alu.DivLo, Alu.DivHi;
    WordOf(r, 0);
    if d == 0 {
      WriteMatches(r, 0, r.gpr[0].d0, r.hi.d0, r.lo.d0, 0, AbsRegs(r).hi, AbsRegs(r).lo);
    } else if DivTraps(n, d) {
      TrapMatches(r);
    } else {
      QuotientFits(n, d);
      WriteMatches(r, 0, r.gpr[0].d0, Alu.DivHi(n, d), Alu.DivLo(n, d), 0,
                   U32(TruncRem(S32(n), S32(d))), U32(TruncDiv(S32(n), S32(d))));
    }
  }

  lemma TrapMatches(r: Regs)
    ensures Matches(r, Trap, Trap32)
  {
  }

  /** Sums and differences of words do not depend on how the words are read. */
  lemma SumFacts(a: u32, b: u32)
    ensures U32(S32(a) + S32(b)) == U32(a as int + b)
    ensures U32(S32(a) - S32(b)) == U32(a as int - b)
  {
  }

  lemma NorFacts(a: u32, b: u32)
    ensures Not64(Or64(Sx(a), Sx(b))) == Sx(Not32(Or32(a, b)))
  {
    hide Bitwise;
    BitwiseSx(Or, a, b);
  }

  lemma SimSpecial(r: Regs, code: u32)
    requires Form(r)
    ensures Matches(r, Alu.Special(r, code), Special32(AbsRegs(r), code))
  {
    hide Matches, Bitwise, Form, AbsRegs, Low, Rs, Rt, Rd, Sa, Funct, Shl32, Shr32, Sra32, Alu.Divide, Divide32,
         Alu.Multiply, Product32;
    var r32 := AbsRegs(r);
    var rd, a, b := Rd(code), r32.gpr[Rs(code)], r32.gpr[Rt(code)];
    WordOf(r, Rs(code));
    WordOf(r, Rt(code));
    SxFacts(a, b);
    SxFacts(b, a);
    SumFacts(a, b);
    match Funct(code)
    case 0x00 => D0Matches(r, rd, Shl32(b, Sa(code)));
    case 0x02 => D0Matches(r, rd, Shr32(b, Sa(code)));
    case 0x03 => D0Matches(r, rd, Sra32(b, Sa(code)));
    case 0x04 => D0Matches(r, rd, Shl32(b, a % 32));
    case 0x06 => D0Matches(r, rd, Shr32(b, a % 32));
    case 0x07 => D0Matches(r, rd, Sra32(b, a % 32));
    case 0x0a => D0Matches(r, if b == 0 then rd else 0, a);
    case 0x0b => D0Matches(r, if b != 0 then rd else 0, a);
    case 0x10 => D0Matches(r, rd, r32.hi);
    case 0x11 => WriteMatches(r, 0, r.gpr[0].d0, Sx(a), r.lo.d0, 0, a, r32.lo);
    case 0x12 => D0Matches(r, rd, r32.lo);
    case 0x13 => WriteMatches(r, 0, r.gpr[0].d0, r.hi.d0, Sx(a), 0, r32.hi, a);
    case 0x18 => ProductMatches(r, rd, S32(a) * S32(b));
    case 0x19 => ProductMatches(r, rd, a as int * b);
    case 0x1a => DivideMatches(r, a, b);
    case 0x20 => D0Matches(r, rd, U32(a as int + b));
    case 0x21 => D0Matches(r, rd, U32(a as int + b));
    case 0x22 => D0Matches(r, rd, U32(a as int - b));
    case 0x23 => D0Matches(r, rd, U32(a as int - b));
    case 0x24 => BitwiseSx(And, a, b); D0Matches(r, rd, And32(a, b));
    case 0x25 => BitwiseSx(Or, a, b); D0Matches(r, rd, Or32(a, b));
    case 0x26 => BitwiseSx(Xor, a, b); D0Matches(r, rd, Xor32(a, b));
    case 0x27 => NorFacts(a, b); D0Matches(r, rd, Not32(Or32(a, b)));
    case 0x2a => D0Matches(r, rd, Bool(S32(a) < S32(b)));
    case 0x2b => D0Matches(r, rd, Bool(a < b));
    case _ => AnythingGoes(r, Alu.Special(r, code));
  }

  /** Results are cut to 64 bits before they are split; it makes no difference. */
  lemma WrapParts(x: int)
    ensures LoPart(U64(x)) == LoPart(x) && HiPart(U64(x)) == HiPart(x)
  {
    var q := x / TWO64;
    assert x == U64(x) + TWO64 * q;
    assert x / TWO32 == U64(x) / TWO32 + TWO32 * q;
  }

  lemma SimMultimedia(r: Regs, code: u32)
    requires Form(r)
    ensures Matches(r, Mmi.Mmi(r, code), Multimedia32(AbsRegs(r), code))
  {
    hide Matches, Form, AbsRegs, Rs, Rt, Rd, Sa, Funct, Alu.Multiply, Product32, LoPart, HiPart;
    var r32 := AbsRegs(r);
    var rd, a, b := Rd(code), r32.gpr[Rs(code)], r32.gpr[Rt(code)];
    WordOf(r, Rs(code));
    WordOf(r, Rt(code));
    var acc := r32.lo as int + TWO32 * r32.hi;
    match Funct(code)
    case 0x00 => AccumulateMatches(r, rd, acc + S32(a) * S32(b)); AccOf(r);
    case 0x01 => AccumulateMatches(r, rd, acc + a as int * b); AccOf(r);
    case _ => AnythingGoes(r, Mmi.Mmi(r, code));
  }

  lemma AccOf(r: Regs)
    requires Form(r)
    ensures Mmi.Acc(r, 0) == AbsRegs(r).lo as int + TWO32 * AbsRegs(r).hi
  {
  }

  lemma AccumulateMatches(r: Regs, rd: Index, x: int)
    requires Form(r)
    ensures Matches(r, Mmi.Accumulate(r, 0, rd, U64(x)), Product32(AbsRegs(r), rd, x))
  {
    hide Matches, Form, AbsRegs, LoPart, HiPart;
    WrapParts(x);
    ProductMatches(r, rd, x);
  }

  lemma SimRegisterAction(s: State, e: Effect, e32: Effect32)
    requires Form(s.regs) && Matches(s.regs, e, e32)
    ensures MatchesAction(RegisterAction(s, e), RegisterAction32(Abs(s), e32))
  {
    hide Form, AbsRegs, Apply, Apply32;
  }

  // ----- Branches, system calls, loads and stores -----

  lemma SimLink(s: State, n: Index)
    requires Form(s.regs) && s.pc <= 0x4000_0000
    ensures Form(Link(s, n).regs) && Abs(Link(s, n)) == Link32(Abs(s), n)
  {
    var v := s.regs.gpr[n].(d0 := U32(s.pc + 4));
    SxFacts(U32(s.pc + 4), 0);
    AbsSet(s.regs.gpr, n, v);
    FormSet(s.regs, n, v);
  }

  lemma SimBranch(s: State, code: u32, cond: bool, likely: bool)
    requires Form(s.regs)
    ensures MatchesAction(Branch(s, code, cond, likely), Branch32(Abs(s), code, cond, likely))
  {
    hide Form, AbsRegs, BranchTarget;
    SameTargets(code, s.pc);
  }

  lemma SimCompares(r: Regs, code: u32)
    requires Form(r)
    ensures Compares(r, code) == Compares32(AbsRegs(r), code)
  {
    hide Form, AbsRegs, Op, Rs, Rt;
    WordOf(r, Rs(code));
    WordOf(r, Rt(code));
    SxFacts(AbsRegs(r).gpr[Rs(code)], AbsRegs(r).gpr[Rt(code)]);
  }

  lemma SimRegimm(s: State, code: u32, j: Junk)
    requires Form(s.regs) && s.pc <= 0x4000_0000
    ensures MatchesAction(Regimm(s, code, j), Regimm32(Abs(s), code))
  {
    hide Form, AbsRegs, Rs, Rt, Link, Link32, Branch, Branch32, MatchesAction;
    var rt := Rt(code);
    if rt % 16 < 4 {
      SimLink(s, 31);
      var s' := if rt >= 16 then Link(s, 31) else s;
      WordOf(s'.regs, Rs(code));
      SxFacts(AbsRegs(s'.regs).gpr[Rs(code)], 0);
      var v := S64(s'.regs.gpr[Rs(code)].d0);
      SimBranch(s', code, if rt % 2 == 0 then v < 0 else v >= 0, rt / 2 % 2 == 1);
    } else {
      StopMatches();
    }
  }

  lemma StopMatches()
    ensures MatchesAction(Stop, Stop32)
  {
  }

  lemma SimSpecialAction(s: State, code: u32, j: Junk)
    requires Form(s.regs) && s.pc <= 0x4000_0000
    ensures MatchesAction(Interpreter.Special(s, code, j), SpecialAction32(Abs(s), code))
  {
    hide Form, AbsRegs, Rs, Rt, Rd, Link, Link32, Alu.Special, Special32, Call, Call32, Low;
    SimSpecial(s.regs, code);
    SimRegisterAction(s, Alu.Special(s.regs, code), Special32(AbsRegs(s.regs), code));
    SimLink(s, Rd(code));
    WordOf(s.regs, Rs(code));
    WordOf(s.regs, 4);
    SimCall(s.regs);
  }

  lemma SimCall(r: Regs)
    requires Form(r)
    ensures Call(r) == Call32(AbsRegs(r))
  {
    WordOf(r, 3);
  }

  lemma SimEa(r: Regs, code: u32)
    requires Form(r)
    ensures Ea(r, code) == Ea32(AbsRegs(r), code)
  {
    WordOf(r, Rs(code));
  }

  lemma SimLoaded(op: nat, a: u32, bs: seq<u8>, t: Reg)
    requires IsLoad32(op) && |bs| == Width(op)
    ensures Loaded(op, a, bs, t) == t.(d0 := Sx(Loaded32(op, bs)))
  {
    hide LE, Num64, U64, Sx;
    if op == LB || op == LBU {
      NarrowExtends(bs[0], 0);
    } else if op == LH || op == LHU {
      HalfValue(bs);
      NarrowExtends(0, Num16(bs));
    } else {
      WordValue(bs);
    }
  }

  lemma NarrowExtends(x: u8, y: u16)
    ensures U64(S8(x)) == Sx(if x < 0x80 then x else 0xffff_ff00 + x as int) && x == Sx(x)
    ensures U64(S16(y)) == Sx(if y < 0x8000 then y else 0xffff_0000 + y as int) && y == Sx(y)
  {
  }

  lemma HalfValue(bs: seq<u8>)
    requires |bs| == 2
    ensures LE(bs) == bs[0] as int + 0x100 * (bs[1] as int)
  {
    assert LE(bs) == bs[0] + 0x100 * LE(bs[1..]);
    assert bs[1..] == [bs[1]] && LE([bs[1]]) == bs[1];
  }

  lemma WordValue(bs: seq<u8>)
    requires |bs| == 4
    ensures LE(bs) == bs[0] as int + 0x100 * (bs[1] as int) + 0x1_0000 * (bs[2] as int) + 0x100_0000 * (bs[3] as int)
  {
    assert bs == bs[..2] + bs[2..];
    LEConcat(bs[..2], bs[2..]);
    Pow2Values();
    HalfValue(bs[..2]);
    HalfValue(bs[2..]);
  }

  lemma SimLoad(s: State, code: u32, j: Junk)
    requires Form(s.regs)
    ensures MatchesAction(LoadOp(s, code, j), LoadOp32(Abs(s), code))
  {
    hide Form, AbsFile, AbsRegs, Loaded, Loaded32, Load, Rs, Rt, Imm, Ea, Ea32;
    if IsLoad32(Op(code)) {
      var rt, a, n := Rt(code), Ea(s.regs, code), Width(Op(code));
      SimEa(s.regs, code);
      match Load(s.mem, a, n)
      case None =>
      case Some((bs, m)) =>
        SimLoaded(Op(code), a, bs, s.regs.gpr[rt]);
        var v := Loaded32(Op(code), bs);
        SetMatches(s.regs, rt, v);
    }
  }

  lemma SetMatches(r: Regs, n: Index, v: u32)
    requires Form(r)
    ensures var r' := r.(gpr := SetGpr(r.gpr, n, r.gpr[n].(d0 := Sx(v))));
            Form(r') && AbsRegs(r') == AbsRegs(r).(gpr := SetWord(AbsRegs(r).gpr, n, v))
  {
    SxFacts(v, v);
    AbsSet(r.gpr, n, r.gpr[n].(d0 := Sx(v)));
    FormSet(r, n, r.gpr[n].(d0 := Sx(v)));
  }

  /** What a store writes depends on the low word only. */
  lemma SimStored(op: nat, t: Reg, j: Junk)
    requires IsStore(op) && !IsPartial(op) && Extended(t)
    ensures Stored(op, t, j) == Stored32(op, Low(t), j)
  {
    hide Enc, Pow2;
    Pow2Values();
    var h := t.d0 / TWO32;
    match Width(op)
    case 1 => EncIgnores(Low(t), 0x100_0000 * h, 1);
    case 2 => EncIgnores(Low(t), 0x1_0000 * h, 2);
    case 4 => EncIgnores(Low(t), h, 4);
    case _ =>
  }

  lemma SimMixed(op: nat, a: u32, bs: seq<u8>, t: Reg)
    requires IsStore(op) && IsPartial(op) && |bs| == Width(op) && Extended(t)
    ensures Mixed(op, a, bs, t) == Mixed(op, a, bs, Reg(Sx(Low(t)), 0))
  {
    hide Bitwise, LE, Enc, Pow2;
  }

  lemma SimStore(s: State, code: u32, j: Junk)
    requires Form(s.regs)
    ensures MatchesAction(StoreOp(s, code, j), StoreOp32(Abs(s), code, j))
  {
    hide Form, AbsFile, AbsRegs, Mixed, Stored, Stored32, Load, Store, Rs, Rt, Imm, Ea, Ea32, Low, Start;
    var op := Op(code);
    if IsStore(op) {
      var t, a, n := s.regs.gpr[Rt(code)], Ea(s.regs, code), Width(op);
      SimEa(s.regs, code);
      WordOf(s.regs, Rt(code));
      if IsPartial(op) {
        match Load(s.mem, Start(op, a), n)
        case None =>
        case Some((bs, m)) => SimMixed(op, a, bs, t);
      } else {
        SimStored(op, t, j);
      }
    }
  }

  /** The two machines compute their targets differently, and go to the same place. */
  lemma SameTargets(code: u32, pc: u32)
    ensures var field := code % 0x1_0000;
            BranchTarget(code, pc) == U32(pc + 4 * if field >= 0x8000 then field - 0x1_0000 else field)
    ensures JumpTarget(code, pc) == Region32(pc) + 4 * (code % 0x400_0000)
  {
  }

  /** One instruction on both machines. */
  lemma SimDispatch(s: State, code: u32, j: Junk)
    requires Form(s.regs) && s.pc <= 0x4000_0000
    ensures MatchesAction(Dispatch(s, code, j), Dispatch32(Abs(s), code, j))
  {
    hide Form, AbsRegs, Rs, Rt, Rd, Imm, ImmU, Funct, Regimm, Regimm32, LoadOp, LoadOp32, StoreOp, StoreOp32, Link,
         Link32, SpecialAction32, Alu.Special, Alu.Immediate, Immediate32, Mmi.Mmi, Multimedia32, Compares, Compares32,
         Interpreter.Special, BranchTarget, JumpTarget, Region32, RegisterAction, RegisterAction32;
    SameTargets(code, s.pc);
    SimImmediate(s.regs, code);
    SimRegisterAction(s, Alu.Immediate(s.regs, code), Immediate32(AbsRegs(s.regs), code));
    SimMultimedia(s.regs, code);
    SimRegisterAction(s, Mmi.Mmi(s.regs, code), Multimedia32(AbsRegs(s.regs), code));
    SimSpecialAction(s, code, j);
    SimRegimm(s, code, j);
    SimLink(s, 31);
    SimCompares(s.regs, code);
    SimBranch(s, code, Compares(s.regs, code), Op(code) >= 0x14);
    SimLoad(s, code, j);
    SimStore(s, code, j);
  }

  // ----- Whole steps and whole runs -----

  /** One step of the emulator, with all its nested delay slots, is one step of the 32-bit machine. */
  lemma {:induction false} SimStep(s: State, j: Junk)
    requires Form(s.regs)
    ensures MatchesOutcome(ExecI(s, j), ExecI32(Abs(s), j))
    decreases Left(s.pc)
  {
    hide Dispatch, Dispatch32, Form, AbsRegs, Load;
    match Fetch(s)
    case None =>
    case Some((s1, code)) =>
      FetchBelow(s);
      SimDispatch(s1, code, j);
      match Dispatch32(Abs(s1), code, j)
      case Take32(t, tar) =>
        var u := Dispatch(s1, code, j).s.(branchPC := tar);
        SimStep(u, j);
        assert ExecI(s, j) == DoBranch(Dispatch(s1, code, j).s, tar, j);
        assert ExecI32(Abs(s), j) == DoBranch32(t, tar, j);
        assert Abs(u) == t.(branchPC := tar);
        SimArrive(ExecI(u, j), ExecI32(Abs(u), j));
      case _ =>
  }

  lemma SimArrive(o: Outcome, o32: Outcome32)
    requires MatchesOutcome(o, o32)
    ensures MatchesOutcome(match o case Ok(s) => Arrive(s) case x => x,
                           match o32 case Ok32(s) => Arrive32(s) case x => x)
  {
    hide Form, AbsRegs;
  }

  lemma FetchBelow(s: State)
    ensures Fetch(s).Some? ==> Fetch(s).value.0.pc <= 0x4000_0000
  {
    hide Load;
  }

  datatype Result32 = Running32(s: State32) | Bounced32(s: State32) | Exited32 | Lost32 | LeftThe32

  /** The loop of `main` on the 32-bit machine. */
  function Run32(s: State32, js: seq<Junk>): Result32
    decreases |js|
  {
    if s.bounce != 0 then Bounced32(s)
    else if js == [] then Running32(s)
    else
      match ExecI32(s, js[0])
      case Ok32(s') => Run32(s', js[1..])
      case Halted32 => Exited32
      case Undefined32 => Lost32
      case Beyond => LeftThe32
  }

  predicate MatchesResult(r: Result, r32: Result32)
  {
    match r32
    case LeftThe32 => true
    case Exited32 => r == Exited
    case Lost32 => r == Lost
    case Running32(t) => r.Running? && Form(r.s.regs) && Abs(r.s) == t
    case Bounced32(t) => r.Bounced? && Form(r.s.regs) && Abs(r.s) == t
  }

  /** Whole runs: as long as the program stays within the 32-bit instructions, the emulator computes what the 32-bit
      machine computes, takes the same branches, and its registers stay sign-extended. */
  lemma {:induction false} SimRun(s: State, js: seq<Junk>)
    requires Form(s.regs)
    ensures MatchesResult(Run(s, js), Run32(Abs(s), js))
    decreases |js|
  {
    hide ExecI, ExecI32, Form, AbsRegs;
    if s.bounce != 0 || js == [] {
    } else {
      SimStep(s, js[0]);
      match ExecI32(Abs(s), js[0])
      case Ok32(t) => SimRun(ExecI(s, js[0]).s, js[1..]);
      case _ =>
    }
  }

  /** A loaded program starts in the form, so its run is one of the 32-bit machine from the first step. */
  lemma SimProgram(image: Bytes, entry: u32, js: seq<Junk>)
    ensures MatchesResult(Run(Boot(image, entry), js), Run32(Abs(Boot(image, entry)), js))
  {
    hide Run, Run32, MatchesResult, AbsRegs;
    SimRun(Boot(image, entry), js);
  }

  // ----- Instructions outside the 32-bit machine: exactly when one keeps the form -----

  /** A write to Rd or Rt keeps the form exactly if what it writes is sign-extended. */
  lemma FormSetIff(r: Regs, n: Index, v: Reg)
    requires Form(r)
    ensures Form(r.(gpr := SetGpr(r.gpr, n, v))) <==> n == 0 || Extended(v)
  {
    if n != 0 {
      assert SetGpr(r.gpr, n, v)[n] == v;
    }
  }

  /** The word with bytes bs is not negative just when its top bit is clear. */
  lemma TopByte(bs: seq<u8>)
    requires |bs| == 4
    ensures LE(bs) < TWO32 && (LE(bs) < 0x8000_0000 <==> bs[3] < 0x80)
  {
    WordValue(bs);
  }

  /** LWU keeps the form only for words that are not negative. */
  lemma LwuKeepsFormIff(s: State, code: u32, j: Junk)
    requires Form(s.regs) && Op(code) == LWU && Rt(code) != 0
    ensures var next, word := LoadOp(s, code, j), Load(s.mem, Ea(s.regs, code), 4);
            next.Next? ==> (Form(next.s.regs) <==> Num32(word.value.0) < 0x8000_0000)
  {
    hide Form, Load, LE, Ea, Rt;
    var word := Load(s.mem, Ea(s.regs, code), 4);
    if word.Some? {
      var t := s.regs.gpr[Rt(code)].(d0 := Num32(word.value.0));
      FormSetIff(s.regs, Rt(code), t);
    }
  }

  /** LWL zero-extends: the byte at its address becomes the top byte and decides. */
  lemma LwlKeepsFormIff(s: State, code: u32, j: Junk)
    requires Form(s.regs) && Op(code) == LWL && Rt(code) != 0
    ensures var next, top := LoadOp(s, code, j), Phys(Ea(s.regs, code));
            next.Next? ==> top.Some? && (Form(next.s.regs) <==> s.mem.bytes[top.value] < 0x80)
  {
    hide Form, LoadOp, LE, Ea, Phys, Rt, Op, Unaligned.RegBytes, MarkRead;
    Unaligned.LoadLeftEffect(s, code, j, 4);
    if LoadOp(s, code, j).Next? {
      Unaligned.UnitSlot(4, Ea(s.regs, code));
      var p, rt := Phys(Ea(s.regs, code)).value, Rt(code);
      var k := Unaligned.Off(p, 4);
      var bs := Unaligned.RegBytes(s.regs.gpr[rt], 4)[..3 - k] + s.mem.bytes[Unaligned.Unit(p, 4)..p + 1];
      TopByte(bs);
      FormSetIff(s.regs, rt, s.regs.gpr[rt].(d0 := Unaligned.Num(bs)));
    }
  }

  /** LWR zero-extends: its top byte is the fourth byte of an aligned word, else that of the old register. */
  lemma LwrKeepsFormIff(s: State, code: u32, j: Junk)
    requires Form(s.regs) && Op(code) == LWR && Rt(code) != 0
    ensures var next, at := LoadOp(s, code, j), Phys(Ea(s.regs, code));
            next.Next? ==>
              && at.Some?
              && (at.value % 4 == 0 ==>
                    at.value + 3 < MEMSIZE && (Form(next.s.regs) <==> s.mem.bytes[at.value + 3] < 0x80))
              && (at.value % 4 != 0 ==> (Form(next.s.regs) <==> S32(Low(s.regs.gpr[Rt(code)])) >= 0))
  {
    hide Form, LoadOp, LE, Ea, Phys, Rt, Op, Unaligned.RegBytes, MarkRead;
    Unaligned.LoadRightEffect(s, code, j, 4);
    if LoadOp(s, code, j).Next? {
      Unaligned.UnitSlot(4, Ea(s.regs, code));
      var p, rt := Phys(Ea(s.regs, code)).value, Rt(code);
      var k := Unaligned.Off(p, 4);
      var old_ := Unaligned.RegBytes(s.regs.gpr[rt], 4);
      var bs := s.mem.bytes[p..Unaligned.Unit(p, 4) + 4] + old_[4 - k..];
      TopByte(bs);
      TopByte(old_);
      Unaligned.RegBytesValue(s.regs.gpr[rt], 4);
      FormSetIff(s.regs, rt, s.regs.gpr[rt].(d0 := Unaligned.Num(bs)));
    }
  }

  /** DIVU zero-extends both results: of operands below 2^31 they are words that are not negative; else the divisor
      must be one that brings both down. */
  lemma DivuKeepsFormIff(r: Regs, code: u32)
    requires Form(r) && Op(code) == 0 && Funct(code) == 0x1b
    ensures var e, n, d := Alu.Special(r, code), Low(r.gpr[Rs(code)]), Low(r.gpr[Rt(code)]);
            && e.Write?
            && (Form(Apply(r, e)) <==> d == 0 || n < 0x8000_0000 || (d != 1 && d <= n))
  {
    hide Form, Rs, Rt, Rd, Low;
    var n, d := Low(r.gpr[Rs(code)]), Low(r.gpr[Rt(code)]);
    if d != 0 {
      DivShrinks(n, d);
      QuotientParts(n, d);
      SmallExtended(n % d);
      SmallExtended(n / d);
      HiLoForm(r, n % d, n / d);
    }
  }

  lemma SmallExtended(x: u32)
    ensures Extended(Reg(x, 0)) <==> x < 0x8000_0000
  {
  }

  lemma HiLoForm(r: Regs, hi: u64, lo: u64)
    requires Form(r)
    ensures Form(r.(hi := r.hi.(d0 := hi), lo := r.lo.(d0 := lo))) <==> Extended(Reg(hi, 0)) && Extended(Reg(lo, 0))
  {
  }

  /** When quotient and remainder are both below 2^31. */
  lemma QuotientParts(n: u32, d: u32)
    requires d != 0
    ensures n / d < 0x8000_0000 && n % d < 0x8000_0000 <==> n < 0x8000_0000 || (d != 1 && d <= n)
  {
    var q, m := n / d, n % d;
    DivShrinks(n, d);
    Recompose(n, d);
    if d == 1 {
      DivMod(n, 1, 0, n);
    } else if d > n {
      DivMod(n, d, n, 0);
    } else {
      assert d * 0 == 0 && q >= 1;
      MulMono(d, 1, q);
      MulMono(q, 2, d);
      assert d * q == q * d;
    }
  }

  /** DADD and DSUB leave the exact sum or difference of the words, which must be a word itself. */
  lemma DoubleSumKeepsFormIff(r: Regs, code: u32)
    requires Form(r) && Op(code) == 0 && 0x2c <= Funct(code) <= 0x2f && Rd(code) != 0
    ensures var e, a, b := Alu.Special(r, code), S32(Low(r.gpr[Rs(code)])), S32(Low(r.gpr[Rt(code)]));
            && e.Write?
            && (Form(Apply(r, e)) <==> -0x8000_0000 <= (if Funct(code) <= 0x2d then a + b else a - b) < 0x8000_0000)
  {
    hide Form, Rs, Rt, Rd, AbsRegs, Low;
    WordOf(r, Rs(code));
    WordOf(r, Rt(code));
    SxFacts(AbsRegs(r).gpr[Rs(code)], 0);
    SxFacts(AbsRegs(r).gpr[Rt(code)], 0);
    var a, b := S32(Low(r.gpr[Rs(code)])), S32(Low(r.gpr[Rt(code)]));
    var v := if Funct(code) <= 0x2d then a + b else a - b;
    ExtendedRange(v, r.gpr[Rd(code)].d1);
    FormSetIff(r, Rd(code), r.gpr[Rd(code)].(d0 := U64(v)));
  }

  /** Likewise DADDI and DADDIU. */
  lemma DoubleImmediateKeepsFormIff(r: Regs, code: u32)
    requires Form(r) && Op(code) in {0x18, 0x19} && Rt(code) != 0
    ensures var e := Alu.Immediate(r, code);
            && e.Write?
            && (Form(Apply(r, e)) <==> -0x8000_0000 <= S32(Low(r.gpr[Rs(code)])) + Imm(code) < 0x8000_0000)
  {
    hide Form, Rs, Rt, AbsRegs, Low, Imm;
    WordOf(r, Rs(code));
    SxFacts(AbsRegs(r).gpr[Rs(code)], 0);
    ImmediateFacts(code, 0);
    var v := S32(Low(r.gpr[Rs(code)])) + Imm(code);
    ExtendedRange(v, r.gpr[Rt(code)].d1);
    FormSetIff(r, Rt(code), r.gpr[Rt(code)].(d0 := U64(v)));
  }

  lemma ExtendedRange(v: int, d1: u64)
    requires -0x8000_0000_0000_0000 <= v < 0x8000_0000_0000_0000
    ensures Extended(Reg(U64(v), d1)) <==> -0x8000_0000 <= v < 0x8000_0000
  {
  }

  /** The 64-bit shifts, and by how much they shift. */
  predicate IsDoubleShift(funct: nat) { funct in {0x14, 0x16, 0x17, 0x38, 0x3a, 0x3b, 0x3c, 0x3e, 0x3f} }

  function Amount(r: Regs, code: u32): nat
  {
    if Funct(code) < 0x38 then Low(r.gpr[Rs(code)]) % 64 else if Funct(code) < 0x3c then Sa(code) else Sa(code) + 32
  }

  /** DSRA always leaves a word sign-extended. DSRL does unless it brings ones of the sign extension down into a word
      that is too large: it must not shift, or shift them out, or have none. DSLL must not overflow the word, or shift
      all of it out. */
  lemma DoubleShiftKeepsFormIff(r: Regs, code: u32)
    requires Form(r) && Op(code) == 0 && IsDoubleShift(Funct(code)) && Rd(code) != 0
    ensures var e, a, n := Alu.Special(r, code), Low(r.gpr[Rt(code)]), Amount(r, code);
            && e.Write?
            && (Form(Apply(r, e)) <==>
                  match Funct(code) % 4
                  case 3 => true
                  case 2 => n == 0 || n > 32 || a < 0x8000_0000
                  case _ => if n < 32 then LeadingBits.Fits(a, n) else Shl32(a, n - 32) == 0)
  {
    hide Form, Rs, Rt, Rd, Sa, AbsRegs, Pow2, LeadingBits.Fits, Shl32, Shl64, Shr64, Sra64, Extended;
    var a, n, d1 := Low(r.gpr[Rt(code)]), Amount(r, code), r.gpr[Rd(code)].d1;
    WordOf(r, Rt(code));
    FormSetIff(r, Rd(code), Alu.Special(r, code).val);
    ShiftedLeft(a, n, d1);
    ShiftedRight(a, n, d1);
    ShiftedArithmetic(a, n, d1);
  }

  lemma ShiftedArithmetic(a: u32, n: nat, d1: u64)
    ensures Extended(Reg(Sra64(Sx(a), n), d1))
  {
    hide Pow2;
    var x, p := S32(a), Pow2(n);
    var q := x / p;
    if x >= 0 {
      DivShrinks(x, p);
    } else {
      QuotientNegative(x, p);
    }
    SxFacts(a, 0);
    ExtendedRange(q, d1);
  }

  lemma ShiftedRight(a: u32, n: nat, d1: u64)
    requires n < 64
    ensures Extended(Reg(Shr64(Sx(a), n), d1)) <==> n == 0 || n > 32 || a < 0x8000_0000
  {
    hide Pow2;
    var x, p := Sx(a), Pow2(n);
    Pow2Values();
    SmallPow2();
    if a < 0x8000_0000 {
      DivShrinks(a, p);
    } else if n == 0 {
      DivMod(x, 1, 0, x);
    } else if n > 32 {
      Pow2Add(32, 1);
      Pow2Mono(33, n);
      QuotientBelow(x, p, 0x8000_0000);
    } else {
      Pow2Mono(1, n);
      Pow2Mono(n, 32);
      QuotientBelow(x, p, 0x8000_0000_0000_0000);
      QuotientAbove(x, p, 0x8000_0000);
    }
  }

  lemma QuotientAbove(x: nat, p: nat, q: nat)
    requires p >= 1 && x >= p * q
    ensures x / p >= q
  {
    Recompose(x, p);
    if x / p < q {
      MulMono(p, x / p + 1, q);
      MulNext(p, x / p);
    }
  }

  lemma ShiftedLeft(a: u32, n: nat, d1: u64)
    requires n < 64
    ensures Extended(Reg(Shl64(Sx(a), n), d1)) <==> if n < 32 then LeadingBits.Fits(a, n) else Shl32(a, n - 32) == 0
  {
    hide Pow2, U64, U32, Extended;
    var p := Pow2(n);
    Pow2Values();
    if n < 32 {
      LeadingBits.Pow2At31();
      Pow2Mono(n, 31);
      SignedProduct(a, p);
      ProductBound(S32(a), p);
      ExtendedRange(S32(a) * p, d1);
    } else {
      Pow2Add(32, n - 32);
      ShiftedOut(a, Pow2(n - 32));
      UpperExtended(Shl32(a, n - 32), d1);
    }
  }

  lemma Wraps(x: int, k: int)
    ensures U64(x + TWO64 * k) == U64(x)
  {
  }

  lemma SignedProduct(a: u32, p: nat)
    ensures U64(Sx(a) * p) == U64(S32(a) * p)
  {
    hide U64;
    if a >= 0x8000_0000 {
      assert Sx(a) * p == S32(a) * p + TWO64 * p;
      Wraps(S32(a) * p, p);
    }
  }

  lemma UpperExtended(w: u32, d1: u64)
    ensures Extended(Reg(TWO32 * w, d1)) <==> w == 0
  {
  }

  lemma ProductBound(x: int, p: nat)
    requires -0x8000_0000 <= x < 0x8000_0000 && p <= 0x8000_0000
    ensures -0x4000_0000_0000_0000 <= x * p <= 0x4000_0000_0000_0000
  {
    var m := if x < 0 then -x else x;
    MulMono(m, p, 0x8000_0000);
    assert x * p == if x < 0 then -(m * p) else m * p;
  }

  /** Of a shift by 32 or more only the low bits are left, in the upper word. */
  lemma ShiftedOut(a: u32, p: nat)
    ensures U64(Sx(a) * (TWO32 * p)) == TWO32 * U32(a * p)
  {
    hide U64, U32;
    var q := a * p / TWO32;
    var h := if a < 0x8000_0000 then 0 else TWO32 - 1;
    assert Sx(a) == a + TWO32 * h;
    UpperProduct(a, h, p);
    assert a * p == U32(a * p) + TWO32 * q by { Split32(a * p); }
    Wraps(TWO32 * U32(a * p), q + h * p);
    assert U64(TWO32 * U32(a * p)) == TWO32 * U32(a * p) by { Fits64(U32(a * p)); }
  }

  lemma Split32(x: nat)
    ensures x == U32(x) + TWO32 * (x / TWO32)
  {
  }

  lemma Fits64(w: u32)
    ensures U64(TWO32 * w) == TWO32 * w
  {
  }

  lemma UpperProduct(a: int, h: int, p: int)
    ensures (a + TWO32 * h) * (TWO32 * p) == TWO32 * (a * p) + TWO64 * (h * p)
  {
    assert (a + TWO32 * h) * (TWO32 * p) == TWO32 * ((a + TWO32 * h) * p);
    assert (a + TWO32 * h) * p == a * p + TWO32 * (h * p);
  }

  /** EndOfHeap replaces only the low word of v0: the form survives only if v0 was not negative. */
  lemma EndOfHeapKeepsFormIff(s: State)
    requires Form(s.regs) && Call(s.regs) == 0x3e
    ensures Syscall(s).Next?
    ensures Form(Syscall(s).s.regs) <==> S32(Low(s.regs.gpr[2])) >= 0
  {
    hide Call, Form;
    WordOf(s.regs, 2);
    FormSetIff(s.regs, 2, Syscall(s).s.regs.gpr[2]);
  }

  /** The same for s0 in the one move from COP0 that is known. */
  lemma Mfc0KeepsFormIff(s: State, j: Junk)
    requires Form(s.regs)
    ensures Cop0(s, 0x40106000, j).Next?
    ensures Form(Cop0(s, 0x40106000, j).s.regs) <==> S32(Low(s.regs.gpr[16])) >= 0
  {
    hide Form;
    WordOf(s.regs, 16);
    FormSetIff(s.regs, 16, Cop0(s, 0x40106000, j).s.regs.gpr[16]);
  }
}
