/** The step function of Interpreter.c on machine states: fetch, the opcode tables, the load and store family, and the
    mutually recursive `execI` and `doBranch`. */
module Interpreter {
  import opened Words
  import opened Memory
  import opened Registers
  import Alu
  import Mmi

  /** Registers, memory, and the globals that steer a run. `branchPC` is the target a pending branch will jump to,
      `bounce` is `bounce_pc`: nonzero once the packed program has been found to enter what it wrote. */
  datatype State = State(regs: Regs, mem: Mem, pc: u32, cycle: u32, branchPC: u32, bounce: u32)

  /** What a handler asks for: go on in state s; execute the delay slot of a taken branch and then go to tar; or stop
      the process (`exit`), or do what the host leaves undefined. */
  datatype Action = Next(s: State) | Take(s: State, tar: u32) | Stop | Undef

  datatype Outcome = Ok(s: State) | Halted | Undefined

  /** SQ stores host memory, not the register (the address of a pointer is taken once too often): what it stores is
      given from outside. */
  type Junk = b: seq<u8> | |b| == 16 witness seq(16, _ => 0)

  // ----- Addresses and targets; pc is already past the instruction -----

  function Ea(r: Regs, code: u32): u32 { U32(Low(r.gpr[Rs(code)]) + Imm(code)) }

  function BranchTarget(code: u32, pc: u32): u32 { U32(Imm(code) * 4 + pc) }

  function JumpTarget(code: u32, pc: u32): u32
  {
    code % 0x400_0000 * 4 + pc / 0x1000_0000 * 0x1000_0000
  }

  function Link(s: State, n: Index): State
  {
    s.(regs := s.regs.(gpr := SetGpr(s.regs.gpr, n, s.regs.gpr[n].(d0 := U32(s.pc + 4)))))
  }

  // ----- Loads -----

  const LDL: nat := 0x1a
  const LDR: nat := 0x1b
  const LQ: nat := 0x1e
  const SQ: nat := 0x1f
  const LB: nat := 0x20
  const LH: nat := 0x21
  const LWL: nat := 0x22
  const LW: nat := 0x23
  const LBU: nat := 0x24
  const LHU: nat := 0x25
  const LWR: nat := 0x26
  const LWU: nat := 0x27
  const SB: nat := 0x28
  const SH: nat := 0x29
  const SWL: nat := 0x2a
  const SW: nat := 0x2b
  const SDL: nat := 0x2c
  const SDR: nat := 0x2d
  const SWR: nat := 0x2e
  const LD: nat := 0x37
  const SD: nat := 0x3f

  predicate IsLoad(op: nat) { op == LDL || op == LDR || op == LQ || LB <= op <= LWU || op == LD }
  predicate IsStore(op: nat) { op == SQ || SB <= op <= SWR || op == SD }
  predicate IsPartial(op: nat) {
    op == LDL || op == LDR || op == LWL || op == LWR || op == SWL || op == SWR || op == SDL || op == SDR
  }

  /** Bytes transferred by a load or a store. */
  function Width(op: nat): (n: nat)
    requires IsLoad(op) || IsStore(op)
    ensures n in {1, 2, 4, 8, 16}
  {
    if op == LB || op == LBU || op == SB then 1
    else if op == LH || op == LHU || op == SH then 2
    else if op == LQ || op == SQ then 16
    else if op == LD || op == LDL || op == LDR || op == SD || op == SDL || op == SDR then 8
    else 4
  }

  /** The address an access starts at: the partial ones work on the aligned unit around a, the 128-bit ones round
      down. */
  function Start(op: nat, a: u32): u32
    requires IsLoad(op) || IsStore(op)
  {
    if op == LQ || op == SQ then a - a % 16
    else if !IsPartial(op) then a
    else if op == LWL || op == LWR || op == SWL || op == SWR then a - a % 4
    else a - a % 8
  }

  const LWL_MASK: seq<u32> := [0xffffff, 0xffff, 0xff, 0]
  const LWL_SHIFT: seq<nat> := [24, 16, 8, 0]
  const LWR_MASK: seq<u32> := [0, 0xff000000, 0xffff0000, 0xffffff00]
  const LWR_SHIFT: seq<nat> := [0, 8, 16, 24]
  const LDL_MASK: seq<u64> := [0x00ffffffffffffff, 0x0000ffffffffffff, 0x000000ffffffffff, 0x00000000ffffffff,
                               0x0000000000ffffff, 0x000000000000ffff, 0x00000000000000ff, 0x0000000000000000]
  const LDL_SHIFT: seq<nat> := [56, 48, 40, 32, 24, 16, 8, 0]
  const LDR_MASK: seq<u64> := [0x0000000000000000, 0xff00000000000000, 0xffff000000000000, 0xffffff0000000000,
                               0xffffffff00000000, 0xffffffffff000000, 0xffffffffffff0000, 0xffffffffffffff00]
  const LDR_SHIFT: seq<nat> := [0, 8, 16, 24, 32, 40, 48, 56]
  const SWL_MASK: seq<u32> := [0xffffff00, 0xffff0000, 0xff000000, 0x00000000]
  const SWL_SHIFT: seq<nat> := [24, 16, 8, 0]
  const SWR_MASK: seq<u32> := [0x00000000, 0x000000ff, 0x0000ffff, 0x00ffffff]
  const SWR_SHIFT: seq<nat> := [0, 8, 16, 24]
  const SDL_MASK: seq<u64> := [0xffffffffffffff00, 0xffffffffffff0000, 0xffffffffff000000, 0xffffffff00000000,
                               0xffffff0000000000, 0xffff000000000000, 0xff00000000000000, 0x0000000000000000]
  const SDL_SHIFT: seq<nat> := [56, 48, 40, 32, 24, 16, 8, 0]
  const SDR_MASK: seq<u64> := [0x0000000000000000, 0x00000000000000ff, 0x000000000000ffff, 0x0000000000ffffff,
                               0x00000000ffffffff, 0x000000ffffffffff, 0x0000ffffffffffff, 0x00ffffffffffffff]
  const SDR_SHIFT: seq<nat> := [0, 8, 16, 24, 32, 40, 48, 56]

  function Num32(bs: seq<u8>): u32
    requires |bs| == 4
  {
    LEBound(bs);
    Pow2Values();
    LE(bs)
  }

  function Num64(bs: seq<u8>): u64
    requires |bs| == 8
  {
    LEBound(bs);
    Pow2Values();
    LE(bs)
  }

  function Num16(bs: seq<u8>): u16
    requires |bs| == 2
  {
    LEBound(bs);
    Pow2Values();
    LE(bs)
  }

  /** What a load leaves in its register, given the bytes it read and the old contents. */
  function Loaded(op: nat, a: u32, bs: seq<u8>, t: Reg): Reg
    requires IsLoad(op) && |bs| == Width(op)
  {
    if op == LB then t.(d0 := U64(S8(bs[0])))
    else if op == LBU then t.(d0 := bs[0])
    else if op == LH then t.(d0 := U64(S16(Num16(bs))))
    else if op == LHU then t.(d0 := Num16(bs))
    else if op == LW then t.(d0 := Sx(Num32(bs)))
    else if op == LWU then t.(d0 := Num32(bs))
    else if op == LD then t.(d0 := Num64(bs))
    else if op == LWL then t.(d0 := Or32(And32(Low(t), LWL_MASK[a % 4]), Shl32(Num32(bs), LWL_SHIFT[a % 4])))
    else if op == LWR then t.(d0 := Or32(And32(Low(t), LWR_MASK[a % 4]), Shr32(Num32(bs), LWR_SHIFT[a % 4])))
    else if op == LDL then t.(d0 := Or64(And64(t.d0, LDL_MASK[a % 8]), Shl64(Num64(bs), LDL_SHIFT[a % 8])))
    else if op == LDR then t.(d0 := Or64(And64(t.d0, LDR_MASK[a % 8]), Shr64(Num64(bs), LDR_SHIFT[a % 8])))
    else OfBs(bs)
  }

  function LoadOp(s: State, code: u32, j: Junk): Action
  {
    var op, rt, a := Op(code), Rt(code), Ea(s.regs, code);
    if !IsLoad(op) then Stop
    else if IsPartial(op) && rt == 0 then Next(s)
    else
      match Load(s.mem, Start(op, a), Width(op))
      case None => Stop
      case Some((bs, m)) =>
        var t := Loaded(op, a, bs, s.regs.gpr[rt]);
        Next(s.(mem := m, regs := s.regs.(gpr := SetGpr(s.regs.gpr, rt, t))))
  }

  // ----- Stores -----

  /** What a partial store writes over the aligned unit it read. */
  function Mixed(op: nat, a: u32, bs: seq<u8>, t: Reg): (r: seq<u8>)
    requires IsStore(op) && IsPartial(op) && |bs| == Width(op)
    ensures |r| == |bs|
  {
    if op == SWL then Enc(Or32(Shr32(Low(t), SWL_SHIFT[a % 4]), And32(Num32(bs), SWL_MASK[a % 4])), 4)
    else if op == SWR then Enc(Or32(Shl32(Low(t), SWR_SHIFT[a % 4]), And32(Num32(bs), SWR_MASK[a % 4])), 4)
    else if op == SDL then Enc(Or64(Shr64(t.d0, SDL_SHIFT[a % 8]), And64(Num64(bs), SDL_MASK[a % 8])), 8)
    else Enc(Or64(Shl64(t.d0, SDR_SHIFT[a % 8]), And64(Num64(bs), SDR_MASK[a % 8])), 8)
  }

  /** What any other store writes: the low bytes of the register. */
  function Stored(op: nat, t: Reg, j: Junk): (r: seq<u8>)
    requires IsStore(op) && !IsPartial(op)
    ensures |r| == Width(op)
  {
    if op == SQ then j else Enc(t.d0, Width(op))
  }

  function StoreOp(s: State, code: u32, j: Junk): Action
  {
    var op, t, a := Op(code), s.regs.gpr[Rt(code)], Ea(s.regs, code);
    if !IsStore(op) then Stop
    else if IsPartial(op) then
      match Load(s.mem, Start(op, a), Width(op))
      case None => Stop
      case Some((bs, m)) => Wrote(s, Store(m, Start(op, a), Mixed(op, a, bs, t)))
    else Wrote(s, Store(s.mem, Start(op, a), Stored(op, t, j)))
  }

  function Wrote(s: State, m: Option<Mem>): Action
  {
    match m
    case None => Stop
    case Some(m') => Next(s.(mem := m'))
  }

  // ----- Branches, system calls and the opcode table -----

  function Branch(s: State, code: u32, cond: bool, likely: bool): Action
  {
    if cond then Take(s, BranchTarget(code, s.pc))
    else if likely then Next(s.(pc := U32(s.pc + 4)))
    else Next(s)
  }

  /** Opcodes 4 to 7 and their likely forms 20 to 23: BEQ, BNE, BLEZ, BGTZ. */
  predicate Compares(r: Regs, code: u32)
  {
    var s, t := r.gpr[Rs(code)].d0, r.gpr[Rt(code)].d0;
    match Op(code) % 4
    case 0 => s == t
    case 1 => s != t
    case 2 => S64(s) <= 0
    case _ => S64(s) > 0
  }

  /** The REGIMM table: BLTZ and BGEZ, likely (bit 1 of Rt), linking (bit 4 of Rt). The link comes first. */
  function Regimm(s: State, code: u32, j: Junk): Action
  {
    var rt := Rt(code);
    if rt % 16 < 4 then
      var s := if rt >= 16 then Link(s, 31) else s;
      var v := S64(s.regs.gpr[Rs(code)].d0);
      Branch(s, code, if rt % 2 == 0 then v < 0 else v >= 0, rt / 2 % 2 == 1)
    else Stop
  }

  function Jalr(s: State, code: u32): Action
  {
    Take(if Rd(code) != 0 then Link(s, Rd(code)) else s, Low(s.regs.gpr[Rs(code)]))
  }

  /** The number of the system call in v1 (register 3), a negative one negated first. */
  function Call(r: Regs): u8
  {
    var v := S32(Low(r.gpr[3]));
    if v < 0 then U8(-v) else U8(v)
  }

  function Syscall(s: State): Action
  {
    var r := s.regs;
    match Call(r)
    case 0x3c => Next(s)
    case 0x3d => Next(s)
    case 0x3e =>
      Next(s.(regs := r.(gpr := SetGpr(r.gpr, 2, r.gpr[2].(d0 := r.gpr[2].d0 - Low(r.gpr[2]) + MEMSIZE)))))
    case 0x64 => Next(s)
    case 0x07 => Next(s.(bounce := Low(r.gpr[4])))
    case _ => Stop
  }

  function Cop0(s: State, code: u32, j: Junk): Action
  {
    var r := s.regs;
    match code
    case 0x40106000 => Next(s.(regs := r.(gpr := SetGpr(r.gpr, 16, r.gpr[16].(d0 := r.gpr[16].d0 - Low(r.gpr[16]))))))
    case 0x42000038 => Next(s)
    case 0x42000039 => Next(s)
    case _ => Stop
  }

  function RegisterAction(s: State, e: Effect): Action
  {
    match e
    case Write(_, _, _, _) => Next(s.(regs := Apply(s.regs, e)))
    case Exit => Stop
    case Trap => Undef
  }

  predicate IsImmediate(op: nat) { 0x08 <= op <= 0x0f || op == 0x18 || op == 0x19 }
  predicate IsCompare(op: nat) { 0x04 <= op <= 0x07 || 0x14 <= op <= 0x17 }

  // ----- The handlers of the opcode table -----

  function Special(s: State, code: u32, j: Junk): Action
  {
    match Funct(code)
    case 0x08 => Take(s, Low(s.regs.gpr[Rs(code)]))                      // JR
    case 0x09 => Jalr(s, code)
    case 0x0c => Syscall(s)
    case 0x0d => Stop                                                    // BREAK
    case _ => RegisterAction(s, Alu.Special(s.regs, code))
  }

  function Jump(s: State, code: u32, j: Junk): Action { Take(s, JumpTarget(code, s.pc)) }
  function JumpAndLink(s: State, code: u32, j: Junk): Action { Take(Link(s, 31), JumpTarget(code, s.pc)) }
  function Compare(s: State, code: u32, j: Junk): Action { Branch(s, code, Compares(s.regs, code), Op(code) >= 0x14) }
  function Immediate(s: State, code: u32, j: Junk): Action { RegisterAction(s, Alu.Immediate(s.regs, code)) }
  function Multimedia(s: State, code: u32, j: Junk): Action { RegisterAction(s, Mmi.Mmi(s.regs, code)) }
  function Unknown(s: State, code: u32, j: Junk): Action { Stop }

  type Handler = (State, u32, Junk) -> Action

  /** Int_OpcodePrintTable. */
  function OpcodeTable(op: nat): Handler
  {
    if op == 0x00 then Special
    else if op == 0x01 then Regimm
    else if op == 0x02 then Jump
    else if op == 0x03 then JumpAndLink
    else if IsCompare(op) then Compare
    else if IsImmediate(op) then Immediate
    else if op == 0x10 then Cop0
    else if op == 0x1c then Multimedia
    else if IsLoad(op) then LoadOp
    else if IsStore(op) then StoreOp
    else Unknown
  }

  function Dispatch(s: State, code: u32, j: Junk): (a: Action)
    ensures a.Take? ==> a.s.pc == s.pc
  {
    OpcodeTable(Op(code))(s, code, j)
  }

  // ----- execI and doBranch -----

  /** Bytes from pc to the end of its window: what nested calls of `execI` use up. */
  function Left(pc: u32): nat
  {
    match Phys(pc)
    case None => 0
    case Some(p) => MEMSIZE - p
  }

  /** The beginning of `execI`: pc and cycle move on, the instruction word is read (and tagged). */
  function Fetch(s: State): (r: Option<(State, u32)>)
    ensures r.Some? ==> Left(r.value.0.pc) + 4 == Left(s.pc)
  {
    match Load(s.mem, s.pc, 4)
    case None => None
    case Some((bs, m)) => Some((s.(pc := U32(s.pc + 4), cycle := U32(s.cycle + 1), mem := m), Num32(bs)))
  }

  function ExecI(s: State, j: Junk): Outcome
    decreases Left(s.pc), 0
  {
    match Fetch(s)
    case None => Halted
    case Some((s1, code)) => Perform(Dispatch(s1, code, j), j)
  }

  function Perform(a: Action, j: Junk): Outcome
    decreases if a.Take? then Left(a.s.pc) else 0, 2
  {
    match a
    case Next(s) => Ok(s)
    case Take(s, tar) => DoBranch(s, tar, j)
    case Stop => Halted
    case Undef => Undefined
  }

  function DoBranch(s: State, tar: u32, j: Junk): Outcome
    decreases Left(s.pc), 1
  {
    match ExecI(s.(branchPC := tar), j)
    case Ok(s1) => Arrive(s1)
    case o => o
  }

  /** The end of `doBranch`: jump, and notice written memory. The tag array is indexed with the bare address. */
  function Arrive(s: State): Outcome
  {
    if s.branchPC >= MEMSIZE then Undefined
    else if s.mem.tags[s.branchPC].written then Ok(s.(pc := s.branchPC, bounce := s.branchPC))
    else Ok(s.(pc := s.branchPC))
  }
}
