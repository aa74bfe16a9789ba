/** The register-only handlers of Interpreter.c: arithmetic, logic, shifts, multiplication and division. */
module Alu {
  import opened Words
  import opened Registers

  /** Opcodes 8 to 15, 24 and 25: arithmetic with an immediate operand, into Rt. */
  function Immediate(r: Regs, code: u32): Effect
  {
    var s := r.gpr[Rs(code)];
    var rt, imm, immU := Rt(code), Imm(code), ImmU(code);
    match Op(code)
    case 0x08 => ToD0(r, rt, Sx(U32(S32(Low(s)) + imm)))                // ADDI
    case 0x09 => ToD0(r, rt, Sx(U32(S32(Low(s)) + imm)))                // ADDIU
    case 0x0a => ToD0(r, rt, Flag(S64(s.d0) < imm))                     // SLTI
    case 0x0b => ToD0(r, rt, Flag(s.d0 < U64(imm)))                     // SLTIU
    case 0x0c => ToD0(r, rt, And64(s.d0, immU))                         // ANDI
    case 0x0d => ToD0(r, rt, Or64(s.d0, immU))                          // ORI
    case 0x0e => ToD0(r, rt, Xor64(s.d0, immU))                         // XORI
    case 0x0f => ToD0(r, rt, Sx(Shl32(code, 16)))                       // LUI
    case 0x18 => ToD0(r, rt, U64(S64(s.d0) + imm))                      // DADDI
    case 0x19 => ToD0(r, rt, U64(S64(s.d0) + imm))                      // DADDIU
    case _ => Exit
  }

  /** Quotient and remainder of the signed words n and d, sign-extended. */
  function DivLo(n: u32, d: u32): u64
    requires d != 0
  {
    U64(TruncDiv(S32(n), S32(d)))
  }

  function DivHi(n: u32, d: u32): u64
    requires d != 0
  {
    U64(TruncRem(S32(n), S32(d)))
  }

  /** The SPECIAL table, its jumps, SYSCALL and BREAK apart. */
  function Special(r: Regs, code: u32): Effect
  {
    var s, t := r.gpr[Rs(code)], r.gpr[Rt(code)];
    var rd, sa := Rd(code), Sa(code);
    var n := Low(s);
    match Funct(code)
    case 0x00 => ToD0(r, rd, Sx(Shl32(Low(t), sa)))                     // SLL
    case 0x02 => ToD0(r, rd, Sx(Shr32(Low(t), sa)))                     // SRL
    case 0x03 => ToD0(r, rd, Sx(Sra32(Low(t), sa)))                     // SRA
    case 0x04 => ToD0(r, rd, Sx(Shl32(Low(t), n % 32)))                 // SLLV
    case 0x06 => ToD0(r, rd, Sx(Shr32(Low(t), n % 32)))                 // SRLV
    case 0x07 => ToD0(r, rd, Sx(Sra32(Low(t), n % 32)))                 // SRAV
    case 0x0a => ToD0(r, if t.d0 == 0 then rd else 0, s.d0)             // MOVZ
    case 0x0b => ToD0(r, if t.d0 != 0 then rd else 0, s.d0)             // MOVN
    case 0x10 => ToD0(r, rd, r.hi.d0)                                   // MFHI
    case 0x11 => Write(0, r.gpr[0], r.hi.(d0 := s.d0), r.lo)            // MTHI
    case 0x12 => ToD0(r, rd, r.lo.d0)                                   // MFLO
    case 0x13 => Write(0, r.gpr[0], r.hi, r.lo.(d0 := s.d0))            // MTLO
    case 0x14 => ToD0(r, rd, Shl64(t.d0, n % 64))                       // DSLLV
    case 0x16 => ToD0(r, rd, Shr64(t.d0, n % 64))                       // DSRLV
    case 0x17 => ToD0(r, rd, Sra64(t.d0, n % 64))                       // DSRAV
    case 0x18 => Multiply(r, rd, S32(Low(s)) * S32(Low(t)))             // MULT
    case 0x19 => Multiply(r, rd, Low(s) as int * Low(t))                // MULTU
    case 0x1a => Divide(r, Low(s), Low(t))                              // DIV
    case 0x1b => DivideUnsigned(r, Low(s), Low(t))                      // DIVU
    case 0x20 => ToD0(r, rd, Sx(U32(S32(Low(s)) + S32(Low(t)))))        // ADD
    case 0x21 => ToD0(r, rd, Sx(U32(S32(Low(s)) + S32(Low(t)))))        // ADDU
    case 0x22 => ToD0(r, rd, Sx(U32(S32(Low(s)) - S32(Low(t)))))        // SUB
    case 0x23 => ToD0(r, rd, Sx(U32(S32(Low(s)) - S32(Low(t)))))        // SUBU
    case 0x24 => ToD0(r, rd, And64(s.d0, t.d0))                         // AND
    case 0x25 => ToD0(r, rd, Or64(s.d0, t.d0))                          // OR
    case 0x26 => ToD0(r, rd, Xor64(s.d0, t.d0))                         // XOR
    case 0x27 => ToD0(r, rd, Not64(Or64(s.d0, t.d0)))                   // NOR
    case 0x2a => ToD0(r, rd, Flag(S64(s.d0) < S64(t.d0)))               // SLT
    case 0x2b => ToD0(r, rd, Flag(s.d0 < t.d0))                         // SLTU
    case 0x2c => ToD0(r, rd, U64(S64(s.d0) + S64(t.d0)))                // DADD
    case 0x2d => ToD0(r, rd, U64(S64(s.d0) + S64(t.d0)))                // DADDU
    case 0x2e => ToD0(r, rd, U64(S64(s.d0) - S64(t.d0)))                // DSUB
    case 0x2f => ToD0(r, rd, U64(S64(s.d0) - S64(t.d0)))                // DSUBU
    case 0x38 => ToD0(r, rd, Shl64(t.d0, sa))                           // DSLL
    case 0x3a => ToD0(r, rd, Shr64(t.d0, sa))                           // DSRL
    case 0x3b => ToD0(r, rd, Sra64(t.d0, sa))                           // DSRA
    case 0x3c => ToD0(r, rd, Shl64(t.d0, sa + 32))                      // DSLL32
    case 0x3e => ToD0(r, rd, Shr64(t.d0, sa + 32))                      // DSRL32
    case 0x3f => ToD0(r, rd, Sra64(t.d0, sa + 32))                      // DSRA32
    case _ => Exit
  }

  function Multiply(r: Regs, rd: Index, product: int): Effect
  {
    Write(rd, r.gpr[rd].(d0 := LoPart(product)), r.hi.(d0 := HiPart(product)), r.lo.(d0 := LoPart(product)))
  }

  function Divide(r: Regs, n: u32, d: u32): Effect
  {
    if d == 0 then Write(0, r.gpr[0], r.hi, r.lo)
    else if DivTraps(n, d) then Trap
    else Write(0, r.gpr[0], r.hi.(d0 := DivHi(n, d)), r.lo.(d0 := DivLo(n, d)))
  }

  function DivideUnsigned(r: Regs, n: u32, d: u32): Effect
  {
    if d == 0 then Write(0, r.gpr[0], r.hi, r.lo)
    else
      DivShrinks(n, d);
      Write(0, r.gpr[0], r.hi.(d0 := n % d), r.lo.(d0 := n / d))
  }
}
