/** Where control goes: which instructions leave the straight line, when, where to, and what they link; and the system
    calls and coprocessor instructions the emulator knows. */
module Control {
  import opened Words
  import opened Memory
  import opened Registers
  import opened Interpreter
  import opened Flat
  import Alu
  import Mmi

  // ----- Branches and jumps, by their addresses -----

  /** The branches and jumps of the opcode tables. */
  predicate IsControl(code: u32)
  {
    || Op(code) in {2, 3, 4, 5, 6, 7, 20, 21, 22, 23}
    || (Op(code) == 1 && Rt(code) in {0, 1, 2, 3, 16, 17, 18, 19})
    || (Op(code) == 0 && Funct(code) in {8, 9})
  }

  /** The ones that skip their delay slot if they are not taken. */
  predicate IsLikely(code: u32)
  {
    Op(code) in {20, 21, 22, 23} || (Op(code) == 1 && Rt(code) in {2, 3, 18, 19})
  }

  /** The register that receives the address behind the delay slot: that of JAL, JALR and the linking branches. */
  function LinkRegister(code: u32): Index
  {
    if Op(code) == 3 || (Op(code) == 1 && Rt(code) in {16, 17, 18, 19}) then 31
    else if Op(code) == 0 && Funct(code) == 9 then Rd(code)
    else 0
  }

  /** Whether control leaves the straight line, on the 64-bit registers read as two's complement. A linking branch on
      register 31 compares the link, which is positive. */
  predicate Taken(r: Regs, code: u32)
  {
    var a, b := r.gpr[Rs(code)].d0, r.gpr[Rt(code)].d0;
    var negative := a >= 0x8000_0000_0000_0000;
    match Op(code)
    case 0 => Funct(code) in {8, 9}
    case 1 =>
      var below := negative && !(Rs(code) == 31 && LinkRegister(code) == 31);
      if Rt(code) in {0, 2, 16, 18} then below else Rt(code) in {1, 3, 17, 19} && !below
    case 2 => true
    case 3 => true
    case 4 => a == b
    case 20 => a == b
    case 5 => a != b
    case 21 => a != b
    case 6 => negative || a == 0
    case 22 => negative || a == 0
    case 7 => !negative && a != 0
    case 23 => !negative && a != 0
    case _ => false
  }

  /** k is the offset field, a signed number of 16 bits. */
  predicate IsOffset(code: u32, k: int) { -0x8000 <= k < 0x8000 && (code - k) % 0x1_0000 == 0 }

  /** Where the instruction at address p goes if it leaves the straight line: JR and JALR to their register, J and JAL
      within the 256 MB of the delay slot, branches by a number of instructions from the delay slot. */
  ghost predicate GoesTo(r: Regs, p: nat, code: u32, tar: u32)
  {
    if Op(code) == 0 then tar == r.gpr[Rs(code)].d0 % 0x1_0000_0000
    else if Op(code) == 2 || Op(code) == 3 then
      tar / 0x1000_0000 == (p + 4) / 0x1000_0000 && tar % 0x1000_0000 == 4 * (code % 0x400_0000)
    else exists k :: IsOffset(code, k) && tar == (p + 4 + 4 * k) % 0x1_0000_0000
  }

  /** The registers after the link. */
  function Linked(r: Regs, p: nat, code: u32): Regs
    requires p + 8 < TWO32
  {
    var n := LinkRegister(code);
    if n == 0 then r else r.(gpr := r.gpr[n := Reg(p + 8, r.gpr[n].d1)])
  }

  /** What the control instruction at address p does, all cases: it links, and then goes to its target, on to the delay
      slot, or past it. Other instructions do not leave the straight line. */
  lemma ControlLaw(s: State, code: u32, j: Junk)
    requires 4 <= s.pc <= 0x4000_0000
    ensures var a, p := Dispatch(s, code, j), s.pc - 4;
            && (a.Take? <==> Taken(s.regs, code))
            && (a.Take? ==> a.s == s.(regs := Linked(s.regs, p, code)) && GoesTo(s.regs, p, code, a.tar))
            && (IsControl(code) && !a.Take? ==>
                  a == Next(s.(regs := Linked(s.regs, p, code), pc := if IsLikely(code) then p + 8 else p + 4)))
  {
    hide Rs, Rt, Rd, Funct, LoadOp, StoreOp, Alu.Special, Alu.Immediate, Mmi.Mmi, Apply, Syscall, Cop0, BranchTarget,
         JumpTarget, Low, GoesTo;
    StraightOn(s, code, j);
    TargetIs(s.regs, s.pc - 4, code);
    LowIs(s.regs.gpr[Rs(code)]);
  }

  lemma StraightOn(s: State, code: u32, j: Junk)
    ensures !LoadOp(s, code, j).Take? && !StoreOp(s, code, j).Take? && !Syscall(s).Take? && !Cop0(s, code, j).Take?
  {
    hide Load, Store, Loaded, Mixed, Stored, Call, Ea, Start, Low;
  }

  lemma LowIs(r: Reg)
    ensures Low(r) == r.d0 % 0x1_0000_0000
  {
  }

  lemma TargetIs(r: Regs, p: nat, code: u32)
    requires p + 4 < TWO32
    ensures Op(code) == 0 ==> GoesTo(r, p, code, r.gpr[Rs(code)].d0 % 0x1_0000_0000)
    ensures Op(code) in {2, 3} ==> GoesTo(r, p, code, JumpTarget(code, p + 4))
    ensures Op(code) !in {0, 2, 3} ==> GoesTo(r, p, code, BranchTarget(code, p + 4))
  {
    hide Rs, BranchTarget, JumpTarget;
    OffsetOf(code, p + 4);
    JumpsWithin(code, p + 4);
  }

  lemma OffsetOf(code: u32, pc: u32)
    ensures exists k :: IsOffset(code, k) && BranchTarget(code, pc) == (pc + 4 * k) % 0x1_0000_0000
  {
    assert IsOffset(code, Imm(code));
  }

  lemma JumpsWithin(code: u32, pc: u32)
    ensures JumpTarget(code, pc) / 0x1000_0000 == pc / 0x1000_0000
    ensures JumpTarget(code, pc) % 0x1000_0000 == 4 * (code % 0x400_0000)
  {
  }

  // ----- The same for whole steps -----

  lemma {:induction false} ChainFrame(s: State, j: Junk, k: nat)
    ensures Chain(s, j, k).Some? ==> Chain(s, j, k).value.pc == s.pc + 4 * k
    decreases k
  {
    hide Descend;
    if k == 0 {
    } else if Descend(s, j).Some? {
      DescendFrame(s, j);
      ChainFrame(Descend(s, j).value, j, k - 1);
    }
  }

  /** A step that takes branches ends where the last of them goes; it stands just before the instruction that is run in
      its delay slot, and its condition held. */
  lemma StepGoesTo(s: State, j: Junk)
    ensures Depth(s, j) > 0 && ExecI(s, j).Ok? ==>
              && Chain(s, j, Depth(s, j) - 1).Some?
              && var u := Chain(s, j, Depth(s, j) - 1).value;
                 && u.pc == s.pc + 4 * (Depth(s, j) - 1)
                 && Fetch(u).Some?
                 && var (u1, code) := Fetch(u).value;
                    Taken(u1.regs, code) && GoesTo(u1.regs, u.pc, code, ExecI(s, j).s.pc)
  {
    hide Dispatch, ExecI, Tip, Depth, Chain, Load, GoesTo, Taken;
    if Depth(s, j) > 0 && ExecI(s, j).Ok? {
      StepSummary(s, j);
      LastTargetIsLast(s, j);
      ChainFrame(s, j, Depth(s, j) - 1);
      var u := Chain(s, j, Depth(s, j) - 1).value;
      FetchMoves(u);
      ControlLaw(Fetch(u).value.0, Fetch(u).value.1, j);
    }
  }

  lemma FetchMoves(s: State)
    ensures Fetch(s).Some? ==> s.pc + 4 < 0x4000_0000 && Fetch(s).value.0.pc == s.pc + 4
  {
    hide LE;
  }

  /** A step that takes none goes on to the next instruction, or past the delay slot of a likely branch. */
  lemma StepGoesOn(s: State, j: Junk)
    ensures Depth(s, j) == 0 && ExecI(s, j).Ok? ==>
              && Fetch(s).Some?
              && var (t, code) := Fetch(s).value;
                 !Taken(t.regs, code) && ExecI(s, j).s.pc == s.pc + if IsLikely(code) then 8 else 4
  {
    hide Dispatch, Load, Taken, IsLikely, IsControl, SkipsSlot;
    if Depth(s, j) == 0 && ExecI(s, j).Ok? {
      StepSummary(s, j);
      FetchMoves(s);
      var (t, code) := Fetch(s).value;
      ControlLaw(t, code, j);
      DispatchFrame(t, code, j);
      SkipIsLikely(t, code, j);
    }
  }

  lemma SkipIsLikely(t: State, code: u32, j: Junk)
    requires 4 <= t.pc <= 0x4000_0000
    ensures Dispatch(t, code, j).Next? ==> (SkipsSlot(t, code, j) <==> IsLikely(code))
  {
    hide Rs, Rd, Funct, LoadOp, StoreOp, Alu.Special, Alu.Immediate, Mmi.Mmi, Syscall, Cop0, BranchTarget, Compares,
         Link;
  }

  /** A branch with offset -1, alone in its step, goes back to itself. */
  lemma BranchToSelf(s: State, j: Junk)
    ensures Depth(s, j) == 1 && ExecI(s, j).Ok? ==>
              && Fetch(s).Some?
              && var code := Fetch(s).value.1;
                 Op(code) !in {0, 2, 3} && code % 0x1_0000 == 0xffff ==> ExecI(s, j).s.pc == s.pc
  {
    hide Dispatch, ExecI, Depth, Fetch, Taken;
    if Depth(s, j) == 1 && ExecI(s, j).Ok? {
      StepGoesTo(s, j);
      assert Chain(s, j, 0) == Some(s);
      FetchMoves(s);
      OnlyMinusOne(Fetch(s).value.1);
    }
  }

  lemma OnlyMinusOne(code: u32)
    ensures code % 0x1_0000 == 0xffff ==> forall k :: IsOffset(code, k) ==> k == -1
  {
  }

  // ----- System calls and COP0 -----

  /** The number of the call is the low byte of v1, negated first if v1 is negative. */
  function CallNumber(r: Regs): nat
  {
    var v := r.gpr[3].d0 % 0x1_0000_0000;
    if v >= 0x8000_0000 then (0x1_0000_0000 - v) % 0x100 else v % 0x100
  }

  /** RFU060, RFU061 and FlushCache do nothing, EndOfHeap puts 32 MB into the low word of v0, ExecPS2 sets `bounce_pc`
      from a0; any other call ends the emulator. */
  lemma SystemCallLaw(s: State, code: u32, j: Junk)
    requires Op(code) == 0 && Funct(code) == 0x0c
    ensures var a, n, v0 := Dispatch(s, code, j), CallNumber(s.regs), s.regs.gpr[2];
            && (n in {0x3c, 0x3d, 0x64} ==> a == Next(s))
            && (n == 0x3e ==>
                  var d0 := v0.d0 / 0x1_0000_0000 * 0x1_0000_0000 + 0x200_0000;
                  a == Next(s.(regs := s.regs.(gpr := s.regs.gpr[2 := Reg(d0, v0.d1)]))))
            && (n == 0x07 ==> a == Next(s.(bounce := s.regs.gpr[4].d0 % 0x1_0000_0000)))
            && (n !in {0x3c, 0x3d, 0x3e, 0x64, 0x07} ==> a == Stop)
  {
    CallIs(s.regs);
    hide Call, CallNumber;
  }

  lemma CallIs(r: Regs)
    ensures Call(r) == CallNumber(r)
  {
  }

  /** Of COP0 one move is known, which clears the low word of s0, and EI and DI, which do nothing. */
  lemma CoprocessorLaw(s: State, code: u32, j: Junk)
    requires Op(code) == 0x10
    ensures var a, s0 := Dispatch(s, code, j), s.regs.gpr[16];
            && (code == 0x4010_6000 ==>
                  var d0 := s0.d0 / 0x1_0000_0000 * 0x1_0000_0000;
                  a == Next(s.(regs := s.regs.(gpr := s.regs.gpr[16 := Reg(d0, s0.d1)]))))
            && (code in {0x4200_0038, 0x4200_0039} ==> a == Next(s))
            && (code !in {0x4010_6000, 0x4200_0038, 0x4200_0039} ==> a == Stop)
  {
  }
}
