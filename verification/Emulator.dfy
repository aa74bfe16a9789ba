/** The emulator as it runs: registers and control state in the fields of one object, memory in a TaggedMemory, and
    handlers that change them in place. Every method is proved against the step functions of Interpreter, Alu and
    Mmi. */
module Emulator {
  import opened Words
  import opened Memory
  import opened Registers
  import opened Interpreter
  import Alu
  import Mmi

  /** Whether the process goes on after a handler; `Gone` after `exit`, `Lost` after an operation the host leaves
      undefined. */
  datatype Status = Going | Gone | Lost

  class Cpu {
    var gpr: GprFile
    var hi: Reg
    var lo: Reg
    var sa: u32
    var pc: u32
    var cycle: u32
    var branchPC: u32
    var bouncePC: u32
    const mem: TaggedMemory

    ghost predicate Valid() { mem.Valid() }

    function RegFile(): Regs
      reads this
    {
      Regs(gpr, hi, lo, sa)
    }

    ghost function View(): State
      requires Valid()
      reads this, mem.memory, mem.tags
    {
      State(RegFile(), mem.View(), pc, cycle, branchPC, bouncePC)
    }

    ghost predicate Agrees(st: Status, o: Outcome)
      requires Valid()
      reads this, mem.memory, mem.tags
    {
      match o
      case Ok(s) => st == Going && View() == s
      case Halted => st == Gone
      case Undefined => st == Lost
    }

    /** The same for an action that takes no branch. */
    ghost predicate Does(st: Status, a: Action)
      requires Valid()
      reads this, mem.memory, mem.tags
    {
      match a
      case Next(s) => st == Going && View() == s
      case Stop => st == Gone
      case Undef => st == Lost
      case Take(_, _) => false
    }

    constructor (m: TaggedMemory, entry: u32)
      requires m.Valid()
      ensures Valid() && mem == m
      ensures View() == State(Regs(seq(32, _ => ZERO), ZERO, ZERO, 0), m.View(), entry, 0, 0, 0)
    {
      gpr := seq(32, _ => ZERO);
      hi, lo, sa := ZERO, ZERO, 0;
      pc, cycle, branchPC, bouncePC := entry, 0, 0, 0;
      mem := m;
    }

    // ----- Handlers that only touch registers -----

    /** A handler that computes its effect from the registers and assigns it. */
    method Assign(e: Effect) returns (st: Status)
      requires Valid()
      modifies this`gpr, this`hi, this`lo
      ensures Does(st, RegisterAction(old(View()), e))
    {
      match e
      case Write(dest, val, h, l) =>
        if dest != 0 {
          gpr := gpr[dest := val];
        }
        hi, lo := h, l;
        st := Going;
      case Exit => st := Gone;
      case Trap => st := Lost;
    }

    /** The common end of MULT, MULTU, MADD and MADDU: LO, HI, then Rd from LO. */
    method SetProduct(rd: Index, x: int)
      modifies this`gpr, this`hi, this`lo
      ensures RegFile() == Apply(old(RegFile()), Alu.Multiply(old(RegFile()), rd, x))
    {
      lo := lo.(d0 := Sx(U32(x)));
      hi := hi.(d0 := Sx(U32(x / TWO32)));
      if rd != 0 {
        gpr := gpr[rd := gpr[rd].(d0 := lo.d0)];
      }
    }

    /** The same in the upper halves of LO and HI. */
    method SetProduct1(rd: Index, x: int)
      modifies this`gpr, this`hi, this`lo
      ensures RegFile() == Apply(old(RegFile()), Mmi.Accumulate(old(RegFile()), 1, rd, x))
    {
      lo := lo.(d1 := Sx(U32(x)));
      hi := hi.(d1 := Sx(U32(x / TWO32)));
      if rd != 0 {
        gpr := gpr[rd := gpr[rd].(d0 := lo.d1)];
      }
    }

    /** MULT and MULTU. */
    method Multiply(code: u32) returns (st: Status)
      requires Valid()
      requires Op(code) == 0 && Funct(code) in {0x18, 0x19}
      modifies this`gpr, this`hi, this`lo
      ensures Does(st, RegisterAction(old(View()), Alu.Special(old(RegFile()), code)))
    {
      hide LoPart, HiPart, Rs, Rt, Rd, Low;
      var s, t := Low(gpr[Rs(code)]), Low(gpr[Rt(code)]);
      SetProduct(Rd(code), if Funct(code) == 0x18 then S32(s) * S32(t) else s as int * t);
      st := Going;
    }

    method Divide(code: u32) returns (st: Status)
      requires Valid()
      requires Op(code) == 0 && Funct(code) == 0x1a
      modifies this`hi, this`lo
      ensures Does(st, RegisterAction(old(View()), Alu.Special(old(RegFile()), code)))
    {
      var n, d := Low(gpr[Rs(code)]), Low(gpr[Rt(code)]);
      st := Going;
      if d != 0 {
        if DivTraps(n, d) {
          return Lost;
        }
        lo := lo.(d0 := U64(TruncDiv(S32(n), S32(d))));
        hi := hi.(d0 := U64(TruncRem(S32(n), S32(d))));
      }
    }

    /** MADD, MADDU and their "1" forms: `lane` chooses the pair, `signed` the reading of the operands. */
    method MultiplyAdd(code: u32, lane: nat, signed: bool)
      requires lane < 2
      modifies this`gpr, this`hi, this`lo
      ensures var r := old(RegFile());
              var s, t := Low(r.gpr[Rs(code)]), Low(r.gpr[Rt(code)]);
              var p := if signed then S32(s) * S32(t) else s as int * t;
              RegFile() == Apply(r, Mmi.Accumulate(r, lane, Rd(code), U64(Mmi.Acc(r, lane) + p)))
    {
      var s, t := Low(gpr[Rs(code)]), Low(gpr[Rt(code)]);
      var acc := Ws(lo)[2 * lane] as int + TWO32 * Ws(hi)[2 * lane];
      var temp := U64(acc + if signed then S32(s) * S32(t) else s as int * t);
      if lane == 0 {
        SetProduct(Rd(code), temp);
      } else {
        SetProduct1(Rd(code), temp);
      }
    }

    /** The counting loop of PLZCW. */
    method CountSignBits(x: u32) returns (n: u32)
      ensures n == Mmi.Plz(x)
    {
      var sign := Mmi.BitAt(x, 31);
      var i := 30;
      while i >= 0 && Mmi.BitAt(x, i) == sign
        invariant -1 <= i <= 30
        invariant Mmi.SignRun(x, i) == Mmi.SignRun(x, 30)
      {
        i := i - 1;
      }
      n := 30 - i;
    }

    method Plzcw(code: u32)
      modifies this`gpr
      ensures RegFile() == Apply(old(RegFile()),
                                 ToReg(old(RegFile()), Rd(code),
                                       Mmi.Plzcw(old(gpr[Rs(code)]), old(gpr[Rd(code)]))))
    {
      var rd, rs := Rd(code), Rs(code);
      if rd == 0 {
        return;
      }
      var n0 := CountSignBits(Ws(gpr[rs])[0]);
      ghost var d := gpr[rd];
      WordsRoundTrip(d, Ws(d)[0 := n0]);
      gpr := gpr[rd := OfWs(Ws(gpr[rd])[0 := n0])];
      var n1 := CountSignBits(Ws(gpr[rs])[1]);
      gpr := gpr[rd := OfWs(Ws(gpr[rd])[1 := n1])];
      assert Ws(d)[0 := n0][1 := n1] == [n0, n1, Ws(d)[2], Ws(d)[3]];
    }

    /** One assignment of QFSRV to half of Rd, seen through Rs and Rt if they are the same register. */
    method SetHalf(code: u32, upper: bool, v: u64, ghost l: Mmi.Live)
      requires Rd(code) != 0 && l == Mmi.LiveOf(RegFile(), code)
      modifies this`gpr
      ensures Mmi.LiveOf(RegFile(), code) == l.SetD(if upper then l.d.(d1 := v) else l.d.(d0 := v), false)
      ensures gpr == old(gpr)[Rd(code) := gpr[Rd(code)]]
    {
      var rd := Rd(code);
      gpr := gpr[rd := if upper then gpr[rd].(d1 := v) else gpr[rd].(d0 := v)];
    }

    /** QFSRV for shifts below 64. */
    method FunnelBelow(code: u32)
      requires 0 < sa < 64 && Rd(code) != 0
      modifies this`gpr
      ensures Mmi.Qfsrv(Mmi.LiveOf(old(RegFile()), code), sa, false) == Some(Mmi.LiveOf(RegFile(), code))
      ensures gpr == old(gpr)[Rd(code) := gpr[Rd(code)]]
    {
      hide Or64, Shl64, Shr64, Rs, Rt, Rd;
      var rd, rs, rt := Rd(code), Rs(code), Rt(code);
      SetHalf(code, false, Shr64(gpr[rt].d0, sa), Mmi.LiveOf(RegFile(), code));
      SetHalf(code, true, Shr64(gpr[rt].d1, sa), Mmi.LiveOf(RegFile(), code));
      SetHalf(code, false, Or64(gpr[rd].d0, Shl64(gpr[rt].d1, 64 - sa)), Mmi.LiveOf(RegFile(), code));
      SetHalf(code, true, Or64(gpr[rd].d1, Shl64(gpr[rs].d0, 64 - sa)), Mmi.LiveOf(RegFile(), code));
    }

    /** QFSRV for shifts above 64. */
    method FunnelAbove(code: u32)
      requires 64 < sa < 128 && Rd(code) != 0
      modifies this`gpr
      ensures Mmi.Qfsrv(Mmi.LiveOf(old(RegFile()), code), sa, false) == Some(Mmi.LiveOf(RegFile(), code))
      ensures gpr == old(gpr)[Rd(code) := gpr[Rd(code)]]
    {
      hide Or64, Shl64, Shr64, Rs, Rt, Rd;
      var rd, rs, rt := Rd(code), Rs(code), Rt(code);
      SetHalf(code, false, Shr64(gpr[rt].d1, sa - 64), Mmi.LiveOf(RegFile(), code));
      SetHalf(code, true, Shr64(gpr[rs].d0, sa - 64), Mmi.LiveOf(RegFile(), code));
      SetHalf(code, false, Or64(gpr[rd].d0, Shl64(gpr[rs].d0, 128 - sa)), Mmi.LiveOf(RegFile(), code));
      SetHalf(code, true, Or64(gpr[rd].d1, Shl64(gpr[rs].d1, 128 - sa)), Mmi.LiveOf(RegFile(), code));
    }

    method Qfsrv(code: u32) returns (st: Status)
      requires Valid()
      requires Op(code) == 0x1c && Funct(code) == 0x28 && Sa(code) == 27
      modifies this`gpr
      ensures Does(st, RegisterAction(old(View()), Mmi.Mmi(old(RegFile()), code)))
    {
      hide Or64, Shl64, Shr64, Rs, Rt, Rd;
      var rd, rt := Rd(code), Rt(code);
      st := Going;
      ghost var l0 := Mmi.LiveOf(RegFile(), code);
      assert Mmi.Mmi(RegFile(), code) ==
             match Mmi.Qfsrv(l0, sa, rd == 0)
             case Some(l) => Mmi.Finish(l, rd)
             case None => Trap;
      hide Mmi.Mmi;
      if rd == 0 {
        return;
      }
      if sa == 0 {
        SetHalf(code, false, gpr[rt].d0, Mmi.LiveOf(RegFile(), code));
        SetHalf(code, true, gpr[rt].d1, Mmi.LiveOf(RegFile(), code));
      } else if sa < 64 {
        FunnelBelow(code);
      } else if 64 < sa < 128 {
        FunnelAbove(code);
      } else {
        st := Lost;
      }
    }

    /** PMADDUW: the two lanes one after the other, each LO, HI, then its half of Rd. */
    method Pmadduw(code: u32)
      modifies this`gpr, this`hi, this`lo
      requires Op(code) == 0x1c && Funct(code) == 0x29 && Sa(code) == 0
      ensures RegFile() == Apply(old(RegFile()), Mmi.Mmi(old(RegFile()), code))
    {
      hide Rs, Rt, Rd, LoPart, HiPart, U64;
      var rd, rs, rt := Rd(code), Rs(code), Rt(code);
      ghost var r := RegFile();
      var p := Ws(gpr[rs])[0] as int * Ws(gpr[rt])[0];
      var x := U64(Ws(lo)[0] as int + TWO32 * Ws(hi)[0] + p);
      lo := lo.(d0 := LoPart(x));
      hi := hi.(d0 := HiPart(x));
      if rd != 0 {
        gpr := gpr[rd := gpr[rd].(d0 := x)];
      }
      assert Ws(gpr[rs])[2] == Ws(r.gpr[rs])[2] && Ws(gpr[rt])[2] == Ws(r.gpr[rt])[2];
      var q := Ws(gpr[rs])[2] as int * Ws(gpr[rt])[2];
      var y := U64(Ws(lo)[2] as int + TWO32 * Ws(hi)[2] + q);
      lo := lo.(d1 := LoPart(y));
      hi := hi.(d1 := HiPart(y));
      if rd != 0 {
        gpr := gpr[rd := gpr[rd].(d1 := y)];
      }
      assert x == U64(Mmi.Acc(r, 0) + Ws(r.gpr[rs])[0] as int * Ws(r.gpr[rt])[0]);
      assert y == U64(Mmi.Acc(r, 1) + Ws(r.gpr[rs])[2] as int * Ws(r.gpr[rt])[2]);
      PmadduwWrites(r, code, x, y);
      NoWrap(x);
      NoWrap(y);
    }

    /** The MMI table. */
    method Multimedia(code: u32) returns (st: Status)
      requires Valid() && Op(code) == 0x1c
      modifies this`gpr, this`hi, this`lo
      ensures Does(st, RegisterAction(old(View()), Mmi.Mmi(old(RegFile()), code)))
    {
      hide Rs, Rt, Rd, Apply, Mmi.Mmi0, Mmi.Mmi1, Mmi.Mmi2, Mmi.Mmi3, Mmi.Pmfhl, Mmi.Pmthl, Mmi.Plzcw, LoPart, HiPart;
      var f := Funct(code);
      st := Going;
      if f == 0x00 || f == 0x01 {
        MultiplyAdd(code, 0, f == 0x00);
      } else if f == 0x20 || f == 0x21 {
        MultiplyAdd(code, 1, f == 0x20);
      } else if f == 0x18 {
        SetProduct1(Rd(code), S32(Low(gpr[Rs(code)])) * S32(Low(gpr[Rt(code)])));
      } else if f == 0x19 {
        SetProduct1(Rd(code), Low(gpr[Rs(code)]) as int * Low(gpr[Rt(code)]));
      } else if f == 0x04 {
        Plzcw(code);
      } else if f == 0x28 && Sa(code) == 27 {
        st := Qfsrv(code);
      } else if f == 0x29 && Sa(code) == 0 {
        Pmadduw(code);
        PmadduwWrites(old(RegFile()), code, 0, 0);
      } else {
        st := Assign(Mmi.Mmi(RegFile(), code));
      }
    }

    // ----- Loads and stores -----

    method Load(code: u32, ghost j: Junk) returns (st: Status)
      requires Valid() && IsLoad(Op(code))
      modifies this`gpr, mem.tags
      ensures Does(st, LoadOp(old(View()), code, j))
    {
      hide Loaded, Rs, Rt, Imm, Op, MarkRead;
      var op, rt := Op(code), Rt(code);
      var addr := U32(Low(gpr[Rs(code)]) + Imm(code));
      st := Going;
      if IsPartial(op) && rt == 0 {
        return;
      }
      var bs := mem.Read(Start(op, addr), Width(op));
      if bs.None? {
        return Gone;
      }
      if rt != 0 {
        gpr := gpr[rt := Loaded(op, addr, bs.value, gpr[rt])];
      }
    }

    method Store(code: u32, j: Junk) returns (st: Status)
      requires Valid() && IsStore(Op(code))
      modifies mem.memory, mem.tags
      ensures Does(st, StoreOp(old(View()), code, j))
    {
      hide Mixed, Stored, Rs, Rt, Imm, Op, MarkRead, MarkWritten, Overwrite;
      var op, t := Op(code), gpr[Rt(code)];
      var addr := U32(Low(gpr[Rs(code)]) + Imm(code));
      var bs: seq<u8>;
      if IsPartial(op) {
        var unit := mem.Read(Start(op, addr), Width(op));
        if unit.None? {
          return Gone;
        }
        bs := Mixed(op, addr, unit.value, t);
      } else {
        bs := Stored(op, t, j);
      }
      var ok := mem.Write(Start(op, addr), bs);
      st := if ok then Going else Gone;
    }

    // ----- Branches, jumps and system calls -----

    method SetLink(n: Index)
      requires Valid()
      modifies this`gpr
      ensures View() == Link(old(View()), n)
    {
      if n != 0 {
        gpr := gpr[n := gpr[n].(d0 := U32(pc + 4))];
      }
    }

    /** The branch macros: with and without "likely". */
    method BranchIf(code: u32, cond: bool, likely: bool, j: Junk) returns (st: Status)
      requires Valid()
      modifies this, mem.memory, mem.tags
      ensures Agrees(st, Perform(Branch(old(View()), code, cond, likely), j))
      decreases Left(pc), 2
    {
      st := Going;
      if cond {
        st := DoBranch(BranchTarget(code, pc), j);
      } else if likely {
        pc := U32(pc + 4);
      }
    }

    method RegimmHandler(code: u32, j: Junk) returns (st: Status)
      requires Valid()
      modifies this, mem.memory, mem.tags
      ensures Agrees(st, Perform(Regimm(old(View()), code, j), j))
      decreases Left(pc), 3
    {
      hide Perform, Rs, Link, Left;
      var rt := Rt(code);
      if rt % 16 < 4 {
        if rt >= 16 {
          SetLink(31);
        }
        var v := S64(gpr[Rs(code)].d0);
        LinkKeepsPc(old(View()), 31);
        st := BranchIf(code, if rt % 2 == 0 then v < 0 else v >= 0, rt / 2 % 2 == 1, j);
      } else {
        st := Gone;
        StopEnds(j);
      }
    }

    method SpecialHandler(code: u32, j: Junk) returns (st: Status)
      requires Valid() && Op(code) == 0
      modifies this, mem.memory, mem.tags
      ensures Agrees(st, Perform(Interpreter.Special(old(View()), code, j), j))
      decreases Left(pc), 3
    {
      hide Rs, Rt, Rd, Sa, Alu.Special, Link, Left, Call, ExecI;
      var target := Low(gpr[Rs(code)]);
      match Funct(code)
      case 0x08 => st := DoBranch(target, j);
      case 0x09 =>
        if Rd(code) != 0 {
          SetLink(Rd(code));
          LinkKeepsPc(old(View()), Rd(code));
        }
        st := DoBranch(target, j);
      case 0x0c => st := SystemCall();
      case 0x0d => st := Gone;
      case 0x18 => st := Multiply(code);
      case 0x19 => st := Multiply(code);
      case 0x1a => st := Divide(code);
      case _ => st := Assign(Alu.Special(RegFile(), code));
    }

    method SystemCall() returns (st: Status)
      requires Valid()
      modifies this`gpr, this`bouncePC
      ensures Does(st, Syscall(old(View())))
    {
      st := Going;
      match Call(RegFile())
      case 0x3c =>
      case 0x3d =>
      case 0x3e => gpr := gpr[2 := gpr[2].(d0 := gpr[2].d0 - Low(gpr[2]) + MEMSIZE)];
      case 0x64 =>
      case 0x07 => bouncePC := Low(gpr[4]);
      case _ => st := Gone;
    }

    /** The opcode table. */
    method DispatchOpcode(code: u32, j: Junk) returns (st: Status)
      requires Valid()
      modifies this, mem.memory, mem.tags
      ensures Agrees(st, Perform(Dispatch(old(View()), code, j), j))
      decreases Left(pc), 4
    {
      hide Rs, Rt, Rd, Sa, Funct, Alu.Immediate, Alu.Special, Mmi.Mmi, Compares, LoadOp, StoreOp, Interpreter.Special,
           Regimm, Link, JumpTarget, BranchTarget, ExecI, Interpreter.DoBranch, Apply, Cop0;
      var op := Op(code);
      DispatchIs(View(), code, j);
      if op == 0x00 {
        st := SpecialHandler(code, j);
      } else if op == 0x01 {
        st := RegimmHandler(code, j);
      } else if op == 0x02 {
        st := DoBranch(JumpTarget(code, pc), j);
      } else if op == 0x03 {
        SetLink(31);
        LinkKeepsPc(old(View()), 31);
        st := DoBranch(JumpTarget(code, pc), j);
      } else if IsCompare(op) {
        st := BranchIf(code, Compares(RegFile(), code), op >= 0x14, j);
      } else if IsImmediate(op) {
        st := Assign(Alu.Immediate(RegFile(), code));
      } else if op == 0x10 {
        st := Coprocessor(code, j);
      } else if op == 0x1c {
        st := Multimedia(code);
      } else if IsLoad(op) {
        st := Load(code, j);
      } else if IsStore(op) {
        st := Store(code, j);
      } else {
        st := Gone;
      }
    }

    method Coprocessor(code: u32, ghost j: Junk) returns (st: Status)
      requires Valid()
      modifies this`gpr
      ensures Does(st, Cop0(old(View()), code, j))
    {
      st := Going;
      match code
      case 0x40106000 => gpr := gpr[16 := gpr[16].(d0 := gpr[16].d0 - Low(gpr[16]))];
      case 0x42000038 =>
      case 0x42000039 =>
      case _ => st := Gone;
    }

    // ----- execI and doBranch -----

    method Execute(j: Junk) returns (st: Status)
      requires Valid()
      modifies this, mem.memory, mem.tags
      ensures Agrees(st, ExecI(old(View()), j))
      decreases Left(pc), 0
    {
      hide Dispatch, Perform, LE, MarkRead;
      ghost var s := View();
      var at := pc;
      pc := U32(pc + 4);
      cycle := U32(cycle + 1);
      var word := mem.Read(at, 4);
      if word.None? {
        return Gone;
      }
      assert Fetch(s) == Some((View(), Num32(word.value)));
      st := DispatchOpcode(Num32(word.value), j);
    }

    method DoBranch(tar: u32, j: Junk) returns (st: Status)
      requires Valid()
      modifies this, mem.memory, mem.tags
      ensures Agrees(st, Interpreter.DoBranch(old(View()), tar, j))
      decreases Left(pc), 1
    {
      hide ExecI;
      branchPC := tar;
      st := Execute(j);
      if st == Going {
        pc := branchPC;
        if branchPC >= MEMSIZE {
          return Lost;
        }
        var hit := mem.HasWrite(branchPC);
        if hit {
          bouncePC := branchPC;
        }
      }
    }
  }

  lemma LinkKeepsPc(s: State, n: Index)
    ensures Link(s, n).pc == s.pc && Link(s, n).mem == s.mem
  {
  }

  lemma StopEnds(j: Junk)
    ensures Perform(Stop, j) == Halted
  {
  }

  /** The table entry of each opcode. */
  lemma DispatchIs(s: State, code: u32, j: Junk)
    ensures var op := Op(code);
            Dispatch(s, code, j) ==
              if op == 0x00 then Interpreter.Special(s, code, j)
              else if op == 0x01 then Regimm(s, code, j)
              else if op == 0x02 then Take(s, JumpTarget(code, s.pc))
              else if op == 0x03 then Take(Link(s, 31), JumpTarget(code, s.pc))
              else if IsCompare(op) then Branch(s, code, Compares(s.regs, code), op >= 0x14)
              else if IsImmediate(op) then RegisterAction(s, Alu.Immediate(s.regs, code))
              else if op == 0x10 then Cop0(s, code, j)
              else if op == 0x1c then RegisterAction(s, Mmi.Mmi(s.regs, code))
              else if IsLoad(op) then LoadOp(s, code, j)
              else if IsStore(op) then StoreOp(s, code, j)
              else Stop
  {
    hide Alu.Immediate, Alu.Special, Mmi.Mmi, Compares, LoadOp, StoreOp, Interpreter.Special, Regimm, Cop0, Link,
         JumpTarget, BranchTarget, RegisterAction;
  }

  lemma NoWrap(x: u64)
    ensures U64(x) == x
  {
  }

  /** PMADDUW as one effect: both sums at once. */
  lemma PmadduwWrites(r: Regs, code: u32, x: u64, y: u64)
    requires Op(code) == 0x1c && Funct(code) == 0x29 && Sa(code) == 0
    ensures Mmi.Mmi(r, code).Write?
    ensures var s, t := Ws(r.gpr[Rs(code)]), Ws(r.gpr[Rt(code)]);
            x == U64(Mmi.Acc(r, 0) + s[0] as int * t[0]) && y == U64(Mmi.Acc(r, 1) + s[2] as int * t[2]) ==>
              Mmi.Mmi(r, code) == Mmi.Both(r, Rd(code), x, y)
  {
    hide Rs, Rt, Rd, LoPart, HiPart, Mmi.Acc, U64;
  }
}
