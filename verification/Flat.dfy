/** `execI` without its recursion: a maximal chain of taken branches at p, p + 4, ..., then one instruction that is
    not a taken branch, then one jump. */
module Flat {
  import opened Words
  import opened Memory
  import opened Registers
  import opened Interpreter

  /** One link of a chain: the instruction at s.pc is a taken branch, and the state in which its delay slot is
      executed; None if it is not a taken branch. */
  function Descend(s: State, j: Junk): (r: Option<State>)
    ensures r.Some? ==> Left(r.value.pc) + 4 == Left(s.pc)
  {
    match Fetch(s)
    case None => None
    case Some((s1, code)) =>
      match Dispatch(s1, code, j)
      case Take(s2, tar) => Some(s2.(branchPC := tar))
      case _ => None
  }

  /** The state after k links, if there are that many. */
  function Chain(s: State, j: Junk, k: nat): Option<State>
    decreases k
  {
    if k == 0 then Some(s)
    else
      match Descend(s, j)
      case None => None
      case Some(t) => Chain(t, j, k - 1)
  }

  /** Links in the longest chain from s. */
  function Depth(s: State, j: Junk): nat
    decreases Left(s.pc)
  {
    match Descend(s, j)
    case None => 0
    case Some(t) => 1 + Depth(t, j)
  }

  /** Where that chain ends. */
  function Tip(s: State, j: Junk): State
    decreases Left(s.pc)
  {
    match Descend(s, j)
    case None => s
    case Some(t) => Tip(t, j)
  }

  /** The instruction at t.pc, which is no taken branch; k branches are waiting for it. */
  function Last(t: State, j: Junk, k: nat): Outcome
  {
    match Fetch(t)
    case None => Halted
    case Some((t1, code)) =>
      match Dispatch(t1, code, j)
      case Next(t2) => if k == 0 then Ok(t2) else Arrive(t2)
      case Undef => Undefined
      case _ => Halted
  }

  /** The depth is the length of the one chain that cannot be extended, and the tip is its end. */
  lemma {:induction false} DepthIsMaximal(s: State, j: Junk)
    ensures Chain(s, j, Depth(s, j)) == Some(Tip(s, j))
    ensures Chain(s, j, Depth(s, j) + 1) == None
    ensures forall k: nat :: Chain(s, j, k).Some? ==> k <= Depth(s, j)
    decreases Left(s.pc)
  {
    hide Dispatch;
    match Descend(s, j)
    case None =>
      forall k: nat | Chain(s, j, k).Some? ensures k == 0 {}
    case Some(t) =>
      DepthIsMaximal(t, j);
      forall k: nat | Chain(s, j, k).Some? ensures k <= Depth(s, j) {
        if k > 0 {
          assert Chain(t, j, k - 1).Some?;
        }
      }
  }

  /** All pending returns of `doBranch` do the same: after the first they change nothing. */
  lemma ArriveTwice(s: State)
    requires Arrive(s).Ok?
    ensures Arrive(Arrive(s).s) == Arrive(s)
  {
  }

  /** The recursive step is the flat one. */
  lemma {:induction false} ExecIIsFlat(s: State, j: Junk)
    ensures ExecI(s, j) == Last(Tip(s, j), j, Depth(s, j))
    decreases Left(s.pc)
  {
    hide Dispatch;
    match Fetch(s)
    case None =>
    case Some((s1, code)) =>
      match Dispatch(s1, code, j)
      case Take(s2, tar) =>
        var t := s2.(branchPC := tar);
        assert Descend(s, j) == Some(t);
        ExecIIsFlat(t, j);
        assert ExecI(s, j) == DoBranch(s2, tar, j);
        LastAgain(t, j);
      case _ =>
  }

  /** One more pending branch makes no difference, once there is one. */
  lemma LastAgain(t: State, j: Junk)
    requires ExecI(t, j) == Last(Tip(t, j), j, Depth(t, j))
    ensures Last(Tip(t, j), j, Depth(t, j) + 1) == match ExecI(t, j) case Ok(u) => Arrive(u) case o => o
  {
    hide Dispatch;
    match Fetch(Tip(t, j))
    case None =>
    case Some((t1, code)) =>
      var a := Dispatch(t1, code, j);
      if a.Next? && Arrive(a.s).Ok? {
        ArriveTwice(a.s);
      }
  }

  lemma {:induction false} TipIsLast(s: State, j: Junk)
    ensures Descend(Tip(s, j), j) == None
    decreases Left(s.pc)
  {
    hide Descend;
    if Descend(s, j).None? {
    } else {
      TipIsLast(Descend(s, j).value, j);
    }
  }

  /** A likely branch that is not taken, which skips its delay slot. */
  predicate SkipsSlot(s: State, code: u32, j: Junk)
  {
    || (0x14 <= Op(code) <= 0x17 && !Compares(s.regs, code))
    || (Op(code) == 0x01 && Rt(code) % 16 in {2, 3} && Regimm(s, code, j).Next?)
  }

  /** What no handler touches, and where it leaves pc. */
  lemma DispatchFrame(s: State, code: u32, j: Junk)
    ensures var a := Dispatch(s, code, j);
            && (a.Next? ==> a.s.cycle == s.cycle && a.s.branchPC == s.branchPC)
            && (a.Next? ==> a.s.pc == if SkipsSlot(s, code, j) then U32(s.pc + 4) else s.pc)
            && (a.Take? ==> a.s == s.(regs := s.regs.(gpr := a.s.regs.gpr)))
  {
    hide Alu.Special, Alu.Immediate, Mmi.Mmi, Apply, Loaded, Mixed, Stored, Load, Store, Compares;
  }

  lemma DescendFrame(s: State, j: Junk)
    requires Descend(s, j).Some?
    ensures var t := Descend(s, j).value;
            && t.pc == s.pc + 4
            && t.cycle == U32(s.cycle + 1)
            && t.bounce == s.bounce
            && t.mem.bytes == s.mem.bytes
            && t.regs == s.regs.(gpr := t.regs.gpr)
            && (forall i :: 0 <= i < MEMSIZE ==> t.mem.tags[i].written == s.mem.tags[i].written)
  {
    var x := Fetch(s).value;
    DispatchFrame(x.0, x.1, j);
  }

  /** The chain walks straight through the code and writes nothing but tags and link registers. */
  lemma {:induction false} TipFrame(s: State, j: Junk)
    ensures var t, k := Tip(s, j), Depth(s, j);
            && 4 * k <= Left(s.pc)
            && t.pc == s.pc + 4 * k
            && t.cycle == U32(s.cycle + k)
            && t.bounce == s.bounce
            && t.mem.bytes == s.mem.bytes
            && t.regs == s.regs.(gpr := t.regs.gpr)
            && (forall i :: 0 <= i < MEMSIZE ==> t.mem.tags[i].written == s.mem.tags[i].written)
    decreases Left(s.pc)
  {
    hide Descend;
    if Descend(s, j).None? {
    } else {
      DescendFrame(s, j);
      TipFrame(Descend(s, j).value, j);
    }
  }

  /** The target that the last branch of the chain asked for. */
  function LastTarget(s: State, j: Junk): u32
    requires Depth(s, j) > 0
  {
    Tip(s, j).branchPC
  }

  lemma {:induction false} LastTargetIsLast(s: State, j: Junk)
    requires Depth(s, j) > 0
    ensures Chain(s, j, Depth(s, j) - 1).Some?
    ensures var u := Chain(s, j, Depth(s, j) - 1).value;
            && Fetch(u).Some?
            && var (u1, code) := Fetch(u).value;
               Dispatch(u1, code, j).Take? && Dispatch(u1, code, j).tar == LastTarget(s, j)
    decreases Left(s.pc)
  {
    hide Dispatch;
    var t := Descend(s, j).value;
    if Depth(t, j) > 0 {
      LastTargetIsLast(t, j);
      assert Chain(s, j, Depth(s, j) - 1) == Chain(t, j, Depth(t, j) - 1);
    } else {
      assert Chain(s, j, 0) == Some(s);
      assert Tip(s, j) == Tip(t, j) == t;
    }
  }

  lemma LastFrame(t: State, j: Junk, k: nat)
    ensures Last(t, j, k).Ok? ==>
              var u := Last(t, j, k).s;
              && Fetch(t).Some?
              && u.cycle == U32(t.cycle + 1)
              && u.branchPC == t.branchPC
              && u.pc == if k > 0 then t.branchPC
                         else if SkipsSlot(Fetch(t).value.0, Fetch(t).value.1, j) then U32(t.pc + 8)
                         else U32(t.pc + 4)
  {
    hide Dispatch, SkipsSlot, MarkRead;
    if Fetch(t).Some? {
      var x := Fetch(t).value;
      DispatchFrame(x.0, x.1, j);
    }
  }

  /** The whole of a step that ends well: it ran Depth + 1 instructions, and it goes to the target of the last taken
      branch; without one to the next instruction, or past the delay slot of a likely branch that is not taken. */
  lemma StepSummary(s: State, j: Junk)
    ensures ExecI(s, j).Ok? ==>
              var s', k, t := ExecI(s, j).s, Depth(s, j), Tip(s, j);
              && s'.cycle == U32(s.cycle + k + 1)
              && Fetch(t).Some?
              && s'.pc == if k > 0 then LastTarget(s, j)
                          else if SkipsSlot(Fetch(t).value.0, Fetch(t).value.1, j) then U32(s.pc + 8)
                          else U32(s.pc + 4)
  {
    hide Last, Fetch, ExecI, SkipsSlot, Left, Tip, Depth, Dispatch;
    ExecIIsFlat(s, j);
    TipFrame(s, j);
    LastFrame(Tip(s, j), j, Depth(s, j));
  }

  /** `execI` always comes back, after no more instructions than fit between pc and the end of its window. */
  lemma StepIsBounded(s: State, j: Junk)
    ensures 4 * Depth(s, j) <= Left(s.pc) <= MEMSIZE
    ensures Left(s.pc) < 4 * (Depth(s, j) + 1) ==> ExecI(s, j) == Halted
  {
    hide Dispatch;
    TipFrame(s, j);
    ExecIIsFlat(s, j);
  }
}
