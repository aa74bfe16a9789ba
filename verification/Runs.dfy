/** Whole runs of the emulation loop of `main`: what every reachable state keeps, and why the loop stops. */
module Runs {
  import opened Words
  import opened Memory
  import opened Registers
  import opened Interpreter
  import opened Flat
  import Alu
  import Mmi

  /** A run observed for |js| steps: still going, stopped with `bounce_pc` set, ended by the emulator, or lost to an
      operation the host leaves undefined. */
  datatype Result = Running(s: State) | Bounced(s: State) | Exited | Lost

  function Run(s: State, js: seq<Junk>): Result
    decreases |js|
  {
    if s.bounce != 0 then Bounced(s)
    else if js == [] then Running(s)
    else
      match ExecI(s, js[0])
      case Ok(s') => Run(s', js[1..])
      case Halted => Exited
      case Undefined => Lost
  }

  /** The machine with all registers cleared and a program loaded. */
  function Boot(image: Bytes, entry: u32): State
  {
    State(Regs(seq(32, _ => ZERO), ZERO, ZERO, 0), Mem(image, NoTags()), entry, 0, 0, 0)
  }

  // ----- Self-modification tracking -----

  /** Every byte not tagged written is still the loaded one. */
  predicate Faithful(m: Mem, image: Bytes)
  {
    forall i :: 0 <= i < MEMSIZE && !m.tags[i].written ==> m.bytes[i] == image[i]
  }

  predicate TagsGrow(m: Mem, m': Mem)
  {
    forall i :: 0 <= i < MEMSIZE ==> (m.tags[i].read ==> m'.tags[i].read) && (m.tags[i].written ==> m'.tags[i].written)
  }

  /** What all handlers keep: register 0 is zero in all its bits, and the shift amount is never set. */
  predicate Tracked(s: State, image: Bytes)
  {
    s.regs.gpr[0] == ZERO && s.regs.sa == 0 && Faithful(s.mem, image)
  }

  lemma LoadKeeps(m: Mem, a: u32, n: nat, image: Bytes)
    requires Faithful(m, image) && Load(m, a, n).Some?
    ensures var m' := Load(m, a, n).value.1; Faithful(m', image) && TagsGrow(m, m')
  {
  }

  lemma StoreKeeps(m: Mem, a: u32, bs: seq<u8>, image: Bytes)
    requires Faithful(m, image) && Store(m, a, bs).Some?
    ensures var m' := Store(m, a, bs).value; Faithful(m', image) && TagsGrow(m, m')
  {
  }

  lemma LoadOpKeeps(s: State, code: u32, j: Junk, image: Bytes)
    requires Tracked(s, image)
    ensures var a := LoadOp(s, code, j); a.Next? ==> Tracked(a.s, image) && TagsGrow(s.mem, a.s.mem)
  {
    hide Loaded, Load, Faithful, TagsGrow, Ea, Start;
    if IsLoad(Op(code)) {
      var start, n := Start(Op(code), Ea(s.regs, code)), Width(Op(code));
      if Load(s.mem, start, n).Some? {
        LoadKeeps(s.mem, start, n, image);
      }
      Same(s.mem);
    }
  }

  lemma StoreOpKeeps(s: State, code: u32, j: Junk, image: Bytes)
    requires Tracked(s, image)
    ensures var a := StoreOp(s, code, j); a.Next? ==> Tracked(a.s, image) && TagsGrow(s.mem, a.s.mem)
  {
    hide Mixed, Stored, Load, Store, Faithful, TagsGrow, Ea, Start;
    if IsStore(Op(code)) {
      var op, t, a := Op(code), s.regs.gpr[Rt(code)], Ea(s.regs, code);
      var start, n := Start(op, a), Width(op);
      var m := s.mem;
      Same(m);
      if IsPartial(op) {
        if Load(m, start, n).Some? {
          LoadKeeps(m, start, n, image);
          var (bs, m1) := Load(m, start, n).value;
          var w := Mixed(op, a, bs, t);
          if Store(m1, start, w).Some? {
            StoreKeeps(m1, start, w, image);
            Grow(m, m1, Store(m1, start, w).value);
          }
        }
      } else if Store(m, start, Stored(op, t, j)).Some? {
        StoreKeeps(m, start, Stored(op, t, j), image);
      }
    }
  }

  lemma Same(m: Mem)
    ensures TagsGrow(m, m)
  {
  }

  lemma Grow(a: Mem, b: Mem, c: Mem)
    requires TagsGrow(a, b) && TagsGrow(b, c)
    ensures TagsGrow(a, c)
  {
  }

  /** Every entry of the dispatch tables keeps the invariant. */
  lemma DispatchKeeps(s: State, code: u32, j: Junk, image: Bytes)
    requires Tracked(s, image)
    ensures var a := Dispatch(s, code, j); a.Next? || a.Take? ==> Tracked(a.s, image) && TagsGrow(s.mem, a.s.mem)
  {
    hide Faithful, TagsGrow, Loaded, Mixed, Stored, Load, Store, Ea, Start, Alu.Special, Alu.Immediate, Mmi.Mmi,
         Compares;
    Same(s.mem);
    LoadOpKeeps(s, code, j, image);
    StoreOpKeeps(s, code, j, image);
  }

  lemma {:induction false} StepKeeps(s: State, j: Junk, image: Bytes)
    requires Tracked(s, image)
    ensures var o := ExecI(s, j); o.Ok? ==> Tracked(o.s, image) && TagsGrow(s.mem, o.s.mem)
    decreases Left(s.pc)
  {
    hide Dispatch, Faithful, TagsGrow, Load;
    match Fetch(s)
    case None =>
    case Some((s1, code)) =>
      LoadKeeps(s.mem, s.pc, 4, image);
      DispatchKeeps(s1, code, j, image);
      match Dispatch(s1, code, j)
      case Next(s2) => Grow(s.mem, s1.mem, s2.mem);
      case Take(s2, tar) =>
        var t := s2.(branchPC := tar);
        Grow(s.mem, s1.mem, s2.mem);
        StepKeeps(t, j, image);
        assert ExecI(s, j) == DoBranch(s2, tar, j);
        if ExecI(t, j).Ok? {
          Grow(s.mem, s2.mem, ExecI(t, j).s.mem);
        }
      case _ =>
  }

  /** In every reachable state each byte not tagged written still equals the loaded image, tags have only grown,
      register 0 is zero and `sa` is zero. */
  lemma {:induction false} RunKeeps(s: State, js: seq<Junk>, image: Bytes)
    requires Tracked(s, image)
    ensures var r := Run(s, js); r.Running? || r.Bounced? ==> Tracked(r.s, image) && TagsGrow(s.mem, r.s.mem)
    decreases |js|
  {
    hide ExecI, Faithful, TagsGrow;
    Same(s.mem);
    if s.bounce != 0 || js == [] {
    } else {
      StepKeeps(s, js[0], image);
      match ExecI(s, js[0])
      case Ok(s') =>
        RunKeeps(s', js[1..], image);
        var r := Run(s', js[1..]);
        if r.Running? || r.Bounced? {
          Grow(s.mem, s'.mem, r.s.mem);
        }
      case _ =>
    }
  }

  lemma BootIsTracked(image: Bytes, entry: u32)
    ensures Tracked(Boot(image, entry), image)
  {
  }

  /** QFSRV never shifts in a run: wherever a step executes it, after any chain of taken branches, it copies Rt,
      whatever register Rd is. */
  lemma QfsrvCopies(image: Bytes, entry: u32, js: seq<Junk>, s: State, j: Junk)
    ensures Run(Boot(image, entry), js) == Running(s) && Fetch(Tip(s, j)).Some? ==>
              var (t, code) := Fetch(Tip(s, j)).value;
              Op(code) == 0x1c && Funct(code) == 0x28 && Sa(code) == 27 && Rd(code) != 0 ==>
                Dispatch(t, code, j) == Next(t.(regs := t.regs.(gpr := t.regs.gpr[Rd(code) := t.regs.gpr[Rt(code)]])))
  {
    hide Run, Faithful, TagsGrow, Tip, Dispatch, Load, Rs, Rt, Rd;
    if Run(Boot(image, entry), js) == Running(s) && Fetch(Tip(s, j)).Some? {
      BootIsTracked(image, entry);
      RunKeeps(Boot(image, entry), js, image);
      TipFrame(s, j);
      var (t, code) := Fetch(Tip(s, j)).value;
      if Op(code) == 0x1c && Funct(code) == 0x28 && Sa(code) == 27 && Rd(code) != 0 {
        QfsrvAtZero(t, code, j);
      }
    }
  }

  lemma QfsrvAtZero(t: State, code: u32, j: Junk)
    requires t.regs.sa == 0
    requires Op(code) == 0x1c && Funct(code) == 0x28 && Sa(code) == 27 && Rd(code) != 0
    ensures Dispatch(t, code, j) == Next(t.(regs := t.regs.(gpr := t.regs.gpr[Rd(code) := t.regs.gpr[Rt(code)]])))
  {
    hide Rs, Rt, Rd;
    assert Mmi.Mmi(t.regs, code) == Mmi.Mmi1(t.regs, code);
    var l := Mmi.Qfsrv(Mmi.LiveOf(t.regs, code), 0, false).value;
    assert Mmi.Mmi1(t.regs, code) == Mmi.Finish(l, Rd(code));
  }

  // ----- Why a run stops -----

  /** The instruction that ends the step is the ExecPS2 system call. */
  predicate EndsInExecPS2(s: State, j: Junk)
  {
    var f := Fetch(Tip(s, j));
    f.Some? && var (t, code) := f.value; Op(code) == 0 && Funct(code) == 0x0c && Call(t.regs) == 0x07
  }

  lemma DispatchBounce(s: State, code: u32, j: Junk)
    ensures var a := Dispatch(s, code, j);
            a.Next? ==> a.s.bounce == if Op(code) == 0 && Funct(code) == 0x0c && Call(s.regs) == 0x07
                                      then Low(a.s.regs.gpr[4]) else s.bounce
  {
    hide Alu.Special, Alu.Immediate, Mmi.Mmi, Apply, Loaded, Mixed, Stored, Load, Store, Compares;
  }

  /** Exactly when a step sets `bounce_pc`, and to what: the target of the taken branches if it is tagged written once
      the delay slot has run, else the argument of an ExecPS2. */
  lemma StepBounce(s: State, j: Junk)
    requires s.bounce == 0
    ensures ExecI(s, j).Ok? ==>
              var s' := ExecI(s, j).s;
              && (Depth(s, j) > 0 ==> s'.pc < MEMSIZE)
              && s'.bounce == if Depth(s, j) > 0 && s'.mem.tags[s'.pc].written then s'.pc
                              else if EndsInExecPS2(s, j) then Low(s'.regs.gpr[4])
                              else 0
  {
    hide Dispatch, ExecI, Tip, Depth, Load, Call;
    ExecIIsFlat(s, j);
    TipFrame(s, j);
    var t := Tip(s, j);
    if Fetch(t).Some? {
      var (t1, code) := Fetch(t).value;
      DispatchBounce(t1, code, j);
    }
  }

  /** The two ways in which a step from u may stop the loop: it entered, by a taken branch, memory that is tagged
      written; or it ended in ExecPS2. */
  predicate Stops(u: State, j: Junk, s: State)
  {
    || (Depth(u, j) > 0 && s.bounce == s.pc < MEMSIZE && s.mem.tags[s.pc].written)
    || (EndsInExecPS2(u, j) && s.bounce == Low(s.regs.gpr[4]))
  }

  /** The loop stops only in one of these ways, in its last step. */
  lemma {:induction false} StopReason(s: State, js: seq<Junk>) returns (i: nat, u: State)
    requires s.bounce == 0
    ensures var r := Run(s, js);
            r.Bounced? ==>
              && i < |js|
              && Run(s, js[..i]) == Running(u)
              && ExecI(u, js[i]) == Ok(r.s)
              && Stops(u, js[i], r.s)
    decreases |js|
  {
    hide ExecI, Tip, Depth, EndsInExecPS2, Call;
    i, u := 0, s;
    if js == [] || !ExecI(s, js[0]).Ok? {
    } else {
      var s' := ExecI(s, js[0]).s;
      StepBounce(s, js[0]);
      if s'.bounce == 0 {
        i, u := StopReason(s', js[1..]);
        if Run(s, js).Bounced? {
          assert js[..i + 1][1..] == js[1..][..i];
          i := i + 1;
        }
      }
    }
  }

  /** If the loop goes on after a step that took branches to a nonzero target, control has not reached written memory:
      the byte there is still the loaded one. */
  lemma NotYetEntered(image: Bytes, entry: u32, js: seq<Junk>, j: Junk, s: State)
    ensures Run(Boot(image, entry), js) == Running(s) && ExecI(s, j).Ok? && Depth(s, j) > 0 ==>
              var s' := ExecI(s, j).s;
              s'.bounce == 0 && s'.pc != 0 ==>
                s'.pc < MEMSIZE && !s'.mem.tags[s'.pc].written && s'.mem.bytes[s'.pc] == image[s'.pc]
  {
    hide ExecI, Tip, Depth, EndsInExecPS2, TagsGrow;
    if Run(Boot(image, entry), js) == Running(s) {
      BootIsTracked(image, entry);
      RunKeeps(Boot(image, entry), js, image);
      RunningHasNoBounce(Boot(image, entry), js);
      StepKeeps(s, j, image);
      StepBounce(s, j);
    }
  }

  lemma {:induction false} RunningHasNoBounce(s: State, js: seq<Junk>)
    ensures Run(s, js).Running? ==> Run(s, js).s.bounce == 0
    decreases |js|
  {
    hide ExecI;
    if s.bounce != 0 || js == [] || !ExecI(s, js[0]).Ok? {
    } else {
      RunningHasNoBounce(ExecI(s, js[0]).s, js[1..]);
    }
  }
}
