/** QFSRV shifts the 256-bit number Rs:Rt right and keeps the low 128 bits: exactly for which `sa` and which Rd. */
module FunnelShift {
  import opened Words
  import opened Registers
  import opened Mmi

  const TWO128: nat := 0x1_0000_0000_0000_0000_0000_0000_0000_0000

  /** A register as a 128-bit number. */
  function Value(r: Reg): nat { r.d0 as int + TWO64 * r.d1 }

  /** The low 128 bits of Rs:Rt shifted right by n. */
  function Shifted(s: Reg, t: Reg, n: nat): nat
  {
    (Value(t) as int + TWO128 * Value(s)) / Pow2(n) % TWO128
  }

  /** One double word of the result: the upper bits of x with the lower bits of y above them. */
  function Funnel(x: u64, y: u64, k: nat): u64
    requires 0 < k < 64
  {
    Or64(Shr64(x, k), Shl64(y, 64 - k))
  }

  lemma FunnelValue(x: u64, y: u64, k: nat)
    requires 0 < k < 64
    ensures x / Pow2(k) < Pow2(64 - k)
    ensures Funnel(x, y, k) == x / Pow2(k) + Pow2(64 - k) * (y % Pow2(k))
  {
    hide Bitwise, Pow2;
    Pow2Values();
    Pow2Add(k, 64 - k);
    var p, q := Pow2(k), Pow2(64 - k);
    QuotientBelow(x, p, q);
    Recompose(y, p);
    UpperBits(y, p, q, y % p, y / p);
    OrDisjoint(64 - k, x / p, y % p);
  }

  lemma UpperBits(y: nat, p: nat, q: nat, low: nat, high: nat)
    requires p * q == TWO64 && y == low + p * high && low < p
    ensures U64(y * q) == q * low
  {
    assert q * low < TWO64 by {
      MulMono(q, low + 1, p);
      MulNext(q, low);
      assert q * p == p * q;
      assert q >= 1;
    }
    Spread(low, p, high, q);
    DivMod(y * q, TWO64, q * low, high);
  }

  lemma Spread(low: int, p: int, high: int, q: int)
    ensures (low + p * high) * q == q * low + (p * q) * high
  {
  }

  /** Shifting a number made of double words, one double word at a time. */
  lemma ShiftDigits(x: u64, rest: nat, k: nat)
    requires 0 < k < 64
    ensures (x + TWO64 * rest) / Pow2(k) == x / Pow2(k) + Pow2(64 - k) * rest
  {
    hide Pow2;
    Pow2Values();
    Pow2Add(k, 64 - k);
    var p, q := Pow2(k), Pow2(64 - k);
    Recompose(x, p);
    Regroup(p, x / p, q, rest);
    DivMod(x + TWO64 * rest, p, x % p, x / p + q * rest);
  }

  lemma Regroup(p: int, h: int, q: int, rest: int)
    ensures p * (h + q * rest) == p * h + (p * q) * rest
  {
  }

  /** Low double word and the rest of a shifted number. */
  lemma ShiftStep(x: u64, y: u64, rest: nat, k: nat)
    requires 0 < k < 64
    ensures (x + TWO64 * (y + TWO64 * rest)) / Pow2(k) == Funnel(x, y, k) + TWO64 * ((y + TWO64 * rest) / Pow2(k))
  {
    hide Pow2, Funnel;
    Pow2Values();
    Pow2Add(k, 64 - k);
    var p, q := Pow2(k), Pow2(64 - k);
    FunnelValue(x, y, k);
    ShiftDigits(x, y + TWO64 * rest, k);
    ShiftDigits(y, rest, k);
    Recompose(y, p);
    Collect(q, p, y % p, y / p, rest);
  }

  lemma Collect(q: int, p: int, low: int, high: int, rest: int)
    requires p * q == TWO64
    ensures q * (low + p * high + TWO64 * rest) == q * low + TWO64 * (high + q * rest)
  {
    assert q * (p * high) == (p * q) * high;
    assert q * (TWO64 * rest) == TWO64 * (q * rest);
    assert q * (low + p * high + TWO64 * rest) == q * low + q * (p * high) + q * (TWO64 * rest);
  }

  /** Two double words of a shifted number, and the rest. */
  lemma ShiftTwo(x: u64, y: u64, z: u64, rest: nat, k: nat)
    requires 0 < k < 64
    ensures (x + TWO64 * (y + TWO64 * (z + TWO64 * rest))) / Pow2(k) % TWO128
            == Funnel(x, y, k) + TWO64 * Funnel(y, z, k)
  {
    hide Pow2, Funnel;
    ShiftStep(x, y, z + TWO64 * rest, k);
    ShiftStep(y, z, rest, k);
    var top := (z + TWO64 * rest) / Pow2(k);
    Recompose(z + TWO64 * rest, Pow2(k));
    DivMod(Funnel(x, y, k) + TWO64 * (Funnel(y, z, k) + TWO64 * top), TWO128,
           Funnel(x, y, k) + TWO64 * Funnel(y, z, k), top);
  }

  /** QFSRV with Rd distinct from both sources is the funnel shift, for every shift amount that C defines. */
  lemma QfsrvShifts(l: Live, sa: u32)
    requires !l.isS && !l.isT && sa < 128 && sa != 64
    ensures Qfsrv(l, sa, false).Some?
    ensures Value(Qfsrv(l, sa, false).value.d) == Shifted(l.s, l.t, sa)
  {
    hide Pow2, Funnel, Or64, Shl64, Shr64;
    var s, t := l.s, l.t;
    var whole := Value(t) + TWO128 * Value(s);
    assert whole == t.d0 + TWO64 * (t.d1 + TWO64 * (s.d0 + TWO64 * s.d1));
    if sa == 0 {
      assert Pow2(0) == 1 by { SmallPow2(); }
      DivMod(whole, TWO128, Value(t), Value(s));
    } else if sa < 64 {
      ShiftTwo(t.d0, t.d1, s.d0, s.d1, sa);
      FunnelIs(t.d0, t.d1, sa);
      FunnelIs(t.d1, s.d0, sa);
    } else {
      var k := sa - 64;
      DropDoubleWord(t.d0, t.d1 + TWO64 * (s.d0 + TWO64 * s.d1), k);
      ShiftTwo(t.d1, s.d0, s.d1, 0, k);
      FunnelIs(t.d1, s.d0, k);
      FunnelIs(s.d0, s.d1, k);
    }
  }

  lemma FunnelIs(x: u64, y: u64, k: nat)
    requires 0 < k < 64
    ensures Or64(Shr64(x, k), Shl64(y, 64 - k)) == Funnel(x, y, k)
  {
  }

  /** A shift by 64 + k drops the low double word and shifts the rest by k. */
  lemma DropDoubleWord(x: u64, rest: nat, k: nat)
    ensures (x + TWO64 * rest) / Pow2(64 + k) == rest / Pow2(k)
  {
    hide Pow2;
    Pow2Values();
    Pow2Add(64, k);
    var p := Pow2(k);
    Recompose(rest, p);
    var low, high := rest % p, rest / p;
    assert x + TWO64 * rest == (x + TWO64 * low) + (TWO64 * p) * high by {
      assert TWO64 * (p * high) == (TWO64 * p) * high;
    }
    assert x + TWO64 * low < TWO64 * p;
    DivMod(x + TWO64 * rest, TWO64 * p, x + TWO64 * low, high);
  }

  // ----- Exactly when it is the funnel shift -----

  /** What a handler can find: where Rd is a source, they have the same contents. */
  predicate Consistent(l: Live) { (l.isS ==> l.d == l.s) && (l.isT ==> l.d == l.t) }

  /** Contents in which only Rd is not zero. */
  function LiveWith(isS: bool, isT: bool, d: Reg): (l: Live)
    ensures l.isS == isS && l.isT == isT && Consistent(l)
  {
    Live(if isS then d else ZERO, if isT then d else ZERO, d, ZERO, ZERO, isS, isT)
  }

  ghost predicate AlwaysShifts(isS: bool, isT: bool, sa: u32)
  {
    forall l: Live :: l.isS == isS && l.isT == isT && Consistent(l) ==>
      Qfsrv(l, sa, false).Some? && Value(Qfsrv(l, sa, false).value.d) == Shifted(l.s, l.t, sa)
  }

  /** Rd may also be Rt when the shift is by more than 64: then Rt is read before it is overwritten. */
  lemma QfsrvShiftsInPlace(l: Live, sa: u32)
    requires !l.isS && 64 < sa < 128
    ensures Qfsrv(l, sa, false).Some? && Value(Qfsrv(l, sa, false).value.d) == Shifted(l.s, l.t, sa)
  {
    hide Or64, Shl64, Shr64, Pow2;
    QfsrvShifts(l.(isT := false), sa);
  }

  lemma QfsrvCopy(l: Live)
    requires Consistent(l)
    ensures Qfsrv(l, 0, false).Some? && Value(Qfsrv(l, 0, false).value.d) == Shifted(l.s, l.t, 0)
  {
    hide Shifted;
    QfsrvShifts(l.(isS := false, isT := false), 0);
    assert Qfsrv(l, 0, false).value.d == l.t;
  }

  lemma Zeros(n: nat)
    ensures Shr64(0, n) == 0 && Shl64(0, n) == 0 && Or64(0, 0) == 0
    ensures n > 0 ==> Shr64(1, n) == 0
  {
    DivMod(0, Pow2(n), 0, 0);
    if n > 0 {
      DivMod(1, Pow2(n), 1, 0);
    }
    BitwiseZero(0);
  }

  /** The bit of y that should have come into the result. */
  lemma FunnelOfBit(k: nat)
    requires 0 < k < 64 && Pow2(k) < TWO64
    ensures Funnel(0, 1, k) > 0 && Shr64(Pow2(k), k) == 1
  {
    hide Funnel;
    FunnelValue(0, 1, k);
    DivMod(1, Pow2(k), 1, 0);
    DivMod(0, Pow2(k), 0, 0);
    DivMod(Pow2(k), Pow2(k), 0, 1);
    assert Pow2(64 - k) * 1 >= 1;
  }

  /** For every other combination there are register contents that lose a bit: half of Rd is overwritten before the
      source is read again. */
  lemma QfsrvLosesBits(isS: bool, isT: bool, sa: u32) returns (l: Live)
    requires 0 < sa < 128 && sa != 64
    requires isS || (isT && sa < 64)
    ensures l == LiveWith(isS, isT, l.d)
    ensures Qfsrv(l, sa, false).Some? && Value(Qfsrv(l, sa, false).value.d) != Shifted(l.s, l.t, sa)
  {
    hide Pow2, Or64, Shl64, Shr64, Shifted;
    var k := if sa < 64 then sa else sa - 64;
    Pow2Values();
    Pow2Mono(k, 63);
    assert Pow2(63) < TWO64 by { Pow2Add(63, 1); SmallPow2(); }
    var bit: Reg := if sa > 64 then Reg(Pow2(k), 0) else if isS then Reg(1, 0) else Reg(0, 1);
    l := LiveWith(isS, isT, bit);
    Zeros(k);
    Zeros(64 - k);
    FunnelOfBit(k);
    FunnelIs(0, 1, k);
    QfsrvShifts(l.(isS := false, isT := false), sa);
    var good := Qfsrv(l.(isS := false, isT := false), sa, false).value.d;
    assert Qfsrv(l, sa, false).value.d == ZERO;
    assert Value(ZERO) == 0;
    NotZero(l, sa, k);
  }

  /** On the same contents with Rd apart from the sources the result is not zero. */
  lemma NotZero(l: Live, sa: u32, k: nat)
    requires 0 < sa < 128 && sa != 64 && k == (if sa < 64 then sa else sa - 64)
    requires Pow2(k) < TWO64
    requires if sa > 64 then l.s == Reg(Pow2(k), 0) && (l.t == ZERO || l.t == l.s)
             else (l.s == Reg(1, 0) && (l.t == ZERO || l.t == l.s)) || (l.s == ZERO && l.t == Reg(0, 1))
    ensures Shifted(l.s, l.t, sa) > 0
  {
    hide Pow2, Shifted, Or64, Shl64, Shr64;
    var free := l.(isS := false, isT := false);
    QfsrvShifts(free, sa);
    Zeros(k);
    Zeros(64 - k);
    FunnelOfBit(k);
    FunnelIs(0, 1, k);
    OrKeeps(Shr64(Pow2(k), k), Shl64(0, 64 - k));
  }

  lemma OrKeeps(x: u64, y: u64)
    requires y == 0
    ensures Or64(x, y) == x
  {
    BitwiseZero(x);
  }

  /** When it is the shift: nothing is shifted, or C defines the shift and Rd is not Rs and, for shifts below 64, not
      Rt either. */
  predicate MayShift(isS: bool, isT: bool, sa: u32)
  {
    sa == 0 || (sa < 128 && sa != 64 && !isS && (!isT || sa > 64))
  }

  lemma QfsrvIsShift(l: Live, sa: u32)
    requires Consistent(l) && MayShift(l.isS, l.isT, sa)
    ensures Qfsrv(l, sa, false).Some? && Value(Qfsrv(l, sa, false).value.d) == Shifted(l.s, l.t, sa)
  {
    hide Qfsrv, Shifted;
    if sa == 0 {
      QfsrvCopy(l);
    } else if l.isT {
      QfsrvShiftsInPlace(l, sa);
    } else {
      QfsrvShifts(l, sa);
    }
  }

  lemma QfsrvFails(isS: bool, isT: bool, sa: u32) returns (l: Live)
    requires !MayShift(isS, isT, sa)
    ensures l == LiveWith(isS, isT, l.d)
    ensures Qfsrv(l, sa, false).Some? ==> Value(Qfsrv(l, sa, false).value.d) != Shifted(l.s, l.t, sa)
  {
    hide Shifted;
    if sa < 128 && sa != 64 {
      l := QfsrvLosesBits(isS, isT, sa);
    } else {
      l := LiveWith(isS, isT, ZERO);
    }
  }

  /** QFSRV is the funnel shift for all register contents exactly in those cases. */
  lemma QfsrvShiftsIff(isS: bool, isT: bool, sa: u32)
    ensures AlwaysShifts(isS, isT, sa) <==> sa == 0 || (sa < 128 && sa != 64 && !isS && (!isT || sa > 64))
  {
    hide Qfsrv, Shifted;
    if MayShift(isS, isT, sa) {
      forall l: Live | l.isS == isS && l.isT == isT && Consistent(l)
        ensures Qfsrv(l, sa, false).Some? && Value(Qfsrv(l, sa, false).value.d) == Shifted(l.s, l.t, sa)
      {
        QfsrvIsShift(l, sa);
      }
    } else {
      var l := QfsrvFails(isS, isT, sa);
    }
  }

  // ----- The same for the instruction -----

  predicate IsQfsrv(code: u32) { Op(code) == 0x1c && Funct(code) == 0x28 && Sa(code) == 27 }

  /** What the instruction should do: Rd, and nothing else, receives the shifted sources. */
  predicate Performs(r: Regs, code: u32)
  {
    var e := Mmi.Mmi(r, code);
    && e.Write? && e.dest == Rd(code) && e.hi == r.hi && e.lo == r.lo
    && Value(e.val) == Shifted(r.gpr[Rs(code)], r.gpr[Rt(code)], r.sa)
  }

  lemma InstructionIs(r: Regs, code: u32)
    requires IsQfsrv(code) && Rd(code) != 0
    ensures var q := Qfsrv(LiveOf(r, code), r.sa, false);
            && Mmi.Mmi(r, code) == (match q case Some(l) => Finish(l, Rd(code)) case None => Trap)
            && (q.Some? ==> q.value.hi == r.hi && q.value.lo == r.lo)
  {
    hide Rs, Rt, Rd, Or64, Shl64, Shr64;
    assert Mmi.Mmi(r, code) == Mmi.Mmi1(r, code);
  }

  lemma QfsrvInstruction(r: Regs, code: u32)
    requires IsQfsrv(code) && Rd(code) != 0
    requires MayShift(Rd(code) == Rs(code), Rd(code) == Rt(code), r.sa)
    ensures Performs(r, code)
  {
    hide Qfsrv, Shifted, Rs, Rt, Rd, IsQfsrv, Mmi.Mmi, MayShift;
    InstructionIs(r, code);
    QfsrvIsShift(LiveOf(r, code), r.sa);
  }

  /** The instruction is the funnel shift, whatever the registers hold, exactly when its operands and `sa` are so. */
  lemma QfsrvInstructionIff(code: u32, sa: u32)
    requires IsQfsrv(code) && Rd(code) != 0
    ensures (forall r: Regs :: r.sa == sa && r.gpr[0] == ZERO ==> Performs(r, code)) <==>
              sa == 0 || (sa < 128 && sa != 64 && Rd(code) != Rs(code) && (Rd(code) != Rt(code) || sa > 64))
  {
    hide Qfsrv, Shifted, Rs, Rt, Rd, IsQfsrv, Mmi.Mmi, Performs;
    if MayShift(Rd(code) == Rs(code), Rd(code) == Rt(code), sa) {
      forall r: Regs | r.sa == sa && r.gpr[0] == ZERO ensures Performs(r, code) {
        QfsrvInstruction(r, code);
      }
    } else {
      var r := InstructionFails(code, sa);
    }
  }

  lemma InstructionFails(code: u32, sa: u32) returns (r: Regs)
    requires IsQfsrv(code) && Rd(code) != 0
    requires !MayShift(Rd(code) == Rs(code), Rd(code) == Rt(code), sa)
    ensures r.sa == sa && r.gpr[0] == ZERO && !Performs(r, code)
  {
    hide Qfsrv, Shifted, Rs, Rt, Rd, IsQfsrv, Mmi.Mmi, MayShift;
    var l := QfsrvFails(Rd(code) == Rs(code), Rd(code) == Rt(code), sa);
    r := Regs(seq(32, i => if i == Rd(code) then l.d else ZERO), ZERO, ZERO, sa);
    assert LiveOf(r, code) == l;
    InstructionIs(r, code);
  }
}
