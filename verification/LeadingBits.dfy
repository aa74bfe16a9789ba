/** PLZCW counts how far a word can be shifted left before it overflows. */
module LeadingBits {
  import opened Words
  import opened Registers
  import opened Mmi
  import opened RegisterCode

  /** The word, read as signed, times 2^n is still a signed 32-bit number. */
  predicate Fits(x: u32, n: nat)
  {
    -0x8000_0000 <= S32(x) * Pow2(n) < 0x8000_0000
  }

  /** A negative word and its complement have the same magnitude. */
  function Magnitude(x: u32): u32 { if x < 0x8000_0000 then x else Not32(x) }

  lemma Pow2At31()
    ensures Pow2(31) == 0x8000_0000
  {
    Pow2Values();
    Pow2Add(24, 7);
    SmallPow2();
  }

  lemma BitOfComplement(x: u32, i: nat)
    requires i <= 31
    ensures BitAt(Not32(x), i) == 1 - BitAt(x, i)
  {
    hide Pow2;
    Pow2Add(i, 31 - i);
    Pow2At31();
    Twice(Pow2(i), Pow2(31 - i));
    ComplementQuotient(x, Pow2(i), Pow2(31 - i));
  }

  lemma ComplementQuotient(x: u32, p: nat, k: nat)
    requires p >= 1 && p * (2 * k) == TWO32
    ensures Not32(x) / p == 2 * k - 1 - x / p
  {
    Recompose(x, p);
    QuotientBelow(x, p, 2 * k);
    ComplementParts(p, 2 * k, x % p, x / p);
    DivMod(Not32(x), p, p - 1 - x % p, 2 * k - 1 - x / p);
  }

  lemma Twice(p: int, q: int)
    ensures p * (2 * q) == 2 * (p * q)
  {
  }

  lemma ComplementParts(p: int, m: int, r: int, h: int)
    ensures p * m - 1 - (r + p * h) == (p - 1 - r) + p * (m - 1 - h)
  {
  }

  lemma TopBit(x: u32)
    ensures BitAt(x, 31) == if x < 0x8000_0000 then 0 else 1
  {
    Pow2At31();
  }

  /** The loop sees only whether bits differ from the sign. */
  lemma {:induction false} RunOfComplement(x: u32, i: int)
    requires -1 <= i <= 30
    ensures SignRun(Not32(x), i) == SignRun(x, i)
    decreases i + 1
  {
    hide BitAt;
    if i < 0 {
    } else {
      BitOfComplement(x, i);
      BitOfComplement(x, 31);
      RunOfComplement(x, i - 1);
    }
  }

  /** x and ~x have the same count. */
  lemma PlzOfComplement(x: u32)
    ensures Plz(Not32(x)) == Plz(x) == Plz(Magnitude(x))
  {
    RunOfComplement(x, 30);
  }

  /** The loop finds the highest one bit of a magnitude. */
  lemma {:induction false} RunFindsTop(m: u32, i: int)
    requires m < 0x8000_0000 && -1 <= i <= 30 && m < Pow2(i + 1)
    ensures var n := SignRun(m, i); m < Pow2(31 - n) && (n < 31 ==> Pow2(30 - n) <= m)
    decreases i + 1
  {
    TopBit(m);
    if i < 0 {
    } else {
      HighestBit(m, i);
      if BitAt(m, i) == 0 {
        RunFindsTop(m, i - 1);
      }
    }
  }

  lemma HighestBit(m: u32, i: nat)
    requires m < Pow2(i + 1)
    ensures BitAt(m, i) == if m < Pow2(i) then 0 else 1
  {
    if m < Pow2(i) {
      DivMod(m, Pow2(i), m, 0);
    } else {
      DivMod(m, Pow2(i), m - Pow2(i), 1);
    }
  }

  lemma FitsByMagnitude(x: u32, n: nat)
    requires n <= 31
    ensures Fits(x, n) <==> Magnitude(x) < Pow2(31 - n)
  {
    hide Pow2;
    var p: int, q: int := Pow2(n), Pow2(31 - n);
    assert q * p == 0x8000_0000 && (-q) * p == -(q * p) by {
      Pow2Add(n, 31 - n);
      Pow2At31();
    }
    Cancel(S32(x), q, p);
    Cancel(S32(x), -q, p);
  }

  /** The count is the largest n up to 31 such that the word times 2^n still fits: the word fits after a shift by n
      exactly for the n up to the count. */
  lemma PlzIsLargestShift(x: u32, n: nat)
    requires n <= 31
    ensures Fits(x, n) <==> n <= Plz(x)
  {
    hide Pow2, Fits, SignRun;
    Pow2At31();
    PlzOfComplement(x);
    RunFindsTop(Magnitude(x), 30);
    FitsByMagnitude(x, n);
    if n <= Plz(x) {
      Pow2Mono(31 - Plz(x), 31 - n);
    } else {
      Pow2Mono(31 - n, 30 - Plz(x));
    }
  }

  /** SLLV by the count multiplies without overflow, so it keeps the sign; and unless the count is 31 it normalises:
      no further shift would fit. */
  lemma ShiftByPlz(x: u32)
    ensures var y := Shl32(x, Plz(x));
            && S32(y) == S32(x) * Pow2(Plz(x))
            && (S32(y) < 0 <==> S32(x) < 0)
            && (Plz(x) < 31 ==> !Fits(y, 1))
  {
    var n := Plz(x);
    hide Plz;
    PlzIsLargestShift(x, n);
    ShiftFits(x, n);
    if n < 31 {
      PlzIsLargestShift(x, n + 1);
      assert Pow2(n + 1) == 2 * Pow2(n) && Pow2(1) == 2;
      Twice(S32(x), Pow2(n));
    }
  }

  /** A shift whose result fits is a multiplication of the signed word. */
  lemma ShiftFits(x: u32, n: nat)
    requires Fits(x, n)
    ensures S32(Shl32(x, n)) == S32(x) * Pow2(n)
    ensures S32(x) * Pow2(n) < 0 <==> S32(x) < 0
  {
    hide Pow2;
    var p := Pow2(n);
    Cancel(S32(x), 0, p);
    if x < 0x8000_0000 {
    } else {
      assert x * p == S32(x) * p + TWO32 * p;
      Wrapped(S32(x) * p, p);
    }
  }

  lemma Wrapped(v: int, k: int)
    requires -0x8000_0000 <= v < 0x8000_0000
    ensures S32(U32(v + TWO32 * k)) == v
  {
  }

  /** PLZCW writes the counts of the two low words and leaves the upper double word of Rd. */
  lemma PlzcwLanes(r: Regs, code: u32)
    requires Op(code) == 0x1c && Funct(code) == 0x04
    ensures var d := Mmi.Mmi(r, code).val;
            && Ws(d)[0] == Plz(Ws(r.gpr[Rs(code)])[0])
            && Ws(d)[1] == Plz(Ws(r.gpr[Rs(code)])[1])
            && d.d1 == r.gpr[Rd(code)].d1
  {
    hide Rs, Rd, Plz;
  }

  /** PLZCW n,s; SLLV d,s,n: the shifted word is the signed word times 2^count, sign-extended. */
  lemma PlzcwThenSllv(r: Regs, plzcw: u32, sllv: u32)
    requires Op(plzcw) == 0x1c && Funct(plzcw) == 0x04 && Rd(plzcw) !in {0, Rs(plzcw)}
    requires Op(sllv) == 0 && Funct(sllv) == 0x04 && Rd(sllv) != 0
    requires Rs(sllv) == Rd(plzcw) && Rt(sllv) == Rs(plzcw)
    ensures var x, d := Low(r.gpr[Rs(plzcw)]), Exec(Exec(r, plzcw), sllv).gpr[Rd(sllv)];
            && d.d0 == Sx(Low(d))
            && S32(Low(d)) == S32(x) * Pow2(Plz(x))
  {
    hide Rs, Rt, Rd, Plz, Pow2, Low, Exec, Op, Funct;
    var x := Low(r.gpr[Rs(plzcw)]);
    CountStep(r, plzcw);
    ShiftStep(Exec(r, plzcw), sllv);
    PlzBound(x);
    ShiftByPlz(x);
    WordExtended(Exec(Exec(r, plzcw), sllv).gpr[Rd(sllv)], Shl32(x, Plz(x)));
  }

  lemma CountStep(r: Regs, code: u32)
    requires Op(code) == 0x1c && Funct(code) == 0x04 && Rd(code) != 0
    ensures var g := Exec(r, code).gpr;
            && g == r.gpr[Rd(code) := g[Rd(code)]]
            && Low(g[Rd(code)]) == Plz(Low(r.gpr[Rs(code)]))
  {
    hide Rs, Rd, Plz;
    PlzcwLanes(r, code);
  }

  lemma ShiftStep(r: Regs, code: u32)
    requires Op(code) == 0 && Funct(code) == 0x04 && Rd(code) != 0
    ensures Exec(r, code).gpr[Rd(code)].d0 == Sx(Shl32(Low(r.gpr[Rt(code)]), Low(r.gpr[Rs(code)]) % 32))
  {
    hide Rs, Rt, Rd, Shl32;
  }

  lemma WordExtended(d: Reg, w: u32)
    requires d.d0 == Sx(w)
    ensures Low(d) == w
  {
  }

  lemma PlzBound(x: u32)
    ensures Plz(x) <= 31
  {
  }
}
