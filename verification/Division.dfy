/** Signed division: what DIV leaves in HI and LO, and that the dividend can be computed back from it. */
module Division {
  import opened Words
  import opened Registers
  import opened RegisterCode
  import Alu

  /** C's signed division: the remainder is smaller than the divisor and has the sign of the dividend. */
  lemma TruncBounds(n: int, d: int)
    requires d != 0
    ensures var q, r := TruncDiv(n, d), TruncRem(n, d);
            && n == q * d + r
            && (n >= 0 ==> 0 <= r && -n <= q <= n)
            && (n <= 0 ==> r <= 0 && n <= q <= -n)
            && (d > 0 ==> -d < r < d)
            && (d < 0 ==> d < r < -d)
  {
    var m, e := if n >= 0 then n else -n, if d > 0 then d else -d;
    var q := m / e;
    Recompose(m, e);
    DivShrinks(m, e);
    DivNegative(m, e);
    assert TruncDiv(n, d) == if (n >= 0) == (d > 0) then q else -q;
    Signs(q, e, m);
  }

  lemma Signs(q: int, e: int, m: int)
    ensures (-q) * (-e) == e * q && (-q) * e == -(e * q) && q * (-e) == -(e * q) && q * e == e * q
  {
  }

  lemma DivNegative(m: int, e: int)
    requires m >= 0 && e > 0
    ensures m / (-e) == -(m / e)
  {
  }

  /** Except for the one division that traps, quotient and remainder are words, and HI and LO receive them
      sign-extended. */
  lemma QuotientFits(n: u32, d: u32)
    requires d != 0 && !DivTraps(n, d)
    ensures -0x8000_0000 <= TruncDiv(S32(n), S32(d)) < 0x8000_0000
    ensures -0x8000_0000 <= TruncRem(S32(n), S32(d)) < 0x8000_0000
    ensures Alu.DivLo(n, d) == Sx(U32(TruncDiv(S32(n), S32(d)))) && Alu.DivHi(n, d) == Sx(U32(TruncRem(S32(n), S32(d))))
  {
    hide TruncDiv, TruncRem;
    var q, r := TruncDiv(S32(n), S32(d)), TruncRem(S32(n), S32(d));
    assert -0x8000_0000 <= q < 0x8000_0000 && -0x8000_0000 <= r < 0x8000_0000 by {
      TruncBounds(S32(n), S32(d));
      if q == 0x8000_0000 {
        QuotientExact(S32(n), S32(d), q, r);
      }
    }
    NarrowSx(q);
    NarrowSx(r);
  }

  lemma NarrowSx(x: int)
    requires -0x8000_0000 <= x < 0x8000_0000
    ensures U64(x) == Sx(U32(x))
  {
  }

  lemma QuotientExact(n: int, d: int, q: int, r: int)
    requires n == q * d + r && q == 0x8000_0000 && -0x8000_0000 <= n < 0x8000_0000 && d != 0
    requires n >= 0 ==> 0 <= r
    requires n <= 0 ==> r <= 0
    requires (d > 0 ==> -d < r < d) && (d < 0 ==> d < r < -d)
    ensures d == -1 && n == -0x8000_0000
  {
    assert q * d == 0x8000_0000 * d;
  }

  predicate IsSpecial(code: u32, funct: nat) { Op(code) == 0 && Funct(code) == funct }

  /** What DIV leaves: |HI| < |Rt|, HI has the sign of the dividend, and the two rebuild it. */
  lemma DivResult(r: Regs, div: u32)
    requires IsSpecial(div, 0x1a)
    ensures var n, d, r' := S32(Low(r.gpr[Rs(div)])), S32(Low(r.gpr[Rt(div)])), Exec(r, div);
            d != 0 && !(n == -0x8000_0000 && d == -1) ==>
              var q, m := S32(Low(r'.lo)), S32(Low(r'.hi));
              && r'.gpr == r.gpr
              && n == q * d + m
              && (d > 0 ==> -d < m < d) && (d < 0 ==> d < m < -d)
              && (n >= 0 ==> m >= 0) && (n <= 0 ==> m <= 0)
  {
    hide TruncDiv, TruncRem, Rs, Rt;
    var x, y := Low(r.gpr[Rs(div)]), Low(r.gpr[Rt(div)]);
    if y != 0 && !DivTraps(x, y) {
      TruncBounds(S32(x), S32(y));
      QuotientFits(x, y);
      WordBack(TruncDiv(S32(x), S32(y)));
      WordBack(TruncRem(S32(x), S32(y)));
    }
  }

  /** The HI/LO pair of DIV and DIVU, or of DIV1 and DIVU1. */
  function LoOf(r: Regs, lane: nat): u64 { if lane == 0 then r.lo.d0 else r.lo.d1 }
  function HiOf(r: Regs, lane: nat): u64 { if lane == 0 then r.hi.d0 else r.hi.d1 }

  /** Nothing but the pair differs. */
  predicate OnlyPair(r: Regs, r': Regs, lane: nat)
  {
    && r'.gpr == r.gpr && r'.sa == r.sa
    && (if lane == 0 then r'.lo.d1 == r.lo.d1 && r'.hi.d1 == r.hi.d1 else r'.lo.d0 == r.lo.d0 && r'.hi.d0 == r.hi.d0)
  }

  predicate IsDivision(code: u32, lane: nat, unsigned: bool)
  {
    Op(code) == (if lane == 0 then 0 else 0x1c) && Funct(code) == if unsigned then 0x1b else 0x1a
  }

  /** DIVU and DIVU1 leave the quotient in LO and the remainder in HI, zero-extended; divided by zero, nothing
      changes. */
  lemma UnsignedDivResult(r: Regs, code: u32, lane: nat)
    requires lane < 2 && IsDivision(code, lane, true)
    ensures var n, d, r' := Low(r.gpr[Rs(code)]), Low(r.gpr[Rt(code)]), Exec(r, code);
            && OnlyPair(r, r', lane)
            && (d == 0 ==> r' == r)
            && (d != 0 ==> n == LoOf(r', lane) * d + HiOf(r', lane) && 0 <= HiOf(r', lane) < d)
  {
    hide Rs, Rt, Low;
    var n, d := Low(r.gpr[Rs(code)]), Low(r.gpr[Rt(code)]);
    if d != 0 {
      DivShrinks(n, d);
      Recompose(n, d);
    }
  }

  /** DIV and DIV1 likewise, signed and sign-extended, apart from the one division that traps. */
  lemma SignedDivResult(r: Regs, code: u32, lane: nat)
    requires lane < 2 && IsDivision(code, lane, false)
    ensures var n, d := S32(Low(r.gpr[Rs(code)])), S32(Low(r.gpr[Rt(code)]));
            var r' := Exec(r, code);
            && OnlyPair(r, r', lane)
            && (d == 0 ==> r' == r)
            && (EffectOf(r, code) == Trap <==> n == -0x8000_0000 && d == -1)
            && (d != 0 && !(n == -0x8000_0000 && d == -1) ==>
                  var q, m := S64(LoOf(r', lane)), S64(HiOf(r', lane));
                  && n == q * d + m
                  && (d > 0 ==> -d < m < d) && (d < 0 ==> d < m < -d)
                  && (n >= 0 ==> m >= 0) && (n <= 0 ==> m <= 0))
  {
    hide TruncDiv, TruncRem, Rs, Rt, Low, Alu.DivLo, Alu.DivHi;
    var x, y := Low(r.gpr[Rs(code)]), Low(r.gpr[Rt(code)]);
    if y != 0 && !DivTraps(x, y) {
      TruncBounds(S32(x), S32(y));
      QuotientFits(x, y);
      SignedBack(TruncDiv(S32(x), S32(y)));
      SignedBack(TruncRem(S32(x), S32(y)));
    }
  }

  lemma SignedBack(x: int)
    requires -0x8000_0000 <= x < 0x8000_0000
    ensures S64(Sx(U32(x))) == x
  {
  }

  lemma WordBack(x: int)
    requires -0x8000_0000 <= x < 0x8000_0000
    ensures Sx(U32(x)) % TWO32 == U32(x) && S32(U32(x)) == x
  {
  }

  /** DIV s,t; MFLO q; MFHI h; MULT m,q,t; ADDU o,m,h computes s again, sign-extended, for every divisor but zero and
      every dividend but the one that traps. The scratch registers must not overwrite what is still needed. */
  lemma DivisionReconstructs(r: Regs, div: u32, mflo: u32, mfhi: u32, mult: u32, addu: u32)
    requires IsSpecial(div, 0x1a) && IsSpecial(mflo, 0x12) && IsSpecial(mfhi, 0x10)
    requires IsSpecial(mult, 0x18) && IsSpecial(addu, 0x21)
    requires Rs(mult) == Rd(mflo) && Rt(mult) == Rt(div) && Rs(addu) == Rd(mult) && Rt(addu) == Rd(mfhi)
    requires Rd(mflo) !in {0, Rt(div)}
    requires Rd(mfhi) !in {0, Rt(div), Rd(mflo)}
    requires Rd(mult) !in {0, Rd(mfhi)} && Rd(addu) != 0
    requires Low(r.gpr[Rt(div)]) != 0 && !DivTraps(Low(r.gpr[Rs(div)]), Low(r.gpr[Rt(div)]))
    ensures ExecAll(r, [div, mflo, mfhi, mult, addu]).gpr[Rd(addu)].d0 == Sx(Low(r.gpr[Rs(div)]))
  {
    hide Rs, Rt, Rd, Op, Funct, TruncDiv, TruncRem, ExecAll, Exec, Low, Alu.DivLo, Alu.DivHi;
    var x, y := Low(r.gpr[Rs(div)]), Low(r.gpr[Rt(div)]);
    var q, m := TruncDiv(S32(x), S32(y)), TruncRem(S32(x), S32(y));
    QuotientFits(x, y);
    FiveSteps(r, div, mflo, mfhi, mult, addu);
    var r1 := Exec(r, div);
    DivStep(r, div);
    var r2 := Exec(r1, mflo);
    MoveStep(r1, mflo);
    LowOf(r2.gpr[Rd(mflo)], U32(q));
    var r3 := Exec(r2, mfhi);
    MoveStep(r2, mfhi);
    LowOf(r3.gpr[Rd(mfhi)], U32(m));
    var r4 := Exec(r3, mult);
    MultStep(r3, mult);
    AddStep(r4, addu);
    Rebuild(x, y, r4.gpr[Rd(mult)]);
  }

  /** The product of the quotient, as a word, and the divisor, plus the remainder. */
  lemma Rebuild(x: u32, y: u32, product: Reg)
    requires y != 0 && !DivTraps(x, y)
    requires product.d0 == Sx(U32(S32(U32(TruncDiv(S32(x), S32(y)))) * S32(y)))
    ensures U32(S32(Low(product)) + S32(U32(TruncRem(S32(x), S32(y))))) == x
  {
    hide TruncDiv, TruncRem, Low;
    var q, m := TruncDiv(S32(x), S32(y)), TruncRem(S32(x), S32(y));
    QuotientFits(x, y);
    TruncBounds(S32(x), S32(y));
    WordBack(q);
    LowOf(product, U32(q * S32(y)));
    SumOfWords(q * S32(y), m, x);
  }

  lemma LowOf(r: Reg, w: u32)
    requires r.d0 == Sx(w)
    ensures Low(r) == w
  {
  }

  lemma SumOfWords(p: int, m: int, x: u32)
    requires p + m == S32(x)
    ensures U32(S32(U32(p)) + S32(U32(m))) == x
  {
    var a, b := U32(p), U32(m);
    assert p == a + TWO32 * (p / TWO32) && m == b + TWO32 * (m / TWO32);
  }

  lemma FiveSteps(r: Regs, a: u32, b: u32, c: u32, d: u32, e: u32)
    ensures ExecAll(r, [a, b, c, d, e]) == Exec(Exec(Exec(Exec(Exec(r, a), b), c), d), e)
  {
    hide Exec;
    assert [] + [a] == [a] && [a] + [b] == [a, b] && [a, b] + [c] == [a, b, c];
    assert [a, b, c] + [d] == [a, b, c, d] && [a, b, c, d] + [e] == [a, b, c, d, e];
    OneMore(r, [], a);
    OneMore(r, [a], b);
    OneMore(r, [a, b], c);
    OneMore(r, [a, b, c], d);
    OneMore(r, [a, b, c, d], e);
  }

  lemma OneMore(r: Regs, codes: seq<u32>, code: u32)
    ensures ExecAll(r, codes + [code]) == Exec(ExecAll(r, codes), code)
  {
    hide Exec;
    assert (codes + [code])[..|codes|] == codes;
  }

  lemma DivStep(r: Regs, div: u32)
    requires IsSpecial(div, 0x1a)
    requires Low(r.gpr[Rt(div)]) != 0 && !DivTraps(Low(r.gpr[Rs(div)]), Low(r.gpr[Rt(div)]))
    ensures var r' := Exec(r, div);
            && r'.gpr == r.gpr
            && r'.lo.d0 == Alu.DivLo(Low(r.gpr[Rs(div)]), Low(r.gpr[Rt(div)]))
            && r'.hi.d0 == Alu.DivHi(Low(r.gpr[Rs(div)]), Low(r.gpr[Rt(div)]))
  {
    hide Rs, Rt, Alu.DivLo, Alu.DivHi, DivTraps, Low;
  }

  lemma MoveStep(r: Regs, code: u32)
    requires IsSpecial(code, 0x12) || IsSpecial(code, 0x10)
    ensures var v := if Funct(code) == 0x12 then r.lo.d0 else r.hi.d0;
            Exec(r, code) == r.(gpr := SetGpr(r.gpr, Rd(code), r.gpr[Rd(code)].(d0 := v)))
  {
    hide Rd;
  }

  lemma MultStep(r: Regs, code: u32)
    requires IsSpecial(code, 0x18)
    ensures var p := S32(Low(r.gpr[Rs(code)])) * S32(Low(r.gpr[Rt(code)]));
            Exec(r, code).gpr == SetGpr(r.gpr, Rd(code), r.gpr[Rd(code)].(d0 := Sx(U32(p))))
  {
    hide Rs, Rt, Rd, Low;
  }

  lemma AddStep(r: Regs, code: u32)
    requires IsSpecial(code, 0x21)
    ensures var v := Sx(U32(S32(Low(r.gpr[Rs(code)])) + S32(Low(r.gpr[Rt(code)]))));
            Exec(r, code).gpr == SetGpr(r.gpr, Rd(code), r.gpr[Rd(code)].(d0 := v))
  {
    hide Rs, Rt, Rd, Low;
  }
}
