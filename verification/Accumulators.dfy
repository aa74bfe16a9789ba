/** The two 64-bit accumulators that MULT, MADD and their "1" forms keep in HI and LO. */
module Accumulators {
  import opened Words
  import opened Registers
  import opened Mmi
  import opened RegisterCode

  predicate IsPmadduw(code: u32) { Op(code) == 0x1c && Funct(code) == 0x29 && Sa(code) == 0 }

  /** MULT, MULTU, MADD, MADDU and their "1" forms. */
  predicate IsProduct(code: u32)
  {
    || (Op(code) == 0 && Funct(code) in {0x18, 0x19})
    || (Op(code) == 0x1c && Funct(code) in {0x00, 0x01, 0x18, 0x19, 0x20, 0x21})
  }

  /** These and PMADDUW, with rd = 0. */
  predicate IsAccumulation(code: u32) { Rd(code) == 0 && (IsProduct(code) || IsPmadduw(code)) }

  /** The pair that an instruction other than PMADDUW works on. */
  function Lane(code: u32): (l: nat)
    ensures l < 2
  {
    if Op(code) == 0x1c && Funct(code) >= 0x18 then 1 else 0
  }

  predicate Feeds(code: u32, lane: nat) { IsPmadduw(code) || Lane(code) == lane }

  predicate Restarts(code: u32) { Funct(code) in {0x18, 0x19} }

  /** What an instruction multiplies for a lane that it feeds. */
  function Product(r: Regs, code: u32, lane: nat): int
    requires lane < 2
  {
    var s, t := r.gpr[Rs(code)], r.gpr[Rt(code)];
    if IsPmadduw(code) then Ws(s)[2 * lane] as int * Ws(t)[2 * lane]
    else if Funct(code) % 2 == 0 then S32(Low(s)) * S32(Low(t))
    else Low(s) as int * Low(t)
  }

  /** The sum of a lane's products, without any wrap-around. */
  function Sum(r: Regs, codes: seq<u32>, lane: nat): int
    requires lane < 2
  {
    if codes == [] then 0
    else
      var c := codes[|codes| - 1];
      Sum(r, codes[..|codes| - 1], lane) + if Feeds(c, lane) then Product(r, c, lane) else 0
  }

  lemma SplitJoins(r: Regs, lane: nat, x: int, rd: Index)
    requires lane < 2
    ensures var r' := Apply(r, Accumulate(r, lane, rd, x));
            Acc(r', lane) == U64(x) && Acc(r', 1 - lane) == Acc(r, 1 - lane)
  {
    SplitValue(x);
  }

  /** Low and high part of a number, put together again. */
  lemma SplitValue(x: int)
    ensures LoPart(x) % TWO32 + TWO32 * (HiPart(x) % TWO32) == U64(x)
  {
    hide U32, U64;
    SxLow(U32(x));
    SxLow(U32(x / TWO32));
    Digits(x);
  }

  lemma SxLow(a: u32)
    ensures Sx(a) % TWO32 == a
  {
  }

  lemma Digits(x: int)
    ensures U64(x) == U32(x) + TWO32 * U32(x / TWO32)
  {
    var q := x / TWO32;
    var h := q / TWO32;
    assert x == U32(x) + TWO32 * q && q == U32(q) + TWO32 * h;
    assert x == (U32(x) + TWO32 * U32(q)) + TWO64 * h;
  }

  lemma WrapAdd(x: int, y: int)
    ensures U64(U64(x) + y) == U64(x + y)
    ensures U64(U64(x)) == U64(x)
  {
    var q := x / TWO64;
    assert x == U64(x) + TWO64 * q;
    assert (U64(x) + y + TWO64 * q) % TWO64 == (U64(x) + y) % TWO64;
  }

  lemma Accumulation(r: Regs, code: u32, lane: nat)
    requires IsAccumulation(code) && lane < 2
    ensures Exec(r, code).gpr == r.gpr
    ensures Acc(Exec(r, code), lane) ==
              if !Feeds(code, lane) then Acc(r, lane)
              else if Restarts(code) then U64(Product(r, code, lane))
              else U64(Acc(r, lane) + Product(r, code, lane))
  {
    hide Acc, LoPart, HiPart, Rs, Rt, Rd, Op, Funct, Sa, Product;
    if IsPmadduw(code) {
      PmadduwAddsToBoth(r, code, lane);
      PmadduwProduct(r, code, lane);
    } else {
      var l, p := Lane(code), Product(r, code, Lane(code));
      var x := if Restarts(code) then p else U64(Acc(r, l) + p);
      ProductEffect(r, code);
      SplitJoins(r, l, x, 0);
      WrapAdd(Acc(r, l) + p, 0);
      if lane != l {
        assert lane == 1 - l;
      }
    }
  }

  lemma PmadduwProduct(r: Regs, code: u32, lane: nat)
    requires IsPmadduw(code) && lane < 2
    ensures Product(r, code, lane) == Ws(r.gpr[Rs(code)])[2 * lane] as int * Ws(r.gpr[Rt(code)])[2 * lane]
    ensures !Restarts(code)
  {
  }

  /** MTHI1 then MFHI1, and MTLO1 then MFLO1, move the low double word of Rs to that of Rd, through the upper half of
      HI or LO and touching nothing else of it. */
  lemma UpperMoves(r: Regs, to: u32, from: u32)
    requires Op(to) == Op(from) == 0x1c && (Funct(to), Funct(from)) in {(0x11, 0x10), (0x13, 0x12)}
    ensures var r', r'', x := Exec(r, to), Exec(Exec(r, to), from), r.gpr[Rs(to)].d0;
            && r' == (if Funct(to) == 0x11 then r.(hi := Reg(r.hi.d0, x)) else r.(lo := Reg(r.lo.d0, x)))
            && r'' == r'.(gpr := SetGpr(r.gpr, Rd(from), Reg(x, r.gpr[Rd(from)].d1)))
  {
    hide Rs, Rd;
  }

  predicate IsExtended(x: u64) { x == Sx(x % TWO32) }

  /** What one of the eight instructions, for any rd, leaves in the registers: the halves of HI and LO that it works on
      are sign-extended words, Rd gets the one of LO, and nothing else changes. */
  lemma ProductRegisters(r: Regs, code: u32)
    requires IsProduct(code)
    ensures var r', l := Exec(r, code), Lane(code);
            var lo, hi := if l == 0 then r'.lo.d0 else r'.lo.d1, if l == 0 then r'.hi.d0 else r'.hi.d1;
            && Acc(r', l) == U64(if Restarts(code) then Product(r, code, l) else Acc(r, l) + Product(r, code, l))
            && Acc(r', 1 - l) == Acc(r, 1 - l)
            && IsExtended(lo) && IsExtended(hi)
            && (if l == 0 then r'.lo.d1 == r.lo.d1 && r'.hi.d1 == r.hi.d1
                else r'.lo.d0 == r.lo.d0 && r'.hi.d0 == r.hi.d0)
            && r' == r.(lo := r'.lo, hi := r'.hi, gpr := SetGpr(r.gpr, Rd(code), r.gpr[Rd(code)].(d0 := lo)))
  {
    hide Acc, LoPart, HiPart, Rs, Rt, Rd, Op, Funct, Sa, Product, EffectOf, IsExtended, U64;
    var l, p := Lane(code), Product(r, code, Lane(code));
    var x := if Restarts(code) then p else U64(Acc(r, l) + p);
    ProductEffect(r, code);
    SplitJoins(r, l, x, Rd(code));
    PartsExtended(x);
    WrapAdd(Acc(r, l) + p, 0);
  }

  lemma PartsExtended(x: int)
    ensures IsExtended(LoPart(x)) && IsExtended(HiPart(x))
  {
    SxLow(U32(x));
    SxLow(U32(x / TWO32));
  }

  lemma ProductEffect(r: Regs, code: u32)
    requires IsProduct(code)
    ensures var l, p := Lane(code), Product(r, code, Lane(code));
            EffectOf(r, code) == Accumulate(r, l, Rd(code), if Restarts(code) then p else U64(Acc(r, l) + p))
  {
    hide Acc, Low, Rs, Rt, Rd, LoPart, HiPart;
  }

  /** For any interleaving of the nine instructions: as long as a lane is not restarted, it holds its initial value
      plus the sum of its own products, modulo 2^64, whatever the other lane does. */
  lemma {:induction false} LaneSums(r: Regs, codes: seq<u32>, lane: nat)
    requires lane < 2 && forall c :: c in codes ==> IsAccumulation(c)
    requires forall c :: c in codes && Feeds(c, lane) ==> !Restarts(c)
    ensures ExecAll(r, codes).gpr == r.gpr
    ensures Acc(ExecAll(r, codes), lane) == U64(Acc(r, lane) + Sum(r, codes, lane))
    decreases |codes|
  {
    hide Acc, Exec, Feeds, Restarts, IsAccumulation, Product;
    if codes == [] {
    } else {
      var n := |codes| - 1;
      var pre, c := codes[..n], codes[n];
      LaneSums(r, pre, lane);
      Accumulation(ExecAll(r, pre), c, lane);
      SameProduct(ExecAll(r, pre), r, c, lane);
      WrapAdd(Acc(r, lane) + Sum(r, pre, lane), Product(r, c, lane));
    }
  }

  lemma SameProduct(r: Regs, r': Regs, code: u32, lane: nat)
    requires r.gpr == r'.gpr && lane < 2
    ensures Product(r, code, lane) == Product(r', code, lane)
  {
  }

  /** After its last MULT or MULTU a lane holds that product plus the sum of its later ones. */
  lemma LaneRestarts(r: Regs, before: seq<u32>, mult: u32, after: seq<u32>, lane: nat)
    requires lane < 2 && IsAccumulation(mult) && Feeds(mult, lane) && Restarts(mult)
    requires forall c :: c in before ==> IsAccumulation(c)
    requires forall c :: c in after ==> IsAccumulation(c) && (Feeds(c, lane) ==> !Restarts(c))
    ensures Acc(ExecAll(r, before + [mult] + after), lane) == U64(Product(r, mult, lane) + Sum(r, after, lane))
  {
    hide Acc, Exec, Feeds, Restarts, IsAccumulation, Product, Sum;
    var r1 := ExecAll(r, before);
    ExecAllGpr(r, before);
    Accumulation(r1, mult, lane);
    var r2 := Exec(r1, mult);
    LaneSums(r2, after, lane);
    assert before == (before + [mult])[..|before|];
    ExecAllConcat(r, before + [mult], after);
    SameProduct(r, r1, mult, lane);
    SameSum(r2, r, after, lane);
    WrapAdd(Product(r, mult, lane), Sum(r, after, lane));
  }

  lemma {:induction false} ExecAllGpr(r: Regs, codes: seq<u32>)
    requires forall c :: c in codes ==> IsAccumulation(c)
    ensures ExecAll(r, codes).gpr == r.gpr
    decreases |codes|
  {
    hide Exec, IsAccumulation;
    if codes == [] {
    } else {
      ExecAllGpr(r, codes[..|codes| - 1]);
      Accumulation(ExecAll(r, codes[..|codes| - 1]), codes[|codes| - 1], 0);
    }
  }

  lemma {:induction false} SameSum(r: Regs, r': Regs, codes: seq<u32>, lane: nat)
    requires r.gpr == r'.gpr && lane < 2
    ensures Sum(r, codes, lane) == Sum(r', codes, lane)
    decreases |codes|
  {
    hide Product;
    if codes == [] {
    } else {
      SameSum(r, r', codes[..|codes| - 1], lane);
      SameProduct(r, r', codes[|codes| - 1], lane);
    }
  }

  /** PMADDUW adds to both accumulators at once, and Rd receives the two full sums. */
  lemma PmadduwAddsToBoth(r: Regs, code: u32, lane: nat)
    requires IsPmadduw(code) && lane < 2
    ensures Exec(r, code).gpr == SetGpr(r.gpr, Rd(code), Exec(r, code).gpr[Rd(code)])
    ensures var r' := Exec(r, code);
            IsExtended(r'.lo.d0) && IsExtended(r'.lo.d1) && IsExtended(r'.hi.d0) && IsExtended(r'.hi.d1)
    ensures var r' := Exec(r, code);
            var sum := U64(Acc(r, lane) + Ws(r.gpr[Rs(code)])[2 * lane] as int * Ws(r.gpr[Rt(code)])[2 * lane]);
            && Acc(r', lane) == sum
            && (Rd(code) != 0 ==> sum == if lane == 0 then r'.gpr[Rd(code)].d0 else r'.gpr[Rd(code)].d1)
  {
    hide Rs, Rt, Rd, LoPart, HiPart, Acc, Ws;
    var s, t := Ws(r.gpr[Rs(code)]), Ws(r.gpr[Rt(code)]);
    var x0, x1 := U64(Acc(r, 0) + s[0] as int * t[0]), U64(Acc(r, 1) + s[2] as int * t[2]);
    assert EffectOf(r, code) == Both(r, Rd(code), x0, x1);
    BothHolds(r, Rd(code), x0, x1);
    PartsExtended(x0);
    PartsExtended(x1);
  }

  lemma BothHolds(r: Regs, rd: Index, x0: u64, x1: u64)
    ensures var r' := Apply(r, Both(r, rd, x0, x1));
            && Acc(r', 0) == x0 && Acc(r', 1) == x1
            && (rd != 0 ==> r'.gpr[rd] == Reg(x0, x1))
  {
    hide LoPart, HiPart;
    SplitValue(x0);
    SplitValue(x1);
  }

  /** PMADDW and PMSUBW read LO sign-extended and or it over HI: they add to or subtract from the accumulator exactly
      when its low word is not negative, or its high word is all ones anyway. */
  lemma PmaddwAddsIff(r: Regs, code: u32, lane: nat)
    requires Op(code) == 0x1c && Funct(code) == 0x09 && Sa(code) in {0, 4} && lane < 2
    ensures var r', acc := Exec(r, code), Acc(r, lane);
            var product := S32(Ws(r.gpr[Rs(code)])[2 * lane]) * S32(Ws(r.gpr[Rt(code)])[2 * lane]);
            && (Acc(r', lane) == U64(if Sa(code) == 0 then acc + product else acc - product) <==>
                  Ws(r.lo)[2 * lane] < 0x8000_0000 || Ws(r.hi)[2 * lane] == 0xffff_ffff)
            && (Rd(code) != 0 ==> Acc(r', lane) == if lane == 0 then r'.gpr[Rd(code)].d0 else r'.gpr[Rd(code)].d1)
  {
    hide Rs, Rt, Rd, LoPart, HiPart, Acc, SignedAcc, Ws, U64;
    var s, t := Ws(r.gpr[Rs(code)]), Ws(r.gpr[Rt(code)]);
    var p0, p1 := S32(s[0]) * S32(t[0]), S32(s[2]) * S32(t[2]);
    var d0, d1 := if Sa(code) == 0 then p0 else -p0, if Sa(code) == 0 then p1 else -p1;
    var x0, x1 := U64(SignedAcc(r, 0) + d0), U64(SignedAcc(r, 1) + d1);
    assert EffectOf(r, code) == Both(r, Rd(code), x0, x1);
    BothHolds(r, Rd(code), x0, x1);
    SignedAccIff(r, lane);
    WrappedSumsDiffer(SignedAcc(r, lane), Acc(r, lane), if lane == 0 then d0 else d1);
  }

  /** PMADDW of zeros onto a small accumulator whose low word is negative: it is not left alone. */
  lemma PmaddwMisreads() returns (r: Regs, code: u32)
    ensures Op(code) == 0x1c && Funct(code) == 0x09 && Sa(code) == 0
    ensures Acc(r, 0) == 0x8000_0000 && r.gpr[Rs(code)] == r.gpr[Rt(code)] == ZERO
    ensures Acc(Exec(r, code), 0) != Acc(r, 0)
  {
    hide Exec;
    r := Regs(seq(32, _ => ZERO), ZERO, Reg(0x8000_0000, 0), 0);
    code := 0x7000_0009;
    PmaddwAddsIff(r, code, 0);
  }

  lemma WrappedSumsDiffer(x: u64, y: u64, d: int)
    ensures U64(x + d) == U64(y + d) <==> x == y
  {
    var q, p := (x + d) / TWO64, (y + d) / TWO64;
    assert x + d == U64(x + d) + TWO64 * q && y + d == U64(y + d) + TWO64 * p;
  }

  lemma SignedAccIff(r: Regs, lane: nat)
    requires lane < 2
    ensures SignedAcc(r, lane) == Acc(r, lane) <==>
              Ws(r.lo)[2 * lane] < 0x8000_0000 || Ws(r.hi)[2 * lane] == 0xffff_ffff
  {
    hide Ws, Bitwise, Pow2;
    var lo, hi := Ws(r.lo)[2 * lane], Ws(r.hi)[2 * lane];
    Pow2Values();
    ShiftedWord(hi);
    var ones := if lo < 0x8000_0000 then 0 else TWO32 - 1;
    assert Sx(lo) == lo + TWO32 * ones;
    BitwiseSplit(Or, 32, lo, ones, 0, hi);
    BitwiseZero(lo);
    BitwiseZero(hi);
    BitwiseOnes(32, hi);
  }

  lemma ShiftedWord(w: u32)
    ensures Shl64(Sx(w), 32) == 0 + TWO32 * w
  {
    hide Pow2;
    Pow2Values();
    var k := if w < 0x8000_0000 then 0 else 0xffff_ffff;
    assert Sx(w) * TWO32 == TWO32 * w + TWO64 * k;
  }
}
