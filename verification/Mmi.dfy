/** The 128-bit multimedia handlers of MMI.c, each as an effect on the register file. */
module Mmi {
  import opened Words
  import opened Registers
  import opened Alu

  // ----- The second HI/LO pair and the accumulators -----

  /** The 64-bit accumulator of pipeline 0 or 1: the low words of LO and HI, or of their upper halves. */
  function Acc(r: Regs, lane: nat): u64
    requires lane < 2
  {
    Ws(r.lo)[2 * lane] as int + TWO32 * Ws(r.hi)[2 * lane]
  }

  /** Stores a 64-bit result in the pair of the given lane and its low part in `UD[0]` of rd. */
  function Accumulate(r: Regs, lane: nat, rd: Index, x: int): Effect
    requires lane < 2
  {
    if lane == 0 then Multiply(r, rd, x)
    else Write(rd, r.gpr[rd].(d0 := LoPart(x)), r.hi.(d1 := HiPart(x)), r.lo.(d1 := LoPart(x)))
  }

  function Divide1(r: Regs, n: u32, d: u32): Effect
  {
    if d == 0 then Write(0, r.gpr[0], r.hi, r.lo)
    else if DivTraps(n, d) then Trap
    else Write(0, r.gpr[0], r.hi.(d1 := DivHi(n, d)), r.lo.(d1 := DivLo(n, d)))
  }

  function DivideUnsigned1(r: Regs, n: u32, d: u32): Effect
  {
    if d == 0 then Write(0, r.gpr[0], r.hi, r.lo)
    else
      DivShrinks(n, d);
      Write(0, r.gpr[0], r.hi.(d1 := n % d), r.lo.(d1 := n / d))
  }

  // ----- PLZCW -----

  function BitAt(x: u32, i: nat): u32 { DivShrinks(x, Pow2(i)); x / Pow2(i) % 2 }

  /** The counting loop, entered at bit i: it stops at the first bit that differs from bit 31. */
  function SignRun(x: u32, i: int): (n: u32)
    requires -1 <= i <= 30
    ensures 30 - i <= n <= 31
    decreases i + 1
  {
    if i >= 0 && BitAt(x, i) == BitAt(x, 31) then SignRun(x, i - 1) else 30 - i
  }

  function Plz(x: u32): (n: u32)
    ensures n <= 31
  {
    SignRun(x, 30)
  }

  function Plzcw(s: Reg, d: Reg): Reg
  {
    OfWs([Plz(Ws(s)[0]), Plz(Ws(s)[1]), Ws(d)[2], Ws(d)[3]])
  }

  // ----- Handlers that read a source while rd, perhaps the same register, is being written -----

  /** What such a handler works on: the current contents of Rs, Rt, Rd, HI and LO, and whether Rd is Rs or Rt. */
  datatype Live = Live(s: Reg, t: Reg, d: Reg, hi: Reg, lo: Reg, isS: bool, isT: bool)
  {
    /** Assigns Rd, seen at once through every name of it; nothing is written when Rd is register 0. */
    function SetD(v: Reg, zero: bool): Live
    {
      if zero then this else this.(d := v, s := if isS then v else s, t := if isT then v else t)
    }
  }

  function LiveOf(r: Regs, code: u32): Live
  {
    Live(r.gpr[Rs(code)], r.gpr[Rt(code)], r.gpr[Rd(code)], r.hi, r.lo, Rd(code) == Rs(code), Rd(code) == Rt(code))
  }

  function Finish(l: Live, rd: Index): Effect { Write(rd, l.d, l.hi, l.lo) }

  datatype Mac = Add | Sub | Set

  /** Step n of PMADDH, PMSUBH or PMULTH: the product of half words n goes to an accumulator word, and for an even n
      also to word n / 2 of Rd. */
  function HalfMac(l: Live, kind: Mac, n: nat, zero: bool): Live
    requires n < 8
  {
    var inLo, w := n / 2 % 2 == 0, n / 4 * 2 + n % 2;
    var acc := Ws(if inLo then l.lo else l.hi);
    var product := S16(Hs(l.s)[n]) * S16(Hs(l.t)[n]);
    var v := match kind
      case Add => U32(acc[w] + product)
      case Sub => U32(acc[w] - product)
      case Set => U32(product);
    var r := OfWs(acc[w := v]);
    var l' := if inLo then l.(lo := r) else l.(hi := r);
    if n % 2 == 0 then l'.SetD(OfWs(Ws(l.d)[n / 2 := v]), zero) else l'
  }

  function HalfMacs(l: Live, kind: Mac, zero: bool): Live
  {
    var l := HalfMac(HalfMac(HalfMac(HalfMac(l, kind, 0, zero), kind, 1, zero), kind, 2, zero), kind, 3, zero);
    HalfMac(HalfMac(HalfMac(HalfMac(l, kind, 4, zero), kind, 5, zero), kind, 6, zero), kind, 7, zero)
  }

  /** A block of PHMADH or PHMSBH: half words n and n + 1 into word w of LO or HI and word rdd of Rd. */
  function HorizontalMac(l: Live, minus: bool, inLo: bool, w: nat, n: nat, rdd: nat, zero: bool): Live
    requires w < 4 && n < 7 && rdd < 4
  {
    var high, low := S16(Hs(l.s)[n + 1]) * S16(Hs(l.t)[n + 1]), S16(Hs(l.s)[n]) * S16(Hs(l.t)[n]);
    var v := U32(if minus then high - low else high + low);
    var l' := if inLo then l.(lo := OfWs(Ws(l.lo)[w := v])) else l.(hi := OfWs(Ws(l.hi)[w := v]));
    l'.SetD(OfWs(Ws(l.d)[rdd := v]), zero)
  }

  /** The shift of QFSRV, with C's assignments in order. The host does not define a shift by 64 or more. */
  function Qfsrv(l: Live, sa: u32, zero: bool): Option<Live>
  {
    if zero then Some(l)
    else if sa == 0 then
      var l := l.SetD(l.d.(d0 := l.t.d0), false);
      Some(l.SetD(l.d.(d1 := l.t.d1), false))
    else if sa < 64 then
      var l := l.SetD(l.d.(d0 := Shr64(l.t.d0, sa)), false);
      var l := l.SetD(l.d.(d1 := Shr64(l.t.d1, sa)), false);
      var l := l.SetD(l.d.(d0 := Or64(l.d.d0, Shl64(l.t.d1, 64 - sa))), false);
      Some(l.SetD(l.d.(d1 := Or64(l.d.d1, Shl64(l.s.d0, 64 - sa))), false))
    else if 64 < sa < 128 then
      var l := l.SetD(l.d.(d0 := Shr64(l.t.d1, sa - 64)), false);
      var l := l.SetD(l.d.(d1 := Shr64(l.s.d0, sa - 64)), false);
      var l := l.SetD(l.d.(d0 := Or64(l.d.d0, Shl64(l.s.d0, 128 - sa))), false);
      Some(l.SetD(l.d.(d1 := Or64(l.d.d1, Shl64(l.s.d1, 128 - sa))), false))
    else None
  }

  // ----- Interleave, pack and permute -----

  function Pextlw(s: Reg, t: Reg): Reg { var s, t := Ws(s), Ws(t); OfWs([t[0], s[0], t[1], s[1]]) }
  function Pextuw(s: Reg, t: Reg): Reg { var s, t := Ws(s), Ws(t); OfWs([t[2], s[2], t[3], s[3]]) }
  function Ppacw(s: Reg, t: Reg): Reg { var s, t := Ws(s), Ws(t); OfWs([t[0], t[2], s[0], s[2]]) }

  function Pextlh(s: Reg, t: Reg): Reg
  {
    var s, t := Hs(s), Hs(t);
    OfHs([t[0], s[0], t[1], s[1], t[2], s[2], t[3], s[3]])
  }

  function Pextuh(s: Reg, t: Reg): Reg
  {
    var s, t := Hs(s), Hs(t);
    OfHs([t[4], s[4], t[5], s[5], t[6], s[6], t[7], s[7]])
  }

  function Ppach(s: Reg, t: Reg): Reg
  {
    var s, t := Hs(s), Hs(t);
    OfHs([t[0], t[2], t[4], t[6], s[0], s[2], s[4], s[6]])
  }

  function Pextlb(s: Reg, t: Reg): Reg
  {
    var s, t := Bs(s), Bs(t);
    OfBs([t[0], s[0], t[1], s[1], t[2], s[2], t[3], s[3], t[4], s[4], t[5], s[5], t[6], s[6], t[7], s[7]])
  }

  function Pextub(s: Reg, t: Reg): Reg
  {
    var s, t := Bs(s), Bs(t);
    OfBs([t[8], s[8], t[9], s[9], t[10], s[10], t[11], s[11], t[12], s[12], t[13], s[13], t[14], s[14], t[15], s[15]])
  }

  function Ppacb(s: Reg, t: Reg): Reg
  {
    var s, t := Bs(s), Bs(t);
    OfBs([t[0], t[2], t[4], t[6], t[8], t[10], t[12], t[14], s[0], s[2], s[4], s[6], s[8], s[10], s[12], s[14]])
  }

  function Pinth(s: Reg, t: Reg): Reg
  {
    var s, t := Hs(s), Hs(t);
    OfHs([t[0], s[4], t[1], s[5], t[2], s[6], t[3], s[7]])
  }

  function Pinteh(s: Reg, t: Reg): Reg
  {
    var s, t := Hs(s), Hs(t);
    OfHs([t[0], s[0], t[2], s[2], t[4], s[4], t[6], s[6]])
  }

  function Pexeh(t: Reg): Reg { var t := Hs(t); OfHs([t[2], t[1], t[0], t[3], t[6], t[5], t[4], t[7]]) }
  function Prevh(t: Reg): Reg { var t := Hs(t); OfHs([t[3], t[2], t[1], t[0], t[7], t[6], t[5], t[4]]) }
  function Pexch(t: Reg): Reg { var t := Hs(t); OfHs([t[0], t[2], t[1], t[3], t[4], t[6], t[5], t[7]]) }
  function Pcpyh(t: Reg): Reg { var t := Hs(t); OfHs([t[0], t[0], t[0], t[0], t[4], t[4], t[4], t[4]]) }
  function Pexew(t: Reg): Reg { var t := Ws(t); OfWs([t[2], t[1], t[0], t[3]]) }
  function Prot3w(t: Reg): Reg { var t := Ws(t); OfWs([t[1], t[2], t[0], t[3]]) }
  function Pexcw(t: Reg): Reg { var t := Ws(t); OfWs([t[0], t[2], t[1], t[3]]) }

  /** 1:5:5:5 pixels to 8:8:8:8 and back, word by word. */
  function Ext5(x: u32): u32
  {
    x % 0x20 * 0x8 + x / 0x20 % 0x20 * 0x800 + x / 0x400 % 0x20 * 0x8_0000 + x / 0x8000 % 2 * 0x8000_0000
  }

  function Pac5(x: u32): u32
  {
    x / 0x8 % 0x20 + x / 0x800 % 0x20 * 0x20 + x / 0x8_0000 % 0x20 * 0x400 + x / 0x8000_0000 % 2 * 0x8000
  }

  // ----- Saturating lanes, as coded: the lower clamp of the signed ones is never reached -----

  function AddSignedW(x: u32, y: u32): u32
  {
    var v := S32(x) + S32(y);
    if v > 0x7fff_ffff then 0x7fff_ffff else U32(v)
  }

  function SubSignedW(x: u32, y: u32): u32
  {
    var v := x as int - y;
    if v >= 0x7fff_ffff then 0x7fff_ffff else U32(v)
  }

  function AddSignedH(x: u16, y: u16): u16
  {
    var v := S16(x) + S16(y);
    if v > 0x7fff then 0x7fff else U16(v)
  }

  function SubSignedH(x: u16, y: u16): u16
  {
    var v := S16(x) - S16(y);
    if v >= 0x7fff then 0x7fff else U16(v)
  }

  function AddSignedB(x: u8, y: u8): u8
  {
    var v := S8(x) + S8(y);
    if v > 0x7f then 0x7f else U8(v)
  }

  function SubSignedB(x: u8, y: u8): u8
  {
    var v := S8(x) - S8(y);
    if v >= 0x7f then 0x7f else U8(v)
  }

  function AddUnsignedW(x: u32, y: u32): u32 { if x as int + y > 0xffff_ffff then 0xffff_ffff else x + y }
  function SubUnsignedW(x: u32, y: u32): u32 { if x as int - y <= 0 then 0 else x - y }
  function AddUnsignedH(x: u16, y: u16): u16 { if x as int + y > 0xffff then 0xffff else x + y }
  function SubUnsignedH(x: u16, y: u16): u16 { if x as int - y <= 0 then 0 else x - y }
  function AddUnsignedB(x: u8, y: u8): u8 { if x as int + y > 0xff then 0xff else x + y }
  function SubUnsignedB(x: u8, y: u8): u8 { if x as int - y <= 0 then 0 else x - y }

  function Abs(x: int): int { if x < 0 then -x else x }

  /** PMFHL.SH and PMFHL.SLW compare unsigned, so only two results are possible. */
  function ClampH(x: u32): u16 { if x > 0x7fff then 0x7fff else if x < 0xffff_8000 then 0x8000 else U16(x) }

  function ClampW(acc: u64): u64
  {
    if acc >= 0x7fff_ffff then 0x7fff_ffff
    else if acc <= 0xffff_ffff_8000_0000 then 0xffff_ffff_8000_0000
    else Sx(U32(acc))
  }

  // ----- The five dispatch tables -----

  function Pmfhl(r: Regs, code: u32): Effect
  {
    var rd := Rd(code);
    var lw, hw := Ws(r.lo), Ws(r.hi);
    match Sa(code)
    case 0 => ToReg(r, rd, OfWs([lw[0], hw[0], lw[2], hw[2]]))
    case 1 => ToReg(r, rd, OfWs([lw[1], hw[1], lw[3], hw[3]]))
    case 2 => ToReg(r, rd, Reg(ClampW(Acc(r, 0)), ClampW(Acc(r, 1))))
    case 3 =>
      var lh, hh := Hs(r.lo), Hs(r.hi);
      ToReg(r, rd, OfHs([lh[0], lh[2], hh[0], hh[2], lh[4], lh[6], hh[4], hh[6]]))
    case 4 =>
      ToReg(r, rd, OfHs([ClampH(lw[0]), ClampH(lw[1]), ClampH(hw[0]), ClampH(hw[1]),
                         ClampH(lw[2]), ClampH(lw[3]), ClampH(hw[2]), ClampH(hw[3])]))
    case _ => Write(0, r.gpr[0], r.hi, r.lo)
  }

  function Pmthl(r: Regs, code: u32): Effect
  {
    if Sa(code) != 0 then Write(0, r.gpr[0], r.hi, r.lo)
    else
      var s := Ws(r.gpr[Rs(code)]);
      Write(0, r.gpr[0], OfWs(Ws(r.hi)[0 := s[1]][2 := s[3]]), OfWs(Ws(r.lo)[0 := s[0]][2 := s[2]]))
  }

  function Mmi(r: Regs, code: u32): Effect
  {
    var s, t := r.gpr[Rs(code)], r.gpr[Rt(code)];
    var rd, sa := Rd(code), Sa(code);
    match Funct(code)
    case 0x00 => Accumulate(r, 0, rd, U64(Acc(r, 0) + S32(Low(s)) * S32(Low(t))))                    // MADD
    case 0x01 => Accumulate(r, 0, rd, U64(Acc(r, 0) + Low(s) as int * Low(t)))                       // MADDU
    case 0x04 => ToReg(r, rd, Plzcw(s, r.gpr[rd]))                                                   // PLZCW
    case 0x08 => Mmi0(r, code)
    case 0x09 => Mmi2(r, code)
    case 0x10 => ToD0(r, rd, r.hi.d1)                                                                // MFHI1
    case 0x11 => Write(0, r.gpr[0], r.hi.(d1 := s.d0), r.lo)                                         // MTHI1
    case 0x12 => ToD0(r, rd, r.lo.d1)                                                                // MFLO1
    case 0x13 => Write(0, r.gpr[0], r.hi, r.lo.(d1 := s.d0))                                         // MTLO1
    case 0x18 => Accumulate(r, 1, rd, S32(Low(s)) * S32(Low(t)))                                     // MULT1
    case 0x19 => Accumulate(r, 1, rd, Low(s) as int * Low(t))                                        // MULTU1
    case 0x1a => Divide1(r, Low(s), Low(t))                                                          // DIV1
    case 0x1b => DivideUnsigned1(r, Low(s), Low(t))                                                  // DIVU1
    case 0x20 => Accumulate(r, 1, rd, U64(Acc(r, 1) + S32(Low(s)) * S32(Low(t))))                    // MADD1
    case 0x21 => Accumulate(r, 1, rd, U64(Acc(r, 1) + Low(s) as int * Low(t)))                       // MADDU1
    case 0x28 => Mmi1(r, code)
    case 0x29 => Mmi3(r, code)
    case 0x30 => Pmfhl(r, code)
    case 0x31 => Pmthl(r, code)
    case 0x34 => ToReg(r, rd, MapH((x: u16, _) => U16(x * Pow2(sa % 16)), t, t))                     // PSLLH
    case 0x36 => ToReg(r, rd, MapH((x: u16, _) => U16(x / Pow2(sa % 16)), t, t))                     // PSRLH
    case 0x37 => ToReg(r, rd, MapH((x: u16, _) => U16(S16(x) / Pow2(sa % 16)), t, t))                // PSRAH
    case 0x3c => ToReg(r, rd, MapW((x: u32, _) => Shl32(x, sa), t, t))                               // PSLLW
    case 0x3e => ToReg(r, rd, MapW((x: u32, _) => Shr32(x, sa), t, t))                               // PSRLW
    case 0x3f => ToReg(r, rd, MapW((x: u32, _) => Sra32(x, sa), t, t))                               // PSRAW
    case _ => Exit
  }

  function Mmi0(r: Regs, code: u32): Effect
  {
    var s, t := r.gpr[Rs(code)], r.gpr[Rt(code)];
    var rd := Rd(code);
    match Sa(code)
    case 0 => ToReg(r, rd, MapW((x: u32, y: u32) => U32(x as int + y), s, t))                        // PADDW
    case 1 => ToReg(r, rd, MapW((x: u32, y: u32) => U32(x as int - y), s, t))                        // PSUBW
    case 2 => ToReg(r, rd, MapW((x, y) => if S32(x) > S32(y) then 0xffff_ffff else 0, s, t))         // PCGTW
    case 3 => ToReg(r, rd, MapW((x, y) => if S32(x) > S32(y) then x else y, s, t))                   // PMAXW
    case 4 => ToReg(r, rd, MapH((x: u16, y: u16) => U16(x as int + y), s, t))                        // PADDH
    case 5 => ToReg(r, rd, MapH((x: u16, y: u16) => U16(x as int - y), s, t))                        // PSUBH
    case 6 => ToReg(r, rd, MapH((x, y) => if S16(x) > S16(y) then 0xffff else 0, s, t))              // PCGTH
    case 7 => ToReg(r, rd, MapH((x, y) => if S16(x) > S16(y) then x else y, s, t))                   // PMAXH
    case 8 => ToReg(r, rd, MapB((x: u8, y: u8) => U8(x as int + y), s, t))                           // PADDB
    case 9 => ToReg(r, rd, MapB((x: u8, y: u8) => U8(x as int - y), s, t))                           // PSUBB
    case 10 => ToReg(r, rd, MapB((x, y) => if S8(x) > S8(y) then 0xff else 0, s, t))                 // PCGTB
    case 16 => ToReg(r, rd, MapW(AddSignedW, s, t))                                                  // PADDSW
    case 17 => ToReg(r, rd, MapW(SubSignedW, s, t))                                                  // PSUBSW
    case 18 => ToReg(r, rd, Pextlw(s, t))
    case 19 => ToReg(r, rd, Ppacw(s, t))
    case 20 => ToReg(r, rd, MapH(AddSignedH, s, t))                                                  // PADDSH
    case 21 => ToReg(r, rd, MapH(SubSignedH, s, t))                                                  // PSUBSH
    case 22 => ToReg(r, rd, Pextlh(s, t))
    case 23 => ToReg(r, rd, Ppach(s, t))
    case 24 => ToReg(r, rd, MapB(AddSignedB, s, t))                                                  // PADDSB
    case 25 => ToReg(r, rd, MapB(SubSignedB, s, t))                                                  // PSUBSB
    case 26 => ToReg(r, rd, Pextlb(s, t))
    case 27 => ToReg(r, rd, Ppacb(s, t))
    case 30 => ToReg(r, rd, MapW((x, _) => Ext5(x), t, t))                                           // PEXT5
    case 31 => ToReg(r, rd, MapW((x, _) => Pac5(x), t, t))                                           // PPAC5
    case _ => Exit
  }

  function Mmi1(r: Regs, code: u32): Effect
  {
    var s, t := r.gpr[Rs(code)], r.gpr[Rt(code)];
    var rd := Rd(code);
    match Sa(code)
    case 1 => ToReg(r, rd, MapW((x, _) => U32(Abs(S32(x))), t, t))                                   // PABSW
    case 2 => ToReg(r, rd, MapW((x, y) => if x == y then 0xffff_ffff else 0, s, t))                  // PCEQW
    case 3 => ToReg(r, rd, MapW((x, y) => if S32(x) < S32(y) then x else y, s, t))                   // PMINW
    case 4 =>                                                                                        // PADSBH
      ToReg(r, rd, Reg(MapH((x: u16, y: u16) => U16(x as int - y), s, t).d0,
                       MapH((x: u16, y: u16) => U16(x as int + y), s, t).d1))
    case 5 => ToReg(r, rd, MapH((x, _) => U16(Abs(S16(x))), t, t))                                   // PABSH
    case 6 => ToReg(r, rd, MapH((x, y) => if x == y then 0xffff else 0, s, t))                       // PCEQH
    case 7 => ToReg(r, rd, MapH((x, y) => if S16(x) < S16(y) then x else y, s, t))                   // PMINH
    case 10 => ToReg(r, rd, MapB((x, y) => if x == y then 0xff else 0, s, t))                        // PCEQB
    case 16 => ToReg(r, rd, MapW(AddUnsignedW, s, t))                                                // PADDUW
    case 17 => ToReg(r, rd, MapW(SubUnsignedW, s, t))                                                // PSUBUW
    case 18 => ToReg(r, rd, Pextuw(s, t))
    case 20 => ToReg(r, rd, MapH(AddUnsignedH, s, t))                                                // PADDUH
    case 21 => ToReg(r, rd, MapH(SubUnsignedH, s, t))                                                // PSUBUH
    case 22 => ToReg(r, rd, Pextuh(s, t))
    case 24 => ToReg(r, rd, MapB(AddUnsignedB, s, t))                                                // PADDUB
    case 25 => ToReg(r, rd, MapB(SubUnsignedB, s, t))                                                // PSUBUB
    case 26 => ToReg(r, rd, Pextub(s, t))
    case 27 =>                                                                                       // QFSRV
      (match Qfsrv(LiveOf(r, code), r.sa, rd == 0)
       case Some(l) => Finish(l, rd)
       case None => Trap)
    case _ => Exit
  }

  /** PMADDW and PMSUBW read LO sign-extended, so its sign bit is or-ed over HI. */
  function SignedAcc(r: Regs, lane: nat): u64
    requires lane < 2
  {
    Or64(Sx(Ws(r.lo)[2 * lane]), Shl64(Sx(Ws(r.hi)[2 * lane]), 32))
  }

  /** Both 64-bit results of a two-lane multiplication, to HI, LO and Rd. */
  function Both(r: Regs, rd: Index, x0: int, x1: int): Effect
  {
    Write(rd, Reg(U64(x0), U64(x1)), Reg(HiPart(x0), HiPart(x1)), Reg(LoPart(x0), LoPart(x1)))
  }

  function Mmi2(r: Regs, code: u32): Effect
  {
    var s, t := r.gpr[Rs(code)], r.gpr[Rt(code)];
    var rd := Rd(code);
    var x, y := Ws(s), Ws(t);
    var p0, p1 := S32(x[0]) * S32(y[0]), S32(x[2]) * S32(y[2]);
    match Sa(code)
    case 0 => Both(r, rd, U64(SignedAcc(r, 0) + p0), U64(SignedAcc(r, 1) + p1))                      // PMADDW
    case 2 => ToReg(r, rd, Reg(Sx(Shl32(y[0], x[0] % 32)), Sx(Shl32(y[2], x[2] % 32))))              // PSLLVW
    case 3 => ToReg(r, rd, Reg(Shr32(y[0], x[0] % 32), Shr32(y[2], x[2] % 32)))                      // PSRLVW
    case 4 => Both(r, rd, U64(SignedAcc(r, 0) - p0), U64(SignedAcc(r, 1) - p1))                      // PMSUBW
    case 8 => ToReg(r, rd, r.hi)                                                                     // PMFHI
    case 9 => ToReg(r, rd, r.lo)                                                                     // PMFLO
    case 10 => ToReg(r, rd, Pinth(s, t))
    case 12 => Both(r, rd, p0, p1)                                                                   // PMULTW
    case 13 => Pdivw(r, x, y)
    case 14 => ToReg(r, rd, Reg(t.d0, s.d0))                                                         // PCPYLD
    case 16 => Finish(HalfMacs(LiveOf(r, code), Add, rd == 0), rd)                                   // PMADDH
    case 17 => Finish(Phmadh(LiveOf(r, code), rd == 0), rd)
    case 18 => ToReg(r, rd, Reg(And64(s.d0, t.d0), And64(s.d1, t.d1)))                               // PAND
    case 19 => ToReg(r, rd, Reg(Xor64(s.d0, t.d0), Xor64(s.d1, t.d1)))                               // PXOR
    case 20 => Finish(HalfMacs(LiveOf(r, code), Sub, rd == 0), rd)                                   // PMSUBH
    case 21 => Finish(Phmsbh(LiveOf(r, code), rd == 0), rd)
    case 26 => ToReg(r, rd, Pexeh(t))
    case 27 => ToReg(r, rd, Prevh(t))
    case 28 => Finish(HalfMacs(LiveOf(r, code), Set, rd == 0), rd)                                   // PMULTH
    case 29 => Pdivbw(r, x, Hs(t)[0])
    case 30 => ToReg(r, rd, Pexew(t))
    case 31 => ToReg(r, rd, Prot3w(t))
    case _ => Exit
  }

  function Phmadh(l: Live, zero: bool): Live
  {
    var l := HorizontalMac(HorizontalMac(l, false, true, 0, 0, 0, zero), false, false, 0, 1, 1, zero);
    HorizontalMac(HorizontalMac(l, false, true, 2, 2, 2, zero), false, false, 2, 3, 3, zero)
  }

  function Phmsbh(l: Live, zero: bool): Live
  {
    var l := HorizontalMac(HorizontalMac(l, true, true, 0, 0, 0, zero), true, false, 0, 2, 1, zero);
    HorizontalMac(HorizontalMac(l, true, true, 2, 4, 2, zero), true, false, 2, 6, 3, zero)
  }

  function Pdivw(r: Regs, x: seq<u32>, y: seq<u32>): Effect
    requires |x| == 4 && |y| == 4
  {
    if DivTraps(x[0], y[0]) || DivTraps(x[2], y[2]) then Trap
    else
      Write(0, r.gpr[0],
            Reg(if y[0] != 0 then DivHi(x[0], y[0]) else r.hi.d0, if y[2] != 0 then DivHi(x[2], y[2]) else r.hi.d1),
            Reg(if y[0] != 0 then DivLo(x[0], y[0]) else r.lo.d0, if y[2] != 0 then DivLo(x[2], y[2]) else r.lo.d1))
  }

  /** Four words divided by one signed half word; the remainders are cut to half words. */
  function Pdivbw(r: Regs, x: seq<u32>, h: u16): Effect
    requires |x| == 4
  {
    if h == 0 then Write(0, r.gpr[0], r.hi, r.lo)
    else if h == 0xffff && 0x8000_0000 in x then Trap
    else
      Write(0, r.gpr[0],
            OfWs(seq<u32>(4, i requires 0 <= i < 4 => U32(S16(U16(TruncRem(S32(x[i]), S16(h))))))),
            OfWs(seq<u32>(4, i requires 0 <= i < 4 => U32(TruncDiv(S32(x[i]), S16(h))))))
  }

  function Pdivuw(r: Regs, x: seq<u32>, y: seq<u32>): Effect
    requires |x| == 4 && |y| == 4
  {
    var e0 := DivideUnsigned(r, x[0], y[0]);
    DivideUnsigned1(Regs(r.gpr, e0.hi, e0.lo, r.sa), x[2], y[2])
  }

  function Mmi3(r: Regs, code: u32): Effect
  {
    var s, t := r.gpr[Rs(code)], r.gpr[Rt(code)];
    var rd := Rd(code);
    var x, y := Ws(s), Ws(t);
    match Sa(code)
    case 0 => Both(r, rd, U64(Acc(r, 0) + x[0] as int * y[0]), U64(Acc(r, 1) + x[2] as int * y[2]))  // PMADDUW
    case 3 => ToReg(r, rd, Reg(Sx(Sra32(y[0], x[0] % 32)), Sx(Sra32(y[2], x[2] % 32))))              // PSRAVW
    case 8 => Write(0, r.gpr[0], s, r.lo)                                                            // PMTHI
    case 9 => Write(0, r.gpr[0], r.hi, s)                                                            // PMTLO
    case 10 => ToReg(r, rd, Pinteh(s, t))
    case 12 => Both(r, rd, x[0] as int * y[0], x[2] as int * y[2])                                   // PMULTUW
    case 13 => Pdivuw(r, x, y)
    case 14 => ToReg(r, rd, Reg(s.d1, t.d1))                                                         // PCPYUD
    case 18 => ToReg(r, rd, Reg(Or64(s.d0, t.d0), Or64(s.d1, t.d1)))                                 // POR
    case 19 => ToReg(r, rd, Reg(Not64(Or64(s.d0, t.d0)), Not64(Or64(s.d1, t.d1))))                   // PNOR
    case 26 => ToReg(r, rd, Pexch(t))
    case 27 => ToReg(r, rd, Pcpyh(t))
    case 30 => ToReg(r, rd, Pexcw(t))
    case _ => Exit
  }
}
