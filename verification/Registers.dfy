/** The register file of R5900.h: 128-bit registers seen as double words, words, half words or bytes, the fields of
    an instruction, and what a register-only instruction may do to the file. */
module Registers {
  import opened Words

  datatype Reg = Reg(d0: u64, d1: u64)

  const ZERO := Reg(0, 0)

  type GprFile = s: seq<Reg> | |s| == 32 witness seq(32, _ => ZERO)

  datatype Regs = Regs(gpr: GprFile, hi: Reg, lo: Reg, sa: u32)

  type Index = n: nat | n < 32

  // The views UL, US and UC of the GPR_reg union, lowest lane first.

  function Ws(r: Reg): (w: seq<u32>)
    ensures |w| == 4
  {
    [r.d0 % TWO32, r.d0 / TWO32, r.d1 % TWO32, r.d1 / TWO32]
  }

  function OfWs(w: seq<u32>): Reg
    requires |w| == 4
  {
    Reg(w[0] as int + TWO32 * w[1], w[2] as int + TWO32 * w[3])
  }

  function Hs(r: Reg): (h: seq<u16>)
    ensures |h| == 8
  {
    HalvesOf(Ws(r))
  }

  function HalvesOf(w: seq<u32>): (h: seq<u16>)
    requires |w| == 4
    ensures |h| == 8
  {
    [w[0] % TWO16, w[0] / TWO16, w[1] % TWO16, w[1] / TWO16,
     w[2] % TWO16, w[2] / TWO16, w[3] % TWO16, w[3] / TWO16]
  }

  function Pair(low: u16, high: u16): u32 { low as int + TWO16 * high }

  function OfHs(h: seq<u16>): Reg
    requires |h| == 8
  {
    OfWs([Pair(h[0], h[1]), Pair(h[2], h[3]), Pair(h[4], h[5]), Pair(h[6], h[7])])
  }

  function Bs(r: Reg): (b: seq<u8>)
    ensures |b| == 16
  {
    Enc(r.d0, 8) + Enc(r.d1, 8)
  }

  function OfBs(b: seq<u8>): Reg
    requires |b| == 16
  {
    LEBound(b[..8]);
    LEBound(b[8..]);
    Pow2Values();
    Reg(LE(b[..8]), LE(b[8..]))
  }

  lemma WordsRoundTrip(r: Reg, w: seq<u32>)
    requires |w| == 4
    ensures Ws(OfWs(w)) == w
    ensures OfWs(Ws(r)) == r
  {
  }

  lemma HalvesRoundTrip(r: Reg, h: seq<u16>)
    requires |h| == 8
    ensures Hs(OfHs(h)) == h
    ensures OfHs(Hs(r)) == r
  {
    WordsRoundTrip(r, [Pair(h[0], h[1]), Pair(h[2], h[3]), Pair(h[4], h[5]), Pair(h[6], h[7])]);
    assert OfHs(Hs(r)) == OfWs(Ws(r));
  }

  lemma BytesRoundTrip(r: Reg, b: seq<u8>)
    requires |b| == 16
    ensures Bs(OfBs(b)) == b
    ensures OfBs(Bs(r)) == r
  {
    EncLE(b[..8]);
    EncLE(b[8..]);
    Pow2Values();
    LEEnc(r.d0, 8);
    LEEnc(r.d1, 8);
    assert b[..8] + b[8..] == b;
    assert Bs(r)[..8] == Enc(r.d0, 8) && Bs(r)[8..] == Enc(r.d1, 8);
  }

  // Lane by lane application of a function of one lane each.

  function MapW(f: (u32, u32) -> u32, a: Reg, b: Reg): Reg
  {
    OfWs(seq<u32>(4, i requires 0 <= i < 4 => f(Ws(a)[i], Ws(b)[i])))
  }

  function MapH(f: (u16, u16) -> u16, a: Reg, b: Reg): Reg
  {
    OfHs(seq<u16>(8, i requires 0 <= i < 8 => f(Hs(a)[i], Hs(b)[i])))
  }

  function MapB(f: (u8, u8) -> u8, a: Reg, b: Reg): Reg
  {
    OfBs(seq<u8>(16, i requires 0 <= i < 16 => f(Bs(a)[i], Bs(b)[i])))
  }

  // Instruction fields.

  function Op(code: u32): nat { code / 0x400_0000 }
  function Rs(code: u32): Index { code / 0x20_0000 % 32 }
  function Rt(code: u32): Index { code / 0x1_0000 % 32 }
  function Rd(code: u32): Index { code / 0x800 % 32 }
  function Sa(code: u32): Index { code / 0x40 % 32 }
  function Funct(code: u32): nat { code % 64 }
  function ImmU(code: u32): u16 { code % TWO16 }
  function Imm(code: u32): int { S16(ImmU(code)) }

  /** The two instruction formats: a word built from its fields has these fields. */
  lemma RegisterFormat(op: nat, rs: Index, rt: Index, rd: Index, sa: Index, funct: nat)
    requires op < 64 && funct < 64
    ensures var code := ((((op * 32 + rs) * 32 + rt) * 32 + rd) * 32 + sa) * 64 + funct;
            && code < TWO32
            && Op(code) == op && Rs(code) == rs && Rt(code) == rt && Rd(code) == rd && Sa(code) == sa
            && Funct(code) == funct
  {
    var a := op * 32 + rs;
    var b := a * 32 + rt;
    var c := b * 32 + rd;
    var d := c * 32 + sa;
    var code := d * 64 + funct;
    assert code / 0x40 == d && code / 0x800 == c && code / 0x1_0000 == b && code / 0x20_0000 == a;
  }

  lemma ImmediateFormat(op: nat, rs: Index, rt: Index, k: int)
    requires op < 64 && -0x8000 <= k < 0x8000
    ensures var code := ((op * 32 + rs) * 32 + rt) * 0x1_0000 + (if k < 0 then k + 0x1_0000 else k);
            && code < TWO32
            && Op(code) == op && Rs(code) == rs && Rt(code) == rt && Imm(code) == k
            && ImmU(code) == if k < 0 then k + 0x1_0000 else k
  {
    var a := op * 32 + rs;
    var b := a * 32 + rt;
    var code := b * 0x1_0000 + (if k < 0 then k + 0x1_0000 else k);
    assert code / 0x1_0000 == b && code / 0x20_0000 == a;
  }

  /** `UL[0]` of a register: the word 32-bit instructions work on. */
  function Low(r: Reg): u32 { r.d0 % TWO32 }

  /** What a register-only instruction does: writes at most one general register, and HI and LO; or ends the
      emulator (`exit`); or is an operation the host does not define (a trapping division, a shift too far). */
  datatype Effect = Write(dest: Index, val: Reg, hi: Reg, lo: Reg) | Exit | Trap

  /** Register 0 stays as it is: every handler returns before it would write it. */
  function SetGpr(g: GprFile, n: Index, v: Reg): GprFile
  {
    if n == 0 then g else g[n := v]
  }

  function Apply(r: Regs, e: Effect): Regs
    requires e.Write?
  {
    Regs(SetGpr(r.gpr, e.dest, e.val), e.hi, e.lo, r.sa)
  }

  /** Assigns `UD[0]` of a register. */
  function ToD0(r: Regs, dest: Index, d0: u64): Effect
  {
    Write(dest, r.gpr[dest].(d0 := d0), r.hi, r.lo)
  }

  function ToReg(r: Regs, dest: Index, v: Reg): Effect
  {
    Write(dest, v, r.hi, r.lo)
  }

  /** The two results of a 64-bit product or sum, each sign-extended into its own register. */
  function LoPart(x: int): u64 { Sx(U32(x)) }
  function HiPart(x: int): u64 { Sx(U32(x / TWO32)) }

  function Flag(b: bool): u64 { if b then 1 else 0 }

  /** The one signed division whose quotient does not fit; the host traps on it. */
  predicate DivTraps(n: u32, d: u32) { n == 0x8000_0000 && d == 0xffff_ffff }
}
