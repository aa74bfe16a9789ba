/** The integer handlers of the SPECIAL table and of the immediate opcodes, on registers with any 64-bit contents: what
    each leaves in its destination, said by sums, bits, order and quotients. */
module Arithmetic {
  import opened Words
  import opened Registers
  import Alu

  /** The only change is that register n receives x in its low double word. */
  predicate Assigns(r: Regs, e: Effect, n: Index, x: u64)
  {
    e.Write? && Apply(r, e) == if n == 0 then r else r.(gpr := r.gpr[n := Reg(x, r.gpr[n].d1)])
  }

  /** A word in a double word, its sign in all upper bits. */
  predicate IsWord(x: u64)
  {
    if x % 0x1_0000_0000 < 0x8000_0000 then x / 0x1_0000_0000 == 0 else x / 0x1_0000_0000 == 0xffff_ffff
  }

  predicate Congruent(x: int, y: int, m: int)
    requires m > 0
  {
    (x - y) % m == 0
  }

  /** Order of double words read as two's complement. */
  predicate SignedBelow(a: u64, b: u64)
  {
    (a + 0x8000_0000_0000_0000) % 0x1_0000_0000_0000_0000 < (b + 0x8000_0000_0000_0000) % 0x1_0000_0000_0000_0000
  }

  function BitOf(x: nat, i: nat): nat { DivShrinks(x, Pow2(i)); x / Pow2(i) % 2 }

  /** The immediate field, signed. */
  predicate IsField(code: u32, k: int) { -0x8000 <= k < 0x8000 && (code - k) % 0x1_0000 == 0 }

  // ----- Sums -----

  /** ADD, ADDU, SUB and SUBU leave the word that is the sum or difference modulo 2^32. */
  lemma WordSums(r: Regs, code: u32) returns (x: u64)
    requires 0x20 <= Funct(code) <= 0x23
    ensures Assigns(r, Alu.Special(r, code), Rd(code), x)
    ensures var a, b := r.gpr[Rs(code)].d0 as int, r.gpr[Rt(code)].d0 as int;
            IsWord(x) && Congruent(x, if Funct(code) <= 0x21 then a + b else a - b, 0x1_0000_0000)
  {
    hide Rs, Rt, Rd, Low, S32, Congruent, Sx, U32, IsWord;
    var a, b := r.gpr[Rs(code)], r.gpr[Rt(code)];
    var v := if Funct(code) <= 0x21 then S32(Low(a)) + S32(Low(b)) else S32(Low(a)) - S32(Low(b));
    x := Sx(U32(v));
    WordCongruent(v);
    LowCongruent(a);
    LowCongruent(b);
    SumCongruent(v, S32(Low(a)), S32(Low(b)), a.d0, b.d0, Funct(code) <= 0x21);
    Transitive(x, v, if Funct(code) <= 0x21 then a.d0 as int + b.d0 else a.d0 as int - b.d0);
  }

  lemma WordCongruent(v: int)
    ensures IsWord(Sx(U32(v))) && Congruent(Sx(U32(v)), v, 0x1_0000_0000)
  {
  }

  lemma LowCongruent(a: Reg)
    ensures Congruent(S32(Low(a)), a.d0, 0x1_0000_0000)
  {
  }

  lemma SumCongruent(v: int, x: int, y: int, a: int, b: int, plus: bool)
    requires v == if plus then x + y else x - y
    requires Congruent(x, a, 0x1_0000_0000) && Congruent(y, b, 0x1_0000_0000)
    ensures Congruent(v, if plus then a + b else a - b, 0x1_0000_0000)
  {
  }

  lemma Transitive(x: int, y: int, z: int)
    requires Congruent(x, y, 0x1_0000_0000) && Congruent(y, z, 0x1_0000_0000)
    ensures Congruent(x, z, 0x1_0000_0000)
  {
  }

  /** DADD, DADDU, DSUB and DSUBU likewise modulo 2^64. */
  lemma DoubleSums(r: Regs, code: u32) returns (x: u64)
    requires 0x2c <= Funct(code) <= 0x2f
    ensures Assigns(r, Alu.Special(r, code), Rd(code), x)
    ensures var a, b := r.gpr[Rs(code)].d0 as int, r.gpr[Rt(code)].d0 as int;
            Congruent(x, if Funct(code) <= 0x2d then a + b else a - b, 0x1_0000_0000_0000_0000)
  {
    hide Rs, Rt, Rd, S64, U64, Congruent;
    var a, b := r.gpr[Rs(code)].d0, r.gpr[Rt(code)].d0;
    x := U64(if Funct(code) <= 0x2d then S64(a) + S64(b) else S64(a) - S64(b));
    DoubleCongruent(a, S64(b), b);
    DoubleCongruent(a, -S64(b), -(b as int));
    SignedCongruent(b);
  }

  lemma SignedCongruent(b: u64)
    ensures Congruent(S64(b), b, 0x1_0000_0000_0000_0000)
    ensures Congruent(-S64(b), -(b as int), 0x1_0000_0000_0000_0000)
  {
  }

  lemma DoubleCongruent(a: u64, v: int, b: int)
    ensures Congruent(v, b, 0x1_0000_0000_0000_0000) ==> Congruent(U64(S64(a) + v), a + b, 0x1_0000_0000_0000_0000)
  {
    if Congruent(v, b, 0x1_0000_0000_0000_0000) {
      var k := (v - b) / 0x1_0000_0000_0000_0000;
      var h := if a < 0x8000_0000_0000_0000 then 0 else 1;
      var m := (S64(a) + v) / 0x1_0000_0000_0000_0000;
      assert U64(S64(a) + v) == a + b + 0x1_0000_0000_0000_0000 * (k - h - m);
    }
  }

  /** ADDI and ADDIU, DADDI and DADDIU add the signed field. */
  lemma ImmediateSums(r: Regs, code: u32, k: int) returns (x: u64)
    requires Op(code) in {0x08, 0x09, 0x18, 0x19} && IsField(code, k)
    ensures Assigns(r, Alu.Immediate(r, code), Rt(code), x)
    ensures Op(code) < 0x18 ==> IsWord(x) && Congruent(x, r.gpr[Rs(code)].d0 + k, 0x1_0000_0000)
    ensures Op(code) >= 0x18 ==> Congruent(x, r.gpr[Rs(code)].d0 + k, 0x1_0000_0000_0000_0000)
  {
    hide Rs, Rt, Op, Low, Imm, S32, S64, U32, U64, Sx, IsWord, Congruent;
    ImmIs(code, k);
    var a := r.gpr[Rs(code)];
    if Op(code) < 0x18 {
      var v := S32(Low(a)) + k;
      x := Sx(U32(v));
      WordCongruent(v);
      LowCongruent(a);
      Shifted(S32(Low(a)), a.d0, k);
      Transitive(x, v, a.d0 + k);
    } else {
      x := U64(S64(a.d0) + k);
      assert Congruent(k, k, 0x1_0000_0000_0000_0000) by { Same(k); }
      DoubleCongruent(a.d0, k, k);
    }
  }

  lemma Shifted(v: int, w: int, k: int)
    requires Congruent(v, w, 0x1_0000_0000)
    ensures Congruent(v + k, w + k, 0x1_0000_0000)
  {
  }

  lemma Same(k: int)
    ensures Congruent(k, k, 0x1_0000_0000_0000_0000)
  {
  }

  lemma ImmIs(code: u32, k: int)
    requires IsField(code, k)
    ensures Imm(code) == k
  {
  }

  // ----- Bits -----

  lemma {:induction false} BitwiseBits(op: BitOp, x: nat, y: nat, i: nat)
    ensures BitOf(Bitwise(op, x, y), i) == Bit(op, BitOf(x, i), BitOf(y, i))
    decreases i
  {
    hide Bitwise;
    BitwiseStep(op, x, y);
    if i == 0 {
      assert Pow2(0) == 1;
    } else {
      BitwiseBits(op, x / 2, y / 2, i - 1);
      HalveSum(Bitwise(op, x / 2, y / 2), Bit(op, x % 2, y % 2));
      NextBit(x, i);
      NextBit(y, i);
      NextBit(Bitwise(op, x, y), i);
    }
  }

  lemma NextBit(x: nat, i: nat)
    requires i > 0
    ensures BitOf(x, i) == BitOf(x / 2, i - 1)
  {
    var p := Pow2(i - 1);
    Recompose(x / 2, p);
    var low, high := x / 2 % p, x / 2 / p;
    assert x == (2 * low + x % 2) + 2 * (p * high);
    assert 2 * (p * high) == (2 * p) * high;
    DivMod(x, 2 * p, 2 * low + x % 2, high);
  }

  lemma ComplementBit(x: u64, i: nat)
    requires i < 64
    ensures BitOf(Not64(x), i) == 1 - BitOf(x, i)
  {
    hide Bitwise, Pow2;
    Pow2Values();
    BitwiseOnes(64, x);
    BitwiseBits(Xor, x, TWO64 - 1, i);
    OnesBit(i);
  }

  lemma OnesBit(i: nat)
    requires i < 64
    ensures BitOf(TWO64 - 1, i) == 1
  {
    hide Pow2;
    Pow2Values();
    Pow2Add(i, 64 - i);
    Pow2Add(1, 63 - i);
    SmallPow2();
    var p, q := Pow2(i), Pow2(63 - i);
    assert TWO64 == p * (2 * q);
    MulPred(p, 2 * q);
    DivMod(TWO64 - 1, p, p - 1, 2 * q - 1);
  }

  /** Bit i of what AND, OR, XOR and NOR leave. */
  function LogicBit(funct: nat, a: nat, b: nat): nat
  {
    match funct
    case 0x24 => if a == 1 && b == 1 then 1 else 0
    case 0x25 => if a == 1 || b == 1 then 1 else 0
    case 0x26 => if a != b then 1 else 0
    case _ => if a == 0 && b == 0 then 1 else 0
  }

  lemma Logic(r: Regs, code: u32, i: nat) returns (x: u64)
    requires 0x24 <= Funct(code) <= 0x27 && i < 64
    ensures Assigns(r, Alu.Special(r, code), Rd(code), x)
    ensures BitOf(x, i) == LogicBit(Funct(code), BitOf(r.gpr[Rs(code)].d0, i), BitOf(r.gpr[Rt(code)].d0, i))
  {
    hide Rs, Rt, Rd, Bitwise, BitOf, Pow2;
    var a, b := r.gpr[Rs(code)].d0, r.gpr[Rt(code)].d0;
    BitIsBit(a, i);
    BitIsBit(b, i);
    match Funct(code)
    case 0x24 => x := And64(a, b); BitwiseBits(And, a, b, i);
    case 0x25 => x := Or64(a, b); BitwiseBits(Or, a, b, i);
    case 0x26 => x := Xor64(a, b); BitwiseBits(Xor, a, b, i);
    case _ =>
      x := Not64(Or64(a, b));
      BitwiseBits(Or, a, b, i);
      ComplementBit(Or64(a, b), i);
  }

  lemma BitIsBit(x: nat, i: nat)
    ensures 0 <= BitOf(x, i) <= 1
  {
  }

  /** ANDI, ORI and XORI do the same with the field, zero-extended. */
  lemma ImmediateLogic(r: Regs, code: u32, i: nat) returns (x: u64)
    requires 0x0c <= Op(code) <= 0x0e && i < 64
    ensures Assigns(r, Alu.Immediate(r, code), Rt(code), x)
    ensures BitOf(x, i) == LogicBit(Op(code) + 0x18, BitOf(r.gpr[Rs(code)].d0, i), BitOf(code % 0x1_0000, i))
  {
    hide Rs, Rt, Op, Bitwise, BitOf, Pow2;
    var a, b := r.gpr[Rs(code)].d0, code % 0x1_0000;
    BitIsBit(a, i);
    BitIsBit(b, i);
    match Op(code)
    case 0x0c => x := And64(a, b); BitwiseBits(And, a, b, i);
    case 0x0d => x := Or64(a, b); BitwiseBits(Or, a, b, i);
    case _ => x := Xor64(a, b); BitwiseBits(Xor, a, b, i);
  }

  /** LUI puts the field above 16 zeros, and extends the sign. */
  lemma LoadUpper(r: Regs, code: u32) returns (x: u64)
    requires Op(code) == 0x0f
    ensures Assigns(r, Alu.Immediate(r, code), Rt(code), x)
    ensures IsWord(x) && x % 0x1_0000_0000 == 0x1_0000 * (code % 0x1_0000)
  {
    hide Rs, Rt, Shl32, Sx, IsWord;
    x := Sx(Shl32(code, 16));
    WordParts(Shl32(code, 16));
    UpperHalf(code);
  }

  lemma UpperHalf(code: u32)
    ensures Shl32(code, 16) == 0x1_0000 * (code % 0x1_0000)
  {
    hide Pow2;
    Pow2Values();
  }

  // ----- Order -----

  /** SLT and SLTU compare all 64 bits, signed and unsigned. */
  lemma SetOnLess(r: Regs, code: u32) returns (x: u64)
    requires Funct(code) in {0x2a, 0x2b}
    ensures Assigns(r, Alu.Special(r, code), Rd(code), x)
    ensures var a, b := r.gpr[Rs(code)].d0, r.gpr[Rt(code)].d0;
            x == if (if Funct(code) == 0x2a then SignedBelow(a, b) else a < b) then 1 else 0
  {
    hide Rs, Rt, Rd;
    var a, b := r.gpr[Rs(code)].d0, r.gpr[Rt(code)].d0;
    x := Flag(if Funct(code) == 0x2a then S64(a) < S64(b) else a < b);
  }

  /** SLTI and SLTIU compare with the signed field; SLTIU reads it as unsigned then. */
  lemma SetOnLessImmediate(r: Regs, code: u32, k: int) returns (x: u64)
    requires Op(code) in {0x0a, 0x0b} && IsField(code, k)
    ensures Assigns(r, Alu.Immediate(r, code), Rt(code), x)
    ensures var a := r.gpr[Rs(code)].d0;
            var b := if k < 0 then 0x1_0000_0000_0000_0000 + k else k;
            x == if (if Op(code) == 0x0a then SignedBelow(a, b) else a < b) then 1 else 0
  {
    hide Rs, Rt, Op, Imm;
    ImmIs(code, k);
    var a := r.gpr[Rs(code)].d0;
    x := Flag(if Op(code) == 0x0a then S64(a) < k else a < U64(k));
  }

  // ----- Shifts -----

  /** A number shifted right: the quotient by 2^n, rounded down. */
  predicate IsQuotient(q: int, v: int, n: nat) { q * Pow2(n) <= v < q * Pow2(n) + Pow2(n) }

  function WordSigned(x: nat): int
  {
    var w := x % 0x1_0000_0000;
    if w < 0x8000_0000 then w else w - 0x1_0000_0000
  }

  function DoubleSigned(x: u64): int
  {
    if x < 0x8000_0000_0000_0000 then x else x - 0x1_0000_0000_0000_0000
  }

  /** SLL, SRL and SRA by the shift field, SLLV, SRLV and SRAV by the five low bits of Rs: on the low word of Rt, and
      the result is sign-extended. */
  lemma WordShifts(r: Regs, code: u32) returns (x: u64)
    requires Funct(code) in {0x00, 0x02, 0x03, 0x04, 0x06, 0x07}
    ensures Assigns(r, Alu.Special(r, code), Rd(code), x) && IsWord(x)
    ensures var n := if Funct(code) < 4 then Sa(code) else r.gpr[Rs(code)].d0 % 32;
            var w := r.gpr[Rt(code)].d0 % 0x1_0000_0000;
            match Funct(code) % 4
            case 0 => Congruent(x, w * Pow2(n), 0x1_0000_0000)
            case 2 => IsQuotient(x % 0x1_0000_0000, w, n)
            case _ => IsQuotient(WordSigned(x), WordSigned(w), n)
  {
    hide Rs, Rt, Rd, Sa, Pow2, IsQuotient, Congruent, Sx, IsWord;
    var a, b := r.gpr[Rs(code)], Low(r.gpr[Rt(code)]);
    var n: nat := if Funct(code) < 4 then Sa(code) else a.d0 % 32;
    LowMod32(a);
    ShiftedWords(b, n);
    x := match Funct(code) % 4 case 0 => Sx(Shl32(b, n)) case 2 => Sx(Shr32(b, n)) case _ => Sx(Sra32(b, n));
  }

  lemma LowMod32(a: Reg)
    ensures Low(a) % 32 == a.d0 % 32 && Low(a) % 64 == a.d0 % 64
  {
    RemainderOf(a.d0, 32, 0x800_0000);
    RemainderOf(a.d0, 64, 0x400_0000);
  }

  lemma RemainderOf(x: nat, m: nat, k: nat)
    requires m >= 1 && k >= 1
    ensures x % (m * k) % m == x % m
  {
    var r, q := x % (m * k), x / (m * k);
    Recompose(x, m * k);
    Recompose(r, m);
    assert x == r % m + m * (r / m + k * q) by {
      assert (m * k) * q == m * (k * q);
      assert m * (r / m + k * q) == m * (r / m) + m * (k * q);
    }
    DivMod(x, m, r % m, r / m + k * q);
  }

  lemma ShiftedWords(b: u32, n: nat)
    ensures IsWord(Sx(Shl32(b, n))) && Congruent(Sx(Shl32(b, n)), b * Pow2(n), 0x1_0000_0000)
    ensures IsWord(Sx(Shr32(b, n))) && IsQuotient(Sx(Shr32(b, n)) % 0x1_0000_0000, b, n)
    ensures IsWord(Sx(Sra32(b, n))) && IsQuotient(WordSigned(Sx(Sra32(b, n))), WordSigned(b), n)
  {
    hide Pow2;
    WordCongruent(b * Pow2(n));
    QuotientIs(b, n);
    QuotientIs(S32(b), n);
    WordParts(Shr32(b, n));
    WordParts(Shl32(b, n));
    QuotientSmall(S32(b), Pow2(n));
    SignedWord(S32(b) / Pow2(n));
  }

  lemma QuotientIs(v: int, n: nat)
    ensures IsQuotient(v / Pow2(n), v, n)
  {
    hide Pow2;
    var p := Pow2(n);
    var q := v / p;
    assert v == p * q + v % p && 0 <= v % p < p;
    assert p * q == q * p;
  }

  /** Dividing by a positive number keeps a signed word one. */
  lemma QuotientSmall(v: int, p: nat)
    requires p >= 1
    ensures v >= 0 ==> 0 <= v / p <= v
    ensures v < 0 ==> v <= v / p < 0
  {
    if v >= 0 {
      DivShrinks(v, p);
    } else {
      QuotientNegative(v, p);
    }
  }

  lemma WordParts(w: u32)
    ensures IsWord(Sx(w)) && Sx(w) % 0x1_0000_0000 == w
  {
  }

  lemma SignedWord(q: int)
    requires -0x8000_0000 <= q < 0x8000_0000
    ensures IsWord(Sx(U32(q))) && WordSigned(Sx(U32(q))) == q
  {
  }

  /** The 64-bit shifts: by the field, by the field plus 32, and by the six low bits of Rs. */
  lemma DoubleShifts(r: Regs, code: u32) returns (x: u64)
    requires Funct(code) in {0x14, 0x16, 0x17, 0x38, 0x3a, 0x3b, 0x3c, 0x3e, 0x3f}
    ensures Assigns(r, Alu.Special(r, code), Rd(code), x)
    ensures var n := if Funct(code) < 0x38 then r.gpr[Rs(code)].d0 % 64
                     else if Funct(code) < 0x3c then Sa(code)
                     else Sa(code) + 32;
            var b := r.gpr[Rt(code)].d0;
            match Funct(code) % 4
            case 0 => Congruent(x, b * Pow2(n), 0x1_0000_0000_0000_0000)
            case 2 => IsQuotient(x, b, n)
            case _ => IsQuotient(DoubleSigned(x), DoubleSigned(b), n)
  {
    hide Rs, Rt, Rd, Sa, Pow2, IsQuotient, Congruent, DoubleSigned, Shl64, Shr64, Sra64, Low;
    var a, b := r.gpr[Rs(code)], r.gpr[Rt(code)].d0;
    var n: nat := if Funct(code) < 0x38 then a.d0 % 64 else if Funct(code) < 0x3c then Sa(code) else Sa(code) + 32;
    LowMod32(a);
    ShiftedDoubles(b, n);
    x := match Funct(code) % 4 case 0 => Shl64(b, n) case 2 => Shr64(b, n) case _ => Sra64(b, n);
  }

  lemma ShiftedDoubles(b: u64, n: nat)
    ensures Congruent(Shl64(b, n), b * Pow2(n), 0x1_0000_0000_0000_0000)
    ensures IsQuotient(Shr64(b, n), b, n)
    ensures IsQuotient(DoubleSigned(Sra64(b, n)), DoubleSigned(b), n)
  {
    hide Pow2, IsQuotient, S64, U64, Congruent, DoubleSigned;
    QuotientIs(b, n);
    QuotientIs(S64(b), n);
    QuotientSmall(S64(b), Pow2(n));
    SignedRange(b);
    SignedDouble(S64(b) / Pow2(n));
    Reduced(b * Pow2(n));
  }

  lemma SignedRange(b: u64)
    ensures -0x8000_0000_0000_0000 <= S64(b) < 0x8000_0000_0000_0000 && S64(b) == DoubleSigned(b)
  {
  }

  lemma Reduced(v: int)
    ensures Congruent(U64(v), v, 0x1_0000_0000_0000_0000)
  {
  }

  lemma SignedDouble(q: int)
    requires -0x8000_0000_0000_0000 <= q < 0x8000_0000_0000_0000
    ensures DoubleSigned(U64(q)) == q
  {
  }

  // ----- Moves -----

  /** MOVZ and MOVN move Rs if all 64 bits of Rt are zero, or are not. */
  lemma ConditionalMoves(r: Regs, code: u32)
    requires Funct(code) in {0x0a, 0x0b}
    ensures var moves := (r.gpr[Rt(code)].d0 == 0) == (Funct(code) == 0x0a);
            Assigns(r, Alu.Special(r, code), if moves then Rd(code) else 0, r.gpr[Rs(code)].d0)
  {
    hide Rs, Rt, Rd;
  }

  /** MTHI then MFHI, and MTLO then MFLO, move Rs to Rd, and neither touches the other register or the upper halves. */
  lemma AccumulatorMoves(r: Regs, to: u32, from: u32)
    requires (Funct(to), Funct(from)) in {(0x11, 0x10), (0x13, 0x12)}
    ensures var e, x := Alu.Special(r, to), r.gpr[Rs(to)].d0;
            && e.Write?
            && Apply(r, e) == (if Funct(to) == 0x11 then r.(hi := Reg(x, r.hi.d1)) else r.(lo := Reg(x, r.lo.d1)))
            && Assigns(Apply(r, e), Alu.Special(Apply(r, e), from), Rd(from), x)
  {
    hide Rs, Rd;
  }
}
