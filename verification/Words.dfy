/** Machine integers of the emulator's host (defines.h), their signed views, C shifts and the bitwise operators,
    all over unbounded integers with the wrap-around written out. */
module Words {

  const TWO16: nat := 0x1_0000
  const TWO32: nat := 0x1_0000_0000
  const TWO64: nat := 0x1_0000_0000_0000_0000

  datatype Option<+T> = None | Some(value: T)

  type u8 = x: int | 0 <= x < 0x100
  type u16 = x: int | 0 <= x < 0x1_0000
  type u32 = x: int | 0 <= x < 0x1_0000_0000
  type u64 = x: int | 0 <= x < 0x1_0000_0000_0000_0000

  // Conversions to an unsigned type: reduction modulo its size.
  function U8(x: int): u8 { x % 0x100 }
  function U16(x: int): u16 { x % 0x1_0000 }
  function U32(x: int): u32 { x % 0x1_0000_0000 }
  function U64(x: int): u64 { x % 0x1_0000_0000_0000_0000 }

  // The same bits read as a two's complement number.
  function S8(x: u8): int { if x < 0x80 then x else x - 0x100 }
  function S16(x: u16): int { if x < 0x8000 then x else x - 0x1_0000 }
  function S32(x: u32): int { if x < 0x8000_0000 then x else x - 0x1_0000_0000 }
  function S64(x: u64): int { if x < 0x8000_0000_0000_0000 then x else x - 0x1_0000_0000_0000_0000 }

  /** A 32-bit word sign-extended to 64 bits: `(u64)(s64)(s32)x`. */
  function Sx(x: u32): u64 { if x < 0x8000_0000 then x else x + 0xffff_ffff_0000_0000 }

  function Pow2(n: nat): (p: nat)
    ensures p >= 1
  {
    if n == 0 then 1 else 2 * Pow2(n - 1)
  }

  lemma {:induction false} Pow2Add(m: nat, n: nat)
    ensures Pow2(m + n) == Pow2(m) * Pow2(n)
  {
    if m == 0 {
    } else {
      Pow2Add(m - 1, n);
      assert 2 * (Pow2(m - 1) * Pow2(n)) == (2 * Pow2(m - 1)) * Pow2(n);
    }
  }

  lemma {:induction false} Pow2Mono(m: nat, n: nat)
    requires m <= n
    ensures Pow2(m) <= Pow2(n)
  {
    if m == n {
    } else {
      Pow2Mono(m, n - 1);
    }
  }

  lemma Pow2Values()
    ensures Pow2(8) == 0x100 && Pow2(16) == 0x1_0000 && Pow2(24) == 0x100_0000 && Pow2(32) == TWO32
    ensures Pow2(64) == TWO64
  {
    Pow2Add(8, 8);
    Pow2Add(16, 8);
    Pow2Add(16, 16);
    Pow2Add(32, 32);
  }

  lemma SmallPow2()
    ensures Pow2(0) == 1 && Pow2(1) == 2 && Pow2(7) == 128
  {
  }

  lemma DivShrinks(x: nat, p: nat)
    requires p >= 1
    ensures 0 <= x / p <= x
  {
  }

  // C's logical shifts.
  function Shl32(x: u32, n: nat): u32 { U32(x * Pow2(n)) }
  function Shl64(x: u64, n: nat): u64 { U64(x * Pow2(n)) }
  function Shr32(x: u32, n: nat): u32 { DivShrinks(x, Pow2(n)); x / Pow2(n) }
  function Shr64(x: u64, n: nat): u64 { DivShrinks(x, Pow2(n)); x / Pow2(n) }
  // C's shift of a signed operand to the right: Dafny's division by a positive number rounds down, as the shift does.
  function Sra32(x: u32, n: nat): u32 { U32(S32(x) / Pow2(n)) }
  function Sra64(x: u64, n: nat): u64 { U64(S64(x) / Pow2(n)) }

  /** C's division of signed numbers: truncation toward zero (section 6.5.5 of ISO/IEC 9899:2011). */
  function TruncDiv(n: int, d: int): int
    requires d != 0
  {
    if n >= 0 then n / d else -((-n) / d)
  }

  function TruncRem(n: int, d: int): int
    requires d != 0
  {
    n - d * TruncDiv(n, d)
  }

  datatype BitOp = And | Or | Xor

  function Bit(op: BitOp, x: nat, y: nat): (b: nat)
    requires x <= 1 && y <= 1
    ensures b <= 1
  {
    match op
    case And => if x == 1 && y == 1 then 1 else 0
    case Or => if x == 1 || y == 1 then 1 else 0
    case Xor => if x == y then 0 else 1
  }

  /** The bitwise operators on numbers of any size. */
  function Bitwise(op: BitOp, x: nat, y: nat): nat
    decreases x + y
  {
    if x == 0 && y == 0 then 0 else 2 * Bitwise(op, x / 2, y / 2) + Bit(op, x % 2, y % 2)
  }

  /** The k low bits of a, with b above them. */
  function Join(k: nat, a: nat, b: nat): nat
  {
    if k == 0 then b else 2 * Join(k - 1, a / 2, b) + a % 2
  }

  lemma {:induction false} JoinValue(k: nat, a: nat, b: nat)
    requires a < Pow2(k)
    ensures Join(k, a, b) == a + Pow2(k) * b
  {
    if k == 0 {
    } else {
      JoinValue(k - 1, a / 2, b);
      assert 2 * (Pow2(k - 1) * b) == Pow2(k) * b;
    }
  }

  lemma HalveSum(x: nat, b: nat)
    requires b <= 1
    ensures (2 * x + b) / 2 == x && (2 * x + b) % 2 == b
  {
  }

  lemma {:induction false} BitwiseJoin(op: BitOp, k: nat, a: nat, b: nat, c: nat, d: nat)
    requires a < Pow2(k) && c < Pow2(k)
    ensures Bitwise(op, Join(k, a, b), Join(k, c, d)) == Join(k, Bitwise(op, a, c), Bitwise(op, b, d))
    ensures Bitwise(op, a, c) < Pow2(k)
    decreases k
  {
    hide Bitwise;
    BitwiseZero(0);
    if k == 0 {
    } else {
      BitwiseJoin(op, k - 1, a / 2, b, c / 2, d);
      BitwiseStep(op, Join(k, a, b), Join(k, c, d));
      BitwiseStep(op, a, c);
      HalveSum(Join(k - 1, a / 2, b), a % 2);
      HalveSum(Join(k - 1, c / 2, d), c % 2);
      HalveSum(Bitwise(op, a / 2, c / 2), Bit(op, a % 2, c % 2));
    }
  }

  /** A bitwise operator works separately on the low k bits and on the bits above them. */
  lemma BitwiseSplit(op: BitOp, k: nat, a: nat, b: nat, c: nat, d: nat)
    requires a < Pow2(k) && c < Pow2(k)
    ensures Bitwise(op, a + Pow2(k) * b, c + Pow2(k) * d) == Bitwise(op, a, c) + Pow2(k) * Bitwise(op, b, d)
    ensures Bitwise(op, a, c) < Pow2(k)
  {
    hide Bitwise, Pow2, Join;
    BitwiseJoin(op, k, a, b, c, d);
    JoinValue(k, a, b);
    JoinValue(k, c, d);
    JoinValue(k, Bitwise(op, a, c), Bitwise(op, b, d));
  }

  lemma BitwiseStep(op: BitOp, x: nat, y: nat)
    ensures Bitwise(op, x, y) == 2 * Bitwise(op, x / 2, y / 2) + Bit(op, x % 2, y % 2)
  {
    if x == 0 && y == 0 {
      assert Bitwise(op, 0, 0) == 0;
    }
  }

  lemma {:induction false} BitwiseZero(x: nat)
    ensures Bitwise(And, x, 0) == 0 == Bitwise(And, 0, x)
    ensures Bitwise(Or, x, 0) == x == Bitwise(Or, 0, x)
    ensures Bitwise(Xor, x, 0) == x == Bitwise(Xor, 0, x)
  {
    if x == 0 {
    } else {
      BitwiseZero(x / 2);
    }
  }

  function WithOnes(op: BitOp, x: nat, m: nat): nat
    requires x <= m
  {
    match op case And => x case Or => m case Xor => m - x
  }

  lemma {:induction false} OnesFor(op: BitOp, k: nat, x: nat)
    requires x < Pow2(k)
    ensures Bitwise(op, x, Pow2(k) - 1) == WithOnes(op, x, Pow2(k) - 1) == Bitwise(op, Pow2(k) - 1, x)
    decreases k
  {
    hide Bitwise;
    BitwiseZero(0);
    if k == 0 {
    } else {
      var m := Pow2(k) - 1;
      HalveSum(Pow2(k - 1) - 1, 1);
      OnesFor(op, k - 1, x / 2);
      BitwiseStep(op, x, m);
      BitwiseStep(op, m, x);
    }
  }

  /** Against a number whose k bits are all ones. */
  lemma BitwiseOnes(k: nat, x: nat)
    requires x < Pow2(k)
    ensures Bitwise(And, x, Pow2(k) - 1) == x == Bitwise(And, Pow2(k) - 1, x)
    ensures Bitwise(Or, x, Pow2(k) - 1) == Pow2(k) - 1 == Bitwise(Or, Pow2(k) - 1, x)
    ensures Bitwise(Xor, x, Pow2(k) - 1) == Pow2(k) - 1 - x == Bitwise(Xor, Pow2(k) - 1, x)
  {
    hide Bitwise, Pow2;
    OnesFor(And, k, x);
    OnesFor(Or, k, x);
    OnesFor(Xor, k, x);
  }

  lemma {:induction false} BitwiseBound(op: BitOp, k: nat, x: nat, y: nat)
    requires x < Pow2(k) && y < Pow2(k)
    ensures Bitwise(op, x, y) < Pow2(k)
  {
    hide Bitwise, Pow2;
    BitwiseSplit(op, k, x, 0, y, 0);
  }

  lemma Recompose(x: nat, p: nat)
    requires p >= 1
    ensures x == x % p + p * (x / p) && x / p >= 0
  {
    DivShrinks(x, p);
  }

  /** Masking with 2^k - 1 keeps the low k bits. */
  lemma MaskLow(k: nat, x: nat)
    ensures Bitwise(And, x, Pow2(k) - 1) == x % Pow2(k)
  {
    hide Bitwise, Pow2;
    var p := Pow2(k);
    Recompose(x, p);
    BitwiseSplit(And, k, x % p, x / p, p - 1, 0);
    BitwiseOnes(k, x % p);
    BitwiseZero(x / p);
  }

  lemma QuotientBelow(x: nat, p: nat, q: nat)
    requires p >= 1 && x < p * q
    ensures x / p < q
  {
    Recompose(x, p);
    if x / p >= q {
      MulMono(p, q, x / p);
    }
  }

  lemma MulMono(p: nat, x: nat, y: nat)
    requires x <= y
    ensures p * x <= p * y
  {
  }

  lemma MulPred(p: nat, q: nat)
    requires q >= 1
    ensures p * (q - 1) == p * q - p
  {
  }

  /** Quotient and remainder by p are determined by x == low + p * high. */
  lemma DivMod(x: nat, p: nat, low: nat, high: nat)
    requires low < p && x == low + p * high
    ensures x % p == low && x / p == high
  {
    Recompose(x, p);
    QuotientUnique(p, x % p, x / p, low, high);
  }

  lemma QuotientUnique(p: nat, r: nat, q: nat, low: nat, high: nat)
    requires r < p && low < p && r + p * q == low + p * high
    ensures r == low && q == high
  {
    if q < high {
      MulMono(p, q + 1, high);
      MulNext(p, q);
    } else if q > high {
      MulMono(p, high + 1, q);
      MulNext(p, high);
    }
  }

  lemma MulNext(p: nat, q: nat)
    ensures p * (q + 1) == p * q + p
  {
  }

  /** Multiplying by a positive number keeps order. */
  lemma Cancel(a: int, b: int, p: int)
    requires p >= 1
    ensures a * p < b * p <==> a < b
  {
    Positive(b - a, p);
    Positive(a - b, p);
    TimesDifference(b, a, p);
    TimesDifference(a, b, p);
  }

  lemma Positive(x: int, p: int)
    requires p >= 1
    ensures x >= 1 ==> x * p >= 1
    ensures x >= 0 ==> x * p >= 0
  {
  }

  lemma TimesDifference(a: int, b: int, p: int)
    ensures (a - b) * p == a * p - b * p
  {
  }

  /** Dividing a negative number by a positive one, rounding down, brings it closer to zero. */
  lemma QuotientNegative(x: int, p: nat)
    requires x < 0 && p >= 1
    ensures x <= x / p < 0
  {
    var q := x / p;
    assert q * p <= x < q * p + p && q * p + p == (q + 1) * p;
    MulMono(-x, 1, p);
    Cancel(q, 0, p);
    Cancel(x, q + 1, p);
  }

  /** Masking an n-bit number with 2^n - 2^k clears the low k bits. */
  lemma MaskHigh(k: nat, n: nat, x: nat)
    requires k <= n && x < Pow2(n)
    ensures Pow2(k) <= Pow2(n)
    ensures Bitwise(And, x, Pow2(n) - Pow2(k)) == x - x % Pow2(k)
  {
    hide Bitwise, Pow2;
    Pow2Mono(k, n);
    var low, high, mask := x % Pow2(k), x / Pow2(k), Pow2(n) - Pow2(k);
    Recompose(x, Pow2(k));
    assert high < Pow2(n - k) && mask == Pow2(k) * (Pow2(n - k) - 1) by {
      Pow2Add(k, n - k);
      QuotientBelow(x, Pow2(k), Pow2(n - k));
      MulPred(Pow2(k), Pow2(n - k));
    }
    MaskHighParts(k, low, high, n - k);
  }

  lemma MaskHighParts(k: nat, low: nat, high: nat, j: nat)
    requires low < Pow2(k) && high < Pow2(j)
    ensures Bitwise(And, low + Pow2(k) * high, Pow2(k) * (Pow2(j) - 1)) == Pow2(k) * high
  {
    hide Bitwise, Pow2;
    BitwiseSplit(And, k, low, high, 0, Pow2(j) - 1);
    BitwiseOnes(j, high);
    BitwiseZero(low);
  }

  /** Or-ing parts that share no bit is adding them. */
  lemma OrDisjoint(k: nat, low: nat, high: nat)
    requires low < Pow2(k)
    ensures Bitwise(Or, low, Pow2(k) * high) == low + Pow2(k) * high == Bitwise(Or, Pow2(k) * high, low)
  {
    hide Bitwise, Pow2;
    BitwiseSplit(Or, k, low, 0, 0, high);
    BitwiseSplit(Or, k, 0, high, low, 0);
    BitwiseZero(low);
    BitwiseZero(high);
    assert Pow2(k) * 0 == 0;
  }

  function And32(x: u32, y: u32): u32 { Pow2Values(); BitwiseBound(And, 32, x, y); Bitwise(And, x, y) }
  function Or32(x: u32, y: u32): u32 { Pow2Values(); BitwiseBound(Or, 32, x, y); Bitwise(Or, x, y) }
  function Xor32(x: u32, y: u32): u32 { Pow2Values(); BitwiseBound(Xor, 32, x, y); Bitwise(Xor, x, y) }
  function And64(x: u64, y: u64): u64 { Pow2Values(); BitwiseBound(And, 64, x, y); Bitwise(And, x, y) }
  function Or64(x: u64, y: u64): u64 { Pow2Values(); BitwiseBound(Or, 64, x, y); Bitwise(Or, x, y) }
  function Xor64(x: u64, y: u64): u64 { Pow2Values(); BitwiseBound(Xor, 64, x, y); Bitwise(Xor, x, y) }
  function Not32(x: u32): u32 { TWO32 - 1 - x }
  function Not64(x: u64): u64 { TWO64 - 1 - x }

  /** Little-endian value of a byte sequence, as the host lays numbers out. */
  function LE(bs: seq<u8>): nat
  {
    if bs == [] then 0 else bs[0] + 0x100 * LE(bs[1..])
  }

  /** The n low bytes of v, least significant first. */
  function Enc(v: nat, n: nat): (bs: seq<u8>)
    ensures |bs| == n
  {
    if n == 0 then [] else [v % 0x100] + Enc(v / 0x100, n - 1)
  }

  lemma {:induction false} LEBound(bs: seq<u8>)
    ensures LE(bs) < Pow2(8 * |bs|)
  {
    if bs == [] {
    } else {
      LEBound(bs[1..]);
      Pow2Add(8, 8 * |bs[1..]|);
      assert Pow2(8) == 0x100;
    }
  }

  lemma {:induction false} LEConcat(a: seq<u8>, b: seq<u8>)
    ensures LE(a + b) == LE(a) + Pow2(8 * |a|) * LE(b)
  {
    if a == [] {
      assert a + b == b;
    } else {
      assert (a + b)[1..] == a[1..] + b;
      LEConcat(a[1..], b);
      Pow2Add(8, 8 * |a[1..]|);
      assert Pow2(8) == 0x100;
      assert 0x100 * (Pow2(8 * |a[1..]|) * LE(b)) == Pow2(8 * |a|) * LE(b);
    }
  }

  lemma {:induction false} EncLE(bs: seq<u8>)
    ensures Enc(LE(bs), |bs|) == bs
  {
    if bs == [] {
    } else {
      EncLE(bs[1..]);
      assert LE(bs) % 0x100 == bs[0] && LE(bs) / 0x100 == LE(bs[1..]);
    }
  }

  lemma {:induction false} LEEnc(v: nat, n: nat)
    requires v < Pow2(8 * n)
    ensures LE(Enc(v, n)) == v
  {
    if n == 0 {
    } else {
      Pow2Add(8, 8 * (n - 1));
      assert Pow2(8) == 0x100;
      LEEnc(v / 0x100, n - 1);
    }
  }

  /** Enc keeps only the low bytes of a number. */
  lemma EncDropsHigh(v: nat, n: nat)
    ensures Enc(v, n) == Enc(v % Pow2(8 * n), n)
  {
    var p := Pow2(8 * n);
    Recompose(v, p);
    EncIgnores(v % p, v / p, n);
  }

  lemma {:induction false} EncIgnores(low: nat, high: nat, n: nat)
    ensures Enc(low + Pow2(8 * n) * high, n) == Enc(low, n)
  {
    if n == 0 {
    } else {
      Pow2Add(8, 8 * (n - 1));
      assert Pow2(8) == 0x100;
      var h := Pow2(8 * (n - 1)) * high;
      assert Pow2(8 * n) * high == 0x100 * h;
      EncIgnores(low / 0x100, high, n - 1);
      assert (low + 0x100 * h) / 0x100 == low / 0x100 + h;
    }
  }
}
