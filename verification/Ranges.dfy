/** Which block of memory is dumped: the scans over write tags and zero bytes around the entry point, the alignment of
    the low end, and what the dump keeps of the block. */
module Ranges {
  import opened Words
  import opened Memory
  import opened Elf

  // ----- The four scans; None where a scan would index outside the arrays -----

  function ScanDown(tags: Tags, a: u32): (r: Option<u32>)
    ensures r.Some? ==> r.value <= a <= MEMSIZE
  {
    if a == 0 || a > MEMSIZE then None
    else if tags[a - 1].written then ScanDown(tags, a - 1)
    else Some(a)
  }

  function ScanUp(tags: Tags, a: u32): (r: Option<u32>)
    ensures r.Some? ==> a <= r.value < MEMSIZE - 1
    decreases MEMSIZE - a
  {
    if a + 1 >= MEMSIZE then None
    else if tags[a + 1].written then ScanUp(tags, a + 1)
    else Some(a)
  }

  function SkipUp(bytes: Bytes, a: u32): (r: Option<u32>)
    ensures r.Some? ==> a <= r.value < MEMSIZE
    decreases MEMSIZE - a
  {
    if a >= MEMSIZE then None
    else if bytes[a] == 0 then SkipUp(bytes, a + 1)
    else Some(a)
  }

  function SkipDown(bytes: Bytes, a: u32): (r: Option<u32>)
    ensures r.Some? ==> 0 < r.value <= a <= MEMSIZE
  {
    if a == 0 || a > MEMSIZE then None
    else if bytes[a - 1] == 0 then SkipDown(bytes, a - 1)
    else Some(a)
  }

  /** The add, mask, subtract form by which the low end is aligned. */
  function AlignDown(lo: u32, align: u32): u32
  {
    if And32(lo, U32(align - 1)) != 0 then U32(And32(U32(lo + align), U32(TWO32 - align)) - align) else lo
  }

  /** First and last byte that the tag scans reach from b, and the ends of the dump. */
  datatype Range = Range(low: u32, high: u32, lo: u32, hi: u32)

  function FindRange(m: Mem, b: u32, align: u32): Option<Range>
  {
    match ScanDown(m.tags, b)
    case None => None
    case Some(low) =>
      match SkipUp(m.bytes, low)
      case None => None
      case Some(first) =>
        match ScanUp(m.tags, b)
        case None => None
        case Some(high) =>
          match SkipDown(m.bytes, high)
          case None => None
          case Some(hi) => Some(Range(low, high, AlignDown(first, align), hi))
  }

  /** The output file; None where the scans or the dump leave the arrays. */
  function Dump(m: Mem, b: u32, align: u32): Option<seq<u8>>
  {
    match FindRange(m, b, align)
    case None => None
    case Some(r) => if r.lo <= r.hi then Some(EmitElf(b, r.lo, m.bytes[r.lo..r.hi])) else None
  }

  // ----- What the scans find -----

  /** The low end: everything from there to b is written, and the byte before is not. */
  lemma {:induction false} ScanDownFinds(tags: Tags, a: u32)
    ensures ScanDown(tags, a).Some? ==>
              var low := ScanDown(tags, a).value;
              && 0 < low
              && !tags[low - 1].written
              && (forall i :: low <= i < a ==> tags[i].written)
    ensures ScanDown(tags, a).Some? <==> 0 < a <= MEMSIZE && exists i :: 0 <= i < a && !tags[i].written
    decreases a
  {
    if a == 0 || a > MEMSIZE || !tags[a - 1].written {
    } else {
      ScanDownFinds(tags, a - 1);
    }
  }

  lemma {:induction false} ScanUpFinds(tags: Tags, a: u32)
    ensures ScanUp(tags, a).Some? ==>
              var high := ScanUp(tags, a).value;
              && !tags[high + 1].written
              && (forall i :: a < i <= high ==> tags[i].written)
    ensures ScanUp(tags, a).Some? <==> exists i :: a < i < MEMSIZE && !tags[i].written
    decreases MEMSIZE - a
  {
    if a + 1 >= MEMSIZE || !tags[a + 1].written {
    } else {
      ScanUpFinds(tags, a + 1);
    }
  }

  lemma {:induction false} SkipUpFinds(bytes: Bytes, a: u32)
    ensures SkipUp(bytes, a).Some? ==>
              && bytes[SkipUp(bytes, a).value] != 0
              && forall i :: a <= i < SkipUp(bytes, a).value ==> bytes[i] == 0
    ensures SkipUp(bytes, a).Some? <==> exists i :: a <= i < MEMSIZE && bytes[i] != 0
    decreases MEMSIZE - a
  {
    if a >= MEMSIZE || bytes[a] != 0 {
    } else {
      SkipUpFinds(bytes, a + 1);
    }
  }

  lemma {:induction false} SkipDownFinds(bytes: Bytes, a: u32)
    ensures SkipDown(bytes, a).Some? ==>
              && bytes[SkipDown(bytes, a).value - 1] != 0
              && forall i :: SkipDown(bytes, a).value <= i < a ==> bytes[i] == 0
    ensures SkipDown(bytes, a).Some? <==> 0 < a <= MEMSIZE && exists i :: 0 <= i < a && bytes[i] != 0
    decreases a
  {
    if a == 0 || a > MEMSIZE || bytes[a - 1] != 0 {
    } else {
      SkipDownFinds(bytes, a - 1);
    }
  }

  // ----- Alignment -----

  ghost predicate IsPow2(a: u32) { exists k: nat :: k < 32 && a == Pow2(k) }

  lemma Divides32(k: nat)
    requires k < 32
    ensures Pow2(k) * Pow2(32 - k) == TWO32 && Pow2(k) <= TWO32 / 2
  {
    hide Pow2;
    Pow2Values();
    Pow2Add(k, 32 - k);
    Pow2Mono(k, 31);
    assert Pow2(32) == Pow2(31) * Pow2(1) && Pow2(1) == 2 by { Pow2Add(31, 1); SmallPow2(); }
  }

  /** For a power of two the form is rounding down, even when the addition wraps. */
  lemma AlignDownRounds(lo: u32, k: nat)
    requires k < 32
    ensures Pow2(k) < TWO32 && AlignDown(lo, Pow2(k)) == lo - lo % Pow2(k)
  {
    hide Pow2, And32, U32, AlignDown;
    Divides32(k);
    Masks(lo, k);
    Masks(U32(lo + Pow2(k)), k);
    SameRemainder(lo, Pow2(k), Pow2(32 - k));
    RemainderBelow(lo, Pow2(k));
    MasksAlignDown(lo, Pow2(k), lo % Pow2(k));
  }

  lemma MasksAlignDown(lo: u32, p: u32, r: nat)
    requires And32(lo, U32(p - 1)) == r <= lo
    requires And32(U32(lo + p), U32(TWO32 - p)) == U32(lo + p) - r
    ensures AlignDown(lo, p) == lo - r
  {
    hide And32;
  }

  lemma Masks(x: u32, k: nat)
    requires k < 32
    ensures Pow2(k) < TWO32
    ensures And32(x, U32(Pow2(k) - 1)) == x % Pow2(k)
    ensures And32(x, U32(TWO32 - Pow2(k))) == x - x % Pow2(k)
  {
    hide Pow2, Bitwise, U32;
    Pow2Below(k);
    SmallWord(Pow2(k) - 1);
    SmallWord(TWO32 - Pow2(k));
    MaskLow(k, x);
    HighMask(x, k);
  }

  lemma SmallWord(x: nat)
    requires x < TWO32
    ensures U32(x) == x
  {
  }

  lemma HighMask(x: u32, k: nat)
    requires k < 32
    ensures Pow2(k) <= TWO32 && Bitwise(And, x, TWO32 - Pow2(k)) == x - x % Pow2(k)
  {
    hide Pow2, Bitwise;
    Pow2Values();
    MaskHigh(k, 32, x);
  }

  lemma Pow2Below(k: nat)
    requires k < 32
    ensures 1 <= Pow2(k) < TWO32
  {
    hide Pow2;
    Divides32(k);
  }

  lemma RemainderBelow(lo: nat, p: nat)
    requires p >= 1
    ensures 0 <= lo % p <= lo
  {
    DivShrinks(lo, p);
    if lo / p == 0 {
    } else {
      MulMono(p, 0, lo / p);
    }
    Recompose(lo, p);
  }

  lemma SameRemainder(lo: u32, p: nat, q: nat)
    requires p >= 1 && p * q == TWO32
    ensures U32(lo + p) % p == lo % p
  {
    var h, l := lo / p, lo % p;
    Recompose(lo, p);
    MulNext(p, h);
    if lo + p < TWO32 {
      SmallWord(lo + p);
      DivMod(lo + p, p, l, h + 1);
    } else {
      QuotientBelow(lo, p, q);
      LastQuotient(p, q, l, h);
      assert p * 0 == 0;
      DivMod(l, p, l, 0);
    }
  }

  /** Only the last multiple of p may wrap. */
  lemma LastQuotient(p: nat, q: nat, l: nat, h: nat)
    requires l < p && h < q && p * q == TWO32 && l + p * h + p >= TWO32
    ensures h + 1 == q && U32(l + p * h + p) == l
  {
    MulNext(p, h);
    if h + 1 < q {
      MulMono(p, h + 2, q);
      MulNext(p, h + 1);
    }
  }

  /** The lowest bit that is zero, and the bits above it. */
  function LowestZero(m: nat): nat { if m % 2 == 0 then 0 else 1 + LowestZero(m / 2) }
  function AboveZero(m: nat): nat { if m % 2 == 0 then m / 2 else AboveZero(m / 2) }

  lemma {:induction false} LowestZeroSplits(m: nat)
    ensures var p := Pow2(LowestZero(m)); m == (p - 1) + p * (2 * AboveZero(m))
    decreases m
  {
    if m % 2 == 0 {
      assert Pow2(0) == 1;
    } else {
      LowestZeroSplits(m / 2);
      DoubleBoth(Pow2(LowestZero(m / 2)), AboveZero(m / 2));
    }
  }

  lemma DoubleBoth(p: nat, h: nat)
    ensures (2 * p) * (2 * h) == 2 * (p * (2 * h))
  {
  }

  /** The lowest zero bit has no bit in common with the number. */
  lemma NoCommonBit(j: nat, h: nat)
    ensures Bitwise(And, Pow2(j), (Pow2(j) - 1) + Pow2(j) * (2 * h)) == 0
  {
    hide Pow2, Bitwise;
    BitwiseSplit(And, j, 0, 1, Pow2(j) - 1, 2 * h);
    BitwiseStep(And, 1, 2 * h);
    BitwiseZero(Pow2(j) - 1);
    BitwiseZero(h);
    assert 0 + Pow2(j) * 1 == Pow2(j) && Pow2(j) * 0 == 0;
  }

  /** For any other alignment there is an address that the form does not round down. */
  lemma AlignDownFails(align: u32) returns (x: u32)
    requires align >= 1 && !IsPow2(align)
    ensures 0 < x < align && AlignDown(x, align) == x && x - x % align == 0
  {
    hide Bitwise, Pow2, U32;
    var m := align - 1;
    SmallWord(m);
    var j, h := LowestZero(m), AboveZero(m);
    LowestZeroSplits(m);
    NoCommonBit(j, h);
    PowerBelow(align, j, h);
    x := Pow2(j);
    SmallRemainder(x, align);
  }

  lemma PowerBelow(align: u32, j: nat, h: nat)
    requires align >= 1 && !IsPow2(align) && align - 1 == (Pow2(j) - 1) + Pow2(j) * (2 * h)
    ensures Pow2(j) < align
  {
    hide Pow2;
    if h == 0 {
      assert Pow2(j) * (2 * h) == 0;
      assert align == Pow2(j);
      Pow2Values();
      if j >= 32 {
        Pow2Mono(32, j);
      }
    } else {
      MulMono(Pow2(j), 1, 2 * h);
    }
  }

  lemma SmallRemainder(x: nat, a: nat)
    requires x < a
    ensures x % a == x
  {
  }

  /** The README offers any alignment; rounding down is what every address gets exactly for the powers of two. */
  lemma AlignmentMustBePow2(align: u32)
    requires align >= 1
    ensures IsPow2(align) <==> forall lo: u32 :: AlignDown(lo, align) == lo - lo % align
  {
    if IsPow2(align) {
      var k: nat :| k < 32 && align == Pow2(k);
      forall lo: u32 ensures AlignDown(lo, align) == lo - lo % align {
        AlignDownRounds(lo, k);
      }
    } else {
      var x := AlignDownFails(align);
      assert AlignDown(x, align) != x - x % align;
    }
  }

  /** Complements have no bit in common. */
  lemma {:induction false} AndComplement(n: nat, h: nat)
    requires h < Pow2(n)
    ensures Bitwise(And, h, Pow2(n) - 1 - h) == 0
  {
    hide Bitwise;
    if n == 0 {
      BitwiseZero(0);
    } else {
      var c := Pow2(n) - 1 - h;
      AndComplement(n - 1, h / 2);
      BitwiseStep(And, h, c);
      assert c / 2 == Pow2(n - 1) - 1 - h / 2 && c % 2 == 1 - h % 2;
    }
  }

  lemma OnePlusBit(j: nat)
    requires j >= 1
    ensures Pow2(j + 1) == 2 * Pow2(j) && Pow2(j) >= 2
    ensures Bitwise(And, 1 + Pow2(j), Pow2(j)) == Pow2(j)
  {
    hide Bitwise, Pow2;
    SmallPow2();
    Pow2Mono(1, j);
    Pow2Add(j, 1);
    BitwiseSplit(And, j, 1, 1, 0, 1);
    BitwiseStep(And, 1, 1);
    BitwiseZero(1);
    BitwiseZero(0);
    TimesOne(Pow2(j));
  }

  lemma TimesOne(p: int)
    ensures p * 1 == p && p * 0 == 0
  {
  }

  /** An even number plus one, masked with the number's negation, is the number's lowest bit. */
  lemma LowestBit(j: nat, h: nat, n: nat, x: nat, y: nat)
    requires j >= 1 && h < Pow2(n)
    requires x == 1 + Pow2(j) + Pow2(j + 1) * h && y == Pow2(j) + Pow2(j + 1) * (Pow2(n) - 1 - h)
    ensures Bitwise(And, x, y) == Pow2(j)
  {
    hide Bitwise, Pow2;
    OnePlusBit(j);
    BitwiseSplit(And, j + 1, 1 + Pow2(j), h, Pow2(j), Pow2(n) - 1 - h);
    AndComplement(n, h);
    TimesOne(Pow2(j + 1));
  }

  /** The bits of an alignment that is not a power of two, and of its negation. */
  lemma SplitAlignment(align: u32, j: nat, h: nat)
    requires align >= 1 && !IsPow2(align) && align - 1 == (Pow2(j) - 1) + Pow2(j) * (2 * h)
    ensures j <= 31 && 1 <= h < Pow2(31 - j) && Pow2(j) < align
    ensures align == Pow2(j) + Pow2(j + 1) * h
    ensures TWO32 - align == Pow2(j) + Pow2(j + 1) * (Pow2(31 - j) - 1 - h)
  {
    hide Pow2, IsPow2;
    var p := Pow2(j);
    PowerBelow(align, j, h);
    Pow2Values();
    SmallPow2();
    Pow2Add(j, 1);
    DoubleIn(p, h);
    assert h >= 1;
    MulMono(2 * p, 1, h);
    if j + 1 >= 32 {
      Pow2Mono(32, j + 1);
    }
    Pow2Add(j + 1, 31 - j);
    var q := Pow2(31 - j);
    if h >= q {
      MulMono(2 * p, q, h);
    }
    Distribute(2 * p, q, h);
  }

  lemma DoubleIn(p: int, h: int)
    ensures p * (2 * h) == (2 * p) * h
    ensures h == 0 ==> p * (2 * h) == 0
  {
  }

  lemma Distribute(a: int, q: int, h: int)
    ensures a * (q - 1 - h) == a * q - a - a * h
  {
  }

  /** Address 1 is not rounded down by an alignment that is not a power of two: an odd one leaves it, an even one sends
      it to the end of the address space. */
  lemma OneNotRounded(align: u32)
    requires align >= 1 && !IsPow2(align)
    ensures AlignDown(1, align) != 1 - 1 % align
  {
    hide Bitwise, Pow2, U32, IsPow2;
    var m := align - 1;
    var j, h := LowestZero(m), AboveZero(m);
    LowestZeroSplits(m);
    SplitAlignment(align, j, h);
    SmallWord(m);
    SmallWord(TWO32 - align);
    SmallRemainder(1, align);
    BitwiseStep(And, 1, m);
    BitwiseZero(m / 2);
    if m % 2 == 1 {
      SmallWord(1 + align);
      LowestBit(j, h, 31 - j, 1 + align, TWO32 - align);
      WrapsBelow(Pow2(j), align);
    }
  }

  lemma WrapsBelow(x: u32, y: u32)
    requires x < y
    ensures U32(x - y) != 0
  {
  }

  // ----- The dump -----

  /** Some byte of the block that the tag scans delimit is not zero. */
  ghost predicate HasData(bytes: Bytes, low: u32, high: u32)
  {
    exists i :: low <= i < high && i < MEMSIZE && bytes[i] != 0
  }

  /** The first nonzero byte of the block. */
  ghost predicate FirstData(bytes: Bytes, r: Range, first: nat)
  {
    r.low <= first < r.high && first < MEMSIZE && bytes[first] != 0 && forall i :: r.low <= i < first ==> bytes[i] == 0
  }

  /** The ends of the range, for a power of two. */
  ghost predicate LawfulRange(m: Mem, b: u32, p: nat, r: Range)
  {
    && p >= 1
    && 0 < r.low <= b <= r.high < MEMSIZE - 1
    && !m.tags[r.low - 1].written && !m.tags[r.high + 1].written
    && (forall i :: r.low <= i <= r.high && i != b ==> m.tags[i].written)
    && r.lo % p == 0
    && 0 < r.hi <= r.high && m.bytes[r.hi - 1] != 0
    && (HasData(m.bytes, r.low, r.high) ==>
          && r.lo < r.hi
          && (forall i :: r.low <= i < r.high && m.bytes[i] != 0 ==> r.lo <= i < r.hi)
          && exists first: nat :: FirstData(m.bytes, r, first) && r.lo <= first < r.lo + p)
  }

  lemma RangeLaw(m: Mem, b: u32, k: nat)
    requires k < 32
    ensures Pow2(k) < TWO32
    ensures FindRange(m, b, Pow2(k)).Some? ==> LawfulRange(m, b, Pow2(k), FindRange(m, b, Pow2(k)).value)
  {
    hide Pow2, AlignDown, HasData, FirstData, ScanDown, ScanUp, SkipUp, SkipDown;
    Divides32(k);
    if FindRange(m, b, Pow2(k)).Some? {
      var r := FindRange(m, b, Pow2(k)).value;
      var first := SkipUp(m.bytes, r.low).value;
      ScanDownFinds(m.tags, b);
      ScanUpFinds(m.tags, b);
      SkipUpFinds(m.bytes, r.low);
      SkipDownFinds(m.bytes, r.high);
      AlignDownRounds(first, k);
      Recompose(first, Pow2(k));
      RemainderBelow(first, Pow2(k));
      DivMod(r.lo, Pow2(k), 0, first / Pow2(k));
      DataOrder(m.bytes, r, first);
    }
  }

  lemma DataOrder(bytes: Bytes, r: Range, first: u32)
    requires SkipUp(bytes, r.low) == Some(first) && SkipDown(bytes, r.high) == Some(r.hi)
    ensures first < r.hi <==> HasData(bytes, r.low, r.high)
    ensures HasData(bytes, r.low, r.high) ==> FirstData(bytes, r, first)
    ensures HasData(bytes, r.low, r.high) ==>
              forall i :: r.low <= i < r.high && bytes[i] != 0 ==> first <= i < r.hi
  {
    hide SkipUp, SkipDown;
    SkipUpFinds(bytes, r.low);
    SkipDownFinds(bytes, r.high);
    if first < r.hi {
      assert r.low <= first < r.high && bytes[first] != 0;
    }
    if HasData(bytes, r.low, r.high) {
      var i :| r.low <= i < r.high && i < MEMSIZE && bytes[i] != 0;
    }
  }

  /** Where the range is in order, and where a file can be written at all, even an empty one. Besides the data of the
      block, bytes below it count that rounding down brings in: those between the aligned low end and the block. */
  lemma RangeInOrderIff(m: Mem, b: u32, k: nat)
    requires k < 32
    ensures Pow2(k) < TWO32
    ensures FindRange(m, b, Pow2(k)).Some? ==>
              var r := FindRange(m, b, Pow2(k)).value;
              var first := SkipUp(m.bytes, r.low).value;
              && (r.lo < r.hi <==>
                    HasData(m.bytes, r.low, r.high) || HasByte(m.bytes, first - first % Pow2(k), r.low))
              && (Dump(m, b, Pow2(k)).Some? <==>
                    HasData(m.bytes, r.low, r.high) || HasByte(m.bytes, first - first % Pow2(k) - 1, r.low))
  {
    hide Pow2, AlignDown, HasData, HasByte, ScanDown, ScanUp, SkipUp, SkipDown, EmitElf;
    Divides32(k);
    if FindRange(m, b, Pow2(k)).Some? {
      var r := FindRange(m, b, Pow2(k)).value;
      var first := SkipUp(m.bytes, r.low).value;
      AlignDownRounds(first, k);
      ScanUpFinds(m.tags, b);
      StrayBytes(m.bytes, r, first, r.lo);
      StrayBytes(m.bytes, r, first, r.lo - 1);
    }
  }

  /** Some byte from address a on but below b is not zero. */
  ghost predicate HasByte(bytes: Bytes, a: int, b: nat)
  {
    exists i :: 0 <= i && a <= i < b && i < MEMSIZE && bytes[i] != 0
  }

  lemma StrayBytes(bytes: Bytes, r: Range, first: u32, a: int)
    requires SkipUp(bytes, r.low) == Some(first) && SkipDown(bytes, r.high) == Some(r.hi) && r.low <= r.high
    requires a <= first
    ensures a < r.hi <==> HasData(bytes, r.low, r.high) || HasByte(bytes, a, r.low)
  {
    hide SkipUp, SkipDown;
    SkipUpFinds(bytes, r.low);
    SkipDownFinds(bytes, r.high);
    DataOrder(bytes, r, first);
    if !HasData(bytes, r.low, r.high) {
      if a < r.hi {
        assert bytes[r.hi - 1] != 0 && a <= r.hi - 1 < r.low;
      }
    }
  }

  /** What reloading gives back. The block's last byte is never part of the dump: it survives only if it is zero. */
  ghost predicate ReloadAgrees(bytes: Bytes, b: u32, r: Range, reloaded: LoadResult)
  {
    && r.high < MEMSIZE && r.hi <= MEMSIZE
    && reloaded.Loaded?
    && reloaded.entry == b
    && (forall i :: r.low <= i < r.high ==> reloaded.bytes[i] == bytes[i])
    && reloaded.bytes[r.high] == 0
    && (forall i :: 0 <= i < MEMSIZE && !(r.lo <= i < r.hi) ==> reloaded.bytes[i] == 0)
    && (forall i :: r.lo <= i < r.hi ==> reloaded.bytes[i] == bytes[i])
  }

  /** For any alignment at all: an emitted file is an executable for the same machine that, loaded by the same loader,
      puts exactly its range of the emulated memory where it was and starts at b. */
  lemma DumpLoads(m: Mem, b: u32, align: u32)
    ensures Dump(m, b, align).Some? ==>
              var r := FindRange(m, b, align).value;
              && r.lo <= r.hi <= MEMSIZE
              && LoadElf(ZeroBytes(), Dump(m, b, align).value)
                 == Loaded(Overwrite(ZeroBytes(), r.lo, m.bytes[r.lo..r.hi]), b)
              && IsExecutable(Dump(m, b, align).value, b, r.lo, m.bytes[r.lo..r.hi])
  {
    hide AlignDown, ScanDown, ScanUp, SkipUp, SkipDown, EmitElf, LoadElf, Overwrite, IsExecutable;
    if Dump(m, b, align).Some? {
      var r := FindRange(m, b, align).value;
      EmittedFileLoads(ZeroBytes(), b, r.lo, m.bytes[r.lo..r.hi]);
      EmitsExecutable(b, r.lo, m.bytes[r.lo..r.hi]);
    }
  }

  /** End to end: the emitted file, loaded by the same loader into zeroed memory, agrees with the emulated memory on
      the whole block from the first address that the scans reach up to, but not including, the last one; all other
      bytes outside the dump are zero; and it starts at b. If the block has data, there is such a file. */
  lemma DumpReloads(m: Mem, b: u32, k: nat)
    requires k < 32
    ensures Pow2(k) < TWO32
    ensures FindRange(m, b, Pow2(k)).Some? ==>
              var r := FindRange(m, b, Pow2(k)).value;
              HasData(m.bytes, r.low, r.high) ==> Dump(m, b, Pow2(k)).Some?
    ensures Dump(m, b, Pow2(k)).Some? ==>
              ReloadAgrees(m.bytes, b, FindRange(m, b, Pow2(k)).value,
                           LoadElf(ZeroBytes(), Dump(m, b, Pow2(k)).value))
  {
    hide Pow2, FindRange, EmitElf, LoadElf, HasData;
    Divides32(k);
    if FindRange(m, b, Pow2(k)).Some? {
      RangeLaw(m, b, k);
      DumpLoads(m, b, Pow2(k));
      DataInside(m, b, k);
    }
  }

  /** Every byte of the block outside the dump is zero, whether or not the block has data. */
  lemma DataInside(m: Mem, b: u32, k: nat)
    requires k < 32 && Pow2(k) < TWO32 && FindRange(m, b, Pow2(k)).Some?
    ensures var r := FindRange(m, b, Pow2(k)).value;
            forall i :: r.low <= i < r.high && !(r.lo <= i < r.hi) ==> m.bytes[i] == 0
  {
    hide Pow2, FindRange;
    RangeLaw(m, b, k);
  }

  /** So the whole block of written memory around the entry point comes back exactly if its last byte is zero. */
  lemma WholeBlockIffLastByteZero(m: Mem, b: u32, k: nat)
    requires k < 32
    ensures Pow2(k) < TWO32
    ensures Dump(m, b, Pow2(k)).Some? ==>
              var r, reloaded := FindRange(m, b, Pow2(k)).value, LoadElf(ZeroBytes(), Dump(m, b, Pow2(k)).value);
              && r.low <= r.high < MEMSIZE
              && reloaded.Loaded?
              && ((forall i :: r.low <= i <= r.high ==> reloaded.bytes[i] == m.bytes[i]) <==> m.bytes[r.high] == 0)
  {
    hide Pow2, FindRange, EmitElf, LoadElf;
    Divides32(k);
    if Dump(m, b, Pow2(k)).Some? {
      RangeLaw(m, b, k);
      DumpReloads(m, b, k);
    }
  }

  // ----- Whether the entry point lies in the dump -----

  /** The dump holds the entry point exactly if there is data at or below the aligned unit of the entry point, and data
      from the entry point on: a program that begins with zeros may start outside its own file. */
  lemma EntryInDumpIff(m: Mem, b: u32, k: nat)
    requires k < 32
    ensures Pow2(k) < TWO32
    ensures FindRange(m, b, Pow2(k)).Some? ==>
              var r := FindRange(m, b, Pow2(k)).value;
              r.lo <= b < r.hi <==>
                HasByte(m.bytes, r.low, b - b % Pow2(k) + Pow2(k)) && HasByte(m.bytes, b, r.high)
  {
    hide Pow2, AlignDown, HasByte, ScanDown, ScanUp, SkipUp, SkipDown;
    Divides32(k);
    if FindRange(m, b, Pow2(k)).Some? {
      var r := FindRange(m, b, Pow2(k)).value;
      var first := SkipUp(m.bytes, r.low).value;
      AlignDownRounds(first, k);
      RemainderBelow(b, Pow2(k));
      SameUnit(first, b, Pow2(k));
      BelowByte(m.bytes, r.low, b - b % Pow2(k) + Pow2(k));
      AboveByte(m.bytes, b, r.high);
    }
  }

  lemma BelowByte(bytes: Bytes, low: u32, x: nat)
    ensures SkipUp(bytes, low).Some? ==> (SkipUp(bytes, low).value < x <==> HasByte(bytes, low, x))
  {
    hide SkipUp;
    SkipUpFinds(bytes, low);
  }

  lemma AboveByte(bytes: Bytes, x: nat, high: u32)
    ensures SkipDown(bytes, high).Some? ==> (x < SkipDown(bytes, high).value <==> HasByte(bytes, x, high))
  {
    hide SkipDown;
    SkipDownFinds(bytes, high);
    if SkipDown(bytes, high).Some? && x < SkipDown(bytes, high).value {
      assert bytes[SkipDown(bytes, high).value - 1] != 0;
    }
  }

  /** A unit begins at or below b just when it is not above the unit of b. */
  lemma SameUnit(first: nat, b: nat, p: nat)
    requires p >= 1
    ensures first - first % p <= b <==> first < b - b % p + p
  {
    Recompose(first, p);
    Recompose(b, p);
    var q, u := first / p, b / p;
    MulNext(p, u);
    if q <= u {
      MulMono(p, q, u);
    } else {
      MulMono(p, u + 1, q);
    }
  }

  // ----- Memories for which the dump is not what it should be -----

  /** Four bytes from 0x104 on are written. Those bytes hold `inside`, their neighbours `outside`. */
  function Island(inside: u8, outside: u8): Mem
  {
    Mem(seq(MEMSIZE, i => if 0x104 <= i <= 0x107 then inside else if i == 0x103 || i == 0x108 then outside else 0),
        seq(MEMSIZE, i => Tag(false, 0x104 <= i <= 0x107)))
  }

  lemma IslandScans(inside: u8, outside: u8)
    ensures ScanDown(Island(inside, outside).tags, 0x104) == Some(0x104)
    ensures ScanUp(Island(inside, outside).tags, 0x104) == Some(0x107)
  {
    hide ScanDown, ScanUp;
    var t := Island(inside, outside).tags;
    assert !t[0x103].written && !t[0x108].written;
    assert forall i :: 0x104 <= i <= 0x107 ==> t[i].written;
    ScanDownFinds(t, 0x104);
    ScanUpFinds(t, 0x104);
  }

  lemma AllData()
    ensures SkipUp(Island(1, 0).bytes, 0x104) == Some(0x104) && SkipDown(Island(1, 0).bytes, 0x107) == Some(0x107)
  {
  }

  lemma NoData()
    ensures SkipUp(Island(0, 1).bytes, 0x104) == Some(0x108) && SkipDown(Island(0, 1).bytes, 0x107) == Some(0x104)
  {
    hide SkipUp, SkipDown;
    var bytes := Island(0, 1).bytes;
    assert bytes[0x103] == bytes[0x108] == 1;
    SkipUpFinds(bytes, 0x104);
    SkipDownFinds(bytes, 0x107);
  }

  /** A program that wrote four data bytes: the dump loses the last one. */
  lemma LastByteLost()
    ensures var m := Island(1, 0);
            && FindRange(m, 0x104, 16) == Some(Range(0x104, 0x107, 0x100, 0x107))
            && Dump(m, 0x104, 16).Some?
            && LoadElf(ZeroBytes(), Dump(m, 0x104, 16).value).Loaded?
            && m.bytes[0x107] == 1
            && LoadElf(ZeroBytes(), Dump(m, 0x104, 16).value).bytes[0x107] == 0
  {
    hide AlignDown, ScanDown, ScanUp, SkipUp, SkipDown, EmitElf, LoadElf, IsExecutable;
    var m := Island(1, 0);
    IslandScans(1, 0);
    AllData();
    AlignTo16(0x104);
    DumpLoads(m, 0x104, 16);
  }

  /** A program that wrote four zeros between data of its loader, with the alignment the unpacker has by default: the
      range is in order though the block has no data, and the file holds four bytes that were never written. */
  lemma StrayDump()
    ensures var m := Island(0, 1);
            && FindRange(m, 0x104, 16) == Some(Range(0x104, 0x107, 0x100, 0x104))
            && !HasData(m.bytes, 0x104, 0x107)
            && Dump(m, 0x104, 16).Some?
            && (forall i :: 0x100 <= i < 0x104 ==> !m.tags[i].written)
            && LoadElf(ZeroBytes(), Dump(m, 0x104, 16).value)
               == Loaded(Overwrite(ZeroBytes(), 0x100, m.bytes[0x100..0x104]), 0x104)
  {
    hide AlignDown, ScanDown, ScanUp, SkipUp, SkipDown, EmitElf, LoadElf, Overwrite, IsExecutable;
    var m := Island(0, 1);
    IslandScans(0, 1);
    NoData();
    AlignTo16(0x108);
    DumpLoads(m, 0x104, 16);
  }

  lemma AlignTo16(a: u32)
    ensures AlignDown(a, 16) == a - a % 16
  {
    hide AlignDown;
    assert Pow2(4) == 16;
    AlignDownRounds(a, 4);
  }

  /** A program whose entry point is followed by zeros: its file does not hold the address at which it starts. */
  function Sled(): Mem
  {
    Mem(seq(MEMSIZE, i => if 0x120 <= i <= 0x137 then 1 else 0), seq(MEMSIZE, i => Tag(false, 0x104 <= i <= 0x137)))
  }

  lemma SledScans()
    ensures ScanDown(Sled().tags, 0x104) == Some(0x104) && ScanUp(Sled().tags, 0x104) == Some(0x137)
    ensures SkipUp(Sled().bytes, 0x104) == Some(0x120) && SkipDown(Sled().bytes, 0x137) == Some(0x137)
  {
    hide ScanDown, ScanUp, SkipUp, SkipDown;
    var m := Sled();
    assert !m.tags[0x103].written && !m.tags[0x138].written;
    assert forall i :: 0x104 <= i <= 0x137 ==> m.tags[i].written;
    assert m.bytes[0x120] == m.bytes[0x136] == 1;
    assert forall i :: 0x104 <= i < 0x120 ==> m.bytes[i] == 0;
    ScanDownFinds(m.tags, 0x104);
    ScanUpFinds(m.tags, 0x104);
    SkipUpFinds(m.bytes, 0x104);
    SkipDownFinds(m.bytes, 0x137);
  }

  lemma EntryOutside()
    ensures FindRange(Sled(), 0x104, 16) == Some(Range(0x104, 0x137, 0x120, 0x137))
    ensures Dump(Sled(), 0x104, 16).Some?
    ensures LoadElf(ZeroBytes(), Dump(Sled(), 0x104, 16).value)
            == Loaded(Overwrite(ZeroBytes(), 0x120, Sled().bytes[0x120..0x137]), 0x104)
  {
    hide AlignDown, ScanDown, ScanUp, SkipUp, SkipDown, EmitElf, LoadElf, Overwrite, IsExecutable;
    SledScans();
    AlignTo16(0x120);
    DumpLoads(Sled(), 0x104, 16);
  }

  /** Two bytes, at x and after it, are written and not zero. */
  function Two(x: u32): Mem
  {
    Mem(seq(MEMSIZE, i => if x <= i <= x + 1 then 1 else 0), seq(MEMSIZE, i => Tag(false, x <= i <= x + 1)))
  }

  lemma TwoScans(x: u32, align: u32)
    requires 0 < x < MEMSIZE - 2
    ensures FindRange(Two(x), x, align) == Some(Range(x, x + 1, AlignDown(x, align), x + 1))
  {
    hide AlignDown, ScanDown, ScanUp, SkipUp, SkipDown;
    var m := Two(x);
    assert !m.tags[x - 1].written && m.tags[x + 1].written && !m.tags[x + 2].written;
    assert m.bytes[x] == m.bytes[x + 1] == 1;
    ScanDownFinds(m.tags, x);
    ScanUpFinds(m.tags, x);
    SkipUpFinds(m.bytes, x);
    SkipDownFinds(m.bytes, x + 1);
  }

  /** For any other alignment that a block can have room for there is a memory whose file is not aligned. */
  lemma UnalignedDump(align: u32) returns (m: Mem, b: u32)
    requires 1 <= align <= MEMSIZE / 2 && !IsPow2(align)
    ensures FindRange(m, b, align).Some? && FindRange(m, b, align).value.lo % align != 0
    ensures Dump(m, b, align).Some?
  {
    hide AlignDown, FindRange, EmitElf;
    b := AlignDownFails(align);
    m := Two(b);
    TwoScans(b, align);
    SmallRemainder(b, align);
  }

  /** So the low end that the scans find is rounded down, in every memory, exactly for the powers of two. */
  lemma RangesRoundedIff(align: u32)
    requires align >= 1
    ensures IsPow2(align) <==>
              forall m: Mem, b: u32 :: FindRange(m, b, align).Some? ==>
                var r := FindRange(m, b, align).value;
                r.lo == SkipUp(m.bytes, r.low).value - SkipUp(m.bytes, r.low).value % align
  {
    hide AlignDown, ScanDown, ScanUp, SkipUp, SkipDown, IsPow2;
    if IsPow2(align) {
      forall m: Mem, b: u32 | FindRange(m, b, align).Some?
        ensures var r := FindRange(m, b, align).value;
                r.lo == SkipUp(m.bytes, r.low).value - SkipUp(m.bytes, r.low).value % align
      {
        AlignmentMustBePow2(align);
      }
    } else {
      var m := Two(1);
      TwoScans(1, align);
      OneNotRounded(align);
      OneIsFirst();
      assert FindRange(m, 1, align).Some?;
    }
  }

  lemma OneIsFirst()
    ensures SkipUp(Two(1).bytes, 1) == Some(1)
  {
  }
}
