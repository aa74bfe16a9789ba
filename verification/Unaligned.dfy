/** The unaligned access pairs: a left and a right partial access together are one plain access at any address. */
module Unaligned {
  import opened Words
  import opened Memory
  import opened Registers
  import opened Interpreter

  // ----- Numbers as bytes -----

  lemma LESplit(bs: seq<u8>, i: nat)
    requires i <= |bs|
    ensures LE(bs) == LE(bs[..i]) + Pow2(8 * i) * LE(bs[i..])
    ensures LE(bs[..i]) < Pow2(8 * i) && LE(bs[i..]) < Pow2(8 * (|bs| - i))
  {
    hide LE, Pow2;
    assert bs == bs[..i] + bs[i..];
    LEConcat(bs[..i], bs[i..]);
    LEBound(bs[..i]);
    LEBound(bs[i..]);
  }

  /** Shifting right by i bytes drops the i lowest; masking keeps them. */
  lemma LEShiftRight(bs: seq<u8>, i: nat)
    requires i <= |bs|
    ensures LE(bs) / Pow2(8 * i) == LE(bs[i..])
    ensures LE(bs) % Pow2(8 * i) == LE(bs[..i])
  {
    LESplit(bs, i);
    DivMod(LE(bs), Pow2(8 * i), LE(bs[..i]), LE(bs[i..]));
  }

  /** Shifting left by i bytes within |bs| bytes drops the i highest. */
  lemma LEShiftLeft(bs: seq<u8>, i: nat)
    requires i <= |bs|
    ensures (LE(bs) * Pow2(8 * i)) % Pow2(8 * |bs|) == Pow2(8 * i) * LE(bs[..|bs| - i])
  {
    var n := |bs| - i;
    LESplit(bs, n);
    Pow2Add(8 * n, 8 * i);
    ShiftLeftParts(LE(bs), Pow2(8 * i), Pow2(8 * n), LE(bs[..n]), LE(bs[n..]));
  }

  lemma ShiftLeftParts(x: nat, q: nat, p: nat, low: nat, high: nat)
    requires x == low + p * high && low < p && q >= 1
    ensures (x * q) % (p * q) == q * low
  {
    assert q * low < p * q by {
      MulMono(q, low + 1, p);
    }
    assert x * q == q * low + (p * q) * high;
    DivMod(x * q, p * q, q * low, high);
  }

  lemma OrBytes(low: seq<u8>, high: seq<u8>)
    ensures Bitwise(Or, LE(low), Pow2(8 * |low|) * LE(high)) == LE(low + high)
    ensures Bitwise(Or, Pow2(8 * |low|) * LE(high), LE(low)) == LE(low + high)
  {
    hide LE, Bitwise, Pow2;
    LEBound(low);
    OrDisjoint(8 * |low|, LE(low), LE(high));
    LEConcat(low, high);
  }

  /** Masks and shifts by whole bytes. */
  lemma AndLow(bs: seq<u8>, i: nat)
    requires i <= |bs|
    ensures Bitwise(And, LE(bs), Pow2(8 * i) - 1) == LE(bs[..i])
  {
    hide LE, Bitwise, Pow2;
    MaskLow(8 * i, LE(bs));
    LEShiftRight(bs, i);
  }

  lemma AndHigh(bs: seq<u8>, i: nat)
    requires i <= |bs|
    ensures Pow2(8 * i) <= Pow2(8 * |bs|)
    ensures Bitwise(And, LE(bs), Pow2(8 * |bs|) - Pow2(8 * i)) == Pow2(8 * i) * LE(bs[i..])
  {
    hide LE, Bitwise, Pow2;
    LEBound(bs);
    MaskHigh(8 * i, 8 * |bs|, LE(bs));
    LESplit(bs, i);
    LEShiftRight(bs, i);
  }

  // ----- The four partial accesses on bytes; w is 4 or 8 -----

  function LoadLeft(w: nat): nat { if w == 4 then 0x22 else 0x1a }      // LWL, LDL
  function LoadRight(w: nat): nat { if w == 4 then 0x26 else 0x1b }     // LWR, LDR
  function LoadPlain(w: nat): nat { if w == 4 then 0x27 else 0x37 }     // LWU, LD
  function StoreLeft(w: nat): nat { if w == 4 then 0x2a else 0x2c }     // SWL, SDL
  function StoreRight(w: nat): nat { if w == 4 then 0x2e else 0x2d }    // SWR, SDR
  function StorePlain(w: nat): nat { if w == 4 then 0x2b else 0x3f }    // SW, SD

  /** Offset of an address in its aligned unit. */
  function Off(a: nat, w: nat): (k: nat)
    requires Wide(w)
    ensures k < w
  {
    if w == 4 then a % 4 else a % 8
  }

  predicate Wide(w: nat) { w == 4 || w == 8 }

  /** First byte of the aligned unit a byte lies in. */
  function Unit(a: nat, w: nat): nat
    requires Wide(w)
  {
    a - Off(a, w)
  }

  /** The low w bytes of a register. */
  function RegBytes(t: Reg, w: nat): (b: seq<u8>)
    ensures |b| == w
  {
    Enc(t.d0, w)
  }

  lemma RegBytesValue(t: Reg, w: nat)
    requires Wide(w)
    ensures LE(RegBytes(t, w)) == if w == 4 then Low(t) else t.d0
    ensures w == 4 ==> RegBytes(t, 4) == Enc(Low(t), 4)
  {
    Pow2Values();
    if w == 4 {
      EncDropsHigh(t.d0, 4);
      LEEnc(Low(t), 4);
    } else {
      LEEnc(t.d0, 8);
    }
  }

  lemma Pow2Bytes()
    ensures Pow2(0) == 1 && Pow2(8) == 0x100 && Pow2(16) == 0x1_0000 && Pow2(24) == 0x100_0000 && Pow2(32) == TWO32
    ensures Pow2(40) == 0x100_0000_0000 && Pow2(48) == 0x1_0000_0000_0000 && Pow2(56) == 0x100_0000_0000_0000
    ensures Pow2(64) == TWO64
  {
    Pow2Values();
    Pow2Add(32, 8);
    Pow2Add(32, 16);
    Pow2Add(32, 24);
  }

  /** The mask and shift tables are the byte masks and byte shifts. */
  lemma StoreTables(k: nat)
    ensures k < 4 ==> SWL_SHIFT[k] == 8 * (3 - k) && SWL_MASK[k] == Pow2(32) - Pow2(8 * (k + 1))
    ensures k < 4 ==> SWR_SHIFT[k] == 8 * k && SWR_MASK[k] == Pow2(8 * k) - 1
    ensures k < 8 ==> SDL_SHIFT[k] == 8 * (7 - k) && SDL_MASK[k] == Pow2(64) - Pow2(8 * (k + 1))
    ensures k < 8 ==> SDR_SHIFT[k] == 8 * k && SDR_MASK[k] == Pow2(8 * k) - 1
  {
    hide Pow2;
    Pow2Bytes();
    assert k < 8 ==> k in {0, 1, 2, 3, 4, 5, 6, 7};
  }

  lemma LoadTables(k: nat)
    ensures k < 4 ==> LWL_SHIFT[k] == 8 * (3 - k) && LWL_MASK[k] == Pow2(8 * (3 - k)) - 1
    ensures k < 4 ==> LWR_SHIFT[k] == 8 * k && LWR_MASK[k] == Pow2(32) - Pow2(8 * (4 - k))
    ensures k < 8 ==> LDL_SHIFT[k] == 8 * (7 - k) && LDL_MASK[k] == Pow2(8 * (7 - k)) - 1
    ensures k < 8 ==> LDR_SHIFT[k] == 8 * k && LDR_MASK[k] == Pow2(64) - Pow2(8 * (8 - k))
  {
    hide Pow2;
    Pow2Bytes();
    assert k < 8 ==> k in {0, 1, 2, 3, 4, 5, 6, 7};
  }

  lemma StoreLeftBytes(w: nat, a: u32, ms: seq<u8>, t: Reg)
    requires Wide(w) && |ms| == w
    ensures var k := Off(a, w); Mixed(StoreLeft(w), a, ms, t) == RegBytes(t, w)[w - 1 - k..] + ms[k + 1..]
  {
    hide LE, Enc, Bitwise, Pow2, RegBytes;
    var k, xs := Off(a, w), RegBytes(t, w);
    var low, high := xs[w - 1 - k..], ms[k + 1..];
    RegBytesValue(t, w);
    StoreTables(k);
    Pow2Values();
    LEShiftRight(xs, w - 1 - k);
    AndHigh(ms, k + 1);
    OrBytes(low, high);
    EncLE(low + high);
  }

  lemma StoreRightBytes(w: nat, a: u32, ms: seq<u8>, t: Reg)
    requires Wide(w) && |ms| == w
    ensures var k := Off(a, w); Mixed(StoreRight(w), a, ms, t) == ms[..k] + RegBytes(t, w)[..w - k]
  {
    hide LE, Enc, Bitwise, Pow2, RegBytes;
    var k, xs := Off(a, w), RegBytes(t, w);
    var low, high := ms[..k], xs[..w - k];
    RegBytesValue(t, w);
    StoreTables(k);
    Pow2Values();
    LEShiftLeft(xs, k);
    AndLow(ms, k);
    OrBytes(low, high);
    EncLE(low + high);
  }

  lemma LoadLeftBytes(w: nat, a: u32, ms: seq<u8>, t: Reg)
    requires Wide(w) && |ms| == w
    ensures var k, r := Off(a, w), Loaded(LoadLeft(w), a, ms, t);
            && r.d1 == t.d1
            && r.d0 == LE(RegBytes(t, w)[..w - 1 - k] + ms[..k + 1])
  {
    hide LE, Enc, Bitwise, Pow2, RegBytes;
    var k, xs := Off(a, w), RegBytes(t, w);
    RegBytesValue(t, w);
    LoadTables(k);
    Pow2Values();
    LEShiftLeft(ms, w - 1 - k);
    AndLow(xs, w - 1 - k);
    OrBytes(xs[..w - 1 - k], ms[..k + 1]);
  }

  lemma LoadRightBytes(w: nat, a: u32, ms: seq<u8>, t: Reg)
    requires Wide(w) && |ms| == w
    ensures var k, r := Off(a, w), Loaded(LoadRight(w), a, ms, t);
            && r.d1 == t.d1
            && r.d0 == LE(ms[k..] + RegBytes(t, w)[w - k..])
  {
    hide LE, Enc, Bitwise, Pow2, RegBytes;
    var k, xs := Off(a, w), RegBytes(t, w);
    RegBytesValue(t, w);
    LoadTables(k);
    Pow2Values();
    LEShiftRight(ms, k);
    AndHigh(xs, w - k);
    OrBytes(ms[k..], xs[w - k..]);
  }

  // ----- The partial stores on the machine -----

  /** The aligned unit is read and then written, so both its tags are set throughout. */
  function TagBoth(tags: Tags, p: nat, n: nat): Tags
  {
    seq(MEMSIZE, i requires 0 <= i < MEMSIZE => if p <= i < p + n then Tag(true, true) else tags[i])
  }

  lemma UnitSlot4(a: u32)
    ensures Phys(a).None? ==> Slot(a - a % 4, 4).None?
    ensures Phys(a).Some? ==> Slot(a - a % 4, 4) == Some(Phys(a).value - a % 4)
    ensures Phys(a).Some? ==> Phys(a).value % 4 == a % 4
    ensures Phys(a).Some? ==> a % 4 <= Phys(a).value && Phys(a).value - a % 4 + 4 <= MEMSIZE
  {
  }

  lemma UnitSlot8(a: u32)
    ensures Phys(a).None? ==> Slot(a - a % 8, 8).None?
    ensures Phys(a).Some? ==> Slot(a - a % 8, 8) == Some(Phys(a).value - a % 8)
    ensures Phys(a).Some? ==> Phys(a).value % 8 == a % 8
    ensures Phys(a).Some? ==> a % 8 <= Phys(a).value && Phys(a).value - a % 8 + 8 <= MEMSIZE
  {
  }

  /** The unit around a mapped byte is mapped. */
  lemma UnitSlot(w: nat, a: u32)
    requires Wide(w)
    ensures Phys(a).None? ==> Slot(a - Off(a, w), w).None?
    ensures Phys(a).Some? ==> Slot(a - Off(a, w), w) == Some(Phys(a).value - Off(a, w))
    ensures Phys(a).Some? ==> Off(Phys(a).value, w) == Off(a, w)
    ensures Phys(a).Some? ==> Off(a, w) <= Phys(a).value && Phys(a).value - Off(a, w) + w <= MEMSIZE
  {
    hide Phys, Slot;
    UnitSlot4(a);
    UnitSlot8(a);
  }

  function PutBytes(s: State, p: int, xs: seq<u8>, unit: int, w: nat): Action
    requires 0 <= p && 0 <= unit
  {
    Next(s.(mem := Mem(Overwrite(s.mem.bytes, p, xs), TagBoth(s.mem.tags, unit, w))))
  }

  /** The left partial store of the bytes xs at address a: their upper end, up to and including the byte at a. */
  function PutLeft(s: State, a: u32, xs: seq<u8>, w: nat): Action
    requires Wide(w) && |xs| == w
  {
    UnitSlot(w, a);
    match Phys(a)
    case None => Stop
    case Some(p) => PutBytes(s, Unit(p, w), xs[w - 1 - Off(p, w)..], Unit(p, w), w)
  }

  /** The right partial store: their lower end, from the byte at a on. */
  function PutRight(s: State, a: u32, xs: seq<u8>, w: nat): Action
    requires Wide(w) && |xs| == w
  {
    UnitSlot(w, a);
    match Phys(a)
    case None => Stop
    case Some(p) => PutBytes(s, p, xs[..w - Off(p, w)], Unit(p, w), w)
  }

  /** Writing back what was read changes no byte. */
  lemma RewriteAbove(b: Bytes, u: nat, w: nat, n: nat, xs: seq<u8>)
    requires |xs| == n <= w && u + w <= MEMSIZE
    ensures Overwrite(b, u, xs + b[u..u + w][n..]) == Overwrite(b, u, xs)
  {
  }

  lemma RewriteBelow(b: Bytes, u: nat, w: nat, k: nat, xs: seq<u8>)
    requires k + |xs| == w && u + w <= MEMSIZE
    ensures Overwrite(b, u, b[u..u + w][..k] + xs) == Overwrite(b, u + k, xs)
  {
  }

  lemma ReadThenWritten(t: Tags, u: nat, w: nat)
    ensures MarkWritten(MarkRead(t, u, w), u, w) == TagBoth(t, u, w)
  {
  }

  /** A unit that is read and then written as a whole. */
  lemma RewriteUnit(m: Mem, start: u32, u: nat, w: nat, ys: seq<u8>)
    requires Slot(start, w) == Some(u) && |ys| == w
    ensures u + w <= MEMSIZE && Load(m, start, w).Some?
    ensures Load(m, start, w).value.0 == m.bytes[u..u + w]
    ensures Store(Load(m, start, w).value.1, start, ys) == Some(Mem(Overwrite(m.bytes, u, ys), TagBoth(m.tags, u, w)))
  {
    hide Overwrite, MarkRead, MarkWritten, TagBoth;
    ReadThenWritten(m.tags, u, w);
  }

  lemma MixedLeft(b: Bytes, u: nat, w: nat, a: u32, t: Reg)
    requires Wide(w) && u + w <= MEMSIZE
    ensures Overwrite(b, u, Mixed(StoreLeft(w), a, b[u..u + w], t)) ==
              Overwrite(b, u, RegBytes(t, w)[w - 1 - Off(a, w)..])
  {
    hide Mixed, RegBytes, Overwrite, Off;
    StoreLeftBytes(w, a, b[u..u + w], t);
    RewriteAbove(b, u, w, Off(a, w) + 1, RegBytes(t, w)[w - 1 - Off(a, w)..]);
  }

  lemma MixedRight(b: Bytes, u: nat, w: nat, a: u32, t: Reg)
    requires Wide(w) && u + w <= MEMSIZE
    ensures Overwrite(b, u, Mixed(StoreRight(w), a, b[u..u + w], t)) ==
              Overwrite(b, u + Off(a, w), RegBytes(t, w)[..w - Off(a, w)])
  {
    hide Mixed, RegBytes, Overwrite, Off;
    StoreRightBytes(w, a, b[u..u + w], t);
    RewriteBelow(b, u, w, Off(a, w), RegBytes(t, w)[..w - Off(a, w)]);
  }

  lemma StoreLeftEffect(s: State, code: u32, j: Junk, w: nat)
    requires Wide(w) && Op(code) == StoreLeft(w)
    ensures StoreOp(s, code, j) == PutLeft(s, Ea(s.regs, code), RegBytes(s.regs.gpr[Rt(code)], w), w)
  {
    hide Mixed, RegBytes, Ea, Slot, Phys, Overwrite, TagBoth, Load, Store;
    var a, t := Ea(s.regs, code), s.regs.gpr[Rt(code)];
    assert Start(Op(code), a) == a - Off(a, w) && Width(Op(code)) == w;
    hide Off, Start, Width;
    UnitSlot(w, a);
    if Phys(a).Some? {
      var u := Phys(a).value - Off(a, w);
      RewriteUnit(s.mem, a - Off(a, w), u, w, Mixed(StoreLeft(w), a, s.mem.bytes[u..u + w], t));
      MixedLeft(s.mem.bytes, u, w, a, t);
    }
  }

  lemma StoreRightEffect(s: State, code: u32, j: Junk, w: nat)
    requires Wide(w) && Op(code) == StoreRight(w)
    ensures StoreOp(s, code, j) == PutRight(s, Ea(s.regs, code), RegBytes(s.regs.gpr[Rt(code)], w), w)
  {
    hide Mixed, RegBytes, Ea, Slot, Phys, Overwrite, TagBoth, Load, Store;
    var a, t := Ea(s.regs, code), s.regs.gpr[Rt(code)];
    assert Start(Op(code), a) == a - Off(a, w) && Width(Op(code)) == w;
    hide Off, Start, Width;
    UnitSlot(w, a);
    if Phys(a).Some? {
      var u := Phys(a).value - Off(a, w);
      RewriteUnit(s.mem, a - Off(a, w), u, w, Mixed(StoreRight(w), a, s.mem.bytes[u..u + w], t));
      MixedRight(s.mem.bytes, u, w, a, t);
    }
  }

  /** One instruction after another. */
  function Then(a: Action, code: u32, j: Junk): Action
  {
    if a.Next? then Dispatch(a.s, code, j) else a
  }

  /** Left and right partial access of one register, w bytes from the address of the plain access `plain`. */
  predicate PairFor(left: u32, right: u32, plain: u32, w: nat)
  {
    && Wide(w)
    && Rs(left) == Rs(right) == Rs(plain)
    && Rt(left) == Rt(right) == Rt(plain)
    && Imm(right) == Imm(plain)
    && Imm(left) == Imm(right) + w - 1
  }

  lemma PairAddresses(r: Regs, left: u32, right: u32, plain: u32, w: nat)
    requires PairFor(left, right, plain, w)
    ensures Ea(r, right) == Ea(r, plain) && Ea(r, left) == U32(Ea(r, plain) + w - 1)
  {
    hide Low, Rs, Imm, U32;
    var x := Low(r.gpr[Rs(plain)]) + Imm(plain);
    WrapSum(x, w - 1);
  }

  lemma WrapSum(x: int, y: int)
    ensures U32(U32(x) + y) == U32(x + y)
  {
  }

  lemma DispatchStore(s: State, code: u32, j: Junk)
    ensures IsStore(Op(code)) ==> Dispatch(s, code, j) == StoreOp(s, code, j)
    ensures IsLoad(Op(code)) ==> Dispatch(s, code, j) == LoadOp(s, code, j)
  {
    hide Mixed, Loaded, Stored, Load, Store, Ea;
  }

  /** Where both bytes at the ends of the plain access are mapped, so is all of it. */
  lemma EndsMapped(a: u32, w: nat)
    requires Wide(w)
    ensures Slot(a, w).Some? <==> Phys(a).Some? && Phys(U32(a + w - 1)).Some?
    ensures Slot(a, w).Some? ==> Slot(a, w) == Phys(a) && Phys(U32(a + w - 1)) == Some(Phys(a).value + w - 1)
  {
  }

  lemma UnitOfEnd(p: nat, w: nat)
    requires Wide(w)
    ensures Off(p + w - 1, w) == if Off(p, w) == 0 then w - 1 else Off(p, w) - 1
    ensures Unit(p + w - 1, w) == if Off(p, w) == 0 then p else Unit(p, w) + w
    ensures Unit(p, w) + Off(p, w) == p
  {
    Ends4(p);
    Ends8(p);
  }

  lemma Ends4(p: nat)
    ensures (p + 3) % 4 == if p % 4 == 0 then 3 else p % 4 - 1
  {
  }

  lemma Ends8(p: nat)
    ensures (p + 7) % 8 == if p % 8 == 0 then 7 else p % 8 - 1
  {
  }

  /** Where the plain store of xs puts its bytes, with both tags on the units it reaches into. */
  function PutWhole(s: State, a: u32, xs: seq<u8>, w: nat): Action
    requires Wide(w)
  {
    match Slot(a, w)
    case None => Stop
    case Some(p) => PutBytes(s, p, xs, Unit(p, w), Unit(p + w - 1, w) + w - Unit(p, w))
  }

  /** Writing two parts of xs, in either order, is writing xs; likewise for the tags of neighbouring units. */
  lemma OverwriteParts(b: Bytes, p: nat, xs: seq<u8>, i: nat)
    requires i <= |xs|
    ensures Overwrite(Overwrite(b, p, xs[..i]), p + i, xs[i..]) == Overwrite(b, p, xs)
    ensures Overwrite(Overwrite(b, p + i, xs[i..]), p, xs[..i]) == Overwrite(b, p, xs)
    ensures Overwrite(Overwrite(b, p, xs), p, xs) == Overwrite(b, p, xs)
  {
  }

  lemma TagParts(t: Tags, u: nat, w: nat)
    ensures TagBoth(TagBoth(t, u, w), u + w, w) == TagBoth(t, u, 2 * w)
    ensures TagBoth(TagBoth(t, u + w, w), u, w) == TagBoth(t, u, 2 * w)
    ensures TagBoth(TagBoth(t, u, w), u, w) == TagBoth(t, u, w)
  {
  }

  lemma PutLeftRight(s: State, a: u32, xs: seq<u8>, w: nat)
    requires Wide(w) && |xs| == w
    ensures var l := PutLeft(s, U32(a + w - 1), xs, w);
            PutWhole(s, a, xs, w) == if l.Next? then PutRight(l.s, a, xs, w) else Stop
  {
    hide Phys, Slot, Off, Unit, Overwrite, TagBoth;
    EndsMapped(a, w);
    if Slot(a, w).Some? {
      var p := Phys(a).value;
      UnitOfEnd(p, w);
      OverwriteParts(s.mem.bytes, p, xs, w - Off(p, w));
      TagParts(s.mem.tags, Unit(p, w), w);
      assert xs[0..] == xs == xs[..w];
    }
  }

  lemma PutRightLeft(s: State, a: u32, xs: seq<u8>, w: nat)
    requires Wide(w) && |xs| == w
    ensures var r := PutRight(s, a, xs, w);
            PutWhole(s, a, xs, w) == if r.Next? then PutLeft(r.s, U32(a + w - 1), xs, w) else Stop
  {
    hide Phys, Slot, Off, Unit, Overwrite, TagBoth;
    EndsMapped(a, w);
    if Slot(a, w).Some? {
      var p := Phys(a).value;
      UnitOfEnd(p, w);
      OverwriteParts(s.mem.bytes, p, xs, w - Off(p, w));
      TagParts(s.mem.tags, Unit(p, w), w);
      assert xs[0..] == xs == xs[..w];
    }
  }

  /** Both orders of the pair of partial stores, at any address and whether mapped or not. */
  lemma StorePairState(s: State, left: u32, right: u32, plain: u32, w: nat, j: Junk)
    requires PairFor(left, right, plain, w)
    requires Op(left) == StoreLeft(w) && Op(right) == StoreRight(w)
    ensures var end := PutWhole(s, Ea(s.regs, plain), RegBytes(s.regs.gpr[Rt(plain)], w), w);
            Then(Dispatch(s, left, j), right, j) == end && Then(Dispatch(s, right, j), left, j) == end
  {
    hide Dispatch, StoreOp, RegBytes, PutWhole, Overwrite, Ea, Phys, Unit, Off, Op, Rs, Rt, Imm;
    var a, xs := Ea(s.regs, plain), RegBytes(s.regs.gpr[Rt(plain)], w);
    PairAddresses(s.regs, left, right, plain, w);
    PutLeftRight(s, a, xs, w);
    PutRightLeft(s, a, xs, w);
    DispatchStore(s, left, j);
    DispatchStore(s, right, j);
    StoreLeftEffect(s, left, j, w);
    StoreRightEffect(s, right, j, w);
    var l, r := StoreOp(s, left, j), StoreOp(s, right, j);
    if l.Next? {
      assert l.s.regs == s.regs;
      DispatchStore(l.s, right, j);
      StoreRightEffect(l.s, right, j, w);
    }
    if r.Next? {
      assert r.s.regs == s.regs;
      DispatchStore(r.s, left, j);
      StoreLeftEffect(r.s, left, j, w);
    }
  }

  /** The tags after a plain store at address a, and after the pair. */
  predicate PairTags(before: Tags, one: Tags, pair: Tags, a: u32, w: nat)
    requires Wide(w)
  {
    match Phys(a)
    case None => false
    case Some(p) =>
      forall i :: 0 <= i < MEMSIZE ==>
        && one[i] == (if p <= i < p + w then before[i].(written := true) else before[i])
        && pair[i] == (if Unit(p, w) <= Unit(i, w) <= Unit(p + w - 1, w) then Tag(true, true) else before[i])
  }

  lemma WholeIsPlain(s: State, a: u32, xs: seq<u8>, w: nat)
    requires Wide(w) && |xs| == w
    ensures var one, pair := Wrote(s, Store(s.mem, a, xs)), PutWhole(s, a, xs, w);
            && (one == Stop || one.Next?)
            && (one == Stop <==> pair == Stop)
            && (one.Next? ==>
                  && pair.Next?
                  && pair.s == one.s.(mem := pair.s.mem)
                  && pair.s.mem.bytes == one.s.mem.bytes
                  && PairTags(s.mem.tags, one.s.mem.tags, pair.s.mem.tags, a, w))
  {
    hide Phys, Overwrite, Unit, Off;
    if Slot(a, w).Some? {
      var p := Phys(a).value;
      forall i | 0 <= i < MEMSIZE
        ensures Unit(p, w) <= Unit(i, w) <= Unit(p + w - 1, w) <==> Unit(p, w) <= i < Unit(p + w - 1, w) + w
      {
        UnitOrder(p, i, w);
        UnitOrder(i, p + w - 1, w);
      }
    }
  }

  /** SWL at a + 3 and SWR at a, or SDL at a + 7 and SDR at a, in either order, are SW or SD at a: they stop when it
      stops, and else leave every register and every byte as it does. Of the tags the plain store sets `written` on
      its own bytes; the pair sets both tags on exactly the aligned units that the bytes lie in. */
  lemma StorePairIsStore(s: State, left: u32, right: u32, plain: u32, w: nat, j: Junk)
    requires PairFor(left, right, plain, w)
    requires Op(left) == StoreLeft(w) && Op(right) == StoreRight(w) && Op(plain) == StorePlain(w)
    ensures var one := Dispatch(s, plain, j);
            var lr, rl := Then(Dispatch(s, left, j), right, j), Then(Dispatch(s, right, j), left, j);
            && lr == rl
            && (one == Stop || one.Next?)
            && (one == Stop <==> lr == Stop)
            && (one.Next? ==>
                  && lr.Next?
                  && lr.s == one.s.(mem := lr.s.mem)
                  && lr.s.mem.bytes == one.s.mem.bytes
                  && PairTags(s.mem.tags, one.s.mem.tags, lr.s.mem.tags, Ea(s.regs, plain), w))
  {
    hide Dispatch, StoreOp, RegBytes, Ea, Phys, PairTags, PutWhole, Wrote, Store, Then, Op, Rs, Rt, Imm;
    StorePairState(s, left, right, plain, w, j);
    DispatchStore(s, plain, j);
    PlainStore(s, plain, w, j);
    WholeIsPlain(s, Ea(s.regs, plain), RegBytes(s.regs.gpr[Rt(plain)], w), w);
  }

  /** A unit begins at or below another one just when it begins at or below any byte of that one. */
  lemma UnitOrder(p: nat, i: nat, w: nat)
    requires Wide(w)
    ensures Unit(p, w) <= Unit(i, w) <==> Unit(p, w) <= i
    ensures Unit(p, w) <= Unit(i, w) <==> p < Unit(i, w) + w
  {
    if w == 4 {
      MultipleOrder(p / 4, i / 4, p % 4, i % 4, 4);
    } else {
      MultipleOrder(p / 8, i / 8, p % 8, i % 8, 8);
    }
  }

  lemma MultipleOrder(x: nat, y: nat, r: nat, s: nat, w: nat)
    requires Wide(w) && r < w && s < w
    ensures w * x <= w * y <==> w * x <= w * y + s
    ensures w * x <= w * y <==> w * x + r < w * y + w
  {
    if w == 4 {
    } else {
    }
  }

  lemma PlainStore(s: State, code: u32, w: nat, j: Junk)
    requires Wide(w) && Op(code) == StorePlain(w)
    ensures StoreOp(s, code, j) == Wrote(s, Store(s.mem, Ea(s.regs, code), RegBytes(s.regs.gpr[Rt(code)], w)))
  {
    hide Store, Mixed, Ea, Load, Enc;
  }

  // ----- The partial loads on the machine -----

  function Num(bs: seq<u8>): u64
    requires |bs| <= 8
  {
    LEBound(bs);
    Pow2Values();
    Pow2Mono(8 * |bs|, 64);
    LE(bs)
  }

  /** Register rt gets the number bs in its low double word; n bytes from array index u on are read. */
  function GetBytes(s: State, rt: Index, bs: seq<u8>, u: int, n: nat): Action
    requires |bs| <= 8 && 0 <= u
  {
    Next(s.(mem := s.mem.(tags := MarkRead(s.mem.tags, u, n)),
            regs := s.regs.(gpr := SetGpr(s.regs.gpr, rt, s.regs.gpr[rt].(d0 := Num(bs))))))
  }

  /** The left partial load at a: the unit's bytes up to the one at a become the upper end of the register. */
  function GetLeft(s: State, a: u32, rt: Index, w: nat): Action
    requires Wide(w)
  {
    UnitSlot(w, a);
    match Phys(a)
    case None => Stop
    case Some(p) =>
      var u, k := Unit(p, w), Off(p, w);
      GetBytes(s, rt, RegBytes(s.regs.gpr[rt], w)[..w - 1 - k] + s.mem.bytes[u..p + 1], u, w)
  }

  /** The right partial load: its bytes from the one at a on become the lower end. */
  function GetRight(s: State, a: u32, rt: Index, w: nat): Action
    requires Wide(w)
  {
    UnitSlot(w, a);
    match Phys(a)
    case None => Stop
    case Some(p) =>
      var u, k := Unit(p, w), Off(p, w);
      GetBytes(s, rt, s.mem.bytes[p..u + w] + RegBytes(s.regs.gpr[rt], w)[w - k..], u, w)
  }

  /** The plain load, with the read tags of the pair. */
  function GetWhole(s: State, a: u32, rt: Index, w: nat): Action
    requires Wide(w)
  {
    match Slot(a, w)
    case None => Stop
    case Some(p) => GetBytes(s, rt, s.mem.bytes[p..p + w], Unit(p, w), Unit(p + w - 1, w) + w - Unit(p, w))
  }

  lemma LoadLeftEffect(s: State, code: u32, j: Junk, w: nat)
    requires Wide(w) && Op(code) == LoadLeft(w) && Rt(code) != 0
    ensures LoadOp(s, code, j) == GetLeft(s, Ea(s.regs, code), Rt(code), w)
  {
    hide Loaded, RegBytes, Ea, Slot, Phys, MarkRead, Rt, Rs, Imm;
    var a, rt := Ea(s.regs, code), Rt(code);
    var t := s.regs.gpr[rt];
    assert Start(Op(code), a) == Unit(a, w) && Width(Op(code)) == w;
    UnitSlot(w, a);
    if Phys(a).Some? {
      var p := Phys(a).value;
      var u := p - Off(a, w);
      var ms := s.mem.bytes[u..u + w];
      LoadLeftBytes(w, a, ms, t);
      assert ms[..Off(a, w) + 1] == s.mem.bytes[u..p + 1];
    }
  }

  lemma LoadRightEffect(s: State, code: u32, j: Junk, w: nat)
    requires Wide(w) && Op(code) == LoadRight(w) && Rt(code) != 0
    ensures LoadOp(s, code, j) == GetRight(s, Ea(s.regs, code), Rt(code), w)
  {
    hide Loaded, RegBytes, Ea, Slot, Phys, MarkRead, Rt, Rs, Imm;
    var a, rt := Ea(s.regs, code), Rt(code);
    var t := s.regs.gpr[rt];
    assert Start(Op(code), a) == Unit(a, w) && Width(Op(code)) == w;
    UnitSlot(w, a);
    if Phys(a).Some? {
      var p := Phys(a).value;
      var u := p - Off(a, w);
      var ms := s.mem.bytes[u..u + w];
      LoadRightBytes(w, a, ms, t);
      assert ms[Off(a, w)..] == s.mem.bytes[p..u + w];
    }
  }

  lemma ReadParts(t: Tags, u: nat, w: nat)
    ensures MarkRead(MarkRead(t, u, w), u + w, w) == MarkRead(t, u, 2 * w)
    ensures MarkRead(MarkRead(t, u + w, w), u, w) == MarkRead(t, u, 2 * w)
    ensures MarkRead(MarkRead(t, u, w), u, w) == MarkRead(t, u, w)
  {
  }

  /** A register just loaded with w bytes consists of them. */
  lemma RegBytesOfNum(t: Reg, bs: seq<u8>)
    requires Wide(|bs|)
    ensures RegBytes(t.(d0 := Num(bs)), |bs|) == bs
  {
    EncLE(bs);
  }

  /** What remains of a register whose upper end was loaded from address m on, behind the bytes below m; and the other
      way round. */
  lemma Splice(b: Bytes, p: nat, m: nat, e: nat, xs: seq<u8>, i: nat)
    requires p <= m <= e <= MEMSIZE && i <= |xs|
    ensures b[p..m] + (xs[..i] + b[m..e])[i..] == b[p..e]
    ensures (b[p..m] + xs)[..m - p] + b[m..e] == b[p..e]
  {
  }

  lemma SpliceAll(b: Bytes, p: nat, w: nat, xs: seq<u8>)
    requires p + w <= MEMSIZE
    ensures b[p..p + w] + (xs[..0] + b[p..p + w])[w..] == b[p..p + w]
    ensures (b[p..p + w] + xs)[..0] + b[p..p + w] == b[p..p + w]
  {
  }

  /** The bytes of a register after both loads, on memory b with the address at array index p. */
  lemma BothLoads(b: Bytes, p: nat, w: nat, xs: seq<u8>)
    requires Wide(w) && |xs| == w && p + w <= MEMSIZE && Unit(p, w) + w <= MEMSIZE
    ensures var k, u, q := Off(p, w), Unit(p, w), p + w - 1;
            && 0 <= u <= p && 0 <= Unit(q, w) <= q
            && var left, right := xs[..w - 1 - Off(q, w)] + b[Unit(q, w)..q + 1], b[p..u + w] + xs[w - k..];
               && |left| == |right| == w
               && b[p..u + w] + left[w - k..] == b[p..p + w]
               && right[..w - 1 - Off(q, w)] + b[Unit(q, w)..q + 1] == b[p..p + w]
  {
    UnitOfEnd(p, w);
    var k, u := Off(p, w), Unit(p, w);
    hide Off, Unit;
    if k == 0 {
      SpliceAll(b, p, w, xs);
      SpliceAll(b, p, w, xs[w..]);
    } else {
      Splice(b, p, u + w, p + w, xs, w - k);
      Splice(b, p, u + w, p + w, xs[w - k..], 0);
    }
  }

  lemma GetLeftRight(s: State, a: u32, rt: Index, w: nat)
    requires Wide(w) && rt != 0
    ensures var l := GetLeft(s, U32(a + w - 1), rt, w);
            GetWhole(s, a, rt, w) == if l.Next? then GetRight(l.s, a, rt, w) else Stop
  {
    hide Phys, Slot, Off, Unit, MarkRead, RegBytes, Num;
    EndsMapped(a, w);
    if Slot(a, w).Some? {
      var p := Phys(a).value;
      UnitOfEnd(p, w);
      UnitSlot(w, a);
      UnitSlot(w, U32(a + w - 1));
      var t, q := s.regs.gpr[rt], p + w - 1;
      BothLoads(s.mem.bytes, p, w, RegBytes(t, w));
      RegBytesOfNum(t, RegBytes(t, w)[..w - 1 - Off(q, w)] + s.mem.bytes[Unit(q, w)..q + 1]);
      ReadParts(s.mem.tags, Unit(p, w), w);
    }
  }

  lemma GetRightLeft(s: State, a: u32, rt: Index, w: nat)
    requires Wide(w) && rt != 0
    ensures var r := GetRight(s, a, rt, w);
            GetWhole(s, a, rt, w) == if r.Next? then GetLeft(r.s, U32(a + w - 1), rt, w) else Stop
  {
    hide Phys, Slot, Off, Unit, MarkRead, RegBytes, Num;
    EndsMapped(a, w);
    if Slot(a, w).Some? {
      var p := Phys(a).value;
      UnitOfEnd(p, w);
      UnitSlot(w, a);
      UnitSlot(w, U32(a + w - 1));
      var t := s.regs.gpr[rt];
      BothLoads(s.mem.bytes, p, w, RegBytes(t, w));
      RegBytesOfNum(t, s.mem.bytes[p..Unit(p, w) + w] + RegBytes(t, w)[w - Off(p, w)..]);
      ReadParts(s.mem.tags, Unit(p, w), w);
    }
  }

  lemma LoadPairState(s: State, left: u32, right: u32, plain: u32, w: nat, j: Junk)
    requires PairFor(left, right, plain, w)
    requires Op(left) == LoadLeft(w) && Op(right) == LoadRight(w)
    requires Rt(plain) != 0 && Rt(plain) != Rs(plain)
    ensures var end := GetWhole(s, Ea(s.regs, plain), Rt(plain), w);
            Then(Dispatch(s, left, j), right, j) == end && Then(Dispatch(s, right, j), left, j) == end
  {
    hide Dispatch, LoadOp, RegBytes, GetWhole, Ea, Phys, Unit, Off, Num, MarkRead, Op, Rs, Rt, Imm, SetGpr;
    var a, rt := Ea(s.regs, plain), Rt(plain);
    PairAddresses(s.regs, left, right, plain, w);
    GetLeftRight(s, a, rt, w);
    GetRightLeft(s, a, rt, w);
    DispatchStore(s, left, j);
    DispatchStore(s, right, j);
    LoadLeftEffect(s, left, j, w);
    LoadRightEffect(s, right, j, w);
    var l, r := LoadOp(s, left, j), LoadOp(s, right, j);
    if l.Next? {
      BaseOf(s, l, rt, right);
      DispatchStore(l.s, right, j);
      LoadRightEffect(l.s, right, j, w);
    }
    if r.Next? {
      BaseOf(s, r, rt, left);
      DispatchStore(r.s, left, j);
      LoadLeftEffect(r.s, left, j, w);
    }
  }

  /** A load into another register leaves the base address alone. */
  lemma BaseOf(s: State, a: Action, rt: Index, code: u32)
    requires a.Next? && Rs(code) != rt
    requires exists v: Reg :: a.s.regs == s.regs.(gpr := SetGpr(s.regs.gpr, rt, v))
    ensures Ea(a.s.regs, code) == Ea(s.regs, code)
  {
    hide Rs, Imm;
  }

  /** The read tags of one plain load at address a, and of the pair. */
  predicate PairReadTags(before: Tags, one: Tags, pair: Tags, a: u32, w: nat)
    requires Wide(w)
  {
    match Phys(a)
    case None => false
    case Some(p) =>
      forall i :: 0 <= i < MEMSIZE ==>
        && one[i] == (if p <= i < p + w then before[i].(read := true) else before[i])
        && pair[i] == (if Unit(p, w) <= Unit(i, w) <= Unit(p + w - 1, w) then before[i].(read := true) else before[i])
  }

  /** LWL at a + 3 and LWR at a, in either order, are LWU at a: the word zero-extended, not sign-extended as LW would
      have it. LDL at a + 7 and LDR at a are LD at a. The upper double word of the register stays. The pair reads, and
      so tags, whole aligned units. Rt must not be register 0 or the base register. */
  lemma LoadPairIsLoad(s: State, left: u32, right: u32, plain: u32, w: nat, j: Junk)
    requires PairFor(left, right, plain, w)
    requires Op(left) == LoadLeft(w) && Op(right) == LoadRight(w) && Op(plain) == LoadPlain(w)
    requires Rt(plain) != 0 && Rt(plain) != Rs(plain)
    ensures var one := Dispatch(s, plain, j);
            var lr, rl := Then(Dispatch(s, left, j), right, j), Then(Dispatch(s, right, j), left, j);
            && lr == rl
            && (one == Stop || one.Next?)
            && (one == Stop <==> lr == Stop)
            && (one.Next? ==>
                  && lr.Next?
                  && lr.s == one.s.(mem := lr.s.mem)
                  && lr.s.mem.bytes == s.mem.bytes
                  && one.s.regs.gpr[Rt(plain)].d1 == s.regs.gpr[Rt(plain)].d1
                  && PairReadTags(s.mem.tags, one.s.mem.tags, lr.s.mem.tags, Ea(s.regs, plain), w))
  {
    hide Dispatch, LoadOp, Ea, PairReadTags, GetWhole, GetPlain, Then, Op, Rs, Rt, Imm;
    LoadPairState(s, left, right, plain, w, j);
    DispatchStore(s, plain, j);
    PlainLoad(s, plain, w, j);
    WholeIsPlainLoad(s, Ea(s.regs, plain), Rt(plain), w);
  }

  function GetPlain(s: State, a: u32, rt: Index, w: nat): Action
    requires Wide(w)
  {
    match Slot(a, w)
    case None => Stop
    case Some(p) => GetBytes(s, rt, s.mem.bytes[p..p + w], p, w)
  }

  lemma PlainLoad(s: State, code: u32, w: nat, j: Junk)
    requires Wide(w) && Op(code) == LoadPlain(w)
    ensures LoadOp(s, code, j) == GetPlain(s, Ea(s.regs, code), Rt(code), w)
  {
    hide MarkRead, Ea, Rt, Slot, LE, Imm, Rs;
  }

  lemma WholeIsPlainLoad(s: State, a: u32, rt: Index, w: nat)
    requires Wide(w) && rt != 0
    ensures var one, pair := GetPlain(s, a, rt, w), GetWhole(s, a, rt, w);
            && (one == Stop || one.Next?)
            && (one == Stop <==> pair == Stop)
            && (one.Next? ==>
                  && pair.Next?
                  && pair.s == one.s.(mem := pair.s.mem)
                  && pair.s.mem.bytes == s.mem.bytes
                  && one.s.regs.gpr[rt].d1 == s.regs.gpr[rt].d1
                  && PairReadTags(s.mem.tags, one.s.mem.tags, pair.s.mem.tags, a, w))
  {
    hide Phys, Unit, Off, Num;
    if Slot(a, w).Some? {
      var p := Phys(a).value;
      forall i | 0 <= i < MEMSIZE
        ensures Unit(p, w) <= Unit(i, w) <= Unit(p + w - 1, w) <==> Unit(p, w) <= i < Unit(p + w - 1, w) + w
      {
        UnitOrder(p, i, w);
        UnitOrder(i, p + w - 1, w);
      }
    }
  }

  /** LWL at a + 3 and LWR at a are LW at a, on the registers, just for the words whose sign bit is clear: LW would
      extend it. */
  lemma LoadPairIsSignedLoadIff(s: State, left: u32, right: u32, lw: u32, j: Junk)
    requires PairFor(left, right, lw, 4)
    requires Op(left) == LWL && Op(right) == LWR && Op(lw) == LW
    requires Rt(lw) != 0 && Rt(lw) != Rs(lw)
    ensures var one, pair := Dispatch(s, lw, j), Then(Dispatch(s, left, j), right, j);
            var word := Load(s.mem, Ea(s.regs, lw), 4);
            && (one == Stop <==> pair == Stop)
            && (word.Some? <==> one.Next?)
            && (one.Next? ==>
                  && pair.Next?
                  && pair.s == one.s.(mem := pair.s.mem, regs := pair.s.regs)
                  && (pair.s.regs == one.s.regs <==> Num32(word.value.0) < 0x8000_0000))
  {
    hide Dispatch, Ea, Phys, Unit, Off, Op, Rs, Rt, Imm, MarkRead, LE;
    LoadPairState(s, left, right, lw, 4, j);
    DispatchStore(s, lw, j);
    var a, rt := Ea(s.regs, lw), Rt(lw);
    SignedLoad(s, lw, j);
    if Slot(a, 4).Some? {
      var p := Slot(a, 4).value;
      OneRegister(s.regs, rt, Num(s.mem.bytes[p..p + 4]), Sx(Num32(s.mem.bytes[p..p + 4])));
    }
  }

  lemma SignedLoad(s: State, code: u32, j: Junk)
    requires Op(code) == LW
    ensures LoadOp(s, code, j) ==
              match Load(s.mem, Ea(s.regs, code), 4)
              case None => Stop
              case Some((bs, m)) =>
                var rt := Rt(code);
                Next(s.(mem := m,
                        regs := s.regs.(gpr := SetGpr(s.regs.gpr, rt, s.regs.gpr[rt].(d0 := Sx(Num32(bs)))))))
  {
    hide Load, Ea, Rt, LE;
  }

  lemma OneRegister(r: Regs, rt: Index, x: u64, y: u64)
    requires rt != 0
    ensures r.(gpr := SetGpr(r.gpr, rt, r.gpr[rt].(d0 := x))) == r.(gpr := SetGpr(r.gpr, rt, r.gpr[rt].(d0 := y)))
            <==> x == y
  {
    assert r.gpr[rt := r.gpr[rt].(d0 := x)][rt].d0 == x;
  }

  /** LWL r2, 3(r1), LWR r2, 0(r1) and LW r2, 0(r1) with 0xff in every byte of memory: the pair leaves a positive
      number where LW leaves -1. */
  lemma LoadPairIsNotSignedLoad(j: Junk) returns (s: State, left: u32, right: u32, lw: u32)
    ensures PairFor(left, right, lw, 4) && Op(left) == LWL && Op(right) == LWR && Op(lw) == LW
    ensures var one, pair := Dispatch(s, lw, j), Then(Dispatch(s, left, j), right, j);
            && one.Next? && pair.Next?
            && pair.s.regs != one.s.regs
  {
    hide Dispatch, LE;
    s := State(Regs(seq(32, _ => ZERO), ZERO, ZERO, 0), Mem(seq(MEMSIZE, _ => 0xff), NoTags()), 0, 0, 0, 0);
    left, right, lw := 0x88220003, 0x98220000, 0x8c220000;
    assert Op(left) == LWL && Op(right) == LWR && Op(lw) == LW && Rt(lw) == 2 && Rs(lw) == 1 && Imm(lw) == 0;
    LoadPairIsSignedLoadIff(s, left, right, lw, j);
    assert Ea(s.regs, lw) == 0;
    var bs := Load(s.mem, 0, 4).value.0;
    assert bs == [0xff, 0xff, 0xff, 0xff];
    AllOnes();
  }

  lemma AllOnes()
    ensures LE([0xff, 0xff, 0xff, 0xff]) == 0xffff_ffff
  {
    assert LE([0xff]) == 0xff;
    assert [0xff, 0xff][1..] == [0xff];
    assert [0xff, 0xff, 0xff][1..] == [0xff, 0xff];
    assert [0xff, 0xff, 0xff, 0xff][1..] == [0xff, 0xff, 0xff];
  }

  /** A value stored by a pair comes back from the matching pair: the whole double word, or the word zero-extended. */
  lemma StoredComesBack(s: State, sl: u32, sr: u32, ll: u32, lr: u32, plain: u32, store: u32, w: nat, j: Junk)
    requires PairFor(sl, sr, store, w) && Op(sl) == StoreLeft(w) && Op(sr) == StoreRight(w)
    requires PairFor(ll, lr, plain, w) && Op(ll) == LoadLeft(w) && Op(lr) == LoadRight(w)
    requires Rs(plain) == Rs(store) && Imm(plain) == Imm(store)
    requires Rt(plain) != 0 && Rt(plain) != Rs(plain)
    ensures var stored := Then(Dispatch(s, sl, j), sr, j);
            stored.Next? ==>
              var back := Then(Dispatch(stored.s, ll, j), lr, j);
              && back.Next?
              && back.s.regs.gpr[Rt(plain)].d0 ==
                   if w == 4 then Low(s.regs.gpr[Rt(store)]) else s.regs.gpr[Rt(store)].d0
  {
    hide Dispatch, Ea, Then, Op, Rs, Rt, Imm, RegBytes, Unit, Off, TagBoth, Overwrite, MarkRead, Phys;
    var a, t := Ea(s.regs, store), s.regs.gpr[Rt(store)];
    var xs := RegBytes(t, w);
    StorePairState(s, sl, sr, store, w, j);
    var stored := Then(Dispatch(s, sl, j), sr, j);
    if stored.Next? {
      LoadPairState(stored.s, ll, lr, plain, w, j);
      SameEa(s.regs, plain, store);
      var p := Slot(a, w).value;
      OverwriteReadBack(s.mem.bytes, p, xs);
      RegBytesValue(t, w);
    }
  }

  lemma SameEa(r: Regs, c: u32, d: u32)
    requires Rs(c) == Rs(d) && Imm(c) == Imm(d)
    ensures Ea(r, c) == Ea(r, d)
  {
    hide Rs, Imm;
  }

  lemma OverwriteReadBack(b: Bytes, p: nat, xs: seq<u8>)
    requires p + |xs| <= MEMSIZE
    ensures Overwrite(b, p, xs)[p..p + |xs|] == xs
  {
  }
}
