/** The plain loads and stores, by opcode: which bytes they move, in which order, and how a loaded value is extended. */
module Transfers {
  import opened Words
  import opened Memory
  import opened Registers
  import opened Interpreter
  import Unaligned

  /** Bytes moved by LB, LH, LBU, LHU, LW, LWU and LD. */
  function LoadWidth(op: nat): nat
  {
    if op in {0x20, 0x24} then 1
    else if op in {0x21, 0x25} then 2
    else if op in {0x23, 0x27} then 4
    else if op == 0x37 then 8
    else 0
  }

  predicate SignExtends(op: nat) { op in {0x20, 0x21, 0x23} }

  /** Bytes moved by SB, SH, SW and SD. */
  function StoreWidth(op: nat): nat
  {
    if op == 0x28 then 1 else if op == 0x29 then 2 else if op == 0x2b then 4 else if op == 0x3f then 8 else 0
  }

  /** One more than the largest number of w bytes. */
  function Span(w: nat): nat
  {
    if w == 1 then 0x100 else if w == 2 then 0x1_0000 else if w == 4 then 0x1_0000_0000 else 0x1_0000_0000_0000_0000
  }

  /** The w bytes from index p on as a number, the lowest first. */
  function Little(bytes: seq<u8>, p: nat, w: nat): int
    requires p + w <= |bytes|
    decreases w
  {
    if w == 0 then 0 else bytes[p] + 0x100 * Little(bytes, p + 1, w - 1)
  }

  /** A number of w bytes in a double word, with its sign or with zeros above it. */
  function Extend(v: int, w: nat, signed: bool): int
  {
    if signed && v >= Span(w) / 2 then Span(8) - Span(w) + v else v
  }

  lemma {:induction false} LittleIsLE(bytes: seq<u8>, p: nat, w: nat)
    requires p + w <= |bytes|
    ensures Little(bytes, p, w) == LE(bytes[p..p + w])
    decreases w
  {
    if w == 0 {
    } else {
      LittleIsLE(bytes, p + 1, w - 1);
      assert bytes[p..p + w][1..] == bytes[p + 1..p + 1 + (w - 1)];
    }
  }

  lemma LittleBound(bytes: seq<u8>, p: nat, w: nat)
    requires p + w <= |bytes| && w in {1, 2, 4, 8}
    ensures 0 <= Little(bytes, p, w) < Span(w)
  {
    LittleIsLE(bytes, p, w);
    LEBound(bytes[p..p + w]);
    Pow2Values();
  }

  lemma LoadedIs(op: nat, a: u32, bytes: seq<u8>, p: nat, t: Reg)
    requires LoadWidth(op) != 0 && p + LoadWidth(op) <= |bytes|
    ensures IsLoad(op) && Width(op) == LoadWidth(op) && Start(op, a) == a && !IsPartial(op)
    ensures var w := LoadWidth(op);
            var x := Extend(Little(bytes, p, w), w, SignExtends(op));
            0 <= x < TWO64 && Loaded(op, a, bytes[p..p + w], t) == t.(d0 := x)
  {
    hide LE, Little;
    var w := LoadWidth(op);
    LittleIsLE(bytes, p, w);
    LittleBound(bytes, p, w);
    if w == 1 {
      OneByte(bytes[p]);
      assert bytes[p..p + 1] == [bytes[p]];
    }
  }

  lemma OneByte(b: u8)
    ensures LE([b]) == b
  {
  }

  /** A plain load stops where its bytes are not all mapped; else its register receives them as a number, extended by
      its opcode; the upper double word, all other registers and all bytes stay, and exactly those bytes are tagged
      read. A load into register 0 only tags. */
  lemma LoadLaw(s: State, code: u32, j: Junk)
    requires LoadWidth(Op(code)) != 0
    ensures var w, rt, at := LoadWidth(Op(code)), Rt(code), Slot(Ea(s.regs, code), LoadWidth(Op(code)));
            && (at.None? ==> Dispatch(s, code, j) == Stop)
            && (at.Some? ==>
                  var p, t := at.value, s.regs.gpr[rt];
                  var x := Extend(Little(s.mem.bytes, p, w), w, SignExtends(Op(code)));
                  && 0 <= x < TWO64
                  && Dispatch(s, code, j)
                     == Next(s.(mem := s.mem.(tags := MarkRead(s.mem.tags, p, w)),
                                regs := s.regs.(gpr := SetGpr(s.regs.gpr, rt, t.(d0 := x))))))
  {
    hide Dispatch, Loaded, Ea, Rt, Op, MarkRead, Little, Extend, LoadWidth, Width, Start, IsLoad, Slot;
    var op, rt := Op(code), Rt(code);
    var a := Ea(s.regs, code);
    if Slot(a, LoadWidth(op)).Some? {
      SlotInside(a, LoadWidth(op));
      LoadedIs(op, a, s.mem.bytes, Slot(a, LoadWidth(op)).value, s.regs.gpr[rt]);
    } else {
      WidthsAgree(op, a);
    }
    Unaligned.DispatchStore(s, code, j);
  }

  lemma SlotInside(a: u32, n: nat)
    ensures Slot(a, n).Some? ==> Slot(a, n).value + n <= MEMSIZE
  {
  }

  lemma WidthsAgree(op: nat, a: u32)
    requires LoadWidth(op) != 0
    ensures IsLoad(op) && Width(op) == LoadWidth(op) && Start(op, a) == a && !IsPartial(op)
  {
  }

  /** A plain store stops where its bytes are not all mapped; else those bytes become the low bytes of the register, and
      are tagged written, and nothing else changes. */
  lemma StoreLaw(s: State, code: u32, j: Junk)
    requires StoreWidth(Op(code)) != 0
    ensures var w, at := StoreWidth(Op(code)), Slot(Ea(s.regs, code), StoreWidth(Op(code)));
            && (at.None? ==> Dispatch(s, code, j) == Stop)
            && (at.Some? ==>
                  var a, p := Dispatch(s, code, j), at.value;
                  && a.Next?
                  && a.s == s.(mem := a.s.mem)
                  && Little(a.s.mem.bytes, p, w) == s.regs.gpr[Rt(code)].d0 % Span(w)
                  && (forall i :: 0 <= i < MEMSIZE && !(p <= i < p + w) ==> a.s.mem.bytes[i] == s.mem.bytes[i])
                  && a.s.mem.tags == MarkWritten(s.mem.tags, p, w))
  {
    hide Dispatch, Ea, Rt, Op, MarkWritten, Little, StoreWidth, Slot, Span;
    Unaligned.DispatchStore(s, code, j);
    var w, a, v := StoreWidth(Op(code)), Ea(s.regs, code), s.regs.gpr[Rt(code)].d0;
    StoreWidths(Op(code), a);
    SlotInside(a, w);
    if Slot(a, w).Some? {
      var p := Slot(a, w).value;
      var after := Overwrite(s.mem.bytes, p, Enc(v, w));
      Unaligned.OverwriteReadBack(s.mem.bytes, p, Enc(v, w));
      LittleIsLE(after, p, w);
      LowBytes(v, w);
    }
  }

  lemma StoreWidths(op: nat, a: u32)
    requires StoreWidth(op) != 0
    ensures IsStore(op) && !IsPartial(op) && op != SQ
    ensures StoreWidth(op) == Width(op) && StoreWidth(op) in {1, 2, 4, 8} && Start(op, a) == a
  {
  }

  lemma LowBytes(v: nat, w: nat)
    requires w in {1, 2, 4, 8}
    ensures LE(Enc(v, w)) == v % Span(w)
  {
    hide LE, Enc, Pow2;
    Pow2Values();
    EncDropsHigh(v, w);
    LEEnc(v % Pow2(8 * w), w);
  }

  /** What a plain store stored, a plain load of the same width brings back through either window: the low bytes of the
      register, with zeros or their sign above. */
  lemma StoreThenLoad(s: State, store: u32, load: u32, j: Junk)
    requires StoreWidth(Op(store)) != 0 && StoreWidth(Op(store)) == LoadWidth(Op(load))
    requires Phys(Ea(s.regs, load)) == Phys(Ea(s.regs, store)) && Rt(load) != 0
    ensures var w, v := StoreWidth(Op(store)), s.regs.gpr[Rt(store)].d0;
            var stored := Dispatch(s, store, j);
            stored.Next? ==>
              var back := Dispatch(stored.s, load, j);
              && back.Next?
              && back.s.regs.gpr[Rt(load)].d0 == Extend(v % Span(w), w, SignExtends(Op(load)))
  {
    hide Dispatch, Ea, Rt, Op, MarkWritten, MarkRead, Little, StoreWidth, LoadWidth, Extend, Span, Phys;
    StoreLaw(s, store, j);
    if Dispatch(s, store, j).Next? {
      LoadLaw(Dispatch(s, store, j).s, load, j);
    }
  }

  /** A wider unsigned load is two narrower ones, the upper half from the higher address: LHU of two LBU, LWU of two
      LHU, LD of two LWU. */
  lemma LoadIsTwoLoads(s: State, whole: u32, low: u32, high: u32, j: Junk)
    requires (Op(whole), Op(low)) in {(0x25, 0x24), (0x27, 0x25), (0x37, 0x27)} && Op(high) == Op(low)
    requires Rs(low) == Rs(high) == Rs(whole) && Imm(low) == Imm(whole) && Imm(high) == Imm(low) + LoadWidth(Op(low))
    requires Rt(whole) != 0 && Rt(low) != 0 && Rt(high) != 0
    ensures var a, l, h := Dispatch(s, whole, j), Dispatch(s, low, j), Dispatch(s, high, j);
            a.Next? ==>
              && l.Next? && h.Next?
              && a.s.regs.gpr[Rt(whole)].d0
                 == l.s.regs.gpr[Rt(low)].d0 as int + Span(LoadWidth(Op(low))) * h.s.regs.gpr[Rt(high)].d0
  {
    hide Dispatch, Ea, Rt, Rs, Imm, Op, MarkRead, Little, Phys;
    LoadLaw(s, whole, j);
    LoadLaw(s, low, j);
    LoadLaw(s, high, j);
    NextAddress(s.regs, whole, low, high, LoadWidth(Op(low)));
    if Dispatch(s, whole, j).Next? {
      var w, p := LoadWidth(Op(low)), Phys(Ea(s.regs, whole)).value;
      PhysNext(Ea(s.regs, whole), w);
      LittleSplits(s.mem.bytes, p, w);
      assert Dispatch(s, high, j).Next?;
    }
  }

  lemma NextAddress(r: Regs, whole: u32, low: u32, high: u32, w: nat)
    requires Rs(low) == Rs(high) == Rs(whole) && Imm(low) == Imm(whole) && Imm(high) == Imm(low) + w
    ensures Ea(r, low) == Ea(r, whole) && Ea(r, high) == U32(Ea(r, whole) + w)
  {
    hide Rs, Imm, Low, U32;
    Unaligned.WrapSum(Low(r.gpr[Rs(whole)]) + Imm(whole), w);
  }

  lemma LittleSplits(bytes: seq<u8>, p: nat, w: nat)
    requires p + 2 * w <= |bytes| && w in {1, 2, 4}
    ensures Little(bytes, p, 2 * w) == Little(bytes, p, w) + Span(w) * Little(bytes, p + w, w)
  {
    hide Little, LE;
    var bs := bytes[p..p + 2 * w];
    assert bs == bytes[p..p + w] + bytes[p + w..p + 2 * w];
    LittleIsLE(bytes, p, 2 * w);
    LittleIsLE(bytes, p, w);
    LittleIsLE(bytes, p + w, w);
    LEConcat(bytes[p..p + w], bytes[p + w..p + 2 * w]);
    Pow2Values();
  }

  /** LQ loads the two double words of the aligned 16 bytes around its address. */
  lemma QuadLoad(s: State, code: u32, j: Junk)
    requires Op(code) == 0x1e && Rt(code) != 0
    ensures var a, at := Ea(s.regs, code), Slot(Ea(s.regs, code) - Ea(s.regs, code) % 16, 16);
            && (at.None? ==> Dispatch(s, code, j) == Stop)
            && (at.Some? ==>
                  var p := at.value;
                  var x, y := Little(s.mem.bytes, p, 8), Little(s.mem.bytes, p + 8, 8);
                  && 0 <= x < TWO64 && 0 <= y < TWO64
                  && Dispatch(s, code, j)
                     == Next(s.(mem := s.mem.(tags := MarkRead(s.mem.tags, p, 16)),
                                regs := s.regs.(gpr := s.regs.gpr[Rt(code) := Reg(x, y)]))))
  {
    hide Dispatch, Ea, Rt, MarkRead, Little, LE, Slot;
    Unaligned.DispatchStore(s, code, j);
    var start := Ea(s.regs, code) - Ea(s.regs, code) % 16;
    SlotInside(start, 16);
    if Slot(start, 16).Some? {
      var p := Slot(start, 16).value;
      var bs := s.mem.bytes[p..p + 16];
      LittleIsLE(s.mem.bytes, p, 8);
      LittleIsLE(s.mem.bytes, p + 8, 8);
      LittleBound(s.mem.bytes, p, 8);
      LittleBound(s.mem.bytes, p + 8, 8);
      assert bs[..8] == s.mem.bytes[p..p + 8] && bs[8..] == s.mem.bytes[p + 8..p + 16];
    }
  }

  /** SQ changes and tags exactly the aligned 16 bytes around its address, whatever it puts there. */
  lemma QuadStore(s: State, code: u32, j: Junk)
    requires Op(code) == 0x1f
    ensures var a, at := Dispatch(s, code, j), Slot(Ea(s.regs, code) - Ea(s.regs, code) % 16, 16);
            && (at.None? ==> a == Stop)
            && (at.Some? ==>
                  var p := at.value;
                  && a.Next?
                  && a.s == s.(mem := a.s.mem)
                  && (forall i :: 0 <= i < MEMSIZE && !(p <= i < p + 16) ==> a.s.mem.bytes[i] == s.mem.bytes[i])
                  && a.s.mem.tags == MarkWritten(s.mem.tags, p, 16))
  {
    hide Dispatch, Ea, Rt, MarkWritten, Slot;
    Unaligned.DispatchStore(s, code, j);
  }
}
