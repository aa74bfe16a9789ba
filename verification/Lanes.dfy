/** Interleaving and packing undo each other; the permutations of a register can be undone and lose nothing. */
module Lanes {
  import opened Words
  import opened Registers
  import opened Mmi
  import opened RegisterCode

  // ----- Interleave and pack -----

  lemma PackWords(s: Reg, s': Reg, t: Reg)
    ensures Ppacw(Pextuw(s, t), Pextlw(s', t)) == t
  {
    hide Ws, OfWs;
    var a, a', b := Ws(s), Ws(s'), Ws(t);
    WordsRoundTrip(t, [b[2], a[2], b[3], a[3]]);
    WordsRoundTrip(t, [b[0], a'[0], b[1], a'[1]]);
    assert [b[0], b[1], b[2], b[3]] == b;
  }

  lemma PackHalves(s: Reg, s': Reg, t: Reg)
    ensures Ppach(Pextuh(s, t), Pextlh(s', t)) == t
  {
    hide Hs, OfHs;
    var a, a', b := Hs(s), Hs(s'), Hs(t);
    HalvesRoundTrip(t, [b[4], a[4], b[5], a[5], b[6], a[6], b[7], a[7]]);
    HalvesRoundTrip(t, [b[0], a'[0], b[1], a'[1], b[2], a'[2], b[3], a'[3]]);
    assert [b[0], b[1], b[2], b[3], b[4], b[5], b[6], b[7]] == b;
  }

  lemma PackBytes(s: Reg, s': Reg, t: Reg)
    ensures Ppacb(Pextub(s, t), Pextlb(s', t)) == t
  {
    hide Bs, OfBs;
    var a, a', b := Bs(s), Bs(s'), Bs(t);
    BytesRoundTrip(t, [b[8], a[8], b[9], a[9], b[10], a[10], b[11], a[11],
                       b[12], a[12], b[13], a[13], b[14], a[14], b[15], a[15]]);
    BytesRoundTrip(t, [b[0], a'[0], b[1], a'[1], b[2], a'[2], b[3], a'[3],
                       b[4], a'[4], b[5], a'[5], b[6], a'[6], b[7], a'[7]]);
    assert [b[0], b[1], b[2], b[3], b[4], b[5], b[6], b[7], b[8], b[9], b[10], b[11], b[12], b[13], b[14], b[15]] == b;
  }

  datatype Size = W | H | B

  function PextuSa(z: Size): nat { match z case W => 18 case H => 22 case B => 26 }
  function PpacSa(z: Size): nat { PextuSa(z) + 1 }

  predicate IsPextu(code: u32, z: Size) { Op(code) == 0x1c && Funct(code) == 0x28 && Sa(code) == PextuSa(z) }
  predicate IsPextl(code: u32, z: Size) { Op(code) == 0x1c && Funct(code) == 0x08 && Sa(code) == PextuSa(z) }
  predicate IsPpac(code: u32, z: Size) { Op(code) == 0x1c && Funct(code) == 0x08 && Sa(code) == PpacSa(z) }

  function Pextu(z: Size, s: Reg, t: Reg): Reg
  {
    match z case W => Pextuw(s, t) case H => Pextuh(s, t) case B => Pextub(s, t)
  }

  function Pextl(z: Size, s: Reg, t: Reg): Reg
  {
    match z case W => Pextlw(s, t) case H => Pextlh(s, t) case B => Pextlb(s, t)
  }

  function Ppac(z: Size, s: Reg, t: Reg): Reg
  {
    match z case W => Ppacw(s, t) case H => Ppach(s, t) case B => Ppacb(s, t)
  }

  lemma PextuEffect(r: Regs, code: u32, z: Size)
    requires IsPextu(code, z)
    ensures EffectOf(r, code) == ToReg(r, Rd(code), Pextu(z, r.gpr[Rs(code)], r.gpr[Rt(code)]))
  {
    hide Rs, Rt, Rd, Pextuw, Pextuh, Pextub, Ppacw, Ppach, Ppacb;
  }

  lemma PextlEffect(r: Regs, code: u32, z: Size)
    requires IsPextl(code, z)
    ensures EffectOf(r, code) == ToReg(r, Rd(code), Pextl(z, r.gpr[Rs(code)], r.gpr[Rt(code)]))
  {
    hide Rs, Rt, Rd, Pextlw, Pextlh, Pextlb, Ppacw, Ppach, Ppacb;
  }

  lemma PpacEffect(r: Regs, code: u32, z: Size)
    requires IsPpac(code, z)
    ensures EffectOf(r, code) == ToReg(r, Rd(code), Ppac(z, r.gpr[Rs(code)], r.gpr[Rt(code)]))
  {
    hide Rs, Rt, Rd, Pextlw, Pextlh, Pextlb, Ppacw, Ppach, Ppacb;
  }

  function Lanes(z: Size): nat { match z case W => 4 case H => 8 case B => 16 }

  function Lane(z: Size, r: Reg, i: nat): nat
    requires i < Lanes(z)
  {
    match z case W => Ws(r)[i] case H => Hs(r)[i] case B => Bs(r)[i]
  }

  /** PEXTL interleaves the lower lanes of its sources and PEXTU the upper ones: t in the even lanes, s in the odd. PPAC
      collects even lanes: those of t below those of s. */
  lemma InterleaveLanes(z: Size, s: Reg, t: Reg, i: nat)
    requires i < Lanes(z) / 2
    ensures Lane(z, Pextl(z, s, t), 2 * i) == Lane(z, t, i)
    ensures Lane(z, Pextl(z, s, t), 2 * i + 1) == Lane(z, s, i)
    ensures Lane(z, Pextu(z, s, t), 2 * i) == Lane(z, t, Lanes(z) / 2 + i)
    ensures Lane(z, Pextu(z, s, t), 2 * i + 1) == Lane(z, s, Lanes(z) / 2 + i)
    ensures Lane(z, Ppac(z, s, t), i) == Lane(z, t, 2 * i)
    ensures Lane(z, Ppac(z, s, t), Lanes(z) / 2 + i) == Lane(z, s, 2 * i)
  {
    hide Pextlw, Pextuw, Ppacw, Pextlh, Pextuh, Ppach, Pextlb, Pextub, Ppacb, Ws, Hs, Bs;
    match z
    case W => WordLanes(s, t, i);
    case H => HalfLanes(s, t, i);
    case B => ByteLanes(s, t, i);
  }

  lemma WordLanes(s: Reg, t: Reg, i: nat)
    requires i < 2
    ensures Ws(Pextlw(s, t))[2 * i] == Ws(t)[i] && Ws(Pextlw(s, t))[2 * i + 1] == Ws(s)[i]
    ensures Ws(Pextuw(s, t))[2 * i] == Ws(t)[2 + i] && Ws(Pextuw(s, t))[2 * i + 1] == Ws(s)[2 + i]
    ensures Ws(Ppacw(s, t))[i] == Ws(t)[2 * i] && Ws(Ppacw(s, t))[2 + i] == Ws(s)[2 * i]
  {
    hide Ws, OfWs;
    var a, b := Ws(s), Ws(t);
    WordsRoundTrip(t, [b[0], a[0], b[1], a[1]]);
    WordsRoundTrip(t, [b[2], a[2], b[3], a[3]]);
    WordsRoundTrip(t, [b[0], b[2], a[0], a[2]]);
  }

  lemma HalfLanes(s: Reg, t: Reg, i: nat)
    requires i < 4
    ensures Hs(Pextlh(s, t))[2 * i] == Hs(t)[i] && Hs(Pextlh(s, t))[2 * i + 1] == Hs(s)[i]
    ensures Hs(Pextuh(s, t))[2 * i] == Hs(t)[4 + i] && Hs(Pextuh(s, t))[2 * i + 1] == Hs(s)[4 + i]
    ensures Hs(Ppach(s, t))[i] == Hs(t)[2 * i] && Hs(Ppach(s, t))[4 + i] == Hs(s)[2 * i]
  {
    hide Hs, OfHs;
    var a, b := Hs(s), Hs(t);
    HalvesRoundTrip(t, [b[0], a[0], b[1], a[1], b[2], a[2], b[3], a[3]]);
    HalvesRoundTrip(t, [b[4], a[4], b[5], a[5], b[6], a[6], b[7], a[7]]);
    HalvesRoundTrip(t, [b[0], b[2], b[4], b[6], a[0], a[2], a[4], a[6]]);
  }

  lemma ByteLanes(s: Reg, t: Reg, i: nat)
    requires i < 8
    ensures Bs(Pextlb(s, t))[2 * i] == Bs(t)[i] && Bs(Pextlb(s, t))[2 * i + 1] == Bs(s)[i]
    ensures Bs(Pextub(s, t))[2 * i] == Bs(t)[8 + i] && Bs(Pextub(s, t))[2 * i + 1] == Bs(s)[8 + i]
    ensures Bs(Ppacb(s, t))[i] == Bs(t)[2 * i] && Bs(Ppacb(s, t))[8 + i] == Bs(s)[2 * i]
  {
    hide Bs, OfBs;
    var a, b := Bs(s), Bs(t);
    BytesRoundTrip(t, [b[0], a[0], b[1], a[1], b[2], a[2], b[3], a[3],
                       b[4], a[4], b[5], a[5], b[6], a[6], b[7], a[7]]);
    BytesRoundTrip(t, [b[8], a[8], b[9], a[9], b[10], a[10], b[11], a[11],
                       b[12], a[12], b[13], a[13], b[14], a[14], b[15], a[15]]);
    BytesRoundTrip(t, [b[0], b[2], b[4], b[6], b[8], b[10], b[12], b[14],
                       a[0], a[2], a[4], a[6], a[8], a[10], a[12], a[14]]);
  }

  /** The same for the instructions. */
  lemma InterleaveInstruction(r: Regs, code: u32, z: Size, i: nat)
    requires (IsPextl(code, z) || IsPextu(code, z)) && Rd(code) != 0 && i < Lanes(z) / 2
    ensures var d, s, t := Exec(r, code).gpr[Rd(code)], r.gpr[Rs(code)], r.gpr[Rt(code)];
            var from := if IsPextl(code, z) then i else Lanes(z) / 2 + i;
            Lane(z, d, 2 * i) == Lane(z, t, from) && Lane(z, d, 2 * i + 1) == Lane(z, s, from)
  {
    hide EffectOf, Pextu, Pextl, Rs, Rt, Rd, Lane;
    InterleaveLanes(z, r.gpr[Rs(code)], r.gpr[Rt(code)], i);
    if IsPextl(code, z) {
      PextlEffect(r, code, z);
    } else {
      PextuEffect(r, code, z);
    }
  }

  lemma PackInstruction(r: Regs, code: u32, z: Size, i: nat)
    requires IsPpac(code, z) && Rd(code) != 0 && i < Lanes(z) / 2
    ensures var d, s, t := Exec(r, code).gpr[Rd(code)], r.gpr[Rs(code)], r.gpr[Rt(code)];
            Lane(z, d, i) == Lane(z, t, 2 * i) && Lane(z, d, Lanes(z) / 2 + i) == Lane(z, s, 2 * i)
  {
    hide EffectOf, Ppac, Rs, Rt, Rd, Lane, IsPpac;
    InterleaveLanes(z, r.gpr[Rs(code)], r.gpr[Rt(code)], i);
    PpacEffect(r, code, z);
  }

  /** PPAC keeps the even lanes, and those come from t alone. */
  lemma PackInverse(z: Size, s: Reg, s': Reg, t: Reg)
    ensures Ppac(z, Pextu(z, s, t), Pextl(z, s', t)) == t
  {
    hide Pextuw, Pextuh, Pextub, Pextlw, Pextlh, Pextlb, Ppacw, Ppach, Ppacb;
    PackWords(s, s', t);
    PackHalves(s, s', t);
    PackBytes(s, s', t);
  }

  /** What the two interleaves and the pack share: t, and that PPAC d,u,l takes u from PEXTU u,s,t and l from
      PEXTL l,s',t. The registers s and s' need not be the same. */
  predicate Interleaves(upper: u32, lower: u32, pack: u32, z: Size)
  {
    && IsPextu(upper, z) && IsPextl(lower, z) && IsPpac(pack, z)
    && Rt(lower) == Rt(upper)
    && Rs(pack) == Rd(upper) && Rt(pack) == Rd(lower)
    && 0 !in {Rd(upper), Rd(lower), Rd(pack)} && Rd(upper) != Rd(lower)
  }

  /** PEXTU u,s,t; PEXTL l,s',t; PPAC d,u,l puts the value of t into d, for bytes, half words and words. Any register
      may be another, except that u must survive PEXTL and must not hide t from it: u may be s, l may be s, s' or t, and
      d any of them. */
  lemma PackUndoesInterleave(r: Regs, upper: u32, lower: u32, pack: u32, z: Size)
    requires Interleaves(upper, lower, pack, z) && Rd(upper) != Rt(upper)
    ensures Exec(Exec(Exec(r, upper), lower), pack).gpr[Rd(pack)] == r.gpr[Rt(upper)]
  {
    hide EffectOf, Pextu, Pextl, Ppac, Rs, Rt, Rd, IsPextu, IsPextl, IsPpac;
    PextuEffect(r, upper, z);
    var r1 := Exec(r, upper);
    PextlEffect(r1, lower, z);
    var r2 := Exec(r1, lower);
    PpacEffect(r2, pack, z);
    PackInverse(z, r.gpr[Rs(upper)], r1.gpr[Rs(lower)], r.gpr[Rt(upper)]);
  }

  /** In the other order l must survive and leave t alone, and u may be s or t. */
  lemma PackUndoesInterleaveLowerFirst(r: Regs, upper: u32, lower: u32, pack: u32, z: Size)
    requires Interleaves(upper, lower, pack, z) && Rd(lower) != Rt(lower)
    ensures Exec(Exec(Exec(r, lower), upper), pack).gpr[Rd(pack)] == r.gpr[Rt(lower)]
  {
    hide EffectOf, Pextu, Pextl, Ppac, Rs, Rt, Rd, IsPextu, IsPextl, IsPpac;
    PextlEffect(r, lower, z);
    var r1 := Exec(r, lower);
    PextuEffect(r1, upper, z);
    var r2 := Exec(r1, upper);
    PpacEffect(r2, pack, z);
    PackInverse(z, r1.gpr[Rs(upper)], r.gpr[Rs(lower)], r.gpr[Rt(lower)]);
  }

  // ----- Permutations -----

  datatype Permutation = EXEH | REVH | EXEW | ROT3W | EXCH | EXCW

  function Permute(p: Permutation, t: Reg): Reg
  {
    match p
    case EXEH => Pexeh(t)
    case REVH => Prevh(t)
    case EXEW => Pexew(t)
    case ROT3W => Prot3w(t)
    case EXCH => Pexch(t)
    case EXCW => Pexcw(t)
  }

  /** The same on the eight half words: position i of the result is position Source(p)[i] of the operand. */
  function Source(p: Permutation): seq<nat>
  {
    match p
    case EXEH => [2, 1, 0, 3, 6, 5, 4, 7]
    case REVH => [3, 2, 1, 0, 7, 6, 5, 4]
    case EXEW => [4, 5, 2, 3, 0, 1, 6, 7]
    case ROT3W => [2, 3, 4, 5, 0, 1, 6, 7]
    case EXCH => [0, 2, 1, 3, 4, 6, 5, 7]
    case EXCW => [0, 1, 4, 5, 2, 3, 6, 7]
  }

  function Pick(h: seq<u16>, p: Permutation): (r: seq<u16>)
    requires |h| == 8
    ensures |r| == 8
  {
    var m := Source(p);
    [h[m[0]], h[m[1]], h[m[2]], h[m[3]], h[m[4]], h[m[5]], h[m[6]], h[m[7]]]
  }

  lemma PermuteHalves(p: Permutation, t: Reg)
    ensures Hs(Permute(p, t)) == Pick(Hs(t), p)
  {
    var h, w := Hs(t), Ws(t);
    match p
    case EXEH => HalvesRoundTrip(t, Pick(h, p));
    case REVH => HalvesRoundTrip(t, Pick(h, p));
    case EXCH => HalvesRoundTrip(t, Pick(h, p));
    case EXEW => WordsRoundTrip(t, [w[2], w[1], w[0], w[3]]);
    case ROT3W => WordsRoundTrip(t, [w[1], w[2], w[0], w[3]]);
    case EXCW => WordsRoundTrip(t, [w[0], w[2], w[1], w[3]]);
  }

  function Swap(h: seq<u16>, i: nat, j: nat): (r: seq<u16>)
    requires i < j < |h|
    ensures |r| == |h|
  {
    h[i := h[j]][j := h[i]]
  }

  lemma SwapKeeps(h: seq<u16>, i: nat, j: nat)
    requires i < j < |h|
    ensures multiset(Swap(h, i, j)) == multiset(h)
  {
  }

  /** Two exchanges of disjoint pairs. */
  lemma SwapsKeep(h: seq<u16>, i: nat, j: nat, k: nat, l: nat)
    requires i < j < |h| && k < l < |h|
    ensures multiset(Swap(Swap(h, i, j), k, l)) == multiset(h)
  {
    hide Swap;
    SwapKeeps(h, i, j);
    SwapKeeps(Swap(h, i, j), k, l);
  }

  /** Each permutation as exchanges of half words. */
  function Exchanges(h: seq<u16>, p: Permutation): (r: seq<u16>)
    requires |h| == 8
    ensures |r| == 8
  {
    match p
    case EXEH => Swap(Swap(h, 0, 2), 4, 6)
    case EXCH => Swap(Swap(h, 1, 2), 5, 6)
    case EXEW => Swap(Swap(h, 0, 4), 1, 5)
    case EXCW => Swap(Swap(h, 2, 4), 3, 5)
    case REVH => Swap(Swap(Swap(Swap(h, 0, 3), 1, 2), 4, 7), 5, 6)
    case ROT3W => Swap(Swap(Swap(Swap(h, 0, 2), 1, 3), 2, 4), 3, 5)
  }

  lemma PickExchanges(h: seq<u16>, p: Permutation)
    requires |h| == 8
    ensures Pick(h, p) == Exchanges(h, p)
  {
  }

  lemma PickKeeps(h: seq<u16>, p: Permutation)
    requires |h| == 8
    ensures multiset(Pick(h, p)) == multiset(h)
  {
    hide Pick, Swap;
    PickExchanges(h, p);
    match p
    case EXEH => SwapsKeep(h, 0, 2, 4, 6);
    case EXCH => SwapsKeep(h, 1, 2, 5, 6);
    case EXEW => SwapsKeep(h, 0, 4, 1, 5);
    case EXCW => SwapsKeep(h, 2, 4, 3, 5);
    case REVH =>
      SwapsKeep(h, 0, 3, 1, 2);
      SwapsKeep(Swap(Swap(h, 0, 3), 1, 2), 4, 7, 5, 6);
    case ROT3W =>
      SwapsKeep(h, 0, 2, 1, 3);
      SwapsKeep(Swap(Swap(h, 0, 2), 1, 3), 2, 4, 3, 5);
  }

  function PermuteAll(t: Reg, ps: seq<Permutation>): Reg
    decreases |ps|
  {
    if ps == [] then t else PermuteAll(Permute(ps[0], t), ps[1..])
  }

  /** Every permutation is its own inverse, except the rotation, whose inverse is itself twice. */
  function Inverse(p: Permutation): seq<Permutation> { if p == ROT3W then [ROT3W, ROT3W] else [p] }

  function InverseAll(ps: seq<Permutation>): seq<Permutation>
  {
    if ps == [] then [] else InverseAll(ps[1..]) + Inverse(ps[0])
  }

  /** No half word is lost or duplicated by any sequence of permutations. */
  lemma {:induction false} PermutationsKeepHalves(t: Reg, ps: seq<Permutation>)
    ensures multiset(Hs(PermuteAll(t, ps))) == multiset(Hs(t))
    decreases |ps|
  {
    hide Permute, Hs, Pick;
    if ps == [] {
    } else {
      PermuteHalves(ps[0], t);
      PickKeeps(Hs(t), ps[0]);
      PermutationsKeepHalves(Permute(ps[0], t), ps[1..]);
    }
  }

  lemma HalvesDetermine(a: Reg, b: Reg)
    requires Hs(a) == Hs(b)
    ensures a == b
  {
    HalvesRoundTrip(a, Hs(a));
    HalvesRoundTrip(b, Hs(b));
  }

  /** Applied twice, each permutation but the rotation gives its operand back. */
  lemma Involution(p: Permutation, t: Reg)
    requires p != ROT3W
    ensures Permute(p, Permute(p, t)) == t
  {
    hide Permute, Hs;
    PermuteHalves(p, t);
    PermuteHalves(p, Permute(p, t));
    var h := Hs(t);
    assert h == [h[0], h[1], h[2], h[3], h[4], h[5], h[6], h[7]];
    HalvesDetermine(Permute(p, Permute(p, t)), t);
  }

  /** The rotation gives it back after three times. */
  lemma RotationCube(t: Reg)
    ensures Permute(ROT3W, Permute(ROT3W, Permute(ROT3W, t))) == t
  {
    hide Permute, Hs;
    var a := Permute(ROT3W, t);
    var b := Permute(ROT3W, a);
    PermuteHalves(ROT3W, t);
    PermuteHalves(ROT3W, a);
    PermuteHalves(ROT3W, b);
    var h := Hs(t);
    assert h == [h[0], h[1], h[2], h[3], h[4], h[5], h[6], h[7]];
    HalvesDetermine(Permute(ROT3W, b), t);
  }

  lemma {:induction false} PermuteConcat(t: Reg, a: seq<Permutation>, b: seq<Permutation>)
    ensures PermuteAll(t, a + b) == PermuteAll(PermuteAll(t, a), b)
    decreases |a|
  {
    hide Permute;
    if a == [] {
      assert a + b == b;
    } else {
      assert (a + b)[1..] == a[1..] + b;
      PermuteConcat(Permute(a[0], t), a[1..], b);
    }
  }

  lemma UndoOne(p: Permutation, t: Reg)
    ensures PermuteAll(Permute(p, t), Inverse(p)) == t
  {
    hide Permute;
    if p == ROT3W {
      RotationCube(t);
      assert PermuteAll(Permute(p, t), [ROT3W, ROT3W]) == PermuteAll(Permute(p, Permute(p, t)), [ROT3W]);
    } else {
      Involution(p, t);
    }
  }

  /** Any sequence of permutations can be undone. */
  lemma {:induction false} PermutationsCanBeUndone(t: Reg, ps: seq<Permutation>)
    ensures PermuteAll(PermuteAll(t, ps), InverseAll(ps)) == t
    decreases |ps|
  {
    hide Permute, Inverse;
    if ps == [] {
    } else {
      var u := Permute(ps[0], t);
      PermutationsCanBeUndone(u, ps[1..]);
      PermuteConcat(PermuteAll(u, ps[1..]), InverseAll(ps[1..]), Inverse(ps[0]));
      UndoOne(ps[0], t);
    }
  }

  /** The instruction of each permutation. */
  predicate IsPermutation(code: u32, p: Permutation)
  {
    && Op(code) == 0x1c
    && (match p
        case EXEH => Funct(code) == 0x09 && Sa(code) == 26
        case REVH => Funct(code) == 0x09 && Sa(code) == 27
        case EXEW => Funct(code) == 0x09 && Sa(code) == 30
        case ROT3W => Funct(code) == 0x09 && Sa(code) == 31
        case EXCH => Funct(code) == 0x29 && Sa(code) == 26
        case EXCW => Funct(code) == 0x29 && Sa(code) == 30)
  }

  lemma PermutationEffect(r: Regs, code: u32, p: Permutation)
    requires IsPermutation(code, p)
    ensures EffectOf(r, code) == ToReg(r, Rd(code), Permute(p, r.gpr[Rt(code)]))
  {
    hide Rs, Rt, Rd, Pexeh, Prevh, Pexew, Prot3w, Pexch, Pexcw;
  }

  /** A program of permutations of one register in place permutes its value. */
  lemma {:induction false} PermutationProgram(r: Regs, codes: seq<u32>, ps: seq<Permutation>, n: Index)
    requires n != 0 && |codes| == |ps|
    requires forall i :: 0 <= i < |codes| ==> IsPermutation(codes[i], ps[i]) && Rd(codes[i]) == Rt(codes[i]) == n
    ensures ExecAll(r, codes).gpr[n] == PermuteAll(r.gpr[n], ps)
    decreases |codes|
  {
    hide EffectOf, IsPermutation, Permute, Rd, Rt;
    if codes == [] {
    } else {
      var k := |codes| - 1;
      PermutationProgram(r, codes[..k], ps[..k], n);
      PermutationEffect(ExecAll(r, codes[..k]), codes[k], ps[k]);
      assert ps == ps[..k] + [ps[k]];
      PermuteConcat(r.gpr[n], ps[..k], [ps[k]]);
    }
  }

  // ----- Pixels, accumulator moves, saturation -----

  /** A word from the four fields of a pixel, packed in 16 bits or spread over 32. */
  function Packed(a: nat, b: nat, c: nat, d: nat): nat { a + 0x20 * (b + 0x20 * (c + 0x20 * d)) }
  function Spread(a: nat, b: nat, c: nat, d: nat): nat { 0x8 * a + 0x800 * (b + 0x100 * (c + 0x1000 * d)) }

  lemma PackedFields(a: nat, b: nat, c: nat, d: nat, e: nat)
    requires a < 0x20 && b < 0x20 && c < 0x20 && d < 2
    ensures var x := Packed(a, b, c, d) + TWO16 * e;
            x % 0x20 == a && x / 0x20 % 0x20 == b && x / 0x400 % 0x20 == c && x / 0x8000 % 2 == d
  {
    var x := Packed(a, b, c, d) + TWO16 * e;
    var x3 := d + 2 * e;
    var x2 := c + 0x20 * x3;
    DivMod(x, 0x20, a, b + 0x20 * x2);
    DivMod(b + 0x20 * x2, 0x20, b, x2);
    DivMod(x, 0x400, a + 0x20 * b, x2);
    DivMod(x2, 0x20, c, x3);
    DivMod(x, 0x8000, a + 0x20 * b + 0x400 * c, x3);
    DivMod(x3, 2, d, e);
  }

  lemma SpreadFields(a: nat, b: nat, c: nat, d: nat)
    requires a < 0x20 && b < 0x20 && c < 0x20 && d < 2
    ensures var y := Spread(a, b, c, d);
            y / 0x8 % 0x20 == a && y / 0x800 % 0x20 == b && y / 0x8_0000 % 0x20 == c && y / 0x8000_0000 % 2 == d
  {
    var y := Spread(a, b, c, d);
    var y2 := c + 0x1000 * d;
    var y1 := b + 0x100 * y2;
    DivMod(y, 0x8, 0, a + 0x100 * y1);
    DivMod(a + 0x100 * y1, 0x20, a, 0x8 * y1);
    DivMod(y, 0x800, 0x8 * a, y1);
    DivMod(y1, 0x20, b, 0x8 * y2);
    DivMod(y, 0x8_0000, 0x8 * a + 0x800 * b, y2);
    DivMod(y2, 0x20, c, 0x80 * d);
    DivMod(y, 0x8000_0000, 0x8 * a + 0x800 * b + 0x8_0000 * c, d);
  }

  lemma WordFields(x: u32)
    ensures x == Packed(x % 0x20, x / 0x20 % 0x20, x / 0x400 % 0x20, x / 0x8000 % 2) + TWO16 * (x / TWO16)
  {
    var x1, x2, x3 := x / 0x20, x / 0x400, x / 0x8000;
    assert x1 / 0x20 == x2 && x2 / 0x20 == x3 && x3 / 2 == x / TWO16;
  }

  predicate IsPext5(code: u32) { Op(code) == 0x1c && Funct(code) == 0x08 && Sa(code) == 30 }
  predicate IsPpac5(code: u32) { Op(code) == 0x1c && Funct(code) == 0x08 && Sa(code) == 31 }

  lemma Pext5Lane(r: Regs, code: u32, i: nat)
    requires IsPext5(code) && Rd(code) != 0 && i < 4
    ensures Ws(Exec(r, code).gpr[Rd(code)])[i] == Ext5(Ws(r.gpr[Rt(code)])[i])
  {
    hide Rs, Rt, Rd, Ws, OfWs, MapW, Ext5;
    var t := r.gpr[Rt(code)];
    MapWLane((x, _) => Ext5(x), t, t, i);
  }

  lemma Ppac5Lane(r: Regs, code: u32, i: nat)
    requires IsPpac5(code) && Rd(code) != 0 && i < 4
    ensures Ws(Exec(r, code).gpr[Rd(code)])[i] == Pac5(Ws(r.gpr[Rt(code)])[i])
  {
    hide Rs, Rt, Rd, Ws, OfWs, MapW, Pac5;
    var t := r.gpr[Rt(code)];
    MapWLane((x, _) => Pac5(x), t, t, i);
  }

  /** Of a word packed after it was spread the low half word is left, the packed pixel. */
  lemma PackedAgain(x: u32)
    ensures Pac5(Ext5(x)) == x % TWO16
  {
    var a, b, c, d := x % 0x20, x / 0x20 % 0x20, x / 0x400 % 0x20, x / 0x8000 % 2;
    WordFields(x);
    assert Ext5(x) == Spread(a, b, c, d);
    SpreadFields(a, b, c, d);
    DivMod(x, TWO16, Packed(a, b, c, d), x / TWO16);
  }

  /** PEXT5 e,t; PPAC5 d,e keeps the four packed pixels of t. */
  lemma PixelRoundTrip(r: Regs, ext: u32, pac: u32, i: nat)
    requires IsPext5(ext) && IsPpac5(pac) && Rd(ext) != 0 && Rd(pac) != 0 && Rt(pac) == Rd(ext) && i < 4
    ensures Ws(Exec(Exec(r, ext), pac).gpr[Rd(pac)])[i] == Ws(r.gpr[Rt(ext)])[i] % TWO16
  {
    hide Rt, Rd, Ws, Exec, Ext5, Pac5, IsPext5, IsPpac5;
    Pext5Lane(r, ext, i);
    Ppac5Lane(Exec(r, ext), pac, i);
    PackedAgain(Ws(r.gpr[Rt(ext)])[i]);
  }

  /** The bits that no field of a spread pixel uses. */
  predicate IsSpread(x: u32)
  {
    x % 8 == 0 && x / 0x100 % 8 == 0 && x / 0x1_0000 % 8 == 0 && x / 0x100_0000 % 0x80 == 0
  }

  lemma SpreadAgain(x: u32)
    ensures Ext5(Pac5(x)) == x <==> IsSpread(x)
  {
    var a, b, c, d := x / 0x8 % 0x20, x / 0x800 % 0x20, x / 0x8_0000 % 0x20, x / 0x8000_0000 % 2;
    PackedFields(a, b, c, d, 0);
    assert Pac5(x) == Packed(a, b, c, d);
    assert Ext5(Pac5(x)) == Spread(a, b, c, d);
    Gaps(x);
  }

  /** A word as its four fields and the four gaps between them. */
  lemma Gaps(x: u32)
    ensures x == Spread(x / 0x8 % 0x20, x / 0x800 % 0x20, x / 0x8_0000 % 0x20, x / 0x8000_0000 % 2)
                 + (x % 8 + 0x100 * (x / 0x100 % 8) + 0x1_0000 * (x / 0x1_0000 % 8)
                    + 0x100_0000 * (x / 0x100_0000 % 0x80))
  {
    ByteOf(x);
    ByteOf(x / 0x100);
    ByteOf(x / 0x1_0000);
    TopOf(x / 0x100_0000);
    Quotients(x);
  }

  lemma ByteOf(x: u32)
    ensures x == x % 8 + 8 * (x / 8 % 0x20) + 0x100 * (x / 0x100)
  {
  }

  lemma TopOf(x: nat)
    requires x < 0x100
    ensures x == x % 0x80 + 0x80 * (x / 0x80 % 2)
  {
  }

  lemma Quotients(x: u32)
    ensures x / 0x100 / 0x100 == x / 0x1_0000 && x / 0x1_0000 / 0x100 == x / 0x100_0000
    ensures x / 0x100 / 8 == x / 0x800 && x / 0x1_0000 / 8 == x / 0x8_0000
    ensures x / 0x100_0000 < 0x100 && x / 0x100_0000 / 0x80 == x / 0x8000_0000
  {
  }

  /** PPAC5 p,t; PEXT5 d,p gives back exactly the words of t that hold nothing but a spread pixel. */
  lemma SpreadRoundTripIff(r: Regs, pac: u32, ext: u32, i: nat)
    requires IsPpac5(pac) && IsPext5(ext) && Rd(pac) != 0 && Rd(ext) != 0 && Rt(ext) == Rd(pac) && i < 4
    ensures var x := Ws(r.gpr[Rt(pac)])[i];
            Ws(Exec(Exec(r, pac), ext).gpr[Rd(ext)])[i] == x <==> IsSpread(x)
  {
    hide Rt, Rd, Ws, Exec, Ext5, Pac5, IsPext5, IsPpac5, IsSpread;
    Ppac5Lane(r, pac, i);
    Pext5Lane(Exec(r, pac), ext, i);
    SpreadAgain(Ws(r.gpr[Rt(pac)])[i]);
  }

  /** PMTHL spreads a register over the accumulators and PMFHL.LW collects it again. */
  lemma AccumulatorMovesRoundTrip(r: Regs, spread: u32, collect: u32)
    requires Op(spread) == 0x1c && Funct(spread) == 0x31 && Sa(spread) == 0
    requires Op(collect) == 0x1c && Funct(collect) == 0x30 && Sa(collect) == 0 && Rd(collect) != 0
    ensures Exec(Exec(r, spread), collect).gpr[Rd(collect)] == r.gpr[Rs(spread)]
    ensures Exec(r, spread).gpr == r.gpr
    ensures forall i :: i == 1 || i == 3 ==>
              && Ws(Exec(r, spread).lo)[i] == Ws(r.lo)[i]
              && Ws(Exec(r, spread).hi)[i] == Ws(r.hi)[i]
  {
    hide Rs, Rd, Ws, OfWs;
    var s, lw, hw := Ws(r.gpr[Rs(spread)]), Ws(r.lo), Ws(r.hi);
    var r1 := Exec(r, spread);
    WordsRoundTrip(r.gpr[Rs(spread)], lw[0 := s[0]][2 := s[2]]);
    WordsRoundTrip(r.gpr[Rs(spread)], hw[0 := s[1]][2 := s[3]]);
    assert [s[0], s[1], s[2], s[3]] == s;
  }

  lemma MapWLane(f: (u32, u32) -> u32, a: Reg, b: Reg, i: nat)
    requires i < 4
    ensures Ws(MapW(f, a, b))[i] == f(Ws(a)[i], Ws(b)[i])
  {
    hide Ws, OfWs;
    WordsRoundTrip(a, seq<u32>(4, i requires 0 <= i < 4 => f(Ws(a)[i], Ws(b)[i])));
  }

  lemma MapHLane(f: (u16, u16) -> u16, a: Reg, b: Reg, i: nat)
    requires i < 8
    ensures Hs(MapH(f, a, b))[i] == f(Hs(a)[i], Hs(b)[i])
  {
    hide Hs, OfHs;
    HalvesRoundTrip(a, seq<u16>(8, i requires 0 <= i < 8 => f(Hs(a)[i], Hs(b)[i])));
  }

  lemma MapBLane(f: (u8, u8) -> u8, a: Reg, b: Reg, i: nat)
    requires i < 16
    ensures Bs(MapB(f, a, b))[i] == f(Bs(a)[i], Bs(b)[i])
  {
    hide Bs, OfBs;
    BytesRoundTrip(a, seq<u8>(16, i requires 0 <= i < 16 => f(Bs(a)[i], Bs(b)[i])));
  }

  // ----- Saturating sums and differences, lane by lane -----

  /** Lanes range up to 2 * Half(z) - 1 unsigned, from -Half(z) to Half(z) - 1 signed. */
  function Half(z: Size): int { match z case W => 0x8000_0000 case H => 0x8000 case B => 0x80 }
  function Signed(z: Size, x: int): int { if x < Half(z) then x else x - 2 * Half(z) }

  function SaturatingSa(z: Size): nat { match z case W => 16 case H => 20 case B => 24 }

  predicate IsPaddu(code: u32, z: Size) { Op(code) == 0x1c && Funct(code) == 0x28 && Sa(code) == SaturatingSa(z) }
  predicate IsPsubu(code: u32, z: Size) { Op(code) == 0x1c && Funct(code) == 0x28 && Sa(code) == SaturatingSa(z) + 1 }
  predicate IsPadds(code: u32, z: Size) { Op(code) == 0x1c && Funct(code) == 0x08 && Sa(code) == SaturatingSa(z) }

  lemma PadduLane(r: Regs, code: u32, z: Size, i: nat)
    requires IsPaddu(code, z) && Rd(code) != 0 && i < Lanes(z)
    ensures Exec(r, code).gpr == r.gpr[Rd(code) := Exec(r, code).gpr[Rd(code)]]
    ensures var sum := Lane(z, r.gpr[Rs(code)], i) + Lane(z, r.gpr[Rt(code)], i);
            Lane(z, Exec(r, code).gpr[Rd(code)], i) == if sum >= 2 * Half(z) then 2 * Half(z) - 1 else sum
  {
    hide Rs, Rt, Rd, Ws, Hs, Bs, MapW, MapH, MapB;
    var s, t := r.gpr[Rs(code)], r.gpr[Rt(code)];
    match z
    case W => MapWLane(AddUnsignedW, s, t, i);
    case H => MapHLane(AddUnsignedH, s, t, i);
    case B => MapBLane(AddUnsignedB, s, t, i);
  }

  lemma PsubuLane(r: Regs, code: u32, z: Size, i: nat)
    requires IsPsubu(code, z) && Rd(code) != 0 && i < Lanes(z)
    ensures Exec(r, code).gpr == r.gpr[Rd(code) := Exec(r, code).gpr[Rd(code)]]
    ensures var a, b := Lane(z, r.gpr[Rs(code)], i), Lane(z, r.gpr[Rt(code)], i);
            Lane(z, Exec(r, code).gpr[Rd(code)], i) == if a < b then 0 else a - b
  {
    hide Rs, Rt, Rd, Ws, Hs, Bs, MapW, MapH, MapB;
    var s, t := r.gpr[Rs(code)], r.gpr[Rt(code)];
    match z
    case W => MapWLane(SubUnsignedW, s, t, i);
    case H => MapHLane(SubUnsignedH, s, t, i);
    case B => MapBLane(SubUnsignedB, s, t, i);
  }

  /** PSUBUx d,s,t; PADDUx d,d,t leaves the unsigned maximum of s and t in every lane. */
  lemma SubtractAddIsMaximum(r: Regs, sub: u32, add: u32, z: Size, i: nat)
    requires IsPsubu(sub, z) && IsPaddu(add, z) && Rd(sub) !in {0, Rt(sub)}
    requires Rd(add) == Rs(add) == Rd(sub) && Rt(add) == Rt(sub) && i < Lanes(z)
    ensures var a, b := Lane(z, r.gpr[Rs(sub)], i), Lane(z, r.gpr[Rt(sub)], i);
            Lane(z, Exec(Exec(r, sub), add).gpr[Rd(add)], i) == if a < b then b else a
  {
    hide Rs, Rt, Rd, Lane, EffectOf, IsPaddu, IsPsubu;
    PsubuLane(r, sub, z, i);
    PadduLane(Exec(r, sub), add, z, i);
    LaneBound(z, r.gpr[Rs(sub)], i);
    LaneBound(z, r.gpr[Rt(sub)], i);
  }

  /** PADDUx d,s,t; PSUBUx d,d,t leaves the minimum of s and the complement of t. */
  lemma AddSubtractIsMinimum(r: Regs, add: u32, sub: u32, z: Size, i: nat)
    requires IsPaddu(add, z) && IsPsubu(sub, z) && Rd(add) !in {0, Rt(add)}
    requires Rd(sub) == Rs(sub) == Rd(add) && Rt(sub) == Rt(add) && i < Lanes(z)
    ensures var a, b := Lane(z, r.gpr[Rs(add)], i), 2 * Half(z) - 1 - Lane(z, r.gpr[Rt(add)], i);
            Lane(z, Exec(Exec(r, add), sub).gpr[Rd(sub)], i) == if a < b then a else b
  {
    hide Rs, Rt, Rd, Lane, EffectOf, IsPaddu, IsPsubu;
    PadduLane(r, add, z, i);
    PsubuLane(Exec(r, add), sub, z, i);
    LaneBound(z, r.gpr[Rs(add)], i);
    LaneBound(z, r.gpr[Rt(add)], i);
  }

  lemma LaneBound(z: Size, r: Reg, i: nat)
    requires i < Lanes(z)
    ensures Lane(z, r, i) < 2 * Half(z)
  {
  }

  function Clamp(v: int, limit: int): int { if v >= limit then limit - 1 else if v < -limit then -limit else v }

  /** A signed sum as coded: only what is too large is clamped. */
  function Coded(sum: int, half: int): int
    requires half > 0
  {
    if sum >= half then half - 1 else sum % (2 * half)
  }

  lemma PaddsLane(r: Regs, code: u32, z: Size, i: nat)
    requires IsPadds(code, z) && Rd(code) != 0 && i < Lanes(z)
    ensures var sum := Signed(z, Lane(z, r.gpr[Rs(code)], i)) + Signed(z, Lane(z, r.gpr[Rt(code)], i));
            Lane(z, Exec(r, code).gpr[Rd(code)], i) == Coded(sum, Half(z))
  {
    hide Rs, Rt, Rd, Ws, Hs, Bs, MapW, MapH, MapB;
    var s, t := r.gpr[Rs(code)], r.gpr[Rt(code)];
    match z
    case W => MapWLane(AddSignedW, s, t, i);
    case H => MapHLane(AddSignedH, s, t, i);
    case B => MapBLane(AddSignedB, s, t, i);
  }

  /** PADDSW, PADDSH and PADDSB saturate upward only: a lane is right exactly when its sum is not below the range. */
  lemma SignedAddSaturatesIff(r: Regs, code: u32, z: Size, i: nat)
    requires IsPadds(code, z) && Rd(code) != 0 && i < Lanes(z)
    ensures var sum := Signed(z, Lane(z, r.gpr[Rs(code)], i)) + Signed(z, Lane(z, r.gpr[Rt(code)], i));
            Signed(z, Lane(z, Exec(r, code).gpr[Rd(code)], i)) == Clamp(sum, Half(z)) <==> sum >= -Half(z)
  {
    hide Rs, Rt, Rd, Lane, Exec, IsPadds;
    PaddsLane(r, code, z, i);
    LaneBound(z, r.gpr[Rs(code)], i);
    LaneBound(z, r.gpr[Rt(code)], i);
    match z
    case W =>
    case H =>
    case B =>
  }

  /** PADDSx r1, r2, r2 with the least number in the lowest lane of r2 leaves zero there. */
  lemma SignedAddFails(z: Size) returns (r: Regs, code: u32)
    ensures IsPadds(code, z) && Rd(code) == 1 && Rs(code) == Rt(code) == 2
    ensures Signed(z, Lane(z, r.gpr[2], 0)) == -Half(z)
    ensures Lane(z, Exec(r, code).gpr[1], 0) == 0
    ensures Clamp(-2 * Half(z), Half(z)) == -Half(z)
  {
    hide Exec, Lane, Op, Funct, Sa, Rs, Rt, Rd;
    r := Regs(seq(32, i => if i == 2 then Reg(Half(z), 0) else ZERO), ZERO, ZERO, 0);
    code := 0x7042_0808 + 0x40 * SaturatingSa(z);
    PaddsCode(z);
    LowestLane(z);
    PaddsLane(r, code, z, 0);
  }

  lemma PaddsCode(z: Size)
    ensures var code := 0x7042_0808 + 0x40 * SaturatingSa(z);
            IsPadds(code, z) && Rd(code) == 1 && Rs(code) == Rt(code) == 2
  {
    match z
    case W => assert 0x7042_0808 + 0x40 * 16 == 0x7042_0c08;
    case H => assert 0x7042_0808 + 0x40 * 20 == 0x7042_0d08;
    case B => assert 0x7042_0808 + 0x40 * 24 == 0x7042_0e08;
  }

  lemma LowestLane(z: Size)
    ensures Lane(z, Reg(Half(z), 0), 0) == Half(z)
  {
  }
}
