/** Register-only code: single instructions of the SPECIAL and MMI tables, and sequences of them. */
module RegisterCode {
  import opened Words
  import opened Registers
  import Alu
  import Mmi

  /** A register-only instruction on the register file. */
  function EffectOf(r: Regs, code: u32): Effect
  {
    if Op(code) == 0x1c then Mmi.Mmi(r, code) else Alu.Special(r, code)
  }

  function Exec(r: Regs, code: u32): Regs
  {
    var e := EffectOf(r, code);
    if e.Write? then Apply(r, e) else r
  }

  function ExecAll(r: Regs, codes: seq<u32>): Regs
  {
    if codes == [] then r else Exec(ExecAll(r, codes[..|codes| - 1]), codes[|codes| - 1])
  }

  lemma {:induction false} ExecAllConcat(r: Regs, a: seq<u32>, b: seq<u32>)
    ensures ExecAll(r, a + b) == ExecAll(ExecAll(r, a), b)
    decreases |b|
  {
    hide Exec;
    if b == [] {
      assert a + b == a;
    } else {
      assert (a + b)[..|a + b| - 1] == a + b[..|b| - 1];
      ExecAllConcat(r, a, b[..|b| - 1]);
    }
  }
}
