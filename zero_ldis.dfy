/** `remove_zero_ldis` (assembler.py:171-189): unlabelled `LDI Rn, #0`
    whose Rn is tracked are redundant and deleted; Rn's record is reset to
    cycle 0 so it can serve every later use of the value it holds. */
module ZeroLdis {
  import opened Wrappers
  import opened Seqs
  import opened Dicts
  import opened Instructions
  import opened Tracker

  /** Some(reg) when `ins` is a removable zero LDI of tracked register `reg`;
      None when it is kept; Failure where the source raises on its operands. */
  function ZeroLdiTarget(ins: Instr, keys: seq<int>): Result<Option<int>, Error>
  {
    if GetOpcode(ins) == OpLdi && !BeginsWithLabel(ins) then
      if |ins.operands| < 2 then Failure(MissingOperand)
      else
        var value :- GetOperandValue(ins.operands[1]);
        if value == 0 then
          var reg :- GetOperandValue(ins.operands[0]);
          Success(if reg in keys then Some(reg) else None)
        else Success(None)
    else Success(None)
  }

  predicate Removable(ins: Instr, keys: seq<int>)
  {
    ZeroLdiTarget(ins, keys).Success? && ZeroLdiTarget(ins, keys).value.Some?
  }

  /** `immediate_registers[reg].cycle_last_written = 0`. */
  function ResetCycle(regs: Registers, reg: int): Registers
    requires reg in Keys(regs)
  {
    Put(regs, reg, RegisterInfo(Get(regs, reg).value, 0))
  }

  /** The pass over the first `n` instructions: the instructions kept so far
      and the tracker. */
  function ZeroPrefix(prog: seq<Instr>, n: nat, regs: Registers): Result<(seq<Instr>, Registers), Error>
    requires n <= |prog|
  {
    if n == 0 then Success(([], regs))
    else
      var mid :- ZeroPrefix(prog, n - 1, regs);
      var target :- ZeroLdiTarget(prog[n - 1], Keys(mid.1));
      if target.Some? then Success((mid.0, ResetCycle(mid.1, target.value)))
      else Success((mid.0 + [prog[n - 1]], mid.1))
  }

  /** The pass deletes exactly the removable zero LDIs, keeping every other
      instruction in its original order; it never adds or drops a tracked
      register; and each register whose LDI was deleted now reads as
      written at cycle 0, with its value unchanged. */
  lemma {:induction false} ZeroPrefixSpec(prog: seq<Instr>, n: nat, regs: Registers)
    requires n <= |prog|
    requires ZeroPrefix(prog, n, regs).Success?
    ensures var (kept, regs') := ZeroPrefix(prog, n, regs).value;
      && kept == Filter((ins: Instr) => !Removable(ins, Keys(regs)), prog[..n])
      && Keys(regs') == Keys(regs)
      && forall r :: r in Keys(regs) ==>
           Get(regs', r).value == Get(regs, r).value
           && (Get(regs', r).cycleLastWritten == Get(regs, r).cycleLastWritten
               || (Get(regs', r).cycleLastWritten == 0
                   && exists i :: 0 <= i < n && ZeroLdiTarget(prog[i], Keys(regs)) == Success(Some(r))))
  {
    if n > 0 {
      ZeroPrefixSpec(prog, n - 1, regs);
      var mid := ZeroPrefix(prog, n - 1, regs).value;
      assert prog[..n][..n - 1] == prog[..n - 1];
      var target := ZeroLdiTarget(prog[n - 1], Keys(mid.1)).value;
      if target.Some? {
        var t := target.value;
        PutThenGet(mid.1, t, RegisterInfo(Get(mid.1, t).value, 0));
        forall r | r in Keys(regs) && r != t
          ensures Get(ResetCycle(mid.1, t), r) == Get(mid.1, r)
        {
          PutOther(mid.1, t, RegisterInfo(Get(mid.1, t).value, 0), r);
        }
      }
    }
  }

  /** Every register whose zero LDI the pass deleted reads as written at
      cycle 0 afterwards. */
  lemma {:induction false} ZeroPrefixResets(prog: seq<Instr>, n: nat, regs: Registers)
    requires n <= |prog|
    requires ZeroPrefix(prog, n, regs).Success?
    ensures var regs' := ZeroPrefix(prog, n, regs).value.1;
      forall i, r :: 0 <= i < n && ZeroLdiTarget(prog[i], Keys(regs)) == Success(Some(r)) ==>
        r in Keys(regs') && Get(regs', r).cycleLastWritten == 0
  {
    ResetsUpTo(prog, n, regs);
  }

  lemma {:induction false} ResetsUpTo(prog: seq<Instr>, n: nat, regs: Registers)
    requires n <= |prog|
    requires ZeroPrefix(prog, n, regs).Success?
    ensures ResetsDone(prog, n, regs, ZeroPrefix(prog, n, regs).value.1)
  {
    if n > 0 {
      var m := n - 1;
      assert ZeroPrefix(prog, m, regs).Success?;
      ResetsUpTo(prog, m, regs);
      ZeroKeepsKeys(prog, m, regs);
      ResetsStep(prog, m, regs);
    }
  }

  /** The pass never adds or drops a tracked register. */
  lemma {:induction false} ZeroKeepsKeys(prog: seq<Instr>, n: nat, regs: Registers)
    requires n <= |prog| && ZeroPrefix(prog, n, regs).Success?
    ensures Keys(ZeroPrefix(prog, n, regs).value.1) == Keys(regs)
  {
    ZeroPrefixSpec(prog, n, regs);
  }

  /** One more instruction keeps the resets done so far, and adds its own. */
  lemma ResetsStep(prog: seq<Instr>, m: nat, regs: Registers)
    requires m < |prog| && ZeroPrefix(prog, m + 1, regs).Success?
    requires ZeroPrefix(prog, m, regs).Success?
    requires Keys(ZeroPrefix(prog, m, regs).value.1) == Keys(regs)
    requires ResetsDone(prog, m, regs, ZeroPrefix(prog, m, regs).value.1)
    ensures ResetsDone(prog, m + 1, regs, ZeroPrefix(prog, m + 1, regs).value.1)
  {
    var (kept, mid) := ZeroPrefix(prog, m, regs).value;
    var target := ZeroLdiTarget(prog[m], Keys(mid)).value;
    if target.Some? {
      assert ZeroPrefix(prog, m + 1, regs) == Success((kept, ResetCycle(mid, target.value)));
      ResetStep(prog, m, regs, mid, target.value);
    } else {
      assert ZeroPrefix(prog, m + 1, regs) == Success((kept + [prog[m]], mid));
      KeepStep(prog, m, regs, mid);
    }
  }

  /** The registers of the zero LDIs removed among the first `n` read as
      written at cycle 0 in `regs'`. */
  ghost predicate ResetsDone(prog: seq<Instr>, n: nat, regs: Registers, regs': Registers)
    requires n <= |prog|
  {
    forall i, r :: 0 <= i < n && ZeroLdiTarget(prog[i], Keys(regs)) == Success(Some(r)) ==>
      r in Keys(regs') && Get(regs', r).cycleLastWritten == 0
  }

  /** Removing the next zero LDI resets its register and no other. */
  lemma ResetStep(prog: seq<Instr>, m: nat, regs: Registers, mid: Registers, t: int)
    requires m < |prog| && Keys(mid) == Keys(regs) && ResetsDone(prog, m, regs, mid)
    requires t in Keys(mid) && ZeroLdiTarget(prog[m], Keys(regs)) == Success(Some(t))
    ensures ResetsDone(prog, m + 1, regs, ResetCycle(mid, t))
  {
    var info := RegisterInfo(Get(mid, t).value, 0);
    PutThenGet(mid, t, info);
    forall i, r | 0 <= i < m + 1 && ZeroLdiTarget(prog[i], Keys(regs)) == Success(Some(r))
      ensures r in Keys(Put(mid, t, info)) && Get(Put(mid, t, info), r).cycleLastWritten == 0
    {
      if r != t {
        PutOther(mid, t, info, r);
      }
    }
  }

  /** Keeping the next instruction keeps the resets so far. */
  lemma KeepStep(prog: seq<Instr>, m: nat, regs: Registers, mid: Registers)
    requires m < |prog| && Keys(mid) == Keys(regs) && ResetsDone(prog, m, regs, mid)
    requires ZeroLdiTarget(prog[m], Keys(regs)).Success?
    requires ZeroLdiTarget(prog[m], Keys(regs)).value.None?
    ensures ResetsDone(prog, m + 1, regs, mid)
  {
    forall i, r | 0 <= i < m + 1 && ZeroLdiTarget(prog[i], Keys(regs)) == Success(Some(r))
      ensures r in Keys(mid) && Get(mid, r).cycleLastWritten == 0
    {
    }
  }

  /** A removable LDI names a tracked register. */
  lemma ZeroTargetTracked(ins: Instr, keys: seq<int>)
    requires ZeroLdiTarget(ins, keys).Success? && ZeroLdiTarget(ins, keys).value.Some?
    ensures ZeroLdiTarget(ins, keys).value.value in keys
  {
  }

  /** Once the pass has raised, it raises the same error whatever follows. */
  lemma {:induction false} ZeroFailurePersists(prog: seq<Instr>, n: nat, m: nat, regs: Registers)
    requires n <= m <= |prog| && ZeroPrefix(prog, n, regs).Failure?
    ensures ZeroPrefix(prog, m, regs) == Failure(ZeroPrefix(prog, n, regs).error)
  {
    if m > n {
      ZeroFailurePersists(prog, n, m - 1, regs);
    }
  }
}
