/** `convert_custom_branches` (assembler.py:271-295): the pseudo-branches
    BRZ, BRU and BRGT become the native BRE and BRLT. */
module BranchLowering {
  import opened Wrappers
  import opened Instructions

  predicate IsPseudoBranch(ins: Instr)
  {
    ins.mnemonic in {"BRZ", "BRU", "BRGT"}
  }

  /** The rewrite of one instruction. Every instruction must have a first
      operand (the source reads it before looking at the mnemonic). */
  function LowerBranch(ins: Instr): Result<Instr, Error>
  {
    if |ins.operands| == 0 then Failure(MissingOperand)
    else
      var target := ins.operands[0];
      var rest := ins.operands[1..];
      if ins.mnemonic == "BRZ" then
        if |rest| < 1 then Failure(MissingOperand)
        else Success(Instr(ins.labelName, "BRE", [target, rest[0], Imm(0)]))
      else if ins.mnemonic == "BRU" then
        Success(Instr(ins.labelName, "BRE", [target, Reg(1), Reg(1)]))
      else if ins.mnemonic == "BRGT" then
        if |rest| < 2 then Failure(MissingOperand)
        else Success(Instr(ins.labelName, "BRLT", [target, rest[1], rest[0]]))
      else Success(ins)
  }

  /** The pass over the first `n` instructions. */
  function LowerPrefix(prog: seq<Instr>, n: nat): Result<seq<Instr>, Error>
    requires n <= |prog|
  {
    if n == 0 then Success([])
    else
      var done :- LowerPrefix(prog, n - 1);
      var ins :- LowerBranch(prog[n - 1]);
      Success(done + [ins])
  }

  /** One rewrite: BRZ t,a -> BRE t,a,#0; BRU t -> BRE t,R1,R1;
      BRGT t,a,b -> BRLT t,b,a; the label stays; anything else is unchanged;
      and no pseudo-branch survives. */
  lemma LowerBranchSpec(ins: Instr)
    requires LowerBranch(ins).Success?
    ensures var out := LowerBranch(ins).value;
      && out.labelName == ins.labelName
      && !IsPseudoBranch(out)
      && (ins.mnemonic == "BRZ" ==> out.mnemonic == "BRE" && out.operands == [ins.operands[0], ins.operands[1], Imm(0)])
      && (ins.mnemonic == "BRU" ==> out.mnemonic == "BRE" && out.operands == [ins.operands[0], Reg(1), Reg(1)])
      && (ins.mnemonic == "BRGT" ==> out.mnemonic == "BRLT" && out.operands == [ins.operands[0], ins.operands[2], ins.operands[1]])
      && (!IsPseudoBranch(ins) ==> out == ins)
  {
  }

  /** The pass fails exactly when some instruction has no operands, or a
      BRZ/BRGT lacks its comparands; otherwise it rewrites every instruction
      in place and keeps the program's length. */
  lemma {:induction false} LowerPrefixSpec(prog: seq<Instr>, n: nat)
    requires n <= |prog|
    ensures LowerPrefix(prog, n).Success? <==> forall i :: 0 <= i < n ==> LowerBranch(prog[i]).Success?
    ensures LowerPrefix(prog, n).Success? ==>
      var out := LowerPrefix(prog, n).value;
      |out| == n && forall i :: 0 <= i < n ==> out[i] == LowerBranch(prog[i]).value
  {
    if n > 0 {
      LowerPrefixSpec(prog, n - 1);
    }
  }

  /** A successful rewrite of the next instruction extends the pass. */
  lemma LowerPrefixStep(prog: seq<Instr>, n: nat, done: seq<Instr>, ins: Instr)
    requires n < |prog| && LowerPrefix(prog, n) == Success(done) && LowerBranch(prog[n]) == Success(ins)
    ensures LowerPrefix(prog, n + 1) == Success(done + [ins])
  {
  }

  /** A failed rewrite of the next instruction is the outcome of the whole pass. */
  lemma LowerStopsAt(prog: seq<Instr>, n: nat)
    requires n < |prog| && LowerPrefix(prog, n).Success? && LowerBranch(prog[n]).Failure?
    ensures LowerPrefix(prog, |prog|) == Failure(LowerBranch(prog[n]).error)
  {
    assert LowerPrefix(prog, n + 1) == Failure(LowerBranch(prog[n]).error);
    LowerFailurePersists(prog, n + 1, |prog|);
  }

  /** Once the pass has raised, it raises the same error whatever follows. */
  lemma {:induction false} LowerFailurePersists(prog: seq<Instr>, n: nat, m: nat)
    requires n <= m <= |prog| && LowerPrefix(prog, n).Failure?
    ensures LowerPrefix(prog, m) == Failure(LowerPrefix(prog, n).error)
  {
    if m > n {
      LowerFailurePersists(prog, n, m - 1);
    }
  }
}
