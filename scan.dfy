/** `scan_for_immediate_registers` (assembler.py:127-169): one walk over the
    program that fills the register tracker and drains the pool of every
    register the program writes. */
module RegisterScan {
  import opened Wrappers
  import opened Dicts
  import opened Instructions
  import opened Tracker

  /** The two globals the scan updates. */
  datatype TrackerState = TrackerState(regs: Registers, pool: seq<int>)

  /** What the scan does with the instruction at `cycle`. */
  function ScanStep(prog: seq<Instr>, cycle: nat, st: TrackerState): (r: Result<TrackerState, Error>)
    requires cycle < |prog|
  {
    var ins := prog[cycle];
    var op := GetOpcode(ins);
    if !IsWriteBack(ins) then Success(st)
    else if |ins.operands| == 0 then Failure(MissingOperand)
    else if ins.operands[0].Imm? then Failure(InvalidOperand(cycle))
    else
      var reg :- GetOperandValue(ins.operands[0]);
      var pool := RemoveValue(st.pool, reg);
      var firstBranch := FirstBranchOrLabel(prog);
      if |ins.operands| < 2 then Failure(MissingOperand)
      else
        var value :- GetOperandValue(ins.operands[1]);
        var regs :=
          if reg in Keys(st.regs) then
            if op == OpLdi && !(firstBranch > -1 && cycle >= firstBranch) then
              Put(st.regs, reg, RegisterInfo(value, cycle))
            else
              Pop(st.regs, reg)
          else if op == OpLdi then
            Put(st.regs, reg, RegisterInfo(value, cycle))
          else
            st.regs;
        Success(TrackerState(regs, pool))
  }

  /** The scan over the first `n` instructions. */
  function ScanPrefix(prog: seq<Instr>, n: nat, st: TrackerState): Result<TrackerState, Error>
    requires n <= |prog|
  {
    if n == 0 then Success(st)
    else
      var mid :- ScanPrefix(prog, n - 1, st);
      ScanStep(prog, n - 1, mid)
  }

  /** The rules of one scan step, as the source applies them to a
      write-back instruction (ADD..LDI) whose destination is register `reg`. */
  lemma ScanStepRules(prog: seq<Instr>, cycle: nat, st: TrackerState)
    requires cycle < |prog| && IsWriteBack(prog[cycle])
    ensures |prog[cycle].operands| > 0 && prog[cycle].operands[0].Imm? ==>
      ScanStep(prog, cycle, st) == Failure(InvalidOperand(cycle))
    ensures ScanStep(prog, cycle, st).Success? ==>
      var ins := prog[cycle];
      var reg := ins.operands[0].n;
      var value := GetOperandValue(ins.operands[1]).value;
      var fb := FirstBranchOrLabel(prog);
      var st' := ScanStep(prog, cycle, st).value;
      && ins.operands[0].Reg?
      && (Distinct(st.pool) ==> reg !in st'.pool)
      && (GetOpcode(ins) != OpLdi && reg in Keys(st.regs) && DistinctKeys(st.regs) ==> reg !in Keys(st'.regs))
      && (GetOpcode(ins) == OpLdi && reg in Keys(st.regs) && fb > -1 && cycle >= fb && DistinctKeys(st.regs) ==>
            reg !in Keys(st'.regs))
      && (GetOpcode(ins) == OpLdi && !(reg in Keys(st.regs) && fb > -1 && cycle >= fb) ==>
            reg in Keys(st'.regs) && Get(st'.regs, reg) == RegisterInfo(value, cycle))
  {
    var ins := prog[cycle];
    if ScanStep(prog, cycle, st).Success? {
      var reg := ins.operands[0].n;
      var value := GetOperandValue(ins.operands[1]).value;
      PutThenGet(st.regs, reg, RegisterInfo(value, cycle));
      if reg in Keys(st.regs) && DistinctKeys(st.regs) {
        PopRemovesKey(st.regs, reg);
      }
    }
  }

  /** What one scan step leaves alone. An instruction that writes no
      register changes nothing. A write-back to register `reg` takes `reg`
      out of the pool and nothing else; every other tracked register keeps
      its value, its write cycle and its place in insertion order; and a
      non-LDI write to an untracked register leaves the tracker as it was. */
  lemma ScanStepFrame(prog: seq<Instr>, cycle: nat, st: TrackerState)
    requires cycle < |prog| && DistinctKeys(st.regs)
    requires ScanStep(prog, cycle, st).Success?
    ensures var ins, st' := prog[cycle], ScanStep(prog, cycle, st).value;
      && (!IsWriteBack(ins) ==> st' == st)
      && (IsWriteBack(ins) ==>
            && |ins.operands| > 0 && ins.operands[0].Reg?
            && st'.pool == RemoveValue(st.pool, ins.operands[0].n)
            && SameOthers(st.regs, st'.regs, ins.operands[0].n)
            && (GetOpcode(ins) != OpLdi && ins.operands[0].n !in Keys(st.regs) ==> st'.regs == st.regs))
  {
    var ins := prog[cycle];
    if IsWriteBack(ins) {
      var reg := ins.operands[0].n;
      var value := GetOperandValue(ins.operands[1]).value;
      PutKeepsOthers(st.regs, reg, RegisterInfo(value, cycle));
      if reg in Keys(st.regs) {
        PopKeepsOthers(st.regs, reg);
      }
    }
  }

  /** A scan step keeps the tracker/pool invariant. */
  lemma ScanStepValid(prog: seq<Instr>, cycle: nat, st: TrackerState)
    requires cycle < |prog| && TrackerValid(st.regs, st.pool)
    requires ScanStep(prog, cycle, st).Success?
    ensures var st' := ScanStep(prog, cycle, st).value;
      TrackerValid(st'.regs, st'.pool) && forall x :: x in st'.pool ==> x in st.pool
  {
  }

  /** A successful scan leaves the invariant intact, never refills the pool,
      and has checked that every write-back instruction writes a register,
      which has left the pool. */
  lemma {:induction false} ScanPrefixSound(prog: seq<Instr>, n: nat, st: TrackerState)
    requires n <= |prog| && TrackerValid(st.regs, st.pool)
    requires ScanPrefix(prog, n, st).Success?
    ensures var st' := ScanPrefix(prog, n, st).value;
      && TrackerValid(st'.regs, st'.pool)
      && (forall x :: x in st'.pool ==> x in st.pool)
      && forall i :: 0 <= i < n && IsWriteBack(prog[i]) ==>
           |prog[i].operands| >= 2 && prog[i].operands[0].Reg? && prog[i].operands[0].n !in st'.pool
  {
    if n > 0 {
      ScanPrefixSound(prog, n - 1, st);
      var mid := ScanPrefix(prog, n - 1, st).value;
      ScanStepValid(prog, n - 1, mid);
      if IsWriteBack(prog[n - 1]) {
        ScanStepRules(prog, n - 1, mid);
      }
    }
  }

  /** An immediate write-back destination anywhere in the program makes the
      scan raise. */
  lemma {:induction false} ScanRejectsImmediateDestination(prog: seq<Instr>, n: nat, st: TrackerState, i: nat)
    requires i < n <= |prog| && IsWriteBack(prog[i])
    requires |prog[i].operands| > 0 && prog[i].operands[0].Imm?
    ensures ScanPrefix(prog, n, st).Failure?
  {
    if n - 1 == i {
      if ScanPrefix(prog, n - 1, st).Success? {
        ScanStepRules(prog, i, ScanPrefix(prog, n - 1, st).value);
      }
    } else {
      ScanRejectsImmediateDestination(prog, n - 1, st, i);
    }
  }

  /** Once the scan has raised, it raises the same error whatever follows. */
  lemma {:induction false} ScanFailurePersists(prog: seq<Instr>, n: nat, m: nat, st: TrackerState)
    requires n <= m <= |prog| && ScanPrefix(prog, n, st).Failure?
    ensures ScanPrefix(prog, m, st) == Failure(ScanPrefix(prog, n, st).error)
  {
    if m > n {
      ScanFailurePersists(prog, n, m - 1, st);
    }
  }
}
