/** The assembler's syntax conversion (assembler.py:22-51, 118-398) as the
    source runs it: one program (the `instructions` list every pass rewrites
    in place) and the module-level dicts and list the passes share, held here
    as the fields of one object. Each pass is a method proved against the
    specification function of its module. */
module Assembler {
  import opened Wrappers
  import opened Seqs
  import opened Dicts
  import opened Hex
  import opened Instructions
  import opened Tracker
  import opened RegisterScan
  import opened ZeroLdis
  import opened BranchLowering
  import opened Materialize
  import opened Labels

  /** No instruction is a comment line. */
  predicate NotComment(ins: Instr)
  {
    !IsComment(ins)
  }

  predicate NoLabels(prog: seq<Instr>)
  {
    forall i :: 0 <= i < |prog| ==> !BeginsWithLabel(prog[i])
  }

  predicate NoPseudoBranches(prog: seq<Instr>)
  {
    forall i :: 0 <= i < |prog| ==> !IsPseudoBranch(prog[i])
  }

  /** `q` is `p` with at most some labels dropped and some operands
      rewritten, none of them into an immediate. */
  predicate SameShape(p: seq<Instr>, q: seq<Instr>)
  {
    && |p| == |q|
    && forall i :: 0 <= i < |p| ==>
         && q[i].mnemonic == p[i].mnemonic
         && |q[i].operands| == |p[i].operands|
         && forall k :: 0 <= k < |p[i].operands| && q[i].operands[k].Imm? ==> p[i].operands[k].Imm?
  }

  lemma ShapeKeeps(p: seq<Instr>, q: seq<Instr>)
    requires SameShape(p, q)
    ensures NoImmediates(p) ==> NoImmediates(q)
    ensures NoPseudoBranches(p) ==> NoPseudoBranches(q)
  {
  }

  /** LDIs in front keep both properties. */
  lemma LdisInFront(front: seq<Instr>, prog: seq<Instr>)
    requires forall i :: 0 <= i < |front| ==> front[i].mnemonic == "LDI"
    ensures NoImmediates(prog) ==> NoImmediates(front + prog)
    ensures NoPseudoBranches(prog) ==> NoPseudoBranches(front + prog)
  {
  }

  /** After `convert_custom_branches` no pseudo-branch is left. */
  lemma LoweredHasNoPseudoBranches(prog: seq<Instr>)
    requires LowerPrefix(prog, |prog|).Success?
    ensures NoPseudoBranches(LowerPrefix(prog, |prog|).value)
  {
    LowerPrefixSpec(prog, |prog|);
    var out := LowerPrefix(prog, |prog|).value;
    forall i | 0 <= i < |out|
      ensures !IsPseudoBranch(out[i])
    {
      LowerBranchSpec(prog[i]);
    }
  }

  /** `remove_zero_ldis` keeps the tracker invariant: it only resets cycles. */
  lemma ZeroPassKeepsValid(prog: seq<Instr>, regs: Registers, pool: seq<int>)
    requires TrackerValid(regs, pool) && ZeroPrefix(prog, |prog|, regs).Success?
    ensures TrackerValid(ZeroPrefix(prog, |prog|, regs).value.1, pool)
  {
    ZeroPrefixSpec(prog, |prog|, regs);
    var regs' := ZeroPrefix(prog, |prog|, regs).value.1;
    assert Keys(regs') == Keys(regs);
    forall i, j | 0 <= i < j < |regs'|
      ensures regs'[i].key != regs'[j].key
    {
      assert Keys(regs')[i] == Keys(regs)[i] && Keys(regs')[j] == Keys(regs)[j];
    }
  }

  /** `convert_immediate_operands`, run on a program free of pseudo-branches
      with a valid tracker, leaves one with neither pseudo-branches nor
      immediates outside LDIs, and a valid tracker. */
  lemma ImmPassKeeps(st: Regs, prog: seq<Instr>)
    requires Valid(st) && st.front == [] && NoPseudoBranches(prog)
    requires ImmPrefix(st, prog, |prog|).Success?
    ensures var (done, st') := ImmPrefix(st, prog, |prog|).value;
      && Valid(st') && NoImmediates(st'.front + done) && NoPseudoBranches(st'.front + done)
  {
    ImmPrefixSpec(st, prog, |prog|);
    ImmPassLeavesNoImmediates(st, prog);
    var (done, st') := ImmPrefix(st, prog, |prog|).value;
    assert PassDone(st, prog, |prog|, done, st');
    forall i | 0 <= i < |prog|
      ensures done[i].mnemonic == prog[i].mnemonic && |done[i].operands| == |prog[i].operands|
      ensures forall k :: 0 <= k < |prog[i].operands| && done[i].operands[k].Imm? ==> prog[i].operands[k].Imm?
    {
      assert Converted(prog[i], done[i], st'.regs);
    }
    assert SameShape(prog, done);
    ShapeKeeps(prog, done);
    LdisInFront(st'.front, done);
  }

  /** `add_label_ldi_instructions` puts only LDIs in front, so both
      properties survive it, and so does the tracker invariant. */
  lemma LabelLdisKeep(st: Regs, labels: LabelMap)
    requires Valid(st) && NoImmediates(st.front) && NoPseudoBranches(st.front)
    requires AddLabelLdis(st, labels).Success?
    ensures var st' := AddLabelLdis(st, labels).value.0;
      Valid(st') && NoImmediates(st'.front) && NoPseudoBranches(st'.front)
  {
    AddLabelLdisSpec(st, labels);
    var (st', labels') := AddLabelLdis(st, labels).value;
    var m := |st'.front| - |st.front|;
    assert st'.front == st'.front[..m] + st.front;
    assert LoadsLabelCells(st'.front, m, Targets(labels'));
    LdisInFront(st'.front[..m], st.front);
  }

  /** `remove_label_declarations` leaves no label and keeps both properties. */
  lemma StripKeeps(prog: seq<Instr>)
    requires NoImmediates(prog) && NoPseudoBranches(prog)
    ensures var prog' := StripLabels(prog);
      NoLabels(prog') && NoImmediates(prog') && NoPseudoBranches(prog')
  {
  }

  /** `convert_branch_labels` leaves no label use and keeps the rest. */
  lemma ResolveKeeps(prog: seq<Instr>, labels: LabelMap, regs: Registers)
    requires DistinctKeys(regs) && NoLabels(prog) && NoImmediates(prog) && NoPseudoBranches(prog)
    ensures var prog' := ResolveLabels(prog, labels, regs);
      && NoLabels(prog') && NoImmediates(prog') && NoPseudoBranches(prog')
      && NoLabelUses(prog', labels)
  {
  }

  class Assembler {
    /** `instructions`: the program being converted. */
    var program: seq<Instr>
    /** `immediate_registers`. */
    var immediateRegisters: Registers
    /** `unused_registers`. */
    var unusedRegisters: seq<int>
    /** `int_branch_labels`. */
    var intBranchLabels: LabelMap

    /** The invariant the tracker and the pool keep between them. */
    predicate Valid()
      reads this
    {
      TrackerValid(immediateRegisters, unusedRegisters)
    }

    /** The module's initial state: empty dicts and registers 1..14 unused. */
    constructor (prog: seq<Instr>)
      ensures program == prog && immediateRegisters == [] && intBranchLabels == []
      ensures unusedRegisters == InitialPool()
      ensures Valid()
    {
      program := prog;
      immediateRegisters := [];
      intBranchLabels := [];
      var pool: seq<int> := [];
      var i := 1;
      while i < NumberOfRegisters
        invariant 1 <= i <= NumberOfRegisters
        invariant |pool| == i - 1 && forall j :: 0 <= j < i - 1 ==> pool[j] == j + 1
      {
        pool := pool + [i];
        i := i + 1;
      }
      unusedRegisters := pool;
      InitialPoolValid();
    }

    /** `remove_comments`: drops the comment lines, keeping the others in order. */
    method RemoveComments()
      modifies this
      ensures program == Filter(NotComment, old(program))
      ensures immediateRegisters == old(immediateRegisters) && unusedRegisters == old(unusedRegisters)
      ensures intBranchLabels == old(intBranchLabels)
    {
      var lines := program;
      ghost var prog := program;
      ghost var n := 0;
      var index := 0;
      assert prog[..0] == [];
      while index < |lines|
        invariant 0 <= n <= |prog| && 0 <= index <= |lines|
        invariant lines == Filter(NotComment, prog[..n]) + prog[n..]
        invariant index == |Filter(NotComment, prog[..n])|
        modifies {}
        decreases |prog| - n
      {
        CommentStep(prog, n, lines, index);
        if IsComment(lines[index]) {
          lines := lines[..index] + lines[index + 1..];
        } else {
          index := index + 1;
        }
        n := n + 1;
      }
      assert prog[..n] == prog;
      program := lines;
    }

    /** `get_cycle_of_first_branch_or_label`. */
    method FirstBranchOrLabelCycle() returns (c: int)
      ensures c == FirstBranchOrLabel(program)
    {
      var cycle := 0;
      while cycle < |program|
        invariant 0 <= cycle <= |program|
        invariant forall i :: 0 <= i < cycle ==> !IsBranchOrLabel(program[i])
      {
        if BeginsWithLabel(program[cycle]) || IsBranch(program[cycle]) {
          return cycle;
        }
        cycle := cycle + 1;
      }
      return -1;
    }

    /** `find_existing_immediate_register`. */
    method FindExistingImmediateRegister(value: int, cycle: int) returns (reg: int)
      ensures reg == Find(immediateRegisters, value, cycle)
    {
      var i := 0;
      while i < |immediateRegisters|
        invariant 0 <= i <= |immediateRegisters|
        invariant forall j :: 0 <= j < i ==> !Holds(immediateRegisters[j], value, cycle)
      {
        var info := immediateRegisters[i].val;
        if info.value == value {
          if info.cycleLastWritten < cycle {
            return immediateRegisters[i].key;
          }
        }
        i := i + 1;
      }
      return -1;
    }

    /** `increment_last_writtens`. */
    method IncrementLastWrittens()
      modifies this
      ensures immediateRegisters == Bump(old(immediateRegisters))
      ensures program == old(program) && unusedRegisters == old(unusedRegisters)
      ensures intBranchLabels == old(intBranchLabels)
    {
      var i := 0;
      while i < |immediateRegisters|
        invariant 0 <= i <= |immediateRegisters| == |old(immediateRegisters)|
        invariant forall j :: 0 <= j < i ==> immediateRegisters[j] == Bump(old(immediateRegisters))[j]
        invariant forall j :: i <= j < |immediateRegisters| ==> immediateRegisters[j] == old(immediateRegisters)[j]
        invariant program == old(program) && unusedRegisters == old(unusedRegisters)
        invariant intBranchLabels == old(intBranchLabels)
      {
        var item := immediateRegisters[i];
        immediateRegisters := immediateRegisters[i := Item(item.key, RegisterInfo(item.val.value, item.val.cycleLastWritten + 1))];
        i := i + 1;
      }
    }

    /** `create_new_ldi`: the program is the front the new LDI goes in. */
    method CreateNewLdi(value: int) returns (r: Result<int, Error>)
      modifies this
      ensures intBranchLabels == old(intBranchLabels)
      ensures var out := Materialize.CreateNewLdi(Regs(old(immediateRegisters), old(unusedRegisters), old(program)), value);
        && (r.Success? <==> out.Success?)
        && (out.Failure? ==> r == Failure(out.error))
        && (out.Success? ==>
              r.value == out.value.0 && Regs(immediateRegisters, unusedRegisters, program) == out.value.1)
    {
      if |unusedRegisters| < 1 {
        return Failure(RegisterExhaustion);
      }
      var register := unusedRegisters[|unusedRegisters| - 1];
      unusedRegisters := unusedRegisters[..|unusedRegisters| - 1];
      var info := RegisterInfo(value, 0);
      if value != 0 {
        IncrementLastWrittens();
        program := [Ldi(register, value)] + program;
      }
      immediateRegisters := Put(immediateRegisters, register, info);
      return Success(register);
    }

    /** `replace_operand`: operand `k` of the instruction at `cycle` becomes `R<reg>`. */
    method ReplaceOperand(cycle: int, k: int, reg: int)
      requires 0 <= cycle < |program| && 0 <= k < |program[cycle].operands|
      modifies this
      ensures program == old(program)[cycle := Instr(old(program)[cycle].labelName, old(program)[cycle].mnemonic,
                                                     old(program)[cycle].operands[k := Reg(reg)])]
      ensures immediateRegisters == old(immediateRegisters) && unusedRegisters == old(unusedRegisters)
      ensures intBranchLabels == old(intBranchLabels)
    {
      var instruction := program[cycle];
      program := program[cycle := Instr(instruction.labelName, instruction.mnemonic, instruction.operands[k := Reg(reg)])];
    }

    /** The body of `convert_immediate_operands` for one immediate operand
        `#value` at position `k` of the instruction at `cycle`: reuse a
        tracked register holding `value`, or create one, and put it in
        place of the operand. Returns the instruction's cycle afterwards. */
    method ReplaceImmediate(cycle0: int, k: int, value: int, ghost front: seq<Instr>, ghost before: seq<Instr>,
                            ghost cur: Instr, ghost after: seq<Instr>) returns (r: Result<int, Error>)
      requires program == front + before + [cur] + after && cycle0 == |front| + |before|
      requires 0 <= k < |cur.operands| && Valid()
      modifies this
      ensures intBranchLabels == old(intBranchLabels)
      ensures var out := Materialize.Materialize(Regs(old(immediateRegisters), old(unusedRegisters), front), value, |before|);
        && (r.Success? <==> out.Success?)
        && (out.Failure? ==> r == Failure(out.error))
        && (out.Success? ==>
              && immediateRegisters == out.value.1.regs && unusedRegisters == out.value.1.pool
              && program == out.value.1.front + before
                            + [Instr(cur.labelName, cur.mnemonic, cur.operands[k := Reg(out.value.0)])] + after
              && r.value == |out.value.1.front| + |before|)
    {
      var cycle := cycle0;
      ghost var st := Regs(immediateRegisters, unusedRegisters, front);
      ghost var frontNow := front;
      var reg := FindExistingImmediateRegister(value, cycle);
      if reg == -1 {
        CreateNewLdiFront(st, program, value);
        var created := CreateNewLdi(value);
        if created.Failure? {
          return Failure(created.error);
        }
        reg := created.value;
        if value != 0 {
          cycle := cycle + 1;
          frontNow := [Ldi(reg, value)] + front;
        }
      }
      SlotReplace(frontNow, before, cur, after, Instr(cur.labelName, cur.mnemonic, cur.operands[k := Reg(reg)]));
      ReplaceOperand(cycle, k, reg);
      return Success(cycle);
    }

    /** The body of `convert_immediate_operands` for one instruction `ins`,
        found at `cycle` behind the LDIs `front` and the instructions
        `before` already converted: each immediate operand of a non-LDI is
        replaced by a register holding its value. Returns the cycle the
        instruction is at afterwards. */
    method ConvertInstructionAt(cycle0: int, ghost front: seq<Instr>, ghost before: seq<Instr>,
                                ghost ins: Instr, ghost after: seq<Instr>) returns (r: Result<int, Error>)
      requires program == front + before + [ins] + after && cycle0 == |front| + |before|
      requires Valid()
      modifies this
      ensures intBranchLabels == old(intBranchLabels)
      ensures var out := ConvertInstr(Regs(old(immediateRegisters), old(unusedRegisters), front), ins, |before|);
        && (r.Success? <==> out.Success?)
        && (out.Failure? ==> r == Failure(out.error))
        && (out.Success? ==>
              && immediateRegisters == out.value.1.regs && unusedRegisters == out.value.1.pool
              && program == out.value.1.front + before + [out.value.0] + after
              && r.value == |out.value.1.front| + |before|)
    {
      ghost var n := |before|;
      ghost var st := Regs(immediateRegisters, unusedRegisters, front);
      var cycle := cycle0;
      SlotAt(front, before, ins, after);
      var instruction := program[cycle];
      if GetOpcode(instruction) == OpLdi {
        return Success(cycle);
      }
      var operands := instruction.operands;
      ghost var opsDone: seq<Operand> := [];
      ghost var frontK := front;
      assert ins == Instr(ins.labelName, ins.mnemonic, opsDone + operands[0..]);
      for k := 0 to |operands|
        invariant OpsPrefix(st, operands, k, n) == Success((opsDone, Regs(immediateRegisters, unusedRegisters, frontK)))
        invariant |opsDone| == k
        invariant program == frontK + before + [Instr(ins.labelName, ins.mnemonic, opsDone + operands[k..])] + after
        invariant cycle == |frontK| + n && Valid()
        invariant intBranchLabels == old(intBranchLabels)
      {
        ghost var cur := Instr(ins.labelName, ins.mnemonic, opsDone + operands[k..]);
        ghost var mid := Regs(immediateRegisters, unusedRegisters, frontK);
        OperandSlot(opsDone, operands, k);
        OpsStep(st, operands, k, n, opsDone, mid);
        if operands[k].Imm? {
          var value := operands[k].v;
          var next := ReplaceImmediate(cycle, k, value, frontK, before, cur, after);
          if next.Failure? {
            return Failure(next.error);
          }
          MaterializeValid(mid, value, n);
          ghost var (reg, st') := Materialize.Materialize(mid, value, n).value;
          cycle := next.value;
          opsDone, frontK := opsDone + [Reg(reg)], st'.front;
        } else {
          opsDone := opsDone + [operands[k]];
        }
      }
      assert opsDone + operands[|operands|..] == opsDone && ins.operands == operands;
      assert ConvertInstr(st, ins, n) == Success((Instr(ins.labelName, ins.mnemonic, opsDone),
                                                  Regs(immediateRegisters, unusedRegisters, frontK)));
      return Success(cycle);
    }

    /** `convert_immediate_operands`. */
    method ConvertImmediateOperands() returns (r: Outcome<Error>)
      requires Valid()
      modifies this
      ensures intBranchLabels == old(intBranchLabels)
      ensures var out := ImmPrefix(Regs(old(immediateRegisters), old(unusedRegisters), []), old(program), |old(program)|);
        && (r.Pass? <==> out.Success?)
        && (out.Failure? ==> r == Fail(out.error))
        && (out.Success? ==>
              && program == out.value.1.front + out.value.0
              && immediateRegisters == out.value.1.regs && unusedRegisters == out.value.1.pool)
    {
      ghost var orig := program;
      ghost var st0 := Regs(immediateRegisters, unusedRegisters, []);
      ghost var n, done, front := 0, [], [];
      r := Pass;
      var cycle := 0;
      while cycle < |program|
        invariant 0 <= n <= |orig| && |done| == n && cycle == |front| + n
        invariant ImmPrefix(st0, orig, n) == Success((done, Regs(immediateRegisters, unusedRegisters, front)))
        invariant program == front + done + orig[n..]
        invariant Valid() && intBranchLabels == old(intBranchLabels)
        decreases |orig| - n
      {
        var next;
        next, done, front := ConvertNextInstruction(cycle, orig, n, done, front, st0);
        if next.Failure? {
          return Fail(next.error);
        }
        cycle, n := next.value, n + 1;
      }
      assert |orig[n..]| == 0 && n == |orig| && program == front + done;
    }

    /** One iteration of `convert_immediate_operands`' outer loop: converts
        the `n`-th original instruction, found at `cycle`, and returns the
        cycle of the instruction after it. */
    method ConvertNextInstruction(cycle: int, ghost orig: seq<Instr>, ghost n: nat, ghost done: seq<Instr>,
                                  ghost front: seq<Instr>, ghost st0: Regs)
      returns (next: Result<int, Error>, ghost done': seq<Instr>, ghost front': seq<Instr>)
      requires n < |orig| && |done| == n && cycle == |front| + n
      requires ImmPrefix(st0, orig, n) == Success((done, Regs(immediateRegisters, unusedRegisters, front)))
      requires program == front + done + orig[n..] && Valid()
      modifies this
      ensures intBranchLabels == old(intBranchLabels)
      ensures next.Failure? ==> ImmPrefix(st0, orig, |orig|) == Failure(next.error)
      ensures next.Success? ==>
        && ImmPrefix(st0, orig, n + 1) == Success((done', Regs(immediateRegisters, unusedRegisters, front')))
        && program == front' + done' + orig[n + 1..] && Valid()
        && |done'| == n + 1 && next.value == |front'| + n + 1
    {
      ImmSlot(front, done, orig, n);
      ghost var mid := Regs(immediateRegisters, unusedRegisters, front);
      ImmStep(st0, orig, n, done, mid);
      var at := ConvertInstructionAt(cycle, front, done, orig[n], orig[n + 1..]);
      if at.Failure? {
        return Failure(at.error), done, front;
      }
      ghost var (ins', st') := ConvertInstr(mid, orig[n], n).value;
      return Success(at.value + 1), done + [ins'], st'.front;
    }

    /** `scan_for_immediate_registers`. */
    method ScanForImmediateRegisters() returns (r: Outcome<Error>)
      modifies this
      ensures program == old(program) && intBranchLabels == old(intBranchLabels)
      ensures var out := ScanPrefix(old(program), |old(program)|, TrackerState(old(immediateRegisters), old(unusedRegisters)));
        && (r.Pass? <==> out.Success?)
        && (out.Failure? ==> r == Fail(out.error))
        && (out.Success? ==> TrackerState(immediateRegisters, unusedRegisters) == out.value)
    {
      var regs, pool := immediateRegisters, unusedRegisters;
      ghost var st0 := TrackerState(regs, pool);
      r := Pass;
      var cycle := 0;
      while cycle < |program|
        invariant 0 <= cycle <= |program|
        invariant ScanPrefix(program, cycle, st0) == Success(TrackerState(regs, pool))
        modifies {}
      {
        ghost var before := TrackerState(regs, pool);
        var instruction := program[cycle];
        var opcode := GetOpcode(instruction);
        if OpAdd <= opcode <= OpLdi {
          var operands := instruction.operands;
          if |operands| == 0 {
            ScanFailurePersists(program, cycle + 1, |program|, st0);
            return Fail(MissingOperand);
          }
          var writeBack := operands[0];
          if writeBack.Imm? {
            ScanFailurePersists(program, cycle + 1, |program|, st0);
            return Fail(InvalidOperand(cycle));
          }
          var regValue := GetOperandValue(writeBack);
          if regValue.Failure? {
            ScanFailurePersists(program, cycle + 1, |program|, st0);
            return Fail(regValue.error);
          }
          var reg := regValue.value;
          if reg in pool {
            pool := RemoveValue(pool, reg);
          }
          var firstBranch := FirstBranchOrLabelCycle();
          if |operands| < 2 {
            ScanFailurePersists(program, cycle + 1, |program|, st0);
            return Fail(MissingOperand);
          }
          var valueResult := GetOperandValue(operands[1]);
          if valueResult.Failure? {
            ScanFailurePersists(program, cycle + 1, |program|, st0);
            return Fail(valueResult.error);
          }
          var value := valueResult.value;
          if reg in Keys(regs) {
            if opcode == OpLdi {
              if firstBranch > -1 && cycle >= firstBranch {
                regs := Pop(regs, reg);
              } else {
                regs := Put(regs, reg, RegisterInfo(value, cycle));
              }
            } else {
              regs := Pop(regs, reg);
            }
          } else if opcode == OpLdi {
            regs := Put(regs, reg, RegisterInfo(value, cycle));
          }
        }
        assert ScanStep(program, cycle, before) == Success(TrackerState(regs, pool));
        cycle := cycle + 1;
      }
      immediateRegisters, unusedRegisters := regs, pool;
    }

    /** `remove_zero_ldis`: each removal is `list.remove`, which deletes the
        first equal instruction; every instruction before the current one is
        one the pass keeps, so that is the current one. */
    method RemoveZeroLdis() returns (r: Outcome<Error>)
      modifies this
      ensures unusedRegisters == old(unusedRegisters) && intBranchLabels == old(intBranchLabels)
      ensures var out := ZeroPrefix(old(program), |old(program)|, old(immediateRegisters));
        && (r.Pass? <==> out.Success?)
        && (out.Failure? ==> r == Fail(out.error))
        && (out.Success? ==> program == out.value.0 && immediateRegisters == out.value.1)
    {
      var out := ZeroLdiLoop(program, immediateRegisters);
      if out.Failure? {
        return Fail(out.error);
      }
      program, immediateRegisters := out.value.0, out.value.1;
      return Pass;
    }

    /** The loop of `remove_zero_ldis`, on the program and the tracker it
        rewrites. */
    static method ZeroLdiLoop(prog: seq<Instr>, regs0: Registers) returns (out: Result<(seq<Instr>, Registers), Error>)
      ensures out == ZeroPrefix(prog, |prog|, regs0)
    {
      var lines, regs := prog, regs0;
      ghost var n, kept := 0, [];
      var cycle: int := 0;
      assert ZeroPrefix(prog, 0, regs0) == Success(([], regs0)) && lines == kept + prog[0..];
      while cycle < |lines|
        invariant 0 <= n <= |prog| && cycle == |kept|
        invariant ZeroPrefix(prog, n, regs0) == Success((kept, regs))
        invariant lines == kept + prog[n..]
        decreases |prog| - n
      {
        var step;
        step, kept := ZeroLdiStep(lines, regs, cycle, prog, n, regs0, kept);
        if step.Failure? {
          return Failure(step.error);
        }
        lines, regs, cycle := step.value.0, step.value.1, step.value.2 + 1;
        n := n + 1;
      }
      assert |prog[n..]| == 0 && n == |prog| && lines == kept;
      return Success((lines, regs));
    }

    /** One iteration of `remove_zero_ldis` at `cycle`: the program, the
        tracker and the cycle it leaves before `instruction_cycle += 1`. */
    static method ZeroLdiStep(lines: seq<Instr>, regs: Registers, cycle: nat,
                              ghost orig: seq<Instr>, ghost n: nat, ghost regs0: Registers, ghost kept: seq<Instr>)
      returns (step: Result<(seq<Instr>, Registers, int), Error>, ghost kept': seq<Instr>)
      requires n < |orig| && cycle == |kept|
      requires ZeroPrefix(orig, n, regs0) == Success((kept, regs))
      requires lines == kept + orig[n..]
      ensures step.Failure? ==> ZeroPrefix(orig, |orig|, regs0) == Failure(step.error)
      ensures step.Success? ==>
        var (lines', regs', cycle') := step.value;
        && cycle' + 1 == |kept'|
        && ZeroPrefix(orig, n + 1, regs0) == Success((kept', regs'))
        && lines' == kept' + orig[n + 1..]
    {
      assert lines[cycle] == orig[n];
      var instruction := lines[cycle];
      var target := ZeroLdiRegister(instruction, regs);
      if target.Failure? {
        ZeroFailurePersists(orig, n + 1, |orig|, regs0);
        return Failure(target.error), kept;
      }
      if target.value.Some? {
        var reg := target.value.value;
        ZeroRemove(orig, n, regs0, kept, regs, lines);
        var regs' := Put(regs, reg, RegisterInfo(Get(regs, reg).value, 0));
        var lines' := RemoveFirst(lines, instruction);
        return Success((lines', regs', cycle - 1)), kept;
      }
      ZeroKeep(orig, n, regs0, kept, regs, lines);
      return Success((lines, regs, cycle)), kept + [instruction];
    }

    /** The test `remove_zero_ldis` applies to one instruction: the tracked
        register an unlabelled `LDI Rn, #0` writes, if any. */
    static method ZeroLdiRegister(instruction: Instr, regs: Registers) returns (t: Result<Option<int>, Error>)
      ensures t == ZeroLdiTarget(instruction, Keys(regs))
    {
      var opcode := GetOpcode(instruction);
      var operands := instruction.operands;
      if opcode == OpLdi && !BeginsWithLabel(instruction) {
        if |operands| < 2 {
          return Failure(MissingOperand);
        }
        var value :- GetOperandValue(operands[1]);
        if value == 0 {
          var reg :- GetOperandValue(operands[0]);
          if reg in Keys(regs) {
            return Success(Some(reg));
          }
        }
      }
      return Success(None);
    }

    /** `convert_custom_branches`. */
    method ConvertCustomBranches() returns (r: Outcome<Error>)
      modifies this
      ensures immediateRegisters == old(immediateRegisters) && unusedRegisters == old(unusedRegisters)
      ensures intBranchLabels == old(intBranchLabels)
      ensures var out := LowerPrefix(old(program), |old(program)|);
        && (r.Pass? <==> out.Success?)
        && (out.Failure? ==> r == Fail(out.error))
        && (out.Success? ==> program == out.value)
    {
      r := Pass;
      var cycle := 0;
      while cycle < |program|
        invariant 0 <= cycle <= |program| == |old(program)|
        invariant LowerPrefix(old(program), cycle) == Success(program[..cycle])
        invariant program[cycle..] == old(program)[cycle..]
        invariant immediateRegisters == old(immediateRegisters) && unusedRegisters == old(unusedRegisters)
        invariant intBranchLabels == old(intBranchLabels)
      {
        var instruction := program[cycle];
        assert instruction == old(program)[cycle];
        var lowered := LowerBranchOf(instruction);
        if lowered.Failure? {
          LowerStopsAt(old(program), cycle);
          return Fail(lowered.error);
        }
        ghost var done := program[..cycle];
        LowerPrefixStep(old(program), cycle, done, lowered.value);
        program := program[cycle := lowered.value];
        assert program[..cycle + 1] == done + [lowered.value];
        cycle := cycle + 1;
      }
      assert program[..cycle] == program;
    }

    /** The body of the loop in `convert_custom_branches` for one instruction. */
    static method LowerBranchOf(instruction: Instr) returns (r: Result<Instr, Error>)
      ensures r == LowerBranch(instruction)
    {
      var operands := instruction.operands;
      if |operands| == 0 {
        return Failure(MissingOperand);
      }
      var target := operands[0];
      var remaining := operands[1..];
      var replacement: seq<Operand> := [];
      var mnemonic := "";
      if instruction.mnemonic == "BRZ" {
        if |remaining| < 1 {
          return Failure(MissingOperand);
        }
        mnemonic, replacement := "BRE", [target, remaining[0], Imm(0)];
      } else if instruction.mnemonic == "BRU" {
        mnemonic, replacement := "BRE", [target, Reg(1), Reg(1)];
      } else if instruction.mnemonic == "BRGT" {
        if |remaining| < 2 {
          return Failure(MissingOperand);
        }
        mnemonic, replacement := "BRLT", [target, remaining[1], remaining[0]];
      }
      if |replacement| > 0 {
        return Success(Instr(instruction.labelName, mnemonic, replacement));
      }
      return Success(instruction);
    }

    /** `calculate_branch_labels`: each label declaration records its cycle. */
    method CalculateBranchLabels()
      modifies this
      ensures intBranchLabels == CalculateFrom(old(intBranchLabels), program, |program|)
      ensures program == old(program)
      ensures immediateRegisters == old(immediateRegisters) && unusedRegisters == old(unusedRegisters)
    {
      var labels := intBranchLabels;
      for cycle := 0 to |program|
        invariant labels == CalculateFrom(old(intBranchLabels), program, cycle)
        modifies {}
      {
        var instruction := program[cycle];
        if BeginsWithLabel(instruction) {
          var name := instruction.labelName.value;
          labels := Put(labels, name, cycle);
        }
      }
      intBranchLabels := labels;
    }

    /** `increment_branch_labels`. */
    method IncrementBranchLabels(amount: nat)
      modifies this
      ensures intBranchLabels == Shift(old(intBranchLabels), amount)
      ensures program == old(program)
      ensures immediateRegisters == old(immediateRegisters) && unusedRegisters == old(unusedRegisters)
    {
      var labels := intBranchLabels;
      for i := 0 to |labels|
        invariant |labels| == |old(intBranchLabels)|
        invariant forall j :: 0 <= j < i ==> labels[j] == Shift(old(intBranchLabels), amount)[j]
        invariant forall j :: i <= j < |labels| ==> labels[j] == old(intBranchLabels)[j]
        modifies {}
      {
        labels := labels[i := Item(labels[i].key, labels[i].val + amount)];
      }
      intBranchLabels := labels;
    }

    /** The first loop of `add_label_ldi_instructions`: the number of
        labels whose memory cell no register holds at the label's cycle. */
    method CountMissingLabelLdis() returns (count: nat)
      ensures count == MissCount(immediateRegisters, Targets(intBranchLabels), |intBranchLabels|)
    {
      count := 0;
      for i := 0 to |intBranchLabels|
        invariant count == MissCount(immediateRegisters, Targets(intBranchLabels), i)
      {
        var instrCycle := intBranchLabels[i].val;
        var memCell := CycleToCellInt(instrCycle);
        var existing := FindExistingImmediateRegister(memCell, instrCycle);
        if existing == -1 {
          count := count + 1;
        }
      }
    }

    /** One turn of the second loop of `add_label_ldi_instructions`, for
        the `i`-th label. */
    method CreateLabelLdiAt(i: nat, ghost st: Regs, ghost ts: seq<Target>) returns (r: Outcome<Error>)
      requires i < |intBranchLabels| && ts == Targets(intBranchLabels)
      requires LabelLdiPrefix(st, ts, i) == Success(Regs(immediateRegisters, unusedRegisters, program))
      modifies this
      ensures intBranchLabels == old(intBranchLabels)
      ensures r.Fail? ==> LabelLdiPrefix(st, ts, |ts|) == Failure(r.error)
      ensures r.Pass? ==> LabelLdiPrefix(st, ts, i + 1) == Success(Regs(immediateRegisters, unusedRegisters, program))
    {
      var instrCycle := intBranchLabels[i].val;
      var memCell := CycleToCellInt(instrCycle);
      LabelLdiNext(st, ts, i, Regs(immediateRegisters, unusedRegisters, program));
      var existing := FindExistingImmediateRegister(memCell, instrCycle);
      if existing == -1 {
        var created := CreateNewLdi(memCell);
        if created.Failure? {
          return Fail(created.error);
        }
      }
      return Pass;
    }

    /** The second loop of `add_label_ldi_instructions`: an LDI for each
        label cell no register holds. */
    method CreateLabelLdis() returns (r: Outcome<Error>)
      modifies this
      ensures intBranchLabels == old(intBranchLabels)
      ensures var ts := Targets(old(intBranchLabels));
        var out := LabelLdiPrefix(Regs(old(immediateRegisters), old(unusedRegisters), old(program)), ts, |ts|);
        && (r.Pass? <==> out.Success?)
        && (out.Failure? ==> r == Fail(out.error))
        && (out.Success? ==> Regs(immediateRegisters, unusedRegisters, program) == out.value)
    {
      ghost var st := Regs(immediateRegisters, unusedRegisters, program);
      ghost var ts := Targets(intBranchLabels);
      assert LabelLdiPrefix(st, ts, 0) == Success(st) && |ts| == |intBranchLabels|;
      for i := 0 to |intBranchLabels|
        invariant intBranchLabels == old(intBranchLabels)
        invariant LabelLdiPrefix(st, ts, i) == Success(Regs(immediateRegisters, unusedRegisters, program))
      {
        var next := CreateLabelLdiAt(i, st, ts);
        if next.Fail? {
          return next;
        }
      }
      return Pass;
    }

    /** `add_label_ldi_instructions`: every label moves as many cycles later
        as LDIs are missing, then the missing LDIs are created. */
    method AddLabelLdiInstructions() returns (r: Outcome<Error>)
      modifies this
      ensures var out := AddLabelLdis(Regs(old(immediateRegisters), old(unusedRegisters), old(program)), old(intBranchLabels));
        && (r.Pass? <==> out.Success?)
        && (out.Failure? ==> r == Fail(out.error))
        && (out.Success? ==>
              Regs(immediateRegisters, unusedRegisters, program) == out.value.0 && intBranchLabels == out.value.1)
    {
      var incrementAmount := CountMissingLabelLdis();
      IncrementBranchLabels(incrementAmount);
      r := CreateLabelLdis();
    }

    /** `remove_label_declarations`. */
    method RemoveLabelDeclarations()
      modifies this
      ensures program == StripLabels(old(program))
      ensures immediateRegisters == old(immediateRegisters) && unusedRegisters == old(unusedRegisters)
      ensures intBranchLabels == old(intBranchLabels)
    {
      var lines := program;
      for cycle := 0 to |lines|
        invariant |lines| == |old(program)|
        invariant forall i :: 0 <= i < cycle ==> lines[i] == StripLabels(old(program))[i]
        invariant forall i :: cycle <= i < |lines| ==> lines[i] == old(program)[i]
        modifies {}
      {
        var instruction := lines[cycle];
        if BeginsWithLabel(instruction) {
          lines := lines[cycle := Instr(None, instruction.mnemonic, instruction.operands)];
        }
      }
      program := lines;
    }

    /** `convert_branch_labels`: every operand naming a label becomes the
        register the tracker finds for that label's memory cell. */
    method ConvertBranchLabels()
      modifies this
      ensures program == ResolveLabels(old(program), intBranchLabels, immediateRegisters)
      ensures immediateRegisters == old(immediateRegisters) && unusedRegisters == old(unusedRegisters)
      ensures intBranchLabels == old(intBranchLabels)
    {
      var lines := program;
      for cycle := 0 to |lines|
        invariant |lines| == |old(program)|
        invariant forall i :: 0 <= i < cycle ==> lines[i] == ResolveLabels(old(program), intBranchLabels, immediateRegisters)[i]
        invariant forall i :: cycle <= i < |lines| ==> lines[i] == old(program)[i]
        modifies {}
      {
        var instruction := lines[cycle];
        var operands := instruction.operands;
        var resolved := operands;
        for k := 0 to |operands|
          invariant |resolved| == |operands|
          invariant forall j :: 0 <= j < k ==> resolved[j] == ResolveOperand(operands[j], intBranchLabels, immediateRegisters, cycle)
          invariant forall j :: k <= j < |operands| ==> resolved[j] == operands[j]
        {
          var operand := operands[k];
          if operand.Name? && operand.s in Keys(intBranchLabels) {
            var pointerCycle := Get(intBranchLabels, operand.s);
            var memCell := CycleToCellInt(pointerCycle);
            var existing := FindExistingImmediateRegister(memCell, cycle);
            resolved := resolved[k := Reg(existing)];
          }
        }
        lines := lines[cycle := Instr(instruction.labelName, instruction.mnemonic, resolved)];
      }
      program := lines;
    }

    /** `convert_syntax`: the passes in order. When every pass succeeds the
        program is in the form the encoder reads: no label declarations, no
        label uses, no pseudo-branches and no immediates outside LDIs. */
    method ConvertSyntax() returns (r: Outcome<Error>)
      requires Valid()
      modifies this
      ensures r.Pass? ==> Valid()
      ensures r.Pass? ==> NoLabels(program) && NoLabelUses(program, intBranchLabels)
      ensures r.Pass? ==> NoPseudoBranches(program) && NoImmediates(program)
    {
      RemoveComments();
      ghost var prog, regs, pool := program, immediateRegisters, unusedRegisters;
      r := ScanForImmediateRegisters();
      if r.Fail? {
        return;
      }
      ScanPrefixSound(prog, |prog|, TrackerState(regs, pool));
      prog, regs := program, immediateRegisters;
      r := RemoveZeroLdis();
      if r.Fail? {
        return;
      }
      ZeroPassKeepsValid(prog, regs, unusedRegisters);
      prog := program;
      r := ConvertCustomBranches();
      if r.Fail? {
        return;
      }
      LoweredHasNoPseudoBranches(prog);
      ghost var st := Regs(immediateRegisters, unusedRegisters, []);
      prog := program;
      r := ConvertImmediateOperands();
      if r.Fail? {
        return;
      }
      ImmPassKeeps(st, prog);
      CalculateBranchLabels();
      st := Regs(immediateRegisters, unusedRegisters, program);
      ghost var labels := intBranchLabels;
      r := AddLabelLdiInstructions();
      if r.Fail? {
        return;
      }
      LabelLdisKeep(st, labels);
      StripKeeps(program);
      RemoveLabelDeclarations();
      ResolveKeeps(program, intBranchLabels, immediateRegisters);
      ConvertBranchLabels();
    }
  }

  /** Operand `k` of the instruction the operand loop is working on. */
  lemma OperandSlot(opsDone: seq<Operand>, operands: seq<Operand>, k: nat)
    requires |opsDone| == k < |operands|
    ensures (opsDone + operands[k..])[k] == operands[k]
    ensures opsDone + operands[k..] == opsDone + [operands[k]] + operands[k + 1..]
    ensures forall x: Operand :: (opsDone + operands[k..])[k := x] == opsDone + [x] + operands[k + 1..]
  {
  }

  /** Where the instruction being converted sits in the program. */
  lemma SlotAt(front: seq<Instr>, before: seq<Instr>, cur: Instr, after: seq<Instr>)
    ensures (front + before + [cur] + after)[|front| + |before|] == cur
  {
  }

  /** Replacing that instruction by `cur'`. */
  lemma SlotReplace(front: seq<Instr>, before: seq<Instr>, cur: Instr, after: seq<Instr>, cur': Instr)
    ensures (front + before + [cur] + after)[|front| + |before|] == cur
    ensures (front + before + [cur] + after)[|front| + |before| := cur'] == front + before + [cur'] + after
  {
  }

  /** The instruction the pass converts next is the next original one. */
  lemma ImmSlot(front: seq<Instr>, done: seq<Instr>, orig: seq<Instr>, n: nat)
    requires n < |orig| && |done| == n
    ensures front + done + orig[n..] == front + done + [orig[n]] + orig[n + 1..]
  {
  }

  /** One more line through `remove_comments`. */
  lemma CommentStep(prog: seq<Instr>, n: nat, lines: seq<Instr>, index: nat)
    requires n < |prog| && lines == Filter(NotComment, prog[..n]) + prog[n..]
    requires index == |Filter(NotComment, prog[..n])|
    ensures index < |lines| && lines[index] == prog[n]
    ensures IsComment(prog[n]) ==>
      && lines[..index] + lines[index + 1..] == Filter(NotComment, prog[..n + 1]) + prog[n + 1..]
      && index == |Filter(NotComment, prog[..n + 1])|
    ensures !IsComment(prog[n]) ==>
      && lines == Filter(NotComment, prog[..n + 1]) + prog[n + 1..]
      && index + 1 == |Filter(NotComment, prog[..n + 1])|
  {
    var kept := Filter(NotComment, prog[..n]);
    var x := prog[n];
    assert prog[..n + 1] == prog[..n] + [x];
    FilterSnoc(NotComment, prog[..n], x);
    assert prog[n..] == [x] + prog[n + 1..];
    assert lines == kept + [x] + prog[n + 1..];
    SplitAround(kept, x, prog[n + 1..]);
    if IsComment(x) {
      assert Filter(NotComment, prog[..n + 1]) == kept;
    } else {
      assert Filter(NotComment, prog[..n + 1]) == kept + [x];
    }
  }

  /** The parts of a sequence on either side of one element. */
  lemma SplitAround<T>(before: seq<T>, x: T, after: seq<T>)
    ensures var s := before + [x] + after;
      && s[|before|] == x && s[..|before|] == before && s[|before| + 1..] == after
  {
  }

  /** A removable zero LDI is the first instruction equal to itself from the
      current position on, so `list.remove` deletes exactly it. */
  lemma ZeroRemove(orig: seq<Instr>, n: nat, regs0: Registers, kept: seq<Instr>, regs: Registers, lines: seq<Instr>)
    requires n < |orig| && ZeroPrefix(orig, n, regs0) == Success((kept, regs))
    requires lines == kept + orig[n..] && Removable(orig[n], Keys(regs))
    ensures var reg := ZeroLdiTarget(orig[n], Keys(regs)).value.value;
      && reg in Keys(regs)
      && ZeroPrefix(orig, n + 1, regs0) == Success((kept, Put(regs, reg, RegisterInfo(Get(regs, reg).value, 0))))
      && RemoveFirst(lines, orig[n]) == kept + orig[n + 1..]
  {
    assert orig[n..] == [orig[n]] + orig[n + 1..];
    ZeroPrefixSpec(orig, n, regs0);
    ZeroKeptDiffer(orig, n, regs0);
    RemoveFirstAt(lines, orig[n], |kept|);
    assert lines[..|kept|] == kept;
    assert lines[|kept| + 1..] == orig[n + 1..];
  }

  /** Any other instruction stays where it is. */
  lemma ZeroKeep(orig: seq<Instr>, n: nat, regs0: Registers, kept: seq<Instr>, regs: Registers, lines: seq<Instr>)
    requires n < |orig| && ZeroPrefix(orig, n, regs0) == Success((kept, regs))
    requires lines == kept + orig[n..]
    requires ZeroLdiTarget(orig[n], Keys(regs)).Success? && !Removable(orig[n], Keys(regs))
    ensures ZeroPrefix(orig, n + 1, regs0) == Success((kept + [orig[n]], regs))
    ensures lines == kept + [orig[n]] + orig[n + 1..]
  {
  }

  /** No instruction the zero-LDI pass has kept equals a removable one. */
  lemma ZeroKeptDiffer(orig: seq<Instr>, n: nat, regs0: Registers)
    requires n < |orig| && ZeroPrefix(orig, n, regs0).Success?
    requires Removable(orig[n], Keys(regs0))
    ensures forall j :: 0 <= j < |ZeroPrefix(orig, n, regs0).value.0| ==> ZeroPrefix(orig, n, regs0).value.0[j] != orig[n]
  {
    ZeroPrefixSpec(orig, n, regs0);
    var kept := ZeroPrefix(orig, n, regs0).value.0;
    forall j | 0 <= j < |kept|
      ensures kept[j] != orig[n]
    {
      assert kept[j] in kept;
    }
  }
}
