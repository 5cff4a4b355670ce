/** `create_new_ldi` and `convert_immediate_operands` (assembler.py:216-265):
    every immediate operand of a non-LDI instruction is replaced by a
    register that holds its value, either one already tracked or a fresh
    one from the pool, loaded by an LDI placed at the front of the program. */
module Materialize {
  import opened Wrappers
  import opened Dicts
  import opened Instructions
  import opened Tracker

  /** The state the pass threads along: the tracker, the pool, and the LDIs
      it has placed in front of the program so far (nearest first). */
  datatype Regs = Regs(regs: Registers, pool: seq<int>, front: seq<Instr>)

  predicate Valid(st: Regs)
  {
    TrackerValid(st.regs, st.pool)
  }

  /** `create_new_ldi`: takes the last pool register for immediate `v`. */
  function CreateNewLdi(st: Regs, v: int): Result<(int, Regs), Error>
  {
    if |st.pool| == 0 then Failure(RegisterExhaustion)
    else
      var reg := st.pool[|st.pool| - 1];
      var pool := st.pool[..|st.pool| - 1];
      var info := RegisterInfo(v, 0);
      if v != 0 then
        Success((reg, Regs(Put(Bump(st.regs), reg, info), pool, [Ldi(reg, v)] + st.front)))
      else
        Success((reg, Regs(Put(st.regs, reg, info), pool, st.front)))
  }

  /** `create_new_ldi` does the same to the tracker whatever program the
      new LDI goes in front of. */
  lemma CreateNewLdiFront(st: Regs, prog: seq<Instr>, v: int)
    ensures var out := CreateNewLdi(st, v);
      var out' := CreateNewLdi(Regs(st.regs, st.pool, prog), v);
      && (out.Success? <==> out'.Success?)
      && (out.Failure? ==> out'.error == out.error)
      && (out.Success? ==>
            && out'.value.0 == out.value.0
            && out'.value.1.regs == out.value.1.regs && out'.value.1.pool == out.value.1.pool
            && (v != 0 ==> out.value.1.front == [Ldi(out.value.0, v)] + st.front
                           && out'.value.1.front == [Ldi(out.value.0, v)] + prog)
            && (v == 0 ==> out.value.1.front == st.front && out'.value.1.front == prog))
  {
  }

  /** What `create_new_ldi` promises: it raises exactly when the pool is
      empty, hands out the pool's last register, records it as holding `v`
      since cycle 0, and (unless `v` is 0) puts one `LDI reg, #v` in front
      and moves every earlier record one cycle later. */
  lemma CreateNewLdiSpec(st: Regs, v: int)
    requires Valid(st)
    ensures CreateNewLdi(st, v).Failure? <==> |st.pool| == 0
    ensures CreateNewLdi(st, v).Failure? ==> CreateNewLdi(st, v).error == RegisterExhaustion
    ensures CreateNewLdi(st, v).Success? ==>
      var (reg, st') := CreateNewLdi(st, v).value;
      && reg == st.pool[|st.pool| - 1]
      && st'.pool == st.pool[..|st.pool| - 1]
      && reg !in Keys(st.regs)
      && st'.regs == (if v != 0 then Bump(st.regs) else st.regs) + [Item(reg, RegisterInfo(v, 0))]
      && reg in Keys(st'.regs) && Get(st'.regs, reg) == RegisterInfo(v, 0)
      && st'.front == (if v != 0 then [Ldi(reg, v)] + st.front else st.front)
      && Valid(st')
  {
    if |st.pool| > 0 {
      var reg := st.pool[|st.pool| - 1];
      var pool := st.pool[..|st.pool| - 1];
      var base := if v != 0 then Bump(st.regs) else st.regs;
      assert Keys(base) == Keys(st.regs);
      assert reg !in Keys(base);
      var regs := Put(base, reg, RegisterInfo(v, 0));
      assert regs == base + [Item(reg, RegisterInfo(v, 0))];
      PutThenGet(base, reg, RegisterInfo(v, 0));
      DistinctKeysPut(base, reg, RegisterInfo(v, 0));
      assert Keys(regs) == Keys(st.regs) + [reg];
      forall r | r in pool
        ensures r !in Keys(regs)
      {
        var i :| 0 <= i < |pool| && pool[i] == r;
        assert st.pool[i] == r && st.pool[|st.pool| - 1] == reg;
      }
    }
  }

  /** The handling of one immediate `v` found at operand position of the
      instruction at original index `j`; the source's `instruction_cycle` is
      `j` plus the LDIs inserted so far. Returns the register that replaces it. */
  function Materialize(st: Regs, v: int, j: nat): Result<(int, Regs), Error>
  {
    var reg := Find(st.regs, v, |st.front| + j);
    if reg == -1 then CreateNewLdi(st, v) else Success((reg, st))
  }

  /** A register is available for `v` at `cycle`. */
  predicate Available(regs: Registers, v: int, cycle: int)
  {
    exists i :: 0 <= i < |regs| && Holds(regs[i], v, cycle)
  }

  /** No tracked register and no pool register is numbered -1, the value
      `find_existing_immediate_register` uses for "none". */
  predicate NoSentinel(st: Regs)
  {
    -1 !in Keys(st.regs) && -1 !in st.pool
  }

  /** Every tracked register keeps the value it held, and stays tracked. */
  predicate ValuesKept(regs: Registers, regs': Registers)
  {
    forall k :: k in Keys(regs) ==> k in Keys(regs') && Get(regs', k).value == Get(regs, k).value
  }

  /** `st'` continues `st`: the tracker and pool stay consistent, every
      tracked register keeps its value, the pool only shrinks, and LDIs are
      only ever added in front of those already there. */
  predicate Extends(st: Regs, st': Regs)
  {
    && Valid(st')
    && ValuesKept(st.regs, st'.regs)
    && (forall r :: r in st'.pool ==> r in st.pool)
    && |st'.front| >= |st.front| && st'.front[|st'.front| - |st.front|..] == st.front
    && (NoSentinel(st) ==> NoSentinel(st'))
    && (LoadsNonzero(st.front) ==> LoadsNonzero(st'.front))
  }

  lemma ExtendsTransitive(a: Regs, b: Regs, c: Regs)
    requires Extends(a, b) && Extends(b, c)
    ensures Extends(a, c)
  {
  }

  lemma CreateNewLdiExtends(st: Regs, v: int)
    requires Valid(st) && CreateNewLdi(st, v).Success?
    ensures Extends(st, CreateNewLdi(st, v).value.1)
  {
    CreateNewLdiSpec(st, v);
    CreateNewLdiKeepsValues(st, v);
    CreateNewLdiPool(st, v);
    CreateNewLdiGrowsFront(st, v);
  }

  /** A new LDI only takes from the pool, and hands out no sentinel. */
  lemma CreateNewLdiPool(st: Regs, v: int)
    requires Valid(st) && CreateNewLdi(st, v).Success?
    ensures forall x :: x in CreateNewLdi(st, v).value.1.pool ==> x in st.pool
    ensures NoSentinel(st) ==> NoSentinel(CreateNewLdi(st, v).value.1)
  {
  }

  /** A new LDI goes in front of those already placed, and loads a nonzero value. */
  lemma CreateNewLdiGrowsFront(st: Regs, v: int)
    requires CreateNewLdi(st, v).Success?
    ensures var st' := CreateNewLdi(st, v).value.1;
      && |st'.front| >= |st.front| && st'.front[|st'.front| - |st.front|..] == st.front
      && (LoadsNonzero(st.front) ==> LoadsNonzero(st'.front))
  {
  }

  /** A new LDI leaves every tracked register with its value. */
  lemma CreateNewLdiKeepsValues(st: Regs, v: int)
    requires Valid(st) && CreateNewLdi(st, v).Success?
    ensures ValuesKept(st.regs, CreateNewLdi(st, v).value.1.regs)
  {
    CreateNewLdiSpec(st, v);
    var (r, st') := CreateNewLdi(st, v).value;
    var base := if v != 0 then Bump(st.regs) else st.regs;
    forall k | k in Keys(st.regs)
      ensures k in Keys(st'.regs) && Get(st'.regs, k).value == Get(st.regs, k).value
    {
      BumpKeepsValues(st.regs, k);
      AppendGet(base, Item(r, RegisterInfo(v, 0)), k);
    }
  }

  /** What one immediate's handling promises: the register returned holds
      `v`; the only instruction ever added is an `LDI` of that register with
      `v`, and only for a nonzero `v`; nothing already tracked changes its value. */
  lemma MaterializeSpec(st: Regs, v: int, j: nat)
    requires Valid(st)
    ensures Materialize(st, v, j).Success? ==>
      var (reg, st') := Materialize(st, v, j).value;
      && Extends(st, st')
      && reg in Keys(st'.regs) && Get(st'.regs, reg).value == v
      && (st'.front == st.front || (v != 0 && st'.front == [Ldi(reg, v)] + st.front))
    ensures Materialize(st, v, j).Failure? ==> Materialize(st, v, j).error == RegisterExhaustion
  {
    var reg := Find(st.regs, v, |st.front| + j);
    if reg == -1 {
      assert Materialize(st, v, j) == CreateNewLdi(st, v);
      CreateNewLdiSpec(st, v);
      if CreateNewLdi(st, v).Success? {
        CreateNewLdiExtends(st, v);
      }
    } else {
      assert Materialize(st, v, j) == Success((reg, st));
      FoundHolds(st, v, j);
    }
  }

  /** The tracker invariant survives materializing a value. */
  lemma MaterializeValid(st: Regs, v: int, j: nat)
    requires Valid(st) && Materialize(st, v, j).Success?
    ensures Valid(Materialize(st, v, j).value.1)
  {
    MaterializeSpec(st, v, j);
  }

  /** A register `find_existing_immediate_register` returns holds the value. */
  lemma FoundHolds(st: Regs, v: int, j: nat)
    requires Valid(st) && Find(st.regs, v, |st.front| + j) != -1
    ensures Extends(st, st)
    ensures Find(st.regs, v, |st.front| + j) in Keys(st.regs)
    ensures Get(st.regs, Find(st.regs, v, |st.front| + j)).value == v
  {
  }

  /** Once a nonzero `v` has been handled, it is available to every later
      operand of the same instruction. */
  lemma MaterializeMakesAvailable(st: Regs, v: int, j: nat)
    requires Valid(st) && v != 0 && Materialize(st, v, j).Success?
    ensures Available(Materialize(st, v, j).value.1.regs, v, |Materialize(st, v, j).value.1.front| + j)
  {
    var reg := Find(st.regs, v, |st.front| + j);
    if reg == -1 {
      assert Materialize(st, v, j) == CreateNewLdi(st, v);
      CreateNewLdiSpec(st, v);
      var st' := CreateNewLdi(st, v).value.1;
      assert Holds(st'.regs[|st'.regs| - 1], v, |st'.front| + j);
    } else {
      assert Materialize(st, v, j) == Success((reg, st));
      var i :| 0 <= i < |st.regs| && st.regs[i].key == reg && Holds(st.regs[i], v, |st.front| + j);
    }
  }

  /** Handling another immediate never takes away a register available for `v`. */
  lemma MaterializeKeepsAvailable(st: Regs, v: int, w: int, j: nat)
    requires Valid(st) && Available(st.regs, v, |st.front| + j) && Materialize(st, w, j).Success?
    ensures Available(Materialize(st, w, j).value.1.regs, v, |Materialize(st, w, j).value.1.front| + j)
  {
    var i :| 0 <= i < |st.regs| && Holds(st.regs[i], v, |st.front| + j);
    var reg := Find(st.regs, w, |st.front| + j);
    if reg == -1 {
      assert Materialize(st, w, j) == CreateNewLdi(st, w);
      CreateNewLdiSpec(st, w);
      var st' := CreateNewLdi(st, w).value.1;
      assert Holds(st'.regs[i], v, |st'.front| + j);
    } else {
      assert Materialize(st, w, j) == Success((reg, st));
    }
  }

  /** An available value is served from the tracker: no register is taken
      from the pool and no LDI is added. */
  lemma AvailableMeansReuse(st: Regs, v: int, j: nat)
    requires NoSentinel(st) && Available(st.regs, v, |st.front| + j)
    ensures Materialize(st, v, j).Success? && Materialize(st, v, j).value.1 == st
  {
  }

  /** `convert_immediate_operands` on the operands of one instruction: the
      loop runs over the operand list as it was before any replacement. */
  function OpsPrefix(st: Regs, ops: seq<Operand>, n: nat, j: nat): Result<(seq<Operand>, Regs), Error>
    requires n <= |ops|
  {
    if n == 0 then Success(([], st))
    else
      var (done, mid) :- OpsPrefix(st, ops, n - 1, j);
      ConvertOperand(mid, ops[n - 1], j, done)
  }

  /** One operand of the loop, appended to the operands `done` before it:
      an immediate is materialized into a register, anything else is kept. */
  function ConvertOperand(st: Regs, op: Operand, j: nat, done: seq<Operand>): Result<(seq<Operand>, Regs), Error>
  {
    match op
    case Imm(v) =>
      var (reg, st') :- Materialize(st, v, j);
      Success((done + [Reg(reg)], st'))
    case _ => Success((done + [op], st))
  }

  /** Once the operand loop has raised, it raises the same error whatever follows. */
  lemma {:induction false} OpsFailurePersists(st: Regs, ops: seq<Operand>, n: nat, m: nat, j: nat)
    requires n <= m <= |ops| && OpsPrefix(st, ops, n, j).Failure?
    ensures OpsPrefix(st, ops, m, j) == Failure(OpsPrefix(st, ops, n, j).error)
  {
    if m > n {
      OpsFailurePersists(st, ops, n, m - 1, j);
    }
  }

  /** One more operand of the loop. */
  lemma OpsStep(st: Regs, ops: seq<Operand>, k: nat, j: nat, done: seq<Operand>, mid: Regs)
    requires k < |ops| && OpsPrefix(st, ops, k, j) == Success((done, mid))
    ensures !ops[k].Imm? ==> OpsPrefix(st, ops, k + 1, j) == Success((done + [ops[k]], mid))
    ensures ops[k].Imm? && Materialize(mid, ops[k].v, j).Failure? ==>
      OpsPrefix(st, ops, |ops|, j) == Failure(Materialize(mid, ops[k].v, j).error)
    ensures ops[k].Imm? && Materialize(mid, ops[k].v, j).Success? ==>
      var (reg, st') := Materialize(mid, ops[k].v, j).value;
      OpsPrefix(st, ops, k + 1, j) == Success((done + [Reg(reg)], st'))
  {
    assert OpsPrefix(st, ops, k + 1, j) == ConvertOperand(mid, ops[k], j, done);
    if ops[k].Imm? && Materialize(mid, ops[k].v, j).Failure? {
      OpsFailurePersists(st, ops, k + 1, |ops|, j);
    }
  }

  /** One instruction of the pass; LDI keeps its immediate. */
  function ConvertInstr(st: Regs, ins: Instr, j: nat): Result<(Instr, Regs), Error>
  {
    if GetOpcode(ins) == OpLdi then Success((ins, st))
    else
      var (ops, st') :- OpsPrefix(st, ins.operands, |ins.operands|, j);
      Success((Instr(ins.labelName, ins.mnemonic, ops), st'))
  }

  /** The pass over the first `n` instructions of the original program. */
  function ImmPrefix(st: Regs, prog: seq<Instr>, n: nat): Result<(seq<Instr>, Regs), Error>
    requires n <= |prog|
  {
    if n == 0 then Success(([], st))
    else
      var (done, mid) :- ImmPrefix(st, prog, n - 1);
      var (ins, st') :- ConvertInstr(mid, prog[n - 1], n - 1);
      Success((done + [ins], st'))
  }

  /** The LDIs the pass puts in front: each loads a nonzero immediate. */
  predicate LoadsNonzero(front: seq<Instr>)
  {
    forall i :: 0 <= i < |front| ==>
      |front[i].operands| == 2 && front[i].operands[0].Reg? && front[i].operands[1].Imm?
      && front[i] == Ldi(front[i].operands[0].n, front[i].operands[1].v) && front[i].operands[1].v != 0
  }

  /** `s` is `t` with every immediate replaced by a register that holds its
      value in `regs`, and every other operand untouched. */
  predicate Replaced(t: seq<Operand>, s: seq<Operand>, regs: Registers)
  {
    |s| == |t| &&
    forall k :: 0 <= k < |t| ==>
      if t[k].Imm? then s[k].Reg? && s[k].n in Keys(regs) && Get(regs, s[k].n).value == t[k].v
      else s[k] == t[k]
  }

  lemma ReplacedKept(t: seq<Operand>, s: seq<Operand>, regs: Registers, regs': Registers)
    requires Replaced(t, s, regs) && ValuesKept(regs, regs')
    ensures Replaced(t, s, regs')
  {
  }

  /** The operand loop of one instruction: what it promises about the
      operands and the state. */
  lemma {:induction false} OpsPrefixSpec(st: Regs, ops: seq<Operand>, n: nat, j: nat)
    requires Valid(st) && n <= |ops|
    ensures OpsPrefix(st, ops, n, j).Success? ==>
      var (done, st') := OpsPrefix(st, ops, n, j).value;
      Extends(st, st') && Replaced(ops[..n], done, st'.regs)
    ensures OpsPrefix(st, ops, n, j).Failure? ==> OpsPrefix(st, ops, n, j).error == RegisterExhaustion
  {
    if n == 0 {
      assert st.front[|st.front| - |st.front|..] == st.front;
    } else {
      var m := n - 1;
      OpsPrefixSpec(st, ops, m, j);
      var prev := OpsPrefix(st, ops, m, j);
      if prev.Success? {
        var (done, mid) := prev.value;
        assert OpsPrefix(st, ops, m + 1, j) == ConvertOperand(mid, ops[m], j, done);
        OpsKeepsPromise(st, ops, m, j, done, mid);
      } else {
        assert OpsPrefix(st, ops, m + 1, j) == Failure(prev.error);
      }
    }
  }

  /** One more operand of the loop keeps what the loop promises. */
  lemma OpsKeepsPromise(st: Regs, ops: seq<Operand>, m: nat, j: nat, done: seq<Operand>, mid: Regs)
    requires m < |ops| && Extends(st, mid) && Replaced(ops[..m], done, mid.regs)
    ensures var out := ConvertOperand(mid, ops[m], j, done);
      && (out.Success? ==> Extends(st, out.value.1) && Replaced(ops[..m + 1], out.value.0, out.value.1.regs))
      && (out.Failure? ==> out.error == RegisterExhaustion)
  {
    assert ops[..m + 1] == ops[..m] + [ops[m]];
    if ops[m].Imm? {
      ImmOperandKeepsPromise(st, ops[..m], done, mid, ops[m].v, j);
    } else {
      assert ConvertOperand(mid, ops[m], j, done) == Success((done + [ops[m]], mid));
      ReplacedAppend(ops[..m], done, ops[m], ops[m], mid.regs);
    }
  }

  /** An immediate operand keeps what the loop promises. */
  lemma ImmOperandKeepsPromise(st: Regs, before: seq<Operand>, done: seq<Operand>, mid: Regs, v: int, j: nat)
    requires Extends(st, mid) && Replaced(before, done, mid.regs)
    ensures var out := ConvertOperand(mid, Imm(v), j, done);
      && (out.Success? ==> Extends(st, out.value.1) && Replaced(before + [Imm(v)], out.value.0, out.value.1.regs))
      && (out.Failure? ==> out.error == RegisterExhaustion)
  {
    MaterializeSpec(mid, v, j);
    if Materialize(mid, v, j).Success? {
      var (reg, st') := Materialize(mid, v, j).value;
      assert ConvertOperand(mid, Imm(v), j, done) == Success((done + [Reg(reg)], st'));
      ReplacedKept(before, done, mid.regs, st'.regs);
      ExtendsTransitive(st, mid, st');
      ReplacedAppend(before, done, Imm(v), Reg(reg), st'.regs);
    } else {
      assert ConvertOperand(mid, Imm(v), j, done) == Failure(Materialize(mid, v, j).error);
    }
  }

  lemma ReplacedAppend(t: seq<Operand>, s: seq<Operand>, x: Operand, y: Operand, regs: Registers)
    requires Replaced(t, s, regs)
    requires if x.Imm? then y.Reg? && y.n in Keys(regs) && Get(regs, y.n).value == x.v else y == x
    ensures Replaced(t + [x], s + [y], regs)
  {
  }

  /** Only the non-LDI instructions may still carry an immediate. */
  predicate NoImmediates(prog: seq<Instr>)
  {
    forall i, k :: 0 <= i < |prog| && 0 <= k < |prog[i].operands| && GetOpcode(prog[i]) != OpLdi ==>
      !prog[i].operands[k].Imm?
  }

  /** `ins'` is `ins` converted: same label, mnemonic and operand count; an
      LDI untouched; otherwise its immediates replaced by registers that
      hold their values in `regs`. */
  predicate Converted(ins: Instr, ins': Instr, regs: Registers)
  {
    && ins'.labelName == ins.labelName && ins'.mnemonic == ins.mnemonic
    && (if GetOpcode(ins) == OpLdi then ins' == ins else Replaced(ins.operands, ins'.operands, regs))
  }

  lemma ConvertedKept(ins: Instr, ins': Instr, regs: Registers, regs': Registers)
    requires Converted(ins, ins', regs) && ValuesKept(regs, regs')
    ensures Converted(ins, ins', regs')
  {
  }

  lemma ConvertInstrSpec(st: Regs, ins: Instr, j: nat)
    requires Valid(st)
    ensures ConvertInstr(st, ins, j).Success? ==>
      var (ins', st') := ConvertInstr(st, ins, j).value;
      Extends(st, st') && Converted(ins, ins', st'.regs)
    ensures ConvertInstr(st, ins, j).Failure? ==> ConvertInstr(st, ins, j).error == RegisterExhaustion
  {
    if GetOpcode(ins) != OpLdi {
      OpsPrefixSpec(st, ins.operands, |ins.operands|, j);
      assert ins.operands[..|ins.operands|] == ins.operands;
    } else {
      assert st.front[|st.front| - |st.front|..] == st.front;
    }
  }

  /** One more instruction of the pass. */
  lemma ImmStep(st: Regs, prog: seq<Instr>, n: nat, done: seq<Instr>, mid: Regs)
    requires n < |prog| && ImmPrefix(st, prog, n) == Success((done, mid)) && Valid(mid)
    ensures ConvertInstr(mid, prog[n], n).Failure? ==>
      ImmPrefix(st, prog, |prog|) == Failure(ConvertInstr(mid, prog[n], n).error)
    ensures ConvertInstr(mid, prog[n], n).Success? ==>
      && ImmPrefix(st, prog, n + 1) == Success((done + [ConvertInstr(mid, prog[n], n).value.0], ConvertInstr(mid, prog[n], n).value.1))
      && Valid(ConvertInstr(mid, prog[n], n).value.1)
  {
    if ConvertInstr(mid, prog[n], n).Failure? {
      ImmFailurePersists(st, prog, n + 1, |prog|);
    } else {
      ConvertInstrSpec(mid, prog[n], n);
    }
  }

  /** What the pass has achieved after the first `n` original instructions. */
  predicate PassDone(st: Regs, prog: seq<Instr>, n: nat, done: seq<Instr>, st': Regs)
    requires n <= |prog|
  {
    && Extends(st, st')
    && |done| == n
    && (forall i :: 0 <= i < n ==> Converted(prog[i], done[i], st'.regs))
  }

  lemma PassStep(st: Regs, prog: seq<Instr>, n: nat, done: seq<Instr>, mid: Regs)
    requires n < |prog| && PassDone(st, prog, n, done, mid)
    requires ConvertInstr(mid, prog[n], n).Success?
    ensures PassDone(st, prog, n + 1, done + [ConvertInstr(mid, prog[n], n).value.0], ConvertInstr(mid, prog[n], n).value.1)
  {
    ConvertInstrSpec(mid, prog[n], n);
    var (ins, st') := ConvertInstr(mid, prog[n], n).value;
    var all := done + [ins];
    forall i | 0 <= i < n + 1
      ensures Converted(prog[i], all[i], st'.regs)
    {
      if i < n {
        assert all[i] == done[i];
        ConvertedKept(prog[i], done[i], mid.regs, st'.regs);
      }
    }
    ExtendsTransitive(st, mid, st');
  }

  /** The whole pass, as `convert_immediate_operands` promises it: it fails
      only when the pool runs out; otherwise the new program is the added
      LDIs (each loading a nonzero immediate into a register) followed by the
      original instructions, each converted, so that every replacing register
      holds the immediate's value at the end of the pass. */
  lemma {:induction false} ImmPrefixSpec(st: Regs, prog: seq<Instr>, n: nat)
    requires Valid(st) && n <= |prog|
    ensures ImmPrefix(st, prog, n).Success? ==>
      PassDone(st, prog, n, ImmPrefix(st, prog, n).value.0, ImmPrefix(st, prog, n).value.1)
    ensures ImmPrefix(st, prog, n).Failure? ==> ImmPrefix(st, prog, n).error == RegisterExhaustion
  {
    if n == 0 {
      assert st.front[|st.front| - |st.front|..] == st.front;
    } else {
      ImmPrefixSpec(st, prog, n - 1);
      if ImmPrefix(st, prog, n - 1).Success? {
        var (done, mid) := ImmPrefix(st, prog, n - 1).value;
        ConvertInstrSpec(mid, prog[n - 1], n - 1);
        if ConvertInstr(mid, prog[n - 1], n - 1).Success? {
          PassStep(st, prog, n - 1, done, mid);
        }
      }
    }
  }

  /** After the pass no non-LDI instruction has an immediate operand. */
  lemma ImmPassLeavesNoImmediates(st: Regs, prog: seq<Instr>)
    requires Valid(st) && LoadsNonzero(st.front) && ImmPrefix(st, prog, |prog|).Success?
    ensures LoadsNonzero(ImmPrefix(st, prog, |prog|).value.1.front)
    ensures NoImmediates(ImmPrefix(st, prog, |prog|).value.1.front + ImmPrefix(st, prog, |prog|).value.0)
  {
    ImmPrefixSpec(st, prog, |prog|);
    var (done, st') := ImmPrefix(st, prog, |prog|).value;
    assert PassDone(st, prog, |prog|, done, st');
    var all := st'.front + done;
    forall i, k | 0 <= i < |all| && 0 <= k < |all[i].operands| && GetOpcode(all[i]) != OpLdi
      ensures !all[i].operands[k].Imm?
    {
      if i >= |st'.front| {
        assert Converted(prog[i - |st'.front|], all[i], st'.regs);
      }
    }
  }

  /** Once the pass has raised, it raises the same error whatever follows. */
  lemma {:induction false} ImmFailurePersists(st: Regs, prog: seq<Instr>, n: nat, m: nat)
    requires n <= m <= |prog| && ImmPrefix(st, prog, n).Failure?
    ensures ImmPrefix(st, prog, m) == Failure(ImmPrefix(st, prog, n).error)
  {
    if m > n {
      ImmFailurePersists(st, prog, n, m - 1);
    }
  }

  /** A register usable at one cycle is usable at every later one. */
  lemma AvailableLater(regs: Registers, v: int, cycle: int, cycle': int)
    requires Available(regs, v, cycle) && cycle <= cycle'
    ensures Available(regs, v, cycle')
  {
  }

  /** The operand loop of instruction `j` never takes away a register
      available for `v`. */
  lemma {:induction false} OpsKeepAvailable(st: Regs, ops: seq<Operand>, n: nat, j: nat, v: int)
    requires Valid(st) && n <= |ops| && Available(st.regs, v, |st.front| + j)
    requires OpsPrefix(st, ops, n, j).Success?
    ensures var st' := OpsPrefix(st, ops, n, j).value.1;
      Available(st'.regs, v, |st'.front| + j)
  {
    if n > 0 {
      var m := n - 1;
      assert OpsPrefix(st, ops, m, j).Success?;
      OpsKeepAvailable(st, ops, m, j, v);
      OpsPrefixSpec(st, ops, m, j);
      var (done, mid) := OpsPrefix(st, ops, m, j).value;
      assert OpsPrefix(st, ops, m + 1, j) == ConvertOperand(mid, ops[m], j, done);
      if ops[m].Imm? {
        assert ConvertOperand(mid, ops[m], j, done).value.1 == Materialize(mid, ops[m].v, j).value.1;
        MaterializeKeepsAvailable(mid, v, ops[m].v, j);
      }
    }
  }

  /** After the operand loop of instruction `j` has handled a nonzero
      immediate `v`, a register for `v` is available. */
  lemma {:induction false} OpsMakeAvailable(st: Regs, ops: seq<Operand>, n: nat, j: nat, k: nat, v: int)
    requires Valid(st) && k < n <= |ops| && ops[k] == Imm(v) && v != 0
    requires OpsPrefix(st, ops, n, j).Success?
    ensures var st' := OpsPrefix(st, ops, n, j).value.1;
      Available(st'.regs, v, |st'.front| + j)
  {
    var m := n - 1;
    assert OpsPrefix(st, ops, m, j).Success?;
    OpsPrefixSpec(st, ops, m, j);
    var (done, mid) := OpsPrefix(st, ops, m, j).value;
    assert OpsPrefix(st, ops, m + 1, j) == ConvertOperand(mid, ops[m], j, done);
    if k == m {
      assert ConvertOperand(mid, ops[m], j, done).value.1 == Materialize(mid, v, j).value.1;
      MaterializeMakesAvailable(mid, v, j);
    } else {
      OpsMakeAvailable(st, ops, m, j, k, v);
      if ops[m].Imm? {
        assert ConvertOperand(mid, ops[m], j, done).value.1 == Materialize(mid, ops[m].v, j).value.1;
        MaterializeKeepsAvailable(mid, v, ops[m].v, j);
      }
    }
  }

  /** Converting instruction `j` never takes away a register available for `v`. */
  lemma InstrKeepsAvailable(st: Regs, ins: Instr, j: nat, v: int)
    requires Valid(st) && Available(st.regs, v, |st.front| + j) && ConvertInstr(st, ins, j).Success?
    ensures var st' := ConvertInstr(st, ins, j).value.1;
      Available(st'.regs, v, |st'.front| + j)
  {
    if GetOpcode(ins) != OpLdi {
      OpsKeepAvailable(st, ins.operands, |ins.operands|, j, v);
    }
  }

  /** Once the pass has converted a non-LDI instruction carrying a nonzero
      immediate `v`, a register holding `v` stays available to every later
      instruction: at each later cycle the tracker can serve `v`. */
  lemma {:induction false} ImmReuse(st: Regs, prog: seq<Instr>, n: nat, i: nat, k: nat, v: int)
    requires Valid(st) && i < n <= |prog|
    requires GetOpcode(prog[i]) != OpLdi && k < |prog[i].operands| && prog[i].operands[k] == Imm(v) && v != 0
    requires ImmPrefix(st, prog, n).Success?
    ensures var st' := ImmPrefix(st, prog, n).value.1;
      Available(st'.regs, v, |st'.front| + n)
  {
    var m := n - 1;
    assert ImmPrefix(st, prog, m).Success?;
    ImmPrefixSpec(st, prog, m);
    var (done, mid) := ImmPrefix(st, prog, m).value;
    assert Valid(mid);
    var out := ConvertInstr(mid, prog[m], m);
    assert ImmPrefix(st, prog, m + 1) == Success((done + [out.value.0], out.value.1));
    var st' := out.value.1;
    if i == m {
      var ops := prog[m].operands;
      assert st' == OpsPrefix(mid, ops, |ops|, m).value.1;
      OpsMakeAvailable(mid, ops, |ops|, m, k, v);
    } else {
      ImmReuse(st, prog, m, i, k, v);
      InstrKeepsAvailable(mid, prog[m], m, v);
    }
    AvailableLater(st'.regs, v, |st'.front| + m, |st'.front| + m + 1);
  }

  /** A later repeat of a nonzero immediate reuses the register created for
      the first: wherever the operand loop of a later instruction `n` stands,
      handling `v` there takes no pool register and adds no LDI. */
  lemma RepeatReuses(st: Regs, prog: seq<Instr>, i: nat, k: nat, v: int, n: nat, m: nat)
    requires Valid(st) && NoSentinel(st) && i < n < |prog|
    requires GetOpcode(prog[i]) != OpLdi && k < |prog[i].operands| && prog[i].operands[k] == Imm(v) && v != 0
    requires ImmPrefix(st, prog, n).Success?
    requires m <= |prog[n].operands| && OpsPrefix(ImmPrefix(st, prog, n).value.1, prog[n].operands, m, n).Success?
    ensures var mid := OpsPrefix(ImmPrefix(st, prog, n).value.1, prog[n].operands, m, n).value.1;
      Materialize(mid, v, n).Success? && Materialize(mid, v, n).value.1 == mid
  {
    var st' := ImmPrefix(st, prog, n).value.1;
    ImmReuse(st, prog, n, i, k, v);
    ImmPrefixSpec(st, prog, n);
    assert Extends(st, st');
    OpsKeepAvailable(st', prog[n].operands, m, n, v);
    OpsPrefixSpec(st', prog[n].operands, m, n);
    var mid := OpsPrefix(st', prog[n].operands, m, n).value.1;
    assert Extends(st', mid);
    AvailableMeansReuse(mid, v, n);
  }
}
