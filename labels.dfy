/** The branch-label passes (assembler.py:313-376): labels are given the
    memory cell of the instruction they declare, each cell is loaded into a
    register, the declarations are dropped, and every use of a label is
    replaced by the register holding its cell. */
module Labels {
  import opened Wrappers
  import opened Dicts
  import opened Hex
  import opened Instructions
  import opened Tracker
  import opened Materialize

  /** `int_branch_labels`: label name -> instruction cycle, in insertion order. */
  type LabelMap = seq<Item<string, nat>>

  /** `calculate_branch_labels` over the first `n` instructions, adding to
      the labels already in `init`. */
  function CalculateFrom(init: LabelMap, prog: seq<Instr>, n: nat): LabelMap
    requires n <= |prog|
  {
    if n == 0 then init
    else
      var labels := CalculateFrom(init, prog, n - 1);
      if BeginsWithLabel(prog[n - 1]) then Put(labels, prog[n - 1].labelName.value, n - 1)
      else labels
  }

  /** The labels of a first run, which starts from the empty dict. */
  function CalculatePrefix(prog: seq<Instr>, n: nat): LabelMap
    requires n <= |prog|
  {
    CalculateFrom([], prog, n)
  }

  /** `labels` holds exactly the labels declared among the first `n`
      instructions, once each, each mapped to its last declaration. */
  ghost predicate DeclaredLabels(prog: seq<Instr>, n: nat, labels: LabelMap)
    requires n <= |prog|
  {
    && DistinctKeys(labels)
    && (forall k :: k in Keys(labels) <==> exists i :: 0 <= i < n && prog[i].labelName == Some(k))
    && forall k :: k in Keys(labels) ==>
      var c := Get(labels, k);
      c < n && prog[c].labelName == Some(k) && forall i :: c < i < n ==> prog[i].labelName != Some(k)
  }

  /** `calculate_branch_labels`: exactly the declared labels are keys, each
      mapped to the last instruction that declares it. */
  lemma {:induction false} CalculateSpec(prog: seq<Instr>, n: nat)
    requires n <= |prog|
    ensures DistinctKeys(CalculatePrefix(prog, n))
    ensures forall k :: k in Keys(CalculatePrefix(prog, n)) <==>
      exists i :: 0 <= i < n && prog[i].labelName == Some(k)
    ensures forall k :: k in Keys(CalculatePrefix(prog, n)) ==>
      var c := Get(CalculatePrefix(prog, n), k);
      c < n && prog[c].labelName == Some(k) && forall i :: c < i < n ==> prog[i].labelName != Some(k)
  {
    if n == 0 {
      assert DeclaredLabels(prog, 0, []);
    } else {
      var m := n - 1;
      CalculateSpec(prog, m);
      var labels := CalculatePrefix(prog, m);
      assert DeclaredLabels(prog, m, labels);
      if BeginsWithLabel(prog[m]) {
        assert CalculatePrefix(prog, m + 1) == Put(labels, prog[m].labelName.value, m);
        CalculateLabelled(prog, m, labels);
      } else {
        assert CalculatePrefix(prog, m + 1) == labels;
        CalculateUnlabelled(prog, m, labels);
      }
      assert DeclaredLabels(prog, m + 1, CalculatePrefix(prog, m + 1));
    }
  }

  /** An instruction without a label leaves the labels as they were. */
  lemma CalculateUnlabelled(prog: seq<Instr>, m: nat, labels: LabelMap)
    requires m < |prog| && !BeginsWithLabel(prog[m]) && DeclaredLabels(prog, m, labels)
    ensures DeclaredLabels(prog, m + 1, labels)
  {
  }

  /** A labelled instruction becomes the last declaration of its label. */
  lemma CalculateLabelled(prog: seq<Instr>, m: nat, labels: LabelMap)
    requires m < |prog| && BeginsWithLabel(prog[m]) && DeclaredLabels(prog, m, labels)
    ensures DeclaredLabels(prog, m + 1, Put(labels, prog[m].labelName.value, m))
  {
    var name := prog[m].labelName.value;
    DistinctKeysPut(labels, name, m);
    PutThenGet(labels, name, m);
    var labels' := Put(labels, name, m);
    forall k | k in Keys(labels')
      ensures exists i :: 0 <= i < m + 1 && prog[i].labelName == Some(k)
    {
      if k != name {
        PutKeys(labels, name, m, k);
      }
    }
    forall k | k != name && k in Keys(labels)
      ensures k in Keys(labels') && Get(labels', k) == Get(labels, k)
    {
      PutOther(labels, name, m, k);
    }
    forall k | exists i :: 0 <= i < m + 1 && prog[i].labelName == Some(k)
      ensures k in Keys(labels')
    {
      if k != name {
        var i :| 0 <= i < m + 1 && prog[i].labelName == Some(k);
        assert i < m;
      }
    }
  }

  /** A key `Put` did not write was already there. */
  lemma PutKeys<K, V>(d: seq<Item<K, V>>, k: K, v: V, other: K)
    requires other in Keys(Put(d, k, v)) && other != k
    ensures other in Keys(d)
  {
  }

  /** `increment_branch_labels`: every label moves `amount` cycles later. */
  function Shift(labels: LabelMap, amount: nat): (labels': LabelMap)
    ensures |labels'| == |labels|
    ensures forall i :: 0 <= i < |labels| ==>
      labels'[i] == Item(labels[i].key, labels[i].val + amount)
  {
    seq(|labels|, i requires 0 <= i < |labels| => Item(labels[i].key, labels[i].val + amount))
  }

  /** Shifting keeps the labels and adds `amount` to each cycle. */
  lemma ShiftGet(labels: LabelMap, amount: nat, k: string)
    requires k in Keys(labels)
    ensures Keys(Shift(labels, amount)) == Keys(labels)
    ensures Get(Shift(labels, amount), k) == Get<string, nat>(labels, k) + amount
  {
  }

  /** One label as both loops of `add_label_ldi_instructions` see it: its
      instruction cycle and that instruction's memory cell. */
  datatype Target = Target(cycle: nat, cell: nat)

  function Targets(labels: LabelMap): (ts: seq<Target>)
    ensures |ts| == |labels|
    ensures forall i :: 0 <= i < |labels| ==> ts[i] == Target(labels[i].val, CellValue(labels[i].val))
  {
    seq(|labels|, i requires 0 <= i < |labels| => Target(labels[i].val, CellValue(labels[i].val)))
  }

  /** The register `find_existing_immediate_register` picks for a label's
      cell, asked at the label's own cycle. */
  function TargetRegister(regs: Registers, t: Target): int
  {
    Find(regs, t.cell, t.cycle)
  }

  /** The first loop of `add_label_ldi_instructions`: how many of the first
      `n` labels have no register holding their cell at their own cycle. */
  function MissCount(regs: Registers, ts: seq<Target>, n: nat): (count: nat)
    requires n <= |ts|
    ensures count <= n
  {
    if n == 0 then 0
    else MissCount(regs, ts, n - 1) + (if TargetRegister(regs, ts[n - 1]) == -1 then 1 else 0)
  }

  /** One turn of the second loop: a label whose cell no register holds
      gets a new LDI. */
  function LabelLdi(st: Regs, t: Target): Result<Regs, Error>
  {
    if TargetRegister(st.regs, t) == -1 then
      var (_, st') :- CreateNewLdi(st, t.cell);
      Success(st')
    else Success(st)
  }

  /** The second loop over the first `n` (already shifted) labels. */
  function LabelLdiPrefix(st: Regs, ts: seq<Target>, n: nat): Result<Regs, Error>
    requires n <= |ts|
  {
    if n == 0 then Success(st)
    else
      var mid :- LabelLdiPrefix(st, ts, n - 1);
      LabelLdi(mid, ts[n - 1])
  }

  /** One more turn of the second loop; once it has raised, it raises the
      same error whatever follows. */
  lemma LabelLdiNext(st: Regs, ts: seq<Target>, n: nat, mid: Regs)
    requires n < |ts| && LabelLdiPrefix(st, ts, n) == Success(mid)
    ensures LabelLdiPrefix(st, ts, n + 1) == LabelLdi(mid, ts[n])
    ensures LabelLdi(mid, ts[n]).Failure? ==> LabelLdiPrefix(st, ts, |ts|) == LabelLdi(mid, ts[n])
  {
    if LabelLdi(mid, ts[n]).Failure? {
      LabelLdiFailurePersists(st, ts, n + 1, |ts|);
    }
  }

  /** `add_label_ldi_instructions`: shift the labels by the count of the
      first loop, then create the missing LDIs. */
  function AddLabelLdis(st: Regs, labels: LabelMap): Result<(Regs, LabelMap), Error>
  {
    var labels' := Shift(labels, MissCount(st.regs, Targets(labels), |labels|));
    var st' :- LabelLdiPrefix(st, Targets(labels'), |labels'|);
    Success((st', labels'))
  }

  /** Some tracked register holds `v` (whenever it was written). */
  predicate TracksValue(regs: Registers, v: int)
  {
    exists k :: k in Keys(regs) && Get(regs, k).value == v
  }

  /** The LDIs in front of `front[m..]`, that is `front[..m]`, each load the
      cell of one of the labels into a register. */
  predicate LoadsLabelCells(front: seq<Instr>, m: nat, ts: seq<Target>)
    requires m <= |front|
  {
    forall i :: 0 <= i < m ==>
      |front[i].operands| == 2 && front[i].mnemonic == "LDI" && front[i].operands[0].Reg? &&
      exists j :: 0 <= j < |ts| && front[i].operands[1] == Imm(ts[j].cell)
  }

  /** What the second loop has achieved after `n` labels. */
  predicate LabelLdisDone(st: Regs, ts: seq<Target>, n: nat, st': Regs)
    requires n <= |ts|
  {
    && Extends(st, st')
    && (forall i :: 0 <= i < n ==> TracksValue(st'.regs, ts[i].cell))
    && |st'.front| - |st.front| <= n
    && |st'.pool| == |st.pool| - (|st'.front| - |st.front|)
    && LoadsLabelCells(st'.front, |st'.front| - |st.front|, ts)
  }

  /** The first `added` LDIs of `front` load the registers taken from the
      end of `pool`, the newest LDI the earliest register taken; what is
      left of the pool is its beginning. */
  predicate TakesFromPool(front: seq<Instr>, added: nat, pool: seq<int>, pool': seq<int>)
    requires added <= |front|
  {
    && |pool'| + added == |pool|
    && pool' == pool[..|pool'|]
    && forall i :: 0 <= i < added ==> |front[i].operands| > 0 && front[i].operands[0] == Reg(pool[|pool'| + i])
  }

  /** The registers the new LDIs load are distinct, and none is left in the pool. */
  lemma TakenRegistersDistinct(front: seq<Instr>, added: nat, pool: seq<int>, pool': seq<int>)
    requires added <= |front| && Distinct(pool) && TakesFromPool(front, added, pool, pool')
    ensures forall i, j :: 0 <= i < j < added ==> front[i].operands[0] != front[j].operands[0]
    ensures forall i :: 0 <= i < added ==> front[i].operands[0].n !in pool'
  {
  }

  /** Creating an LDI takes the last register left in the pool. */
  lemma CreatedTakes(st: Regs, m: nat, mid: Regs, cell: int)
    requires m <= |mid.front| && TakesFromPool(mid.front, m, st.pool, mid.pool) && cell != 0
    requires CreateNewLdi(mid, cell).Success?
    ensures var st' := CreateNewLdi(mid, cell).value.1;
      m + 1 <= |st'.front| && TakesFromPool(st'.front, m + 1, st.pool, st'.pool)
  {
  }

  /** One turn either finds the cell tracked or takes one pool register for
      an LDI of the cell; either way the cell ends up tracked. */
  lemma LabelLdiStep(st: Regs, ts: seq<Target>, n: nat, mid: Regs)
    requires n < |ts| && LabelLdisDone(st, ts, n, mid) && ts[n].cell != 0
    ensures LabelLdi(mid, ts[n]).Failure? ==> LabelLdi(mid, ts[n]).error == RegisterExhaustion
    ensures LabelLdi(mid, ts[n]).Success? ==> LabelLdisDone(st, ts, n + 1, LabelLdi(mid, ts[n]).value)
  {
    var t := ts[n];
    if TargetRegister(mid.regs, t) == -1 {
      CreateNewLdiSpec(mid, t.cell);
      if CreateNewLdi(mid, t.cell).Success? {
        LabelLdiCreates(st, ts, n, mid);
      }
    } else {
      var j :| 0 <= j < |mid.regs| && mid.regs[j].key == TargetRegister(mid.regs, t) && Holds(mid.regs[j], t.cell, t.cycle);
      GetAt(mid.regs, j);
      assert TracksValue(mid.regs, t.cell);
    }
  }

  /** The turn that creates an LDI for the label's cell. */
  lemma LabelLdiCreates(st: Regs, ts: seq<Target>, n: nat, mid: Regs)
    requires n < |ts| && LabelLdisDone(st, ts, n, mid) && ts[n].cell != 0
    requires CreateNewLdi(mid, ts[n].cell).Success?
    ensures LabelLdisDone(st, ts, n + 1, CreateNewLdi(mid, ts[n].cell).value.1)
  {
    var cell := ts[n].cell;
    CreateNewLdiSpec(mid, cell);
    var (r, st') := CreateNewLdi(mid, cell).value;
    CreateNewLdiExtends(mid, cell);
    ExtendsTransitive(st, mid, st');
    CreatedTracks(ts, n, mid);
    CreatedLoads(ts, |mid.front| - |st.front|, n, mid);
  }

  lemma CreatedTracks(ts: seq<Target>, n: nat, mid: Regs)
    requires n < |ts| && Valid(mid)
    requires forall i :: 0 <= i < n ==> TracksValue(mid.regs, ts[i].cell)
    requires CreateNewLdi(mid, ts[n].cell).Success?
    ensures forall i :: 0 <= i < n + 1 ==> TracksValue(CreateNewLdi(mid, ts[n].cell).value.1.regs, ts[i].cell)
  {
    var cell := ts[n].cell;
    CreateNewLdiSpec(mid, cell);
    CreateNewLdiExtends(mid, cell);
    var st' := CreateNewLdi(mid, cell).value.1;
    forall i | 0 <= i < n + 1
      ensures TracksValue(st'.regs, ts[i].cell)
    {
      if i < n {
        assert TracksValue(mid.regs, ts[i].cell);
        var k :| k in Keys(mid.regs) && Get(mid.regs, k).value == ts[i].cell;
        assert k in Keys(st'.regs) && Get(st'.regs, k).value == ts[i].cell;
      }
    }
  }

  lemma CreatedLoads(ts: seq<Target>, m: nat, n: nat, mid: Regs)
    requires n < |ts| && Valid(mid) && m <= |mid.front| && ts[n].cell != 0
    requires LoadsLabelCells(mid.front, m, ts)
    requires CreateNewLdi(mid, ts[n].cell).Success?
    ensures LoadsLabelCells(CreateNewLdi(mid, ts[n].cell).value.1.front, m + 1, ts)
  {
  }

  /** What the second loop promises, for labels whose cells are nonzero (as
      every memory cell is): it fails only when the pool runs out; otherwise
      every label's cell is held by some tracked register, and the pool
      shrank by exactly the number of new LDIs, each of a label's cell and
      placed in front (LabelLdiTakes says which registers they load). */
  lemma {:induction false} LabelLdiSpec(st: Regs, ts: seq<Target>, n: nat)
    requires Valid(st) && n <= |ts|
    requires forall i :: 0 <= i < |ts| ==> ts[i].cell != 0
    ensures LabelLdiPrefix(st, ts, n).Failure? ==> LabelLdiPrefix(st, ts, n).error == RegisterExhaustion
    ensures LabelLdiPrefix(st, ts, n).Success? ==> LabelLdisDone(st, ts, n, LabelLdiPrefix(st, ts, n).value)
  {
    if n == 0 {
      assert LabelLdiPrefix(st, ts, 0) == Success(st);
      LabelLdisStart(st, ts);
    } else {
      LabelLdiSpec(st, ts, n - 1);
      LabelLdiSpecNext(st, ts, n - 1);
    }
  }

  lemma LabelLdiSpecNext(st: Regs, ts: seq<Target>, m: nat)
    requires m < |ts| && ts[m].cell != 0
    requires LabelLdiPrefix(st, ts, m).Failure? ==> LabelLdiPrefix(st, ts, m).error == RegisterExhaustion
    requires LabelLdiPrefix(st, ts, m).Success? ==> LabelLdisDone(st, ts, m, LabelLdiPrefix(st, ts, m).value)
    ensures LabelLdiPrefix(st, ts, m + 1).Failure? ==> LabelLdiPrefix(st, ts, m + 1).error == RegisterExhaustion
    ensures LabelLdiPrefix(st, ts, m + 1).Success? ==> LabelLdisDone(st, ts, m + 1, LabelLdiPrefix(st, ts, m + 1).value)
  {
    var prev := LabelLdiPrefix(st, ts, m);
    if prev.Success? {
      assert LabelLdiPrefix(st, ts, m + 1) == LabelLdi(prev.value, ts[m]);
      LabelLdiStep(st, ts, m, prev.value);
    } else {
      assert LabelLdiPrefix(st, ts, m + 1) == Failure(prev.error);
    }
  }

  /** Each LDI the loop adds loads a register taken from the pool. */
  lemma {:induction false} LabelLdiTakes(st: Regs, ts: seq<Target>, n: nat)
    requires n <= |ts|
    requires forall i :: 0 <= i < |ts| ==> ts[i].cell != 0
    ensures LabelLdiPrefix(st, ts, n).Success? ==> TakenSoFar(st, LabelLdiPrefix(st, ts, n).value)
  {
    if n == 0 {
      assert st.pool[..|st.pool|] == st.pool;
    } else {
      var m := n - 1;
      LabelLdiTakes(st, ts, m);
      var prev := LabelLdiPrefix(st, ts, m);
      if prev.Success? {
        assert LabelLdiPrefix(st, ts, m + 1) == LabelLdi(prev.value, ts[m]);
        TakesStep(st, prev.value, ts[m]);
      }
    }
  }

  ghost predicate TakenSoFar(st: Regs, st': Regs)
  {
    |st.front| <= |st'.front| && TakesFromPool(st'.front, |st'.front| - |st.front|, st.pool, st'.pool)
  }

  lemma TakesStep(st: Regs, mid: Regs, t: Target)
    requires TakenSoFar(st, mid) && t.cell != 0
    ensures LabelLdi(mid, t).Success? ==> TakenSoFar(st, LabelLdi(mid, t).value)
  {
  }

  /** Before the second loop nothing is added. */
  lemma LabelLdisStart(st: Regs, ts: seq<Target>)
    requires Valid(st)
    ensures LabelLdisDone(st, ts, 0, st)
  {
  }

  /** Once the second loop has raised, it raises the same error whatever follows. */
  lemma {:induction false} LabelLdiFailurePersists(st: Regs, ts: seq<Target>, n: nat, m: nat)
    requires n <= m <= |ts| && LabelLdiPrefix(st, ts, n).Failure?
    ensures LabelLdiPrefix(st, ts, m) == Failure(LabelLdiPrefix(st, ts, n).error)
    decreases m - n
  {
    if m > n {
      assert LabelLdiPrefix(st, ts, n + 1) == Failure(LabelLdiPrefix(st, ts, n).error);
      LabelLdiFailurePersists(st, ts, n + 1, m);
    }
  }

  /** Every memory cell is nonzero, so each missing one costs an LDI. */
  lemma TargetsNonzero(labels: LabelMap)
    ensures forall i :: 0 <= i < |labels| ==> Targets(labels)[i].cell != 0
  {
  }

  /** What `add_label_ldi_instructions` promises: the labels are moved
      later by the first loop's count of missing cells, and the second loop
      then behaves as `LabelLdiSpec` states. */
  lemma AddLabelLdisSpec(st: Regs, labels: LabelMap)
    requires Valid(st)
    ensures AddLabelLdis(st, labels).Failure? ==> AddLabelLdis(st, labels).error == RegisterExhaustion
    ensures AddLabelLdis(st, labels).Success? ==>
      var (st', labels') := AddLabelLdis(st, labels).value;
      && Keys(labels') == Keys(labels)
      && (forall k :: k in Keys(labels) ==>
            Get(labels', k) == Get<string, nat>(labels, k) + MissCount(st.regs, Targets(labels), |labels|))
      && Extends(st, st')
      && (forall k :: k in Keys(labels') ==> TracksValue(st'.regs, CellValue(Get(labels', k))))
      && TakesFromPool(st'.front, |st'.front| - |st.front|, st.pool, st'.pool)
      && LoadsLabelCells(st'.front, |st'.front| - |st.front|, Targets(labels'))
  {
    var amount := MissCount(st.regs, Targets(labels), |labels|);
    var labels' := Shift(labels, amount);
    var ts := Targets(labels');
    assert Keys(labels') == Keys(labels);
    forall k | k in Keys(labels)
      ensures Get(labels', k) == Get<string, nat>(labels, k) + amount
    {
      ShiftGet(labels, amount, k);
    }
    TargetsNonzero(labels');
    LabelLdiSpec(st, ts, |ts|);
    if LabelLdiPrefix(st, ts, |ts|).Success? {
      var st' := LabelLdiPrefix(st, ts, |ts|).value;
      assert LabelLdisDone(st, ts, |ts|, st');
      LabelLdiTakes(st, ts, |ts|);
      assert TakenSoFar(st, st');
      forall k | k in Keys(labels')
        ensures TracksValue(st'.regs, CellValue(Get(labels', k)))
      {
        var i := IndexOfKey(labels', k);
        assert Get(labels', k) == labels'[i].val;
        assert TracksValue(st'.regs, ts[i].cell);
      }
    }
  }

  /** Every label points at the instruction that declares it. */
  predicate LabelsTargetDeclarations(prog: seq<Instr>, labels: LabelMap)
  {
    forall k :: k in Keys(labels) ==> Get(labels, k) < |prog| && prog[Get(labels, k)].labelName == Some(k)
  }

  /** The shift is right exactly when the first loop's count equals the
      number of LDIs the second loop placed in front: then each label still
      names the instruction that declares it. */
  lemma CalculateTargetsDeclarations(prog: seq<Instr>)
    ensures LabelsTargetDeclarations(prog, CalculatePrefix(prog, |prog|))
  {
    CalculateSpec(prog, |prog|);
  }

  lemma ShiftTargetsDeclarations(prog: seq<Instr>, added: seq<Instr>)
    ensures LabelsTargetDeclarations(added + prog, Shift(CalculatePrefix(prog, |prog|), |added|))
  {
    var labels := CalculatePrefix(prog, |prog|);
    CalculateTargetsDeclarations(prog);
    var shifted := Shift(labels, |added|);
    forall k | k in Keys(shifted)
      ensures Get<string, nat>(shifted, k) < |added + prog| && (added + prog)[Get(shifted, k)].labelName == Some(k)
    {
      assert Keys(shifted) == Keys(labels);
      ShiftGet(labels, |added|, k);
      var c := Get(labels, k);
      var c' := Get(shifted, k);
      assert (added + prog)[c'] == prog[c];
    }
  }

  /** `remove_label_declarations`: every instruction loses its label. */
  function StripLabels(prog: seq<Instr>): (prog': seq<Instr>)
    ensures |prog'| == |prog|
    ensures forall i :: 0 <= i < |prog| ==>
      !BeginsWithLabel(prog'[i]) && prog'[i].mnemonic == prog[i].mnemonic && prog'[i].operands == prog[i].operands
  {
    seq(|prog|, i requires 0 <= i < |prog| => Instr(None, prog[i].mnemonic, prog[i].operands))
  }

  /** One operand of `convert_branch_labels` at instruction `cycle`: a label
      use becomes the register holding the label's cell. */
  function ResolveOperand(op: Operand, labels: LabelMap, regs: Registers, cycle: nat): Operand
  {
    if op.Name? && op.s in Keys(labels) then Reg(Find(regs, CellValue(Get(labels, op.s)), cycle))
    else op
  }

  /** `convert_branch_labels`. */
  function ResolveLabels(prog: seq<Instr>, labels: LabelMap, regs: Registers): (prog': seq<Instr>)
    ensures |prog'| == |prog|
  {
    seq(|prog|, i requires 0 <= i < |prog| =>
      Instr(prog[i].labelName, prog[i].mnemonic,
        seq(|prog[i].operands|, k requires 0 <= k < |prog[i].operands| =>
          ResolveOperand(prog[i].operands[k], labels, regs, i))))
  }

  /** What `convert_branch_labels` does to one operand of the instruction
      at `cycle`: a label use becomes either the register the tracker names
      for the label's cell, written before that instruction and holding the
      cell, or R-1 when there is none; any other operand is untouched. */
  lemma ResolveOperandSpec(op: Operand, labels: LabelMap, regs: Registers, cycle: nat)
    requires DistinctKeys(regs)
    ensures var op' := ResolveOperand(op, labels, regs, cycle);
      && (op.Name? && op.s in Keys(labels) ==>
            op'.Reg? &&
            (op'.n == -1 ||
             (op'.n in Keys(regs) && Get(regs, op'.n).value == CellValue(Get(labels, op.s))
              && Get(regs, op'.n).cycleLastWritten < cycle)))
      && (!(op.Name? && op.s in Keys(labels)) ==> op' == op)
  {
  }

  /** No operand names a label of `labels`. */
  predicate NoLabelUses(prog: seq<Instr>, labels: LabelMap)
  {
    forall i, k :: 0 <= i < |prog| && 0 <= k < |prog[i].operands| ==>
      !(prog[i].operands[k].Name? && prog[i].operands[k].s in Keys(labels))
  }

  lemma ResolveLeavesNoLabelUses(prog: seq<Instr>, labels: LabelMap, regs: Registers)
    requires DistinctKeys(regs)
    ensures NoLabelUses(ResolveLabels(prog, labels, regs), labels)
  {
  }
}
