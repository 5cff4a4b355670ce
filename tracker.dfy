/** The register tracker (`immediate_registers`, assembler.py:33-51 and
    191-214) and the pool of unused registers (assembler.py:28-31).

    Each RegisterInfo object belongs to exactly one key of the dict and is
    never shared, so it is modelled as a value inside the dict's items. */
module Tracker {
  import opened Wrappers
  import opened Dicts
  import opened Instructions

  datatype RegisterInfo = RegisterInfo(value: int, cycleLastWritten: int)

  /** `immediate_registers`: register number -> RegisterInfo, in key order. */
  type Registers = seq<Item<int, RegisterInfo>>

  predicate Distinct(s: seq<int>)
  {
    forall i, j :: 0 <= i < j < |s| ==> s[i] != s[j]
  }

  /** The invariant the tracker and the pool keep between them: no key
      twice, no pool register twice, and no pool register tracked. */
  predicate TrackerValid(regs: Registers, pool: seq<int>)
  {
    DistinctKeys(regs) && Distinct(pool) && forall r :: r in pool ==> r !in Keys(regs)
  }

  /** `increment_last_writtens`: every tracked cycle moves one later. */
  function Bump(regs: Registers): (regs': Registers)
    ensures |regs'| == |regs|
    ensures forall i :: 0 <= i < |regs| ==>
      regs'[i] == Item(regs[i].key, RegisterInfo(regs[i].val.value, regs[i].val.cycleLastWritten + 1))
  {
    seq(|regs|, i requires 0 <= i < |regs| =>
      Item(regs[i].key, RegisterInfo(regs[i].val.value, regs[i].val.cycleLastWritten + 1)))
  }

  /** Bumping keeps every key, in order, and every tracked value. */
  lemma BumpKeepsValues(regs: Registers, k: int)
    requires k in Keys(regs)
    ensures Keys(Bump(regs)) == Keys(regs)
    ensures Get(Bump(regs), k) == RegisterInfo(Get(regs, k).value, Get(regs, k).cycleLastWritten + 1)
  {
  }

  /** A register usable for immediate `v` at `cycle`: it holds `v` and was
      last written strictly before `cycle`. */
  predicate Holds(item: Item<int, RegisterInfo>, v: int, cycle: int)
  {
    item.val.value == v && item.val.cycleLastWritten < cycle
  }

  /** The first item, in key order, usable for `v` at `cycle`. */
  function FindIndex(regs: Registers, v: int, cycle: int): (k: Option<nat>)
    ensures k.None? <==> forall i :: 0 <= i < |regs| ==> !Holds(regs[i], v, cycle)
    ensures k.Some? ==> k.value < |regs| && Holds(regs[k.value], v, cycle)
    ensures k.Some? ==> forall i :: 0 <= i < k.value ==> !Holds(regs[i], v, cycle)
  {
    if regs == [] then None
    else if Holds(regs[0], v, cycle) then Some(0)
    else
      match FindIndex(regs[1..], v, cycle)
      case None => None
      case Some(k) => Some(k + 1)
  }

  /** `find_existing_immediate_register`: the first tracked register, in key
      order, that holds `v` and was written before `cycle`; -1 when there is
      none. (A tracked register numbered -1 would be indistinguishable from
      "none", hence the guard on the first clause.) */
  function Find(regs: Registers, v: int, cycle: int): (r: int)
    ensures (forall i :: 0 <= i < |regs| ==> regs[i].key != -1) ==>
      (r == -1 <==> forall i :: 0 <= i < |regs| ==> !Holds(regs[i], v, cycle))
    ensures r != -1 ==> exists i :: (0 <= i < |regs| && regs[i].key == r && Holds(regs[i], v, cycle)
      && forall j :: 0 <= j < i ==> !Holds(regs[j], v, cycle))
  {
    match FindIndex(regs, v, cycle)
    case None => -1
    case Some(k) => regs[k].key
  }

  /** `list.remove(r)` guarded by `r in list`: drops the first occurrence. */
  function RemoveValue(pool: seq<int>, r: int): (pool': seq<int>)
    ensures r !in pool ==> pool' == pool
    ensures forall x :: x in pool' ==> x in pool
    ensures forall x :: x != r && x in pool ==> x in pool'
    ensures r in pool ==> |pool'| == |pool| - 1
    ensures Distinct(pool) ==> Distinct(pool') && r !in pool'
  {
    if pool == [] then []
    else if pool[0] == r then pool[1..]
    else
      assert Distinct(pool) ==> pool[0] !in pool[1..] && Distinct(pool[1..]);
      [pool[0]] + RemoveValue(pool[1..], r)
  }

  /** The pool as the module initialises it: registers 1..14 in order. */
  function InitialPool(): (pool: seq<int>)
    ensures |pool| == NumberOfRegisters - 1
    ensures forall i :: 0 <= i < |pool| ==> pool[i] == i + 1
  {
    seq(NumberOfRegisters - 1, i => i + 1)
  }

  /** The initial pool never hands out register 0 and holds no register twice. */
  lemma InitialPoolValid()
    ensures TrackerValid([], InitialPool())
    ensures 0 !in InitialPool()
  {
  }
}
