/** The instruction model of the assembler (assembler.py:4-125): opcodes,
    operands, and the small queries every pass asks of an instruction. */
module Instructions {
  import opened Wrappers

  /** Registers are numbered 0..NumberOfRegisters-1; 0 is never allocated. */
  const NumberOfRegisters: nat := 15

  /** The fixed opcode table (assembler.py:5-20). */
  const Opcodes: map<string, int> := map[
    "ADD" := 1, "SUB" := 2, "AND" := 3, "OR" := 4,
    "LS" := 5, "RS" := 6,
    "LD" := 7, "LDI" := 8, "STR" := 9,
    "BRE" := 10, "BRLT" := 11]

  const OpAdd: int := 1
  const OpLdi: int := 8

  /** An operand as the loader splits it: `R<n>`, `#<n>`, or any other word
      (a branch label name). */
  datatype Operand = Reg(n: int) | Imm(v: int) | Name(s: string)

  /** One line of the program: an optional `label:`, a mnemonic and operands. */
  datatype Instr = Instr(labelName: Option<string>, mnemonic: string, operands: seq<Operand>)

  /** The exceptions the assembler raises. */
  datatype Error =
    | InvalidOperand(cycle: nat)   // an immediate used as a write-back register
    | MalformedOperand             // operand text that is not R<int> or #<int>
    | MissingOperand               // an operand index past the end of the list
    | RegisterExhaustion           // no unused register left for a new LDI
    | OperandOutOfRange            // a non-LDI operand value above 15

  /** `LDI R<reg>, #<value>` as `create_new_ldi` builds it. */
  function Ldi(reg: int, value: int): Instr
  {
    Instr(None, "LDI", [Reg(reg), Imm(value)])
  }

  predicate BeginsWithLabel(ins: Instr)
  {
    ins.labelName.Some?
  }

  /** `get_opcode`: the table entry, or -1 for an unknown mnemonic. */
  function GetOpcode(ins: Instr): (op: int)
    ensures op == -1 <==> ins.mnemonic !in Opcodes
    ensures op == -1 || 1 <= op <= 11
    ensures op == OpLdi <==> ins.mnemonic == "LDI"
  {
    if ins.mnemonic in Opcodes then Opcodes[ins.mnemonic] else -1
  }

  /** `is_branch_instruction`: the mnemonic starts with "BR". */
  predicate IsBranch(ins: Instr)
  {
    |ins.mnemonic| >= 2 && ins.mnemonic[..2] == "BR"
  }

  /** A write-back instruction (ADD..LDI) names its destination first. */
  predicate IsWriteBack(ins: Instr)
  {
    OpAdd <= GetOpcode(ins) <= OpLdi
  }

  /** `get_operand_value`: the integer after the `R` or `#`. */
  function GetOperandValue(op: Operand): (r: Result<int, Error>)
    ensures r.Success? <==> !op.Name?
    ensures r.Failure? ==> r.error == MalformedOperand
  {
    match op
    case Reg(n) => Success(n)
    case Imm(v) => Success(v)
    case Name(_) => Failure(MalformedOperand)
  }

  /** The first word of the line as the loader split it. */
  function FirstToken(ins: Instr): string
  {
    if ins.labelName.Some? then ins.labelName.value + ":" else ins.mnemonic
  }

  /** `remove_comments` drops lines whose first word starts with "//". */
  predicate IsComment(ins: Instr)
  {
    |FirstToken(ins)| >= 2 && FirstToken(ins)[..2] == "//"
  }

  predicate IsBranchOrLabel(ins: Instr)
  {
    BeginsWithLabel(ins) || IsBranch(ins)
  }

  /** `get_cycle_of_first_branch_or_label`: the first labelled or branch
      instruction's cycle, or -1 when there is none. */
  function FirstBranchOrLabel(prog: seq<Instr>): (c: int)
    ensures -1 <= c < |prog|
    ensures c == -1 <==> forall i :: 0 <= i < |prog| ==> !IsBranchOrLabel(prog[i])
    ensures c >= 0 ==> IsBranchOrLabel(prog[c]) && forall i :: 0 <= i < c ==> !IsBranchOrLabel(prog[i])
  {
    FirstBranchOrLabelFrom(prog, 0)
  }

  function FirstBranchOrLabelFrom(prog: seq<Instr>, from: nat): (c: int)
    requires from <= |prog|
    requires forall i :: 0 <= i < from ==> !IsBranchOrLabel(prog[i])
    ensures -1 <= c < |prog|
    ensures c == -1 <==> forall i :: 0 <= i < |prog| ==> !IsBranchOrLabel(prog[i])
    ensures c >= 0 ==> IsBranchOrLabel(prog[c]) && forall i :: 0 <= i < c ==> !IsBranchOrLabel(prog[i])
    decreases |prog| - from
  {
    if from == |prog| then -1
    else if IsBranchOrLabel(prog[from]) then from
    else FirstBranchOrLabelFrom(prog, from + 1)
  }
}
