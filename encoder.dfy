/** The encoder (assembler.py:400-447): once the syntax is converted, each
    instruction's list becomes machine-code numbers in place. The opcode
    string becomes its number, each operand its integer (an LDI's value
    split over two 4-bit fields), and every row is padded with zeros to
    four entries. */
module Encoder {
  import opened Wrappers
  import opened Hex
  import opened Instructions

  /** One entry of an instruction's list: a number the encoder has written,
      an operand, or other text (a `label:` declaration or a mnemonic). */
  datatype Cell = Num(n: int) | Op(o: Operand) | Word(s: string)

  type Row = seq<Cell>

  /** The list the loader builds for an instruction: `[label:] mnemonic
      operand...`. */
  function RowOf(ins: Instr): (row: Row)
    ensures |row| == (if ins.labelName.Some? then 2 else 1) + |ins.operands|
    ensures forall k :: 0 <= k < |ins.operands| ==> row[|row| - |ins.operands| + k] == Op(ins.operands[k])
  {
    (if ins.labelName.Some? then [Word(ins.labelName.value + ":")] else [])
    + [Word(ins.mnemonic)]
    + seq(|ins.operands|, k requires 0 <= k < |ins.operands| => Op(ins.operands[k]))
  }

  /** The text of a cell that is text: a word or a label-name operand. */
  function CellText(c: Cell): Option<string>
  {
    match c
    case Word(s) => Some(s)
    case Op(Name(s)) => Some(s)
    case _ => None
  }

  /** `begins_with_label` on a row: the first entry's text ends in ':'
      (a number, `R<n>` or `#<n>` never does). */
  predicate RowBeginsWithLabel(row: Row)
  {
    |row| > 0 && CellText(row[0]).Some? && |CellText(row[0]).value| > 0
    && CellText(row[0]).value[|CellText(row[0]).value| - 1] == ':'
  }

  /** `get_opcode` on a row: the table entry of the mnemonic's text, -1 for
      anything else; the mnemonic is missing when a labelled row has
      nothing after its label, or the row is empty. */
  function RowOpcode(row: Row): Result<int, Error>
  {
    if |row| == 0 then Failure(MissingOperand)
    else if RowBeginsWithLabel(row) && |row| < 2 then Failure(MissingOperand)
    else
      var text := CellText(if RowBeginsWithLabel(row) then row[1] else row[0]);
      Success(if text.Some? && text.value in Opcodes then Opcodes[text.value] else -1)
  }

  /** `convert_opcodes` on one row: the first entry becomes the opcode. */
  function OpcodeRow(row: Row): Result<Row, Error>
  {
    var op :- RowOpcode(row);
    Success(row[0 := Num(op)])
  }

  /** `get_operand_value` on an entry: only operands carry an integer. */
  function CellValue(c: Cell): Result<int, Error>
  {
    match c
    case Op(o) => GetOperandValue(o)
    case _ => Failure(MalformedOperand)
  }

  /** The LDI opcode as `convert_opcodes` leaves it in the first entry. */
  predicate IsLdiRow(row: Row)
  {
    |row| > 0 && row[0] == Num(OpLdi)
  }

  /** One turn of `convert_operands`' inner loop, at entry `idx`: a value
      up to 15 replaces the operand (an LDI's value at index 2 becomes
      `0, v`); a larger one is split over two hexadecimal digits in an LDI
      and raises anywhere else. */
  function EncodeCell(row: Row, idx: nat): (r: Result<Row, Error>)
    requires 1 <= idx < |row|
    ensures r.Success? ==> |r.value| >= |row| && r.value[0] == row[0]
  {
    var v :- CellValue(row[idx]);
    if v <= 15 then
      if IsLdiRow(row) && idx == 2 then Success(row[idx := Num(0)] + [Num(v)])
      else Success(row[idx := Num(v)])
    else if IsLdiRow(row) then Success(row[idx := Num(FirstHexDigit(v))] + [Num(SecondHexDigit(v))])
    else Failure(OperandOutOfRange)
  }

  /** The inner loop over the entries `start..k-1` of the row as it was
      when the loop began (entries it appends are not visited). */
  function OperandsPrefix(row: Row, start: nat, k: nat): (r: Result<Row, Error>)
    requires 1 <= start && k <= |row|
    ensures r.Success? ==> |r.value| >= |row| && (|row| > 0 ==> r.value[0] == row[0])
  {
    if k <= start then Success(row)
    else
      var cur :- OperandsPrefix(row, start, k - 1);
      EncodeCell(cur, k - 1)
  }

  /** Where `convert_operands` starts in a row. */
  function OperandsStart(row: Row): nat
  {
    if RowBeginsWithLabel(row) then 2 else 1
  }

  /** `convert_operands` on one row; an empty row has no first entry to
      test for a label. */
  function EncodeOperands(row: Row): Result<Row, Error>
  {
    if |row| == 0 then Failure(MissingOperand)
    else OperandsPrefix(row, OperandsStart(row), |row|)
  }

  /** `pad_to_equal_width` on one row. */
  function Pad(row: Row): Row
  {
    if |row| < 4 then row + seq(4 - |row|, _ => Num(0)) else row
  }

  /** The same row-wise pass over the first `n` rows; the first failing row
      stops it. */
  function MapRows(f: Row -> Result<Row, Error>, rows: seq<Row>, n: nat): Result<seq<Row>, Error>
    requires n <= |rows|
  {
    if n == 0 then Success([])
    else
      var done :- MapRows(f, rows, n - 1);
      var row :- f(rows[n - 1]);
      Success(done + [row])
  }

  /** A row-wise pass succeeds exactly when every row does, and then
      rewrites each row on its own. */
  lemma {:induction false} MapRowsSpec(f: Row -> Result<Row, Error>, rows: seq<Row>, n: nat)
    requires n <= |rows|
    ensures MapRows(f, rows, n).Success? <==> forall i :: 0 <= i < n ==> f(rows[i]).Success?
    ensures MapRows(f, rows, n).Success? ==>
      |MapRows(f, rows, n).value| == n
      && forall i :: 0 <= i < n ==> MapRows(f, rows, n).value[i] == f(rows[i]).value
  {
    if n > 0 {
      MapRowsSpec(f, rows, n - 1);
    }
  }

  /** Once a row has raised, the pass raises that error. */
  lemma {:induction false} MapRowsFailurePersists(f: Row -> Result<Row, Error>, rows: seq<Row>, n: nat, m: nat)
    requires n <= m <= |rows| && MapRows(f, rows, n).Failure?
    ensures MapRows(f, rows, m) == Failure(MapRows(f, rows, n).error)
  {
    if m > n {
      MapRowsFailurePersists(f, rows, n, m - 1);
    }
  }

  /** One more row of a pass. */
  lemma MapRowsStep(f: Row -> Result<Row, Error>, rows: seq<Row>, n: nat, done: seq<Row>)
    requires n < |rows| && MapRows(f, rows, n) == Success(done)
    ensures f(rows[n]).Success? ==> MapRows(f, rows, n + 1) == Success(done + [f(rows[n]).value])
    ensures f(rows[n]).Failure? ==> MapRows(f, rows, |rows|) == Failure(f(rows[n]).error)
  {
    if f(rows[n]).Failure? {
      MapRowsFailurePersists(f, rows, n + 1, |rows|);
    }
  }

  /** Text that does not end in ':' (so it is no label declaration). */
  predicate PlainWord(s: string)
  {
    |s| == 0 || s[|s| - 1] != ':'
  }

  /** Once the inner loop has raised, it raises that error at the end. */
  lemma {:induction false} OperandsFailurePersists(row: Row, start: nat, k: nat, m: nat)
    requires 1 <= start && k <= m <= |row| && OperandsPrefix(row, start, k).Failure?
    ensures OperandsPrefix(row, start, m) == Failure(OperandsPrefix(row, start, k).error)
  {
    if m > k {
      OperandsFailurePersists(row, start, k, m - 1);
    }
  }

  /** `convert_opcodes` on a converted instruction (no label): the opcode
      number, then the operands untouched. */
  lemma OpcodeRowOfInstr(ins: Instr)
    requires ins.labelName.None? && PlainWord(ins.mnemonic)
    ensures OpcodeRow(RowOf(ins)) == Success([Num(GetOpcode(ins))] + RowOf(ins)[1..])
  {
    var row := RowOf(ins);
    var op := GetOpcode(ins);
    RowOpcodeOfInstr(ins);
    assert OpcodeRow(row) == Success(row[0 := Num(op)]);
    assert row[0 := Num(op)] == [Num(op)] + row[1..];
  }

  /** The mnemonic of an unlabelled row is its first entry. */
  lemma RowOpcodeOfInstr(ins: Instr)
    requires ins.labelName.None? && PlainWord(ins.mnemonic)
    ensures RowOpcode(RowOf(ins)) == Success(GetOpcode(ins))
  {
  }

  /** An LDI of a register up to 15 and a value up to 15 (negative ones
      included) becomes `8, reg, 0, v`; a value in 0..255 becomes
      `8, reg, high nibble, low nibble`. */
  lemma EncodeLdi(reg: int, v: int)
    requires reg <= 15 && v <= 0xFF
    ensures v <= 15 ==>
      EncodeOperands([Num(OpLdi), Op(Reg(reg)), Op(Imm(v))]) == Success([Num(OpLdi), Num(reg), Num(0), Num(v)])
    ensures 0 <= v ==>
      EncodeOperands([Num(OpLdi), Op(Reg(reg)), Op(Imm(v))]) == Success([Num(OpLdi), Num(reg), Num(v / 16), Num(v % 16)])
  {
    var row := [Num(OpLdi), Op(Reg(reg)), Op(Imm(v))];
    var row1 := row[1 := Num(reg)];
    assert OperandsPrefix(row, 1, 2) == Success(row1);
    if v > 15 {
      ByteSplit(v);
      assert row1[2 := Num(v / 16)] + [Num(v % 16)] == [Num(OpLdi), Num(reg), Num(v / 16), Num(v % 16)];
    } else {
      assert row1[2 := Num(0)] + [Num(v)] == [Num(OpLdi), Num(reg), Num(0), Num(v)];
    }
  }

  /** The two value fields of an encoded LDI read back as the value. */
  lemma LdiFieldsRoundTrip(v: int)
    requires 0 <= v <= 0xFF
    ensures 16 * (v / 16) + v % 16 == v && 0 <= v / 16 < 16 && 0 <= v % 16 < 16
  {
  }

  /** The inner loop over a non-LDI row whose entries from `start` on are
      all operands: it succeeds exactly when every value is at most 15,
      and then replaces each operand by its value in place. */
  lemma {:induction false} DirectOperandsPrefix(row: Row, start: nat, k: nat)
    requires 1 <= start && k <= |row| && !IsLdiRow(row)
    requires forall i :: start <= i < |row| ==> CellValue(row[i]).Success?
    ensures OperandsPrefix(row, start, k).Success? <==>
      forall i :: start <= i < k ==> CellValue(row[i]).value <= 15
    ensures OperandsPrefix(row, start, k).Success? ==>
      var out := OperandsPrefix(row, start, k).value;
      && |out| == |row|
      && (forall i :: 0 <= i < |row| && (i < start || i >= k) ==> out[i] == row[i])
      && (forall i :: start <= i < k ==> out[i] == Num(CellValue(row[i]).value))
  {
    if k > start {
      DirectOperandsPrefix(row, start, k - 1);
      if OperandsPrefix(row, start, k - 1).Success? {
        var cur := OperandsPrefix(row, start, k - 1).value;
        assert cur[k - 1] == row[k - 1];
        assert !IsLdiRow(cur);
      }
    }
  }

  /** `convert_operands` on an unlabelled non-LDI row of operands (the
      operands after the opcode): it raises exactly when some operand's
      value exceeds 15 ("Direct operands must be between 1 and 15"). */
  lemma EncodeDirect(op: int, ops: seq<Operand>)
    requires op != OpLdi && forall k :: 0 <= k < |ops| ==> !ops[k].Name?
    ensures var row := [Num(op)] + seq(|ops|, k requires 0 <= k < |ops| => Op(ops[k]));
      && (EncodeOperands(row).Success? <==> forall k :: 0 <= k < |ops| ==> GetOperandValue(ops[k]).value <= 15)
      && (EncodeOperands(row).Success? ==>
            EncodeOperands(row).value == [Num(op)] + seq(|ops|, k requires 0 <= k < |ops| => Num(GetOperandValue(ops[k]).value)))
  {
    var row := [Num(op)] + seq(|ops|, k requires 0 <= k < |ops| => Op(ops[k]));
    assert !RowBeginsWithLabel(row);
    assert forall i :: 1 <= i < |row| ==> CellValue(row[i]) == GetOperandValue(ops[i - 1]);
    DirectOperandsPrefix(row, 1, |row|);
    if forall k :: 0 <= k < |ops| ==> GetOperandValue(ops[k]).value <= 15 {
      forall i | 1 <= i < |row|
        ensures CellValue(row[i]).value <= 15
      {
        assert GetOperandValue(ops[i - 1]).value <= 15;
      }
    } else {
      var k :| 0 <= k < |ops| && GetOperandValue(ops[k]).value > 15;
      assert CellValue(row[k + 1]).value > 15;
    }
    if EncodeOperands(row).Success? {
      var out := EncodeOperands(row).value;
      assert out == [Num(op)] + seq(|ops|, k requires 0 <= k < |ops| => Num(GetOperandValue(ops[k]).value));
    }
  }

  /** Padding gives every row at least four entries, keeps the row as its
      prefix, and fills the rest with zeros. */
  lemma PadSpec(row: Row)
    ensures |Pad(row)| == if |row| < 4 then 4 else |row|
    ensures Pad(row)[..|row|] == row
    ensures forall i :: |row| <= i < |Pad(row)| ==> Pad(row)[i] == Num(0)
  {
  }

  /** `convert_opcodes`: every row's first entry becomes its opcode. */
  method ConvertOpcodes(rows: array<Row>) returns (r: Outcome<Error>)
    modifies rows
    ensures var out := MapRows(OpcodeRow, old(rows[..]), rows.Length);
      && (r.Pass? <==> out.Success?)
      && (out.Failure? ==> r == Fail(out.error))
      && (out.Success? ==> rows[..] == out.value)
  {
    ghost var orig := rows[..];
    for cycle := 0 to rows.Length
      invariant MapRows(OpcodeRow, orig, cycle) == Success(rows[..cycle])
      invariant rows[cycle..] == orig[cycle..]
    {
      var instruction := rows[cycle];
      assert instruction == orig[cycle];
      MapRowsStep(OpcodeRow, orig, cycle, rows[..cycle]);
      var opcode := RowOpcode(instruction);
      if opcode.Failure? {
        return Fail(opcode.error);
      }
      ghost var before := rows[..cycle];
      rows[cycle] := instruction[0 := Num(opcode.value)];
      assert rows[..cycle + 1] == before + [rows[cycle]];
    }
    assert rows[..] == rows[..rows.Length];
    return Pass;
  }

  /** The inner loop of `convert_operands` on one row. */
  method ConvertRowOperands(instruction: Row) returns (r: Result<Row, Error>)
    ensures r == EncodeOperands(instruction)
  {
    if |instruction| == 0 {
      return Failure(MissingOperand);
    }
    var row := instruction;
    var startOffset := if RowBeginsWithLabel(instruction) then 2 else 1;
    var operandIndex := startOffset;
    if startOffset > |instruction| {
      return Success(row);
    }
    while operandIndex < |instruction|
      invariant startOffset <= operandIndex <= |instruction|
      invariant OperandsPrefix(instruction, startOffset, operandIndex) == Success(row)
    {
      var operandValue := CellValue(row[operandIndex]);
      if operandValue.Failure? {
        OperandsFailurePersists(instruction, startOffset, operandIndex + 1, |instruction|);
        return Failure(operandValue.error);
      }
      var v := operandValue.value;
      if v <= 15 {
        if row[0] == Num(OpLdi) && operandIndex == 2 {
          row := row[operandIndex := Num(0)] + [Num(v)];
        } else {
          row := row[operandIndex := Num(v)];
        }
      } else {
        if row[0] == Num(OpLdi) {
          row := row[operandIndex := Num(FirstHexDigit(v))] + [Num(SecondHexDigit(v))];
        } else {
          OperandsFailurePersists(instruction, startOffset, operandIndex + 1, |instruction|);
          return Failure(OperandOutOfRange);
        }
      }
      operandIndex := operandIndex + 1;
    }
    return Success(row);
  }

  /** `convert_operands`: every row's operands become numbers. */
  method ConvertOperands(rows: array<Row>) returns (r: Outcome<Error>)
    modifies rows
    ensures var out := MapRows(EncodeOperands, old(rows[..]), rows.Length);
      && (r.Pass? <==> out.Success?)
      && (out.Failure? ==> r == Fail(out.error))
      && (out.Success? ==> rows[..] == out.value)
  {
    ghost var orig := rows[..];
    for cycle := 0 to rows.Length
      invariant MapRows(EncodeOperands, orig, cycle) == Success(rows[..cycle])
      invariant rows[cycle..] == orig[cycle..]
    {
      assert rows[cycle] == orig[cycle];
      MapRowsStep(EncodeOperands, orig, cycle, rows[..cycle]);
      var row := ConvertRowOperands(rows[cycle]);
      if row.Failure? {
        return Fail(row.error);
      }
      ghost var before := rows[..cycle];
      rows[cycle] := row.value;
      assert rows[..cycle + 1] == before + [rows[cycle]];
    }
    assert rows[..] == rows[..rows.Length];
    return Pass;
  }

  /** `pad_to_equal_width`. */
  method PadToEqualWidth(rows: array<Row>)
    modifies rows
    ensures forall i :: 0 <= i < rows.Length ==> rows[i] == Pad(old(rows[i]))
  {
    for cycle := 0 to rows.Length
      invariant forall i :: 0 <= i < cycle ==> rows[i] == Pad(old(rows[i]))
      invariant forall i :: cycle <= i < rows.Length ==> rows[i] == old(rows[i])
    {
      var instruction := rows[cycle];
      if |instruction| < 4 {
        var padNumber := 4 - |instruction|;
        var padded := instruction;
        for i := 0 to padNumber
          invariant padded == instruction + seq(i, _ => Num(0))
        {
          padded := padded + [Num(0)];
        }
        rows[cycle] := padded;
      }
    }
  }

  /** `convert_to_machine_code`: the three passes in order. */
  method ConvertToMachineCode(rows: array<Row>) returns (r: Outcome<Error>)
    modifies rows
    ensures var out := MachineCode(old(rows[..]));
      && (r.Pass? <==> out.Success?)
      && (out.Failure? ==> r == Fail(out.error))
      && (out.Success? ==> rows[..] == out.value)
  {
    r := ConvertOpcodes(rows);
    if r.Fail? {
      return;
    }
    r := ConvertOperands(rows);
    if r.Fail? {
      return;
    }
    ghost var encoded := rows[..];
    PadToEqualWidth(rows);
    assert rows[..] == PadAll(encoded);
  }

  function PadAll(rows: seq<Row>): (padded: seq<Row>)
    ensures |padded| == |rows| && forall i :: 0 <= i < |rows| ==> padded[i] == Pad(rows[i])
  {
    seq(|rows|, i requires 0 <= i < |rows| => Pad(rows[i]))
  }

  /** The whole encoder on the rows. */
  function MachineCode(rows: seq<Row>): Result<seq<Row>, Error>
  {
    var named :- MapRows(OpcodeRow, rows, |rows|);
    var encoded :- MapRows(EncodeOperands, named, |named|);
    Success(PadAll(encoded))
  }

  /** The row the encoder makes of one row. */
  function EncodeRow(row: Row): Result<Row, Error>
  {
    var named :- OpcodeRow(row);
    var encoded :- EncodeOperands(named);
    Success(Pad(encoded))
  }

  /** The encoder works row by row: it succeeds exactly when every row
      encodes on its own, and then row `i` is the encoding of row `i`. */
  lemma MachineCodeRows(rows: seq<Row>)
    ensures MachineCode(rows).Success? <==> forall i :: 0 <= i < |rows| ==> EncodeRow(rows[i]).Success?
    ensures MachineCode(rows).Success? ==>
      |MachineCode(rows).value| == |rows|
      && forall i :: 0 <= i < |rows| ==> MachineCode(rows).value[i] == EncodeRow(rows[i]).value
  {
    MapRowsSpec(OpcodeRow, rows, |rows|);
    if MapRows(OpcodeRow, rows, |rows|).Success? {
      var named := MapRows(OpcodeRow, rows, |rows|).value;
      MapRowsSpec(EncodeOperands, named, |named|);
      forall i | 0 <= i < |rows|
        ensures EncodeRow(rows[i]).Success? <==> EncodeOperands(named[i]).Success?
        ensures EncodeRow(rows[i]).Success? ==> EncodeRow(rows[i]).value == Pad(EncodeOperands(named[i]).value)
      {
        assert OpcodeRow(rows[i]) == Success(named[i]);
      }
    } else {
      var i :| 0 <= i < |rows| && OpcodeRow(rows[i]).Failure?;
      assert EncodeRow(rows[i]).Failure?;
    }
  }

  /** A converted LDI (no label, a register up to 15, a value up to 0xFF)
      encodes as opcode 8, the register, then 0 and the value when it is at
      most 15 (negative ones included), or the value's two nibbles when it
      is in 0..255; the nibbles read back as the value. */
  lemma EncodeLdiInstr(reg: int, v: int)
    requires 0 <= reg <= 15 && v <= 0xFF
    ensures v <= 15 ==> EncodeRow(RowOf(Ldi(reg, v))) == Success([Num(OpLdi), Num(reg), Num(0), Num(v)])
    ensures 0 <= v ==> EncodeRow(RowOf(Ldi(reg, v))) == Success([Num(OpLdi), Num(reg), Num(v / 16), Num(v % 16)])
    ensures 0 <= v ==> 16 * (v / 16) + v % 16 == v
  {
    var row := RowOf(Ldi(reg, v));
    assert row == [Word("LDI"), Op(Reg(reg)), Op(Imm(v))];
    assert PlainWord("LDI") by { assert "LDI"[2] == 'I'; }
    OpcodeRowOfInstr(Ldi(reg, v));
    assert GetOpcode(Ldi(reg, v)) == OpLdi;
    assert row[1..] == [Op(Reg(reg)), Op(Imm(v))];
    assert [Num(GetOpcode(Ldi(reg, v)))] + row[1..] == [Num(OpLdi), Op(Reg(reg)), Op(Imm(v))];
    assert OpcodeRow(RowOf(Ldi(reg, v))) == Success([Num(OpLdi), Op(Reg(reg)), Op(Imm(v))]);
    EncodeLdi(reg, v);
  }
}
