/** Python's hexadecimal text (`hex(n)`, `int(s, 16)`) and the assembler's
    zero-free "custom hex" numbering of instruction memory cells
    (assembler.py:297-311). */
module Hex {
  import opened Wrappers

  /** The lower-case digit Python's `hex` writes for a nibble. */
  function DigitChar(d: nat): (c: char)
    requires d < 16
  {
    if d < 10 then ('0' as int + d) as char else ('a' as int + d - 10) as char
  }

  /** `int(c, 16)` for a single character: None where Python raises. */
  function CharValue(c: char): (r: Option<nat>)
    ensures r.Some? ==> r.value < 16
  {
    if '0' <= c <= '9' then Some(c as int - '0' as int)
    else if 'a' <= c <= 'f' then Some(c as int - 'a' as int + 10)
    else if 'A' <= c <= 'F' then Some(c as int - 'A' as int + 10)
    else None
  }

  lemma CharValueOfDigit(d: nat)
    requires d < 16
    ensures CharValue(DigitChar(d)) == Some(d)
  {
  }

  /** The digits of `hex(n)` after its "0x" prefix, most significant first. */
  function HexDigits(n: nat): (s: string)
    ensures 1 <= |s|
    ensures forall i :: 0 <= i < |s| ==> CharValue(s[i]).Some?
    ensures n >= 16 ==> |s| >= 2
  {
    if n < 16 then [DigitChar(n)] else HexDigits(n / 16) + [DigitChar(n % 16)]
  }

  /** Python's `hex(n)` for a non-negative `n`. */
  function HexString(n: nat): (s: string)
  {
    "0x" + HexDigits(n)
  }

  /** `int(s, 16)` on a non-empty run of hexadecimal digits. */
  function ParseDigits(s: string): (r: Option<nat>)
  {
    if |s| == 0 then None
    else if |s| == 1 then CharValue(s[0])
    else
      match (ParseDigits(s[..|s| - 1]), CharValue(s[|s| - 1]))
      case (Some(hi), Some(lo)) => Some(hi * 16 + lo)
      case _ => None
  }

  /** `int(s, 16)`, which accepts an optional "0x" prefix. */
  function ParseHex(s: string): (r: Option<nat>)
  {
    if |s| >= 2 && s[..2] == "0x" then ParseDigits(s[2..]) else ParseDigits(s)
  }

  /** Reading `hex(n)` back with `int(_, 16)` gives `n`. */
  lemma {:induction false} HexDigitsRoundTrip(n: nat)
    ensures ParseDigits(HexDigits(n)) == Some(n)
  {
    if n >= 16 {
      HexDigitsRoundTrip(n / 16);
      var s := HexDigits(n);
      assert s[..|s| - 1] == HexDigits(n / 16);
      CharValueOfDigit(n % 16);
    } else {
      CharValueOfDigit(n);
    }
  }

  lemma HexStringRoundTrip(n: nat)
    ensures ParseHex(HexString(n)) == Some(n)
  {
    var s := HexString(n);
    assert s[..2] == "0x" && s[2..] == HexDigits(n);
    HexDigitsRoundTrip(n);
  }

  /** `convert_cycle_to_custom_hex`: the hex text of `c / 15 + 1` followed by
      the single digit of `c % 15 + 1`. */
  function CycleToCustomHex(cycle: nat): (s: string)
  {
    HexString(cycle / 15 + 1) + HexString(cycle % 15 + 1)[2..]
  }

  /** The arithmetic meaning of a memory cell: two "digits" in 1..15 (the
      first may exceed 15 past cycle 224), high digit weighted by 16. */
  function CellValue(cycle: nat): nat
  {
    16 * (cycle / 15 + 1) + cycle % 15 + 1
  }

  /** `convert_cycle_to_instruction_cell_int`: `int(custom_hex, 16)`. The
      text route always parses, and reads back as `CellValue`. */
  function CycleToCellInt(cycle: nat): (cell: nat)
    ensures cell == CellValue(cycle)
  {
    CustomHexParses(cycle);
    ParseHex(CycleToCustomHex(cycle)).value
  }

  lemma CustomHexParses(cycle: nat)
    ensures ParseHex(CycleToCustomHex(cycle)) == Some(CellValue(cycle))
  {
    var hi, lo := cycle / 15 + 1, cycle % 15 + 1;
    var s := CycleToCustomHex(cycle);
    assert HexDigits(lo) == [DigitChar(lo)];
    assert s[..2] == "0x";
    assert s[2..] == HexDigits(hi) + [DigitChar(lo)];
    assert s[2..][..|s[2..]| - 1] == HexDigits(hi);
    HexDigitsRoundTrip(hi);
    CharValueOfDigit(lo);
  }

  /** Every memory cell has a low nibble in 1..15, is at least 0x11 (so it is
      never 0, and never collides with a zero immediate), and its high part
      is `cycle / 15 + 1`. */
  lemma CellShape(cycle: nat)
    ensures 1 <= CycleToCellInt(cycle) % 16 <= 15
    ensures CycleToCellInt(cycle) / 16 == cycle / 15 + 1
    ensures CycleToCellInt(cycle) >= 0x11
    ensures cycle < 225 <==> CycleToCellInt(cycle) <= 0xFF
  {
  }

  /** Distinct cycles get distinct memory cells. */
  lemma {:induction false} CellInjective(c1: nat, c2: nat)
    requires CycleToCellInt(c1) == CycleToCellInt(c2)
    ensures c1 == c2
  {
  }

  /** The first two hexadecimal digits of `v`, read back with `int(_, 16)`:
      what the encoder puts in an LDI's two value fields when `v > 15`. */
  function FirstHexDigit(v: nat): (d: nat)
    requires v > 15
    ensures d < 16
  {
    CharValue(HexString(v)[2]).value
  }

  function SecondHexDigit(v: nat): (d: nat)
    requires v > 15
    ensures d < 16
  {
    CharValue(HexString(v)[3]).value
  }

  /** For one-byte values the two digits are exactly the high and low nibble. */
  lemma ByteSplit(v: nat)
    requires 15 < v <= 0xFF
    ensures FirstHexDigit(v) == v / 16 && SecondHexDigit(v) == v % 16
  {
    assert HexDigits(v / 16) == [DigitChar(v / 16)];
    assert HexString(v)[2] == DigitChar(v / 16);
    assert HexString(v)[3] == DigitChar(v % 16);
    CharValueOfDigit(v / 16);
    CharValueOfDigit(v % 16);
  }
}
