/** The entries of the compiler's symbol table (compiler/src/symbol_table.py):
    a plain entry holds a memory address, a data type and an entry type; a
    variable entry has entry type VAR and an is-accessed flag; a constant
    entry has entry type CONST and a value. Equality compares the common
    fields first and then the subclass's own field, reading it from the
    other operand, which raises when that operand lacks it. */
module SymbolTable {
  import opened Wrappers

  /** One entry, by the class it was built with. */
  datatype StEntry =
    | Plain(memoryAddress: int, dataType: string, entryType: string)
    | Variable(memoryAddress: int, dataType: string, isAccessed: bool)
    | Constant(memoryAddress: int, dataType: string, constValue: int)
  {
    /** The `entry_type` attribute: fixed by the subclasses. */
    function EntryType(): string
    {
      match this
      case Plain(_, _, e) => e
      case Variable(_, _, _) => "VAR"
      case Constant(_, _, _) => "CONST"
    }
  }

  /** A Python operand of `==`: an entry, or an object with none of an
      entry's attributes. */
  datatype Obj = Entry(entry: StEntry) | Foreign

  /** Reading an attribute the operand does not have. */
  datatype AttributeError = AttributeError

  /** `StEntryVar(memory_addr, data_type)`. */
  function NewVar(memoryAddress: int, dataType: string): (e: StEntry)
    ensures e.EntryType() == "VAR" && e.Variable? && !e.isAccessed
    ensures e.memoryAddress == memoryAddress && e.dataType == dataType
  {
    Variable(memoryAddress, dataType, false)
  }

  /** `StEntryConst(memory_addr, data_type, const_value)`. */
  function NewConst(memoryAddress: int, dataType: string, constValue: int): (e: StEntry)
    ensures e.EntryType() == "CONST" && e.Constant? && e.constValue == constValue
    ensures e.memoryAddress == memoryAddress && e.dataType == dataType
  {
    Constant(memoryAddress, dataType, constValue)
  }

  /** `StEntry.__eq__(self, other)`: the three common fields. */
  function BaseEq(self: StEntry, other: Obj): Result<bool, AttributeError>
  {
    if other.Foreign? then Failure(AttributeError)
    else
      Success(other.entry.memoryAddress == self.memoryAddress
              && other.entry.dataType == self.dataType
              && other.entry.EntryType() == self.EntryType())
  }

  /** The `__eq__` of `self`'s class, called with `other`. */
  function MethodEq(self: StEntry, other: Obj): Result<bool, AttributeError>
  {
    var base :- BaseEq(self, other);
    if !base then Success(false)
    else
      match self
      case Plain(_, _, _) => Success(true)
      case Variable(_, _, acc) =>
        if !other.entry.Variable? then Failure(AttributeError)
        else Success(other.entry.isAccessed == acc)
      case Constant(_, _, v) =>
        if !other.entry.Constant? then Failure(AttributeError)
        else Success(other.entry.constValue == v)
  }

  /** Whether the class of `b` is a proper subclass of the class of `a`. */
  predicate ProperSubclass(a: StEntry, b: StEntry)
  {
    a.Plain? && !b.Plain?
  }

  /** `a == b` on Python operands, at least one an entry: the right
      operand's method goes first when its class is a proper subclass of
      the left one's; a foreign left operand defers to the right one. */
  function Equals(a: Obj, b: Obj): Result<bool, AttributeError>
    requires a.Entry? || b.Entry?
  {
    if a.Foreign? then MethodEq(b.entry, a)
    else if b.Entry? && ProperSubclass(a.entry, b.entry) then MethodEq(b.entry, a)
    else MethodEq(a.entry, b)
  }

  /** Two entries compare equal exactly when they are the same entry of
      the same class; every comparison that does not raise is symmetric. */
  lemma EqualsIsIdentity(a: StEntry, b: StEntry)
    ensures Equals(Entry(a), Entry(b)) == Success(true) <==> a == b
    ensures Equals(Entry(a), Entry(b)) == Equals(Entry(b), Entry(a))
  {
  }

  /** A comparison of two entries raises exactly when one is a plain entry
      whose entry type names the other's class and whose address and data
      type match it (the subclass method then reads a field the plain
      entry lacks); comparing with a foreign object always raises. */
  lemma EqualsRaises(a: StEntry, b: StEntry, x: Obj)
    ensures Equals(Entry(a), Entry(b)).Failure? <==>
      && a.memoryAddress == b.memoryAddress && a.dataType == b.dataType
      && a.EntryType() == b.EntryType() && (a.Plain? != b.Plain?)
    ensures x.Foreign? ==> Equals(Entry(a), x).Failure? && Equals(x, Entry(a)).Failure?
  {
  }

  /** A variable entry and a constant entry compare unequal, without
      raising, whatever their fields. */
  lemma VarConstUnequal(addr1: int, type1: string, addr2: int, type2: string, acc: bool, v: int)
    ensures Equals(Entry(Variable(addr1, type1, acc)), Entry(Constant(addr2, type2, v))) == Success(false)
    ensures Equals(Entry(Constant(addr2, type2, v)), Entry(Variable(addr1, type1, acc))) == Success(false)
  {
  }

  /** Two fresh variable entries with the same address and type are equal,
      and marking one as accessed makes them unequal. */
  lemma AccessBreaksEquality(addr: int, dataType: string)
    ensures Equals(Entry(NewVar(addr, dataType)), Entry(NewVar(addr, dataType))) == Success(true)
    ensures Equals(Entry(NewVar(addr, dataType).(isAccessed := true)), Entry(NewVar(addr, dataType))) == Success(false)
  {
  }

  /** The decimal digits of a natural number. */
  function NatString(n: nat): (s: string)
    ensures |s| >= 1 && forall i :: 0 <= i < |s| ==> '0' <= s[i] <= '9'
    decreases n
  {
    if n < 10 then [('0' as int + n) as char]
    else NatString(n / 10) + [('0' as int + n % 10) as char]
  }

  /** The value of a string of decimal digits. */
  function DigitsValue(s: string): nat
    requires forall i :: 0 <= i < |s| ==> '0' <= s[i] <= '9'
  {
    if s == [] then 0 else 10 * DigitsValue(s[..|s| - 1]) + (s[|s| - 1] as int - '0' as int)
  }

  /** The digits read back as the number. */
  lemma {:induction false} NatStringRoundTrip(n: nat)
    ensures DigitsValue(NatString(n)) == n
    decreases n
  {
    if n >= 10 {
      NatStringRoundTrip(n / 10);
      var s := NatString(n);
      assert s[..|s| - 1] == NatString(n / 10);
    }
  }

  /** `str` of an int: a minus sign, then the digits. */
  function IntString(n: int): (s: string)
    ensures |s| >= 1 && (n < 0 <==> s[0] == '-')
  {
    if n < 0 then "-" + NatString(-n) else NatString(n)
  }

  /** `str` of a bool. */
  function BoolString(b: bool): string
  {
    if b then "True" else "False"
  }

  /** `StEntry.__str__` and its overrides. */
  function EntryString(e: StEntry): (s: string)
    ensures var head := "m_addr=" + IntString(e.memoryAddress) + ", d_type=" + e.dataType + ", e_type=" + e.EntryType();
      && |head| <= |s| && s[..|head|] == head
      && (e.Variable? ==> s == head + ", is_accessed=" + BoolString(e.isAccessed))
      && (e.Constant? ==> s == head + ", const_val=" + IntString(e.constValue))
  {
    var head := "m_addr=" + IntString(e.memoryAddress) + ", d_type=" + e.dataType + ", e_type=" + e.EntryType();
    match e
    case Plain(_, _, _) => head
    case Variable(_, _, acc) => head + ", is_accessed=" + BoolString(acc)
    case Constant(_, _, v) => head + ", const_val=" + IntString(v)
  }

  /** The renderings the entry classes promise for a fresh variable and a
      constant at address 0 of type CHAR. */
  lemma EntryStringExamples()
    ensures EntryString(NewVar(0, "CHAR")) == "m_addr=0, d_type=CHAR, e_type=VAR, is_accessed=False"
    ensures EntryString(NewConst(0, "CHAR", 2)) == "m_addr=0, d_type=CHAR, e_type=CONST, const_val=2"
  {
    assert IntString(0) == "0" by { assert NatString(0) == "0"; }
    assert IntString(2) == "2" by { assert NatString(2) == "2"; }
    assert "m_addr=" + "0" == "m_addr=0";
    assert "m_addr=0" + ", d_type=" == "m_addr=0, d_type=";
    assert "m_addr=0, d_type=" + "CHAR" == "m_addr=0, d_type=CHAR";
    assert "m_addr=0, d_type=CHAR" + ", e_type=" == "m_addr=0, d_type=CHAR, e_type=";
    assert "m_addr=0, d_type=CHAR, e_type=" + "VAR" == "m_addr=0, d_type=CHAR, e_type=VAR";
    assert "m_addr=0, d_type=CHAR, e_type=VAR" + ", is_accessed=" == "m_addr=0, d_type=CHAR, e_type=VAR, is_accessed=";
    assert "m_addr=0, d_type=CHAR, e_type=VAR, is_accessed=" + "False" == "m_addr=0, d_type=CHAR, e_type=VAR, is_accessed=False";
    assert "m_addr=0, d_type=CHAR, e_type=" + "CONST" == "m_addr=0, d_type=CHAR, e_type=CONST";
    assert "m_addr=0, d_type=CHAR, e_type=CONST" + ", const_val=" == "m_addr=0, d_type=CHAR, e_type=CONST, const_val=";
    assert "m_addr=0, d_type=CHAR, e_type=CONST, const_val=" + "2" == "m_addr=0, d_type=CHAR, e_type=CONST, const_val=2";
  }
}
