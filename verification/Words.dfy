/** Machine words as unbounded integers: every wrap-around of the C++ code is one
    of the conversions below. */
module Words {

  const TWO_7: int := 0x80
  const TWO_8: int := 0x100
  const TWO_16: int := 0x1_0000
  const TWO_31: int := 0x8000_0000
  const TWO_32: int := 0x1_0000_0000
  const TWO_63: int := 0x8000_0000_0000_0000
  const TWO_64: int := 0x1_0000_0000_0000_0000

  type byte = x: int | 0 <= x < 0x100

  /** Conversion to `t::uint8`, `t::uint32`, `t::uint64`. */
  function U8(x: int): (u: nat)
    ensures u < TWO_8
  {
    x % TWO_8
  }

  function U32(x: int): (u: nat)
    ensures u < TWO_32
  {
    x % TWO_32
  }

  function U64(x: int): (u: nat)
    ensures u < TWO_64
  {
    x % TWO_64
  }

  /** Conversion to `t::int8`, `int`, `t::int64` (two's complement). */
  function I8(x: int): (i: int)
    ensures -TWO_7 <= i < TWO_7
  {
    if U8(x) < TWO_7 then U8(x) else U8(x) - TWO_8
  }

  function I32(x: int): (i: int)
    ensures -TWO_31 <= i < TWO_31
  {
    if U32(x) < TWO_31 then U32(x) else U32(x) - TWO_32
  }

  function I64(x: int): (i: int)
    ensures -TWO_63 <= i < TWO_63
  {
    if U64(x) < TWO_63 then U64(x) else U64(x) - TWO_64
  }

  /** The exceptions of the reader, and the points where the C++ code leaves
      defined behaviour. */
  datatype Fault =
    | DebugLineError        // error_if(...)
    | EndlessProgram        // "endless debug line opcode program"
    | BadStandardOpcode
    | BadExtendedOpcode
    | BadVersion            // DWARF version > 5
    | Unsupported           // DWARF 5 tables, DW_LNE_define_file: not modelled
    | Undefined             // division by zero, shift by 64 or more, signed overflow, bad index, failed ASSERT
    | Endless               // no exception: the code reads the same bytes for ever

  datatype Result<+T> = Ok(value: T) | Fail(fault: Fault) {
    predicate IsFailure() {
      Fail?
    }

    function PropagateFailure<U>(): Result<U>
      requires Fail?
    {
      Fail(fault)
    }

    function Extract(): T
      requires Ok?
    {
      value
    }
  }
}
