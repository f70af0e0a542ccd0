/** Encoding line programs, and running what was encoded. */
module LineEncoding {
  import opened Words
  import opened Bits
  import opened ByteOrder
  import opened Cursors
  import opened Leb128
  import opened LineTable
  import opened LineProgram

  /** An instruction; how many groups its number and its declared length have more than they
      need; and, for an extended one, the bytes its declared length adds after it. */
  datatype Item = Item(instr: Instr, more: nat, lengthMore: nat, pad: seq<byte>)

  predicate IsExtended(i: Instr) {
    i.EndSequence? || i.SetAddress? || i.SetDiscriminator?
  }

  /** The standard opcode of an instruction; 0 introduces the extended ones. */
  function Opcode(i: Instr): byte {
    match i
    case Copy => DW_LNS_COPY
    case AdvancePcBy(_) => DW_LNS_ADVANCE_PC
    case AdvanceLineBy(_) => DW_LNS_ADVANCE_LINE
    case SetFile(_) => DW_LNS_SET_FILE
    case SetColumn(_) => DW_LNS_SET_COLUMN
    case NegateStmt => DW_LNS_NEGATE_STMT
    case SetBasicBlock => DW_LNS_SET_BASIC_BLOCK
    case ConstAddPc => DW_LNS_CONST_ADD_PC
    case FixedAdvancePc(_) => DW_LNS_FIXED_ADVANCE_PC
    case SetPrologueEnd => DW_LNS_SET_PROLOGUE_END
    case SetEpilogueBegin => DW_LNS_SET_EPILOGUE_BEGIN
    case SetIsa(_) => DW_LNS_SET_ISA
    case _ => 0
  }

  function Operand(h: Header, i: Instr, more: nat): seq<byte> {
    match i
    case AdvancePcBy(v) => PaddedU(v, more)
    case AdvanceLineBy(v) => PaddedS(v, more)
    case SetFile(v) => PaddedU(v, more)
    case SetColumn(v) => PaddedU(v, more)
    case FixedAdvancePc(v) => BytesOf(h.order, v, 2)
    case SetIsa(v) => PaddedU(v, more)
    case SetAddress(v) => [DW_LNE_SET_ADDRESS] + BytesOf(h.order, v, AddressWidth(h.is64))
    case EndSequence => [DW_LNE_END_SEQUENCE]
    case SetDiscriminator(v) => [DW_LNE_SET_DISCRIMINATOR] + PaddedU(v, more)
    case _ => []
  }

  function EncodeInstr(h: Header, it: Item): seq<byte> {
    match it.instr
    case Special(op) => [U8(op + h.opcodeBase)]
    case _ =>
      var operand := Operand(h, it.instr, it.more);
      if IsExtended(it.instr) then
        [0] + (PaddedU(|operand| + |it.pad|, it.lengthMore) + (operand + it.pad))
      else
        [Opcode(it.instr)] + operand
  }

  /** Operands in the range of their C++ types, numbers of at most ten groups, and opcodes below
      opcode_base. */
  predicate Encodable(h: Header, it: Item) {
    && (if IsExtended(it.instr) then FitsU(|Operand(h, it.instr, it.more)| + |it.pad|, it.lengthMore)
        else it.pad == [])
    && (!it.instr.Special? ==> Opcode(it.instr) < h.opcodeBase)
    && match it.instr
       case Special(op) => op + h.opcodeBase < TWO_8
       case AdvancePcBy(v) => FitsU(v, it.more)
       case AdvanceLineBy(v) => FitsS(v, it.more)
       case SetFile(v) => FitsU(v, it.more)
       case SetColumn(v) => FitsU(v, it.more)
       case FixedAdvancePc(v) => v < TWO_16
       case SetIsa(v) => FitsU(v, it.more)
       case SetAddress(v) => v < Pow2(8 * AddressWidth(h.is64))
       case SetDiscriminator(v) => FitsU(v, it.more)
       case _ => true
  }

  function EncodeProgram(h: Header, p: seq<Item>): seq<byte> {
    if p == [] then [] else EncodeInstr(h, p[0]) + EncodeProgram(h, p[1..])
  }

  function Instrs(p: seq<Item>): (s: seq<Instr>)
    ensures |s| == |p| && forall k :: 0 <= k < |p| ==> s[k] == p[k].instr
  {
    if p == [] then [] else [p[0].instr] + Instrs(p[1..])
  }

  lemma HoldsHead(bytes: seq<byte>, off: nat, b: byte, s: seq<byte>)
    requires Holds(bytes, off, [b] + s)
    ensures off < |bytes| && bytes[off] == b && Holds(bytes, off + 1, s)
  {
    HoldsConcat(bytes, off, [b], s);
    assert bytes[off..off + 1][0] == b;
  }

  lemma HoldsWord(o: Order, bytes: seq<byte>, off: nat, v: nat, n: nat)
    requires v < Pow2(8 * n) && Holds(bytes, off, BytesOf(o, v, n))
    ensures off + n <= |bytes| && Word(o, bytes, off, n) == v
  {
    ValueOfBytes(o, v, n);
  }

  /** An encoded instruction of any kind but the extended ones is fetched back. */
  lemma FetchPlain(h: Header, bytes: seq<byte>, off: nat, it: Item)
    requires Encodable(h, it) && !IsExtended(it.instr) && Holds(bytes, off, EncodeInstr(h, it))
    ensures Fetch(h, bytes, off) == Ok((it.instr, off + |EncodeInstr(h, it)|))
  {
    hide PaddedU, PaddedS, FitsU, FitsS, DecodeU, DecodeS, Word, BytesOf, Holds;
    var i := it.instr;
    var operand := if i.Special? then [] else Operand(h, i, it.more);
    var op := if i.Special? then i.op + h.opcodeBase else Opcode(i);
    assert EncodeInstr(h, it) == [op] + operand;
    HoldsHead(bytes, off, op, operand);
    match i
    case AdvancePcBy(v) => PaddedRoundTripU(bytes, off + 1, v, it.more);
    case AdvanceLineBy(v) => PaddedRoundTripS(bytes, off + 1, v, it.more);
    case SetFile(v) => PaddedRoundTripU(bytes, off + 1, v, it.more);
    case SetColumn(v) => PaddedRoundTripU(bytes, off + 1, v, it.more);
    case SetIsa(v) => PaddedRoundTripU(bytes, off + 1, v, it.more);
    case FixedAdvancePc(v) =>
      ShlConstants(1);
      HoldsWord(h.order, bytes, off + 1, v, 2);
    case _ =>
  }

  lemma FetchPayload(h: Header, bytes: seq<byte>, at: nat, it: Item)
    requires Encodable(h, it) && IsExtended(it.instr) && Holds(bytes, at, Operand(h, it.instr, it.more))
    ensures FetchExtended(h, bytes, at) == Ok((it.instr, at + |Operand(h, it.instr, it.more)|))
  {
    hide PaddedU, FitsU, DecodeU, Word, BytesOf, Holds;
    match it.instr
    case SetAddress(v) =>
      var w := AddressWidth(h.is64);
      HoldsHead(bytes, at, DW_LNE_SET_ADDRESS, BytesOf(h.order, v, w));
      HoldsWord(h.order, bytes, at + 1, v, w);
    case SetDiscriminator(v) =>
      HoldsHead(bytes, at, DW_LNE_SET_DISCRIMINATOR, PaddedU(v, it.more));
      PaddedRoundTripU(bytes, at + 1, v, it.more);
    case EndSequence =>
      assert [DW_LNE_END_SEQUENCE] == [DW_LNE_END_SEQUENCE] + [];
      HoldsHead(bytes, at, DW_LNE_END_SEQUENCE, []);
  }

  /** The declared end of an extended instruction is an `int`: where it is not the end of its
      padding, the move does nothing when it leaves the section, and only without padding is
      that the right place. */
  predicate Lands(size: nat, end: nat, pad: seq<byte>) {
    I32(end) == end || (pad == [] && !(0 <= I32(end) <= size))
  }

  /** An encoded extended instruction is fetched back, and the cursor is at the end of its
      padding exactly when its declared end lands there. */
  lemma FetchPadded(h: Header, bytes: seq<byte>, off: nat, it: Item)
    requires Encodable(h, it) && IsExtended(it.instr) && Holds(bytes, off, EncodeInstr(h, it))
    ensures var (f, end) := (Fetch(h, bytes, off), off + |EncodeInstr(h, it)|);
            && f.Ok? && f.value.0 == it.instr
            && (f.value.1 == end <==> Lands(|bytes|, end, it.pad))
  {
    hide PaddedU, FitsU, DecodeU, FetchExtended, Operand, Holds, I32;
    var operand := Operand(h, it.instr, it.more);
    var len := |operand| + |it.pad|;
    var prefix := PaddedU(len, it.lengthMore);
    HoldsHead(bytes, off, 0, prefix + (operand + it.pad));
    HoldsConcat(bytes, off + 1, prefix, operand + it.pad);
    var at := off + 1 + |prefix|;
    HoldsConcat(bytes, at, operand, it.pad);
    HoldsWithin(bytes, at, operand + it.pad);
    PaddedRoundTripU(bytes, off + 1, len, it.lengthMore);
    FetchPayload(h, bytes, at, it);
    TargetOfSum(len, at);
  }

  lemma TargetOfSum(len: nat, at: nat)
    ensures Target(len, at) == I32(len + at)
  {
  }

  lemma HoldsWithin(bytes: seq<byte>, off: nat, s: seq<byte>)
    requires Holds(bytes, off, s)
    ensures off + |s| <= |bytes|
  {
  }

  /** Every encoded instruction is fetched back; an extended one is consumed to the end of its
      padding exactly when its declared end lands there. */
  lemma FetchEncoded(h: Header, bytes: seq<byte>, off: nat, it: Item)
    requires Encodable(h, it) && Holds(bytes, off, EncodeInstr(h, it))
    ensures var (f, end) := (Fetch(h, bytes, off), off + |EncodeInstr(h, it)|);
            && f.Ok? && f.value.0 == it.instr
            && (f.value.1 == end <==> !IsExtended(it.instr) || Lands(|bytes|, end, it.pad))
    ensures |EncodeInstr(h, it)| > 0
  {
    hide Fetch, Encodable, Holds, Lands;
    HoldsWithin(bytes, off, EncodeInstr(h, it));
    if IsExtended(it.instr) {
      FetchPadded(h, bytes, off, it);
    } else {
      FetchPlain(h, bytes, off, it);
    }
  }

  /** Below 2 GiB it always is. */
  lemma FetchSmall(h: Header, bytes: seq<byte>, off: nat, it: Item)
    requires Encodable(h, it) && Holds(bytes, off, EncodeInstr(h, it))
    requires off + |EncodeInstr(h, it)| < TWO_31
    ensures Fetch(h, bytes, off) == Ok((it.instr, off + |EncodeInstr(h, it)|))
  {
    hide Fetch, Encodable, Holds, EncodeInstr;
    FetchEncoded(h, bytes, off, it);
  }

  /** A program whose only `end_sequence` is its last instruction. */
  predicate Sequence(h: Header, p: seq<Item>) {
    && p != []
    && (forall it :: it in p ==> Encodable(h, it))
    && (forall k :: 0 <= k < |p| ==> (p[k].instr == EndSequence <==> k == |p| - 1))
  }

  /** The declared end of every extended instruction lands at the end of its padding. */
  predicate AllLand(h: Header, size: nat, off: nat, p: seq<Item>)
    decreases |p|
  {
    p == [] ||
    var next := off + |EncodeInstr(h, p[0])|;
    (!IsExtended(p[0].instr) || Lands(size, next, p[0].pad)) && AllLand(h, size, next, p[1..])
  }

  /** Below 2 GiB every declared end lands, whatever follows the program. */
  lemma {:induction false} SmallLands(h: Header, size: nat, off: nat, p: seq<Item>)
    requires off + |EncodeProgram(h, p)| < TWO_31
    ensures AllLand(h, size, off, p)
    decreases |p|
  {
    hide EncodeInstr;
    if p != [] {
      SmallLands(h, size, off + |EncodeInstr(h, p[0])|, p[1..]);
    }
  }

  /** The disassembly of an encoded program is the program. */
  lemma {:induction false} DisassembleEncoded(h: Header, bytes: seq<byte>, end: nat, off: nat, p: seq<Item>, k: nat)
    requires Sequence(h, p) && Holds(bytes, off, EncodeProgram(h, p)) && AllLand(h, |bytes|, off, p)
    requires off + |EncodeProgram(h, p)| <= end && k >= |p|
    ensures Disassemble(h, bytes, end, off, k) == Listing(Instrs(p), Ok(off + |EncodeProgram(h, p)|))
    decreases |p|
  {
    hide Fetch, EncodeInstr, Encodable, Holds, Lands;
    var it := p[0];
    var enc, rest := EncodeInstr(h, it), EncodeProgram(h, p[1..]);
    HoldsConcat(bytes, off, enc, rest);
    FetchEncoded(h, bytes, off, it);
    if |p| == 1 {
      assert rest == [] && Instrs(p) == [it.instr];
      assert EncodeProgram(h, p) == enc;
    } else {
      assert it.instr != EndSequence;
      assert Sequence(h, p[1..]) by {
        forall k | 0 <= k < |p| - 1 ensures p[1..][k].instr == EndSequence <==> k == |p| - 2 {
          assert p[1..][k] == p[k + 1];
        }
      }
      DisassembleEncoded(h, bytes, end, off + |enc|, p[1..], k - 1);
    }
  }

  lemma {:induction false} AtLeastOneByteEach(h: Header, p: seq<Item>)
    ensures |p| <= |EncodeProgram(h, p)|
    decreases |p|
  {
    if p != [] {
      AtLeastOneByteEach(h, p[1..]);
      hide PaddedU, Operand;
    }
  }

  /** Interpreter refinement: the byte loop, on the encoding of any such program at any offset
      where its extended instructions land, halts exactly at the end of the encoding with the
      registers and rows of the instruction semantics, or with its fault. */
  lemma RunEncoded(h: Header, n: nat, bytes: seq<byte>, end: nat, s: State, off: nat, p: seq<Item>)
    requires Sequence(h, p) && Holds(bytes, off, EncodeProgram(h, p)) && !s.regs.endSequence
    requires off + |EncodeProgram(h, p)| <= end && AllLand(h, |bytes|, off, p)
    ensures Run(h, n, bytes, end, s, off) ==
            Outcome(Exec(h, n, s, Instrs(p)), Ok(off + |EncodeProgram(h, p)|))
  {
    hide Run, Exec, Disassemble, Encodable, EncodeProgram, AllLand, Holds;
    HoldsWithin(bytes, off, EncodeProgram(h, p));
    AtLeastOneByteEach(h, p);
    DisassembleEncoded(h, bytes, end, off, p, TurnLimit(|bytes|));
    RunIsExec(h, n, bytes, end, s, off);
  }

  /** A program without `end_sequence` up to the end of its unit runs into the reader's
      exception, unless one of its instructions has a fault. */
  lemma Unterminated(h: Header, n: nat, bytes: seq<byte>, s: State, off: nat, p: seq<Item>)
    requires (forall it :: it in p ==> Encodable(h, it) && it.instr != EndSequence) && !s.regs.endSequence
    requires Holds(bytes, off, EncodeProgram(h, p)) && AllLand(h, |bytes|, off, p)
    ensures Run(h, n, bytes, off + |EncodeProgram(h, p)|, s, off) ==
            Outcome(Exec(h, n, s, Instrs(p)), Fail(EndlessProgram))
  {
    hide Run, Exec, Disassemble, Encodable, EncodeProgram, AllLand, Holds;
    HoldsWithin(bytes, off, EncodeProgram(h, p));
    AtLeastOneByteEach(h, p);
    DisassembleUnterminated(h, bytes, off, p, TurnLimit(|bytes|));
    RunIsExec(h, n, bytes, off + |EncodeProgram(h, p)|, s, off);
  }

  lemma {:induction false} DisassembleUnterminated(h: Header, bytes: seq<byte>, off: nat, p: seq<Item>, k: nat)
    requires forall it :: it in p ==> Encodable(h, it) && it.instr != EndSequence
    requires Holds(bytes, off, EncodeProgram(h, p)) && AllLand(h, |bytes|, off, p) && k > |p|
    ensures Disassemble(h, bytes, off + |EncodeProgram(h, p)|, off, k) == Listing(Instrs(p), Fail(EndlessProgram))
    decreases |p|
  {
    hide Fetch, EncodeInstr, Encodable, Holds, Lands;
    if p != [] {
      var enc, rest := EncodeInstr(h, p[0]), EncodeProgram(h, p[1..]);
      assert p[0] in p;
      HoldsConcat(bytes, off, enc, rest);
      FetchEncoded(h, bytes, off, p[0]);
      DisassembleUnterminated(h, bytes, off + |enc|, p[1..], k - 1);
    }
  }

  // ----- a program that never ends

  /** set_discriminator 0 whose declared length, 2^32 - 6, is -6 as an `int`. */
  const SPIN: seq<byte> := [0x00, 0xFA, 0xFF, 0xFF, 0xFF, 0x0F, 0x04, 0x00]

  /** Wherever it stands below 2 GiB, its turn returns to the offset it started from. */
  lemma SpinTurn(h: Header, bytes: seq<byte>, off: nat)
    requires h.opcodeBase > 0 && Holds(bytes, off, SPIN) && off < TWO_31
    ensures Fetch(h, bytes, off) == Ok((SetDiscriminator(0), off))
  {
    SpinOperands(bytes, off);
    hide DecodeU, DecodeS;
    HoldsByte(bytes, off, SPIN, 0);
    HoldsByte(bytes, off, SPIN, 6);
    assert FetchExtended(h, bytes, off + 6) == Ok((SetDiscriminator(0), off + 8));
    assert Target(0xFFFF_FFFA, off + 6) == off;
  }

  lemma HoldsByte(bytes: seq<byte>, off: nat, s: seq<byte>, k: nat)
    requires Holds(bytes, off, s) && k < |s|
    ensures off + k < |bytes| && bytes[off + k] == s[k]
  {
    assert bytes[off..off + |s|][k] == s[k];
  }

  /** The loop never ends: after any number of turns it has not halted. */
  lemma {:induction false} SpinForEver(h: Header, n: nat, bytes: seq<byte>, end: nat, s: State, off: nat, k: nat)
    requires h.opcodeBase > 0 && Holds(bytes, off, SPIN) && off < TWO_31 && off < end && !s.regs.endSequence
    ensures !Halted(Turns(h, n, bytes, end, s, off, k))
    decreases k
  {
    hide Holds, Fetch;
    if k > 0 {
      SpinTurn(h, bytes, off);
      SpinForEver(h, n, bytes, end, Apply(h, n, s, SetDiscriminator(0)).value, off, k - 1);
    }
  }

  lemma SpinOperands(bytes: seq<byte>, off: nat)
    requires Holds(bytes, off, SPIN)
    ensures DecodeU(bytes, off + 1) == Ok((0xFFFF_FFFA, off + 6))
    ensures DecodeU(bytes, off + 7) == Ok((0, off + 8))
  {
    hide DecodeU;
    assert Groups(0xF, 1) == [0x0F];
    assert Groups(0x7FF, 2) == [0xFF, 0x0F];
    assert Groups(0x3_FFFF, 3) == [0xFF, 0xFF, 0x0F];
    assert Groups(0x1FF_FFFF, 4) == [0xFF, 0xFF, 0xFF, 0x0F];
    var g := Groups(0xFFFF_FFFA, 5);
    assert g == [0xFA, 0xFF, 0xFF, 0xFF, 0x0F];
    var z := Groups(0, 1);
    assert SPIN == [0x00] + (g + ([0x04] + z));
    HoldsConcat(bytes, off, [0x00], g + ([0x04] + z));
    HoldsConcat(bytes, off + 1, g, [0x04] + z);
    HoldsConcat(bytes, off + 6, [0x04], z);
    ThirtyFive();
    RoundTripU(bytes, off + 1, 0xFFFF_FFFA, 5);
    ShlConstants(1);
    RoundTripU(bytes, off + 7, 0, 1);
  }

  lemma ThirtyFive()
    ensures Pow2(7 * 5) > 0xFFFF_FFFA
  {
    ShlShl(1, 32, 3);
    Shl32(1);
    ShlPositive(TWO_32, 3);
    assert Shl(TWO_32, 3) == 8 * TWO_32;
  }

  // ----- a program that goes back and ends

  /** advance_line 0, copy, copy, set_discriminator 0 with a declared end at offset 1; read from
      there, the operand 0 is an extended opcode of length 1, end_sequence. */
  const BACK: seq<byte> := [0x03, 0x00, 0x01, 0x01, 0x00, 0xF7, 0xFF, 0xFF, 0xFF, 0x0F, 0x04, 0x00]

  /** The loop goes back once, reads bytes a second time as other instructions, and ends with
      three rows, from any state with a good file register. */
  lemma BackAndOn(h: Header, n: nat, s: State)
    requires h.opcodeBase == 13 && 1 <= s.regs.file <= n && s.regs.line < TWO_32 && !s.regs.endSequence
    ensures Fetch(h, BACK, 4) == Ok((SetDiscriminator(0), 1))
    ensures var r := Run(h, n, BACK, |BACK|, s, 0);
            r.Ok? && |r.value.0.rows| == |s.rows| + 3 && r.value.1 == 4
  {
    hide Fetch, Disassemble, Exec, Run;
    BackExtended(h);
    RunIsExec(h, n, BACK, |BACK|, s, 0);
    BackListing(h, TurnLimit(|BACK|));
    BackExec(h, n, s);
  }

  function BackInstrs(): seq<Instr> {
    [AdvanceLineBy(0), Copy, Copy, SetDiscriminator(0), EndSequence]
  }

  lemma BackListing(h: Header, k: nat)
    requires h.opcodeBase == 13 && k >= 5
    ensures Disassemble(h, BACK, |BACK|, 0, k) == Listing(BackInstrs(), Ok(4))
  {
    hide Fetch;
    BackPlain(h);
    BackExtended(h);
    assert Disassemble(h, BACK, |BACK|, 1, k - 4) == Listing([EndSequence], Ok(4));
    assert Disassemble(h, BACK, |BACK|, 4, k - 3) == Listing([SetDiscriminator(0), EndSequence], Ok(4));
    assert Disassemble(h, BACK, |BACK|, 3, k - 2) == Listing([Copy, SetDiscriminator(0), EndSequence], Ok(4));
    assert Disassemble(h, BACK, |BACK|, 2, k - 1) == Listing([Copy, Copy, SetDiscriminator(0), EndSequence], Ok(4));
  }

  lemma BackExec(h: Header, n: nat, s: State)
    requires 1 <= s.regs.file <= n && s.regs.line < TWO_32
    ensures var e := Exec(h, n, s, BackInstrs());
            e.Ok? && |e.value.rows| == |s.rows| + 3
  {
    hide U8, U32, I32;
  }

  lemma BackPlain(h: Header)
    requires h.opcodeBase == 13
    ensures Fetch(h, BACK, 0) == Ok((AdvanceLineBy(0), 2))
    ensures Fetch(h, BACK, 2) == Ok((Copy, 3)) && Fetch(h, BACK, 3) == Ok((Copy, 4))
  {
    BackOperands();
    hide DecodeU, DecodeS, FetchExtended;
  }

  lemma BackExtended(h: Header)
    requires h.opcodeBase == 13
    ensures Fetch(h, BACK, 4) == Ok((SetDiscriminator(0), 1)) && Fetch(h, BACK, 1) == Ok((EndSequence, 4))
  {
    BackOperands();
    hide DecodeU, DecodeS;
    assert FetchExtended(h, BACK, 10) == Ok((SetDiscriminator(0), 12)) && Target(0xFFFF_FFF7, 10) == 1;
    assert FetchExtended(h, BACK, 3) == Ok((EndSequence, 4)) && Target(1, 3) == 4;
    hide FetchExtended, Target;
  }

  lemma BackOperands()
    ensures DecodeS(BACK, 1) == Ok((0, 2)) && DecodeU(BACK, 2) == Ok((1, 3))
    ensures DecodeU(BACK, 5) == Ok((0xFFFF_FFF7, 10)) && DecodeU(BACK, 11) == Ok((0, 12))
  {
    hide DecodeU, DecodeS;
    SmallOperands();
    LongOperand();
  }

  lemma SmallOperands()
    ensures DecodeS(BACK, 1) == Ok((0, 2)) && DecodeU(BACK, 2) == Ok((1, 3)) && DecodeU(BACK, 11) == Ok((0, 12))
  {
    hide DecodeU, DecodeS;
    ShlConstants(1);
    assert Groups(0, 1) == BACK[1..2] == BACK[11..12] && Groups(1, 1) == BACK[2..3];
    assert Pow2(6) == 0x40;
    RoundTripS(BACK, 1, 0, 1);
    RoundTripU(BACK, 2, 1, 1);
    RoundTripU(BACK, 11, 0, 1);
  }

  lemma LongOperand()
    ensures DecodeU(BACK, 5) == Ok((0xFFFF_FFF7, 10))
  {
    hide DecodeU;
    assert Groups(0xF, 1) == [0x0F];
    assert Groups(0x7FF, 2) == [0xFF, 0x0F];
    assert Groups(0x3_FFFF, 3) == [0xFF, 0xFF, 0x0F];
    assert Groups(0x1FF_FFFF, 4) == [0xFF, 0xFF, 0xFF, 0x0F];
    assert Groups(0xFFFF_FFF7, 5) == [0xF7, 0xFF, 0xFF, 0xFF, 0x0F] == BACK[5..10];
    ThirtyFive();
    RoundTripU(BACK, 5, 0xFFFF_FFF7, 5);
  }
}
