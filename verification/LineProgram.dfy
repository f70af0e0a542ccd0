/** Line programs as bytes: fetching an instruction, running a program, and encoding one
    (section 6.2.5 of the DWARF 4 standard). */
module LineProgram {
  import opened Words
  import Cursors
  import opened Leb128
  import opened LineTable

  const DW_LNS_COPY: byte := 1
  const DW_LNS_ADVANCE_PC: byte := 2
  const DW_LNS_ADVANCE_LINE: byte := 3
  const DW_LNS_SET_FILE: byte := 4
  const DW_LNS_SET_COLUMN: byte := 5
  const DW_LNS_NEGATE_STMT: byte := 6
  const DW_LNS_SET_BASIC_BLOCK: byte := 7
  const DW_LNS_CONST_ADD_PC: byte := 8
  const DW_LNS_FIXED_ADVANCE_PC: byte := 9
  const DW_LNS_SET_PROLOGUE_END: byte := 10
  const DW_LNS_SET_EPILOGUE_BEGIN: byte := 11
  const DW_LNS_SET_ISA: byte := 12
  const DW_LNE_END_SEQUENCE: byte := 1
  const DW_LNE_SET_ADDRESS: byte := 2
  const DW_LNE_DEFINE_FILE: byte := 3
  const DW_LNE_SET_DISCRIMINATOR: byte := 4

  /** Width of addresses and header lengths: it follows the DWARF format, not the target. */
  function AddressWidth(is64: bool): nat {
    if is64 then 8 else 4
  }

  /** `c.move(offset)` after an extended opcode: a move outside the buffer does nothing. */
  function Moved(size: nat, at: nat, target: int): nat {
    if 0 <= target <= size then target else at
  }

  /** Where an extended opcode ends, from its declared length and the offset after that
      length: both the length and the sum are converted to `int`. */
  function Target(len: nat, at: nat): int {
    I32(I32(len) + at)
  }

  /** An instruction taking one unsigned operand. */
  function WithOperand(d: Result<(nat, nat)>, make: nat -> Instr): (f: Result<(Instr, nat)>)
    ensures f.Fail? ==> d == Fail(f.fault)
  {
    var (v, next) :- d;
    Ok((make(v), next))
  }

  function FetchExtended(h: Header, bytes: seq<byte>, at: nat): (f: Result<(Instr, nat)>)
    ensures f.Ok? ==> at < f.value.1 <= |bytes|
    ensures f != Fail(Endless)
  {
    if at >= |bytes| then Fail(DebugLineError)
    else match bytes[at]
      case DW_LNE_END_SEQUENCE => Ok((EndSequence, at + 1))
      case DW_LNE_SET_ADDRESS =>
        var w := AddressWidth(h.is64);
        if at + 1 + w > |bytes| then Fail(DebugLineError)
        else Ok((SetAddress(Cursors.Word(h.order, bytes, at + 1, w)), at + 1 + w))
      case DW_LNE_DEFINE_FILE => Fail(Unsupported)
      case DW_LNE_SET_DISCRIMINATOR => WithOperand(DecodeU(bytes, at + 1), (v: nat) => SetDiscriminator(v))
      case _ => Fail(BadExtendedOpcode)
  }

  /** The instruction at an offset, and the offset of the next one. */
  function Fetch(h: Header, bytes: seq<byte>, off: nat): (f: Result<(Instr, nat)>)
    ensures f.Ok? ==> off < |bytes| && f.value.1 <= |bytes|
    ensures f != Fail(Endless)
  {
    if off >= |bytes| then Fail(DebugLineError)
    else
      var op := bytes[off];
      if op >= h.opcodeBase then Ok((Special(op - h.opcodeBase), off + 1))
      else match op
        case 0 =>
          var (len, at) :- DecodeU(bytes, off + 1);
          var (i, next) :- FetchExtended(h, bytes, at);
          Ok((i, Moved(|bytes|, next, Target(len, at))))
        case DW_LNS_COPY => Ok((Copy, off + 1))
        case DW_LNS_ADVANCE_PC => WithOperand(DecodeU(bytes, off + 1), (v: nat) => AdvancePcBy(v))
        case DW_LNS_ADVANCE_LINE =>
          var (v, next) :- DecodeS(bytes, off + 1);
          Ok((AdvanceLineBy(v), next))
        case DW_LNS_SET_FILE => WithOperand(DecodeU(bytes, off + 1), (v: nat) => SetFile(v))
        case DW_LNS_SET_COLUMN => WithOperand(DecodeU(bytes, off + 1), (v: nat) => SetColumn(v))
        case DW_LNS_NEGATE_STMT => Ok((NegateStmt, off + 1))
        case DW_LNS_SET_BASIC_BLOCK => Ok((SetBasicBlock, off + 1))
        case DW_LNS_CONST_ADD_PC => Ok((ConstAddPc, off + 1))
        case DW_LNS_FIXED_ADVANCE_PC =>
          if off + 3 > |bytes| then Fail(DebugLineError)
          else Ok((FixedAdvancePc(Cursors.Word(h.order, bytes, off + 1, 2)), off + 3))
        case DW_LNS_SET_PROLOGUE_END => Ok((SetPrologueEnd, off + 1))
        case DW_LNS_SET_EPILOGUE_BEGIN => Ok((SetEpilogueBegin, off + 1))
        case DW_LNS_SET_ISA => WithOperand(DecodeU(bytes, off + 1), (v: nat) => SetIsa(v))
        case _ => Fail(BadStandardOpcode)
  }

  /** One turn of `runSM`. */
  function Step(h: Header, n: nat, bytes: seq<byte>, end: nat, s: State, off: nat): (r: Result<(State, nat)>)
    ensures r.Ok? ==> r.value.1 <= |bytes|
    ensures r != Fail(Endless)
  {
    if off >= end then Fail(EndlessProgram)
    else
      var (i, next) :- Fetch(h, bytes, off);
      var t :- Apply(h, n, s, i);
      Ok((t, next))
  }

  /** At most k turns of `runSM`: it stops after the turn of an `end_sequence`. */
  function Turns(h: Header, n: nat, bytes: seq<byte>, end: nat, s: State, off: nat, k: nat): (r: Result<(State, nat)>)
    ensures r != Fail(Endless)
    decreases k
  {
    if k == 0 || s.regs.endSequence then Ok((s, off))
    else
      var (t, next) :- Step(h, n, bytes, end, s, off);
      Turns(h, n, bytes, end, t, next, k - 1)
  }

  /** The loop has ended, in `end_sequence` or in a fault. */
  predicate Halted(r: Result<(State, nat)>) {
    r.Fail? || r.value.0.regs.endSequence
  }

  /** How a turn goes on depends on the offset, the line register and whether the file register
      is good: a loop that ends does so within this many turns (RunDecides). */
  function TurnLimit(size: nat): (limit: nat)
    ensures limit > size
  {
    TWO_32 * (2 * size + 2)
  }

  /** `runSM`, however many turns it takes; Endless if no number of turns is enough. */
  function Run(h: Header, n: nat, bytes: seq<byte>, end: nat, s: State, off: nat): Result<(State, nat)> {
    var r := Turns(h, n, bytes, end, s, off, TurnLimit(|bytes|));
    if Halted(r) then r else Fail(Endless)
  }

  lemma {:induction false} TurnsStay(h: Header, n: nat, bytes: seq<byte>, end: nat, s: State, off: nat, k: nat)
    requires off <= |bytes|
    ensures var r := Turns(h, n, bytes, end, s, off, k);
            r.Ok? ==> r.value.1 <= |bytes|
    decreases k
  {
    hide Step;
    if k > 0 && !s.regs.endSequence {
      var r := Step(h, n, bytes, end, s, off);
      if r.Ok? {
        TurnsStay(h, n, bytes, end, r.value.0, r.value.1, k - 1);
      }
    }
  }

  // ----- the instructions of a program

  /** The instructions met in some turns, and where they leave the cursor or why there is no
      further one. */
  datatype Listing = Listing(instrs: seq<Instr>, stop: Result<nat>) {

    predicate Ended() {
      stop.Ok? && instrs != [] && instrs[|instrs| - 1] == EndSequence
    }

    predicate GoesOn() {
      stop.Ok? && !Ended()
    }
  }

  /** The instructions from an offset up to the first `end_sequence`, at most k of them. */
  function Disassemble(h: Header, bytes: seq<byte>, end: nat, off: nat, k: nat): (l: Listing)
    ensures l.stop != Fail(Endless)
    decreases k
  {
    if k == 0 then Listing([], Ok(off))
    else if off >= end then Listing([], Fail(EndlessProgram))
    else
      var f := Fetch(h, bytes, off);
      if f.Fail? then Listing([], Fail(f.fault))
      else
        var (i, next) := f.value;
        if i == EndSequence then Listing([i], Ok(next))
        else
          var l := Disassemble(h, bytes, end, next, k - 1);
          Listing([i] + l.instrs, l.stop)
  }

  /** The program at an offset. */
  function Program(h: Header, bytes: seq<byte>, end: nat, off: nat): (l: Listing)
    ensures l.stop != Fail(Endless)
  {
    Disassemble(h, bytes, end, off, TurnLimit(|bytes|))
  }

  lemma OnlyEndSequenceEnds(h: Header, n: nat, s: State, i: Instr)
    requires Apply(h, n, s, i).Ok? && !s.regs.endSequence
    ensures Apply(h, n, s, i).value.regs.endSequence <==> i == EndSequence
  {
  }

  /** The outcome of instructions that were executed, given where they leave the cursor. */
  function Outcome(e: Result<State>, stop: Result<nat>): Result<(State, nat)> {
    var s :- e;
    var next :- stop;
    Ok((s, next))
  }

  /** Some turns over any bytes are the execution of the instructions met: the fault of an
      instruction comes first, then that of the byte that is no instruction. */
  lemma {:induction false} TurnsAreExec(h: Header, n: nat, bytes: seq<byte>, end: nat, s: State, off: nat, k: nat)
    requires !s.regs.endSequence
    ensures var l := Disassemble(h, bytes, end, off, k);
            var e := Exec(h, n, s, l.instrs);
            && Turns(h, n, bytes, end, s, off, k) == Outcome(e, l.stop)
            && (e.Ok? && l.stop.Ok? ==> (e.value.regs.endSequence <==> l.Ended()))
    decreases k
  {
    hide Fetch, Apply;
    if k > 0 && off < end {
      var f := Fetch(h, bytes, off);
      if f.Ok? {
        var (i, next) := f.value;
        var a := Apply(h, n, s, i);
        if a.Ok? {
          OnlyEndSequenceEnds(h, n, s, i);
        }
        if i == EndSequence {
          ExecOne(h, n, s, i);
        } else {
          var l := Disassemble(h, bytes, end, next, k - 1);
          ExecStep(h, n, s, i, l.instrs);
          if a.Ok? {
            TurnsAreExec(h, n, bytes, end, a.value, next, k - 1);
          }
        }
      }
    }
  }

  /** A run of any bytes is the execution of its program, fault for fault; it is endless
      exactly when the program goes on and its instructions have no fault. */
  lemma RunIsExec(h: Header, n: nat, bytes: seq<byte>, end: nat, s: State, off: nat)
    requires !s.regs.endSequence
    ensures var l := Program(h, bytes, end, off);
            var e := Exec(h, n, s, l.instrs);
            Run(h, n, bytes, end, s, off) ==
            if e.Ok? && l.GoesOn() then Fail(Endless) else Outcome(e, l.stop)
  {
    hide Turns, Disassemble, Exec;
    TurnsAreExec(h, n, bytes, end, s, off, TurnLimit(|bytes|));
  }

  lemma ExecOne(h: Header, n: nat, s: State, i: Instr)
    ensures Exec(h, n, s, [i]) == Apply(h, n, s, i)
  {
    hide Apply;
    var a := Apply(h, n, s, i);
    assert [i][1..] == [];
    if a.Ok? {
      assert Exec(h, n, a.value, []) == a;
    }
  }

  lemma ExecStep(h: Header, n: nat, s: State, i: Instr, p: seq<Instr>)
    ensures var a := Apply(h, n, s, i);
            Exec(h, n, s, [i] + p) == if a.Ok? then Exec(h, n, a.value, p) else a
  {
    hide Apply;
    assert ([i] + p)[1..] == p;
  }

  // ----- opcodes by number

  /** The standard opcodes, by the numbers that section 7.21 of the DWARF 4 standard gives them. */
  lemma StandardNumbers(h: Header, bytes: seq<byte>, off: nat)
    requires off < |bytes| && 0 < bytes[off] < h.opcodeBase
    ensures var (f, op, u, d) := (Fetch(h, bytes, off), bytes[off], DecodeU(bytes, off + 1), DecodeS(bytes, off + 1));
            && (op == 1 ==> f == Ok((Copy, off + 1)))
            && (op == 2 && u.Ok? ==> f == Ok((AdvancePcBy(u.value.0), u.value.1)))
            && (op == 3 && d.Ok? ==> f == Ok((AdvanceLineBy(d.value.0), d.value.1)))
            && (op == 4 && u.Ok? ==> f == Ok((SetFile(u.value.0), u.value.1)))
            && (op == 5 && u.Ok? ==> f == Ok((SetColumn(u.value.0), u.value.1)))
            && (op == 6 ==> f == Ok((NegateStmt, off + 1)))
            && (op == 7 ==> f == Ok((SetBasicBlock, off + 1)))
            && (op == 8 ==> f == Ok((ConstAddPc, off + 1)))
            && (op == 9 && off + 3 <= |bytes| ==>
                  f == Ok((FixedAdvancePc(Cursors.Word(h.order, bytes, off + 1, 2)), off + 3)))
            && (op == 10 ==> f == Ok((SetPrologueEnd, off + 1)))
            && (op == 11 ==> f == Ok((SetEpilogueBegin, off + 1)))
            && (op == 12 && u.Ok? ==> f == Ok((SetIsa(u.value.0), u.value.1)))
            && (op > 12 ==> f == Fail(BadStandardOpcode))
  {
    hide DecodeU, DecodeS, Cursors.Word;
  }

  /** Special opcodes start at opcode_base. */
  lemma SpecialNumbers(h: Header, bytes: seq<byte>, off: nat)
    requires off < |bytes| && bytes[off] >= h.opcodeBase
    ensures Fetch(h, bytes, off) == Ok((Special(bytes[off] - h.opcodeBase), off + 1))
  {
  }

  /** The extended opcodes, by number: after a 0 and the declared length. */
  lemma ExtendedNumbers(h: Header, bytes: seq<byte>, off: nat)
    requires off < |bytes| && bytes[off] == 0 < h.opcodeBase && DecodeU(bytes, off + 1).Ok?
    requires DecodeU(bytes, off + 1).value.1 < |bytes|
    ensures var (f, at) := (Fetch(h, bytes, off), DecodeU(bytes, off + 1).value.1);
            var (op, d, w) := (bytes[at], DecodeU(bytes, at + 1), if h.is64 then 8 else 4);
            && (op == 1 ==> f.Ok? && f.value.0 == EndSequence)
            && (op == 2 && at + 1 + w <= |bytes| ==>
                  f.Ok? && f.value.0 == SetAddress(Cursors.Word(h.order, bytes, at + 1, w)))
            && (op == 3 ==> f == Fail(Unsupported))
            && (op == 4 && d.Ok? ==> f.Ok? && f.value.0 == SetDiscriminator(d.value.0))
            && (op == 0 || op > 4 ==> f == Fail(BadExtendedOpcode))
  {
    hide DecodeU, DecodeS, Cursors.Word, Target;
  }

  // ----- opcodes the code does not know

  /** The standard skips a standard opcode it does not know by standard_opcode_lengths, and an
      extended one by its length. These are exactly the ones that end the code's reading. */
  lemma UnknownOpcodes(h: Header, bytes: seq<byte>, off: nat)
    ensures Fetch(h, bytes, off) == Fail(BadStandardOpcode) <==>
            off < |bytes| && DW_LNS_SET_ISA < bytes[off] < h.opcodeBase
    ensures Fetch(h, bytes, off) == Fail(BadExtendedOpcode) <==>
            && off < |bytes| && bytes[off] == 0 < h.opcodeBase && DecodeU(bytes, off + 1).Ok?
            && var at := DecodeU(bytes, off + 1).value.1;
            at < |bytes| && !(DW_LNE_END_SEQUENCE <= bytes[at] <= DW_LNE_SET_DISCRIMINATOR)
  {
    hide DecodeU, DecodeS, Cursors.Word, Target;
  }

  // ----- progress

  /** A turn moves the cursor forward except when an extended opcode's target, after the
      conversions to `int`, is a position already passed. */
  lemma FetchAdvances(h: Header, bytes: seq<byte>, off: nat)
    requires Fetch(h, bytes, off).Ok?
    ensures Fetch(h, bytes, off).value.1 <= off <==>
            && bytes[off] == 0 < h.opcodeBase && DecodeU(bytes, off + 1).Ok?
            && var (len, at) := DecodeU(bytes, off + 1).value;
            0 <= Target(len, at) <= off
  {
    hide DecodeU, DecodeS, FetchExtended, Target;
  }
}
