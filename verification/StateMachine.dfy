/** The registers as the object the reader updates, and the line-program loop over it. */
module StateMachines {
  import opened Words
  import Bits
  import opened Arithmetic
  import ByteOrder
  import opened Cursors
  import opened Leb128
  import opened LineTable
  import opened LineProgram
  import opened DebugIndex

  class StateMachine {
    var version: nat
    var address: nat
    var opIndex: nat
    var file: nat
    var line: nat
    var column: nat
    var isa: nat
    var discriminator: nat
    var endSequence: bool
    var flags: Flags
    var lineBase: int
    var lineRange: byte
    var opcodeBase: byte
    var minInst: byte
    var maxOps: byte
    var includeDirectories: seq<seq<byte>>

    constructor ()
      ensures View() == INITIAL && includeDirectories == [[46]]
      ensures lineBase == 0 && lineRange == opcodeBase == minInst == maxOps == 0
    {
      version, address, opIndex, file, line, column := 0, 0, 0, 1, 1, 0;
      isa, discriminator, endSequence := 0, 0, false;
      flags := Flags(false, false, false, false);
      lineBase, lineRange, opcodeBase, minInst, maxOps := 0, 0, 0, 0, 0;
      includeDirectories := [[46]];
    }

    function View(): Regs
      reads this
    {
      Regs(address, opIndex, file, line, column, isa, discriminator, flags, endSequence)
    }

    predicate Matches(h: Header)
      reads this
    {
      && h.minInst == minInst && h.maxOps == maxOps && h.lineBase == lineBase
      && h.lineRange == lineRange && h.opcodeBase == opcodeBase
    }

    method AdvanceLine(adv: int)
      modifies `line
      ensures View() == LineTable.AdvanceLine(old(View()), adv)
    {
      line := U32(line + adv);
    }

    method AdvancePC(adv: nat, ghost h: Header)
      requires Matches(h) && maxOps > 0
      modifies `address, `opIndex
      ensures View() == AdvancePc(h, old(View()), adv)
    {
      if maxOps == 1 {
        address := U64(address + minInst * adv);
      } else {
        var t := U64(opIndex + adv);
        address := U64(address + minInst * Div(t, maxOps));
        opIndex := Mod(t, maxOps);
      }
    }
  }

  /** A line of the unit is a row of the semantics, its file looked up in the unit. */
  predicate ShowsRow(files: seq<File>, num: LineNumber, row: Row) {
    && 1 <= row.file <= |files|
    && num == LineNumber(row.addr, files[row.file - 1], row.line, row.col, row.flags, row.isa, row.disc, row.opi)
  }

  ghost predicate Shows(cu: CompilationUnit, rows: seq<Row>)
    reads cu
  {
    |cu.lines| == |rows| && forall i :: 0 <= i < |rows| ==> ShowsRow(cu.files, cu.lines[i], rows[i])
  }

  /** The objects are in the state a computation of the semantics ends in, or it failed with
      the same fault. */
  ghost predicate Reached(c: Cursor, sm: StateMachine, cu: CompilationUnit, h: Header,
                          r: Result<(State, nat)>, res: Result<()>)
    reads c, sm, cu
  {
    match res
    case Ok(_) =>
      r.Ok? && sm.View() == r.value.0.regs && Shows(cu, r.value.0.rows) && c.off == r.value.1 && sm.Matches(h)
    case Fail(f) => r == Fail(f)
  }

  method RecordLine(sm: StateMachine, cu: CompilationUnit, ghost rows: seq<Row>) returns (res: Result<()>)
    requires Shows(cu, rows)
    modifies sm`flags, sm`discriminator, cu`lines
    ensures var r := Record(|cu.files|, State(old(sm.View()), rows));
            match res
            case Ok(_) => r.Ok? && sm.View() == r.value.regs && Shows(cu, r.value.rows)
            case Fail(f) => r == Fail(f)
  {
    if !(1 <= sm.file <= |cu.files|) {
      return Fail(Undefined);
    }
    cu.AddLine(LineNumber(sm.address, cu.files[sm.file - 1], I32(sm.line), I32(sm.column), sm.flags,
                          U8(sm.isa), U8(sm.discriminator), U8(sm.opIndex)));
    sm.flags := Flags(sm.flags.isStmt, true, true, true);
    sm.discriminator := 0;
    return Ok(());
  }

  /** A special opcode. */
  method Special(c: Cursor, sm: StateMachine, cu: CompilationUnit, opcode: byte, ghost h: Header, ghost s: State)
    returns (res: Result<()>)
    requires sm.Matches(h) && sm.View() == s.regs && Shows(cu, s.rows)
    modifies sm, cu`lines
    ensures var a := Apply(h, |cu.files|, s, Instr.Special(opcode));
            Reached(c, sm, cu, h, if a.Ok? then Ok((a.value, c.off)) else Fail(a.fault), res)
  {
    if sm.lineRange == 0 || sm.maxOps == 0 {
      return Fail(Undefined);
    }
    if LineOverflows(sm.View(), sm.lineBase + Mod(opcode, sm.lineRange)) {
      return Fail(Undefined);
    }
    sm.AdvanceLine(sm.lineBase + Mod(opcode, sm.lineRange));
    sm.AdvancePC(Div(opcode, sm.lineRange), h);
    res := RecordLine(sm, cu, s.rows);
  }

  /** Applying a fetched instruction. */
  function Applied(h: Header, n: nat, s: State, f: Result<(Instr, nat)>): Result<(State, nat)> {
    var (i, next) :- f;
    var a :- Apply(h, n, s, i);
    Ok((a, next))
  }

  /** The standard opcodes with a LEB128 operand. */
  method WithLeb128(c: Cursor, sm: StateMachine, cu: CompilationUnit, opcode: byte, ghost h: Header, ghost s: State)
    returns (res: Result<()>)
    requires c.Valid() && c.off > 0 && c.data[c.off - 1] == opcode && opcode < sm.opcodeBase
    requires opcode in {DW_LNS_ADVANCE_PC, DW_LNS_ADVANCE_LINE, DW_LNS_SET_FILE, DW_LNS_SET_COLUMN, DW_LNS_SET_ISA}
    requires sm.Matches(h) && sm.View() == s.regs && Shows(cu, s.rows)
    requires h.order == c.decoder.FileOrder()
    modifies c`off, sm, cu`lines
    ensures c.Valid()
    ensures Reached(c, sm, cu, h, Applied(h, |cu.files|, s, Fetch(h, c.data[..], old(c.off) - 1)), res)
  {
    hide DecodeU, DecodeS, Word, Div, Mod, Shows, Record, AdvancePc;
    if opcode == DW_LNS_ADVANCE_LINE {
      var l :- ReadLEB128S(c);
      if LineOverflows(sm.View(), l) {
        return Fail(Undefined);
      }
      sm.AdvanceLine(l);
      return Ok(());
    }
    var v :- ReadLEB128U(c);
    match opcode {
      case DW_LNS_ADVANCE_PC =>
        if sm.maxOps == 0 {
          return Fail(Undefined);
        }
        sm.AdvancePC(v, h);
      case DW_LNS_SET_FILE =>
        sm.file := U32(v);
      case DW_LNS_SET_COLUMN =>
        sm.column := U32(v);
      case _ =>
        sm.isa := U32(v);
    }
    return Ok(());
  }

  /** The standard opcodes. */
  method Standard(c: Cursor, sm: StateMachine, cu: CompilationUnit, opcode: byte, ghost h: Header, ghost s: State)
    returns (res: Result<()>)
    requires c.Valid() && c.off > 0 && c.data[c.off - 1] == opcode && 0 < opcode < sm.opcodeBase
    requires sm.Matches(h) && sm.View() == s.regs && Shows(cu, s.rows)
    requires h.order == c.decoder.FileOrder()
    modifies c`off, sm, cu`lines
    ensures c.Valid()
    ensures Reached(c, sm, cu, h, Applied(h, |cu.files|, s, Fetch(h, c.data[..], old(c.off) - 1)), res)
  {
    hide DecodeU, DecodeS, Word, Div, Mod, Shows, Record, AdvancePc;
    match opcode {
      case DW_LNS_COPY =>
        res := RecordLine(sm, cu, s.rows);
      case DW_LNS_NEGATE_STMT =>
        sm.flags := sm.flags.(isStmt := !sm.flags.isStmt);
        return Ok(());
      case DW_LNS_SET_BASIC_BLOCK =>
        sm.flags := sm.flags.(basicBlock := true);
        return Ok(());
      case DW_LNS_CONST_ADD_PC =>
        if sm.lineRange == 0 || sm.maxOps == 0 {
          return Fail(Undefined);
        }
        sm.AdvancePC(Div(255 - sm.opcodeBase, sm.lineRange), h);
        return Ok(());
      case DW_LNS_FIXED_ADVANCE_PC =>
        var ok, o := c.Read(2);
        if !ok {
          return Fail(DebugLineError);
        }
        sm.address := U64(sm.address + o);
        sm.opIndex := 0;
        return Ok(());
      case DW_LNS_SET_PROLOGUE_END =>
        sm.flags := sm.flags.(prologueEnd := true);
        return Ok(());
      case DW_LNS_SET_EPILOGUE_BEGIN =>
        sm.flags := sm.flags.(epilogueBegin := true);
        return Ok(());
      case _ =>
        if opcode > DW_LNS_SET_ISA {
          return Fail(BadStandardOpcode);
        }
        res := WithLeb128(c, sm, cu, opcode, h, s);
    }
  }

  method ReadAddress(c: Cursor, is64: bool) returns (res: Result<nat>)
    requires c.Valid()
    modifies c`off
    ensures c.Valid()
    ensures var (w, off) := (AddressWidth(is64), old(c.off));
            if off + w <= c.data.Length then
              res == Ok(Word(c.decoder.FileOrder(), c.data[..], off, w)) && c.off == off + w
            else res == Fail(DebugLineError)
  {
    var ok, a := c.Read(if is64 then 8 else 4);
    return if ok then Ok(a) else Fail(DebugLineError);
  }

  /** The opcode after the declared length of an extended instruction, and its effect. */
  method ExtendedOpcode(c: Cursor, sm: StateMachine, cu: CompilationUnit, ghost h: Header, is64: bool, ghost s: State)
    returns (res: Result<()>)
    requires c.Valid() && sm.Matches(h) && sm.View() == s.regs && Shows(cu, s.rows)
    requires h.order == c.decoder.FileOrder() && h.is64 == is64
    modifies c`off, sm, cu`lines
    ensures c.Valid()
    ensures Reached(c, sm, cu, h, Applied(h, |cu.files|, s, FetchExtended(h, c.data[..], old(c.off))), res)
  {
    hide DecodeU, Word, Shows, Record;
    var ok, opcode := c.Read(1);
    if !ok {
      return Fail(DebugLineError);
    }
    match opcode {
      case DW_LNE_END_SEQUENCE =>
        res := RecordLine(sm, cu, s.rows);
        sm.endSequence := true;
      case DW_LNE_SET_ADDRESS =>
        var a :- ReadAddress(c, is64);
        AddressBelow(c.decoder.FileOrder(), c.data[..], old(c.off) + 1, AddressWidth(is64));
        sm.address := a;
        return Ok(());
      case DW_LNE_DEFINE_FILE =>
        return Fail(Unsupported);
      case DW_LNE_SET_DISCRIMINATOR =>
        var v :- ReadLEB128U(c);
        sm.discriminator := U32(v);
        return Ok(());
      case _ =>
        return Fail(BadExtendedOpcode);
    }
  }

  /** An address that was read is a 64-bit word already. */
  lemma AddressBelow(o: ByteOrder.Order, bytes: seq<byte>, off: nat, w: nat)
    requires off + w <= |bytes| && (w == 4 || w == 8)
    ensures U64(Word(o, bytes, off, w)) == Word(o, bytes, off, w)
  {
    ByteOrder.ValueBound(o, bytes[off..off + w]);
    Bits.PowBelow(8 * w);
  }

  /** An extended instruction: its length, its effect, and the move to its declared end. */
  method Extended(c: Cursor, sm: StateMachine, cu: CompilationUnit, ghost h: Header, is64: bool, ghost s: State)
    returns (res: Result<()>)
    requires c.Valid() && c.off > 0 && c.data[c.off - 1] == 0 < sm.opcodeBase
    requires sm.Matches(h) && sm.View() == s.regs && Shows(cu, s.rows)
    requires h.order == c.decoder.FileOrder() && h.is64 == is64
    modifies c`off, sm, cu`lines
    ensures c.Valid()
    ensures Reached(c, sm, cu, h, Applied(h, |cu.files|, s, Fetch(h, c.data[..], old(c.off) - 1)), res)
  {
    hide DecodeU, FetchExtended, Apply;
    var len :- ReadLEB128U(c);
    var target := Target(len, c.off);
    res := ExtendedOpcode(c, sm, cu, h, is64, s);
    if res.Ok? && target >= 0 {
      var moved := c.Move(target);
    }
  }

  /** One turn of the loop. */
  method Turn(c: Cursor, sm: StateMachine, cu: CompilationUnit, end: nat,
              ghost h: Header, is64: bool, ghost s: State)
    returns (res: Result<()>)
    requires c.Valid() && sm.Matches(h) && sm.View() == s.regs && Shows(cu, s.rows)
    requires h.order == c.decoder.FileOrder() && h.is64 == is64
    modifies c`off, sm, cu`lines
    ensures c.Valid()
    ensures Reached(c, sm, cu, h, Step(h, |cu.files|, c.data[..], end, s, old(c.off)), res)
  {
    if c.off >= end {
      return Fail(EndlessProgram);
    }
    hide Apply, DecodeU, DecodeS, FetchExtended, Word, Shows;
    var ok, opcode := c.Read(1);
    if !ok {
      return Fail(DebugLineError);
    }
    if opcode >= sm.opcodeBase {
      res := Special(c, sm, cu, opcode - sm.opcodeBase, h, s);
    } else if opcode == 0 {
      res := Extended(c, sm, cu, h, is64, s);
    } else {
      res := Standard(c, sm, cu, opcode, h, s);
    }
  }

  /** At most k turns of the loop: on any bytes they refine the turns of the semantics. */
  method RunTurns(c: Cursor, sm: StateMachine, cu: CompilationUnit, end: nat, k: nat,
                  ghost h: Header, is64: bool, ghost s0: State)
    returns (res: Result<()>)
    requires c.Valid() && sm.Matches(h) && sm.View() == s0.regs && Shows(cu, s0.rows)
    requires h.order == c.decoder.FileOrder() && h.is64 == is64
    modifies c`off, sm, cu`lines
    ensures c.Valid()
    ensures Reached(c, sm, cu, h, Turns(h, |cu.files|, c.data[..], end, s0, old(c.off), k), res)
  {
    hide Step, Shows;
    ghost var s := s0;
    var left := k;
    while !sm.endSequence && left > 0
      invariant c.Valid() && sm.Matches(h) && sm.View() == s.regs && Shows(cu, s.rows)
      invariant Turns(h, |cu.files|, c.data[..], end, s0, old(c.off), k) ==
                Turns(h, |cu.files|, c.data[..], end, s, c.off, left)
    {
      ghost var step := Step(h, |cu.files|, c.data[..], end, s, c.off);
      var r := Turn(c, sm, cu, end, h, is64, s);
      if r.Fail? {
        return r;
      }
      s := step.value.0;
      left := left - 1;
    }
    return Ok(());
  }

  /** `runSM`: the loop refines the run of the semantics, on any bytes. The limit stops only a
      loop that would never end. */
  method RunSM(c: Cursor, sm: StateMachine, cu: CompilationUnit, end: nat,
               ghost h: Header, is64: bool, ghost s0: State)
    returns (res: Result<()>)
    requires c.Valid() && sm.Matches(h) && sm.View() == s0.regs && Shows(cu, s0.rows)
    requires h.order == c.decoder.FileOrder() && h.is64 == is64
    modifies c`off, sm, cu`lines
    ensures c.Valid()
    ensures Reached(c, sm, cu, h, Run(h, |cu.files|, c.data[..], end, s0, old(c.off)), res)
  {
    hide Turns, Shows;
    res := RunTurns(c, sm, cu, end, TurnLimit(c.data.Length), h, is64, s0);
    if res.Ok? && !sm.endSequence {
      res := Fail(Endless);
    }
  }
}
