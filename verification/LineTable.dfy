/** The line-number state machine, one instruction at a time: registers (section 6.2.2 of
    the DWARF 4 standard), rows, and what each instruction does to them. */
module LineTable {
  import opened Words
  import opened Arithmetic
  import ByteOrder

  datatype Flags = Flags(isStmt: bool, basicBlock: bool, prologueEnd: bool, epilogueBegin: bool)

  /** What the unit header fixes for the whole line program. */
  datatype Header = Header(
    order: ByteOrder.Order, is64: bool,
    minInst: byte, maxOps: byte, lineBase: int, lineRange: byte, opcodeBase: byte)

  datatype Regs = Regs(
    address: nat, opIndex: nat, file: nat, line: nat, column: nat, isa: nat,
    discriminator: nat, flags: Flags, endSequence: bool)

  /** A row of the table. The file is the 1-based index in the file table of the unit. */
  datatype Row = Row(addr: nat, file: nat, line: int, col: int, flags: Flags,
                     isa: nat, disc: nat, opi: nat)

  datatype State = State(regs: Regs, rows: seq<Row>)

  datatype Instr =
    | Special(op: byte)                 // opcode minus opcode_base
    | Copy
    | AdvancePcBy(adv: nat)
    | AdvanceLineBy(delta: int)
    | SetFile(file: nat)
    | SetColumn(column: nat)
    | NegateStmt
    | SetBasicBlock
    | ConstAddPc
    | FixedAdvancePc(bytes: nat)
    | SetPrologueEnd
    | SetEpilogueBegin
    | SetIsa(isa: nat)
    | EndSequence
    | SetAddress(address: nat)
    | SetDiscriminator(discriminator: nat)

  /** The registers of a new StateMachine, before the header sets IS_STMT. */
  const INITIAL: Regs := Regs(0, 0, 1, 1, 0, 0, 0, Flags(false, false, false, false), false)

  function AdvancePc(h: Header, r: Regs, adv: nat): Regs
    requires h.maxOps > 0
  {
    if h.maxOps == 1 then r.(address := U64(r.address + h.minInst * adv))
    else
      var t := U64(r.opIndex + adv);
      r.(address := U64(r.address + h.minInst * Div(t, h.maxOps)), opIndex := Mod(t, h.maxOps))
  }

  function AdvanceLine(r: Regs, delta: int): Regs {
    r.(line := U32(r.line + delta))
  }

  /** The sum of `advanceLine` is a signed 64-bit one. */
  predicate LineOverflows(r: Regs, delta: int) {
    r.line + delta >= TWO_63
  }

  /** `recordLine` for a unit of n files. It sets the three per-row flags. */
  function Record(n: nat, s: State): (t: Result<State>)
    ensures t != Fail(Endless)
  {
    var r := s.regs;
    if !(1 <= r.file <= n) then Fail(Undefined)
    else
      var row := Row(r.address, r.file, I32(r.line), I32(r.column), r.flags,
                     U8(r.isa), U8(r.discriminator), U8(r.opIndex));
      Ok(State(r.(flags := Flags(r.flags.isStmt, true, true, true), discriminator := 0), s.rows + [row]))
  }

  function Apply(h: Header, n: nat, s: State, i: Instr): (t: Result<State>)
    ensures t != Fail(Endless)
  {
    var r := s.regs;
    match i
    case Special(op) =>
      if h.lineRange == 0 || h.maxOps == 0 then Fail(Undefined)
      else if LineOverflows(r, h.lineBase + Mod(op, h.lineRange)) then Fail(Undefined)
      else
        var r1 := AdvanceLine(r, h.lineBase + Mod(op, h.lineRange));
        Record(n, s.(regs := AdvancePc(h, r1, Div(op, h.lineRange))))
    case Copy => Record(n, s)
    case AdvancePcBy(adv) =>
      if h.maxOps == 0 then Fail(Undefined) else Ok(s.(regs := AdvancePc(h, r, adv)))
    case AdvanceLineBy(delta) =>
      if LineOverflows(r, delta) then Fail(Undefined) else Ok(s.(regs := AdvanceLine(r, delta)))
    case SetFile(file) => Ok(s.(regs := r.(file := U32(file))))
    case SetColumn(column) => Ok(s.(regs := r.(column := U32(column))))
    case NegateStmt => Ok(s.(regs := r.(flags := r.flags.(isStmt := !r.flags.isStmt))))
    case SetBasicBlock => Ok(s.(regs := r.(flags := r.flags.(basicBlock := true))))
    case ConstAddPc =>
      if h.lineRange == 0 || h.maxOps == 0 then Fail(Undefined)
      else Ok(s.(regs := AdvancePc(h, r, Div(255 - h.opcodeBase, h.lineRange))))
    case FixedAdvancePc(bytes) => Ok(s.(regs := r.(address := U64(r.address + bytes), opIndex := 0)))
    case SetPrologueEnd => Ok(s.(regs := r.(flags := r.flags.(prologueEnd := true))))
    case SetEpilogueBegin => Ok(s.(regs := r.(flags := r.flags.(epilogueBegin := true))))
    case SetIsa(isa) => Ok(s.(regs := r.(isa := U32(isa))))
    case EndSequence =>
      var s' :- Record(n, s);
      Ok(s'.(regs := s'.regs.(endSequence := true)))
    case SetAddress(address) => Ok(s.(regs := r.(address := U64(address))))
    case SetDiscriminator(d) => Ok(s.(regs := r.(discriminator := U32(d))))
  }

  function Exec(h: Header, n: nat, s: State, p: seq<Instr>): (t: Result<State>)
    ensures t != Fail(Endless)
    decreases |p|
  {
    if p == [] then Ok(s)
    else
      var s' :- Apply(h, n, s, p[0]);
      Exec(h, n, s', p[1..])
  }

  lemma {:induction false} ExecConcat(h: Header, n: nat, s: State, p: seq<Instr>, q: seq<Instr>)
    ensures Exec(h, n, s, p + q) ==
            match Exec(h, n, s, p) case Ok(s') => Exec(h, n, s', q) case Fail(f) => Fail(f)
    decreases |p|
  {
    hide Apply;
    if p == [] {
      assert p + q == q;
    } else {
      assert (p + q)[0] == p[0] && (p + q)[1..] == p[1..] + q;
      var a := Apply(h, n, s, p[0]);
      if a.Ok? {
        ExecConcat(h, n, a.value, p[1..], q);
      }
    }
  }

  // ----- registers stay words, and op_index stays below max_ops

  predicate WellFormed(h: Header, r: Regs) {
    && r.address < TWO_64 && r.file < TWO_32 && r.line < TWO_32 && r.column < TWO_32
    && r.isa < TWO_32 && r.discriminator < TWO_32
    && (if h.maxOps == 0 then r.opIndex == 0 else r.opIndex < h.maxOps)
  }

  lemma ApplyWellFormed(h: Header, n: nat, s: State, i: Instr)
    requires WellFormed(h, s.regs) && Apply(h, n, s, i).Ok?
    ensures WellFormed(h, Apply(h, n, s, i).value.regs)
  {
  }

  /** Every state reached from the initial one is well-formed. */
  lemma {:induction false} ReachableWellFormed(h: Header, n: nat, s: State, p: seq<Instr>)
    requires WellFormed(h, s.regs) && Exec(h, n, s, p).Ok?
    ensures WellFormed(h, Exec(h, n, s, p).value.regs)
    decreases |p|
  {
    hide Apply, WellFormed;
    if p != [] {
      ApplyWellFormed(h, n, s, p[0]);
      ReachableWellFormed(h, n, Apply(h, n, s, p[0]).value, p[1..]);
    }
  }

  // ----- VLIW advance

  /** With q instruction steps, an advance raises max_ops * q + op_index by exactly `adv`;
      the special branch for max_ops == 1 is this same rule. */
  lemma AdvanceConserves(h: Header, r: Regs, adv: nat) returns (q: nat)
    requires h.maxOps > 0 && WellFormed(h, r) && r.opIndex + adv < TWO_64
    ensures h.maxOps * q + AdvancePc(h, r, adv).opIndex == r.opIndex + adv
    ensures AdvancePc(h, r, adv).opIndex < h.maxOps
    ensures AdvancePc(h, r, adv).address == U64(r.address + h.minInst * q)
  {
    hide Div, Mod;
    if h.maxOps == 1 {
      q := adv;
    } else {
      q := Div(r.opIndex + adv, h.maxOps);
      DivMod(r.opIndex + adv, h.maxOps);
    }
  }

  /** Two advances are one advance by the sum. */
  lemma AdvanceAdds(h: Header, r: Regs, a: nat, b: nat)
    requires h.maxOps > 0 && WellFormed(h, r) && r.opIndex + a + b < TWO_64
    ensures AdvancePc(h, AdvancePc(h, r, a), b) == AdvancePc(h, r, a + b)
  {
    AdvanceOnly(h, r, a);
    AdvanceOnly(h, AdvancePc(h, r, a), b);
    AdvanceOnly(h, r, a + b);
    AdvanceWellFormed(h, r, a);
    hide AdvancePc, WellFormed, U64;
    var r1 := AdvancePc(h, r, a);
    var q1 := AdvanceConserves(h, r, a);
    Nonnegative(q1, h.maxOps);
    var q2 := AdvanceConserves(h, r1, b);
    var q := AdvanceConserves(h, r, a + b);
    Distribute(q1, q2, h.maxOps);
    SameSplit(h.maxOps, q1 + q2, AdvancePc(h, r1, b).opIndex, q, AdvancePc(h, r, a + b).opIndex);
    Distribute(q1, q2, h.minInst);
    WrapOnce(r.address, h.minInst * q1, h.minInst * q2);
  }

  lemma WrapOnce(a: int, b: int, c: int)
    ensures U64(U64(a + b) + c) == U64(a + (b + c))
  {
  }

  lemma AdvanceOnly(h: Header, r: Regs, adv: nat)
    requires h.maxOps > 0
    ensures var r' := AdvancePc(h, r, adv);
            r' == r.(address := r'.address, opIndex := r'.opIndex)
  {
  }

  lemma AdvanceWellFormed(h: Header, r: Regs, adv: nat)
    requires h.maxOps > 0 && WellFormed(h, r)
    ensures WellFormed(h, AdvancePc(h, r, adv))
  {
    hide Div;
  }

  /** The operation advance of an instruction that moves the address by operations. */
  function OpAdvance(h: Header, i: Instr): nat {
    match i
    case Special(op) => if h.lineRange == 0 then 0 else Div(op, h.lineRange)
    case AdvancePcBy(adv) => adv
    case ConstAddPc => if h.lineRange == 0 then 0 else Div(255 - h.opcodeBase, h.lineRange)
    case _ => 0
  }

  function TotalAdvance(h: Header, p: seq<Instr>): nat {
    if p == [] then 0 else OpAdvance(h, p[0]) + TotalAdvance(h, p[1..])
  }

  /** No instruction that places the address in bytes. */
  predicate ByOperations(p: seq<Instr>) {
    forall i :: i in p ==> !i.SetAddress? && !i.FixedAdvancePc?
  }

  predicate SamePlace(r: Regs, r': Regs) {
    r.address == r'.address && r.opIndex == r'.opIndex
  }

  /** Conservation over a run: the program moves address and op_index as one advance by the
      sum of its advances does. */
  lemma {:induction false} RunConserves(h: Header, n: nat, s: State, p: seq<Instr>)
    requires h.maxOps > 0 && WellFormed(h, s.regs) && ByOperations(p)
    requires s.regs.opIndex + TotalAdvance(h, p) < TWO_64
    requires Exec(h, n, s, p).Ok?
    ensures SamePlace(Exec(h, n, s, p).value.regs, AdvancePc(h, s.regs, TotalAdvance(h, p)))
    decreases |p|
  {
    hide AdvancePc, Apply, OpAdvance;
    if p == [] {
      AdvanceByNone(h, s.regs);
    } else {
      var a, t := OpAdvance(h, p[0]), TotalAdvance(h, p[1..]);
      var s1 := Apply(h, n, s, p[0]).value;
      assert p[0] in p;
      OneAdvance(h, n, s, p[0]);
      ApplyWellFormed(h, n, s, p[0]);
      var q := AdvanceConserves(h, s.regs, a);
      Nonnegative(q, h.maxOps);
      RunConserves(h, n, s1, p[1..]);
      AdvanceAdds(h, s.regs, a, t);
      SameAdvance(h, s1.regs, AdvancePc(h, s.regs, a), t);
    }
  }

  lemma AdvanceByNone(h: Header, r: Regs)
    requires h.maxOps > 0 && WellFormed(h, r)
    ensures SamePlace(r, AdvancePc(h, r, 0))
  {
    AdvanceOnly(h, r, 0);
    hide AdvancePc;
    var q := AdvanceConserves(h, r, 0);
    SameSplit(h.maxOps, q, AdvancePc(h, r, 0).opIndex, 0, r.opIndex);
  }

  lemma OneAdvance(h: Header, n: nat, s: State, i: Instr)
    requires h.maxOps > 0 && WellFormed(h, s.regs) && !i.SetAddress? && !i.FixedAdvancePc?
    requires Apply(h, n, s, i).Ok?
    ensures SamePlace(Apply(h, n, s, i).value.regs, AdvancePc(h, s.regs, OpAdvance(h, i)))
  {
    AdvanceByNone(h, s.regs);
    hide Div, Mod;
  }

  lemma SameAdvance(h: Header, r1: Regs, r2: Regs, adv: nat)
    requires h.maxOps > 0 && SamePlace(r1, r2)
    ensures SamePlace(AdvancePc(h, r1, adv), AdvancePc(h, r2, adv))
  {
  }
}
