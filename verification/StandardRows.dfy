/** The rows of the standard. Three effects differ: the standard clears basic_block, prologue_end
    and epilogue_begin after each row (section 6.2.5.2 of the DWARF 4 standard), where
    `recordLine` sets them; set_address resets op_index (section 6.2.5.3), where the code leaves
    it; and end_sequence resets the registers, for the next sequence of the program, where the
    code ends. */
module StandardRows {
  import opened Words
  import opened Arithmetic
  import opened LineTable
  import opened RowOrder

  predicate AllSet(f: Flags) {
    f.basicBlock && f.prologueEnd && f.epilogueBegin
  }

  function Clear(f: Flags): Flags {
    Flags(f.isStmt, false, false, false)
  }

  /** An instruction of a sequence as the standard has it, in the word sizes of the code. */
  function ApplyStandard(h: Header, n: nat, s: State, i: Instr): Result<State> {
    var t :- Apply(h, n, s, i);
    Ok(if Records(i) then t.(regs := t.regs.(flags := Clear(t.regs.flags)))
       else if i.SetAddress? then t.(regs := t.regs.(opIndex := 0))
       else t)
  }

  /** The instructions of one sequence. */
  function ExecSequence(h: Header, n: nat, s: State, p: seq<Instr>): Result<State>
    decreases |p|
  {
    if p == [] then Ok(s)
    else
      var t :- ApplyStandard(h, n, s, p[0]);
      ExecSequence(h, n, t, p[1..])
  }

  /** A program of the standard: any number of sequences, each from the registers `start`. */
  function ExecStandard(h: Header, n: nat, start: Regs, s: State, p: seq<Instr>): Result<State>
    decreases |p|
  {
    if p == [] then Ok(s)
    else
      var t :- ApplyStandard(h, n, s, p[0]);
      ExecStandard(h, n, start, if p[0] == EndSequence then State(start, t.rows) else t, p[1..])
  }

  /** What the code executes of a program. */
  function FirstSequence(p: seq<Instr>): (q: seq<Instr>)
    ensures q <= p
  {
    if p == [] || p[0] == EndSequence then p[..if p == [] then 0 else 1]
    else [p[0]] + FirstSequence(p[1..])
  }

  // ----- the condition on the flags

  /** What an instruction other than a recording one adds to the flags. */
  function FlagsAfter(f: Flags, i: Instr): Flags {
    match i
    case SetBasicBlock => f.(basicBlock := true)
    case SetPrologueEnd => f.(prologueEnd := true)
    case SetEpilogueBegin => f.(epilogueBegin := true)
    case _ => f
  }

  /** The program sets all three flags again before each row, those from the first on excepted
      if `first`; `f` are the flags set since the last row. */
  predicate SetsAgain(p: seq<Instr>, f: Flags, first: bool)
    decreases |p|
  {
    p == [] ||
    if Records(p[0]) then (first || AllSet(f)) && SetsAgain(p[1..], Clear(f), false)
    else SetsAgain(p[1..], FlagsAfter(f, p[0]), first)
  }

  // ----- the condition on op_index

  /** op_index after an instruction, in the code. */
  function OpAfter(h: Header, op: nat, i: Instr): nat {
    match i
    case FixedAdvancePc(_) => 0
    case Special(_) => OpAdvanced(h, op, OpAdvance(h, i))
    case AdvancePcBy(_) => OpAdvanced(h, op, OpAdvance(h, i))
    case ConstAddPc => OpAdvanced(h, op, OpAdvance(h, i))
    case _ => op
  }

  function OpAdvanced(h: Header, op: nat, adv: nat): nat {
    if h.maxOps <= 1 then op else Mod(op + adv, h.maxOps)
  }

  /** And in the standard. */
  function StandardOpAfter(h: Header, op: nat, i: Instr): nat {
    if i.SetAddress? then 0 else OpAfter(h, op, i)
  }

  /** Whether the code's address stays one instruction ahead: a lag of op_index that
      fixed_advance_pc clears after it was carried into the address. Only set_address makes
      up for it. */
  function AheadAfter(op: nat, std: nat, ahead: bool, i: Instr): bool {
    match i
    case SetAddress(_) => false
    case FixedAdvancePc(_) => ahead || op < std
    case _ => ahead
  }

  /** At each row the two op_indexes agree, and the address is not ahead. */
  predicate Placed(h: Header, op: nat, std: nat, ahead: bool, p: seq<Instr>)
    decreases |p|
  {
    p == [] ||
    var (op', std') := (OpAfter(h, op, p[0]), StandardOpAfter(h, std, p[0]));
    && (Records(p[0]) ==> op' == std' && (ahead ==> h.minInst == 0))
    && Placed(h, op', std', AheadAfter(op, std, ahead, p[0]), p[1..])
  }

  /** op_index is 0 at every set_address. */
  predicate ZeroAtSets(h: Header, op: nat, p: seq<Instr>)
    decreases |p|
  {
    p == [] || ((p[0].SetAddress? ==> op == 0) && ZeroAtSets(h, OpAfter(h, op, p[0]), p[1..]))
  }

  lemma {:induction false} PlacedIfZeroAtSets(h: Header, op: nat, p: seq<Instr>)
    requires ZeroAtSets(h, op, p)
    ensures Placed(h, op, op, false, p)
    decreases |p|
  {
    if p != [] {
      PlacedIfZeroAtSets(h, OpAfter(h, op, p[0]), p[1..]);
    }
  }

  /** Without VLIW instructions op_index is always 0, and places are the standard's. */
  lemma {:induction false} PlacedWithoutVliw(h: Header, p: seq<Instr>)
    requires h.maxOps <= 1
    ensures ZeroAtSets(h, 0, p)
    decreases |p|
  {
    if p != [] {
      PlacedWithoutVliw(h, p[1..]);
    }
  }

  // ----- the two readings of an instruction

  /** The same registers but for the three flags and the place. */
  predicate Alike(s: State, t: State) {
    && s.regs == t.regs.(flags := s.regs.flags, address := s.regs.address, opIndex := s.regs.opIndex)
    && s.regs.flags.isStmt == t.regs.flags.isStmt && |s.rows| == |t.rows|
  }

  lemma OneReading(h: Header, n: nat, s: State, t: State, i: Instr)
    requires Alike(s, t)
    ensures var (a, b) := (Apply(h, n, s, i), ApplyStandard(h, n, t, i));
            && (a.Fail? <==> b.Fail?)
            && (a.Fail? ==> a == b)
            && (a.Ok? ==> Alike(a.value, b.value))
  {
    hide Div, Mod, U8, U32, U64, I32;
  }

  lemma FlagsOf(h: Header, n: nat, s: State, t: State, i: Instr)
    requires Alike(s, t) && Apply(h, n, s, i).Ok? && ApplyStandard(h, n, t, i).Ok?
    ensures var (f, g) := (Apply(h, n, s, i).value.regs.flags, ApplyStandard(h, n, t, i).value.regs.flags);
            && (Records(i) ==> AllSet(f) && g == Clear(t.regs.flags))
            && (!Records(i) ==>
                  && (AllSet(s.regs.flags) ==> AllSet(f))
                  && (s.regs.flags == t.regs.flags ==> f == g)
                  && g == FlagsAfter(t.regs.flags, i).(isStmt := g.isStmt))
  {
    hide Div, Mod, U8, U32, U64, I32;
  }

  /** Rows are added, and an instruction adds the same row in both readings exactly when flags
      and places are the same. */
  lemma OneRow(h: Header, n: nat, s: State, t: State, i: Instr)
    requires Alike(s, t) && Apply(h, n, s, i).Ok? && ApplyStandard(h, n, t, i).Ok?
    requires Apply(h, n, s, i).value.regs.opIndex < TWO_8 && ApplyStandard(h, n, t, i).value.regs.opIndex < TWO_8
    ensures var (a, b) := (Apply(h, n, s, i).value, ApplyStandard(h, n, t, i).value);
            && s.rows <= a.rows && t.rows <= b.rows
            && (a.rows == b.rows <==>
                s.rows == t.rows && (Records(i) ==> s.regs.flags == t.regs.flags && SamePlace(a.regs, b.regs)))
  {
    hide Div, Mod, U32, U64, I32;
    var (a, b) := (Apply(h, n, s, i).value, ApplyStandard(h, n, t, i).value);
    if Records(i) {
      var (x, y) := (a.rows[|s.rows|], b.rows[|t.rows|]);
      assert x.flags == s.regs.flags && y.flags == t.regs.flags;
      assert x.addr == a.regs.address && x.opi == a.regs.opIndex;
      assert y.addr == b.regs.address && y.opi == b.regs.opIndex;
      assert a.rows[..|s.rows|] == s.rows && b.rows[..|t.rows|] == t.rows;
      assert x == y <==> s.regs.flags == t.regs.flags && SamePlace(a.regs, b.regs);
    }
  }

  /** The lag of the code: one instruction more where op_index is behind, and one more if it
      stays ahead. */
  predicate Lags(h: Header, r: Regs, q: Regs, ahead: bool) {
    && (ahead ==> r.opIndex == q.opIndex)
    && r.address == U64(q.address + if ahead || r.opIndex < q.opIndex then h.minInst else 0)
  }

  lemma SameIfNoLag(h: Header, r: Regs, q: Regs, ahead: bool)
    requires Lags(h, r, q, ahead) && q.address < TWO_64
    ensures SamePlace(r, q) <==> r.opIndex == q.opIndex && (ahead ==> h.minInst == 0)
  {
  }

  /** An operation advance keeps the lag. */
  lemma AdvanceLags(h: Header, r: Regs, q: Regs, ahead: bool, adv: nat)
    requires h.maxOps > 0 && WellFormed(h, r) && WellFormed(h, q) && Lags(h, r, q, ahead)
    requires adv < TWO_64 - TWO_8
    ensures Lags(h, AdvancePc(h, r, adv), AdvancePc(h, q, adv), ahead)
  {
    AdvanceOnly(h, r, adv);
    AdvanceOnly(h, q, adv);
    var x := AdvanceConserves(h, r, adv);
    var y := AdvanceConserves(h, q, adv);
    hide AdvancePc, WellFormed, U64;
    CarryOrNot(h.maxOps, r.opIndex + adv, q.opIndex + adv,
               x, AdvancePc(h, r, adv).opIndex, y, AdvancePc(h, q, adv).opIndex);
    Distribute(x, 1, h.minInst);
    Distribute(y, 1, h.minInst);
    var d := if ahead || r.opIndex < q.opIndex then h.minInst else 0;
    WrapOnce(q.address, d, h.minInst * x);
    var d' := if ahead || AdvancePc(h, r, adv).opIndex < AdvancePc(h, q, adv).opIndex then h.minInst else 0;
    WrapOnce(q.address, h.minInst * y, d');
  }

  /** Two sums less than m apart: which quotient is one more, and how the remainders stand. */
  lemma CarryOrNot(m: nat, u: nat, v: nat, x: int, a: nat, y: int, b: nat)
    requires m > 0 && m * x + a == u && m * y + b == v && a < m && b < m && u < v + m && v < u + m
    ensures u == v ==> x == y && a == b
    ensures u > v ==> if a < b then x == y + 1 else x == y && a > b
    ensures u < v ==> if a < b then x == y else x == y - 1 && a > b
  {
    var d := x - y;
    assert m * d == (u - v) - (a - b);
    MulAtLeast(m, d);
    MulAtLeast(m, d - 1);
    MulAtLeast(m, d + 1);
    assert m * (d - 1) == m * d - m && m * (d + 1) == m * d + m;
  }

  /** What an operation advance does to the two places. */
  lemma AdvancePlace(h: Header, n: nat, s: State, t: State, i: Instr, ahead: bool)
    requires i.Special? || i.AdvancePcBy? || i.ConstAddPc?
    requires WellFormed(h, s.regs) && WellFormed(h, t.regs) && Lags(h, s.regs, t.regs, ahead)
    requires OpAdvance(h, i) < TWO_64 - TWO_8
    requires Apply(h, n, s, i).Ok? && Apply(h, n, t, i).Ok?
    ensures var (r, q) := (Apply(h, n, s, i).value.regs, Apply(h, n, t, i).value.regs);
            && r.opIndex == OpAfter(h, s.regs.opIndex, i) && q.opIndex == OpAfter(h, t.regs.opIndex, i)
            && Lags(h, r, q, ahead)
  {
    var adv := OpAdvance(h, i);
    HasOps(h, n, s, i);
    OneAdvance(h, n, s, i);
    OneAdvance(h, n, t, i);
    OpOfAdvance(h, s.regs, adv);
    OpOfAdvance(h, t.regs, adv);
    AdvanceLags(h, s.regs, t.regs, ahead, adv);
    hide Apply, AdvancePc, OpAdvance, OpAdvanced, WellFormed, U64;
  }

  lemma HasOps(h: Header, n: nat, s: State, i: Instr)
    requires (i.Special? || i.AdvancePcBy? || i.ConstAddPc?) && Apply(h, n, s, i).Ok?
    ensures h.maxOps > 0
  {
    hide Div, Mod, AdvancePc, Record;
  }

  lemma OpOfAdvance(h: Header, r: Regs, adv: nat)
    requires h.maxOps > 0 && WellFormed(h, r) && adv < TWO_64 - TWO_8
    ensures AdvancePc(h, r, adv).opIndex == OpAdvanced(h, r.opIndex, adv)
  {
    hide Div, Mod;
  }

  /** The two places after an instruction. */
  predicate PlacesAfter(h: Header, n: nat, s: State, t: State, i: Instr, ahead: bool)
    requires Apply(h, n, s, i).Ok? && ApplyStandard(h, n, t, i).Ok?
  {
    var (r, q) := (Apply(h, n, s, i).value.regs, ApplyStandard(h, n, t, i).value.regs);
    && r.opIndex == OpAfter(h, s.regs.opIndex, i) && q.opIndex == StandardOpAfter(h, t.regs.opIndex, i)
    && Lags(h, r, q, AheadAfter(s.regs.opIndex, t.regs.opIndex, ahead, i))
  }

  /** What an instruction does to them. */
  lemma OnePlace(h: Header, n: nat, s: State, t: State, i: Instr, ahead: bool)
    requires WellFormed(h, s.regs) && WellFormed(h, t.regs) && Lags(h, s.regs, t.regs, ahead)
    requires OpAdvance(h, i) < TWO_64 - TWO_8
    requires Apply(h, n, s, i).Ok? && ApplyStandard(h, n, t, i).Ok?
    ensures PlacesAfter(h, n, s, t, i, ahead)
  {
    if i.Special? || i.AdvancePcBy? || i.ConstAddPc? {
      AdvancePlace(h, n, s, t, i, ahead);
      hide Apply, WellFormed, Lags;
    } else if i.FixedAdvancePc? {
      FixedPlace(h, s.regs, t.regs, i.bytes, ahead);
      FixedStep(h, n, s, t, i, ahead);
      hide PlacesAfter, WellFormed, Lags;
    } else if i.SetAddress? {
      SetStep(h, n, s, t, i, ahead);
      hide PlacesAfter, WellFormed, Lags;
    } else {
      OtherPlace(h, n, s, i);
      OtherPlace(h, n, t, i);
      hide Apply, U64, WellFormed;
    }
  }

  lemma FixedStep(h: Header, n: nat, s: State, t: State, i: Instr, ahead: bool)
    requires i.FixedAdvancePc? && Apply(h, n, s, i).Ok? && ApplyStandard(h, n, t, i).Ok?
    requires Lags(h, s.regs.(address := U64(s.regs.address + i.bytes), opIndex := 0),
                  t.regs.(address := U64(t.regs.address + i.bytes), opIndex := 0),
                  ahead || s.regs.opIndex < t.regs.opIndex)
    ensures PlacesAfter(h, n, s, t, i, ahead)
  {
    hide Lags, U64;
  }

  lemma SetStep(h: Header, n: nat, s: State, t: State, i: Instr, ahead: bool)
    requires i.SetAddress? && Apply(h, n, s, i).Ok? && ApplyStandard(h, n, t, i).Ok?
    ensures PlacesAfter(h, n, s, t, i, ahead)
  {
  }

  lemma FixedPlace(h: Header, r: Regs, q: Regs, bytes: nat, ahead: bool)
    requires Lags(h, r, q, ahead)
    ensures Lags(h, r.(address := U64(r.address + bytes), opIndex := 0),
                 q.(address := U64(q.address + bytes), opIndex := 0), ahead || r.opIndex < q.opIndex)
  {
    var d := if ahead || r.opIndex < q.opIndex then h.minInst else 0;
    WrapOnce(q.address, d, bytes);
    WrapOnce(q.address, bytes, d);
    hide U64;
  }

  lemma OtherPlace(h: Header, n: nat, s: State, i: Instr)
    requires !i.Special? && !i.AdvancePcBy? && !i.ConstAddPc? && !i.FixedAdvancePc? && !i.SetAddress?
    requires Apply(h, n, s, i).Ok?
    ensures SamePlace(s.regs, Apply(h, n, s, i).value.regs)
  {
    hide U8, U32, U64, I32;
  }

  // ----- whole programs

  /** Both readings fail together, and rows once different stay different. */
  lemma {:induction false} StaysDifferent(h: Header, n: nat, s: State, t: State, p: seq<Instr>)
    requires Alike(s, t) && WellFormed(h, s.regs) && WellFormed(h, t.regs)
    ensures var (a, b) := (Exec(h, n, s, p), ExecSequence(h, n, t, p));
            if a.Fail? then b == a
            else b.Ok? && |a.value.rows| == |b.value.rows| && (a.value.rows == b.value.rows ==> s.rows == t.rows)
    decreases |p|
  {
    assert |s.rows| == |t.rows|;
    hide Apply, ApplyStandard, Alike, WellFormed;
    if p != [] {
      OneReading(h, n, s, t, p[0]);
      var (a, b) := (Apply(h, n, s, p[0]), ApplyStandard(h, n, t, p[0]));
      if a.Ok? {
        StaysWellFormed(h, n, s, t, p[0]);
        OneRow(h, n, s, t, p[0]);
        StaysDifferent(h, n, a.value, b.value, p[1..]);
      }
    }
  }

  lemma StaysWellFormed(h: Header, n: nat, s: State, t: State, i: Instr)
    requires WellFormed(h, s.regs) && WellFormed(h, t.regs)
    requires Apply(h, n, s, i).Ok? && ApplyStandard(h, n, t, i).Ok?
    ensures var (r, q) := (Apply(h, n, s, i).value.regs, ApplyStandard(h, n, t, i).value.regs);
            && WellFormed(h, r) && WellFormed(h, q) && r.opIndex < TWO_8 && q.opIndex < TWO_8
  {
    hide Apply;
    ApplyWellFormed(h, n, s, i);
    ApplyWellFormed(h, n, t, i);
  }

  lemma {:induction false} StmtDoesNotMatter(p: seq<Instr>, f: Flags, g: Flags, first: bool)
    requires f == g.(isStmt := f.isStmt)
    ensures SetsAgain(p, f, first) == SetsAgain(p, g, first)
    decreases |p|
  {
    if p != [] {
      if Records(p[0]) {
        StmtDoesNotMatter(p[1..], Clear(f), Clear(g), false);
      } else {
        StmtDoesNotMatter(p[1..], FlagsAfter(f, p[0]), FlagsAfter(g, p[0]), first);
      }
    }
  }

  /** No sum of op_index and an operation advance wraps. */
  predicate SmallAdvances(h: Header, p: seq<Instr>) {
    forall i :: i in p ==> OpAdvance(h, i) < TWO_64 - TWO_8
  }

  /** Where the two readings are after the same rows. */
  predicate InStep(h: Header, s: State, t: State, first: bool, ahead: bool) {
    && Alike(s, t) && s.rows == t.rows && WellFormed(h, s.regs) && WellFormed(h, t.regs)
    && Lags(h, s.regs, t.regs, ahead)
    && if first then s.regs.flags == t.regs.flags else AllSet(s.regs.flags)
  }

  /** One instruction: the rows stay the same exactly when it meets the conditions, and then
      the two readings stay in step. */
  lemma OneInStep(h: Header, n: nat, s: State, t: State, i: Instr, first: bool, ahead: bool)
    requires InStep(h, s, t, first, ahead) && OpAdvance(h, i) < TWO_64 - TWO_8
    requires Apply(h, n, s, i).Ok? && ApplyStandard(h, n, t, i).Ok?
    ensures var (a, b) := (Apply(h, n, s, i).value, ApplyStandard(h, n, t, i).value);
            var after := AheadAfter(s.regs.opIndex, t.regs.opIndex, ahead, i);
            && Alike(a, b) && WellFormed(h, a.regs) && WellFormed(h, b.regs)
            && a.regs.opIndex == OpAfter(h, s.regs.opIndex, i) && b.regs.opIndex == StandardOpAfter(h, t.regs.opIndex, i)
            && (a.rows == b.rows <==>
                (Records(i) ==> (first || AllSet(t.regs.flags)) && a.regs.opIndex == b.regs.opIndex
                                && (after ==> h.minInst == 0)))
            && (a.rows == b.rows ==> InStep(h, a, b, first && !Records(i), after))
  {
    OneReading(h, n, s, t, i);
    FlagsOf(h, n, s, t, i);
    OnePlace(h, n, s, t, i, ahead);
    StaysWellFormed(h, n, s, t, i);
    OneRow(h, n, s, t, i);
    assert PlacesAfter(h, n, s, t, i, ahead);
    var (a, b) := (Apply(h, n, s, i).value, ApplyStandard(h, n, t, i).value);
    AddressIsWord(h, b.regs);
    hide Apply, ApplyStandard, WellFormed, OpAfter, StandardOpAfter, AheadAfter;
    SameIfNoLag(h, a.regs, b.regs, AheadAfter(s.regs.opIndex, t.regs.opIndex, ahead, i));
    hide Lags;
  }

  lemma AddressIsWord(h: Header, r: Regs)
    requires WellFormed(h, r)
    ensures r.address < TWO_64
  {
  }

  lemma {:induction false} AgreeFrom(h: Header, n: nat, s: State, t: State, p: seq<Instr>, first: bool, ahead: bool)
    requires InStep(h, s, t, first, ahead) && SmallAdvances(h, p) && Exec(h, n, s, p).Ok?
    ensures ExecSequence(h, n, t, p).Ok?
    ensures Exec(h, n, s, p).value.rows == ExecSequence(h, n, t, p).value.rows <==>
            SetsAgain(p, t.regs.flags, first) && Placed(h, s.regs.opIndex, t.regs.opIndex, ahead, p)
    decreases |p|
  {
    StaysDifferent(h, n, s, t, p);
    hide Apply, ApplyStandard, FlagsAfter, OpAfter, StandardOpAfter, AheadAfter, WellFormed, Lags, OpAdvance;
    if p != [] {
      assert p[0] in p;
      OneReading(h, n, s, t, p[0]);
      OneInStep(h, n, s, t, p[0], first, ahead);
      FlagsOf(h, n, s, t, p[0]);
      hide Alike;
      var (a, b) := (Apply(h, n, s, p[0]).value, ApplyStandard(h, n, t, p[0]).value);
      StaysDifferent(h, n, a, b, p[1..]);
      if a.rows == b.rows {
        AgreeFrom(h, n, a, b, p[1..], first && !Records(p[0]), AheadAfter(s.regs.opIndex, t.regs.opIndex, ahead, p[0]));
        StmtDoesNotMatter(p[1..], b.regs.flags,
                          if Records(p[0]) then Clear(t.regs.flags) else FlagsAfter(t.regs.flags, p[0]),
                          first && !Records(p[0]));
      }
    }
  }

  /** From any state with registers of their sizes, the rows of a sequence are the standard's
      exactly when it sets all three flags again before every row after the first, and records
      no row under a lag of op_index or address that a set_address left. */
  lemma SequenceRowsAgree(h: Header, n: nat, s: State, p: seq<Instr>)
    requires WellFormed(h, s.regs) && SmallAdvances(h, p) && Exec(h, n, s, p).Ok?
    ensures ExecSequence(h, n, s, p).Ok?
    ensures Exec(h, n, s, p).value.rows == ExecSequence(h, n, s, p).value.rows <==>
            SetsAgain(p, s.regs.flags, true) && Placed(h, s.regs.opIndex, s.regs.opIndex, false, p)
  {
    hide Exec, ExecSequence, SetsAgain, Placed, SmallAdvances;
    AddressIsWord(h, s.regs);
    AgreeFrom(h, n, s, s, p, true, false);
  }

  // ----- programs of several sequences

  /** No instruction records a row. */
  predicate RecordsNone(p: seq<Instr>) {
    forall i :: i in p ==> !Records(i)
  }

  lemma OneStandardRow(h: Header, n: nat, s: State, i: Instr)
    requires ApplyStandard(h, n, s, i).Ok?
    ensures var t := ApplyStandard(h, n, s, i).value;
            s.rows <= t.rows && (if Records(i) then |t.rows| == |s.rows| + 1 else t.rows == s.rows)
  {
    hide Div, Mod, AdvancePc, U8, U32, U64, I32;
  }

  /** A program keeps the rows there are, and adds some if it has an instruction that records. */
  lemma {:induction false} StandardGrows(h: Header, n: nat, start: Regs, s: State, p: seq<Instr>)
    requires ExecStandard(h, n, start, s, p).Ok?
    ensures var t := ExecStandard(h, n, start, s, p).value;
            && |s.rows| <= |t.rows|
            && (RecordsNone(p) ==> t.rows == s.rows) && (!RecordsNone(p) ==> |s.rows| < |t.rows|)
    decreases |p|
  {
    hide ApplyStandard, Records;
    if p != [] {
      OneStandardRow(h, n, s, p[0]);
      var t := ApplyStandard(h, n, s, p[0]).value;
      StandardGrows(h, n, start, if p[0] == EndSequence then State(start, t.rows) else t, p[1..]);
      assert p == [p[0]] + p[1..];
    }
  }

  /** After its first sequence, a program goes on from its rows. */
  lemma {:induction false} StandardSplit(h: Header, n: nat, start: Regs, s: State, p: seq<Instr>) returns (t: State)
    requires ExecStandard(h, n, start, s, p).Ok?
    ensures ExecSequence(h, n, s, FirstSequence(p)).Ok?
    ensures t.rows == ExecSequence(h, n, s, FirstSequence(p)).value.rows
    ensures ExecStandard(h, n, start, t, p[|FirstSequence(p)|..]) == ExecStandard(h, n, start, s, p)
    decreases |p|
  {
    hide ApplyStandard;
    var q := FirstSequence(p);
    if p == [] {
      t := s;
    } else {
      var a := ApplyStandard(h, n, s, p[0]).value;
      if p[0] == EndSequence {
        t := State(start, a.rows);
        assert q == [p[0]] && q[1..] == [];
        assert ExecSequence(h, n, a, []) == Ok(a);
      } else {
        t := StandardSplit(h, n, start, a, p[1..]);
        assert q[0] == p[0] && q[1..] == FirstSequence(p[1..]);
        assert p[|q|..] == p[1..][|q| - 1..];
      }
    }
  }

  /** The exact condition for the rows the code writes for a program to be those of the
      standard, from any state with registers of their sizes: it records nothing after its first
      sequence, and in that sequence it sets all three flags again before every row after the
      first and records no row under a lag of op_index or address that a set_address left. */
  lemma RowsAgree(h: Header, n: nat, start: Regs, s: State, p: seq<Instr>)
    requires WellFormed(h, s.regs) && SmallAdvances(h, FirstSequence(p))
    requires Exec(h, n, s, FirstSequence(p)).Ok? && ExecStandard(h, n, start, s, p).Ok?
    ensures var q := FirstSequence(p);
            Exec(h, n, s, q).value.rows == ExecStandard(h, n, start, s, p).value.rows <==>
            && RecordsNone(p[|q|..])
            && SetsAgain(q, s.regs.flags, true) && Placed(h, s.regs.opIndex, s.regs.opIndex, false, q)
  {
    var q := FirstSequence(p);
    hide Exec, ExecSequence, ExecStandard, FirstSequence, SetsAgain, Placed, SmallAdvances, RecordsNone, WellFormed;
    SequenceRowsAgree(h, n, s, q);
    SameCount(h, n, s, q);
    var t := StandardSplit(h, n, start, s, p);
    StandardGrows(h, n, start, t, p[|q|..]);
  }

  lemma SameCount(h: Header, n: nat, s: State, p: seq<Instr>)
    requires WellFormed(h, s.regs) && Exec(h, n, s, p).Ok?
    ensures ExecSequence(h, n, s, p).Ok?
    ensures |ExecSequence(h, n, s, p).value.rows| == |Exec(h, n, s, p).value.rows|
  {
    hide Exec, ExecSequence, WellFormed;
    StaysDifferent(h, n, s, s, p);
  }

  // ----- three programs whose rows differ

  /** Two copies in a row: the second row carries the flags in the code and not in the
      standard. */
  lemma FlagsDiffer(h: Header, n: nat, start: Regs, s: State)
    requires 1 <= s.regs.file <= n && s.rows == []
    ensures var p := [Copy, Copy];
            && Exec(h, n, s, p).Ok? && ExecStandard(h, n, start, s, p).Ok?
            && AllSet(Exec(h, n, s, p).value.rows[1].flags)
            && !AllSet(ExecStandard(h, n, start, s, p).value.rows[1].flags)
  {
  }

  /** An advance by one operation, a set_address, a copy: with four operations to an
      instruction, the row has op_index 1 in the code and 0 in the standard. */
  lemma OpIndexDiffers(h: Header, n: nat, start: Regs, s: State)
    requires h.maxOps == 4 && 1 <= s.regs.file <= n && s.rows == [] && s.regs.opIndex == 0
    ensures var p := [AdvancePcBy(1), SetAddress(16), Copy];
            && SetsAgain(p, s.regs.flags, true)
            && Exec(h, n, s, p).Ok? && ExecStandard(h, n, start, s, p).Ok?
            && Exec(h, n, s, p).value.rows[0].opi == 1
            && ExecStandard(h, n, start, s, p).value.rows[0].opi == 0
  {
  }

  /** Two sequences: the code has the first one's row, and the standard's second row is at the
      address of a new sequence. */
  lemma SecondSequenceLost(h: Header, n: nat, start: Regs, s: State)
    requires 1 <= s.regs.file <= n && 1 <= start.file <= n && start.address == 0 && s.rows == []
    ensures var p := [SetAddress(16), EndSequence, EndSequence];
            && FirstSequence(p) == p[..2]
            && Exec(h, n, s, p[..2]).Ok? && |Exec(h, n, s, p[..2]).value.rows| == 1
            && var t := ExecStandard(h, n, start, s, p);
            t.Ok? && |t.value.rows| == 2 && t.value.rows[0].addr == 16 && t.value.rows[1].addr == 0
  {
    var p := [SetAddress(16), EndSequence, EndSequence];
    assert p[1..][0] == EndSequence && p[1..][..1] == [EndSequence];
    assert p[..2][1..] == [EndSequence] && [EndSequence][1..] == [];
    var a := Apply(h, n, s, SetAddress(16)).value;
    assert Exec(h, n, a, [EndSequence]).Ok? && |Exec(h, n, a, [EndSequence]).value.rows| == 1;
    hide U8, I32;
  }
}
