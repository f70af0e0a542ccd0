/** What each row of a line program holds, said of its instructions alone. */
module RowFields {
  import opened Words
  import opened LineTable
  import opened LineProgram
  import Arithmetic
  import RowOrder

  // ----- folds over the instructions

  function RowCount(q: seq<Instr>): nat {
    if q == [] then 0 else RowCount(q[..|q| - 1]) + if RowOrder.Records(q[|q| - 1]) then 1 else 0
  }

  /** How far an instruction advances the line. */
  function LineDelta(h: Header, i: Instr): int {
    match i
    case Special(op) => if h.lineRange == 0 then 0 else h.lineBase + op % h.lineRange
    case AdvanceLineBy(delta) => delta
    case _ => 0
  }

  function LineSum(h: Header, q: seq<Instr>): int {
    if q == [] then 0 else LineSum(h, q[..|q| - 1]) + LineDelta(h, q[|q| - 1])
  }

  /** The operand of the last set_column, or what there was at the start. */
  function LastColumn(start: nat, q: seq<Instr>): nat {
    if q == [] then start
    else if q[|q| - 1].SetColumn? then q[|q| - 1].column
    else LastColumn(start, q[..|q| - 1])
  }

  function LastFile(start: nat, q: seq<Instr>): nat {
    if q == [] then start
    else if q[|q| - 1].SetFile? then q[|q| - 1].file
    else LastFile(start, q[..|q| - 1])
  }

  function LastIsa(start: nat, q: seq<Instr>): nat {
    if q == [] then start
    else if q[|q| - 1].SetIsa? then q[|q| - 1].isa
    else LastIsa(start, q[..|q| - 1])
  }

  /** The operand of the last set_discriminator since the last row; 0 if there is none. */
  function DiscriminatorSince(start: nat, q: seq<Instr>): nat {
    if q == [] then start
    else if RowOrder.Records(q[|q| - 1]) then 0
    else if q[|q| - 1].SetDiscriminator? then q[|q| - 1].discriminator
    else DiscriminatorSince(start, q[..|q| - 1])
  }

  /** Negated an odd number of times. */
  function Negated(start: bool, q: seq<Instr>): bool {
    if q == [] then start
    else if q[|q| - 1] == NegateStmt then !Negated(start, q[..|q| - 1])
    else Negated(start, q[..|q| - 1])
  }

  /** Set by its instruction, or by a row: the code's recording sets the three flags. */
  predicate SetBefore(start: bool, setter: Instr, q: seq<Instr>) {
    if q == [] then start
    else q[|q| - 1] == setter || RowOrder.Records(q[|q| - 1]) || SetBefore(start, setter, q[..|q| - 1])
  }

  // ----- the registers

  /** The registers after some instructions. */
  predicate Means(h: Header, r0: Regs, q: seq<Instr>, r: Regs) {
    && U32(r.line) == U32(r0.line + LineSum(h, q))
    && U32(r.column) == U32(LastColumn(r0.column, q))
    && U32(r.file) == U32(LastFile(r0.file, q))
    && U32(r.isa) == U32(LastIsa(r0.isa, q))
    && U32(r.discriminator) == U32(DiscriminatorSince(r0.discriminator, q))
  }

  predicate MeansFlags(f0: Flags, q: seq<Instr>, f: Flags) {
    f == Flags(Negated(f0.isStmt, q), SetBefore(f0.basicBlock, SetBasicBlock, q),
               SetBefore(f0.prologueEnd, SetPrologueEnd, q), SetBefore(f0.epilogueBegin, SetEpilogueBegin, q))
  }

  lemma SetBeforeStep(start: bool, setter: Instr, q: seq<Instr>, i: Instr)
    ensures SetBefore(start, setter, q + [i]) <==> SetBefore(start, setter, q) || i == setter || RowOrder.Records(i)
  {
    assert (q + [i])[..|q|] == q;
  }

  lemma FoldStep(h: Header, r0: Regs, q: seq<Instr>, i: Instr)
    ensures var p := q + [i];
            && LineSum(h, p) == LineSum(h, q) + LineDelta(h, i)
            && LastColumn(r0.column, p) == (if i.SetColumn? then i.column else LastColumn(r0.column, q))
            && LastFile(r0.file, p) == (if i.SetFile? then i.file else LastFile(r0.file, q))
            && LastIsa(r0.isa, p) == (if i.SetIsa? then i.isa else LastIsa(r0.isa, q))
            && DiscriminatorSince(r0.discriminator, p) ==
               (if RowOrder.Records(i) then 0 else if i.SetDiscriminator? then i.discriminator
                else DiscriminatorSince(r0.discriminator, q))
            && Negated(r0.flags.isStmt, p) == (if i == NegateStmt then !Negated(r0.flags.isStmt, q)
                                               else Negated(r0.flags.isStmt, q))
            && RowCount(p) == RowCount(q) + if RowOrder.Records(i) then 1 else 0
  {
    assert (q + [i])[..|q|] == q;
  }

  lemma AddWords(a: int, k: int)
    ensures U32(a + TWO_32 * k) == U32(a)
  {
  }

  lemma U32Idempotent(x: int)
    ensures U32(U32(x)) == U32(x)
  {
  }

  lemma U32Twice(x: int, y: int, d: int)
    requires U32(x) == U32(y)
    ensures U32(x + d) == U32(y + d) && U32(U32(x + d)) == U32(y + d) && U32(U32(x)) == U32(x)
  {
    var k := x / TWO_32 - y / TWO_32;
    assert x == y + TWO_32 * k;
    hide U32;
    assert x + d == y + d + TWO_32 * k;
    AddWords(y + d, k);
    U32Idempotent(x + d);
    U32Idempotent(x);
  }

  /** What one instruction does to the registers. */
  lemma OneMeans(h: Header, n: nat, s: State, r0: Regs, q: seq<Instr>, i: Instr)
    requires Means(h, r0, q, s.regs) && Apply(h, n, s, i).Ok?
    ensures Means(h, r0, q + [i], Apply(h, n, s, i).value.regs)
    ensures s.regs.file < TWO_32 ==> Apply(h, n, s, i).value.regs.file < TWO_32
  {
    hide Apply, Means;
    if RowOrder.Records(i) {
      RecordingMeans(h, n, s, r0, q, i);
    } else {
      SettingMeans(h, n, s, r0, q, i);
    }
  }

  lemma RecordingMeans(h: Header, n: nat, s: State, r0: Regs, q: seq<Instr>, i: Instr)
    requires Means(h, r0, q, s.regs) && Apply(h, n, s, i).Ok? && RowOrder.Records(i)
    ensures Means(h, r0, q + [i], Apply(h, n, s, i).value.regs)
    ensures s.regs.file < TWO_32 ==> Apply(h, n, s, i).value.regs.file < TWO_32
  {
    FoldStep(h, r0, q, i);
    U32Twice(s.regs.line, r0.line + LineSum(h, q), LineDelta(h, i));
    DeltaOfSpecial(h, i);
    hide LineSum, LineDelta, LastColumn, LastFile, LastIsa, DiscriminatorSince, Negated, RowCount;
    hide Arithmetic.Div, Arithmetic.Mod, U8, I32, U32, U64;
  }

  lemma SettingMeans(h: Header, n: nat, s: State, r0: Regs, q: seq<Instr>, i: Instr)
    requires Means(h, r0, q, s.regs) && Apply(h, n, s, i).Ok? && !RowOrder.Records(i)
    ensures Means(h, r0, q + [i], Apply(h, n, s, i).value.regs)
    ensures s.regs.file < TWO_32 ==> Apply(h, n, s, i).value.regs.file < TWO_32
  {
    FoldStep(h, r0, q, i);
    U32Twice(s.regs.line, r0.line + LineSum(h, q), LineDelta(h, i));
    DeltaOfSpecial(h, i);
    hide LineSum, LineDelta, LastColumn, LastFile, LastIsa, DiscriminatorSince, Negated, RowCount;
    hide Arithmetic.Div, Arithmetic.Mod, U8, I32, U32, U64, Record;
    match i
    case SetColumn(v) => U32Twice(v, v, 0);
    case SetFile(v) => U32Twice(v, v, 0);
    case SetIsa(v) => U32Twice(v, v, 0);
    case SetDiscriminator(v) => U32Twice(v, v, 0);
    case _ =>
  }

  lemma OneMeansFlags(h: Header, n: nat, s: State, f0: Flags, q: seq<Instr>, i: Instr)
    requires MeansFlags(f0, q, s.regs.flags) && Apply(h, n, s, i).Ok?
    ensures MeansFlags(f0, q + [i], Apply(h, n, s, i).value.regs.flags)
  {
    FoldStep(h, INITIAL.(flags := f0), q, i);
    SetBeforeStep(f0.basicBlock, SetBasicBlock, q, i);
    SetBeforeStep(f0.prologueEnd, SetPrologueEnd, q, i);
    SetBeforeStep(f0.epilogueBegin, SetEpilogueBegin, q, i);
    hide Negated, SetBefore, Arithmetic.Div, Arithmetic.Mod, U8, I32, U32, U64;
  }

  lemma DeltaOfSpecial(h: Header, i: Instr)
    ensures LineDelta(h, i) ==
            match i
            case Special(op) => if h.lineRange == 0 then 0 else h.lineBase + Arithmetic.Mod(op, h.lineRange)
            case AdvanceLineBy(delta) => delta
            case _ => 0
  {
  }

  // ----- the rows

  lemma SameWord(x: int, y: int)
    requires U32(x) == U32(y)
    ensures I32(x) == I32(y) && U8(x) == U8(y)
  {
  }

  /** The row an instruction records, from what the registers mean. */
  lemma OneRow(h: Header, n: nat, s: State, i: Instr)
    requires Apply(h, n, s, i).Ok?
    ensures var t := Apply(h, n, s, i).value;
            if !RowOrder.Records(i) then t.rows == s.rows
            else
              && |t.rows| == |s.rows| + 1 && t.rows[..|s.rows|] == s.rows
              && var row := t.rows[|s.rows|];
              && 1 <= row.file == s.regs.file <= n && row.flags == s.regs.flags
              && row.line == I32(U32(s.regs.line + LineDelta(h, i))) && row.col == I32(s.regs.column)
              && row.isa == U8(s.regs.isa) && row.disc == U8(s.regs.discriminator)
              && row.addr == t.regs.address && row.opi == U8(t.regs.opIndex)
  {
    DeltaOfSpecial(h, i);
    PlainLine(s.regs.line);
    hide LineDelta, Arithmetic.Div, Arithmetic.Mod, U8, I32, U32, U64;
  }

  lemma PlainLine(x: int)
    ensures I32(U32(x + 0)) == I32(x)
  {
  }

  /** A program's registers and rows, its rows after those there were. */
  lemma {:induction false} ProgramMeans(h: Header, n: nat, s: State, q: seq<Instr>)
    requires Exec(h, n, s, q).Ok?
    ensures var t := Exec(h, n, s, q).value;
            && Means(h, s.regs, q, t.regs) && MeansFlags(s.regs.flags, q, t.regs.flags)
            && |t.rows| == |s.rows| + RowCount(q) && s.rows <= t.rows
            && (s.regs.file < TWO_32 ==> t.regs.file < TWO_32)
    decreases |q|
  {
    hide Apply;
    if q != [] {
      var (k, i) := (|q| - 1, q[|q| - 1]);
      assert q == q[..k] + [i];
      ExecConcat(h, n, s, q[..k], [i]);
      ProgramMeans(h, n, s, q[..k]);
      hide Means, MeansFlags;
      var m := Exec(h, n, s, q[..k]).value;
      ExecOne(h, n, m, i);
      OneMeans(h, n, m, s.regs, q[..k], i);
      OneMeansFlags(h, n, m, s.regs.flags, q[..k], i);
      OneRow(h, n, m, i);
      FoldStep(h, s.regs, q[..k], i);
    }
  }

  /** Row by row: the row that instruction k records is the one after as many rows as the
      instructions before it record. Its line is the start line and the sum of the line advances
      up to k, in 32 bits; its column, file and isa are those last set; its discriminator is the
      last one set since the row before; its is_stmt is the start value with its negations, and
      the three other flags are those set before it, by an instruction or by a row. */
  lemma RowHolds(h: Header, n: nat, s: State, p: seq<Instr>, k: nat)
    requires k < |p| && (p[k].Special? || p[k] == Copy || p[k] == EndSequence) && Exec(h, n, s, p).Ok?
    ensures Exec(h, n, s, p[..k + 1]).Ok?
    ensures var (rows, m, q) := (Exec(h, n, s, p).value.rows, |s.rows| + RowCount(p[..k]), p[..k]);
            && m < |rows|
            && rows[m].line == I32(s.regs.line + LineSum(h, p[..k + 1]))
            && rows[m].col == I32(LastColumn(s.regs.column, q))
            && U32(rows[m].file) == U32(LastFile(s.regs.file, q)) && 1 <= rows[m].file <= n
            && (s.regs.file < TWO_32 ==> rows[m].file < TWO_32)
            && rows[m].isa == U8(LastIsa(s.regs.isa, q))
            && rows[m].disc == U8(DiscriminatorSince(s.regs.discriminator, q))
            && rows[m].flags.isStmt == Negated(s.regs.flags.isStmt, q)
            && rows[m].flags.basicBlock == SetBefore(s.regs.flags.basicBlock, SetBasicBlock, q)
            && rows[m].flags.prologueEnd == SetBefore(s.regs.flags.prologueEnd, SetPrologueEnd, q)
            && rows[m].flags.epilogueBegin == SetBefore(s.regs.flags.epilogueBegin, SetEpilogueBegin, q)
            && rows[m].addr == Exec(h, n, s, p[..k + 1]).value.regs.address
            && rows[m].opi == U8(Exec(h, n, s, p[..k + 1]).value.regs.opIndex)
  {
    hide Apply, Exec, U8, U32, I32, LineSum, LineDelta, LastColumn, LastFile, LastIsa, DiscriminatorSince;
    hide Negated, SetBefore, RowCount, Means, MeansFlags;
    var (q, i) := (p[..k], p[k]);
    SplitExec(h, n, s, p, k);
    RecordedRow(h, n, s, p, k);
    var (a, row) := (Exec(h, n, s, q).value, Exec(h, n, s, p).value.rows[|s.rows| + RowCount(q)]);
    OneRow(h, n, a, i);
    assert p[..k + 1] == q + [i];
    FoldStep(h, s.regs, q, i);
    RowFacts(h, s.regs, q, i, a.regs, row);
  }

  /** Where that row is. */
  lemma RecordedRow(h: Header, n: nat, s: State, p: seq<Instr>, k: nat)
    requires k < |p| && RowOrder.Records(p[k]) && Exec(h, n, s, p).Ok?
    ensures Exec(h, n, s, p[..k]).Ok? && Exec(h, n, s, p[..k + 1]).Ok?
    ensures var (a, t, m) := (Exec(h, n, s, p[..k]).value, Exec(h, n, s, p[..k + 1]).value, |s.rows| + RowCount(p[..k]));
            && Means(h, s.regs, p[..k], a.regs) && MeansFlags(s.regs.flags, p[..k], a.regs.flags)
            && (s.regs.file < TWO_32 ==> a.regs.file < TWO_32)
            && |a.rows| == m < |t.rows| && m < |Exec(h, n, s, p).value.rows|
            && Exec(h, n, s, p).value.rows[m] == t.rows[m]
  {
    hide Apply, Exec, Means, MeansFlags, RowCount;
    SplitExec(h, n, s, p, k);
    ProgramMeans(h, n, s, p[..k]);
    OneRow(h, n, Exec(h, n, s, p[..k]).value, p[k]);
    ProgramMeans(h, n, Exec(h, n, s, p[..k + 1]).value, p[k + 1..]);
  }

  lemma RowFacts(h: Header, r0: Regs, q: seq<Instr>, i: Instr, r: Regs, row: Row)
    requires Means(h, r0, q, r) && MeansFlags(r0.flags, q, r.flags)
    requires row.file == r.file && row.flags == r.flags && row.line == I32(U32(r.line + LineDelta(h, i)))
    requires row.col == I32(r.column) && row.isa == U8(r.isa) && row.disc == U8(r.discriminator)
    ensures row.line == I32(r0.line + (LineSum(h, q) + LineDelta(h, i)))
    ensures row.col == I32(LastColumn(r0.column, q)) && U32(row.file) == U32(LastFile(r0.file, q))
    ensures row.isa == U8(LastIsa(r0.isa, q)) && row.disc == U8(DiscriminatorSince(r0.discriminator, q))
    ensures row.flags.isStmt == Negated(r0.flags.isStmt, q)
    ensures row.flags.basicBlock == SetBefore(r0.flags.basicBlock, SetBasicBlock, q)
    ensures row.flags.prologueEnd == SetBefore(r0.flags.prologueEnd, SetPrologueEnd, q)
    ensures row.flags.epilogueBegin == SetBefore(r0.flags.epilogueBegin, SetEpilogueBegin, q)
  {
    LineOfRow(r.line, r0.line + LineSum(h, q), LineDelta(h, i));
    SameWord(r.column, LastColumn(r0.column, q));
    SameWord(r.isa, LastIsa(r0.isa, q));
    SameWord(r.discriminator, DiscriminatorSince(r0.discriminator, q));
    hide U8, U32, I32, LineSum, LineDelta, LastColumn, LastFile, LastIsa, DiscriminatorSince, Negated, SetBefore;
  }

  lemma LineOfRow(x: int, y: int, d: int)
    requires U32(x) == U32(y)
    ensures I32(U32(x + d)) == I32(y + d)
  {
    U32Twice(x, y, d);
    hide U32;
  }

  lemma SplitExec(h: Header, n: nat, s: State, p: seq<Instr>, k: nat)
    requires k < |p| && Exec(h, n, s, p).Ok?
    ensures Exec(h, n, s, p[..k]).Ok? && Exec(h, n, s, p[..k + 1]).Ok?
    ensures Exec(h, n, s, p[..k + 1]) == Apply(h, n, Exec(h, n, s, p[..k]).value, p[k])
    ensures Exec(h, n, s, p) == Exec(h, n, Exec(h, n, s, p[..k + 1]).value, p[k + 1..])
  {
    assert p == p[..k + 1] + p[k + 1..] && p[..k + 1] == p[..k] + [p[k]];
    hide Apply;
    ExecConcat(h, n, s, p[..k + 1], p[k + 1..]);
    ExecConcat(h, n, s, p[..k], [p[k]]);
    if Exec(h, n, s, p[..k]).Ok? {
      ExecOne(h, n, Exec(h, n, s, p[..k]).value, p[k]);
    }
  }

  /** When an instruction is not defined. */
  lemma WhenUndefined(h: Header, n: nat, s: State, i: Instr)
    ensures Apply(h, n, s, i).Fail? <==>
            match i
            case Special(op) =>
              h.lineRange == 0 || h.maxOps == 0 || s.regs.line + (h.lineBase + op % h.lineRange) >= TWO_63
              || !(1 <= s.regs.file <= n)
            case Copy => !(1 <= s.regs.file <= n)
            case EndSequence => !(1 <= s.regs.file <= n)
            case AdvancePcBy(_) => h.maxOps == 0
            case ConstAddPc => h.lineRange == 0 || h.maxOps == 0
            case AdvanceLineBy(delta) => s.regs.line + delta >= TWO_63
            case _ => false
    ensures Apply(h, n, s, i).Fail? ==> Apply(h, n, s, i).fault == Undefined
  {
    if i.Special? && h.lineRange > 0 {
      assert i.op % h.lineRange == Arithmetic.Mod(i.op, h.lineRange);
    }
    hide Arithmetic.Div, Arithmetic.Mod, U8, U32, U64, I32, AdvancePc;
  }
}
