/** The rows of a whole unit, and those of the standard for its program. */
module UnitRows {
  import opened Words
  import opened LineTable
  import opened LineEncoding
  import opened LineUnit
  import opened LineUnitEncoding
  import opened StandardRows
  import Cursors
  import RowOrder

  /** Instructions that end in their only end_sequence are the first sequence of any program
      they start. */
  lemma {:induction false} FirstOf(q: seq<Instr>, r: seq<Instr>)
    requires q != [] && forall k :: 0 <= k < |q| ==> (q[k] == EndSequence <==> k == |q| - 1)
    ensures FirstSequence(q + r) == q
    decreases |q|
  {
    assert (q + r)[0] == q[0];
    if |q| == 1 {
      assert (q + r)[..1] == q;
    } else {
      assert (q + r)[1..] == q[1..] + r;
      FirstOf(q[1..], r);
      assert q == [q[0]] + q[1..];
    }
  }

  /** The standard's reading of the program of a unit: its first sequence, and the instructions
      that follow. */
  function StandardOf(u: Source, later: seq<Item>): Result<State> {
    var s := InitialState(u.isStmt != 0);
    ExecStandard(u.h, |u.entries|, s.regs, s, Instrs(u.program) + Instrs(later))
  }

  /** The exact condition for the rows of an encoded unit to be the standard's for all it holds,
      further sequences included: nothing after the first sequence records a row, and that
      sequence sets the flags again before every row after the first and leaves no lag. The
      reader moves past all of it. */
  lemma UnitRowsAgree(u: Source, later: seq<Item>, pad: seq<byte>, bytes: seq<byte>, off: nat)
    requires Good(u) && u.unitPad == EncodeProgram(u.h, later) + pad
    requires Cursors.Holds(bytes, off, EncodeUnit(u)) && |bytes| < TWO_63 && UnitLands(u, |bytes|, off)
    requires Meaning(u).Ok? && StandardOf(u, later).Ok? && SmallAdvances(u.h, Instrs(u.program))
    ensures var (r, q) := (ParseUnit(u.h.order, bytes, off), Instrs(u.program));
            && r.Ok? && r.value.1 == off + |EncodeUnit(u)|
            && (r.value.0.rows == StandardOf(u, later).value.rows <==>
                && RecordsNone(Instrs(later))
                && SetsAgain(q, InitialState(u.isStmt != 0).regs.flags, true) && Placed(u.h, 0, 0, false, q))
  {
    var (q, r) := (Instrs(u.program), Instrs(later));
    var s := InitialState(u.isStmt != 0);
    FirstOf(q, r);
    assert (q + r)[|q|..] == r;
    assert WellFormed(u.h, s.regs);
    hide Cursors.Holds, EncodeUnit, UnitLands, ParseUnit, Good, Exec, ExecStandard, FirstSequence, WellFormed, SetsAgain;
    hide Placed, SmallAdvances, RecordsNone, Instrs;
    UnitRoundTrip(u, bytes, off);
    RowsAgree(u.h, |u.entries|, s.regs, s, q + r);
  }

  /** A further sequence is lost: the unit has fewer rows than the standard's table. */
  lemma FurtherSequenceLost(u: Source, later: seq<Item>, pad: seq<byte>, bytes: seq<byte>, off: nat)
    requires Good(u) && Sequence(u.h, later) && u.unitPad == EncodeProgram(u.h, later) + pad
    requires Cursors.Holds(bytes, off, EncodeUnit(u)) && |bytes| < TWO_63 && UnitLands(u, |bytes|, off)
    requires Meaning(u).Ok? && StandardOf(u, later).Ok?
    ensures var r := ParseUnit(u.h.order, bytes, off);
            r.Ok? && r.value.1 == off + |EncodeUnit(u)| && |r.value.0.rows| < |StandardOf(u, later).value.rows|
  {
    var (q, r) := (Instrs(u.program), Instrs(later));
    var s := InitialState(u.isStmt != 0);
    FirstOf(q, r);
    assert (q + r)[|q|..] == r;
    assert WellFormed(u.h, s.regs);
    assert !RecordsNone(r) by {
      assert r[|r| - 1] == EndSequence && RowOrder.Records(EndSequence);
    }
    hide Cursors.Holds, EncodeUnit, UnitLands, ParseUnit, Good, Exec, ExecStandard, FirstSequence, WellFormed, Sequence;
    hide RecordsNone, Instrs, ExecSequence;
    UnitRoundTrip(u, bytes, off);
    SameCount(u.h, |u.entries|, s, q);
    var t := StandardSplit(u.h, |u.entries|, s.regs, s, q + r);
    StandardGrows(u.h, |u.entries|, s.regs, t, r);
  }
}
