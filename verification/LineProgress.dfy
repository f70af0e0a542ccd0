/** When the loop over the units of a section ends. */
module LineProgress {
  import opened Words
  import opened ByteOrder
  import opened Iteration
  import LineTable
  import opened LineProgram
  import opened LineUnit
  import ProgramLoop

  /** The end a unit is given, a 64-bit sum. */
  function UnitEnd(order: Order, bytes: seq<byte>, off: nat): nat
    requires ParseLength(order, bytes, off).Ok?
  {
    var (_, len, at) := ParseLength(order, bytes, off).value;
    U64(at + len)
  }

  /** The header of the unit at an offset. */
  function UnitHead(order: Order, bytes: seq<byte>, off: nat): Result<Head> {
    var (is64, _, at) :- ParseLength(order, bytes, off);
    ParseHeader(order, is64, bytes, at)
  }

  /** The line program of a unit. */
  function UnitProgram(order: Order, bytes: seq<byte>, off: nat): Listing
    requires UnitHead(order, bytes, off).Ok?
  {
    var head := UnitHead(order, bytes, off).value;
    Program(head.h, bytes, UnitEnd(order, bytes, off), head.program)
  }

  /** Where the reader is after a unit: at the end the unit is given, if that lies in the
      section; else where its program stops. */
  lemma AfterUnit(order: Order, bytes: seq<byte>, off: nat)
    requires ParseUnit(order, bytes, off).Ok?
    ensures UnitHead(order, bytes, off).Ok?
    ensures var (e, next) := (UnitEnd(order, bytes, off), ParseUnit(order, bytes, off).value.1);
            if e <= |bytes| then next == e else UnitProgram(order, bytes, off).stop == Ok(next)
  {
    hide ParseHeader, Run, ParseLength;
    var head := UnitHead(order, bytes, off).value;
    RunIsExec(head.h, |head.entries|, bytes, UnitEnd(order, bytes, off), InitialState(head.isStmt), head.program);
    hide Program, LineTable.Exec;
  }

  /** The exact condition for a unit that does not move the reader forward: the end it is given
      is in the section and not after its start, or it is past the section and its program
      stops at or before its start. */
  lemma UnitGoesBack(order: Order, bytes: seq<byte>, off: nat)
    requires ParseUnit(order, bytes, off).Ok?
    ensures UnitHead(order, bytes, off).Ok?
    ensures var e := UnitEnd(order, bytes, off);
            ParseUnit(order, bytes, off).value.1 <= off <==>
            if e <= |bytes| then e <= off
            else UnitProgram(order, bytes, off).stop.Ok? && UnitProgram(order, bytes, off).stop.value <= off
  {
    hide ParseUnit, UnitHead, UnitEnd, UnitProgram;
    AfterUnit(order, bytes, off);
  }

  /** The program of the unit never ends: its header can be read, and the program starts before
      the end of the unit, comes back to one of its instructions and has no fault. */
  ghost predicate NeverEnds(order: Order, bytes: seq<byte>, off: nat) {
    && UnitHead(order, bytes, off).Ok?
    && var (head, e) := (UnitHead(order, bytes, off).value, UnitEnd(order, bytes, off));
    && head.program < e && ProgramLoop.ComesBack(head.h, bytes, e, head.program)
    && LineTable.Exec(head.h, |head.entries|, InitialState(head.isStmt), UnitProgram(order, bytes, off).instrs).Ok?
  }

  /** The unit has no fault: its header can be read, and its program, if it starts before the end
      of the unit, ends and has none. */
  predicate Readable(order: Order, bytes: seq<byte>, off: nat) {
    && UnitHead(order, bytes, off).Ok?
    && var head := UnitHead(order, bytes, off).value;
    head.program < UnitEnd(order, bytes, off) ==>
      && UnitProgram(order, bytes, off).Ended()
      && LineTable.Exec(head.h, |head.entries|, InitialState(head.isStmt), UnitProgram(order, bytes, off).instrs).Ok?
  }

  /** The exact conditions for a unit that is read, and for one whose program never ends. */
  lemma UnitOutcome(order: Order, bytes: seq<byte>, off: nat)
    ensures ParseUnit(order, bytes, off).Ok? <==> Readable(order, bytes, off)
    ensures ParseUnit(order, bytes, off) == Fail(Endless) <==> NeverEnds(order, bytes, off)
  {
    hide ParseHeader, Run, ParseLength, Program, ProgramLoop.ComesBack, LineTable.Exec;
    var u := UnitHead(order, bytes, off);
    if u.Ok? {
      var head := u.value;
      var (e, s) := (UnitEnd(order, bytes, off), InitialState(head.isStmt));
      RunIsExec(head.h, |head.entries|, bytes, e, s, head.program);
      ProgramLoop.ProgramGoesOn(head.h, bytes, e, head.program);
    }
  }

  /** The start of the unit after the one at an offset: the end this one is given, if that lies in
      the section; else where its program stops. */
  function StartTurn(order: Order, bytes: seq<byte>): nat -> Turn {
    (off: nat) =>
      if !Readable(order, bytes, off) then Stop
      else if UnitEnd(order, bytes, off) < |bytes| then Go(UnitEnd(order, bytes, off))
      else if UnitEnd(order, bytes, off) == |bytes| || UnitProgram(order, bytes, off).stop.value >= |bytes| then Stop
      else Go(UnitProgram(order, bytes, off).stop.value)
  }

  // ----- the loop over the section

  /** A turn of the loop depends on its offset alone. */
  function UnitTurn(order: Order, bytes: seq<byte>): nat -> Turn {
    (off: nat) =>
      var u := ParseUnit(order, bytes, off);
      if u.Ok? && u.value.1 < |bytes| then Go(u.value.1) else Stop
  }

  lemma {:induction false} StartsOfUnits(order: Order, bytes: seq<byte>, off: nat, k: nat)
    requires off < |bytes|
    ensures var r := SectionTurns(order, bytes, off, k);
            Iterate(UnitTurn(order, bytes), off, k) == if SectionRead(|bytes|, r) then Stop else Go(r.value.1)
    decreases k
  {
    hide ParseUnit;
    if k > 0 {
      var u := ParseUnit(order, bytes, off);
      if u.Ok? && u.value.1 < |bytes| {
        StartsOfUnits(order, bytes, u.value.1, k - 1);
      }
    }
  }

  lemma UnitsClosed(order: Order, bytes: seq<byte>)
    ensures Closed(UnitTurn(order, bytes), |bytes|)
  {
    hide ParseUnit;
  }

  /** Once ended, further turns change nothing. */
  lemma {:induction false} ReadStays(order: Order, bytes: seq<byte>, off: nat, j: nat, k: nat)
    requires j <= k && SectionRead(|bytes|, SectionTurns(order, bytes, off, j))
    ensures SectionTurns(order, bytes, off, k) == SectionTurns(order, bytes, off, j)
    decreases j
  {
    hide ParseUnit;
    if j > 0 && off < |bytes| {
      var u := ParseUnit(order, bytes, off);
      if u.Ok? {
        ReadStays(order, bytes, u.value.1, j - 1, k - 1);
      }
    }
  }

  /** The result of a loop over the section. */
  function UnitsOf(r: Result<(seq<Unit>, nat)>): Result<seq<Unit>> {
    var (units, _) :- r;
    Ok(units)
  }

  /** `ParseSection` decides the loop over the section: if some number of turns is enough, it is
      what the loop ends in, and otherwise it is Endless. */
  lemma SectionDecides(order: Order, bytes: seq<byte>, off: nat)
    requires off < |bytes|
    ensures forall k: nat :: SectionRead(|bytes|, SectionTurns(order, bytes, off, k)) ==>
              ParseSection(order, bytes, off) == UnitsOf(SectionTurns(order, bytes, off, k))
    ensures (forall k: nat :: !SectionRead(|bytes|, SectionTurns(order, bytes, off, k))) ==>
              ParseSection(order, bytes, off) == Fail(Endless)
  {
    hide SectionTurns;
    var limit := |bytes|;
    forall k: nat | SectionRead(|bytes|, SectionTurns(order, bytes, off, k))
      ensures ParseSection(order, bytes, off) == UnitsOf(SectionTurns(order, bytes, off, k))
    {
      ReadInTime(order, bytes, off, k);
      ReadStays(order, bytes, off, if k < limit then k else limit, if k < limit then limit else k);
    }
  }

  lemma ReadInTime(order: Order, bytes: seq<byte>, off: nat, k: nat)
    requires off < |bytes| && SectionRead(|bytes|, SectionTurns(order, bytes, off, k))
    ensures SectionRead(|bytes|, SectionTurns(order, bytes, off, |bytes|))
  {
    hide SectionTurns, SectionRead, Iterate, Closed, UnitTurn;
    var step := UnitTurn(order, bytes);
    StartsOfUnits(order, bytes, off, k);
    StartsOfUnits(order, bytes, off, |bytes|);
    UnitsClosed(order, bytes);
    if Iterate(step, off, |bytes|).Go? {
      StopsSoonOrNever(step, |bytes|, off, k);
    }
  }

  lemma SameTurn(order: Order, bytes: seq<byte>, off: nat)
    ensures StartTurn(order, bytes)(off) == UnitTurn(order, bytes)(off)
  {
    UnitOutcome(order, bytes, off);
    if ParseUnit(order, bytes, off).Ok? {
      AfterUnit(order, bytes, off);
    }
    hide ParseUnit, UnitEnd, UnitHead, UnitProgram, NeverEnds, Readable;
  }

  /** Following the starts of units for k units is following the reader. */
  lemma {:induction false} StartsAreRead(order: Order, bytes: seq<byte>, off: nat, k: nat)
    ensures Iterate(StartTurn(order, bytes), off, k) == Iterate(UnitTurn(order, bytes), off, k)
    decreases k
  {
    hide StartTurn, UnitTurn;
    if k > 0 {
      SameTurn(order, bytes, off);
      var t := UnitTurn(order, bytes)(off);
      if t.Go? {
        StartsAreRead(order, bytes, t.config, k - 1);
      }
    }
  }

  /** The start of the unit after k units, if there is one. */
  function StartAfter(order: Order, bytes: seq<byte>, off: nat, k: nat): Turn {
    Iterate(StartTurn(order, bytes), off, k)
  }

  lemma StartIsRead(order: Order, bytes: seq<byte>, off: nat, k: nat)
    requires off < |bytes|
    ensures var r := SectionTurns(order, bytes, off, k);
            StartAfter(order, bytes, off, k) == if SectionRead(|bytes|, r) then Stop else Go(r.value.1)
  {
    hide SectionTurns, StartTurn, UnitTurn, Iterate;
    StartsAreRead(order, bytes, off, k);
    StartsOfUnits(order, bytes, off, k);
  }

  predicate SameStart(order: Order, bytes: seq<byte>, off: nat, i: nat, j: nat) {
    StartAfter(order, bytes, off, i).Go? && StartAfter(order, bytes, off, i) == StartAfter(order, bytes, off, j)
  }

  /** Following the starts of units comes back to one of them. */
  ghost predicate StartsAgain(order: Order, bytes: seq<byte>, off: nat) {
    exists i: nat, j: nat :: i < j <= |bytes| && SameStart(order, bytes, off, i, j)
  }

  /** It leads to a unit whose program never ends. */
  ghost predicate EndlessAfter(order: Order, bytes: seq<byte>, off: nat, k: nat) {
    StartAfter(order, bytes, off, k).Go? && NeverEnds(order, bytes, StartAfter(order, bytes, off, k).config)
  }

  /** The exact condition: the constructor never returns if and only if following the starts of
      units, from the lengths and the programs the section holds, comes back to one of them or
      leads to a unit whose program never ends. */
  lemma SectionEndless(order: Order, bytes: seq<byte>, off: nat)
    requires off < |bytes|
    ensures ParseSection(order, bytes, off) == Fail(Endless) <==>
            StartsAgain(order, bytes, off) || exists k: nat :: EndlessAfter(order, bytes, off, k)
  {
    hide SectionTurns, StartsAgain, EndlessAfter, StartAfter, NeverEnds;
    var r := SectionTurns(order, bytes, off, |bytes|);
    GoesOnIfStartsAgain(order, bytes, off);
    if r == Fail(Endless) {
      var k := EndlessUnit(order, bytes, off, |bytes|);
      EndlessIsRead(order, bytes, off, k);
    }
    if k: nat :| EndlessAfter(order, bytes, off, k) {
      EndlessIsRead(order, bytes, off, k);
      FailsAfter(order, bytes, off, k);
      SectionDecides(order, bytes, off);
      assert SectionRead(|bytes|, SectionTurns(order, bytes, off, k + 1));
    }
  }

  /** After k turns the reader is at a unit whose program never ends. */
  predicate EndlessRead(order: Order, bytes: seq<byte>, off: nat, k: nat) {
    var r := SectionTurns(order, bytes, off, k);
    !SectionRead(|bytes|, r) && ParseUnit(order, bytes, r.value.1) == Fail(Endless)
  }

  lemma EndlessIsRead(order: Order, bytes: seq<byte>, off: nat, k: nat)
    requires off < |bytes|
    ensures EndlessAfter(order, bytes, off, k) <==> EndlessRead(order, bytes, off, k)
  {
    hide SectionTurns, StartAfter, ParseUnit, NeverEnds;
    StartIsRead(order, bytes, off, k);
    var r := SectionTurns(order, bytes, off, k);
    if !SectionRead(|bytes|, r) {
      UnitOutcome(order, bytes, r.value.1);
    }
  }

  lemma GoesOnIfStartsAgain(order: Order, bytes: seq<byte>, off: nat)
    requires off < |bytes|
    ensures !SectionRead(|bytes|, SectionTurns(order, bytes, off, |bytes|)) <==> StartsAgain(order, bytes, off)
  {
    hide SectionTurns, SectionRead, Iterate, StartTurn;
    var step := StartTurn(order, bytes);
    StartIsRead(order, bytes, off, |bytes|);
    StartsClosed(order, bytes);
    hide Closed;
    if Iterate(step, off, |bytes|).Go? {
      var i, j := Revisits(step, |bytes|, off);
      assert SameStart(order, bytes, off, i, j);
    }
    if StartsAgain(order, bytes, off) {
      var i: nat, j: nat :| i < j <= |bytes| && SameStart(order, bytes, off, i, j);
      CyclesForEver(step, off, i, j, |bytes|);
    }
  }

  lemma StartsClosed(order: Order, bytes: seq<byte>)
    ensures Closed(StartTurn(order, bytes), |bytes|)
  {
    hide Readable, UnitEnd, UnitProgram;
  }

  lemma {:induction false} EndlessUnit(order: Order, bytes: seq<byte>, off: nat, n: nat) returns (k: nat)
    requires SectionTurns(order, bytes, off, n) == Fail(Endless)
    ensures EndlessRead(order, bytes, off, k)
    decreases n
  {
    hide ParseUnit;
    var u := ParseUnit(order, bytes, off);
    if u.Fail? {
      k := 0;
    } else {
      k := EndlessUnit(order, bytes, u.value.1, n - 1);
      k := k + 1;
    }
  }

  lemma {:induction false} FailsAfter(order: Order, bytes: seq<byte>, off: nat, k: nat)
    requires EndlessRead(order, bytes, off, k)
    ensures SectionTurns(order, bytes, off, k + 1) == Fail(Endless)
    decreases k
  {
    hide ParseUnit;
    if k > 0 {
      FailsAfter(order, bytes, ParseUnit(order, bytes, off).value.1, k - 1);
    }
  }

  /** A reader that comes back has reached a unit that does not move it forward; UnitGoesBack
      says when that is. */
  lemma StartsAgainByUnit(order: Order, bytes: seq<byte>, off: nat) returns (k: nat, o: nat)
    requires off < |bytes| && StartsAgain(order, bytes, off)
    ensures !SectionRead(|bytes|, SectionTurns(order, bytes, off, k))
    ensures SectionTurns(order, bytes, off, k).value.1 == o
    ensures ParseUnit(order, bytes, o).Ok? && ParseUnit(order, bytes, o).value.1 <= o
  {
    hide SectionTurns, ParseUnit, StartAfter;
    var i: nat, j: nat :| i < j <= |bytes| && SameStart(order, bytes, off, i, j);
    StartIsRead(order, bytes, off, i);
    StartIsRead(order, bytes, off, j);
    k := UnitNotAfter(order, bytes, off, i, j);
    o := SectionTurns(order, bytes, off, k).value.1;
  }

  /** Among the units from i to j, one that does not move the reader forward. */
  lemma {:induction false} UnitNotAfter(order: Order, bytes: seq<byte>, off: nat, i: nat, j: nat) returns (k: nat)
    requires off < |bytes| && i < j
    requires !SectionRead(|bytes|, SectionTurns(order, bytes, off, i))
    requires !SectionRead(|bytes|, SectionTurns(order, bytes, off, j))
    requires SectionTurns(order, bytes, off, j).value.1 <= SectionTurns(order, bytes, off, i).value.1
    ensures i <= k < j && !SectionRead(|bytes|, SectionTurns(order, bytes, off, k))
    ensures var o := SectionTurns(order, bytes, off, k).value.1;
            ParseUnit(order, bytes, o).Ok? && ParseUnit(order, bytes, o).value.1 <= o
    decreases j - i
  {
    hide SectionTurns, ParseUnit;
    var step := UnitTurn(order, bytes);
    StartsOfUnits(order, bytes, off, i);
    StartsOfUnits(order, bytes, off, j);
    StartsOfUnits(order, bytes, off, i + 1);
    WentOn(step, off, i + 1, j);
    IterateSplit(step, off, i, 1);
    var o := SectionTurns(order, bytes, off, i).value.1;
    assert Iterate(step, off, i + 1) == step(o) by {
      if step(o).Go? {
        assert Iterate(step, step(o).config, 0) == step(o);
      }
    }
    if ParseUnit(order, bytes, o).value.1 <= o {
      k := i;
    } else {
      k := UnitNotAfter(order, bytes, off, i + 1, j);
    }
  }
}
