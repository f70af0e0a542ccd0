/** When the loop over a line program ends. */
module ProgramLoop {
  import opened Words
  import Arithmetic
  import opened Iteration
  import opened Leb128
  import opened LineTable
  import opened LineProgram

  /** What the next turns depend on: the offset, the line, and whether the file register names
      a file of the unit. */
  function Config(n: nat, r: Regs, off: nat): nat {
    TWO_32 * (2 * off + if 1 <= r.file <= n then 1 else 0) + r.line
  }

  /** Some state with that line and file. */
  function StateOf(config: nat): State {
    State(INITIAL.(line := config % TWO_32, file := config / TWO_32 % 2), [])
  }

  function OffsetOf(config: nat): nat {
    config / TWO_32 / 2
  }

  function ProgramTurn(h: Header, n: nat, bytes: seq<byte>, end: nat): nat -> Turn {
    (config: nat) =>
      var r := Step(h, n, bytes, end, StateOf(config), OffsetOf(config));
      if Halted(r) then Stop else Go(Config(n, r.value.0.regs, r.value.1))
  }

  /** States alike in line and file. */
  predicate SameControl(n: nat, s: State, t: State) {
    && s.regs.line == t.regs.line && (1 <= s.regs.file <= n <==> 1 <= t.regs.file <= n)
    && s.regs.endSequence == t.regs.endSequence
  }

  lemma ApplySameControl(h: Header, n: nat, s: State, t: State, i: Instr)
    requires SameControl(n, s, t)
    ensures var (a, b) := (Apply(h, n, s, i), Apply(h, n, t, i));
            && (a.Ok? <==> b.Ok?)
            && (a.Ok? ==> SameControl(n, a.value, b.value))
            && (a.Ok? && s.regs.line < TWO_32 ==> a.value.regs.line < TWO_32)
  {
    hide Arithmetic.Div, Arithmetic.Mod, U8, U32, U64, I32;
  }

  lemma ConfigOf(n: nat, r: Regs, off: nat)
    requires r.line < TWO_32
    ensures var c := Config(n, r, off);
            OffsetOf(c) == off && StateOf(c).regs.line == r.line
            && (StateOf(c).regs.file == if 1 <= r.file <= n then 1 else 0)
  {
  }

  /** One turn of the loop, as a turn over configurations. */
  lemma OneTurn(h: Header, n: nat, bytes: seq<byte>, end: nat, s: State, off: nat)
    requires !s.regs.endSequence && s.regs.line < TWO_32
    ensures var r := Step(h, n, bytes, end, s, off);
            && ProgramTurn(h, n, bytes, end)(Config(n, s.regs, off)) ==
               (if Halted(r) then Stop else Go(Config(n, r.value.0.regs, r.value.1)))
            && (r.Ok? ==> r.value.0.regs.line < TWO_32)
  {
    hide Fetch, Apply;
    var t := StateOf(Config(n, s.regs, off));
    ConfigOf(n, s.regs, off);
    hide Config, StateOf, OffsetOf;
    assert SameControl(n, s, t);
    if off < end && Fetch(h, bytes, off).Ok? {
      var (i, next) := Fetch(h, bytes, off).value;
      ApplySameControl(h, n, s, t, i);
      if Apply(h, n, s, i).Ok? {
        SameConfig(n, Apply(h, n, s, i).value, Apply(h, n, t, i).value, next);
      }
    }
  }

  lemma SameConfig(n: nat, s: State, t: State, off: nat)
    requires SameControl(n, s, t)
    ensures Config(n, s.regs, off) == Config(n, t.regs, off)
  {
  }

  /** The configurations of a section. */
  lemma TurnsClosed(h: Header, n: nat, bytes: seq<byte>, end: nat)
    ensures Closed(ProgramTurn(h, n, bytes, end), TurnLimit(|bytes|))
  {
    hide Apply, Fetch;
    forall c | 0 <= c < TurnLimit(|bytes|) && ProgramTurn(h, n, bytes, end)(c).Go?
      ensures ProgramTurn(h, n, bytes, end)(c).config < TurnLimit(|bytes|)
    {
      var (s, off) := (StateOf(c), OffsetOf(c));
      LineBelow(h, n, bytes, end, s, off);
      var r := Step(h, n, bytes, end, s, off);
      ConfigBelow(n, r.value.0.regs, r.value.1, |bytes|);
    }
  }

  lemma LineBelow(h: Header, n: nat, bytes: seq<byte>, end: nat, s: State, off: nat)
    requires s.regs.line < TWO_32
    ensures var r := Step(h, n, bytes, end, s, off);
            r.Ok? ==> r.value.0.regs.line < TWO_32
  {
    hide Apply, Fetch;
    if off < end && Fetch(h, bytes, off).Ok? {
      ApplySameControl(h, n, s, s, Fetch(h, bytes, off).value.0);
    }
  }

  lemma ConfigBelow(n: nat, r: Regs, off: nat, size: nat)
    requires r.line < TWO_32 && off <= size
    ensures Config(n, r, off) < TurnLimit(size)
  {
  }

  /** The loop halts within k turns exactly when the turns over configurations stop. */
  lemma {:induction false} HaltsIfStops(h: Header, n: nat, bytes: seq<byte>, end: nat, s: State, off: nat, k: nat)
    requires !s.regs.endSequence && s.regs.line < TWO_32
    ensures Halted(Turns(h, n, bytes, end, s, off, k)) <==>
            Iterate(ProgramTurn(h, n, bytes, end), Config(n, s.regs, off), k).Stop?
    decreases k
  {
    hide Step, Config, ProgramTurn;
    if k > 0 {
      OneTurn(h, n, bytes, end, s, off);
      var r := Step(h, n, bytes, end, s, off);
      if !Halted(r) {
        HaltsIfStops(h, n, bytes, end, r.value.0, r.value.1, k - 1);
      }
    }
  }

  /** Once halted, further turns change nothing. */
  lemma {:induction false} HaltedStays(h: Header, n: nat, bytes: seq<byte>, end: nat, s: State, off: nat, j: nat, k: nat)
    requires j <= k && Halted(Turns(h, n, bytes, end, s, off, j))
    ensures Turns(h, n, bytes, end, s, off, k) == Turns(h, n, bytes, end, s, off, j)
    decreases j
  {
    hide Step;
    if j > 0 && !s.regs.endSequence {
      var r := Step(h, n, bytes, end, s, off);
      if r.Ok? {
        HaltedStays(h, n, bytes, end, r.value.0, r.value.1, j - 1, k - 1);
      }
    }
  }

  /** `Run` decides the loop. If some number of turns is enough, Run is what the loop ends in;
      Run is Endless exactly when no number of turns is. */
  lemma RunDecides(h: Header, n: nat, bytes: seq<byte>, end: nat, s: State, off: nat)
    requires !s.regs.endSequence && s.regs.line < TWO_32 && off <= |bytes|
    ensures forall k: nat :: Halted(Turns(h, n, bytes, end, s, off, k)) ==>
              Turns(h, n, bytes, end, s, off, k) == Run(h, n, bytes, end, s, off)
    ensures Run(h, n, bytes, end, s, off) == Fail(Endless) <==>
            forall k: nat :: !Halted(Turns(h, n, bytes, end, s, off, k))
  {
    hide Turns, Halted, TurnLimit;
    var limit := TurnLimit(|bytes|);
    forall k: nat | Halted(Turns(h, n, bytes, end, s, off, k))
      ensures Turns(h, n, bytes, end, s, off, k) == Run(h, n, bytes, end, s, off)
    {
      HaltsInTime(h, n, bytes, end, s, off, k);
      HaltedStays(h, n, bytes, end, s, off, if k < limit then k else limit, if k < limit then limit else k);
    }
    if Run(h, n, bytes, end, s, off) != Fail(Endless) {
      assert Halted(Turns(h, n, bytes, end, s, off, limit));
    }
  }

  lemma HaltsInTime(h: Header, n: nat, bytes: seq<byte>, end: nat, s: State, off: nat, k: nat)
    requires !s.regs.endSequence && s.regs.line < TWO_32 && off <= |bytes|
    requires Halted(Turns(h, n, bytes, end, s, off, k))
    ensures Halted(Turns(h, n, bytes, end, s, off, TurnLimit(|bytes|)))
  {
    var limit := TurnLimit(|bytes|);
    ConfigBelow(n, s.regs, off, |bytes|);
    hide Turns, Halted, TurnLimit, Closed, Iterate, Config;
    HaltsIfStops(h, n, bytes, end, s, off, k);
    HaltsIfStops(h, n, bytes, end, s, off, limit);
    TurnsClosed(h, n, bytes, end);
    var (step, c) := (ProgramTurn(h, n, bytes, end), Config(n, s.regs, off));
    if Iterate(step, c, limit).Go? {
      StopsSoonOrNever(step, limit, c, k);
    }
  }

  // ----- endless programs

  /** The offsets of the instructions of a program. */
  function OffsetTurn(h: Header, bytes: seq<byte>, end: nat): nat -> Turn {
    (off: nat) =>
      if off >= end || Fetch(h, bytes, off).Fail? || Fetch(h, bytes, off).value.0 == EndSequence then Stop
      else Go(Fetch(h, bytes, off).value.1)
  }

  lemma {:induction false} OffsetsOfListing(h: Header, bytes: seq<byte>, end: nat, off: nat, k: nat)
    ensures var l := Disassemble(h, bytes, end, off, k);
            Iterate(OffsetTurn(h, bytes, end), off, k) == if l.GoesOn() then Go(l.stop.value) else Stop
    decreases k
  {
    hide Fetch;
    if k > 0 && off < end && Fetch(h, bytes, off).Ok? {
      var (i, next) := Fetch(h, bytes, off).value;
      if i != EndSequence {
        OffsetsOfListing(h, bytes, end, next, k - 1);
      }
    }
  }

  /** The program goes on for i and for j turns, and is then at the same offset. */
  predicate Meets(h: Header, bytes: seq<byte>, end: nat, off: nat, i: nat, j: nat) {
    var (a, b) := (Disassemble(h, bytes, end, off, i), Disassemble(h, bytes, end, off, j));
    a.GoesOn() && b.GoesOn() && a.stop == b.stop
  }

  /** Following the instructions of a program comes back to one of them. */
  ghost predicate ComesBack(h: Header, bytes: seq<byte>, end: nat, off: nat) {
    exists i: nat, j: nat :: i < j <= |bytes| + 1 && Meets(h, bytes, end, off, i, j)
  }

  lemma GoesOnIfComesBack(h: Header, bytes: seq<byte>, end: nat, off: nat, k: nat)
    requires off <= |bytes| && k > |bytes|
    ensures Disassemble(h, bytes, end, off, k).GoesOn() <==> ComesBack(h, bytes, end, off)
  {
    hide Disassemble, OffsetTurn, Iterate;
    var (step, n) := (OffsetTurn(h, bytes, end), |bytes| + 1);
    OffsetsOfListing(h, bytes, end, off, k);
    OffsetsClosed(h, bytes, end);
    hide Closed;
    if Disassemble(h, bytes, end, off, k).GoesOn() {
      WentOn(step, off, n, k);
      var i, j := Revisits(step, n, off);
      OffsetsOfListing(h, bytes, end, off, i);
      OffsetsOfListing(h, bytes, end, off, j);
      assert Meets(h, bytes, end, off, i, j);
    }
    if ComesBack(h, bytes, end, off) {
      var i: nat, j: nat :| i < j <= |bytes| + 1 && Meets(h, bytes, end, off, i, j);
      OffsetsOfListing(h, bytes, end, off, i);
      OffsetsOfListing(h, bytes, end, off, j);
      CyclesForEver(step, off, i, j, k);
    }
  }

  lemma ProgramGoesOn(h: Header, bytes: seq<byte>, end: nat, off: nat)
    requires off <= |bytes|
    ensures Program(h, bytes, end, off).GoesOn() <==> ComesBack(h, bytes, end, off)
  {
    GoesOnIfComesBack(h, bytes, end, off, TurnLimit(|bytes|));
  }

  lemma OffsetsClosed(h: Header, bytes: seq<byte>, end: nat)
    ensures Closed(OffsetTurn(h, bytes, end), |bytes| + 1)
  {
    hide Fetch;
  }

  /** The exact condition: the loop over a program never ends if and only if following its
      instructions comes back to one of them and none of them has a fault. */
  lemma EndlessIfComesBack(h: Header, n: nat, bytes: seq<byte>, end: nat, s: State, off: nat)
    requires !s.regs.endSequence && s.regs.line < TWO_32 && off <= |bytes|
    ensures (forall k: nat :: !Halted(Turns(h, n, bytes, end, s, off, k))) <==>
            ComesBack(h, bytes, end, off) && Exec(h, n, s, Program(h, bytes, end, off).instrs).Ok?
  {
    hide Turns, Halted, Run, Exec, ComesBack, TurnLimit, Disassemble;
    RunDecides(h, n, bytes, end, s, off);
    RunIsExec(h, n, bytes, end, s, off);
    GoesOnIfComesBack(h, bytes, end, off, TurnLimit(|bytes|));
  }

  /** A program that comes back does so by an instruction it has reached, an extended opcode
      whose declared end is not after it. */
  lemma ComesBackByTarget(h: Header, bytes: seq<byte>, end: nat, off: nat) returns (k: nat, o: nat)
    requires ComesBack(h, bytes, end, off)
    ensures Disassemble(h, bytes, end, off, k).GoesOn() && Disassemble(h, bytes, end, off, k).stop == Ok(o)
    ensures o < |bytes| && bytes[o] == 0 < h.opcodeBase && DecodeU(bytes, o + 1).Ok?
    ensures var (len, at) := DecodeU(bytes, o + 1).value;
            0 <= Target(len, at) <= o && (|bytes| < TWO_31 ==> I32(len) < 0)
  {
    hide Disassemble, Fetch, DecodeU, Target;
    var i: nat, j: nat :| i < j <= |bytes| + 1 && Meets(h, bytes, end, off, i, j);
    k := NotAfter(h, bytes, end, off, i, j);
    o := Disassemble(h, bytes, end, off, k).stop.value;
    NegativeLength(h, bytes, o);
  }

  lemma NegativeLength(h: Header, bytes: seq<byte>, o: nat)
    requires Fetch(h, bytes, o).Ok? && Fetch(h, bytes, o).value.1 <= o
    ensures o < |bytes| && bytes[o] == 0 < h.opcodeBase && DecodeU(bytes, o + 1).Ok?
    ensures var (len, at) := DecodeU(bytes, o + 1).value;
            0 <= Target(len, at) <= o && (|bytes| < TWO_31 ==> I32(len) < 0)
  {
    FetchAdvances(h, bytes, o);
    hide Fetch, DecodeU;
  }

  /** Among the turns from i to j, one that does not move forward. */
  lemma {:induction false} NotAfter(h: Header, bytes: seq<byte>, end: nat, off: nat, i: nat, j: nat) returns (k: nat)
    requires i < j && Disassemble(h, bytes, end, off, i).GoesOn() && Disassemble(h, bytes, end, off, j).GoesOn()
    requires Disassemble(h, bytes, end, off, j).stop.value <= Disassemble(h, bytes, end, off, i).stop.value
    ensures i <= k < j && Disassemble(h, bytes, end, off, k).GoesOn()
    ensures var o := Disassemble(h, bytes, end, off, k).stop.value;
            Fetch(h, bytes, o).Ok? && Fetch(h, bytes, o).value.1 <= o
    decreases j - i
  {
    hide Fetch, Disassemble;
    var step := OffsetTurn(h, bytes, end);
    OffsetsOfListing(h, bytes, end, off, i);
    OffsetsOfListing(h, bytes, end, off, j);
    OffsetsOfListing(h, bytes, end, off, i + 1);
    WentOn(step, off, i + 1, j);
    IterateSplit(step, off, i, 1);
    var o := Disassemble(h, bytes, end, off, i).stop.value;
    assert Iterate(step, off, i + 1) == step(o) by {
      if step(o).Go? {
        assert Iterate(step, step(o).config, 0) == step(o);
      }
    }
    if Fetch(h, bytes, o).value.1 <= o {
      k := i;
    } else {
      k := NotAfter(h, bytes, end, off, i + 1, j);
    }
  }
}
