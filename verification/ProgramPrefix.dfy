/** Endless line programs, decided on a prefix of their instructions. */
module ProgramPrefix {
  import opened Words
  import opened Iteration
  import opened LineTable
  import opened LineProgram
  import opened ProgramLoop
  import Arithmetic

  /** The instruction cannot overflow a line that is a 32-bit word. */
  predicate CalmInstr(h: Header, i: Instr) {
    match i
    case AdvanceLineBy(delta) => delta < TWO_63 - TWO_32
    case Special(_) => h.lineBase < TWO_7
    case _ => true
  }

  predicate CalmAt(h: Header, bytes: seq<byte>, off: nat) {
    Fetch(h, bytes, off).Ok? ==> CalmInstr(h, Fetch(h, bytes, off).value.0)
  }

  /** Nor can any of the first k instructions that are reached. */
  ghost predicate CalmFor(h: Header, bytes: seq<byte>, end: nat, off: nat, k: nat) {
    forall m: nat :: m < k && Disassemble(h, bytes, end, off, m).GoesOn() ==>
      CalmAt(h, bytes, Disassemble(h, bytes, end, off, m).stop.value)
  }

  // ----- what calm instructions depend on

  /** The offset, and whether the file register names a file of the unit. */
  function CalmConfig(n: nat, r: Regs, off: nat): nat {
    2 * off + if 1 <= r.file <= n then 1 else 0
  }

  function CalmState(config: nat): State {
    State(INITIAL.(file := config % 2), [])
  }

  function CalmTurn(h: Header, n: nat, bytes: seq<byte>, end: nat): nat -> Turn {
    (config: nat) =>
      var r := Step(h, n, bytes, end, CalmState(config), config / 2);
      if Halted(r) then Stop else Go(CalmConfig(n, r.value.0.regs, r.value.1))
  }

  lemma ApplyCalm(h: Header, n: nat, s: State, t: State, i: Instr)
    requires CalmInstr(h, i) && s.regs.line < TWO_32 && t.regs.line < TWO_32
    requires (1 <= s.regs.file <= n <==> 1 <= t.regs.file <= n) && s.regs.endSequence == t.regs.endSequence
    ensures var (a, b) := (Apply(h, n, s, i), Apply(h, n, t, i));
            && (a.Ok? <==> b.Ok?)
            && (a.Ok? ==>
                  && (1 <= a.value.regs.file <= n <==> 1 <= b.value.regs.file <= n)
                  && a.value.regs.endSequence == b.value.regs.endSequence && a.value.regs.line < TWO_32)
  {
    if i.Special? && h.lineRange > 0 {
      assert Arithmetic.Mod(i.op, h.lineRange) < TWO_8;
    }
    hide Arithmetic.Div, Arithmetic.Mod, U8, U32, U64, I32;
  }

  /** One turn of the loop, as a turn over these configurations. */
  lemma OneCalmTurn(h: Header, n: nat, bytes: seq<byte>, end: nat, s: State, off: nat)
    requires !s.regs.endSequence && s.regs.line < TWO_32 && (off < end ==> CalmAt(h, bytes, off))
    ensures var r := Step(h, n, bytes, end, s, off);
            && CalmTurn(h, n, bytes, end)(CalmConfig(n, s.regs, off)) ==
               (if Halted(r) then Stop else Go(CalmConfig(n, r.value.0.regs, r.value.1)))
            && (r.Ok? ==> r.value.0.regs.line < TWO_32)
  {
    hide Fetch, Apply;
    var c := CalmConfig(n, s.regs, off);
    var t := CalmState(c);
    assert c / 2 == off && (1 <= t.regs.file <= n <==> 1 <= s.regs.file <= n);
    if off < end && Fetch(h, bytes, off).Ok? {
      ApplyCalm(h, n, s, t, Fetch(h, bytes, off).value.0);
    }
  }

  lemma CalmClosed(h: Header, n: nat, bytes: seq<byte>, end: nat)
    ensures Closed(CalmTurn(h, n, bytes, end), 2 * |bytes| + 2)
  {
    hide Apply, Fetch;
  }

  lemma {:induction false} HaltsIfCalmStops(h: Header, n: nat, bytes: seq<byte>, end: nat, s: State, off: nat, k: nat)
    requires !s.regs.endSequence && s.regs.line < TWO_32 && CalmFor(h, bytes, end, off, k)
    ensures Halted(Turns(h, n, bytes, end, s, off, k)) <==>
            Iterate(CalmTurn(h, n, bytes, end), CalmConfig(n, s.regs, off), k).Stop?
    decreases k
  {
    hide Step, CalmConfig, CalmTurn, CalmAt;
    if k > 0 {
      assert Disassemble(h, bytes, end, off, 0) == Listing([], Ok(off));
      OneCalmTurn(h, n, bytes, end, s, off);
      var r := Step(h, n, bytes, end, s, off);
      if !Halted(r) {
        CalmAfter(h, n, bytes, end, s, off, k);
        HaltsIfCalmStops(h, n, bytes, end, r.value.0, r.value.1, k - 1);
      }
    }
  }

  lemma CalmAfter(h: Header, n: nat, bytes: seq<byte>, end: nat, s: State, off: nat, k: nat)
    requires k > 0 && CalmFor(h, bytes, end, off, k) && !s.regs.endSequence
    requires !Halted(Step(h, n, bytes, end, s, off))
    ensures CalmFor(h, bytes, end, Step(h, n, bytes, end, s, off).value.1, k - 1)
  {
    hide Fetch, Apply, CalmAt;
    var (i, next) := Fetch(h, bytes, off).value;
    OnlyEndSequenceEnds(h, n, s, i);
    forall m: nat | m < k - 1 && Disassemble(h, bytes, end, next, m).GoesOn()
      ensures CalmAt(h, bytes, Disassemble(h, bytes, end, next, m).stop.value)
    {
      var l := Disassemble(h, bytes, end, off, m + 1);
      assert l.GoesOn() && l.stop == Disassemble(h, bytes, end, next, m).stop;
    }
  }

  /** An instruction is reached within as many turns as there are bytes, or never. */
  lemma {:induction false} CalmForEver(h: Header, bytes: seq<byte>, end: nat, off: nat, m: nat)
    requires off <= |bytes| && CalmFor(h, bytes, end, off, |bytes| + 1)
    requires Disassemble(h, bytes, end, off, m).GoesOn()
    ensures CalmAt(h, bytes, Disassemble(h, bytes, end, off, m).stop.value)
    decreases m
  {
    hide Disassemble, OffsetTurn, Iterate, CalmAt;
    if m > |bytes| {
      var (step, n) := (OffsetTurn(h, bytes, end), |bytes| + 1);
      OffsetsOfListing(h, bytes, end, off, m);
      OffsetsClosed(h, bytes, end);
      hide Closed;
      WentOn(step, off, n, m);
      var i, j := Revisits(step, n, off);
      IterateSplit(step, off, i, m - j);
      IterateSplit(step, off, j, m - j);
      OffsetsOfListing(h, bytes, end, off, m - (j - i));
      CalmForEver(h, bytes, end, off, m - (j - i));
    }
  }

  /** Where no line advance that is reached can overflow, the loop never ends if and only if
      following its instructions comes back to one of them and the first 2 * |bytes| + 2 of them
      have no fault. */
  lemma EndlessInPrefix(h: Header, n: nat, bytes: seq<byte>, end: nat, s: State, off: nat)
    requires !s.regs.endSequence && s.regs.line < TWO_32 && off <= |bytes|
    requires CalmFor(h, bytes, end, off, |bytes| + 1)
    ensures (forall k: nat :: !Halted(Turns(h, n, bytes, end, s, off, k))) <==>
            && ComesBack(h, bytes, end, off)
            && Exec(h, n, s, Disassemble(h, bytes, end, off, 2 * |bytes| + 2).instrs).Ok?
  {
    hide Turns, Halted, Exec, ComesBack, Disassemble, CalmFor;
    var limit := 2 * |bytes| + 2;
    GoesOnIfComesBack(h, bytes, end, off, limit);
    HaltedInPrefix(h, n, bytes, end, s, off);
    forall k: nat | Halted(Turns(h, n, bytes, end, s, off, k))
      ensures Halted(Turns(h, n, bytes, end, s, off, limit))
    {
      HaltsInPrefix(h, n, bytes, end, s, off, k);
    }
    if forall k: nat :: !Halted(Turns(h, n, bytes, end, s, off, k)) {
      assert !Halted(Turns(h, n, bytes, end, s, off, limit));
    }
  }

  lemma HaltedInPrefix(h: Header, n: nat, bytes: seq<byte>, end: nat, s: State, off: nat)
    requires !s.regs.endSequence
    ensures var l := Disassemble(h, bytes, end, off, 2 * |bytes| + 2);
            !Halted(Turns(h, n, bytes, end, s, off, 2 * |bytes| + 2)) <==> l.GoesOn() && Exec(h, n, s, l.instrs).Ok?
  {
    hide Turns, Disassemble, Exec;
    TurnsAreExec(h, n, bytes, end, s, off, 2 * |bytes| + 2);
  }

  lemma HaltsInPrefix(h: Header, n: nat, bytes: seq<byte>, end: nat, s: State, off: nat, k: nat)
    requires !s.regs.endSequence && s.regs.line < TWO_32 && off <= |bytes|
    requires CalmFor(h, bytes, end, off, |bytes| + 1) && Halted(Turns(h, n, bytes, end, s, off, k))
    ensures Halted(Turns(h, n, bytes, end, s, off, 2 * |bytes| + 2))
  {
    var limit := 2 * |bytes| + 2;
    var (step, c) := (CalmTurn(h, n, bytes, end), CalmConfig(n, s.regs, off));
    assert c < limit;
    CalmClosed(h, n, bytes, end);
    hide Turns, Halted, Closed, Iterate, CalmConfig, CalmTurn, CalmAt, Disassemble;
    forall m: nat | Disassemble(h, bytes, end, off, m).GoesOn()
      ensures CalmAt(h, bytes, Disassemble(h, bytes, end, off, m).stop.value)
    {
      CalmForEver(h, bytes, end, off, m);
    }
    HaltsIfCalmStops(h, n, bytes, end, s, off, k);
    HaltsIfCalmStops(h, n, bytes, end, s, off, limit);
    if Iterate(step, c, limit).Go? {
      StopsSoonOrNever(step, limit, c, k);
    }
  }
}
