/** Order and extent of the rows of a line program. */
module RowOrder {
  import opened Words
  import opened Arithmetic
  import opened LineTable
  import opened LineProgram

  /** The bytes an operation advance adds to the address, before any wrap-around. */
  function PcBytes(h: Header, opIndex: nat, adv: nat): nat {
    if h.maxOps == 0 then 0
    else if h.maxOps == 1 then h.minInst * adv
    else h.minInst * Div(U64(opIndex + adv), h.maxOps)
  }

  /** The bytes an instruction adds to the address register. */
  function ByteAdvance(h: Header, r: Regs, i: Instr): nat {
    match i
    case FixedAdvancePc(bytes) => bytes
    case Special(_) => PcBytes(h, r.opIndex, OpAdvance(h, i))
    case AdvancePcBy(_) => PcBytes(h, r.opIndex, OpAdvance(h, i))
    case ConstAddPc => PcBytes(h, r.opIndex, OpAdvance(h, i))
    case _ => 0
  }

  lemma PcMoves(h: Header, r: Regs, adv: nat)
    requires h.maxOps > 0 && r.address + PcBytes(h, r.opIndex, adv) < TWO_64
    ensures AdvancePc(h, r, adv).address == r.address + PcBytes(h, r.opIndex, adv)
  {
    hide Div, Mod;
  }

  /** The instruction does not place the address below where it is, and does not wrap it. */
  predicate Ascends(h: Header, r: Regs, i: Instr) {
    match i
    case SetAddress(a) => r.address <= U64(a)
    case _ => r.address + ByteAdvance(h, r, i) < TWO_64
  }

  predicate Ascending(h: Header, n: nat, s: State, p: seq<Instr>)
    decreases |p|
  {
    p == [] ||
    (Ascends(h, s.regs, p[0]) &&
     var a := Apply(h, n, s, p[0]);
     a.Ok? ==> Ascending(h, n, a.value, p[1..]))
  }

  predicate Sorted(rows: seq<Row>) {
    forall i, j :: 0 <= i <= j < |rows| ==> rows[i].addr <= rows[j].addr
  }

  /** Sorted rows, none of them above the address register. */
  predicate InOrder(s: State) {
    Sorted(s.rows) && forall i :: 0 <= i < |s.rows| ==> s.rows[i].addr <= s.regs.address
  }

  predicate Records(i: Instr) {
    i.Special? || i.Copy? || i.EndSequence?
  }

  /** What one instruction does to the address and to the rows. */
  lemma OneStep(h: Header, n: nat, s: State, i: Instr)
    requires WellFormed(h, s.regs) && Ascends(h, s.regs, i) && Apply(h, n, s, i).Ok?
    ensures var s' := Apply(h, n, s, i).value;
            && s.regs.address <= s'.regs.address
            && (!i.SetAddress? ==> s'.regs.address == s.regs.address + ByteAdvance(h, s.regs, i))
            && if Records(i) then
                 |s'.rows| == |s.rows| + 1 && s'.rows[..|s.rows|] == s.rows
                 && s'.rows[|s.rows|].addr == s'.regs.address
               else s'.rows == s.rows
  {
    hide Div, Mod, AdvancePc, PcBytes;
    var r, adv := s.regs, OpAdvance(h, i);
    if h.maxOps > 0 {
      match i
      case Special(op) => PcMoves(h, AdvanceLine(r, h.lineBase + Mod(op, h.lineRange)), adv);
      case AdvancePcBy(_) => PcMoves(h, r, adv);
      case ConstAddPc => PcMoves(h, r, adv);
      case _ =>
    }
  }

  lemma StepInOrder(h: Header, n: nat, s: State, i: Instr)
    requires WellFormed(h, s.regs) && Ascends(h, s.regs, i) && Apply(h, n, s, i).Ok? && InOrder(s)
    ensures InOrder(Apply(h, n, s, i).value)
    ensures s.rows <= Apply(h, n, s, i).value.rows
  {
    OneStep(h, n, s, i);
    hide Apply, Ascends;
    var s' := Apply(h, n, s, i).value;
    if Records(i) {
      forall a, b | 0 <= a <= b < |s'.rows| ensures s'.rows[a].addr <= s'.rows[b].addr {
        assert a < |s.rows| ==> s'.rows[a] == s.rows[a];
        assert b < |s.rows| ==> s'.rows[b] == s.rows[b];
      }
    }
  }

  /** Row addresses never decrease, and the rows already there stay. */
  lemma {:induction false} RunInOrder(h: Header, n: nat, s: State, p: seq<Instr>)
    requires WellFormed(h, s.regs) && InOrder(s) && Ascending(h, n, s, p) && Exec(h, n, s, p).Ok?
    ensures InOrder(Exec(h, n, s, p).value) && s.rows <= Exec(h, n, s, p).value.rows
    decreases |p|
  {
    hide Apply, Ascends, InOrder, WellFormed;
    if p != [] {
      ApplyWellFormed(h, n, s, p[0]);
      StepInOrder(h, n, s, p[0]);
      RunInOrder(h, n, Apply(h, n, s, p[0]).value, p[1..]);
    }
  }

  /** A program that ends in end_sequence records a last row, and it carries the final
      address: the top of the unit. */
  lemma EndRowIsLast(h: Header, n: nat, s: State, p: seq<Instr>)
    requires p != [] && p[|p| - 1] == EndSequence && Exec(h, n, s, p).Ok?
    ensures var e := Exec(h, n, s, p).value;
            e.rows != [] && e.rows[|e.rows| - 1].addr == e.regs.address && e.regs.endSequence
  {
    var q := p[..|p| - 1];
    assert p == q + [EndSequence];
    ExecConcat(h, n, s, q, [EndSequence]);
    ExecOne(h, n, Exec(h, n, s, q).value, EndSequence);
  }

  function TotalBytes(h: Header, n: nat, s: State, p: seq<Instr>): nat
    decreases |p|
  {
    if p == [] then 0
    else
      var a := Apply(h, n, s, p[0]);
      ByteAdvance(h, s.regs, p[0]) + if a.Ok? then TotalBytes(h, n, a.value, p[1..]) else 0
  }

  /** Without set_address, a run moves the address by the sum of its byte advances. */
  lemma {:induction false} AddressIsSum(h: Header, n: nat, s: State, p: seq<Instr>)
    requires WellFormed(h, s.regs) && Ascending(h, n, s, p) && Exec(h, n, s, p).Ok?
    requires forall i :: i in p ==> !i.SetAddress?
    ensures Exec(h, n, s, p).value.regs.address == s.regs.address + TotalBytes(h, n, s, p)
    decreases |p|
  {
    hide Apply, Ascends, WellFormed, ByteAdvance;
    if p != [] {
      assert p[0] in p;
      OneStep(h, n, s, p[0]);
      ApplyWellFormed(h, n, s, p[0]);
      AddressIsSum(h, n, Apply(h, n, s, p[0]).value, p[1..]);
    }
  }

  /** Row order and extent of any successful byte run. With `first` the instructions up to the
      one that records the first row and no set_address after it, the size of the unit,
      top address minus base address, is the sum of the byte advances from there on. */
  lemma RunExtent(h: Header, n: nat, bytes: seq<byte>, end: nat, s: State, off: nat,
                  first: seq<Instr>, rest: seq<Instr>)
    requires WellFormed(h, s.regs) && s.rows == [] && !s.regs.endSequence
    requires Run(h, n, bytes, end, s, off).Ok?
    requires Program(h, bytes, end, off).instrs == first + rest
    requires Ascending(h, n, s, first + rest)
    requires first != [] && Exec(h, n, s, first).Ok? && |Exec(h, n, s, first).value.rows| == 1
    requires Records(first[|first| - 1])
    requires rest != [] && rest[|rest| - 1] == EndSequence && forall i :: i in rest ==> !i.SetAddress?
    ensures var rows := Run(h, n, bytes, end, s, off).value.0.rows;
            && Sorted(rows) && rows != []
            && rows[|rows| - 1].addr - rows[0].addr == TotalBytes(h, n, Exec(h, n, s, first).value, rest)
  {
    hide Run, Program, Apply, WellFormed, Ascending, TotalBytes, Exec;
    RunIsExec(h, n, bytes, end, s, off);
    var p := first + rest;
    ExecConcat(h, n, s, first, rest);
    var m := Exec(h, n, s, first).value;
    AscendingConcat(h, n, s, first, rest);
    ReachableWellFormed(h, n, s, first);
    FirstRow(h, n, s, first, rest);
    RunInOrder(h, n, s, first + rest);
    RunInOrder(h, n, m, rest);
    AddressIsSum(h, n, m, rest);
    EndRowIsLast(h, n, m, rest);
  }

  /** The row recorded by the last of some instructions has the address they end at. */
  lemma FirstRow(h: Header, n: nat, s: State, first: seq<Instr>, rest: seq<Instr>)
    requires WellFormed(h, s.regs) && s.rows == [] && Ascending(h, n, s, first + rest)
    requires first != [] && Exec(h, n, s, first).Ok? && |Exec(h, n, s, first).value.rows| == 1
    requires Records(first[|first| - 1])
    ensures InOrder(Exec(h, n, s, first).value)
    ensures Exec(h, n, s, first).value.rows[0].addr == Exec(h, n, s, first).value.regs.address
  {
    hide Apply, WellFormed, Ascends;
    var k := |first| - 1;
    var q, i := first[..k], first[k];
    assert first == q + [i] && first + rest == q + ([i] + rest);
    ExecConcat(h, n, s, q, [i]);
    var m := Exec(h, n, s, q).value;
    ExecOne(h, n, m, i);
    AscendingConcat(h, n, s, q, [i] + rest);
    ReachableWellFormed(h, n, s, q);
    OneStep(h, n, m, i);
  }

  lemma {:induction false} AscendingConcat(h: Header, n: nat, s: State, p: seq<Instr>, q: seq<Instr>)
    requires Ascending(h, n, s, p + q) && Exec(h, n, s, p).Ok?
    ensures Ascending(h, n, Exec(h, n, s, p).value, q)
    decreases |p|
  {
    hide Apply, Ascends;
    if p == [] {
      assert p + q == q;
    } else {
      assert (p + q)[1..] == p[1..] + q;
      AscendingConcat(h, n, Apply(h, n, s, p[0]).value, p[1..], q);
    }
  }
}
