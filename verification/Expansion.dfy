/** Special opcodes are abbreviations (section 6.2.5.1 of the DWARF 4 standard). */
module Expansion {
  import opened Words
  import opened Arithmetic
  import Cursors
  import opened LineTable
  import opened LineProgram
  import opened LineEncoding

  /** A special opcode as advance_line, advance_pc, copy, and const_add_pc as the advance of
      special opcode 255. With a zero line_range neither has a meaning to expand to. */
  function Expanded(h: Header, i: Instr): seq<Instr> {
    if h.lineRange == 0 then [i]
    else match i
      case Special(op) =>
        [AdvanceLineBy(h.lineBase + Mod(op, h.lineRange)), AdvancePcBy(Div(op, h.lineRange)), Copy]
      case ConstAddPc => [AdvancePcBy(OpAdvance(h, Special(255 - h.opcodeBase)))]
      case _ => [i]
  }

  function Expand(h: Header, p: seq<Instr>): seq<Instr> {
    if p == [] then [] else Expanded(h, p[0]) + Expand(h, p[1..])
  }

  lemma ExecThree(h: Header, n: nat, s: State, a: Instr, b: Instr, c: Instr)
    ensures Exec(h, n, s, [a, b, c]) ==
            var s1 := Apply(h, n, s, a);
            if s1.Fail? then s1
            else
              var s2 := Apply(h, n, s1.value, b);
              if s2.Fail? then s2 else Apply(h, n, s2.value, c)
  {
    hide Apply;
    assert [a, b, c] == [a] + ([b] + [c]);
    ExecStep(h, n, s, a, [b] + [c]);
    var s1 := Apply(h, n, s, a);
    if s1.Ok? {
      ExecStep(h, n, s1.value, b, [c]);
      var s2 := Apply(h, n, s1.value, b);
      if s2.Ok? {
        ExecOne(h, n, s2.value, c);
      }
    }
  }

  lemma ExpandedMeans(h: Header, n: nat, s: State, i: Instr)
    ensures Exec(h, n, s, Expanded(h, i)) == Apply(h, n, s, i)
  {
    hide Exec, Div, Mod;
    if h.lineRange != 0 && i.Special? {
      var e := Expanded(h, i);
      ExecThree(h, n, s, e[0], e[1], Copy);
    } else {
      ExecOne(h, n, s, Expanded(h, i)[0]);
    }
  }

  /** Expanding every special opcode and every const_add_pc of any program leaves its rows,
      its registers and its faults unchanged, from any state. */
  lemma {:induction false} ExpandMeans(h: Header, n: nat, s: State, p: seq<Instr>)
    ensures Exec(h, n, s, Expand(h, p)) == Exec(h, n, s, p)
    decreases |p|
  {
    hide Apply, Expanded;
    if p != [] {
      ExpandedMeans(h, n, s, p[0]);
      ExecConcat(h, n, s, Expanded(h, p[0]), Expand(h, p[1..]));
      var a := Apply(h, n, s, p[0]);
      if a.Ok? {
        ExpandMeans(h, n, a.value, p[1..]);
      }
    }
  }

  /** The two encodings, at whatever places in whatever sections, are read to the same rows
      and registers. */
  lemma ExpansionRunsTheSame(h: Header, n: nat, s: State, p: seq<Item>, q: seq<Item>,
                             bytes1: seq<byte>, off1: nat, bytes2: seq<byte>, off2: nat)
    requires Sequence(h, p) && Sequence(h, q) && Instrs(q) == Expand(h, Instrs(p))
    requires !s.regs.endSequence
    requires AllLand(h, |bytes1|, off1, p) && AllLand(h, |bytes2|, off2, q)
    requires Cursors.Holds(bytes1, off1, EncodeProgram(h, p)) && Cursors.Holds(bytes2, off2, EncodeProgram(h, q))
    ensures var (r1, r2) := (Run(h, n, bytes1, |bytes1|, s, off1), Run(h, n, bytes2, |bytes2|, s, off2));
            if r1.Ok? then r2.Ok? && r1.value.0 == r2.value.0 else r2.Fail? && r1.fault == r2.fault
  {
    hide Run, Exec, Expand, Encodable, Instrs, EncodeProgram, Cursors.Holds, AllLand;
    HoldsWithin(bytes1, off1, EncodeProgram(h, p));
    HoldsWithin(bytes2, off2, EncodeProgram(h, q));
    RunEncoded(h, n, bytes1, |bytes1|, s, off1, p);
    RunEncoded(h, n, bytes2, |bytes2|, s, off2, q);
    ExpandMeans(h, n, s, Instrs(p));
  }

  /** The special opcode for a line and an operation advance, where one exists. */
  predicate HasSpecial(h: Header, line: int, adv: nat) {
    && h.lineBase <= line < h.lineBase + h.lineRange
    && line - h.lineBase + h.lineRange * adv + h.opcodeBase < TWO_8
  }

  /** Any advance that fits is abbreviated by the opcode of the standard's formula, and
      every special opcode abbreviates an advance that fits: the formula is its inverse. */
  lemma SpecialOfAdvance(h: Header, n: nat, s: State, line: int, adv: nat)
    requires HasSpecial(h, line, adv)
    ensures var op := line - h.lineBase + h.lineRange * adv;
            && 0 <= op < TWO_8
            && Apply(h, n, s, Special(op)) == Exec(h, n, s, [AdvanceLineBy(line), AdvancePcBy(adv), Copy])
  {
    var op := line - h.lineBase + h.lineRange * adv;
    Nonnegative(adv, h.lineRange);
    DivModSplit(op, h.lineRange, adv, line - h.lineBase);
    ExpandedMeans(h, n, s, Special(op));
  }

  lemma AdvanceOfSpecial(h: Header, op: byte)
    requires h.lineRange > 0 && op + h.opcodeBase < TWO_8
    ensures var (line, adv) := (h.lineBase + Mod(op, h.lineRange), Div(op, h.lineRange));
            HasSpecial(h, line, adv) && op == line - h.lineBase + h.lineRange * adv
  {
    DivMod(op, h.lineRange);
    hide Div, Mod;
  }
}
