/** From the bytes of a section to the two lookups. */
module SectionIndex {
  import Words
  import opened LineTable
  import opened LineProgram
  import opened LineUnit
  import opened LineUnitEncoding
  import opened RowOrder
  import opened DebugIndex
  import opened StateMachines
  import opened DwarfReader

  /** The address is between the first and the last row of a parsed unit. */
  predicate SpansRows(rows: seq<Row>, addr: nat) {
    rows != [] && rows[0].addr <= addr < rows[|rows| - 1].addr
  }

  /** The units of a section have rows in order, and no two of them span the same address. */
  ghost predicate InOrderAndApart(units: seq<Unit>) {
    && (forall k :: 0 <= k < |units| ==> units[k].rows != [] && Sorted(units[k].rows))
    && (forall j, k, a: nat :: 0 <= j < k < |units| ==>
          !(SpansRows(units[j].rows, a) && SpansRows(units[k].rows, a)))
  }

  /** Objects that represent such units meet the condition of the duality of lookups. */
  lemma UnitsAreDisjoint(d: DebugLine, join: Join, units: seq<Unit>)
    requires |d.cus| == |units| && InOrderAndApart(units)
    requires forall k :: 0 <= k < |units| ==> Represents(d.cus[k], join, units[k])
    ensures Disjoint(d.cus)
  {
    forall k | 0 <= k < |units|
      ensures d.cus[k].lines != [] && Ordered(d.cus[k].lines)
      ensures forall a: nat :: Spans(d.cus[k].lines, a) <==> SpansRows(units[k].rows, a)
    {
      assert Represents(d.cus[k], join, units[k]);
      SameAddresses(d.cus[k], units[k].rows);
    }
    forall u | u in d.cus ensures u.lines != [] && Ordered(u.lines) {
      var k :| 0 <= k < |d.cus| && d.cus[k] == u;
    }
  }

  lemma SameAddresses(cu: CompilationUnit, rows: seq<Row>)
    requires Shows(cu, rows) && rows != [] && Sorted(rows)
    ensures Ordered(cu.lines) && cu.lines != []
    ensures forall a: nat :: Spans(cu.lines, a) <==> SpansRows(rows, a)
  {
    assert ShowsRow(cu.files, cu.lines[0], rows[0]);
    assert ShowsRow(cu.files, cu.lines[|rows| - 1], rows[|rows| - 1]);
    assert forall i :: 0 <= i < |rows| ==> ShowsRow(cu.files, cu.lines[i], rows[i]) && cu.lines[i].addr == rows[i].addr;
  }

  /** A unit whose program never places the address below where it is, nor wraps it, has its
      rows in order, and they end with the row of its end_sequence. */
  lemma AscendingUnitInOrder(head: Head, bytes: seq<Words.byte>, end: nat)
    requires var s := InitialState(head.isStmt);
             && Run(head.h, |head.entries|, bytes, end, s, head.program).Ok?
             && Ascending(head.h, |head.entries|, s, Program(head.h, bytes, end, head.program).instrs)
    ensures var (s, last) := Run(head.h, |head.entries|, bytes, end, InitialState(head.isStmt), head.program).value;
            s.rows != [] && Sorted(s.rows) && s.rows[|s.rows| - 1].addr == s.regs.address
  {
    var (h, n, s) := (head.h, |head.entries|, InitialState(head.isStmt));
    RunIsExec(h, n, bytes, end, s, head.program);
    hide Run, Program, Exec, Ascending;
    var p := Program(h, bytes, end, head.program).instrs;
    RunInOrder(h, n, s, p);
    EndRowIsLast(h, n, s, p);
  }

  /** After reading a section whose units are in order and apart, an address lies in a range
      reported for a line of a file exactly when the address lookup gives a row of that file
      and line. */
  lemma SectionLookupsAreDual(d: DebugLine, join: Join, units: seq<Unit>, f: File, line: int, addr: nat)
    requires Linked(d.files, d.cus) && |d.cus| == |units| && InOrderAndApart(units)
    requires forall k :: 0 <= k < |units| ==> Represents(d.cus[k], join, units[k])
    requires f.path in d.files && d.files[f.path] == f
    ensures (exists r :: r in FoundIn(f, f.units, line) && r.0 <= addr < r.1) <==>
            GivesLine(d.cus, LookupFrom(d.cus, 0, addr), f, line)
  {
    hide Linked, Represents, InOrderAndApart, Disjoint, FoundIn, GivesLine, LookupFrom;
    UnitsAreDisjoint(d, join, units);
    LookupsAreDual(d, f, line, addr);
  }

  /** A section of one unit that its header fills leads to an undefined lookup: the index read
      from it answers no address. */
  lemma BareSectionLookup(d: DebugLine, join: Join, u: Source, addr: nat)
    requires GoodTables(u) && LengthFits(u.h.is64, |EncodeFramed(u, [])|) && |EncodeBare(u)| < Words.TWO_63
    requires var r := ParseSection(u.h.order, EncodeBare(u), 0);
             r.Ok? ==> |d.cus| == |r.value| && forall k :: 0 <= k < |r.value| ==> Represents(d.cus[k], join, r.value[k])
    ensures ParseSection(u.h.order, EncodeBare(u), 0).Ok?
    ensures LookupFrom(d.cus, 0, addr) == UndefinedLookup
  {
    hide ParseSection, EncodeBare, EncodeFramed, GoodTables;
    BareSection(u);
    assert d.cus[0].lines == [];
  }
}
