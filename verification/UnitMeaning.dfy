/** What the index read from encoded units holds, said of the tables and the instructions that
    were encoded. */
module UnitMeaning {
  import opened Words
  import opened LineTable
  import opened LineEncoding
  import opened LineUnit
  import opened LineUnitEncoding
  import opened DebugIndex
  import opened DwarfReader
  import opened RowFields
  import ByteOrder
  import RowOrder
  import StateMachines

  /** The path of a file-table entry: in directory `dir` of the table, counted from 1, or in "."
      for 0. */
  function EntryPath(join: Join, dirs: seq<seq<byte>>, e: FileEntry): Path
    requires e.dir <= |dirs|
  {
    if e.dir == 0 then join([46], e.name) else join(dirs[e.dir - 1], e.name)
  }

  lemma PathOfEntry(join: Join, dirs: seq<seq<byte>>, e: FileEntry)
    requires e.dir <= |dirs| < TWO_31
    ensures PathOf(join, [DOT] + dirs, e) == EntryPath(join, dirs, e)
  {
  }

  /** A unit object that represents an encoded unit has its files, by path, in the order of the
      table. */
  lemma UnitFiles(cu: CompilationUnit, join: Join, u: Source, unit: Unit, j: nat)
    requires Good(u) && Meaning(u).Ok? && SameUnit(unit, Meaning(u).value) && Represents(cu, join, unit)
    ensures |cu.files| == |u.entries|
    ensures j < |u.entries| ==>
              var e := u.entries[j].entry;
              && e.dir <= |u.dirs|
              && cu.files[j].path == if e.dir == 0 then join([46], e.name) else join(u.dirs[e.dir - 1], e.name)
  {
    hide Sequence, Exec, StateMachines.Shows;
    if j < |u.entries| {
      EntryAt(u.entries, j);
      assert u.entries[j] in u.entries;
      assert GoodEntry(u.entries[j], |u.dirs|);
      PathOfEntry(join, u.dirs, u.entries[j].entry);
    }
    hide GoodTables, PathOf;
  }

  lemma {:induction false} EntryAt(items: seq<EntryItem>, j: nat)
    requires j < |items|
    ensures Entries(items)[j] == items[j].entry
  {
    if j > 0 {
      EntryAt(items[1..], j - 1);
    }
  }

  /** And its rows, each with the file, the line and the other fields that the instructions up to
      it give, from line 1, column 0 and file 1 on. */
  lemma UnitLines(cu: CompilationUnit, join: Join, u: Source, unit: Unit, m: nat)
    requires Good(u) && Meaning(u).Ok? && SameUnit(unit, Meaning(u).value) && Represents(cu, join, unit)
    requires m < |u.program| && RowOrder.Records(u.program[m].instr)
    ensures var (p, q) := (Instrs(u.program)[..m + 1], Instrs(u.program)[..m]);
            && |cu.lines| == RowCount(Instrs(u.program)) && RowCount(q) < |cu.lines|
            && var l := cu.lines[RowCount(q)];
            && l.line == I32(1 + LineSum(u.h, p)) && l.col == I32(LastColumn(0, q))
            && l.isa == U8(LastIsa(0, q)) && l.disc == U8(DiscriminatorSince(0, q))
            && 1 <= U32(LastFile(1, q)) <= |cu.files| && l.file == cu.files[U32(LastFile(1, q)) - 1]
            && l.flags == Flags(Negated(u.isStmt != 0, q), SetBefore(false, SetBasicBlock, q),
                                SetBefore(false, SetPrologueEnd, q), SetBefore(false, SetEpilogueBegin, q))
  {
    var (s, p) := (InitialState(u.isStmt != 0), Instrs(u.program));
    FirstRegisters(u.isStmt != 0);
    hide Exec, Good, LineSum, LastColumn, LastIsa, LastFile, DiscriminatorSince, Negated, SetBefore, RowCount;
    hide InitialState, U8, U32, I32;
    RowHolds(u.h, |u.entries|, s, p, m);
    ProgramMeans(u.h, |u.entries|, s, p);
    var row := Exec(u.h, |u.entries|, s, p).value.rows[RowCount(p[..m])];
    SmallFile(row.file);
    assert StateMachines.ShowsRow(cu.files, cu.lines[RowCount(p[..m])], row);
  }

  lemma FirstRegisters(isStmt: bool)
    ensures var s := InitialState(isStmt);
            && s.rows == [] && s.regs.line == 1 && s.regs.column == 0 && s.regs.file == 1 && s.regs.isa == 0
            && s.regs.discriminator == 0 && s.regs.flags == Flags(isStmt, false, false, false)
            && s.regs.address == 0 && s.regs.opIndex == 0 && !s.regs.endSequence
  {
  }

  lemma SmallFile(x: nat)
    requires x < TWO_32
    ensures U32(x) == x
  {
  }

  // ----- sections

  /** The units of an index read from an encoded section are those units. */
  lemma SectionUnits(d: DebugLine, join: Join, order: ByteOrder.Order, us: seq<Source>, k: nat)
    requires forall u :: u in us ==> Good(u) && u.h.order == order && Meaning(u).Ok?
    requires |EncodeSection(us)| < TWO_63 && SectionLands(us, |EncodeSection(us)|, 0) && k < |us|
    requires var r := ParseSection(order, EncodeSection(us), 0);
             r.Ok? ==> |d.cus| == |r.value| && forall i :: 0 <= i < |r.value| ==> Represents(d.cus[i], join, r.value[i])
    ensures ParseSection(order, EncodeSection(us), 0).Ok? && |d.cus| == |us|
    ensures var unit := ParseSection(order, EncodeSection(us), 0).value[k];
            Good(us[k]) && Meaning(us[k]).Ok? && SameUnit(unit, Meaning(us[k]).value) && Represents(d.cus[k], join, unit)
  {
    assert us[k] in us;
    hide Good, Meaning, ParseSection, EncodeSection, SectionLands, Represents, SameUnit;
    SectionRoundTrip(order, us);
  }

  /** File j of unit k of the index is that of entry j, under the path of its directory. */
  lemma SectionFiles(d: DebugLine, join: Join, order: ByteOrder.Order, us: seq<Source>, k: nat, j: nat)
    requires forall u :: u in us ==> Good(u) && u.h.order == order && Meaning(u).Ok?
    requires |EncodeSection(us)| < TWO_63 && SectionLands(us, |EncodeSection(us)|, 0)
    requires k < |us| && j < |us[k].entries|
    requires var r := ParseSection(order, EncodeSection(us), 0);
             r.Ok? ==> |d.cus| == |r.value| && forall i :: 0 <= i < |r.value| ==> Represents(d.cus[i], join, r.value[i])
    ensures |d.cus| == |us| && |d.cus[k].files| == |us[k].entries|
    ensures var (u, e) := (us[k], us[k].entries[j].entry);
            && e.dir <= |u.dirs|
            && d.cus[k].files[j].path == if e.dir == 0 then join([46], e.name) else join(u.dirs[e.dir - 1], e.name)
  {
    hide Good, Meaning, ParseSection, EncodeSection, SectionLands, Represents, SameUnit;
    SectionUnits(d, join, order, us, k);
    UnitFiles(d.cus[k], join, us[k], ParseSection(order, EncodeSection(us), 0).value[k], j);
  }

  /** Line after line of unit k of the index, as UnitLines says. */
  lemma SectionLines(d: DebugLine, join: Join, order: ByteOrder.Order, us: seq<Source>, k: nat, m: nat)
    requires forall u :: u in us ==> Good(u) && u.h.order == order && Meaning(u).Ok?
    requires |EncodeSection(us)| < TWO_63 && SectionLands(us, |EncodeSection(us)|, 0)
    requires k < |us| && m < |us[k].program| && RowOrder.Records(us[k].program[m].instr)
    requires var r := ParseSection(order, EncodeSection(us), 0);
             r.Ok? ==> |d.cus| == |r.value| && forall i :: 0 <= i < |r.value| ==> Represents(d.cus[i], join, r.value[i])
    ensures |d.cus| == |us|
    ensures var (cu, u, p) := (d.cus[k], us[k], Instrs(us[k].program));
            && |cu.lines| == RowCount(p) && RowCount(p[..m]) < |cu.lines|
            && var l := cu.lines[RowCount(p[..m])];
            && l.line == I32(1 + LineSum(u.h, p[..m + 1])) && l.col == I32(LastColumn(0, p[..m]))
            && 1 <= U32(LastFile(1, p[..m])) <= |cu.files| && l.file == cu.files[U32(LastFile(1, p[..m])) - 1]
  {
    hide Good, Meaning, ParseSection, EncodeSection, SectionLands, Represents, SameUnit;
    hide RowCount, LineSum, LastFile, LastColumn, LastIsa, DiscriminatorSince, Negated, SetBefore, U32, I32, U8, Instrs;
    SectionUnits(d, join, order, us, k);
    UnitLines(d.cus[k], join, us[k], ParseSection(order, EncodeSection(us), 0).value[k], m);
  }

  // ----- the registered paths

  lemma {:induction false} KeysOfAll(reg: Registry, join: Join, dirs: seq<seq<byte>>, entries: seq<FileEntry>, p: Path)
    ensures p in EnteredAll(reg, join, dirs, entries) <==>
            p in reg || exists j :: 0 <= j < |entries| && PathOf(join, dirs, entries[j]) == p
  {
    hide PathOf;
    if entries != [] {
      var n := |entries| - 1;
      KeysOfAll(reg, join, dirs, entries[..n], p);
      assert forall j :: 0 <= j < n ==> entries[..n][j] == entries[j];
      if j :| 0 <= j < |entries| && PathOf(join, dirs, entries[j]) == p {
        assert j == n || entries[..n][j] == entries[j];
      }
    }
  }

  /** An entry of the units has this path. */
  predicate Names(join: Join, u: Source, j: int, p: Path) {
    && 0 <= j < |u.entries| && u.entries[j].entry.dir <= |u.dirs|
    && EntryPath(join, u.dirs, u.entries[j].entry) == p
  }

  lemma UnitKeys(reg: Registry, join: Join, u: Source, head: Head, p: Path)
    requires Good(u) && head.dirs == [DOT] + u.dirs && head.entries == Entries(u.entries)
    ensures p in EnteredAll(reg, join, head.dirs, head.entries) <==> p in reg || exists j :: Names(join, u, j, p)
  {
    KeysOfAll(reg, join, head.dirs, head.entries, p);
    forall j: nat | j < |u.entries|
      ensures PathOf(join, head.dirs, head.entries[j]) == p <==> Names(join, u, j, p)
    {
      EntryAt(u.entries, j);
      assert u.entries[j] in u.entries;
      assert GoodEntry(u.entries[j], |u.dirs|);
      PathOfEntry(join, u.dirs, u.entries[j].entry);
    }
    hide Good, PathOf, EnteredAll, EntryPath;
    if j :| Names(join, u, j, p) {
      assert PathOf(join, head.dirs, head.entries[j]) == p;
    }
  }

  lemma NamedByLast(join: Join, us: seq<Source>, front: seq<Source>, last: Source, p: Path)
    requires us == front + [last]
    ensures (exists k, j :: 0 <= k < |us| && Names(join, us[k], j, p)) <==>
            (exists k, j :: 0 <= k < |front| && Names(join, front[k], j, p)) || exists j :: Names(join, last, j, p)
  {
    hide Names;
    if k, j :| 0 <= k < |us| && Names(join, us[k], j, p) {
      assert k == |front| || front[k] == us[k];
    }
    if k, j :| 0 <= k < |front| && Names(join, front[k], j, p) {
      assert Names(join, us[k], j, p);
    }
    if j :| Names(join, last, j, p) {
      assert Names(join, us[|front|], j, p);
    }
  }

  /** The registered paths are those of the entries of the units, and no others. */
  lemma {:induction false} RegisteredPaths(join: Join, units: seq<Unit>, us: seq<Source>, p: Path)
    requires Matches(units, us) && forall u :: u in us ==> Good(u)
    ensures p in EnteredUnits(join, units) <==> exists k, j :: 0 <= k < |us| && Names(join, us[k], j, p)
    decreases |us|
  {
    hide Good, Names, EnteredAll;
    if us != [] {
      var n := |us| - 1;
      assert us[n] in us;
      LastUnit(units, us);
      UnitKeys(EnteredUnits(join, units[..n]), join, us[n], units[n].head, p);
      hide Matches, Meaning, SameUnit;
      RegisteredPaths(join, units[..n], us[..n], p);
      NamedByLast(join, us, us[..n], us[n], p);
    }
  }

  lemma LastUnit(units: seq<Unit>, us: seq<Source>)
    requires Matches(units, us) && us != []
    ensures var (n, head) := (|us| - 1, units[|us| - 1].head);
            Matches(units[..n], us[..n]) && head.dirs == [DOT] + us[n].dirs && head.entries == Entries(us[n].entries)
  {
    var n := |us| - 1;
    MeaningHead(us[n]);
    hide Meaning;
    assert SameUnit(units[n], Meaning(us[n]).value);
  }

  lemma MeaningHead(u: Source)
    requires Meaning(u).Ok?
    ensures Meaning(u).value.head.dirs == [DOT] + u.dirs && Meaning(u).value.head.entries == Entries(u.entries)
  {
    hide Exec;
  }
}
