/** Units of a .debug_line section as bytes: length, header, line program (sections 6.2.4
    and 7.4 of the DWARF 4 standard), and the section as a run of units. */
module LineUnit {
  import opened Words
  import opened ByteOrder
  import opened Cursors
  import Leb128
  import opened LineTable
  import opened LineProgram

  /** An entry of the file table; `dir` is an index in the include directories. */
  datatype FileEntry = FileEntry(name: seq<byte>, dir: nat, date: nat, size: nat)

  datatype Head = Head(h: Header, isStmt: bool, dirs: seq<seq<byte>>, entries: seq<FileEntry>, program: nat)

  datatype Unit = Unit(head: Head, rows: seq<Row>)

  /** "." is the first include directory. */
  const DOT: seq<byte> := [46]

  /** A one-byte read whose result the code does not test leaves the field at 0. */
  function ByteOr0(bytes: seq<byte>, off: nat): byte {
    if off < |bytes| then bytes[off] else 0
  }

  function After(bytes: seq<byte>, off: nat): (next: nat)
    ensures off <= |bytes| ==> off <= next <= |bytes|
  {
    if off < |bytes| then off + 1 else off
  }

  /** minimum_instruction_length, maximum_operations_per_instruction, default_is_stmt, and the
      offset that follows. */
  function ParseOps(version: nat, bytes: seq<byte>, off: nat): (r: Result<(byte, byte, bool, nat)>)
    requires off <= |bytes|
    ensures r.Ok? ==> r.value.3 <= |bytes|
    ensures r != Fail(Endless)
  {
    var o1 := After(bytes, off);
    var maxOps := if version >= 4 then ByteOr0(bytes, o1) else 1;
    var o2 := if version >= 4 then After(bytes, o1) else o1;
    if o2 >= |bytes| then Fail(Undefined) // default_is_stmt is used without having been read
    else Ok((ByteOr0(bytes, off), maxOps, bytes[o2] != 0, o2 + 1))
  }

  /** line_base, line_range, opcode_base, and the offset after standard_opcode_lengths. */
  function ParseOpcodes(bytes: seq<byte>, off: nat): (r: Result<(int, byte, byte, nat)>)
    requires off <= |bytes|
    ensures r.Ok? ==> r.value.3 <= |bytes|
    ensures r != Fail(Endless)
  {
    var o1 := After(bytes, off);
    var o2 := After(bytes, o1);
    var o3 := After(bytes, o2);
    var opcodeBase := ByteOr0(bytes, o2);
    var next := U64(o3 + U64(opcodeBase - 1));
    if next > |bytes| then Fail(DebugLineError)
    else if o3 >= |bytes| then Fail(Undefined) // ASSERT in Buffer::at
    else Ok((I8(ByteOr0(bytes, off)), ByteOr0(bytes, o1), opcodeBase, next))
  }

  /** From minimum_instruction_length to standard_opcode_lengths: the parameters, the default
      of is_stmt, and the offset that follows. */
  function ParseParams(order: Order, is64: bool, version: nat, bytes: seq<byte>, off: nat):
    (r: Result<(Header, bool, nat)>)
    requires off <= |bytes|
    ensures r.Ok? ==> r.value.2 <= |bytes| && r.value.0.order == order && r.value.0.is64 == is64
    ensures r != Fail(Endless)
  {
    var (minInst, maxOps, isStmt, o1) :- ParseOps(version, bytes, off);
    var (lineBase, lineRange, opcodeBase, o2) :- ParseOpcodes(bytes, o1);
    Ok((Header(order, is64, minInst, maxOps, lineBase, lineRange, opcodeBase), isStmt, o2))
  }

  /** The include directories of a header before DWARF 5: strings up to an empty one. */
  function ParseDirs(bytes: seq<byte>, off: nat): (r: Result<(seq<seq<byte>>, nat)>)
    requires off <= |bytes|
    ensures r.Ok? ==> off < r.value.1 <= |bytes|
    ensures r != Fail(Endless)
    decreases |bytes| - off
  {
    var end := StringEnd(bytes, off);
    if end == |bytes| then Fail(DebugLineError)
    else if end == off then Ok(([], off + 1))
    else
      var (dirs, next) :- ParseDirs(bytes, end + 1);
      Ok(([bytes[off..end]] + dirs, next))
  }

  /** The numbers of a file-table entry, after its name. */
  function ParseEntry(name: seq<byte>, bytes: seq<byte>, off: nat, dirs: nat): (r: Result<(FileEntry, nat)>)
    ensures r.Ok? ==> off < r.value.1 <= |bytes|
    ensures r != Fail(Endless)
  {
    var (dir, o1) :- Leb128.DecodeU(bytes, off);
    var (date, o2) :- Leb128.DecodeU(bytes, o1);
    var (size, o3) :- Leb128.DecodeU(bytes, o2);
    if dir != 0 && !(0 <= I32(dir) < dirs) then Fail(Undefined)
    else Ok((FileEntry(name, dir, date, size), o3))
  }

  /** The file table of a header before DWARF 5, given the number of include directories. */
  function ParseFiles(bytes: seq<byte>, off: nat, dirs: nat): (r: Result<(seq<FileEntry>, nat)>)
    requires off <= |bytes|
    ensures r.Ok? ==> off < r.value.1 <= |bytes|
    ensures r != Fail(Endless)
    decreases |bytes| - off
  {
    var end := StringEnd(bytes, off);
    if end == |bytes| then Fail(DebugLineError)
    else if end == off then Ok(([], off + 1))
    else
      var (e, o1) :- ParseEntry(bytes[off..end], bytes, end + 1, dirs);
      var (entries, next) :- ParseFiles(bytes, o1, dirs);
      Ok(([e] + entries, next))
  }

  /** The version and the length of a header: the version, the declared end of the header, and
      the offset that follows. */
  function ParseVersion(order: Order, is64: bool, bytes: seq<byte>, off: nat): (r: Result<(nat, nat, nat)>)
    ensures r.Ok? ==> r.value.2 <= |bytes|
    ensures r != Fail(Endless)
  {
    var w := AddressWidth(is64);
    if off + 2 > |bytes| then Fail(DebugLineError)
    else
      var version := Word(order, bytes, off, 2);
      if version > 5 then Fail(BadVersion)
      else if version == 5 then Fail(Unsupported)
      else if off + 2 + w > |bytes| then Fail(Undefined) // header_length is used without having been read
      else Ok((version, U64(off + 2 + w + Word(order, bytes, off + 2, w)), off + 2 + w))
  }

  /** `readHeader`. The program starts at the declared end of the header if that lies in the
      section, and otherwise where the file table ended. */
  function ParseHeader(order: Order, is64: bool, bytes: seq<byte>, off: nat): (r: Result<Head>)
    requires off <= |bytes|
    ensures r.Ok? ==> r.value.program <= |bytes| && r.value.h.order == order && r.value.h.is64 == is64
    ensures r != Fail(Endless)
  {
    var (version, lines, o0) :- ParseVersion(order, is64, bytes, off);
    var (h, isStmt, o1) :- ParseParams(order, is64, version, bytes, o0);
    var (dirs, o2) :- ParseDirs(bytes, o1);
    var (entries, o3) :- ParseFiles(bytes, o2, |dirs| + 1);
    Ok(Head(h, isStmt, [DOT] + dirs, entries, Moved(|bytes|, o3, lines)))
  }

  /** `readUnitLength`: the format, the length, and the offset that follows. */
  function ParseLength(order: Order, bytes: seq<byte>, off: nat): (r: Result<(bool, nat, nat)>)
    ensures r.Ok? ==> off < r.value.2 <= |bytes|
    ensures r != Fail(Endless)
  {
    if off + 4 > |bytes| then Fail(DebugLineError)
    else
      var l := Word(order, bytes, off, 4);
      if l < 0xffff_ff00 then Ok((false, l, off + 4))
      else if off + 12 > |bytes| then Fail(DebugLineError)
      else Ok((true, Word(order, bytes, off + 4, 8), off + 12))
  }

  function InitialState(isStmt: bool): State {
    State(INITIAL.(flags := INITIAL.flags.(isStmt := isStmt)), [])
  }

  /** The header and the program of a unit that ends at `end`, and the offset of the next unit. */
  function ParseBody(order: Order, is64: bool, bytes: seq<byte>, at: nat, end: nat): (r: Result<(Unit, nat)>)
    requires at <= |bytes|
    ensures r.Ok? ==> r.value.1 <= |bytes|
  {
    var head :- ParseHeader(order, is64, bytes, at);
    if head.program < end then
      var (s, last) :- Run(head.h, |head.entries|, bytes, end, InitialState(head.isStmt), head.program);
      TurnsStay(head.h, |head.entries|, bytes, end, InitialState(head.isStmt), head.program, TurnLimit(|bytes|));
      Ok((Unit(head, s.rows), Moved(|bytes|, last, end)))
    else
      Ok((Unit(head, []), Moved(|bytes|, head.program, end)))
  }

  /** `readCU`: a unit and the offset of the next one. */
  function ParseUnit(order: Order, bytes: seq<byte>, off: nat): (r: Result<(Unit, nat)>)
    ensures r.Ok? ==> r.value.1 <= |bytes|
  {
    var (is64, len, at) :- ParseLength(order, bytes, off);
    ParseBody(order, is64, bytes, at, U64(at + len))
  }

  /** At most k turns of the constructor's loop over the section: the units read, and where the
      cursor is. */
  function SectionTurns(order: Order, bytes: seq<byte>, off: nat, k: nat): (r: Result<(seq<Unit>, nat)>)
    ensures r.Ok? && off <= |bytes| ==> r.value.1 <= |bytes|
    decreases k
  {
    if k == 0 || off >= |bytes| then Ok(([], off))
    else
      var (unit, next) :- ParseUnit(order, bytes, off);
      var (units, last) :- SectionTurns(order, bytes, next, k - 1);
      Ok(([unit] + units, last))
  }

  /** The loop has ended, at the end of the section or in a fault. */
  predicate SectionRead(size: nat, r: Result<(seq<Unit>, nat)>) {
    r.Fail? || r.value.1 >= size
  }

  /** The whole loop, however many turns it takes. What a turn reads depends on its offset alone,
      so a loop that ends does so within as many turns as there are bytes (SectionDecides). */
  function ParseSection(order: Order, bytes: seq<byte>, off: nat): Result<seq<Unit>> {
    var (units, last) :- SectionTurns(order, bytes, off, |bytes|);
    if last >= |bytes| then Ok(units) else Fail(Endless)
  }

  // ----- lengths and versions by number

  /** The initial length, by its first word: the reserved values all announce 64 bits. */
  lemma LengthByWord(order: Order, bytes: seq<byte>, off: nat)
    requires off + 12 <= |bytes|
    ensures var l := Value(order, bytes[off..off + 4]);
            ParseLength(order, bytes, off) ==
            if l < 0xffff_ff00 then Ok((false, l, off + 4))
            else Ok((true, Value(order, bytes[off + 4..off + 12]), off + 12))
  {
    hide Value;
  }

  /** Versions above 5 are rejected, and version 5 is not part of this model; the others are
      read. */
  lemma VersionByWord(order: Order, is64: bool, bytes: seq<byte>, off: nat)
    requires off + 2 <= |bytes|
    ensures var (v, h) := (Value(order, bytes[off..off + 2]), ParseHeader(order, is64, bytes, off));
            && (h == Fail(BadVersion) <==> v > 5) && (v == 5 ==> h == Fail(Unsupported)) && (h.Ok? ==> v < 5)
  {
    hide Value;
    FaultsOfTables(order, is64, bytes, off);
    hide ParseDirs, ParseFiles, ParseParams;
  }

  lemma FaultsOfTables(order: Order, is64: bool, bytes: seq<byte>, off: nat)
    requires off <= |bytes|
    ensures forall version: nat, at :: 0 <= at <= |bytes| ==>
              ParseParams(order, is64, version, bytes, at) != Fail(BadVersion)
    ensures forall at :: 0 <= at <= |bytes| ==> ParseDirs(bytes, at) != Fail(BadVersion)
    ensures forall at, dirs: nat :: 0 <= at <= |bytes| ==> ParseFiles(bytes, at, dirs) != Fail(BadVersion)
  {
    forall at | 0 <= at <= |bytes| ensures ParseDirs(bytes, at) != Fail(BadVersion) {
      FaultsOfDirs(bytes, at);
    }
    forall at, dirs: nat | 0 <= at <= |bytes| ensures ParseFiles(bytes, at, dirs) != Fail(BadVersion) {
      FaultsOfFiles(bytes, at, dirs);
    }
    hide ParseDirs, ParseFiles;
  }

  lemma {:induction false} FaultsOfDirs(bytes: seq<byte>, off: nat)
    requires off <= |bytes|
    ensures ParseDirs(bytes, off) != Fail(BadVersion)
    decreases |bytes| - off
  {
    var end := StringEnd(bytes, off);
    if off < end < |bytes| {
      FaultsOfDirs(bytes, end + 1);
    }
  }

  lemma {:induction false} FaultsOfFiles(bytes: seq<byte>, off: nat, dirs: nat)
    requires off <= |bytes|
    ensures ParseFiles(bytes, off, dirs) != Fail(BadVersion)
    decreases |bytes| - off
  {
    hide Leb128.DecodeU;
    var end := StringEnd(bytes, off);
    if off < end < |bytes| {
      var e := ParseEntry(bytes[off..end], bytes, end + 1, dirs);
      if e.Ok? {
        FaultsOfFiles(bytes, e.value.1, dirs);
      }
    }
  }

  // ----- framing

  /** Where the declared length of the unit puts its end, before any wrap-around. */
  function DeclaredEnd(order: Order, bytes: seq<byte>, off: nat): nat
    requires ParseLength(order, bytes, off).Ok?
  {
    var (_, len, at) := ParseLength(order, bytes, off).value;
    at + len
  }

  /** Whatever the header and the line program consumed, a unit that fits its section is
      followed by the unit at its declared end; one that does not leaves the cursor where
      its line program stopped. */
  lemma NextUnit(order: Order, bytes: seq<byte>, off: nat)
    requires |bytes| < TWO_63 && ParseUnit(order, bytes, off).Ok?
    ensures ParseLength(order, bytes, off).Ok? && off < DeclaredEnd(order, bytes, off)
    ensures DeclaredEnd(order, bytes, off) <= |bytes| ==>
              ParseUnit(order, bytes, off).value.1 == DeclaredEnd(order, bytes, off)
  {
    hide ParseHeader, Run;
    ShortLength(order, bytes, off);
  }

  lemma ShortLength(order: Order, bytes: seq<byte>, off: nat)
    requires |bytes| < TWO_63 && ParseLength(order, bytes, off).Ok?
    ensures off < DeclaredEnd(order, bytes, off)
  {
    hide Word;
  }

  /** The starts of the units of a section, as their declared lengths give them. */
  function Starts(order: Order, bytes: seq<byte>, off: nat, n: nat): Result<seq<nat>>
    decreases n
  {
    if n == 0 then Ok([off])
    else
      var (_, len, at) :- ParseLength(order, bytes, off);
      var starts :- Starts(order, bytes, at + len, n - 1);
      Ok([off] + starts)
  }

  /** The declared lengths stay inside the section. */
  predicate Framed(order: Order, bytes: seq<byte>, off: nat)
    decreases |bytes| - off
  {
    off >= |bytes| ||
    var l := ParseLength(order, bytes, off);
    l.Ok? ==> l.value.2 + l.value.1 <= |bytes| && Framed(order, bytes, l.value.2 + l.value.1)
  }

  /** Units tile a section whose declared lengths stay inside it: each starts at the previous
      start plus the length field plus unit_length, always forward, and after as many turns as
      there are bytes left the last has ended with the section. */
  lemma {:induction false} UnitsTile(order: Order, bytes: seq<byte>, off: nat, k: nat)
    requires |bytes| < TWO_63 && off <= |bytes| && Framed(order, bytes, off)
    ensures var r := SectionTurns(order, bytes, off, k);
            r.Ok? ==>
              var (units, last) := r.value;
              var starts := Starts(order, bytes, off, |units|);
              && starts.Ok? && |starts.value| == |units| + 1 && starts.value[|units|] == last <= |bytes|
              && (k >= |bytes| - off ==> last == |bytes|)
              && forall j :: 0 <= j < |units| ==>
                   && starts.value[j] < starts.value[j + 1]
                   && ParseUnit(order, bytes, starts.value[j]) == Ok((units[j], starts.value[j + 1]))
    decreases k
  {
    hide ParseUnit, ParseLength;
    if k > 0 && off < |bytes| {
      var u := ParseUnit(order, bytes, off);
      if u.Ok? {
        NextUnit(order, bytes, off);
        UnitsTile(order, bytes, u.value.1, k - 1);
      }
    }
  }
}
